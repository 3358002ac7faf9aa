/** The explore index: the category tables of unique metadata strings, the
    records that point into them, and how `explore_add_unique_string`, the
    per-record block of `explore_build_list` and its final sort and rank
    pass build them. A string allocated in the arena is identified by its
    position in `ExploreState.strings`; a NULL pointer is `None`. */
module Explore {
  import opened Bytes
  import opened Normalize
  import Hash
  import HashMap
  import Compare

  /** `EXPLORE_CAT_COUNT` and the `EXPLORE_BY_*` categories. */
  const CAT_COUNT: nat := 10
  const DEVELOPER: nat := 0
  const PUBLISHER: nat := 1
  const RELEASE_YEAR: nat := 2
  const PLAYER_COUNT: nat := 3
  const GENRE: nat := 4
  const ORIGIN: nat := 5
  const REGION: nat := 6
  const FRANCHISE: nat := 7
  const TAGS: nat := 8
  const SYSTEM: nat := 9

  /** The `use_split` column of `explore_by_info`. */
  predicate UseSplit(cat: nat)
  {
    cat == DEVELOPER || cat == PUBLISHER || cat == GENRE || cat == TAGS
  }

  /** The `is_company` column of `explore_by_info`. */
  predicate IsCompany(cat: nat)
  {
    cat == DEVELOPER || cat == PUBLISHER
  }

  /** `explore_string_t`: the rank `idx` the final pass assigns, and the text. */
  datatype ExploreString = ExploreString(idx: nat, str: seq<byte>)

  /** `explore_entry_t`: the playlist label, the primary value of every
      category, the NULL-terminated list of further values, and the original
      title if the database has one. */
  datatype Entry = Entry(labelStr: seq<byte>, primary: seq<Option<nat>>, split: Option<SplitList>, originalTitle: Option<seq<byte>>)

  /** `explore_string_t **split`: string ids closed by NULL. */
  type SplitList = seq<Option<nat>>

  /** The key of a value in its category map: `ex_hash32_nocase_filtered`
      over the value with the range `'0'`..255. */
  function ValueKey(v: seq<byte>): (h: u32)
    ensures h != 0
  {
    Hash.FilteredHash(v, DIGIT_ZERO, 255)
  }

  /** What one call of `explore_add_unique_string` works on for one category:
      the arena strings, the table `by[cat]`, the category map (hash to
      string id + 1), the record's primary value and the split buffer. */
  datatype Cat = Cat(pool: seq<ExploreString>, table: seq<nat>, index: map<u32, nat>, first: Option<nat>, rest: seq<nat>)

  /** The string a value resolves to: the one stored under its key, or
      the one allocated for it next. */
  function Resolved(c: Cat, v: seq<byte>, key: seq<byte> -> u32): nat
  {
    var h := key(v);
    if h in c.index && c.index[h] != 0 then c.index[h] - 1 else |c.pool|
  }

  /** One value found in the field: looked up by its key, allocated and
      added to the table when the key is new, then made the primary value or
      pushed onto the split buffer. */
  function AddValue(c: Cat, v: seq<byte>, key: seq<byte> -> u32): Cat
  {
    var id := Resolved(c, v, key);
    var c1 := Intern(c, v, key);
    if c1.first.None? then c1.(first := Some(id)) else c1.(rest := c1.rest + [id])
  }

  /** The lookup half of one value: a new key allocates the string, appends
      it to the table and stores id + 1 under the key. */
  function Intern(c: Cat, v: seq<byte>, key: seq<byte> -> u32): Cat
  {
    var id := Resolved(c, v, key);
    if id < |c.pool| then c
    else c.(pool := c.pool + [ExploreString(0, v)], table := c.table + [id], index := c.index[key(v) := id + 1])
  }

  /** All values of a field, in order. */
  function AddValues(c: Cat, vs: seq<seq<byte>>, key: seq<byte> -> u32): Cat
  {
    if vs == [] then c else AddValue(AddValues(c, vs[..|vs| - 1], key), vs[|vs| - 1], key)
  }

  /** The strings `r` refers to beyond those `c` already referred to: the
      primary value if it was set in between, then what was pushed onto the
      split buffer. */
  function Added(c: Cat, r: Cat): seq<nat>
  {
    (if c.first.None? && r.first.Some? then [r.first.value] else [])
      + (if |c.rest| <= |r.rest| then r.rest[|c.rest|..] else [])
  }

  /** The ids `lo`, ..., `hi - 1`. */
  function Range(lo: nat, hi: nat): (r: seq<nat>)
    requires lo <= hi
    ensures |r| == hi - lo
    ensures forall k :: 0 <= k < |r| ==> r[k] == lo + k
  {
    seq(hi - lo, k => lo + k)
  }

  /** The category map and the table agree: every table string is stored
      under its key with value id + 1, every binding is such a string, and no
      string is in the table twice. */
  ghost predicate CatIndexed(pool: seq<ExploreString>, table: seq<nat>, index: map<u32, nat>, key: seq<byte> -> u32)
  {
    TableStored(pool, table, index, key) && IndexInTable(pool, table, index, key) && Distinct(table)
  }

  ghost predicate TableStored(pool: seq<ExploreString>, table: seq<nat>, index: map<u32, nat>, key: seq<byte> -> u32)
  {
    forall k :: 0 <= k < |table| ==>
      table[k] < |pool| && key(pool[table[k]].str) in index && index[key(pool[table[k]].str)] == table[k] + 1
  }

  ghost predicate IndexInTable(pool: seq<ExploreString>, table: seq<nat>, index: map<u32, nat>, key: seq<byte> -> u32)
  {
    forall h :: h in index ==>
      index[h] >= 1 && Has(table, index[h] - 1) && index[h] - 1 < |pool| && key(pool[index[h] - 1].str) == h
  }

  predicate Distinct(s: seq<nat>)
  {
    forall i, j :: 0 <= i < j < |s| ==> s[i] != s[j]
  }

  /** `x` occurs in `s`. */
  predicate Has(s: seq<nat>, x: nat)
  {
    s != [] && (s[|s| - 1] == x || Has(s[..|s| - 1], x))
  }

  lemma {:induction false} HasIsIn(s: seq<nat>, x: nat)
    ensures Has(s, x) <==> x in multiset(s)
  {
    if s != [] {
      HasIsIn(s[..|s| - 1], x);
      assert s == s[..|s| - 1] + [s[|s| - 1]];
    }
  }

  /** No two strings of a category table have the same key: a table never
      holds two values that differ only in case or in bytes below `'0'`. */
  lemma TableKeysDistinct(pool: seq<ExploreString>, table: seq<nat>, index: map<u32, nat>, i: nat, j: nat, key: seq<byte> -> u32)
    requires CatIndexed(pool, table, index, key)
    requires i < j < |table|
    ensures key(pool[table[i]].str) != key(pool[table[j]].str)
  {
  }

  lemma AddValuesSnoc(c: Cat, vs: seq<seq<byte>>, v: seq<byte>, key: seq<byte> -> u32)
    ensures AddValues(c, vs + [v], key) == AddValue(AddValues(c, vs, key), v, key)
  {
    assert (vs + [v])[..|vs|] == vs;
  }

  /** Allocating a value under a key the map does not hold keeps the map and
      the table in agreement. */
  lemma AddNewIndexed(pool: seq<ExploreString>, table: seq<nat>, index: map<u32, nat>, v: seq<byte>, key: seq<byte> -> u32)
    requires CatIndexed(pool, table, index, key) && key(v) !in index
    ensures CatIndexed(pool + [ExploreString(0, v)], table + [|pool|], index[key(v) := |pool| + 1], key)
  {
    AddNewStored(pool, table, index, v, key);
    AddNewInTable(pool, table, index, v, key);
    var table' := table + [|pool|];
    forall i, j | 0 <= i < j < |table'|
      ensures table'[i] != table'[j]
    {
      if j == |table| {
        assert table[i] < |pool|;
      }
    }
  }

  lemma AddNewStored(pool: seq<ExploreString>, table: seq<nat>, index: map<u32, nat>, v: seq<byte>, key: seq<byte> -> u32)
    requires TableStored(pool, table, index, key) && key(v) !in index
    ensures TableStored(pool + [ExploreString(0, v)], table + [|pool|], index[key(v) := |pool| + 1], key)
  {
    var h := key(v);
    var pool', table', index' := pool + [ExploreString(0, v)], table + [|pool|], index[h := |pool| + 1];
    forall k | 0 <= k < |table'|
      ensures table'[k] < |pool'| && key(pool'[table'[k]].str) in index'
        && index'[key(pool'[table'[k]].str)] == table'[k] + 1
    {
      if k < |table| {
        assert pool'[table'[k]] == pool[table[k]];
      }
    }
  }

  lemma AddNewInTable(pool: seq<ExploreString>, table: seq<nat>, index: map<u32, nat>, v: seq<byte>, key: seq<byte> -> u32)
    requires IndexInTable(pool, table, index, key) && key(v) !in index
    ensures IndexInTable(pool + [ExploreString(0, v)], table + [|pool|], index[key(v) := |pool| + 1], key)
  {
    var h := key(v);
    var pool', table', index' := pool + [ExploreString(0, v)], table + [|pool|], index[h := |pool| + 1];
    assert table'[..|table|] == table;
    forall hh | hh in index'
      ensures index'[hh] >= 1 && Has(table', index'[hh] - 1) && index'[hh] - 1 < |pool'|
        && key(pool'[index'[hh] - 1].str) == hh
    {
      if hh != h {
        assert pool'[index[hh] - 1] == pool[index[hh] - 1];
      }
    }
  }

  /** One value keeps the map and the table in agreement; the table grows by
      one new string exactly when the value's key was not yet stored. */
  lemma AddValueIndexed(c: Cat, v: seq<byte>, key: seq<byte> -> u32)
    requires CatIndexed(c.pool, c.table, c.index, key)
    ensures var r := AddValue(c, v, key);
      && CatIndexed(r.pool, r.table, r.index, key)
      && (key(v) in c.index ==> r.pool == c.pool && r.table == c.table)
      && (key(v) !in c.index ==> r.pool == c.pool + [ExploreString(0, v)] && r.table == c.table + [|c.pool|])
  {
    if key(v) !in c.index {
      AddNewIndexed(c.pool, c.table, c.index, v, key);
    }
  }

  /** The string one value resolves to is in the table and has the value's
      key. */
  lemma AddValueResolved(c: Cat, v: seq<byte>, key: seq<byte> -> u32)
    requires CatIndexed(c.pool, c.table, c.index, key)
    ensures var r := AddValue(c, v, key); var id := Resolved(c, v, key);
      Has(r.table, id) && id < |r.pool| && key(r.pool[id].str) == key(v)
  {
    AddValueIndexed(c, v, key);
    var r := AddValue(c, v, key);
    if Resolved(c, v, key) == |c.pool| {
      assert r.table[..|c.table|] == c.table;
    }
  }

  /** The record gains exactly one reference per value. */
  lemma AddValueAdded(c: Cat, m: Cat, v: seq<byte>, key: seq<byte> -> u32)
    requires |c.rest| <= |m.rest|
    requires c.first.Some? ==> m.first == c.first
    requires c.first.None? && m.first.None? ==> m.rest == c.rest
    ensures Added(c, AddValue(m, v, key)) == Added(c, m) + [Resolved(m, v, key)]
  {
    var r := AddValue(m, v, key);
    var id := Resolved(m, v, key);
    if m.first.Some? {
      assert r.rest[|c.rest|..] == m.rest[|c.rest|..] + [id];
    }
  }

  /** The pool and the table of `r` extend those of `c`, the table by the
      strings allocated in between. */
  ghost predicate Extends(c: Cat, r: Cat)
  {
    && |c.pool| <= |r.pool| && r.pool[..|c.pool|] == c.pool
    && r.table == c.table + Range(|c.pool|, |r.pool|)
  }

  /** Every string allocated in between is one of the values `vs`, not yet
      ranked. */
  ghost predicate NewFrom(c: Cat, r: Cat, vs: seq<seq<byte>>)
  {
    forall id :: |c.pool| <= id < |r.pool| ==> r.pool[id].idx == 0 && r.pool[id].str in vs
  }

  /** A primary value once set is kept, it is set as soon as there is a
      value, and the split buffer is only appended to. */
  ghost predicate FirstKept(c: Cat, r: Cat, n: nat)
  {
    && (c.first.Some? ==> r.first == c.first)
    && (r.first.None? <==> c.first.None? && n == 0)
    && |c.rest| <= |r.rest| && r.rest[..|c.rest|] == c.rest
    && (c.first.None? && r.first.None? ==> r.rest == c.rest)
  }

  /** The record gained one reference per value, in order, each to a string
      of the table with the same key as the value. */
  ghost predicate Resolves(c: Cat, r: Cat, vs: seq<seq<byte>>, key: seq<byte> -> u32)
  {
    && |Added(c, r)| == |vs|
    && (forall k :: 0 <= k < |vs| ==>
          Has(r.table, Added(c, r)[k]) && Added(c, r)[k] < |r.pool| && key(r.pool[Added(c, r)[k]].str) == key(vs[k]))
  }

  lemma ExtendStep(c: Cat, m: Cat, v: seq<byte>, key: seq<byte> -> u32)
    requires CatIndexed(m.pool, m.table, m.index, key) && Extends(c, m)
    ensures Extends(c, AddValue(m, v, key))
  {
    AddValueIndexed(m, v, key);
    var r := AddValue(m, v, key);
    if key(v) !in m.index {
      assert r.pool[..|c.pool|] == m.pool[..|c.pool|];
      RangeSnoc(|c.pool|, |m.pool|);
    }
  }

  lemma RangeSnoc(lo: nat, hi: nat)
    requires lo <= hi
    ensures Range(lo, hi + 1) == Range(lo, hi) + [hi]
  {
    assert forall k :: 0 <= k < hi + 1 - lo ==> Range(lo, hi + 1)[k] == (Range(lo, hi) + [hi])[k];
  }

  lemma NewStep(c: Cat, m: Cat, init: seq<seq<byte>>, v: seq<byte>, key: seq<byte> -> u32)
    requires CatIndexed(m.pool, m.table, m.index, key) && NewFrom(c, m, init)
    ensures NewFrom(c, AddValue(m, v, key), init + [v])
  {
    AddValueIndexed(m, v, key);
    var r := AddValue(m, v, key);
    forall id | |c.pool| <= id < |r.pool|
      ensures r.pool[id].idx == 0 && r.pool[id].str in init + [v]
    {
      if id < |m.pool| {
        assert r.pool[id] == m.pool[id];
      }
    }
  }

  lemma FirstStep(c: Cat, m: Cat, n: nat, v: seq<byte>, key: seq<byte> -> u32)
    requires FirstKept(c, m, n)
    ensures FirstKept(c, AddValue(m, v, key), n + 1)
  {
    var r := AddValue(m, v, key);
    if m.first.Some? {
      assert r.rest[..|c.rest|] == m.rest[..|c.rest|];
    }
  }

  lemma ResolveStep(c: Cat, m: Cat, init: seq<seq<byte>>, v: seq<byte>, key: seq<byte> -> u32)
    requires CatIndexed(m.pool, m.table, m.index, key) && FirstKept(c, m, |init|) && Resolves(c, m, init, key)
    ensures Resolves(c, AddValue(m, v, key), init + [v], key)
  {
    AddValueAdded(c, m, v, key);
    AddValueResolved(m, v, key);
    AddValueIndexed(m, v, key);
    var r := AddValue(m, v, key);
    var vs := init + [v];
    forall k | 0 <= k < |vs|
      ensures Has(r.table, Added(c, r)[k]) && Added(c, r)[k] < |r.pool| && key(r.pool[Added(c, r)[k]].str) == key(vs[k])
    {
      if k < |init| {
        var id := Added(c, m)[k];
        assert Added(c, r)[k] == id;
        if key(v) !in m.index {
          assert r.table[..|m.table|] == m.table;
          HasGrow(m.table, r.table, id);
          assert r.pool[id] == m.pool[id];
        }
        assert vs[k] == init[k];
      } else {
        assert Added(c, r)[k] == Resolved(m, v, key);
      }
    }
  }

  /** Over all values of a field the map and the table keep agreeing, and
      the pool and the table only grow, by strings made from the values. */
  lemma {:induction false} AddValuesIndexed(c: Cat, vs: seq<seq<byte>>, key: seq<byte> -> u32)
    requires CatIndexed(c.pool, c.table, c.index, key)
    ensures CatIndexed(AddValues(c, vs, key).pool, AddValues(c, vs, key).table, AddValues(c, vs, key).index, key)
    decreases |vs|
  {
    if vs != [] {
      AddValuesIndexed(c, vs[..|vs| - 1], key);
      AddValueIndexed(AddValues(c, vs[..|vs| - 1], key), vs[|vs| - 1], key);
    }
  }

  lemma {:induction false} AddValuesGrown(c: Cat, vs: seq<seq<byte>>, key: seq<byte> -> u32)
    requires CatIndexed(c.pool, c.table, c.index, key)
    ensures Extends(c, AddValues(c, vs, key)) && NewFrom(c, AddValues(c, vs, key), vs)
    decreases |vs|
  {
    if vs == [] {
      assert c.pool[..|c.pool|] == c.pool;
      assert c.table + Range(|c.pool|, |c.pool|) == c.table;
    } else {
      var init := vs[..|vs| - 1];
      var v := vs[|vs| - 1];
      AddValuesGrown(c, init, key);
      AddValuesIndexed(c, init, key);
      var m := AddValues(c, init, key);
      ExtendStep(c, m, v, key);
      NewStep(c, m, init, v, key);
      assert init + [v] == vs;
    }
  }

  /** Over all values of a field the primary value is kept if it was set and
      is set otherwise as soon as there is a value. */
  lemma {:induction false} AddValuesFirst(c: Cat, vs: seq<seq<byte>>, key: seq<byte> -> u32)
    ensures FirstKept(c, AddValues(c, vs, key), |vs|)
    decreases |vs|
  {
    if vs == [] {
      assert c.rest[..|c.rest|] == c.rest;
    } else {
      var init := vs[..|vs| - 1];
      AddValuesFirst(c, init, key);
      FirstStep(c, AddValues(c, init, key), |init|, vs[|vs| - 1], key);
    }
  }

  lemma ResolvesSnoc(c: Cat, init: seq<seq<byte>>, v: seq<byte>, key: seq<byte> -> u32)
    requires CatIndexed(c.pool, c.table, c.index, key)
    requires Resolves(c, AddValues(c, init, key), init, key)
    ensures Resolves(c, AddValues(c, init + [v], key), init + [v], key)
  {
    var m := AddValues(c, init, key);
    AddValuesIndexed(c, init, key);
    AddValuesFirst(c, init, key);
    ResolveStep(c, m, init, v, key);
    AddValuesSnoc(c, init, v, key);
  }

  /** Every value of a field adds, in order, one reference to a table string
      with the value's key. */
  lemma {:induction false} AddValuesResolves(c: Cat, vs: seq<seq<byte>>, key: seq<byte> -> u32)
    requires CatIndexed(c.pool, c.table, c.index, key)
    ensures Resolves(c, AddValues(c, vs, key), vs, key)
    decreases |vs|
  {
    if vs != [] {
      var init := vs[..|vs| - 1];
      var v := vs[|vs| - 1];
      AddValuesResolves(c, init, key);
      ResolvesSnoc(c, init, v, key);
      assert init + [v] == vs;
    }
  }

  /** What a table holds it still holds after growing at the end. */
  lemma {:induction false} HasGrow(s: seq<nat>, t: seq<nat>, x: nat)
    requires |s| <= |t| && t[..|s|] == s && Has(s, x)
    ensures Has(t, x)
    decreases |t|
  {
    if |t| > |s| {
      assert t[..|t| - 1][..|s|] == s;
      HasGrow(s, t[..|t| - 1], x);
    } else {
      assert t == s;
    }
  }

  /** The state `explore_build_list` maintains, over the arena strings, the
      category tables and the records. */
  ghost predicate StateOk(pool: seq<ExploreString>, tables: seq<seq<nat>>, entries: seq<Entry>)
  {
    && |tables| == CAT_COUNT
    && PoolOk(pool)
    && TablesInPool(pool, tables)
    && TablesDistinct(tables)
    && TablesDisjoint(tables)
    && EntriesOk(pool, tables, entries)
  }

  /** Every arena string is a non-empty C string. */
  ghost predicate PoolOk(pool: seq<ExploreString>)
  {
    forall id :: 0 <= id < |pool| ==> IsCString(pool[id].str) && pool[id].str != []
  }

  ghost predicate TablesInPool(pool: seq<ExploreString>, tables: seq<seq<nat>>)
  {
    forall c, i :: 0 <= c < |tables| && 0 <= i < |tables[c]| ==> tables[c][i] < |pool|
  }

  /** No table lists a string twice. */
  ghost predicate TablesDistinct(tables: seq<seq<nat>>)
  {
    forall c :: 0 <= c < |tables| ==> Distinct(tables[c])
  }

  /** No string is in two tables. */
  ghost predicate TablesDisjoint(tables: seq<seq<nat>>)
  {
    forall c, d, i, j :: 0 <= c < d < |tables| && 0 <= i < |tables[c]| && 0 <= j < |tables[d]| ==> tables[c][i] != tables[d][j]
  }

  ghost predicate EntriesOk(pool: seq<ExploreString>, tables: seq<seq<nat>>, entries: seq<Entry>)
  {
    forall k :: 0 <= k < |entries| ==> EntryOk(pool, tables, entries[k])
  }

  /** A record: a non-empty C-string label, a primary value (if any) from
      each category's own table, and a split list of arena strings closed by
      NULL. */
  ghost predicate EntryOk(pool: seq<ExploreString>, tables: seq<seq<nat>>, e: Entry)
  {
    && |tables| == CAT_COUNT
    && |e.primary| == CAT_COUNT && IsCString(e.labelStr) && e.labelStr != []
    && (forall c :: 0 <= c < CAT_COUNT && e.primary[c].Some? ==> e.primary[c].value in multiset(tables[c]))
    && (e.split.Some? ==> SplitOk(pool, e.split.value))
  }

  /** A NULL-terminated list with at least one arena string before NULL. */
  ghost predicate SplitOk(pool: seq<ExploreString>, sp: seq<Option<nat>>)
  {
    && |sp| >= 2 && sp[|sp| - 1] == None
    && (forall i :: 0 <= i < |sp| - 1 ==> sp[i].Some? && sp[i].value < |pool|)
  }

  /** Extending the pool and one table with the new ids keeps the state
      well formed and keeps the records valid. */
  lemma StateGrow(pool: seq<ExploreString>, pool': seq<ExploreString>, tables: seq<seq<nat>>, entries: seq<Entry>, cat: nat)
    requires StateOk(pool, tables, entries) && cat < CAT_COUNT
    requires |pool| <= |pool'| && pool'[..|pool|] == pool
    requires forall id :: |pool| <= id < |pool'| ==> IsCString(pool'[id].str) && pool'[id].str != []
    ensures StateOk(pool', tables[cat := tables[cat] + Range(|pool|, |pool'|)], entries)
  {
    var tables' := tables[cat := tables[cat] + Range(|pool|, |pool'|)];
    forall id | 0 <= id < |pool'|
      ensures IsCString(pool'[id].str) && pool'[id].str != []
    {
      if id < |pool| {
        assert pool'[id] == pool[id];
      }
    }
    GrowDistinct(pool, pool', tables, cat);
    GrowDisjoint(pool, pool', tables, cat);
    GrowEntries(pool, pool', tables, entries, cat);
  }

  lemma GrowDistinct(pool: seq<ExploreString>, pool': seq<ExploreString>, tables: seq<seq<nat>>, cat: nat)
    requires TablesInPool(pool, tables) && TablesDistinct(tables) && cat < |tables| && |pool| <= |pool'|
    ensures var tables' := tables[cat := tables[cat] + Range(|pool|, |pool'|)];
      TablesInPool(pool', tables') && TablesDistinct(tables')
  {
    var t := tables[cat] + Range(|pool|, |pool'|);
    assert Distinct(tables[cat]);
    forall i, j | 0 <= i < j < |t|
      ensures t[i] != t[j]
    {
      if i < |tables[cat]| && j >= |tables[cat]| {
        assert t[i] < |pool|;
      }
    }
  }

  lemma GrowDisjoint(pool: seq<ExploreString>, pool': seq<ExploreString>, tables: seq<seq<nat>>, cat: nat)
    requires TablesInPool(pool, tables) && TablesDisjoint(tables) && cat < |tables|
    requires |pool| <= |pool'|
    ensures TablesDisjoint(tables[cat := tables[cat] + Range(|pool|, |pool'|)])
  {
    var tables' := tables[cat := tables[cat] + Range(|pool|, |pool'|)];
    forall c, d, i, j | 0 <= c < d < |tables'| && 0 <= i < |tables'[c]| && 0 <= j < |tables'[d]|
      ensures tables'[c][i] != tables'[d][j]
    {
      if c == cat && i >= |tables[cat]| {
        assert tables[d][j] < |pool|;
      } else if d == cat && j >= |tables[cat]| {
        assert tables[c][i] < |pool|;
      } else {
        assert tables'[c][i] == tables[c][i] && tables'[d][j] == tables[d][j];
      }
    }
  }

  lemma GrowEntries(pool: seq<ExploreString>, pool': seq<ExploreString>, tables: seq<seq<nat>>, entries: seq<Entry>, cat: nat)
    requires EntriesOk(pool, tables, entries) && |tables| == CAT_COUNT && cat < CAT_COUNT
    requires |pool| <= |pool'|
    ensures EntriesOk(pool', tables[cat := tables[cat] + Range(|pool|, |pool'|)], entries)
  {
    var tables' := tables[cat := tables[cat] + Range(|pool|, |pool'|)];
    forall k | 0 <= k < |entries|
      ensures EntryOk(pool', tables', entries[k])
    {
      assert EntryOk(pool, tables, entries[k]);
      forall c | 0 <= c < CAT_COUNT && entries[k].primary[c].Some?
        ensures entries[k].primary[c].value in multiset(tables'[c])
      {
        assert entries[k].primary[c].value in multiset(tables[c]);
      }
    }
  }

  /** The values `explore_add_unique_string` finds in a non-empty field of
      category `cat`. */
  function FieldValues(s: seq<byte>, cat: nat): (r: seq<seq<byte>>)
    requires |s| >= 1
    ensures |r| == |Spans(s, UseSplit(cat), IsCompany(cat))|
  {
    Values(s, Spans(s, UseSplit(cat), IsCompany(cat)))
  }

  /** In a category that does not split, a field touches the split buffer
      only when the record already has a primary value and the field yields
      one. */
  lemma NoSplitRest(c: Cat, s: seq<byte>, cat: nat, key: seq<byte> -> u32)
    requires |s| >= 1 && !UseSplit(cat)
    requires c.first.None? || Spans(s, false, IsCompany(cat)) == []
    ensures AddValues(c, FieldValues(s, cat), key).rest == c.rest
  {
    var vs := FieldValues(s, cat);
    NoSplitAtMostOne(s, IsCompany(cat), 0, 1);
    if |vs| == 1 {
      assert vs[..0] == [];
    }
  }

  /** Adding the values of a C-string field keeps the state well formed
      and the category map in agreement with the grown table. */
  lemma AddValuesState(pool: seq<ExploreString>, tables: seq<seq<nat>>, entries: seq<Entry>, cat: nat, c: Cat, s: seq<byte>)
    requires StateOk(pool, tables, entries) && cat < CAT_COUNT
    requires c.pool == pool && c.table == tables[cat] && CatIndexed(pool, tables[cat], c.index, ValueKey)
    requires IsCString(s) && |s| >= 1
    ensures var r := AddValues(c, FieldValues(s, cat), ValueKey);
      StateOk(r.pool, tables[cat := r.table], entries) && CatIndexed(r.pool, r.table, r.index, ValueKey)
  {
    var vs := FieldValues(s, cat);
    ValuesTrimmed(s, UseSplit(cat), IsCompany(cat));
    AddValuesGrown(c, vs, ValueKey);
    AddValuesIndexed(c, vs, ValueKey);
    var r := AddValues(c, vs, ValueKey);
    forall id | |pool| <= id < |r.pool|
      ensures IsCString(r.pool[id].str) && r.pool[id].str != []
    {
      var k :| 0 <= k < |vs| && vs[k] == r.pool[id].str;
    }
    StateGrow(pool, r.pool, tables, entries, cat);
  }

  /** `AddValuesState` for the state a call leaves: its arena, its tables
      and its category map. */
  lemma UniqueState(pool: seq<ExploreString>, tables: seq<seq<nat>>, entries: seq<Entry>, cat: nat, c: Cat, s: seq<byte>,
                    pool': seq<ExploreString>, tables': seq<seq<nat>>, index': map<u32, nat>)
    requires StateOk(pool, tables, entries) && cat < CAT_COUNT
    requires c.pool == pool && c.table == tables[cat] && CatIndexed(pool, tables[cat], c.index, ValueKey)
    requires IsCString(s) && |s| >= 1
    requires var r := AddValues(c, FieldValues(s, cat), ValueKey);
      pool' == r.pool && tables' == tables[cat := r.table] && index' == r.index
    ensures StateOk(pool', tables', entries) && CatIndexed(pool', tables'[cat], index', ValueKey)
  {
    AddValuesState(pool, tables, entries, cat, c, s);
  }

  /** Every id the map stores is that of an arena string, plus one. */
  ghost predicate IdsBelow(index: map<u32, nat>, n: nat)
  {
    forall h :: h in index ==> 1 <= index[h] <= n
  }

  lemma IndexedIdsBelow(pool: seq<ExploreString>, table: seq<nat>, index: map<u32, nat>, key: seq<byte> -> u32)
    requires CatIndexed(pool, table, index, key)
    ensures IdsBelow(index, |pool|)
  {
  }

  /** The part of `Cat` a running program holds; the category map is the
      `HashMap32` object beside it. */
  datatype Work = Work(pool: seq<ExploreString>, table: seq<nat>, first: Option<nat>, rest: seq<nat>)

  ghost function WithIndex(w: Work, index: map<u32, nat>): Cat
  {
    Cat(w.pool, w.table, index, w.first, w.rest)
  }

  lemma AppendAssoc<T>(a: seq<T>, b: seq<T>, c: seq<T>)
    ensures a + b + c == a + (b + c)
  {
  }

  /** `ex_hash32_nocase_filtered(str, p - str, '0', 255)`: the key of a
      value in its category map. */
  method KeyOf(v: seq<byte>) returns (h: u32)
    ensures h == ValueKey(v)
  {
    h := Hash.Hash32NocaseFiltered(v, DIGIT_ZERO, 255);
  }

  /** A value whose key the map does not hold is allocated next. */
  lemma InternNew(c: Cat, v: seq<byte>, key: seq<byte> -> u32)
    requires key(v) !in c.index
    ensures Resolved(c, v, key) == |c.pool|
    ensures Intern(c, v, key) == c.(pool := c.pool + [ExploreString(0, v)], table := c.table + [|c.pool|], index := c.index[key(v) := |c.pool| + 1])
  {
  }

  /** A value whose key the map holds resolves to the stored string. */
  lemma InternOld(c: Cat, v: seq<byte>, key: seq<byte> -> u32)
    requires key(v) in c.index && 1 <= c.index[key(v)] <= |c.pool|
    ensures Resolved(c, v, key) == c.index[key(v)] - 1
    ensures Intern(c, v, key) == c
  {
  }

  /** The lookup-or-allocate block of `explore_add_unique_string` for the
      value `v` whose key is `h`: the id of the string stored under `h` in
      `m`, or of a new one appended to the arena and the table and stored
      in `m`. */
  method Lookup(m: HashMap.HashMap32, w: Work, v: seq<byte>, h: u32, ghost key: seq<byte> -> u32) returns (id: nat, w': Work)
    requires m.Valid() && IdsBelow(m.Contents, |w.pool|) && h == key(v) && h != 0
    modifies m.Repr
    ensures m.Valid() && fresh(m.Repr - old(m.Repr))
    ensures id == Resolved(WithIndex(w, old(m.Contents)), v, key)
    ensures WithIndex(w', m.Contents) == Intern(WithIndex(w, old(m.Contents)), v, key)
    ensures IdsBelow(m.Contents, |w'.pool|)
  {
    ghost var c := WithIndex(w, m.Contents);
    var got := m.GetNum(h);
    if got == 0 {
      InternNew(c, v, key);
      id := |w.pool|;
      w' := w.(pool := w.pool + [ExploreString(0, v)], table := w.table + [id]);
      m.SetNum(h, id + 1);
      assert m.Contents == c.index[h := id + 1];
    } else {
      InternOld(c, v, key);
      id := got - 1;
      w' := w;
    }
  }

  /** One value of the field: look it up, then make it the record's primary
      value or push it onto the split buffer. */
  method Record(m: HashMap.HashMap32, w: Work, v: seq<byte>) returns (w': Work)
    requires m.Valid() && IdsBelow(m.Contents, |w.pool|)
    modifies m.Repr
    ensures m.Valid() && fresh(m.Repr - old(m.Repr))
    ensures WithIndex(w', m.Contents) == AddValue(WithIndex(w, old(m.Contents)), v, ValueKey)
    ensures IdsBelow(m.Contents, |w'.pool|)
  {
    var h := KeyOf(v);
    var id;
    id, w' := Lookup(m, w, v, h, ValueKey);
    if w'.first.None? {
      w' := w'.(first := Some(id));
    } else {
      w' := w'.(rest := w'.rest + [id]);
    }
  }

  /** The walk has recorded `vals` of the values `all` and the rest are
      still ahead of the cursor at `str`, `p`. */
  ghost predicate Walked(s: seq<byte>, split: bool, company: bool, str: nat, p: nat, all: seq<seq<byte>>, vals: seq<seq<byte>>)
  {
    str <= p <= |s| && all == vals + Rest(s, split, company, str, p)
  }

  /** The running category state, with the map `m`, is what adding `vals`
      to `c0` gives. */
  ghost predicate Tracks(m: HashMap.HashMap32, w: Work, c0: Cat, vals: seq<seq<byte>>)
    reads m, m.Repr
  {
    m.Valid() && IdsBelow(m.Contents, |w.pool|) && WithIndex(w, m.Contents) == AddValues(c0, vals, ValueKey)
  }

  /** One turn of the `for (p = str + 1;; p++)` loop of
      `explore_add_unique_string`: at a byte it does not stop at, the next
      byte; at a stop byte, what `Visit` does. `all` is every value of the
      field, `vals` those recorded so far from `c0`. */
  method Advance(m: HashMap.HashMap32, s: seq<byte>, split: bool, company: bool, str: nat, p: nat, w: Work,
                 ghost c0: Cat, ghost all: seq<seq<byte>>, ghost vals: seq<seq<byte>>)
    returns (next: Option<Cursor>, w': Work, ghost vals': seq<seq<byte>>)
    requires Walked(s, split, company, str, p, all, vals) && Tracks(m, w, c0, vals)
    modifies m.Repr
    ensures Tracks(m, w', c0, vals') && fresh(m.Repr - old(m.Repr))
    ensures next.Some? ==> p < next.value.p && Walked(s, split, company, next.value.str, next.value.p, all, vals')
    ensures next.None? ==> all == vals'
  {
    if !Stops(At(s, p), split) {
      RestPass(s, split, company, str, p);
      return Some(Cursor(str, p + 1)), w, vals;
    }
    next, w', vals' := Visit(m, s, split, company, str, p, w, c0, all, vals);
  }

  /** The walk at a stop byte: the value `Cut` finds there, if any, is
      recorded, and the walk resumes where `Cut` says, or ends. */
  method Visit(m: HashMap.HashMap32, s: seq<byte>, split: bool, company: bool, str: nat, p: nat, w: Work,
               ghost c0: Cat, ghost all: seq<seq<byte>>, ghost vals: seq<seq<byte>>)
    returns (next: Option<Cursor>, w': Work, ghost vals': seq<seq<byte>>)
    requires Walked(s, split, company, str, p, all, vals) && Stops(At(s, p), split) && Tracks(m, w, c0, vals)
    modifies m.Repr
    ensures Tracks(m, w', c0, vals') && fresh(m.Repr - old(m.Repr))
    ensures next.Some? ==> p < next.value.p && Walked(s, split, company, next.value.str, next.value.p, all, vals')
    ensures next.None? ==> all == vals'
  {
    w', vals' := w, vals;
    var st := Cut(s, company, str, p);
    RestStop(s, split, company, str, p, st);
    ghost var later := if st.next.Some? then Rest(s, split, company, st.next.value.str, st.next.value.p) else [];
    if st.value.Some? {
      var v := s[st.value.value.lo..st.value.value.hi];
      w' := Record(m, w, v);
      AddValuesSnoc(c0, vals, v, ValueKey);
      AppendAssoc(vals, [v], later);
      vals' := vals + [v];
    } else {
      assert [] + later == later;
    }
    if st.next.None? {
      assert vals' + [] == vals';
    }
    next := st.next;
  }

  /** The walk of `explore_add_unique_string` over a non-empty field `s`:
      what it leaves is what adding the field's values one by one gives. */
  method AddFieldValues(m: HashMap.HashMap32, w: Work, s: seq<byte>, cat: nat) returns (w': Work)
    requires m.Valid() && IdsBelow(m.Contents, |w.pool|) && |s| >= 1
    modifies m.Repr
    ensures m.Valid() && fresh(m.Repr - old(m.Repr))
    ensures WithIndex(w', m.Contents) == AddValues(WithIndex(w, old(m.Contents)), FieldValues(s, cat), ValueKey)
  {
    var split := UseSplit(cat);
    var company := IsCompany(cat);
    ghost var c0 := WithIndex(w, m.Contents);
    ghost var all := FieldValues(s, cat);
    ghost var vals: seq<seq<byte>> := [];
    w' := w;
    var next: Option<Cursor> := Some(Cursor(0, 1));
    while next.Some?
      invariant next.Some? ==> Walked(s, split, company, next.value.str, next.value.p, all, vals)
      invariant next.None? ==> all == vals
      invariant Tracks(m, w', c0, vals) && fresh(m.Repr - old(m.Repr))
      decreases if next.Some? then |s| + 1 - next.value.p else 0
    {
      next, w', vals := Advance(m, s, split, company, next.value.str, next.value.p, w', c0, all, vals);
    }
  }

  /** What `explore_add_unique_string` does to the category state `c`: a
      NULL or empty field leaves it as it is, any other adds its values. A
      category that does not split has no split buffer, so a value met
      when the record already has a primary value is interned but pushed
      nowhere (the push guarded by the buffer, as intended). */
  ghost function Unique(c: Cat, cat: nat, field: Option<seq<byte>>): Cat
  {
    if field.None? || field.value == [] then c
    else
      var r := AddValues(c, FieldValues(field.value, cat), ValueKey);
      if UseSplit(cat) then r else r.(rest := c.rest)
  }

  /** `explore_add_unique_string` as written: `split_buf` is NULL for a
      category that does not split, and the push onto it is not guarded, so
      a call that would push there writes through NULL (`None`). */
  ghost function UniqueAsWritten(c: Cat, cat: nat, field: Option<seq<byte>>): Option<Cat>
  {
    if field.None? || field.value == [] then Some(c)
    else
      var r := AddValues(c, FieldValues(field.value, cat), ValueKey);
      if !UseSplit(cat) && r.rest != c.rest then None else Some(r)
  }

  /** The call as written writes through NULL exactly when a category that
      does not split already has a primary value and the field yields a
      value; on every other input it does what `Unique` does. */
  lemma NullPushExactly(c: Cat, cat: nat, field: Option<seq<byte>>)
    ensures UniqueAsWritten(c, cat, field).None? <==>
      && !UseSplit(cat) && c.first.Some? && field.Some? && field.value != []
      && Spans(field.value, false, IsCompany(cat)) != []
    ensures UniqueAsWritten(c, cat, field).Some? ==> UniqueAsWritten(c, cat, field).value == Unique(c, cat, field)
  {
    if field.Some? && field.value != [] && !UseSplit(cat) {
      var s := field.value;
      var vs := FieldValues(s, cat);
      if c.first.None? || Spans(s, false, IsCompany(cat)) == [] {
        NoSplitRest(c, s, cat, ValueKey);
      } else {
        NoSplitAtMostOne(s, IsCompany(cat), 0, 1);
        assert vs[..0] == [];
        assert AddValues(c, vs, ValueKey) == AddValue(c, vs[0], ValueKey);
      }
    }
  }

  /** The part of `explore_state_t` the index is made of: the arena strings,
      the tables `by`, `has_unknown` and the records. */
  class ExploreState {
    var strings: seq<ExploreString>
    var tables: seq<seq<nat>>
    var hasUnknown: seq<bool>
    var entries: seq<Entry>

    ghost predicate Valid()
      reads this
    {
      StateOk(strings, tables, entries) && |hasUnknown| == CAT_COUNT
    }

    /** The zeroed state `calloc` returns. */
    constructor ()
      ensures Valid()
      ensures strings == [] && entries == []
      ensures tables == seq(CAT_COUNT, _ => []) && hasUnknown == seq(CAT_COUNT, _ => false)
    {
      strings := [];
      tables := seq(CAT_COUNT, _ => []);
      hasUnknown := seq(CAT_COUNT, _ => false);
      entries := [];
    }

    /** `explore_add_unique_string`: a NULL or empty field marks the
        category as having unknown records; otherwise every value found in
        the field is looked up in the category map `m`, allocated and added
        to the table when new, and becomes the record's primary value or is
        pushed onto the split buffer, which only a splitting category has. */
    method AddUniqueString(m: HashMap.HashMap32, e: Entry, cat: nat, field: Option<seq<byte>>, buf: seq<nat>)
      returns (e': Entry, buf': seq<nat>)
      requires Valid() && m.Valid() && this !in m.Repr
      requires cat < CAT_COUNT && |e.primary| == CAT_COUNT
      requires CatIndexed(strings, tables[cat], m.Contents, ValueKey)
      requires field.Some? ==> IsCString(field.value)
      modifies this, m.Repr
      ensures Valid() && m.Valid() && fresh(m.Repr - old(m.Repr))
      ensures CatIndexed(strings, tables[cat], m.Contents, ValueKey)
      ensures entries == old(entries)
      ensures var r := Unique(Cat(old(strings), old(tables[cat]), old(m.Contents), e.primary[cat], buf), cat, field);
        && strings == r.pool && tables == old(tables)[cat := r.table] && m.Contents == r.index
        && e' == e.(primary := e.primary[cat := r.first]) && buf' == r.rest
      ensures hasUnknown == if field.None? || field.value == [] then old(hasUnknown)[cat := true] else old(hasUnknown)
      ensures !UseSplit(cat) ==> buf' == buf
    {
      if field.None? || field.value == [] {
        hasUnknown := hasUnknown[cat := true];
        return e, buf;
      }
      var s := field.value;
      ghost var c0 := Cat(strings, tables[cat], m.Contents, e.primary[cat], buf);
      IndexedIdsBelow(strings, tables[cat], m.Contents, ValueKey);
      var w := AddFieldValues(m, Work(strings, tables[cat], e.primary[cat], buf), s, cat);
      strings, tables := w.pool, tables[cat := w.table];
      e' := e.(primary := e.primary[cat := w.first]);
      // only a splitting category has a buffer to push onto
      buf' := if UseSplit(cat) then w.rest else buf;
      UniqueState(old(strings), old(tables), entries, cat, c0, s, strings, tables, m.Contents);
    }

    /** `EX_BUF_PUSH(explore_state->entries, e)` for a record that keeps the
        state well formed. */
    method Push(e: Entry)
      requires Valid() && StateOk(strings, tables, entries + [e])
      modifies this
      ensures Valid() && entries == old(entries) + [e]
      ensures strings == old(strings) && tables == old(tables) && hasUnknown == old(hasUnknown)
    {
      entries := entries + [e];
    }
  }
}
