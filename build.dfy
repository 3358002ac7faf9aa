/** The per-record block of `explore_build_list` (every category field of a
    database record through `explore_add_unique_string`, the System category
    once more from the core's system name, the original title, the commit of
    the split buffer, the push of the record) and the final pass that sorts
    every category table, ranks its strings and sorts the records. */
module ExploreBuild {
  import opened Bytes
  import opened Normalize
  import opened Explore
  import HashMap
  import Compare

  /** The index and the record under construction as values: the arena
      strings, the category tables, the contents of the category maps, the
      `has_unknown` flags, the record's primary values and the split buffer. */
  datatype Build = Build(pool: seq<ExploreString>, tables: seq<seq<nat>>, maps: seq<map<u32, nat>>,
                         unknown: seq<bool>, primary: seq<Option<nat>>, buf: seq<nat>)

  predicate Shaped(b: Build)
  {
    |b.tables| == CAT_COUNT && |b.maps| == CAT_COUNT && |b.unknown| == CAT_COUNT && |b.primary| == CAT_COUNT
  }

  /** One call of `explore_add_unique_string` for category `cat`. */
  ghost function AddField(b: Build, cat: nat, field: Option<seq<byte>>): (r: Build)
    requires Shaped(b) && cat < CAT_COUNT
    ensures Shaped(r)
    ensures forall d :: 0 <= d < CAT_COUNT && d != cat ==> r.primary[d] == b.primary[d]
  {
    if field.None? || field.value == [] then b.(unknown := b.unknown[cat := true])
    else Apply(b, cat, Unique(Cat(b.pool, b.tables[cat], b.maps[cat], b.primary[cat], b.buf), cat, field))
  }

  /** The state with category `cat` replaced by what the values made of it. */
  function Apply(b: Build, cat: nat, c: Cat): (r: Build)
    requires Shaped(b) && cat < CAT_COUNT
    ensures Shaped(r)
    ensures forall d :: 0 <= d < CAT_COUNT && d != cat ==> r.primary[d] == b.primary[d]
  {
    b.(pool := c.pool, tables := b.tables[cat := c.table], maps := b.maps[cat := c.index],
       primary := b.primary[cat := c.first], buf := c.rest)
  }

  /** The calls for the fields of the categories `0`, ..., `n - 1`, in order. */
  ghost function AddFields(b: Build, fields: seq<Option<seq<byte>>>, n: nat): (r: Build)
    requires Shaped(b) && n <= |fields| && n <= CAT_COUNT
    ensures Shaped(r)
  {
    if n == 0 then b else AddField(AddFields(b, fields, n - 1), n - 1, fields[n - 1])
  }

  /** Every field of the record, then System once more from the core's
      system name. */
  ghost function RecordIndex(b: Build, fields: seq<Option<seq<byte>>>, system: Option<seq<byte>>): (r: Build)
    requires Shaped(b) && |fields| == CAT_COUNT
    ensures Shaped(r)
  {
    AddField(AddFields(b, fields, CAT_COUNT), SYSTEM, system)
  }

  /** The split buffer committed as a list closed by NULL. */
  function Commit(buf: seq<nat>): (sp: SplitList)
    ensures |sp| == |buf| + 1 && sp[|buf|] == None
    ensures forall i :: 0 <= i < |buf| ==> sp[i] == Some(buf[i])
  {
    if buf == [] then [None] else [Some(buf[0])] + Commit(buf[1..])
  }

  /** The record pushed onto `entries`: the label, the primary values, the
      committed split list if the buffer holds anything, and the original
      title if the database gives a non-empty one. */
  function NewEntry(labelStr: seq<byte>, b: Build, title: Option<seq<byte>>): Entry
  {
    Entry(labelStr, b.primary,
          if b.buf == [] then None else Some(Commit(b.buf)),
          if title.Some? && title.value != [] then title else None)
  }

  /** A field of a non-splitting, non-company category that yields a value. */
  predicate Yields(field: Option<seq<byte>>)
  {
    field.Some? && |field.value| >= 1 && Spans(field.value, false, false) != []
  }

  /** Every field the database gives is a C string, one per category. */
  predicate FieldsOk(fields: seq<Option<seq<byte>>>)
  {
    |fields| == CAT_COUNT && forall c :: 0 <= c < CAT_COUNT && fields[c].Some? ==> IsCString(fields[c].value)
  }

  /** A record before the calls: `e.by[l] = NULL` for every category. */
  predicate NoPrimary(primary: seq<Option<nat>>)
  {
    |primary| == CAT_COUNT && forall c :: 0 <= c < CAT_COUNT ==> primary[c].None?
  }

  /** What holds between the calls: the state is well formed, every category
      map agrees with its table, every primary value is in its category's
      table and every buffered id is an arena string. */
  ghost predicate Ok(b: Build, entries: seq<Entry>)
  {
    && Shaped(b)
    && StateOk(b.pool, b.tables, entries)
    && MapsIndexed(b.pool, b.tables, b.maps)
    && PrimaryIn(b.primary, b.tables)
    && (forall i :: 0 <= i < |b.buf| ==> b.buf[i] < |b.pool|)
  }

  ghost predicate MapsIndexed(pool: seq<ExploreString>, tables: seq<seq<nat>>, maps: seq<map<u32, nat>>)
  {
    |tables| == |maps| && forall c :: 0 <= c < |tables| ==> CatIndexed(pool, tables[c], maps[c], ValueKey)
  }

  ghost predicate PrimaryIn(primary: seq<Option<nat>>, tables: seq<seq<nat>>)
  {
    |primary| == |tables| && forall c :: 0 <= c < |tables| && primary[c].Some? ==> primary[c].value in multiset(tables[c])
  }

  /** A table agrees with its map whatever is appended to the arena. */
  lemma CatIndexedGrow(pool: seq<ExploreString>, pool': seq<ExploreString>, table: seq<nat>, index: map<u32, nat>,
                       key: seq<byte> -> u32)
    requires CatIndexed(pool, table, index, key)
    requires |pool| <= |pool'| && pool'[..|pool|] == pool
    ensures CatIndexed(pool', table, index, key)
  {
    forall k | 0 <= k < |table|
      ensures pool'[table[k]] == pool[table[k]]
    {
      assert pool'[..|pool|][table[k]] == pool'[table[k]];
    }
    forall h | h in index
      ensures pool'[index[h] - 1] == pool[index[h] - 1]
    {
      assert pool'[..|pool|][index[h] - 1] == pool'[index[h] - 1];
    }
  }

  /** The arena only grows at the end. */
  lemma PoolPrefix(c: Cat, vs: seq<seq<byte>>)
    requires CatIndexed(c.pool, c.table, c.index, ValueKey)
    ensures var r := AddValues(c, vs, ValueKey);
      |c.pool| <= |r.pool| && r.pool[..|c.pool|] == c.pool
  {
    AddValuesGrown(c, vs, ValueKey);
  }

  /** The primary value after a field is in the grown table. */
  lemma PrimaryStep(c: Cat, vs: seq<seq<byte>>)
    requires CatIndexed(c.pool, c.table, c.index, ValueKey)
    requires c.first.Some? ==> c.first.value in multiset(c.table)
    ensures var r := AddValues(c, vs, ValueKey);
      r.first.Some? ==> r.first.value in multiset(r.table)
  {
    var r := AddValues(c, vs, ValueKey);
    AddValuesFirst(c, vs, ValueKey);
    AddValuesGrown(c, vs, ValueKey);
    AddValuesResolves(c, vs, ValueKey);
    PrimaryKept(c, r, |vs|);
  }

  lemma PrimaryKept(c: Cat, r: Cat, n: nat)
    requires FirstKept(c, r, n) && Extends(c, r)
    requires c.first.Some? ==> c.first.value in multiset(c.table)
    requires forall k :: 0 <= k < |Added(c, r)| ==> Has(r.table, Added(c, r)[k])
    ensures r.first.Some? ==> r.first.value in multiset(r.table)
  {
    if c.first.Some? {
      assert multiset(r.table) == multiset(c.table) + multiset(Range(|c.pool|, |r.pool|));
    } else if r.first.Some? {
      assert Added(c, r)[0] == r.first.value;
      HasIsIn(r.table, r.first.value);
    }
  }

  /** The split buffer after a field holds arena strings only. */
  lemma BufStep(c: Cat, vs: seq<seq<byte>>)
    requires CatIndexed(c.pool, c.table, c.index, ValueKey)
    requires forall i :: 0 <= i < |c.rest| ==> c.rest[i] < |c.pool|
    ensures var r := AddValues(c, vs, ValueKey);
      forall i :: 0 <= i < |r.rest| ==> r.rest[i] < |r.pool|
  {
    var r := AddValues(c, vs, ValueKey);
    AddValuesFirst(c, vs, ValueKey);
    AddValuesGrown(c, vs, ValueKey);
    AddValuesResolves(c, vs, ValueKey);
    BufBelow(c, r, |vs|);
  }

  lemma BufBelow(c: Cat, r: Cat, n: nat)
    requires FirstKept(c, r, n) && |c.pool| <= |r.pool|
    requires forall i :: 0 <= i < |c.rest| ==> c.rest[i] < |c.pool|
    requires forall k :: 0 <= k < |Added(c, r)| ==> Added(c, r)[k] < |r.pool|
    ensures forall i :: 0 <= i < |r.rest| ==> r.rest[i] < |r.pool|
  {
    var lead := if c.first.None? && r.first.Some? then 1 else 0;
    forall i | 0 <= i < |r.rest|
      ensures r.rest[i] < |r.pool|
    {
      if i < |c.rest| {
        assert r.rest[..|c.rest|][i] == r.rest[i];
      } else {
        assert Added(c, r)[lead + i - |c.rest|] == r.rest[i];
      }
    }
  }

  /** One call keeps `Ok`. */
  lemma AddFieldOk(b: Build, entries: seq<Entry>, cat: nat, field: Option<seq<byte>>)
    requires Ok(b, entries) && cat < CAT_COUNT
    requires field.Some? ==> IsCString(field.value)
    ensures Ok(AddField(b, cat, field), entries)
  {
    if field.Some? && field.value != [] {
      var r := AddValues(Cat(b.pool, b.tables[cat], b.maps[cat], b.primary[cat], b.buf), FieldValues(field.value, cat), ValueKey);
      var u := if UseSplit(cat) then r else r.(rest := b.buf);
      assert Stepped(b, entries, cat, u) by {
        FieldStep(b, entries, cat, field.value);
        if !UseSplit(cat) {
          KeptBufStepped(b, entries, cat, r);
        }
      }
      OkAfter(b, entries, cat, u);
      AddFieldApplies(b, cat, field);
    } else {
      UnknownOk(b, entries, cat);
      assert AddField(b, cat, field) == b.(unknown := b.unknown[cat := true]);
    }
  }

  /** A field with values applies what its values make of the category,
      with the buffer kept where the category does not split. */
  lemma AddFieldApplies(b: Build, cat: nat, field: Option<seq<byte>>)
    requires Shaped(b) && cat < CAT_COUNT && field.Some? && field.value != []
    ensures var r := AddValues(Cat(b.pool, b.tables[cat], b.maps[cat], b.primary[cat], b.buf), FieldValues(field.value, cat), ValueKey);
      AddField(b, cat, field) == Apply(b, cat, if UseSplit(cat) then r else r.(rest := b.buf))
  {
  }

  lemma UnknownOk(b: Build, entries: seq<Entry>, cat: nat)
    requires Ok(b, entries) && cat < CAT_COUNT
    ensures Ok(b.(unknown := b.unknown[cat := true]), entries)
  {
  }

  /** What one call with values does to the category it adds to. */
  ghost predicate Stepped(b: Build, entries: seq<Entry>, cat: nat, r: Cat)
    requires Shaped(b) && cat < CAT_COUNT
  {
    && StateOk(r.pool, b.tables[cat := r.table], entries) && CatIndexed(r.pool, r.table, r.index, ValueKey)
    && |b.pool| <= |r.pool| && r.pool[..|b.pool|] == b.pool
    && (r.first.Some? ==> r.first.value in multiset(r.table))
    && (forall i :: 0 <= i < |r.rest| ==> r.rest[i] < |r.pool|)
  }

  lemma FieldStep(b: Build, entries: seq<Entry>, cat: nat, s: seq<byte>)
    requires Ok(b, entries) && cat < CAT_COUNT
    requires IsCString(s) && s != []
    ensures Stepped(b, entries, cat, AddValues(Cat(b.pool, b.tables[cat], b.maps[cat], b.primary[cat], b.buf), FieldValues(s, cat), ValueKey))
  {
    var c := Cat(b.pool, b.tables[cat], b.maps[cat], b.primary[cat], b.buf);
    var vs := FieldValues(s, cat);
    AddValuesState(b.pool, b.tables, entries, cat, c, s);
    PoolPrefix(c, vs);
    PrimaryStep(c, vs);
    BufStep(c, vs);
  }

  /** Keeping the buffer the call found, instead of the one it pushed onto,
      keeps a step well formed. */
  lemma KeptBufStepped(b: Build, entries: seq<Entry>, cat: nat, r: Cat)
    requires Ok(b, entries) && cat < CAT_COUNT && Stepped(b, entries, cat, r)
    ensures Stepped(b, entries, cat, r.(rest := b.buf))
  {
  }

  /** The state after a call whose values took the category from `b` to `r`. */
  lemma OkAfter(b: Build, entries: seq<Entry>, cat: nat, r: Cat)
    requires Ok(b, entries) && cat < CAT_COUNT && Stepped(b, entries, cat, r)
    ensures Ok(Apply(b, cat, r), entries)
  {
    MapsIndexedAfter(b.pool, b.tables, b.maps, cat, r);
    PrimaryInAfter(b.primary, b.tables, cat, r);
  }

  lemma MapsIndexedAfter(pool: seq<ExploreString>, tables: seq<seq<nat>>, maps: seq<map<u32, nat>>, cat: nat, r: Cat)
    requires MapsIndexed(pool, tables, maps) && cat < |tables|
    requires CatIndexed(r.pool, r.table, r.index, ValueKey)
    requires |pool| <= |r.pool| && r.pool[..|pool|] == pool
    ensures MapsIndexed(r.pool, tables[cat := r.table], maps[cat := r.index])
  {
    forall d | 0 <= d < |tables| && d != cat
      ensures CatIndexed(r.pool, tables[d], maps[d], ValueKey)
    {
      CatIndexedGrow(pool, r.pool, tables[d], maps[d], ValueKey);
    }
  }

  lemma PrimaryInAfter(primary: seq<Option<nat>>, tables: seq<seq<nat>>, cat: nat, r: Cat)
    requires PrimaryIn(primary, tables) && cat < |tables|
    requires r.first.Some? ==> r.first.value in multiset(r.table)
    ensures PrimaryIn(primary[cat := r.first], tables[cat := r.table])
  {
  }

  /** `Ok` holds after any number of calls. */
  lemma {:induction false} AddFieldsOk(b: Build, fields: seq<Option<seq<byte>>>, entries: seq<Entry>, n: nat)
    requires Ok(b, entries) && NoPrimary(b.primary)
    requires FieldsOk(fields) && n <= CAT_COUNT
    ensures Ok(AddFields(b, fields, n), entries)
  {
    if n > 0 {
      assert AddFields(b, fields, n - 1).primary[n - 1].None? by {
        AddFieldsUnset(b, fields, n - 1);
      }
      AddFieldsOk(b, fields, entries, n - 1);
      NextFieldOk(b, fields, entries, n);
    }
  }

  /** The call for the next category, which has no primary value yet,
      keeps `Ok`. */
  lemma NextFieldOk(b: Build, fields: seq<Option<seq<byte>>>, entries: seq<Entry>, n: nat)
    requires Shaped(b) && FieldsOk(fields) && 0 < n <= CAT_COUNT
    requires Ok(AddFields(b, fields, n - 1), entries) && AddFields(b, fields, n - 1).primary[n - 1].None?
    ensures Ok(AddFields(b, fields, n), entries)
  {
    var prev := AddFields(b, fields, n - 1);
    AddFieldOk(prev, entries, n - 1, fields[n - 1]);
    assert AddFields(b, fields, n) == AddField(prev, n - 1, fields[n - 1]);
  }

  /** The calls for the categories below `n` set no primary value from `n`
      on. */
  lemma {:induction false} AddFieldsUnset(b: Build, fields: seq<Option<seq<byte>>>, n: nat)
    requires Shaped(b) && NoPrimary(b.primary) && n <= |fields| && n <= CAT_COUNT
    ensures forall c :: n <= c < CAT_COUNT ==> AddFields(b, fields, n).primary[c] == None
  {
    if n > 0 {
      AddFieldsUnset(b, fields, n - 1);
    }
  }

  /** After the ten fields, System has a primary value exactly when its
      database field yielded one. */
  lemma SystemPrimary(b: Build, fields: seq<Option<seq<byte>>>, entries: seq<Entry>)
    requires Ok(b, entries) && NoPrimary(b.primary)
    requires FieldsOk(fields)
    ensures AddFields(b, fields, CAT_COUNT).primary[SYSTEM].Some? <==> Yields(fields[SYSTEM])
  {
    AddFieldsOk(b, fields, entries, SYSTEM);
    AddFieldsUnset(b, fields, SYSTEM);
    var m := AddFields(b, fields, SYSTEM);
    var f := fields[SYSTEM];
    if f.Some? && f.value != [] {
      var c := Cat(m.pool, m.tables[SYSTEM], m.maps[SYSTEM], m.primary[SYSTEM], m.buf);
      AddValuesFirst(c, FieldValues(f.value, SYSTEM), ValueKey);
    }
  }

  /** The committed split list is a NULL-terminated list of arena strings. */
  lemma CommitOk(pool: seq<ExploreString>, buf: seq<nat>)
    requires buf != [] && forall i :: 0 <= i < |buf| ==> buf[i] < |pool|
    ensures SplitOk(pool, Commit(buf))
  {
    var sp := Commit(buf);
    forall i | 0 <= i < |sp| - 1
      ensures sp[i].Some? && sp[i].value < |pool|
    {
      assert sp[i] == Some(buf[i]);
    }
  }

  /** The record pushed after the calls is well formed. */
  lemma NewEntryOk(b: Build, entries: seq<Entry>, labelStr: seq<byte>, title: Option<seq<byte>>)
    requires Ok(b, entries) && IsCString(labelStr) && labelStr != []
    ensures StateOk(b.pool, b.tables, entries + [NewEntry(labelStr, b, title)])
  {
    var e := NewEntry(labelStr, b, title);
    if b.buf != [] {
      CommitOk(b.pool, b.buf);
    }
    assert EntryOk(b.pool, b.tables, e);
    var es := entries + [e];
    forall k | 0 <= k < |es|
      ensures EntryOk(b.pool, b.tables, es[k])
    {
      if k < |entries| {
        assert es[k] == entries[k];
      }
    }
  }

  /** The record the block builds is well formed, and so is the index with
      it: the state invariant holds with the record appended. */
  lemma RecordOk(b: Build, fields: seq<Option<seq<byte>>>, system: Option<seq<byte>>, entries: seq<Entry>,
                 labelStr: seq<byte>, title: Option<seq<byte>>)
    requires Ok(b, entries) && NoPrimary(b.primary)
    requires FieldsOk(fields)
    requires system.Some? ==> IsCString(system.value)
    requires IsCString(labelStr) && labelStr != []
    ensures var r := RecordIndex(b, fields, system);
      Ok(r, entries) && StateOk(r.pool, r.tables, entries + [NewEntry(labelStr, r, title)])
  {
    AddFieldsOk(b, fields, entries, CAT_COUNT);
    SystemPrimary(b, fields, entries);
    var m := AddFields(b, fields, CAT_COUNT);
    AddFieldOk(m, entries, SYSTEM, system);
    NewEntryOk(RecordIndex(b, fields, system), entries, labelStr, title);
  }

  /** The category maps `cat_maps`: one valid `HashMap32` per category,
      none sharing an object with another or holding the state. */
  ghost predicate MapsOk(st: ExploreState, maps: seq<HashMap.HashMap32>)
    reads maps, ReprOf(maps)
  {
    && |maps| == CAT_COUNT
    && (forall i {:trigger maps[i].Valid()} :: 0 <= i < |maps| ==> maps[i].Valid())
    && (forall i :: 0 <= i < |maps| ==> maps[i] in maps[i].Repr && st !in maps[i].Repr)
    && (forall i, j :: 0 <= i < j < |maps| ==> maps[i].Repr !! maps[j].Repr)
  }

  ghost function ReprOf(maps: seq<HashMap.HashMap32>): set<object>
    reads maps
  {
    set i, o | 0 <= i < |maps| && o in maps[i].Repr :: o
  }

  /** The bindings of every category map. */
  ghost function Contents(maps: seq<HashMap.HashMap32>): (r: seq<map<u32, nat>>)
    reads maps
    ensures |r| == |maps| && forall i :: 0 <= i < |maps| ==> r[i] == maps[i].Contents
  {
    seq(|maps|, i reads maps => if 0 <= i < |maps| then maps[i].Contents else map[])
  }

  /** The running state seen as a `Build`. */
  ghost function Snap(st: ExploreState, maps: seq<HashMap.HashMap32>, primary: seq<Option<nat>>, buf: seq<nat>): Build
    reads st, maps
  {
    Build(st.strings, st.tables, Contents(maps), st.hasUnknown, primary, buf)
  }

  /** One call of `explore_add_unique_string` on the running state `b`,
      with the category's own map. */
  method AddCategory(st: ExploreState, maps: seq<HashMap.HashMap32>, e: Entry, cat: nat, field: Option<seq<byte>>, buf: seq<nat>,
                     ghost b: Build)
    returns (e': Entry, buf': seq<nat>)
    requires MapsOk(st, maps) && st.Valid() && cat < CAT_COUNT && |e.primary| == CAT_COUNT
    requires b == Snap(st, maps, e.primary, buf) && Shaped(b)
    requires CatIndexed(b.pool, b.tables[cat], b.maps[cat], ValueKey)
    requires field.Some? ==> IsCString(field.value)
    modifies st, maps[cat].Repr
    ensures MapsOk(st, maps) && st.Valid() && st.entries == old(st.entries)
    ensures forall i :: 0 <= i < |maps| ==> fresh(maps[i].Repr - old(maps[i].Repr))
    ensures e' == e.(primary := e'.primary) && |e'.primary| == CAT_COUNT
    ensures Snap(st, maps, e'.primary, buf') == AddField(b, cat, field)
  {
    e', buf' := st.AddUniqueString(maps[cat], e, cat, field, buf);
    forall i | 0 <= i < |maps| && i != cat
      ensures maps[i].Valid() && maps[i].Contents == old(maps[i].Contents)
    {
      assert maps[i].Repr !! maps[cat].Repr;
    }
    assert Contents(maps) == b.maps[cat := maps[cat].Contents];
    AddFieldIs(b, cat, field, Snap(st, maps, e'.primary, buf'));
  }

  lemma AddFieldIs(b: Build, cat: nat, field: Option<seq<byte>>, a: Build)
    requires Shaped(b) && Shaped(a) && cat < CAT_COUNT
    requires a.maps == b.maps[cat := a.maps[cat]]
    requires var r := Unique(Cat(b.pool, b.tables[cat], b.maps[cat], b.primary[cat], b.buf), cat, field);
      && a.pool == r.pool && a.tables == b.tables[cat := r.table] && a.maps[cat] == r.index
      && a.primary == b.primary[cat := r.first] && a.buf == r.rest
    requires a.unknown == if field.None? || field.value == [] then b.unknown[cat := true] else b.unknown
    ensures a == AddField(b, cat, field)
  {
  }

  /** Before the calls for category `n`, the state is well formed, the
      category map agrees with its table and the record has no primary
      value in that category yet. */
  lemma Ready(b0: Build, fields: seq<Option<seq<byte>>>, entries: seq<Entry>, n: nat)
    requires Ok(b0, entries) && NoPrimary(b0.primary) && FieldsOk(fields) && n < CAT_COUNT
    ensures var b := AddFields(b0, fields, n);
      Ok(b, entries) && CatIndexed(b.pool, b.tables[n], b.maps[n], ValueKey) && b.primary[n].None?
  {
    AddFieldsOk(b0, fields, entries, n);
    AddFieldsUnset(b0, fields, n);
  }

  /** The `for (cat = 0; cat != EXPLORE_CAT_COUNT; cat++)` loop of calls,
      from the record `e` with no primary values and an empty split
      buffer. */
  method AddCategories(st: ExploreState, maps: seq<HashMap.HashMap32>, fields: seq<Option<seq<byte>>>, e: Entry, ghost b0: Build)
    returns (e': Entry, buf: seq<nat>)
    requires MapsOk(st, maps) && st.Valid() && FieldsOk(fields) && NoPrimary(e.primary)
    requires b0 == Snap(st, maps, e.primary, []) && Ok(b0, st.entries)
    modifies st, ReprOf(maps)
    ensures MapsOk(st, maps) && st.Valid() && st.entries == old(st.entries)
    ensures forall i :: 0 <= i < |maps| ==> fresh(maps[i].Repr - old(maps[i].Repr))
    ensures e' == e.(primary := e'.primary) && |e'.primary| == CAT_COUNT
    ensures Snap(st, maps, e'.primary, buf) == AddFields(b0, fields, CAT_COUNT)
  {
    e', buf := e, [];
    var cat := 0;
    while cat < CAT_COUNT
      invariant cat <= CAT_COUNT
      invariant MapsOk(st, maps) && st.Valid() && st.entries == old(st.entries)
      invariant forall i :: 0 <= i < |maps| ==> fresh(maps[i].Repr - old(maps[i].Repr))
      invariant e' == e.(primary := e'.primary) && |e'.primary| == CAT_COUNT
      invariant Snap(st, maps, e'.primary, buf) == AddFields(b0, fields, cat)
    {
      e', buf := AddNext(st, maps, fields, e', buf, cat, b0);
      cat := cat + 1;
    }
  }

  /** One turn of that loop: the call for category `cat`. */
  method AddNext(st: ExploreState, maps: seq<HashMap.HashMap32>, fields: seq<Option<seq<byte>>>, e: Entry, buf: seq<nat>,
                 cat: nat, ghost b0: Build)
    returns (e': Entry, buf': seq<nat>)
    requires MapsOk(st, maps) && st.Valid() && FieldsOk(fields) && cat < CAT_COUNT && |e.primary| == CAT_COUNT
    requires Ok(b0, st.entries) && NoPrimary(b0.primary)
    requires Snap(st, maps, e.primary, buf) == AddFields(b0, fields, cat)
    modifies st, maps[cat].Repr
    ensures MapsOk(st, maps) && st.Valid() && st.entries == old(st.entries)
    ensures forall i :: 0 <= i < |maps| ==> fresh(maps[i].Repr - old(maps[i].Repr))
    ensures e' == e.(primary := e'.primary) && |e'.primary| == CAT_COUNT
    ensures Snap(st, maps, e'.primary, buf') == AddFields(b0, fields, cat + 1)
  {
    Ready(b0, fields, st.entries, cat);
    e', buf' := AddCategory(st, maps, e, cat, fields[cat], buf, Snap(st, maps, e.primary, buf));
  }

  /** The state before a record: no primary values, an empty split buffer. */
  ghost function Before(st: ExploreState, maps: seq<HashMap.HashMap32>): (b: Build)
    reads st, maps
    ensures NoPrimary(b.primary) && b.buf == []
  {
    Snap(st, maps, seq(CAT_COUNT, _ => None), [])
  }

  /** The System call after the loop finds the state well formed and the
      System map in agreement with its table. */
  lemma SystemReady(b0: Build, fields: seq<Option<seq<byte>>>, entries: seq<Entry>)
    requires Ok(b0, entries) && NoPrimary(b0.primary) && FieldsOk(fields)
    ensures var b := AddFields(b0, fields, CAT_COUNT);
      Ok(b, entries) && CatIndexed(b.pool, b.tables[SYSTEM], b.maps[SYSTEM], ValueKey)
  {
    AddFieldsOk(b0, fields, entries, CAT_COUNT);
  }

  /** The second System call as written, with no split buffer, writes
      through NULL exactly when both the database's "system" field and the
      core's system name yield a value. */
  lemma SecondSystemPushesNull(b0: Build, fields: seq<Option<seq<byte>>>, system: Option<seq<byte>>, entries: seq<Entry>)
    requires Ok(b0, entries) && NoPrimary(b0.primary) && FieldsOk(fields)
    ensures var b := AddFields(b0, fields, CAT_COUNT);
      UniqueAsWritten(Cat(b.pool, b.tables[SYSTEM], b.maps[SYSTEM], b.primary[SYSTEM], b.buf), SYSTEM, system).None?
      <==> Yields(fields[SYSTEM]) && Yields(system)
  {
    var b := AddFields(b0, fields, CAT_COUNT);
    SystemPrimary(b0, fields, entries);
    NullPushExactly(Cat(b.pool, b.tables[SYSTEM], b.maps[SYSTEM], b.primary[SYSTEM], b.buf), SYSTEM, system);
  }

  /** A record whose database gives "PC" as its system and whose core names
      the system "PC" too: the second call as written writes through NULL. */
  lemma SecondSystemExample(b0: Build, entries: seq<Entry>)
    requires Ok(b0, entries) && NoPrimary(b0.primary)
    ensures var pc: seq<byte> := [0x50, 0x43];
      var fields := seq(CAT_COUNT, c => if c == SYSTEM then Some(pc) else None);
      var b := AddFields(b0, fields, CAT_COUNT);
      UniqueAsWritten(Cat(b.pool, b.tables[SYSTEM], b.maps[SYSTEM], b.primary[SYSTEM], b.buf), SYSTEM, Some(pc)).None?
  {
    var pc: seq<byte> := [0x50, 0x43];
    var fields := seq(CAT_COUNT, c => if c == SYSTEM then Some(pc) else None);
    assert Walk(pc, false, false, 0, 1) == [Span(0, 2)];
    SecondSystemPushesNull(b0, fields, Some(pc), entries);
  }

  /** The block of `explore_build_list` for one database record found in a
      playlist: the fields of the ten categories in order, System once more
      from the system name of the entry's core (the caller's lookup), the
      original title if non-empty, the split buffer committed if it holds
      anything, and the record pushed. */
  method AddRecord(st: ExploreState, maps: seq<HashMap.HashMap32>, fields: seq<Option<seq<byte>>>,
                   system: Option<seq<byte>>, labelStr: seq<byte>, title: Option<seq<byte>>)
    requires MapsOk(st, maps) && st.Valid() && MapsIndexed(st.strings, st.tables, Contents(maps))
    requires FieldsOk(fields)
    requires system.Some? ==> IsCString(system.value)
    requires IsCString(labelStr) && labelStr != []
    modifies st, ReprOf(maps)
    ensures MapsOk(st, maps) && st.Valid() && MapsIndexed(st.strings, st.tables, Contents(maps))
    ensures forall i :: 0 <= i < |maps| ==> fresh(maps[i].Repr - old(maps[i].Repr))
    ensures var r := RecordIndex(old(Before(st, maps)), fields, system);
      && st.strings == r.pool && st.tables == r.tables && Contents(maps) == r.maps && st.hasUnknown == r.unknown
      && st.entries == old(st.entries) + [NewEntry(labelStr, r, title)]
  {
    ghost var b0 := Before(st, maps);
    ghost var entries := st.entries;
    assert Ok(b0, entries);
    var e := Entry(labelStr, seq(CAT_COUNT, _ => None), None, None);
    var buf;
    e, buf := IndexRecord(st, maps, fields, system, e, b0);
    RecordOk(b0, fields, system, entries, labelStr, title);
    PushRecord(st, maps, e, buf, title);
  }

  /** The calls of the block: the ten categories, then System again. */
  method IndexRecord(st: ExploreState, maps: seq<HashMap.HashMap32>, fields: seq<Option<seq<byte>>>,
                     system: Option<seq<byte>>, e: Entry, ghost b0: Build)
    returns (e': Entry, buf: seq<nat>)
    requires MapsOk(st, maps) && st.Valid() && FieldsOk(fields) && NoPrimary(e.primary)
    requires system.Some? ==> IsCString(system.value)
    requires b0 == Snap(st, maps, e.primary, []) && Ok(b0, st.entries)
    modifies st, ReprOf(maps)
    ensures MapsOk(st, maps) && st.Valid() && st.entries == old(st.entries)
    ensures forall i :: 0 <= i < |maps| ==> fresh(maps[i].Repr - old(maps[i].Repr))
    ensures e' == e.(primary := e'.primary)
    ensures Snap(st, maps, e'.primary, buf) == RecordIndex(b0, fields, system)
  {
    e', buf := AddCategories(st, maps, fields, e, b0);
    e', buf := AddSystem(st, maps, fields, system, e', buf, b0);
  }

  /** The second System call, from the system name of the entry's core. */
  method AddSystem(st: ExploreState, maps: seq<HashMap.HashMap32>, fields: seq<Option<seq<byte>>>,
                   system: Option<seq<byte>>, e: Entry, buf: seq<nat>, ghost b0: Build)
    returns (e': Entry, buf': seq<nat>)
    requires MapsOk(st, maps) && st.Valid() && FieldsOk(fields) && |e.primary| == CAT_COUNT
    requires system.Some? ==> IsCString(system.value)
    requires Ok(b0, st.entries) && NoPrimary(b0.primary)
    requires Snap(st, maps, e.primary, buf) == AddFields(b0, fields, CAT_COUNT)
    modifies st, maps[SYSTEM].Repr
    ensures MapsOk(st, maps) && st.Valid() && st.entries == old(st.entries)
    ensures forall i :: 0 <= i < |maps| ==> fresh(maps[i].Repr - old(maps[i].Repr))
    ensures e' == e.(primary := e'.primary)
    ensures Snap(st, maps, e'.primary, buf') == RecordIndex(b0, fields, system)
  {
    SystemReady(b0, fields, st.entries);
    e', buf' := AddCategory(st, maps, e, SYSTEM, system, buf, Snap(st, maps, e.primary, buf));
  }

  /** The end of the block: the original title, the commit of the split
      buffer (`EX_BUF_PUSH(split_buf, NULL)` and the copy) and the push of
      the record. */
  method PushRecord(st: ExploreState, maps: seq<HashMap.HashMap32>, e: Entry, buf: seq<nat>, title: Option<seq<byte>>)
    requires MapsOk(st, maps) && st.Valid() && e.split.None? && e.originalTitle.None?
    requires StateOk(st.strings, st.tables, st.entries + [NewEntry(e.labelStr, Snap(st, maps, e.primary, buf), title)])
    modifies st
    ensures MapsOk(st, maps) && st.Valid()
    ensures forall i :: 0 <= i < |maps| ==> maps[i].Repr == old(maps[i].Repr)
    ensures st.strings == old(st.strings) && st.tables == old(st.tables) && st.hasUnknown == old(st.hasUnknown)
    ensures Contents(maps) == old(Contents(maps))
    ensures st.entries == old(st.entries) + [NewEntry(e.labelStr, old(Snap(st, maps, e.primary, buf)), title)]
  {
    var e' := e;
    if title.Some? && title.value != [] {
      e' := e'.(originalTitle := title);
    }
    if buf != [] {
      e' := e'.(split := Some(Commit(buf)));
    }
    st.Push(e');
  }
}
