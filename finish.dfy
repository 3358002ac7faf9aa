/** The pass that closes `explore_build_list`: every category table is
    sorted with `explore_qsort_func_strings`, each string learns its rank in
    its table, and the records are sorted with `explore_qsort_func_entries`. */
module ExploreFinish {
  import opened Bytes
  import opened Explore
  import Compare

  /** The text of every arena string, by id. */
  function Texts(pool: seq<ExploreString>): (ts: seq<seq<byte>>)
    ensures |ts| == |pool| && forall id :: 0 <= id < |pool| ==> ts[id] == pool[id].str
  {
    seq(|pool|, id requires 0 <= id < |pool| => pool[id].str)
  }

  /** What `explore_qsort_func_strings` compares: the text a table slot
      points to. */
  function ByText(texts: seq<seq<byte>>): nat -> seq<byte>
  {
    (id: nat) => if id < |texts| then texts[id] else []
  }

  /** What `explore_qsort_func_entries` compares: the playlist label. */
  function ByLabel(e: Entry): seq<byte>
  {
    e.labelStr
  }

  /** The table `by[cat]` after its `qsort`. */
  function SortedTable(texts: seq<seq<byte>>, table: seq<nat>): (t: seq<nat>)
    ensures multiset(t) == multiset(table)
  {
    Compare.SortBy(table, ByText(texts))
  }

  /** A value occurs at most once in a table without repeats. */
  lemma {:induction false} DistinctAtMostOnce(t: seq<nat>, x: nat)
    requires Distinct(t)
    ensures multiset(t)[x] <= 1
    decreases |t|
  {
    if t != [] {
      var u := t[..|t| - 1];
      assert t == u + [t[|t| - 1]];
      DistinctAtMostOnce(u, x);
      if x == t[|t| - 1] {
        forall k | 0 <= k < |u|
          ensures u[k] != x
        {
          assert u[k] == t[k];
        }
        assert x !in multiset(u);
      }
    }
  }

  /** A value at two positions occurs twice. */
  lemma Twice(t: seq<nat>, i: nat, j: nat)
    requires i < j < |t| && t[i] == t[j]
    ensures multiset(t)[t[i]] >= 2
  {
    assert t == t[..j] + [t[j]] + t[j + 1..];
    assert t[..j][i] == t[i];
  }

  /** Reordering a table keeps it free of repeats. */
  lemma PermDistinct(t: seq<nat>, t': seq<nat>)
    requires Distinct(t) && multiset(t') == multiset(t)
    ensures Distinct(t')
  {
    forall i, j | 0 <= i < j < |t'|
      ensures t'[i] != t'[j]
    {
      if t'[i] == t'[j] {
        Twice(t', i, j);
        DistinctAtMostOnce(t, t'[i]);
      }
    }
  }

  /** Reordering one table keeps the state well formed. */
  lemma PermTableOk(pool: seq<ExploreString>, tables: seq<seq<nat>>, entries: seq<Entry>, cat: nat, t: seq<nat>)
    requires StateOk(pool, tables, entries) && cat < CAT_COUNT && multiset(t) == multiset(tables[cat])
    ensures StateOk(pool, tables[cat := t], entries)
  {
    var tables' := tables[cat := t];
    forall c, i | 0 <= c < |tables'| && 0 <= i < |tables'[c]|
      ensures tables'[c][i] < |pool|
    {
      if c == cat {
        var i' := InTable(tables[cat], t, i);
      }
    }
    PermDistinct(tables[cat], t);
    forall c, d, i, j | 0 <= c < d < |tables'| && 0 <= i < |tables'[c]| && 0 <= j < |tables'[d]|
      ensures tables'[c][i] != tables'[d][j]
    {
      if c == cat {
        var i' := InTable(tables[cat], t, i);
        assert tables[c][i'] != tables[d][j];
      } else if d == cat {
        var j' := InTable(tables[cat], t, j);
        assert tables[c][i] != tables[d][j'];
      }
    }
    forall k | 0 <= k < |entries|
      ensures EntryOk(pool, tables', entries[k])
    {
      assert EntryOk(pool, tables, entries[k]);
    }
  }

  /** An element of a reordered table is at some position of the original. */
  lemma InTable(t: seq<nat>, t': seq<nat>, i: nat) returns (i': nat)
    requires multiset(t') == multiset(t) && i < |t'|
    ensures i' < |t| && t[i'] == t'[i]
  {
    assert t'[i] in multiset(t);
    i' :| 0 <= i' < |t| && t[i'] == t'[i];
  }

  /** Rewriting the ranks of the arena strings keeps the state well formed. */
  lemma SameTextsOk(pool: seq<ExploreString>, pool': seq<ExploreString>, tables: seq<seq<nat>>, entries: seq<Entry>)
    requires StateOk(pool, tables, entries) && Texts(pool') == Texts(pool)
    ensures StateOk(pool', tables, entries)
  {
    forall id | 0 <= id < |pool'|
      ensures IsCString(pool'[id].str) && pool'[id].str != []
    {
      assert Texts(pool')[id] == Texts(pool)[id];
    }
    forall k | 0 <= k < |entries|
      ensures EntryOk(pool', tables, entries[k])
    {
      assert EntryOk(pool, tables, entries[k]);
    }
  }

  /** Reordering the records keeps the state well formed. */
  lemma PermEntriesOk(pool: seq<ExploreString>, tables: seq<seq<nat>>, entries: seq<Entry>, entries': seq<Entry>)
    requires StateOk(pool, tables, entries) && multiset(entries') == multiset(entries)
    ensures StateOk(pool, tables, entries')
  {
    forall k | 0 <= k < |entries'|
      ensures EntryOk(pool, tables, entries'[k])
    {
      assert entries'[k] in multiset(entries);
      var k' :| 0 <= k' < |entries| && entries[k'] == entries'[k];
    }
  }

  /** `for (idx = 0; idx != len; idx++) by[i][idx]->idx = idx;`: every
      string of the table gets its position as rank; every other string is
      left as it is. */
  method Rank(pool: seq<ExploreString>, table: seq<nat>) returns (pool': seq<ExploreString>)
    requires Distinct(table) && forall k :: 0 <= k < |table| ==> table[k] < |pool|
    ensures Texts(pool') == Texts(pool)
    ensures forall k :: 0 <= k < |table| ==> pool'[table[k]].idx == k
    ensures forall id :: 0 <= id < |pool| && id !in table ==> pool'[id] == pool[id]
  {
    pool' := pool;
    var idx := 0;
    while idx < |table|
      invariant idx <= |table| && |pool'| == |pool|
      invariant forall id :: 0 <= id < |pool| ==> pool'[id].str == pool[id].str
      invariant forall k :: 0 <= k < idx ==> pool'[table[k]].idx == k
      invariant forall id :: 0 <= id < |pool| && id !in table[..idx] ==> pool'[id] == pool[id]
    {
      pool' := pool'[table[idx] := pool'[table[idx]].(idx := idx)];
      assert table[..idx + 1] == table[..idx] + [table[idx]];
      idx := idx + 1;
    }
    assert table[..idx] == table;
  }

  /** The rank of a string of a ranked table is its position: the table
      finds each of its strings at its rank. */
  lemma RankIsPosition(pool: seq<ExploreString>, table: seq<nat>, id: nat)
    requires forall k :: 0 <= k < |table| ==> table[k] < |pool| && pool[table[k]].idx == k
    requires id in table
    ensures pool[id].idx < |table| && table[pool[id].idx] == id
  {
    var k :| 0 <= k < |table| && table[k] == id;
  }

  /** Every string of every table has its position in the table as rank. */
  ghost predicate Ranked(pool: seq<ExploreString>, tables: seq<seq<nat>>)
  {
    forall c, k :: 0 <= c < |tables| && 0 <= k < |tables[c]| ==>
      tables[c][k] < |pool| && pool[tables[c][k]].idx == k
  }

  /** One turn of the final loop: `qsort` of `by[cat]`, then the ranks. The
      category map is freed there too. */
  method SortCategory(st: ExploreState, cat: nat)
    requires st.Valid() && cat < CAT_COUNT && Ranked(st.strings, st.tables[..cat])
    modifies st
    ensures st.Valid() && st.entries == old(st.entries) && st.hasUnknown == old(st.hasUnknown)
    ensures Texts(st.strings) == Texts(old(st.strings))
    ensures st.tables == old(st.tables)[cat := SortedTable(Texts(old(st.strings)), old(st.tables)[cat])]
    ensures Ranked(st.strings, st.tables[..cat + 1])
  {
    var t := SortedTable(Texts(st.strings), st.tables[cat]);
    PermTableOk(st.strings, st.tables, st.entries, cat, t);
    PermDistinct(st.tables[cat], t);
    forall k | 0 <= k < |t|
      ensures t[k] < |st.strings|
    {
      var k' := InTable(st.tables[cat], t, k);
    }
    ghost var before := st.strings;
    ghost var prior := st.tables[..cat];
    var pool := Rank(st.strings, t);
    SameTextsOk(st.strings, pool, st.tables[cat := t], st.entries);
    st.tables := st.tables[cat := t];
    st.strings := pool;
    assert st.tables[..cat] == prior;
    RanksKept(before, pool, st.tables, cat);
  }

  /** Ranking one table leaves the ranks of the tables before it alone,
      since no string is in two tables. */
  lemma RanksKept(before: seq<ExploreString>, after: seq<ExploreString>, tables: seq<seq<nat>>, cat: nat)
    requires TablesDisjoint(tables) && cat < |tables| && |after| == |before|
    requires Ranked(before, tables[..cat])
    requires forall k :: 0 <= k < |tables[cat]| ==> tables[cat][k] < |after| && after[tables[cat][k]].idx == k
    requires forall id :: 0 <= id < |before| && id !in tables[cat] ==> after[id] == before[id]
    ensures Ranked(after, tables[..cat + 1])
  {
    forall c, k | 0 <= c < cat + 1 && 0 <= k < |tables[c]|
      ensures tables[c][k] < |after| && after[tables[c][k]].idx == k
    {
      if c < cat {
        Apart(tables, c, cat, k);
        assert tables[..cat][c] == tables[c];
      }
    }
  }

  /** The loop over the categories at the end of `explore_build_list`. */
  method SortTables(st: ExploreState)
    requires st.Valid()
    modifies st
    ensures st.Valid() && st.hasUnknown == old(st.hasUnknown) && st.entries == old(st.entries)
    ensures Texts(st.strings) == Texts(old(st.strings))
    ensures forall c :: 0 <= c < CAT_COUNT ==> st.tables[c] == SortedTable(Texts(old(st.strings)), old(st.tables)[c])
    ensures Ranked(st.strings, st.tables)
  {
    ghost var texts := Texts(st.strings);
    ghost var tables := st.tables;
    var cat := 0;
    while cat < CAT_COUNT
      invariant cat <= CAT_COUNT && st.Valid()
      invariant st.hasUnknown == old(st.hasUnknown) && st.entries == old(st.entries)
      invariant Texts(st.strings) == texts
      invariant forall c :: 0 <= c < cat ==> st.tables[c] == SortedTable(texts, tables[c])
      invariant forall c :: cat <= c < CAT_COUNT ==> st.tables[c] == tables[c]
      invariant Ranked(st.strings, st.tables[..cat])
    {
      SortCategory(st, cat);
      cat := cat + 1;
    }
    assert st.tables[..CAT_COUNT] == st.tables;
  }

  /** The `qsort` of the records that closes `explore_build_list`. */
  method SortEntries(st: ExploreState)
    requires st.Valid()
    modifies st
    ensures st.Valid() && st.entries == Compare.SortBy(old(st.entries), ByLabel)
    ensures st.strings == old(st.strings) && st.tables == old(st.tables) && st.hasUnknown == old(st.hasUnknown)
  {
    var sorted := Compare.SortBy(st.entries, ByLabel);
    PermEntriesOk(st.strings, st.tables, st.entries, sorted);
    st.entries := sorted;
  }

  /** The end of `explore_build_list`: the loop over the categories, then
      the `qsort` of the records. */
  method Finish(st: ExploreState)
    requires st.Valid()
    modifies st
    ensures st.Valid() && st.hasUnknown == old(st.hasUnknown)
    ensures Texts(st.strings) == Texts(old(st.strings))
    ensures forall c :: 0 <= c < CAT_COUNT ==> st.tables[c] == SortedTable(Texts(old(st.strings)), old(st.tables)[c])
    ensures Ranked(st.strings, st.tables)
    ensures st.entries == Compare.SortBy(old(st.entries), ByLabel)
  {
    SortTables(st);
    SortEntries(st);
  }

  /** A string of one table is in no other. */
  lemma Apart(tables: seq<seq<nat>>, c: nat, d: nat, k: nat)
    requires TablesDisjoint(tables) && c < |tables| && d < |tables| && c != d && k < |tables[c]|
    ensures tables[c][k] !in tables[d]
  {
    forall j | 0 <= j < |tables[d]|
      ensures tables[d][j] != tables[c][k]
    {
    }
  }

  /** `qsort` with `explore_qsort_func_strings` leaves a table of C strings
      ordered by its comparator. */
  lemma SortedTableOrdered(pool: seq<ExploreString>, table: seq<nat>)
    requires PoolOk(pool) && forall k :: 0 <= k < |table| ==> table[k] < |pool|
    ensures Compare.SortedBy(SortedTable(Texts(pool), table), ByText(Texts(pool)))
  {
    Compare.SortBySorted(table, ByText(Texts(pool)));
  }

  /** `qsort` with `explore_qsort_func_entries` leaves the records ordered
      by label, and holds the same records. */
  lemma SortedEntriesOrdered(pool: seq<ExploreString>, tables: seq<seq<nat>>, entries: seq<Entry>)
    requires EntriesOk(pool, tables, entries)
    ensures Compare.SortedBy(Compare.SortBy(entries, ByLabel), ByLabel)
    ensures multiset(Compare.SortBy(entries, ByLabel)) == multiset(entries)
  {
    assert forall k :: 0 <= k < |entries| ==> EntryOk(pool, tables, entries[k]);
    Compare.SortBySorted(entries, ByLabel);
  }
}
