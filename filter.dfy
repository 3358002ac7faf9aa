/** The menu lists the explore view builds from a finished index: the values
    of one category, and the filtered views, where a record is kept when it
    passes every level of the menu path and the search text. A filtered view
    either drills into one more category, listing each value of the passing
    records once, or lists the passing records themselves. */
module ExploreFilter {
  import opened Bytes
  import opened Explore
  import opened ExploreFinish
  import HashMap
  import Compare

  /** Menu item types, counted from `MENU_SETTINGS_LAST` (whose value is not
      part of this model): `EXPLORE_TYPE_FILTERNULL`, `_SEARCH`, `_SHOWALL`,
      `_FIRSTCATEGORY` and `_FIRSTITEM`. */
  const FILTERNULL: int := 0
  const SEARCH: int := 1
  const SHOWALL: int := 2
  const FIRSTCATEGORY: int := 3
  const FIRSTITEM: int := FIRSTCATEGORY + CAT_COUNT

  /** `Unknown`, the item standing for records without a value. */
  const UNKNOWN: seq<byte> := [0x55, 0x6E, 0x6B, 0x6E, 0x6F, 0x77, 0x6E]

  /** An entry appended to the menu list: the text shown and the type. */
  datatype MenuItem = MenuItem(path: seq<byte>, typ: int)

  /** What `explore_qsort_func_menulist` compares: the item path. */
  function ByPath(it: MenuItem): seq<byte>
  {
    it.path
  }

  // ---------------------------------------------------------------------
  // The values of one category

  /** The list of one category: every string of the table, in table order,
      with `Unknown` after them when the category's `has_unknown` flag is
      set: some call for the category got a NULL or empty string, which for
      System includes a missing core system name. Item `i` has
      type `FIRSTITEM + i`. The table is never empty here: the top menu
      offers only categories with values, and `i_last` would wrap around
      otherwise. */
  method ListCategory(st: ExploreState, cat: nat) returns (items: seq<MenuItem>)
    requires st.Valid() && cat < CAT_COUNT && st.tables[cat] != []
    ensures |items| == |st.tables[cat]| + (if st.hasUnknown[cat] then 1 else 0)
    ensures forall i :: 0 <= i < |st.tables[cat]| ==>
      items[i] == MenuItem(st.strings[st.tables[cat][i]].str, FIRSTITEM + i)
    ensures st.hasUnknown[cat] ==> items[|items| - 1] == MenuItem(UNKNOWN, FILTERNULL)
  {
    var entries := st.tables[cat];
    var last := |entries| - 1;
    items := [];
    var i := 0;
    while i <= last
      invariant i <= |entries| && |items| == i
      invariant forall j :: 0 <= j < i ==> items[j] == MenuItem(st.strings[entries[j]].str, FIRSTITEM + j)
    {
      items := items + [MenuItem(st.strings[entries[i]].str, FIRSTITEM + i)];
      i := i + 1;
    }
    if st.hasUnknown[cat] {
      items := items + [MenuItem(UNKNOWN, FILTERNULL)];
    }
  }

  // ---------------------------------------------------------------------
  // The levels of the menu path

  /** One level of the menu path: a category and the value chosen in it,
      NULL for `Unknown`. */
  datatype Level = Level(cat: nat, filter: Option<nat>)

  /** `stack_top[i].type - EXPLORE_TYPE_FIRSTCATEGORY` is unsigned, so a
      type below the first category wraps around and names no category. */
  function CategoryOf(t: int): (c: Option<nat>)
    ensures c.Some? ==> c.value < CAT_COUNT && t == FIRSTCATEGORY + c.value
    ensures c.None? ==> t < FIRSTCATEGORY || t >= FIRSTCATEGORY + CAT_COUNT
  {
    if FIRSTCATEGORY <= t < FIRSTCATEGORY + CAT_COUNT then Some(t - FIRSTCATEGORY) else None
  }

  /** `filter[levels]`: NULL for the `Unknown` item, otherwise the table
      entry the item type numbers. */
  function Select(table: seq<nat>, t: int): Option<nat>
    requires t == FILTERNULL || FIRSTITEM <= t < FIRSTITEM + |table|
  {
    if t == FILTERNULL then None else Some(table[t - FIRSTITEM])
  }

  /** Below every category level the menu path holds the item chosen in
      that category's list: `Unknown` or one of its entries. */
  ghost predicate Selectable(tables: seq<seq<nat>>, types: seq<int>)
  {
    && |tables| == CAT_COUNT
    && forall i :: 1 <= i < |types| - 1 && CategoryOf(types[i]).Some? ==>
         types[i + 1] == FILTERNULL || FIRSTITEM <= types[i + 1] < FIRSTITEM + |tables[CategoryOf(types[i]).value]|
  }

  /** The level menu position `i` contributes, if any. */
  function LevelAt(tables: seq<seq<nat>>, types: seq<int>, i: nat): seq<Level>
    requires Selectable(tables, types) && 1 <= i < |types| - 1
  {
    match CategoryOf(types[i])
    case None => []
    case Some(c) => [Level(c, Select(tables[c], types[i + 1]))]
  }

  /** The levels of menu positions `1 .. n - 1`. */
  function LevelsTo(tables: seq<seq<nat>>, types: seq<int>, n: nat): seq<Level>
    requires Selectable(tables, types) && n < |types|
  {
    if n <= 1 then [] else LevelsTo(tables, types, n - 1) + LevelAt(tables, types, n - 1)
  }

  /** Every level names a category, and a value of that category or NULL. */
  ghost predicate LevelsIn(tables: seq<seq<nat>>, levels: seq<Level>)
  {
    forall l :: 0 <= l < |levels| ==>
      levels[l].cat < CAT_COUNT && levels[l].cat < |tables|
      && (levels[l].filter.Some? ==> levels[l].filter.value in tables[levels[l].cat])
  }

  /** Every level is a category the records have a slot for. */
  predicate LevelsOk(levels: seq<Level>)
  {
    forall l :: 0 <= l < |levels| ==> levels[l].cat < CAT_COUNT
  }

  /** The menu path gives one level per category position, each holding
      the chosen value of its category's table. */
  lemma {:induction false} LevelsToIn(tables: seq<seq<nat>>, types: seq<int>, n: nat)
    requires Selectable(tables, types) && n < |types|
    ensures LevelsIn(tables, LevelsTo(tables, types, n))
    ensures |LevelsTo(tables, types, n)| <= n
  {
    if n > 1 {
      LevelsToIn(tables, types, n - 1);
      var i := n - 1;
      if CategoryOf(types[i]).Some? {
        var c := CategoryOf(types[i]).value;
        if types[i + 1] != FILTERNULL {
          assert tables[c][types[i + 1] - FIRSTITEM] in tables[c];
        }
      }
    }
  }

  /** The loop over the menu path at the head of the filtered view: a
      level for every position `1 .. depth - 1` entered through a category,
      holding the item chosen one position further down. `types` holds the
      types of `stack_top[0 .. depth]`. */
  method DecodeLevels(st: ExploreState, types: seq<int>) returns (levels: seq<Level>)
    requires st.Valid() && |types| >= 1 && Selectable(st.tables, types)
    ensures levels == LevelsTo(st.tables, types, |types| - 1)
    ensures LevelsOk(levels) && LevelsIn(st.tables, levels)
  {
    var depth := |types| - 1;
    levels := [];
    var i := 1;
    while i < depth
      invariant 1 <= i && (depth >= 1 ==> i <= depth)
      invariant levels == LevelsTo(st.tables, types, if depth == 0 then 0 else i)
    {
      var byCategory := CategoryOf(types[i]);
      if byCategory.Some? {
        var c := byCategory.value;
        var byType := types[i + 1];
        var filter := if byType == FILTERNULL then None else Some(st.tables[c][byType - FIRSTITEM]);
        levels := levels + [Level(c, filter)];
      }
      i := i + 1;
    }
    LevelsToIn(st.tables, types, |types| - 1);
  }

  // ---------------------------------------------------------------------
  // Which records pass

  /** `f` is in the split list before its NULL. */
  predicate Listed(sp: SplitList, f: Option<nat>)
  {
    exists i :: 0 <= i < |sp| - 1 && sp[i] == f
  }

  /** A split list as the build commits it: strings, then NULL. */
  predicate Terminated(sp: SplitList)
  {
    |sp| >= 2 && sp[|sp| - 1].None? && forall i :: 0 <= i < |sp| - 1 ==> sp[i].Some?
  }

  /** A record passes a level when the value is its primary value of that
      category, or, for a split category, when the value is in its split
      list. */
  predicate Matches(e: Entry, lv: Level)
    requires lv.cat < |e.primary|
  {
    e.primary[lv.cat] == lv.filter
    || (UseSplit(lv.cat) && e.split.Some? && Listed(e.split.value, lv.filter))
  }

  /** `strcasestr(text, find)` is not NULL: `find` occurs in `text` when
      `A`-`Z` are read as `a`-`z`. */
  predicate ContainsNoCase(text: seq<byte>, find: seq<byte>)
  {
    exists i :: 0 <= i <= |text| - |find| && MatchesAt(text, find, i)
  }

  /** `find` read without case at position `i` of `text`. */
  predicate MatchesAt(text: seq<byte>, find: seq<byte>, i: nat)
    requires i + |find| <= |text|
  {
    LowerAll(text[i..i + |find|]) == LowerAll(find)
  }

  /** A record the filtered view keeps: it passes every level, and contains
      the search text when there is one. */
  predicate Keep(e: Entry, levels: seq<Level>, find: seq<byte>)
    requires |e.primary| == CAT_COUNT && LevelsOk(levels)
  {
    && (forall l :: 0 <= l < |levels| ==> Matches(e, levels[l]))
    && (find != [] ==> ContainsNoCase(e.labelStr, find))
  }

  /** A record with a slot per category and a well-formed split list. */
  predicate Shaped(e: Entry)
  {
    |e.primary| == CAT_COUNT && (e.split.Some? ==> Terminated(e.split.value))
  }

  predicate AllShaped(entries: seq<Entry>)
  {
    forall k :: 0 <= k < |entries| ==> Shaped(entries[k])
  }

  /** The `Unknown` item of a category (a NULL filter) keeps exactly the
      records without a value of that category: no split list holds NULL
      before its end. */
  lemma UnknownMatchesMissing(e: Entry, cat: nat)
    requires Shaped(e) && cat < CAT_COUNT
    ensures Matches(e, Level(cat, None)) <==> e.primary[cat].None?
  {
  }

  /** The `do … while (*(++split))` walk over a split list, stopping at `f`
      or at the NULL; `f` is there when the walk stops on a string. */
  method SplitHas(sp: SplitList, f: Option<nat>) returns (found: bool)
    requires Terminated(sp)
    ensures found <==> Listed(sp, f)
  {
    var i := 0;
    var more := true;
    while more
      invariant i < |sp| && forall j :: 0 <= j < i ==> sp[j] != f
      invariant more ==> i < |sp| - 1
      invariant !more ==> sp[i] == f || i == |sp| - 1
      decreases |sp| - i, more
    {
      if sp[i] == f {
        more := false;
      } else {
        i := i + 1;
        more := sp[i].Some?;
      }
    }
    found := sp[i].Some?;
  }

  /** The test one record goes through: the loop over the levels, then the
      search text. */
  method Passes(e: Entry, levels: seq<Level>, find: seq<byte>) returns (keep: bool)
    requires Shaped(e) && LevelsOk(levels)
    ensures keep == Keep(e, levels, find)
  {
    var lvl := 0;
    while lvl < |levels|
      invariant lvl <= |levels| && forall l :: 0 <= l < lvl ==> Matches(e, levels[l])
    {
      var lv := levels[lvl];
      if lv.filter != e.primary[lv.cat] {
        var inSplit := false;
        if UseSplit(lv.cat) && e.split.Some? {
          inSplit := SplitHas(e.split.value, lv.filter);
        }
        if !inSplit {
          return false;
        }
      }
      lvl := lvl + 1;
    }
    keep := find == [] || ContainsNoCase(e.labelStr, find);
  }

  // ---------------------------------------------------------------------
  // Drilling into one category

  /** The key of a string in the scratch map: `str->idx + 1`, a `uint32_t`. */
  function Key(pool: seq<ExploreString>, id: nat): u32
    requires id < |pool|
  {
    (pool[id].idx + 1) % 0x1_0000_0000
  }

  predicate InPool(pool: seq<ExploreString>, ids: seq<nat>)
  {
    forall i :: 0 <= i < |ids| ==> ids[i] < |pool|
  }

  /** The scratch map after the strings `ids` were listed: each key set to
      1; `ex_hashmap32_setnum` ignores the key 0. */
  function Seen(pool: seq<ExploreString>, ids: seq<nat>): (s: map<u32, nat>)
    requires InPool(pool, ids)
    ensures forall h :: h in s ==> s[h] == 1
  {
    if ids == [] then map[]
    else
      var h := Key(pool, ids[|ids| - 1]);
      var s := Seen(pool, ids[..|ids| - 1]);
      if h == 0 then s else s[h := 1]
  }

  /** What the drill-down has gathered: the strings listed, in order, and
      whether a passing record had no value. */
  datatype Gathered = Gathered(ids: seq<nat>, unknown: bool)

  /** The primary values of the category are arena strings. */
  predicate PrimariesIn(pool: seq<ExploreString>, entries: seq<Entry>, cat: nat)
  {
    forall k :: 0 <= k < |entries| ==>
      cat < |entries[k].primary| && (entries[k].primary[cat].Some? ==> entries[k].primary[cat].value < |pool|)
  }

  /** The drill-down over `entries`: a passing record without a value of
      `cat` sets the `Unknown` flag; one with a value lists it unless its
      key is already in the scratch map. */
  function DrillDown(pool: seq<ExploreString>, entries: seq<Entry>, levels: seq<Level>, find: seq<byte>, cat: nat): (g: Gathered)
    requires AllShaped(entries) && LevelsOk(levels) && cat < CAT_COUNT && PrimariesIn(pool, entries, cat)
    ensures InPool(pool, g.ids)
  {
    if entries == [] then Gathered([], false)
    else Gather(pool, DrillDown(pool, entries[..|entries| - 1], levels, find, cat), entries[|entries| - 1], levels, find, cat)
  }

  /** One record of the drill-down. */
  function Gather(pool: seq<ExploreString>, g: Gathered, e: Entry, levels: seq<Level>, find: seq<byte>, cat: nat): (g': Gathered)
    requires Shaped(e) && LevelsOk(levels) && cat < CAT_COUNT && InPool(pool, g.ids)
    requires e.primary[cat].Some? ==> e.primary[cat].value < |pool|
    ensures InPool(pool, g'.ids)
  {
    if !Keep(e, levels, find) then g
    else if e.primary[cat].None? then g.(unknown := true)
    else if Key(pool, e.primary[cat].value) in Seen(pool, g.ids) then g
    else g.(ids := g.ids + [e.primary[cat].value])
  }

  /** The items the drill-down appends: each string with the type that
      selects it, `FIRSTITEM + idx`. */
  function ValueItems(pool: seq<ExploreString>, ids: seq<nat>): (items: seq<MenuItem>)
    requires InPool(pool, ids)
    ensures |items| == |ids|
    ensures forall i :: 0 <= i < |ids| ==> items[i] == MenuItem(pool[ids[i]].str, FIRSTITEM + pool[ids[i]].idx)
  {
    seq(|ids|, i requires 0 <= i < |ids| => MenuItem(pool[ids[i]].str, FIRSTITEM + pool[ids[i]].idx))
  }

  /** The list of the drill-down view: the values sorted with
      `explore_qsort_func_menulist`, then `Unknown` when a passing record
      had no value. */
  function ValuesList(pool: seq<ExploreString>, g: Gathered): seq<MenuItem>
    requires InPool(pool, g.ids)
  {
    Compare.SortBy(ValueItems(pool, g.ids), ByPath) + (if g.unknown then [MenuItem(UNKNOWN, FILTERNULL)] else [])
  }

  /** A finished state meets what the filtered views read. */
  lemma ValidShaped(st: ExploreState, cat: nat)
    requires st.Valid() && cat < CAT_COUNT
    ensures AllShaped(st.entries) && PrimariesIn(st.strings, st.entries, cat)
  {
    forall k | 0 <= k < |st.entries|
      ensures Shaped(st.entries[k])
      ensures st.entries[k].primary[cat].Some? ==> st.entries[k].primary[cat].value < |st.strings|
    {
      assert EntryOk(st.strings, st.tables, st.entries[k]);
      if st.entries[k].primary[cat].Some? {
        var id := st.entries[k].primary[cat].value;
        assert id in st.tables[cat];
      }
    }
  }

  /** Listing one more string extends the items by its item. */
  lemma ValueItemsSnoc(pool: seq<ExploreString>, ids: seq<nat>, id: nat)
    requires InPool(pool, ids) && id < |pool|
    ensures InPool(pool, ids + [id])
    ensures ValueItems(pool, ids + [id]) == ValueItems(pool, ids) + [MenuItem(pool[id].str, FIRSTITEM + pool[id].idx)]
  {
  }

  /** The scratch map test for a record's value: a string whose key is not
      in the map yet is listed and its key set. */
  method ListOnce(m: HashMap.HashMap32, pool: seq<ExploreString>, id: nat, ghost ids: seq<nat>, listed: seq<MenuItem>)
    returns (ghost ids': seq<nat>, listed': seq<MenuItem>)
    requires m.Valid() && id < |pool| && InPool(pool, ids)
    requires m.Contents == Seen(pool, ids) && listed == ValueItems(pool, ids)
    modifies m.Repr
    ensures m.Valid() && fresh(m.Repr - old(m.Repr))
    ensures ids' == if Key(pool, id) in Seen(pool, ids) then ids else ids + [id]
    ensures InPool(pool, ids') && m.Contents == Seen(pool, ids') && listed' == ValueItems(pool, ids')
  {
    var key := (pool[id].idx + 1) % 0x1_0000_0000;
    var seen := m.GetNum(key);
    if seen != 0 {
      return ids, listed;
    }
    m.SetNum(key, 1);
    listed' := listed + [MenuItem(pool[id].str, FIRSTITEM + pool[id].idx)];
    ids' := ids + [id];
    assert ids'[..|ids'| - 1] == ids;
    ValueItemsSnoc(pool, ids, id);
  }

  /** One record of the drill-down loop. */
  method DrillStep(m: HashMap.HashMap32, pool: seq<ExploreString>, e: Entry, levels: seq<Level>, find: seq<byte>, cat: nat,
                   ghost ids: seq<nat>, unknown: bool, listed: seq<MenuItem>)
    returns (ghost ids': seq<nat>, unknown': bool, listed': seq<MenuItem>)
    requires m.Valid() && Shaped(e) && LevelsOk(levels) && cat < CAT_COUNT
    requires e.primary[cat].Some? ==> e.primary[cat].value < |pool|
    requires InPool(pool, ids) && m.Contents == Seen(pool, ids) && listed == ValueItems(pool, ids)
    modifies m.Repr
    ensures m.Valid() && fresh(m.Repr - old(m.Repr))
    ensures Gathered(ids', unknown') == Gather(pool, Gathered(ids, unknown), e, levels, find, cat)
    ensures InPool(pool, ids') && m.Contents == Seen(pool, ids') && listed' == ValueItems(pool, ids')
  {
    ids', unknown', listed' := ids, unknown, listed;
    var keep := Passes(e, levels, find);
    if !keep {
      return;
    }
    var str := e.primary[cat];
    if str.None? {
      unknown' := true;
      return;
    }
    ids', listed' := ListOnce(m, pool, str.value, ids, listed);
    GatherKept(pool, Gathered(ids, unknown), e, levels, find, cat);
  }

  /** A passing record with a value of the category lists it unless its key
      is already marked. */
  lemma GatherKept(pool: seq<ExploreString>, g: Gathered, e: Entry, levels: seq<Level>, find: seq<byte>, cat: nat)
    requires Shaped(e) && LevelsOk(levels) && cat < CAT_COUNT && InPool(pool, g.ids)
    requires e.primary[cat].Some? && e.primary[cat].value < |pool| && Keep(e, levels, find)
    ensures var id := e.primary[cat].value;
      Gather(pool, g, e, levels, find, cat) == if Key(pool, id) in Seen(pool, g.ids) then g else g.(ids := g.ids + [id])
  {
  }

  /** The drill-down over one more record is one more step. */
  lemma DrillDownSnoc(pool: seq<ExploreString>, entries: seq<Entry>, levels: seq<Level>, find: seq<byte>, cat: nat, k: nat)
    requires AllShaped(entries) && LevelsOk(levels) && cat < CAT_COUNT && PrimariesIn(pool, entries, cat) && k < |entries|
    ensures AllShaped(entries[..k]) && PrimariesIn(pool, entries[..k], cat)
    ensures AllShaped(entries[..k + 1]) && PrimariesIn(pool, entries[..k + 1], cat)
    ensures DrillDown(pool, entries[..k + 1], levels, find, cat) ==
      Gather(pool, DrillDown(pool, entries[..k], levels, find, cat), entries[k], levels, find, cat)
  {
    assert entries[..k + 1][..k] == entries[..k];
  }

  /** The filtered view drilling into category `cat`: the passing records'
      values of `cat`, each once, sorted, then `Unknown` if a passing
      record had none. */
  method ListValues(st: ExploreState, levels: seq<Level>, find: seq<byte>, cat: nat) returns (items: seq<MenuItem>)
    requires st.Valid() && cat < CAT_COUNT && LevelsOk(levels)
    ensures AllShaped(st.entries) && PrimariesIn(st.strings, st.entries, cat)
    ensures items == ValuesList(st.strings, DrillDown(st.strings, st.entries, levels, find, cat))
  {
    ValidShaped(st, cat);
    items := GatherValues(st.strings, st.entries, levels, find, cat);
  }

  /** The drill-down loop over `explore_state->entries`, with its scratch
      map, then the `qsort` and the `Unknown` item. */
  method GatherValues(pool: seq<ExploreString>, entries: seq<Entry>, levels: seq<Level>, find: seq<byte>, cat: nat)
    returns (items: seq<MenuItem>)
    requires AllShaped(entries) && LevelsOk(levels) && cat < CAT_COUNT && PrimariesIn(pool, entries, cat)
    ensures items == ValuesList(pool, DrillDown(pool, entries, levels, find, cat))
  {
    var m := new HashMap.HashMap32();
    ghost var ids: seq<nat> := [];
    var unknown := false;
    var listed: seq<MenuItem> := [];
    var k := 0;
    while k < |entries|
      invariant k <= |entries| && m.Valid() && fresh(m.Repr)
      invariant InPool(pool, ids) && m.Contents == Seen(pool, ids) && listed == ValueItems(pool, ids)
      invariant AllShaped(entries[..k]) && PrimariesIn(pool, entries[..k], cat)
      invariant Gathered(ids, unknown) == DrillDown(pool, entries[..k], levels, find, cat)
    {
      DrillDownSnoc(pool, entries, levels, find, cat, k);
      ids, unknown, listed := DrillStep(m, pool, entries[k], levels, find, cat, ids, unknown, listed);
      k := k + 1;
    }
    assert entries[..k] == entries;
    items := Compare.SortBy(listed, ByPath);
    if unknown {
      items := items + [MenuItem(UNKNOWN, FILTERNULL)];
    }
  }

  // ---------------------------------------------------------------------
  // What the drill-down lists

  /** A key is in the scratch map exactly when it is the non-zero key of a
      listed string. */
  lemma {:induction false} SeenHas(pool: seq<ExploreString>, ids: seq<nat>, h: u32)
    requires InPool(pool, ids)
    ensures h in Seen(pool, ids) <==> h != 0 && exists i :: 0 <= i < |ids| && Key(pool, ids[i]) == h
    decreases |ids|
  {
    if ids != [] {
      var init := ids[..|ids| - 1];
      SeenHas(pool, init, h);
      if h != 0 && exists i :: 0 <= i < |ids| && Key(pool, ids[i]) == h {
        var i :| 0 <= i < |ids| && Key(pool, ids[i]) == h;
        if i < |init| {
          assert init[i] == ids[i];
        }
      }
      if exists i :: 0 <= i < |init| && Key(pool, init[i]) == h {
        var i :| 0 <= i < |init| && Key(pool, init[i]) == h;
        assert ids[i] == init[i];
      }
    }
  }

  /** The strings of a table with the ranks the final pass gives them, in
      a table short enough that `idx + 1` does not wrap. */
  ghost predicate RankedTable(pool: seq<ExploreString>, table: seq<nat>)
  {
    && |table| < 0xFFFF_FFFF
    && forall k :: 0 <= k < |table| ==> table[k] < |pool| && pool[table[k]].idx == k
  }

  /** Every value of `cat` a record holds is in the table. */
  ghost predicate FromTable(entries: seq<Entry>, table: seq<nat>, cat: nat)
  {
    forall k :: 0 <= k < |entries| && cat < |entries[k].primary| && entries[k].primary[cat].Some? ==>
      entries[k].primary[cat].value in table
  }

  /** In a ranked table a string's key names its position, so two strings
      of the table with one key are one string. */
  lemma KeyNamesString(pool: seq<ExploreString>, table: seq<nat>, a: nat, b: nat)
    requires RankedTable(pool, table) && a in table && b in table
    ensures a < |pool| && b < |pool|
    ensures Key(pool, a) == Key(pool, b) ==> a == b
    ensures Key(pool, a) != 0
  {
    var i :| 0 <= i < |table| && table[i] == a;
    var j :| 0 <= j < |table| && table[j] == b;
  }

  /** Choosing the item listed for a string selects that string again: the
      type `FIRSTITEM + idx` decodes to its own table slot. */
  lemma ItemSelectsValue(pool: seq<ExploreString>, table: seq<nat>, id: nat)
    requires RankedTable(pool, table) && id in table
    ensures id < |pool| && FIRSTITEM <= FIRSTITEM + pool[id].idx < FIRSTITEM + |table|
    ensures Select(table, FIRSTITEM + pool[id].idx) == Some(id)
  {
    var i :| 0 <= i < |table| && table[i] == id;
  }

  /** The strings listed so far: strings of the table with pairwise
      different ranks. */
  ghost predicate ListedOnce(pool: seq<ExploreString>, table: seq<nat>, ids: seq<nat>)
  {
    && (forall i :: 0 <= i < |ids| ==> ids[i] in table && ids[i] < |pool|)
    && (forall i, j :: 0 <= i < j < |ids| ==> pool[ids[i]].idx != pool[ids[j]].idx)
  }

  /** One step of the drill-down lists a record's value exactly when the
      record passes and its value is not listed yet, and never lists a
      rank twice. */
  lemma GatherStep(pool: seq<ExploreString>, table: seq<nat>, g: Gathered, e: Entry, levels: seq<Level>, find: seq<byte>, cat: nat)
    requires Shaped(e) && LevelsOk(levels) && cat < CAT_COUNT && InPool(pool, g.ids)
    requires e.primary[cat].Some? ==> e.primary[cat].value in table
    requires RankedTable(pool, table) && ListedOnce(pool, table, g.ids)
    ensures e.primary[cat].Some? ==> e.primary[cat].value < |pool|
    ensures var g' := Gather(pool, g, e, levels, find, cat);
      && ListedOnce(pool, table, g'.ids)
      && (forall id :: id in g'.ids <==> id in g.ids || (Keep(e, levels, find) && e.primary[cat] == Some(id)))
  {
    if e.primary[cat].Some? {
      var id := e.primary[cat].value;
      KeyNamesString(pool, table, id, id);
      if Keep(e, levels, find) {
        SeenHas(pool, g.ids, Key(pool, id));
        if Key(pool, id) in Seen(pool, g.ids) {
          var i :| 0 <= i < |g.ids| && Key(pool, g.ids[i]) == Key(pool, id);
          KeyNamesString(pool, table, g.ids[i], id);
        } else {
          forall i | 0 <= i < |g.ids|
            ensures pool[g.ids[i]].idx != pool[id].idx
          {
            KeyNamesString(pool, table, g.ids[i], id);
          }
        }
      }
    }
  }

  /** Some passing record has `v` as its value of `cat` (NULL: none). */
  ghost predicate Supplies(entries: seq<Entry>, levels: seq<Level>, find: seq<byte>, cat: nat, v: Option<nat>)
    requires AllShaped(entries) && LevelsOk(levels) && cat < CAT_COUNT
  {
    exists k :: 0 <= k < |entries| && Keep(entries[k], levels, find) && entries[k].primary[cat] == v
  }

  lemma SuppliesSnoc(entries: seq<Entry>, levels: seq<Level>, find: seq<byte>, cat: nat, v: Option<nat>)
    requires AllShaped(entries) && LevelsOk(levels) && cat < CAT_COUNT && entries != []
    ensures AllShaped(entries[..|entries| - 1])
    ensures Supplies(entries, levels, find, cat, v) <==>
      Supplies(entries[..|entries| - 1], levels, find, cat, v)
      || (Keep(entries[|entries| - 1], levels, find) && entries[|entries| - 1].primary[cat] == v)
  {
    var init := entries[..|entries| - 1];
    if Supplies(entries, levels, find, cat, v) {
      var k :| 0 <= k < |entries| && Keep(entries[k], levels, find) && entries[k].primary[cat] == v;
      if k < |init| {
        assert init[k] == entries[k];
      }
    }
    if Supplies(init, levels, find, cat, v) {
      var k :| 0 <= k < |init| && Keep(init[k], levels, find) && init[k].primary[cat] == v;
      assert init[k] == entries[k];
    }
  }

  /** Each value shows up at most once, and only values of passing records
      show up: a string is listed exactly when some passing record has it
      as its value of the category. */
  lemma {:induction false} DrillDownListsValues(pool: seq<ExploreString>, table: seq<nat>, entries: seq<Entry>,
                                                levels: seq<Level>, find: seq<byte>, cat: nat)
    requires AllShaped(entries) && LevelsOk(levels) && cat < CAT_COUNT && PrimariesIn(pool, entries, cat)
    requires RankedTable(pool, table) && FromTable(entries, table, cat)
    ensures var g := DrillDown(pool, entries, levels, find, cat);
      && ListedOnce(pool, table, g.ids)
      && (forall id :: id in g.ids <==> Supplies(entries, levels, find, cat, Some(id)))
    decreases |entries|
  {
    if entries != [] {
      var n := |entries| - 1;
      var init := entries[..n];
      assert forall k :: 0 <= k < n ==> init[k] == entries[k];
      DrillDownListsValues(pool, table, init, levels, find, cat);
      var g0 := DrillDown(pool, init, levels, find, cat);
      GatherStep(pool, table, g0, entries[n], levels, find, cat);
      forall id
        ensures id in DrillDown(pool, entries, levels, find, cat).ids <==> Supplies(entries, levels, find, cat, Some(id))
      {
        SuppliesSnoc(entries, levels, find, cat, Some(id));
      }
    }
  }

  /** After the final pass every table of a state whose tables are short
      enough for `idx + 1` meets what the drill-down lemmas ask. */
  lemma FinishedTable(pool: seq<ExploreString>, tables: seq<seq<nat>>, entries: seq<Entry>, cat: nat)
    requires StateOk(pool, tables, entries) && Ranked(pool, tables) && cat < CAT_COUNT && |tables[cat]| < 0xFFFF_FFFF
    ensures RankedTable(pool, tables[cat]) && FromTable(entries, tables[cat], cat)
  {
    forall k | 0 <= k < |entries| && entries[k].primary[cat].Some?
      ensures entries[k].primary[cat].value in tables[cat]
    {
      assert EntryOk(pool, tables, entries[k]);
    }
  }

  /** The values of the drill-down come out ordered by the menu comparator,
      and are the listed items themselves. */
  lemma ValuesOrdered(pool: seq<ExploreString>, ids: seq<nat>)
    requires PoolOk(pool) && InPool(pool, ids)
    ensures Compare.SortedBy(Compare.SortBy(ValueItems(pool, ids), ByPath), ByPath)
    ensures multiset(Compare.SortBy(ValueItems(pool, ids), ByPath)) == multiset(ValueItems(pool, ids))
  {
    Compare.SortBySorted(ValueItems(pool, ids), ByPath);
  }

  /** `Unknown` is added exactly when some passing record has no value of
      the category. */
  lemma {:induction false} DrillDownUnknown(pool: seq<ExploreString>, entries: seq<Entry>,
                                            levels: seq<Level>, find: seq<byte>, cat: nat)
    requires AllShaped(entries) && LevelsOk(levels) && cat < CAT_COUNT && PrimariesIn(pool, entries, cat)
    ensures DrillDown(pool, entries, levels, find, cat).unknown <==> Supplies(entries, levels, find, cat, None)
    decreases |entries|
  {
    if entries != [] {
      var init := entries[..|entries| - 1];
      assert forall k :: 0 <= k < |init| ==> init[k] == entries[k];
      DrillDownUnknown(pool, init, levels, find, cat);
      SuppliesSnoc(entries, levels, find, cat, None);
    }
  }

  // ---------------------------------------------------------------------
  // The list of records

  /** The text a record is listed under: its original title if it has one,
      else its playlist label. */
  function Title(e: Entry): seq<byte>
  {
    if e.originalTitle.Some? then e.originalTitle.value else e.labelStr
  }

  /** The positions of the records the filtered view keeps, in order. */
  function Games(entries: seq<Entry>, levels: seq<Level>, find: seq<byte>): (ks: seq<nat>)
    requires AllShaped(entries) && LevelsOk(levels)
    ensures forall i :: 0 <= i < |ks| ==> ks[i] < |entries|
  {
    if entries == [] then []
    else
      var ks := Games(entries[..|entries| - 1], levels, find);
      if Keep(entries[|entries| - 1], levels, find) then ks + [|entries| - 1] else ks
  }

  /** The items of the record list: each kept record under its title, with
      the type that selects it, `FIRSTITEM` plus its position. */
  function GameItems(entries: seq<Entry>, ks: seq<nat>): (items: seq<MenuItem>)
    requires forall i :: 0 <= i < |ks| ==> ks[i] < |entries|
    ensures |items| == |ks|
    ensures forall i :: 0 <= i < |ks| ==> items[i] == MenuItem(Title(entries[ks[i]]), FIRSTITEM + ks[i])
  {
    seq(|ks|, i requires 0 <= i < |ks| => MenuItem(Title(entries[ks[i]]), FIRSTITEM + ks[i]))
  }

  /** The kept positions are exactly the records that pass, in increasing
      order. */
  lemma {:induction false} GamesExactly(entries: seq<Entry>, levels: seq<Level>, find: seq<byte>)
    requires AllShaped(entries) && LevelsOk(levels)
    ensures var ks := Games(entries, levels, find);
      && (forall i, j :: 0 <= i < j < |ks| ==> ks[i] < ks[j])
      && (forall k :: 0 <= k ==> (k in ks <==> k < |entries| && Keep(entries[k], levels, find)))
    decreases |entries|
  {
    if entries != [] {
      var init := entries[..|entries| - 1];
      assert forall k :: 0 <= k < |init| ==> init[k] == entries[k];
      GamesExactly(init, levels, find);
    }
  }

  /** The kept positions of one more record. */
  lemma GamesSnoc(entries: seq<Entry>, levels: seq<Level>, find: seq<byte>, k: nat)
    requires AllShaped(entries) && LevelsOk(levels) && k < |entries|
    ensures AllShaped(entries[..k]) && AllShaped(entries[..k + 1])
    ensures Games(entries[..k + 1], levels, find) ==
      Games(entries[..k], levels, find) + (if Keep(entries[k], levels, find) then [k] else [])
  {
    assert entries[..k + 1][..k] == entries[..k];
  }

  /** The filtered view listing records: every passing record, in record
      order, under its title. */
  method ListGames(st: ExploreState, levels: seq<Level>, find: seq<byte>) returns (items: seq<MenuItem>)
    requires st.Valid() && LevelsOk(levels)
    ensures AllShaped(st.entries)
    ensures items == GameItems(st.entries, Games(st.entries, levels, find))
  {
    ValidShaped(st, 0);
    items := KeptItems(st.entries, levels, find);
  }

  /** The loop of the record list over `explore_state->entries`. */
  method KeptItems(entries: seq<Entry>, levels: seq<Level>, find: seq<byte>) returns (items: seq<MenuItem>)
    requires AllShaped(entries) && LevelsOk(levels)
    ensures items == GameItems(entries, Games(entries, levels, find))
  {
    items := [];
    var k := 0;
    while k < |entries|
      invariant k <= |entries| && AllShaped(entries[..k])
      invariant items == GameItems(entries, Games(entries[..k], levels, find))
    {
      GamesSnoc(entries, levels, find, k);
      ghost var ks := Games(entries[..k], levels, find);
      var keep := Passes(entries[k], levels, find);
      if keep {
        items := items + [MenuItem(Title(entries[k]), FIRSTITEM + k)];
        assert items == GameItems(entries, ks + [k]);
      }
      k := k + 1;
    }
    assert entries[..k] == entries;
  }
}
