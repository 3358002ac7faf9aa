/** The first pass of `explore_build_list` over one playlist: the entries it
    indexes, and the cache `rdb_indices` that opens each database once, keyed
    by the hash of its name, remembering a database that failed to open with
    `(uintptr_t)-1` so that it is never tried again. Opening a database file
    and parsing the CRC text are inputs of the model. */
module PlaylistScan {
  import opened Bytes
  import Hash
  import HashMap

  /** `(uintptr_t)-1` on a 64-bit build: the mark of a database that failed
      to open. */
  const FAILED: nat := 0xFFFF_FFFF_FFFF_FFFF

  /** The fields of a `struct playlist_entry` the scan reads. */
  datatype PlaylistEntry = PlaylistEntry(crc32: Option<seq<byte>>, dbName: Option<seq<byte>>, labelStr: Option<seq<byte>>)

  /** A playlist entry, as a pointer into a playlist: playlist and position. */
  datatype EntryRef = EntryRef(playlist: nat, pos: nat)

  /** `struct explore_rdb`: the database (by name) and `playlist_entries`,
      the entries that will be looked up in it, by CRC. */
  datatype Rdb = Rdb(name: seq<byte>, byCrc: map<u32, EntryRef>)

  /** A string field that is neither NULL nor empty. */
  predicate Present(s: Option<seq<byte>>)
  {
    s.Some? && s.value != []
  }

  /** The entries the scan indexes: with a CRC, a database name and a
      label. */
  predicate Accepted(e: PlaylistEntry)
  {
    Present(e.crc32) && Present(e.dbName) && Present(e.labelStr)
  }

  /** Every field present is a C string. */
  predicate CStrings(e: PlaylistEntry)
  {
    && (e.crc32.Some? ==> IsCString(e.crc32.value))
    && (e.dbName.Some? ==> IsCString(e.dbName.value))
    && (e.labelStr.Some? ==> IsCString(e.labelStr.value))
  }

  /** The cache agrees with the opened databases: each key maps to
      `(uintptr_t)-1` or to a position plus one in `rdbs`, no two keys to
      the same position, and each opened database is found under the hash
      of its name at its own position. */
  ghost predicate CacheOk(index: map<u32, nat>, rdbs: seq<Rdb>, key: seq<byte> -> u32)
  {
    && |rdbs| < FAILED
    && (forall h :: h in index ==> index[h] == FAILED || 1 <= index[h] <= |rdbs|)
    && (forall h, h' :: h in index && h' in index && index[h] == index[h'] != FAILED ==> h == h')
    && (forall i :: 0 <= i < |rdbs| ==> key(rdbs[i].name) in index && index[key(rdbs[i].name)] == i + 1)
  }

  /** The state of the scan: the cache `rdb_indices`, the buffer `rdbs` and
      `used_entries`. */
  datatype Scan = Scan(index: map<u32, nat>, rdbs: seq<Rdb>, used: nat)

  /** `ex_hashmap32_setptr` on `playlist_entries`: the key 0 is ignored. */
  function Register(r: Rdb, crc: u32, ref: EntryRef): Rdb
  {
    r.(byCrc := if crc == 0 then r.byCrc else r.byCrc[crc := ref])
  }

  /** The cache and the databases it numbers. */
  datatype Cache = Cache(index: map<u32, nat>, rdbs: seq<Rdb>)

  /** `rdb_indices` consulted for a database name: a name whose hash has
      no verdict yet is opened, and cached as the next database or as
      failed. */
  function Consult(index: map<u32, nat>, rdbs: seq<Rdb>, name: seq<byte>, opens: seq<byte> -> bool, key: seq<byte> -> u32): (r: Cache)
    requires CacheOk(index, rdbs, key) && |rdbs| + 1 < FAILED
    ensures CacheOk(r.index, r.rdbs, key) && key(name) in r.index
    ensures |rdbs| <= |r.rdbs| <= |rdbs| + 1
    ensures forall h :: h in index ==> h in r.index && r.index[h] == index[h]
  {
    var h := key(name);
    if h in index then Cache(index, rdbs)
    else if opens(name) then CacheOkOpened(index, rdbs, name, key); Cache(index[h := |rdbs| + 1], rdbs + [Rdb(name, map[])])
    else Cache(index[h := FAILED], rdbs)
  }

  /** Opening a database with a new hash keeps the cache in agreement. */
  lemma CacheOkOpened(index: map<u32, nat>, rdbs: seq<Rdb>, name: seq<byte>, key: seq<byte> -> u32)
    requires CacheOk(index, rdbs, key) && |rdbs| + 1 < FAILED && key(name) !in index
    ensures CacheOk(index[key(name) := |rdbs| + 1], rdbs + [Rdb(name, map[])], key)
  {
    var index', rdbs' := index[key(name) := |rdbs| + 1], rdbs + [Rdb(name, map[])];
    forall i | 0 <= i < |rdbs'|
      ensures key(rdbs'[i].name) in index' && index'[key(rdbs'[i].name)] == i + 1
    {
      if i < |rdbs| {
        assert rdbs'[i] == rdbs[i];
      }
    }
  }

  /** Registering an entry in a database keeps its name, so the cache
      stays in agreement. */
  lemma CacheOkRegistered(index: map<u32, nat>, rdbs: seq<Rdb>, i: nat, crc: u32, ref: EntryRef, key: seq<byte> -> u32)
    requires CacheOk(index, rdbs, key) && i < |rdbs|
    ensures CacheOk(index, rdbs[i := Register(rdbs[i], crc, ref)], key)
  {
    var rdbs' := rdbs[i := Register(rdbs[i], crc, ref)];
    assert forall k :: 0 <= k < |rdbs| ==> rdbs'[k].name == rdbs[k].name;
  }

  /** One playlist entry: skipped unless accepted; otherwise its database
      is consulted, and when that database is open the entry is registered
      under its CRC and counted. */
  function Step(s: Scan, p: nat, j: nat, e: PlaylistEntry, opens: seq<byte> -> bool, parse: seq<byte> -> u32, key: seq<byte> -> u32): (r: Scan)
    requires CacheOk(s.index, s.rdbs, key) && |s.rdbs| + 1 < FAILED
    ensures CacheOk(r.index, r.rdbs, key) && |s.rdbs| <= |r.rdbs| <= |s.rdbs| + 1
  {
    if !Accepted(e) then s
    else
      var c := Consult(s.index, s.rdbs, e.dbName.value, opens, key);
      var n := c.index[key(e.dbName.value)];
      if n == FAILED then Scan(c.index, c.rdbs, s.used)
      else
        CacheOkRegistered(c.index, c.rdbs, n - 1, parse(e.crc32.value), EntryRef(p, j), key);
        Scan(c.index, c.rdbs[n - 1 := Register(c.rdbs[n - 1], parse(e.crc32.value), EntryRef(p, j))], s.used + 1)
  }

  /** The scan over the entries of playlist `p`. */
  function ScanAll(s: Scan, p: nat, entries: seq<PlaylistEntry>, opens: seq<byte> -> bool, parse: seq<byte> -> u32, key: seq<byte> -> u32): (r: Scan)
    requires CacheOk(s.index, s.rdbs, key) && |s.rdbs| + |entries| < FAILED
    ensures CacheOk(r.index, r.rdbs, key) && |s.rdbs| <= |r.rdbs| <= |s.rdbs| + |entries|
  {
    if entries == [] then s
    else Step(ScanAll(s, p, entries[..|entries| - 1], opens, parse, key), p, |entries| - 1, entries[|entries| - 1], opens, parse, key)
  }

  /** `ex_hashmap32_strgetnum` on `rdb_indices`, and on a miss the
      attempt to open the database; `h` is the hash of `name` under `key`. */
  method OpenCached(m: HashMap.HashMap32, rdbs: seq<Rdb>, name: seq<byte>, h: u32, opens: seq<byte> -> bool,
                    ghost key: seq<byte> -> u32)
    returns (rdbs': seq<Rdb>, rdbNum: nat)
    requires m.Valid() && CacheOk(m.Contents, rdbs, key) && |rdbs| + 1 < FAILED
    requires h == key(name) && h != 0
    modifies m.Repr
    ensures m.Valid() && fresh(m.Repr - old(m.Repr))
    ensures var c := Consult(old(m.Contents), rdbs, name, opens, key);
      m.Contents == c.index && rdbs' == c.rdbs && rdbNum == c.index[h]
  {
    rdbs' := rdbs;
    rdbNum := m.GetNum(h);
    if rdbNum == 0 {
      rdbs', rdbNum := OpenMissing(m, rdbs, name, h, opens, key);
    }
  }

  /** A name with no verdict yet: the database is opened and numbered
      with `ex_hashmap32_strsetnum`, or its failure is recorded. */
  method OpenMissing(m: HashMap.HashMap32, rdbs: seq<Rdb>, name: seq<byte>, h: u32, opens: seq<byte> -> bool,
                     ghost key: seq<byte> -> u32)
    returns (rdbs': seq<Rdb>, rdbNum: nat)
    requires m.Valid() && CacheOk(m.Contents, rdbs, key) && |rdbs| + 1 < FAILED
    requires h == key(name) && h != 0 && h !in m.Contents
    modifies m.Repr
    ensures m.Valid() && fresh(m.Repr - old(m.Repr))
    ensures var c := Consult(old(m.Contents), rdbs, name, opens, key);
      m.Contents == c.index && rdbs' == c.rdbs && rdbNum == c.index[h]
  {
    if !opens(name) {
      m.SetNum(h, FAILED);
      return rdbs, FAILED;
    }
    rdbs' := rdbs + [Rdb(name, map[])];
    rdbNum := |rdbs'|;
    m.SetNum(h, rdbNum);
  }

  /** `key` is `ex_hash32`. */
  ghost predicate HashesNames(key: seq<byte> -> u32)
  {
    forall v {:trigger Hash.StrHash(v)} :: key(v) == Hash.StrHash(v)
  }

  /** `ex_hash32` on a database name. */
  method HashName(name: seq<byte>, ghost key: seq<byte> -> u32) returns (h: u32)
    requires IsCString(name) && HashesNames(key)
    ensures h == key(name) && h != 0
  {
    h := Hash.Hash32(name);
  }

  /** One turn of the loop over the playlist. */
  method ScanEntry(m: HashMap.HashMap32, rdbs: seq<Rdb>, used: nat, p: nat, j: nat, e: PlaylistEntry,
                   opens: seq<byte> -> bool, parse: seq<byte> -> u32, ghost key: seq<byte> -> u32)
    returns (rdbs': seq<Rdb>, used': nat)
    requires m.Valid() && CacheOk(m.Contents, rdbs, key) && |rdbs| + 1 < FAILED && CStrings(e) && HashesNames(key)
    modifies m.Repr
    ensures m.Valid() && fresh(m.Repr - old(m.Repr))
    ensures Scan(m.Contents, rdbs', used') == Step(Scan(old(m.Contents), rdbs, used), p, j, e, opens, parse, key)
  {
    rdbs', used' := rdbs, used;
    if !Accepted(e) {
      return;
    }
    var h := HashName(e.dbName.value, key);
    var rdbNum;
    rdbs', rdbNum := OpenCached(m, rdbs, e.dbName.value, h, opens, key);
    if rdbNum == FAILED {
      return;
    }
    var crc := parse(e.crc32.value);
    rdbs' := rdbs'[rdbNum - 1 := Register(rdbs'[rdbNum - 1], crc, EntryRef(p, j))];
    used' := used' + 1;
  }

  /** The loop over the entries of playlist `p`, counting the entries
      used; the playlist is kept when that count is not zero. */
  method ScanPlaylist(m: HashMap.HashMap32, rdbs: seq<Rdb>, p: nat, entries: seq<PlaylistEntry>,
                      opens: seq<byte> -> bool, parse: seq<byte> -> u32, ghost key: seq<byte> -> u32)
    returns (rdbs': seq<Rdb>, used: nat)
    requires m.Valid() && CacheOk(m.Contents, rdbs, key) && |rdbs| + |entries| < FAILED && HashesNames(key)
    requires forall j :: 0 <= j < |entries| ==> CStrings(entries[j])
    modifies m.Repr
    ensures m.Valid() && fresh(m.Repr - old(m.Repr))
    ensures Scan(m.Contents, rdbs', used) == ScanAll(Scan(old(m.Contents), rdbs, 0), p, entries, opens, parse, key)
  {
    ghost var s0 := Scan(m.Contents, rdbs, 0);
    rdbs', used := rdbs, 0;
    var j := 0;
    while j < |entries|
      invariant j <= |entries| && m.Valid() && fresh(m.Repr - old(m.Repr))
      invariant Scan(m.Contents, rdbs', used) == ScanAll(s0, p, entries[..j], opens, parse, key)
      invariant CacheOk(m.Contents, rdbs', key) && |rdbs'| <= |rdbs| + j
    {
      ghost var prior := Scan(m.Contents, rdbs', used);
      assert entries[..j + 1][..j] == entries[..j];
      rdbs', used := ScanEntry(m, rdbs', used, p, j, entries[j], opens, parse, key);
      assert Scan(m.Contents, rdbs', used) == Step(prior, p, j, entries[j], opens, parse, key);
      j := j + 1;
    }
    assert entries[..j] == entries;
  }

  // ---------------------------------------------------------------------
  // What the cache guarantees

  /** No two opened databases share a name: each is opened once. */
  lemma OpenedOnce(index: map<u32, nat>, rdbs: seq<Rdb>, key: seq<byte> -> u32, i: nat, k: nat)
    requires CacheOk(index, rdbs, key) && i < k < |rdbs|
    ensures rdbs[i].name != rdbs[k].name
  {
  }

  /** One entry keeps every verdict, leaves one for its database when it
      is accepted, and is counted exactly when that verdict is not the
      failure mark. */
  lemma StepFacts(s: Scan, p: nat, j: nat, e: PlaylistEntry, opens: seq<byte> -> bool, parse: seq<byte> -> u32, key: seq<byte> -> u32)
    requires CacheOk(s.index, s.rdbs, key) && |s.rdbs| + 1 < FAILED
    ensures var r := Step(s, p, j, e, opens, parse, key);
      && (forall h :: h in s.index ==> h in r.index && r.index[h] == s.index[h])
      && (Accepted(e) ==> key(e.dbName.value) in r.index)
      && r.used == s.used + (if Usable(e, r.index, key) then 1 else 0)
  {
  }

  /** A database is opened only for a name whose hash has no verdict yet,
      and it is opened when `opens` says the file can be read; otherwise
      the failure is cached. */
  lemma StepOpens(s: Scan, p: nat, j: nat, e: PlaylistEntry, opens: seq<byte> -> bool, parse: seq<byte> -> u32, key: seq<byte> -> u32)
    requires CacheOk(s.index, s.rdbs, key) && |s.rdbs| + 1 < FAILED && Accepted(e)
    ensures var r := Step(s, p, j, e, opens, parse, key); var name := e.dbName.value;
      && (|r.rdbs| == |s.rdbs| + 1 <==> key(name) !in s.index && opens(name))
      && (|r.rdbs| == |s.rdbs| + 1 ==> r.rdbs[|s.rdbs|].name == name && r.index[key(name)] == |r.rdbs|)
      && (key(name) !in s.index && !opens(name) ==> r.index == s.index[key(name) := FAILED] && r.rdbs == s.rdbs)
  {
  }

  /** An accepted entry whose database is open lands in that database,
      under its CRC unless the CRC parses to 0, and is counted; one whose
      database failed changes no database and is not counted. */
  lemma StepRegisters(s: Scan, p: nat, j: nat, e: PlaylistEntry, opens: seq<byte> -> bool, parse: seq<byte> -> u32, key: seq<byte> -> u32)
    requires CacheOk(s.index, s.rdbs, key) && |s.rdbs| + 1 < FAILED && Accepted(e)
    ensures var r := Step(s, p, j, e, opens, parse, key); var n := r.index[key(e.dbName.value)]; var crc := parse(e.crc32.value);
      && (n == FAILED ==> r.rdbs == s.rdbs && r.used == s.used)
      && (n != FAILED ==>
            && 1 <= n <= |r.rdbs| && key(r.rdbs[n - 1].name) == key(e.dbName.value)
            && (crc != 0 ==> crc in r.rdbs[n - 1].byCrc && r.rdbs[n - 1].byCrc[crc] == EntryRef(p, j))
            && (forall i :: 0 <= i < |r.rdbs| && i != n - 1 ==> i < |s.rdbs| && r.rdbs[i] == s.rdbs[i])
            && r.used == s.used + 1)
  {
    var name := e.dbName.value;
    var c := Consult(s.index, s.rdbs, name, opens, key);
    var n := c.index[key(name)];
    if n != FAILED {
      var r := Step(s, p, j, e, opens, parse, key);
      assert r.rdbs[n - 1].name == c.rdbs[n - 1].name;
      assert c.index[key(c.rdbs[n - 1].name)] == n;
    }
  }

  /** The cache only grows: a database once opened, or once found
      missing, keeps its verdict, so a failed database is never tried
      again. */
  lemma {:induction false} ScanKeepsVerdicts(s: Scan, p: nat, entries: seq<PlaylistEntry>, opens: seq<byte> -> bool, parse: seq<byte> -> u32, key: seq<byte> -> u32)
    requires CacheOk(s.index, s.rdbs, key) && |s.rdbs| + |entries| < FAILED
    ensures var r := ScanAll(s, p, entries, opens, parse, key);
      forall h :: h in s.index ==> h in r.index && r.index[h] == s.index[h]
    decreases |entries|
  {
    if entries != [] {
      ScanKeepsVerdicts(s, p, entries[..|entries| - 1], opens, parse, key);
      StepFacts(ScanAll(s, p, entries[..|entries| - 1], opens, parse, key), p, |entries| - 1, entries[|entries| - 1], opens, parse, key);
    }
  }

  /** The database an accepted entry names has a verdict in `index`, and
      it is not the failure mark. */
  predicate Usable(e: PlaylistEntry, index: map<u32, nat>, key: seq<byte> -> u32)
  {
    Accepted(e) && key(e.dbName.value) in index && index[key(e.dbName.value)] != FAILED
  }

  /** How many of `entries` are usable under `index`. */
  function Counted(entries: seq<PlaylistEntry>, index: map<u32, nat>, key: seq<byte> -> u32): (n: nat)
    ensures n <= |entries|
  {
    if entries == [] then 0
    else Counted(entries[..|entries| - 1], index, key) + (if Usable(entries[|entries| - 1], index, key) then 1 else 0)
  }

  /** Growing the cache without changing a verdict keeps the count of
      entries whose databases all have verdicts. */
  lemma {:induction false} CountedKept(entries: seq<PlaylistEntry>, index: map<u32, nat>, index': map<u32, nat>, key: seq<byte> -> u32)
    requires forall j :: 0 <= j < |entries| && Accepted(entries[j]) ==> key(entries[j].dbName.value) in index
    requires forall h :: h in index ==> h in index' && index'[h] == index[h]
    ensures Counted(entries, index', key) == Counted(entries, index, key)
    decreases |entries|
  {
    if entries != [] {
      var init := entries[..|entries| - 1];
      assert forall j :: 0 <= j < |init| ==> init[j] == entries[j];
      CountedKept(init, index, index', key);
    }
  }

  /** Every accepted entry leaves a verdict for its database, and
      `used_entries` counts exactly the accepted entries whose database
      opened. */
  lemma {:induction false} ScanCounts(s: Scan, p: nat, entries: seq<PlaylistEntry>, opens: seq<byte> -> bool, parse: seq<byte> -> u32, key: seq<byte> -> u32)
    requires CacheOk(s.index, s.rdbs, key) && |s.rdbs| + |entries| < FAILED
    ensures var r := ScanAll(s, p, entries, opens, parse, key);
      && (forall j :: 0 <= j < |entries| && Accepted(entries[j]) ==> key(entries[j].dbName.value) in r.index)
      && r.used == s.used + Counted(entries, r.index, key)
    decreases |entries|
  {
    if entries != [] {
      var init := entries[..|entries| - 1];
      var e := entries[|entries| - 1];
      assert forall j :: 0 <= j < |init| ==> init[j] == entries[j];
      ScanCounts(s, p, init, opens, parse, key);
      var r0 := ScanAll(s, p, init, opens, parse, key);
      var r := ScanAll(s, p, entries, opens, parse, key);
      assert r == Step(r0, p, |init|, e, opens, parse, key);
      StepFacts(r0, p, |init|, e, opens, parse, key);
      CountedKept(init, r0.index, r.index, key);
    }
  }
}
