/** `ex_hashmap32`: an open-addressing map from non-zero 32-bit keys to
    pointer-sized values, with linear probing over a power-of-two number of
    slots. Key 0 marks an empty slot, so it can be neither stored nor found.
    A zero-initialised map has no slots at all. */
module HashMap {
  import opened Bytes
  import opened Probe
  import Hash

  const MIN_CAPACITY: nat := 16

  predicate IsPow2(n: nat)
  {
    if n <= 1 then n == 1 else n % 2 == 0 && IsPow2(n / 2)
  }

  /** The capacity `ex_hashmap32__grow` settles on. */
  function GrownCapacity(newCap: nat): (r: nat)
    ensures r >= newCap && r >= MIN_CAPACITY
  {
    if newCap < MIN_CAPACITY then MIN_CAPACITY else newCap
  }

  lemma Pow2Grown(cap: nat)
    requires cap == 0 || (cap >= MIN_CAPACITY && IsPow2(cap))
    ensures GrownCapacity(2 * cap) >= MIN_CAPACITY && IsPow2(GrownCapacity(2 * cap))
  {
    if cap == 0 {
      assert IsPow2(1) && IsPow2(2) && IsPow2(4) && IsPow2(8) && IsPow2(16);
    } else {
      assert (2 * cap) / 2 == cap;
    }
  }

  /** The state of a map as plain values: `ks` and `vs` are the arrays,
      laid out by linear probing and holding `m`; a power-of-two capacity
      of at least 16 (or none); at most half the slots occupied. */
  ghost predicate Inv(ks: seq<u32>, vs: seq<nat>, len: nat, cap: nat, m: map<u32, nat>, at: map<u32, nat>)
  {
    && |ks| == cap
    && (cap == 0 || (cap >= MIN_CAPACITY && IsPow2(cap)))
    && 2 * len <= cap
    && len == Count(ks)
    && TableOk(ks, vs, m, at)
  }

  /** Filling the first empty slot of a new key's probe keeps the
      invariant, provided the map was less than half full. */
  lemma InvInsert(ks: seq<u32>, vs: seq<nat>, len: nat, m: map<u32, nat>, at: map<u32, nat>, key: u32, val: nat, d: nat)
    requires Inv(ks, vs, len, |ks|, m, at) && 2 * len < |ks|
    requires key != 0 && d < |ks| && ks[Slot(Home(key, |ks|), d, |ks|)] == 0
    requires forall e :: 0 <= e < d ==> ks[Slot(Home(key, |ks|), e, |ks|)] != key && ks[Slot(Home(key, |ks|), e, |ks|)] != 0
    ensures key !in m
    ensures var j := Slot(Home(key, |ks|), d, |ks|);
      Inv(ks[j := key], vs[j := val], len + 1, |ks|, m[key := val], at[key := j])
  {
    var j := Slot(Home(key, |ks|), d, |ks|);
    ProbeMiss(ks, vs, m, at, key, d);
    Insert(ks, vs, m, at, key, val, d);
    CountFill(ks, j, key);
    assert |ks| % 2 == 0;
  }

  /** Overwriting the value of a stored key keeps the invariant. */
  lemma InvUpdate(ks: seq<u32>, vs: seq<nat>, len: nat, m: map<u32, nat>, at: map<u32, nat>, j: nat, val: nat)
    requires Inv(ks, vs, len, |ks|, m, at)
    requires j < |ks| && ks[j] != 0
    ensures ks[j] in m
    ensures Inv(ks, vs[j := val], len, |ks|, m[ks[j] := val], at)
  {
    Update(ks, vs, m, at, j, val);
  }

  /** After re-inserting old slots `[0, i)`, `m` holds exactly the old
      bindings of the keys found there. */
  ghost predicate Moved(oldKs: seq<u32>, oldM: map<u32, nat>, oldAt: map<u32, nat>, m: map<u32, nat>, i: nat)
  {
    && (forall k :: k in m ==> k in oldM && m[k] == oldM[k] && k in oldAt && oldAt[k] < i)
    && (forall j :: 0 <= j < i && j < |oldKs| && oldKs[j] != 0 ==> oldKs[j] in m)
  }

  /** Re-inserting a key from slot `i` of the old table moves one more slot. */
  lemma MovedStep(oldKs: seq<u32>, oldVs: seq<nat>, oldM: map<u32, nat>, oldAt: map<u32, nat>, m: map<u32, nat>, i: nat)
    requires TableOk(oldKs, oldVs, oldM, oldAt) && Moved(oldKs, oldM, oldAt, m, i) && i < |oldKs|
    ensures oldKs[i] != 0 ==> oldKs[i] !in m && Moved(oldKs, oldM, oldAt, m[oldKs[i] := oldVs[i]], i + 1)
    ensures oldKs[i] == 0 ==> Moved(oldKs, oldM, oldAt, m, i + 1)
  {
  }

  /** Once every old slot is moved, the new map is the old one. */
  lemma Rebuilt(oldKs: seq<u32>, oldVs: seq<nat>, oldM: map<u32, nat>, oldAt: map<u32, nat>, m: map<u32, nat>)
    requires TableOk(oldKs, oldVs, oldM, oldAt) && Moved(oldKs, oldM, oldAt, m, |oldKs|)
    ensures m == oldM
  {
    forall k | k in oldM
      ensures k in m
    {
      assert oldKs[oldAt[k]] == k;
    }
  }

  class HashMap32 {
    var len: nat
    var cap: nat
    var keys: array<u32>
    var vals: array<nat>
    /** The bindings the map holds. */
    ghost var Contents: map<u32, nat>
    /** The slot each stored key occupies. */
    ghost var At: map<u32, nat>
    ghost var Repr: set<object>

    ghost predicate Valid()
      reads this, Repr
    {
      && Repr == {this, keys, vals}
      && Inv(keys[..], vals[..], len, cap, Contents, At)
    }

    /** A zero-initialised map: no slots, no bindings. */
    constructor ()
      ensures Valid() && fresh(Repr)
      ensures Contents == map[] && len == 0 && cap == 0
    {
      len, cap := 0, 0;
      keys := new u32[0];
      vals := new nat[0];
      Contents, At := map[], map[];
      Repr := {this, keys, vals};
    }

    /** `ex_hashmap32_getnum`: the value bound to `key`, or 0 when the map is
        empty, the key is 0 or the key is absent. The probe stops at the key
        or at the first empty slot. */
    method GetNum(key: u32) returns (v: nat)
      requires Valid()
      ensures v == if key in Contents then Contents[key] else 0
    {
      if len == 0 || key == 0 {
        if len == 0 {
          EmptyContents(keys[..], vals[..], Contents, At);
        }
        return 0;
      }
      ghost var free := FreeSlot(keys[..]);
      ghost var h := Home(key, cap);
      ghost var d := 0;
      var i := key % cap;
      while true
        invariant d <= Dist(h, free, cap) && i == Slot(h, d, cap)
        invariant forall e :: 0 <= e < d ==> keys[Slot(h, e, cap)] != key && keys[Slot(h, e, cap)] != 0
        decreases cap - d
      {
        if keys[i] == key {
          return vals[i];
        }
        if keys[i] == 0 {
          ProbeMiss(keys[..], vals[..], Contents, At, key, d);
          return 0;
        }
        SlotNext(h, d, cap);
        i := Next(i, cap);
        d := d + 1;
      }
    }

    /** `ex_hashmap32__grow`, called with twice the capacity: move every
        binding into fresh arrays of `max(newCap, 16)` slots. */
    method Grow(newCap: nat)
      requires Valid() && newCap == 2 * cap
      modifies this
      ensures Valid() && fresh(keys) && fresh(vals)
      ensures cap == GrownCapacity(newCap)
      ensures len == old(len) && Contents == old(Contents)
    {
      var newCapacity := GrownCapacity(newCap);
      Pow2Grown(cap);
      var ks, vs, m, at := Rehash(keys, vals, len, Contents, At, newCapacity);
      cap, keys, vals := newCapacity, ks, vs;
      Contents, At := m, at;
      Repr := {this, keys, vals};
    }

    /** The body of `ex_hashmap32__grow`: zeroed keys (`calloc`), fresh
        values, and every occupied old slot re-inserted in slot order. */
    static method Rehash(oldKeys: array<u32>, oldVals: array<nat>, len: nat, ghost oldContents: map<u32, nat>,
                         ghost oldAt: map<u32, nat>, newCapacity: nat)
      returns (ks: array<u32>, vs: array<nat>, ghost m: map<u32, nat>, ghost at: map<u32, nat>)
      requires Inv(oldKeys[..], oldVals[..], len, oldKeys.Length, oldContents, oldAt)
      requires newCapacity >= 2 * oldKeys.Length && newCapacity >= MIN_CAPACITY && IsPow2(newCapacity)
      ensures fresh(ks) && fresh(vs)
      ensures Inv(ks[..], vs[..], len, newCapacity, m, at)
      ensures m == oldContents
    {
      ghost var oldKs, oldVs := oldKeys[..], oldVals[..];
      ks := new u32[newCapacity](_ => 0);
      vs := new nat[newCapacity];
      EmptyTable(newCapacity, vs[..]);
      assert ks[..] == seq(newCapacity, _ => 0);
      m, at := map[], map[];
      var i := 0;
      while i < oldKeys.Length
        invariant 0 <= i <= oldKeys.Length
        invariant TableOk(ks[..], vs[..], m, at) && ks.Length == newCapacity
        invariant Count(ks[..]) == Count(oldKs[..i])
        invariant Moved(oldKs, oldContents, oldAt, m, i)
        modifies ks, vs
      {
        var key := oldKeys[i];
        MovedStep(oldKs, oldVs, oldContents, oldAt, m, i);
        if key != 0 {
          CountPrefix(oldKs, i);
          m, at := Place(ks, vs, m, at, key, oldVals[i]);
        }
        CountSnoc(oldKs, i);
        i := i + 1;
      }
      Rebuilt(oldKs, oldVs, oldContents, oldAt, m);
      assert oldKs[..i] == oldKs;
    }

    /** The re-insertion loop of `ex_hashmap32__grow`: store a key known to
        be absent in the first empty slot of its probe, without comparing
        keys on the way. */
    static method Place(ks: array<u32>, vs: array<nat>, ghost m: map<u32, nat>, ghost at: map<u32, nat>,
                        key: u32, val: nat) returns (ghost m': map<u32, nat>, ghost at': map<u32, nat>)
      requires TableOk(ks[..], vs[..], m, at) && Count(ks[..]) < ks.Length
      requires key != 0 && key !in m
      modifies ks, vs
      ensures TableOk(ks[..], vs[..], m', at')
      ensures m' == m[key := val]
      ensures Count(ks[..]) == old(Count(ks[..])) + 1
    {
      var n := ks.Length;
      ghost var start := ks[..];
      ghost var free := FreeSlot(ks[..]);
      ghost var h := Home(key, n);
      ghost var d := 0;
      var j := key % n;
      while ks[j] != 0
        modifies {}
        invariant d <= Dist(h, free, n) && j == Slot(h, d, n)
        invariant forall e :: 0 <= e < d ==> ks[Slot(h, e, n)] != 0
        decreases n - d
      {
        SlotNext(h, d, n);
        j := Next(j, n);
        d := d + 1;
      }
      ghost var ks0, vs0 := ks[..], vs[..];
      assert ks0 == start;
      Insert(ks0, vs0, m, at, key, val, d);
      CountFill(ks0, j, key);
      ks[j] := key;
      vs[j] := val;
      assert ks[..] == ks0[j := key] && vs[..] == vs0[j := val];
      assert Count(ks[..]) == Count(ks0) + 1;
      m', at' := m[key := val], at[key := j];
    }

    /** `ex_hashmap32_setnum`: bind `key` to `val`; key 0 is ignored. The map
        first grows when it is at least half full, so an empty slot always
        remains and the probe ends. */
    method SetNum(key: u32, val: nat)
      requires Valid()
      modifies Repr
      ensures Valid() && fresh(Repr - old(Repr))
      ensures Contents == if key == 0 then old(Contents) else old(Contents)[key := val]
      ensures len == if key == 0 || key in old(Contents) then old(len) else old(len) + 1
      ensures cap == if key != 0 && 2 * old(len) >= old(cap) then GrownCapacity(2 * old(cap)) else old(cap)
    {
      if key == 0 {
        return;
      }
      if 2 * len >= cap {
        Grow(2 * cap);
      }
      Store(key, val);
    }

    /** The probe loop of `ex_hashmap32_setnum`, once the map is less than
        half full. */
    method Store(key: u32, val: nat)
      requires Valid() && key != 0 && 2 * len < cap
      modifies this, keys, vals
      ensures Valid() && keys == old(keys) && vals == old(vals) && cap == old(cap)
      ensures Contents == old(Contents)[key := val]
      ensures len == if key in old(Contents) then old(len) else old(len) + 1
    {
      var newLen, m, at := StoreIn(keys, vals, len, Contents, At, key, val);
      len := newLen;
      Contents, At := m, at;
    }

    /** Walk the probe of `key` from its home slot: overwrite the value of
        the slot holding `key`, or fill the first empty slot. */
    static method StoreIn(keys: array<u32>, vals: array<nat>, len: nat, ghost contents: map<u32, nat>,
                          ghost at: map<u32, nat>, key: u32, val: nat)
      returns (newLen: nat, ghost m: map<u32, nat>, ghost at': map<u32, nat>)
      requires Inv(keys[..], vals[..], len, keys.Length, contents, at)
      requires key != 0 && 2 * len < keys.Length
      modifies keys, vals
      ensures Inv(keys[..], vals[..], newLen, keys.Length, m, at')
      ensures m == contents[key := val]
      ensures newLen == if key in contents then len else len + 1
    {
      var cap := keys.Length;
      ghost var ks0, vs0 := keys[..], vals[..];
      ghost var free := FreeSlot(ks0);
      ghost var h := Home(key, cap);
      ghost var d := 0;
      var i := key % cap;
      while keys[i] != 0 && keys[i] != key
        modifies {}
        invariant d <= Dist(h, free, cap) && i == Slot(h, d, cap)
        invariant forall e :: 0 <= e < d ==> ks0[Slot(h, e, cap)] != key && ks0[Slot(h, e, cap)] != 0
        decreases cap - d
      {
        SlotNext(h, d, cap);
        i := Next(i, cap);
        d := d + 1;
      }
      if keys[i] == 0 {
        InvInsert(ks0, vs0, len, contents, at, key, val, d);
        newLen := len + 1;
        keys[i] := key;
        vals[i] := val;
        assert keys[..] == ks0[i := key] && vals[..] == vs0[i := val];
        m, at' := contents[key := val], at[key := i];
      } else {
        InvUpdate(ks0, vs0, len, contents, at, i, val);
        newLen := len;
        vals[i] := val;
        assert keys[..] == ks0 && vals[..] == vs0[i := val];
        m, at' := contents[key := val], at;
      }
    }

    /** `ex_hashmap32_strgetnum`: look a C string up by its `ex_hash32`. */
    method StrGetNum(s: seq<byte>) returns (v: nat)
      requires Valid() && IsCString(s)
      ensures v == if Hash.StrHash(s) in Contents then Contents[Hash.StrHash(s)] else 0
    {
      var key := Hash.Hash32(s);
      v := GetNum(key);
    }

    /** `ex_hashmap32_strsetnum`: bind a C string's `ex_hash32` to `num`. */
    method StrSetNum(s: seq<byte>, num: nat)
      requires Valid() && IsCString(s)
      modifies Repr
      ensures Valid() && fresh(Repr - old(Repr))
      ensures Contents == old(Contents)[Hash.StrHash(s) := num]
    {
      var key := Hash.Hash32(s);
      SetNum(key, num);
    }
  }
}
