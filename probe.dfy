/** The linear-probing discipline of `ex_hashmap32`, stated over the contents
    of its `keys` and `vals` arrays. A key `k` lives in the slot reached by
    walking from its home slot `k % n` one slot at a time; 0 marks an empty
    slot. For the power-of-two capacities the map uses, `k & (n - 1)` and
    `k % n` are the same slot, and the model writes the latter. */
module Probe {
  import opened Bytes

  /** The home slot of key `k`: `k & (n - 1)`, written `k % n`. */
  function Home(k: nat, n: nat): (h: nat)
    requires 0 < n
    ensures h < n
  {
    k % n
  }

  /** The slot `d` steps after slot `h`, wrapping around the end. */
  function Slot(h: nat, d: nat, n: nat): (j: nat)
    requires h < n && d < n
    ensures j < n
  {
    if h + d < n then h + d else h + d - n
  }

  /** The slot after `i`: `(i + 1) & (n - 1)`. */
  function Next(i: nat, n: nat): (j: nat)
    requires i < n
    ensures j < n
  {
    if i + 1 < n then i + 1 else 0
  }

  /** How many steps lead from slot `h` to slot `j`. */
  function Dist(h: nat, j: nat, n: nat): (d: nat)
    requires h < n && j < n
    ensures d < n
    ensures Slot(h, d, n) == j
  {
    if j >= h then j - h else j + n - h
  }

  /** The step count that reaches a slot is unique. */
  lemma DistOfSlot(h: nat, d: nat, n: nat)
    requires h < n && d < n
    ensures Dist(h, Slot(h, d, n), n) == d
  {
  }

  /** One more step is the next slot. */
  lemma SlotNext(h: nat, d: nat, n: nat)
    requires h < n && d + 1 < n
    ensures Slot(h, d + 1, n) == Next(Slot(h, d, n), n)
  {
  }

  /** Every occupied slot can be reached from its key's home slot without
      crossing an empty slot. */
  ghost predicate NoGap(ks: seq<u32>)
  {
    forall i, e :: 0 <= i < |ks| && ks[i] != 0 && 0 <= e < Dist(Home(ks[i], |ks|), i, |ks|) ==>
      ks[Slot(Home(ks[i], |ks|), e, |ks|)] != 0
  }

  /** The arrays hold the map `m`, and `at` says in which slot each key is. */
  ghost predicate Indexed(ks: seq<u32>, vs: seq<nat>, m: map<u32, nat>, at: map<u32, nat>)
  {
    && |vs| == |ks|
    && (forall i :: 0 <= i < |ks| && ks[i] != 0 ==> ks[i] in m && ks[i] in at && at[ks[i]] == i && m[ks[i]] == vs[i])
    && (forall k :: k in m ==> k != 0 && k in at && at[k] < |ks| && ks[at[k]] == k)
  }

  ghost predicate TableOk(ks: seq<u32>, vs: seq<nat>, m: map<u32, nat>, at: map<u32, nat>)
  {
    Indexed(ks, vs, m, at) && NoGap(ks)
  }

  /** The number of occupied slots. */
  function Count(ks: seq<u32>): (c: nat)
    ensures c <= |ks|
  {
    if ks == [] then 0 else Count(ks[..|ks| - 1]) + (if ks[|ks| - 1] != 0 then 1 else 0)
  }

  lemma CountSnoc(ks: seq<u32>, i: nat)
    requires i < |ks|
    ensures Count(ks[..i + 1]) == Count(ks[..i]) + (if ks[i] != 0 then 1 else 0)
  {
    assert ks[..i + 1][..i] == ks[..i];
  }

  /** Fewer occupied slots than slots: some slot is empty. */
  lemma {:induction false} FreeSlot(ks: seq<u32>) returns (j: nat)
    requires Count(ks) < |ks|
    ensures j < |ks| && ks[j] == 0
  {
    var last := |ks| - 1;
    if ks[last] == 0 {
      j := last;
    } else {
      j := FreeSlot(ks[..last]);
    }
  }

  /** No occupied slot at all: every slot is empty. */
  lemma {:induction false} CountZero(ks: seq<u32>)
    requires Count(ks) == 0
    ensures forall i :: 0 <= i < |ks| ==> ks[i] == 0
  {
    if ks != [] {
      var last := |ks| - 1;
      CountZero(ks[..last]);
      assert forall i :: 0 <= i < last ==> ks[..last][i] == ks[i];
    }
  }

  /** Filling an empty slot adds one occupied slot. */
  lemma {:induction false} CountFill(ks: seq<u32>, j: nat, k: u32)
    requires j < |ks| && ks[j] == 0 && k != 0
    ensures Count(ks[j := k]) == Count(ks) + 1
  {
    var last := |ks| - 1;
    var ks' := ks[j := k];
    if j == last {
      assert ks'[..last] == ks[..last];
    } else {
      assert ks'[..last] == ks[..last][j := k];
      CountFill(ks[..last], j, k);
    }
  }

  /** Count of a prefix never exceeds the count of the whole. */
  lemma {:induction false} CountPrefix(ks: seq<u32>, i: nat)
    requires i <= |ks|
    ensures Count(ks[..i]) <= Count(ks)
    decreases |ks| - i
  {
    if i < |ks| {
      CountSnoc(ks, i);
      CountPrefix(ks, i + 1);
    } else {
      assert ks[..i] == ks;
    }
  }

  /** An empty table of `n` slots holds nothing. */
  lemma EmptyTable(n: nat, vs: seq<nat>)
    requires |vs| == n
    ensures TableOk(seq(n, _ => 0), vs, map[], map[]) && Count(seq(n, _ => 0)) == 0
  {
    ZeroCount(n);
  }

  lemma {:induction false} ZeroCount(n: nat)
    ensures Count(seq(n, _ => 0)) == 0
  {
    if n > 0 {
      assert seq(n, _ => 0)[..n - 1] == seq(n - 1, _ => 0);
      ZeroCount(n - 1);
    }
  }

  /** A probe for `k` that met neither `k` nor an empty slot in its first `d`
      steps and then meets an empty slot proves `k` absent. */
  lemma ProbeMiss(ks: seq<u32>, vs: seq<nat>, m: map<u32, nat>, at: map<u32, nat>, k: u32, d: nat)
    requires TableOk(ks, vs, m, at)
    requires d < |ks| && ks[Slot(Home(k, |ks|), d, |ks|)] == 0
    requires forall e :: 0 <= e < d ==> ks[Slot(Home(k, |ks|), e, |ks|)] != k
    ensures k !in m
  {
  }

  /** Storing a new key in the first empty slot of its probe keeps the table
      well formed and adds exactly that binding. */
  lemma Insert(ks: seq<u32>, vs: seq<nat>, m: map<u32, nat>, at: map<u32, nat>, k: u32, v: nat, d: nat)
    requires TableOk(ks, vs, m, at)
    requires k != 0 && k !in m
    requires d < |ks| && ks[Slot(Home(k, |ks|), d, |ks|)] == 0
    requires forall e :: 0 <= e < d ==> ks[Slot(Home(k, |ks|), e, |ks|)] != 0
    ensures var j := Slot(Home(k, |ks|), d, |ks|);
      TableOk(ks[j := k], vs[j := v], m[k := v], at[k := j])
  {
    var n := |ks|;
    var h := Home(k, n);
    var j := Slot(h, d, n);
    var ks', vs', m', at' := ks[j := k], vs[j := v], m[k := v], at[k := j];
    DistOfSlot(h, d, n);
    forall i | 0 <= i < n && ks'[i] != 0
      ensures ks'[i] in m' && ks'[i] in at' && at'[ks'[i]] == i && m'[ks'[i]] == vs'[i]
    {
      if i != j {
        assert ks[i] != 0 && ks[i] != k;
      }
    }
    forall kk | kk in m'
      ensures kk != 0 && kk in at' && at'[kk] < n && ks'[at'[kk]] == kk
    {
      if kk != k {
        assert at[kk] != j;
      }
    }
    forall i, e | 0 <= i < n && ks'[i] != 0 && 0 <= e < Dist(Home(ks'[i], n), i, n)
      ensures ks'[Slot(Home(ks'[i], n), e, n)] != 0
    {
      if i == j {
        assert ks[Slot(h, e, n)] != 0;
      } else {
        assert ks[Slot(Home(ks[i], n), e, n)] != 0;
      }
    }
  }

  /** Overwriting the value in an occupied slot keeps the table well formed
      and rebinds only that slot's key. */
  lemma Update(ks: seq<u32>, vs: seq<nat>, m: map<u32, nat>, at: map<u32, nat>, j: nat, v: nat)
    requires TableOk(ks, vs, m, at)
    requires j < |ks| && ks[j] != 0
    ensures TableOk(ks, vs[j := v], m[ks[j] := v], at)
  {
    forall kk | kk in m[ks[j] := v]
      ensures kk != 0 && kk in at && at[kk] < |ks| && ks[at[kk]] == kk
    {
    }
  }

  /** With no occupied slot the table holds nothing. */
  lemma EmptyContents(ks: seq<u32>, vs: seq<nat>, m: map<u32, nat>, at: map<u32, nat>)
    requires TableOk(ks, vs, m, at) && Count(ks) == 0
    ensures m == map[]
  {
    CountZero(ks);
  }
}
