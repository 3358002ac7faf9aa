/** The three `qsort` comparators of the explore view (strings of a category
    table, records by label, menu items by path) share one rule: the first
    bytes compared as unsigned values, and when they agree `strcasecmp`.
    `qsort` itself is a library routine; its contract (an ordered
    permutation) is met here by an insertion sort. */
module Compare {
  import opened Bytes

  /** `strcasecmp` in the C locale: the difference of the first lower-cased
      bytes that differ, the terminator counting as 0. */
  function StrCaseCmp(a: seq<byte>, b: seq<byte>): int
    decreases |a|
  {
    var ca := Lower(At(a, 0));
    var cb := Lower(At(b, 0));
    if ca != cb then ca - cb
    else if ca == NUL then 0
    else StrCaseCmp(a[1..], b[1..])
  }

  /** `explore_qsort_func_strings`, `_entries` and `_menulist`. */
  function Cmp(a: seq<byte>, b: seq<byte>): int
  {
    if At(a, 0) != At(b, 0) then At(a, 0) - At(b, 0) else StrCaseCmp(a, b)
  }

  /** `a` sorts before or together with `b`. */
  predicate Le(a: seq<byte>, b: seq<byte>)
  {
    Cmp(a, b) <= 0
  }

  /** Lexicographic order with a proper prefix first. */
  predicate LexLe(x: seq<byte>, y: seq<byte>)
    decreases |x|
  {
    x == [] || (y != [] && (x[0] < y[0] || (x[0] == y[0] && LexLe(x[1..], y[1..]))))
  }

  /** What the comparator looks at: the first byte as it is, the rest
      lower-cased. */
  function Key(a: seq<byte>): (k: seq<byte>)
    ensures |k| == |a|
  {
    if a == [] then [] else [a[0]] + LowerAll(a[1..])
  }

  /** `strcasecmp` orders C strings as their lower-cased bytes, and returns
      0 exactly when those agree. */
  lemma {:induction false} StrCaseCmpIsLex(a: seq<byte>, b: seq<byte>)
    requires IsCString(a) && IsCString(b)
    ensures StrCaseCmp(a, b) <= 0 <==> LexLe(LowerAll(a), LowerAll(b))
    ensures StrCaseCmp(a, b) == 0 <==> LowerAll(a) == LowerAll(b)
    decreases |a|
  {
    if a != [] && b != [] && Lower(a[0]) == Lower(b[0]) {
      StrCaseCmpIsLex(a[1..], b[1..]);
      assert LowerAll(a)[1..] == LowerAll(a[1..]);
      assert LowerAll(b)[1..] == LowerAll(b[1..]);
      if LowerAll(a[1..]) == LowerAll(b[1..]) {
        assert LowerAll(a) == [Lower(a[0])] + LowerAll(a[1..]);
        assert LowerAll(b) == [Lower(b[0])] + LowerAll(b[1..]);
      }
    }
  }

  /** The comparator orders C strings as their keys, and returns 0 exactly
      when the keys agree. */
  lemma CmpIsLex(a: seq<byte>, b: seq<byte>)
    requires IsCString(a) && IsCString(b)
    ensures Le(a, b) <==> LexLe(Key(a), Key(b))
    ensures Cmp(a, b) == 0 <==> Key(a) == Key(b)
  {
    if a != [] && b != [] && a[0] == b[0] {
      StrCaseCmpIsLex(a, b);
      StrCaseCmpIsLex(a[1..], b[1..]);
      assert LowerAll(a) == [Lower(a[0])] + LowerAll(a[1..]);
      assert LowerAll(b) == [Lower(b[0])] + LowerAll(b[1..]);
      assert Key(a)[1..] == LowerAll(a[1..]);
      assert Key(b)[1..] == LowerAll(b[1..]);
    }
  }

  lemma {:induction false} LexTotal(x: seq<byte>, y: seq<byte>)
    ensures LexLe(x, y) || LexLe(y, x)
    decreases |x|
  {
    if x != [] && y != [] && x[0] == y[0] {
      LexTotal(x[1..], y[1..]);
    }
  }

  lemma {:induction false} LexTrans(x: seq<byte>, y: seq<byte>, z: seq<byte>)
    requires LexLe(x, y) && LexLe(y, z)
    ensures LexLe(x, z)
    decreases |x|
  {
    if x != [] && x[0] == y[0] && y[0] == z[0] {
      LexTrans(x[1..], y[1..], z[1..]);
    }
  }

  /** Any two C strings are ordered one way or the other. */
  lemma LeTotal(a: seq<byte>, b: seq<byte>)
    requires IsCString(a) && IsCString(b)
    ensures Le(a, b) || Le(b, a)
  {
    CmpIsLex(a, b);
    CmpIsLex(b, a);
    LexTotal(Key(a), Key(b));
  }

  /** The comparator is transitive on C strings. */
  lemma LeTrans(a: seq<byte>, b: seq<byte>, c: seq<byte>)
    requires IsCString(a) && IsCString(b) && IsCString(c)
    requires Le(a, b) && Le(b, c)
    ensures Le(a, c)
  {
    CmpIsLex(a, b);
    CmpIsLex(b, c);
    CmpIsLex(a, c);
    LexTrans(Key(a), Key(b), Key(c));
  }

  /** The first byte decides before case folding: "Zelda" sorts before
      "apple" because `Z` (0x5A) is below `a` (0x61). */
  lemma FirstByteFirst()
    ensures Le([0x5A, 0x65], [0x61, 0x70]) && !Le([0x61, 0x70], [0x5A, 0x65])
  {
  }

  /** Past the first byte case does not matter: "aB" and "ab" compare equal. */
  lemma CaseIgnoredAfterFirst()
    ensures Cmp([0x61, 0x42], [0x61, 0x62]) == 0
  {
    assert [0x61, 0x42][1..] == [0x42];
    assert [0x61, 0x62][1..] == [0x62];
  }

  predicate AllCStrings<T>(xs: seq<T>, key: T -> seq<byte>)
  {
    forall i :: 0 <= i < |xs| ==> IsCString(key(xs[i]))
  }

  /** Every element sorts before or together with every later one. */
  predicate SortedBy<T>(xs: seq<T>, key: T -> seq<byte>)
  {
    forall i, j :: 0 <= i < j < |xs| ==> Le(key(xs[i]), key(xs[j]))
  }

  /** Put `x` in front of the first element it sorts before or with. */
  function Insert<T>(x: T, xs: seq<T>, key: T -> seq<byte>): (r: seq<T>)
    ensures |r| == |xs| + 1
    ensures multiset(r) == multiset(xs) + multiset{x}
  {
    if xs == [] then [x]
    else if Le(key(x), key(xs[0])) then [x] + xs
    else
      assert xs == [xs[0]] + xs[1..];
      [xs[0]] + Insert(x, xs[1..], key)
  }

  /** The order `qsort` leaves an array in, under the comparator. */
  function SortBy<T>(xs: seq<T>, key: T -> seq<byte>): (r: seq<T>)
    ensures multiset(r) == multiset(xs)
  {
    if xs == [] then []
    else
      assert xs == [xs[0]] + xs[1..];
      Insert(xs[0], SortBy(xs[1..], key), key)
  }

  lemma {:induction false} InsertSorted<T>(x: T, xs: seq<T>, key: T -> seq<byte>)
    requires IsCString(key(x)) && AllCStrings(xs, key) && SortedBy(xs, key)
    ensures SortedBy(Insert(x, xs, key), key)
    ensures AllCStrings(Insert(x, xs, key), key)
  {
    var r := Insert(x, xs, key);
    if xs == [] {
    } else if Le(key(x), key(xs[0])) {
      forall j | 1 <= j < |r|
        ensures Le(key(x), key(r[j]))
      {
        if j > 1 {
          LeTrans(key(x), key(xs[0]), key(xs[j - 1]));
        }
      }
    } else {
      LeTotal(key(x), key(xs[0]));
      InsertSorted(x, xs[1..], key);
      var rest := Insert(x, xs[1..], key);
      assert r == [xs[0]] + rest;
      forall j | 0 <= j < |rest|
        ensures Le(key(xs[0]), key(rest[j]))
      {
        assert rest[j] in multiset(rest);
        assert rest[j] == x || rest[j] in multiset(xs[1..]);
        if rest[j] != x {
          var k :| 0 <= k < |xs[1..]| && xs[1..][k] == rest[j];
          assert xs[k + 1] == rest[j];
        }
      }
    }
  }

  /** The sort leaves every table ordered by the comparator. */
  lemma {:induction false} SortBySorted<T>(xs: seq<T>, key: T -> seq<byte>)
    requires AllCStrings(xs, key)
    ensures SortedBy(SortBy(xs, key), key)
    ensures AllCStrings(SortBy(xs, key), key)
  {
    if xs != [] {
      SortBySorted(xs[1..], key);
      InsertSorted(xs[0], SortBy(xs[1..], key), key);
    }
  }
}
