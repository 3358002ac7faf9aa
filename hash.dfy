/** The 32-bit hashes `ex_hash32` and `ex_hash32_nocase_filtered`. Both are
    FNV-1 (multiply by the prime, then xor the byte) with the 32-bit offset
    basis, and both remap a result of 0 to 1 because the map uses key 0 for
    an empty slot. */
module Hash {
  import opened Bytes

  const FNV_OFFSET_BASIS: u32 := 0x811c9dc5
  const FNV_PRIME: u32 := 0x01000193

  /** `x ^ y` on the low `k` bits of `x` and `y`, one bit at a time from
      the lowest. */
  function XorBits(x: nat, y: nat, k: nat): nat
    decreases k
  {
    if k == 0 then 0 else 2 * XorBits(x / 2, y / 2, k - 1) + (if x % 2 == y % 2 then 0 else 1)
  }

  function Pow2(k: nat): nat
  {
    if k == 0 then 1 else 2 * Pow2(k - 1)
  }

  /** The xor of `k` bits fits in `k` bits. */
  lemma {:induction false} XorBitsBelow(x: nat, y: nat, k: nat)
    ensures XorBits(x, y, k) < Pow2(k)
  {
    if k > 0 {
      XorBitsBelow(x / 2, y / 2, k - 1);
    }
  }

  /** `a ^ c` for a 32-bit `a` and a byte `c`: only the low byte changes. */
  function XorByte(a: u32, c: byte): (r: u32)
  {
    var low := a % 0x100;
    var x := XorBits(low, c, 8);
    XorBitsBelow(low, c, 8);
    assert Pow2(8) == 0x100;
    LowByteReplaced(a, x);
    a - low + x
  }

  /** The xor leaves the upper three bytes alone. */
  lemma XorByteKeepsHigh(a: u32, c: byte)
    ensures XorByte(a, c) / 0x100 == a / 0x100
  {
    XorBitsBelow(a % 0x100, c, 8);
    assert Pow2(8) == 0x100;
    LowByteReplaced(a, XorBits(a % 0x100, c, 8));
  }

  /** Replacing the low byte of `a` keeps its upper bytes. */
  lemma LowByteReplaced(a: u32, x: int)
    requires 0 <= x < 0x100
    ensures 0 <= a - a % 0x100 + x < 0x1_0000_0000
    ensures (a - a % 0x100 + x) / 0x100 == a / 0x100
  {
    var q := a / 0x100;
    assert a == q * 0x100 + a % 0x100;
    assert a - a % 0x100 + x == q * 0x100 + x;
  }

  /** One FNV-1 round: multiply modulo 2^32, then xor the byte. */
  function Fnv1Step(h: u32, c: byte): u32
  {
    XorByte((h * FNV_PRIME) % 0x1_0000_0000, c)
  }

  /** FNV-1 over `s`, folded from the offset basis. */
  function Fnv1(s: seq<byte>): u32
  {
    if s == [] then FNV_OFFSET_BASIS else Fnv1Step(Fnv1(s[..|s| - 1]), s[|s| - 1])
  }

  /** The final remap: 0 is reserved for "empty slot". */
  function NonZero(h: u32): (r: u32)
    ensures r != 0
    ensures h != 0 ==> r == h
  {
    if h != 0 then h else 1
  }

  /** The bytes `ex_hash32_nocase_filtered` feeds to FNV-1: those in
      `[first, last]`, with `A`-`Z` folded to lower case. */
  function Filtered(s: seq<byte>, first: byte, last: byte): (r: seq<byte>)
    ensures |r| <= |s|
  {
    if s == [] then []
    else
      var c := s[|s| - 1];
      Filtered(s[..|s| - 1], first, last) + (if first <= c <= last then [Lower(c)] else [])
  }

  /** The hash of a C string, as `ex_hash32` computes it. */
  function StrHash(s: seq<byte>): u32
  {
    NonZero(Fnv1(s))
  }

  /** The hash `ex_hash32_nocase_filtered` computes. */
  function FilteredHash(s: seq<byte>, first: byte, last: byte): u32
  {
    NonZero(Fnv1(Filtered(s, first, last)))
  }

  /** `ex_hash32`: hash the bytes of a C string up to its terminator. */
  method Hash32(s: seq<byte>) returns (h: u32)
    requires IsCString(s)
    ensures h != 0
    ensures h == StrHash(s)
  {
    var hash := FNV_OFFSET_BASIS;
    var i := 0;
    while i < |s|
      invariant 0 <= i <= |s|
      invariant hash == Fnv1(s[..i])
    {
      assert s[..i + 1][..i] == s[..i];
      hash := XorByte((hash * FNV_PRIME) % 0x1_0000_0000, s[i]);
      i := i + 1;
    }
    assert s[..i] == s;
    h := if hash != 0 then hash else 1;
  }

  /** `ex_hash32_nocase_filtered`: hash `len` bytes, skipping every byte
      outside `[first, last]` (not only leading ones) and folding `A`-`Z`
      to lower case with `c | 0x20`. */
  method Hash32NocaseFiltered(s: seq<byte>, first: byte, last: byte) returns (h: u32)
    ensures h != 0
    ensures h == FilteredHash(s, first, last)
  {
    var hash := FNV_OFFSET_BASIS;
    var i := 0;
    while i < |s|
      invariant 0 <= i <= |s|
      invariant hash == Fnv1(Filtered(s[..i], first, last))
    {
      var c := s[i];
      FilteredSnoc(s, i, first, last);
      if c >= first && c <= last {
        var folded := if 0x41 <= c <= 0x5A then OrCaseBit(c) else c;
        Fnv1Snoc(Filtered(s[..i], first, last), folded);
        hash := XorByte((hash * FNV_PRIME) % 0x1_0000_0000, folded);
      }
      i := i + 1;
    }
    assert s[..i] == s;
    h := if hash != 0 then hash else 1;
  }

  /** `c | 0x20`, which on an upper-case ASCII letter is `tolower`. */
  function OrCaseBit(c: byte): (r: byte)
    ensures 0x41 <= c <= 0x5A ==> r == Lower(c)
  {
    if (c / 0x20) % 2 == 1 then c else c + 0x20
  }

  lemma Fnv1Snoc(s: seq<byte>, c: byte)
    ensures Fnv1(s + [c]) == Fnv1Step(Fnv1(s), c)
  {
    assert (s + [c])[..|s|] == s;
  }

  lemma FilteredSnoc(s: seq<byte>, i: nat, first: byte, last: byte)
    requires i < |s|
    ensures first <= s[i] <= last ==> Filtered(s[..i + 1], first, last) == Filtered(s[..i], first, last) + [Lower(s[i])]
    ensures !(first <= s[i] <= last) ==> Filtered(s[..i + 1], first, last) == Filtered(s[..i], first, last)
  {
    assert s[..i + 1][..i] == s[..i];
    assert Filtered(s[..i], first, last) + [] == Filtered(s[..i], first, last);
  }

  lemma {:induction false} FilteredConcat(a: seq<byte>, b: seq<byte>, first: byte, last: byte)
    ensures Filtered(a + b, first, last) == Filtered(a, first, last) + Filtered(b, first, last)
    decreases |b|
  {
    if b != [] {
      var ab := a + b;
      assert ab[..|ab| - 1] == a + b[..|b| - 1];
      FilteredConcat(a, b[..|b| - 1], first, last);
    } else {
      assert a + b == a;
    }
  }

  /** A byte outside `[first, last]` anywhere in the string leaves the
      filtered hash unchanged: "Super Mario" and "SuperMario" collide when
      the range starts at `'0'`. */
  lemma DropOutOfRange(a: seq<byte>, c: byte, b: seq<byte>, first: byte, last: byte)
    requires !(first <= c <= last)
    ensures FilteredHash(a + [c] + b, first, last) == FilteredHash(a + b, first, last)
  {
    assert Filtered(a + [c] + b, first, last) == Filtered(a + b, first, last) by {
      FilteredConcat(a + [c], b, first, last);
      FilteredConcat(a, [c], first, last);
      FilteredConcat(a, b, first, last);
      assert [c][..0] == [];
    }
  }

  /** Folding the case of a letter leaves the filtered hash unchanged. */
  lemma FoldCase(a: seq<byte>, c: byte, b: seq<byte>, first: byte, last: byte)
    ensures FilteredHash(a + [Lower(c)] + b, first, last) == FilteredHash(a + [c] + b, first, last)
      || !(first <= c <= last) || !(first <= Lower(c) <= last)
  {
    if first <= c <= last && first <= Lower(c) <= last {
      assert Filtered(a + [Lower(c)] + b, first, last) == Filtered(a + [c] + b, first, last) by {
        FilteredConcat(a + [Lower(c)], b, first, last);
        FilteredConcat(a, [Lower(c)], first, last);
        FilteredConcat(a + [c], b, first, last);
        FilteredConcat(a, [c], first, last);
        assert [c][..0] == [];
        assert [Lower(c)][..0] == [];
        assert Lower(Lower(c)) == Lower(c);
      }
    }
  }

  /** With a range that excludes NUL, the filtered hash is `ex_hash32` of the
      filtered, lower-cased string: the two entry points are one hash. */
  lemma {:induction false} FilteredIsStrHashOfFiltered(s: seq<byte>, first: byte, last: byte)
    requires first >= 1
    ensures IsCString(Filtered(s, first, last))
    ensures FilteredHash(s, first, last) == StrHash(Filtered(s, first, last))
  {
    if s != [] {
      FilteredIsStrHashOfFiltered(s[..|s| - 1], first, last);
    }
  }

  /** These are the FNV-1 test vectors for "a" (FNV-1a would give 0xe40c292c). */
  lemma Fnv1OfLetterA()
    ensures Fnv1([0x61]) == 0x050c5d7e
  {
    assert [0x61][..0] == [];
    assert (FNV_OFFSET_BASIS * FNV_PRIME) % 0x1_0000_0000 == 0x050c5d1f;
    assert XorBits(0x00, 0x00, 1) == 0x00;
    assert XorBits(0x00, 0x01, 2) == 0x01;
    assert XorBits(0x00, 0x03, 3) == 0x03;
    assert XorBits(0x01, 0x06, 4) == 0x07;
    assert XorBits(0x03, 0x0c, 5) == 0x0f;
    assert XorBits(0x07, 0x18, 6) == 0x1f;
    assert XorBits(0x0f, 0x30, 7) == 0x3f;
    assert XorBits(0x1f, 0x61, 8) == 0x7e;
    assert 0x050c5d1f % 0x100 == 0x1f;
    assert XorByte(0x050c5d1f, 0x61) == 0x050c5d7e;
    assert Fnv1([0x61]) == Fnv1Step(Fnv1([]), 0x61);
  }
}
