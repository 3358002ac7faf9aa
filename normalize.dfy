/** How `explore_add_unique_string` cuts one metadata field into values:
    the positions its pointer walk visits, as pure functions over the bytes
    of the field. A value is a `Span` of the field; the walk finds the spans
    in order. Positions at `|s|` and beyond read as the terminating NUL. */
module Normalize {
  import opened Bytes

  /** `[lo, hi)` of the field. */
  datatype Span = Span(lo: nat, hi: nat)

  /** The separators of a split category: `/`, `,` and `|`. */
  predicate IsDelimiter(c: byte)
  {
    c == SLASH || c == COMMA || c == PIPE
  }

  /** `while (*str == ' ') str++;`: the first position at or after `i`
      that does not hold a space. */
  function SkipSpaces(s: seq<byte>, i: nat): (r: nat)
    requires i <= |s|
    ensures i <= r <= |s|
    ensures At(s, r) != SPACE
    ensures forall k :: i <= k < r ==> s[k] == SPACE
    decreases |s| - i
  {
    if i < |s| && s[i] == SPACE then SkipSpaces(s, i + 1) else i
  }

  /** `while (p[-1] == ' ') p--;` stopped at `lo`: step back over the
      spaces before `p`, never below the start of the value. */
  function TrimEnd(s: seq<byte>, lo: nat, p: nat): (r: nat)
    requires lo <= p <= |s|
    ensures lo <= r <= p
    ensures r > lo ==> s[r - 1] != SPACE
    ensures forall k :: r <= k < p ==> s[k] == SPACE
    decreases p
  {
    if p > lo && s[p - 1] == SPACE then TrimEnd(s, lo, p - 1) else p
  }

  /** `while (p[-1] == ' ') p--;` as the source writes it, with no lower
      bound. The model stops at the first byte of the field, where the
      source would read before it. */
  function TrimEndAsWritten(s: seq<byte>, p: nat): (r: nat)
    requires p <= |s|
    ensures r <= p
    ensures r > 0 ==> s[r - 1] != SPACE
    ensures forall k :: r <= k < p ==> s[k] == SPACE
    decreases p
  {
    if p > 0 && s[p - 1] == SPACE then TrimEndAsWritten(s, p - 1) else p
  }

  /** `inc`, `ltd` or `the`, in any case. */
  predicate IsCompanyWord(a: byte, b: byte, c: byte)
  {
    var w := [Lower(a), Lower(b), Lower(c)];
    w == [0x69, 0x6E, 0x63] || w == [0x6C, 0x74, 0x64] || w == [0x74, 0x68, 0x65]
  }

  /** `[lo, hi)` is a company word, optionally followed by a dot, with a
      space in front of it. */
  predicate CompanySuffixAt(s: seq<byte>, lo: int, hi: int)
  {
    && 1 <= lo && hi <= |s|
    && (hi - lo == 3 || (hi - lo == 4 && s[lo + 3] == DOT))
    && s[lo - 1] == SPACE
    && IsCompanyWord(s[lo], s[lo + 1], s[lo + 2])
  }

  /** `explore_check_company_suffix(p, search_reverse)`: the length (3, or 4
      with a dot) of the company word ending (reverse) or starting
      (forward) at `p`, or 0. */
  function CompanySuffix(s: seq<byte>, p: int, reverse: bool): (r: nat)
    ensures r == 0 || r == 3 || r == 4
    ensures reverse && 5 <= p <= |s| && At(s, p) != DOT ==>
      (r != 0 <==> CompanySuffixAt(s, p - 3, p) || CompanySuffixAt(s, p - 4, p))
      && (r != 0 ==> CompanySuffixAt(s, p - r, p))
    ensures !reverse ==> (r != 0 <==> IsCompanyWord(At(s, p), At(s, p + 1), At(s, p + 2)))
    ensures !reverse && 0 <= p <= |s| && r != 0 ==> p + r <= |s| && (r == 4 <==> At(s, p + 3) == DOT)
  {
    var q := if reverse then p - (if At(s, p - 1) == DOT then 4 else 3) else p;
    if reverse && At(s, q - 1) != SPACE then 0
    else if IsCompanyWord(At(s, q), At(s, q + 1), At(s, q + 2)) then (if At(s, q + 3) == DOT then 4 else 3)
    else 0
  }

  /** Where the walk resumes after a value that ended at the separator at
      `p`: in a company category a comma followed by `Inc`/`Ltd`/`The` is
      skipped up to the next separator, and the field ends when only that
      word is left (`None`). */
  function ResumeAt(s: seq<byte>, company: bool, p: nat): (r: Option<nat>)
    requires p < |s|
    ensures r.Some? ==> p <= r.value < |s| && IsDelimiter(At(s, r.value)) == IsDelimiter(At(s, p))
  {
    if company && s[p] == COMMA then
      var q := SkipSpaces(s, p + 1);
      var q2 := SkipSpaces(s, q + CompanySuffix(s, q, false));
      if At(s, q2) == NUL then None
      else if IsDelimiter(At(s, q2)) then Some(q2)
      else Some(p)
    else Some(p)
  }

  /** `while (*str == ' ') str++;` */
  method SkipSpacesFrom(s: seq<byte>, i: nat) returns (r: nat)
    requires i <= |s|
    ensures r == SkipSpaces(s, i)
  {
    r := i;
    while At(s, r) == SPACE
      invariant i <= r <= |s|
      invariant SkipSpaces(s, r) == SkipSpaces(s, i)
      decreases |s| - r
    {
      r := r + 1;
    }
  }

  /** `while (p[-1] == ' ') p--;`, stopped at the start `lo` of the value. */
  method TrimEndFrom(s: seq<byte>, lo: nat, p: nat) returns (r: nat)
    requires lo <= p <= |s|
    ensures r == TrimEnd(s, lo, p)
  {
    r := p;
    while r > lo && s[r - 1] == SPACE
      invariant lo <= r <= p
      invariant TrimEnd(s, lo, r) == TrimEnd(s, lo, p)
    {
      r := r - 1;
    }
  }

  /** The block after a stored value that, in a company category, skips a
      comma followed by a company word. */
  method Resume(s: seq<byte>, company: bool, p: nat) returns (next: Option<nat>)
    requires p < |s|
    ensures next == ResumeAt(s, company, p)
  {
    next := Some(p);
    if company && s[p] == COMMA {
      var q := SkipSpacesFrom(s, p + 1);
      q := q + CompanySuffix(s, q, false);
      q := SkipSpacesFrom(s, q);
      if At(s, q) == NUL {
        next := None;
      } else if IsDelimiter(At(s, q)) {
        next := Some(q);
      }
    }
  }

  /** A span the walk can report: non-empty, inside the field, at or after
      `start`, and without a space at either end. */
  predicate Trimmed(s: seq<byte>, start: nat, v: Span)
  {
    start <= v.lo < v.hi <= |s| && s[v.lo] != SPACE && s[v.hi - 1] != SPACE
  }

  /** Whether the walk stops at byte `c`: the terminator always, the
      separators only when the category splits. */
  predicate Stops(c: byte, split: bool)
  {
    c == NUL || (split && IsDelimiter(c))
  }

  /** Where the walk goes on from: the start `str` of the next value and
      the position `p` of the next byte it looks at. */
  datatype Cursor = Cursor(str: nat, p: nat)

  /** What the walk does at a byte it stops at: the value it stores, if
      any, and where it goes on from, if it does not return. */
  datatype Step = Step(value: Option<Span>, next: Option<Cursor>)

  /** The company-word strip of a value `[lo, hi)` longer than 5 bytes: a
      trailing ` Inc`, ` Ltd.` or the like is cut off, then the spaces
      before it. */
  function StripCompany(s: seq<byte>, lo: nat, hi: nat): (end: nat)
    requires lo < hi <= |s| && s[lo] != SPACE && s[hi - 1] != SPACE
    ensures lo < end <= hi && s[end - 1] != SPACE
  {
    if hi - lo > 5 then TrimEnd(s, lo, hi - CompanySuffix(s, hi, true)) else hi
  }

  /** Where the walk goes on after a value that ended at `p`: nowhere at
      the terminator, else one past where `ResumeAt` leaves it. */
  function Resumed(s: seq<byte>, company: bool, p: nat): (r: Option<Cursor>)
    requires p <= |s|
    ensures r.Some? ==> p < r.value.str == r.value.p <= |s|
  {
    if At(s, p) == NUL then None
    else
      var q := ResumeAt(s, company, p);
      if q.None? then None else Some(Cursor(q.value + 1, q.value + 1))
  }

  /** The walk at a stop byte `p` for the value starting at `str`: trim
      spaces on both sides; an empty value is skipped (and ends the field at
      the terminator); otherwise strip a trailing company word when the
      value is longer than 5 bytes, and resume after the separator, or after
      a skipped `, Inc` and the like. */
  function StepAt(s: seq<byte>, company: bool, str: nat, p: nat): (r: Step)
    requires str <= p <= |s| && At(s, p) != SPACE
    ensures r.value.Some? ==> Trimmed(s, str, r.value.value) && r.value.value.hi <= p
    ensures r.next.Some? ==> str <= r.next.value.str <= r.next.value.p <= |s| && p < r.next.value.p
  {
    var lo := SkipSpaces(s, str);
    var hi := TrimEnd(s, lo, p);
    if hi == lo then
      Step(None, if At(s, p) == NUL then None else Some(Cursor(lo, hi + 1)))
    else
      assert s[lo] != SPACE && s[hi - 1] != SPACE;
      var end := if company then StripCompany(s, lo, hi) else hi;
      Step(Some(Span(lo, end)), Resumed(s, company, p))
  }

  /** The body of the `for (p = str + 1;; p++)` loop from position `p` with
      the value starting at `str`: the spans of the values it stores, in
      order. `split` is whether the category splits and a split buffer was
      given; only then do `/`, `,` and `|` end a value. */
  function Walk(s: seq<byte>, split: bool, company: bool, str: nat, p: nat): (r: seq<Span>)
    requires str <= p <= |s|
    ensures forall k :: 0 <= k < |r| ==> Trimmed(s, str, r[k])
    decreases |s| - p
  {
    if !Stops(At(s, p), split) then Walk(s, split, company, str, p + 1)
    else
      var st := StepAt(s, company, str, p);
      (if st.value.Some? then [st.value.value] else [])
        + (if st.next.Some? then Walk(s, split, company, st.next.value.str, st.next.value.p) else [])
  }

  /** The walk passes over a byte it does not stop at. */
  lemma WalkPass(s: seq<byte>, split: bool, company: bool, str: nat, p: nat)
    requires str <= p <= |s| && !Stops(At(s, p), split)
    ensures p < |s| && Walk(s, split, company, str, p) == Walk(s, split, company, str, p + 1)
  {
  }

  /** At a byte it stops at, the walk stores what `StepAt` finds and goes
      on from where `StepAt` says. */
  lemma WalkStop(s: seq<byte>, split: bool, company: bool, str: nat, p: nat, st: Step)
    requires str <= p <= |s| && Stops(At(s, p), split) && st == StepAt(s, company, str, p)
    ensures st.next.Some? ==> str <= st.next.value.str <= st.next.value.p <= |s| && p < st.next.value.p
    ensures st.value.Some? ==> Trimmed(s, str, st.value.value)
    ensures Walk(s, split, company, str, p) ==
      (if st.value.Some? then [st.value.value] else [])
        + (if st.next.Some? then Walk(s, split, company, st.next.value.str, st.next.value.p) else [])
  {
  }

  /** The `if (is_company && p - str > 5)` block: step back over a
      trailing company word, then over the spaces before it. */
  method Strip(s: seq<byte>, lo: nat, hi: nat) returns (end: nat)
    requires lo < hi <= |s| && s[lo] != SPACE && s[hi - 1] != SPACE
    ensures end == StripCompany(s, lo, hi)
  {
    end := hi;
    if hi - lo > 5 {
      end := hi - CompanySuffix(s, hi, true);
      end := TrimEndFrom(s, lo, end);
    }
  }

  /** The trims, the company-word strip and the resume block of
      `explore_add_unique_string` at a stop byte. */
  method Cut(s: seq<byte>, company: bool, str: nat, p: nat) returns (st: Step)
    requires str <= p <= |s| && At(s, p) != SPACE
    ensures st == StepAt(s, company, str, p)
  {
    var lo := SkipSpacesFrom(s, str);
    var hi := TrimEndFrom(s, lo, p);
    if hi == lo {
      if At(s, hi) == NUL {
        return Step(None, None);
      }
      return Step(None, Some(Cursor(lo, hi + 1)));
    }
    var end := hi;
    if company {
      end := Strip(s, lo, hi);
    }
    var next := ResumeCursor(s, company, p);
    return Step(Some(Span(lo, end)), next);
  }

  /** Where the walk goes on after a stored value: nowhere at the
      terminator, else past the byte `Resume` settles on. */
  method ResumeCursor(s: seq<byte>, company: bool, p: nat) returns (next: Option<Cursor>)
    requires p <= |s|
    ensures next == Resumed(s, company, p)
  {
    next := None;
    if At(s, p) != NUL {
      var q := Resume(s, company, p);
      if q.Some? {
        next := Some(Cursor(q.value + 1, q.value + 1));
      }
    }
  }

  /** The values of a non-empty field, as the walk from its second byte
      finds them. */
  function Spans(s: seq<byte>, split: bool, company: bool): (r: seq<Span>)
    requires |s| >= 1
    ensures forall k :: 0 <= k < |r| ==> Trimmed(s, 0, r[k])
  {
    Walk(s, split, company, 0, 1)
  }

  /** The bytes of the values, as `memcpy` copies them into the arena. */
  function Values(s: seq<byte>, spans: seq<Span>): (r: seq<seq<byte>>)
    requires forall k :: 0 <= k < |spans| ==> spans[k].lo <= spans[k].hi <= |s|
    ensures |r| == |spans|
    ensures forall k :: 0 <= k < |r| ==> r[k] == s[spans[k].lo..spans[k].hi]
  {
    if spans == [] then [] else [s[spans[0].lo..spans[0].hi]] + Values(s, spans[1..])
  }

  lemma {:induction false} ValuesAppend(s: seq<byte>, a: seq<Span>, b: seq<Span>)
    requires forall k :: 0 <= k < |a| ==> a[k].lo <= a[k].hi <= |s|
    requires forall k :: 0 <= k < |b| ==> b[k].lo <= b[k].hi <= |s|
    ensures Values(s, a + b) == Values(s, a) + Values(s, b)
  {
    if a != [] {
      assert (a + b)[1..] == a[1..] + b;
      ValuesAppend(s, a[1..], b);
    }
  }

  /** The values the walk still finds from `str` and `p` on. */
  ghost function Rest(s: seq<byte>, split: bool, company: bool, str: nat, p: nat): seq<seq<byte>>
    requires str <= p <= |s|
  {
    Values(s, Walk(s, split, company, str, p))
  }

  /** A byte the walk does not stop at adds no value. */
  lemma RestPass(s: seq<byte>, split: bool, company: bool, str: nat, p: nat)
    requires str <= p <= |s| && !Stops(At(s, p), split)
    ensures p < |s| && Rest(s, split, company, str, p) == Rest(s, split, company, str, p + 1)
  {
    WalkPass(s, split, company, str, p);
  }

  /** At a stop byte the remaining values are the one `StepAt` cuts, if
      any, followed by those found from where it resumes. */
  lemma RestStop(s: seq<byte>, split: bool, company: bool, str: nat, p: nat, st: Step)
    requires str <= p <= |s| && Stops(At(s, p), split) && st == StepAt(s, company, str, p)
    ensures st.next.Some? ==> str <= st.next.value.str <= st.next.value.p <= |s| && p < st.next.value.p
    ensures st.value.Some? ==> st.value.value.lo <= st.value.value.hi <= |s|
    ensures Rest(s, split, company, str, p) ==
      (if st.value.Some? then [s[st.value.value.lo..st.value.value.hi]] else [])
        + (if st.next.Some? then Rest(s, split, company, st.next.value.str, st.next.value.p) else [])
  {
    WalkStop(s, split, company, str, p, st);
    var head := if st.value.Some? then [st.value.value] else [];
    var tail := if st.next.Some? then Walk(s, split, company, st.next.value.str, st.next.value.p) else [];
    ValuesAppend(s, head, tail);
  }

  /** Every value of a C string is a non-empty C string without a space at
      either end. */
  lemma ValuesTrimmed(s: seq<byte>, split: bool, company: bool)
    requires IsCString(s) && |s| >= 1
    ensures forall k :: 0 <= k < |Values(s, Spans(s, split, company))| ==>
      var v := Values(s, Spans(s, split, company))[k];
      IsCString(v) && v != [] && v[0] != SPACE && v[|v| - 1] != SPACE
  {
    var spans := Spans(s, split, company);
    forall k | 0 <= k < |spans|
      ensures var v := Values(s, spans)[k]; IsCString(v) && v != [] && v[0] != SPACE && v[|v| - 1] != SPACE
    {
      assert Trimmed(s, 0, spans[k]);
    }
  }

  /** Without splitting, a field yields at most one value: the walk only
      stops at the terminator. */
  lemma {:induction false} NoSplitAtMostOne(s: seq<byte>, company: bool, str: nat, p: nat)
    requires str <= p <= |s|
    ensures |Walk(s, false, company, str, p)| <= 1
    decreases |s| - p
  {
    var c := At(s, p);
    if c != NUL {
      NoSplitAtMostOne(s, company, str, p + 1);
    }
  }

  /** In a category that neither splits nor strips company words, the value
      of a C string is the whole field with its outer spaces removed, and an
      all-space field yields nothing. */
  lemma {:induction false} NoSplitWholeField(s: seq<byte>, str: nat, p: nat)
    requires IsCString(s) && str <= p <= |s|
    ensures var lo := SkipSpaces(s, str);
            var hi := TrimEnd(s, lo, |s|);
            Walk(s, false, false, str, p) == if lo == hi then [] else [Span(lo, hi)]
    decreases |s| - p
  {
    if p < |s| {
      assert s[p] != NUL;
      NoSplitWholeField(s, str, p + 1);
    }
  }

  /** "RPG, Puzzle" in Genre, a split category, gives two values. */
  lemma GenreFirst(s: seq<byte>)
    requires |s| == 11 && s[0] == 0x52 && s[1] == 0x50 && s[2] == 0x47 && s[3] == COMMA && s[4] == SPACE
    ensures Walk(s, true, false, 0, 1) == [Span(0, 3)] + Walk(s, true, false, 4, 4)
  {
    WalkPass(s, true, false, 0, 1);
    WalkPass(s, true, false, 0, 2);
    assert SkipSpaces(s, 0) == 0 && TrimEnd(s, 0, 3) == 3;
    var first := StepAt(s, false, 0, 3);
    assert first == Step(Some(Span(0, 3)), Some(Cursor(4, 4)));
    WalkStop(s, true, false, 0, 3, first);
  }

  lemma GenreSecond(s: seq<byte>)
    requires |s| == 11 && s[4] == SPACE && s[5] == 0x50 && s[6] == 0x75 && s[7] == 0x7A && s[8] == 0x7A && s[9] == 0x6C && s[10] == 0x65
    ensures Walk(s, true, false, 4, 4) == [Span(5, 11)]
  {
    WalkPass(s, true, false, 4, 4);
    WalkPass(s, true, false, 4, 5);
    WalkPass(s, true, false, 4, 6);
    WalkPass(s, true, false, 4, 7);
    WalkPass(s, true, false, 4, 8);
    WalkPass(s, true, false, 4, 9);
    WalkPass(s, true, false, 4, 10);
    assert SkipSpaces(s, 4) == 5 && TrimEnd(s, 5, 11) == 11;
    var second := StepAt(s, false, 4, 11);
    assert second == Step(Some(Span(5, 11)), None);
    WalkStop(s, true, false, 4, 11, second);
  }

  lemma GenreExample(s: seq<byte>)
    requires |s| == 11 && s[0] == 0x52 && s[1] == 0x50 && s[2] == 0x47 && s[3] == COMMA && s[4] == SPACE
    requires s[5] == 0x50 && s[6] == 0x75 && s[7] == 0x7A && s[8] == 0x7A && s[9] == 0x6C && s[10] == 0x65
    ensures Values(s, Spans(s, true, false)) == [s[0..3], s[5..11]]
  {
    GenreFirst(s);
    GenreSecond(s);
  }

  /** "Sega, Inc." as a developer: the `, Inc.` after the comma is skipped
      and only "Sega" remains. */
  lemma CompanyCommaExample(s: seq<byte>)
    requires |s| == 10 && s[0] == 0x53 && s[1] == 0x65 && s[2] == 0x67 && s[3] == 0x61 && s[4] == COMMA
    requires s[5] == SPACE && s[6] == 0x49 && s[7] == 0x6E && s[8] == 0x63 && s[9] == DOT
    ensures Values(s, Spans(s, true, true)) == [s[0..4]]
  {
    WalkPass(s, true, true, 0, 1);
    WalkPass(s, true, true, 0, 2);
    WalkPass(s, true, true, 0, 3);
    assert SkipSpaces(s, 0) == 0 && TrimEnd(s, 0, 4) == 4;
    assert SkipSpaces(s, 5) == 6;
    assert CompanySuffix(s, 6, false) == 4;
    assert SkipSpaces(s, 10) == 10;
    assert ResumeAt(s, true, 4) == None;
    var st := StepAt(s, true, 0, 4);
    assert st == Step(Some(Span(0, 4)), None);
    WalkStop(s, true, true, 0, 4, st);
  }

  /** "Foo Ltd" as a developer: a trailing company word is stripped. */
  lemma CompanySuffixExample(s: seq<byte>)
    requires |s| == 7 && s[0] == 0x46 && s[1] == 0x6F && s[2] == 0x6F && s[3] == SPACE
    requires s[4] == 0x4C && s[5] == 0x74 && s[6] == 0x64
    ensures Values(s, Spans(s, true, true)) == [s[0..3]]
  {
    WalkPass(s, true, true, 0, 1);
    WalkPass(s, true, true, 0, 2);
    WalkPass(s, true, true, 0, 3);
    WalkPass(s, true, true, 0, 4);
    WalkPass(s, true, true, 0, 5);
    WalkPass(s, true, true, 0, 6);
    assert SkipSpaces(s, 0) == 0 && TrimEnd(s, 0, 7) == 7;
    assert CompanySuffix(s, 7, true) == 3;
    assert TrimEnd(s, 0, 4) == 3;
    var st := StepAt(s, true, 0, 7);
    assert st == Step(Some(Span(0, 3)), None);
    WalkStop(s, true, true, 0, 7, st);
  }

  /** "Foo Inc" as a developer yields "Foo", like "Foo Ltd". */
  lemma CompanyIncExample(s: seq<byte>)
    requires |s| == 7 && s[0] == 0x46 && s[1] == 0x6F && s[2] == 0x6F && s[3] == SPACE
    requires s[4] == 0x49 && s[5] == 0x6E && s[6] == 0x63
    ensures Values(s, Spans(s, true, true)) == [s[0..3]]
  {
    WalkPass(s, true, true, 0, 1);
    WalkPass(s, true, true, 0, 2);
    WalkPass(s, true, true, 0, 3);
    WalkPass(s, true, true, 0, 4);
    WalkPass(s, true, true, 0, 5);
    WalkPass(s, true, true, 0, 6);
    assert SkipSpaces(s, 0) == 0 && TrimEnd(s, 0, 7) == 7;
    assert CompanySuffix(s, 7, true) == 3;
    assert TrimEnd(s, 0, 4) == 3;
    var st := StepAt(s, true, 0, 7);
    assert st == Step(Some(Span(0, 3)), None);
    WalkStop(s, true, true, 0, 7, st);
  }

  /** "Foo Inc Ltd" as a developer yields "Foo Inc": only the last company
      word is stripped. */
  lemma CompanyIncLtdExample(s: seq<byte>)
    requires |s| == 11 && s[0] == 0x46 && s[1] == 0x6F && s[2] == 0x6F && s[3] == SPACE
    requires s[4] == 0x49 && s[5] == 0x6E && s[6] == 0x63 && s[7] == SPACE
    requires s[8] == 0x4C && s[9] == 0x74 && s[10] == 0x64
    ensures Values(s, Spans(s, true, true)) == [s[0..7]]
  {
    WalkPass(s, true, true, 0, 1);
    WalkPass(s, true, true, 0, 2);
    WalkPass(s, true, true, 0, 3);
    WalkPass(s, true, true, 0, 4);
    WalkPass(s, true, true, 0, 5);
    WalkPass(s, true, true, 0, 6);
    WalkPass(s, true, true, 0, 7);
    WalkPass(s, true, true, 0, 8);
    WalkPass(s, true, true, 0, 9);
    WalkPass(s, true, true, 0, 10);
    assert SkipSpaces(s, 0) == 0 && TrimEnd(s, 0, 11) == 11;
    assert CompanySuffix(s, 11, true) == 3;
    assert TrimEnd(s, 0, 8) == 7;
    var st := StepAt(s, true, 0, 11);
    assert st == Step(Some(Span(0, 7)), None);
    WalkStop(s, true, true, 0, 11, st);
  }

  /** Only one company word is stripped per value, so normalizing is not
      idempotent on company values: "Foo Inc Ltd" yields "Foo Inc", and
      normalizing that value again yields "Foo". */
  lemma CompanySuffixOnce(s: seq<byte>)
    requires |s| == 11 && s[0] == 0x46 && s[1] == 0x6F && s[2] == 0x6F && s[3] == SPACE
    requires s[4] == 0x49 && s[5] == 0x6E && s[6] == 0x63 && s[7] == SPACE
    requires s[8] == 0x4C && s[9] == 0x74 && s[10] == 0x64
    ensures var v := s[0..7];
            Values(s, Spans(s, true, true)) == [v]
            && Values(v, Spans(v, true, true)) == [s[0..3]] && s[0..3] != v
  {
    CompanyIncLtdExample(s);
    CompanyIncExample(s[0..7]);
    assert s[0..7][0..3] == s[0..3];
    assert |s[0..3]| != |s[0..7]|;
  }

  /** The right trim as written runs past the start of an all-space value:
      in "a, " the value after the comma starts (after the left trim) at 3
      but the right trim ends at 2, so the length `p - str` the source
      computes is -1, which wraps around as a `size_t`. */
  lemma UnboundedTrimCrossesStart()
    ensures var s := [0x61, 0x2C, 0x20];
            SkipSpaces(s, 2) == 3 && TrimEndAsWritten(s, 3) == 2
  {
  }

  /** The same on a field of one space: the left trim moves the value's
      start to 1 while the right trim reaches the field's first byte (the
      source goes on to read the byte before the field), so again
      `p - str` is -1. */
  lemma AllSpaceFieldCrossesStart()
    ensures var s := [SPACE];
            SkipSpaces(s, 0) == 1 && TrimEndAsWritten(s, 1) == 0
  {
  }

  /** With the trim bounded by the start of the value, the same field gives
      only "a", and in general every value has a non-negative length. */
  lemma BoundedTrimExample()
    ensures var s := [0x61, 0x2C, 0x20];
            Values(s, Spans(s, true, false)) == [s[0..1]]
  {
    var s: seq<byte> := [0x61, 0x2C, 0x20];
    assert Walk(s, true, false, 2, 2) == [];
    assert Walk(s, true, false, 0, 1) == [Span(0, 1)];
  }
}
