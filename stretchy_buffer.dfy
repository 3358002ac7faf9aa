/** The stretchy buffer behind the `EX_BUF_*` macros: a dynamic array whose
    length and capacity live in a header in front of the elements. A NULL
    buffer is the buffer of capacity 0. */
module StretchyBuffer {

  const MIN_CAPACITY: nat := 16

  /** The capacity `ex_buf__grow` picks: `MAX(2 * cap, MAX(n, 16))`. */
  function GrowCapacity(cap: nat, n: nat): (r: nat)
    ensures r >= n && r >= MIN_CAPACITY && r >= 2 * cap
    ensures r == 2 * cap || r == n || r == MIN_CAPACITY
  {
    var atLeast := if n > MIN_CAPACITY then n else MIN_CAPACITY;
    if 2 * cap > atLeast then 2 * cap else atLeast
  }

  class ExBuf<T(0)> {
    var data: array<T>
    var len: nat

    ghost predicate Valid()
      reads this
    {
      len <= data.Length
    }

    /** `EX_BUF_LEN`. */
    function Len(): nat
      reads this
    {
      len
    }

    /** `EX_BUF_CAP`: 0 for a NULL buffer. */
    function Cap(): nat
      reads this
    {
      data.Length
    }

    /** The elements `b[0..len)`. */
    ghost function Elements(): (s: seq<T>)
      reads this, data
      requires Valid()
      ensures |s| == len
    {
      data[..len]
    }

    /** A NULL buffer. */
    constructor ()
      ensures Valid() && fresh(data)
      ensures Len() == 0 && Cap() == 0 && Elements() == []
    {
      data := new T[0];
      len := 0;
    }

    /** `ex_buf__grow`: reallocate to `GrowCapacity(cap, newLen)`, keeping
        the length and the elements (a NULL buffer starts with length 0). */
    method Grow(newLen: nat)
      requires Valid()
      modifies this
      ensures Valid() && fresh(data)
      ensures Cap() == GrowCapacity(old(Cap()), newLen)
      ensures len == old(len)
      ensures Elements() == old(Elements())
    {
      var newCap := GrowCapacity(data.Length, newLen);
      var grown := new T[newCap];
      var i := 0;
      while i < len
        invariant 0 <= i <= len <= data.Length < newCap
        invariant forall j :: 0 <= j < i ==> grown[j] == data[j]
        modifies grown
      {
        grown[i] := data[i];
        i := i + 1;
      }
      data := grown;
    }

    /** `EX_BUF_FIT(b, n)`: grow only when `n` exceeds the capacity. */
    method Fit(n: nat)
      requires Valid()
      modifies this
      ensures Valid()
      ensures Cap() == if n <= old(Cap()) then old(Cap()) else GrowCapacity(old(Cap()), n)
      ensures Cap() >= n
      ensures n <= old(Cap()) ==> data == old(data)
      ensures n > old(Cap()) ==> fresh(data)
      ensures len == old(len) && Elements() == old(Elements())
    {
      if n > data.Length {
        Grow(n);
      }
    }

    /** `EX_BUF_PUSH(b, val)`. */
    method Push(val: T)
      requires Valid()
      modifies this, data
      ensures Valid()
      ensures Elements() == old(Elements()) + [val]
      ensures len == old(len) + 1
      ensures Cap() == if old(len) + 1 <= old(Cap()) then old(Cap()) else GrowCapacity(old(Cap()), old(len) + 1)
    {
      Fit(1 + len);
      data[len] := val;
      len := len + 1;
    }

    /** `EX_BUF_POP(b)`: the source decrements the length unchecked, so the
        buffer must not be empty. */
    method Pop() returns (val: T)
      requires Valid() && len > 0
      modifies this
      ensures Valid() && data == old(data) && Cap() == old(Cap())
      ensures val == old(Elements())[old(len) - 1]
      ensures Elements() == old(Elements())[..old(len) - 1]
    {
      len := len - 1;
      val := data[len];
    }

    /** `EX_BUF_RESIZE(b, sz)`: fit, then set the length; the first
        `min(len, sz)` elements survive and the rest are unspecified. */
    method Resize(sz: nat)
      requires Valid()
      modifies this
      ensures Valid() && len == sz
      ensures Cap() == if sz <= old(Cap()) then old(Cap()) else GrowCapacity(old(Cap()), sz)
      ensures sz <= old(len) ==> Elements() == old(Elements())[..sz]
      ensures sz > old(len) ==> Elements()[..old(len)] == old(Elements())
    {
      Fit(sz);
      len := sz;
    }

    /** `EX_BUF_CLEAR(b)`: length 0, capacity kept. */
    method Clear()
      requires Valid()
      modifies this
      ensures Valid() && data == old(data) && Cap() == old(Cap())
      ensures len == 0 && Elements() == []
    {
      len := 0;
    }

    /** `EX_BUF_FREE(b)`: the buffer becomes NULL again. */
    method Free()
      requires Valid()
      modifies this
      ensures Valid() && fresh(data)
      ensures Len() == 0 && Cap() == 0
    {
      data := new T[0];
      len := 0;
    }
  }
}
