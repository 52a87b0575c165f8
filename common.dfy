/** Small pieces of Python's semantics that several modules of the model share:
    an optional value for operations that raise, powers of two, and the clamping
    slice and wrapping index that Python applies to sequences. */
module Common {

  /** The result of an operation that either yields a value or raises. */
  datatype Option<+T> = None | Some(value: T)

  /** 2 to the power n, the value of `2**n` for a non-negative n. */
  function Pow2(n: nat): (r: nat)
    ensures r >= 1
    ensures n >= 1 ==> r >= 2
  {
    if n == 0 then 1 else 2 * Pow2(n - 1)
  }

  /** Bit i of v, `(v >> i) & 1`, shifting one place at a time. */
  predicate BitSet(v: nat, i: nat)
  {
    if i == 0 then v % 2 == 1 else BitSet(v / 2, i - 1)
  }

  /** Zero has no bit set. */
  lemma {:induction false} ZeroHasNoBits(j: nat)
    ensures !BitSet(0, j)
  {
    if j > 0 {
      ZeroHasNoBits(j - 1);
    }
  }

  /** 2**i has exactly one set bit, bit i. */
  lemma {:induction false} SingleBit(i: nat, j: nat)
    ensures BitSet(Pow2(i), j) <==> i == j
  {
    if i == 0 {
      if j > 0 {
        assert Pow2(i) / 2 == 0;
        ZeroHasNoBits(j - 1);
      }
    } else if j > 0 {
      assert Pow2(i) / 2 == Pow2(i - 1);
      SingleBit(i - 1, j - 1);
    }
  }

  /** The single-bit property of 2**i for every bit at once. */
  lemma Pow2Bits(i: nat)
    ensures forall j: nat :: BitSet(Pow2(i), j) <==> j == i
  {
    forall j: nat
      ensures BitSet(Pow2(i), j) <==> j == i
    {
      SingleBit(i, j);
    }
  }

  /** Where Python puts one bound of `s[lo:hi]` on a sequence of length `len`:
      a negative bound counts from the end, and both are clamped into [0, len]. */
  function ClampIndex(i: int, len: nat): (c: nat)
    ensures c <= len
    ensures 0 <= i <= len ==> c == i
  {
    if i < 0 then (if len + i < 0 then 0 else len + i)
    else if i > len then len
    else i
  }

  /** Python's `s[lo:hi]` (step 1): it never fails, it clamps. */
  function Slice<T>(s: seq<T>, lo: int, hi: int): (r: seq<T>)
    ensures |r| == if ClampIndex(lo, |s|) <= ClampIndex(hi, |s|)
                   then ClampIndex(hi, |s|) - ClampIndex(lo, |s|) else 0
    ensures forall k | 0 <= k < |r| :: r[k] == s[ClampIndex(lo, |s|) + k]
  {
    var a, b := ClampIndex(lo, |s|), ClampIndex(hi, |s|);
    if a <= b then s[a..b] else []
  }

  /** Python's `s[i]`: a negative index counts from the end; anything out of
      range raises IndexError, modelled as None. */
  function Index<T>(s: seq<T>, i: int): (r: Option<T>)
    ensures r.Some? <==> -|s| <= i < |s|
    ensures 0 <= i < |s| ==> r == Some(s[i])
    ensures -|s| <= i < 0 ==> r == Some(s[|s| + i])
  {
    if 0 <= i < |s| then Some(s[i])
    else if -|s| <= i < 0 then Some(s[|s| + i])
    else None
  }

  function Max(a: int, b: int): int { if a < b then b else a }

  function Min(a: int, b: int): int { if a < b then a else b }

  /** Python's `math.floor` on an exact real. */
  function Floor(v: real): (f: int)
    ensures f as real <= v < f as real + 1.0
  {
    v.Floor
  }

  /** Python's `math.ceil` on an exact real. */
  function Ceil(v: real): (c: int)
    ensures c as real - 1.0 < v <= c as real
  {
    -((-v).Floor)
  }

  /** Squaring preserves the order of non-negative reals. */
  lemma SquareMonotone(a: real, b: real)
    requires 0.0 <= a <= b
    ensures a * a <= b * b
  {
    assert a * a <= a * b;
  }

  lemma SquareStrictlyMonotone(a: real, b: real)
    requires 0.0 <= a < b
    ensures a * a < b * b
  {
    calc {
      a * a;
    <=
      a * b;
    <  { assert (b - a) * b > 0.0; }
      b * b;
    }
  }
}
