/** Redis strings as bit arrays. */
module BitString {
  import opened BitNat

  type Byte = b: nat | b < 256
  type Str = seq<Byte>

  /** Bit `i` of a string: bit 0 is the most significant bit of the first byte. */
  predicate StrBit(s: Str, i: nat)
    requires i < 8 * |s|
  {
    Bit(s[i / 8], 7 - i % 8)
  }

  /** The first bit of a string is the most significant bit of its first byte, the last one the least significant bit of its last byte. */
  lemma BitOrder(s: Str)
    requires s != []
    ensures StrBit(s, 0) <==> s[0] >= 128
    ensures StrBit(s, 8 * |s| - 1) <==> s[|s| - 1] % 2 == 1
  {
    var last := 8 * |s| - 1;
    assert last / 8 == |s| - 1 && last % 8 == 7;
    HighBit(s[0]);
  }

  lemma HighBit(b: Byte)
    ensures Bit(b, 7) <==> b >= 128
  {
    assert Bit(b, 7) == Bit(b / 2 / 2 / 2 / 2, 3);
  }

  /** The number of one bits at `lo .. hi - 1`. */
  function Ones(s: Str, lo: nat, hi: nat): nat
    requires lo <= hi <= 8 * |s|
    decreases hi
  {
    if lo == hi then 0 else Ones(s, lo, hi - 1) + Digit(StrBit(s, hi - 1))
  }

  lemma {:induction false} OnesSplit(s: Str, a: nat, b: nat, c: nat)
    requires a <= b <= c <= 8 * |s|
    ensures Ones(s, a, c) == Ones(s, a, b) + Ones(s, b, c)
    decreases c
  {
    if b < c { OnesSplit(s, a, b, c - 1); }
  }

  /** Only the bits in the range matter. */
  lemma {:induction false} OnesSame(s: Str, t: Str, a: nat, b: nat, d: int)
    requires a <= b <= 8 * |s| && 0 <= a + d && b + d <= 8 * |t|
    requires forall i :: a <= i < b ==> StrBit(s, i) == StrBit(t, i + d)
    ensures Ones(s, a, b) == Ones(t, a + d, b + d)
    decreases b
  {
    if a < b {
      assert StrBit(s, b - 1) == StrBit(t, b - 1 + d);
      OnesSame(s, t, a, b - 1, d);
    }
  }

  function PopByte(b: Byte): nat { Ones([b], 0, 8) }

  lemma OnesByte(s: Str, k: nat)
    requires k < |s|
    ensures Ones(s, 8 * k, 8 * k + 8) == PopByte(s[k])
  {
    hide Ones, Bit;
    forall i | 8 * k <= i < 8 * k + 8 ensures StrBit(s, i) == StrBit([s[k]], i - 8 * k) {
      assert i / 8 == k && (i - 8 * k) / 8 == 0 && i % 8 == (i - 8 * k) % 8;
    }
    OnesSame(s, [s[k]], 8 * k, 8 * k + 8, -8 * k);
  }

  lemma {:induction false} OnesNone(s: Str, a: nat, b: nat)
    requires a <= b <= 8 * |s| && forall i :: a <= i < b ==> !StrBit(s, i)
    ensures Ones(s, a, b) == 0
    decreases b
  {
    if a < b {
      assert !StrBit(s, b - 1);
      OnesNone(s, a, b - 1);
    }
  }

  // ---- the edge bytes of a range of bits --------------------------------------------------------------

  /** `~((1 << (8 - s)) - 1) & 0xFF`: the bits of a byte before bit `s`. */
  function FirstMask(s: nat): (m: Byte)
    requires s < 8
  {
    MaskInByte(8 - s);
    255 - (Pow2(8 - s) - 1)
  }

  /** `(1 << (7 - e)) - 1`: the bits of a byte after bit `e`. */
  function LastMask(e: nat): (m: Byte)
    requires e < 8
  {
    MaskInByte(7 - e);
    Pow2(7 - e) - 1
  }

  lemma MaskInByte(k: nat)
    requires k <= 8
    ensures Pow2(k) <= 256
  {
    Pow2Values();
    Pow2Grows(k, 8);
  }

  lemma FirstMaskBit(s: nat, i: nat)
    requires s < 8 && i < 8
    ensures Bit(FirstMask(s), 7 - i) == (i < s)
  {
    Pow2Values();
    MaskInByte(8 - s);
    LowMaskBit(8 - s, 7 - i);
    ComplementBit(Pow2(8 - s) - 1, 8, 7 - i);
  }

  lemma LastMaskBit(e: nat, i: nat)
    requires e < 8 && i < 8
    ensures Bit(LastMask(e), 7 - i) == (i > e)
  {
    LowMaskBit(7 - e, 7 - i);
  }

  lemma MaskZero(s: nat, e: nat)
    requires s < 8 && e < 8
    ensures FirstMask(s) == 0 <==> s == 0
    ensures LastMask(e) == 0 <==> e == 7
  {
    Pow2Values();
    if s > 0 { Pow2Grows(8 - s, 7); }
    if e < 7 { Pow2Grows(1, 7 - e); }
  }

  // ---- range arguments ------------------------------------------------------------------------

  /** A range argument counts from the end when it is negative, and never before the first element. */
  function Resolve(x: int, totlen: nat): nat {
    if x >= 0 then x else if totlen + x < 0 then 0 else totlen + x
  }

  function Total(s: Str, isbit: bool): nat { if isbit then 8 * |s| else |s| }

  /** Index `-k` is the element with `k - 1` elements behind it, or the first one when there are fewer than `k`. */
  lemma NegativeIndex(k: nat, totlen: nat)
    requires 0 < k
    ensures k <= totlen ==> Resolve(0 - k, totlen) < totlen && totlen - 1 - Resolve(0 - k, totlen) == k - 1
    ensures k > totlen ==> Resolve(0 - k, totlen) == 0
  {
  }
}
