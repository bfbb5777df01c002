/** Counting one bits a word at a time. */
module Popcount {
  import opened BitNat
  import opened BitString

  // ---- fields of two, four and eight bits ----------------------------------------------------------

  function Pop2(x: nat): nat { x % 2 + x / 2 % 2 }
  function Pop4(x: nat): nat { Pop2(x % 4) + Pop2(x / 4 % 4) }
  function Pop8(x: nat): nat { Pop4(x % 16) + Pop4(x / 16 % 16) }

  /** The counts of the 2-bit fields of a word, each in its own field; and so on for 4 and 8 bits. */
  function Fields2(w: nat, n: nat): nat
    decreases n
  {
    if n == 0 then 0 else Pop2(w % 4) + 4 * Fields2(w / 4, n - 1)
  }

  function Fields4(w: nat, n: nat): nat
    decreases n
  {
    if n == 0 then 0 else Pop4(w % 16) + 16 * Fields4(w / 16, n - 1)
  }

  function Fields8(w: nat, n: nat): nat
    decreases n
  {
    if n == 0 then 0 else Pop8(w % 256) + 256 * Fields8(w / 256, n - 1)
  }

  /** The masks 0x55..., 0x33... and 0x0F... with `n` fields. */
  function Mask1(n: nat): nat { if n == 0 then 0 else 1 + 4 * Mask1(n - 1) }
  function Mask3(n: nat): nat { if n == 0 then 0 else 3 + 16 * Mask3(n - 1) }
  function Mask15(n: nat): nat { if n == 0 then 0 else 15 + 256 * Mask15(n - 1) }

  lemma MaskValues()
    ensures Mask1(16) == 0x55555555 && Mask3(8) == 0x33333333 && Mask15(4) == 0x0F0F0F0F
  {
    assert Mask1(4) == 0x55;
    assert Mask1(8) == 0x5555;
    assert Mask1(12) == 0x555555;
    assert Mask3(4) == 0x3333;
  }

  lemma AndOne(x: nat, m: nat)
    ensures Bitwise(And, x, 1 + 4 * m) == x % 2 + 4 * Bitwise(And, x / 4, m)
  {
    hide Bitwise;
    BitwiseStep(And, x, 1 + 4 * m);
    assert (1 + 4 * m) / 2 == 2 * m && (1 + 4 * m) % 2 == 1;
    BitwiseStep(And, x / 2, 2 * m);
    assert (2 * m) / 2 == m && (2 * m) % 2 == 0;
    assert x / 2 / 2 == x / 4;
  }

  lemma PairArith(w: nat, a: nat)
    ensures w - (w / 2 % 2 + 4 * a) == Pop2(w % 4) + 4 * (w / 4 - a)
  {
  }

  /** `w - ((w >> 1) & 0x55...)` */
  lemma {:induction false} FoldPairs(w: nat, n: nat)
    ensures w < Pow2(2 * n) ==> w - Bitwise(And, w / 2, Mask1(n)) == Fields2(w, n)
    decreases n
  {
    hide Bitwise, Pop2;
    if n == 0 {
      AndWithZero(w / 2);
    } else if w < Pow2(2 * n) {
      var m := Mask1(n - 1);
      assert Pow2(2 * n) == 4 * Pow2(2 * n - 2);
      FoldPairs(w / 4, n - 1);
      AndOne(w / 2, m);
      assert w / 2 / 4 == w / 4 / 2;
      PairArith(w, Bitwise(And, w / 4 / 2, m));
    }
  }

  lemma AndThree(y: nat)
    requires y < 16
    ensures Bitwise(And, y, 3) == y % 4
  {
    BitwiseStep(And, y, 3);
    BitwiseStep(And, y / 2, 1);
    AndWithZero(y / 4);
    assert y / 2 / 2 == y / 4;
  }

  /** The low field of a masked word, and the rest. */
  lemma AndField4(y: nat, x: nat, m: nat)
    requires y < 16
    ensures Bitwise(And, y + 16 * x, 3 + 16 * m) == y % 4 + 16 * Bitwise(And, x, m)
  {
    hide Bitwise;
    Pow2Values();
    OpSplit(And, y, 3, x, m, 4);
    AndThree(y);
  }

  lemma Pop4Is(w: nat)
    ensures Pop4(w % 16) == Pop2(w % 4) + Pop2(w / 4 % 4)
  {
    hide Pop2;
    var q, r := w / 16, w % 16;
    assert w == 16 * q + r;
    assert w / 4 == 4 * q + r / 4;
    assert w % 4 == r % 4;
  }

  lemma TwoFields2(w: nat, n: nat)
    requires n > 0
    ensures Fields2(w, 2 * n) == (Pop2(w % 4) + 4 * Pop2(w / 4 % 4)) + 16 * Fields2(w / 16, 2 * n - 2)
  {
    assert w / 4 / 4 == w / 16;
    assert Fields2(w, 2 * n) == Pop2(w % 4) + 4 * Fields2(w / 4, 2 * n - 1);
  }

  lemma QuarterArith(d0: nat, d1: nat, x: nat)
    requires d0 <= 2 && d1 <= 2
    ensures ((d0 + 4 * d1) + 16 * x) / 4 == (d1 + 4 * (x % 4)) + 16 * (x / 4)
    ensures (d0 + 4 * d1) % 4 == d0 && (d1 + 4 * (x % 4)) % 4 == d1 && d1 + 4 * (x % 4) < 16
  {
    assert x == 4 * (x / 4) + x % 4;
  }

  /** `(x & 0x33...) + ((x >> 2) & 0x33...)` */
  lemma {:induction false} FoldNibbles(w: nat, n: nat)
    ensures Bitwise(And, Fields2(w, 2 * n), Mask3(n)) + Bitwise(And, Fields2(w, 2 * n) / 4, Mask3(n)) == Fields4(w, n)
    decreases n
  {
    hide Bitwise, Pop2, Fields2, Pop4;
    if n == 0 {
      AndWithZero(Fields2(w, 0));
      AndWithZero(Fields2(w, 0) / 4);
    } else {
      var d0, d1, x, m := Pop2(w % 4), Pop2(w / 4 % 4), Fields2(w / 16, 2 * n - 2), Mask3(n - 1);
      Pop2Small(w % 4);
      Pop2Small(w / 4 % 4);
      TwoFields2(w, n);
      FoldNibbles(w / 16, n - 1);
      AndField4(d0 + 4 * d1, x, m);
      QuarterArith(d0, d1, x);
      AndField4(d1 + 4 * (x % 4), x / 4, m);
      Pop4Is(w);
    }
  }

  lemma Pop2Small(x: nat)
    ensures Pop2(x) <= 2
  {
  }

  lemma Pop4Small(x: nat)
    ensures Pop4(x) <= 4
  {
  }

  lemma AndFifteen(y: nat)
    requires y < 256
    ensures Bitwise(And, y, 15) == y % 16
  {
    hide Bitwise;
    BitwiseStep(And, y, 15);
    BitwiseStep(And, y / 2, 7);
    BitwiseStep(And, y / 4, 3);
    BitwiseStep(And, y / 8, 1);
    AndWithZero(y / 16);
    assert y / 2 / 2 == y / 4 && y / 4 / 2 == y / 8 && y / 8 / 2 == y / 16;
  }

  lemma AndField8(y: nat, x: nat, m: nat)
    requires y < 256
    ensures Bitwise(And, y + 256 * x, 15 + 256 * m) == y % 16 + 256 * Bitwise(And, x, m)
  {
    hide Bitwise;
    Pow2Values();
    OpSplit(And, y, 15, x, m, 8);
    AndFifteen(y);
  }

  lemma Pop8Is(w: nat)
    ensures Pop8(w % 256) == Pop4(w % 16) + Pop4(w / 16 % 16)
  {
    hide Pop4;
    var q, r := w / 256, w % 256;
    assert w == 256 * q + r;
    assert w / 16 == 16 * q + r / 16;
    assert w % 16 == r % 16;
  }

  lemma TwoFields4(w: nat, n: nat)
    requires n > 0
    ensures Fields4(w, 2 * n) == (Pop4(w % 16) + 16 * Pop4(w / 16 % 16)) + 256 * Fields4(w / 256, 2 * n - 2)
  {
    hide Pop4;
    assert w / 16 / 16 == w / 256;
    assert Fields4(w, 2 * n) == Pop4(w % 16) + 16 * Fields4(w / 16, 2 * n - 1);
  }

  lemma LowField4(w: nat, n: nat)
    ensures Fields4(w, n) % 16 <= 4
  {
    hide Pop4;
    Pop4Small(w % 16);
    if n > 0 {
      var p, x := Pop4(w % 16), Fields4(w / 16, n - 1);
      assert (p + 16 * x) % 16 == p;
    }
  }

  /** No carry leaves a byte of `y + (y >> 4)`. */
  lemma NoCarry(e0: nat, e1: nat, x: nat)
    requires e0 <= 4 && e1 <= 4 && x % 16 <= 4
    ensures var y := (e0 + 16 * e1) + 256 * x;
            y + y / 16 == (e0 + e1 + 16 * (e1 + x % 16)) + 256 * (x + x / 16)
    ensures (e0 + e1 + 16 * (e1 + x % 16)) % 16 == e0 + e1 && e0 + e1 + 16 * (e1 + x % 16) < 256
  {
    var y := (e0 + 16 * e1) + 256 * x;
    assert y / 16 == e1 + 16 * x;
  }

  /** `(y + (y >> 4)) & 0x0F...` */
  lemma {:induction false} FoldBytes(w: nat, n: nat)
    ensures Bitwise(And, Fields4(w, 2 * n) + Fields4(w, 2 * n) / 16, Mask15(n)) == Fields8(w, n)
    decreases n
  {
    hide Bitwise, Pop4, Fields4, Pop8;
    if n == 0 {
      AndWithZero(Fields4(w, 0) + Fields4(w, 0) / 16);
    } else {
      var e0, e1, x, m := Pop4(w % 16), Pop4(w / 16 % 16), Fields4(w / 256, 2 * n - 2), Mask15(n - 1);
      Pop4Small(w % 16);
      Pop4Small(w / 16 % 16);
      TwoFields4(w, n);
      LowField4(w / 256, 2 * n - 2);
      FoldBytes(w / 256, n - 1);
      NoCarry(e0, e1, x);
      AndField8(e0 + e1 + 16 * (e1 + x % 16), x + x / 16, m);
      Pop8Is(w);
    }
  }

  // ---- the table of single bytes -----------------------------------------------------------------------

  function Row0(low: nat): nat {
    if low == 0 then 0 else if low == 1 then 1 else if low == 2 then 1 else if low == 3 then 2
    else if low == 4 then 1 else if low == 5 then 2 else if low == 6 then 2 else if low == 7 then 3
    else if low == 8 then 1 else if low == 9 then 2 else if low == 10 then 2 else if low == 11 then 3
    else if low == 12 then 2 else if low == 13 then 3 else if low == 14 then 3 else 4
  }

  function Row1(low: nat): nat {
    if low == 0 then 1 else if low == 1 then 2 else if low == 2 then 2 else if low == 3 then 3
    else if low == 4 then 2 else if low == 5 then 3 else if low == 6 then 3 else if low == 7 then 4
    else if low == 8 then 2 else if low == 9 then 3 else if low == 10 then 3 else if low == 11 then 4
    else if low == 12 then 3 else if low == 13 then 4 else if low == 14 then 4 else 5
  }

  function Row2(low: nat): nat {
    if low == 0 then 2 else if low == 1 then 3 else if low == 2 then 3 else if low == 3 then 4
    else if low == 4 then 3 else if low == 5 then 4 else if low == 6 then 4 else if low == 7 then 5
    else if low == 8 then 3 else if low == 9 then 4 else if low == 10 then 4 else if low == 11 then 5
    else if low == 12 then 4 else if low == 13 then 5 else if low == 14 then 5 else 6
  }

  function Row3(low: nat): nat {
    if low == 0 then 3 else if low == 1 then 4 else if low == 2 then 4 else if low == 3 then 5
    else if low == 4 then 4 else if low == 5 then 5 else if low == 6 then 5 else if low == 7 then 6
    else if low == 8 then 4 else if low == 9 then 5 else if low == 10 then 5 else if low == 11 then 6
    else if low == 12 then 5 else if low == 13 then 6 else if low == 14 then 6 else 7
  }

  function Row4(low: nat): nat {
    if low == 0 then 4 else if low == 1 then 5 else if low == 2 then 5 else if low == 3 then 6
    else if low == 4 then 5 else if low == 5 then 6 else if low == 6 then 6 else if low == 7 then 7
    else if low == 8 then 5 else if low == 9 then 6 else if low == 10 then 6 else if low == 11 then 7
    else if low == 12 then 6 else if low == 13 then 7 else if low == 14 then 7 else 8
  }

  /** `bitsinbyte`: its sixteen rows of sixteen entries are of five kinds. */
  function BitsInByte(b: Byte): nat {
    var high, low := b / 16, b % 16;
    if high == 0 then Row0(low)
    else if high == 1 || high == 2 || high == 4 || high == 8 then Row1(low)
    else if high == 3 || high == 5 || high == 6 || high == 9 || high == 10 || high == 12 then Row2(low)
    else if high == 7 || high == 11 || high == 13 || high == 14 then Row3(low)
    else Row4(low)
  }

  lemma NibbleValues(low: nat)
    requires low < 16
    ensures Pop4(low) == if low == 0 then 0 else if low in {1, 2, 4, 8} then 1
                         else if low in {3, 5, 6, 9, 10, 12} then 2 else if low == 15 then 4 else 3
  {
    hide Pop2;
    PairValues();
    var high, rest := low / 4, low % 4;
    assert low == 4 * high + rest && high < 4;
    assert Pop4(low) == Pop2(rest) + Pop2(high);
  }

  lemma PairValues()
    ensures Pop2(0) == 0 && Pop2(1) == 1 && Pop2(2) == 1 && Pop2(3) == 2
  {
  }

  lemma RowsAre(low: nat)
    requires low < 16
    ensures Row0(low) == Pop4(low) && Row1(low) == 1 + Pop4(low) && Row2(low) == 2 + Pop4(low)
    ensures Row3(low) == 3 + Pop4(low) && Row4(low) == 4 + Pop4(low)
  {
    hide Pop4;
    NibbleValues(low);
  }

  lemma TableIs(b: Byte)
    ensures BitsInByte(b) == Pop8(b)
  {
    hide Pop4, Row0, Row1, Row2, Row3, Row4;
    RowsAre(b % 16);
    NibbleValues(b / 16);
    assert b / 16 % 16 == b / 16;
  }

  lemma PopByteIs(b: Byte)
    ensures PopByte(b) == Pop8(b)
  {
    hide Bit, Pop8;
    var s: Str := [b];
    assert Ones(s, 0, 0) == 0;
    assert Ones(s, 0, 1) == Digit(Bit(b, 7));
    assert Ones(s, 0, 2) == Ones(s, 0, 1) + Digit(Bit(b, 6));
    assert Ones(s, 0, 3) == Ones(s, 0, 2) + Digit(Bit(b, 5));
    assert Ones(s, 0, 4) == Ones(s, 0, 3) + Digit(Bit(b, 4));
    assert Ones(s, 0, 5) == Ones(s, 0, 4) + Digit(Bit(b, 3));
    assert Ones(s, 0, 6) == Ones(s, 0, 5) + Digit(Bit(b, 2));
    assert Ones(s, 0, 7) == Ones(s, 0, 6) + Digit(Bit(b, 1));
    assert Ones(s, 0, 8) == Ones(s, 0, 7) + Digit(Bit(b, 0));
    Pop8Digits(b);
  }

  lemma PairBits(r: nat)
    requires r < 4
    ensures Pop2(r) == Digit(Bit(r, 0)) + Digit(Bit(r, 1))
  {
    assert Bit(r, 1) == (r / 2 % 2 == 1);
  }

  lemma PairOfNibble(q: nat, r: nat)
    requires r < 4
    ensures var x := 4 * q + r;
            Bit(x, 0) == Bit(r, 0) && Bit(x, 1) == Bit(r, 1) && Bit(x, 2) == Bit(q, 0) && Bit(x, 3) == Bit(q, 1)
  {
    hide Bit;
    var x := 4 * q + r;
    assert x / 2 == 2 * q + r / 2;
    assert x / 2 / 2 == q;
    FourBits(x);
    FourBits(r);
    FourBits(q);
  }

  lemma NibbleBits(x: nat)
    requires x < 16
    ensures Pop4(x) == Digit(Bit(x, 0)) + Digit(Bit(x, 1)) + Digit(Bit(x, 2)) + Digit(Bit(x, 3))
  {
    hide Bit, Pop2;
    var q, r := x / 4, x % 4;
    PairOfNibble(q, r);
    PairBits(r);
    PairBits(q);
    assert q % 4 == q;
  }

  lemma FourBits(x: nat)
    ensures Bit(x, 0) == (x % 2 == 1) && Bit(x, 1) == (x / 2 % 2 == 1)
    ensures Bit(x, 2) == (x / 2 / 2 % 2 == 1) && Bit(x, 3) == (x / 2 / 2 / 2 % 2 == 1)
  {
    assert Bit(x, 2) == Bit(x / 2, 1) && Bit(x, 3) == Bit(x / 2, 2) && Bit(x / 2, 2) == Bit(x / 2 / 2, 1);
  }

  lemma LowNibbleBits(q: nat, r: nat)
    requires r < 16
    ensures var b := 16 * q + r;
            Bit(b, 0) == Bit(r, 0) && Bit(b, 1) == Bit(r, 1) && Bit(b, 2) == Bit(r, 2) && Bit(b, 3) == Bit(r, 3)
  {
    hide Bit;
    var b := 16 * q + r;
    assert b / 2 == 8 * q + r / 2;
    assert b / 2 / 2 == 4 * q + r / 2 / 2;
    assert b / 2 / 2 / 2 == 2 * q + r / 2 / 2 / 2;
    FourBits(b);
    FourBits(r);
  }

  lemma HighNibbleBit(b: nat, i: nat)
    ensures Bit(b, 4 + i) == Bit(b / 16, i)
  {
    assert Bit(b, 4 + i) == Bit(b / 2, 3 + i) && Bit(b / 2, 3 + i) == Bit(b / 2 / 2, 2 + i);
    assert Bit(b / 2 / 2, 2 + i) == Bit(b / 2 / 2 / 2, 1 + i) && Bit(b / 2 / 2 / 2, 1 + i) == Bit(b / 2 / 2 / 2 / 2, i);
    assert b / 2 / 2 / 2 / 2 == b / 16;
  }

  lemma Pop8Digits(b: Byte)
    ensures Pop8(b) == Digit(Bit(b, 0)) + Digit(Bit(b, 1)) + Digit(Bit(b, 2)) + Digit(Bit(b, 3))
                       + Digit(Bit(b, 4)) + Digit(Bit(b, 5)) + Digit(Bit(b, 6)) + Digit(Bit(b, 7))
  {
    hide Bit, Pop4;
    var q, r := b / 16, b % 16;
    NibbleBits(r);
    NibbleBits(q);
    LowNibbleBits(q, r);
    HighNibbleBit(b, 0);
    HighNibbleBit(b, 1);
    HighNibbleBit(b, 2);
    HighNibbleBit(b, 3);
    assert q % 16 == q;
  }

  // ---- seven words at a time -----------------------------------------------------------------------------

  /** Unsigned 32-bit arithmetic. */
  function Wrap32(x: int): nat { x % 0x1_0000_0000 }

  /** The two lines that leave in every 4-bit field of a word its number of one bits. */
  function CountNibbles(aux: nat): nat {
    var a := Wrap32(aux - Bitwise(And, aux / 2, 0x55555555));
    Wrap32(Bitwise(And, a, 0x33333333) + Bitwise(And, a / 4, 0x33333333))
  }

  /** The same for every byte. */
  function CountBytes(aux: nat): nat {
    Bitwise(And, Wrap32(aux + aux / 16), 0x0F0F0F0F)
  }

  /** The bytes of a word added up in its top byte. */
  function AddBytes(x: nat): nat { Wrap32(x * 0x01010101) / 0x100_0000 }

  lemma {:induction false} Fields4Bound(w: nat, n: nat)
    ensures 3 * Fields4(w, n) < Pow2(4 * n)
    decreases n
  {
    hide Pop4;
    if n > 0 {
      Pop4Small(w % 16);
      Fields4Bound(w / 16, n - 1);
      assert Pow2(4 * n) == 4 * Pow2(4 * n - 2);
    }
  }

  lemma Pow2Of32()
    ensures Pow2(32) == 0x1_0000_0000
  {
    assert Pow2(8) == 256;
    assert Pow2(16) == 65536;
    assert Pow2(24) == 0x100_0000;
  }

  lemma WordNibbles(w: nat)
    requires w < 0x1_0000_0000
    ensures CountNibbles(w) == Fields4(w, 8) && 3 * Fields4(w, 8) < 0x1_0000_0000
  {
    hide Bitwise, Fields2, Fields4, Pow2, Wrap32;
    MaskValues();
    Pow2Of32();
    FoldPairs(w, 16);
    FoldNibbles(w, 8);
    Fields4Bound(w, 8);
    Fits32(w - Bitwise(And, w / 2, 0x55555555));
    Fits32(Fields4(w, 8));
  }

  lemma Fits32(x: int)
    requires 0 <= x < 0x1_0000_0000
    ensures Wrap32(x) == x
  {
  }

  lemma WordBytes(w: nat)
    requires w < 0x1_0000_0000
    ensures CountBytes(CountNibbles(w)) == Fields8(w, 4)
  {
    hide Bitwise, Fields4, Fields8, CountNibbles;
    MaskValues();
    WordNibbles(w);
    FoldBytes(w, 4);
  }

  function FromBytes(b0: nat, b1: nat, b2: nat, b3: nat): nat {
    b0 + 256 * b1 + 0x1_0000 * b2 + 0x100_0000 * b3
  }

  /** The little-endian word at `p`. */
  function Word(s: Str, p: nat): nat
    requires p + 4 <= |s|
  {
    FromBytes(s[p], s[p + 1], s[p + 2], s[p + 3])
  }

  lemma WordOf(b0: Byte, b1: Byte, b2: Byte, b3: Byte)
    ensures var w := FromBytes(b0, b1, b2, b3);
            w < 0x1_0000_0000 && Fields8(w, 4) == FromBytes(Pop8(b0), Pop8(b1), Pop8(b2), Pop8(b3))
  {
    hide Pop8, Fields8;
    var c0: nat, c1: nat, c2: nat, c3: nat := b0, b1, b2, b3;
    var w1: nat, w2: nat := c1 + 256 * c2 + 0x1_0000 * c3, c2 + 256 * c3;
    LowByte(b0, w1, 4);
    LowByte(b1, w2, 3);
    LowByte(b2, c3, 2);
    LowByte(b3, 0, 1);
    NoFields();
  }

  lemma LowByte(b: Byte, rest: nat, n: nat)
    requires n > 0
    ensures Fields8(b + 256 * rest, n) == Pop8(b) + 256 * Fields8(rest, n - 1)
  {
    hide Pop8;
    assert (b + 256 * rest) % 256 == b && (b + 256 * rest) / 256 == rest;
  }

  lemma NoFields()
    ensures Fields8(0, 0) == 0
  {
  }

  /** 7 * 8 * 4 = 224 still fits a byte, so nothing is lost when the bytes are added up. */
  lemma AddBytesIs(s0: nat, s1: nat, s2: nat, s3: nat)
    requires s0 <= 56 && s1 <= 56 && s2 <= 56 && s3 <= 56
    ensures AddBytes(FromBytes(s0, s1, s2, s3)) == s0 + s1 + s2 + s3
  {
    var x := s0 + 256 * s1 + 0x1_0000 * s2 + 0x100_0000 * s3;
    var low := s0 + 256 * (s0 + s1) + 0x1_0000 * (s0 + s1 + s2);
    var high := s1 + s2 + s3 + 256 * (s2 + s3) + 0x1_0000 * s3;
    assert x * 0x01010101 == 0x1_0000_0000 * high + 0x100_0000 * (s0 + s1 + s2 + s3) + low;
    assert low < 0x100_0000 && Wrap32(x * 0x01010101) == 0x100_0000 * (s0 + s1 + s2 + s3) + low;
  }

  lemma Pop8Small(b: Byte)
    ensures Pop8(b) <= 8
  {
    hide Pop4;
    Pop4Small(b % 16);
    Pop4Small(b / 16 % 16);
  }

  lemma OnesWord(s: Str, p: nat)
    requires p + 4 <= |s|
    ensures Ones(s, 8 * p, 8 * p + 32) == Pop8(s[p]) + Pop8(s[p + 1]) + Pop8(s[p + 2]) + Pop8(s[p + 3])
  {
    hide Ones, Pop8, PopByte;
    OnesByte(s, p);
    OnesByte(s, p + 1);
    OnesByte(s, p + 2);
    OnesByte(s, p + 3);
    PopByteIs(s[p]);
    PopByteIs(s[p + 1]);
    PopByteIs(s[p + 2]);
    PopByteIs(s[p + 3]);
    OnesSplit(s, 8 * p, 8 * p + 8, 8 * p + 16);
    OnesSplit(s, 8 * p, 8 * p + 16, 8 * p + 24);
    OnesSplit(s, 8 * p, 8 * p + 24, 8 * p + 32);
  }

  /** A word's counts byte by byte, and their sum. */
  lemma WordSum(s: Str, p: nat) returns (s0: nat, s1: nat, s2: nat, s3: nat)
    requires p + 4 <= |s|
    ensures CountBytes(CountNibbles(Word(s, p))) == FromBytes(s0, s1, s2, s3)
    ensures s0 <= 8 && s1 <= 8 && s2 <= 8 && s3 <= 8 && s0 + s1 + s2 + s3 == Ones(s, 8 * p, 8 * p + 32)
  {
    hide CountBytes, CountNibbles, Ones, Fields8, Pop8;
    s0, s1, s2, s3 := Pop8(s[p]), Pop8(s[p + 1]), Pop8(s[p + 2]), Pop8(s[p + 3]);
    WordOf(s[p], s[p + 1], s[p + 2], s[p + 3]);
    WordBytes(Word(s, p));
    OnesWord(s, p);
    Pop8Small(s[p]);
    Pop8Small(s[p + 1]);
    Pop8Small(s[p + 2]);
    Pop8Small(s[p + 3]);
  }

  /** The sum of the byte counts of `n` consecutive words. */
  function WordSums(s: Str, p: nat, n: nat): nat
    requires p + 4 * n <= |s|
  {
    if n == 0 then 0 else Wrap32(WordSums(s, p, n - 1) + CountBytes(CountNibbles(Word(s, p + 4 * (n - 1)))))
  }

  lemma NothingYet(s: Str, p: nat)
    requires p <= |s|
    ensures Ones(s, 8 * p, 8 * p) == 0 && FromBytes(0, 0, 0, 0) == 0
  {
  }

  lemma FromBytesAdd(s0: nat, s1: nat, s2: nat, s3: nat, t0: nat, t1: nat, t2: nat, t3: nat)
    requires s0 + t0 <= 56 && s1 + t1 <= 56 && s2 + t2 <= 56 && s3 + t3 <= 56
    ensures Wrap32(FromBytes(s0, s1, s2, s3) + FromBytes(t0, t1, t2, t3)) == FromBytes(s0 + t0, s1 + t1, s2 + t2, s3 + t3)
  {
  }

  lemma {:induction false} WordSumsAre(s: Str, p: nat, n: nat) returns (s0: nat, s1: nat, s2: nat, s3: nat)
    requires p + 4 * n <= |s| && n <= 7
    ensures WordSums(s, p, n) == FromBytes(s0, s1, s2, s3)
    ensures s0 <= 8 * n && s1 <= 8 * n && s2 <= 8 * n && s3 <= 8 * n && s0 + s1 + s2 + s3 == Ones(s, 8 * p, 8 * (p + 4 * n))
  {
    hide CountBytes, CountNibbles, Word, Ones, FromBytes;
    if n == 0 {
      s0, s1, s2, s3 := 0, 0, 0, 0;
      NothingYet(s, p);
    } else {
      var q := p + 4 * (n - 1);
      s0, s1, s2, s3 := WordSumsAre(s, p, n - 1);
      var t0, t1, t2, t3 := WordSum(s, q);
      OnesSplit(s, 8 * p, 8 * q, 8 * q + 32);
      FromBytesAdd(s0, s1, s2, s3, t0, t1, t2, t3);
      s0, s1, s2, s3 := s0 + t0, s1 + t1, s2 + t2, s3 + t3;
    }
  }

  lemma StepIs(s: Str, p: nat)
    requires p + 28 <= |s|
    ensures AddBytes(WordSums(s, p, 7)) == Ones(s, 8 * p, 8 * (p + 28))
  {
    hide AddBytes, WordSums, Ones;
    var s0, s1, s2, s3 := WordSumsAre(s, p, 7);
    AddBytesIs(s0, s1, s2, s3);
  }

  /** `redisPopcount` of a string that starts at address `addr`. */
  method RedisPopcount(s: Str, addr: nat) returns (bits: nat)
    ensures bits == Ones(s, 0, 8 * |s|)
  {
    hide Ones, BitsInByte, AddBytes, WordSums, Pop8, PopByte;
    bits := 0;
    var p: nat, count: nat := 0, |s|;
    NothingCounted(s);
    while (addr + p) % 4 != 0 && count != 0
      invariant p + count == |s| && bits == Ones(s, 0, 8 * p)
      decreases count
    {
      OneMore(s, p);
      bits := bits + BitsInByte(s[p]);
      p, count := p + 1, count - 1;
    }
    while count >= 28
      invariant p + count == |s| && bits == Ones(s, 0, 8 * p)
    {
      StepIs(s, p);
      OnesSplit(s, 0, 8 * p, 8 * (p + 28));
      bits := bits + AddBytes(WordSums(s, p, 7));
      p, count := p + 28, count - 28;
    }
    while count != 0
      invariant p + count == |s| && bits == Ones(s, 0, 8 * p)
    {
      OneMore(s, p);
      bits := bits + BitsInByte(s[p]);
      p, count := p + 1, count - 1;
    }
  }

  lemma NothingCounted(s: Str)
    ensures Ones(s, 0, 0) == 0
  {
  }

  lemma OneMore(s: Str, p: nat)
    requires p < |s|
    ensures Ones(s, 0, 8 * (p + 1)) == Ones(s, 0, 8 * p) + BitsInByte(s[p])
  {
    hide Ones, BitsInByte, Pop8, PopByte;
    OnesSplit(s, 0, 8 * p, 8 * p + 8);
    OnesByte(s, p);
    PopByteIs(s[p]);
    TableIs(s[p]);
  }
}
