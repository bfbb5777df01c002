/** The table-driven CRC-16 that maps keys to cluster slots (XMODEM: polynomial 0x1021, zero initial value). */
module Crc16 {
  type Bytes = seq<bv8>

  // ---- the table ------------------------------------------------------------------------------

  function Row0(low: bv8): bv16 {
    if low == 0 then 0x0000 else if low == 1 then 0x1021 else if low == 2 then 0x2042 else if low == 3 then 0x3063 else
    if low == 4 then 0x4084 else if low == 5 then 0x50a5 else if low == 6 then 0x60c6 else if low == 7 then 0x70e7 else
    if low == 8 then 0x8108 else if low == 9 then 0x9129 else if low == 10 then 0xa14a else if low == 11 then 0xb16b else
    if low == 12 then 0xc18c else if low == 13 then 0xd1ad else if low == 14 then 0xe1ce else 0xf1ef
  }

  function Row1(low: bv8): bv16 {
    if low == 0 then 0x1231 else if low == 1 then 0x0210 else if low == 2 then 0x3273 else if low == 3 then 0x2252 else
    if low == 4 then 0x52b5 else if low == 5 then 0x4294 else if low == 6 then 0x72f7 else if low == 7 then 0x62d6 else
    if low == 8 then 0x9339 else if low == 9 then 0x8318 else if low == 10 then 0xb37b else if low == 11 then 0xa35a else
    if low == 12 then 0xd3bd else if low == 13 then 0xc39c else if low == 14 then 0xf3ff else 0xe3de
  }

  function Row2(low: bv8): bv16 {
    if low == 0 then 0x2462 else if low == 1 then 0x3443 else if low == 2 then 0x0420 else if low == 3 then 0x1401 else
    if low == 4 then 0x64e6 else if low == 5 then 0x74c7 else if low == 6 then 0x44a4 else if low == 7 then 0x5485 else
    if low == 8 then 0xa56a else if low == 9 then 0xb54b else if low == 10 then 0x8528 else if low == 11 then 0x9509 else
    if low == 12 then 0xe5ee else if low == 13 then 0xf5cf else if low == 14 then 0xc5ac else 0xd58d
  }

  function Row3(low: bv8): bv16 {
    if low == 0 then 0x3653 else if low == 1 then 0x2672 else if low == 2 then 0x1611 else if low == 3 then 0x0630 else
    if low == 4 then 0x76d7 else if low == 5 then 0x66f6 else if low == 6 then 0x5695 else if low == 7 then 0x46b4 else
    if low == 8 then 0xb75b else if low == 9 then 0xa77a else if low == 10 then 0x9719 else if low == 11 then 0x8738 else
    if low == 12 then 0xf7df else if low == 13 then 0xe7fe else if low == 14 then 0xd79d else 0xc7bc
  }

  function Row4(low: bv8): bv16 {
    if low == 0 then 0x48c4 else if low == 1 then 0x58e5 else if low == 2 then 0x6886 else if low == 3 then 0x78a7 else
    if low == 4 then 0x0840 else if low == 5 then 0x1861 else if low == 6 then 0x2802 else if low == 7 then 0x3823 else
    if low == 8 then 0xc9cc else if low == 9 then 0xd9ed else if low == 10 then 0xe98e else if low == 11 then 0xf9af else
    if low == 12 then 0x8948 else if low == 13 then 0x9969 else if low == 14 then 0xa90a else 0xb92b
  }

  function Row5(low: bv8): bv16 {
    if low == 0 then 0x5af5 else if low == 1 then 0x4ad4 else if low == 2 then 0x7ab7 else if low == 3 then 0x6a96 else
    if low == 4 then 0x1a71 else if low == 5 then 0x0a50 else if low == 6 then 0x3a33 else if low == 7 then 0x2a12 else
    if low == 8 then 0xdbfd else if low == 9 then 0xcbdc else if low == 10 then 0xfbbf else if low == 11 then 0xeb9e else
    if low == 12 then 0x9b79 else if low == 13 then 0x8b58 else if low == 14 then 0xbb3b else 0xab1a
  }

  function Row6(low: bv8): bv16 {
    if low == 0 then 0x6ca6 else if low == 1 then 0x7c87 else if low == 2 then 0x4ce4 else if low == 3 then 0x5cc5 else
    if low == 4 then 0x2c22 else if low == 5 then 0x3c03 else if low == 6 then 0x0c60 else if low == 7 then 0x1c41 else
    if low == 8 then 0xedae else if low == 9 then 0xfd8f else if low == 10 then 0xcdec else if low == 11 then 0xddcd else
    if low == 12 then 0xad2a else if low == 13 then 0xbd0b else if low == 14 then 0x8d68 else 0x9d49
  }

  function Row7(low: bv8): bv16 {
    if low == 0 then 0x7e97 else if low == 1 then 0x6eb6 else if low == 2 then 0x5ed5 else if low == 3 then 0x4ef4 else
    if low == 4 then 0x3e13 else if low == 5 then 0x2e32 else if low == 6 then 0x1e51 else if low == 7 then 0x0e70 else
    if low == 8 then 0xff9f else if low == 9 then 0xefbe else if low == 10 then 0xdfdd else if low == 11 then 0xcffc else
    if low == 12 then 0xbf1b else if low == 13 then 0xaf3a else if low == 14 then 0x9f59 else 0x8f78
  }

  function Row8(low: bv8): bv16 {
    if low == 0 then 0x9188 else if low == 1 then 0x81a9 else if low == 2 then 0xb1ca else if low == 3 then 0xa1eb else
    if low == 4 then 0xd10c else if low == 5 then 0xc12d else if low == 6 then 0xf14e else if low == 7 then 0xe16f else
    if low == 8 then 0x1080 else if low == 9 then 0x00a1 else if low == 10 then 0x30c2 else if low == 11 then 0x20e3 else
    if low == 12 then 0x5004 else if low == 13 then 0x4025 else if low == 14 then 0x7046 else 0x6067
  }

  function Row9(low: bv8): bv16 {
    if low == 0 then 0x83b9 else if low == 1 then 0x9398 else if low == 2 then 0xa3fb else if low == 3 then 0xb3da else
    if low == 4 then 0xc33d else if low == 5 then 0xd31c else if low == 6 then 0xe37f else if low == 7 then 0xf35e else
    if low == 8 then 0x02b1 else if low == 9 then 0x1290 else if low == 10 then 0x22f3 else if low == 11 then 0x32d2 else
    if low == 12 then 0x4235 else if low == 13 then 0x5214 else if low == 14 then 0x6277 else 0x7256
  }

  function RowA(low: bv8): bv16 {
    if low == 0 then 0xb5ea else if low == 1 then 0xa5cb else if low == 2 then 0x95a8 else if low == 3 then 0x8589 else
    if low == 4 then 0xf56e else if low == 5 then 0xe54f else if low == 6 then 0xd52c else if low == 7 then 0xc50d else
    if low == 8 then 0x34e2 else if low == 9 then 0x24c3 else if low == 10 then 0x14a0 else if low == 11 then 0x0481 else
    if low == 12 then 0x7466 else if low == 13 then 0x6447 else if low == 14 then 0x5424 else 0x4405
  }

  function RowB(low: bv8): bv16 {
    if low == 0 then 0xa7db else if low == 1 then 0xb7fa else if low == 2 then 0x8799 else if low == 3 then 0x97b8 else
    if low == 4 then 0xe75f else if low == 5 then 0xf77e else if low == 6 then 0xc71d else if low == 7 then 0xd73c else
    if low == 8 then 0x26d3 else if low == 9 then 0x36f2 else if low == 10 then 0x0691 else if low == 11 then 0x16b0 else
    if low == 12 then 0x6657 else if low == 13 then 0x7676 else if low == 14 then 0x4615 else 0x5634
  }

  function RowC(low: bv8): bv16 {
    if low == 0 then 0xd94c else if low == 1 then 0xc96d else if low == 2 then 0xf90e else if low == 3 then 0xe92f else
    if low == 4 then 0x99c8 else if low == 5 then 0x89e9 else if low == 6 then 0xb98a else if low == 7 then 0xa9ab else
    if low == 8 then 0x5844 else if low == 9 then 0x4865 else if low == 10 then 0x7806 else if low == 11 then 0x6827 else
    if low == 12 then 0x18c0 else if low == 13 then 0x08e1 else if low == 14 then 0x3882 else 0x28a3
  }

  function RowD(low: bv8): bv16 {
    if low == 0 then 0xcb7d else if low == 1 then 0xdb5c else if low == 2 then 0xeb3f else if low == 3 then 0xfb1e else
    if low == 4 then 0x8bf9 else if low == 5 then 0x9bd8 else if low == 6 then 0xabbb else if low == 7 then 0xbb9a else
    if low == 8 then 0x4a75 else if low == 9 then 0x5a54 else if low == 10 then 0x6a37 else if low == 11 then 0x7a16 else
    if low == 12 then 0x0af1 else if low == 13 then 0x1ad0 else if low == 14 then 0x2ab3 else 0x3a92
  }

  function RowE(low: bv8): bv16 {
    if low == 0 then 0xfd2e else if low == 1 then 0xed0f else if low == 2 then 0xdd6c else if low == 3 then 0xcd4d else
    if low == 4 then 0xbdaa else if low == 5 then 0xad8b else if low == 6 then 0x9de8 else if low == 7 then 0x8dc9 else
    if low == 8 then 0x7c26 else if low == 9 then 0x6c07 else if low == 10 then 0x5c64 else if low == 11 then 0x4c45 else
    if low == 12 then 0x3ca2 else if low == 13 then 0x2c83 else if low == 14 then 0x1ce0 else 0x0cc1
  }

  function RowF(low: bv8): bv16 {
    if low == 0 then 0xef1f else if low == 1 then 0xff3e else if low == 2 then 0xcf5d else if low == 3 then 0xdf7c else
    if low == 4 then 0xaf9b else if low == 5 then 0xbfba else if low == 6 then 0x8fd9 else if low == 7 then 0x9ff8 else
    if low == 8 then 0x6e17 else if low == 9 then 0x7e36 else if low == 10 then 0x4e55 else if low == 11 then 0x5e74 else
    if low == 12 then 0x2e93 else if low == 13 then 0x3eb2 else if low == 14 then 0x0ed1 else 0x1ef0
  }

  /** `crc16tab`, row by row. */
  function Table(x: bv8): bv16 {
    var low := x & 0x0f;
    if x & 0xf0 == 0x00 then Row0(low) else
    if x & 0xf0 == 0x10 then Row1(low) else
    if x & 0xf0 == 0x20 then Row2(low) else
    if x & 0xf0 == 0x30 then Row3(low) else
    if x & 0xf0 == 0x40 then Row4(low) else
    if x & 0xf0 == 0x50 then Row5(low) else
    if x & 0xf0 == 0x60 then Row6(low) else
    if x & 0xf0 == 0x70 then Row7(low) else
    if x & 0xf0 == 0x80 then Row8(low) else
    if x & 0xf0 == 0x90 then Row9(low) else
    if x & 0xf0 == 0xA0 then RowA(low) else
    if x & 0xf0 == 0xB0 then RowB(low) else
    if x & 0xf0 == 0xC0 then RowC(low) else
    if x & 0xf0 == 0xD0 then RowD(low) else
    if x & 0xf0 == 0xE0 then RowE(low) else
    RowF(low)
  }

  /** The loop body of `crc16`. */
  function TableStep(crc: bv16, b: bv8): bv16 {
    (crc << 8) ^ Table((((crc >> 8) ^ (b as bv16)) & 0x00ff) as bv8)
  }

  // ---- the remainder, bit by bit -----------------------------------------------------------------

  /** Multiplication by x modulo x^16 + x^12 + x^5 + 1. */
  function Shift(w: bv16): bv16 {
    if w & 0x8000 != 0 then (w << 1) ^ 0x1021 else w << 1
  }

  function ShiftN(w: bv16, n: nat): bv16 {
    if n == 0 then w else Shift(ShiftN(w, n - 1))
  }

  /** Long division: each step brings down one bit and subtracts the divisor if it goes. */
  function Divide(w: bv16, bits: seq<bool>): bv16 {
    if bits == [] then w else Xor(Shift(Divide(w, bits[..|bits| - 1])), Low(bits[|bits| - 1]))
  }

  function Low(bit: bool): bv16 { if bit then 1 else 0 }

  /** The `n` lowest bits of a word, most significant first. */
  function BitsOf(v: bv16, n: nat): seq<bool>
    decreases n
  {
    if n == 0 then [] else BitsOf(v >> 1, n - 1) + [v & 1 != 0]
  }

  function AllBits(m: Bytes): seq<bool> {
    if m == [] then [] else AllBits(m[..|m| - 1]) + BitsOf(m[|m| - 1] as bv16, 8)
  }

  function Zeros(n: nat): seq<bool> { if n == 0 then [] else Zeros(n - 1) + [false] }

  /** The remainder of the message followed by 16 zero bits. */
  function Remainder(m: Bytes): bv16 {
    Divide(0, AllBits(m) + Zeros(16))
  }

  // ---- exclusive or ---------------------------------------------------------------------------------

  lemma ShlXor(x: bv16, y: bv16)
    ensures (x ^ y) << 1 == (x << 1) ^ (y << 1)
  {
  }

  lemma TopXor(x: bv16, y: bv16)
    ensures (x ^ y) & 0x8000 == (x & 0x8000) ^ (y & 0x8000)
  {
  }

  lemma TopBit(x: bv16)
    ensures x & 0x8000 == 0 || x & 0x8000 == 0x8000
  {
  }

  lemma Regroup(p: bv16, q: bv16, k: bv16)
    ensures (p ^ k) ^ q == (p ^ q) ^ k && p ^ (q ^ k) == (p ^ q) ^ k && (p ^ k) ^ (q ^ k) == p ^ q
  {
  }

  function Xor(x: bv16, y: bv16): bv16 { x ^ y }

  lemma ShiftLinear(x: bv16, y: bv16)
    ensures Shift(Xor(x, y)) == Xor(Shift(x), Shift(y))
  {
    hide Shift;
    ShiftXor(x, y);
  }

  lemma ShiftXor(x: bv16, y: bv16)
    ensures Shift(x ^ y) == Shift(x) ^ Shift(y)
  {
    ShlXor(x, y);
    TopXor(x, y);
    TopBit(x);
    TopBit(y);
    Regroup(x << 1, y << 1, 0x1021);
    var tx, ty, tz := x & 0x8000, y & 0x8000, (x ^ y) & 0x8000;
    if tx == 0 && ty == 0 {
      assert tz == 0;
    } else if tx == 0 || ty == 0 {
      assert tz == 0x8000;
    } else {
      assert tz == 0;
    }
  }

  lemma {:induction false} ShiftNLinear(x: bv16, y: bv16, n: nat)
    ensures ShiftN(Xor(x, y), n) == Xor(ShiftN(x, n), ShiftN(y, n))
  {
    hide Shift, Xor;
    if n > 0 {
      ShiftNLinear(x, y, n - 1);
      ShiftLinear(ShiftN(x, n - 1), ShiftN(y, n - 1));
    }
  }

  lemma {:induction false} ShiftNAdd(w: bv16, a: nat, b: nat)
    ensures ShiftN(ShiftN(w, a), b) == ShiftN(w, a + b)
  {
    hide Shift;
    if b > 0 { ShiftNAdd(w, a, b - 1); }
  }

  // ---- dividing a whole byte -------------------------------------------------------------------------

  lemma ShiftSmall(w: bv16)
    requires w & 0x8000 == 0
    ensures Shift(w) == w << 1
  {
  }

  lemma HalfIsSmall(v: bv16)
    ensures (v >> 1) & 0x8000 == 0
  {
  }

  lemma LowBit(v: bv16)
    ensures Xor((v >> 1) << 1, Low(v & 1 != 0)) == v
  {
    LowMask(v);
  }

  lemma LowMask(v: bv16)
    ensures v & 1 == 0 || v & 1 == 1
    ensures (v >> 1) << 1 == v & 0xfffe
    ensures (v & 0xfffe) ^ (v & 1) == v
  {
  }

  /** Bringing down one more bit of `v`. */
  lemma BringDown(s: bv16, v: bv16)
    ensures Xor(Shift(Xor(s, v >> 1)), Low(v & 1 != 0)) == Xor(Shift(s), v)
  {
    hide Shift, Xor, Low;
    var h := v >> 1;
    ShiftLinear(s, h);
    HalfIsSmall(v);
    ShiftSmall(h);
    LowBit(v);
    XorAssoc(Shift(s), Shift(h), Low(v & 1 != 0));
  }

  lemma XorAssoc(x: bv16, y: bv16, z: bv16)
    ensures Xor(Xor(x, y), z) == Xor(x, Xor(y, z))
  {
  }

  lemma DivideOne(w: bv16, bits: seq<bool>, bit: bool)
    ensures Divide(w, bits + [bit]) == Xor(Shift(Divide(w, bits)), Low(bit))
  {
    assert (bits + [bit])[..|bits|] == bits;
  }

  lemma {:induction false} DivideConcat(w: bv16, a: seq<bool>, b: seq<bool>)
    ensures Divide(w, a + b) == Divide(Divide(w, a), b)
  {
    hide Shift, Xor, Low;
    if b == [] {
      assert a + b == a;
    } else {
      var b', bit := b[..|b| - 1], b[|b| - 1];
      DivideConcat(w, a, b');
      assert a + b == (a + b') + [bit] && b == b' + [bit];
      DivideOne(w, a + b', bit);
    }
  }

  /** A word that has no more than `n` bits. */
  predicate Fits(v: bv16, n: nat)
    decreases n
  {
    if n == 0 then v == 0 else Fits(v >> 1, n - 1)
  }

  lemma {:induction false} DivideWord(w: bv16, v: bv16, n: nat)
    requires Fits(v, n)
    ensures Divide(w, BitsOf(v, n)) == Xor(ShiftN(w, n), v)
    decreases n
  {
    hide Shift, Xor, Low;
    if n == 0 {
      XorZero(w);
    } else {
      DivideWord(w, v >> 1, n - 1);
      DivideOne(w, BitsOf(v >> 1, n - 1), v & 1 != 0);
      BringDown(ShiftN(w, n - 1), v);
    }
  }

  lemma XorZero(w: bv16)
    ensures Xor(w, 0) == w
  {
  }

  lemma {:induction false} DivideZeros(w: bv16, n: nat)
    ensures Divide(w, Zeros(n)) == ShiftN(w, n)
  {
    hide Shift, Xor;
    if n > 0 {
      DivideZeros(w, n - 1);
      DivideOne(w, Zeros(n - 1), false);
      XorZero(ShiftN(w, n));
    }
  }

  lemma ByteFits(b: bv8)
    ensures Fits(b as bv16, 8)
  {
    var v := b as bv16;
    assert Fits(v >> 8, 0);
    assert Fits(v >> 7, 1);
    assert Fits(v >> 6, 2);
    assert Fits(v >> 5, 3);
    assert Fits(v >> 4, 4);
    assert Fits(v >> 3, 5);
    assert Fits(v >> 2, 6);
    assert Fits(v >> 1, 7);
  }

  lemma ByteUp(b: bv8)
    ensures ShiftN(b as bv16, 8) == Up(b)
  {
    hide Shift;
    var v := b as bv16;
    ShiftSmall(v);
    assert ShiftN(v, 1) == v << 1;
    ShiftSmall(v << 1);
    assert ShiftN(v, 2) == v << 2;
    ShiftSmall(v << 2);
    assert ShiftN(v, 3) == v << 3;
    ShiftSmall(v << 3);
    assert ShiftN(v, 4) == v << 4;
    ShiftSmall(v << 4);
    assert ShiftN(v, 5) == v << 5;
    ShiftSmall(v << 5);
    assert ShiftN(v, 6) == v << 6;
    ShiftSmall(v << 6);
    assert ShiftN(v, 7) == v << 7;
    ShiftSmall(v << 7);
  }

  // ---- the table is right ---------------------------------------------------------------------------

  function Shift8(w: bv16): bv16 {
    Shift(Shift(Shift(Shift(Shift(Shift(Shift(Shift(w))))))))
  }

  lemma Row0Is(low: bv8)
    requires low <= 0x0f
    ensures Row0(low) == Shift8((0x00 ^ low) as bv16 << 8)
  {
  }

  lemma Row1Is(low: bv8)
    requires low <= 0x0f
    ensures Row1(low) == Shift8((0x10 ^ low) as bv16 << 8)
  {
  }

  lemma Row2Is(low: bv8)
    requires low <= 0x0f
    ensures Row2(low) == Shift8((0x20 ^ low) as bv16 << 8)
  {
  }

  lemma Row3Is(low: bv8)
    requires low <= 0x0f
    ensures Row3(low) == Shift8((0x30 ^ low) as bv16 << 8)
  {
  }

  lemma Row4Is(low: bv8)
    requires low <= 0x0f
    ensures Row4(low) == Shift8((0x40 ^ low) as bv16 << 8)
  {
  }

  lemma Row5Is(low: bv8)
    requires low <= 0x0f
    ensures Row5(low) == Shift8((0x50 ^ low) as bv16 << 8)
  {
  }

  lemma Row6Is(low: bv8)
    requires low <= 0x0f
    ensures Row6(low) == Shift8((0x60 ^ low) as bv16 << 8)
  {
  }

  lemma Row7Is(low: bv8)
    requires low <= 0x0f
    ensures Row7(low) == Shift8((0x70 ^ low) as bv16 << 8)
  {
  }

  lemma Row8Is(low: bv8)
    requires low <= 0x0f
    ensures Row8(low) == Shift8((0x80 ^ low) as bv16 << 8)
  {
  }

  lemma Row9Is(low: bv8)
    requires low <= 0x0f
    ensures Row9(low) == Shift8((0x90 ^ low) as bv16 << 8)
  {
  }

  lemma RowAIs(low: bv8)
    requires low <= 0x0f
    ensures RowA(low) == Shift8((0xA0 ^ low) as bv16 << 8)
  {
  }

  lemma RowBIs(low: bv8)
    requires low <= 0x0f
    ensures RowB(low) == Shift8((0xB0 ^ low) as bv16 << 8)
  {
  }

  lemma RowCIs(low: bv8)
    requires low <= 0x0f
    ensures RowC(low) == Shift8((0xC0 ^ low) as bv16 << 8)
  {
  }

  lemma RowDIs(low: bv8)
    requires low <= 0x0f
    ensures RowD(low) == Shift8((0xD0 ^ low) as bv16 << 8)
  {
  }

  lemma RowEIs(low: bv8)
    requires low <= 0x0f
    ensures RowE(low) == Shift8((0xE0 ^ low) as bv16 << 8)
  {
  }

  lemma RowFIs(low: bv8)
    requires low <= 0x0f
    ensures RowF(low) == Shift8((0xF0 ^ low) as bv16 << 8)
  {
  }

  lemma TableIs(x: bv8)
    ensures Table(x) == Shift8(Up(x))
  {
    hide Shift8;
    var h, low := x & 0xf0, x & 0x0f;
    if h == 0x00 { Row0Is(low); }
    else if h == 0x10 { Row1Is(low); }
    else if h == 0x20 { Row2Is(low); }
    else if h == 0x30 { Row3Is(low); }
    else if h == 0x40 { Row4Is(low); }
    else if h == 0x50 { Row5Is(low); }
    else if h == 0x60 { Row6Is(low); }
    else if h == 0x70 { Row7Is(low); }
    else if h == 0x80 { Row8Is(low); }
    else if h == 0x90 { Row9Is(low); }
    else if h == 0xA0 { RowAIs(low); }
    else if h == 0xB0 { RowBIs(low); }
    else if h == 0xC0 { RowCIs(low); }
    else if h == 0xD0 { RowDIs(low); }
    else if h == 0xE0 { RowEIs(low); }
    else { RowFIs(low); }
  }

  lemma EightShifts(w: bv16)
    ensures ShiftN(w, 8) == Shift8(w)
  {
    hide Shift;
    assert ShiftN(w, 1) == Shift(w);
    assert ShiftN(w, 2) == Shift(Shift(w));
    assert ShiftN(w, 4) == Shift(Shift(ShiftN(w, 2)));
    assert ShiftN(w, 6) == Shift(Shift(ShiftN(w, 4)));
    assert ShiftN(w, 8) == Shift(Shift(ShiftN(w, 6)));
  }

  /** The table index. */
  function Index(c: bv16, b: bv8): bv8 { (((c >> 8) ^ (b as bv16)) & 0x00ff) as bv8 }

  function LowByte(c: bv16): bv8 { (c & 0x00ff) as bv8 }

  function Up(b: bv8): bv16 { b as bv16 << 8 }

  lemma HighMask(c: bv16, b: bv8)
    ensures Up(Index(c, b)) == (c ^ Up(b)) & 0xff00
    ensures LowByte(c) as bv16 == (c ^ Up(b)) & 0x00ff
  {
  }

  lemma Halves(y: bv16)
    ensures y == (y & 0x00ff) ^ (y & 0xff00)
  {
  }

  lemma HighByte(c: bv16, b: bv8)
    ensures Xor(c, Up(b)) == Xor(LowByte(c) as bv16, Up(Index(c, b)))
  {
    hide Up, Index, LowByte;
    HighMask(c, b);
    Halves(c ^ Up(b));
  }

  lemma StepIs(c: bv16, b: bv8)
    ensures TableStep(c, b) == Xor(Up(LowByte(c)), Table(Index(c, b)))
  {
    hide Table;
    assert Up(LowByte(c)) == c << 8;
  }

  /** One step of the loop is eight steps of the bit-serial register. */
  lemma TableStepIs(c: bv16, b: bv8)
    ensures TableStep(c, b) == ShiftN(Xor(c, Up(b)), 8)
  {
    hide Table, TableStep, Shift, ShiftN, Shift8, Xor, Up, Index, LowByte;
    StepIs(c, b);
    HighByte(c, b);
    TableIs(Index(c, b));
    EightShifts(Up(Index(c, b)));
    ShiftNLinear(LowByte(c) as bv16, Up(Index(c, b)), 8);
    ByteUp(LowByte(c));
  }

  // ---- the whole string ---------------------------------------------------------------------------------

  lemma RemainderIsShifted(m: Bytes)
    ensures Remainder(m) == ShiftN(Divide(0, AllBits(m)), 16)
  {
    hide Shift, Xor, Low;
    DivideConcat(0, AllBits(m), Zeros(16));
    DivideZeros(Divide(0, AllBits(m)), 16);
  }

  lemma {:induction false} ShiftZero(n: nat)
    ensures ShiftN(0, n) == 0
  {
    if n > 0 { ShiftZero(n - 1); }
  }

  lemma EmptyRemainder()
    ensures Remainder([]) == 0
  {
    hide Shift, Xor, Low;
    RemainderIsShifted([]);
    ShiftZero(16);
  }

  /** One more byte of message is one more step of the loop. */
  lemma RemainderStep(m: Bytes, b: bv8)
    ensures Remainder(m + [b]) == TableStep(Remainder(m), b)
  {
    hide Shift, Xor, Low, ShiftN, TableStep, Up, Remainder, Divide, BitsOf;
    var r, v := Divide(0, AllBits(m)), b as bv16;
    assert (m + [b])[..|m|] == m;
    assert AllBits(m + [b]) == AllBits(m) + BitsOf(v, 8);
    DivideConcat(0, AllBits(m), BitsOf(v, 8));
    ByteFits(b);
    DivideWord(r, v, 8);
    RemainderIsShifted(m);
    RemainderIsShifted(m + [b]);
    ShiftNLinear(ShiftN(r, 8), v, 16);
    ShiftNAdd(r, 8, 16);
    ShiftNAdd(r, 16, 8);
    ShiftNAdd(v, 8, 8);
    ByteUp(b);
    TableStepIs(Remainder(m), b);
    ShiftNLinear(Remainder(m), Up(b), 8);
  }

  /** `crc16` */
  method Crc(buf: Bytes) returns (crc: bv16)
    ensures crc == Remainder(buf)
  {
    hide TableStep, Remainder;
    crc := 0;
    EmptyRemainder();
    for counter := 0 to |buf|
      invariant crc == Remainder(buf[..counter])
    {
      assert buf[..counter + 1] == buf[..counter] + [buf[counter]];
      RemainderStep(buf[..counter], buf[counter]);
      crc := TableStep(crc, buf[counter]);
    }
    assert buf[..|buf|] == buf;
  }

  // ---- linearity -------------------------------------------------------------------------------------------

  function XorBytes(a: Bytes, b: Bytes): Bytes
    requires |a| == |b|
  {
    if a == [] then [] else XorBytes(a[..|a| - 1], b[..|b| - 1]) + [XorByte(a[|a| - 1], b[|b| - 1])]
  }

  function XorByte(a: bv8, b: bv8): bv8 { a ^ b }

  lemma UpXor(a: bv8, b: bv8)
    ensures Up(XorByte(a, b)) == Xor(Up(a), Up(b))
  {
  }

  lemma XorExchange(x: bv16, y: bv16, z: bv16, w: bv16)
    ensures Xor(Xor(x, y), Xor(z, w)) == Xor(Xor(x, z), Xor(y, w))
  {
    hide Xor;
    XorAssoc(x, y, Xor(z, w));
    XorAssoc(y, z, w);
    XorCommutes(y, z);
    XorAssoc(z, y, w);
    XorAssoc(x, z, Xor(y, w));
  }

  lemma XorCommutes(x: bv16, y: bv16)
    ensures Xor(x, y) == Xor(y, x)
  {
  }

  lemma TableStepLinear(c: bv16, d: bv16, a: bv8, b: bv8)
    ensures TableStep(Xor(c, d), XorByte(a, b)) == Xor(TableStep(c, a), TableStep(d, b))
  {
    hide Shift, Xor, XorByte, ShiftN, TableStep, Up;
    TableStepIs(Xor(c, d), XorByte(a, b));
    TableStepIs(c, a);
    TableStepIs(d, b);
    UpXor(a, b);
    XorExchange(c, d, Up(a), Up(b));
    ShiftNLinear(Xor(c, Up(a)), Xor(d, Up(b)), 8);
  }

  /** The checksum of the exclusive or of two strings of one length is the exclusive or of their checksums. */
  lemma {:induction false} Linear(a: Bytes, b: Bytes)
    requires |a| == |b|
    ensures Remainder(XorBytes(a, b)) == Xor(Remainder(a), Remainder(b))
  {
    hide TableStep, Remainder, Xor, XorByte;
    if a == [] {
      EmptyRemainder();
      XorZero(0);
    } else {
      var a', b', x, y := a[..|a| - 1], b[..|b| - 1], a[|a| - 1], b[|b| - 1];
      assert a == a' + [x] && b == b' + [y];
      Linear(a', b');
      RemainderStep(a', x);
      RemainderStep(b', y);
      RemainderStep(XorBytes(a', b'), XorByte(x, y));
      TableStepLinear(Remainder(a'), Remainder(b'), x, y);
    }
  }

  lemma FirstSteps()
    ensures TableStep(0x0000, 0x31) == 0x2672
    ensures TableStep(0x2672, 0x32) == 0x20b5
    ensures TableStep(0x20b5, 0x33) == 0x9752
  {
  }

  lemma MiddleSteps()
    ensures TableStep(0x9752, 0x34) == 0xd789
    ensures TableStep(0xd789, 0x35) == 0x546c
    ensures TableStep(0x546c, 0x36) == 0x20e4
  {
  }

  lemma LastSteps()
    ensures TableStep(0x20e4, 0x37) == 0x86d6
    ensures TableStep(0x86d6, 0x38) == 0x9015
    ensures TableStep(0x9015, 0x39) == 0x31c3
  {
  }

  /** The check value of CRC-16/XMODEM: "123456789" gives 31C3. */
  lemma CheckValue()
    ensures Remainder([0x31, 0x32, 0x33, 0x34, 0x35, 0x36, 0x37, 0x38, 0x39]) == 0x31c3
  {
    hide TableStep, Remainder;
    var m: Bytes := [0x31, 0x32, 0x33, 0x34, 0x35, 0x36, 0x37, 0x38, 0x39];
    assert m[..0] == [] && m[..9] == m;
    EmptyRemainder();
    FirstSteps();
    MiddleSteps();
    LastSteps();
    RemainderStep(m[..0], 0x31);
    assert m[..1] == m[..0] + [0x31];
    RemainderStep(m[..1], 0x32);
    assert m[..2] == m[..1] + [0x32];
    RemainderStep(m[..2], 0x33);
    assert m[..3] == m[..2] + [0x33];
    RemainderStep(m[..3], 0x34);
    assert m[..4] == m[..3] + [0x34];
    RemainderStep(m[..4], 0x35);
    assert m[..5] == m[..4] + [0x35];
    RemainderStep(m[..5], 0x36);
    assert m[..6] == m[..5] + [0x36];
    RemainderStep(m[..6], 0x37);
    assert m[..7] == m[..6] + [0x37];
    RemainderStep(m[..7], 0x38);
    assert m[..8] == m[..7] + [0x38];
    RemainderStep(m[..8], 0x39);
    assert m[..9] == m[..8] + [0x39];
  }
}
