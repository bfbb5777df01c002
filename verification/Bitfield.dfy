/** The integers of `BITFIELD`: any width up to 64 bits at any bit offset. */
module Bitfield {
  import opened Common
  import opened BitNat
  import opened BitString
  import opened Bitpos

  // ---- more about single bits ---------------------------------------------------------------------

  lemma {:induction false} Pow2Bit(m: nat, k: nat)
    ensures Bit(Pow2(m), k) == (k == m)
    decreases m
  {
    if m == 0 {
      if k > 0 { ZeroBits(k - 1); }
    } else {
      assert Pow2(m) / 2 == Pow2(m - 1) && Pow2(m) % 2 == 0;
      if k > 0 { Pow2Bit(m - 1, k - 1); }
    }
  }

  /** `(x >> m) & 1` */
  lemma ShiftedBit(x: nat, m: nat)
    ensures Bit(x, m) == (x / Pow2(m) % 2 == 1)
  {
    hide Pow2;
    DivMod(x, Pow2(m));
    LowHigh(x % Pow2(m), x / Pow2(m), m, m);
  }

  lemma DivMod(x: nat, p: nat)
    requires p > 0
    ensures x == x % p + p * (x / p) && x % p < p
  {
  }

  /** The low `n` bits of a number. */
  lemma ModBit(x: nat, n: nat, i: nat)
    requires i < n
    ensures x % Pow2(n) < Pow2(n) && Bit(x % Pow2(n), i) == Bit(x, i)
  {
    hide Bit, Pow2;
    DivMod(x, Pow2(n));
    LowHigh(x % Pow2(n), x / Pow2(n), n, i);
  }

  // ---- one bit of a string -------------------------------------------------------------------------

  /** `(byteval & ~(1 << bit)) | (bitval << bit)` */
  function PutBit(b: Byte, bit: nat, v: bool): Byte
    requires bit < 8
  {
    Pow2Values();
    MaskInByte(bit);
    Pow2Grows(bit, 7);
    OpBound(And, b, 255 - Pow2(bit), 8);
    OpBound(Or, Bitwise(And, b, 255 - Pow2(bit)), Digit(v) * Pow2(bit), 8);
    Bitwise(Or, Bitwise(And, b, 255 - Pow2(bit)), Digit(v) * Pow2(bit))
  }

  lemma PutBitIs(b: Byte, bit: nat, v: bool, k: nat)
    requires bit < 8 && k < 8
    ensures Bit(PutBit(b, bit, v), k) == if k == bit then v else Bit(b, k)
  {
    hide Bit, Bitwise;
    Pow2Values();
    Pow2Grows(bit, 7);
    var m := Pow2(bit);
    OpBit(And, b, 255 - m, k);
    ComplementBit(m, 8, k);
    Pow2Bit(bit, k);
    ZeroBits(k);
    OpBit(Or, Bitwise(And, b, 255 - m), Digit(v) * m, k);
    assert Digit(v) * m == if v then m else 0;
  }

  lemma PutStrBit(s: Str, off: nat, v: bool, i: nat)
    requires off < 8 * |s| && i < 8 * |s|
    ensures StrBit(s[off / 8 := PutBit(s[off / 8], 7 - off % 8, v)], i) == if i == off then v else StrBit(s, i)
  {
    hide Bit, PutBit;
    PutBitIs(s[off / 8], 7 - off % 8, v, 7 - i % 8);
  }

  // ---- setting and getting ----------------------------------------------------------------------------

  /** The bits `offset ..` of a string spell the `bits` low bits of a number, the highest first. */
  ghost predicate Holds(s: Str, offset: nat, bits: nat, value: nat) {
    offset + bits <= 8 * |s| && forall k :: 0 <= k < bits ==> TopBit(value, bits, k) == StrBit(s, offset + k)
  }

  /** A field of eight bits on a byte boundary is that byte: fields are read from the most significant bit on. */
  lemma ByteField(s: Str, k: nat)
    requires k < |s|
    ensures Holds(s, 8 * k, 8, s[k])
  {
    forall j | 0 <= j < 8 ensures TopBit(s[k], 8, j) == StrBit(s, 8 * k + j) {
      assert (8 * k + j) / 8 == k && (8 * k + j) % 8 == j;
    }
  }

  /** All bits outside of the field are the same. */
  ghost predicate SameOutside(s: Str, t: Str, offset: nat, bits: nat) {
    |s| == |t| && forall i :: 0 <= i < 8 * |s| && !(offset <= i < offset + bits) ==> StrBit(s, i) == StrBit(t, i)
  }

  /** `setUnsignedBitfield` */
  method SetUnsignedBitfield(p: array<Byte>, offset: nat, bits: nat, value: nat)
    requires offset + bits <= 8 * p.Length
    modifies p
    ensures Holds(p[..], offset, bits, value) && SameOutside(old(p[..]), p[..], offset, bits)
  {
    hide Bit, Bitwise, StrBit, PutBit;
    for j := 0 to bits
      invariant forall k :: 0 <= k < j ==> TopBit(value, bits, k) == StrBit(p[..], offset + k)
      invariant SameOutside(old(p[..]), p[..], offset, j)
    {
      OneBit(bits - 1 - j, value);
      var bitval := Bitwise(And, Pow2(bits - 1 - j), value) != 0;
      ghost var was: Str := p[..];
      var byte, bit := (offset + j) / 8, 7 - (offset + j) % 8;
      p[byte] := PutBit(p[byte], bit, bitval);
      forall i | 0 <= i < 8 * p.Length ensures StrBit(p[..], i) == if i == offset + j then bitval else StrBit(was, i) {
        PutStrBit(was, offset + j, bitval, i);
        assert p[..] == was[byte := PutBit(was[byte], bit, bitval)];
      }
    }
  }

  /** `(value << 1) | bitval` */
  lemma PushBit(value: nat, v: bool)
    ensures Bitwise(Or, 2 * value, Digit(v)) == 2 * value + Digit(v)
  {
    hide Bitwise;
    assert Pow2(1) == 2;
    OpSplit(Or, 0, Digit(v), value, 0, 1);
    OrZero(Digit(v));
    OrZero(value);
  }

  lemma HoldsMore(s: Str, offset: nat, j: nat, value: nat, v: bool)
    requires Holds(s, offset, j, value) && value < Pow2(j) && offset + j < 8 * |s| && v == StrBit(s, offset + j)
    ensures Holds(s, offset, j + 1, 2 * value + Digit(v)) && 2 * value + Digit(v) < Pow2(j + 1)
  {
    hide StrBit;
    var w, n := 2 * value + Digit(v), j + 1;
    forall k | 0 <= k < n ensures TopBit(w, n, k) == StrBit(s, offset + k) {
      assert w / 2 == value && w % 2 == Digit(v);
      if k < j { assert TopBit(value, j, k) == StrBit(s, offset + k); }
    }
  }

  /** `getUnsignedBitfield` */
  method GetUnsignedBitfield(p: Str, offset: nat, bits: nat) returns (value: nat)
    requires offset + bits <= 8 * |p| && bits <= 64
    ensures Holds(p, offset, bits, value) && value < Pow2(bits)
  {
    hide Bit, Bitwise, Holds;
    value := 0;
    NothingHeld(p, offset);
    for j := 0 to bits
      invariant Holds(p, offset, j, value) && value < Pow2(j)
    {
      var byte, bit := (offset + j) / 8, 7 - (offset + j) % 8;
      ShiftedBit(p[byte], bit);
      var bitval := p[byte] / Pow2(bit) % 2 == 1;
      HoldsMore(p, offset, j, value, bitval);
      PushBit(value, bitval);
      value := Bitwise(Or, 2 * value, Digit(bitval));
    }
  }

  lemma NothingHeld(s: Str, offset: nat)
    requires offset <= 8 * |s|
    ensures Holds(s, offset, 0, 0)
  {
  }

  /** The field determines the number: what was set is what is read, modulo `2^bits`. */
  lemma FieldIs(s: Str, offset: nat, bits: nat, value: nat, got: nat)
    requires Holds(s, offset, bits, value) && Holds(s, offset, bits, got) && got < Pow2(bits)
    ensures got == value % Pow2(bits)
  {
    hide Bit, StrBit, Pow2;
    DivMod(value, Pow2(bits));
    forall i | 0 <= i < bits ensures Bit(got, i) == Bit(value % Pow2(bits), i) {
      ModBit(value, bits, i);
      var k := bits - 1 - i;
      assert TopBit(value, bits, k) == StrBit(s, offset + k) && TopBit(got, bits, k) == StrBit(s, offset + k);
    }
    SameBits(got, value % Pow2(bits), bits);
  }

  // ---- 64-bit integers ------------------------------------------------------------------------------------

  const TWO63: int := 0x8000_0000_0000_0000
  const TWO64: int := 0x1_0000_0000_0000_0000

  /** The conversion of any integer to `int64_t`. */
  function ToInt64(x: int): int { (x + TWO63) % TWO64 - TWO63 }

  predicate IsInt64(x: int) { -TWO63 <= x < TWO63 }

  lemma Pow2Of64()
    ensures Pow2(63) == TWO63 && Pow2(64) == TWO64
  {
    assert Pow2(8) == 256;
    assert Pow2(16) == 0x1_0000;
    assert Pow2(24) == 0x100_0000;
    assert Pow2(32) == 0x1_0000_0000;
    assert Pow2(40) == 0x100_0000_0000;
    assert Pow2(48) == 0x1_0000_0000_0000;
    assert Pow2(56) == 0x100_0000_0000_0000;
  }

  lemma {:induction false} Pow2Add(a: nat, b: nat)
    ensures Pow2(a + b) == Pow2(a) * Pow2(b)
    decreases b
  {
    if b == 0 {
      assert Pow2(a) * 1 == Pow2(a);
    } else {
      Pow2Add(a, b - 1);
      Double(Pow2(b - 1), Pow2(a));
    }
  }

  /** Reducing modulo a multiple first changes nothing. */
  lemma ModMultiple(x: int, p: nat, q: nat)
    requires p > 0 && q > 0 && p * q > 0
    ensures x % (p * q) % p == x % p
  {
    var m := p * q;
    var k, r := x / m, x % m;
    assert x == m * k + r;
    assert m * k == p * (q * k);
    var a, t := r / p, r % p;
    assert r == p * a + t;
    assert x == p * (q * k + a) + t;
    ModIs(x, p, q * k + a, t);
  }

  /** The value of `bits` bits read as two's complement. */
  function Signed(u: nat, bits: nat): int
    requires bits > 0
  {
    if u >= Pow2(bits - 1) then u - Pow2(bits) else u
  }

  /** An integer wrapped into `bits` bits of two's complement. */
  function WrapSigned(v: int, bits: nat): int
    requires bits > 0
  {
    Signed(v % Pow2(bits), bits)
  }

  function MaxSigned(bits: nat): int
    requires bits > 0
  {
    Pow2(bits - 1) - 1
  }

  function MinSigned(bits: nat): int
    requires bits > 0
  {
    0 - Pow2(bits - 1)
  }

  predicate FitsSigned(v: int, bits: nat)
    requires bits > 0
  {
    MinSigned(bits) <= v <= MaxSigned(bits)
  }

  /** Wrapping gives the one value of the range that is congruent modulo `2^bits`. */
  lemma WrapIs(v: int, bits: nat)
    requires bits > 0
    ensures FitsSigned(WrapSigned(v, bits), bits) && WrapSigned(v, bits) % Pow2(bits) == v % Pow2(bits)
  {
    hide Pow2;
    var p := Pow2(bits);
    Pow2Twice(bits);
    var u := v % p;
    if u >= Pow2(bits - 1) { ModIs(u - p, p, -1, u); } else { ModIs(u, p, 0, u); }
  }

  lemma Pow2Twice(bits: nat)
    requires bits > 0
    ensures Pow2(bits) == 2 * Pow2(bits - 1)
  {
  }

  lemma WrapNone(v: int, bits: nat)
    requires bits > 0 && FitsSigned(v, bits)
    ensures WrapSigned(v, bits) == v
  {
    hide Pow2;
    var p := Pow2(bits);
    Pow2Twice(bits);
    if v >= 0 { ModIs(v, p, 0, v); } else { ModIs(v, p, -1, v + p); }
  }

  // ---- signed fields -----------------------------------------------------------------------------------------

  /** And-ing the low bits. */
  lemma LowMask(c: nat, bits: nat)
    ensures Bitwise(And, c, Pow2(bits) - 1) == c % Pow2(bits)
  {
    hide Bitwise, Pow2;
    var p := Pow2(bits);
    DivMod(c, p);
    OpSplit(And, c % p, p - 1, c / p, 0, bits);
    AndOnes(c % p, bits);
    AndWithZero(c / p);
  }

  lemma QuotientBound(c: nat, p: nat, h: nat)
    requires p > 0 && c < p * h
    ensures c / p < h
  {
    DivMod(c, p);
    if c / p >= h { Larger(p, c / p, h); }
  }

  lemma Larger(p: nat, a: nat, b: nat)
    requires a >= b
    ensures p * a >= p * b
  {
    assert p * (a - b) >= 0;
  }

  lemma OrTop(x: nat, y: nat, bits: nat, n: nat, m: nat, c: nat, high: nat)
    requires x < Pow2(bits) && y < Pow2(n) && m == Pow2(n) - 1 && c == x + Pow2(bits) * y && high == Pow2(bits) * m
    ensures Bitwise(Or, c, high) == x + high
  {
    hide Bitwise, Pow2;
    OpSplit(Or, x, 0, y, m, bits);
    OrZero(x);
    OrOnes(y, n);
  }

  lemma TopOfWord(bits: nat)
    requires bits <= 64
    ensures Pow2(bits) * Pow2(64 - bits) == TWO64 && Pow2(bits) <= TWO64
    ensures Pow2(bits) * (Pow2(64 - bits) - 1) == TWO64 - Pow2(bits)
  {
    hide Pow2;
    Pow2Of64();
    Pow2Add(bits, 64 - bits);
    Larger(Pow2(bits), Pow2(64 - bits), 1);
  }

  lemma TopMask(bits: nat)
    requires bits <= 64
    ensures Pow2(bits) <= TWO64 && Pow2(64 - bits) >= 1 && Pow2(bits) * (Pow2(64 - bits) - 1) == TWO64 - Pow2(bits)
  {
    hide Pow2;
    TopOfWord(bits);
  }

  lemma WordQuotient(c: nat, bits: nat)
    requires bits <= 64 && c < TWO64
    ensures c == c % Pow2(bits) + Pow2(bits) * (c / Pow2(bits)) && c % Pow2(bits) < Pow2(bits) && c / Pow2(bits) < Pow2(64 - bits)
  {
    hide Pow2;
    TopOfWord(bits);
    DivMod(c, Pow2(bits));
    QuotientBound(c, Pow2(bits), Pow2(64 - bits));
  }

  /** Or-ing the mask of the high bits. */
  lemma HighMask(c: nat, bits: nat)
    requires bits <= 64 && c < TWO64
    ensures Pow2(bits) <= TWO64 && Bitwise(Or, c, TWO64 - Pow2(bits)) == c % Pow2(bits) + (TWO64 - Pow2(bits))
  {
    hide Bitwise, Pow2;
    TopMask(bits);
    WordQuotient(c, bits);
    var p := Pow2(bits);
    OrTop(c % p, c / p, bits, 64 - bits, Pow2(64 - bits) - 1, c, TWO64 - p);
  }

  lemma {:induction false} TopSet(v: nat, bits: nat)
    requires bits > 0 && v < Pow2(bits)
    ensures Bit(v, bits - 1) <==> v >= Pow2(bits - 1)
    decreases bits
  {
    if bits > 1 { TopSet(v / 2, bits - 1); }
  }

  /** The conversion of a `uint64_t` to `int64_t`. */
  function AsInt64(v: nat): int { if v >= TWO63 then v - TWO64 else v }

  /** Sign extension by the mask is two's complement. */
  lemma Extended(u: nat, bits: nat)
    requires 0 < bits <= 64 && u < Pow2(bits)
    ensures u < TWO64 && Pow2(bits) <= TWO64
    ensures bits < 64 && u >= Pow2(bits - 1) ==> AsInt64(Bitwise(Or, u, TWO64 - Pow2(bits))) == Signed(u, bits)
    ensures bits == 64 || u < Pow2(bits - 1) ==> AsInt64(u) == Signed(u, bits)
  {
    hide Bitwise, Pow2;
    Pow2Of64();
    Pow2Grows(bits, 64);
    Pow2Twice(bits);
    if bits < 64 {
      Pow2Grows(bits - 1, 62);
      Pow2Twice(63);
      HighMask(u, bits);
      ModIs(u, Pow2(bits), 0, u);
    }
  }

  lemma SignedHeld(s: Str, offset: nat, bits: nat, u: nat)
    requires 0 < bits <= 64 && Holds(s, offset, bits, u) && u < Pow2(bits)
    ensures Holds(s, offset, bits, Signed(u, bits) % TWO64) && FitsSigned(Signed(u, bits), bits)
  {
    hide StrBit, Bit, Pow2;
    var v := Signed(u, bits) % TWO64;
    TopOfWord(bits);
    Pow2Twice(bits);
    ModMultiple(Signed(u, bits), Pow2(bits), Pow2(64 - bits));
    if u >= Pow2(bits - 1) { ModIs(u - Pow2(bits), Pow2(bits), -1, u); } else { ModIs(u, Pow2(bits), 0, u); }
    forall k | 0 <= k < bits ensures TopBit(v, bits, k) == StrBit(s, offset + k) {
      ModBit(v, bits, bits - 1 - k);
      assert TopBit(u, bits, k) == StrBit(s, offset + k);
    }
  }

  /** `getSignedBitfield`: the integer of the range whose two's complement stands in the field. */
  method GetSignedBitfield(p: Str, offset: nat, bits: nat) returns (value: int)
    requires offset + bits <= 8 * |p| && 0 < bits <= 64
    ensures Holds(p, offset, bits, value % TWO64) && FitsSigned(value, bits)
  {
    hide Bit, Bitwise, Holds, Pow2;
    var v := GetUnsignedBitfield(p, offset, bits);
    SignedHeld(p, offset, bits, v);
    OneBit(bits - 1, v);
    TopSet(v, bits);
    Extended(v, bits);
    if bits < 64 && Bitwise(And, Pow2(bits - 1), v) != 0 {
      v := Bitwise(Or, v, TWO64 - Pow2(bits));
    }
    value := AsInt64(v);
  }

  /** `setSignedBitfield` */
  method SetSignedBitfield(p: array<Byte>, offset: nat, bits: nat, value: int)
    requires offset + bits <= 8 * p.Length && 0 < bits <= 64
    modifies p
    ensures Holds(p[..], offset, bits, value % TWO64) && SameOutside(old(p[..]), p[..], offset, bits)
  {
    SetUnsignedBitfield(p, offset, bits, value % TWO64);
  }

  lemma HoldsMod(s: Str, offset: nat, bits: nat, v: nat)
    requires Holds(s, offset, bits, v)
    ensures Holds(s, offset, bits, v % Pow2(bits))
  {
    hide StrBit, Bit, Pow2;
    forall k | 0 <= k < bits ensures TopBit(v % Pow2(bits), bits, k) == StrBit(s, offset + k) {
      ModBit(v, bits, bits - 1 - k);
      assert TopBit(v, bits, k) == StrBit(s, offset + k);
    }
  }

  /** Reading a field back after setting it: the value in two's complement of the width. */
  lemma SetThenGet(s: Str, offset: nat, bits: nat, value: int, got: int)
    requires 0 < bits <= 64 && Holds(s, offset, bits, value % TWO64)
    requires Holds(s, offset, bits, got % TWO64) && FitsSigned(got, bits)
    ensures got == WrapSigned(value, bits) && (FitsSigned(value, bits) ==> got == value)
  {
    hide Holds, Pow2, Signed, FitsSigned;
    var p, u := Pow2(bits), got % TWO64 % Pow2(bits);
    HoldsMod(s, offset, bits, got % TWO64);
    DivMod(got % TWO64, p);
    FieldIs(s, offset, bits, value % TWO64, u);
    TopOfWord(bits);
    ModMultiple(value, p, Pow2(64 - bits));
    ModMultiple(got, p, Pow2(64 - bits));
    WrapNone(got, bits);
    if FitsSigned(value, bits) { WrapNone(value, bits); }
  }
}
