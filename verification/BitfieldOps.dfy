/** The subcommands of `BITFIELD`: overflow detection, `SET`, `INCRBY` and `GET`. */
module BitfieldOps {
  import opened Common
  import opened BitNat
  import opened BitString
  import opened Bitpos
  import opened Bitfield

  datatype Policy = Wrap | Sat | Fail

  /** The return value of an overflow check, and `*limit` where it is set. */
  datatype Check = Check(overflow: int, limit: Option<int>)

  // ---- unsigned ---------------------------------------------------------------------------------------

  /** `(value + incr) & ~(-1 << bits)` in 64 bits. */
  function UnsignedWrap(value: nat, incr: int, bits: nat): int {
    Bitwise(And, (value + incr) % TWO64, Pow2(bits) - 1)
  }

  /** `checkUnsignedBitfieldOverflow` */
  function CheckUnsigned(value: nat, incr: int, bits: nat, ow: Policy): Check {
    var max := Pow2(bits) - 1;
    var maxincr, minincr := ToInt64(max - value), ToInt64(0 - value);
    if value > max || (incr > 0 && incr > maxincr) then
      Check(1, if ow.Wrap? then Some(UnsignedWrap(value, incr, bits)) else if ow.Sat? then Some(max) else None)
    else if incr < 0 && incr < minincr then
      if ow.Wrap? then Check(1, Some(UnsignedWrap(value, incr, bits))) else Check(-1, if ow.Sat? then Some(0) else None)
    else Check(0, None)
  }

  lemma UnsignedWrapIs(value: nat, incr: int, bits: nat)
    requires bits <= 64
    ensures UnsignedWrap(value, incr, bits) == (value + incr) % Pow2(bits)
  {
    hide Bitwise, Pow2;
    LowMask((value + incr) % TWO64, bits);
    TopOfWord(bits);
    ModMultiple(value + incr, Pow2(bits), Pow2(64 - bits));
  }

  lemma Pow2Below(bits: nat)
    requires bits < 64
    ensures Pow2(bits) <= TWO63
  {
    hide Pow2;
    Pow2Of64();
    Pow2Grows(bits, 63);
  }

  /** For a value that fits the field the check is exact, and each policy gives what it promises. */
  lemma UnsignedCheckIs(value: nat, incr: int, bits: nat, ow: Policy)
    requires 0 < bits < 64 && value < Pow2(bits) && IsInt64(incr)
    ensures var c, sum, max := CheckUnsigned(value, incr, bits, ow), value + incr, Pow2(bits) - 1;
            (c.overflow != 0 <==> !(0 <= sum <= max))
            && (c.overflow == -1 <==> sum < 0 && !ow.Wrap?)
            && (c.overflow == 1 <==> sum > max || (sum < 0 && ow.Wrap?))
            && (c.overflow == 0 || ow.Fail? ==> c.limit == None)
            && (c.overflow != 0 && ow.Wrap? ==> c.limit == Some(sum % Pow2(bits)))
            && (c.overflow != 0 && ow.Sat? ==> c.limit == Some(if sum < 0 then 0 else max))
  {
    hide Pow2, UnsignedWrap;
    Pow2Below(bits);
    UnsignedWrapIs(value, incr, bits);
  }

  // ---- signed -----------------------------------------------------------------------------------------

  /** The addition in unsigned arithmetic, with the sign bit spread over the bits above the field. */
  function SignedWrap(value: int, incr: int, bits: nat): int
    requires 0 < bits <= 64
  {
    var c := (value % TWO64 + incr % TWO64) % TWO64;
    if bits == 64 then AsInt64(c)
    else if Bitwise(And, Pow2(bits - 1), c) != 0 then
      HighMask(0, bits);
      AsInt64(Bitwise(Or, c, TWO64 - Pow2(bits)))
    else AsInt64(Bitwise(And, c, Pow2(bits) - 1))
  }

  /** `checkSignedBitfieldOverflow` */
  function CheckSigned(value: int, incr: int, bits: nat, ow: Policy): Check
    requires 0 < bits <= 64
  {
    var max, min := MaxSigned(bits), MinSigned(bits);
    var maxincr, minincr := ToInt64(max - value), ToInt64(min - value);
    if value > max || (bits != 64 && incr > maxincr) || (value >= 0 && incr > 0 && incr > maxincr) then
      Check(1, if ow.Wrap? then Some(SignedWrap(value, incr, bits)) else if ow.Sat? then Some(max) else None)
    else if value < min || (bits != 64 && incr < minincr) || (value < 0 && incr < 0 && incr < minincr) then
      if ow.Wrap? then Check(1, Some(SignedWrap(value, incr, bits))) else Check(-1, if ow.Sat? then Some(min) else None)
    else Check(0, None)
  }

  lemma SumMod(value: int, incr: int)
    ensures (value % TWO64 + incr % TWO64) % TWO64 == (value + incr) % TWO64
  {
    var a, b := value / TWO64, incr / TWO64;
    assert value == TWO64 * a + value % TWO64 && incr == TWO64 * b + incr % TWO64;
  }

  lemma SignedWrapIs(value: int, incr: int, bits: nat)
    requires 0 < bits <= 64
    ensures SignedWrap(value, incr, bits) == WrapSigned(value + incr, bits)
  {
    hide Bitwise, Pow2, Bit;
    SumMod(value, incr);
    var c := (value + incr) % TWO64;
    TopOfWord(bits);
    ModMultiple(value + incr, Pow2(bits), Pow2(64 - bits));
    Pow2Of64();
    var u := c % Pow2(bits);
    assert u == (value + incr) % Pow2(bits);
    Extended(u, bits);
    if bits < 64 {
      OneBit(bits - 1, c);
      ModBit(c, bits, bits - 1);
      TopSet(u, bits);
      HighMask(c, bits);
      HighMask(u, bits);
      ModIs(u, Pow2(bits), 0, u);
      LowMask(c, bits);
    } else {
      ModIs(c, Pow2(64), 0, c);
    }
  }

  function Nearest(v: int, bits: nat): int
    requires bits > 0
  {
    if v > MaxSigned(bits) then MaxSigned(bits) else if v < MinSigned(bits) then MinSigned(bits) else v
  }

  /** For a value that fits the field the check is exact, and each policy gives what it promises. */
  lemma SignedCheckIs(value: int, incr: int, bits: nat, ow: Policy)
    requires 0 < bits <= 64 && FitsSigned(value, bits) && IsInt64(incr)
    ensures var c, sum := CheckSigned(value, incr, bits, ow), value + incr;
            (c.overflow != 0 <==> !FitsSigned(sum, bits))
            && (c.overflow == -1 <==> sum < MinSigned(bits) && !ow.Wrap?)
            && (c.overflow == 1 <==> sum > MaxSigned(bits) || (sum < MinSigned(bits) && ow.Wrap?))
            && (c.overflow == 0 || ow.Fail? ==> c.limit == None)
            && (c.overflow != 0 && ow.Wrap? ==> c.limit == Some(WrapSigned(sum, bits)))
            && (c.overflow != 0 && ow.Sat? ==> c.limit == Some(Nearest(sum, bits)))
  {
    hide Pow2, SignedWrap, WrapSigned;
    Pow2Of64();
    Pow2Below(bits - 1);
    if bits < 64 { Pow2Below(bits); Pow2Twice(bits); }
    SignedWrapIs(value, incr, bits);
  }

  /** Counting down from the least value of an 8-bit field underflows; when wrapping, both checks return 1 all the same. */
  lemma UnderflowReturnsOne()
    ensures CheckUnsigned(0, -1, 8, Wrap) == Check(1, Some(255)) && CheckUnsigned(0, -1, 8, Sat) == Check(-1, Some(0))
    ensures CheckSigned(0 - 128, -1, 8, Wrap) == Check(1, Some(127)) && CheckSigned(0 - 128, -1, 8, Sat) == Check(-1, Some(0 - 128))
  {
    hide CheckUnsigned, CheckSigned;
    Pow2Values();
    UnsignedCheckIs(0, -1, 8, Wrap);
    UnsignedCheckIs(0, -1, 8, Sat);
    SignedCheckIs(0 - 128, -1, 8, Wrap);
    SignedCheckIs(0 - 128, -1, 8, Sat);
  }

  /**
   `SET` asks about a value that need not fit, with no increment. Overflow is detected exactly and
   wrapping is right. Saturation is right unless the distance from the value up to the maximum of
   the field leaves the range of `int64_t`: then a value far below the range is taken for one above.
   */
  lemma SignedSetCheckIs(value: int, bits: nat, ow: Policy)
    requires 0 < bits <= 64 && IsInt64(value)
    ensures var c := CheckSigned(value, 0, bits, ow);
            (c.overflow != 0 <==> !FitsSigned(value, bits))
            && (c.overflow != 0 && ow.Wrap? ==> c.limit == Some(WrapSigned(value, bits)))
            && (c.overflow != 0 && ow.Sat? ==> (c.limit == Some(Nearest(value, bits)) <==> value > MaxSigned(bits) - TWO63))
            && (c.overflow != 0 && ow.Sat? && value <= MaxSigned(bits) - TWO63 ==> c.limit == Some(MaxSigned(bits)))
  {
    hide Pow2, SignedWrap, WrapSigned;
    Pow2Of64();
    Pow2Below(bits - 1);
    if bits < 64 { Pow2Below(bits); Pow2Twice(bits); }
    SignedWrapIs(value, 0, bits);
    Positive(bits - 1);
  }

  lemma Positive(n: nat)
    ensures Pow2(n) >= 1
  {
  }

  /** The least 64-bit integer saturates an 8-bit field at its maximum. */
  lemma SaturatesTheWrongWay()
    ensures CheckSigned(0 - TWO63, 0, 8, Sat) == Check(1, Some(127)) && Nearest(0 - TWO63, 8) == 0 - 128
  {
    Pow2Values();
  }

  // ---- the operations on a string ---------------------------------------------------------------------------

  datatype Opcode = Set | Incrby

  /** The integer that an operation leaves in a field, and what it answers. */
  predicate SignedEffect(op: Opcode, i64: int, ow: Policy, bits: nat, before: int, after: int, reply: Option<int>)
    requires bits > 0
  {
    var v := if op.Incrby? then before + i64 else i64;
    if FitsSigned(v, bits) then after == v && reply == Some(if op.Incrby? then v else before)
    else match ow
      case Wrap => after == WrapSigned(v, bits) && reply == Some(if op.Incrby? then after else before)
      case Sat => after == (if op.Incrby? || v > MaxSigned(bits) - TWO63 then Nearest(v, bits) else MaxSigned(bits))
                  && reply == Some(if op.Incrby? then after else before)
      case Fail => after == before && reply == None
  }

  /** `SET` answers the old value, `INCRBY` the new one; a value that fits is stored as it is; there is no answer and no
      effect exactly when it does not fit and the policy is FAIL. */
  lemma SignedAnswer(op: Opcode, i64: int, ow: Policy, bits: nat, before: int, after: int, reply: Option<int>)
    requires bits > 0 && SignedEffect(op, i64, ow, bits, before, after, reply)
    ensures reply.Some? ==> reply.value == if op.Set? then before else after
    ensures var v := if op.Set? then i64 else before + i64;
            (FitsSigned(v, bits) ==> after == v)
            && (reply.None? <==> ow.Fail? && !FitsSigned(v, bits)) && (reply.None? ==> after == before)
  {
    hide FitsSigned, WrapSigned;
  }

  /** `SET` and `INCRBY` on a signed field. */
  method SignedOp(p: array<Byte>, offset: nat, bits: nat, op: Opcode, i64: int, ow: Policy)
    returns (reply: Option<int>, ghost before: int, ghost after: int)
    requires offset + bits <= 8 * p.Length && 0 < bits <= 64 && IsInt64(i64)
    modifies p
    ensures Holds(old(p[..]), offset, bits, before % TWO64) && FitsSigned(before, bits)
    ensures Holds(p[..], offset, bits, after % TWO64) && SameOutside(old(p[..]), p[..], offset, bits)
    ensures SignedEffect(op, i64, ow, bits, before, after, reply)
  {
    hide Holds, SameOutside, Pow2, WrapSigned, CheckSigned;
    var oldval := GetSignedBitfield(p[..], offset, bits);
    before, after := oldval, oldval;
    var newval, retval: int;
    var c: Check;
    if op.Incrby? {
      c := CheckSigned(oldval, i64, bits, ow);
      SignedCheckIs(oldval, i64, bits, ow);
      newval := if c.overflow != 0 && c.limit.Some? then c.limit.value else oldval + i64;
      retval := newval;
    } else {
      newval := i64;
      c := CheckSigned(newval, 0, bits, ow);
      SignedSetCheckIs(newval, bits, ow);
      if c.overflow != 0 && c.limit.Some? { newval := c.limit.value; }
      retval := oldval;
    }
    if !(c.overflow != 0 && ow.Fail?) {
      SetSignedBitfield(p, offset, bits, newval);
      after := newval;
      reply := Some(retval);
    } else {
      Unchanged(p[..], offset, bits);
      reply := None;
    }
  }

  lemma Unchanged(s: Str, offset: nat, bits: nat)
    ensures SameOutside(s, s, offset, bits)
  {
  }

  predicate UnsignedEffect(op: Opcode, i64: int, ow: Policy, bits: nat, before: nat, after: nat, reply: Option<int>) {
    var v := if op.Incrby? then before + i64 else i64 % TWO64;
    var max := Pow2(bits) - 1;
    if 0 <= v <= max then after == v && reply == Some(if op.Incrby? then v else before)
    else match ow
      case Wrap => after == v % Pow2(bits) && reply == Some(if op.Incrby? then after else before)
      case Sat => after == (if v < 0 then 0 else max) && reply == Some(if op.Incrby? then after else before)
      case Fail => after == before && reply == None
  }

  lemma UnsignedAnswer(op: Opcode, i64: int, ow: Policy, bits: nat, before: nat, after: nat, reply: Option<int>)
    requires 0 < bits < 64 && UnsignedEffect(op, i64, ow, bits, before, after, reply)
    ensures reply.Some? ==> reply.value == if op.Set? then before else after
    ensures op.Incrby? ==> (reply.None? <==> ow.Fail? && !(0 <= before + i64 < Pow2(bits))) && (reply.None? ==> after == before)
    ensures op.Incrby? && 0 <= before + i64 < Pow2(bits) ==> after == before + i64
    ensures op.Set? && 0 <= i64 < Pow2(bits) ==> after == i64 && reply.Some?
  {
    hide Pow2;
    Pow2Below(bits);
    if 0 <= i64 < Pow2(bits) { ModIs(i64, TWO64, 0, i64); }
  }

  /** `SET` and `INCRBY` on an unsigned field, which has 63 bits at most. */
  method UnsignedOp(p: array<Byte>, offset: nat, bits: nat, op: Opcode, i64: int, ow: Policy)
    returns (reply: Option<int>, ghost before: nat, ghost after: nat)
    requires offset + bits <= 8 * p.Length && 0 < bits < 64 && IsInt64(i64)
    modifies p
    ensures Holds(old(p[..]), offset, bits, before) && before < Pow2(bits)
    ensures Holds(p[..], offset, bits, after) && SameOutside(old(p[..]), p[..], offset, bits)
    ensures UnsignedEffect(op, i64, ow, bits, before, after, reply)
  {
    hide Holds, SameOutside, Pow2, CheckUnsigned;
    var oldval := GetUnsignedBitfield(p[..], offset, bits);
    before, after := oldval, oldval;
    Pow2Below(bits);
    var newval: nat, retval: nat;
    var c: Check;
    if op.Incrby? {
      newval := (oldval + i64) % TWO64;
      c := CheckUnsigned(oldval, i64, bits, ow);
      UnsignedCheckIs(oldval, i64, bits, ow);
      if c.overflow != 0 && c.limit.Some? { newval := c.limit.value; }
      retval := newval;
    } else {
      newval := i64 % TWO64;
      c := CheckUnsigned(newval, 0, bits, ow);
      UnsignedSetCheckIs(newval, bits, ow);
      if c.overflow != 0 && c.limit.Some? { newval := c.limit.value; }
      retval := oldval;
    }
    if !(c.overflow != 0 && ow.Fail?) {
      SetUnsignedBitfield(p, offset, bits, newval);
      after := newval;
      reply := Some(retval);
    } else {
      Unchanged(p[..], offset, bits);
      reply := None;
    }
  }

  lemma UnsignedSetCheckIs(value: nat, bits: nat, ow: Policy)
    requires 0 < bits < 64 && value < TWO64
    ensures var c, max := CheckUnsigned(value, 0, bits, ow), Pow2(bits) - 1;
            (c.overflow != 0 <==> value > max)
            && (c.overflow == 0 || ow.Fail? ==> c.limit == None)
            && (c.overflow != 0 && ow.Wrap? ==> c.limit == Some(value % Pow2(bits)))
            && (c.overflow != 0 && ow.Sat? ==> c.limit == Some(max))
  {
    hide Pow2, UnsignedWrap;
    UnsignedWrapIs(value, 0, bits);
  }

  // ---- GET ------------------------------------------------------------------------------------------------------

  /** The nine bytes from the one that holds the first bit on, zeros behind the end of the string. */
  method Window(src: Option<Str>, byte: nat) returns (buf: Str)
    ensures |buf| == 9 && forall i :: 0 <= i < 9 ==> buf[i] == if src.Some? && byte + i < |src.value| then src.value[byte + i] else 0
  {
    buf := [0, 0, 0, 0, 0, 0, 0, 0, 0];
    var i := 0;
    while i < 9
      invariant 0 <= i <= 9 && |buf| == 9
      invariant forall k :: 0 <= k < 9 ==> buf[k] == if k < i && src.Some? && byte + k < |src.value| then src.value[byte + k] else 0
    {
      if src.None? || i + byte >= |src.value| { break; }
      buf := buf[i := src.value[i + byte]];
      i := i + 1;
    }
  }

  function Value(src: Option<Str>): Str { if src.Some? then src.value else [] }

  lemma WindowBit(src: Option<Str>, offset: nat, buf: Str, k: nat)
    requires |buf| == 9 && k < 64
    requires forall i :: 0 <= i < 9 ==> buf[i] == if src.Some? && offset / 8 + i < |src.value| then src.value[offset / 8 + i] else 0
    ensures offset % 8 + k < 72 && StrBit(buf, offset % 8 + k) == Padded(Value(src), offset + k)
  {
    hide Bit;
    var i := offset % 8 + k;
    assert (offset + k) / 8 == offset / 8 + i / 8 && (offset + k) % 8 == i % 8;
    ZeroBits(7 - i % 8);
  }

  /** `GET`: the field of the string with zeros to its right, wherever the string ends. */
  method Get(src: Option<Str>, offset: nat, bits: nat, sign: bool) returns (reply: int)
    requires 0 < bits <= 64
    ensures if sign then FitsSigned(reply, bits) else 0 <= reply < Pow2(bits)
    ensures forall k :: 0 <= k < bits ==> TopBit(reply % TWO64, bits, k) == Padded(Value(src), offset + k)
  {
    hide StrBit, Pow2, TopBit, Padded;
    var byte := offset / 8;
    var buf := Window(src, byte);
    if sign {
      reply := GetSignedBitfield(buf, offset - byte * 8, bits);
    } else {
      reply := GetUnsignedBitfield(buf, offset - byte * 8, bits);
      Pow2Of64();
      Pow2Grows(bits, 64);
    }
    forall k | 0 <= k < bits ensures TopBit(reply % TWO64, bits, k) == Padded(Value(src), offset + k) {
      WindowBit(src, offset, buf, k);
      assert offset - byte * 8 + k == offset % 8 + k;
    }
  }
}
