/** The `BITCOUNT` command: ranges of bytes and of bits. */
module Bitcount {
  import opened Common
  import opened BitNat
  import opened BitString
  import Popcount

  /** The optional arguments: a range of bytes or of bits. */
  datatype Range = Range(start: int, end: int, isbit: bool)

  /** The command answers 0 at once for two negative indexes in the wrong order. */
  predicate Backwards(r: Range) { r.start < 0 && r.end < 0 && r.start > r.end }

  /** Position `i` of the bit array lies between the two ends, both clamped to the string. */
  predicate Clamped(s: Str, r: Range, i: nat) {
    var unit := if r.isbit then i else i / 8;
    i < 8 * |s| && Resolve(r.start, Total(s, r.isbit)) <= unit <= Resolve(r.end, Total(s, r.isbit))
  }

  /** Position `i` is counted. */
  predicate Selected(s: Str, r: Range, i: nat) { !Backwards(r) && Clamped(s, r, i) }

  /** A range from an index to itself selects that element and no other. */
  lemma OneSelected(s: Str, k: nat, isbit: bool, i: nat)
    requires i < 8 * |s|
    ensures Selected(s, Range(k, k, isbit), i) <==> (if isbit then i else i / 8) == k
  {
  }

  /** From index `-k` on are selected exactly the last `k` elements. */
  lemma LastSelected(s: Str, k: nat, isbit: bool, i: nat)
    requires 0 < k && i < 8 * |s|
    ensures Selected(s, Range(0 - k, -1, isbit), i) <==>
              var unit := if isbit then i else i / 8; Total(s, isbit) - unit <= k
    ensures Total(s, isbit) == if isbit then 8 * |s| else |s|
  {
  }

  /** The number of one bits of `s` below `n` that are in the range, one by one. */
  function Selection(s: Str, r: Range, n: nat): nat
    requires n <= 8 * |s|
  {
    if n == 0 then 0 else Selection(s, r, n - 1) + Digit(StrBit(s, n - 1) && Selected(s, r, n - 1))
  }

  /** If the selected positions are `a .. b - 1`, the selection is the ones there. */
  lemma {:induction false} SelectionIs(s: Str, r: Range, n: nat, a: nat, b: nat)
    requires n <= 8 * |s| && a <= b <= 8 * |s| && forall i :: 0 <= i < 8 * |s| ==> (Selected(s, r, i) <==> a <= i < b)
    ensures Selection(s, r, n) == if n <= a then 0 else if n <= b then Ones(s, a, n) else Ones(s, a, b)
  {
    hide StrBit, Selected;
    if n > 0 { SelectionIs(s, r, n - 1, a, b); }
  }

  // ---- what the early answer changes ---------------------------------------------------------

  /** The number of one bits of `s` below `n` between the clamped ends. */
  function ClampedCount(s: Str, r: Range, n: nat): nat
    requires n <= 8 * |s|
  {
    if n == 0 then 0 else ClampedCount(s, r, n - 1) + Digit(StrBit(s, n - 1) && Clamped(s, r, n - 1))
  }

  /** The width of one element of the range. */
  function Unit(r: Range): nat { if r.isbit then 1 else 8 }

  /** Both ends are clamped to the first element, in the wrong order. */
  predicate Collapsed(s: Str, r: Range) { Backwards(r) && Total(s, r.isbit) + r.start <= 0 }

  /** The early answer leaves out a position between the clamped ends only if both were clamped to the first element. */
  lemma SelectedIsClamped(s: Str, r: Range, i: nat)
    requires i < 8 * |s|
    ensures Selected(s, r, i) != Clamped(s, r, i) <==> Collapsed(s, r) && i < Unit(r)
  {
  }

  lemma {:induction false} SameCount(s: Str, r: Range, n: nat)
    requires n <= 8 * |s| && forall i :: 0 <= i < 8 * |s| ==> Selected(s, r, i) == Clamped(s, r, i)
    ensures Selection(s, r, n) == ClampedCount(s, r, n)
  {
    hide StrBit, Selected, Clamped;
    if n > 0 { SameCount(s, r, n - 1); }
  }

  lemma {:induction false} CollapsedCount(s: Str, r: Range, n: nat)
    requires n <= 8 * |s| && Collapsed(s, r)
    ensures ClampedCount(s, r, n) == Ones(s, 0, if n <= Unit(r) then n else Unit(r))
  {
    hide StrBit, Selected, Clamped;
    if n > 0 {
      CollapsedCount(s, r, n - 1);
      SelectedIsClamped(s, r, n - 1);
      NotSelected(s, r, n - 1);
    }
  }

  lemma NotSelected(s: Str, r: Range, i: nat)
    requires Backwards(r)
    ensures !Selected(s, r, i)
  {
  }

  /** The reply counts the ones between the clamped ends, except when both are clamped to a first element that holds ones. */
  lemma ReplyIsClamped(s: Str, r: Range)
    ensures Selection(s, r, 8 * |s|) == ClampedCount(s, r, 8 * |s|)
            <==> !(Collapsed(s, r) && s != [] && Ones(s, 0, Unit(r)) > 0)
  {
    hide StrBit, Selected, Clamped, Ones, Selection, ClampedCount;
    if Collapsed(s, r) {
      NothingSelected(s, r);
      CollapsedCount(s, r, 8 * |s|);
      if s == [] { OnesEmpty(s, 0); }
    } else {
      forall i | 0 <= i < 8 * |s| ensures Selected(s, r, i) == Clamped(s, r, i) { SelectedIsClamped(s, r, i); }
      SameCount(s, r, 8 * |s|);
    }
  }

  /** `BITCOUNT key -1 -2` on a single byte with all bits set: the answer is 0, both ends are clamped to that byte. */
  lemma BackwardsCountsNothing()
    ensures Selection([255], Range(-1, -2, false), 8) == 0 && ClampedCount([255], Range(-1, -2, false), 8) == 8
  {
    hide StrBit, Selected, Clamped, Ones, Selection, ClampedCount;
    var r := Range(-1, -2, false);
    NothingSelected([255], r);
    CollapsedCount([255], r, 8);
    FullByte(8);
  }

  lemma {:induction false} FullByte(n: nat)
    requires n <= 8
    ensures Ones([255], 0, n) == n
  {
    hide Bit;
    if n > 0 {
      FullByte(n - 1);
      Pow2Values();
      LowMaskBit(8, 8 - n);
    }
  }

  // ---- the edges -------------------------------------------------------------------------------

  lemma MaskedBit(b: Byte, m: Byte, i: nat)
    requires i < 8
    ensures Bitwise(And, b, m) < 256 && StrBit([Bitwise(And, b, m)], i) == (Bit(b, 7 - i) && Bit(m, 7 - i))
  {
    Pow2Values();
    OpBound(And, b, m, 8);
    OpBit(And, b, m, 7 - i);
  }

  function AndByte(b: Byte, m: Byte): Byte {
    MaskedBit(b, m, 0);
    Bitwise(And, b, m)
  }

  lemma HeadOnes(str: Str, k: nat, s: nat)
    requires k < |str| && s < 8
    ensures PopByte(AndByte(str[k], FirstMask(s))) == Ones(str, 8 * k, 8 * k + s)
  {
    hide Ones, Bit, Bitwise, FirstMask;
    var f: Str := [AndByte(str[k], FirstMask(s))];
    forall i | 0 <= i < 8 ensures StrBit(f, i) == (StrBit(str, 8 * k + i) && i < s) {
      MaskedBit(str[k], FirstMask(s), i);
      FirstMaskBit(s, i);
      assert (8 * k + i) / 8 == k && (8 * k + i) % 8 == i;
    }
    OnesSplit(f, 0, s, 8);
    OnesNone(f, s, 8);
    OnesSame(f, str, 0, s, 8 * k);
  }

  lemma TailOnes(str: Str, k: nat, e: nat)
    requires k < |str| && e < 8
    ensures PopByte(AndByte(str[k], LastMask(e))) == Ones(str, 8 * k + e + 1, 8 * k + 8)
  {
    hide Ones, Bit, Bitwise, LastMask;
    var f: Str := [AndByte(str[k], LastMask(e))];
    forall i | 0 <= i < 8 ensures StrBit(f, i) == (StrBit(str, 8 * k + i) && i > e) {
      MaskedBit(str[k], LastMask(e), i);
      LastMaskBit(e, i);
      assert (8 * k + i) / 8 == k && (8 * k + i) % 8 == i;
    }
    OnesSplit(f, 0, e + 1, 8);
    OnesNone(f, 0, e + 1);
    OnesSame(f, str, e + 1, 8, 8 * k);
  }

  /** Counting whole bytes and taking back the bits before `s` in the first and after `e` in the last. */
  lemma EdgesOff(str: Str, start: nat, end: nat, s: nat, e: nat)
    requires start <= end < |str| && s < 8 && e < 8 && (start < end || s <= e)
    ensures Ones(str, 8 * start, 8 * end + 8) - Ones(str, 8 * start, 8 * start + s) - Ones(str, 8 * end + e + 1, 8 * end + 8)
            == Ones(str, 8 * start + s, 8 * end + e + 1)
  {
    hide Ones;
    OnesSplit(str, 8 * start, 8 * start + s, 8 * end + 8);
    OnesSplit(str, 8 * start + s, 8 * end + e + 1, 8 * end + 8);
  }

  lemma Two(a: Byte, b: Byte)
    ensures Ones([a, b], 0, 16) == PopByte(a) + PopByte(b)
  {
    hide Ones, PopByte;
    OnesSplit([a, b], 0, 8, 16);
    OnesByte([a, b], 0);
    OnesByte([a, b], 1);
  }

  lemma Slice(str: Str, start: nat, end: nat)
    requires start <= end < |str|
    ensures Ones(str[start..end + 1], 0, 8 * (end + 1 - start)) == Ones(str, 8 * start, 8 * end + 8)
  {
    hide Ones, Bit;
    var t := str[start..end + 1];
    forall i | 0 <= i < 8 * |t| ensures StrBit(t, i) == StrBit(str, i + 8 * start) {
      assert (i + 8 * start) / 8 == i / 8 + start && (i + 8 * start) % 8 == i % 8;
    }
    OnesSame(t, str, 0, 8 * |t|, 8 * start);
  }

  lemma NoMask(b: Byte)
    ensures PopByte(0) == 0
  {
    var z: Str := [0];
    forall i | 0 <= i < 8 ensures !StrBit(z, i) { ZeroBits(7 - i); }
    OnesNone(z, 0, 8);
  }

  /** The last part of `bitcountCommand`: the bytes `start .. end` less the masked bits of its edges. */
  method CountRange(p: Str, start: nat, end: nat, s: nat, e: nat, addr: nat) returns (count: int)
    requires start <= end < |p| && s < 8 && e < 8 && (start < end || s <= e)
    ensures count == Ones(p, 8 * start + s, 8 * end + e + 1)
  {
    hide Ones, PopByte, FirstMask, LastMask, Bitwise;
    var firstMask, lastMask := FirstMask(s), LastMask(e);
    count := Popcount.RedisPopcount(p[start..end + 1], addr + start);
    Slice(p, start, end);
    EdgesOff(p, start, end, s, e);
    HeadOnes(p, start, s);
    TailOnes(p, end, e);
    MaskZero(s, e);
    NoMask(0);
    OnesEmpty(p, 8 * start);
    OnesEmpty(p, 8 * end + 8);
    if firstMask != 0 || lastMask != 0 {
      var first: Byte, last: Byte := 0, 0;
      if firstMask != 0 { first := AndByte(p[start], firstMask); }
      if lastMask != 0 { last := AndByte(p[end], lastMask); }
      Two(first, last);
      var edges := Popcount.RedisPopcount([first, last], 0);
      count := count - edges;
    }
  }

  lemma OnesEmpty(str: Str, a: nat)
    requires a <= 8 * |str|
    ensures Ones(str, a, a) == 0
  {
  }

  /** `bitcountCommand` once its arguments are read; a missing key counts 0. */
  method BitcountCommand(value: Option<Str>, range: Option<Range>, addr: nat) returns (reply: int)
    ensures value.None? ==> reply == 0
    ensures value.Some? && range.None? ==> reply == Ones(value.value, 0, 8 * |value.value|)
    ensures value.Some? && range.Some? ==> reply == Selection(value.value, range.value, 8 * |value.value|)
    ensures value.Some? && range.Some? ==>
      var s, r := value.value, range.value;
      reply == ClampedCount(s, r, 8 * |s|) <==> !(Collapsed(s, r) && s != [] && Ones(s, 0, Unit(r)) > 0)
  {
    hide Ones, StrBit, Selection, ClampedCount, Collapsed;
    if value.None? { return 0; }
    var p := value.value;
    if range.None? {
      reply := Popcount.RedisPopcount(p, addr);
      return;
    }
    var r := range.value;
    ReplyIsClamped(p, r);
    var totlen := |p|;
    var start, end := r.start, r.end;
    if start < 0 && end < 0 && start > end {
      NothingSelected(p, r);
      return 0;
    }
    if r.isbit { totlen := 8 * totlen; }
    if start < 0 { start := totlen + start; }
    if end < 0 { end := totlen + end; }
    if start < 0 { start := 0; }
    if end < 0 { end := 0; }
    if end >= totlen { end := totlen - 1; }
    if start > end {
      NothingSelected(p, r);
      return 0;
    }
    RangeSelected(p, r, start, end);
    if r.isbit {
      reply := CountRange(p, start / 8, end / 8, start % 8, end % 8, addr);
    } else {
      reply := CountRange(p, start, end, 0, 7, addr);
    }
  }

  lemma NothingSelected(s: Str, r: Range)
    requires Backwards(r) || Resolve(r.start, Total(s, r.isbit)) > Resolve(r.end, Total(s, r.isbit))
             || Resolve(r.start, Total(s, r.isbit)) >= Total(s, r.isbit)
    ensures Selection(s, r, 8 * |s|) == 0
  {
    hide Ones, StrBit, Selection;
    SelectionIs(s, r, 8 * |s|, 0, 0);
    OnesEmpty(s, 0);
  }

  lemma RangeSelected(s: Str, r: Range, start: nat, end: nat)
    requires !Backwards(r) && start == Resolve(r.start, Total(s, r.isbit)) && start <= end < Total(s, r.isbit)
    requires end == Resolve(r.end, Total(s, r.isbit)) || (end == Total(s, r.isbit) - 1 && end < Resolve(r.end, Total(s, r.isbit)))
    ensures Selection(s, r, 8 * |s|) == if r.isbit then Ones(s, start, end + 1) else Ones(s, 8 * start, 8 * end + 8)
  {
    hide Ones, StrBit, Selection;
    if r.isbit {
      SelectionIs(s, r, 8 * |s|, start, end + 1);
    } else {
      SelectionIs(s, r, 8 * |s|, 8 * start, 8 * end + 8);
    }
  }
}
