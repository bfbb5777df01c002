/** The search for a set or clear bit a word at a time, and the `BITPOS` command. */
module Bitpos {
  import opened Common
  import opened BitNat
  import opened BitString

  /** The first position in `a .. b - 1` whose bit is `bit`, or `b`: the naive scan. */
  function Find(s: Str, bit: bool, a: nat, b: nat): (r: nat)
    requires a <= b <= 8 * |s|
    ensures a <= r <= b
    decreases b - a
  {
    if a == b then b else if StrBit(s, a) == bit then a else Find(s, bit, a + 1, b)
  }

  lemma {:induction false} FindNone(s: Str, bit: bool, a: nat, b: nat)
    requires a <= b <= 8 * |s| && forall i :: a <= i < b ==> StrBit(s, i) != bit
    ensures Find(s, bit, a, b) == b
    decreases b - a
  {
    hide StrBit;
    if a < b { FindNone(s, bit, a + 1, b); }
  }

  lemma {:induction false} FindIs(s: Str, bit: bool, a: nat, b: nat, r: nat)
    requires a <= r < b <= 8 * |s| && StrBit(s, r) == bit && forall i :: a <= i < r ==> StrBit(s, i) != bit
    ensures Find(s, bit, a, b) == r
    decreases b - a
  {
    hide StrBit;
    if a < r { FindIs(s, bit, a + 1, b, r); }
  }

  lemma {:induction false} FindSplit(s: Str, bit: bool, a: nat, b: nat, c: nat)
    requires a <= b <= c <= 8 * |s|
    ensures Find(s, bit, a, c) == if Find(s, bit, a, b) < b then Find(s, bit, a, b) else Find(s, bit, b, c)
    decreases b - a
  {
    hide StrBit;
    if a < b && StrBit(s, a) != bit { FindSplit(s, bit, a + 1, b, c); }
  }

  /** The scan depends on nothing but the bits it looks at. */
  lemma {:induction false} FindSame(s: Str, t: Str, bit: bool, a: nat, b: nat, d: int)
    requires a <= b <= 8 * |s| && 0 <= a + d && b + d <= 8 * |t|
    requires forall i :: a <= i < b ==> StrBit(s, i) == StrBit(t, i + d)
    ensures Find(t, bit, a + d, b + d) == Find(s, bit, a, b) + d
    decreases b - a
  {
    hide StrBit;
    if a < b {
      assert StrBit(s, a) == StrBit(t, a + d);
      FindSame(s, t, bit, a + 1, b, d);
    }
  }

  // ---- bytes and words that hold no bit of the kind ----------------------------------------------

  lemma {:induction false} AllOnesBit(n: nat, i: nat)
    requires i < n
    ensures Bit(Pow2(n) - 1, i)
  {
    LowMaskBit(n, i);
  }

  /** The value that a byte without the bit looked for must have. */
  function SkipByte(bit: bool): Byte { if bit then 0 else 255 }

  lemma SkippedByte(s: Str, bit: bool, c: nat)
    requires c < |s| && s[c] == SkipByte(bit)
    ensures forall i :: 8 * c <= i < 8 * c + 8 ==> StrBit(s, i) != bit
  {
    Pow2Values();
    forall i | 8 * c <= i < 8 * c + 8 ensures StrBit(s, i) != bit {
      assert i / 8 == c;
      if bit { ZeroBits(7 - i % 8); } else { AllOnesBit(8, 7 - i % 8); }
    }
  }

  lemma KeptByte(s: Str, bit: bool, c: nat)
    requires c < |s| && s[c] != SkipByte(bit)
    ensures exists i :: 8 * c <= i < 8 * c + 8 && StrBit(s, i) == bit
  {
    Pow2Values();
    if forall i :: 0 <= i < 8 ==> Bit(s[c], i) != bit {
      forall i | 0 <= i < 8 ensures Bit(s[c], i) == Bit(SkipByte(bit), i) {
        if bit { ZeroBits(i); } else { AllOnesBit(8, i); }
      }
      SameBits(s[c], SkipByte(bit), 8);
    }
    var i :| 0 <= i < 8 && Bit(s[c], i) == bit;
    assert StrBit(s, 8 * c + (7 - i)) == bit;
  }

  /** The `n` bytes at `c` as a little-endian word. */
  function LittleEndian(s: Str, c: nat, n: nat): nat
    requires c + n <= |s|
    decreases n
  {
    if n == 0 then 0 else s[c] + 256 * LittleEndian(s, c + 1, n - 1)
  }

  /** The value that a word of `n` bytes without the bit looked for must have. */
  function SkipWord(bit: bool, n: nat): nat { if bit then 0 else Pow2(8 * n) - 1 }

  lemma Pow2Byte(n: nat)
    requires n > 0
    ensures Pow2(8 * n) == 256 * Pow2(8 * (n - 1))
  {
    assert Pow2(8 * n) == 4 * Pow2(8 * n - 2);
    assert Pow2(8 * n - 2) == 4 * Pow2(8 * n - 4);
    assert Pow2(8 * n - 4) == 4 * Pow2(8 * n - 6);
    assert Pow2(8 * n - 6) == 4 * Pow2(8 * n - 8);
  }

  lemma {:induction false} WordSkips(s: Str, bit: bool, c: nat, n: nat)
    requires c + n <= |s|
    ensures LittleEndian(s, c, n) < Pow2(8 * n)
    ensures LittleEndian(s, c, n) == SkipWord(bit, n) <==> forall k :: c <= k < c + n ==> s[k] == SkipByte(bit)
    decreases n
  {
    if n > 0 {
      Pow2Byte(n);
      WordSkips(s, bit, c + 1, n - 1);
    }
  }

  // ---- loading a word, first byte on top ----------------------------------------------------------

  lemma {:induction false} LowHigh(b: nat, w: nat, n: nat, m: nat)
    requires b < Pow2(n)
    ensures Bit(b + Pow2(n) * w, m) == if m < n then Bit(b, m) else Bit(w, m - n)
    decreases n
  {
    if n == 0 {
      assert Pow2(0) * w == w;
    } else {
      Double(Pow2(n - 1), w);
      Halves(b, Pow2(n - 1) * w);
      if m > 0 { LowHigh(b / 2, w, n - 1, m - 1); }
    }
  }

  lemma ShiftIn(w: nat, b: Byte, m: nat)
    ensures Bitwise(Or, 256 * w, b) == 256 * w + b
    ensures Bit(256 * w + b, m) == if m < 8 then Bit(b, m) else Bit(w, m - 8)
  {
    hide Bitwise, Bit;
    Pow2Values();
    OpSplit(Or, 0, b, w, 0, 8);
    OrZero(b);
    OrZero(w);
    LowHigh(b, w, 8, m);
  }

  /** A bit of the string with zeros to its right. */
  predicate Padded(s: Str, i: nat) { i < 8 * |s| && StrBit(s, i) }

  /** Bit `i` of an `n`-bit word, counted from the top. */
  predicate TopBit(word: nat, n: nat, i: nat)
    requires i < n
  {
    Bit(word, n - 1 - i)
  }

  /** The word holds the `8 * j` bits from byte `c` on, the first one on top. */
  ghost predicate Loaded(s: Str, c: nat, j: nat, word: nat) {
    word < Pow2(8 * j) && forall i :: 0 <= i < 8 * j ==> TopBit(word, 8 * j, i) == Padded(s, 8 * c + i)
  }

  lemma ByteBit(s: Str, c: nat, b: Byte, k: nat)
    requires k < 8 && if c < |s| then b == s[c] else b == 0
    ensures Padded(s, 8 * c + k) == Bit(b, 7 - k)
  {
    ZeroBits(7 - k);
    assert (8 * c + k) / 8 == c && (8 * c + k) % 8 == k;
  }

  lemma LoadedBit(s: Str, c: nat, j: nat, word: nat, b: Byte, i: nat)
    requires Loaded(s, c, j, word) && i < 8 * j + 8
    requires if c + j < |s| then b == s[c + j] else b == 0
    ensures TopBit(256 * word + b, 8 * j + 8, i) == Padded(s, 8 * c + i)
  {
    hide Bit, Padded, Pow2;
    ShiftIn(word, b, 8 * j + 7 - i);
    if i < 8 * j {
      assert TopBit(word, 8 * j, i) == Padded(s, 8 * c + i);
    } else {
      ByteBit(s, c + j, b, i - 8 * j);
    }
  }

  lemma LoadedMore(s: Str, c: nat, j: nat, word: nat, b: Byte)
    requires Loaded(s, c, j, word)
    requires if c + j < |s| then b == s[c + j] else b == 0
    ensures Loaded(s, c, j + 1, 256 * word + b)
  {
    hide Bit, Padded, TopBit, Pow2;
    Pow2Byte(j + 1);
    var w', n := 256 * word + b, 8 * (j + 1);
    assert w' < Pow2(n);
    forall i | 0 <= i < n ensures TopBit(w', n, i) == Padded(s, 8 * c + i) {
      LoadedBit(s, c, j, word, b, i);
    }
  }

  /** The loop that loads up to eight bytes. */
  method LoadWord(s: Str, start: nat) returns (word: nat)
    requires start <= |s|
    ensures Loaded(s, start, 8, word)
  {
    hide Loaded, Bitwise;
    word := 0;
    var c, count := start, |s| - start;
    NothingLoaded(s, start);
    for j := 0 to 8
      invariant Loaded(s, start, j, word)
      invariant if start + j <= |s| then c == start + j && count == |s| - c else c == |s| && count == 0
    {
      word := 256 * word;
      LoadedMore(s, start, j, word / 256, if start + j < |s| then s[start + j] else 0);
      if count != 0 {
        ShiftIn(word / 256, s[c], 0);
        word := Bitwise(Or, word, s[c]);
        c, count := c + 1, count - 1;
      }
    }
  }

  lemma NothingLoaded(s: Str, c: nat)
    ensures Loaded(s, c, 0, 0)
  {
  }

  /** A single bit of a word. */
  lemma {:induction false} OneBit(m: nat, w: nat)
    ensures Bitwise(And, Pow2(m), w) != 0 <==> Bit(w, m)
    decreases m
  {
    hide Bitwise;
    BitwiseStep(And, Pow2(m), w);
    if m > 0 {
      assert Pow2(m) / 2 == Pow2(m - 1) && Pow2(m) % 2 == 0;
      OneBit(m - 1, w / 2);
    } else {
      assert Pow2(0) / 2 == 0;
      AndWithZero(w / 2);
    }
  }

  // ---- redisBitpos --------------------------------------------------------------------------------------

  /** What a search in the whole string answers: zeros follow the string, ones do not. */
  function Answer(s: Str, bit: bool): int {
    var f := Find(s, bit, 0, 8 * |s|);
    if bit && f == 8 * |s| then -1 else f
  }

  /** The bit-by-bit scan of the last word. */
  method ScanWord(s: Str, bit: bool, start: nat, word: nat) returns (pos: nat)
    requires start <= |s| && Loaded(s, start, 8, word)
    requires exists i :: 8 * start <= i < 8 * start + 64 && Padded(s, i) == bit
    ensures 8 * start <= pos < 8 * start + 64 && Padded(s, pos) == bit
    ensures forall i :: 8 * start <= i < pos ==> Padded(s, i) != bit
  {
    hide Bit, Bitwise, Padded;
    pos := 8 * start;
    for k := 0 to 64
      invariant pos == 8 * start + k
      invariant forall i :: 8 * start <= i < pos ==> Padded(s, i) != bit
    {
      OneBit(63 - k, word);
      assert TopBit(word, 64, k) == Padded(s, 8 * start + k);
      if (Bitwise(And, Pow2(63 - k), word) != 0) == bit { return; }
      pos := pos + 1;
    }
    assert false;
  }

  lemma WordZero(s: Str, start: nat, word: nat)
    requires start <= |s| && Loaded(s, start, 8, word)
    ensures word == 0 <==> forall i :: 8 * start <= i < 8 * start + 64 ==> !Padded(s, i)
  {
    hide Bit, Padded;
    if forall i :: 8 * start <= i < 8 * start + 64 ==> !Padded(s, i) {
      forall i | 0 <= i < 64 ensures Bit(word, i) == Bit(0, i) {
        assert TopBit(word, 64, 63 - i) == Padded(s, 8 * start + (63 - i));
        ZeroBits(i);
      }
      SameBits(word, 0, 64);
    }
    if word == 0 {
      forall i | 8 * start <= i < 8 * start + 64 ensures !Padded(s, i) {
        assert TopBit(word, 64, i - 8 * start) == Padded(s, 8 * start + (i - 8 * start));
        ZeroBits(63 - (i - 8 * start));
      }
    }
  }

  /** Up to `c` the string does not hold the bit. */
  ghost predicate Skipped(s: Str, bit: bool, c: nat) {
    c <= |s| && forall i :: 0 <= i < 8 * c ==> StrBit(s, i) != bit
  }

  /** The first two loops: bytes up to an aligned address, then words. */
  method SkipBytes(s: Str, bit: bool, addr: nat) returns (c: nat, found: bool)
    ensures Skipped(s, bit, c) && (found ==> c < |s| && s[c] != SkipByte(bit))
  {
    hide StrBit;
    c, found := 0, false;
    while (addr + c) % 8 != 0 && c < |s|
      invariant Skipped(s, bit, c)
      decreases |s| - c
    {
      if s[c] != SkipByte(bit) { return c, true; }
      SkippedByte(s, bit, c);
      c := c + 1;
    }
  }

  method SkipWords(s: Str, bit: bool, from: nat) returns (c: nat)
    requires Skipped(s, bit, from)
    ensures Skipped(s, bit, c) && (c + 8 <= |s| ==> exists k :: c <= k < c + 8 && s[k] != SkipByte(bit))
  {
    hide StrBit, SkipWord, LittleEndian;
    c := from;
    while c + 8 <= |s|
      invariant Skipped(s, bit, c)
      decreases |s| - c
    {
      WordSkips(s, bit, c, 8);
      if LittleEndian(s, c, 8) != SkipWord(bit, 8) { return; }
      forall k | c <= k < c + 8 ensures forall i :: 8 * k <= i < 8 * k + 8 ==> StrBit(s, i) != bit { SkippedByte(s, bit, k); }
      forall i | 8 * c <= i < 8 * (c + 8) ensures StrBit(s, i) != bit { assert c <= i / 8 < c + 8 && 8 * (i / 8) <= i < 8 * (i / 8) + 8; }
      c := c + 8;
    }
  }

  /** There is a bit of the kind in the last word, if only one of the zeros behind the string. */
  lemma BitAhead(s: Str, bit: bool, c: nat)
    requires Skipped(s, bit, c)
    requires (c < |s| && s[c] != SkipByte(bit)) || (c + 8 <= |s| ==> exists k :: c <= k < c + 8 && s[k] != SkipByte(bit))
    ensures !bit || c + 8 <= |s| ==> exists i :: 8 * c <= i < 8 * c + 64 && Padded(s, i) == bit
  {
    hide StrBit;
    if c + 8 <= |s| || (c < |s| && s[c] != SkipByte(bit)) {
      var k :| c <= k < c + 8 && k < |s| && s[k] != SkipByte(bit);
      KeptByte(s, bit, k);
      var i :| 8 * k <= i < 8 * k + 8 && StrBit(s, i) == bit;
      assert Padded(s, i) == bit;
    } else if !bit {
      assert Padded(s, 8 * |s|) == bit;
    }
  }

  lemma AnswerIs(s: Str, bit: bool, c: nat, pos: int)
    requires Skipped(s, bit, c)
    requires if pos < 0 then pos == -1 && bit && forall i :: 8 * c <= i < 8 * c + 64 ==> !Padded(s, i)
             else 8 * c <= pos < 8 * c + 64 && Padded(s, pos) == bit && forall i :: 8 * c <= i < pos ==> Padded(s, i) != bit
    requires pos < 0 ==> |s| < c + 8
    ensures pos == Answer(s, bit)
  {
    hide StrBit;
    if 0 <= pos < 8 * |s| {
      FindIs(s, bit, 0, 8 * |s|, pos) by {
        forall i | 0 <= i < pos ensures StrBit(s, i) != bit { assert i < 8 * c || Padded(s, i) != bit; }
      }
    } else {
      assert !Padded(s, 8 * |s|);
      forall i | 0 <= i < 8 * |s| ensures StrBit(s, i) != bit { assert i < 8 * c || !Padded(s, i) || !bit; }
      FindNone(s, bit, 0, 8 * |s|);
    }
  }

  /** `redisBitpos` of a string that starts at address `addr`. */
  method RedisBitpos(s: Str, bit: bool, addr: nat) returns (pos: int)
    ensures pos == Answer(s, bit)
  {
    hide StrBit, Loaded, Find, Padded, Answer;
    var c, found := SkipBytes(s, bit, addr);
    if !found { c := SkipWords(s, bit, c); }
    var word := LoadWord(s, c);
    WordZero(s, c, word);
    BitAhead(s, bit, c);
    if bit && word == 0 {
      AnswerIs(s, bit, c, -1);
      return -1;
    }
    pos := ScanWord(s, bit, c, word);
    AnswerIs(s, bit, c, pos);
  }

  // ---- the edge bytes of a range -------------------------------------------------------------------------

  /** The bits under the mask made useless for the search: `b & ~mask` or `b | mask`. */
  function Blank(b: Byte, mask: Byte, bit: bool): Byte {
    Pow2Values();
    OpBound(And, b, 255 - mask, 8);
    OpBound(Or, b, mask, 8);
    if bit then Bitwise(And, b, 255 - mask) else Bitwise(Or, b, mask)
  }

  lemma BlankBit(b: Byte, mask: Byte, bit: bool, j: nat)
    requires j < 8
    ensures Bit(Blank(b, mask, bit), j) == if Bit(mask, j) then !bit else Bit(b, j)
  {
    hide Bitwise;
    Pow2Values();
    if bit {
      OpBit(And, b, 255 - mask, j);
      ComplementBit(mask, 8, j);
    } else {
      OpBit(Or, b, mask, j);
    }
  }

  /** A byte that shows the bits `s .. e` of byte `k` and is useless elsewhere. */
  ghost predicate Shows(t: Byte, p: Str, k: nat, s: nat, e: nat, bit: bool)
    requires k < |p|
  {
    forall i :: 0 <= i < 8 ==> StrBit([t], i) == if s <= i <= e then StrBit(p, 8 * k + i) else !bit
  }

  lemma BlankFirst(p: Str, k: nat, s: nat, bit: bool)
    requires k < |p| && s < 8
    ensures Shows(Blank(p[k], FirstMask(s), bit), p, k, s, 7, bit)
  {
    hide Bit, Blank, FirstMask;
    forall i | 0 <= i < 8
      ensures StrBit([Blank(p[k], FirstMask(s), bit)], i) == if s <= i <= 7 then StrBit(p, 8 * k + i) else !bit
    {
      BlankBit(p[k], FirstMask(s), bit, 7 - i);
      FirstMaskBit(s, i);
      assert (8 * k + i) / 8 == k && (8 * k + i) % 8 == i;
    }
  }

  lemma BlankLast(t: Byte, p: Str, k: nat, s: nat, e: nat, bit: bool)
    requires k < |p| && s <= e < 8 && Shows(t, p, k, s, 7, bit)
    ensures Shows(Blank(t, LastMask(e), bit), p, k, s, e, bit)
  {
    hide Bit, Blank, LastMask;
    forall i | 0 <= i < 8
      ensures StrBit([Blank(t, LastMask(e), bit)], i) == if s <= i <= e then StrBit(p, 8 * k + i) else !bit
    {
      BlankBit(t, LastMask(e), bit, 7 - i);
      LastMaskBit(e, i);
      assert StrBit([t], i) == if s <= i <= 7 then StrBit(p, 8 * k + i) else !bit;
    }
  }

  lemma ShowsAll(p: Str, k: nat, bit: bool)
    requires k < |p|
    ensures Shows(p[k], p, k, 0, 7, bit)
  {
    hide Bit;
    forall i | 0 <= i < 8 ensures StrBit([p[k]], i) == StrBit(p, 8 * k + i) {
      assert (8 * k + i) / 8 == k && (8 * k + i) % 8 == i;
    }
  }

  /** The search in such a byte is the scan of the bits it shows. */
  lemma EdgeFind(t: Byte, p: Str, k: nat, s: nat, e: nat, bit: bool)
    requires k < |p| && s <= e < 8 && Shows(t, p, k, s, e, bit)
    ensures var f := Find(p, bit, 8 * k + s, 8 * k + e + 1);
            Answer([t], bit) == if f < 8 * k + e + 1 then f - 8 * k else if bit then -1 else 8
  {
    hide StrBit, Find;
    var y: Str := [t];
    FindSplit(y, bit, 0, s, 8);
    FindSplit(y, bit, s, e + 1, 8);
    FindNone(y, bit, 0, s);
    FindNone(y, bit, e + 1, 8);
    FindSame(y, p, bit, s, e + 1, 8 * k);
  }

  lemma SliceFind(p: Str, start: nat, n: nat, bit: bool)
    requires start + n <= |p|
    ensures var f := Find(p, bit, 8 * start, 8 * (start + n));
            Answer(p[start..start + n], bit) == if f < 8 * (start + n) then f - 8 * start else if bit then -1 else 8 * n
  {
    hide Bit, Find;
    var t := p[start..start + n];
    forall i | 0 <= i < 8 * |t| ensures StrBit(t, i) == StrBit(p, i + 8 * start) {
      assert (i + 8 * start) / 8 == i / 8 + start && (i + 8 * start) % 8 == i % 8;
    }
    FindSame(t, p, bit, 0, 8 * n, 8 * start);
  }

  // ---- the command -----------------------------------------------------------------------------------------

  /** The state of the search at label `result`: the position found relative to `start`, and the bytes left. */
  ghost predicate Outcome(p: Str, bit: bool, a: nat, b: nat, pos: int, start: nat, bytes: nat)
    requires a <= b <= 8 * |p|
  {
    var f := Find(p, bit, a, b);
    if f < b then 0 <= pos < 8 * bytes && pos + 8 * start == f
    else if bit then pos == -1
    else pos == 8 * bytes && b <= 8 * (start + bytes) <= b + 7
  }

  /** Whole bytes, then the masked last byte. */
  method SearchOn(p: Str, first: nat, end: nat, e: nat, bit: bool, addr: nat) returns (pos: int, start: nat, bytes: nat)
    requires first <= end < |p| && e < 8
    ensures Outcome(p, bit, 8 * first, 8 * end + e + 1, pos, start, bytes)
  {
    hide StrBit, Find, Answer, Blank, LastMask;
    MaskZero(0, e);
    start, bytes := first, end - first + 1;
    var curbytes := bytes - (if LastMask(e) != 0 then 1 else 0);
    if curbytes > 0 {
      pos := RedisBitpos(p[start..start + curbytes], bit, addr + start);
      SliceFind(p, start, curbytes, bit);
      if bytes == curbytes { return; }
      FindSplit(p, bit, 8 * first, 8 * end, 8 * end + e + 1);
      if pos != -1 && pos != 8 * curbytes { return; }
      start, bytes := start + curbytes, bytes - curbytes;
    }
    ShowsAll(p, end, bit);
    BlankLast(p[end], p, end, 0, e, bit);
    EdgeFind(Blank(p[end], LastMask(e), bit), p, end, 0, e, bit);
    pos := RedisBitpos([Blank(p[end], LastMask(e), bit)], bit, 0);
  }

  /** The masked first byte. */
  method SearchFirst(p: Str, k: nat, s: nat, e: nat, bit: bool, only: bool) returns (pos: int)
    requires k < |p| && s < 8 && e < 8 && (only ==> s <= e)
    ensures var b := if only then 8 * k + e + 1 else 8 * k + 8;
            var f := Find(p, bit, 8 * k + s, b); pos == if f < b then f - 8 * k else if bit then -1 else 8
  {
    hide StrBit, Find, Answer, Blank, FirstMask, LastMask;
    MaskZero(s, e);
    var tmp := Blank(p[k], FirstMask(s), bit);
    BlankFirst(p, k, s, bit);
    if LastMask(e) != 0 && only {
      BlankLast(tmp, p, k, s, e, bit);
      tmp := Blank(tmp, LastMask(e), bit);
    }
    pos := RedisBitpos([tmp], bit, 0);
    EdgeFind(tmp, p, k, s, if only then e else 7, bit);
  }

  /** The search of `bitposCommand` from the byte positions and masks to label `result`. */
  method Search(p: Str, first: nat, end: nat, s: nat, e: nat, bit: bool, addr: nat) returns (pos: int, start: nat, bytes: nat)
    requires first <= end < |p| && s < 8 && e < 8 && (first < end || s <= e)
    ensures Outcome(p, bit, 8 * first + s, 8 * end + e + 1, pos, start, bytes)
  {
    hide StrBit, Find, FirstMask;
    MaskZero(s, e);
    start, bytes := first, end - first + 1;
    if FirstMask(s) != 0 {
      pos := SearchFirst(p, start, s, e, bit, bytes == 1);
      if bytes == 1 { return; }
      FindSplit(p, bit, 8 * first + s, 8 * first + 8, 8 * end + e + 1);
      if pos != -1 && pos != 8 { return; }
      start := start + 1;
    }
    pos, start, bytes := SearchOn(p, start, end, e, bit, addr);
  }

  /** The range arguments of `BITPOS`. */
  datatype Args = Whole | From(start: int) | FromTo(start: int, end: int, isbit: bool)

  /** Position `i` of the bit array is in the range. */
  predicate InRange(s: Str, args: Args, i: nat) {
    i < 8 * |s|
    && match args
       case Whole => true
       case From(start) => Resolve(start, |s|) <= i / 8
       case FromTo(start, end, isbit) =>
         var unit := if isbit then i else i / 8;
         Resolve(start, Total(s, isbit)) <= unit <= Resolve(end, Total(s, isbit))
  }

  /** From index `-k` on are searched exactly the last `k` elements. */
  lemma LastInRange(s: Str, k: nat, isbit: bool, i: nat)
    requires 0 < k && i < 8 * |s|
    ensures InRange(s, FromTo(0 - k, -1, isbit), i) <==>
              var unit := if isbit then i else i / 8; (if isbit then 8 * |s| else |s|) - unit <= k
    ensures InRange(s, From(0 - k), i) <==> |s| - i / 8 <= k
  {
  }

  /** The naive scan: the first position of the range with the bit, or -1. */
  function Scan(s: Str, bit: bool, args: Args, i: nat): int
    requires i <= 8 * |s|
    decreases 8 * |s| - i
  {
    if i == 8 * |s| then -1
    else if InRange(s, args, i) && StrBit(s, i) == bit then i
    else Scan(s, bit, args, i + 1)
  }

  /** If the range is `a .. b - 1`, the scan is the search there. */
  lemma {:induction false} ScanIs(s: Str, bit: bool, args: Args, a: nat, b: nat, i: nat)
    requires a <= b <= 8 * |s| && i <= 8 * |s| && forall k :: 0 <= k < 8 * |s| ==> (InRange(s, args, k) <==> a <= k < b)
    ensures Scan(s, bit, args, i)
            == if i >= b then -1
               else var f := Find(s, bit, if i < a then a else i, b); if f < b then f else -1
    decreases 8 * |s| - i
  {
    hide StrBit, InRange;
    if i < 8 * |s| { ScanIs(s, bit, args, a, b, i + 1); }
  }

  /** What `BITPOS` answers for a string. */
  function Reply(s: Str, bit: bool, args: Args): int {
    var f := Scan(s, bit, args, 0);
    if f >= 0 then f
    else if !bit && !args.FromTo? && (exists i :: 0 <= i < 8 * |s| && InRange(s, args, i)) then 8 * |s|
    else -1
  }

  lemma ReplyEmpty(s: Str, bit: bool, args: Args)
    requires forall k :: 0 <= k < 8 * |s| ==> !InRange(s, args, k)
    ensures Reply(s, bit, args) == -1
  {
    hide StrBit, InRange, Scan;
    ScanIs(s, bit, args, 0, 0, 0);
  }

  lemma ReplyIs(s: Str, bit: bool, args: Args, a: nat, b: nat)
    requires a < b <= 8 * |s| && forall k :: 0 <= k < 8 * |s| ==> (InRange(s, args, k) <==> a <= k < b)
    ensures var f := Find(s, bit, a, b);
            Reply(s, bit, args) == if f < b then f else if bit || args.FromTo? then -1 else 8 * |s|
  {
    hide StrBit, InRange, Scan, Find;
    ScanIs(s, bit, args, a, b, 0);
    assert InRange(s, args, a);
  }

  /** The positions of the range, from the indexes as the command clamps them. */
  lemma RangeIs(s: Str, args: Args, start: nat, end: int, isbit: bool)
    requires isbit == (args.FromTo? && args.isbit) && (args.Whole? ==> start == 0)
    requires !args.Whole? ==> start == Resolve(args.start, Total(s, isbit))
    requires var last := Total(s, isbit) - 1;
             if args.FromTo? && Resolve(args.end, Total(s, isbit)) <= last then end == Resolve(args.end, Total(s, isbit)) else end == last
    ensures forall k :: 0 <= k < 8 * |s| ==> (InRange(s, args, k) <==> start <= (if isbit then k else k / 8) <= end)
  {
  }

  /** The cases at the end of the string: no one, no zero, no zero in an explicit range, nothing to search. */
  lemma EndCases()
    ensures Reply([255], false, Whole) == 8 && Reply([255], false, From(0)) == 8
    ensures Reply([255], false, FromTo(0, 0, false)) == -1 && Reply([255], false, FromTo(0, -1, true)) == -1
    ensures Reply([0], true, Whole) == -1 && Reply([255], false, From(1)) == -1 && Reply([], false, Whole) == -1
  {
    hide Reply, InRange, StrBit, Find;
    AllOnes([255]);
    AllZeros([0]);
    RangeIs([255], Whole, 0, 0, false);
    RangeIs([255], From(0), 0, 0, false);
    RangeIs([255], FromTo(0, 0, false), 0, 0, false);
    RangeIs([255], FromTo(0, -1, true), 0, 7, true);
    RangeIs([0], Whole, 0, 0, false);
    RangeIs([255], From(1), 1, 0, false);
    ReplyIs([255], false, Whole, 0, 8);
    ReplyIs([255], false, From(0), 0, 8);
    ReplyIs([255], false, FromTo(0, 0, false), 0, 8);
    ReplyIs([255], false, FromTo(0, -1, true), 0, 8);
    ReplyIs([0], true, Whole, 0, 8);
    ReplyEmpty([255], false, From(1));
    ReplyEmpty([], false, Whole);
  }

  lemma AllOnes(s: Str)
    requires s == [255]
    ensures Find(s, false, 0, 8) == 8
  {
    hide Bit;
    Pow2Values();
    forall i | 0 <= i < 8 ensures StrBit(s, i) { LowMaskBit(8, 7 - i); }
    NoneFound(s, false, 0);
  }

  lemma AllZeros(s: Str)
    requires s == [0]
    ensures Find(s, true, 0, 8) == 8
  {
    hide Bit;
    forall i | 0 <= i < 8 ensures !StrBit(s, i) { ZeroBits(7 - i); }
    NoneFound(s, true, 0);
  }

  lemma {:induction false} NoneFound(s: Str, bit: bool, i: nat)
    requires |s| == 1 && i <= 8 && forall k :: 0 <= k < 8 ==> StrBit(s, k) != bit
    ensures Find(s, bit, i, 8) == 8
    decreases 8 - i
  {
    hide StrBit;
    if i < 8 { NoneFound(s, bit, i + 1); }
  }

  /** `bitposCommand` once its arguments are read. */
  method BitposCommand(value: Option<Str>, bit: bool, args: Args, addr: nat) returns (reply: int)
    ensures value.None? ==> reply == if bit then -1 else 0
    ensures value.Some? ==> reply == Reply(value.value, bit, args)
  {
    hide StrBit, Find, Reply, InRange;
    if value.None? { return if bit then -1 else 0; }
    var p := value.value;
    var totlen := |p|;
    var start, end, isbit := 0, |p| - 1, false;
    if !args.Whole? {
      start := args.start;
      if args.FromTo? {
        end, isbit := args.end, args.isbit;
      }
      if isbit { totlen := 8 * totlen; }
      if start < 0 { start := totlen + start; }
      if end < 0 { end := totlen + end; }
      if start < 0 { start := 0; }
      if end < 0 { end := 0; }
      if end >= totlen { end := totlen - 1; }
    }
    RangeIs(p, args, start, end, isbit);
    if start > end {
      ReplyEmpty(p, bit, args);
      return -1;
    }
    reply := SearchReply(p, bit, args, start, end, isbit, addr);
  }

  method SearchReply(p: Str, bit: bool, args: Args, start: nat, end: nat, isbit: bool, addr: nat) returns (reply: int)
    requires start <= end < Total(p, isbit) && (!args.FromTo? ==> !isbit && end == |p| - 1)
    requires forall k :: 0 <= k < 8 * |p| ==> (InRange(p, args, k) <==> start <= (if isbit then k else k / 8) <= end)
    ensures reply == Reply(p, bit, args)
  {
    hide StrBit, Find, Reply, InRange;
    var first, last, s, e := start, end, 0, 7;
    if isbit {
      first, last, s, e := start / 8, end / 8, start % 8, end % 8;
    }
    ReplyIs(p, bit, args, 8 * first + s, 8 * last + e + 1);
    var pos, from, bytes := Search(p, first, last, s, e, bit, addr);
    if args.FromTo? && !bit && pos == 8 * bytes { return -1; }
    if pos != -1 { pos := pos + 8 * from; }
    return pos;
  }
}
