/** The `BITOP` command: four words at a time as far as all strings reach, then byte by byte. */
module Bitop {
  import opened Common
  import opened BitNat
  import opened BitString
  import opened Bitpos

  /** Operations on bytes stay in bytes. */
  function OpByte(op: Op, a: Byte, b: Byte): Byte {
    Pow2Values();
    OpBound(op, a, b, 8);
    Bitwise(op, a, b)
  }

  // ---- words as bytes ---------------------------------------------------------------------------------

  /** Byte `k` of a little-endian word. */
  function ByteOf(w: nat, k: nat): Byte
    decreases k
  {
    if k == 0 then w % 256 else ByteOf(w / 256, k - 1)
  }

  lemma Digits(b: nat, r: nat)
    requires b < 256
    ensures (b + 256 * r) % 256 == b && (b + 256 * r) / 256 == r
  {
  }

  /** A word operation is the byte operation on each of its bytes. */
  lemma {:induction false} OpOfWords(op: Op, s: Str, c: nat, t: Str, d: nat, n: nat, k: nat)
    requires c + n <= |s| && d + n <= |t| && k < n
    ensures ByteOf(Bitwise(op, LittleEndian(s, c, n), LittleEndian(t, d, n)), k) == OpByte(op, s[c + k], t[d + k])
    decreases n
  {
    hide Bitwise;
    var x, y := LittleEndian(s, c + 1, n - 1), LittleEndian(t, d + 1, n - 1);
    Pow2Values();
    OpSplit(op, s[c], t[d], x, y, 8);
    Digits(OpByte(op, s[c], t[d]), Bitwise(op, x, y));
    if k > 0 { OpOfWords(op, s, c + 1, t, d + 1, n - 1, k - 1); }
  }

  /** So is the complement. */
  lemma {:induction false} NotOfWord(s: Str, c: nat, n: nat, k: nat)
    requires c + n <= |s| && k < n
    ensures LittleEndian(s, c, n) < Pow2(8 * n)
    ensures ByteOf(Pow2(8 * n) - 1 - LittleEndian(s, c, n), k) == 255 - s[c + k]
    decreases n
  {
    WordSkips(s, true, c, n);
    Pow2Byte(n);
    WordSkips(s, true, c + 1, n - 1);
    var x := Pow2(8 * (n - 1)) - 1 - LittleEndian(s, c + 1, n - 1);
    assert Pow2(8 * n) - 1 - LittleEndian(s, c, n) == (255 - s[c]) + 256 * x;
    Digits(255 - s[c], x);
    if k > 0 { NotOfWord(s, c + 1, n - 1, k - 1); }
  }

  /** Writes a word to the array. */
  method StoreWord(res: array<Byte>, off: nat, word: nat)
    requires off + 8 <= res.Length
    modifies res
    ensures forall b :: 0 <= b < res.Length ==> res[b] == if off <= b < off + 8 then ByteOf(word, b - off) else old(res[b])
  {
    for k := 0 to 8
      invariant forall b :: 0 <= b < res.Length ==> res[b] == if off <= b < off + k then ByteOf(word, b - off) else old(res[b])
    {
      res[off + k] := ByteOf(word, k);
    }
  }

  // ---- what the command computes -----------------------------------------------------------------------

  datatype BitOp = Fold(op: Op) | Not

  function Pad(s: Str, b: nat): Byte { if b < |s| then s[b] else 0 }

  /** Byte `b` of the first `n` strings combined, each with zeros to its right. */
  function FoldByte(op: Op, src: seq<Str>, n: nat, b: nat): Byte
    requires 1 <= n <= |src|
  {
    if n == 1 then Pad(src[0], b) else OpByte(op, FoldByte(op, src, n - 1, b), Pad(src[n - 1], b))
  }

  function ResultByte(op: BitOp, src: seq<Str>, b: nat): Byte
    requires src != [] && (op.Not? ==> |src| == 1)
  {
    match op
    case Fold(o) => FoldByte(o, src, |src|, b)
    case Not => 255 - Pad(src[0], b)
  }

  /** Bit `i` of byte `b` of a string; there are no ones behind its end. */
  predicate HasBit(s: Str, b: nat, i: nat) { b < |s| && Bit(s[b], i) }

  /** In how many of the first `n` strings the bit is set. */
  function HowMany(src: seq<Str>, n: nat, b: nat, i: nat): nat
    requires n <= |src|
  {
    if n == 0 then 0 else HowMany(src, n - 1, b, i) + if HasBit(src[n - 1], b, i) then 1 else 0
  }

  /** What the documentation of `BITOP` says of a result bit: all strings have it, some has it, an odd number has it, the
      string does not have it. */
  ghost predicate Combined(op: BitOp, src: seq<Str>, b: nat, i: nat) {
    match op
    case Fold(And) => forall k :: 0 <= k < |src| ==> HasBit(src[k], b, i)
    case Fold(Or) => exists k :: 0 <= k < |src| && HasBit(src[k], b, i)
    case Fold(Xor) => HowMany(src, |src|, b, i) % 2 == 1
    case Not => src != [] && !HasBit(src[0], b, i)
  }

  lemma PadBit(s: Str, b: nat, i: nat)
    ensures Bit(Pad(s, b), i) <==> HasBit(s, b, i)
  {
    if b >= |s| { ZeroBits(i); }
  }

  /** A bit of the conjunction is set when it is set in every string; of the disjunction, when in some string;
      of the exclusive or, when in an odd number of strings. */
  lemma {:induction false} FoldBit(src: seq<Str>, n: nat, b: nat, i: nat)
    requires 1 <= n <= |src|
    ensures Bit(FoldByte(And, src, n, b), i) <==> forall k :: 0 <= k < n ==> HasBit(src[k], b, i)
    ensures Bit(FoldByte(Or, src, n, b), i) <==> exists k :: 0 <= k < n && HasBit(src[k], b, i)
    ensures Bit(FoldByte(Xor, src, n, b), i) <==> HowMany(src, n, b, i) % 2 == 1
  {
    hide Bit, Bitwise, HasBit, Pad;
    PadBit(src[n - 1], b, i);
    if n > 1 {
      FoldBit(src, n - 1, b, i);
      OpBit(And, FoldByte(And, src, n - 1, b), Pad(src[n - 1], b), i);
      OpBit(Or, FoldByte(Or, src, n - 1, b), Pad(src[n - 1], b), i);
      OpBit(Xor, FoldByte(Xor, src, n - 1, b), Pad(src[n - 1], b), i);
    } else {
      assert HowMany(src, 0, b, i) == 0;
    }
  }

  lemma ResultBit(op: BitOp, src: seq<Str>, b: nat, i: nat)
    requires src != [] && (op.Not? ==> |src| == 1) && i < 8
    ensures Bit(ResultByte(op, src, b), i) <==> Combined(op, src, b, i)
  {
    hide Bit, Bitwise, HasBit, Pad, FoldByte;
    if op.Fold? {
      FoldBit(src, |src|, b, i);
    } else {
      Pow2Values();
      PadBit(src[0], b, i);
      ComplementBit(Pad(src[0], b), 8, i);
    }
  }

  // ---- the fast path --------------------------------------------------------------------------------------

  /** `lres[k] op= lp[i][k]` */
  method CombineWord(op: Op, res: array<Byte>, src: Str, off: nat)
    requires off + 8 <= res.Length && off + 8 <= |src|
    modifies res
    ensures forall b :: 0 <= b < res.Length ==> res[b] == if off <= b < off + 8 then OpByte(op, old(res[b]), src[b]) else old(res[b])
  {
    hide ByteOf, LittleEndian, OpByte, Bitwise;
    ghost var was: Str := res[..];
    forall b | off <= b < off + 8
      ensures ByteOf(Bitwise(op, LittleEndian(was, off, 8), LittleEndian(src, off, 8)), b - off) == OpByte(op, was[b], src[b])
    {
      OpOfWords(op, was, off, src, off, 8, b - off);
    }
    StoreWord(res, off, Bitwise(op, LittleEndian(res[..], off, 8), LittleEndian(src, off, 8)));
  }

  /** Four words of one more string. */
  method CombineFour(op: Op, res: array<Byte>, src: Str, off: nat)
    requires off + 32 <= res.Length && off + 32 <= |src|
    modifies res
    ensures forall b :: 0 <= b < res.Length ==> res[b] == if off <= b < off + 32 then OpByte(op, old(res[b]), src[b]) else old(res[b])
  {
    hide OpByte;
    CombineWord(op, res, src, off);
    CombineWord(op, res, src, off + 8);
    CombineWord(op, res, src, off + 16);
    CombineWord(op, res, src, off + 24);
  }

  /** Four words of the complement. */
  method InvertFour(res: array<Byte>, off: nat)
    requires off + 32 <= res.Length
    modifies res
    ensures forall b :: 0 <= b < res.Length ==> res[b] == if off <= b < off + 32 then 255 - old(res[b]) else old(res[b])
  {
    InvertWord(res, off);
    InvertWord(res, off + 8);
    InvertWord(res, off + 16);
    InvertWord(res, off + 24);
  }

  method InvertWord(res: array<Byte>, off: nat)
    requires off + 8 <= res.Length
    modifies res
    ensures forall b :: 0 <= b < res.Length ==> res[b] == if off <= b < off + 8 then 255 - old(res[b]) else old(res[b])
  {
    hide ByteOf, LittleEndian, Pow2;
    ghost var was: Str := res[..];
    WordSkips(was, true, off, 8);
    forall b | off <= b < off + 8 ensures ByteOf(Pow2(64) - 1 - LittleEndian(was, off, 8), b - off) == 255 - was[b] {
      NotOfWord(was, off, 8, b - off);
    }
    StoreWord(res, off, Pow2(64) - 1 - LittleEndian(res[..], off, 8));
  }

  /** One turn of the fast loop of `AND`, `OR` and `XOR`: all further strings join in. */
  method CombineAll(op: Op, src: seq<Str>, res: array<Byte>, off: nat)
    requires src != [] && off + 32 <= res.Length && forall i :: 0 <= i < |src| ==> off + 32 <= |src[i]|
    requires forall b :: off <= b < off + 32 ==> res[b] == src[0][b]
    modifies res
    ensures forall b :: off <= b < off + 32 ==> res[b] == FoldByte(op, src, |src|, b)
    ensures forall b :: 0 <= b < res.Length && !(off <= b < off + 32) ==> res[b] == old(res[b])
  {
    hide OpByte;
    for i := 1 to |src|
      invariant forall b :: off <= b < off + 32 ==> res[b] == FoldByte(op, src, i, b)
      invariant forall b :: 0 <= b < res.Length && !(off <= b < off + 32) ==> res[b] == old(res[b])
    {
      CombineFour(op, res, src[i], off);
    }
  }

  /** `memcpy(res, src[0], minlen)` */
  method CopyFirst(first: Str, res: array<Byte>, n: nat)
    requires n <= |first| && n <= res.Length
    modifies res
    ensures forall b :: 0 <= b < n ==> res[b] == first[b]
  {
    for k := 0 to n
      invariant forall b :: 0 <= b < k ==> res[b] == first[b]
    {
      res[k] := first[k];
    }
  }

  /** The fast path; `j` is the next byte to process. */
  method FastPath(op: BitOp, src: seq<Str>, res: array<Byte>, minlen: nat) returns (j: nat)
    requires src != [] && (op.Not? ==> |src| == 1)
    requires minlen <= res.Length && forall i :: 0 <= i < |src| ==> minlen <= |src[i]|
    modifies res
    ensures j <= res.Length && forall b :: 0 <= b < j ==> res[b] == ResultByte(op, src, b)
  {
    hide FoldByte;
    j := 0;
    if minlen >= 32 && |src| <= 16 {
      CopyFirst(src[0], res, minlen);
      var left := minlen;
      while left >= 32
        invariant j + left == minlen
        invariant forall b :: 0 <= b < j ==> res[b] == ResultByte(op, src, b)
        invariant forall b :: j <= b < minlen ==> res[b] == src[0][b]
      {
        if op.Fold? {
          CombineAll(op.op, src, res, j);
        } else {
          InvertFour(res, j);
        }
        j, left := j + 32, left - 32;
      }
    }
  }

  // ---- the byte loop ------------------------------------------------------------------------------------------

  lemma {:induction false} AndZeroStays(src: seq<Str>, i: nat, n: nat, b: nat)
    requires 1 <= i <= n <= |src| && FoldByte(And, src, i, b) == 0
    ensures FoldByte(And, src, n, b) == 0
    decreases n
  {
    if i < n {
      AndZeroStays(src, i, n - 1, b);
      AndWithZero(Pad(src[n - 1], b));
    }
  }

  lemma {:induction false} OrOnesStay(src: seq<Str>, i: nat, n: nat, b: nat)
    requires 1 <= i <= n <= |src| && FoldByte(Or, src, i, b) == 255
    ensures FoldByte(Or, src, n, b) == 255
    decreases n
  {
    hide Bitwise;
    if i < n {
      OrOnesStay(src, i, n - 1, b);
      Pow2Values();
      OrOnes(Pad(src[n - 1], b), 8);
    }
  }

  /** One byte of the result, with the early end once nothing can change any more. */
  method OneByte(op: BitOp, src: seq<Str>, j: nat) returns (output: Byte)
    requires src != [] && (op.Not? ==> |src| == 1)
    ensures output == ResultByte(op, src, j)
  {
    hide OpByte;
    output := if |src[0]| <= j then 0 else src[0][j];
    if op.Not? {
      output := 255 - output;
      return;
    }
    for i := 1 to |src|
      invariant output == FoldByte(op.op, src, i, j)
    {
      var byte := if |src[i]| <= j then 0 else src[i][j];
      output := OpByte(op.op, output, byte);
      if op.op.And? && output == 0 {
        AndZeroStays(src, i + 1, |src|, j);
        return;
      }
      if op.op.Or? && output == 255 {
        OrOnesStay(src, i + 1, |src|, j);
        return;
      }
    }
  }

  method Combine(op: BitOp, src: seq<Str>, minlen: nat, maxlen: nat) returns (res: array<Byte>)
    requires src != [] && (op.Not? ==> |src| == 1)
    requires minlen <= maxlen && forall i :: 0 <= i < |src| ==> minlen <= |src[i]|
    ensures fresh(res) && res.Length == maxlen && forall b :: 0 <= b < maxlen ==> res[b] == ResultByte(op, src, b)
  {
    hide ResultByte;
    res := new Byte[maxlen](_ => 0);
    var j := FastPath(op, src, res, minlen);
    while j < maxlen
      invariant j <= maxlen && forall b :: 0 <= b < j ==> res[b] == ResultByte(op, src, b)
    {
      var output := OneByte(op, src, j);
      res[j] := output;
      j := j + 1;
    }
  }

  // ---- the command --------------------------------------------------------------------------------------------

  function Lookup(keys: seq<Option<Str>>, i: nat): Str
    requires i < |keys|
  {
    if keys[i].None? then [] else keys[i].value
  }

  function Strings(keys: seq<Option<Str>>): seq<Str> { seq(|keys|, i requires 0 <= i < |keys| => Lookup(keys, i)) }

  ghost predicate Longest(src: seq<Str>, n: nat) {
    (forall i :: 0 <= i < |src| ==> |src[i]| <= n) && (n == 0 || exists i :: 0 <= i < |src| && |src[i]| == n)
  }

  lemma LongestMore(src: seq<Str>, n: nat, x: Str)
    requires Longest(src, n)
    ensures Longest(src + [x], if |x| > n then |x| else n)
  {
    var t := src + [x];
    if |x| > n {
      assert |t[|src|]| == |x|;
    } else if n > 0 {
      var i :| 0 <= i < |src| && |src[i]| == n;
      assert |t[i]| == n;
    }
  }

  /** `bitopCommand` on the values of its source keys: the new value of the target key, or none at all. */
  method BitopCommand(op: BitOp, keys: seq<Option<Str>>) returns (target: Option<Str>)
    requires keys != [] && (op.Not? ==> |keys| == 1)
    ensures target.None? <==> Longest(Strings(keys), 0)
    ensures target.Some? ==> Longest(Strings(keys), |target.value|)
    ensures target.Some? ==> forall b :: 0 <= b < |target.value| ==> target.value[b] == ResultByte(op, Strings(keys), b)
    ensures target.Some? ==> forall b, i :: 0 <= b < |target.value| && 0 <= i < 8 ==>
              (Bit(target.value[b], i) <==> Combined(op, Strings(keys), b, i))
  {
    hide ResultByte, Bit, Combined;
    var src: seq<Str> := [];
    var minlen: nat, maxlen: nat := 0, 0;
    for j := 0 to |keys|
      invariant src == Strings(keys)[..j] && Longest(src, maxlen) && minlen <= maxlen
      invariant forall i :: 0 <= i < j ==> minlen <= |src[i]|
    {
      LongestMore(src, maxlen, Lookup(keys, j));
      src := src + [Lookup(keys, j)];
      if keys[j].None? {
        minlen := 0;
        continue;
      }
      var len := |keys[j].value|;
      if len > maxlen { maxlen := len; }
      if j == 0 || len < minlen { minlen := len; }
    }
    if maxlen == 0 { return None; }
    assert src == Strings(keys);
    var res := Combine(op, src, minlen, maxlen);
    forall b, i | 0 <= b < maxlen && 0 <= i < 8 ensures Bit(res[b], i) <==> Combined(op, Strings(keys), b, i) {
      ResultBit(op, src, b, i);
    }
    return Some(res[..]);
  }
}
