/** Bitwise arithmetic on unsigned integers: `<<`, `&`, `|`, `^` and `~`, and what they do to single bits. */
module BitNat {

  /** `1 << n` */
  function Pow2(n: nat): (r: nat)
    ensures r > 0
  {
    if n == 0 then 1 else 2 * Pow2(n - 1)
  }

  /** Bit `i` of `x`, counted from the least significant one. */
  predicate Bit(x: nat, i: nat)
    decreases i
  {
    if i == 0 then x % 2 == 1 else Bit(x / 2, i - 1)
  }

  datatype Op = And | Or | Xor

  function OnBits(op: Op, x: bool, y: bool): bool {
    match op
    case And => x && y
    case Or => x || y
    case Xor => x != y
  }

  function Digit(x: bool): nat { if x then 1 else 0 }

  /** `a op b`, bit by bit. */
  function Bitwise(op: Op, a: nat, b: nat): nat
    decreases a + b
  {
    if a == 0 && b == 0 then 0
    else Digit(OnBits(op, a % 2 == 1, b % 2 == 1)) + 2 * Bitwise(op, a / 2, b / 2)
  }

  lemma NoBits(op: Op)
    ensures Bitwise(op, 0, 0) == 0
  {
  }

  lemma BitwiseStep(op: Op, a: nat, b: nat)
    ensures Bitwise(op, a, b) == Digit(OnBits(op, a % 2 == 1, b % 2 == 1)) + 2 * Bitwise(op, a / 2, b / 2)
  {
  }

  lemma {:induction false} OpBit(op: Op, a: nat, b: nat, i: nat)
    ensures Bit(Bitwise(op, a, b), i) == OnBits(op, Bit(a, i), Bit(b, i))
    decreases i
  {
    hide Bitwise;
    BitwiseStep(op, a, b);
    var d, x := Digit(OnBits(op, a % 2 == 1, b % 2 == 1)), Bitwise(op, a / 2, b / 2);
    assert (d + 2 * x) / 2 == x && (d + 2 * x) % 2 == d;
    if i > 0 { OpBit(op, a / 2, b / 2, i - 1); }
  }

  lemma {:induction false} OpBound(op: Op, a: nat, b: nat, n: nat)
    requires a < Pow2(n) && b < Pow2(n)
    ensures Bitwise(op, a, b) < Pow2(n)
    decreases n
  {
    hide Bitwise;
    if n > 0 {
      BitwiseStep(op, a, b);
      OpBound(op, a / 2, b / 2, n - 1);
    } else {
      NoBits(op);
    }
  }

  lemma {:induction false} ZeroBits(i: nat)
    ensures !Bit(0, i)
    decreases i
  {
    if i > 0 { ZeroBits(i - 1); }
  }

  /** Numbers below `2^n` with the same bits are equal. */
  lemma {:induction false} SameBits(x: nat, y: nat, n: nat)
    requires x < Pow2(n) && y < Pow2(n) && forall i :: 0 <= i < n ==> Bit(x, i) == Bit(y, i)
    ensures x == y
    decreases n
  {
    if n > 0 {
      assert Bit(x, 0) == Bit(y, 0);
      forall i | 0 <= i < n - 1 ensures Bit(x / 2, i) == Bit(y / 2, i) {
        assert Bit(x, i + 1) == Bit(y, i + 1);
      }
      SameBits(x / 2, y / 2, n - 1);
    }
  }

  /** `2^k - 1` has the `k` low bits. */
  lemma {:induction false} LowMaskBit(k: nat, i: nat)
    ensures Bit(Pow2(k) - 1, i) == (i < k)
    decreases k
  {
    if k == 0 {
      ZeroBits(i);
    } else if i > 0 {
      LowMaskBit(k - 1, i - 1);
      assert (Pow2(k) - 1) / 2 == Pow2(k - 1) - 1;
    }
  }

  /** `~x` in `n` bits is `2^n - 1 - x`. */
  lemma {:induction false} ComplementBit(x: nat, n: nat, i: nat)
    requires x < Pow2(n) && i < n
    ensures Bit(Pow2(n) - 1 - x, i) == !Bit(x, i)
    decreases n
  {
    HalfComplement(x, Pow2(n - 1));
    if i > 0 { ComplementBit(x / 2, n - 1, i - 1); }
  }

  lemma HalfComplement(x: nat, p: nat)
    requires x < 2 * p
    ensures (2 * p - 1 - x) / 2 == p - 1 - x / 2 && (2 * p - 1 - x) % 2 == 1 - x % 2 && x / 2 < p
  {
    assert x == 2 * (x / 2) + x % 2;
  }

  /** Word operations work part by part. */
  lemma {:induction false} OpSplit(op: Op, a: nat, b: nat, a': nat, b': nat, n: nat)
    requires a < Pow2(n) && b < Pow2(n)
    ensures Bitwise(op, a + Pow2(n) * a', b + Pow2(n) * b') == Bitwise(op, a, b) + Pow2(n) * Bitwise(op, a', b')
    decreases n
  {
    hide Bitwise;
    if n == 0 {
      NoBits(op);
      assert Pow2(0) * a' == a' && Pow2(0) * b' == b' && Pow2(0) * Bitwise(op, a', b') == Bitwise(op, a', b');
    } else {
      var p := Pow2(n - 1);
      var x, y, r := p * a', p * b', p * Bitwise(op, a', b');
      Double(p, a');
      Double(p, b');
      Double(p, Bitwise(op, a', b'));
      OpSplit(op, a / 2, b / 2, a', b', n - 1);
      BitwiseStep(op, a, b);
      BitwiseStep(op, a + 2 * x, b + 2 * y);
      Halves(a, x);
      Halves(b, y);
    }
  }

  lemma Halves(a: nat, x: nat)
    ensures (a + 2 * x) / 2 == a / 2 + x && (a + 2 * x) % 2 == a % 2
  {
  }

  lemma Double(p: nat, x: nat)
    ensures (2 * p) * x == 2 * (p * x)
  {
  }

  lemma Pow2Values()
    ensures Pow2(0) == 1 && Pow2(1) == 2 && Pow2(2) == 4 && Pow2(3) == 8 && Pow2(4) == 16
    ensures Pow2(5) == 32 && Pow2(6) == 64 && Pow2(7) == 128 && Pow2(8) == 256
  {
    assert Pow2(4) == 16;
  }

  lemma {:induction false} Pow2Grows(m: nat, n: nat)
    requires m <= n
    ensures Pow2(m) <= Pow2(n)
  {
    if m < n { Pow2Grows(m, n - 1); }
  }

  // ---- zeros and ones ----------------------------------------------------------------------------------

  lemma {:induction false} AndWithZero(x: nat)
    ensures Bitwise(And, x, 0) == 0 && Bitwise(And, 0, x) == 0
  {
    if x > 0 { AndWithZero(x / 2); }
  }

  lemma {:induction false} OrZero(x: nat)
    ensures Bitwise(Or, x, 0) == x && Bitwise(Or, 0, x) == x
  {
    if x > 0 { OrZero(x / 2); }
  }

  lemma OrOnes(x: nat, n: nat)
    requires x < Pow2(n)
    ensures var m := Pow2(n) - 1; Bitwise(Or, x, m) == m && Bitwise(Or, m, x) == m
  {
    hide Bit, Bitwise;
    var m := Pow2(n) - 1;
    OpBound(Or, x, m, n);
    OpBound(Or, m, x, n);
    forall i | 0 <= i < n ensures Bit(Bitwise(Or, x, m), i) == Bit(m, i) && Bit(Bitwise(Or, m, x), i) == Bit(m, i) {
      LowMaskBit(n, i);
      OpBit(Or, x, m, i);
      OpBit(Or, m, x, i);
    }
    SameBits(Bitwise(Or, x, m), m, n);
    SameBits(Bitwise(Or, m, x), m, n);
  }

  lemma AndOnes(x: nat, n: nat)
    requires x < Pow2(n)
    ensures Bitwise(And, x, Pow2(n) - 1) == x
  {
    hide Bit, Bitwise;
    var m := Pow2(n) - 1;
    OpBound(And, x, m, n);
    forall i | 0 <= i < n ensures Bit(Bitwise(And, x, m), i) == Bit(x, i) {
      LowMaskBit(n, i);
      OpBit(And, x, m, i);
    }
    SameBits(Bitwise(And, x, m), x, n);
  }
}
