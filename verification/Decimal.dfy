/**
 Decimal text: the printer behind every length and integer in the log, and the
 C library's tolerant reader of it.  One `char` stands for one byte.
 */
module Decimal {

  type Bytes = string

  /** The largest `int` and `long` of the platform, plus one. */
  const INT_LIMIT: int := 0x8000_0000
  const LONG_LIMIT: int := 0x8000_0000_0000_0000

  predicate IsDigit(c: char) { '0' <= c <= '9' }

  /** What `isspace` accepts in the C locale. */
  predicate IsSpace(c: char) { c == ' ' || 9 <= c as int <= 13 }

  function DigitValue(c: char): nat
    requires IsDigit(c)
  {
    c as int - '0' as int
  }

  function DigitChar(d: nat): (c: char)
    requires d < 10
    ensures IsDigit(c) && DigitValue(c) == d
  {
    (d + '0' as int) as char
  }

  /** `ull2string`: no leading zero, "0" for zero. */
  function Print(n: nat): (s: Bytes)
    ensures s != "" && (forall i :: 0 <= i < |s| ==> IsDigit(s[i]))
    ensures n > 0 ==> s[0] != '0'
  {
    if n < 10 then [DigitChar(n)] else Print(n / 10) + [DigitChar(n % 10)]
  }

  /** `ll2string`. */
  function PrintInt(i: int): Bytes {
    if i < 0 then "-" + Print(-i) else Print(i)
  }

  /** The longest run of digits at the front, read in base ten after `acc`. */
  function ReadDigits(s: Bytes, acc: nat): nat {
    if s == "" || !IsDigit(s[0]) then acc else ReadDigits(s[1..], 10 * acc + DigitValue(s[0]))
  }

  /** `strtol(s, NULL, 10)`: leading blanks, an optional sign, digits; clamped. */
  function Strtol(s: Bytes): (r: int)
    ensures -LONG_LIMIT <= r < LONG_LIMIT
  {
    if s != "" && IsSpace(s[0]) then Strtol(s[1..])
    else
      var negative := s != "" && s[0] == '-';
      var n: int := ReadDigits(if s != "" && (s[0] == '-' || s[0] == '+') then s[1..] else s, 0);
      if negative then (if n > LONG_LIMIT then -LONG_LIMIT else -n)
      else if n >= LONG_LIMIT then LONG_LIMIT - 1 else n
  }

  /** `atoi(s)`: the low 32 bits of `strtol`, as a signed number. */
  function Atoi(s: Bytes): (r: int)
    ensures -INT_LIMIT <= r < INT_LIMIT
  {
    (Strtol(s) + INT_LIMIT) % (2 * INT_LIMIT) - INT_LIMIT
  }

  function Pow10(k: nat): (p: nat)
    ensures p >= 1
  {
    if k == 0 then 1 else 10 * Pow10(k - 1)
  }

  lemma {:induction false} ReadDigitsAppend(s: Bytes, t: Bytes, acc: nat)
    requires forall i :: 0 <= i < |s| ==> IsDigit(s[i])
    ensures ReadDigits(s + t, acc) == ReadDigits(t, ReadDigits(s, acc))
  {
    if s == "" {
      assert s + t == t;
    } else {
      assert (s + t)[1..] == s[1..] + t;
      ReadDigitsAppend(s[1..], t, 10 * acc + DigitValue(s[0]));
    }
  }

  /** Reading what was printed gives the number back, whatever non-digit follows. */
  lemma {:induction false} ReadPrinted(n: nat, t: Bytes)
    requires t == "" || !IsDigit(t[0])
    ensures ReadDigits(Print(n) + t, 0) == n
  {
    if n >= 10 {
      var d := [DigitChar(n % 10)];
      ReadPrinted(n / 10, "");
      assert Print(n / 10) + "" == Print(n / 10);
      assert Print(n) + t == Print(n / 10) + (d + t);
      ReadDigitsAppend(Print(n / 10), d + t, 0);
      assert (d + t)[1..] == t;
    } else {
      assert ([DigitChar(n)] + t)[1..] == t;
    }
  }

  /** `strtol` inverts the printer for every number that fits a `long`. */
  lemma StrtolPrinted(n: nat, t: Bytes)
    requires n < LONG_LIMIT
    requires t == "" || !IsDigit(t[0])
    ensures Strtol(Print(n) + t) == n
  {
    ReadPrinted(n, t);
    assert IsDigit((Print(n) + t)[0]);
  }

  lemma AtoiSmall(s: Bytes)
    requires 0 <= Strtol(s) < INT_LIMIT
    ensures Atoi(s) == Strtol(s)
  {
    hide Strtol;
  }

  lemma AtoiPrinted(n: nat, t: Bytes)
    requires n < INT_LIMIT
    requires t == "" || !IsDigit(t[0])
    ensures Atoi(Print(n) + t) == n
  {
    hide Strtol, Print, Atoi;
    StrtolPrinted(n, t);
    AtoiSmall(Print(n) + t);
  }

  lemma {:induction false} PrintIntRoundTrip(i: int)
    requires -LONG_LIMIT <= i < LONG_LIMIT
    ensures Strtol(PrintInt(i)) == i
  {
    if i < 0 {
      ReadPrinted(-i, "");
      assert Print(-i) + "" == Print(-i);
      assert PrintInt(i)[1..] == Print(-i);
    } else {
      StrtolPrinted(i, "");
      assert Print(i) + "" == Print(i);
    }
  }

  /** Digits read left to right only grow, so a cut number stays positive. */
  lemma {:induction false} ReadDigitsGrows(s: Bytes, acc: nat)
    ensures ReadDigits(s, acc) >= acc
  {
    if s != "" && IsDigit(s[0]) {
      ReadDigitsGrows(s[1..], 10 * acc + DigitValue(s[0]));
    }
  }

  lemma {:induction false} ReadDigitsMonotone(s: Bytes, t: Bytes, acc: nat)
    ensures s <= t ==> ReadDigits(s, acc) <= ReadDigits(t, acc)
  {
    if s <= t && s != "" && IsDigit(s[0]) {
      assert s[1..] <= t[1..];
      ReadDigitsMonotone(s[1..], t[1..], 10 * acc + DigitValue(s[0]));
    } else {
      ReadDigitsGrows(t, acc);
    }
  }

  /** A non-empty cut of the digits of a positive number reads as a positive number. */
  lemma CutPrintedIsPositive(n: nat, p: Bytes, t: Bytes)
    requires 0 < n < INT_LIMIT
    requires 0 < |p| && p <= Print(n) + t && (t == "" || !IsDigit(t[0]))
    ensures 1 <= Atoi(p) <= n
  {
    hide Print, ReadDigits, Atoi;
    assert p[0] == Print(n)[0] && IsDigit(p[0]);
    ReadDigitsMonotone(p, Print(n) + t, 0);
    ReadPrinted(n, t);
    FirstDigitCounts(p);
    assert Strtol(p) == ReadDigits(p, 0);
    AtoiSmall(p);
  }

  lemma FirstDigitCounts(p: Bytes)
    requires p != "" && IsDigit(p[0]) && p[0] != '0'
    ensures ReadDigits(p, 0) >= 1
  {
    ReadDigitsGrows(p[1..], DigitValue(p[0]));
  }

  lemma {:induction false} PrintLength(n: nat, k: nat)
    requires n < Pow10(k) && k > 0
    ensures |Print(n)| <= k
  {
    if n >= 10 {
      PrintLength(n / 10, k - 1);
    }
  }

  /** No length header needs more than nineteen digits. */
  lemma LongIsShort(n: nat)
    requires n < LONG_LIMIT
    ensures |Print(n)| <= 19
  {
    assert Pow10(19) == 10_000_000_000_000_000_000 by {
      assert Pow10(5) == 100_000;
      assert Pow10(9) == 1_000_000_000;
      assert Pow10(13) == 10_000_000_000_000;
      assert Pow10(17) == 100_000_000_000_000_000;
    }
    PrintLength(n, 19);
  }

  /** The reader skips blanks and a plus sign, takes a minus sign, and clamps. */
  lemma StrtolForms(c: char, s: Bytes, n: nat)
    requires IsSpace(c)
    ensures Strtol([c] + s) == Strtol(s)
    ensures Strtol("+" + Print(n)) == (if n < LONG_LIMIT then n else LONG_LIMIT - 1) == Strtol(Print(n))
    ensures Strtol("-" + Print(n)) == if n <= LONG_LIMIT then -1 * n else -1 * LONG_LIMIT
    ensures Strtol("") == 0
  {
    hide Print;
    assert ([c] + s)[1..] == s;
    assert ("+" + Print(n))[1..] == Print(n) && ("-" + Print(n))[1..] == Print(n) && Print(n) + "" == Print(n);
    ReadPrinted(n, "");
    assert IsDigit(Print(n)[0]);
  }
}
