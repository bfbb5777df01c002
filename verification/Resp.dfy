/**
 The command log: RESP arrays of bulk strings, as `catAppendOnlyGenericCommand`
 prints them and as the loader reads them back, including cut input.
 */
module Resp {
  import opened Decimal

  type Argv = seq<Bytes>

  const CRLF: Bytes := "\r\n"

  /** `fgets` fills a buffer of AOF_ANNOTATION_LINE_MAX_LEN bytes, one of them the terminator. */
  const LINE_ROOM: nat := 1023

  // ---------------------------------------------------------------- printing

  function EncodeArg(arg: Bytes): Bytes {
    "$" + Print(|arg|) + CRLF + arg + CRLF
  }

  function EncodeArgs(args: Argv): Bytes {
    if args == [] then "" else EncodeArg(args[0]) + EncodeArgs(args[1..])
  }

  function Header(argc: nat): Bytes { "*" + Print(argc) + CRLF }

  function Encode(argv: Argv): Bytes { Header(|argv|) + EncodeArgs(argv) }

  function EncodeLog(log: seq<Argv>): Bytes {
    if log == [] then "" else Encode(log[0]) + EncodeLog(log[1..])
  }

  /** Commands the server can hold: an `int` count of arguments, `long` lengths. */
  predicate Fits(argv: Argv) {
    0 < |argv| < INT_LIMIT && forall i :: 0 <= i < |argv| ==> |argv[i]| < LONG_LIMIT
  }

  predicate AllFit(log: seq<Argv>) { forall i :: 0 <= i < |log| ==> Fits(log[i]) }

  method CatAppendOnlyGenericCommand(dst: Bytes, argv: Argv) returns (out: Bytes)
    ensures out == dst + Encode(argv)
  {
    hide Print;
    out := dst + ("*" + Print(|argv|) + CRLF);
    var j := 0;
    while j < |argv|
      invariant 0 <= j <= |argv|
      invariant out + EncodeArgs(argv[j..]) == dst + Encode(argv)
    {
      ghost var before := out;
      out := out + ("$" + Print(|argv[j]|) + CRLF);
      out := out + argv[j];
      out := out + CRLF;
      assert out == before + EncodeArg(argv[j]);
      assert argv[j..][1..] == argv[j + 1..];
      j := j + 1;
    }
  }

  // ----------------------------------------------------------------- reading

  /** How many bytes `fgets` takes: through the first newline, or all there is room for. */
  function LineLength(s: Bytes, room: nat): (n: nat)
    ensures n <= |s| && n <= room
    ensures s != "" && room > 0 ==> n > 0
  {
    if s == "" || room == 0 then 0
    else if s[0] == '\n' then 1
    else 1 + LineLength(s[1..], room - 1)
  }

  /** One turn of the loader's reading loop.  `ShortRead` remembers `feof`. */
  datatype Reading =
    | AtEnd
    | Annotation(rest: Bytes)
    | Command(argv: Argv, rest: Bytes)
    | FormatError
    | ShortRead(eof: bool)
    | OutOfMemory

  function ReadArgs(s: Bytes, missing: nat, got: Argv): (r: Reading)
    ensures r.Command? ==> |r.rest| <= |s|
    ensures !r.Annotation?
    decreases missing
  {
    if missing == 0 then Command(got, s)
    else if s == "" then ShortRead(true)
    else
      var n := LineLength(s, LINE_ROOM);
      var body := s[n..];
      if s[0] != '$' then FormatError
      else
        var len := Strtol(s[1..n]);
        if len < 0 then OutOfMemory            // a length taken as unsigned
        else if len + 2 > |body| then ShortRead(true)
        else ReadArgs(body[len + 2..], missing - 1, got + [body[..len]])
  }

  function Read(s: Bytes): (r: Reading)
    ensures r.Command? || r.Annotation? ==> |r.rest| < |s|
  {
    if s == "" then AtEnd
    else
      var n := LineLength(s, LINE_ROOM);
      if s[0] == '#' then Annotation(s[n..])
      else if s[0] != '*' then FormatError
      else if n == 1 || s[1] == '\0' then ShortRead(n == |s| && n < LINE_ROOM && s[n - 1] != '\n')
      else
        var argc := Atoi(s[1..n]);
        if argc < 1 then FormatError else ReadArgs(s[n..], argc, [])
  }

  /** What is left to read is a tail of the stream. */
  predicate TailOf(rest: Bytes, s: Bytes) { |rest| <= |s| && rest == s[|s| - |rest|..] }

  /** One turn of the reading: an argument is there, or the reading ends. */
  lemma ReadArgsStep(s: Bytes, missing: nat, got: Argv)
    requires missing > 0
    ensures ReadArgs(s, missing, got).Command? ==>
              s != "" && var n := LineLength(s, LINE_ROOM); var len := Strtol(s[1..n]);
              0 <= len <= |s| - n - 2
              && ReadArgs(s, missing, got) == ReadArgs(s[n..][len + 2..], missing - 1, got + [s[n..][..len]])
  {
    hide Strtol, LineLength;
  }

  lemma TailAfter(s: Bytes, n: nat, m: nat, rest: Bytes)
    requires n + m <= |s| && TailOf(rest, s[n..][m..])
    ensures TailOf(rest, s)
  {}

  lemma {:induction false} ArgsLeaveTail(s: Bytes, missing: nat, got: Argv)
    ensures var r := ReadArgs(s, missing, got); r.Command? ==> TailOf(r.rest, s)
    decreases missing
  {
    hide Strtol, LineLength, ReadArgs, TailOf;
    var r := ReadArgs(s, missing, got);
    if missing == 0 {
      ReadNoArgs(s, got);
      WholeIsTail(s);
    } else if r.Command? {
      ReadArgsStep(s, missing, got);
      var n := LineLength(s, LINE_ROOM);
      var len := Strtol(s[1..n]);
      ArgsLeaveTail(s[n..][len + 2..], missing - 1, got + [s[n..][..len]]);
      TailAfter(s, n, len + 2, r.rest);
    }
  }

  lemma WholeIsTail(s: Bytes)
    ensures TailOf(s, s)
  {}

  lemma ReadLeavesTail(s: Bytes)
    ensures var r := Read(s); r.Command? || r.Annotation? ==> TailOf(r.rest, s)
  {
    hide Strtol, LineLength, Atoi, ReadArgs;
    if s != "" {
      var n := LineLength(s, LINE_ROOM);
      var argc := if n > 1 then Atoi(s[1..n]) else 0;
      if argc >= 1 { ArgsLeaveTail(s[n..], argc, []); }
    }
  }

  // ------------------------------------------------------- printing then reading

  lemma {:induction false} LineLengthOf(line: Bytes, rest: Bytes, room: nat)
    requires forall i :: 0 <= i < |line| ==> line[i] != '\n'
    requires |line| + 1 <= room
    ensures LineLength(line + "\n" + rest, room) == |line| + 1
    ensures LineLength(line, room) == |line|
  {
    if line != "" {
      assert (line + "\n" + rest)[1..] == line[1..] + "\n" + rest;
      LineLengthOf(line[1..], rest, room - 1);
    }
  }

  lemma HeaderLine(mark: char, n: nat, rest: Bytes)
    requires n < LONG_LIMIT && mark != '\n'
    ensures var line := [mark] + Print(n) + CRLF;
            LineLength(line + rest, LINE_ROOM) == |line| && |line| < 30
            && (line + rest)[|line|..] == rest
            && Strtol((line + rest)[1..|line|]) == n
            && (n < INT_LIMIT ==> Atoi((line + rest)[1..|line|]) == n)
  {
    var line := [mark] + Print(n) + CRLF;
    var bare := [mark] + Print(n) + "\r";
    LongIsShort(n);
    LineLengthOf(bare, rest, LINE_ROOM);
    assert line + rest == bare + "\n" + rest;
    assert (line + rest)[1..|line|] == Print(n) + CRLF;
    StrtolPrinted(n, CRLF);
    if n < INT_LIMIT { AtoiPrinted(n, CRLF); }
  }

  lemma ReadOneArg(arg: Bytes, rest: Bytes, missing: nat, got: Argv)
    requires |arg| < LONG_LIMIT && missing > 0
    ensures ReadArgs(EncodeArg(arg) + rest, missing, got) == ReadArgs(rest, missing - 1, got + [arg])
  {
    var line := "$" + Print(|arg|) + CRLF;
    var tail := arg + CRLF + rest;
    HeaderLine('$', |arg|, tail);
    assert EncodeArg(arg) + rest == line + tail;
    assert tail[..|arg|] == arg && tail[|arg| + 2..] == rest;
  }

  lemma ReadNoArgs(rest: Bytes, got: Argv)
    ensures ReadArgs(rest, 0, got) == Command(got, rest)
  {}

  lemma {:induction false} ReadEncodedArgs(args: Argv, rest: Bytes, got: Argv)
    requires forall i :: 0 <= i < |args| ==> |args[i]| < LONG_LIMIT
    ensures ReadArgs(EncodeArgs(args) + rest, |args|, got) == Command(got + args, rest)
  {
    hide EncodeArg, ReadArgs;
    if args == [] {
      assert EncodeArgs(args) + rest == rest && got + args == got;
      ReadNoArgs(rest, got);
    } else {
      var tail := EncodeArgs(args[1..]) + rest;
      assert EncodeArgs(args) + rest == EncodeArg(args[0]) + tail;
      ReadOneArg(args[0], tail, |args|, got);
      ReadEncodedArgs(args[1..], rest, got + [args[0]]);
      assert got + [args[0]] + args[1..] == got + args;
    }
  }

  lemma ReadHeader(argc: nat, tail: Bytes)
    requires 0 < argc < INT_LIMIT
    ensures Read(Header(argc) + tail) == ReadArgs(tail, argc, [])
  {
    var line := Header(argc);
    var s := line + tail;
    HeaderLine('*', argc, tail);
    assert s[0] == '*' && s[1] == Print(argc)[0];
    assert LineLength(s, LINE_ROOM) == |line| && s[|line|..] == tail;
    assert Atoi(s[1..|line|]) == argc;
  }

  /** The reader undoes the printer for arbitrary binary arguments, wherever the command stands. */
  lemma ReadEncoded(argv: Argv, rest: Bytes)
    requires Fits(argv)
    ensures Read(Encode(argv) + rest) == Command(argv, rest)
  {
    var tail := EncodeArgs(argv) + rest;
    assert Encode(argv) + rest == Header(|argv|) + tail;
    ReadHeader(|argv|, tail);
    ReadEncodedArgs(argv, rest, []);
    assert [] + argv == argv;
  }

  // ---------------------------------------------------------------- cut input

  /** A header line cut anywhere still starts with its mark and has no newline before its end. */
  lemma CutLine(mark: char, n: nat, p: Bytes)
    requires n < LONG_LIMIT && mark != '\n'
    requires 0 < |p| && p < [mark] + Print(n) + CRLF
    ensures LineLength(p, LINE_ROOM) == |p| && |p| < LINE_ROOM && p[|p| - 1] != '\n' && p[0] == mark
  {
    LongIsShort(n);
    var line := [mark] + Print(n) + CRLF;
    forall i | 0 <= i < |p| ensures p[i] != '\n' {
      assert p[i] == line[i];
    }
    LineLengthOf(p, "", LINE_ROOM);
  }

  /** An argument cut anywhere makes the reader run into the end of the file. */
  lemma CutArg(arg: Bytes, p: Bytes, missing: nat, got: Argv)
    requires |arg| < LONG_LIMIT && missing > 0
    requires p < EncodeArg(arg)
    ensures ReadArgs(p, missing, got) == ShortRead(true)
  {
    var line := "$" + Print(|arg|) + CRLF;
    assert EncodeArg(arg) == line + (arg + CRLF);
    if p == "" {
    } else if |p| < |line| {
      assert p < line by { assert p == EncodeArg(arg)[..|p|] == line[..|p|]; }
      CutLine('$', |arg|, p);
      assert p[0] == line[0];
      StrtolOfCut(|arg|, p[1..]);
    } else {
      var q := p[|line|..];
      assert p == line + q;
      HeaderLine('$', |arg|, q);
    }
  }

  lemma StrtolOfCut(n: nat, p: Bytes)
    requires n < LONG_LIMIT && p <= Print(n) + CRLF
    ensures Strtol(p) >= 0
  {
    if p != "" { assert p[0] == Print(n)[0]; }
  }

  lemma {:induction false} CutArgs(args: Argv, p: Bytes, got: Argv)
    requires forall i :: 0 <= i < |args| ==> |args[i]| < LONG_LIMIT
    requires p < EncodeArgs(args)
    ensures ReadArgs(p, |args|, got) == ShortRead(true)
  {
    var first := EncodeArg(args[0]);
    if |p| < |first| {
      assert p == EncodeArgs(args)[..|p|] == first[..|p|];
      CutArg(args[0], p, |args|, got);
    } else {
      var q := p[|first|..];
      assert p == first + q;
      assert q == EncodeArgs(args[1..])[..|q|];
      ReadOneArg(args[0], q, |args|, got);
      CutArgs(args[1..], q, got + [args[0]]);
    }
  }

  lemma CutHeader(argc: nat, p: Bytes)
    requires 0 < argc < INT_LIMIT
    requires 0 < |p| && p < Header(argc)
    ensures Read(p) == ShortRead(true)
  {
    CutLine('*', argc, p);
    if |p| > 1 {
      var digits := p[1..];
      assert p[1] == Header(argc)[1] == Print(argc)[0];
      assert digits == (Print(argc) + CRLF)[..|digits|];
      CutPrintedIsPositive(argc, digits, CRLF);
      assert p[1..|p|] == digits && p[|p|..] == "";
    }
  }

  /** A command cut anywhere short of its end reads as an unexpected end of file, never as bad format. */
  lemma CutCommand(argv: Argv, p: Bytes)
    requires Fits(argv)
    requires 0 < |p| && p < Encode(argv)
    ensures Read(p) == ShortRead(true)
  {
    var line := Header(|argv|);
    if |p| < |line| {
      assert p == Encode(argv)[..|p|] == line[..|p|];
      CutHeader(|argv|, p);
    } else {
      var q := p[|line|..];
      assert p == line + q;
      assert q == EncodeArgs(argv)[..|q|];
      ReadHeader(|argv|, q);
      CutArgs(argv, q, []);
    }
  }

  // --------------------------------------------------------------- whole logs

  lemma {:induction false} EncodeLogConcat(a: seq<Argv>, b: seq<Argv>)
    ensures EncodeLog(a + b) == EncodeLog(a) + EncodeLog(b)
  {
    if a == [] {
      assert a + b == b;
    } else {
      assert (a + b)[1..] == a[1..] + b;
      EncodeLogConcat(a[1..], b);
    }
  }

  lemma EncodeNonEmpty(argv: Argv)
    ensures |Encode(argv)| > 0 && Encode(argv)[0] == '*'
  {}

  /** The number of commands that lie wholly inside the first `n` bytes of a log. */
  function Whole(log: seq<Argv>, n: nat): (k: nat)
    ensures k <= |log|
  {
    if log == [] || n < |Encode(log[0])| then 0 else 1 + Whole(log[1..], n - |Encode(log[0])|)
  }

  // ------------------------------------------------------------------ the wire format, literally

  lemma NumbersAre()
    ensures Print(0) == "0" && Print(3) == "3" && Print(10) == "10" && Print(1) == "1"
  {
    assert Print(1) == "1" && DigitChar(0) == '0';
    assert Print(10) == Print(1) + [DigitChar(0)];
  }

  lemma ArgumentsAre()
    ensures EncodeArg("SET") == "$3\r\nSET\r\n" && EncodeArg("") == "$0\r\n\r\n" && EncodeArg("0123456789") == "$10\r\n0123456789\r\n"
  {
    NumbersAre();
    hide Print;
    assert |"SET"| == 3 && |"0123456789"| == 10;
  }

  /** A `SET` of an empty value as it stands in the file. */
  lemma CommandIs()
    ensures Encode(["SET", "k", ""]) == "*3\r\n" + "$3\r\nSET\r\n" + "$1\r\nk\r\n" + "$0\r\n\r\n"
  {
    NumbersAre();
    ArgumentsAre();
    hide Print;
    var a, b, c := "$3\r\nSET\r\n", "$1\r\nk\r\n", "$0\r\n\r\n";
    assert EncodeArg("k") == b by { assert |"k"| == 1; }
    assert Header(3) == "*3\r\n";
    hide EncodeArg, Header;
    var argv := ["SET", "k", ""];
    assert argv[1..] == ["k", ""] && argv[1..][1..] == [""] && argv[1..][1..][1..] == [];
    assert EncodeArgs([""]) == c + "";
    assert EncodeArgs(["k", ""]) == b + EncodeArgs([""]);
    assert EncodeArgs(argv) == a + EncodeArgs(["k", ""]);
  }
}
