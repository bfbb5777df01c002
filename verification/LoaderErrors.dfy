/**
 What the loader refuses: cut logs when truncation is not allowed or does not work, bytes that are no
 command, and commands it does not know.
 */
module LoaderErrors {
  import opened Decimal
  import opened Resp
  import opened Loader

  // ------------------------------------------------------------------- no truncation

  /** The loop over a cut log when the file may not or cannot be cut back. */
  lemma {:induction false} LoadFromStrict(log: seq<Argv>, n: nat, size: nat, c: Client, valid: nat, beforeMulti: nat, cfg: Config)
    requires Sound(log, cfg.table) && n <= |EncodeLog(log)| && n <= size && !(cfg.loadTruncated && cfg.truncateWorks)
    ensures var k := Whole(log, n);
            var d := RunAll(c, log[..k], cfg.table);
            LoadFrom(EncodeLog(log)[..n], size, c, valid, beforeMulti, cfg)
            == Outcome(if Extent(log, k) < n || d.inMulti then Failed else Ok, d.executed, size)
    decreases |log|
  {
    hide Encode, Read, LoadFrom, Run;
    WholeExtent(log, n);
    var k := Whole(log, n);
    var s := EncodeLog(log)[..n];
    if k == 0 {
      assert log[..0] == [] && EncodeLog([]) == "";
      if log == [] {
        LoadFromEnd(size, c, valid, beforeMulti, cfg);
      } else {
        assert s < Encode(log[0]) by { assert s == Encode(log[0])[..n]; }
        LoadFromTorn(log[0], s, size, c, valid, beforeMulti, cfg);
      }
    } else {
      var first := Encode(log[0]);
      var m := n - |first|;
      var rest := EncodeLog(log[1..])[..m];
      assert s == first + rest;
      LoadFromStep(log[0], rest, size, c, valid, beforeMulti, cfg);
      assert log[..k][1..] == log[1..][..k - 1] && log[..k][0] == log[0];
      LoadFromStrict(log[1..], m, size, Run(c, log[0], cfg.table(log[0])), if cfg.loadTruncated then size - |rest| else valid,
                     if cfg.table(log[0]) == Multi then valid else beforeMulti, cfg);
    }
  }

  /** Where truncation would save a cut log, a load without it fails, leaves the file as it is, and has executed
      the same commands by then.  All other logs load as ever. */
  lemma LoadCutStrict(log: seq<Argv>, n: nat, cfg: Config)
    requires Sound(log, cfg.table) && n <= |EncodeLog(log)| && !(cfg.loadTruncated && cfg.truncateWorks)
    ensures var r := CutOutcome(log, n, cfg.table);
            Load(EncodeLog(log)[..n], cfg) == if r.status == Truncated then Outcome(Failed, r.executed, n) else r
  {
    hide Encode, LoadFrom, EndsInMulti, Settled, LastMulti, RunAll;
    WholeExtent(log, n);
    if n > 0 {
      LogStart(log, n);
      LoadFromStrict(log, n, n, FRESH, 0, 0, cfg);
      RunFresh(log[..Whole(log, n)], cfg.table);
    }
  }

  // ------------------------------------------------------------------ what is no command

  /** Whole commands at the front are executed, whatever follows. */
  lemma {:induction false} LoadFromFront(log: seq<Argv>, s: Bytes, size: nat, c: Client, valid: nat, beforeMulti: nat, cfg: Config)
    returns (valid': nat, beforeMulti': nat)
    requires Sound(log, cfg.table) && |EncodeLog(log) + s| <= size
    ensures LoadFrom(EncodeLog(log) + s, size, c, valid, beforeMulti, cfg)
         == LoadFrom(s, size, RunAll(c, log, cfg.table), valid', beforeMulti', cfg)
    decreases |log|
  {
    hide Encode, Read, LoadFrom, Run;
    if log == [] {
      assert EncodeLog(log) + s == s;
      valid', beforeMulti' := valid, beforeMulti;
    } else {
      var rest, proc := EncodeLog(log[1..]) + s, cfg.table(log[0]);
      assert EncodeLog(log) + s == Encode(log[0]) + rest;
      LoadFromStep(log[0], rest, size, c, valid, beforeMulti, cfg);
      valid', beforeMulti' := LoadFromFront(log[1..], s, size, Run(c, log[0], proc),
                                            if cfg.loadTruncated then size - |rest| else valid,
                                            if proc == Multi then valid else beforeMulti, cfg);
    }
  }

  /** The file does not pass for an RDB file. */
  lemma NoRdb(log: seq<Argv>, s: Bytes)
    requires s != "" && s[0] != 'R'
    ensures var file := EncodeLog(log) + s; file != "" && !("REDIS" <= file)
  {
    hide Encode;
    var file := EncodeLog(log) + s;
    if log != [] { EncodeNonEmpty(log[0]); }
    assert file[0] != 'R' && "REDIS"[0] == 'R';
  }

  /** A format error after whole commands is fatal under every setting; these commands have been executed. */
  lemma BadFormatFails(log: seq<Argv>, s: Bytes, cfg: Config)
    requires Sound(log, cfg.table) && s != "" && s[0] != 'R' && Read(s) == FormatError
    ensures Load(EncodeLog(log) + s, cfg) == Outcome(Failed, Settled(log, cfg.table), |EncodeLog(log) + s|)
  {
    hide Read, Encode, EncodeLog, RunAll, Settled;
    NoRdb(log, s);
    var valid, before := LoadFromFront(log, s, |EncodeLog(log) + s|, FRESH, 0, 0, cfg);
    RunFresh(log, cfg.table);
  }

  /** A line that starts neither a command nor an annotation. */
  lemma BadStart(s: Bytes)
    requires s != "" && s[0] != '*' && s[0] != '#'
    ensures Read(s) == FormatError
  {
  }

  /** A header whose count is below 1. */
  lemma BadCount(line: Bytes, rest: Bytes)
    requires 0 < |line| < LINE_ROOM - 1 && line[0] != '\0' && (forall i :: 0 <= i < |line| ==> line[i] != '\n')
    requires Atoi(line + "\n") < 1
    ensures Read("*" + line + "\n" + rest) == FormatError
  {
    hide Atoi;
    var s := "*" + line + "\n" + rest;
    LineLengthOf("*" + line, rest, LINE_ROOM);
    assert s == ("*" + line) + "\n" + rest;
    assert s[1..|line| + 2] == line + "\n" && s[1] == line[0];
  }

  lemma ZeroCount(rest: Bytes)
    ensures Read("*0\r\n" + rest) == FormatError && Read("*-1\r\n" + rest) == FormatError
  {
    assert ReadDigits("0\r\n", 0) == 0 && Strtol("0\r\n") == 0;
    assert "-1\r\n"[1..] == "1\r\n" && "1\r\n"[1..] == "\r\n";
    assert ReadDigits("1\r\n", 0) == ReadDigits("\r\n", 1) == 1;
    assert Strtol("-1\r\n") == -1;
    assert "0\r" + "\n" == "0\r\n" && "-1\r" + "\n" == "-1\r\n";
    BadCount("0\r", rest);
    BadCount("-1\r", rest);
    assert "*" + "0\r" + "\n" + rest == "*0\r\n" + rest && "*" + "-1\r" + "\n" + rest == "*-1\r\n" + rest;
  }

  /** Arguments that are there do not matter to one that is not. */
  lemma {:induction false} ReadSomeArgs(args: Argv, rest: Bytes, missing: nat, got: Argv)
    requires |args| <= missing && forall i :: 0 <= i < |args| ==> |args[i]| < LONG_LIMIT
    ensures ReadArgs(EncodeArgs(args) + rest, missing, got) == ReadArgs(rest, missing - |args|, got + args)
  {
    hide EncodeArg, ReadArgs;
    if args == [] {
      assert EncodeArgs(args) + rest == rest && got + args == got;
    } else {
      var tail := EncodeArgs(args[1..]) + rest;
      assert EncodeArgs(args) + rest == EncodeArg(args[0]) + tail;
      ReadOneArg(args[0], tail, missing, got);
      ReadSomeArgs(args[1..], rest, missing - 1, got + [args[0]]);
      assert got + [args[0]] + args[1..] == got + args;
    }
  }

  /** An argument line that does not start with a dollar sign. */
  lemma BadArgument(argc: nat, args: Argv, rest: Bytes)
    requires |args| < argc < INT_LIMIT && forall i :: 0 <= i < |args| ==> |args[i]| < LONG_LIMIT
    requires rest != "" && rest[0] != '$'
    ensures Read(Header(argc) + (EncodeArgs(args) + rest)) == FormatError
  {
    hide EncodeArgs, Header, Read;
    ReadHeader(argc, EncodeArgs(args) + rest);
    ReadSomeArgs(args, rest, argc, []);
  }

  // ------------------------------------------------------------- unknown commands, annotations

  /** A command the server does not know is fatal under every setting. */
  lemma UnknownFails(log: seq<Argv>, argv: Argv, rest: Bytes, cfg: Config)
    requires Sound(log, cfg.table) && Fits(argv) && cfg.table(argv) == Unknown
    ensures var file := EncodeLog(log) + (Encode(argv) + rest);
            Load(file, cfg) == Outcome(Failed, Settled(log, cfg.table), |file|)
  {
    var s := Encode(argv) + rest;
    EncodeNonEmpty(argv);
    ReadEncoded(argv, rest);
    hide Read, Encode, EncodeLog, RunAll, Settled;
    NoRdb(log, s);
    var valid, before := LoadFromFront(log, s, |EncodeLog(log) + s|, FRESH, 0, 0, cfg);
    RunFresh(log, cfg.table);
  }

  /** An annotation line between commands changes nothing. */
  lemma AnnotationSkipped(log: seq<Argv>, note: Bytes, more: seq<Argv>, cfg: Config)
    requires Sound(log, cfg.table) && Sound(more, cfg.table) && !EndsInMulti(log + more, cfg.table)
    requires |note| + 2 <= LINE_ROOM && forall i :: 0 <= i < |note| ==> note[i] != '\n'
    ensures var file := EncodeLog(log) + ("#" + note + "\n" + EncodeLog(more));
            Load(file, cfg) == Outcome(Ok, Settled(log + more, cfg.table), |file|)
  {
    hide Encode, EncodeLog, RunAll, Settled, EndsInMulti, LineLength;
    var t, tail := cfg.table, EncodeLog(more);
    var s := "#" + note + "\n" + tail;
    LineLengthOf("#" + note, tail, LINE_ROOM);
    assert s == ("#" + note) + "\n" + tail && s[0] == '#' && s[|note| + 2..] == tail;
    NoRdb(log, s);
    var size, c := |EncodeLog(log) + s|, RunAll(FRESH, log, t);
    var valid, before := LoadFromFront(log, s, size, FRESH, 0, 0, cfg);
    assert Read(s) == Annotation(tail);
    assert LoadFrom(s, size, c, valid, before, cfg) == LoadFrom(tail, size, c, valid, before, cfg);
    hide Read, LoadFrom;
    RunAllConcat(FRESH, log, more, t);
    RunFresh(log + more, t);
    LoadFromWhole(more, size, c, valid, before, cfg);
  }

  // ------------------------------------------------------------------------ stray bytes

  /** A header whose count is missing because of a zero byte is a read error, not an end of file: fatal under every setting. */
  lemma StrayZero(log: seq<Argv>, rest: Bytes, cfg: Config)
    requires Sound(log, cfg.table) && '\n' in rest && |rest| + 2 < LINE_ROOM
    ensures var file := EncodeLog(log) + ("*\0" + rest);
            Load(file, cfg) == Outcome(Failed, Settled(log, cfg.table), |file|)
  {
    var s := "*\0" + rest;
    assert s[0] == '*' && s[1] == '\0' && s[2..] == rest;
    LineHasEnd(rest, LINE_ROOM - 2);
    assert s[1..] == "\0" + rest && ("\0" + rest)[1..] == rest;
    assert LineLength(s, LINE_ROOM) == 2 + LineLength(rest, LINE_ROOM - 2);
    assert Read(s) == ShortRead(false);
    hide Read, Encode, EncodeLog, RunAll, Settled, LineLength;
    NoRdb(log, s);
    var valid, before := LoadFromFront(log, s, |EncodeLog(log) + s|, FRESH, 0, 0, cfg);
    RunFresh(log, cfg.table);
  }

  lemma {:induction false} LineHasEnd(s: Bytes, room: nat)
    requires '\n' in s && |s| <= room
    ensures var n := LineLength(s, room); 0 < n <= |s| && s[n - 1] == '\n'
  {
    if s[0] != '\n' { LineHasEnd(s[1..], room - 1); }
  }

  /** A negative length is fatal too. */
  lemma NegativeLength(log: seq<Argv>, argc: nat, args: Argv, digits: Bytes, rest: Bytes, cfg: Config)
    requires Sound(log, cfg.table) && |args| < argc < INT_LIMIT && forall i :: 0 <= i < |args| ==> |args[i]| < LONG_LIMIT
    requires |digits| + 2 <= LINE_ROOM && Strtol(digits + "\n") < 0 && forall i :: 0 <= i < |digits| ==> digits[i] != '\n'
    ensures var file := EncodeLog(log) + (Header(argc) + (EncodeArgs(args) + ("$" + digits + "\n" + rest)));
            Load(file, cfg) == Outcome(Failed, Settled(log, cfg.table), |file|)
  {
    var line := "$" + digits + "\n" + rest;
    var s := Header(argc) + (EncodeArgs(args) + line);
    LineLengthOf("$" + digits, rest, LINE_ROOM);
    assert line == ("$" + digits) + "\n" + rest && line[1..|digits| + 2] == digits + "\n";
    assert s[0] == '*';
    hide Strtol, Encode, EncodeLog, RunAll, Settled, LineLength, EncodeArgs, Header;
    assert ReadArgs(line, argc - |args|, [] + args) == OutOfMemory;
    ReadSomeArgs(args, line, argc, []);
    ReadHeader(argc, EncodeArgs(args) + line);
    hide Read, ReadArgs;
    NoRdb(log, s);
    var valid, before := LoadFromFront(log, s, |EncodeLog(log) + s|, FRESH, 0, 0, cfg);
    RunFresh(log, cfg.table);
  }

  /** EXEC itself is never executed as a command, wherever it stands. */
  lemma {:induction false} ExecIsNoCommand(log: seq<Argv>, t: Table)
    ensures forall i :: 0 <= i < |Settled(log, t)| ==> t(Settled(log, t)[i]) != Exec
    decreases |log|
  {
    hide FirstExec;
    if log != [] {
      if t(log[0]) == Multi {
        var i := FirstExec(log[1..], t);
        if i < |log[1..]| { ExecIsNoCommand(log[1..][i + 1..], t); }
      } else {
        ExecIsNoCommand(log[1..], t);
      }
    }
  }

  /** A file in RDB format, which a BASE file may be, is told apart and left alone; an empty file is empty. */
  lemma OtherFiles(rest: Bytes, cfg: Config)
    ensures Load("REDIS" + rest, cfg) == Outcome(RdbFormat, [], 5 + |rest|) && Load("", cfg) == Outcome(Empty, [], 0)
  {
    assert "REDIS" <= "REDIS" + rest;
  }
}
