/**
 `loadSingleAppendOnlyFile`: replaying one command log, with MULTI/EXEC and with
 the tolerance for a cut tail that `aof-load-truncated` asks for.
 */
module Loader {
  import opened Decimal
  import opened Resp

  /** What `lookupCommand` finds, as far as the loader cares. */
  datatype Proc = Unknown | Multi | Exec | Select | Other

  type Table = Argv -> Proc

  // ----------------------------------------------------------- one transaction

  /** The fake client while the file is replayed. */
  datatype Client = Client(inMulti: bool, queue: seq<Argv>, executed: seq<Argv>)

  const FRESH: Client := Client(false, [], [])

  function Run(c: Client, argv: Argv, proc: Proc): Client {
    if c.inMulti then
      if proc == Exec then Client(false, [], c.executed + c.queue)
      else c.(queue := c.queue + [argv])
    else if proc == Multi then Client(true, [], c.executed)
    else if proc == Exec then c
    else c.(executed := c.executed + [argv])
  }

  function RunAll(c: Client, log: seq<Argv>, table: Table): Client
    decreases |log|
  {
    if log == [] then c else RunAll(Run(c, log[0], table(log[0])), log[1..], table)
  }

  // -------------------------------------------------------------- the whole file

  datatype Config = Config(table: Table, loadTruncated: bool, truncateWorks: bool)

  datatype Status = Ok | Truncated | Empty | Failed | RdbFormat

  /** What a load did: its verdict, the commands it executed, and the size it left the file at. */
  datatype Outcome = Outcome(status: Status, executed: seq<Argv>, size: nat)

  /** The label `uxeof`: cut the file back if allowed, otherwise give up. */
  function UnexpectedEnd(executed: seq<Argv>, size: nat, valid: nat, cfg: Config): Outcome {
    if cfg.loadTruncated && cfg.truncateWorks then Outcome(Truncated, executed, valid)
    else Outcome(Failed, executed, size)
  }

  /** The reading loop from the point where `s` is still unread. */
  function LoadFrom(s: Bytes, size: nat, c: Client, valid: nat, beforeMulti: nat, cfg: Config): Outcome
    requires |s| <= size
    decreases |s|
  {
    match Read(s)
    case AtEnd =>
      if c.inMulti then UnexpectedEnd(c.executed, size, beforeMulti, cfg)
      else Outcome(Ok, c.executed, size)
    case Annotation(rest) => LoadFrom(rest, size, c, valid, beforeMulti, cfg)
    case Command(argv, rest) =>
      var proc := cfg.table(argv);
      if proc == Unknown then Outcome(Failed, c.executed, size)
      else
        LoadFrom(rest, size, Run(c, argv, proc),
                 if cfg.loadTruncated then size - |rest| else valid,
                 if proc == Multi then valid else beforeMulti, cfg)
    case ShortRead(eof) =>
      if eof then UnexpectedEnd(c.executed, size, valid, cfg) else Outcome(Failed, c.executed, size)
    case FormatError => Outcome(Failed, c.executed, size)
    case OutOfMemory => Outcome(Failed, c.executed, size)
  }

  function Load(file: Bytes, cfg: Config): Outcome {
    if file == "" then Outcome(Empty, [], 0)
    else if "REDIS" <= file then Outcome(RdbFormat, [], |file|)
    else LoadFrom(file, |file|, FRESH, 0, 0, cfg)
  }

  /** The inner loop: `argc` bulk strings off the stream, whose unread bytes are `stream`. */
  method ReadArguments(stream: Bytes, argc: nat) returns (r: Reading)
    ensures r == ReadArgs(stream, argc, [])
  {
    hide Strtol, LineLength;
    var s: Bytes, argv: Argv, j: nat := stream, [], 0;
    while j < argc
      invariant 0 <= j <= argc
      invariant ReadArgs(s, argc - j, argv) == ReadArgs(stream, argc, [])
    {
      if s == "" { return ShortRead(true); }
      var n := LineLength(s, LINE_ROOM);
      if s[0] != '$' { return FormatError; }
      var len := Strtol(s[1..n]);
      s := s[n..];
      if len < 0 { return OutOfMemory; }
      if |s| < len + 2 { return ShortRead(true); }
      argv := argv + [s[..len]];
      s := s[len + 2..];
      j := j + 1;
    }
    r := Command(argv, s);
  }

  /** One turn of the outer loop up to the point where a command is in hand. */
  method ReadCommand(stream: Bytes) returns (r: Reading)
    ensures r == Read(stream)
    ensures r.Command? || r.Annotation? ==> TailOf(r.rest, stream) && |r.rest| < |stream|
    ensures forall argv, rest :: Fits(argv) && stream == Encode(argv) + rest ==> r == Command(argv, rest)
    ensures forall argv :: Fits(argv) && stream != "" && stream < Encode(argv) ==> r == ShortRead(true)
  {
    hide Strtol, LineLength, Atoi, Encode, ReadArgs;
    ReadLeavesTail(stream);
    forall argv, rest | Fits(argv) && stream == Encode(argv) + rest ensures Read(stream) == Command(argv, rest) {
      ReadEncoded(argv, rest);
    }
    forall argv | Fits(argv) && stream != "" && stream < Encode(argv) ensures Read(stream) == ShortRead(true) {
      CutCommand(argv, stream);
    }
    if stream == "" { return AtEnd; }
    var n := LineLength(stream, LINE_ROOM);
    if stream[0] == '#' { return Annotation(stream[n..]); }
    if stream[0] != '*' { return FormatError; }
    if n == 1 || stream[1] == '\0' {
      return ShortRead(n == |stream| && n < LINE_ROOM && stream[n - 1] != '\n');
    }
    var argc := Atoi(stream[1..n]);
    if argc < 1 { return FormatError; }
    r := ReadArguments(stream[n..], argc);
  }

  /** The outer loop, over a file that is not in RDB format. */
  method ReplayStream(file: Bytes, cfg: Config) returns (r: Outcome)
    ensures r == LoadFrom(file, |file|, FRESH, 0, 0, cfg)
  {
    hide Read, UnexpectedEnd, Run;
    var s: Bytes, valid: nat, beforeMulti: nat, c := file, 0, 0, FRESH;
    while true
      invariant |s| <= |file|
      invariant LoadFrom(file, |file|, FRESH, 0, 0, cfg) == LoadFrom(s, |file|, c, valid, beforeMulti, cfg)
      decreases |s|
    {
      var reading := ReadCommand(s);
      match reading {
        case AtEnd => break;
        case Annotation(rest) => s := rest;
        case FormatError => return Outcome(Failed, c.executed, |file|);
        case OutOfMemory => return Outcome(Failed, c.executed, |file|);
        case ShortRead(eof) =>
          if !eof { return Outcome(Failed, c.executed, |file|); }
          return UnexpectedEnd(c.executed, |file|, valid, cfg);
        case Command(argv, rest) =>
          var proc := cfg.table(argv);
          if proc == Unknown { return Outcome(Failed, c.executed, |file|); }
          if proc == Multi { beforeMulti := valid; }
          c := Run(c, argv, proc);
          s := rest;
          if cfg.loadTruncated { valid := |file| - |s|; }
      }
    }
    if c.inMulti { return UnexpectedEnd(c.executed, |file|, beforeMulti, cfg); }
    r := Outcome(Ok, c.executed, |file|);
  }

  lemma {:induction false} TruncatedByChoice(s: Bytes, size: nat, c: Client, valid: nat, beforeMulti: nat, cfg: Config)
    requires |s| <= size
    ensures LoadFrom(s, size, c, valid, beforeMulti, cfg).status == Truncated ==> cfg.loadTruncated && cfg.truncateWorks
    decreases |s|
  {
    hide Read, Run;
    match Read(s)
    case Annotation(rest) => TruncatedByChoice(rest, size, c, valid, beforeMulti, cfg);
    case Command(argv, rest) =>
      var proc := cfg.table(argv);
      if proc != Unknown {
        TruncatedByChoice(rest, size, Run(c, argv, proc), if cfg.loadTruncated then size - |rest| else valid,
                          if proc == Multi then valid else beforeMulti, cfg);
      }
    case _ =>
  }

  method LoadSingleAppendOnlyFile(file: Bytes, cfg: Config) returns (r: Outcome)
    ensures r == Load(file, cfg)
    ensures forall log :: Sound(log, cfg.table) && !EndsInMulti(log, cfg.table) && file == EncodeLog(log) && log != [] ==>
              r == Outcome(Ok, Settled(log, cfg.table), |file|)
    ensures r.status == Truncated ==> cfg.loadTruncated && cfg.truncateWorks
  {
    hide LoadFrom, EncodeLog, EndsInMulti, Settled;
    forall log | Sound(log, cfg.table) && !EndsInMulti(log, cfg.table) && file == EncodeLog(log)
      ensures Load(file, cfg) == if log == [] then Outcome(Empty, [], 0) else Outcome(Ok, Settled(log, cfg.table), |file|)
    {
      LoadClosedLog(log, cfg);
    }
    TruncatedByChoice(file, |file|, FRESH, 0, 0, cfg);
    if |file| == 0 { return Outcome(Empty, [], 0); }
    if "REDIS" <= file { return Outcome(RdbFormat, [], |file|); }
    r := ReplayStream(file, cfg);
  }

  // ------------------------------------------- what replaying a log should mean

  /** The position of the first EXEC, or the length when there is none. */
  function FirstExec(log: seq<Argv>, t: Table): (i: nat)
    ensures i <= |log| && (i < |log| ==> t(log[i]) == Exec)
    ensures forall j :: 0 <= j < i ==> t(log[j]) != Exec
  {
    if log == [] || t(log[0]) == Exec then 0 else 1 + FirstExec(log[1..], t)
  }

  /** The commands of a log that take effect: those outside any transaction, and the
      bodies of the transactions that reach their EXEC. */
  function Settled(log: seq<Argv>, t: Table): seq<Argv>
    decreases |log|
  {
    if log == [] then []
    else if t(log[0]) == Multi then
      var body := log[1..];
      var i := FirstExec(body, t);
      if i == |body| then [] else body[..i] + Settled(body[i + 1..], t)
    else if t(log[0]) == Exec then Settled(log[1..], t)
    else [log[0]] + Settled(log[1..], t)
  }

  /** Some MULTI is not followed by any EXEC. */
  predicate EndsInMulti(log: seq<Argv>, t: Table) {
    exists i :: 0 <= i < |log| && t(log[i]) == Multi && NoExec(log[i..], t)
  }

  predicate NoExec(log: seq<Argv>, t: Table) { forall j :: 0 <= j < |log| ==> t(log[j]) != Exec }

  /** The position of the last MULTI of a log, or the length when it has none. */
  function LastMulti(log: seq<Argv>, t: Table): (m: nat)
    ensures m <= |log| && (m < |log| ==> t(log[m]) == Multi)
    ensures forall j :: 0 <= j < |log| && (m < j || m == |log|) ==> t(log[j]) != Multi
  {
    if log == [] then 0
    else
      var last := |log| - 1;
      if t(log[last]) == Multi then last
      else
        var m := LastMulti(log[..last], t);
        if m == last then |log| else m
  }

  // ------------------------------------------------------------- transactions

  lemma {:induction false} RunQueued(c: Client, body: seq<Argv>, t: Table)
    requires c.inMulti && NoExec(body, t)
    ensures RunAll(c, body, t) == c.(queue := c.queue + body)
    decreases |body|
  {
    if body == [] {
      assert c.queue + body == c.queue;
    } else {
      var d := c.(queue := c.queue + [body[0]]);
      RunQueued(d, body[1..], t);
      assert c.queue + [body[0]] + body[1..] == c.queue + body;
    }
  }

  lemma {:induction false} RunAllConcat(c: Client, a: seq<Argv>, b: seq<Argv>, t: Table)
    ensures RunAll(c, a + b, t) == RunAll(RunAll(c, a, t), b, t)
    decreases |a|
  {
    if a == [] {
      assert a + b == b;
    } else {
      assert (a + b)[1..] == a[1..] + b;
      RunAllConcat(Run(c, a[0], t(a[0])), a[1..], b, t);
    }
  }

  lemma EndsInMultiTail(log: seq<Argv>, k: nat, t: Table)
    requires k <= |log|
    requires forall i :: 0 <= i < k && t(log[i]) == Multi ==> !NoExec(log[i..], t)
    ensures EndsInMulti(log, t) <==> EndsInMulti(log[k..], t)
  {
    var tail := log[k..];
    if EndsInMulti(log, t) {
      var i :| 0 <= i < |log| && t(log[i]) == Multi && NoExec(log[i..], t);
      assert tail[i - k..] == log[i..] && tail[i - k] == log[i];
    }
    if EndsInMulti(tail, t) {
      var i :| 0 <= i < |tail| && t(tail[i]) == Multi && NoExec(tail[i..], t);
      assert log[i + k..] == tail[i..] && log[i + k] == tail[i];
    }
  }

  /** A finished transaction at the front adds its body and closes again. */
  lemma RunTransaction(c: Client, log: seq<Argv>, t: Table)
    requires !c.inMulti && log != [] && t(log[0]) == Multi
    ensures var body := log[1..];
            var i := FirstExec(body, t);
            if i == |body| then RunAll(c, log, t) == Client(true, body, c.executed)
            else RunAll(c, log, t) == RunAll(Client(false, [], c.executed + body[..i]), body[i + 1..], t)
  {
    hide FirstExec;
    var body := log[1..];
    var i := FirstExec(body, t);
    var open := Client(true, [], c.executed);
    RunQueued(open, body[..i], t);
    assert [] + body[..i] == body[..i];
    assert body == body[..i] + body[i..];
    RunAllConcat(open, body[..i], body[i..], t);
    if i < |body| {
      assert body[i..][0] == body[i] && body[i..][1..] == body[i + 1..];
    }
  }

  lemma EndsInMultiTransaction(log: seq<Argv>, t: Table)
    requires log != [] && t(log[0]) == Multi
    ensures var body := log[1..];
            var i := FirstExec(body, t);
            EndsInMulti(log, t) <==> i == |body| || EndsInMulti(body[i + 1..], t)
  {
    var body := log[1..];
    var i := FirstExec(body, t);
    if i == |body| {
      assert log[0..] == [log[0]] + body;
      assert NoExec(log[0..], t);
    } else {
      assert body[i + 1..] == log[i + 2..];
      forall j | 0 <= j < i + 2 && t(log[j]) == Multi ensures !NoExec(log[j..], t) {
        assert log[j..][i + 1 - j] == body[i];
      }
      EndsInMultiTail(log, i + 2, t);
    }
  }

  lemma EndsInMultiPlain(log: seq<Argv>, t: Table)
    requires log != [] && t(log[0]) != Multi
    ensures EndsInMulti(log, t) <==> EndsInMulti(log[1..], t)
  {
    EndsInMultiTail(log, 1, t);
  }

  lemma SettledMulti(log: seq<Argv>, t: Table)
    requires log != [] && t(log[0]) == Multi
    ensures var body := log[1..];
            var i := FirstExec(body, t);
            Settled(log, t) == if i == |body| then [] else body[..i] + Settled(body[i + 1..], t)
  {
    hide FirstExec;
  }

  /** The loader's client executes exactly the settled commands... */
  lemma {:induction false} RunAllSettles(c: Client, log: seq<Argv>, t: Table)
    requires !c.inMulti
    ensures RunAll(c, log, t).executed == c.executed + Settled(log, t)
    decreases |log|
  {
    hide Settled;
    if log == [] {
      ClosedEmpty(t);
      assert c.executed + [] == c.executed;
    } else if t(log[0]) == Multi {
      RunAllSettlesMulti(c, log, t);
    } else {
      var d, rest := Run(c, log[0], t(log[0])), Settled(log[1..], t);
      RunAllSettles(d, log[1..], t);
      SettledCommand(log, t);
      assert c.executed + ([log[0]] + rest) == (c.executed + [log[0]]) + rest;
    }
  }

  lemma SettledCommand(log: seq<Argv>, t: Table)
    requires log != [] && t(log[0]) != Multi
    ensures Settled(log, t) == if t(log[0]) == Exec then Settled(log[1..], t) else [log[0]] + Settled(log[1..], t)
  {}

  lemma {:induction false} RunAllSettlesMulti(c: Client, log: seq<Argv>, t: Table)
    requires !c.inMulti && log != [] && t(log[0]) == Multi
    ensures RunAll(c, log, t).executed == c.executed + Settled(log, t)
    decreases |log|, 0
  {
    hide FirstExec, Settled, RunAll;
    RunTransaction(c, log, t);
    SettledMulti(log, t);
    var body := log[1..];
    var i := FirstExec(body, t);
    if i == |body| {
      assert c.executed + [] == c.executed;
    } else {
      var rest := body[i + 1..];
      RunAllSettles(Client(false, [], c.executed + body[..i]), rest, t);
      assert c.executed + (body[..i] + Settled(rest, t)) == (c.executed + body[..i]) + Settled(rest, t);
    }
  }

  /** ... and is left inside a transaction exactly when the log ends in one. */
  lemma {:induction false} RunAllOpen(c: Client, log: seq<Argv>, t: Table)
    requires !c.inMulti
    ensures RunAll(c, log, t).inMulti <==> EndsInMulti(log, t)
    decreases |log|
  {
    if log != [] {
      hide EndsInMulti, FirstExec;
      if t(log[0]) == Multi {
        RunTransaction(c, log, t);
        EndsInMultiTransaction(log, t);
        var body := log[1..];
        var i := FirstExec(body, t);
        if i < |body| {
          RunAllOpen(Client(false, [], c.executed + body[..i]), body[i + 1..], t);
        }
      } else {
        RunAllOpen(Run(c, log[0], t(log[0])), log[1..], t);
        EndsInMultiPlain(log, t);
      }
    }
  }

  // -------------------------------------------------------------- cut log files

  /** A log the server wrote: commands that fit and that it can look up again. */
  predicate Sound(log: seq<Argv>, t: Table) {
    AllFit(log) && forall i :: 0 <= i < |log| ==> t(log[i]) != Unknown
  }

  /** Where the last MULTI starts when the log follows `off` earlier bytes. */
  function MultiOffset(log: seq<Argv>, t: Table, off: nat, beforeMulti: nat): nat
    decreases |log|
  {
    if log == [] then beforeMulti
    else MultiOffset(log[1..], t, off + |Encode(log[0])|, if t(log[0]) == Multi then off else beforeMulti)
  }

  lemma {:induction false} MultiOffsetSnoc(log: seq<Argv>, last: Argv, t: Table, off: nat, beforeMulti: nat)
    ensures MultiOffset(log + [last], t, off, beforeMulti)
         == if t(last) == Multi then off + |EncodeLog(log)| else MultiOffset(log, t, off, beforeMulti)
    decreases |log|
  {
    hide Encode;
    if log == [] {
      assert log + [last] == [last];
    } else {
      assert (log + [last])[1..] == log[1..] + [last] && (log + [last])[0] == log[0];
      assert EncodeLog(log) == Encode(log[0]) + EncodeLog(log[1..]);
      MultiOffsetSnoc(log[1..], last, t, off + |Encode(log[0])|, if t(log[0]) == Multi then off else beforeMulti);
    }
  }

  lemma {:induction false} MultiOffsetIsLastMulti(log: seq<Argv>, t: Table, otherwise: nat)
    ensures var m := LastMulti(log, t);
            MultiOffset(log, t, 0, otherwise) == if m == |log| then otherwise else Extent(log, m)
  {
    if log != [] {
      var last := |log| - 1;
      var init := log[..last];
      assert log == init + [log[last]];
      MultiOffsetSnoc(init, log[last], t, 0, otherwise);
      MultiOffsetIsLastMulti(init, t, otherwise);
      var m := LastMulti(init, t);
      assert init[..m] == log[..m];
    }
  }

  /** How a load ends, given the client it leaves behind and where the bytes stopped. */
  function Verdict(c: Client, size: nat, valid: nat, beforeMulti: nat, torn: bool, cfg: Config): Outcome {
    if torn then UnexpectedEnd(c.executed, size, valid, cfg)
    else if c.inMulti then UnexpectedEnd(c.executed, size, beforeMulti, cfg)
    else Outcome(Ok, c.executed, size)
  }

  /** Bytes of the first `k` commands of a log. */
  function Extent(log: seq<Argv>, k: nat): nat
    requires k <= |log|
  {
    |EncodeLog(log[..k])|
  }

  lemma {:induction false} WholeExtent(log: seq<Argv>, n: nat)
    requires n <= |EncodeLog(log)|
    ensures Extent(log, Whole(log, n)) <= n
    ensures Whole(log, n) < |log| ==> n < Extent(log, Whole(log, n) + 1)
    ensures Whole(log, n) == |log| ==> n == |EncodeLog(log)|
  {
    hide Encode;
    var k := Whole(log, n);
    if log == [] || n < |Encode(log[0])| {
      assert log[..0] == [];
      if log != [] {
        assert log[..1] == [log[0]];
        assert EncodeLog([log[0]]) == Encode(log[0]) + EncodeLog([]);
      }
    } else {
      WholeExtent(log[1..], n - |Encode(log[0])|);
      assert log[..k][1..] == log[1..][..k - 1];
      if k < |log| { assert log[..k + 1][1..] == log[1..][..k]; }
    }
  }

  /** One whole command at the front of the stream. */
  lemma LoadFromStep(argv: Argv, rest: Bytes, size: nat, c: Client, valid: nat, beforeMulti: nat, cfg: Config)
    requires Fits(argv) && cfg.table(argv) != Unknown && |Encode(argv) + rest| <= size
    ensures LoadFrom(Encode(argv) + rest, size, c, valid, beforeMulti, cfg)
         == LoadFrom(rest, size, Run(c, argv, cfg.table(argv)), if cfg.loadTruncated then size - |rest| else valid,
                     if cfg.table(argv) == Multi then valid else beforeMulti, cfg)
  {
    hide Encode, Read;
    ReadEncoded(argv, rest);
  }

  lemma LoadFromEnd(size: nat, c: Client, valid: nat, beforeMulti: nat, cfg: Config)
    ensures LoadFrom("", size, c, valid, beforeMulti, cfg) == Verdict(c, size, valid, beforeMulti, false, cfg)
  {}

  /** A command cut short at the end of the stream. */
  lemma LoadFromTorn(argv: Argv, s: Bytes, size: nat, c: Client, valid: nat, beforeMulti: nat, cfg: Config)
    requires Fits(argv) && s < Encode(argv) && |s| <= size
    ensures LoadFrom(s, size, c, valid, beforeMulti, cfg)
         == Verdict(c, size, valid, beforeMulti, s != "", cfg)
  {
    if s != "" {
      hide Encode, Read;
      CutCommand(argv, s);
    }
  }

  /** The loop over a cut log, from any point of a load. */
  lemma {:induction false} LoadFromCut(log: seq<Argv>, n: nat, size: nat, c: Client, valid: nat, beforeMulti: nat, cfg: Config)
    requires Sound(log, cfg.table) && n <= |EncodeLog(log)| && n <= size
    requires cfg.loadTruncated && valid == size - n
    ensures var k := Whole(log, n);
            Extent(log, k) <= n
            && LoadFrom(EncodeLog(log)[..n], size, c, valid, beforeMulti, cfg)
               == Verdict(RunAll(c, log[..k], cfg.table), size, valid + Extent(log, k),
                          MultiOffset(log[..k], cfg.table, valid, beforeMulti), Extent(log, k) < n, cfg)
    decreases |log|
  {
    hide Encode, Read, Verdict, LoadFrom, Run;
    WholeExtent(log, n);
    var k := Whole(log, n);
    var s := EncodeLog(log)[..n];
    if k == 0 {
      assert log[..0] == [] && EncodeLog([]) == "";
      if log == [] {
        LoadFromEnd(size, c, valid, beforeMulti, cfg);
      } else {
        assert s < Encode(log[0]) by { assert s == Encode(log[0])[..n]; }
        LoadFromTorn(log[0], s, size, c, valid, beforeMulti, cfg);
      }
    } else {
      var first := Encode(log[0]);
      var m := n - |first|;
      var rest := EncodeLog(log[1..])[..m];
      assert s == first + rest;
      LoadFromStep(log[0], rest, size, c, valid, beforeMulti, cfg);
      assert log[..k][1..] == log[1..][..k - 1] && log[..k][0] == log[0];
      LoadFromCut(log[1..], m, size, Run(c, log[0], cfg.table(log[0])), size - m,
                  if cfg.table(log[0]) == Multi then valid else beforeMulti, cfg);
    }
  }

  lemma LogStart(log: seq<Argv>, n: nat)
    requires 0 < n <= |EncodeLog(log)|
    ensures !("REDIS" <= EncodeLog(log)[..n])
  {
    var s := EncodeLog(log)[..n];
    assert s[0] == '*';
  }

  /** What loading the first `n` bytes of a log should give: never a format error, exactly the
      settled whole commands, and the file cut back to the last whole command -- or, when nothing
      is torn but a transaction is open, to just before its MULTI. */
  function CutOutcome(log: seq<Argv>, n: nat, t: Table): Outcome {
    var k := Whole(log, n);
    var whole := log[..k];
    if n == 0 then Outcome(Empty, [], 0)
    else if Extent(log, k) < n then Outcome(Truncated, Settled(whole, t), Extent(log, k))
    else if EndsInMulti(whole, t) then Outcome(Truncated, Settled(whole, t), Extent(whole, LastMulti(whole, t)))
    else Outcome(Ok, Settled(whole, t), n)
  }

  lemma LoadCutLog(log: seq<Argv>, n: nat, cfg: Config)
    requires Sound(log, cfg.table) && n <= |EncodeLog(log)|
    requires cfg.loadTruncated && cfg.truncateWorks
    ensures Load(EncodeLog(log)[..n], cfg) == CutOutcome(log, n, cfg.table)
  {
    hide Encode, LoadFrom, EndsInMulti, Settled, LastMulti, MultiOffset, RunAll;
    WholeExtent(log, n);
    if n > 0 {
      var whole := log[..Whole(log, n)];
      LogStart(log, n);
      LoadFromCut(log, n, n, FRESH, 0, 0, cfg);
      RunAllSettles(FRESH, whole, cfg.table);
      RunAllOpen(FRESH, whole, cfg.table);
      assert [] + Settled(whole, cfg.table) == Settled(whole, cfg.table);
      MultiOffsetIsLastMulti(whole, cfg.table, 0);
      if EndsInMulti(whole, cfg.table) { OpenHasMulti(whole, cfg.table); }
    }
  }

  lemma OpenHasMulti(log: seq<Argv>, t: Table)
    requires EndsInMulti(log, t)
    ensures LastMulti(log, t) < |log|
  {}

  // --------------------------------------------------- appending after a cut load

  /** Transactions do not nest: no MULTI while one is open. */
  predicate Unnested(log: seq<Argv>, t: Table) {
    forall i :: 0 <= i < |log| && t(log[i]) == Multi ==> !EndsInMulti(log[..i], t)
  }

  lemma RunFresh(log: seq<Argv>, t: Table)
    ensures RunAll(FRESH, log, t).executed == Settled(log, t)
    ensures RunAll(FRESH, log, t).inMulti <==> EndsInMulti(log, t)
  {
    hide EndsInMulti, Settled, RunAll;
    RunAllSettles(FRESH, log, t);
    RunAllOpen(FRESH, log, t);
    assert [] + Settled(log, t) == Settled(log, t);
  }

  lemma SettledConcat(a: seq<Argv>, b: seq<Argv>, t: Table)
    requires !EndsInMulti(a, t)
    ensures Settled(a + b, t) == Settled(a, t) + Settled(b, t)
    ensures EndsInMulti(a + b, t) <==> EndsInMulti(b, t)
  {
    hide EndsInMulti, Settled, RunAll;
    RunAllConcat(FRESH, a, b, t);
    RunFresh(a, t);
    RunFresh(a + b, t);
    RunAllSettles(RunAll(FRESH, a, t), b, t);
    RunAllOpen(RunAll(FRESH, a, t), b, t);
  }

  /** While a transaction stays open, nothing appended takes effect. */
  lemma SettledSwallowed(a: seq<Argv>, b: seq<Argv>, t: Table)
    requires EndsInMulti(a, t) && NoExec(b, t)
    ensures Settled(a + b, t) == Settled(a, t)
  {
    hide EndsInMulti, Settled, RunAll;
    RunAllConcat(FRESH, a, b, t);
    RunFresh(a, t);
    RunFresh(a + b, t);
    RunQueued(RunAll(FRESH, a, t), b, t);
  }

  lemma NoExecAfterLastMulti(log: seq<Argv>, t: Table)
    requires EndsInMulti(log, t)
    ensures LastMulti(log, t) < |log| && NoExec(log[LastMulti(log, t) + 1..], t)
  {
    var m := LastMulti(log, t);
    var i :| 0 <= i < |log| && t(log[i]) == Multi && NoExec(log[i..], t);
    var rest := log[m + 1..];
    forall j | 0 <= j < |rest| ensures t(rest[j]) != Exec {
      assert rest[j] == log[i..][m + 1 + j - i];
    }
  }

  lemma SettledBeforeOpenMulti(log: seq<Argv>, t: Table)
    requires EndsInMulti(log, t) && Unnested(log, t)
    ensures LastMulti(log, t) < |log|
    ensures !EndsInMulti(log[..LastMulti(log, t)], t)
    ensures Settled(log[..LastMulti(log, t)], t) == Settled(log, t)
  {
    hide EndsInMulti, Settled, LastMulti, NoExec;
    NoExecAfterLastMulti(log, t);
    var m := LastMulti(log, t);
    assert t(log[m]) == Multi;
    OpenTailIsInert(log[..m], log[m], log[m + 1..], t);
    assert log == log[..m] + ([log[m]] + log[m + 1..]);
  }

  lemma OpenTailIsInert(a: seq<Argv>, multi: Argv, b: seq<Argv>, t: Table)
    requires !EndsInMulti(a, t) && t(multi) == Multi && NoExec(b, t)
    ensures Settled(a + ([multi] + b), t) == Settled(a, t)
  {
    hide EndsInMulti, Settled, NoExec;
    RunFresh(a, t);
    RunFresh(a + ([multi] + b), t);
    RunAllConcat(FRESH, a, [multi] + b, t);
    var c := RunAll(FRESH, a, t);
    assert ([multi] + b)[1..] == b;
    RunQueued(Client(true, [], c.executed), b, t);
  }

  /** How many commands the file holds that a cut load leaves behind. */
  function KeptCommands(log: seq<Argv>, n: nat, t: Table): (k: nat)
    ensures k <= |log|
  {
    var k := Whole(log, n);
    if n > 0 && Extent(log, k) == n && EndsInMulti(log[..k], t) then LastMulti(log[..k], t) else k
  }

  /** The cut fell inside a command of a transaction whose EXEC is missing. */
  predicate TornInMulti(log: seq<Argv>, n: nat, t: Table) {
    var k := Whole(log, n);
    Extent(log, k) < n && EndsInMulti(log[..k], t)
  }

  lemma KeptIsLog(log: seq<Argv>, n: nat, t: Table)
    requires n <= |EncodeLog(log)|
    ensures CutOutcome(log, n, t).size == Extent(log, KeptCommands(log, n, t)) <= |EncodeLog(log)|
    ensures EncodeLog(log)[..CutOutcome(log, n, t).size] == EncodeLog(log[..KeptCommands(log, n, t)])
  {
    hide Encode, EndsInMulti, LastMulti, Settled, Whole;
    WholeExtent(log, n);
    var k, m := Whole(log, n), KeptCommands(log, n, t);
    assert log[..m] == log[..k][..m];
    if n == 0 { WholeNone(log); assert log[..0] == []; }
    hide CutOutcome, KeptCommands, EncodeLog;
    EncodeLogConcat(log[..m], log[m..]);
    assert log == log[..m] + log[m..];
  }

  lemma LoadWholeLog(log: seq<Argv>, cfg: Config)
    requires Sound(log, cfg.table) && cfg.loadTruncated && cfg.truncateWorks
    ensures Load(EncodeLog(log), cfg).executed == Settled(log, cfg.table)
  {
    var n := |EncodeLog(log)|;
    LoadCutLog(log, n, cfg);
    hide Load, Encode, EndsInMulti, LastMulti;
    assert EncodeLog(log)[..n] == EncodeLog(log);
    WholeAll(log);
    assert log[..|log|] == log;
    if log != [] { EncodeNonEmpty(log[0]); }
  }

  lemma {:induction false} LoadFromWhole(log: seq<Argv>, size: nat, c: Client, valid: nat, beforeMulti: nat, cfg: Config)
    requires Sound(log, cfg.table) && |EncodeLog(log)| <= size
    ensures var d := RunAll(c, log, cfg.table);
            !d.inMulti ==> LoadFrom(EncodeLog(log), size, c, valid, beforeMulti, cfg) == Outcome(Ok, d.executed, size)
    decreases |log|
  {
    hide Encode, Run, LoadFrom;
    if log == [] {
      LoadFromEnd(size, c, valid, beforeMulti, cfg);
    } else {
      var rest, proc := EncodeLog(log[1..]), cfg.table(log[0]);
      LoadFromStep(log[0], rest, size, c, valid, beforeMulti, cfg);
      LoadFromWhole(log[1..], size, Run(c, log[0], proc), if cfg.loadTruncated then size - |rest| else valid,
                    if proc == Multi then valid else beforeMulti, cfg);
    }
  }

  /** A complete log loads without complaint under every setting, and settles entirely. */
  lemma LoadClosedLog(log: seq<Argv>, cfg: Config)
    requires Sound(log, cfg.table) && !EndsInMulti(log, cfg.table)
    ensures Load(EncodeLog(log), cfg)
         == if log == [] then Outcome(Empty, [], 0) else Outcome(Ok, Settled(log, cfg.table), |EncodeLog(log)|)
  {
    hide LoadFrom, Encode, EndsInMulti, Settled, RunAll;
    if log != [] {
      var n := |EncodeLog(log)|;
      EncodeNonEmpty(log[0]);
      assert EncodeLog(log)[..n] == EncodeLog(log);
      LogStart(log, n);
      RunFresh(log, cfg.table);
      LoadFromWhole(log, n, FRESH, 0, 0, cfg);
    }
  }

  lemma {:induction false} WholeAll(log: seq<Argv>)
    ensures Whole(log, |EncodeLog(log)|) == |log|
  {
    if log != [] { WholeAll(log[1..]); }
  }

  /** The bytes of a log that ends in an open transaction are not those of any complete log. */
  lemma OpenLogDiffers(log: seq<Argv>, closed: seq<Argv>, t: Table)
    requires Sound(log, t) && EndsInMulti(log, t) && Sound(closed, t) && !EndsInMulti(closed, t)
    ensures EncodeLog(log) != EncodeLog(closed)
  {
    var n, cfg := |EncodeLog(log)|, Config(t, true, true);
    LoadCutLog(log, n, cfg);
    LoadClosedLog(closed, cfg);
    WholeAll(log);
    EncodeNonEmpty(log[0]);
    assert EncodeLog(log)[..n] == EncodeLog(log) && log[..|log|] == log;
    hide Load, Encode, EndsInMulti, Settled, LastMulti;
  }

  lemma WholeNone(log: seq<Argv>)
    ensures Whole(log, 0) == 0
  {}

  /** Loading the kept part with more commands appended. */
  lemma LoadAppended(log: seq<Argv>, n: nat, more: seq<Argv>, cfg: Config)
    requires Sound(log, cfg.table) && Sound(more, cfg.table) && n <= |EncodeLog(log)|
    requires cfg.loadTruncated && cfg.truncateWorks
    ensures var r := CutOutcome(log, n, cfg.table);
            r.size <= |EncodeLog(log)|
            && Load(EncodeLog(log)[..r.size] + EncodeLog(more), cfg).executed
               == Settled(log[..KeptCommands(log, n, cfg.table)] + more, cfg.table)
  {
    hide Load, EncodeLog, CutOutcome, KeptCommands, Settled;
    var kept := log[..KeptCommands(log, n, cfg.table)];
    KeptIsLog(log, n, cfg.table);
    EncodeLogConcat(kept, more);
    LoadWholeLog(kept + more, cfg);
  }

  /** Unless torn inside a transaction, the kept commands are closed and mean what was loaded. */
  lemma KeptSettled(log: seq<Argv>, n: nat, t: Table)
    requires Unnested(log, t) && n <= |EncodeLog(log)| && !TornInMulti(log, n, t)
    ensures var kept := log[..KeptCommands(log, n, t)];
            !EndsInMulti(kept, t) && Settled(kept, t) == CutOutcome(log, n, t).executed
  {
    hide EncodeLog, Whole, Settled, EndsInMulti, LastMulti;
    WholeExtent(log, n);
    var k := Whole(log, n);
    var whole := log[..k];
    if n == 0 {
      WholeNone(log);
      ClosedEmpty(t);
    } else if EndsInMulti(whole, t) {
      assert Unnested(whole, t) by {
        forall i | 0 <= i < |whole| && t(whole[i]) == Multi ensures !EndsInMulti(whole[..i], t) {
          assert whole[..i] == log[..i];
        }
      }
      SettledBeforeOpenMulti(whole, t);
      assert log[..LastMulti(whole, t)] == whole[..LastMulti(whole, t)];
    }
  }

  lemma ClosedEmpty(t: Table)
    ensures !EndsInMulti([], t) && Settled([], t) == []
  {}

  /** Everything appended after a cut load is seen, after the loaded commands, by the next load. */
  ghost predicate Resumable(log: seq<Argv>, n: nat, cfg: Config)
    requires n <= |EncodeLog(log)|
  {
    var r := Load(EncodeLog(log)[..n], cfg);
    r.size <= |EncodeLog(log)|
    && forall more | Sound(more, cfg.table) ::
         Load(EncodeLog(log)[..r.size] + EncodeLog(more), cfg).executed == r.executed + Settled(more, cfg.table)
  }

  /** The server can go on appending to a file it loaded after a cut if and only if the cut did
      not fall inside a command of an unfinished transaction: there the source cuts back to the
      last whole command, which leaves the MULTI open. */
  lemma ResumeAfterCut(log: seq<Argv>, n: nat, plain: Argv, cfg: Config)
    requires Sound(log, cfg.table) && Unnested(log, cfg.table) && n <= |EncodeLog(log)|
    requires cfg.loadTruncated && cfg.truncateWorks
    requires Fits(plain) && cfg.table(plain) == Other
    ensures Resumable(log, n, cfg) <==> !TornInMulti(log, n, cfg.table)
  {
    var t := cfg.table;
    LoadCutLog(log, n, cfg);
    KeptIsLog(log, n, t);
    if TornInMulti(log, n, t) {
      ResumeFails(log, n, plain, cfg);
    } else {
      KeptSettled(log, n, t);
      var r, kept := CutOutcome(log, n, t), log[..KeptCommands(log, n, t)];
      hide Load, Encode, CutOutcome, KeptCommands, Settled, EndsInMulti, TornInMulti;
      forall more | Sound(more, t)
        ensures Load(EncodeLog(log)[..r.size] + EncodeLog(more), cfg).executed == r.executed + Settled(more, t)
      {
        LoadAppended(log, n, more, cfg);
        SettledConcat(kept, more, t);
      }
    }
  }

  lemma ResumeFails(log: seq<Argv>, n: nat, plain: Argv, cfg: Config)
    requires Sound(log, cfg.table) && n <= |EncodeLog(log)| && TornInMulti(log, n, cfg.table)
    requires cfg.loadTruncated && cfg.truncateWorks
    requires Fits(plain) && cfg.table(plain) == Other
    ensures !Resumable(log, n, cfg)
  {
    var t := cfg.table;
    var more := [plain];
    var r := CutOutcome(log, n, t);
    assert Settled(more, t) == [plain] + Settled([], t);
    assert r.executed == Settled(log[..Whole(log, n)], t) && KeptCommands(log, n, t) == Whole(log, n);
    assert Sound(more, t) && NoExec(more, t);
    hide Load, Encode, CutOutcome, KeptCommands, Settled, EndsInMulti;
    LoadCutLog(log, n, cfg);
    LoadAppended(log, n, more, cfg);
    SettledSwallowed(log[..Whole(log, n)], more, t);
    assert |r.executed + Settled(more, t)| > |r.executed|;
  }

  // ---------------------------------------------------------- seeing it in the bytes

  /** The client after the whole commands at the front of `s`, and the bytes left over. */
  function Leftover(s: Bytes, c: Client, t: Table): (Client, Bytes)
    decreases |s|
  {
    match Read(s)
    case Command(argv, rest) => Leftover(rest, Run(c, argv, t(argv)), t)
    case _ => (c, s)
  }

  /** The file ends inside a command while a transaction is open. */
  predicate TornTransaction(file: Bytes, t: Table) {
    var (c, left) := Leftover(file, FRESH, t);
    c.inMulti && left != ""
  }

  lemma {:induction false} LeftoverOfCut(log: seq<Argv>, n: nat, c: Client, t: Table)
    requires AllFit(log) && n <= |EncodeLog(log)|
    ensures var k := Whole(log, n);
            Extent(log, k) <= n
            && Leftover(EncodeLog(log)[..n], c, t) == (RunAll(c, log[..k], t), EncodeLog(log)[Extent(log, k)..n])
    decreases |log|
  {
    hide Encode, Read, Run;
    WholeExtent(log, n);
    var k := Whole(log, n);
    var s := EncodeLog(log)[..n];
    if k == 0 {
      assert log[..0] == [] && EncodeLog([]) == "";
      if n == 0 {
        ReadNothing();
      } else {
        assert s < Encode(log[0]) by { assert s == Encode(log[0])[..n]; }
        CutCommand(log[0], s);
      }
    } else {
      var first := Encode(log[0]);
      var m := n - |first|;
      var rest := EncodeLog(log[1..])[..m];
      assert s == first + rest;
      ReadEncoded(log[0], rest);
      assert log[..k][1..] == log[1..][..k - 1] && log[..k][0] == log[0];
      LeftoverOfCut(log[1..], m, Run(c, log[0], t(log[0])), t);
      var e := Extent(log[1..], k - 1);
      assert Extent(log, k) == |first| + e;
      TailShift(first, EncodeLog(log[1..]), e, n);
    }
  }

  lemma TailShift(first: Bytes, rest: Bytes, e: nat, n: nat)
    requires |first| + e <= n <= |first + rest|
    ensures (first + rest)[|first| + e..n] == rest[e..n - |first|]
  {}

  lemma ReadNothing()
    ensures Read("") == AtEnd
  {}

  /** The condition of ResumeAfterCut can be read off the bytes that survived. */
  lemma TornIsVisible(log: seq<Argv>, n: nat, t: Table)
    requires AllFit(log) && n <= |EncodeLog(log)|
    ensures TornTransaction(EncodeLog(log)[..n], t) <==> TornInMulti(log, n, t)
  {
    hide EncodeLog, EndsInMulti, RunAll, Whole, Leftover;
    LeftoverOfCut(log, n, FRESH, t);
    RunFresh(log[..Whole(log, n)], t);
  }
}
