/**
 The rewrite compiler meets the persistence protocol: what a child writes for a
 dataset is a BASE file that represents it, and every dataset of a run can be written
 that way, so the protocol's promise holds for the modelled commands with a child
 that does nothing but compile the dataset it was forked with.
 */
module AofEndToEnd {
  import opened Common
  import opened Decimal
  import opened Resp
  import Loader
  import AofFeed
  import opened AofState
  import opened AofProtocol
  import AofFailures
  import K = Keyspace
  import opened Rewrite
  import opened RewriteMeaning
  import opened KeyspaceOrders

  type Dataset = seq<K.Db>

  function EmptyDataset(n: nat): Dataset { seq(n, _ => map[]) }

  /** One command on one database of a dataset. */
  function ApplyCommand(dbs: Dataset, db: int, argv: Argv): Dataset {
    if 0 <= db < |dbs| then K.Execute(K.State(dbs, db), argv).dbs else dbs
  }

  /** The server whose commands are those of Keyspace, with `n` databases. */
  function KeyspaceEngine(n: nat): Engine<Dataset> {
    Engine(EmptyDataset(n), ApplyCommand, K.Lookup)
  }

  lemma OtherKeepsSelection(s: K.State, argv: Argv)
    requires s.selected < |s.dbs| && K.Lookup(argv) == Loader.Other
    ensures K.Execute(s, argv).selected == s.selected
  {
    hide K.Same, K.PushOp;
  }

  lemma SelectOnlySelects(s: K.State, argv: Argv)
    requires s.selected < |s.dbs| && K.Lookup(argv) == Loader.Select && |argv| == 2 && 0 <= Strtol(argv[1]) < |s.dbs|
    ensures K.Execute(s, argv) == s.(selected := Strtol(argv[1]))
  {
    assert K.Same(argv[0], "select");
    assert |argv[0]| == 6;
    hide Strtol, K.PushOp;
  }

  /** Replaying command by command with a selected database is applying each command to its target. */
  lemma {:induction false} ReplayAgrees(n: nat, s: K.State, cmds: seq<Argv>)
    requires |s.dbs| == n && s.selected < n && AllPlain(cmds, n)
    ensures K.ExecuteAll(s, cmds).dbs
         == ApplyAll(KeyspaceEngine(n), s.dbs, AofFeed.Targets(cmds, s.selected, K.Lookup))
    decreases |cmds|
  {
    hide K.Lookup, K.Execute, Fits, Strtol;
    if cmds != [] {
      var argv, e := cmds[0], KeyspaceEngine(n);
      assert Plain(argv, n);
      var rest := cmds[1..];
      if K.Lookup(argv) == Loader.Select {
        SelectOnlySelects(s, argv);
        ReplayAgrees(n, s.(selected := Strtol(argv[1])), rest);
      } else {
        OtherKeepsSelection(s, argv);
        var t := K.Execute(s, argv);
        ReplayAgrees(n, t, rest);
        var ts := AofFeed.Targets(rest, s.selected, K.Lookup);
        assert AofFeed.Targets(cmds, s.selected, K.Lookup) == [(s.selected, argv)] + ts;
        assert ([(s.selected as int, argv)] + ts)[1..] == ts;
        assert e.apply(s.dbs, s.selected, argv) == t.dbs;
      }
    }
  }

  /** The log the rewrite child compiles represents the dataset it was forked with. */
  lemma DumpRepresents(orders: seq<seq<Visit>>, dbs: Dataset)
    requires ShortAll(orders, dbs) && dbs != []
    ensures Represents(KeyspaceEngine(|dbs|), EncodeLog(Dump(orders, dbs, 0)), dbs)
  {
    hide Loader.Load, EncodeLog, Dump, VisitsDb, Loader.Settled, Loader.EndsInMulti, ApplyAll, AofFeed.Targets, K.ExecuteAll;
    var log := Dump(orders, dbs, 0);
    var e := KeyspaceEngine(|dbs|);
    DumpPlain(orders, dbs, 0);
    SettledPlain(log, |dbs|);
    Loader.LoadClosedLog(log, Tolerant(K.Lookup));
    var start := K.State(EmptyDataset(|dbs|), 0);
    DumpRebuilds(orders, dbs, 0);
    ReplayAgrees(|dbs|, start, log);
  }

  // ------------------------------------------------------------ datasets of a run are tidy

  /** The command table of the modelled commands knows MULTI, EXEC and SELECT. */
  lemma LookupIsProper()
    ensures AofFeed.Proper(K.Lookup)
  {
    assert |"MULTI"| == |"multi"| == 5 && |"EXEC"| == |"exec"| == 4 && |"SELECT"| == |"select"| == 6;
    assert "MULTI"[0] == 'M' && "EXEC"[0] == 'E' && "rpush"[0] == 'r' && "sadd"[0] == 's' && "hmset"[0] == 'h' && "zadd"[0] == 'z';
    assert K.Same("MULTI", "multi") && K.Same("EXEC", "exec") && K.Same("SELECT", "select");
  }

  predicate AllShort(cmds: seq<Argv>) { forall i :: 0 <= i < |cmds| ==> Short(cmds[i]) }

  lemma {:induction false} ReadArgsShort(s: Bytes, missing: nat, got: Argv)
    requires Short(got)
    ensures ReadArgs(s, missing, got).Command? ==> Short(ReadArgs(s, missing, got).argv)
    decreases missing
  {
    hide Strtol, LineLength;
    if missing > 0 && s != "" && s[0] == '$' {
      var n := LineLength(s, LINE_ROOM);
      var body, len := s[n..], Strtol(s[1..n]);
      if 0 <= len <= |body| - 2 { ReadArgsShort(body[len + 2..], missing - 1, got + [body[..len]]); }
    }
  }

  lemma ReadShort(s: Bytes)
    ensures Read(s).Command? ==> Short(Read(s).argv)
  {
    hide Strtol, LineLength, Atoi, ReadArgs;
    if s != "" {
      var n := LineLength(s, LINE_ROOM);
      var argc := if n > 1 then Atoi(s[1..n]) else 0;
      if argc >= 1 { ReadArgsShort(s[n..], argc, []); }
    }
  }

  /** Whatever a file holds, the commands read from it have arguments that a length header can state. */
  lemma {:induction false} LoadFromShort(s: Bytes, size: nat, c: Loader.Client, valid: nat, beforeMulti: nat, cfg: Loader.Config)
    requires |s| <= size && AllShort(c.executed) && AllShort(c.queue)
    ensures AllShort(Loader.LoadFrom(s, size, c, valid, beforeMulti, cfg).executed)
    decreases |s|
  {
    hide Read, Short;
    ReadShort(s);
    match Read(s)
    case Annotation(rest) => LoadFromShort(rest, size, c, valid, beforeMulti, cfg);
    case Command(argv, rest) =>
      var proc := cfg.table(argv);
      if proc != Loader.Unknown {
        LoadFromShort(rest, size, Loader.Run(c, argv, proc), if cfg.loadTruncated then size - |rest| else valid,
                      if proc == Loader.Multi then valid else beforeMulti, cfg);
      }
    case _ =>
  }

  lemma LoadShort(file: Bytes, cfg: Loader.Config)
    ensures AllShort(Loader.Load(file, cfg).executed)
  {
    hide Loader.LoadFrom;
    LoadFromShort(file, |file|, Loader.FRESH, 0, 0, cfg);
  }

  predicate ShortTargets(cmds: seq<(int, Argv)>) { forall i :: 0 <= i < |cmds| ==> Short(cmds[i].1) }

  lemma {:induction false} TargetsShort(cmds: seq<Argv>, db: int)
    requires AllShort(cmds)
    ensures ShortTargets(AofFeed.Targets(cmds, db, K.Lookup))
    decreases |cmds|
  {
    hide K.Lookup, Short;
    if cmds != [] {
      TargetsShort(cmds[1..], if K.Lookup(cmds[0]) == Loader.Select then AofFeed.TargetOf(cmds[0]) else db);
    }
  }

  /** A dataset of `n` databases that can be rewritten. */
  predicate TidyData(n: nat, dbs: Dataset) { |dbs| == n && Tidy(dbs) }

  lemma {:induction false} ApplyAllTidy(n: nat, d: Dataset, cmds: seq<(int, Argv)>)
    requires TidyData(n, d) && ShortTargets(cmds)
    ensures TidyData(n, ApplyAll(KeyspaceEngine(n), d, cmds))
    decreases |cmds|
  {
    hide Tidy, K.Execute;
    if cmds != [] {
      if 0 <= cmds[0].0 < n { ExecuteTidy(K.State(d, cmds[0].0), cmds[0].1); }
      ApplyAllTidy(n, ApplyCommand(d, cmds[0].0, cmds[0].1), cmds[1..]);
    }
  }

  lemma EmptyTidy(n: nat)
    ensures TidyData(n, EmptyDataset(n))
  {
  }

  lemma LoadFileTidy(n: nat, d: Dataset, content: Bytes)
    requires TidyData(n, d)
    ensures TidyData(n, LoadFile(KeyspaceEngine(n), d, content).1)
  {
    hide Loader.Load, AofFeed.Targets, ApplyAll, TidyData, K.Lookup;
    var e := KeyspaceEngine(n);
    LoadShort(content, Tolerant(e.table));
    TargetsShort(Loader.Load(content, Tolerant(e.table)).executed, 0);
    ApplyAllTidy(n, d, AofFeed.Targets(Loader.Load(content, Tolerant(e.table)).executed, 0, e.table));
  }

  lemma {:induction false} LoadIncrsTidy(n: nat, d: Dataset, files: map<Name, Bytes>, incrs: seq<nat>)
    requires TidyData(n, d) && incrs != [] && forall i :: 0 <= i < |incrs| ==> Incr(incrs[i]) in files
    ensures TidyData(n, LoadIncrs(KeyspaceEngine(n), d, files, incrs).data)
    decreases |incrs|
  {
    hide LoadFile, TidyData, KeyspaceEngine;
    LoadFileTidy(n, d, files[Incr(incrs[0])]);
    if |incrs| > 1 { LoadIncrsTidy(n, LoadFile(KeyspaceEngine(n), d, files[Incr(incrs[0])]).1, files, incrs[1..]); }
  }

  /** Whatever is on disk, loading it gives a dataset that can be rewritten. */
  lemma LoadAllTidy(n: nat, disk: Disk)
    ensures TidyData(n, LoadAll(KeyspaceEngine(n), disk).data)
  {
    hide LoadFile, LoadIncrs, TidyData, ApplyCommand;
    var e, m := KeyspaceEngine(n), disk.saved;
    EmptyTidy(n);
    if AllThere(disk) {
      var data := e.empty;
      if m.base.Some? {
        LoadFileTidy(n, e.empty, disk.files[Base(m.base.value)]);
        data := LoadFile(e, e.empty, disk.files[Base(m.base.value)]).1;
      }
      if m.incrs != [] { LoadIncrsTidy(n, data, disk.files, m.incrs); }
    }
  }

  // ------------------------------------------------------------------ runs of this server

  /** What the child writes: the commands compiled from its dataset, in some iteration order. */
  ghost predicate Compiled(content: Bytes, dbs: Dataset) {
    exists orders :: VisitsAll(orders, dbs) && content == EncodeLog(Dump(orders, dbs, 0))
  }

  /** A child that succeeds has compiled its dataset; all else as in the protocol. */
  ghost predicate Possible(n: nat, s: Server<Dataset>, step: Step) {
    if step.ChildSucceeded? then s.child.Some? && Compiled(step.content, s.child.value)
    else Enabled(KeyspaceEngine(n), s, step)
  }

  ghost predicate Arrives(n: nat, start: Server<Dataset>, steps: seq<Step>, s: Server<Dataset>)
    decreases |steps|
  {
    if steps == [] then s == start
    else Ready(start) && Possible(n, start, steps[0])
         && Arrives(n, Next(KeyspaceEngine(n), start, steps[0]), steps[1..], s)
  }

  predicate TidyServer(n: nat, s: Server<Dataset>) {
    TidyData(n, s.live) && (s.child.Some? ==> TidyData(n, s.child.value))
  }

  /** The server starts as the protocol says, with a dataset that commands have built. */
  ghost predicate StartsWith(n: nat, s: Server<Dataset>, ops: seq<AofFeed.Op>) {
    Started(KeyspaceEngine(n), s) && AofFeed.Propagated(ops, K.Lookup)
    && s.live == ApplyAll(KeyspaceEngine(n), EmptyDataset(n), AofFeed.Executed(ops))
  }

  lemma OpsShort(ops: seq<AofFeed.Op>)
    requires AofFeed.Propagated(ops, K.Lookup)
    ensures ShortTargets(AofFeed.Executed(ops))
  {
    hide K.Lookup;
  }

  lemma StartTidy(n: nat, s: Server<Dataset>, ops: seq<AofFeed.Op>)
    requires StartsWith(n, s, ops)
    ensures TidyServer(n, s) && Initial(KeyspaceEngine(n), s)
  {
    hide AofFeed.Proper, AofFeed.Propagated, ApplyAll, TidyData, Represents, AofFeed.Executed, NamesOk, AllThere;
    LookupIsProper();
    OpsShort(ops);
    EmptyTidy(n);
    ApplyAllTidy(n, EmptyDataset(n), AofFeed.Executed(ops));
  }

  lemma OpenData<D>(s: Server<D>, created: bool, persisted: bool)
    ensures OpenNewIncr(s, created, persisted).0.live == s.live && OpenNewIncr(s, created, persisted).0.child == s.child
  {
  }

  lemma DoneData<D>(s: Server<D>, content: Bytes, calls: Calls)
    ensures RewriteDone(s, content, calls).live == s.live && RewriteDone(s, content, calls).child == None
  {
    hide NewManifest, UnlinkAll, Rename, RenameFd, UnlinkFd;
  }

  /** Every step of the server leaves datasets that can be rewritten. */
  lemma NextTidy(n: nat, s: Server<Dataset>, step: Step)
    requires TidyServer(n, s) && Ready(s) && Possible(n, s, step)
    ensures TidyServer(n, Next(KeyspaceEngine(n), s, step))
  {
    hide TidyData, ApplyAll, LoadAll, AofFeed.Executed, AofFeed.Propagated, AofFeed.UnitLog, EncodeLog, Compiled, Represents,
         Loader.TornTransaction, Flush, OpenNewIncr, RewriteDone, K.Lookup;
    match step
    case Propagating(ops) =>
      OpsShort(ops);
      ApplyAllTidy(n, s.live, AofFeed.Executed(ops));
    case Flushing(wrote, truncated) => FlushFrame(s, wrote, truncated);
    case Rewriting(wrote, truncated, created, persisted, _) =>
      FlushFrame(s.(selectedDb := -1), wrote, truncated);
      OpenData(Flush(s.(selectedDb := -1), wrote, truncated), created, persisted);
    case ChildSucceeded(content, calls) => DoneData(s, content, calls);
    case Crashing(cut) => LoadAllTidy(n, Crashed(s.disk, cut));
    case _ =>
  }

  /** Compiling a tidy dataset is what the protocol asks of a child. */
  lemma CompiledRepresents(n: nat, content: Bytes, dbs: Dataset)
    requires 0 < n && TidyData(n, dbs) && Compiled(content, dbs)
    ensures Represents(KeyspaceEngine(n), content, dbs)
  {
    hide Represents, VisitsEntry, Dump, EncodeLog, Tidy, ShortAll;
    var orders :| VisitsAll(orders, dbs) && content == EncodeLog(Dump(orders, dbs, 0));
    TidyOrders(orders, dbs);
    DumpRepresents(orders, dbs);
  }

  /** Every run of this server is a run of the protocol. */
  lemma {:induction false} RunIsRun(n: nat, start: Server<Dataset>, steps: seq<Step>, s: Server<Dataset>)
    requires 0 < n && TidyServer(n, start) && Arrives(n, start, steps, s)
    ensures Reaches(KeyspaceEngine(n), start, steps, s) && TidyServer(n, s)
    decreases |steps|
  {
    hide Next, Represents, Compiled, TidyData, KeyspaceEngine, AofFeed.Propagated, Loader.TornTransaction, AllThere, Crashed;
    if steps != [] {
      if steps[0].ChildSucceeded? { CompiledRepresents(n, steps[0].content, start.child.value); }
      NextTidy(n, start, steps[0]);
      RunIsRun(n, Next(KeyspaceEngine(n), start, steps[0]), steps[1..], s);
    }
  }

  /** In every state of every run of this server, with AOF on, files and buffer load to the live dataset.
      Nothing is assumed about the child but that it compiles the dataset it was forked with. */
  lemma KeyspaceRunRecovers(n: nat, start: Server<Dataset>, ops: seq<AofFeed.Op>, steps: seq<Step>, s: Server<Dataset>)
    requires 0 < n && StartsWith(n, start, ops) && Arrives(n, start, steps, s)
    ensures Ready(s) && AllThere(s.disk) && (s.mode == On ==> s.fd.Open?)
    ensures s.mode == On ==>
              (var r := LoadAll(KeyspaceEngine(n), WithBuffer(s)); (r.status == Loader.Ok || r.status == Loader.Empty) && r.data == s.live)
  {
    hide StartsWith, Arrives, LoadAll, KeyspaceEngine, TidyServer, Initial;
    StartTidy(n, start, ops);
    RunIsRun(n, start, steps, s);
    EveryRunRecovers(KeyspaceEngine(n), start, steps, s);
  }

  /** And a crash costs at most a tail of the commands of the file being written. */
  lemma KeyspaceRunSurvives(n: nat, start: Server<Dataset>, ops: seq<AofFeed.Op>, steps: seq<Step>, s: Server<Dataset>, cut: nat)
    returns (before: Dataset, f: Logged)
    requires 0 < n && StartsWith(n, start, ops) && Arrives(n, start, steps, s) && s.mode == On
    requires s.fd.Open? && s.fd.name in s.disk.files && cut <= |s.disk.files[s.fd.name]|
    ensures Pipeline(s) == EncodeLog(f.log) && AofFeed.Holds(f.log, f.ops, K.Lookup)
    ensures s.live == ApplyAll(KeyspaceEngine(n), before, AofFeed.Executed(f.ops))
    ensures s.disk.saved.incrs != [] && LastIncr(s.disk.saved) == s.fd.name
    ensures var r := LoadAll(KeyspaceEngine(n), Crashed(s.disk, cut));
            var j := Survivors(f, Whole(f.log, cut), K.Lookup);
            r.status in {Loader.Ok, Loader.Truncated, Loader.Empty} && j <= |f.ops|
            && r.data == ApplyAll(KeyspaceEngine(n), before, AofFeed.Executed(f.ops[..j]))
  {
    hide StartsWith, Arrives, LoadAll, TidyServer, Initial, AofFeed.Holds, ApplyAll, Survivors, Crashed, EncodeLog;
    StartTidy(n, start, ops);
    RunIsRun(n, start, steps, s);
    before, f := EveryRunSurvives(KeyspaceEngine(n), start, steps, s, cut);
  }

  /** In every such state a running child can succeed: its dataset has an iteration order to compile. */
  lemma ChildCanSucceed(n: nat, start: Server<Dataset>, ops: seq<AofFeed.Op>, steps: seq<Step>, s: Server<Dataset>)
    returns (content: Bytes)
    requires 0 < n < INT_LIMIT && StartsWith(n, start, ops) && Arrives(n, start, steps, s) && s.child.Some?
    ensures forall calls :: Possible(n, s, ChildSucceeded(content, calls))
  {
    hide StartsWith, Arrives, KeyspaceEngine, Initial, Tidy, VisitsDb, ShortAll, EncodeLog;
    StartTidy(n, start, ops);
    RunIsRun(n, start, steps, s);
    var orders := OrdersExist(s.child.value);
    DumpDomain(orders, s.child.value);
    content := EncodeLog(Dump(orders, s.child.value, 0));
    assert Compiled(content, s.child.value);
  }

  lemma DumpDomain(orders: seq<seq<Visit>>, dbs: Dataset)
    requires VisitsAll(orders, dbs)
    ensures forall j, i :: 0 <= j < |dbs| && 0 <= i < |orders[j]| ==> orders[j][i].key in dbs[j]
  {
    hide VisitsEntry;
    forall j, i | 0 <= j < |dbs| && 0 <= i < |orders[j]| ensures orders[j][i].key in dbs[j] { assert VisitsDb(orders[j], dbs[j]); }
  }

  // ----------------------------------------------------------------- failures, concretely

  const SET_KV: Argv := ["SET", "k", "v"]
  const PUSH_LA: Argv := ["RPUSH", "l", "a"]

  lemma KnownCommands()
    ensures K.Lookup(SET_KV) == Loader.Other && K.Lookup(PUSH_LA) == Loader.Other
    ensures K.Lookup(AofFeed.MULTI) == Loader.Multi
  {
    LookupIsProper();
    assert |"SET"| == 3 && |"RPUSH"| == 5 && |"select"| == 6;
    assert K.Same("SET", "set") && K.Same("RPUSH", "rpush");
  }

  /** A log of MULTI and SET, cut one byte before its end: what is appended after the load is lost. */
  lemma TornLog()
    ensures var log := [AofFeed.MULTI, SET_KV];
            |EncodeLog(log)| > 0 && !Loader.Resumable(log, |EncodeLog(log)| - 1, Tolerant(K.Lookup))
  {
    hide K.Lookup, Encode, Loader.Resumable;
    KnownCommands();
    var log, t := [AofFeed.MULTI, SET_KV], K.Lookup;
    AofFailures.HeaderStart(SET_KV);
    EncodeLogConcat([AofFeed.MULTI], [SET_KV]);
    assert [AofFeed.MULTI] + [SET_KV] == log;
    assert EncodeLog([SET_KV]) == Encode(SET_KV) + EncodeLog([]);
    AofFailures.WholeSnoc([AofFeed.MULTI], SET_KV, |Encode(SET_KV)| - 1);
    assert log[..1] == [AofFeed.MULTI];
    assert Loader.EndsInMulti([AofFeed.MULTI], t) by { assert [AofFeed.MULTI][0..] == [AofFeed.MULTI]; }
    Loader.ResumeFails(log, |EncodeLog(log)| - 1, SET_KV, Tolerant(t));
  }

  /** One list with the element "a" so many times. */
  function Pushed(times: nat): Dataset {
    [map["l" := K.Entry(K.List(Times(times)), K.NO_EXPIRE)]]
  }

  lemma PushOnce(times: nat)
    ensures ApplyCommand(Pushed(times), 0, PUSH_LA) == Pushed(times + 1)
    ensures ApplyCommand(EmptyDataset(1), 0, PUSH_LA) == Pushed(1)
  {
    hide K.Decode, K.AddUnits, K.AddUnit;
    PushDecoded();
    var v, w := K.List(Times(times)), K.List(Times(times + 1));
    AddOneUnit(v, ["a"]);
    AddOneUnit(K.List([]), ["a"]);
    AppendA(times);
    AppendA(0);
    var db := Pushed(times)[0];
    assert K.PushTo(db, K.KList, "l", [["a"]]) == Pushed(times + 1)[0];
    assert K.PushTo(map[], K.KList, "l", [["a"]]) == Pushed(1)[0];
    assert Pushed(times)[0 := Pushed(times + 1)[0]] == Pushed(times + 1);
    assert EmptyDataset(1)[0 := Pushed(1)[0]] == Pushed(1);
  }

  function Times(times: nat): seq<Bytes> { seq(times, _ => "a") }

  lemma AppendA(times: nat)
    ensures K.AddUnit(K.List(Times(times)), ["a"]) == K.List(Times(times + 1))
    ensures Times(0) == []
  {
    assert Times(times) + ["a"] == Times(times + 1);
  }

  lemma PushDecoded()
    ensures K.Decode(PUSH_LA) == K.Push(K.KList, "l", [["a"]])
  {
    assert K.Shaped([["a"]], K.KList);
    K.DecodePush(K.KList, "l", [["a"]]);
    assert K.Flat([["a"]]) == ["a"] by { assert K.Flat([]) == []; }
    assert ["RPUSH", "l"] + ["a"] == PUSH_LA;
  }

  /** A push that is still in the buffer when a rewrite starts is loaded twice after it. */
  lemma RewriteDoublesPush(start: Server<Dataset>, content: Bytes, gc: bool, again: bool)
    requires Started(KeyspaceEngine(1), start) && start.mode == On && Represents(KeyspaceEngine(1), content, Pushed(1))
    ensures var e := KeyspaceEngine(1);
            var s := Propagate(e, start, [AofFeed.Op(0, PUSH_LA)]);
            Reaches(e, start, [Propagating([AofFeed.Op(0, PUSH_LA)])], s) && Ready(s)
            && var t := AofFailures.Rewritten(s, 0, false, content, gc, again);
               t.live == Pushed(1) && t.fd.Open? && t.fd.name in t.disk.files
               && LoadAll(e, WithBuffer(t)).data == Pushed(2) != Pushed(1)
  {
    hide K.Lookup, Represents, AofFeed.Proper, AofFeed.UnitLog, EncodeLog, LoadAll, ApplyCommand, AofFeed.Holds, Inv, AofFailures.Rewritten;
    var e, ops := KeyspaceEngine(1), [AofFeed.Op(0, PUSH_LA)];
    KnownCommands();
    LookupIsProper();
    InitialInv(e, start);
    AofFailures.BufferIs(e, start, ops);
    var s := Propagate(e, start, ops);
    assert AofFeed.Propagated(ops, e.table);
    var steps := [Propagating(ops)];
    assert steps[1..] == [];
    var era := PropagateKeeps(e, start, Era(e.empty, [Logged([], [])]), ops);
    assert AofFeed.Executed(ops) == [(0, PUSH_LA)];
    ApplyOne(e, e.empty, 0, PUSH_LA);
    ApplyOne(e, Pushed(1), 0, PUSH_LA);
    PushOnce(1);
    UnitHolds(ops);
    HoldsIs(AofFeed.UnitLog(-1, ops), ops);
    assert |Pushed(2)[0]["l"].value.items| == 2;
    InvReady(e, s, era);
    FlushNothing(s, false);
    AofFailures.RewriteRepeatsPending(e, s, era, 0, false, content, gc, again, AofFeed.UnitLog(-1, ops));
  }

  lemma HoldsIs(log: seq<Argv>, ops: seq<AofFeed.Op>)
    requires AofFeed.Holds(log, ops, K.Lookup)
    ensures Loader.Sound(log, K.Lookup) && !Loader.EndsInMulti(log, K.Lookup)
    ensures AofFeed.Targets(Loader.Settled(log, K.Lookup), 0, K.Lookup) == AofFeed.Executed(ops)
  {
    hide K.Lookup, Loader.Sound, Loader.EndsInMulti, Loader.Settled, AofFeed.Targets;
  }

  /** The key "k" in the chosen ones of two databases. */
  function Keyed(first: bool): Dataset {
    var kv: K.Db := map["k" := K.Entry(K.Str("v"), K.NO_EXPIRE)];
    [if first then kv else map[], kv]
  }

  lemma SetTwice()
    ensures ApplyCommand(EmptyDataset(2), 1, SET_KV) == Keyed(false) && ApplyCommand(Keyed(false), 1, SET_KV) == Keyed(false)
    ensures ApplyCommand(Keyed(false), 0, SET_KV) == Keyed(true)
  {
    K.DecodeOthers("k", "v", 0);
    hide K.Decode;
    var op := K.SetText("k", "v");
    assert forall db: K.Db :: K.ApplyTo(db, op) == db["k" := K.Entry(K.Str("v"), K.NO_EXPIRE)];
    assert EmptyDataset(2)[1 := Keyed(false)[1]] == Keyed(false);
    assert Keyed(false)[1]["k" := K.Entry(K.Str("v"), K.NO_EXPIRE)] == Keyed(false)[1];
    assert Keyed(false)[1 := Keyed(false)[1]] == Keyed(false);
    assert Keyed(false)[0 := Keyed(true)[0]] == Keyed(true);
  }

  /** The log of a SET on database 1 when database 1 is selected already: no SELECT. */
  lemma ElidedLog()
    ensures AofFeed.UnitLog(1, [AofFeed.Op(1, SET_KV)]) == [SET_KV]
    ensures Loader.Sound([SET_KV], K.Lookup) && !Loader.EndsInMulti([SET_KV], K.Lookup)
    ensures AofFeed.Targets(Loader.Settled([SET_KV], K.Lookup), 0, K.Lookup) == [(0, SET_KV)]
  {
    KnownCommands();
    hide K.Lookup;
    assert [SET_KV][1..] == [];
    assert Loader.Settled([SET_KV], K.Lookup) == [SET_KV] + Loader.Settled([], K.Lookup);
    Loader.ClosedEmpty(K.Lookup);
    assert AofFeed.Targets([SET_KV], 0, K.Lookup) == [(0, SET_KV)] + AofFeed.Targets([], 0, K.Lookup);
  }

  /** The server that has set "k" in database 1, written that out, and set it again. */
  function SetAgain(start: Server<Dataset>): Server<Dataset> {
    var b := EncodeLog(AofFeed.UnitLog(-1, [AofFeed.Op(1, SET_KV)]));
    start.(live := Keyed(false), selectedDb := 1, buf := EncodeLog([SET_KV]), lastIncrSize := |b|,
           disk := start.disk.(files := start.disk.files[Incr(1) := b]), fd := Open(Incr(1), true, |b|))
  }

  function SetRun(): seq<Step> {
    var ops := [AofFeed.Op(1, SET_KV)];
    [Propagating(ops), Flushing(|EncodeLog(AofFeed.UnitLog(-1, ops))|, true), Propagating(ops)]
  }

  lemma SetAgainReached(start: Server<Dataset>)
    requires Started(KeyspaceEngine(2), start) && start.mode == On
    ensures Reaches(KeyspaceEngine(2), start, SetRun(), SetAgain(start))
  {
    hide K.Lookup, Represents, AofFeed.UnitLog, EncodeLog, ApplyCommand, Flush, AofFeed.Proper;
    var e, ops := KeyspaceEngine(2), [AofFeed.Op(1, SET_KV)];
    KnownCommands();
    ElidedLog();
    SetTwice();
    assert AofFeed.Executed(ops) == [(1, SET_KV)];
    ApplyOne(e, e.empty, 1, SET_KV);
    ApplyOne(e, Keyed(false), 1, SET_KV);
    AofFailures.BufferIs(e, start, ops);
    AofFailures.LoggedBytes(-1, ops);
    var a, b := Propagate(e, start, ops), EncodeLog(AofFeed.UnitLog(-1, ops));
    AofFailures.WholeFlush(a, b);
    var c := Flush(a, |b|, true);
    assert "" + EncodeLog([SET_KV]) == EncodeLog([SET_KV]);
    assert Propagate(e, c, ops) == SetAgain(start);
    var steps := SetRun();
    assert steps[1..] == [Flushing(|b|, true), Propagating(ops)] && steps[1..][1..] == [Propagating(ops)];
    assert steps[1..][1..][1..] == [];
    assert Reaches(e, c, steps[1..][1..], SetAgain(start));
    assert Reaches(e, a, steps[1..], SetAgain(start));
  }

  lemma ApplyOne<D>(e: Engine<D>, d: D, db: int, argv: Argv)
    ensures ApplyAll(e, d, [(db, argv)]) == e.apply(d, db, argv)
  {
    assert [(db, argv)][1..] == [];
  }

  /** That second SET, still in the buffer when a rewrite starts, changes nothing when it is executed again where it was
      executed, on database 1.  Its SELECT is in the file before, so after the rewrite it is loaded into database 0. */
  lemma RewriteMovesKey(start: Server<Dataset>, content: Bytes, gc: bool, again: bool)
    requires Started(KeyspaceEngine(2), start) && start.mode == On && Represents(KeyspaceEngine(2), content, Keyed(false))
    ensures var e, s := KeyspaceEngine(2), SetAgain(start);
            Reaches(e, start, SetRun(), s) && Ready(s) && ApplyAll(e, s.live, [(1, SET_KV)]) == s.live
            && var t := AofFailures.Rewritten(s, 0, false, content, gc, again);
               t.live == Keyed(false) && t.fd.Open? && t.fd.name in t.disk.files
               && LoadAll(e, WithBuffer(t)).data == Keyed(true) != Keyed(false)
  {
    hide K.Lookup, Represents, AofFeed.UnitLog, EncodeLog, ApplyCommand, AofFailures.Rewritten, Inv, LoadAll, Reaches, AofFeed.Proper;
    var e, s := KeyspaceEngine(2), SetAgain(start);
    SetAgainReached(start);
    LookupIsProper();
    InitialInv(e, start);
    var era := RunKeeps(e, start, Era(e.empty, [Logged([], [])]), SetRun(), s);
    InvReady(e, s, era);
    FlushNothing(s, false);
    ElidedLog();
    SetTwice();
    ApplyOne(e, s.live, 1, SET_KV);
    ApplyOne(e, s.live, 0, SET_KV);
    AofFailures.RewriteRepeatsPending(e, s, era, 0, false, content, gc, again, [SET_KV]);
    assert "k" in Keyed(true)[0] && "k" !in Keyed(false)[0];
  }

  lemma UnitHolds(ops: seq<AofFeed.Op>)
    requires ops != [] && AofFeed.Propagated(ops, K.Lookup)
    ensures AofFeed.Holds(AofFeed.UnitLog(-1, ops), ops, K.Lookup)
  {
    hide K.Lookup, AofFeed.UnitLog, AofFeed.Targets, Loader.Settled, AofFeed.Proper;
    LookupIsProper();
    AofFeed.UnitSettles(-1, ops, K.Lookup);
    forall db ensures AofFeed.Targets(Loader.Settled(AofFeed.UnitLog(-1, ops), K.Lookup), db, K.Lookup) == AofFeed.Executed(ops) {
      AofFeed.UnitTargets(-1, ops, db, K.Lookup);
    }
  }
}
