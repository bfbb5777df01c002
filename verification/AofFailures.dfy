/**
 The conditions of the persistence protocol are needed: reachable states in which the code breaks
 one of them, and what is lost then.
 */
module AofFailures {
  import opened Common
  import opened Decimal
  import opened Resp
  import opened Loader
  import opened LoaderErrors
  import opened AofFeed
  import opened AofState
  import opened AofProtocol

  // -------------------------------------------------------------- a hole in the file

  /** A new INCR file, some commands, one byte of them written and taken back. */
  function HoleRun(ops: seq<Op>): seq<Step> {
    [Rewriting(0, false, true, true, true), Propagating(ops), Flushing(1, true)]
  }

  /** The server right after the new INCR file was opened. */
  function Reopened<D>(start: Server<D>): Server<D> {
    start.(disk := Disk(start.disk.files[Incr(2) := ""], Saved(Some(1), [1, 2], [])),
           manifest := Manifest(Some(1), [1, 2], [], 1, 2, false),
           fd := Open(Incr(2), false, 0), child := Some(start.live))
  }

  lemma ReopenedIs<D(!new)>(e: Engine<D>, start: Server<D>)
    requires Initial(e, start) && start.mode == On
    ensures StartRewrite(start, 0, false, true, true, true) == Reopened(start)
  {
    hide Represents, Proper;
    assert [1] + [2] == [1, 2];
  }

  lemma LoggedBytes(selected: int, ops: seq<Op>)
    requires ops != []
    ensures var b := EncodeLog(UnitLog(selected, ops)); |b| > 1 && b[0] == '*'
  {
    var log := UnitLog(selected, ops);
    hide UnitLog;
    HeaderStart(log[0]);
    assert EncodeLog(log) == Encode(log[0]) + EncodeLog(log[1..]);
  }

  lemma HeaderStart(argv: Argv)
    ensures |Encode(argv)| > 1 && Encode(argv)[0] == '*'
  {
    assert |Header(|argv|)| > 1;
  }

  /** The state with the hole: the file is empty again, the position is not. */
  function Holed<D>(e: Engine<D>, start: Server<D>, ops: seq<Op>): Server<D>
    requires ops != []
  {
    Propagate(e, Reopened(start), ops).(fd := Open(Incr(2), false, 1))
  }

  lemma HoledIs<D(!new)>(e: Engine<D>, start: Server<D>, ops: seq<Op>)
    requires Initial(e, start) && start.mode == On && ops != []
    ensures var s := Propagate(e, Reopened(start), ops);
            |s.buf| > 1 && s.buf[0] == '*' && Flush(s, 1, true) == Holed(e, start, ops)
  {
    hide Represents, Proper, ApplyAll, Executed, UnitLog, EncodeLog;
    var s := Propagate(e, Reopened(start), ops);
    LoggedBytes(start.selectedDb, ops);
    assert "" + EncodeLog(UnitLog(start.selectedDb, ops)) == s.buf;
    assert WriteAt("", 0, s.buf[..1]) == s.buf[..1];
    assert Resize(s.buf[..1], 0) == "";
    assert s.disk.files[Incr(2) := s.buf[..1]][Incr(2) := ""] == s.disk.files;
  }

  /** A zero byte after whole commands makes the file unloadable, under every setting. */
  lemma ZeroFails(log: seq<Argv>, rest: Bytes, cfg: Config)
    requires Sound(log, cfg.table)
    ensures Load(EncodeLog(log) + (['\0'] + rest), cfg).status == Failed
  {
    BadStart(['\0'] + rest);
    BadFormatFails(log, ['\0'] + rest, cfg);
  }

  /** In every state the protocol reaches, with whole commands on file: if a short write is taken back through a
      descriptor without append mode, the next complete flush leaves files that do not load any more. */
  lemma HoleUnloadable<D(!new)>(e: Engine<D>, s: Server<D>, era: Era<D>, wrote: nat, log: seq<Argv>)
    requires Inv(e, s, era) && s.mode == On && !Stale(s) && LeavesHole(s, wrote, true)
    requires s.fd.name in s.disk.files && s.disk.files[s.fd.name] == EncodeLog(log) && Sound(log, e.table)
    ensures Ready(s)
    ensures var t := Flush(s, wrote, true); Ready(t) && LoadAll(e, Flush(t, |t.buf|, false).disk).status == Failed
  {
    hide Holds, EncodeLog, Represents, AfterFiles, Proper, SelectedOk, LoadAll, Load, Finished, NamesOk, Sound, Flush, AllEmpty, Targets,
         ApplyAll;
    InvReady(e, s, era);
    FlushConserves(s, wrote, true);
    HoleIsWritten(s, wrote);
    var t := Flush(s, wrote, true);
    var u := Flush(t, |t.buf|, false);
    FlushFrame(s, wrote, true);
    FlushFrame(t, |t.buf|, false);
    FlushKeys(s, wrote, true);
    FlushKeys(t, |t.buf|, false);
    var content := u.disk.files[s.fd.name];
    assert content == EncodeLog(log) + (['\0'] + (Zeros(wrote - 1) + s.buf)) by {
      assert Zeros(wrote) == ['\0'] + Zeros(wrote - 1);
    }
    ZeroFails(log, Zeros(wrote - 1) + s.buf, Tolerant(e.table));
    assert u.disk == s.disk.(files := s.disk.files[s.fd.name := content]);
    WithLastReplaced(e, s, era, content);
    NotAllEmpty(u.disk);
  }

  lemma FlushKeys<D>(s: Server<D>, wrote: nat, truncated: bool)
    requires Ready(s) && wrote <= |s.buf|
    ensures Flush(s, wrote, truncated).disk.files.Keys == s.disk.files.Keys
  {
    hide WriteAt, Resize;
  }

  lemma NotAllEmpty(disk: Disk)
    requires AllThere(disk) && disk.saved.incrs != [] && disk.files[LastIncr(disk.saved)] != ""
    ensures !AllEmpty(disk)
  {
  }

  /** Such a state is reached with all commands; the guarantee still holds there, and the next write breaks it for good. */
  lemma HoleReached<D(!new)>(e: Engine<D>, start: Server<D>, ops: seq<Op>)
    requires Initial(e, start) && start.mode == On && ops != [] && Propagated(ops, e.table)
    ensures var s := Holed(e, start, ops);
            Reaches(e, start, HoleRun(ops), s) && Stale(s) && s.buf != ""
            && LoadAll(e, Flush(s, |s.buf|, false).disk).status == Failed
  {
    hide Represents, Proper, ApplyAll, Executed, UnitLog, EncodeLog, StartRewrite, Flush, Propagate, Propagated, LoadAll, Inv, Sound;
    ReopenedIs(e, start);
    HoledIs(e, start, ops);
    var a, b := Reopened(start), Propagate(e, Reopened(start), ops);
    PropagateFrame(e, a, ops);
    var steps := HoleRun(ops);
    assert steps[1..] == [Propagating(ops), Flushing(1, true)] && steps[2..] == [Flushing(1, true)] && steps[3..] == [];
    assert steps[1..][1..] == steps[2..] && steps[2..][1..] == steps[3..];
    assert Reaches(e, b, steps[2..], Holed(e, start, ops));
    assert Reaches(e, a, steps[1..], Holed(e, start, ops));
    InitialInv(e, start);
    var era := StepKeeps(e, start, Era(e.empty, [Logged([], [])]), steps[0]);
    era := StepKeeps(e, a, era, Propagating(ops));
    EmptyLog();
    EmptySound(e.table);
    HoleUnloadable(e, b, era, 1, []);
  }

  lemma EmptySound(t: Table)
    ensures Sound([], t)
  {
  }

  lemma PropagateFrame<D>(e: Engine<D>, s: Server<D>, ops: seq<Op>)
    requires ops != []
    ensures var t := Propagate(e, s, ops);
            t == s.(live := t.live, selectedDb := t.selectedDb, buf := t.buf)
  {
    hide ApplyAll, Executed, UnitLog, EncodeLog;
  }

  // ------------------------------------------------- a crash inside a transaction

  lemma {:induction false} WholeSnoc(init: seq<Argv>, last: Argv, m: nat)
    requires m < |Encode(last)|
    ensures Whole(init + [last], |EncodeLog(init)| + m) == |init|
    decreases |init|
  {
    hide Encode;
    var log := init + [last];
    if init != [] {
      assert log[1..] == init[1..] + [last];
      WholeSnoc(init[1..], last, m);
    }
  }

  /** A log whose last command, an EXEC of at least two bytes, is cut by one byte. */
  lemma CutExec(init: seq<Argv>, t: Table)
    requires EndsInMulti(init, t)
    ensures var log := init + [EXEC];
            |EncodeLog(log)| > 0 && TornInMulti(log, |EncodeLog(log)| - 1, t)
  {
    hide EndsInMulti, Encode;
    var log := init + [EXEC];
    HeaderStart(EXEC);
    EncodeLogConcat(init, [EXEC]);
    assert EncodeLog([EXEC]) == Encode(EXEC) + EncodeLog([]);
    WholeSnoc(init, EXEC, |Encode(EXEC)| - 1);
    assert log[..|init|] == init;
  }

  /** The log of a transaction without its EXEC. */
  lemma OpenTransaction(selected: int, ops: seq<Op>, t: Table) returns (init: seq<Argv>)
    requires Proper(t) && Propagated(ops, t) && |ops| > 1
    ensures UnitLog(selected, ops) == init + [EXEC] && EndsInMulti(init, t)
  {
    hide FeedAll, SelectOf, UnitLog;
    var first := ops[0].db;
    TransactionShape(selected, ops);
    FeedAllSound(first, ops, t);
    var pre := if first != selected then [SelectOf(first)] else [];
    init := pre + ([MULTI] + FeedAll(first, ops));
    assert init[|pre|] == MULTI && init[|pre|..] == [MULTI] + FeedAll(first, ops);
    assert NoExec(init[|pre|..], t);
  }

  /** Any transaction of two commands can be cut off one byte before its end: a crash at a reachable state
      after which, by `RestartBreaks`, the restarted server writes behind an open MULTI. */
  lemma TornReached<D(!new)>(e: Engine<D>, start: Server<D>, ops: seq<Op>) returns (s: Server<D>, cut: nat)
    requires Initial(e, start) && start.mode == On && |ops| > 1 && Propagated(ops, e.table)
    ensures Reaches(e, start, [Propagating(ops), Flushing(|EncodeLog(UnitLog(-1, ops))|, true)], s)
    ensures CanCrash(s, cut) && TornTransaction(s.disk.files[LastIncr(s.disk.saved)][..cut], e.table)
  {
    hide Represents, ApplyAll, Executed, UnitLog, EncodeLog, Flush, Propagate, Propagated, LoadAll, Proper,
         Unnested, EndsInMulti, TornTransaction, TornInMulti, Fits, Settled;
    var log := UnitLog(-1, ops);
    var b := EncodeLog(log);
    var a := Propagate(e, start, ops);
    BufferIs(e, start, ops);
    s := a.(disk := a.disk.(files := a.disk.files[Incr(1) := b]), buf := "", lastIncrSize := |b|, fd := Open(Incr(1), true, |b|));
    LoggedBytes(-1, ops);
    WholeFlush(a, b);
    var steps := [Propagating(ops), Flushing(|b|, true)];
    assert steps[1..] == [Flushing(|b|, true)] && steps[1..][1..] == [];
    assert Reaches(e, a, steps[1..], s);
    cut := |b| - 1;
    UnitSettles(-1, ops, e.table);
    var init := OpenTransaction(-1, ops, e.table);
    CutExec(init, e.table);
    TornIsVisible(log, cut, e.table);
  }

  lemma BufferIs<D>(e: Engine<D>, s: Server<D>, ops: seq<Op>)
    requires ops != [] && s.mode == On && s.buf == "" && s.selectedDb == -1
    ensures var t := Propagate(e, s, ops);
            t == s.(live := t.live, selectedDb := t.selectedDb, buf := EncodeLog(UnitLog(-1, ops)))
  {
    hide ApplyAll, Executed, UnitLog, EncodeLog;
    assert "" + EncodeLog(UnitLog(-1, ops)) == EncodeLog(UnitLog(-1, ops));
  }

  lemma WholeFlush<D>(s: Server<D>, b: Bytes)
    requires s.buf == b != "" && s.fd == Open(Incr(1), true, 0) && s.lastIncrSize == 0
    requires Incr(1) in s.disk.files && s.disk.files[Incr(1)] == ""
    ensures Flush(s, |b|, true)
         == s.(disk := s.disk.(files := s.disk.files[Incr(1) := b]), buf := "", lastIncrSize := |b|, fd := Open(Incr(1), true, |b|))
  {
    assert b[..|b|] == b;
    assert WriteAt("", 0, b) == b;
  }

  // ------------------------------------------- a rewrite that starts with commands in the buffer

  lemma NewIncrNames(m: Manifest, saved: Saved)
    requires NamesOk(m, saved)
    ensures NamesOk(NewIncr(m).(dirty := false), Save(NewIncr(m)))
  {
    PastAfterNewIncr(m.history, m);
  }

  /** The server after a rewrite that started with a flush of `wrote` bytes, and ended well. */
  function Rewritten<D>(s: Server<D>, wrote: nat, truncated: bool, content: Bytes, gc: bool, again: bool): Server<D>
    requires Ready(s) && wrote <= |s.buf|
  {
    RewriteDone(StartRewrite(s, wrote, truncated, true, true, true), content, Calls(true, true, true, gc, again))
  }

  /** What the flush leaves in the buffer: all of it when a short write was taken back, otherwise the unwritten rest. */
  function LeftOver<D>(s: Server<D>, wrote: nat, truncated: bool): Bytes
    requires Ready(s) && wrote <= |s.buf|
  {
    Flush(s, wrote, truncated).buf
  }

  lemma LeftOverSame<D>(s: Server<D>, wrote: nat, truncated: bool)
    requires Ready(s) && wrote <= |s.buf|
    ensures LeftOver(s.(selectedDb := -1), wrote, truncated) == LeftOver(s, wrote, truncated)
  {
    hide WriteAt, Resize;
  }

  /** On disk are a BASE file and an empty INCR file, which is open. */
  predicate TwoFiles<D>(s: Server<D>, base: nat, content: Bytes, incr: nat) {
    s.disk.saved.base == Some(base) && s.disk.saved.incrs == [incr]
    && Base(base) in s.disk.files && s.disk.files[Base(base)] == content
    && Incr(incr) in s.disk.files && s.disk.files[Incr(incr)] == "" && s.fd == Open(Incr(incr), false, 0)
  }

  lemma StartedIs<D(!new)>(e: Engine<D>, s: Server<D>, era: Era<D>, wrote: nat, truncated: bool)
    requires Inv(e, s, era) && s.mode == On && s.child == None && wrote <= |s.buf|
    ensures Ready(s)
    ensures var t, incr := StartRewrite(s, wrote, truncated, true, true, true), s.manifest.incrSeq + 1;
            t.mode == On && t.fd == Open(Incr(incr), false, 0) && t.manifest == NewIncr(s.manifest).(dirty := false)
            && NamesOk(t.manifest, t.disk.saved) && t.manifest.incrs != [] && Incr(incr) in t.disk.files
            && t.disk.files[Incr(incr)] == "" && t.buf == LeftOver(s, wrote, truncated) && t.live == s.live
  {
    hide Holds, EncodeLog, Represents, AfterFiles, Proper, SelectedOk, Finished, Flush, NamesOk;
    InvReady(e, s, era);
    LeftOverSame(s, wrote, truncated);
    FlushFrame(s.(selectedDb := -1), wrote, truncated);
    NewIncrNames(s.manifest, s.disk.saved);
  }

  lemma DoneIs<D>(t: Server<D>, content: Bytes, gc: bool, again: bool)
    requires t.mode == On && NamesOk(t.manifest, t.disk.saved) && t.manifest.incrs != []
    requires var m := t.manifest; m.incrs[|m.incrs| - 1] == m.incrSeq
    requires var incr := Incr(t.manifest.incrSeq);
             t.fd == Open(incr, false, 0) && incr in t.disk.files && t.disk.files[incr] == ""
    ensures var u := RewriteDone(t, content, Calls(true, true, true, gc, again));
            TwoFiles(u, t.manifest.baseSeq + 1, content, t.manifest.incrSeq) && u.buf == t.buf && u.live == t.live
  {
    hide NewManifest, NamesOk;
    OnManifest(t);
    OnNames(t);
    NamesApart(NewManifest(t).(dirty := false), Save(NewManifest(t)));
  }

  lemma NamesApart(m: Manifest, saved: Saved)
    requires NamesOk(m, saved) && m.base == Some(m.baseSeq) && m.incrs == [m.incrSeq]
    ensures Base(m.baseSeq) !in m.history && Incr(m.incrSeq) !in m.history
  {
  }

  lemma RewrittenIs<D(!new)>(e: Engine<D>, s: Server<D>, era: Era<D>, wrote: nat, truncated: bool, content: Bytes,
                             gc: bool, again: bool)
    requires Inv(e, s, era) && s.mode == On && s.child == None && wrote <= |s.buf|
    ensures Ready(s)
    ensures var t := Rewritten(s, wrote, truncated, content, gc, again);
            TwoFiles(t, s.manifest.baseSeq + 1, content, s.manifest.incrSeq + 1)
            && t.buf == LeftOver(s, wrote, truncated) && t.live == s.live
  {
    hide Inv, StartRewrite, RewriteDone, LeftOver, NamesOk, TwoFiles;
    StartedIs(e, s, era, wrote, truncated);
    DoneIs(StartRewrite(s, wrote, truncated, true, true, true), content, gc, again);
  }

  /** Whatever a rewrite leaves in the buffer when it starts is also in the dataset the child saves.  Once the
      rewrite is done, loading executes it again, from database 0 on. */
  lemma RewriteLoads<D(!new)>(e: Engine<D>, s: Server<D>, era: Era<D>, wrote: nat, truncated: bool, content: Bytes,
                              gc: bool, again: bool)
    requires Inv(e, s, era) && s.mode == On && s.child == None && Represents(e, content, s.live) && wrote <= |s.buf|
    ensures Ready(s)
    ensures var t := Rewritten(s, wrote, truncated, content, gc, again);
            t.live == s.live && t.fd.Open? && t.fd.name in t.disk.files
            && var r, last := LoadAll(e, WithBuffer(t)), LastVerdict(LoadFile(e, s.live, LeftOver(s, wrote, truncated)));
               r == last || (r == last.(status := Empty) && last.status == Ok)
  {
    hide Represents, Inv, RewriteDone, StartRewrite, LoadFile, LeftOver;
    RewrittenIs(e, s, era, wrote, truncated, content, gc, again);
    var t := Rewritten(s, wrote, truncated, content, gc, again);
    var disk, left := WithBuffer(t), LeftOver(s, wrote, truncated);
    assert "" + left == left;
    LoadBaseThenIncrs(e, disk, s.live);
    if AllEmpty(disk) {
      assert disk.files[Incr(disk.saved.incrs[0])] == "";
      EmptyVerdict(e, s.live);
    }
  }

  lemma EmptyVerdict<D>(e: Engine<D>, d: D)
    ensures LastVerdict(LoadFile(e, d, "")) == Recovered(Ok, d, 0)
  {
  }

  /** If what is left over is a complete log, a load after the rewrite succeeds, with the commands of that log
      executed on the live dataset a second time, those before the first SELECT on database 0. */
  lemma RewriteRepeatsPending<D(!new)>(e: Engine<D>, s: Server<D>, era: Era<D>, wrote: nat, truncated: bool, content: Bytes,
                                       gc: bool, again: bool, log: seq<Argv>)
    requires Inv(e, s, era) && s.mode == On && s.child == None && Represents(e, content, s.live) && wrote <= |s.buf|
    requires Ready(s) && LeftOver(s, wrote, truncated) == EncodeLog(log)
    requires Sound(log, e.table) && !EndsInMulti(log, e.table)
    ensures var t := Rewritten(s, wrote, truncated, content, gc, again);
            t.live == s.live && t.fd.Open? && t.fd.name in t.disk.files
            && var r := LoadAll(e, WithBuffer(t));
               (r.status == Ok || r.status == Empty)
               && r.data == ApplyAll(e, s.live, Targets(Settled(log, e.table), 0, e.table))
  {
    hide Represents, Inv, Rewritten, LeftOver, Load, EncodeLog, EndsInMulti, Settled, ApplyAll, Targets;
    RewriteLoads(e, s, era, wrote, truncated, content, gc, again);
    LoadClosedLog(log, Tolerant(e.table));
    if log == [] { ClosedEmpty(e.table); }
  }

  /** So the files recover the live dataset if and only if executing the left-over commands again, from database 0 on, changes nothing. */
  lemma RewriteRecoversIff<D(!new)>(e: Engine<D>, s: Server<D>, era: Era<D>, wrote: nat, truncated: bool, content: Bytes,
                                    gc: bool, again: bool, log: seq<Argv>)
    requires Inv(e, s, era) && s.mode == On && s.child == None && Represents(e, content, s.live) && wrote <= |s.buf|
    requires Ready(s) && LeftOver(s, wrote, truncated) == EncodeLog(log)
    requires Sound(log, e.table) && !EndsInMulti(log, e.table)
    ensures var t := Rewritten(s, wrote, truncated, content, gc, again);
            t.fd.Open? && t.fd.name in t.disk.files
            && ((var r := LoadAll(e, WithBuffer(t)); (r.status == Ok || r.status == Empty) && r.data == t.live)
                <==> ApplyAll(e, s.live, Targets(Settled(log, e.table), 0, e.table)) == s.live)
  {
    hide *;
    RewriteRepeatsPending(e, s, era, wrote, truncated, content, gc, again, log);
  }
}
