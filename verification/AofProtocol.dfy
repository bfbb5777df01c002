/**
 Crash safety of append-only persistence: in every state of every run, what the
 manifest on disk names replays, together with the unflushed buffer, to the live
 dataset.
 */
module AofProtocol {
  import opened Common
  import opened Decimal
  import opened Resp
  import opened Loader
  import opened AofFeed
  import opened AofState

  /** A log file together with the commands it stands for. */
  datatype Logged = Logged(log: seq<Argv>, ops: seq<Op>)

  /** What the files mean: the dataset of the BASE file, then the INCR files in order. */
  datatype Era<D> = Era(origin: D, files: seq<Logged>)

  function AfterFiles<D>(e: Engine<D>, d: D, files: seq<Logged>): D
    decreases |files|
  {
    if files == [] then d else AfterFiles(e, ApplyAll(e, d, Executed(files[0].ops)), files[1..])
  }

  /** The file loads without complaint and rebuilds `d` from nothing. */
  ghost predicate Represents<D(!new)>(e: Engine<D>, content: Bytes, d: D) {
    var (status, data, _) := LoadFile(e, e.empty, content);
    (status == Ok || status == Empty) && data == d
  }

  // -------------------------------------------------------------------- invariant

  predicate Past(names: seq<Name>, m: Manifest) {
    forall i :: 0 <= i < |names| ==>
      match names[i]
      case Base(k) => k <= m.baseSeq && m.base != Some(k)
      case Incr(k) => k <= m.incrSeq && k !in m.incrs
      case TempIncr => false
  }

  /** The manifest in memory and the one on disk name the same files, in order; history
      names are used up and none of them is in use. */
  predicate NamesOk(m: Manifest, saved: Saved) {
    m.base == saved.base && m.incrs == saved.incrs
    && (m.base.Some? ==> m.base.value <= m.baseSeq)
    && (forall i, j :: 0 <= i < j < |m.incrs| ==> m.incrs[i] < m.incrs[j])
    && (forall i :: 0 <= i < |m.incrs| ==> m.incrs[i] <= m.incrSeq)
    && Past(m.history, m) && Past(saved.history, m)
  }

  /** The file being written, with the buffer, is the log `f`; the counters agree with it. */
  ghost predicate Writing<D(!new)>(t: Table, s: Server<D>, name: Name, f: Logged) {
    s.fd.Open? && s.fd.name == name && name in s.disk.files
    && s.disk.files[name] + s.buf == EncodeLog(f.log)
    && s.lastIncrSize == |s.disk.files[name]|
    && Holds(f.log, f.ops, t) && SelectedOk(f.log, s.selectedDb, t)
  }

  /** The INCR files that are no longer written are exactly their logs. */
  ghost predicate Finished(t: Table, files: map<Name, Bytes>, incrs: seq<nat>, logs: seq<Logged>) {
    |incrs| == |logs|
    && forall i :: 0 <= i < |incrs| ==>
         Incr(incrs[i]) in files && files[Incr(incrs[i])] == EncodeLog(logs[i].log) && Holds(logs[i].log, logs[i].ops, t)
  }

  ghost predicate OnInv<D(!new)>(e: Engine<D>, s: Server<D>, era: Era<D>) {
    var m, n := s.manifest, |s.manifest.incrs| - 1;
    m.base == Some(m.baseSeq) && n >= 0 && m.incrs[n] == m.incrSeq && |era.files| == n + 1
    && Base(m.baseSeq) in s.disk.files && Represents(e, s.disk.files[Base(m.baseSeq)], era.origin)
    && Finished(e.table, s.disk.files, m.incrs[..n], era.files[..n])
    && Writing(e.table, s, Incr(m.incrSeq), era.files[n])
    && AfterFiles(e, era.origin, era.files) == s.live
    && (s.child.Some? ==> AfterFiles(e, era.origin, era.files[..n]) == s.child.value)
  }

  ghost predicate WaitInv<D(!new)>(e: Engine<D>, s: Server<D>, era: Era<D>) {
    if s.child.Some? then
      |era.files| == 1 && era.origin == s.child.value
      && Writing(e.table, s, TempIncr, era.files[0])
      && AfterFiles(e, era.origin, era.files) == s.live
    else s.buf == "" && (s.fd.Open? ==> s.fd.name == TempIncr && TempIncr in s.disk.files)
  }

  ghost predicate Inv<D(!new)>(e: Engine<D>, s: Server<D>, era: Era<D>) {
    Proper(e.table) && NamesOk(s.manifest, s.disk.saved) && AllThere(s.disk) && s.lastIncrSize >= 0
    && if s.mode == On then OnInv(e, s, era) else WaitInv(e, s, era)
  }

  // ------------------------------------------------------------------------- runs

  datatype Step =
    | Propagating(ops: seq<Op>)
    | Flushing(wrote: nat, truncated: bool)
    | Rewriting(wrote: nat, truncated: bool, created: bool, persisted: bool, forked: bool)
    | ChildSucceeded(content: Bytes, calls: Calls)
    | ChildFailed
    | DeletingHistory(gc: bool, persisted: bool)
    | Crashing(cut: nat)

  /** A short write that `ftruncate` took back, through a descriptor that is not in append mode. */
  predicate LeavesHole<D>(s: Server<D>, wrote: nat, truncated: bool) {
    s.fd.Open? && !s.fd.append && 0 < wrote < |s.buf| && truncated
  }

  /** The write position is not at the end of the file: the next write will leave a hole or overwrite. */
  predicate Stale<D>(s: Server<D>) {
    s.fd.Open? && s.fd.name in s.disk.files && !s.fd.append && s.fd.offset != |s.disk.files[s.fd.name]|
  }

  function LastIncr(saved: Saved): Name
    requires saved.incrs != []
  {
    Incr(saved.incrs[|saved.incrs| - 1])
  }

  /** The disk after a crash that lost the end of the file being written. */
  function Crashed(disk: Disk, cut: nat): Disk
    requires disk.saved.incrs != [] && LastIncr(disk.saved) in disk.files && cut <= |disk.files[LastIncr(disk.saved)]|
  {
    var last := LastIncr(disk.saved);
    disk.(files := disk.files[last := disk.files[last][..cut]])
  }

  predicate CanCrash<D>(s: Server<D>, cut: nat) {
    s.mode == On && s.disk.saved.incrs != [] && LastIncr(s.disk.saved) in s.disk.files
    && cut <= |s.disk.files[LastIncr(s.disk.saved)]| && AllThere(Crashed(s.disk, cut))
  }

  /** What can happen next.  Nothing is written through a stale position, a rewrite starts with a
      complete flush, a child that reports success wrote the dataset it was forked with, and a
      crash does not fall inside a command of an unfinished transaction. */
  ghost predicate Enabled<D(!new)>(e: Engine<D>, s: Server<D>, step: Step) {
    match step
    case Propagating(ops) => ops != [] && Propagated(ops, e.table)
    case Flushing(wrote, _) => wrote <= |s.buf| && (wrote > 0 ==> !Stale(s))
    case Rewriting(wrote, _, _, _, _) => wrote == |s.buf| && (wrote > 0 ==> !Stale(s))
    case ChildSucceeded(content, _) => s.child.Some? && Represents(e, content, s.child.value)
    case ChildFailed => s.child.Some?
    case DeletingHistory(_, _) => s.mode == On
    case Crashing(cut) => CanCrash(s, cut) && !TornTransaction(s.disk.files[LastIncr(s.disk.saved)][..cut], e.table)
  }

  function Next<D>(e: Engine<D>, s: Server<D>, step: Step): Server<D>
    requires s.lastIncrSize >= 0 && (s.fd.Open? ==> s.fd.name in s.disk.files)
    requires step.Propagating? ==> step.ops != []
    requires step.Flushing? || step.Rewriting? ==> step.wrote <= |s.buf|
    requires step.Crashing? ==>
               s.disk.saved.incrs != [] && LastIncr(s.disk.saved) in s.disk.files
               && step.cut <= |s.disk.files[LastIncr(s.disk.saved)]| && AllThere(Crashed(s.disk, step.cut))
  {
    match step
    case Propagating(ops) => Propagate(e, s, ops)
    case Flushing(wrote, truncated) => Flush(s, wrote, truncated)
    case Rewriting(wrote, truncated, created, persisted, forked) =>
      StartRewrite(s, wrote, truncated, created, persisted, forked)
    case ChildSucceeded(content, calls) => RewriteDone(s, content, calls)
    case ChildFailed => CleanUp(s)
    case DeletingHistory(gc, persisted) => DeleteHistory(s, gc, persisted)
    case Crashing(cut) => Restart(e, Crashed(s.disk, cut))
  }

  // -------------------------------------------------------------------- propagating

  lemma {:induction false} ApplyAllConcat<D>(e: Engine<D>, d: D, a: seq<(int, Argv)>, b: seq<(int, Argv)>)
    ensures ApplyAll(e, d, a + b) == ApplyAll(e, ApplyAll(e, d, a), b)
    decreases |a|
  {
    if a == [] {
      assert a + b == b;
    } else {
      assert (a + b)[1..] == a[1..] + b;
      ApplyAllConcat(e, e.apply(d, a[0].0, a[0].1), a[1..], b);
    }
  }

  lemma {:induction false} AfterFilesSnoc<D>(e: Engine<D>, d: D, files: seq<Logged>)
    requires files != []
    ensures var n := |files| - 1;
            AfterFiles(e, d, files) == ApplyAll(e, AfterFiles(e, d, files[..n]), Executed(files[n].ops))
    decreases |files|
  {
    hide ApplyAll, Executed;
    var n := |files| - 1;
    if n == 0 {
      assert files[1..] == [];
    } else {
      assert files[1..][..n - 1] == files[..n][1..];
      AfterFilesSnoc(e, ApplyAll(e, d, Executed(files[0].ops)), files[1..]);
    }
  }

  /** More commands in the last file are more commands at the end of the history. */
  lemma AfterFilesExtended<D>(e: Engine<D>, d: D, files: seq<Logged>, f: Logged, ops: seq<Op>)
    requires files != [] && f.ops == files[|files| - 1].ops + ops
    ensures AfterFiles(e, d, files[|files| - 1 := f]) == ApplyAll(e, AfterFiles(e, d, files), Executed(ops))
  {
    hide ApplyAll, AfterFiles;
    var n := |files| - 1;
    AfterFilesSnoc(e, d, files);
    AfterFilesSnoc(e, d, files[n := f]);
    assert files[n := f][..n] == files[..n];
    assert Executed(f.ops) == Executed(files[n].ops) + Executed(ops);
    ApplyAllConcat(e, AfterFiles(e, d, files[..n]), Executed(files[n].ops), Executed(ops));
  }

  lemma PropagateWriting<D(!new)>(e: Engine<D>, s: Server<D>, ops: seq<Op>, name: Name, f: Logged)
    requires Proper(e.table) && ops != [] && Propagated(ops, e.table) && (s.mode == On || s.child.Some?)
    requires Writing(e.table, s, name, f)
    ensures Writing(e.table, Propagate(e, s, ops), name, Logged(f.log + UnitLog(s.selectedDb, ops), f.ops + ops))
  {
    hide Holds, SelectedOk, EncodeLog, UnitLog, ApplyAll, Proper, Propagated;
    FeedKeeps(f.log, f.ops, s.selectedDb, ops, e.table);
    EncodeLogConcat(f.log, UnitLog(s.selectedDb, ops));
  }

  lemma PropagateKeeps<D(!new)>(e: Engine<D>, s: Server<D>, era: Era<D>, ops: seq<Op>) returns (next: Era<D>)
    requires Inv(e, s, era) && ops != [] && Propagated(ops, e.table)
    ensures Inv(e, Propagate(e, s, ops), next)
  {
    hide Writing, Represents, Holds, UnitLog, ApplyAll, AfterFiles, EncodeLog, Proper, Propagated, Executed;
    next := era;
    if s.mode == On || s.child.Some? {
      var n := |era.files| - 1;
      var f := Logged(era.files[n].log + UnitLog(s.selectedDb, ops), era.files[n].ops + ops);
      next := era.(files := era.files[n := f]);
      PropagateWriting(e, s, ops, if s.mode == On then Incr(s.manifest.incrSeq) else TempIncr, era.files[n]);
      AfterFilesExtended(e, era.origin, era.files, f, ops);
      assert next.files[..n] == era.files[..n];
    }
  }

  // ----------------------------------------------------------------------- flushing

  /** The open file, its size on record and the write position agree. */
  predicate InSync<D>(s: Server<D>) {
    s.fd.Open? && s.fd.name in s.disk.files && s.lastIncrSize == |s.disk.files[s.fd.name]|
    && (s.fd.append || s.fd.offset == s.lastIncrSize)
  }

  /** What is on file or still buffered for it. */
  function Pipeline<D>(s: Server<D>): Bytes
    requires s.fd.Open? && s.fd.name in s.disk.files
  {
    s.disk.files[s.fd.name] + s.buf
  }

  /** Whatever part of the buffer a flush got out, and whether or not a short write could be taken
      back: no byte is lost or doubled, nothing else on disk changes, the recorded size is the size
      of the file.  The write position stays right too if and only if no hole is left. */
  lemma FlushConserves<D>(s: Server<D>, wrote: nat, truncated: bool)
    requires InSync(s) && wrote <= |s.buf|
    ensures var t := Flush(s, wrote, truncated);
            t.fd.Open? && t.fd.name == s.fd.name && t.fd.append == s.fd.append
            && t.disk == s.disk.(files := s.disk.files[s.fd.name := t.disk.files[s.fd.name]])
            && t == s.(disk := t.disk, fd := t.fd, buf := t.buf, lastIncrSize := t.lastIncrSize)
            && Pipeline(t) == Pipeline(s)
            && t.lastIncrSize == |t.disk.files[t.fd.name]|
            && (wrote == |s.buf| ==> t.buf == "")
            && (InSync(t) <==> !LeavesHole(s, wrote, truncated))
  {
    hide WriteAt, Resize;
    var content, out := s.disk.files[s.fd.name], s.buf[..wrote];
    WriteAtEnd(content, out);
    if s.buf == "" || wrote == 0 {
      assert content + "" == content && s.disk.files[s.fd.name := content] == s.disk.files;
    } else if wrote == |s.buf| {
      assert out == s.buf && content + s.buf + "" == content + s.buf;
    } else if truncated {
      ResizeBack(content, out);
      assert s.disk.files[s.fd.name := content + out][s.fd.name := content] == s.disk.files;
    } else {
      assert content + out + s.buf[wrote..] == content + s.buf;
    }
  }

  /** Whatever the state, a flush touches the open file, its descriptor, the buffer and the recorded size only. */
  lemma FlushFrame<D>(s: Server<D>, wrote: nat, truncated: bool)
    requires Ready(s) && wrote <= |s.buf|
    ensures var t := Flush(s, wrote, truncated);
            t == s.(disk := t.disk, fd := t.fd, buf := t.buf, lastIncrSize := t.lastIncrSize) && t.disk.saved == s.disk.saved
            && forall k :: k in s.disk.files && !(s.fd.Open? && k == s.fd.name) ==>
                 k in t.disk.files && t.disk.files[k] == s.disk.files[k]
  {
    hide WriteAt, Resize;
  }

  lemma ResizeBack(content: Bytes, out: Bytes)
    ensures Resize(content + out, |content|) == content
  {}

  lemma WriteAtEnd(content: Bytes, bytes: Bytes)
    ensures WriteAt(content, |content|, bytes) == content + bytes
  {
    assert content[..|content|] == content;
  }

  /** A hole is real: the next complete flush puts zero bytes between the old and the new commands. */
  lemma HoleIsWritten<D>(s: Server<D>, wrote: nat)
    requires InSync(s) && LeavesHole(s, wrote, true)
    ensures var t := Flush(s, wrote, true);
            var u := Flush(t, |t.buf|, false);
            u.fd.Open? && u.disk.files[s.fd.name] == s.disk.files[s.fd.name] + Zeros(wrote) + s.buf
            && Pipeline(u) != Pipeline(s)
  {
    FlushConserves(s, wrote, true);
    var t := Flush(s, wrote, true);
    var content := s.disk.files[s.fd.name];
    assert t.buf == s.buf && t.disk.files[s.fd.name] == content && t.fd.offset == |content| + wrote by {
      WriteAtEnd(content, s.buf[..wrote]);
      assert (content + s.buf[..wrote])[..|content|] == content;
    }
    assert t.buf[..|t.buf|] == t.buf;
    var u := Flush(t, |t.buf|, false);
    assert |Pipeline(u)| == |content| + wrote + |s.buf|;
  }

  lemma FlushWriting<D(!new)>(t: Table, s: Server<D>, wrote: nat, truncated: bool, name: Name, f: Logged)
    requires Writing(t, s, name, f) && wrote <= |s.buf| && (wrote > 0 ==> !Stale(s))
    ensures Writing(t, Flush(s, wrote, truncated), name, f)
  {
    hide Holds, SelectedOk, EncodeLog, Flush;
    if wrote == 0 { FlushNothing(s, truncated); } else { FlushConserves(s, wrote, truncated); }
  }

  lemma FlushNothing<D>(s: Server<D>, truncated: bool)
    requires s.lastIncrSize >= 0 && (s.fd.Open? ==> s.fd.name in s.disk.files)
    ensures Flush(s, 0, truncated) == s
  {
    if s.fd.Open? { assert s.disk.files[s.fd.name := s.disk.files[s.fd.name]] == s.disk.files; }
  }

  lemma FlushKeeps<D(!new)>(e: Engine<D>, s: Server<D>, era: Era<D>, wrote: nat, truncated: bool)
    requires Inv(e, s, era) && wrote <= |s.buf| && (wrote > 0 ==> !Stale(s))
    ensures s.fd.Open? ==> s.fd.name in s.disk.files
    ensures Inv(e, Flush(s, wrote, truncated), era)
  {
    hide Holds, EncodeLog, Represents, AfterFiles, Flush, Proper, SelectedOk, Finished;
    InvReady(e, s, era);
    if wrote == 0 {
      FlushNothing(s, truncated);
    } else {
      var name, n := if s.mode == On then Incr(s.manifest.incrSeq) else TempIncr, |era.files| - 1;
      FlushWriting(e.table, s, wrote, truncated, name, era.files[n]);
      FlushConserves(s, wrote, truncated);
      if s.mode == On {
        SameElsewhere(e, s.disk.files, Flush(s, wrote, truncated).disk.files, name, s.manifest, era);
      }
    }
  }

  /** Changing only the last INCR file leaves the finished files alone. */
  lemma SameElsewhere<D(!new)>(e: Engine<D>, old': map<Name, Bytes>, new': map<Name, Bytes>, name: Name, m: Manifest, era: Era<D>)
    requires m.incrs != [] && name == Incr(m.incrs[|m.incrs| - 1]) && |era.files| == |m.incrs|
    requires forall i, j :: 0 <= i < j < |m.incrs| ==> m.incrs[i] < m.incrs[j]
    requires forall k :: k in old' && k != name ==> k in new' && new'[k] == old'[k]
    requires Finished(e.table, old', m.incrs[..|m.incrs| - 1], era.files[..|m.incrs| - 1])
    ensures Finished(e.table, new', m.incrs[..|m.incrs| - 1], era.files[..|m.incrs| - 1])
  {
    hide Holds, EncodeLog;
    var n := |m.incrs| - 1;
    forall i | 0 <= i < n
      ensures Incr(m.incrs[..n][i]) in new' && new'[Incr(m.incrs[..n][i])] == old'[Incr(m.incrs[..n][i])]
    {
      assert m.incrs[..n][i] == m.incrs[i] < m.incrs[n];
    }
  }

  // ------------------------------------------------------------- starting a rewrite

  /** Forgetting the selected database is always safe. */
  lemma ForgetSelected<D(!new)>(e: Engine<D>, s: Server<D>, era: Era<D>)
    requires Inv(e, s, era)
    ensures Inv(e, s.(selectedDb := -1), era)
  {
    hide Holds, EncodeLog, Represents, AfterFiles, Proper, SelectedAfter, Settled;
  }

  lemma PastAfterNewIncr(names: seq<Name>, m: Manifest)
    requires Past(names, m)
    ensures Past(names, NewIncr(m))
  {}

  lemma FinishedSnoc(t: Table, files: map<Name, Bytes>, incrs: seq<nat>, logs: seq<Logged>)
    requires |incrs| == |logs| > 0
    requires Finished(t, files, incrs[..|incrs| - 1], logs[..|logs| - 1])
    requires var n := |incrs| - 1;
             Incr(incrs[n]) in files && files[Incr(incrs[n])] == EncodeLog(logs[n].log) && Holds(logs[n].log, logs[n].ops, t)
    ensures Finished(t, files, incrs, logs)
  {
    hide Holds, EncodeLog;
    var n := |incrs| - 1;
    forall i | 0 <= i < |incrs|
      ensures Incr(incrs[i]) in files && files[Incr(incrs[i])] == EncodeLog(logs[i].log) && Holds(logs[i].log, logs[i].ops, t)
    {
      if i < n { assert incrs[..n][i] == incrs[i] && logs[..n][i] == logs[i]; }
    }
  }

  /** Opening the next INCR file after a complete flush: the file so far is finished, the new one empty. */
  lemma OpenOn<D(!new)>(e: Engine<D>, s: Server<D>, era: Era<D>, created: bool, persisted: bool) returns (next: Era<D>)
    requires Inv(e, s, era) && s.mode == On && s.buf == "" && s.selectedDb == -1 && s.child == None
    ensures Inv(e, OpenNewIncr(s, created, persisted).0, next)
    ensures OpenNewIncr(s, created, persisted).1 ==>
              var n := |next.files| - 1;
              n >= 0 && next.files[n] == Logged([], []) && AfterFiles(e, next.origin, next.files[..n]) == s.live
  {
    hide Inv, AfterFiles;
    next := era;
    if created && persisted {
      next := OpenWorks(e, s, era);
    } else if created {
      OpenNotSaved(e, s, era);
    }
  }

  lemma OpenNotSaved<D(!new)>(e: Engine<D>, s: Server<D>, era: Era<D>)
    requires Inv(e, s, era) && s.mode == On
    ensures Inv(e, OpenNewIncr(s, true, false).0, era)
  {
    hide Holds, EncodeLog, Represents, AfterFiles, Proper, SelectedOk, Finished, NamesOk, AllThere;
    UnnamedFiles(e, s, era, s.disk.files[Incr(s.manifest.incrSeq + 1) := ""]);
  }

  lemma OpenWorks<D(!new)>(e: Engine<D>, s: Server<D>, era: Era<D>) returns (next: Era<D>)
    requires Inv(e, s, era) && s.mode == On && s.buf == "" && s.selectedDb == -1 && s.child == None
    ensures Inv(e, OpenNewIncr(s, true, true).0, next)
    ensures var n := |next.files| - 1;
            n >= 0 && next.files[n] == Logged([], []) && AfterFiles(e, next.origin, next.files[..n]) == s.live
  {
    hide Holds, EncodeLog, Represents, AfterFiles, Proper, SelectedOk;
    var t := OpenNewIncr(s, true, true).0;
    var m, n := s.manifest, |s.manifest.incrs| - 1;
    forall i | 0 <= i < |m.incrs| ensures Incr(m.incrs[i]) != Incr(m.incrSeq + 1) && Incr(m.incrs[i]) in s.disk.files {}
    assert Finished(e.table, t.disk.files, m.incrs[..n], era.files[..n]) by {
      forall i | 0 <= i < n ensures m.incrs[..n][i] == m.incrs[i] {}
    }
    next := era.(files := era.files + [Logged([], [])]);
    assert s.disk.files[Incr(m.incrSeq)] + "" == s.disk.files[Incr(m.incrSeq)];
    FinishedSnoc(e.table, t.disk.files, m.incrs, era.files);
    EmptyHolds(e.table);
    NothingLogged(e, era.origin, era.files);
    assert next.files[..n + 1] == era.files && t.manifest.incrs[..n + 1] == m.incrs;
    PastAfterNewIncr(m.history, m);
    EmptyLog();
    assert t.manifest.incrs[n + 1] == m.incrSeq + 1;
    forall i | 0 <= i < |t.disk.saved.incrs| ensures Incr(t.disk.saved.incrs[i]) in t.disk.files {
      if i <= n { assert t.disk.saved.incrs[i] == m.incrs[i]; }
    }
  }

  lemma EmptyLog()
    ensures EncodeLog([]) == ""
  {}

  lemma NothingLogged<D>(e: Engine<D>, d: D, files: seq<Logged>)
    ensures AfterFiles(e, d, files + [Logged([], [])]) == AfterFiles(e, d, files)
  {
    AfterFilesSnoc(e, d, files + [Logged([], [])]);
    assert (files + [Logged([], [])])[..|files|] == files;
    assert Executed([]) == [];
  }

  lemma StartRewriteKeeps<D(!new)>(e: Engine<D>, s: Server<D>, era: Era<D>, step: Step) returns (next: Era<D>)
    requires Inv(e, s, era) && step.Rewriting? && step.wrote == |s.buf| && (step.wrote > 0 ==> !Stale(s))
    ensures s.fd.Open? ==> s.fd.name in s.disk.files
    ensures Inv(e, StartRewrite(s, step.wrote, step.truncated, step.created, step.persisted, step.forked), next)
  {
    hide OnInv, WaitInv, NamesOk, AllThere, Proper, Flush, OpenNewIncr;
    var s' := s.(selectedDb := -1);
    ForgetSelected(e, s, era);
    InvReady(e, s, era);
    FlushKeeps(e, s', era, step.wrote, step.truncated);
    next := era;
    if s.child == None {
      var t := Flush(s', step.wrote, step.truncated);
      FlushEmpties(e, s', era, step.wrote, step.truncated);
      if s.mode == On {
        next := OpenOn(e, t, era, step.created, step.persisted);
        ForkOn(e, t, next, step.created, step.persisted);
      } else {
        next := StartWaiting(e, t, era, step.created, step.persisted, step.forked);
      }
    }
  }

  /** The child starts from the dataset the files before the new one rebuild. */
  lemma ForkOn<D(!new)>(e: Engine<D>, t: Server<D>, next: Era<D>, created: bool, persisted: bool)
    requires t.mode == On
    requires var (u, ok) := OpenNewIncr(t, created, persisted);
             Inv(e, u, next)
             && (ok ==> var n := |next.files| - 1;
                        n >= 0 && next.files[n] == Logged([], []) && AfterFiles(e, next.origin, next.files[..n]) == t.live)
    ensures var (u, ok) := OpenNewIncr(t, created, persisted);
            ok ==> Inv(e, u.(child := Some(u.live)), next)
  {
    hide Holds, EncodeLog, Represents, AfterFiles, Proper, SelectedOk, NamesOk, Finished, AllThere;
  }

  lemma FlushEmpties<D(!new)>(e: Engine<D>, s: Server<D>, era: Era<D>, wrote: nat, truncated: bool)
    requires Inv(e, s, era) && wrote == |s.buf| && (s.fd.Open? ==> s.fd.name in s.disk.files)
    ensures var t := Flush(s, wrote, truncated);
            t.buf == "" && t.selectedDb == s.selectedDb && t.child == s.child && t.live == s.live
            && t.mode == s.mode && t.manifest == s.manifest
  {
    hide Holds, EncodeLog, Represents, AfterFiles, Proper, SelectedOk;
  }

  lemma StartWaiting<D(!new)>(e: Engine<D>, t: Server<D>, era: Era<D>, created: bool, persisted: bool, forked: bool)
    returns (next: Era<D>)
    requires Inv(e, t, era) && t.mode == WaitRewrite && t.buf == "" && t.selectedDb == -1 && t.child == None
    ensures var (u, ok) := OpenNewIncr(t, created, persisted);
            Inv(e, if ok && forked then u.(child := Some(u.live)) else u, next)
  {
    hide Holds, EncodeLog, Represents, AfterFiles, Proper, SelectedOk, NamesOk;
    next := Era(t.live, [Logged([], [])]);
    EmptyHolds(e.table);
    EmptyLog();
    NoFiles(e, t.live);
    NothingLogged(e, t.live, []);
    assert [] + [Logged([], [])] == [Logged([], [])];
  }

  // ---------------------------------------------------------------- the child is done

  lemma CleanUpKeeps<D(!new)>(e: Engine<D>, s: Server<D>, era: Era<D>)
    requires Inv(e, s, era)
    ensures Inv(e, CleanUp(s), era)
  {
    hide Holds, EncodeLog, Represents, AfterFiles, Proper, SelectedOk;
  }

  /** Files that no manifest names may come and go. */
  lemma UnnamedFiles<D(!new)>(e: Engine<D>, s: Server<D>, era: Era<D>, files: map<Name, Bytes>)
    requires Inv(e, s, era) && s.mode == On
    requires forall k :: k in s.disk.files && (k.Base? ==> k.n <= s.manifest.baseSeq) && (k.Incr? ==> k.n <= s.manifest.incrSeq) ==>
               k in files && files[k] == s.disk.files[k]
    ensures Inv(e, s.(disk := s.disk.(files := files)), era)
  {
    hide Holds, EncodeLog, Represents, AfterFiles, Proper, SelectedOk;
    var m, n := s.manifest, |s.manifest.incrs| - 1;
    forall i | 0 <= i < n ensures m.incrs[..n][i] == m.incrs[i] <= m.incrSeq {}
  }

  lemma DeleteHistoryKeeps<D(!new)>(e: Engine<D>, s: Server<D>, era: Era<D>, gc: bool, persisted: bool)
    requires Inv(e, s, era) && s.mode == On
    ensures Inv(e, DeleteHistory(s, gc, persisted), era)
  {
    hide Holds, EncodeLog, Represents, AfterFiles, Proper, SelectedOk;
    var m, n := s.manifest, |s.manifest.incrs| - 1;
    var t := DeleteHistory(s, gc, persisted);
    forall i | 0 <= i < |m.incrs| ensures Incr(m.incrs[i]) !in m.history {
      assert m.incrs[i] in m.incrs;
    }
    assert Base(m.baseSeq) !in m.history;
    forall i | 0 <= i < n ensures m.incrs[..n][i] == m.incrs[i] {}
    assert Incr(m.incrSeq) !in m.history by { assert Incr(m.incrs[n]) !in m.history; }
  }

  /** When the handler gives up, no file under a new name is left, and the manifest, in memory and on disk, is as before. */
  lemma AbortCleans<D>(s: Server<D>, content: Bytes, calls: Calls)
    requires Base(s.manifest.baseSeq + 1) !in s.disk.files && Incr(s.manifest.incrSeq + 1) !in s.disk.files
    requires !calls.renamedBase || !calls.persisted || (s.mode == WaitRewrite && !calls.renamedIncr)
    ensures var t := RewriteDone(s, content, calls);
            t.disk.files == (if s.mode == WaitRewrite then s.disk.files - {TempIncr} else s.disk.files)
            && t.disk.saved == s.disk.saved && t.manifest == s.manifest && t.mode == s.mode && t.child == None
            && (s.mode == WaitRewrite ==> t.buf == "") && (s.mode == On ==> t.buf == s.buf)
  {
    hide NewManifest;
    var base, incr := Base(s.manifest.baseSeq + 1), Incr(s.manifest.incrSeq + 1);
    var files := s.disk.files;
    assert files[base := content] - {base} == files;
    if TempIncr in files {
      assert (files[base := content] - {TempIncr})[incr := files[TempIncr]] - {base, incr} - {TempIncr} == files - {TempIncr};
    } else {
      assert files[base := content] - {base, incr} - {TempIncr} == files - {TempIncr};
    }
  }

  /** After a rewrite that went through, the next command is logged with a SELECT in front. */
  lemma SwitchForcesSelect<D>(s: Server<D>, content: Bytes, calls: Calls)
    requires calls.renamedBase && calls.persisted && (s.mode == WaitRewrite ==> calls.renamedIncr) && s.fd.Open?
    ensures var t := RewriteDone(s, content, calls); t.mode == On && t.selectedDb == -1 && t.child == None
  {
    hide NewManifest, UnlinkAll, Save;
  }

  /** With deletion on, no history file is left, in the manifest in memory or on disk; on disk the manifest follows
      if it can be written. */
  lemma HistoryIsGone<D>(s: Server<D>, persisted: bool)
    ensures var t := DeleteHistory(s, true, persisted);
            t.manifest.history == [] && (forall k :: k in s.manifest.history ==> k !in t.disk.files)
            && (forall k :: k in s.disk.files && k !in s.manifest.history ==> k in t.disk.files && t.disk.files[k] == s.disk.files[k])
            && (persisted && s.manifest.history != [] ==> t.disk.saved == Saved(s.manifest.base, s.manifest.incrs, []))
            && (!persisted ==> t.disk.saved == s.disk.saved)
            && (t.manifest.dirty <==> if s.manifest.history == [] then s.manifest.dirty else !persisted)
  {
  }

  /** While AOF is being switched on, opening an INCR file needs no manifest: it succeeds whenever the file can be
      created, and that file is empty and open.  With AOF on it also needs the manifest, which then lists the file last. */
  lemma OpensFile<D>(s: Server<D>, created: bool, persisted: bool)
    ensures var (t, ok) := OpenNewIncr(s, created, persisted);
            (ok <==> created && (s.mode == On ==> persisted))
            && (ok ==> t.fd.Open? && t.fd.offset == 0 && !t.fd.append && t.lastIncrSize == 0
                       && t.fd.name in t.disk.files && t.disk.files[t.fd.name] == "")
            && (ok && s.mode == WaitRewrite ==> t.fd.name == TempIncr && t.disk.saved == s.disk.saved && t.manifest == s.manifest)
            && (ok && s.mode == On ==>
                  t.fd.name == Incr(s.manifest.incrSeq + 1) && t.disk.saved.incrs == s.manifest.incrs + [s.manifest.incrSeq + 1]
                  && t.manifest.incrs == t.disk.saved.incrs)
            && (!ok ==> t.manifest == s.manifest && t.disk.saved == s.disk.saved)
  {
  }

  /** The state right after the new manifest is on disk. */
  function Switched<D>(s: Server<D>, content: Bytes): Server<D> {
    var t := BaseInPlace(s, content);
    var u := if s.mode == WaitRewrite then IncrInPlace(t) else t;
    var m := NewManifest(s);
    u.(disk := u.disk.(saved := Save(m)), manifest := m.(dirty := false),
       selectedDb := if u.fd != Closed then -1 else u.selectedDb, mode := On)
  }

  lemma PastAfterSwitch(m: Manifest, m': Manifest, moved: seq<nat>)
    requires Past(m.history, m) && (m.base.Some? ==> m.base.value <= m.baseSeq)
    requires forall i :: 0 <= i < |moved| ==> moved[i] <= m'.incrSeq && moved[i] !in m'.incrs
    requires m'.base == Some(m'.baseSeq) && m'.baseSeq == m.baseSeq + 1 && m'.incrSeq >= m.incrSeq
    requires forall k :: k in m'.incrs ==> k in m.incrs || k > m.incrSeq
    ensures Past(IncrNames(moved) + ((if m.base.Some? then [Base(m.base.value)] else []) + m.history), m')
  {}

  /** With AOF on, only the file being written stays an INCR file. */
  lemma OnManifest<D>(s: Server<D>)
    requires s.mode == On && s.fd != Closed && s.manifest.incrs != []
    ensures var m, n := s.manifest, |s.manifest.incrs| - 1;
            NewManifest(s) == Manifest(Some(m.baseSeq + 1), [m.incrs[n]],
              IncrNames(m.incrs[..n]) + ((if m.base.Some? then [Base(m.base.value)] else []) + m.history),
              m.baseSeq + 1, m.incrSeq, true)
  {
    var m, n := s.manifest, |s.manifest.incrs| - 1;
    assert m.incrs[n..] == [m.incrs[n]];
  }

  lemma OnNames<D>(s: Server<D>)
    requires s.mode == On && s.fd != Closed && s.manifest.incrs != [] && NamesOk(s.manifest, s.disk.saved)
    ensures NamesOk(NewManifest(s).(dirty := false), Save(NewManifest(s)))
  {
    OnManifest(s);
    var m, n, m' := s.manifest, |s.manifest.incrs| - 1, NewManifest(s);
    hide NewManifest;
    forall i | 0 <= i < n ensures m.incrs[..n][i] == m.incrs[i] < m.incrs[n] {}
    PastAfterSwitch(m, m', m.incrs[..n]);
  }

  lemma SwitchOn<D(!new)>(e: Engine<D>, s: Server<D>, era: Era<D>, content: Bytes) returns (next: Era<D>)
    requires Inv(e, s, era) && s.mode == On && s.child.Some? && Represents(e, content, s.child.value)
    ensures Inv(e, Switched(s, content), next)
  {
    hide Holds, EncodeLog, Represents, Proper, SelectedOk, AfterFiles, NewManifest, NamesOk, IncrNames, Finished, ApplyAll;
    var n, incr := |s.manifest.incrs| - 1, Incr(s.manifest.incrSeq);
    var t := Switched(s, content);
    next := Era(s.child.value, [era.files[n]]);
    OnManifest(s);
    OnNames(s);
    assert t.disk.files == s.disk.files[Base(s.manifest.baseSeq + 1) := content] && t.fd == s.fd;
    NothingTracked(era.files[n].log, e.table);
    AfterFilesSnoc(e, era.origin, era.files);
    AfterFilesSnoc(e, s.child.value, next.files);
    assert next.files[..0] == [] && t.manifest.incrs[..0] == [];
    NoFiles(e, s.child.value);
    NoneFinished(e.table, t.disk.files);
  }

  lemma NoneFinished(t: Table, files: map<Name, Bytes>)
    ensures Finished(t, files, [], [])
  {}

  /** What the switch out of WaitRewrite writes into the manifest. */
  lemma WaitManifest<D>(s: Server<D>)
    requires s.mode == WaitRewrite && s.fd != Closed
    ensures var m := s.manifest;
            NewManifest(s) == Manifest(Some(m.baseSeq + 1), [m.incrSeq + 1],
              IncrNames(m.incrs) + ((if m.base.Some? then [Base(m.base.value)] else []) + m.history),
              m.baseSeq + 1, m.incrSeq + 1, true)
  {
    var m, n := s.manifest, |s.manifest.incrs|;
    var grown := NewIncr(NewBase(m)).incrs;
    assert grown == m.incrs + [m.incrSeq + 1] && grown[..n] == m.incrs && grown[n..] == [m.incrSeq + 1];
  }

  lemma WaitNames<D>(s: Server<D>)
    requires s.mode == WaitRewrite && s.fd != Closed && NamesOk(s.manifest, s.disk.saved)
    ensures NamesOk(NewManifest(s).(dirty := false), Save(NewManifest(s)))
  {
    WaitManifest(s);
    var m, m' := s.manifest, NewManifest(s);
    hide NewManifest;
    PastAfterSwitch(m, m', m.incrs);
  }

  lemma SwitchWait<D(!new)>(e: Engine<D>, s: Server<D>, era: Era<D>, content: Bytes)
    requires Inv(e, s, era) && s.mode == WaitRewrite && s.child.Some? && Represents(e, content, s.child.value)
    ensures Inv(e, Switched(s, content), era)
  {
    hide Holds, EncodeLog, Represents, Proper, SelectedOk, AfterFiles, NewManifest, NamesOk, IncrNames;
    var base, incr := Base(s.manifest.baseSeq + 1), Incr(s.manifest.incrSeq + 1);
    var t := Switched(s, content);
    WaitManifest(s);
    WaitNames(s);
    assert t.disk.files == (s.disk.files[base := content] - {TempIncr})[incr := s.disk.files[TempIncr]];
    assert t.fd == s.fd.(name := incr);
    assert SelectedOk(era.files[0].log, -1, e.table) by { NothingTracked(era.files[0].log, e.table); }
    assert t.manifest.incrs[..0] == [] && era.files[..0] == [];
    assert AfterFiles(e, era.origin, []) == era.origin by { NoFiles(e, era.origin); }
  }

  lemma NoFiles<D>(e: Engine<D>, d: D)
    ensures AfterFiles(e, d, []) == d
  {}

  lemma NothingTracked(log: seq<Argv>, t: Table)
    ensures SelectedOk(log, -1, t)
  {
    hide Settled, SelectedAfter;
  }

  lemma RewriteDoneKeeps<D(!new)>(e: Engine<D>, s: Server<D>, era: Era<D>, content: Bytes, calls: Calls) returns (next: Era<D>)
    requires Inv(e, s, era) && s.child.Some? && Represents(e, content, s.child.value)
    ensures Inv(e, RewriteDone(s, content, calls), next)
  {
    hide Holds, EncodeLog, Represents, Proper, SelectedOk, AfterFiles, DeleteHistory;
    next := era;
    var waiting := s.mode == WaitRewrite;
    if !calls.renamedBase {
      CleanUpKeeps(e, s, era);
    } else if !calls.persisted || (waiting && !calls.renamedIncr) {
      RewriteAborted(e, s, era, content, calls);
    } else {
      if waiting { SwitchWait(e, s, era, content); } else { next := SwitchOn(e, s, era, content); }
      var v := Switched(s, content);
      assert v.mode == On by { hide NewManifest, IncrInPlace, BaseInPlace; }
      DeleteHistoryKeeps(e, v, next, calls.gc, calls.persistedAgain);
      CleanUpKeeps(e, DeleteHistory(v, calls.gc, calls.persistedAgain), next);
    }
  }

  /** A failed rename or a failed write of the manifest undoes what was put in place. */
  lemma RewriteAborted<D(!new)>(e: Engine<D>, s: Server<D>, era: Era<D>, content: Bytes, calls: Calls)
    requires Inv(e, s, era) && s.child.Some? && calls.renamedBase
    requires !calls.persisted || (s.mode == WaitRewrite && !calls.renamedIncr)
    ensures Inv(e, RewriteDone(s, content, calls), era)
  {
    if s.mode == On { AbortedOn(e, s, era, content, calls); } else { AbortedWaiting(e, s, era, content, calls); }
  }

  lemma AbortedOn<D(!new)>(e: Engine<D>, s: Server<D>, era: Era<D>, content: Bytes, calls: Calls)
    requires Inv(e, s, era) && s.mode == On && calls.renamedBase && !calls.persisted
    ensures Inv(e, RewriteDone(s, content, calls), era)
  {
    hide OnInv, NamesOk, AllThere, Proper, DeleteHistory, NewManifest;
    var base := Base(s.manifest.baseSeq + 1);
    UnnamedFiles(e, s, era, s.disk.files[base := content] - {base});
    CleanUpKeeps(e, s.(disk := s.disk.(files := s.disk.files[base := content] - {base})), era);
  }

  lemma AbortedWaiting<D(!new)>(e: Engine<D>, s: Server<D>, era: Era<D>, content: Bytes, calls: Calls)
    requires Inv(e, s, era) && s.mode == WaitRewrite && s.child.Some? && calls.renamedBase
    requires !calls.persisted || !calls.renamedIncr
    ensures Inv(e, RewriteDone(s, content, calls), era)
  {
    hide Holds, EncodeLog, Represents, Proper, SelectedOk, AfterFiles, DeleteHistory, NewManifest;
    var m := s.manifest;
    forall i | 0 <= i < |m.incrs| ensures Incr(m.incrs[i]) in s.disk.files && m.incrs[i] <= m.incrSeq {}
  }

  /** A crash between any two system calls of the handler is harmless too: the invariant, and with it
      recovery, holds with the new BASE file in place, with the new manifest on disk, and with any part
      of the history already deleted.  While AOF is being switched on, the INCR file gets its final
      name in between, and the files of the manifest on disk are still there. */
  lemma MidRewrite<D(!new)>(e: Engine<D>, s: Server<D>, era: Era<D>, content: Bytes, gone: seq<Name>) returns (next: Era<D>)
    requires Inv(e, s, era) && s.child.Some? && Represents(e, content, s.child.value)
    requires forall k :: k in gone ==> k in NewManifest(s).history
    ensures Inv(e, BaseInPlace(s, content), era)
    ensures s.mode == WaitRewrite ==> AllThere(IncrInPlace(BaseInPlace(s, content)).disk)
    ensures Inv(e, Switched(s, content), next)
    ensures var t := Switched(s, content);
            Inv(e, t.(disk := t.disk.(files := UnlinkAll(t.disk.files, gone))), next)
  {
    hide OnInv, WaitInv, NamesOk, AllThere, Represents, Proper, NewManifest;
    if s.mode == On {
      UnnamedFiles(e, s, era, s.disk.files[Base(s.manifest.baseSeq + 1) := content]);
      next := SwitchOn(e, s, era, content);
    } else {
      MidWaiting(e, s, era, content);
      next := era;
      SwitchWait(e, s, era, content);
    }
    UnlinkHistory(e, Switched(s, content), next, gone);
  }

  lemma MidWaiting<D(!new)>(e: Engine<D>, s: Server<D>, era: Era<D>, content: Bytes)
    requires Inv(e, s, era) && s.mode == WaitRewrite && s.child.Some?
    ensures Inv(e, BaseInPlace(s, content), era) && AllThere(IncrInPlace(BaseInPlace(s, content)).disk)
  {
    hide Holds, EncodeLog, Represents, AfterFiles, Proper, SelectedOk;
  }

  lemma UnlinkHistory<D(!new)>(e: Engine<D>, s: Server<D>, era: Era<D>, gone: seq<Name>)
    requires Inv(e, s, era) && s.mode == On && forall k :: k in gone ==> k in s.manifest.history
    ensures Inv(e, s.(disk := s.disk.(files := UnlinkAll(s.disk.files, gone))), era)
  {
    hide Holds, EncodeLog, Represents, AfterFiles, Proper, SelectedOk;
    var m, n := s.manifest, |s.manifest.incrs| - 1;
    forall i | 0 <= i < |m.incrs| ensures Incr(m.incrs[i]) !in m.history {
      assert m.incrs[i] in m.incrs;
    }
    assert Base(m.baseSeq) !in m.history;
    forall i | 0 <= i < n ensures m.incrs[..n][i] == m.incrs[i] {}
    assert Incr(m.incrSeq) !in m.history by { assert Incr(m.incrs[n]) !in m.history; }
  }

  // ------------------------------------------------------------------------ recovery

  lemma LoadWholeFile<D>(e: Engine<D>, d: D, f: Logged)
    requires Holds(f.log, f.ops, e.table)
    ensures var (status, data, size) := LoadFile(e, d, EncodeLog(f.log));
            (status == Ok || status == Empty) && data == ApplyAll(e, d, Executed(f.ops))
  {
    hide EncodeLog, Load, Settled, Sound, Unnested, EndsInMulti, ApplyAll;
    LoadClosedLog(f.log, Tolerant(e.table));
    if f.log == [] { ClosedEmpty(e.table); }
    assert Targets(Settled(f.log, e.table), 0, e.table) == Executed(f.ops);
  }

  /** The verdict on the last file is the verdict on the whole. */
  function LastVerdict<D>(r: (Status, D, nat)): Recovered<D> {
    Recovered(if r.0 == Empty then Ok else if r.0 == RdbFormat then Failed else r.0, r.1, r.2)
  }

  lemma {:induction false} LoadUpToLast<D>(e: Engine<D>, d: D, files: map<Name, Bytes>, incrs: seq<nat>, logs: seq<Logged>)
    requires incrs != [] && |logs| == |incrs| - 1 && Finished(e.table, files, incrs[..|incrs| - 1], logs)
    requires forall i :: 0 <= i < |incrs| ==> Incr(incrs[i]) in files
    ensures LoadIncrs(e, d, files, incrs)
         == LastVerdict(LoadFile(e, AfterFiles(e, d, logs), files[Incr(incrs[|incrs| - 1])]))
    decreases |incrs|
  {
    hide Holds, EncodeLog, LoadFile, ApplyAll, Executed;
    if |incrs| > 1 {
      var n := |incrs| - 1;
      assert incrs[..n][0] == incrs[0];
      LoadWholeFile(e, d, logs[0]);
      var next := ApplyAll(e, d, Executed(logs[0].ops));
      assert LoadIncrs(e, d, files, incrs) == LoadIncrs(e, next, files, incrs[1..]);
      assert incrs[1..][..n - 1] == incrs[..n][1..];
      FinishedTail(e.table, files, incrs[..n], logs);
      LoadUpToLast(e, next, files, incrs[1..], logs[1..]);
    }
  }

  lemma FinishedTail(t: Table, files: map<Name, Bytes>, incrs: seq<nat>, logs: seq<Logged>)
    requires Finished(t, files, incrs, logs) && incrs != []
    ensures Finished(t, files, incrs[1..], logs[1..])
  {
    hide Holds, EncodeLog;
  }

  lemma {:induction false} LoadEmptyIncrs<D>(e: Engine<D>, d: D, files: map<Name, Bytes>, incrs: seq<nat>)
    requires incrs != [] && forall i :: 0 <= i < |incrs| ==> Incr(incrs[i]) in files && files[Incr(incrs[i])] == ""
    ensures LoadIncrs(e, d, files, incrs) == Recovered(Ok, d, 0)
    decreases |incrs|
  {
    assert LoadFile(e, d, "") == (Empty, d, 0);
    if |incrs| > 1 { LoadEmptyIncrs(e, d, files, incrs[1..]); }
  }

  /** Loading is the BASE file and then the INCR files, also when there is nothing in them. */
  lemma LoadBaseThenIncrs<D(!new)>(e: Engine<D>, disk: Disk, origin: D)
    requires AllThere(disk) && disk.saved.base.Some? && disk.saved.incrs != []
    requires Represents(e, disk.files[Base(disk.saved.base.value)], origin)
    ensures var r := LoadIncrs(e, origin, disk.files, disk.saved.incrs);
            LoadAll(e, disk) == if AllEmpty(disk) then r.(status := Empty) else r
  {
    hide LoadFile;
    if AllEmpty(disk) {
      LoadEmptyIncrs(e, origin, disk.files, disk.saved.incrs);
      NothingToLoad(e);
    }
  }

  lemma NothingToLoad<D>(e: Engine<D>)
    ensures LoadFile(e, e.empty, "") == (Empty, e.empty, 0)
  {}

  /** The disk as it would be with the buffer written out. */
  function WithBuffer<D>(s: Server<D>): Disk
    requires s.fd.Open? && s.fd.name in s.disk.files
  {
    s.disk.(files := s.disk.files[s.fd.name := s.disk.files[s.fd.name] + s.buf])
  }

  lemma WithLastReplaced<D(!new)>(e: Engine<D>, s: Server<D>, era: Era<D>, content: Bytes)
    requires Inv(e, s, era) && s.mode == On
    ensures var m, n := s.manifest, |s.manifest.incrs| - 1;
            var disk := s.disk.(files := s.disk.files[Incr(m.incrSeq) := content]);
            AllThere(disk) && disk.saved.incrs != [] && LastIncr(disk.saved) == Incr(m.incrSeq)
            && var r := LastVerdict(LoadFile(e, AfterFiles(e, era.origin, era.files[..n]), content));
               LoadAll(e, disk) == if AllEmpty(disk) then r.(status := Empty) else r
  {
    hide Holds, EncodeLog, Represents, AfterFiles, Proper, SelectedOk, LoadFile, LoadAll;
    var m, n := s.manifest, |s.manifest.incrs| - 1;
    var name := Incr(m.incrSeq);
    var disk := s.disk.(files := s.disk.files[name := content]);
    SameElsewhere(e, s.disk.files, disk.files, name, m, era);
    LoadBaseThenIncrs(e, disk, era.origin);
    LoadUpToLast(e, era.origin, disk.files, m.incrs, era.files[..n]);
  }

  /** With the buffer, the files on disk rebuild the live dataset. */
  lemma RecoversLive<D(!new)>(e: Engine<D>, s: Server<D>, era: Era<D>)
    requires Inv(e, s, era) && s.mode == On
    ensures s.fd.Open? && s.fd.name in s.disk.files
    ensures var r := LoadAll(e, WithBuffer(s));
            (r.status == Ok || r.status == Empty) && r.data == s.live
  {
    hide Holds, EncodeLog, Represents, AfterFiles, Proper, SelectedOk, LoadFile, LoadAll, Finished, AllEmpty;
    var n := |era.files| - 1;
    WithLastReplaced(e, s, era, s.disk.files[s.fd.name] + s.buf);
    AfterFilesSnoc(e, era.origin, era.files);
    LoadWholeFile(e, AfterFiles(e, era.origin, era.files[..n]), era.files[n]);
  }

  // --------------------------------------------------------------- losing the tail

  lemma {:induction false} TargetsLength(cmds: seq<Argv>, a: int, b: int, t: Table)
    ensures |Targets(cmds, a, t)| == |Targets(cmds, b, t)|
    decreases |cmds|
  {
    hide TargetOf;
    if cmds != [] && t(cmds[0]) != Select { TargetsLength(cmds[1..], a, b, t); }
  }

  /** The commands that settle in a prefix of a file settle first in the whole file. */
  lemma SettledPrefix(log: seq<Argv>, k: nat, t: Table) returns (rest: seq<Argv>)
    requires k <= |log| && Unnested(log, t)
    ensures Settled(log, t) == Settled(log[..k], t) + rest
  {
    hide EndsInMulti, Settled, LastMulti;
    var whole := log[..k];
    var m := k;
    if EndsInMulti(whole, t) {
      UnnestedPrefix(log, k, t);
      SettledBeforeOpenMulti(whole, t);
      m := LastMulti(whole, t);
      assert log[..m] == whole[..m];
    }
    SettledConcat(log[..m], log[m..], t);
    assert log == log[..m] + log[m..];
    rest := Settled(log[m..], t);
  }

  lemma UnnestedPrefix(log: seq<Argv>, k: nat, t: Table)
    requires k <= |log| && Unnested(log, t)
    ensures Unnested(log[..k], t)
  {
    hide EndsInMulti;
    forall i | 0 <= i < k && t(log[..k][i]) == Multi ensures !EndsInMulti(log[..k][..i], t) {
      assert log[..k][..i] == log[..i];
    }
  }

  /** How many of the file's commands take effect when only its first `k` log entries survive. */
  function Survivors(f: Logged, k: nat, t: Table): nat
    requires k <= |f.log|
  {
    |Targets(Settled(f.log[..k], t), 0, t)|
  }

  lemma SurvivorsArePrefix(f: Logged, k: nat, db: int, t: Table)
    requires Holds(f.log, f.ops, t) && k <= |f.log|
    ensures Survivors(f, k, t) <= |f.ops|
    ensures Targets(Settled(f.log[..k], t), db, t) == Executed(f.ops[..Survivors(f, k, t)])
  {
    hide Settled, Targets, SelectedAfter, Sound, EndsInMulti, Unnested;
    var some := Settled(f.log[..k], t);
    var rest := SettledPrefix(f.log, k, t);
    TargetsConcat(some, rest, db, t);
    TargetsLength(some, 0, db, t);
    var j := Survivors(f, k, t);
    assert Targets(some + rest, db, t) == Executed(f.ops);
    assert Targets(some, db, t) == Executed(f.ops)[..j];
    assert Executed(f.ops)[..j] == Executed(f.ops[..j]);
  }

  lemma LoadCutFile<D>(e: Engine<D>, d: D, f: Logged, cut: nat)
    requires Holds(f.log, f.ops, e.table) && cut <= |EncodeLog(f.log)|
    ensures var (status, data, size) := LoadFile(e, d, EncodeLog(f.log)[..cut]);
            var r := CutOutcome(f.log, cut, e.table);
            var j := Survivors(f, Whole(f.log, cut), e.table);
            status == r.status && size == r.size && status != Failed && status != RdbFormat
            && j <= |f.ops| && data == ApplyAll(e, d, Executed(f.ops[..j]))
  {
    hide EncodeLog, Load, Settled, Unnested, EndsInMulti, ApplyAll, Targets;
    LoadCutLog(f.log, cut, Tolerant(e.table));
    SurvivorsArePrefix(f, Whole(f.log, cut), 0, e.table);
    if cut == 0 { WholeNone(f.log); assert f.log[..0] == []; ClosedEmpty(e.table); }
  }

  /** After a crash that keeps any first part of the file being written: loading succeeds, and the
      dataset is the live one as it was after a prefix of the commands -- all of them up to the
      first one that is not whole or whose transaction is not finished on disk. */
  lemma CrashRecovers<D(!new)>(e: Engine<D>, s: Server<D>, era: Era<D>, cut: nat)
    requires Inv(e, s, era) && s.mode == On
    requires cut <= |s.disk.files[Incr(s.manifest.incrSeq)]|
    ensures var n := |era.files| - 1;
            var f := era.files[n];
            var disk := s.disk.(files := s.disk.files[Incr(s.manifest.incrSeq) := s.disk.files[Incr(s.manifest.incrSeq)][..cut]]);
            var r := LoadAll(e, disk);
            AllThere(disk) && disk.saved.incrs != [] && LastIncr(disk.saved) == Incr(s.manifest.incrSeq)
            && cut <= |EncodeLog(f.log)|
            && disk.files[Incr(s.manifest.incrSeq)] == EncodeLog(f.log)[..cut]
            && (r.status == Ok || r.status == Truncated || r.status == Empty)
            && (r.status == Truncated <==> CutOutcome(f.log, cut, e.table).status == Truncated)
            && r.lastSize == CutOutcome(f.log, cut, e.table).size
            && var j := Survivors(f, Whole(f.log, cut), e.table);
               j <= |f.ops|
               && r.data == ApplyAll(e, AfterFiles(e, era.origin, era.files[..n]), Executed(f.ops[..j]))
  {
    hide Holds, EncodeLog, Represents, AfterFiles, Proper, SelectedOk, LoadFile, LoadAll, Finished, CutOutcome, Survivors;
    var n := |era.files| - 1;
    var f := era.files[n];
    var content := s.disk.files[Incr(s.manifest.incrSeq)];
    assert content[..cut] == EncodeLog(f.log)[..cut];
    WithLastReplaced(e, s, era, content[..cut]);
    LoadCutFile(e, AfterFiles(e, era.origin, era.files[..n]), f, cut);
    CutStatus(f.log, cut, e.table);
  }

  lemma CutStatus(log: seq<Argv>, cut: nat, t: Table)
    ensures cut == 0 ==> CutOutcome(log, cut, t) == Outcome(Empty, [], 0)
    ensures CutOutcome(log, cut, t).status in {Ok, Truncated, Empty}
  {
    hide EncodeLog, Settled, EndsInMulti, Whole, LastMulti;
  }

  /** What is left of the file being written after a crash and a reload. */
  function KeptFile(f: Logged, cut: nat, t: Table): Logged
    requires Survivors(f, Whole(f.log, cut), t) <= |f.ops|
  {
    Logged(f.log[..KeptCommands(f.log, cut, t)], f.ops[..Survivors(f, Whole(f.log, cut), t)])
  }

  lemma KeptHolds(f: Logged, cut: nat, t: Table)
    requires Holds(f.log, f.ops, t) && cut <= |EncodeLog(f.log)| && !TornInMulti(f.log, cut, t)
    ensures Survivors(f, Whole(f.log, cut), t) <= |f.ops|
    ensures Holds(KeptFile(f, cut, t).log, KeptFile(f, cut, t).ops, t)
  {
    hide EncodeLog, Settled, EndsInMulti, Targets, Whole, LastMulti, Extent, Unnested;
    var k, m := Whole(f.log, cut), KeptCommands(f.log, cut, t);
    KeptSettled(f.log, cut, t);
    UnnestedPrefix(f.log, m, t);
    SurvivorsArePrefix(f, k, 0, t);
    assert Settled(f.log[..m], t) == Settled(f.log[..k], t) by { CutExecuted(f.log, cut, t); }
    forall db ensures Targets(Settled(f.log[..m], t), db, t) == Executed(f.ops[..Survivors(f, k, t)]) {
      SurvivorsArePrefix(f, k, db, t);
    }
  }

  lemma CutExecuted(log: seq<Argv>, cut: nat, t: Table)
    ensures CutOutcome(log, cut, t).executed == Settled(log[..Whole(log, cut)], t)
  {
    hide EncodeLog, EndsInMulti, LastMulti, Extent;
    if cut == 0 { WholeNone(log); assert log[..0] == []; ClosedEmpty(t); }
  }

  lemma RestartNames<D(!new)>(e: Engine<D>, s: Server<D>, era: Era<D>, cut: nat)
    requires Inv(e, s, era) && CanCrash(s, cut)
    ensures var t := Restart(e, Crashed(s.disk, cut));
            NamesOk(t.manifest, t.disk.saved) && AllThere(t.disk) && t.mode == On && t.child == None && t.selectedDb == -1
            && t.manifest.base == s.manifest.base && t.manifest.baseSeq == s.manifest.baseSeq
            && t.manifest.incrs == s.manifest.incrs && t.manifest.incrSeq == s.manifest.incrSeq
            && t.disk.files.Keys == s.disk.files.Keys
            && (forall k :: k in s.disk.files && k != Incr(s.manifest.incrSeq) ==> t.disk.files[k] == s.disk.files[k])
            && t.buf == "" && t.fd == Open(Incr(s.manifest.incrSeq), true, |t.disk.files[Incr(s.manifest.incrSeq)]|)
            && t.lastIncrSize == |t.disk.files[Incr(s.manifest.incrSeq)]|
  {
    hide Holds, EncodeLog, Represents, AfterFiles, Proper, SelectedOk, LoadAll, Finished, TornTransaction, Past;
    PastSame(s.disk.saved.history, s.manifest, Restart(e, Crashed(s.disk, cut)).manifest);
  }

  lemma RestartKeeps<D(!new)>(e: Engine<D>, s: Server<D>, era: Era<D>, cut: nat) returns (next: Era<D>)
    requires Inv(e, s, era) && Enabled(e, s, Crashing(cut))
    ensures Inv(e, Restart(e, Crashed(s.disk, cut)), next)
  {
    hide Holds, EncodeLog, Represents, AfterFiles, Proper, SelectedOk, LoadAll, CutOutcome, Survivors, KeptCommands,
         Finished, TornTransaction, NamesOk, AllThere;
    var n, name := |era.files| - 1, Incr(s.manifest.incrSeq);
    var f := era.files[n];
    LastIsNewest(s.manifest, s.disk.saved);
    CrashRecovers(e, s, era, cut);
    TornVisible(f, cut, e.table);
    KeptHolds(f, cut, e.table);
    KeptContent(e, s, era, cut);
    RestartNames(e, s, era, cut);
    var g := KeptFile(f, cut, e.table);
    next := era.(files := era.files[n := g]);
    var t := Restart(e, Crashed(s.disk, cut));
    assert t.live == LoadAll(e, Crashed(s.disk, cut)).data;
    hide Restart, Crashed;
    SameElsewhere(e, s.disk.files, t.disk.files, name, s.manifest, era);
    assert next.files[..n] == era.files[..n];
    AfterFilesSnoc(e, era.origin, next.files);
    NothingTracked(g.log, e.table);
    assert t.disk.files[name] + "" == t.disk.files[name];
  }

  /** After a crash inside a command of an unfinished transaction the restarted server goes on
      writing behind an open MULTI, so no history explains its files. */
  lemma RestartBreaks<D(!new)>(e: Engine<D>, s: Server<D>, era: Era<D>, cut: nat, next: Era<D>)
    requires Inv(e, s, era) && CanCrash(s, cut) && TornTransaction(s.disk.files[LastIncr(s.disk.saved)][..cut], e.table)
    ensures !Inv(e, Restart(e, Crashed(s.disk, cut)), next)
  {
    hide Holds, EncodeLog, Represents, AfterFiles, Proper, SelectedOk, LoadAll, CutOutcome, Survivors, KeptCommands,
         Finished, TornTransaction, NamesOk, AllThere, TornInMulti;
    var f := era.files[|era.files| - 1];
    LastIsNewest(s.manifest, s.disk.saved);
    CrashRecovers(e, s, era, cut);
    TornVisible(f, cut, e.table);
    KeptContent(e, s, era, cut);
    RestartNames(e, s, era, cut);
    var t := Restart(e, Crashed(s.disk, cut));
    hide Restart, Crashed;
    if Inv(e, t, next) {
      assert t.disk.files[Incr(t.manifest.incrSeq)] + "" == t.disk.files[Incr(t.manifest.incrSeq)];
      TornKeepsOpen(f, next.files[|next.files| - 1], cut, e.table);
    }
  }

  lemma TornKeepsOpen(f: Logged, g: Logged, cut: nat, t: Table)
    requires Holds(f.log, f.ops, t) && cut <= |EncodeLog(f.log)| && TornInMulti(f.log, cut, t) && Holds(g.log, g.ops, t)
    ensures EncodeLog(f.log[..KeptCommands(f.log, cut, t)]) != EncodeLog(g.log)
  {
    hide EncodeLog, EndsInMulti, Targets, Unnested, Settled, Whole, LastMulti;
    OpenLogDiffers(f.log[..Whole(f.log, cut)], g.log, t);
  }

  /** A crash leaves a server that the invariant covers if and only if it did not fall inside a command
      of an unfinished transaction, which the bytes that survived show. */
  lemma RestartIff<D(!new)>(e: Engine<D>, s: Server<D>, era: Era<D>, cut: nat)
    requires Inv(e, s, era) && CanCrash(s, cut)
    ensures (exists next :: Inv(e, Restart(e, Crashed(s.disk, cut)), next))
            <==> !TornTransaction(s.disk.files[LastIncr(s.disk.saved)][..cut], e.table)
  {
    hide Inv, Restart, TornTransaction;
    if TornTransaction(s.disk.files[LastIncr(s.disk.saved)][..cut], e.table) {
      forall next ensures !Inv(e, Restart(e, Crashed(s.disk, cut)), next) { RestartBreaks(e, s, era, cut, next); }
    } else {
      var next := RestartKeeps(e, s, era, cut);
    }
  }

  lemma LastIsNewest(m: Manifest, saved: Saved)
    requires NamesOk(m, saved)
    ensures m.incrs == saved.incrs && forall i, j :: 0 <= i < j < |m.incrs| ==> m.incrs[i] < m.incrs[j]
  {}

  lemma PastSame(names: seq<Name>, m: Manifest, m': Manifest)
    requires Past(names, m) && m'.base == m.base && m'.incrs == m.incrs && m'.baseSeq == m.baseSeq && m'.incrSeq == m.incrSeq
    ensures Past(names, m')
  {}

  lemma TornVisible(f: Logged, cut: nat, t: Table)
    requires Holds(f.log, f.ops, t) && cut <= |EncodeLog(f.log)|
    ensures TornTransaction(EncodeLog(f.log)[..cut], t) <==> TornInMulti(f.log, cut, t)
  {
    hide EncodeLog, EndsInMulti, TornTransaction, TornInMulti, Targets, Unnested, Settled;
    TornIsVisible(f.log, cut, t);
  }

  /** The file a restart goes on with is exactly the log of the kept commands. */
  lemma KeptContent<D(!new)>(e: Engine<D>, s: Server<D>, era: Era<D>, cut: nat)
    requires Inv(e, s, era) && CanCrash(s, cut)
    ensures var f := era.files[|era.files| - 1];
            Restart(e, Crashed(s.disk, cut)).disk.files[Incr(s.manifest.incrSeq)]
            == EncodeLog(f.log[..KeptCommands(f.log, cut, e.table)])
  {
    hide Holds, EncodeLog, Represents, AfterFiles, Proper, SelectedOk, LoadAll, Survivors, KeptCommands,
         Finished, TornTransaction, Past, CutOutcome;
    var f := era.files[|era.files| - 1];
    CrashRecovers(e, s, era, cut);
    KeptIsLog(f.log, cut, e.table);
    CutSize(f.log, cut, e.table);
    var r := CutOutcome(f.log, cut, e.table);
    assert EncodeLog(f.log)[..cut][..r.size] == EncodeLog(f.log)[..r.size];
  }

  lemma CutSize(log: seq<Argv>, cut: nat, t: Table)
    requires cut <= |EncodeLog(log)|
    ensures CutOutcome(log, cut, t).size <= cut
    ensures CutOutcome(log, cut, t).status != Truncated ==> CutOutcome(log, cut, t).size == cut
  {
    hide Encode, EndsInMulti, LastMulti, Settled, Whole, EncodeLog;
    WholeExtent(log, cut);
    var k := Whole(log, cut);
    ExtentGrows(log[..k], LastMulti(log[..k], t));
  }

  lemma ExtentGrows(log: seq<Argv>, m: nat)
    requires m <= |log|
    ensures Extent(log, m) <= |EncodeLog(log)|
  {
    hide EncodeLog;
    EncodeLogConcat(log[..m], log[m..]);
    assert log == log[..m] + log[m..];
  }

  // ---------------------------------------------------------------------- every run

  predicate Ready<D>(s: Server<D>) {
    s.lastIncrSize >= 0 && (s.fd.Open? ==> s.fd.name in s.disk.files)
  }

  lemma StepKeeps<D(!new)>(e: Engine<D>, s: Server<D>, era: Era<D>, step: Step) returns (next: Era<D>)
    requires Inv(e, s, era) && Enabled(e, s, step)
    ensures Ready(s) && Inv(e, Next(e, s, step), next)
  {
    hide OnInv, WaitInv, NamesOk, AllThere, Represents, Proper, Propagate, Flush, StartRewrite, RewriteDone, Restart,
         Propagated, TornTransaction, DeleteHistory, CleanUp;
    next := era;
    InvReady(e, s, era);
    match step
    case Propagating(ops) => next := PropagateKeeps(e, s, era, ops);
    case Flushing(wrote, truncated) => FlushKeeps(e, s, era, wrote, truncated);
    case Rewriting(_, _, _, _, _) => next := StartRewriteKeeps(e, s, era, step);
    case ChildSucceeded(content, calls) => next := RewriteDoneKeeps(e, s, era, content, calls);
    case ChildFailed => CleanUpKeeps(e, s, era);
    case DeletingHistory(gc, persisted) => DeleteHistoryKeeps(e, s, era, gc, persisted);
    case Crashing(cut) => next := RestartKeeps(e, s, era, cut);
  }

  lemma InvReady<D(!new)>(e: Engine<D>, s: Server<D>, era: Era<D>)
    requires Inv(e, s, era)
    ensures Ready(s)
  {
    hide Represents, Proper, AfterFiles, Holds;
  }

  /** `s` is reached from `start` by the steps, each of them possible when it is taken. */
  ghost predicate Reaches<D(!new)>(e: Engine<D>, start: Server<D>, steps: seq<Step>, s: Server<D>)
    decreases |steps|
  {
    if steps == [] then s == start
    else Ready(start) && Enabled(e, start, steps[0]) && Reaches(e, Next(e, start, steps[0]), steps[1..], s)
  }

  /** A server that starts with AOF on and nothing on disk, or one on which AOF is being switched on
      over whatever an earlier period left behind. */
  ghost predicate Started<D(!new)>(e: Engine<D>, s: Server<D>) {
    if s.mode == On then
      s.disk.saved == Saved(Some(1), [1], []) && s.manifest == Reload(s.disk.saved)
      && Base(1) in s.disk.files && Represents(e, s.disk.files[Base(1)], e.empty)
      && Incr(1) in s.disk.files && s.disk.files[Incr(1)] == "" && s.fd == Open(Incr(1), true, 0)
      && s.lastIncrSize == 0 && s.buf == "" && s.selectedDb == -1 && s.child == None && s.live == e.empty
    else
      NamesOk(s.manifest, s.disk.saved) && AllThere(s.disk) && s.fd == Closed && s.lastIncrSize == 0
      && s.buf == "" && s.child == None
  }

  ghost predicate Initial<D(!new)>(e: Engine<D>, s: Server<D>) { Proper(e.table) && Started(e, s) }

  lemma InitialInv<D(!new)>(e: Engine<D>, s: Server<D>)
    requires Initial(e, s)
    ensures Inv(e, s, Era(e.empty, [Logged([], [])]))
  {
    hide Represents, Proper, Holds, SelectedOk, EncodeLog, AfterFiles;
    EmptyHolds(e.table);
    EmptyLog();
    NoFiles(e, e.empty);
    NothingLogged(e, e.empty, []);
    assert [] + [Logged([], [])] == [Logged([], [])];
  }

  lemma {:induction false} RunKeeps<D(!new)>(e: Engine<D>, start: Server<D>, era: Era<D>, steps: seq<Step>, s: Server<D>)
    returns (last: Era<D>)
    requires Inv(e, start, era) && Reaches(e, start, steps, s)
    ensures Inv(e, s, last)
    decreases |steps|
  {
    hide Inv, Next, Represents, TornTransaction, Propagated, AllThere;
    if steps == [] {
      last := era;
    } else {
      var next := StepKeeps(e, start, era, steps[0]);
      last := RunKeeps(e, Next(e, start, steps[0]), next, steps[1..], s);
    }
  }

  /** In every state of every run: the files named by the manifest on disk exist, and once AOF is on
      they replay, with the unflushed buffer, to the live dataset. */
  lemma EveryRunRecovers<D(!new)>(e: Engine<D>, start: Server<D>, steps: seq<Step>, s: Server<D>)
    requires Initial(e, start) && Reaches(e, start, steps, s)
    ensures Ready(s) && AllThere(s.disk) && (s.mode == On ==> s.fd.Open?)
    ensures s.mode == On ==>
              (var r := LoadAll(e, WithBuffer(s)); (r.status == Ok || r.status == Empty) && r.data == s.live)
  {
    hide Initial, Reaches, LoadAll, OnInv, WaitInv;
    InitialInv(e, start);
    var era := RunKeeps(e, start, Era(e.empty, [Logged([], [])]), steps, s);
    InvReady(e, s, era);
    if s.mode == On { RecoversLive(e, s, era); }
  }

  /** In every state of every run with AOF on, a crash that keeps any first part of the file being
      written costs at most a tail of the commands logged there: `f.ops` are those commands, `before`
      the dataset they were applied to. */
  lemma EveryRunSurvives<D(!new)>(e: Engine<D>, start: Server<D>, steps: seq<Step>, s: Server<D>, cut: nat)
    returns (before: D, f: Logged)
    requires Initial(e, start) && Reaches(e, start, steps, s) && s.mode == On
    requires s.fd.Open? && s.fd.name in s.disk.files && cut <= |s.disk.files[s.fd.name]|
    ensures Pipeline(s) == EncodeLog(f.log) && Holds(f.log, f.ops, e.table)
    ensures s.live == ApplyAll(e, before, Executed(f.ops))
    ensures s.disk.saved.incrs != [] && LastIncr(s.disk.saved) == s.fd.name
    ensures var r := LoadAll(e, Crashed(s.disk, cut));
            var j := Survivors(f, Whole(f.log, cut), e.table);
            r.status in {Ok, Truncated, Empty} && j <= |f.ops| && r.data == ApplyAll(e, before, Executed(f.ops[..j]))
  {
    hide Initial, Reaches, LoadAll, Finished, Represents, Holds, NamesOk, AfterFiles, EncodeLog, ApplyAll, Survivors;
    InitialInv(e, start);
    var era := RunKeeps(e, start, Era(e.empty, [Logged([], [])]), steps, s);
    var n := |era.files| - 1;
    f := era.files[n];
    before := AfterFiles(e, era.origin, era.files[..n]);
    AfterFilesSnoc(e, era.origin, era.files);
    CrashRecovers(e, s, era, cut);
  }
}
