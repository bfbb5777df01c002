/**
 A crash while AOF is being switched on: until the new manifest is on disk, a load gives what
 the files gave before the switch began.
 */
module AofSwitching {
  import opened Common
  import opened Decimal
  import opened Resp
  import opened Loader
  import opened AofFeed
  import opened AofState
  import opened AofProtocol

  /** The manifest names this file. */
  predicate Named(saved: Saved, name: Name) {
    match name
    case Base(n) => saved.base == Some(n)
    case Incr(n) => n in saved.incrs
    case TempIncr => false
  }

  /** The same manifest, and the same bytes in every file it names. */
  predicate SameNamed(d: Disk, d': Disk) {
    d'.saved == d.saved && forall k :: k in d.files && Named(d.saved, k) ==> k in d'.files && d'.files[k] == d.files[k]
  }

  lemma {:induction false} SameIncrs<D>(e: Engine<D>, d: D, files: map<Name, Bytes>, files': map<Name, Bytes>, incrs: seq<nat>)
    requires incrs != [] && forall i :: 0 <= i < |incrs| ==> Incr(incrs[i]) in files && Incr(incrs[i]) in files'
    requires forall i :: 0 <= i < |incrs| ==> files[Incr(incrs[i])] == files'[Incr(incrs[i])]
    ensures LoadIncrs(e, d, files, incrs) == LoadIncrs(e, d, files', incrs)
    decreases |incrs|
  {
    hide LoadFile;
    if |incrs| > 1 { SameIncrs(e, LoadFile(e, d, files[Incr(incrs[0])]).1, files, files', incrs[1..]); }
  }

  /** A load looks at nothing but the files the manifest names. */
  lemma SameLoad<D>(e: Engine<D>, d: Disk, d': Disk)
    requires AllThere(d) && SameNamed(d, d')
    ensures AllThere(d') && LoadAll(e, d') == LoadAll(e, d)
  {
    hide LoadFile;
    var m := d.saved;
    if m.base.Some? { assert Named(m, Base(m.base.value)); }
    forall i | 0 <= i < |m.incrs| ensures Incr(m.incrs[i]) in d'.files && d'.files[Incr(m.incrs[i])] == d.files[Incr(m.incrs[i])] {
      assert Named(m, Incr(m.incrs[i]));
    }
    if m.incrs != [] {
      var data := if m.base.Some? then LoadFile(e, e.empty, d.files[Base(m.base.value)]).1 else e.empty;
      SameIncrs(e, data, d.files, d'.files, m.incrs);
    }
  }

  /** Names in use are not new. */
  lemma NamedIsOld(m: Manifest, saved: Saved)
    requires NamesOk(m, saved)
    ensures forall k :: Named(saved, k) ==>
              k != TempIncr && (k.Base? ==> k.n <= m.baseSeq) && (k.Incr? ==> k.n <= m.incrSeq)
  {
    forall k | Named(saved, k) ensures k.Incr? ==> k.n <= m.incrSeq {
      if k.Incr? {
        var i :| 0 <= i < |saved.incrs| && saved.incrs[i] == k.n;
        assert m.incrs[i] == k.n;
      }
    }
  }

  /** Until the new manifest is on disk the handler touches new names and the temporary file only. */
  lemma DoneSpares<D>(s: Server<D>, content: Bytes, calls: Calls)
    requires s.mode == WaitRewrite && NamesOk(s.manifest, s.disk.saved)
    ensures var t := RewriteDone(s, content, calls); t.mode == WaitRewrite ==> SameNamed(s.disk, t.disk)
  {
    hide NamesOk, NewManifest, Named;
    NamedIsOld(s.manifest, s.disk.saved);
    if calls.renamedBase && calls.renamedIncr && calls.persisted {
      hide SameNamed;
      CommitIsOn(s, content, calls);
    }
  }

  lemma CommitIsOn<D>(s: Server<D>, content: Bytes, calls: Calls)
    requires calls.renamedBase && calls.renamedIncr && calls.persisted
    ensures RewriteDone(s, content, calls).mode == On
  {
    hide NewManifest, IncrInPlace, BaseInPlace, UnlinkAll, Save;
  }

  /** No step made while AOF is being switched on touches a file that the manifest on disk names. */
  lemma StepSpares<D(!new)>(e: Engine<D>, s: Server<D>, era: Era<D>, step: Step)
    requires Inv(e, s, era) && s.mode == WaitRewrite && Enabled(e, s, step)
    ensures Ready(s) && (Next(e, s, step).mode == WaitRewrite ==> SameNamed(s.disk, Next(e, s, step).disk))
  {
    hide Represents, Propagated, TornTransaction, Proper, Holds, SelectedOk, EncodeLog, AfterFiles, UnitLog, ApplyAll, Executed,
         NamesOk, Named, RewriteDone, Flush;
    InvReady(e, s, era);
    NamedIsOld(s.manifest, s.disk.saved);
    match step
    case Flushing(wrote, truncated) => FlushFrame(s, wrote, truncated);
    case Rewriting(wrote, truncated, _, _, _) => FlushFrame(s.(selectedDb := -1), wrote, truncated);
    case ChildSucceeded(content, calls) => DoneSpares(s, content, calls);
    case _ =>
  }

  lemma StepStaysOn<D(!new)>(e: Engine<D>, s: Server<D>, step: Step)
    requires Ready(s) && Enabled(e, s, step) && s.mode == On
    ensures Next(e, s, step).mode == On
  {
    hide Represents, Propagated, TornTransaction, ApplyAll, NewManifest, Flush, BaseInPlace, UnlinkAll, Save, LoadAll;
    if step.Flushing? { FlushFrame(s, step.wrote, step.truncated); }
    if step.Rewriting? { FlushFrame(s.(selectedDb := -1), step.wrote, step.truncated); }
    if step.ChildSucceeded? { DoneStaysOn(s, step.content, step.calls); }
  }

  lemma DoneStaysOn<D>(s: Server<D>, content: Bytes, calls: Calls)
    requires s.mode == On
    ensures RewriteDone(s, content, calls).mode == On
  {
    hide NewManifest, UnlinkAll, Save;
  }

  /** Once on, AOF stays on. */
  lemma {:induction false} StaysOn<D(!new)>(e: Engine<D>, start: Server<D>, steps: seq<Step>, s: Server<D>)
    requires Reaches(e, start, steps, s) && start.mode == On
    ensures s.mode == On
    decreases |steps|
  {
    hide Next, Represents, Propagated, TornTransaction;
    if steps != [] {
      StepStaysOn(e, start, steps[0]);
      StaysOn(e, Next(e, start, steps[0]), steps[1..], s);
    }
  }

  lemma {:induction false} RunSpares<D(!new)>(e: Engine<D>, start: Server<D>, era: Era<D>, steps: seq<Step>, s: Server<D>)
    requires Inv(e, start, era) && Reaches(e, start, steps, s) && s.mode == WaitRewrite
    ensures SameNamed(start.disk, s.disk)
    decreases |steps|
  {
    hide Inv, Next, Represents, Propagated, TornTransaction;
    if steps != [] {
      if start.mode == On { StaysOn(e, start, steps, s); assert false; }
      var next := StepKeeps(e, start, era, steps[0]);
      StepSpares(e, start, era, steps[0]);
      var t := Next(e, start, steps[0]);
      if t.mode == On { StaysOn(e, t, steps[1..], s); assert false; }
      RunSpares(e, t, next, steps[1..], s);
    }
  }

  /** In every run, as long as AOF is being switched on: whatever a crash leaves of the temporary INCR
      file, loading what the manifest on disk names gives what it gave at the start. */
  lemma CrashWhileSwitching<D(!new)>(e: Engine<D>, start: Server<D>, steps: seq<Step>, s: Server<D>, files: map<Name, Bytes>)
    requires Initial(e, start) && Reaches(e, start, steps, s) && s.mode == WaitRewrite
    requires forall k :: k in s.disk.files && k != TempIncr ==> k in files && files[k] == s.disk.files[k]
    ensures LoadAll(e, Disk(files, s.disk.saved)) == LoadAll(e, start.disk)
  {
    hide Reaches, LoadAll;
    InitialInv(e, start);
    RunSpares(e, start, Era(e.empty, [Logged([], [])]), steps, s);
    if start.mode == On { StaysOn(e, start, steps, s); assert false; }
    SameLoad(e, start.disk, Disk(files, s.disk.saved));
  }

  /** The same between the renames at the end of the switch, with the new BASE file, and then also the INCR
      file, under their final names. */
  lemma CrashBetweenRenames<D(!new)>(e: Engine<D>, s: Server<D>, era: Era<D>, content: Bytes)
    requires Inv(e, s, era) && s.mode == WaitRewrite && s.child.Some?
    ensures LoadAll(e, BaseInPlace(s, content).disk) == LoadAll(e, s.disk)
    ensures LoadAll(e, IncrInPlace(BaseInPlace(s, content)).disk) == LoadAll(e, s.disk)
  {
    hide LoadAll, Represents, Proper, Holds, SelectedOk, EncodeLog, AfterFiles;
    SameLoad(e, s.disk, BaseInPlace(s, content).disk);
    SameLoad(e, s.disk, IncrInPlace(BaseInPlace(s, content)).disk);
  }
}
