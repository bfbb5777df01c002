/**
 The state of append-only persistence -- manifest, files, buffer, rewrite child --
 and the effect of every operation on it.  Results of system calls are parameters.
 */
module AofState {
  import opened Common
  import opened Decimal
  import opened Resp
  import opened Loader
  import opened AofFeed

  /** File names follow from type and sequence number. */
  datatype Name = Base(n: nat) | Incr(n: nat) | TempIncr

  datatype Manifest = Manifest(
    base: Option<nat>, incrs: seq<nat>, history: seq<Name>, baseSeq: nat, incrSeq: nat, dirty: bool)

  /** What the manifest file on disk says. */
  datatype Saved = Saved(base: Option<nat>, incrs: seq<nat>, history: seq<Name>)

  datatype Disk = Disk(files: map<Name, Bytes>, saved: Saved)

  /** `aof_fd`; a descriptor whose file lost its name is an orphan. */
  datatype Fd = Closed | Open(name: Name, append: bool, offset: nat) | Orphan

  datatype Mode = On | WaitRewrite

  /** The commands of the server: how they change a dataset and what the table says of them. */
  datatype Engine<!D> = Engine(empty: D, apply: (D, int, Argv) -> D, table: Table)

  datatype Server<D> = Server(
    mode: Mode, manifest: Manifest, disk: Disk, fd: Fd, lastIncrSize: int, buf: Bytes,
    selectedDb: int, child: Option<D>, live: D)

  // ---------------------------------------------------------------- the manifest

  /** `getNewBaseFileNameAndMarkPreAsHistory` */
  function NewBase(m: Manifest): Manifest {
    var n := m.baseSeq + 1;
    m.(base := Some(n), baseSeq := n, dirty := true,
       history := (if m.base.Some? then [Base(m.base.value)] else []) + m.history)
  }

  /** `getNewIncrAofName` */
  function NewIncr(m: Manifest): Manifest {
    var n := m.incrSeq + 1;
    m.(incrs := m.incrs + [n], incrSeq := n, dirty := true)
  }

  function IncrNames(ns: seq<nat>): (names: seq<Name>)
    ensures |names| == |ns|
  {
    seq(|ns|, i requires 0 <= i < |ns| => Incr(ns[i]))
  }

  /** `markRewrittenIncrAofAsHistory`: all but the file being written become history. */
  function MarkRewritten(m: Manifest, writing: bool): Manifest {
    if m.incrs == [] then m
    else
      var keep := if writing then |m.incrs| - 1 else |m.incrs|;
      m.(incrs := m.incrs[keep..], history := IncrNames(m.incrs[..keep]) + m.history, dirty := true)
  }

  function Save(m: Manifest): Saved { Saved(m.base, m.incrs, m.history) }

  /** The manifest read back at start: sequence numbers are those of the last files listed. */
  function Reload(saved: Saved): Manifest {
    Manifest(saved.base, saved.incrs, saved.history,
             if saved.base.Some? then saved.base.value else 0,
             if saved.incrs == [] then 0 else saved.incrs[|saved.incrs| - 1], false)
  }

  // ------------------------------------------------------------------- the files

  function Zeros(n: nat): (z: Bytes)
    ensures |z| == n
  {
    seq(n, _ => '\0')
  }

  /** `ftruncate(2)`, which may also extend. */
  function Resize(content: Bytes, size: nat): (r: Bytes)
    ensures |r| == size
  {
    if size <= |content| then content[..size] else content + Zeros(size - |content|)
  }

  /** The bytes from position `at` on. */
  function Behind(content: Bytes, at: nat): Bytes {
    if at <= |content| then content[at..] else ""
  }

  /** `write(2)` at an offset: overwrites, and fills a gap before the offset with zeros. */
  function WriteAt(content: Bytes, offset: nat, bytes: Bytes): Bytes {
    if bytes == "" then content else Resize(content, offset) + bytes + Behind(content, offset + |bytes|)
  }

  function Rename(files: map<Name, Bytes>, from: Name, to: Name): map<Name, Bytes> {
    if from in files then (files - {from})[to := files[from]] else files
  }

  /** The descriptor follows its file through a rename and loses it when the name is taken over. */
  function RenameFd(fd: Fd, from: Name, to: Name): Fd {
    if fd.Open? && fd.name == from then fd.(name := to)
    else if fd.Open? && fd.name == to then Orphan else fd
  }

  function UnlinkFd(fd: Fd, name: Name): Fd {
    if fd.Open? && fd.name == name then Orphan else fd
  }

  // ------------------------------------------------------------ writing the buffer

  /** The file and the descriptor after `aofWrite` put `bytes` out. */
  function Written<D>(s: Server<D>, bytes: Bytes): Server<D>
    requires s.fd.Open? ==> s.fd.name in s.disk.files
  {
    if s.fd.Open? then
      var content := s.disk.files[s.fd.name];
      var at := if s.fd.append then |content| else s.fd.offset;
      s.(disk := s.disk.(files := s.disk.files[s.fd.name := WriteAt(content, at, bytes)]),
         fd := s.fd.(offset := if bytes == "" then s.fd.offset else at + |bytes|))
    else s
  }

  /** `flushAppendOnlyFile`, when `aofWrite` got `wrote` bytes out and `ftruncate` worked or not. */
  function Flush<D>(s: Server<D>, wrote: nat, truncated: bool): Server<D>
    requires wrote <= |s.buf| && s.lastIncrSize >= 0
    requires s.fd.Open? ==> s.fd.name in s.disk.files
  {
    if s.buf == "" then s
    else
      var t := Written(s, s.buf[..wrote]);
      if wrote == |s.buf| then t.(buf := "", lastIncrSize := s.lastIncrSize + wrote)
      else if wrote == 0 then t
      else if truncated then
        if t.fd.Open? then
          t.(disk := t.disk.(files := t.disk.files[t.fd.name := Resize(t.disk.files[t.fd.name], s.lastIncrSize)]))
        else t
      else t.(buf := s.buf[wrote..], lastIncrSize := s.lastIncrSize + wrote)
  }

  /** Executing the commands of a unit and propagating them. */
  function ApplyAll<D>(e: Engine<D>, d: D, cmds: seq<(int, Argv)>): D
    decreases |cmds|
  {
    if cmds == [] then d else ApplyAll(e, e.apply(d, cmds[0].0, cmds[0].1), cmds[1..])
  }

  function Propagate<D>(e: Engine<D>, s: Server<D>, ops: seq<Op>): Server<D>
    requires ops != []
  {
    var feeding := s.mode == On || s.child.Some?;
    s.(live := ApplyAll(e, s.live, Executed(ops)), selectedDb := ops[|ops| - 1].db,
       buf := if feeding then s.buf + EncodeLog(UnitLog(s.selectedDb, ops)) else s.buf)
  }

  // --------------------------------------------------------------------- rewriting

  /** `openNewIncrAofForAppend`; the flag says whether it succeeded. */
  function OpenNewIncr<D>(s: Server<D>, created: bool, persisted: bool): (Server<D>, bool) {
    var m := NewIncr(s.manifest);
    var name := if s.mode == WaitRewrite then TempIncr else Incr(m.incrSeq);
    if !created then (s, false)
    else
      var t := s.(disk := s.disk.(files := s.disk.files[name := ""]), fd := UnlinkFd(s.fd, name));
      if s.mode == WaitRewrite then (t.(fd := Open(name, false, 0), lastIncrSize := 0), true)
      else if !persisted then (t, false)
      else
        (t.(disk := t.disk.(saved := Save(m)), manifest := m.(dirty := false),
            fd := Open(name, false, 0), lastIncrSize := 0), true)
  }

  /** `rewriteAppendOnlyFileBackground` */
  function StartRewrite<D>(s: Server<D>, wrote: nat, truncated: bool, created: bool, persisted: bool, forked: bool): Server<D>
    requires wrote <= |s.buf| && s.lastIncrSize >= 0
    requires s.fd.Open? ==> s.fd.name in s.disk.files
  {
    if s.child.Some? then s
    else
      var t := Flush(s.(selectedDb := -1), wrote, truncated);
      var (u, ok) := OpenNewIncr(t, created, persisted);
      if ok && forked then u.(child := Some(u.live)) else u
  }

  function UnlinkAll(files: map<Name, Bytes>, names: seq<Name>): map<Name, Bytes> {
    files - (set n | n in names)
  }

  /** `aofDelHistoryFiles`: the files go, then the manifest is written again, if it can be. */
  function DeleteHistory<D>(s: Server<D>, gc: bool, persisted: bool): Server<D> {
    if !gc || s.manifest.history == [] then s
    else
      var m := s.manifest.(history := [], dirty := !persisted);
      var files := UnlinkAll(s.disk.files, s.manifest.history);
      s.(manifest := m,
         fd := if s.fd.Open? && s.fd.name in s.manifest.history then Orphan else s.fd,
         disk := Disk(files, if persisted then Save(m) else s.disk.saved))
  }

  /** The label `cleanup` of `backgroundRewriteDoneHandler`, and the reset of the child state after it. */
  function CleanUp<D>(s: Server<D>): Server<D> {
    var t := s.(child := None);
    if s.mode == WaitRewrite
    then t.(buf := "", disk := t.disk.(files := t.disk.files - {TempIncr}), fd := UnlinkFd(t.fd, TempIncr))
    else t
  }

  /** The outcomes of the system calls of `backgroundRewriteDoneHandler`. */
  datatype Calls = Calls(renamedBase: bool, renamedIncr: bool, persisted: bool, gc: bool, persistedAgain: bool)

  /** The new BASE file under its final name. */
  function BaseInPlace<D>(s: Server<D>, content: Bytes): Server<D> {
    s.(disk := s.disk.(files := s.disk.files[Base(s.manifest.baseSeq + 1) := content]))
  }

  /** While waiting, the temporary INCR file under its final name too. */
  function IncrInPlace<D>(s: Server<D>): Server<D> {
    var name := Incr(s.manifest.incrSeq + 1);
    s.(disk := s.disk.(files := Rename(s.disk.files, TempIncr, name)), fd := RenameFd(s.fd, TempIncr, name))
  }

  function NewManifest<D>(s: Server<D>): Manifest {
    var m := NewBase(s.manifest);
    MarkRewritten(if s.mode == WaitRewrite then NewIncr(m) else m, s.fd != Closed)
  }

  /** `backgroundRewriteDoneHandler` after a child that wrote `content`. */
  function RewriteDone<D>(s: Server<D>, content: Bytes, calls: Calls): Server<D> {
    var base, incr := Base(s.manifest.baseSeq + 1), Incr(s.manifest.incrSeq + 1);
    if !calls.renamedBase then CleanUp(s)
    else
      var t := BaseInPlace(s, content);
      if s.mode == WaitRewrite && !calls.renamedIncr then
        CleanUp(t.(disk := t.disk.(files := t.disk.files - {base})))
      else
        var u := if s.mode == WaitRewrite then IncrInPlace(t) else t;
        var m := NewManifest(s);
        if !calls.persisted then
          if s.mode == WaitRewrite then
            CleanUp(u.(disk := u.disk.(files := u.disk.files - {base, incr}), fd := UnlinkFd(u.fd, incr)))
          else
            CleanUp(u.(disk := u.disk.(files := u.disk.files - {base})))
        else
          var v := u.(disk := u.disk.(saved := Save(m)), manifest := m.(dirty := false),
                      selectedDb := if u.fd != Closed then -1 else u.selectedDb, mode := On);
          CleanUp(DeleteHistory(v, calls.gc, calls.persistedAgain))
  }

  // -------------------------------------------------------------------- loading all

  datatype Recovered<D> = Recovered(status: Status, data: D, lastSize: nat)

  function Tolerant(t: Table): Config { Config(t, true, true) }

  /** One file replayed by a fresh client, which starts on database 0. */
  function LoadFile<D>(e: Engine<D>, d: D, content: Bytes): (Status, D, nat) {
    var r := Load(content, Tolerant(e.table));
    (r.status, ApplyAll(e, d, Targets(r.executed, 0, e.table)), r.size)
  }

  /** The INCR files in order; only the last may end short. */
  function LoadIncrs<D>(e: Engine<D>, d: D, files: map<Name, Bytes>, incrs: seq<nat>): Recovered<D>
    requires incrs != [] && forall i :: 0 <= i < |incrs| ==> Incr(incrs[i]) in files
    decreases |incrs|
  {
    var (status, data, size) := LoadFile(e, d, files[Incr(incrs[0])]);
    if status == Failed || status == RdbFormat then Recovered(Failed, data, size)
    else if |incrs| == 1 then Recovered(if status == Empty then Ok else status, data, size)
    else if status == Truncated then Recovered(Failed, data, size)
    else LoadIncrs(e, data, files, incrs[1..])
  }

  predicate AllThere(disk: Disk) {
    (disk.saved.base.Some? ==> Base(disk.saved.base.value) in disk.files)
    && forall i :: 0 <= i < |disk.saved.incrs| ==> Incr(disk.saved.incrs[i]) in disk.files
  }

  predicate AllEmpty(disk: Disk)
    requires AllThere(disk)
  {
    (disk.saved.base.Some? ==> disk.files[Base(disk.saved.base.value)] == "")
    && forall i :: 0 <= i < |disk.saved.incrs| ==> disk.files[Incr(disk.saved.incrs[i])] == ""
  }

  /** `loadAppendOnlyFiles` on what the manifest file names. */
  function LoadAll<D>(e: Engine<D>, disk: Disk): Recovered<D> {
    var m := disk.saved;
    if !AllThere(disk) then Recovered(Failed, e.empty, 0)
    else if AllEmpty(disk) then Recovered(Empty, e.empty, 0)
    else
      var (status, data, size) :=
        if m.base.Some? then LoadFile(e, e.empty, disk.files[Base(m.base.value)]) else (Ok, e.empty, 0);
      if status == Failed || status == RdbFormat || (status == Truncated && m.incrs != []) then
        Recovered(Failed, data, size)
      else if m.incrs == [] then Recovered(status, data, size)
      else LoadIncrs(e, data, disk.files, m.incrs)
  }

  /** Starting again from the disk: load, then open the last INCR file in append mode. */
  function Restart<D>(e: Engine<D>, disk: Disk): (s: Server<D>)
    requires disk.saved.incrs != [] && AllThere(disk)
  {
    var r := LoadAll(e, disk);
    var last := Incr(disk.saved.incrs[|disk.saved.incrs| - 1]);
    var content := disk.files[last];
    var kept := if r.status == Truncated && r.lastSize <= |content| then content[..r.lastSize] else content;
    Server(On, Reload(disk.saved), disk.(files := disk.files[last := kept]), Open(last, true, |kept|), |kept|, "",
           -1, None, r.data)
  }
}
