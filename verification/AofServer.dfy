/**
 The server's append-only state as the source keeps it: one object whose fields every
 operation updates in place.  Each method is tied to the operation of AofState.
 */
module AofServer {
  import opened Common
  import opened Decimal
  import opened Resp
  import opened AofFeed
  import opened AofState

  /** The outcome of one `write` call. */
  datatype WriteResult = Wrote(n: nat) | Interrupted | Erroneous

  /** How much of `len` bytes gets out: short writes and interruptions are retried, an error ends it. */
  function Total(len: nat, results: seq<WriteResult>): (n: nat)
    ensures n <= len
  {
    if len == 0 || results == [] || results[0] == Erroneous then 0
    else if results[0] == Interrupted then Total(len, results[1..])
    else
      var n := if results[0].n <= len then results[0].n else len;
      n + Total(len - n, results[1..])
  }

  lemma TotalOf(len: nat, results: seq<WriteResult>)
    ensures len == 0 || results == [] || results[0] == Erroneous ==> Total(len, results) == 0
    ensures len > 0 && results != [] && results[0] == Interrupted ==> Total(len, results) == Total(len, results[1..])
    ensures len > 0 && results != [] && results[0].Wrote? ==>
              var n := if results[0].n <= len then results[0].n else len; Total(len, results) == n + Total(len - n, results[1..])
  {}

  lemma WriteAtTwice(content: Bytes, at: nat, a: Bytes, b: Bytes)
    ensures WriteAt(WriteAt(content, at, a), at + |a|, b) == WriteAt(content, at, a + b)
  {
    hide Resize, Behind;
    if a == "" {
      assert a + b == b;
    } else if b == "" {
      assert a + b == a;
    } else {
      var front, back := Resize(content, at), Behind(content, at + |a|);
      WrittenSplit(front, a, back, |b|);
      BehindTwice(content, at + |a|, |b|);
      assert front + a + b + Behind(back, |b|) == front + (a + b) + Behind(back, |b|);
    }
  }

  lemma BehindTwice(content: Bytes, at: nat, n: nat)
    ensures Behind(Behind(content, at), n) == Behind(content, at + n)
  {}

  lemma WrittenSplit(front: Bytes, a: Bytes, back: Bytes, n: nat)
    ensures Resize(front + a + back, |front| + |a|) == front + a
    ensures Behind(front + a + back, |front| + |a| + n) == Behind(back, n)
  {}

  lemma WrittenTwice<D>(s: Server<D>, a: Bytes, b: Bytes)
    requires s.fd.Open? ==> s.fd.name in s.disk.files
    ensures Written(Written(s, a), b) == Written(s, a + b)
  {
    if a == "" {
      assert a + b == b;
      if s.fd.Open? { assert s.disk.files[s.fd.name := s.disk.files[s.fd.name]] == s.disk.files; }
    } else if s.fd.Open? {
      var content := s.disk.files[s.fd.name];
      var at := if s.fd.append then |content| else s.fd.offset;
      WriteAtTwice(content, at, a, b);
      assert s.fd.append ==> content + Zeros(0) + a == content + a;
      if b == "" { assert a + b == a; }
    }
  }

  lemma WrittenNothing<D>(s: Server<D>)
    requires s.fd.Open? ==> s.fd.name in s.disk.files
    ensures Written(s, "") == s
  {
    if s.fd.Open? { assert s.disk.files[s.fd.name := s.disk.files[s.fd.name]] == s.disk.files; }
  }

  lemma NoNames(incrs: seq<nat>, keep: nat, history: seq<Name>)
    requires keep <= |incrs|
    ensures IncrNames(incrs[keep..keep]) + history == history
  {
  }

  lemma OneMoreName(incrs: seq<nat>, i: nat, keep: nat, history: seq<Name>)
    requires 0 < i <= keep <= |incrs|
    ensures [Incr(incrs[i - 1])] + (IncrNames(incrs[i..keep]) + history) == IncrNames(incrs[i - 1..keep]) + history
  {
    assert IncrNames(incrs[i - 1..keep]) == [Incr(incrs[i - 1])] + IncrNames(incrs[i..keep]);
  }

  class Aof<D> {
    const engine: Engine<D>
    var mode: Mode
    var manifest: Manifest
    var files: map<Name, Bytes>
    var saved: Saved
    var fd: Fd
    var lastIncrSize: int
    var buf: Bytes
    var selectedDb: int
    var child: Option<D>
    var live: D

    /** A first start with AOF on (`aofOpenIfNeededOnServerStart`): a BASE file of the empty dataset
        and an INCR file opened in append mode, both in the manifest. */
    constructor (engine: Engine<D>, base: Bytes)
      ensures this.engine == engine && Valid()
      ensures View() == Server(On, Reload(Saved(Some(1), [1], [])), Disk(map[Base(1) := base, Incr(1) := ""], Saved(Some(1), [1], [])),
                               Open(Incr(1), true, 0), 0, "", -1, None, engine.empty)
    {
      this.engine := engine;
      mode := On;
      var m := NewIncr(NewBase(Manifest(None, [], [], 0, 0, false)));
      files := map[Base(1) := base, Incr(1) := ""];
      saved := Save(m);
      manifest := m.(dirty := false);
      fd := Open(Incr(1), true, 0);
      lastIncrSize := 0;
      buf := "";
      selectedDb := -1;
      child := None;
      live := engine.empty;
    }

    ghost function View(): Server<D>
      reads this
    {
      Server(mode, manifest, Disk(files, saved), fd, lastIncrSize, buf, selectedDb, child, live)
    }

    ghost predicate Valid()
      reads this
    {
      lastIncrSize >= 0 && (fd.Open? ==> !fd.name.Base? && fd.name in files)
    }

    /** One `write(2)` of `bytes` through the descriptor. */
    method Write(bytes: Bytes)
      requires Valid()
      modifies this`files, this`fd
      ensures Valid() && View() == Written(old(View()), bytes)
    {
      if fd.Open? {
        var content := files[fd.name];
        var at := if fd.append then |content| else fd.offset;
        files := files[fd.name := WriteAt(content, at, bytes)];
        if bytes != "" { fd := fd.(offset := at + |bytes|); }
      }
    }

    /** `aofWrite` on the whole buffer: -1 when not a byte got out, the number of bytes otherwise. */
    method AofWrite(results: seq<WriteResult>) returns (nwritten: int)
      requires Valid()
      modifies this`files, this`fd
      ensures Valid()
      ensures View() == Written(old(View()), buf[..Total(|buf|, results)])
      ensures nwritten == if Total(|buf|, results) == 0 && buf != "" then -1 else Total(|buf|, results)
    {
      hide Written, Total;
      TotalOf(|buf|, results);
      var len, i, tot := |buf|, 0, 0;
      WrittenNothing(View());
      while len > 0
        invariant 0 <= i <= |results| && 0 <= tot && 0 <= len && tot + len == |buf|
        invariant Valid() && View() == Written(old(View()), buf[..tot])
        invariant Total(|buf|, results) == tot + Total(len, results[i..])
        decreases |results| - i
      {
        if i == |results| || results[i] == Erroneous {
          TotalOf(len, results[i..]);
          return if tot > 0 then tot else -1;
        }
        assert results[i..][0] == results[i] && results[i..][1..] == results[i + 1..];
        TotalOf(len, results[i..]);
        if results[i].Wrote? {
          var n := if results[i].n <= len then results[i].n else len;
          var chunk := buf[tot..tot + n];
          WrittenTwice(old(View()), buf[..tot], chunk);
          assert buf[..tot] + chunk == buf[..tot + n];
          Write(chunk);
          len, tot := len - n, tot + n;
        }
        i := i + 1;
      }
      TotalOf(len, results[i..]);
      nwritten := tot;
    }

    /** `flushAppendOnlyFile`; with the fsync policy "always" a write error ends the process. */
    method FlushAppendOnlyFile(results: seq<WriteResult>, truncated: bool, always: bool) returns (exited: bool)
      requires Valid()
      modifies this
      ensures exited <==> always && Total(|old(buf)|, results) < |old(buf)|
      ensures !exited ==> Valid() && View() == Flush(old(View()), Total(|old(buf)|, results), truncated)
    {
      exited := false;
      if |buf| == 0 { return; }
      var nwritten := AofWrite(results);
      if nwritten != |buf| {
        if nwritten != -1 && truncated {
          if fd.Open? { files := files[fd.name := Resize(files[fd.name], lastIncrSize)]; }
          nwritten := -1;
        }
        if always { return true; }
        if nwritten > 0 {
          lastIncrSize := lastIncrSize + nwritten;
          buf := buf[nwritten..];
        }
        return;
      }
      lastIncrSize := lastIncrSize + nwritten;
      buf := "";
    }

    /** `feedAppendOnlyFile` */
    method FeedAppendOnlyFile(db: nat, argv: Argv)
      modifies this`selectedDb, this`buf
      ensures selectedDb == db
      ensures buf == if mode == On || child.Some? then old(buf) + EncodeLog(Feed(old(selectedDb), Op(db, argv)))
                     else old(buf)
    {
      hide Print, Encode, EncodeLog, Feed, SelectOf;
      var out := "";
      if db != selectedDb {
        var seldb := Print(db);
        out := out + ("*2\r\n$6\r\nSELECT\r\n$" + Print(|seldb|) + "\r\n" + seldb + "\r\n");
        selectedDb := db;
        SelectText(db);
      }
      ghost var pre := out;
      out := CatAppendOnlyGenericCommand(out, argv);
      FeedText(old(selectedDb), Op(db, argv));
      if mode == On || (mode == WaitRewrite && child.Some?) { buf := buf + out; }
    }

    /** `propagatePendingCommands` after the commands `ops` were executed. */
    method PropagatePendingCommands(ops: seq<Op>)
      requires Valid() && ops != []
      modifies this`live, this`selectedDb, this`buf
      ensures Valid() && View() == Propagate(engine, old(View()), ops)
    {
      hide ApplyAll, EncodeLog, Feed, FeedAll, UnitLog, Executed;
      live := ApplyAll(engine, live, Executed(ops));
      ghost var feeding := mode == On || child.Some?;
      var multi := |ops| > 1;
      if multi { FeedAppendOnlyFile(ops[0].db, MULTI); }
      ghost var start, sel := buf, selectedDb;
      var j := 0;
      while j < |ops|
        invariant 0 <= j <= |ops|
        invariant live == ApplyAll(engine, old(live), Executed(ops))
        invariant selectedDb == if j == 0 then sel else ops[j - 1].db
        invariant if feeding then buf + EncodeLog(FeedAll(selectedDb, ops[j..])) == start + EncodeLog(FeedAll(sel, ops))
                  else buf == start
      {
        FeedAllStep(selectedDb, ops[j..]);
        assert ops[j..][0] == ops[j] && ops[j..][1..] == ops[j + 1..];
        Associate(buf, EncodeLog(Feed(selectedDb, ops[j])), EncodeLog(FeedAll(ops[j].db, ops[j + 1..])));
        FeedAppendOnlyFile(ops[j].db, ops[j].argv);
        j := j + 1;
      }
      assert ops[j..] == [] && ops[0..] == ops;
      FedNothing(selectedDb);
      assert feeding ==> buf == start + EncodeLog(FeedAll(sel, ops));
      if multi { FeedAppendOnlyFile(ops[|ops| - 1].db, EXEC); }
      UnitText(old(selectedDb), ops);
      if multi {
        ghost var first, last := ops[0].db, ops[|ops| - 1].db;
        Regroup(old(buf), EncodeLog(Feed(old(selectedDb), Op(first, MULTI))), EncodeLog(FeedAll(first, ops)),
                EncodeLog(Feed(last, Op(last, EXEC))));
      }
      assert feeding ==> buf == old(buf) + EncodeLog(UnitLog(old(selectedDb), ops));
    }

    /** `openNewIncrAofForAppend`: everything is prepared on a copy of the manifest, which replaces
        the one in memory only when it is safely on disk. */
    method OpenNewIncrAofForAppend(created: bool, persisted: bool) returns (ok: bool)
      requires Valid()
      modifies this
      ensures Valid() && (View(), ok) == OpenNewIncr(old(View()), created, persisted)
      ensures manifest != old(manifest) ==> ok && saved == Save(manifest)
      ensures ok ==> fd.Open? && fd.offset == 0 && fd.name in files && files[fd.name] == ""
      ensures forall k :: k in old(files) && k != TempIncr && k != Incr(old(manifest).incrSeq + 1) ==>
                k in files && files[k] == old(files)[k]
    {
      var temp := manifest;
      var name := TempIncr;
      if mode != WaitRewrite {
        temp := NewIncr(temp);
        name := Incr(temp.incrSeq);
      }
      if !created { return false; }
      files := files[name := ""];
      fd := UnlinkFd(fd, name);
      if mode != WaitRewrite {
        if !persisted { return false; }
        saved := Save(temp);
        temp := temp.(dirty := false);
      }
      fd := Open(name, false, 0);
      lastIncrSize := 0;
      if mode != WaitRewrite { manifest := temp; }
      ok := true;
    }

    /** `rewriteAppendOnlyFileBackground`; false when it could not start a child. */
    method RewriteAppendOnlyFileBackground(results: seq<WriteResult>, truncated: bool, created: bool, persisted: bool, forked: bool)
      returns (ok: bool)
      requires Valid()
      modifies this
      ensures Valid()
      ensures View() == StartRewrite(old(View()), Total(|old(buf)|, results), truncated, created, persisted, forked)
      ensures ok <==> old(child) == None && child != None
    {
      if child != None { return false; }
      selectedDb := -1;
      var exited := FlushAppendOnlyFile(results, truncated, false);
      ok := OpenNewIncrAofForAppend(created, persisted);
      if !ok || !forked { return false; }
      child := Some(live);
    }

    /** `markRewrittenIncrAofAsHistory` on a manifest, walking the list from its tail: the file being
        written is skipped, every other INCR file goes to the head of the history. */
    method MarkRewrittenIncrAofAsHistory(m: Manifest) returns (r: Manifest)
      ensures r == MarkRewritten(m, fd != Closed)
    {
      hide IncrNames;
      if |m.incrs| == 0 { return m; }
      var keep := if fd != Closed then |m.incrs| - 1 else |m.incrs|;
      var history, i := m.history, keep;
      NoNames(m.incrs, keep, m.history);
      while i > 0
        invariant 0 <= i <= keep
        invariant history == IncrNames(m.incrs[i..keep]) + m.history
      {
        OneMoreName(m.incrs, i, keep, m.history);
        history := [Incr(m.incrs[i - 1])] + history;
        i := i - 1;
      }
      assert m.incrs[0..keep] == m.incrs[..keep];
      r := m.(incrs := m.incrs[keep..], history := history, dirty := true);
    }

    /** The loop of `aofDelHistoryFiles`: unlink the history one file at a time. */
    method UnlinkHistory()
      requires Valid()
      modifies this`files, this`fd, this`manifest
      ensures Valid() && manifest == old(manifest).(history := [])
      ensures files == UnlinkAll(old(files), old(manifest).history)
      ensures fd == if old(fd).Open? && old(fd).name in old(manifest).history then Orphan else old(fd)
    {
      var gone := manifest.history;
      var i := 0;
      while i < |gone|
        invariant 0 <= i <= |gone| && Valid()
        invariant manifest == old(manifest).(history := gone[i..])
        invariant files == UnlinkAll(old(files), gone[..i])
        invariant fd == if old(fd).Open? && old(fd).name in gone[..i] then Orphan else old(fd)
      {
        assert gone[..i + 1] == gone[..i] + [gone[i]];
        files := files - {gone[i]};
        fd := UnlinkFd(fd, gone[i]);
        manifest := manifest.(history := gone[i + 1..]);
        i := i + 1;
      }
      assert gone[..i] == gone && gone[i..] == [];
    }

    /** `aofDelHistoryFiles`: unlink the history, then persist. */
    method AofDelHistoryFiles(gc: bool, persisted: bool)
      requires Valid()
      modifies this`files, this`fd, this`manifest, this`saved
      ensures Valid() && View() == DeleteHistory(old(View()), gc, persisted)
    {
      hide UnlinkAll;
      if !gc || |manifest.history| == 0 { return; }
      UnlinkHistory();
      manifest := manifest.(dirty := true);
      if persisted {
        saved := Save(manifest);
        manifest := manifest.(dirty := false);
      }
    }

    /** The cleanup at the end of the handler, whatever happened before. */
    method FinishRewrite()
      requires Valid()
      modifies this
      ensures Valid() && View() == CleanUp(old(View()))
      ensures child == None && manifest == old(manifest) && saved == old(saved) && live == old(live)
      ensures mode == On ==> files == old(files) && buf == old(buf) && fd == old(fd)
      ensures forall k :: k in old(files) && k != TempIncr ==> k in files && files[k] == old(files)[k]
    {
      if mode == WaitRewrite {
        buf := "";
        files := files - {TempIncr};
        fd := UnlinkFd(fd, TempIncr);
      }
      child := None;
    }

    /** The two renames of the handler; false when one failed and what was renamed is gone again. */
    method PutFilesInPlace(content: Bytes, calls: Calls) returns (ok: bool)
      requires Valid()
      modifies this`files, this`fd
      ensures Valid()
      ensures ok <==> calls.renamedBase && (mode == On || calls.renamedIncr)
      ensures ok ==> View() == if mode == WaitRewrite then IncrInPlace(BaseInPlace(old(View()), content))
                               else BaseInPlace(old(View()), content)
      ensures !ok ==> fd == old(fd) && var base := Base(manifest.baseSeq + 1);
                      files == if calls.renamedBase then old(files)[base := content] - {base} else old(files)
    {
      if !calls.renamedBase { return false; }
      var base := Base(manifest.baseSeq + 1);
      files := files[base := content];
      if mode == WaitRewrite {
        if !calls.renamedIncr {
          files := files - {base};
          return false;
        }
        var incr := Incr(manifest.incrSeq + 1);
        files, fd := Rename(files, TempIncr, incr), RenameFd(fd, TempIncr, incr);
      }
      ok := true;
    }

    /** Undoing the renames when the manifest could not be written. */
    method TakeFilesBack()
      requires Valid()
      modifies this`files, this`fd
      ensures Valid()
      ensures var base, incr := Base(manifest.baseSeq + 1), Incr(manifest.incrSeq + 1);
              files == old(files) - (if mode == WaitRewrite then {base, incr} else {base})
              && fd == if mode == WaitRewrite then UnlinkFd(old(fd), incr) else old(fd)
    {
      var base, incr := Base(manifest.baseSeq + 1), Incr(manifest.incrSeq + 1);
      files := files - {base};
      if mode == WaitRewrite {
        files := files - {incr};
        fd := UnlinkFd(fd, incr);
      }
    }

    /** `backgroundRewriteDoneHandler` for a child that ended well and left `content` behind. */
    method BackgroundRewriteDoneHandler(content: Bytes, calls: Calls)
      requires Valid()
      modifies this
      ensures Valid() && View() == RewriteDone(old(View()), content, calls)
    {
      hide DeleteHistory, MarkRewritten, CleanUp, BaseInPlace, IncrInPlace, NewBase, NewIncr, RewriteDone, Save;
      var temp := NewBase(manifest);
      if mode == WaitRewrite { temp := NewIncr(temp); }
      var ok := PutFilesInPlace(content, calls);
      if !ok {
        HandlerAborts(old(View()), content, calls);
        FinishRewrite();
        return;
      }
      temp := MarkRewrittenIncrAofAsHistory(temp);
      HandlerFds(old(View()), content);
      assert temp == NewManifest(old(View()));
      if !calls.persisted {
        TakeFilesBack();
        HandlerUndone(old(View()), content);
        FinishRewrite();
        return;
      }
      HandlerCommits(old(View()), content, calls);
      CommitRewrite(temp, calls);
    }

    /** The handler from the point where the new manifest is on disk. */
    method CommitRewrite(temp: Manifest, calls: Calls)
      requires Valid()
      modifies this
      ensures Valid()
      ensures View() == CleanUp(DeleteHistory(old(View()).(disk := Disk(old(files), Save(temp)), manifest := temp.(dirty := false),
                selectedDb := if old(fd) != Closed then -1 else old(selectedDb), mode := On), calls.gc, calls.persistedAgain))
    {
      hide DeleteHistory, CleanUp, Save;
      saved := Save(temp);
      manifest := temp.(dirty := false);
      if fd != Closed { selectedDb := -1; }
      mode := On;
      AofDelHistoryFiles(calls.gc, calls.persistedAgain);
      FinishRewrite();
    }
  }

  lemma HandlerAborts<D>(s: Server<D>, content: Bytes, calls: Calls)
    requires !calls.renamedBase || (s.mode == WaitRewrite && !calls.renamedIncr)
    ensures RewriteDone(s, content, calls)
         == if calls.renamedBase then
              CleanUp(s.(disk := s.disk.(files := s.disk.files[Base(s.manifest.baseSeq + 1) := content] - {Base(s.manifest.baseSeq + 1)})))
            else CleanUp(s)
  {
    hide CleanUp;
  }

  /** The renames keep the descriptor open or closed, and touch files and descriptor only. */
  lemma HandlerFds<D>(s: Server<D>, content: Bytes)
    ensures var t := if s.mode == WaitRewrite then IncrInPlace(BaseInPlace(s, content)) else BaseInPlace(s, content);
            (t.fd == Closed <==> s.fd == Closed)
            && t == s.(disk := t.disk, fd := t.fd) && t.disk.saved == s.disk.saved
  {}

  lemma HandlerCommits<D>(s: Server<D>, content: Bytes, calls: Calls)
    requires calls.renamedBase && (s.mode == On || calls.renamedIncr) && calls.persisted
    ensures var t := if s.mode == WaitRewrite then IncrInPlace(BaseInPlace(s, content)) else BaseInPlace(s, content);
            var m := NewManifest(s);
            RewriteDone(s, content, calls)
            == CleanUp(DeleteHistory(t.(disk := t.disk.(saved := Save(m)), manifest := m.(dirty := false),
                                        selectedDb := if t.fd != Closed then -1 else t.selectedDb, mode := On),
                                     calls.gc, calls.persistedAgain))
  {
    hide CleanUp, BaseInPlace, IncrInPlace, NewManifest, DeleteHistory, Save;
  }

  lemma HandlerUndone<D>(s: Server<D>, content: Bytes)
    ensures var base, incr := Base(s.manifest.baseSeq + 1), Incr(s.manifest.incrSeq + 1);
            var t := if s.mode == WaitRewrite then IncrInPlace(BaseInPlace(s, content)) else BaseInPlace(s, content);
            forall calls: Calls :: calls.renamedBase && (s.mode == On || calls.renamedIncr) && !calls.persisted ==>
              RewriteDone(s, content, calls)
              == CleanUp(t.(disk := t.disk.(files := t.disk.files - (if s.mode == WaitRewrite then {base, incr} else {base})),
                            fd := if s.mode == WaitRewrite then UnlinkFd(t.fd, incr) else t.fd))
  {
    hide CleanUp, BaseInPlace, IncrInPlace, NewManifest;
  }

  lemma SelectPieces()
    ensures Header(2) == "*2\r\n" && EncodeArg("SELECT") == "$6\r\nSELECT\r\n"
    ensures "*2\r\n$6\r\nSELECT\r\n$" == "*2\r\n" + "$6\r\nSELECT\r\n" + "$"
  {
    assert Print(2) == "2" && Print(6) == "6";
  }

  lemma SelectText(db: nat)
    ensures "*2\r\n$6\r\nSELECT\r\n$" + Print(|Print(db)|) + "\r\n" + Print(db) + "\r\n" == Encode(SelectOf(db))
  {
    hide Print, Header;
    SelectPieces();
    var text := Print(db);
    EncodePair("SELECT", text);
    hide EncodeArgs, Encode;
    SelectParts(Header(2), EncodeArg("SELECT"), "$", Print(|text|), CRLF, text);
  }

  lemma EncodePair(a: Bytes, b: Bytes)
    ensures Encode([a, b]) == Header(2) + (EncodeArg(a) + EncodeArg(b))
  {
    hide Header, EncodeArg;
    assert [a, b][1..] == [b] && [b][1..] == [];
    assert EncodeArgs([b]) == EncodeArg(b) + "";
  }

  lemma SelectParts(h: Bytes, s: Bytes, d: Bytes, n: Bytes, c: Bytes, t: Bytes)
    ensures (h + s + d) + n + c + t + c == h + (s + (d + n + c + t + c))
  {}

  lemma Associate(a: Bytes, b: Bytes, c: Bytes)
    ensures a + b + c == a + (b + c)
  {}

  lemma FeedText(selected: int, op: Op)
    ensures EncodeLog(Feed(selected, op))
         == (if op.db != selected then Encode(SelectOf(op.db)) else "") + Encode(op.argv)
  {
    hide Encode, SelectOf;
    assert EncodeLog([op.argv]) == Encode(op.argv) + EncodeLog([]);
    if op.db != selected {
      assert ([SelectOf(op.db)] + [op.argv])[1..] == [op.argv];
    } else {
      assert [] + [op.argv] == [op.argv];
    }
  }

  lemma FeedAllStep(selected: int, ops: seq<Op>)
    requires ops != []
    ensures EncodeLog(FeedAll(selected, ops))
         == EncodeLog(Feed(selected, ops[0])) + EncodeLog(FeedAll(ops[0].db, ops[1..]))
  {
    hide EncodeLog, Feed;
    EncodeLogConcat(Feed(selected, ops[0]), FeedAll(ops[0].db, ops[1..]));
  }

  lemma UnitText(selected: int, ops: seq<Op>)
    requires ops != []
    ensures var first, last := ops[0].db, ops[|ops| - 1].db;
            EncodeLog(UnitLog(selected, ops))
            == if |ops| == 1 then EncodeLog(FeedAll(selected, ops))
               else EncodeLog(Feed(selected, Op(first, MULTI))) + (EncodeLog(FeedAll(first, ops)) + EncodeLog(Feed(last, Op(last, EXEC))))
  {
    hide EncodeLog, Feed, FeedAll;
    if |ops| == 1 {
      OneFeed(selected, ops);
    } else {
      var first, last := ops[0].db, ops[|ops| - 1].db;
      var a, b, c := Feed(selected, Op(first, MULTI)), FeedAll(first, ops), Feed(last, Op(last, EXEC));
      EncodeLogConcat(a, b);
      EncodeLogConcat(a + b, c);
      Associate(EncodeLog(a), EncodeLog(b), EncodeLog(c));
    }
  }

  lemma FedNothing(selected: int)
    ensures EncodeLog(FeedAll(selected, [])) == ""
  {}
}
