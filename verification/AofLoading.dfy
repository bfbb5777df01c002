/**
 `loadAppendOnlyFiles` file by file: only the last file may end short, and a load that succeeds has
 replayed all of them in order.
 */
module AofLoading {
  import opened Common
  import opened Decimal
  import opened Resp
  import opened Loader
  import opened AofFeed
  import opened AofState
  import opened AofProtocol

  /** How a file loads by itself. */
  function StatusOf(t: Table, content: Bytes): Status { Load(content, Tolerant(t)).status }

  predicate Broken(t: Table, content: Bytes) { StatusOf(t, content) == Failed || StatusOf(t, content) == RdbFormat }

  /** Not fit to stand before another file. */
  predicate Incomplete(t: Table, content: Bytes) { Broken(t, content) || StatusOf(t, content) == Truncated }

  function IncrContents(files: map<Name, Bytes>, incrs: seq<nat>): (r: seq<Bytes>)
    requires forall i :: 0 <= i < |incrs| ==> Incr(incrs[i]) in files
    ensures |r| == |incrs|
  {
    seq(|incrs|, i requires 0 <= i < |incrs| => files[Incr(incrs[i])])
  }

  /** The contents of the files the manifest names, BASE first. */
  function Contents(disk: Disk): seq<Bytes>
    requires AllThere(disk)
  {
    (if disk.saved.base.Some? then [disk.files[Base(disk.saved.base.value)]] else [])
    + IncrContents(disk.files, disk.saved.incrs)
  }

  /** The dataset after replaying files one after the other, each from database 0. */
  function Replayed<D>(e: Engine<D>, d: D, contents: seq<Bytes>): D
    decreases |contents|
  {
    if contents == [] then d
    else Replayed(e, ApplyAll(e, d, Targets(Load(contents[0], Tolerant(e.table)).executed, 0, e.table)), contents[1..])
  }

  /** What a load of several files should be: it fails if a file before the last is incomplete or the last is broken;
      otherwise it is short exactly when the last file is, and all files have been replayed. */
  ghost predicate LoadsAs<D(!new)>(e: Engine<D>, d: D, contents: seq<Bytes>, r: Recovered<D>)
    requires contents != []
  {
    var n := |contents| - 1;
    (r.status == Failed <==> Broken(e.table, contents[n]) || exists i :: 0 <= i < n && Incomplete(e.table, contents[i]))
    && (r.status == Truncated <==> r.status != Failed && StatusOf(e.table, contents[n]) == Truncated)
    && r.status != RdbFormat
    && (r.status != Failed ==> r.data == Replayed(e, d, contents))
  }

  lemma IncrTail(files: map<Name, Bytes>, incrs: seq<nat>)
    requires incrs != [] && forall i :: 0 <= i < |incrs| ==> Incr(incrs[i]) in files
    ensures IncrContents(files, incrs)[0] == files[Incr(incrs[0])] && IncrContents(files, incrs)[1..] == IncrContents(files, incrs[1..])
  {
  }

  /** One more file in front. */
  lemma LoadsFront<D(!new)>(e: Engine<D>, d: D, first: Bytes, rest: seq<Bytes>, r: Recovered<D>)
    requires rest != [] && !Incomplete(e.table, first)
    requires LoadsAs(e, ApplyAll(e, d, Targets(Load(first, Tolerant(e.table)).executed, 0, e.table)), rest, r)
    ensures LoadsAs(e, d, [first] + rest, r)
  {
    hide Incomplete, Broken, Load, ApplyAll, Targets;
    var all, n := [first] + rest, |rest|;
    assert all[1..] == rest && all[n] == rest[n - 1];
    assert (exists i :: 0 <= i < n && Incomplete(e.table, all[i])) <==> (exists i :: 0 <= i < n - 1 && Incomplete(e.table, rest[i])) by {
      if i :| 0 <= i < n && Incomplete(e.table, all[i]) { assert all[i] == rest[i - 1]; }
      if i :| 0 <= i < n - 1 && Incomplete(e.table, rest[i]) { assert all[i + 1] == rest[i]; }
    }
  }

  lemma LoadsBadFront<D(!new)>(e: Engine<D>, d: D, first: Bytes, rest: seq<Bytes>, r: Recovered<D>)
    requires rest != [] && Incomplete(e.table, first) && r.status == Failed
    ensures LoadsAs(e, d, [first] + rest, r)
  {
    hide Incomplete, Broken, Load, ApplyAll, Targets;
    assert ([first] + rest)[0] == first;
  }

  lemma LoadsOne<D(!new)>(e: Engine<D>, d: D, content: Bytes, r: Recovered<D>)
    requires r.data == ApplyAll(e, d, Targets(Load(content, Tolerant(e.table)).executed, 0, e.table))
    requires var s := StatusOf(e.table, content);
             if Broken(e.table, content) then r.status == Failed
             else if s == Truncated then r.status == Truncated else r.status == Ok || r.status == Empty
    ensures LoadsAs(e, d, [content], r)
  {
    hide Load, ApplyAll, Targets;
    assert [content][1..] == [] && Replayed(e, r.data, []) == r.data;
    assert Replayed(e, d, [content]) == Replayed(e, r.data, [content][1..]);
  }

  lemma {:induction false} LoadIncrsIs<D(!new)>(e: Engine<D>, d: D, files: map<Name, Bytes>, incrs: seq<nat>)
    requires incrs != [] && forall i :: 0 <= i < |incrs| ==> Incr(incrs[i]) in files
    ensures LoadsAs(e, d, IncrContents(files, incrs), LoadIncrs(e, d, files, incrs))
    decreases |incrs|
  {
    hide Load, ApplyAll, Targets, LoadsAs, IncrContents;
    var first, r := files[Incr(incrs[0])], LoadIncrs(e, d, files, incrs);
    var cs := IncrContents(files, incrs);
    IncrTail(files, incrs);
    if |incrs| == 1 {
      assert cs == [first];
      LoadsOne(e, d, first, r);
    } else {
      assert cs == [first] + cs[1..];
      if Incomplete(e.table, first) {
        LoadsBadFront(e, d, first, cs[1..], r);
      } else {
        var next := ApplyAll(e, d, Targets(Load(first, Tolerant(e.table)).executed, 0, e.table));
        LoadIncrsIs(e, next, files, incrs[1..]);
        LoadsFront(e, d, first, cs[1..], r);
      }
    }
  }

  /** For every disk: a load succeeds exactly when all files named are there, those before the last are complete and the last
      is not broken; it has then replayed all of them in order. */
  lemma LoadAllIs<D(!new)>(e: Engine<D>, disk: Disk)
    ensures !AllThere(disk) ==> LoadAll(e, disk).status == Failed
    ensures AllThere(disk) && AllEmpty(disk) ==> LoadAll(e, disk).status == Empty && LoadAll(e, disk).data == e.empty
    ensures AllThere(disk) && !AllEmpty(disk) ==>
              Contents(disk) != [] && LoadsAs(e, e.empty, Contents(disk), LoadAll(e, disk))
  {
    if AllThere(disk) && !AllEmpty(disk) {
      hide Load, ApplyAll, Targets, LoadsAs, IncrContents, AllEmpty;
      NotNothing(disk);
      var m, r := disk.saved, LoadAll(e, disk);
      var incrs := IncrContents(disk.files, m.incrs);
      if m.base.None? {
        assert Contents(disk) == incrs;
        LoadIncrsIs(e, e.empty, disk.files, m.incrs);
      } else {
        var first := disk.files[Base(m.base.value)];
        if m.incrs == [] {
          assert Contents(disk) == [first];
          LoadsOne(e, e.empty, first, r);
        } else if Incomplete(e.table, first) {
          LoadsBadFront(e, e.empty, first, incrs, r);
        } else {
          LoadIncrsIs(e, ApplyAll(e, e.empty, Targets(Load(first, Tolerant(e.table)).executed, 0, e.table)), disk.files, m.incrs);
          LoadsFront(e, e.empty, first, incrs, r);
        }
      }
    }
  }

  lemma NotNothing(disk: Disk)
    requires AllThere(disk) && !AllEmpty(disk)
    ensures disk.saved.base.Some? || disk.saved.incrs != []
  {
  }

  /** An incomplete file that is not the last makes the whole load fail. */
  lemma OnlyLastMayEndShort<D(!new)>(e: Engine<D>, disk: Disk, i: nat)
    requires AllThere(disk) && i < |Contents(disk)| - 1 && Incomplete(e.table, Contents(disk)[i])
    ensures LoadAll(e, disk).status == Failed
  {
    hide Load, ApplyAll, Targets, LoadAll;
    EmptyIsComplete(e.table);
    SomeContent(disk, i);
    LoadAllIs(e, disk);
  }

  lemma EmptyIsComplete(t: Table)
    ensures !Incomplete(t, "")
  {
  }

  lemma SomeContent(disk: Disk, i: nat)
    requires AllThere(disk) && i < |Contents(disk)| && Contents(disk)[i] != ""
    ensures !AllEmpty(disk)
  {
    var b := if disk.saved.base.Some? then 1 else 0;
    if i >= b { assert Contents(disk)[i] == disk.files[Incr(disk.saved.incrs[i - b])]; }
  }

  /** In every state the protocol reaches: losing the end of an INCR file that is not the last, so that it is truncated
      when loaded by itself, is not survived. */
  lemma EarlierCutFails<D(!new)>(e: Engine<D>, s: Server<D>, era: Era<D>, i: nat, cut: nat)
    requires Inv(e, s, era) && s.mode == On && i < |s.manifest.incrs| - 1
    requires Incr(s.manifest.incrs[i]) in s.disk.files && cut <= |s.disk.files[Incr(s.manifest.incrs[i])]|
    requires i < |era.files| && CutOutcome(era.files[i].log, cut, e.table).status == Truncated
    ensures var name := Incr(s.manifest.incrs[i]);
            LoadAll(e, s.disk.(files := s.disk.files[name := s.disk.files[name][..cut]])).status == Failed
  {
    hide EncodeLog, Represents, AfterFiles, Proper, SelectedOk, LoadAll, Load, CutOutcome, Settled, EndsInMulti, Targets, Unnested;
    var m, n := s.manifest, |s.manifest.incrs| - 1;
    var name, log := Incr(m.incrs[i]), era.files[i].log;
    assert m.incrs[..n][i] == m.incrs[i] && era.files[..n][i] == era.files[i];
    assert s.disk.files[name] == EncodeLog(log);
    LoadCutLog(log, cut, Tolerant(e.table));
    var disk := s.disk.(files := s.disk.files[name := EncodeLog(log)[..cut]]);
    assert AllThere(disk);
    assert Contents(disk)[i + 1] == disk.files[Incr(disk.saved.incrs[i])];
    OnlyLastMayEndShort(e, disk, i + 1);
  }
}
