/**
 `feedAppendOnlyFile` and `propagatePendingCommands`: what the server appends for
 the commands it executes, with SELECT only where the database changes.
 */
module AofFeed {
  import opened Decimal
  import opened Resp
  import opened Loader

  /** A command as it was executed: the database it ran on and its arguments. */
  datatype Op = Op(db: nat, argv: Argv)

  const MULTI: Argv := ["MULTI"]
  const EXEC: Argv := ["EXEC"]

  function SelectOf(db: nat): Argv { ["SELECT", Print(db)] }

  /** The database a SELECT switches to. */
  function TargetOf(argv: Argv): int {
    if |argv| < 2 then 0 else Strtol(argv[1])
  }

  /** The command table knows the three commands the server adds on its own. */
  ghost predicate Proper(t: Table) {
    t(MULTI) == Multi && t(EXEC) == Exec && forall db: nat {:trigger SelectOf(db)} :: t(SelectOf(db)) == Select
  }

  /** Commands that get propagated: known, no transaction or SELECT command, on a real database. */
  predicate Propagated(ops: seq<Op>, t: Table) {
    forall i :: 0 <= i < |ops| ==>
      Fits(ops[i].argv) && t(ops[i].argv) == Other && ops[i].db < INT_LIMIT
  }

  // -------------------------------------------------------------------- feeding

  /** One call: a SELECT when the database differs from `selected`, then the command. */
  function Feed(selected: int, op: Op): (log: seq<Argv>)
    ensures log != []
  {
    (if op.db != selected then [SelectOf(op.db)] else []) + [op.argv]
  }

  function FeedAll(selected: int, ops: seq<Op>): seq<Argv>
    decreases |ops|
  {
    if ops == [] then [] else Feed(selected, ops[0]) + FeedAll(ops[0].db, ops[1..])
  }

  /** What is appended for the commands of one execution unit; more than one makes a transaction. */
  function UnitLog(selected: int, ops: seq<Op>): seq<Argv>
    requires ops != []
  {
    if |ops| == 1 then Feed(selected, ops[0])
    else
      var first, last := ops[0].db, ops[|ops| - 1].db;
      Feed(selected, Op(first, MULTI)) + FeedAll(first, ops) + Feed(last, Op(last, EXEC))
  }

  // ------------------------------------------------------------------ replaying

  /** The commands of a replay with the database each one runs on, and the database left selected. */
  function Targets(cmds: seq<Argv>, db: int, t: Table): seq<(int, Argv)>
    decreases |cmds|
  {
    if cmds == [] then []
    else if t(cmds[0]) == Select then Targets(cmds[1..], TargetOf(cmds[0]), t)
    else [(db, cmds[0])] + Targets(cmds[1..], db, t)
  }

  function SelectedAfter(cmds: seq<Argv>, db: int, t: Table): int
    decreases |cmds|
  {
    if cmds == [] then db
    else SelectedAfter(cmds[1..], if t(cmds[0]) == Select then TargetOf(cmds[0]) else db, t)
  }

  function Executed(ops: seq<Op>): (r: seq<(int, Argv)>)
    ensures |r| == |ops|
  {
    seq(|ops|, i requires 0 <= i < |ops| => (ops[i].db as int, ops[i].argv))
  }

  lemma {:induction false} TargetsConcat(a: seq<Argv>, b: seq<Argv>, db: int, t: Table)
    ensures Targets(a + b, db, t) == Targets(a, db, t) + Targets(b, SelectedAfter(a, db, t), t)
    ensures SelectedAfter(a + b, db, t) == SelectedAfter(b, SelectedAfter(a, db, t), t)
    decreases |a|
  {
    hide TargetOf;
    if a == [] {
      assert a + b == b;
    } else {
      assert (a + b)[1..] == a[1..] + b;
      TargetsConcat(a[1..], b, if t(a[0]) == Select then TargetOf(a[0]) else db, t);
    }
  }

  lemma SelectTarget(db: nat)
    requires db < INT_LIMIT
    ensures TargetOf(SelectOf(db)) == db && Fits(SelectOf(db))
  {
    StrtolPrinted(db, "");
    assert Print(db) + "" == Print(db);
    LongIsShort(db);
  }

  /** The database tracked in `aof_selected_db` is right: nothing tracked, or what a replay has selected. */
  predicate Tracks(selected: int, db: int) { selected < 0 || selected == db }

  lemma FeedTargets(selected: int, op: Op, db: int, t: Table)
    requires Proper(t) && op.db < INT_LIMIT && t(op.argv) != Select && Tracks(selected, db)
    ensures Targets(Feed(selected, op), db, t) == [(op.db, op.argv)]
    ensures SelectedAfter(Feed(selected, op), db, t) == op.db
  {
    SelectTarget(op.db);
    hide SelectOf, TargetOf;
    var cmd := [op.argv];
    assert cmd[1..] == [] && SelectedAfter(cmd, op.db, t) == SelectedAfter([], op.db, t) == op.db;
    assert Targets([], op.db, t) == [] && Targets(cmd, op.db, t) == [(op.db, op.argv)] + Targets([], op.db, t);
    if op.db != selected {
      var sel := [SelectOf(op.db)];
      assert (sel + cmd)[1..] == cmd;
      assert t(SelectOf(op.db)) == Select;
    } else {
      assert [] + cmd == cmd;
    }
  }

  lemma {:induction false} FeedAllTargets(selected: int, ops: seq<Op>, db: int, t: Table)
    requires Proper(t) && Propagated(ops, t) && Tracks(selected, db)
    ensures Targets(FeedAll(selected, ops), db, t) == Executed(ops)
    ensures SelectedAfter(FeedAll(selected, ops), db, t) == if ops == [] then db else ops[|ops| - 1].db
    decreases |ops|
  {
    hide Feed, Proper;
    if ops == [] {
    } else {
      FeedTargets(selected, ops[0], db, t);
      FeedAllTargets(ops[0].db, ops[1..], ops[0].db, t);
      TargetsConcat(Feed(selected, ops[0]), FeedAll(ops[0].db, ops[1..]), db, t);
      assert Executed(ops) == [(ops[0].db as int, ops[0].argv)] + Executed(ops[1..]);
    }
  }

  /** Nothing in the log opens or closes a transaction. */
  predicate Flat(log: seq<Argv>, t: Table) {
    forall i :: 0 <= i < |log| ==> t(log[i]) != Multi && t(log[i]) != Exec
  }

  lemma {:induction false} FeedAllSound(selected: int, ops: seq<Op>, t: Table)
    requires Proper(t) && Propagated(ops, t)
    ensures Sound(FeedAll(selected, ops), t) && Flat(FeedAll(selected, ops), t)
    decreases |ops|
  {
    hide SelectOf, Fits;
    if ops != [] {
      FeedAllSound(ops[0].db, ops[1..], t);
      SelectTarget(ops[0].db);
      assert t(SelectOf(ops[0].db)) == Select;
    }
  }

  lemma {:induction false} SettledFlat(log: seq<Argv>, t: Table)
    requires Flat(log, t)
    ensures Settled(log, t) == log && !EndsInMulti(log, t)
  {
    if log != [] { SettledFlat(log[1..], t); }
  }

  lemma SettledTransaction(multi: Argv, body: seq<Argv>, exec: Argv, t: Table)
    requires t(multi) == Multi && t(exec) == Exec && Flat(body, t)
    ensures var log := [multi] + (body + [exec]);
            Settled(log, t) == body && !EndsInMulti(log, t) && Unnested(log, t)
  {
    var rest := body + [exec];
    var log := [multi] + rest;
    assert log[1..] == rest && rest[|body|] == exec;
    assert forall j :: 0 <= j < |body| ==> t(rest[j]) != Exec;
    assert FirstExec(rest, t) == |body|;
    assert rest[..|body|] == body && rest[|body| + 1..] == [];
    assert Settled(log, t) == body + Settled([], t);
    EndsInMultiTransaction(log, t);
    assert log[..0] == [];
    assert forall i :: 0 < i < |log| ==> t(log[i]) != Multi by {
      forall i | 0 < i < |log| ensures t(log[i]) != Multi {
        if i - 1 < |body| { assert log[i] == body[i - 1]; } else { assert log[i] == exec; }
      }
    }
  }

  /** Everything a log file must satisfy, together with the commands `ops` it stands for. */
  ghost predicate Holds(log: seq<Argv>, ops: seq<Op>, t: Table) {
    Sound(log, t) && Unnested(log, t) && !EndsInMulti(log, t)
    && forall db :: Targets(Settled(log, t), db, t) == Executed(ops)
  }

  /** `aof_selected_db` agrees with what a replay of the log leaves selected, from any start. */
  ghost predicate SelectedOk(log: seq<Argv>, selected: int, t: Table) {
    forall db :: Tracks(selected, SelectedAfter(Settled(log, t), db, t))
  }

  lemma UnnestedConcat(a: seq<Argv>, b: seq<Argv>, t: Table)
    requires Unnested(a, t) && !EndsInMulti(a, t) && Unnested(b, t)
    ensures Unnested(a + b, t)
  {
    hide EndsInMulti;
    forall i | 0 <= i < |a + b| && t((a + b)[i]) == Multi ensures !EndsInMulti((a + b)[..i], t) {
      if i < |a| {
        assert (a + b)[..i] == a[..i] && (a + b)[i] == a[i];
      } else {
        assert (a + b)[..i] == a + b[..i - |a|] && (a + b)[i] == b[i - |a|];
        SettledConcat(a, b[..i - |a|], t);
      }
    }
  }

  lemma FlatUnnested(log: seq<Argv>, t: Table)
    requires Flat(log, t)
    ensures Unnested(log, t)
  {}

  /** The log of a transaction: a SELECT if needed, then the body between MULTI and EXEC. */
  lemma TransactionShape(selected: int, ops: seq<Op>)
    requires |ops| > 1
    ensures var first := ops[0].db;
            UnitLog(selected, ops)
            == (if first != selected then [SelectOf(first)] else []) + ([MULTI] + (FeedAll(first, ops) + [EXEC]))
  {
    hide FeedAll, SelectOf;
    var first, last := ops[0].db, ops[|ops| - 1].db;
    var pre := if first != selected then [SelectOf(first)] else [];
    assert Feed(selected, Op(first, MULTI)) == pre + [MULTI] && Feed(last, Op(last, EXEC)) == [EXEC];
    Regroup(pre, [MULTI], FeedAll(first, ops), [EXEC]);
  }

  lemma Regroup<T>(a: seq<T>, b: seq<T>, c: seq<T>, d: seq<T>)
    ensures a + b + c + d == a + (b + (c + d))
  {}

  lemma UnitSettles(selected: int, ops: seq<Op>, t: Table)
    requires Proper(t) && Propagated(ops, t) && ops != []
    ensures var log := UnitLog(selected, ops);
            Sound(log, t) && Unnested(log, t) && !EndsInMulti(log, t)
            && Settled(log, t) == if |ops| == 1 then FeedAll(selected, ops)
                                  else (if ops[0].db != selected then [SelectOf(ops[0].db)] else []) + FeedAll(ops[0].db, ops)
  {
    hide EndsInMulti, Settled, Unnested, FeedAll, SelectOf, Fits;
    if |ops| == 1 {
      FeedAllSound(selected, ops, t);
      OneFeed(selected, ops);
      SettledFlat(UnitLog(selected, ops), t);
      FlatUnnested(UnitLog(selected, ops), t);
    } else {
      var first := ops[0].db;
      FeedAllSound(first, ops, t);
      TransactionShape(selected, ops);
      var pre := if first != selected then [SelectOf(first)] else [];
      var core := [MULTI] + (FeedAll(first, ops) + [EXEC]);
      assert t(SelectOf(first)) == Select;
      SelectTarget(first);
      SettledFlat(pre, t);
      FlatUnnested(pre, t);
      SettledTransaction(MULTI, FeedAll(first, ops), EXEC, t);
      SettledConcat(pre, core, t);
      UnnestedConcat(pre, core, t);
      BareFits();
    }
  }

  lemma BareFits()
    ensures Fits(MULTI) && Fits(EXEC)
  {
  }

  lemma OneFeed(selected: int, ops: seq<Op>)
    requires |ops| == 1
    ensures FeedAll(selected, ops) == UnitLog(selected, ops)
  {
    assert FeedAll(ops[0].db, ops[1..]) == [];
  }

  lemma UnitTargets(selected: int, ops: seq<Op>, db: int, t: Table)
    requires Proper(t) && Propagated(ops, t) && ops != [] && Tracks(selected, db)
    ensures var cmds := Settled(UnitLog(selected, ops), t);
            Targets(cmds, db, t) == Executed(ops) && SelectedAfter(cmds, db, t) == ops[|ops| - 1].db
  {
    hide Settled, Targets, SelectedAfter, UnitLog, FeedAll, Executed;
    UnitSettles(selected, ops, t);
    if |ops| == 1 {
      FeedAllTargets(selected, ops, db, t);
    } else {
      var first := ops[0].db;
      var pre := if first != selected then [SelectOf(first)] else [];
      PrefixTargets(selected, first, db, t);
      TargetsConcat(pre, FeedAll(first, ops), db, t);
      FeedAllTargets(first, ops, first, t);
    }
  }

  lemma PrefixTargets(selected: int, first: nat, db: int, t: Table)
    requires Proper(t) && first < INT_LIMIT && Tracks(selected, db)
    ensures var pre := if first != selected then [SelectOf(first)] else [];
            Targets(pre, db, t) == [] && SelectedAfter(pre, db, t) == first
  {
    SelectTarget(first);
    hide SelectOf, TargetOf;
    if first != selected {
      var pre := [SelectOf(first)];
      assert t(pre[0]) == Select && pre[1..] == [];
    }
  }

  /** Appending a unit to a log file keeps it a log of all the commands, each on its own database,
      whatever database a later replay starts from. */
  lemma FeedKeeps(log: seq<Argv>, done: seq<Op>, selected: int, ops: seq<Op>, t: Table)
    requires Proper(t) && Propagated(ops, t) && ops != []
    requires Holds(log, done, t) && SelectedOk(log, selected, t)
    ensures Holds(log + UnitLog(selected, ops), done + ops, t)
    ensures SelectedOk(log + UnitLog(selected, ops), ops[|ops| - 1].db, t)
  {
    hide Settled, Targets, SelectedAfter, UnitLog, EndsInMulti, Unnested, Sound, Proper, Executed, Propagated;
    var unit := UnitLog(selected, ops);
    UnitSettles(selected, ops, t);
    SettledConcat(log, unit, t);
    UnnestedConcat(log, unit, t);
    SoundConcat(log, unit, t);
    ExecutedConcat(done, ops);
    forall db
      ensures Targets(Settled(log + unit, t), db, t) == Executed(done + ops)
      ensures SelectedAfter(Settled(log + unit, t), db, t) == ops[|ops| - 1].db
    {
      TargetsConcat(Settled(log, t), Settled(unit, t), db, t);
      UnitTargets(selected, ops, SelectedAfter(Settled(log, t), db, t), t);
    }
  }

  lemma SoundConcat(a: seq<Argv>, b: seq<Argv>, t: Table)
    requires Sound(a, t) && Sound(b, t)
    ensures Sound(a + b, t)
  {
    hide Fits;
  }

  lemma ExecutedConcat(a: seq<Op>, b: seq<Op>)
    ensures Executed(a + b) == Executed(a) + Executed(b)
  {}

  /** A file just opened, with nothing tracked, is the log of nothing. */
  lemma EmptyHolds(t: Table)
    ensures Holds([], [], t) && SelectedOk([], -1, t)
  {
    ClosedEmpty(t);
    assert Targets([], 0, t) == [] == Executed([]);
  }
}
