/**
 What commands keep true of a dataset -- strings a length header can state, no empty collection,
 expire times that fit -- and that such a dataset can be iterated and rewritten.
 */
module KeyspaceOrders {
  import opened Decimal
  import opened Resp
  import opened Keyspace
  import opened Rewrite
  import opened RewriteMeaning

  predicate Brief(b: Bytes) { |b| < LONG_LIMIT }

  predicate BriefPairs(m: map<Bytes, Bytes>) { forall k :: k in m ==> Brief(k) && Brief(m[k]) }

  predicate BriefValue(v: Value) {
    match v
    case Str(text) => Brief(text)
    case List(items) => Short(items)
    case Set(members) => forall x :: x in members ==> Brief(x)
    case Hash(fields) => BriefPairs(fields)
    case ZSet(scores) => BriefPairs(scores)
  }

  predicate TidyEntry(e: Entry) { BriefValue(e.value) && Inhabited(e.value) && -LONG_LIMIT <= e.expire < LONG_LIMIT }

  predicate TidyDb(db: Db) { forall k :: k in db ==> Brief(k) && TidyEntry(db[k]) }

  predicate Tidy(dbs: seq<Db>) { forall j :: 0 <= j < |dbs| ==> TidyDb(dbs[j]) }

  // ------------------------------------------------------------------ commands keep it

  predicate BriefUnits(units: seq<Argv>) { forall i :: 0 <= i < |units| ==> Short(units[i]) }

  lemma AddUnitBrief(v: Value, unit: Argv)
    requires !v.Str? && |unit| == Width(KindOf(v)) && BriefValue(v) && Short(unit)
    ensures BriefValue(AddUnit(v, unit)) && Inhabited(AddUnit(v, unit))
  {
    match v
    case List(items) =>
    case Set(members) => assert unit[0] in members + {unit[0]};
    case Hash(fields) => assert unit[0] in fields[unit[0] := unit[1]];
    case ZSet(scores) => assert unit[1] in scores[unit[1] := unit[0]];
  }

  lemma {:induction false} AddUnitsBrief(v: Value, units: seq<Argv>)
    requires !v.Str? && Shaped(units, KindOf(v)) && BriefValue(v) && BriefUnits(units)
    ensures BriefValue(AddUnits(v, units)) && (units != [] || Inhabited(v) ==> Inhabited(AddUnits(v, units)))
    decreases |units|
  {
    hide AddUnit, BriefValue, Inhabited, Short;
    if units != [] {
      AddUnitBrief(v, units[0]);
      AddUnitsBrief(AddUnit(v, units[0]), units[1..]);
    }
  }

  lemma {:induction false} SplitBrief(args: Argv, w: nat)
    requires w > 0 && Short(args)
    ensures BriefUnits(Split(args, w)) && (|args| >= w ==> Split(args, w) != [])
  {
    if |args| >= w { SplitBrief(args[w..], w); }
  }

  lemma PushBrief(kind: Kind, argv: Argv)
    requires Short(argv)
    ensures var op := PushOp(kind, argv);
            op.Push? ==> Brief(op.key) && BriefUnits(op.units) && op.units != [] && Shaped(op.units, op.kind)
  {
    hide Split;
    if |argv| >= 3 && (|argv| - 2) % Width(kind) == 0 { SplitBrief(argv[2..], Width(kind)); }
  }

  /** What a decoded command brings into a database is brief. */
  predicate BriefOp(op: Op) {
    match op
    case SetText(key, text) => Brief(key) && Brief(text)
    case Push(kind, key, units) => Brief(key) && BriefUnits(units) && units != [] && Shaped(units, kind)
    case ExpireAt(key, at) => Brief(key) && -LONG_LIMIT <= at < LONG_LIMIT
    case _ => true
  }

  lemma DecodeBrief(argv: Argv)
    requires Short(argv)
    ensures BriefOp(Decode(argv))
  {
    hide PushOp, Same, Strtol, Split;
    PushBrief(KList, argv);
    PushBrief(KSet, argv);
    PushBrief(KHash, argv);
    PushBrief(KZSet, argv);
  }

  lemma PushTidy(db: Db, kind: Kind, key: Bytes, units: seq<Argv>)
    requires TidyDb(db) && Brief(key) && BriefUnits(units) && units != [] && Shaped(units, kind)
    ensures TidyDb(PushTo(db, kind, key, units))
  {
    hide AddUnits, BriefUnits, Inhabited;
    if key !in db {
      EmptyIsBrief(kind);
      AddUnitsBrief(EmptyOf(kind), units);
    } else if !db[key].value.Str? && KindOf(db[key].value) == kind {
      AddUnitsBrief(db[key].value, units);
    }
  }

  lemma EmptyIsBrief(kind: Kind)
    ensures BriefValue(EmptyOf(kind))
  {
  }

  lemma ApplyTidy(db: Db, op: Op)
    requires TidyDb(db) && BriefOp(op)
    ensures TidyDb(ApplyTo(db, op))
  {
    hide PushTo, BriefUnits;
    if op.Push? { PushTidy(db, op.kind, op.key, op.units); }
  }

  /** Every command with brief arguments keeps a dataset tidy. */
  lemma ExecuteTidy(s: State, argv: Argv)
    requires s.selected < |s.dbs| && Tidy(s.dbs) && Short(argv)
    ensures Tidy(Execute(s, argv).dbs)
  {
    hide Decode, ApplyTo, TidyDb, BriefOp;
    DecodeBrief(argv);
    OpShaped(Decode(argv));
    ApplyTidy(s.dbs[s.selected], Decode(argv));
  }

  lemma OpShaped(op: Op)
    requires BriefOp(op)
    ensures op.Push? ==> Shaped(op.units, op.kind)
  {
  }

  // ---------------------------------------------------------------- it can be iterated

  lemma {:induction false} Enumerate(s: set<Bytes>) returns (xs: seq<Bytes>)
    ensures Distinct(xs) && s == set x | x in xs
    decreases s
  {
    if s == {} {
      xs := [];
    } else {
      var x :| x in s;
      var rest := Enumerate(s - {x});
      xs := [x] + rest;
      assert x !in rest by { assert forall y :: y in rest ==> y in s - {x}; }
      forall i, j | 0 <= i < j < |xs| ensures xs[i] != xs[j] { assert xs[j] == rest[j - 1] && rest[j - 1] in rest; }
      assert (set y | y in xs) == {x} + (s - {x});
    }
  }

  lemma UnitsOf(v: Value) returns (units: seq<Argv>)
    requires !v.Str?
    ensures Visits(units, v)
  {
    match v
    case List(items) =>
      units := seq(|items|, i requires 0 <= i < |items| => [items[i]]);
    case Set(members) =>
      var xs := Enumerate(members);
      units := seq(|xs|, i requires 0 <= i < |xs| => [xs[i]]);
      assert Column(units, 0) == xs;
    case Hash(fields) =>
      var xs := Enumerate(fields.Keys);
      units := seq(|xs|, i requires 0 <= i < |xs| => FieldUnit(fields, xs[i]));
      assert Column(units, 0) == xs;
      forall i | 0 <= i < |xs| ensures fields[xs[i]] == units[i][1] { assert xs[i] in fields.Keys; }
    case ZSet(scores) =>
      var xs := Enumerate(scores.Keys);
      units := seq(|xs|, i requires 0 <= i < |xs| => ScoreUnit(scores, xs[i]));
      assert Column(units, 1) == xs;
      forall i | 0 <= i < |xs| ensures scores[xs[i]] == units[i][0] { assert xs[i] in scores.Keys; }
  }

  function FieldUnit(fields: map<Bytes, Bytes>, k: Bytes): Argv { [k, if k in fields then fields[k] else ""] }

  function ScoreUnit(scores: map<Bytes, Bytes>, k: Bytes): Argv { [if k in scores then scores[k] else "", k] }

  lemma {:induction false} VisitKeys(keys: seq<Bytes>, db: Db) returns (order: seq<Visit>)
    requires TidyDb(db) && forall i :: 0 <= i < |keys| ==> keys[i] in db
    ensures KeysOf(order) == keys
    ensures forall i :: 0 <= i < |order| ==> order[i].key in db && VisitsEntry(order[i], db[order[i].key])
  {
    hide BriefValue, Inhabited, Visits;
    if keys == [] {
      order := [];
    } else {
      var rest := VisitKeys(keys[1..], db);
      var k := keys[0];
      var units: seq<Argv> := [];
      if !db[k].value.Str? { units := UnitsOf(db[k].value); }
      order := [Visit(k, units)] + rest;
      assert KeysOf(order) == [k] + KeysOf(rest);
    }
  }

  lemma OrderOf(db: Db) returns (order: seq<Visit>)
    requires TidyDb(db)
    ensures VisitsDb(order, db)
  {
    hide TidyDb, VisitsEntry;
    var keys := Enumerate(db.Keys);
    assert forall i :: 0 <= i < |keys| ==> keys[i] in db by {
      forall i | 0 <= i < |keys| ensures keys[i] in db { assert keys[i] in db.Keys; }
    }
    order := VisitKeys(keys, db);
  }

  lemma {:induction false} OrdersOf(dbs: seq<Db>) returns (orders: seq<seq<Visit>>)
    requires Tidy(dbs)
    ensures |orders| == |dbs| && forall j :: 0 <= j < |dbs| ==> VisitsDb(orders[j], dbs[j])
  {
    hide TidyDb, VisitsDb;
    if dbs == [] {
      orders := [];
    } else {
      var first := OrderOf(dbs[0]);
      var rest := OrdersOf(dbs[1..]);
      orders := [first] + rest;
    }
  }

  lemma VisitsBrief(units: seq<Argv>, v: Value)
    requires !v.Str? && Visits(units, v) && BriefValue(v)
    ensures BriefUnits(units)
  {
    forall i | 0 <= i < |units| ensures Short(units[i]) {
      match v
      case List(items) => assert units[i][0] == items[i];
      case Set(members) => assert Column(units, 0)[i] in members;
      case Hash(fields) => assert Column(units, 0)[i] in fields.Keys;
      case ZSet(scores) => assert Column(units, 1)[i] in scores.Keys;
    }
  }

  lemma VisitBrief(visit: Visit, e: Entry)
    requires VisitsEntry(visit, e) && TidyEntry(e) && Brief(visit.key)
    ensures ShortEntry(visit, e)
  {
    hide Visits, Inhabited;
    if !e.value.Str? { VisitsBrief(visit.units, e.value); }
  }

  lemma TidyKeys(db: Db, order: seq<Visit>, i: nat)
    requires TidyDb(db) && VisitsDb(order, db) && i < |order|
    ensures order[i].key in db && ShortEntry(order[i], db[order[i].key])
  {
    hide VisitsEntry, TidyEntry;
    VisitBrief(order[i], db[order[i].key]);
  }

  /** Every iteration over a tidy dataset meets strings that a length header can state. */
  lemma TidyOrders(orders: seq<seq<Visit>>, dbs: seq<Db>)
    requires Tidy(dbs) && VisitsAll(orders, dbs)
    ensures ShortAll(orders, dbs)
  {
    hide TidyDb, VisitsDb, ShortEntry;
    forall j, i | 0 <= j < |dbs| && 0 <= i < |orders[j]|
      ensures orders[j][i].key in dbs[j] && ShortEntry(orders[j][i], dbs[j][orders[j][i].key])
    {
      TidyKeys(dbs[j], orders[j], i);
    }
  }

  /** A tidy dataset can be rewritten: it has iteration orders. */
  lemma OrdersExist(dbs: seq<Db>) returns (orders: seq<seq<Visit>>)
    requires Tidy(dbs) && |dbs| < INT_LIMIT
    ensures VisitsAll(orders, dbs) && ShortAll(orders, dbs)
  {
    hide Tidy, VisitsDb, ShortAll;
    orders := OrdersOf(dbs);
    TidyOrders(orders, dbs);
  }
}
