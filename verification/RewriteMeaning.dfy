/**
 What a rewritten log means: executed from an empty server it rebuilds the
 dataset it was compiled from, for every iteration order of the containers.
 */
module RewriteMeaning {
  import opened Decimal
  import opened Resp
  import opened Keyspace
  import opened Rewrite
  import Loader

  // ------------------------------------------------- elements build the collection

  lemma {:induction false} AddUnitsConcat(v: Value, a: seq<Argv>, b: seq<Argv>)
    requires !v.Str? && Shaped(a, KindOf(v)) && Shaped(b, KindOf(v))
    ensures AddUnits(v, a + b) == AddUnits(AddUnits(v, a), b)
    decreases |a|
  {
    hide AddUnit;
    if a == [] {
      assert a + b == b;
    } else {
      assert (a + b)[1..] == a[1..] + b;
      AddUnitsConcat(AddUnit(v, a[0]), a[1..], b);
    }
  }

  lemma AddUnitsSnoc(v: Value, units: seq<Argv>)
    requires !v.Str? && units != [] && Shaped(units, KindOf(v))
    ensures AddUnits(v, units) == AddUnit(AddUnits(v, units[..|units| - 1]), units[|units| - 1])
  {
    hide AddUnit, AddUnits, KindOf, Width;
    var n := |units| - 1;
    var init, last := units[..n], units[n];
    assert units == init + [last];
    assert Shaped(init, KindOf(v)) && Shaped([last], KindOf(v));
    AddUnitsConcat(v, init, [last]);
    AddOneUnit(AddUnits(v, init), last);
  }

  lemma AddOneUnit(v: Value, unit: Argv)
    requires !v.Str? && |unit| == Width(KindOf(v))
    ensures AddUnits(v, [unit]) == AddUnit(v, unit)
  {
    hide AddUnit;
    assert AddUnits(v, [unit]) == AddUnits(AddUnit(v, unit), []);
  }

  lemma {:induction false} BuildList(units: seq<Argv>)
    requires Shaped(units, KList)
    ensures AddUnits(List([]), units) == List(Column(units, 0))
  {
    if units != [] {
      var n := |units| - 1;
      AddUnitsSnoc(List([]), units);
      BuildList(units[..n]);
      assert Column(units, 0) == Column(units[..n], 0) + [units[n][0]];
    }
  }

  lemma {:induction false} BuildSet(units: seq<Argv>)
    requires Shaped(units, KSet)
    ensures AddUnits(Set({}), units) == Set(set x | x in Column(units, 0))
  {
    if units != [] {
      var n := |units| - 1;
      AddUnitsSnoc(Set({}), units);
      BuildSet(units[..n]);
      assert Column(units, 0) == Column(units[..n], 0) + [units[n][0]];
    }
  }

  lemma {:induction false} BuildHash(units: seq<Argv>)
    requires Shaped(units, KHash)
    ensures var v := AddUnits(Hash(map[]), units);
            v.Hash? && v.fields.Keys == (set x | x in Column(units, 0))
            && (Distinct(Column(units, 0)) ==>
                 forall i :: 0 <= i < |units| ==> v.fields[Column(units, 0)[i]] == units[i][1])
  {
    if units != [] {
      var n := |units| - 1;
      AddUnitsSnoc(Hash(map[]), units);
      BuildHash(units[..n]);
      var col, init := Column(units, 0), Column(units[..n], 0);
      assert col == init + [units[n][0]];
      var v, w := AddUnits(Hash(map[]), units), AddUnits(Hash(map[]), units[..n]);
      assert v.fields == w.fields[units[n][0] := units[n][1]];
      if Distinct(col) {
        assert Distinct(init) by {
          forall i, j | 0 <= i < j < n ensures init[i] != init[j] { assert init[i] == col[i] && init[j] == col[j]; }
        }
        forall i | 0 <= i < n ensures v.fields[col[i]] == units[i][1] {
          assert init[i] == col[i] != col[n] && units[..n][i] == units[i];
        }
      }
    }
  }

  lemma {:induction false} BuildZSet(units: seq<Argv>)
    requires Shaped(units, KZSet)
    ensures var v := AddUnits(ZSet(map[]), units);
            v.ZSet? && v.scores.Keys == (set x | x in Column(units, 1))
            && (Distinct(Column(units, 1)) ==>
                 forall i :: 0 <= i < |units| ==> v.scores[Column(units, 1)[i]] == units[i][0])
  {
    if units != [] {
      var n := |units| - 1;
      AddUnitsSnoc(ZSet(map[]), units);
      BuildZSet(units[..n]);
      var col, init := Column(units, 1), Column(units[..n], 1);
      assert col == init + [units[n][1]];
      var v, w := AddUnits(ZSet(map[]), units), AddUnits(ZSet(map[]), units[..n]);
      assert v.scores == w.scores[units[n][1] := units[n][0]];
      if Distinct(col) {
        assert Distinct(init) by {
          forall i, j | 0 <= i < j < n ensures init[i] != init[j] { assert init[i] == col[i] && init[j] == col[j]; }
        }
        forall i | 0 <= i < n ensures v.scores[col[i]] == units[i][0] {
          assert init[i] == col[i] != col[n] && units[..n][i] == units[i];
        }
      }
    }
  }

  lemma MapsAgree(a: map<Bytes, Bytes>, b: map<Bytes, Bytes>, keys: seq<Bytes>)
    requires a.Keys == b.Keys == (set x | x in keys)
    requires forall i :: 0 <= i < |keys| ==> a[keys[i]] == b[keys[i]]
    ensures a == b
  {
    forall k | k in a ensures a[k] == b[k] {
      assert k in a.Keys;
      var i :| 0 <= i < |keys| && keys[i] == k;
    }
  }

  /** Adding the visited elements one by one to an empty collection gives the collection back. */
  lemma BuildValue(units: seq<Argv>, v: Value)
    requires !v.Str? && Visits(units, v)
    ensures AddUnits(EmptyOf(KindOf(v)), units) == v
  {
    hide AddUnits;
    match v
    case List(_) => BuildList(units);
    case Set(_) => BuildSet(units);
    case Hash(fields) =>
      BuildHash(units);
      MapsAgree(AddUnits(Hash(map[]), units).fields, fields, Column(units, 0));
    case ZSet(scores) =>
      BuildZSet(units);
      MapsAgree(AddUnits(ZSet(map[]), units).scores, scores, Column(units, 1));
  }

  // ------------------------------------------------------------- batches of elements

  /** The state with the selected database replaced. */
  function With(s: State, db: Db): State
    requires s.selected < |s.dbs|
  {
    s.(dbs := s.dbs[s.selected := db])
  }

  lemma PushToConcat(db: Db, kind: Kind, key: Bytes, a: seq<Argv>, b: seq<Argv>)
    requires Shaped(a, kind) && Shaped(b, kind)
    ensures PushTo(PushTo(db, kind, key, a), kind, key, b) == PushTo(db, kind, key, a + b)
  {
    hide AddUnits;
    AddUnitsConcat(EmptyOf(kind), a, b);
    if key in db && !db[key].value.Str? && KindOf(db[key].value) == kind {
      AddUnitsConcat(db[key].value, a, b);
    }
  }

  lemma ExecutePush(s: State, kind: Kind, key: Bytes, units: seq<Argv>)
    requires s.selected < |s.dbs| && units != [] && Shaped(units, kind)
    ensures Execute(s, [NameOf(kind), key] + Flat(units))
         == With(s, PushTo(s.dbs[s.selected], kind, key, units))
  {
    hide Decode, PushTo, Flat, NameOf;
    DecodePush(kind, key, units);
  }

  /** However a collection is cut into batches, the batches together add all its elements. */
  lemma {:induction false} ExecuteBatches(s: State, kind: Kind, key: Bytes, units: seq<Argv>)
    requires s.selected < |s.dbs| && units != [] && Shaped(units, kind)
    ensures ExecuteAll(s, Batches(kind, key, units)) == With(s, PushTo(s.dbs[s.selected], kind, key, units))
    decreases |units|
  {
    hide Execute, PushTo, Flat, NameOf;
    var n := if |units| > ITEMS_PER_CMD then ITEMS_PER_CMD else |units|;
    var a, b := units[..n], units[n..];
    var first, rest := [NameOf(kind), key] + Flat(a), Batches(kind, key, b);
    assert Batches(kind, key, units) == [first] + rest && ([first] + rest)[1..] == rest;
    ExecutePush(s, kind, key, a);
    var t := With(s, PushTo(s.dbs[s.selected], kind, key, a));
    assert units == a + b;
    if b == [] {
      assert a == units;
    } else {
      ExecuteBatches(t, kind, key, b);
      PushToConcat(s.dbs[s.selected], kind, key, a, b);
    }
  }

  // ---------------------------------------------------------------- entries, databases

  lemma ExecuteValue(s: State, visit: Visit, e: Entry)
    requires s.selected < |s.dbs| && visit.key !in s.dbs[s.selected] && VisitsEntry(visit, e)
    ensures ExecuteAll(s, ValueCommands(visit.key, e.value, visit.units))
         == With(s, s.dbs[s.selected][visit.key := Entry(e.value, NO_EXPIRE)])
  {
    VisitShaped(visit, e);
    hide Batches, Decode, Visits, AddUnits;
    if e.value.Str? {
      DecodeOthers(visit.key, e.value.text, 0);
      var set' := ["SET", visit.key, e.value.text];
      assert ExecuteAll(s, [set']) == ExecuteAll(Execute(s, set'), []);
    } else {
      ExecuteBatches(s, KindOf(e.value), visit.key, visit.units);
      BuildValue(visit.units, e.value);
    }
  }

  lemma ExecuteExpire(s: State, key: Bytes, expire: int)
    requires s.selected < |s.dbs| && key in s.dbs[s.selected] && s.dbs[s.selected][key].expire == NO_EXPIRE
    requires -LONG_LIMIT <= expire < LONG_LIMIT
    ensures ExecuteAll(s, ExpireCommands(key, expire))
         == With(s, s.dbs[s.selected][key := s.dbs[s.selected][key].(expire := expire)])
  {
    hide Decode, PrintInt;
    var db := s.dbs[s.selected];
    if expire == NO_EXPIRE {
      assert db[key := db[key].(expire := expire)] == db;
    } else {
      DecodeOthers(key, "", expire);
      var argv := ["PEXPIREAT", key, PrintInt(expire)];
      assert ExecuteAll(s, [argv]) == ExecuteAll(Execute(s, argv), []);
    }
  }

  lemma ExecuteEntry(s: State, visit: Visit, e: Entry)
    requires s.selected < |s.dbs| && visit.key !in s.dbs[s.selected] && VisitsEntry(visit, e)
    ensures ExecuteAll(s, EntryCommands(visit, e)) == With(s, s.dbs[s.selected][visit.key := e])
  {
    hide ValueCommands, ExpireCommands, ExecuteAll;
    var db := s.dbs[s.selected];
    ExecuteValue(s, visit, e);
    var t := With(s, db[visit.key := Entry(e.value, NO_EXPIRE)]);
    ExecuteExpire(t, visit.key, e.expire);
    ExecuteAllConcat(s, ValueCommands(visit.key, e.value, visit.units), ExpireCommands(visit.key, e.expire));
    var db' := db[visit.key := Entry(e.value, NO_EXPIRE)];
    assert db'[visit.key := db'[visit.key].(expire := e.expire)] == db[visit.key := e];
    assert s.dbs[s.selected := db'][s.selected := db[visit.key := e]] == s.dbs[s.selected := db[visit.key := e]];
  }

  /** `cur` with the entries of `db` for the visited keys added. */
  ghost function Merged(cur: Db, order: seq<Visit>, db: Db): Db
    requires forall i :: 0 <= i < |order| ==> order[i].key in db
    decreases |order|
  {
    if order == [] then cur else Merged(cur[order[0].key := db[order[0].key]], order[1..], db)
  }

  lemma {:induction false} ExecuteDb(s: State, order: seq<Visit>, db: Db)
    requires s.selected < |s.dbs| && Distinct(KeysOf(order))
    requires forall i :: 0 <= i < |order| ==> order[i].key in db && VisitsEntry(order[i], db[order[i].key])
    requires forall i :: 0 <= i < |order| ==> order[i].key !in s.dbs[s.selected]
    ensures ExecuteAll(s, DbCommands(order, db)) == With(s, Merged(s.dbs[s.selected], order, db))
    decreases |order|
  {
    hide EntryCommands, VisitsEntry;
    var cur := s.dbs[s.selected];
    if order == [] {
      assert s.dbs[s.selected := cur] == s.dbs;
    } else {
      var key := order[0].key;
      ExecuteEntry(s, order[0], db[key]);
      ExecuteAllConcat(s, EntryCommands(order[0], db[key]), DbCommands(order[1..], db));
      var t := With(s, cur[key := db[key]]);
      forall i | 0 <= i < |order[1..]| ensures order[1..][i].key !in t.dbs[t.selected] {
        assert order[1..][i] == order[i + 1] && KeysOf(order)[0] != KeysOf(order)[i + 1];
      }
      assert Distinct(KeysOf(order[1..])) by {
        assert KeysOf(order[1..]) == KeysOf(order)[1..];
      }
      ExecuteDb(t, order[1..], db);
    }
  }

  lemma {:induction false} MergedAll(cur: Db, order: seq<Visit>, db: Db)
    requires forall i :: 0 <= i < |order| ==> order[i].key in db
    ensures var m := Merged(cur, order, db);
            m.Keys == cur.Keys + (set k | k in KeysOf(order))
            && (forall k :: k in KeysOf(order) ==> m[k] == db[k])
            && (forall k :: k in cur && k !in KeysOf(order) ==> m[k] == cur[k])
    decreases |order|
  {
    if order != [] {
      var key := order[0].key;
      MergedAll(cur[key := db[key]], order[1..], db);
      assert KeysOf(order) == [key] + KeysOf(order[1..]);
    }
  }

  lemma MergedIsDb(order: seq<Visit>, db: Db)
    requires VisitsDb(order, db)
    ensures Merged(map[], order, db) == db
  {
    MergedAll(map[], order, db);
  }

  // ---------------------------------------------------------------- the whole dataset

  /** Databases below `from` are done, the others still empty. */
  predicate Partial(s: State, dbs: seq<Db>, from: nat) {
    |s.dbs| == |dbs| && s.selected < |dbs|
    && forall j :: 0 <= j < |dbs| ==> s.dbs[j] == if j < from then dbs[j] else map[]
  }

  lemma ExecuteOneDb(s: State, orders: seq<seq<Visit>>, dbs: seq<Db>, from: nat)
    requires VisitsAll(orders, dbs) && from < |dbs| && orders[from] != [] && Partial(s, dbs, from)
    ensures VisitsDb(orders[from], dbs[from])
    ensures Partial(ExecuteAll(s, [["SELECT", PrintInt(from)]] + DbCommands(orders[from], dbs[from])), dbs, from + 1)
  {
    hide DbCommands, VisitsEntry, PrintInt, Decode, Distinct;
    assert VisitsDb(orders[from], dbs[from]);
    var select, body := ["SELECT", PrintInt(from)], DbCommands(orders[from], dbs[from]);
    DecodeOthers("", "", from);
    var t := s.(selected := from);
    assert Execute(s, select) == t;
    assert ([select] + body)[1..] == body;
    ExecuteDb(t, orders[from], dbs[from]);
    MergedIsDb(orders[from], dbs[from]);
  }

  lemma {:induction false} ExecuteDump(s: State, orders: seq<seq<Visit>>, dbs: seq<Db>, from: nat)
    requires VisitsAll(orders, dbs) && from <= |dbs| && Partial(s, dbs, from)
    requires forall j, i :: 0 <= j < |dbs| && 0 <= i < |orders[j]| ==> orders[j][i].key in dbs[j]
    ensures ExecuteAll(s, Dump(orders, dbs, from)).dbs == dbs
    decreases |dbs| - from
  {
    hide DbCommands, VisitsDb, PrintInt, Execute;
    if from < |dbs| {
      var rest := Dump(orders, dbs, from + 1);
      if orders[from] == [] {
        assert VisitsDb(orders[from], dbs[from]);
        EmptyOrder(dbs[from]);
        assert [] + rest == rest;
        ExecuteDump(s, orders, dbs, from + 1);
      } else {
        var here := [["SELECT", PrintInt(from)]] + DbCommands(orders[from], dbs[from]);
        ExecuteOneDb(s, orders, dbs, from);
        ExecuteAllConcat(s, here, rest);
        ExecuteDump(ExecuteAll(s, here), orders, dbs, from + 1);
      }
    }
  }

  lemma EmptyOrder(db: Db)
    requires VisitsDb([], db)
    ensures db == map[]
  {
    assert KeysOf([]) == [];
  }

  /** Executing a rewritten log on an empty server, whatever database is selected, rebuilds the dataset. */
  lemma DumpRebuilds(orders: seq<seq<Visit>>, dbs: seq<Db>, selected: nat)
    requires VisitsAll(orders, dbs) && selected < |dbs|
    requires forall j, i :: 0 <= j < |dbs| && 0 <= i < |orders[j]| ==> orders[j][i].key in dbs[j]
    ensures ExecuteAll(State(seq(|dbs|, _ => map[]), selected), Dump(orders, dbs, 0)).dbs == dbs
  {
    ExecuteDump(State(seq(|dbs|, _ => map[]), selected), orders, dbs, 0);
  }

  // ------------------------------------------------------------ through the file's bytes

  predicate Short(xs: Argv) { forall i :: 0 <= i < |xs| ==> |xs[i]| < LONG_LIMIT }

  /** Strings stay within what a length header can say. */
  predicate ShortEntry(visit: Visit, e: Entry) {
    |visit.key| < LONG_LIMIT
    && if e.value.Str? then |e.value.text| < LONG_LIMIT
       else forall i :: 0 <= i < |visit.units| ==> Short(visit.units[i])
  }

  ghost predicate ShortAll(orders: seq<seq<Visit>>, dbs: seq<Db>) {
    VisitsAll(orders, dbs)
    && forall j, i :: 0 <= j < |dbs| && 0 <= i < |orders[j]| ==>
         orders[j][i].key in dbs[j] && ShortEntry(orders[j][i], dbs[j][orders[j][i].key])
  }

  /** A command that can be written and looked up, and is no transaction command; a SELECT names one of
      `n` databases. */
  predicate Plain(argv: Argv, n: nat) {
    Fits(argv)
    && (Lookup(argv) == Loader.Other || (Lookup(argv) == Loader.Select && |argv| == 2 && 0 <= Strtol(argv[1]) < n))
  }

  predicate AllPlain(log: seq<Argv>, n: nat) { forall i :: 0 <= i < |log| ==> Plain(log[i], n) }

  lemma {:induction false} SettledPlain(log: seq<Argv>, n: nat)
    requires AllPlain(log, n)
    ensures Loader.Sound(log, Lookup) && Loader.Settled(log, Lookup) == log && !Loader.EndsInMulti(log, Lookup)
  {
    hide Lookup, Fits, Strtol;
    forall i | 0 <= i < |log| ensures Fits(log[i]) && Lookup(log[i]) != Loader.Unknown && Lookup(log[i]) != Loader.Multi {
      assert Plain(log[i], n);
    }
    if log != [] {
      assert Plain(log[0], n);
      SettledPlain(log[1..], n);
    }
  }

  lemma {:induction false} FlatShort(units: seq<Argv>)
    requires forall i :: 0 <= i < |units| ==> Short(units[i])
    ensures Short(Flat(units))
  {
    if units != [] { FlatShort(units[1..]); }
  }

  lemma {:induction false} BatchesPlain(kind: Kind, key: Bytes, units: seq<Argv>, dbnum: nat)
    requires Shaped(units, kind) && |key| < LONG_LIMIT && forall i :: 0 <= i < |units| ==> Short(units[i])
    ensures AllPlain(Batches(kind, key, units), dbnum)
    decreases |units|
  {
    hide Flat, Lookup, Strtol;
    if units != [] {
      var n := if |units| > ITEMS_PER_CMD then ITEMS_PER_CMD else |units|;
      var body := Flat(units[..n]);
      FlatShort(units[..n]);
      SplitFlat(units[..n], Width(kind));
      PushIsKnown(kind, key, body);
      assert Plain([NameOf(kind), key] + body, dbnum);
      BatchesPlain(kind, key, units[n..], dbnum);
    }
  }

  lemma PushIsKnown(kind: Kind, key: Bytes, body: Argv)
    ensures Lookup([NameOf(kind), key] + body) == Loader.Other
  {
    assert ([NameOf(kind), key] + body)[0] == NameOf(kind);
    NamesDiffer(kind);
  }

  lemma OthersAreKnown(key: Bytes, text: Bytes, n: int, dbnum: nat)
    requires |key| < LONG_LIMIT && |text| < LONG_LIMIT && -LONG_LIMIT <= n < LONG_LIMIT
    ensures Plain(["SET", key, text], dbnum) && Plain(["PEXPIREAT", key, PrintInt(n)], dbnum)
    ensures 0 <= n < dbnum ==> Plain(["SELECT", PrintInt(n)], dbnum)
  {
    assert Same("SET", "set") && Same("PEXPIREAT", "pexpireat") && Same("SELECT", "select");
    assert |PrintInt(n)| < 100 by {
      PrintLength(if n < 0 then -n else n, 19) by { assert Pow10(19) == 10_000_000_000_000_000_000 by { Pow19(); } }
    }
    PrintIntRoundTrip(n);
    hide PrintInt, Strtol;
  }

  lemma Pow19()
    ensures Pow10(19) == 10_000_000_000_000_000_000
  {
    assert Pow10(5) == 100_000 && Pow10(9) == 1_000_000_000 && Pow10(13) == 10_000_000_000_000;
    assert Pow10(17) == 100_000_000_000_000_000;
  }

  lemma EntryPlain(visit: Visit, e: Entry, dbnum: nat)
    requires VisitsEntry(visit, e) && ShortEntry(visit, e)
    ensures AllPlain(EntryCommands(visit, e), dbnum)
  {
    VisitShaped(visit, e);
    hide Plain, Batches, Visits;
    OthersAreKnown(visit.key, if e.value.Str? then e.value.text else "", e.expire, dbnum);
    if !e.value.Str? { BatchesPlain(KindOf(e.value), visit.key, visit.units, dbnum); }
  }

  lemma {:induction false} DbPlain(order: seq<Visit>, db: Db, dbnum: nat)
    requires forall i :: 0 <= i < |order| ==>
               order[i].key in db && VisitsEntry(order[i], db[order[i].key]) && ShortEntry(order[i], db[order[i].key])
    ensures AllPlain(DbCommands(order, db), dbnum)
  {
    hide Plain, VisitsEntry, ShortEntry, EntryCommands;
    if order != [] {
      EntryPlain(order[0], db[order[0].key], dbnum);
      DbPlain(order[1..], db, dbnum);
    }
  }

  lemma {:induction false} DumpPlain(orders: seq<seq<Visit>>, dbs: seq<Db>, from: nat)
    requires ShortAll(orders, dbs) && from <= |dbs|
    ensures AllPlain(Dump(orders, dbs, from), |dbs|)
    decreases |dbs| - from
  {
    hide Plain, VisitsEntry, ShortEntry, DbCommands, Distinct;
    if from < |dbs| {
      assert VisitsDb(orders[from], dbs[from]);
      DbPlain(orders[from], dbs[from], |dbs|);
      OthersAreKnown("", "", from, |dbs|);
      DumpPlain(orders, dbs, from + 1);
    }
  }

  /** Rewriting and loading a dataset gives it back: for every dataset of strings and non-empty
      collections over any number of databases, every iteration order of its containers, every
      loader setting and every database selected at the start. */
  lemma RewriteRoundTrip(orders: seq<seq<Visit>>, dbs: seq<Db>, selected: nat, cfg: Loader.Config)
    requires ShortAll(orders, dbs) && selected < |dbs| && cfg.table == Lookup
    ensures var r := Loader.Load(EncodeLog(Dump(orders, dbs, 0)), cfg);
            (r.status == Loader.Ok || r.status == Loader.Empty)
            && ExecuteAll(State(seq(|dbs|, _ => map[]), selected), r.executed).dbs == dbs
  {
    hide Loader.Load, EncodeLog, Dump, VisitsDb, Loader.Settled, Loader.EndsInMulti;
    DumpPlain(orders, dbs, 0);
    SettledPlain(Dump(orders, dbs, 0), |dbs|);
    Loader.LoadClosedLog(Dump(orders, dbs, 0), cfg);
    DumpRebuilds(orders, dbs, selected);
  }
}
