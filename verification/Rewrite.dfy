/**
 `rewriteAppendOnlyFileRio`: compiling a dataset into a log that rebuilds it,
 collections in batches of at most ITEMS_PER_CMD elements.
 */
module Rewrite {
  import opened Decimal
  import opened Resp
  import opened Keyspace

  const ITEMS_PER_CMD: nat := 64

  // ---------------------------------------------------------- iteration orders

  /** One dictionary entry as the iterator meets it: its key, and the elements of its
      value in the order in which they are visited (none for a string). */
  datatype Visit = Visit(key: Bytes, units: seq<Argv>)

  predicate Distinct(xs: seq<Bytes>) {
    forall i, j :: 0 <= i < j < |xs| ==> xs[i] != xs[j]
  }

  function Column(units: seq<Argv>, c: nat): (xs: seq<Bytes>)
    requires forall i :: 0 <= i < |units| ==> c < |units[i]|
    ensures |xs| == |units|
  {
    seq(|units|, i requires 0 <= i < |units| => units[i][c])
  }

  /** `units` visits every element of the collection `v`, each once. */
  ghost predicate Visits(units: seq<Argv>, v: Value)
    requires !v.Str?
  {
    Shaped(units, KindOf(v))
    && match v
       case List(items) => items == Column(units, 0)
       case Set(members) =>
         Distinct(Column(units, 0)) && members == set x | x in Column(units, 0)
       case Hash(fields) =>
         Distinct(Column(units, 0)) && fields.Keys == (set x | x in Column(units, 0))
         && forall i :: 0 <= i < |units| ==> fields[Column(units, 0)[i]] == units[i][1]
       case ZSet(scores) =>
         Distinct(Column(units, 1)) && scores.Keys == (set x | x in Column(units, 1))
         && forall i :: 0 <= i < |units| ==> scores[Column(units, 1)[i]] == units[i][0]
  }

  /** No collection is kept empty. */
  predicate Inhabited(v: Value) {
    match v
    case Str(_) => true
    case List(items) => items != []
    case Set(members) => members != {}
    case Hash(fields) => fields != map[]
    case ZSet(scores) => scores != map[]
  }

  ghost predicate VisitsEntry(v: Visit, e: Entry) {
    Inhabited(e.value) && -LONG_LIMIT <= e.expire < LONG_LIMIT
    && (e.value.Str? || Visits(v.units, e.value))
  }

  function KeysOf(order: seq<Visit>): (ks: seq<Bytes>)
    ensures |ks| == |order|
  {
    seq(|order|, i requires 0 <= i < |order| => order[i].key)
  }

  /** `order` is a full iteration over the dictionary `db`. */
  ghost predicate VisitsDb(order: seq<Visit>, db: Db) {
    Distinct(KeysOf(order))
    && db.Keys == (set k | k in KeysOf(order))
    && forall i :: 0 <= i < |order| ==> order[i].key in db && VisitsEntry(order[i], db[order[i].key])
  }

  ghost predicate VisitsAll(orders: seq<seq<Visit>>, dbs: seq<Db>) {
    |orders| == |dbs| < INT_LIMIT
    && forall j :: 0 <= j < |dbs| ==> VisitsDb(orders[j], dbs[j])
  }

  // ---------------------------------------------------------- the emitted commands

  /** Batches of at most ITEMS_PER_CMD elements. */
  function Batches(kind: Kind, key: Bytes, units: seq<Argv>): seq<Argv>
    decreases |units|
  {
    if units == [] then []
    else
      var n := if |units| > ITEMS_PER_CMD then ITEMS_PER_CMD else |units|;
      [[NameOf(kind), key] + Flat(units[..n])] + Batches(kind, key, units[n..])
  }

  /** Every command but the last of a collection carries 64 elements, and the last what is left. */
  lemma {:induction false} BatchSizes(kind: Kind, key: Bytes, units: seq<Argv>)
    requires Shaped(units, kind)
    ensures var b, w := Batches(kind, key, units), Width(kind);
            64 * |b| < |units| + 64 && |units| <= 64 * |b|
            && (forall i :: 0 <= i < |b| - 1 ==> |b[i]| == 2 + 64 * w)
            && (b != [] ==> |b[|b| - 1]| == 2 + (|units| - 64 * (|b| - 1)) * w)
    decreases |units|
  {
    hide Flat, NameOf;
    if units != [] {
      var n, w := if |units| > ITEMS_PER_CMD then ITEMS_PER_CMD else |units|, Width(kind);
      SplitFlat(units[..n], w);
      var first, rest := [NameOf(kind), key] + Flat(units[..n]), Batches(kind, key, units[n..]);
      assert Batches(kind, key, units) == [first] + rest && |first| == 2 + n * w;
      BatchSizes(kind, key, units[n..]);
      if |units| <= 64 { assert units[n..] == [] && rest == []; }
    }
  }

  function ValueCommands(key: Bytes, v: Value, units: seq<Argv>): seq<Argv> {
    if v.Str? then [["SET", key, v.text]] else Batches(KindOf(v), key, units)
  }

  function ExpireCommands(key: Bytes, expire: int): seq<Argv> {
    if expire == NO_EXPIRE then [] else [["PEXPIREAT", key, PrintInt(expire)]]
  }

  function EntryCommands(visit: Visit, e: Entry): seq<Argv> {
    ValueCommands(visit.key, e.value, visit.units) + ExpireCommands(visit.key, e.expire)
  }

  function DbCommands(order: seq<Visit>, db: Db): seq<Argv>
    requires forall i :: 0 <= i < |order| ==> order[i].key in db
  {
    if order == [] then []
    else EntryCommands(order[0], db[order[0].key]) + DbCommands(order[1..], db)
  }

  function Dump(orders: seq<seq<Visit>>, dbs: seq<Db>, from: nat): seq<Argv>
    requires |orders| == |dbs| && from <= |dbs|
    requires forall j, i :: 0 <= j < |dbs| && 0 <= i < |orders[j]| ==> orders[j][i].key in dbs[j]
    decreases |dbs| - from
  {
    if from == |dbs| then []
    else
      (if orders[from] == [] then [] else [["SELECT", PrintInt(from)]] + DbCommands(orders[from], dbs[from]))
      + Dump(orders, dbs, from + 1)
  }

  // ------------------------------------------------------------ the writing loops

  /** What is still to be written when `count` elements of the current batch are out. */
  ghost function Pending(kind: Kind, key: Bytes, units: seq<Argv>, count: nat): Bytes
    requires count < ITEMS_PER_CMD
  {
    if count == 0 then EncodeLog(Batches(kind, key, units)) else Rest(kind, key, units, Room(units, count))
  }

  /** How many of the coming elements still go into the open batch. */
  ghost function Room(units: seq<Argv>, count: nat): (n: nat)
    requires count < ITEMS_PER_CMD
    ensures n <= |units|
  {
    if |units| > ITEMS_PER_CMD - count then ITEMS_PER_CMD - count else |units|
  }

  /** `n` more elements of the open batch, then further batches. */
  ghost function Rest(kind: Kind, key: Bytes, units: seq<Argv>, n: nat): Bytes
    requires n <= |units|
  {
    EncodeArgs(Flat(units[..n])) + EncodeLog(Batches(kind, key, units[n..]))
  }

  lemma {:induction false} EncodeArgsConcat(a: Argv, b: Argv)
    ensures EncodeArgs(a + b) == EncodeArgs(a) + EncodeArgs(b)
  {
    hide EncodeArg;
    if a == [] {
      assert a + b == b;
    } else {
      assert (a + b)[1..] == a[1..] + b;
      EncodeArgsConcat(a[1..], b);
    }
  }

  /** Opening a batch writes its header, its name and its key. */
  lemma OpenBatch(kind: Kind, key: Bytes, units: seq<Argv>)
    requires units != [] && Shaped(units, kind)
    ensures Pending(kind, key, units, 0) == Opening(kind, key, |units|) + Rest(kind, key, units, Room(units, 0))
  {
    hide EncodeArg, EncodeArgs, Encode, EncodeLog, Header, Flat, NameOf, Print;
    var n := if |units| > ITEMS_PER_CMD then ITEMS_PER_CMD else |units|;
    var body := Flat(units[..n]);
    SplitFlat(units[..n], Width(kind));
    var argv, rest := [NameOf(kind), key] + body, Batches(kind, key, units[n..]);
    FirstCommand(argv, rest);
    CommandText(NameOf(kind), key, body);
    Grouped(Opening(kind, key, |units|), EncodeArgs(body), EncodeLog(rest));
  }

  lemma FirstCommand(argv: Argv, rest: seq<Argv>)
    ensures EncodeLog([argv] + rest) == Encode(argv) + EncodeLog(rest)
  {
    hide Encode;
    assert ([argv] + rest)[1..] == rest;
  }

  lemma CommandText(name: Bytes, key: Bytes, body: Argv)
    ensures Encode([name, key] + body) == (Header(2 + |body|) + EncodeArg(name) + EncodeArg(key)) + EncodeArgs(body)
  {
    hide EncodeArg, Header, EncodeArgs;
    OneByOne(name, key, body);
    FirstArg(name, [key] + body);
    FirstArg(key, body);
    FourParts(Header(2 + |body|), EncodeArg(name), EncodeArg(key), EncodeArgs(body));
  }

  lemma OneByOne(name: Bytes, key: Bytes, body: Argv)
    ensures [name, key] + body == [name] + ([key] + body)
  {}

  lemma FirstArg(arg: Bytes, rest: Argv)
    ensures EncodeArgs([arg] + rest) == EncodeArg(arg) + EncodeArgs(rest)
  {
    hide EncodeArg;
    assert ([arg] + rest)[1..] == rest;
  }

  lemma FourParts(a: Bytes, b: Bytes, c: Bytes, d: Bytes)
    ensures a + (b + (c + d)) == ((a + b) + c) + d
  {}

  lemma Grouped(a: Bytes, b: Bytes, c: Bytes)
    ensures (a + b) + c == a + (b + c)
  {}

  /** Writing one element inside a batch of `n` more. */
  lemma WriteUnit(kind: Kind, key: Bytes, units: seq<Argv>, n: nat)
    requires 0 < n <= |units|
    ensures Rest(kind, key, units, n) == EncodeArgs(units[0]) + Rest(kind, key, units[1..], n - 1)
  {
    hide EncodeArg, Batches, EncodeLog;
    assert units[..n][1..] == units[1..][..n - 1] && units[1..][n - 1..] == units[n..];
    EncodeArgsConcat(units[0], Flat(units[1..][..n - 1]));
  }

  /** After one element the count goes up, or back to zero when the batch is full. */
  lemma NextPending(kind: Kind, key: Bytes, units: seq<Argv>, count: nat)
    requires units != [] && count < ITEMS_PER_CMD
    ensures Room(units, count) > 0
    ensures Pending(kind, key, units[1..], if count + 1 == ITEMS_PER_CMD then 0 else count + 1)
         == Rest(kind, key, units[1..], Room(units, count) - 1)
  {
    hide EncodeArg, Batches, EncodeLog;
    if count + 1 == ITEMS_PER_CMD {
      assert units[1..][..0] == [] && units[1..][0..] == units[1..];
    }
  }

  lemma NothingPending(kind: Kind, key: Bytes, count: nat)
    requires count < ITEMS_PER_CMD
    ensures Pending(kind, key, [], count) == ""
  {}

  function Opening(kind: Kind, key: Bytes, items: nat): Bytes {
    Header(2 + (if items > ITEMS_PER_CMD then ITEMS_PER_CMD else items) * Width(kind))
    + EncodeArg(NameOf(kind)) + EncodeArg(key)
  }

  /** One turn of the loop writes exactly the front of what is pending. */
  lemma PendingStep(kind: Kind, key: Bytes, rest: seq<Argv>, count: nat)
    requires rest != [] && Shaped(rest, kind) && count < ITEMS_PER_CMD
    ensures var next := if count + 1 == ITEMS_PER_CMD then 0 else count + 1;
            Pending(kind, key, rest, count)
            == (if count == 0 then Opening(kind, key, |rest|) else "") + EncodeArgs(rest[0])
               + Pending(kind, key, rest[1..], next)
  {
    hide Rest, EncodeLog, Batches, EncodeArgs, Opening;
    NextPending(kind, key, rest, count);
    WriteUnit(kind, key, rest, Room(rest, count));
    if count == 0 { OpenBatch(kind, key, rest); }
  }

  /** The common loop of `rewriteListObject`, `rewriteSetObject`, `rewriteSortedSetObject` and
      `rewriteHashObject`: `count` elements are out in the open batch, `items` are still to come. */
  method RewriteCollection(aof: Bytes, kind: Kind, key: Bytes, units: seq<Argv>) returns (out: Bytes)
    requires Shaped(units, kind)
    ensures out == aof + EncodeLog(Batches(kind, key, units))
  {
    hide EncodeArg, Header, Flat, Batches, EncodeLog, NameOf, EncodeArgs, Pending;
    out := aof;
    var count, items, i := 0, |units|, 0;
    assert units[0..] == units && Pending(kind, key, units, 0) == EncodeLog(Batches(kind, key, units)) by {
      PendingStart(kind, key, units);
    }
    while i < |units|
      invariant 0 <= i <= |units| && items == |units| - i && 0 <= count < ITEMS_PER_CMD
      invariant out + Pending(kind, key, units[i..], count) == aof + EncodeLog(Batches(kind, key, units))
    {
      ghost var rest := units[i..];
      PendingStep(kind, key, rest, count);
      assert rest[1..] == units[i + 1..] && rest[0] == units[i];
      ghost var opening := if count == 0 then Opening(kind, key, items) else "";
      ghost var later := Pending(kind, key, units[i + 1..], if count + 1 == ITEMS_PER_CMD then 0 else count + 1);
      FourParts(out, opening, EncodeArgs(units[i]), later);
      Grouped(opening, EncodeArgs(units[i]), later);
      if count == 0 {
        var cmdItems := if items > ITEMS_PER_CMD then ITEMS_PER_CMD else items;
        out := out + (Header(2 + cmdItems * Width(kind)) + EncodeArg(NameOf(kind)) + EncodeArg(key));
      }
      out := out + EncodeArgs(units[i]);
      count := count + 1;
      if count == ITEMS_PER_CMD { count := 0; }
      items := items - 1;
      i := i + 1;
    }
    assert units[i..] == [];
    NothingPending(kind, key, count);
  }

  lemma PendingStart(kind: Kind, key: Bytes, units: seq<Argv>)
    ensures Pending(kind, key, units, 0) == EncodeLog(Batches(kind, key, units))
  {}

  /** One entry of a database: its value, then its expire time when it has one. */
  method RewriteEntry(aof: Bytes, visit: Visit, e: Entry) returns (out: Bytes)
    requires !e.value.Str? ==> Shaped(visit.units, KindOf(e.value))
    ensures out == aof + EncodeLog(EntryCommands(visit, e))
  {
    hide Encode, Batches;
    var key := visit.key;
    if e.value.Str? {
      out := aof + Encode(["SET", key, e.value.text]);
      OneCommand(["SET", key, e.value.text]);
    } else {
      out := RewriteCollection(aof, KindOf(e.value), key, visit.units);
    }
    if e.expire != NO_EXPIRE {
      out := out + Encode(["PEXPIREAT", key, PrintInt(e.expire)]);
      OneCommand(["PEXPIREAT", key, PrintInt(e.expire)]);
    }
    EncodeLogConcat(ValueCommands(key, e.value, visit.units), ExpireCommands(key, e.expire));
  }

  lemma OneCommand(argv: Argv)
    ensures EncodeLog([argv]) == Encode(argv)
  {
    hide Encode;
    assert EncodeLog([argv]) == Encode(argv) + EncodeLog([]);
  }

  lemma DbStep(order: seq<Visit>, db: Db, i: nat)
    requires i < |order| && forall k :: 0 <= k < |order| ==> order[k].key in db
    ensures EncodeLog(DbCommands(order[i..], db))
         == EncodeLog(EntryCommands(order[i], db[order[i].key])) + EncodeLog(DbCommands(order[i + 1..], db))
  {
    hide EncodeLog, EntryCommands;
    var rest := order[i..];
    assert rest[1..] == order[i + 1..] && rest[0] == order[i];
    EncodeLogConcat(EntryCommands(order[i], db[order[i].key]), DbCommands(order[i + 1..], db));
  }

  method RewriteDb(aof: Bytes, order: seq<Visit>, db: Db) returns (out: Bytes)
    requires VisitsDb(order, db)
    ensures out == aof + EncodeLog(DbCommands(order, db))
  {
    hide EncodeLog, EntryCommands, DbCommands, Visits, Distinct;
    out := aof;
    var i := 0;
    assert order[0..] == order;
    while i < |order|
      invariant 0 <= i <= |order|
      invariant out + EncodeLog(DbCommands(order[i..], db)) == aof + EncodeLog(DbCommands(order, db))
    {
      DbStep(order, db, i);
      assert VisitsEntry(order[i], db[order[i].key]);
      VisitShaped(order[i], db[order[i].key]);
      out := RewriteEntry(out, order[i], db[order[i].key]);
      i := i + 1;
    }
    NoVisits(order, db);
  }

  lemma VisitShaped(v: Visit, e: Entry)
    requires VisitsEntry(v, e)
    ensures !e.value.Str? ==> Shaped(v.units, KindOf(e.value)) && v.units != []
  {}

  lemma NoVisits(order: seq<Visit>, db: Db)
    ensures order[|order|..] == [] && EncodeLog(DbCommands([], db)) == ""
  {}

  method RewriteAppendOnlyFileRio(orders: seq<seq<Visit>>, dbs: seq<Db>) returns (aof: Bytes)
    requires VisitsAll(orders, dbs)
    ensures aof == EncodeLog(Dump(orders, dbs, 0))
  {
    hide EncodeLog, DbCommands, Encode, VisitsDb, PrintInt, Dump;
    KeysPresent(orders, dbs);
    aof := "";
    var j := 0;
    while j < |dbs|
      invariant 0 <= j <= |dbs|
      invariant aof + EncodeLog(Dump(orders, dbs, j)) == EncodeLog(Dump(orders, dbs, 0))
    {
      DumpStep(orders, dbs, j);
      if |orders[j]| != 0 {
        aof := aof + Encode(["SELECT", PrintInt(j)]);
        aof := RewriteDb(aof, orders[j], dbs[j]);
      }
      j := j + 1;
    }
    DumpDone(orders, dbs);
  }

  lemma DumpDone(orders: seq<seq<Visit>>, dbs: seq<Db>)
    requires |orders| == |dbs|
    requires forall j, i :: 0 <= j < |dbs| && 0 <= i < |orders[j]| ==> orders[j][i].key in dbs[j]
    ensures EncodeLog(Dump(orders, dbs, |dbs|)) == ""
  {}

  lemma DumpStep(orders: seq<seq<Visit>>, dbs: seq<Db>, j: nat)
    requires |orders| == |dbs| && j < |dbs|
    requires forall j, i :: 0 <= j < |dbs| && 0 <= i < |orders[j]| ==> orders[j][i].key in dbs[j]
    ensures EncodeLog(Dump(orders, dbs, j))
         == (if orders[j] == [] then ""
             else Encode(["SELECT", PrintInt(j)]) + EncodeLog(DbCommands(orders[j], dbs[j])))
            + EncodeLog(Dump(orders, dbs, j + 1))
  {
    hide Encode, EncodeLog, DbCommands, PrintInt;
    var rest := Dump(orders, dbs, j + 1);
    if orders[j] == [] {
      assert [] + rest == rest;
    } else {
      var select, body := ["SELECT", PrintInt(j)], DbCommands(orders[j], dbs[j]);
      OneCommand(select);
      EncodeLogConcat([select], body);
      EncodeLogConcat([select] + body, rest);
    }
  }

  lemma KeysPresent(orders: seq<seq<Visit>>, dbs: seq<Db>)
    requires VisitsAll(orders, dbs)
    ensures forall j, i :: 0 <= j < |dbs| && 0 <= i < |orders[j]| ==> orders[j][i].key in dbs[j]
  {
    forall j, i | 0 <= j < |dbs| && 0 <= i < |orders[j]| ensures orders[j][i].key in dbs[j] {
      assert VisitsDb(orders[j], dbs[j]);
    }
  }

  // --------------------------------------------------------------- the commands, literally

  lemma OneBatch(kind: Kind, key: Bytes, unit: Argv)
    ensures Batches(kind, key, [unit]) == [[NameOf(kind), key] + unit]
  {
    hide NameOf;
    assert [unit][..1] == [unit] && [unit][1..] == [] && Flat([unit]) == unit + Flat([]) == unit;
    assert Batches(kind, key, []) == [];
  }

  /** What is written for small values: each type by its own command, fields before their values, scores before members. */
  lemma SmallValues()
    ensures ValueCommands("k", Str("v"), []) == [["SET", "k", "v"]]
    ensures ValueCommands("k", List(["a"]), [["a"]]) == [["RPUSH", "k", "a"]]
    ensures ValueCommands("k", Set({"a"}), [["a"]]) == [["SADD", "k", "a"]]
    ensures ValueCommands("k", Hash(map["f" := "v"]), [["f", "v"]]) == [["HMSET", "k", "f", "v"]]
    ensures ValueCommands("k", ZSet(map["m" := "1"]), [["1", "m"]]) == [["ZADD", "k", "1", "m"]]
    ensures ExpireCommands("k", -1) == [] && ExpireCommands("k", 7) == [["PEXPIREAT", "k", "7"]]
    ensures Visits([["f", "v"]], Hash(map["f" := "v"])) && Visits([["1", "m"]], ZSet(map["m" := "1"]))
  {
    hide Batches;
    OneBatch(KList, "k", ["a"]);
    OneBatch(KSet, "k", ["a"]);
    OneBatch(KHash, "k", ["f", "v"]);
    OneBatch(KZSet, "k", ["1", "m"]);
    assert Column([["f", "v"]], 0) == ["f"] && Column([["1", "m"]], 1) == ["m"];
    assert Print(7) == "7";
    assert ["RPUSH", "k"] + ["a"] == ["RPUSH", "k", "a"] && ["SADD", "k"] + ["a"] == ["SADD", "k", "a"];
    assert ["HMSET", "k"] + ["f", "v"] == ["HMSET", "k", "f", "v"] && ["ZADD", "k"] + ["1", "m"] == ["ZADD", "k", "1", "m"];
  }
}
