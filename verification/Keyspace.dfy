/**
 The dataset and the effect of the commands a rewritten log is made of.
 */
module Keyspace {
  import opened Decimal
  import opened Resp
  import Loader

  /** Scores are kept as the text that `%.17g` prints for them. */
  datatype Value =
    | Str(text: Bytes)
    | List(items: seq<Bytes>)
    | Set(members: set<Bytes>)
    | Hash(fields: map<Bytes, Bytes>)
    | ZSet(scores: map<Bytes, Bytes>)

  const NO_EXPIRE: int := -1

  /** `expire` is a time in milliseconds, or NO_EXPIRE, as `getExpire` reports it. */
  datatype Entry = Entry(value: Value, expire: int)

  type Db = map<Bytes, Entry>

  datatype State = State(dbs: seq<Db>, selected: nat)

  // -------------------------------------------------------------- collections

  datatype Kind = KList | KSet | KHash | KZSet

  function KindOf(v: Value): Kind
    requires !v.Str?
  {
    match v case List(_) => KList case Set(_) => KSet case Hash(_) => KHash case ZSet(_) => KZSet
  }

  /** Arguments that one element of a collection takes in a command. */
  function Width(kind: Kind): nat {
    if kind.KList? || kind.KSet? then 1 else 2
  }

  function EmptyOf(kind: Kind): (v: Value)
    ensures !v.Str? && KindOf(v) == kind
  {
    match kind
    case KList => List([]) case KSet => Set({}) case KHash => Hash(map[]) case KZSet => ZSet(map[])
  }

  predicate Shaped(units: seq<Argv>, kind: Kind) {
    forall i :: 0 <= i < |units| ==> |units[i]| == Width(kind)
  }

  function AddUnit(v: Value, unit: Argv): (r: Value)
    requires !v.Str? && |unit| == Width(KindOf(v))
    ensures !r.Str? && KindOf(r) == KindOf(v)
  {
    match v
    case List(items) => List(items + [unit[0]])
    case Set(members) => Set(members + {unit[0]})
    case Hash(fields) => Hash(fields[unit[0] := unit[1]])
    case ZSet(scores) => ZSet(scores[unit[1] := unit[0]])
  }

  function AddUnits(v: Value, units: seq<Argv>): (r: Value)
    requires !v.Str? && Shaped(units, KindOf(v))
    ensures !r.Str? && KindOf(r) == KindOf(v)
    decreases |units|
  {
    if units == [] then v else AddUnits(AddUnit(v, units[0]), units[1..])
  }

  /** Arguments side by side, and split again into elements of `w` arguments. */
  function Flat(units: seq<Argv>): Argv {
    if units == [] then [] else units[0] + Flat(units[1..])
  }

  function Split(args: Argv, w: nat): (units: seq<Argv>)
    requires w > 0
    ensures forall i :: 0 <= i < |units| ==> |units[i]| == w
  {
    if |args| < w then [] else [args[..w]] + Split(args[w..], w)
  }

  // ------------------------------------------------------------------ commands

  datatype Op =
    | Switch(db: int)
    | SetText(key: Bytes, text: Bytes)
    | Push(kind: Kind, key: Bytes, units: seq<Argv>)
    | ExpireAt(key: Bytes, at: int)
    | Nothing

  predicate Same(name: Bytes, lower: Bytes) {
    |name| == |lower|
    && forall i :: 0 <= i < |name| ==>
         name[i] == lower[i] || ('A' <= name[i] <= 'Z' && name[i] as int + 32 == lower[i] as int)
  }

  function PushOp(kind: Kind, argv: Argv): (op: Op)
    ensures op.Push? || op == Nothing
  {
    if |argv| < 3 || (|argv| - 2) % Width(kind) != 0 then Nothing
    else Push(kind, argv[1], Split(argv[2..], Width(kind)))
  }

  function Decode(argv: Argv): Op {
    if argv == [] then Nothing
    else if Same(argv[0], "rpush") then PushOp(KList, argv)
    else if Same(argv[0], "sadd") then PushOp(KSet, argv)
    else if Same(argv[0], "hmset") then PushOp(KHash, argv)
    else if Same(argv[0], "zadd") then PushOp(KZSet, argv)
    else if Same(argv[0], "set") && |argv| == 3 then SetText(argv[1], argv[2])
    else if Same(argv[0], "pexpireat") && |argv| == 3 then ExpireAt(argv[1], Strtol(argv[2]))
    else if Same(argv[0], "select") && |argv| == 2 then Switch(Strtol(argv[1]))
    else Nothing
  }

  /** Adding elements to a key; a key of another type makes the command an error without effect. */
  function PushTo(db: Db, kind: Kind, key: Bytes, units: seq<Argv>): Db
    requires Shaped(units, kind)
  {
    if key !in db then db[key := Entry(AddUnits(EmptyOf(kind), units), NO_EXPIRE)]
    else if db[key].value.Str? || KindOf(db[key].value) != kind then db
    else db[key := db[key].(value := AddUnits(db[key].value, units))]
  }

  function ApplyTo(db: Db, op: Op): Db
    requires op.Push? ==> Shaped(op.units, op.kind)
  {
    match op
    case SetText(key, text) => db[key := Entry(Str(text), NO_EXPIRE)]
    case Push(kind, key, units) => PushTo(db, kind, key, units)
    case ExpireAt(key, at) => if key in db then db[key := db[key].(expire := at)] else db
    case _ => db
  }

  function Apply(s: State, op: Op): (r: State)
    requires s.selected < |s.dbs| && (op.Push? ==> Shaped(op.units, op.kind))
    ensures r.selected < |r.dbs| == |s.dbs|
  {
    if op.Switch? then (if 0 <= op.db < |s.dbs| then s.(selected := op.db) else s)
    else s.(dbs := s.dbs[s.selected := ApplyTo(s.dbs[s.selected], op)])
  }

  function Execute(s: State, argv: Argv): (r: State)
    requires s.selected < |s.dbs|
    ensures r.selected < |r.dbs| == |s.dbs|
  {
    Apply(s, Decode(argv))
  }

  function ExecuteAll(s: State, log: seq<Argv>): (r: State)
    requires s.selected < |s.dbs|
    ensures r.selected < |r.dbs| == |s.dbs|
    decreases |log|
  {
    if log == [] then s else ExecuteAll(Execute(s, log[0]), log[1..])
  }

  lemma {:induction false} ExecuteAllConcat(s: State, a: seq<Argv>, b: seq<Argv>)
    requires s.selected < |s.dbs|
    ensures ExecuteAll(s, a + b) == ExecuteAll(ExecuteAll(s, a), b)
    decreases |a|
  {
    hide Execute;
    if a == [] {
      assert a + b == b;
    } else {
      assert (a + b)[1..] == a[1..] + b;
      ExecuteAllConcat(Execute(s, a[0]), a[1..], b);
    }
  }

  // ----------------------------------------------------- decoding what is emitted

  function NameOf(kind: Kind): Bytes {
    match kind case KList => "RPUSH" case KSet => "SADD" case KHash => "HMSET" case KZSet => "ZADD"
  }

  lemma {:induction false} SplitFlat(units: seq<Argv>, w: nat)
    requires w > 0 && forall i :: 0 <= i < |units| ==> |units[i]| == w
    ensures |Flat(units)| == |units| * w && Split(Flat(units), w) == units
  {
    if units != [] {
      SplitFlat(units[1..], w);
      var f := Flat(units);
      assert f[..w] == units[0] && f[w..] == Flat(units[1..]);
    }
  }

  lemma DecodePush(kind: Kind, key: Bytes, units: seq<Argv>)
    requires units != [] && Shaped(units, kind)
    ensures Decode([NameOf(kind), key] + Flat(units)) == Push(kind, key, units)
  {
    var w := Width(kind);
    var argv := [NameOf(kind), key] + Flat(units);
    SplitFlat(units, w);
    assert argv[2..] == Flat(units) && argv[1] == key && argv[0] == NameOf(kind);
    assert (|units| * w) % w == 0;
    hide Flat, Split;
    NamesDiffer(kind);
  }

  lemma NamesDiffer(kind: Kind)
    ensures Same(NameOf(kind), "rpush") <==> kind == KList
    ensures Same(NameOf(kind), "sadd") <==> kind == KSet
    ensures Same(NameOf(kind), "hmset") <==> kind == KHash
    ensures Same(NameOf(kind), "zadd") <==> kind == KZSet
  {
    assert "RPUSH"[0] == 'R' && "HMSET"[0] == 'H' && "SADD"[0] == 'S' && "ZADD"[0] == 'Z';
    assert "rpush"[0] == 'r' && "hmset"[0] == 'h' && "sadd"[0] == 's' && "zadd"[0] == 'z';
  }

  lemma DecodeOthers(key: Bytes, text: Bytes, n: int)
    requires -LONG_LIMIT <= n < LONG_LIMIT
    ensures Decode(["SET", key, text]) == SetText(key, text)
    ensures Decode(["PEXPIREAT", key, PrintInt(n)]) == ExpireAt(key, n)
    ensures Decode(["SELECT", PrintInt(n)]) == Switch(n)
  {
    hide Strtol, PrintInt, PushOp;
    PrintIntRoundTrip(n);
    assert |"SET"| == 3 && |"PEXPIREAT"| == 9 && |"SELECT"| == 6;
    assert Same("SET", "set") && Same("PEXPIREAT", "pexpireat") && Same("SELECT", "select");
  }

  /** The command table, as far as the loader looks at it. */
  function Lookup(argv: Argv): Loader.Proc {
    if argv == [] then Loader.Unknown
    else
      var name := argv[0];
      if Same(name, "select") then Loader.Select
      else if Same(name, "rpush") || Same(name, "sadd") || Same(name, "hmset") || Same(name, "zadd")
              || Same(name, "set") || Same(name, "pexpireat") then Loader.Other
      else if Same(name, "multi") then Loader.Multi
      else if Same(name, "exec") then Loader.Exec
      else Loader.Unknown
  }

  // ------------------------------------------------------- commands without effect

  /** Elements are not added to a key of another type, and a key that is not there gets no expire time. */
  lemma RefusedCommands(db: Db, kind: Kind, key: Bytes, units: seq<Argv>, at: int)
    requires Shaped(units, kind)
    ensures key in db && (db[key].value.Str? || KindOf(db[key].value) != kind) ==> ApplyTo(db, Push(kind, key, units)) == db
    ensures key !in db ==> ApplyTo(db, ExpireAt(key, at)) == db
    ensures key in db ==> ApplyTo(db, ExpireAt(key, at)).Keys == db.Keys && ApplyTo(db, ExpireAt(key, at))[key].value == db[key].value
  {
  }

  /** Commands with the wrong number of arguments, or unknown ones, do nothing. */
  lemma MalformedCommands(argv: Argv)
    requires |argv| < 2 || !(Same(argv[0], "rpush") || Same(argv[0], "sadd") || Same(argv[0], "hmset") || Same(argv[0], "zadd")
                             || Same(argv[0], "set") || Same(argv[0], "pexpireat") || Same(argv[0], "select"))
    ensures Decode(argv) == Nothing
  {
    hide Same;
  }
}
