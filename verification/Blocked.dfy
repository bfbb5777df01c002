/**
 Clients blocked on keys: the two-sided index between a client's keys and each key's waiters,
 as values.
 */
module Blocked {
  import opened Common

  type Id = nat
  type Key = string
  datatype DbKey = DbKey(db: nat, key: Key)

  datatype BType = NotBlocked | OnList | OnZset | OnStream | Postponed | OnShutdown

  /** The fields of `client` that blocking uses; `keys` is the domain of `bpop.keys`. */
  datatype Client = Client(blocked: bool, unblocked: bool, btype: BType, db: nat, keys: set<Key>)

  type Clients = map<Id, Client>

  predicate WaitsForData(t: BType) { t.OnList? || t.OnZset? || t.OnStream? }

  ghost predicate NoDup<T>(s: seq<T>) { forall i, j :: 0 <= i < j < |s| ==> s[i] != s[j] }

  function Without<T(==)>(s: seq<T>, x: T): seq<T> {
    if s == [] then [] else (if s[0] == x then [] else [s[0]]) + Without(s[1..], x)
  }

  lemma {:induction false} WithoutIs<T(!new)>(s: seq<T>, x: T)
    ensures forall y :: y in Without(s, x) <==> y in s && y != x
    ensures x !in s ==> Without(s, x) == s
  {
    if s != [] {
      WithoutIs(s[1..], x);
      assert s == [s[0]] + s[1..];
    }
  }

  lemma {:induction false} WithoutNoDup<T(!new)>(s: seq<T>, x: T)
    requires NoDup(s)
    ensures NoDup(Without(s, x))
  {
    if s != [] {
      WithoutNoDup(s[1..], x);
      WithoutIs(s[1..], x);
      if s[0] != x {
        var w := Without(s[1..], x);
        forall i, j | 0 <= i < j < |[s[0]] + w| ensures ([s[0]] + w)[i] != ([s[0]] + w)[j] {
          if i == 0 { assert w[j - 1] in s[1..]; }
        }
      }
    }
  }

  lemma FirstOut<T(!new)>(s: seq<T>)
    requires NoDup(s) && s != []
    ensures Without(s, s[0]) == s[1..]
  {
    WithoutIs(s[1..], s[0]);
  }

  // ---- the index as a function of the clients ------------------------------------------------

  predicate Waits(clients: Clients, c: Id, dk: DbKey) {
    c in clients && clients[c].db == dk.db && dk.key in clients[c].keys
  }

  /** The clients of `order` that wait for a key, in that order. */
  ghost function Waiters(order: seq<Id>, clients: Clients, dk: DbKey): seq<Id> {
    if order == [] then []
    else (if Waits(clients, order[0], dk) then [order[0]] else []) + Waiters(order[1..], clients, dk)
  }

  lemma {:induction false} WaitersAre(order: seq<Id>, clients: Clients, dk: DbKey)
    ensures forall c :: c in Waiters(order, clients, dk) <==> c in order && Waits(clients, c, dk)
  {
    if order != [] { WaitersAre(order[1..], clients, dk); }
  }

  lemma {:induction false} WaitersNoDup(order: seq<Id>, clients: Clients, dk: DbKey)
    requires NoDup(order)
    ensures NoDup(Waiters(order, clients, dk))
  {
    if order != [] {
      WaitersNoDup(order[1..], clients, dk);
      WaitersAre(order[1..], clients, dk);
      var w := Waiters(order[1..], clients, dk);
      forall i, j | 0 <= i < j < |[order[0]] + w| ensures ([order[0]] + w)[i] != ([order[0]] + w)[j] {
        if i == 0 { assert w[j - 1] in order[1..]; }
      }
    }
  }

  lemma {:induction false} WaitersAppend(order: seq<Id>, c: Id, clients: Clients, dk: DbKey)
    ensures Waiters(order + [c], clients, dk) == Waiters(order, clients, dk) + (if Waits(clients, c, dk) then [c] else [])
  {
    if order == [] {
      assert order + [c] == [c];
    } else {
      assert (order + [c])[1..] == order[1..] + [c];
      WaitersAppend(order[1..], c, clients, dk);
      var h, t := if Waits(clients, order[0], dk) then [order[0]] else [], if Waits(clients, c, dk) then [c] else [];
      assert h + (Waiters(order[1..], clients, dk) + t) == (h + Waiters(order[1..], clients, dk)) + t;
    }
  }

  /** Only what the clients of `order` wait for matters. */
  lemma {:induction false} WaitersSame(order: seq<Id>, a: Clients, b: Clients, dk: DbKey)
    requires forall c :: c in order ==> Waits(a, c, dk) == Waits(b, c, dk)
    ensures Waiters(order, a, dk) == Waiters(order, b, dk)
  {
    if order != [] {
      assert order[0] in order;
      WaitersSame(order[1..], a, b, dk);
    }
  }

  /** A client that stops waiting for a key leaves its list of waiters, and nothing else changes. */
  lemma {:induction false} WaitersDrop(order: seq<Id>, a: Clients, b: Clients, c: Id, dk: DbKey)
    requires forall d :: d in order && d != c ==> Waits(a, d, dk) == Waits(b, d, dk)
    requires !Waits(b, c, dk)
    ensures Waiters(order, b, dk) == Without(Waiters(order, a, dk), c)
  {
    if order != [] {
      assert order[0] in order;
      WaitersDrop(order[1..], a, b, c, dk);
      var r := Waiters(order[1..], a, dk);
      assert [] + r == r && ([order[0]] + r)[1..] == r;
    }
  }

  lemma {:induction false} WaitersWithout(order: seq<Id>, clients: Clients, c: Id, dk: DbKey)
    requires !Waits(clients, c, dk)
    ensures Waiters(Without(order, c), clients, dk) == Waiters(order, clients, dk)
  {
    if order != [] {
      WaitersWithout(order[1..], clients, c, dk);
      var r := Without(order[1..], c);
      assert [] + r == r && ([order[0]] + r)[1..] == r;
    }
  }

  type Index = map<DbKey, seq<Id>>

  /** `blocking_keys` holds, for every key somebody waits for, exactly its waiters in blocking order. */
  ghost predicate Indexed(blocking: Index, order: seq<Id>, clients: Clients) {
    NoDup(order)
    && (forall dk :: dk in blocking <==> Waiters(order, clients, dk) != [])
    && (forall dk :: dk in blocking ==> blocking[dk] == Waiters(order, clients, dk))
    && (forall c :: c in clients && clients[c].keys != {} ==> c in order)
  }

  /** What `Indexed` says of one client and one key: on the list exactly once, or not at all. */
  lemma ExactlyOnce(blocking: Index, order: seq<Id>, clients: Clients, c: Id, key: Key)
    requires Indexed(blocking, order, clients) && c in clients
    ensures var dk := DbKey(clients[c].db, key);
            key in clients[c].keys <==> dk in blocking && multiset(blocking[dk])[c] == 1
    ensures forall dk :: dk in blocking ==> blocking[dk] != [] && NoDup(blocking[dk])
  {
    var dk := DbKey(clients[c].db, key);
    WaitersAre(order, clients, dk);
    forall dk | dk in blocking ensures NoDup(blocking[dk]) { WaitersNoDup(order, clients, dk); }
    if dk in blocking { CountNoDup(blocking[dk], c); }
  }

  lemma {:induction false} CountNoDup<T>(s: seq<T>, x: T)
    requires NoDup(s)
    ensures multiset(s)[x] == if x in s then 1 else 0
  {
    if s != [] {
      assert s == [s[0]] + s[1..];
      CountNoDup(s[1..], x);
    }
  }

  /** The waiters of a key keep the order in which they blocked. */
  lemma {:induction false} InBlockingOrder(order: seq<Id>, clients: Clients, dk: DbKey, i: nat, j: nat)
    requires i < j < |Waiters(order, clients, dk)|
    ensures exists p, q :: 0 <= p < q < |order| && order[p] == Waiters(order, clients, dk)[i] && order[q] == Waiters(order, clients, dk)[j]
  {
    var w := Waiters(order, clients, dk);
    var d := if Waits(clients, order[0], dk) then 1 else 0;
    if d == 1 && i == 0 {
      var r := Waiters(order[1..], clients, dk);
      WaitersAre(order[1..], clients, dk);
      assert w[j] == r[j - 1] && r[j - 1] in order[1..];
      var q :| 0 <= q < |order[1..]| && order[1..][q] == w[j];
      assert order[0] == w[i] && order[q + 1] == w[j];
    } else {
      InBlockingOrder(order[1..], clients, dk, i - d, j - d);
      var p, q :| 0 <= p < q < |order[1..]| && order[1..][p] == w[i] && order[1..][q] == w[j];
      assert order[p + 1] == w[i] && order[q + 1] == w[j];
    }
  }

  // ---- how the index follows the clients -----------------------------------------------------

  function WithKeys(clients: Clients, c: Id, keys: set<Key>): Clients
    requires c in clients
  {
    clients[c := clients[c].(keys := keys)]
  }

  /** A client appended to one more list. */
  function AddWaiter(blocking: Index, dk: DbKey, c: Id): Index {
    blocking[dk := (if dk in blocking then blocking[dk] else []) + [c]]
  }

  /** A client deleted from a list, which goes when it is empty. */
  function DropWaiter(blocking: Index, dk: DbKey, c: Id): Index
    requires dk in blocking
  {
    if Without(blocking[dk], c) == [] then blocking - {dk} else blocking[dk := Without(blocking[dk], c)]
  }

  lemma LastIsNew(order: seq<Id>, c: Id)
    requires NoDup(order + [c])
    ensures c !in order
  {
    forall i | 0 <= i < |order| ensures order[i] != c {
      assert (order + [c])[i] == order[i] && (order + [c])[|order|] == c;
    }
  }

  lemma IndexedAdd(blocking: Index, order: seq<Id>, clients: Clients, c: Id, key: Key)
    requires Indexed(blocking, order + [c], clients) && c in clients && key !in clients[c].keys
    ensures Indexed(AddWaiter(blocking, DbKey(clients[c].db, key), c), order + [c],
                    WithKeys(clients, c, clients[c].keys + {key}))
  {
    hide Waiters, Without;
    var clients' := WithKeys(clients, c, clients[c].keys + {key});
    var dk0 := DbKey(clients[c].db, key);
    assert forall d, dk :: Waits(clients', d, dk) <==> Waits(clients, d, dk) || (d == c && dk == dk0);
    LastIsNew(order, c);
    forall dk
      ensures Waiters(order + [c], clients', dk) == Waiters(order + [c], clients, dk) + (if dk == dk0 then [c] else [])
    {
      WaitersSame(order, clients, clients', dk);
      WaitersAppend(order, c, clients, dk);
      WaitersAppend(order, c, clients', dk);
      assert Waiters(order, clients, dk) + [] == Waiters(order, clients, dk);
    }
  }

  lemma IndexedDrop(blocking: Index, order: seq<Id>, clients: Clients, c: Id, key: Key)
    requires Indexed(blocking, order, clients) && c in clients && key in clients[c].keys
    ensures DbKey(clients[c].db, key) in blocking
    ensures Indexed(DropWaiter(blocking, DbKey(clients[c].db, key), c), order, WithKeys(clients, c, clients[c].keys - {key}))
  {
    hide Waiters, Without;
    var clients' := WithKeys(clients, c, clients[c].keys - {key});
    var dk0 := DbKey(clients[c].db, key);
    assert forall d, dk :: Waits(clients', d, dk) <==> Waits(clients, d, dk) && !(d == c && dk == dk0);
    WaitersAre(order, clients, dk0);
    assert Waits(clients, c, dk0);
    WaitersDrop(order, clients, clients', c, dk0);
    forall dk | dk != dk0 ensures Waiters(order, clients', dk) == Waiters(order, clients, dk) {
      WaitersSame(order, clients, clients', dk);
    }
  }

  lemma IndexedArrives(blocking: Index, order: seq<Id>, clients: Clients, c: Id)
    requires Indexed(blocking, order, clients) && c !in order && c in clients && clients[c].keys == {}
    ensures Indexed(blocking, order + [c], clients)
  {
    hide Waiters, Without;
    forall dk ensures Waiters(order + [c], clients, dk) == Waiters(order, clients, dk) {
      WaitersAppend(order, c, clients, dk);
    }
  }

  lemma IndexedLeaves(blocking: Index, order: seq<Id>, clients: Clients, c: Id)
    requires Indexed(blocking, order, clients) && c in clients && clients[c].keys == {}
    ensures Indexed(blocking, Without(order, c), clients)
  {
    hide Waiters, Without;
    WithoutNoDup(order, c);
    WithoutIs(order, c);
    forall dk ensures Waiters(Without(order, c), clients, dk) == Waiters(order, clients, dk) {
      WaitersWithout(order, clients, c, dk);
    }
  }

  lemma IndexedSame(blocking: Index, order: seq<Id>, a: Clients, b: Clients)
    requires Indexed(blocking, order, a) && a.Keys == b.Keys
    requires forall c :: c in a ==> a[c].db == b[c].db && a[c].keys == b[c].keys
    ensures Indexed(blocking, order, b)
  {
    hide Waiters, Without;
    forall dk ensures Waiters(order, a, dk) == Waiters(order, b, dk) { WaitersSame(order, a, b, dk); }
  }

  // ---- counters -------------------------------------------------------------------------------

  ghost function OfType(clients: Clients, t: BType): set<Id> {
    set c | c in clients && clients[c].blocked && clients[c].btype == t
  }

  ghost function BlockedSet(clients: Clients): set<Id> {
    set c | c in clients && clients[c].blocked
  }

  type Counters = map<BType, int>

  /** The counters are the numbers of clients with the flag, in all and by kind. */
  ghost predicate Counted(clients: Clients, blockedClients: int, byType: Counters) {
    blockedClients == |BlockedSet(clients)| && forall t :: t in byType && byType[t] == |OfType(clients, t)|
  }

  lemma Counts(clients: Clients, n: int, byType: Counters)
    requires Counted(clients, n, byType)
    ensures forall t: BType :: t in byType
  {
  }

  lemma TypeBlock(clients: Clients, c: Id, d: Client, t: BType)
    requires c in clients && !clients[c].blocked && d.blocked
    ensures |OfType(clients[c := d], t)| == |OfType(clients, t)| + (if t == d.btype then 1 else 0)
  {
    if t == d.btype {
      assert OfType(clients[c := d], t) == OfType(clients, t) + {c};
    } else {
      assert OfType(clients[c := d], t) == OfType(clients, t);
    }
  }

  lemma CountBlock(clients: Clients, n: int, byType: Counters, c: Id, d: Client)
    requires Counted(clients, n, byType) && c in clients && !clients[c].blocked && d.blocked
    ensures Counted(clients[c := d], n + 1, byType[d.btype := byType[d.btype] + 1])
  {
    var clients' := clients[c := d];
    assert BlockedSet(clients') == BlockedSet(clients) + {c};
    forall t ensures |OfType(clients', t)| == |OfType(clients, t)| + (if t == d.btype then 1 else 0) {
      TypeBlock(clients, c, d, t);
    }
  }

  lemma CountUnblock(clients: Clients, n: int, byType: Counters, c: Id, d: Client)
    requires Counted(clients, n, byType) && c in clients && clients[c].blocked && !d.blocked
    ensures Counted(clients[c := d], n - 1, byType[clients[c].btype := byType[clients[c].btype] - 1])
  {
    var clients' := clients[c := d];
    assert BlockedSet(clients') == BlockedSet(clients) - {c};
    assert clients'[c := clients[c]] == clients;
    forall t ensures |OfType(clients, t)| == |OfType(clients', t)| + (if t == clients[c].btype then 1 else 0) {
      TypeBlock(clients', c, clients[c], t);
    }
  }

  lemma CountSame(clients: Clients, n: int, byType: Counters, c: Id, d: Client)
    requires Counted(clients, n, byType) && c in clients
    requires clients[c].blocked == d.blocked && clients[c].btype == d.btype
    ensures Counted(clients[c := d], n, byType)
  {
    var clients' := clients[c := d];
    assert BlockedSet(clients') == BlockedSet(clients);
    forall t ensures OfType(clients', t) == OfType(clients, t) { }
  }

  // ---- flags and queues -------------------------------------------------------------------------

  /** A client has keys exactly while it is blocked for data. */
  predicate Typed(d: Client) {
    d.blocked == !d.btype.NotBlocked? && (d.keys != {} <==> WaitsForData(d.btype))
  }

  ghost predicate AllTyped(clients: Clients) { forall c :: c in clients ==> Typed(clients[c]) }

  ghost predicate InOrder(order: seq<Id>, clients: Clients) {
    forall c :: c in order ==> c in clients && clients[c].keys != {}
  }

  /** `CLIENT_UNBLOCKED` holds exactly for the clients in the queue, and each is there once. */
  ghost predicate Queued(queue: seq<Id>, clients: Clients) {
    NoDup(queue) && forall c :: c in queue <==> c in clients && clients[c].unblocked
  }

  ghost predicate PostponedIs(postponed: seq<Id>, clients: Clients) {
    NoDup(postponed) && forall c :: c in postponed <==> c in clients && clients[c].btype.Postponed?
  }

  lemma AfterUnblock(clients: Clients, order: seq<Id>, postponed: seq<Id>, queue: seq<Id>, c: Id, d: Client)
    requires AllTyped(clients) && InOrder(order, clients) && PostponedIs(postponed, clients) && Queued(queue, clients)
    requires c in clients && Typed(d) && d.btype.NotBlocked? && d.unblocked == clients[c].unblocked
    ensures Queued(queue, clients[c := d])
    ensures AllTyped(clients[c := d]) && InOrder(Without(order, c), clients[c := d])
    ensures PostponedIs(Without(postponed, c), clients[c := d])
    ensures !clients[c].btype.Postponed? ==> Without(postponed, c) == postponed
  {
    WithoutIs(order, c);
    WithoutIs(postponed, c);
    WithoutNoDup(postponed, c);
  }

  lemma AfterBlock(clients: Clients, order: seq<Id>, postponed: seq<Id>, queue: seq<Id>, c: Id, d: Client)
    requires AllTyped(clients) && InOrder(order, clients) && PostponedIs(postponed, clients) && Queued(queue, clients)
    requires c in clients && Typed(d) && !clients[c].blocked && d.unblocked == clients[c].unblocked
    ensures clients[c].keys == {} && c !in order
    ensures AllTyped(clients[c := d]) && Queued(queue, clients[c := d])
    ensures InOrder(if d.keys == {} then order else order + [c], clients[c := d])
    ensures PostponedIs(if d.btype.Postponed? then postponed + [c] else postponed, clients[c := d])
  {
    assert Typed(clients[c]);
  }

  lemma TypedAt(clients: Clients, c: Id)
    requires AllTyped(clients) && c in clients
    ensures Typed(clients[c])
  {
  }

  lemma AfterFlag(clients: Clients, order: seq<Id>, postponed: seq<Id>, c: Id, flag: bool)
    requires AllTyped(clients) && InOrder(order, clients) && PostponedIs(postponed, clients) && c in clients
    ensures var clients' := clients[c := clients[c].(unblocked := flag)];
            AllTyped(clients') && InOrder(order, clients') && PostponedIs(postponed, clients')
  {
  }

  lemma AfterRequeue(clients: Clients, queue: seq<Id>, c: Id)
    requires Queued(queue, clients) && c in clients
    ensures Queued(if clients[c].unblocked then queue else queue + [c], clients[c := clients[c].(unblocked := true)])
  {
    if clients[c].unblocked { assert clients[c := clients[c]] == clients; }
  }

  lemma AfterTake(clients: Clients, queue: seq<Id>)
    requires Queued(queue, clients) && queue != []
    ensures queue[0] in clients
    ensures Queued(queue[1..], clients[queue[0] := clients[queue[0]].(unblocked := false)])
  {
    assert queue[0] in queue;
    WithoutIs(queue, queue[0]);
    FirstOut(queue);
  }

  // ---- ready keys ---------------------------------------------------------------------------------

  datatype ObjType = StringObj | ListObj | SetObj | ZsetObj | HashObj | StreamObj

  /** `getBlockedTypeByType` */
  function BlockedTypeOf(t: ObjType): BType {
    match t
    case ListObj => OnList
    case ZsetObj => OnZset
    case StreamObj => OnStream
    case _ => NotBlocked
  }

  /** A key is in the dictionary exactly while it is queued, and it is queued once. */
  ghost predicate ReadyIs(dict: set<DbKey>, queued: seq<DbKey>) {
    NoDup(queued) && forall dk :: dk in dict <==> dk in queued
  }

  /** Somebody waits for this key to hold a value of this type. */
  ghost predicate Wanted(clients: Clients, dk: DbKey, t: BType) {
    exists c :: Waits(clients, c, dk) && clients[c].btype == t
  }

  lemma WantedIs(clients: Clients, dk: DbKey)
    ensures forall t :: Wanted(clients, dk, t) <==> exists c :: Waits(clients, c, dk) && clients[c].btype == t
  {
  }

  /** Somebody waits for every key of the index. */
  lemma IndexedIsWaited(clients: Clients, blocking: Index, order: seq<Id>, dk: DbKey)
    requires Indexed(blocking, order, clients) && dk in blocking
    ensures exists c :: Waits(clients, c, dk)
  {
    WaitersAre(order, clients, dk);
    assert blocking[dk][0] in blocking[dk];
  }

  /** The two early returns of `signalKeyAsReady` never drop a key that somebody waits for. */
  lemma WantedIsSeen(clients: Clients, blocking: Index, order: seq<Id>, n: int, byType: Counters, dk: DbKey, t: BType)
    requires Indexed(blocking, order, clients) && Counted(clients, n, byType) && AllTyped(clients) && WaitsForData(t)
    requires Wanted(clients, dk, t)
    ensures dk in blocking && byType[t] != 0
  {
    var c :| Waits(clients, c, dk) && clients[c].btype == t;
    assert Typed(clients[c]) && c in OfType(clients, t);
    WaitersAre(order, clients, dk);
  }

  /** The clients of a list that are blocked for one kind of value. */
  ghost function OfKind(s: seq<Id>, clients: Clients, t: BType): seq<Id> {
    if s == [] then []
    else (if s[0] in clients && clients[s[0]].btype == t then [s[0]] else []) + OfKind(s[1..], clients, t)
  }

  lemma OfKindStep(s: seq<Id>, i: nat, clients: Clients, t: BType)
    requires i < |s| && s[i] in clients
    ensures OfKind(s[i..], clients, t) == (if clients[s[i]].btype == t then [s[i]] else []) + OfKind(s[i + 1..], clients, t)
  {
    assert s[i..][1..] == s[i + 1..];
  }

  /** The waiters of a key are blocked clients. */
  lemma WaitersBlocked(clients: Clients, blocking: Index, order: seq<Id>, dk: DbKey)
    requires Indexed(blocking, order, clients) && AllTyped(clients) && dk in blocking
    ensures NoDup(blocking[dk]) && forall c :: c in blocking[dk] ==> c in clients && clients[c].blocked
  {
    WaitersAre(order, clients, dk);
    WaitersNoDup(order, clients, dk);
    forall c | c in blocking[dk] ensures c in clients && clients[c].blocked { assert Waits(clients, c, dk) && Typed(clients[c]); }
  }

  lemma CountedIsNat(clients: Clients, n: int, byType: Counters)
    requires Counted(clients, n, byType)
    ensures n >= 0
  {
  }

  lemma ReadySignalled(dict: set<DbKey>, l: seq<DbKey>, ready: seq<DbKey>, dk: DbKey)
    requires ReadyIs(dict, l + ready) && dk !in dict
    ensures ReadyIs(dict + {dk}, l + (ready + [dk]))
  {
    assert l + (ready + [dk]) == (l + ready) + [dk];
  }

  lemma ReadyTaken(dict: set<DbKey>, l: seq<DbKey>, ready: seq<DbKey>)
    requires l != [] && ReadyIs(dict, l + ready)
    ensures ReadyIs(dict - {l[0]}, l[1..] + ready)
  {
    assert (l + ready)[1..] == l[1..] + ready && (l + ready)[0] == l[0];
    FirstOut(l + ready);
    WithoutIs(l + ready, l[0]);
  }

  // ---- what a run of the drain loop serves --------------------------------------------------------------

  /** The clients after those of `served` have been unblocked. */
  function Released(clients: Clients, served: seq<Id>): Clients {
    if served == [] then clients
    else
      var r, c := Released(clients, served[..|served| - 1]), served[|served| - 1];
      if c in r then r[c := Client(false, true, NotBlocked, r[c].db, {})] else r
  }

  function WithoutAll(order: seq<Id>, served: seq<Id>): seq<Id> {
    if served == [] then order else Without(WithoutAll(order, served[..|served| - 1]), served[|served| - 1])
  }

  lemma OneMore(clients: Clients, order: seq<Id>, served: seq<Id>, c: Id)
    ensures WithoutAll(order, served + [c]) == Without(WithoutAll(order, served), c)
    ensures var r := Released(clients, served);
            Released(clients, served + [c]) == if c in r then r[c := Client(false, true, NotBlocked, r[c].db, {})] else r
  {
    assert (served + [c])[..|served|] == served;
  }

  /** A ready key, the type of the value it held when its turn came, and the clients served. */
  datatype Turn = Turn(dk: DbKey, found: Option<ObjType>, served: seq<Id>)

  /**
   Nobody is served for a key that holds nothing a client can wait for. For a list or a sorted set
   the waiters of that type are served in blocking order, at least the first one.
   */
  ghost predicate Fair(clients: Clients, order: seq<Id>, turn: Turn) {
    if turn.found.None? || BlockedTypeOf(turn.found.value).NotBlocked? then turn.served == []
    else
      var t := BlockedTypeOf(turn.found.value);
      var waiting := OfKind(Waiters(order, clients, turn.dk), clients, t);
      if t.OnStream? then forall c :: c in turn.served ==> c in waiting
      else turn.served <= waiting && (waiting != [] ==> turn.served != [])
  }

  /** The waiting clients after some turns. */
  ghost function AfterTurns(clients: Clients, order: seq<Id>, turns: seq<Turn>): (Clients, seq<Id>) {
    if turns == [] then (clients, order)
    else
      var (c, o) := AfterTurns(clients, order, turns[..|turns| - 1]);
      (Released(c, turns[|turns| - 1].served), WithoutAll(o, turns[|turns| - 1].served))
  }

  ghost predicate AllFair(clients: Clients, order: seq<Id>, turns: seq<Turn>) {
    turns == []
    || (AllFair(clients, order, turns[..|turns| - 1])
        && var (c, o) := AfterTurns(clients, order, turns[..|turns| - 1]); Fair(c, o, turns[|turns| - 1]))
  }

  /** Client `c` waits for this key to hold a value of this kind. */
  predicate WaitsFor(clients: Clients, order: seq<Id>, c: Id, dk: DbKey, t: BType) {
    c in order && Waits(clients, c, dk) && clients[c].btype == t
  }

  /** Only clients that wait for the kind of value the key holds are served. */
  ghost predicate OnlyFor(clients: Clients, order: seq<Id>, turn: Turn, t: BType) {
    forall c :: c in turn.served ==> WaitsFor(clients, order, c, turn.dk, t)
  }

  /** And somebody is, if there is anybody: the one of them who has waited longest is the first. */
  ghost predicate LongestFirst(clients: Clients, order: seq<Id>, turn: Turn, t: BType) {
    forall i :: 0 <= i < |order| && WaitsFor(clients, order, order[i], turn.dk, t)
      && (forall j :: 0 <= j < i ==> !WaitsFor(clients, order, order[j], turn.dk, t))
      ==> turn.served != [] && turn.served[0] == order[i]
  }

  /** A list serves clients blocked on lists, a sorted set those blocked on sorted sets, a stream those blocked
      on streams; no other value serves anybody. */
  ghost predicate ServesRight(clients: Clients, order: seq<Id>, turn: Turn) {
    match turn.found
    case None => turn.served == []
    case Some(ListObj) => OnlyFor(clients, order, turn, OnList) && LongestFirst(clients, order, turn, OnList)
    case Some(ZsetObj) => OnlyFor(clients, order, turn, OnZset) && LongestFirst(clients, order, turn, OnZset)
    case Some(StreamObj) => OnlyFor(clients, order, turn, OnStream)
    case Some(_) => turn.served == []
  }

  lemma {:induction false} OfKindIs(order: seq<Id>, clients: Clients, dk: DbKey, t: BType)
    ensures forall c :: c in OfKind(Waiters(order, clients, dk), clients, t) <==> WaitsFor(clients, order, c, dk, t)
  {
    if order != [] {
      OfKindIs(order[1..], clients, dk, t);
      OfKindHead(order, clients, dk, t);
    }
  }

  lemma OfKindHead(order: seq<Id>, clients: Clients, dk: DbKey, t: BType)
    requires order != []
    ensures OfKind(Waiters(order, clients, dk), clients, t)
         == (if WaitsFor(clients, order, order[0], dk, t) then [order[0]] else []) + OfKind(Waiters(order[1..], clients, dk), clients, t)
  {
    var rest := Waiters(order[1..], clients, dk);
    if Waits(clients, order[0], dk) {
      assert ([order[0]] + rest)[1..] == rest;
    } else {
      assert [] + rest == rest;
    }
  }

  /** The first of the waiters of a kind is the one that blocked first. */
  lemma {:induction false} OfKindFirst(order: seq<Id>, clients: Clients, dk: DbKey, t: BType, i: nat)
    requires i < |order| && WaitsFor(clients, order, order[i], dk, t)
    requires forall j :: 0 <= j < i ==> !WaitsFor(clients, order, order[j], dk, t)
    ensures var w := OfKind(Waiters(order, clients, dk), clients, t); w != [] && w[0] == order[i]
  {
    OfKindHead(order, clients, dk, t);
    if i > 0 {
      assert order[1..][i - 1] == order[i];
      OfKindFirst(order[1..], clients, dk, t, i - 1);
    }
  }

  lemma FairServesRight(clients: Clients, order: seq<Id>, turn: Turn)
    requires Fair(clients, order, turn)
    ensures ServesRight(clients, order, turn)
  {
    hide OfKind, Waiters, WaitsFor;
    if turn.found.Some? {
      var t := BlockedTypeOf(turn.found.value);
      OfKindIs(order, clients, turn.dk, t);
      var waiting := OfKind(Waiters(order, clients, turn.dk), clients, t);
      if t.OnList? || t.OnZset? {
        forall i | 0 <= i < |order| && WaitsFor(clients, order, order[i], turn.dk, t)
                   && (forall j :: 0 <= j < i ==> !WaitsFor(clients, order, order[j], turn.dk, t))
          ensures turn.served != [] && turn.served[0] == order[i]
        {
          OfKindFirst(order, clients, turn.dk, t, i);
        }
        assert forall c :: c in turn.served ==> c in waiting;
      }
    }
  }

  lemma {:induction false} AllServeRight(clients: Clients, order: seq<Id>, turns: seq<Turn>)
    requires AllFair(clients, order, turns)
    ensures forall i :: 0 <= i < |turns| ==>
              ServesRight(AfterTurns(clients, order, turns[..i]).0, AfterTurns(clients, order, turns[..i]).1, turns[i])
  {
    hide Fair, AfterTurns, ServesRight;
    if turns != [] {
      var n := |turns| - 1;
      AllServeRight(clients, order, turns[..n]);
      var (c, o) := AfterTurns(clients, order, turns[..n]);
      FairServesRight(c, o, turns[n]);
      forall i | 0 <= i < n
        ensures ServesRight(AfterTurns(clients, order, turns[..i]).0, AfterTurns(clients, order, turns[..i]).1, turns[i])
      {
        assert turns[..n][..i] == turns[..i] && turns[..n][i] == turns[i];
      }
    }
  }

  lemma NextTurn(clients: Clients, order: seq<Id>, turns: seq<Turn>, turn: Turn)
    requires AllFair(clients, order, turns)
    ensures var (c, o) := AfterTurns(clients, order, turns);
            AfterTurns(clients, order, turns + [turn]) == (Released(c, turn.served), WithoutAll(o, turn.served))
            && (Fair(c, o, turn) ==> AllFair(clients, order, turns + [turn]))
  {
    assert (turns + [turn])[..|turns|] == turns;
  }

  lemma NoneOfType(clients: Clients, n: int, byType: Counters, t: BType)
    requires Counted(clients, n, byType) && byType[t] == 0 && AllTyped(clients) && WaitsForData(t)
    ensures forall c :: c in clients ==> clients[c].btype != t
  {
    assert OfType(clients, t) == {};
    forall c | c in clients ensures clients[c].btype != t {
      assert c !in OfType(clients, t) && Typed(clients[c]);
    }
  }

  lemma {:induction false} NoKind(s: seq<Id>, clients: Clients, t: BType)
    requires forall c :: c in clients ==> clients[c].btype != t
    ensures OfKind(s, clients, t) == []
  {
    if s != [] { NoKind(s[1..], clients, t); }
  }

  lemma NobodyServed(clients: Clients, order: seq<Id>)
    ensures Released(clients, []) == clients && WithoutAll(order, []) == order
  {
  }

  lemma NobodyWaits(clients: Clients, t: BType)
    ensures OfKind([], clients, t) == []
  {
  }

  lemma OfKindEnd(s: seq<Id>, clients: Clients, t: BType)
    ensures OfKind(s[|s|..], clients, t) == []
  {
  }

  lemma NoTurns(clients: Clients, order: seq<Id>)
    ensures AllFair(clients, order, []) && AfterTurns(clients, order, []) == (clients, order)
  {
  }

  /** A key whose value no client can wait for is passed over. */
  lemma Untouched(clients: Clients, order: seq<Id>, dk: DbKey, found: Option<ObjType>)
    requires found.None? || BlockedTypeOf(found.value).NotBlocked?
    ensures Fair(clients, order, Turn(dk, found, []))
  {
  }
}
