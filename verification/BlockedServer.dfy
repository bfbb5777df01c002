/**
 The operations of `blocked.c` on the server's lists, dictionaries and counters, and the loop
 that serves the clients of ready keys.
 */
module BlockedServer {
  import opened Common
  import opened Blocked

  class Server {
    var clients: Clients
    var blockingKeys: Index
    var readyDict: set<DbKey>
    var readyList: seq<DbKey>
    var unblockedClients: seq<Id>
    var postponedClients: seq<Id>
    var blockedClients: int
    var byType: Counters
    /** The clients that wait for keys, in the order in which they blocked. */
    ghost var order: seq<Id>

    // ---- what every operation keeps --------------------------------------------------------

    ghost predicate Valid()
      reads this
    {
      Indexed(blockingKeys, order, clients) && InOrder(order, clients) && AllTyped(clients)
      && Counted(clients, blockedClients, byType) && Queued(unblockedClients, clients) && PostponedIs(postponedClients, clients)
    }

    constructor (clients: Clients)
      requires forall c :: c in clients ==> clients[c] == Client(false, false, NotBlocked, clients[c].db, {})
      ensures Valid() && this.clients == clients && ReadyIs(readyDict, readyList)
    {
      this.clients := clients;
      blockingKeys, order, readyDict, readyList := map[], [], {}, [];
      unblockedClients, postponedClients, blockedClients := [], [], 0;
      byType := map[NotBlocked := 0, OnList := 0, OnZset := 0, OnStream := 0, Postponed := 0, OnShutdown := 0];
      new;
      assert BlockedSet(clients) == {};
      forall t: BType ensures OfType(clients, t) == {} && t in byType && byType[t] == 0 {
        match t { case NotBlocked => case OnList => case OnZset => case OnStream => case Postponed => case OnShutdown => }
      }
    }

    // ---- blocking -----------------------------------------------------------------------------

    /** `blockClient` */
    method BlockClient(c: Id, btype: BType)
      requires c in clients && !clients[c].blocked && !btype.NotBlocked? && Counted(clients, blockedClients, byType)
      modifies this`clients, this`blockedClients, this`byType, this`postponedClients
      ensures clients == old(clients)[c := old(clients)[c].(blocked := true, btype := btype)]
      ensures Counted(clients, blockedClients, byType)
      ensures postponedClients == if btype.Postponed? then old(postponedClients) + [c] else old(postponedClients)
      ensures old(Valid()) && !WaitsForData(btype) ==> Valid()
    {
      hide Counted, Indexed, Queued, PostponedIs, InOrder, AllTyped;
      CountBlock(clients, blockedClients, byType, c, clients[c].(blocked := true, btype := btype));
      clients := clients[c := clients[c].(blocked := true, btype := btype)];
      blockedClients := blockedClients + 1;
      assert btype in byType by { Counts(old(clients), blockedClients - 1, byType); }
      byType := byType[btype := byType[btype] + 1];
      if btype.Postponed? {
        postponedClients := postponedClients + [c];
      }
      if old(Valid()) && !WaitsForData(btype) {
        TypedAt(old(clients), c);
        AfterBlock(old(clients), order, old(postponedClients), unblockedClients, c, clients[c]);
        IndexedSame(blockingKeys, order, old(clients), clients);
      }
    }

    /** The keys of a list without repetition. */
    static function KeySet(keys: seq<Key>): set<Key> { set k | k in keys }

    /** One round of the loop of `blockForKeys`; `before` blocked earlier than the client. */
    method WaitForKey(c: Id, key: Key, ghost before: seq<Id>)
      requires c in clients && Indexed(blockingKeys, before + [c], clients) && Counted(clients, blockedClients, byType)
      modifies this`clients, this`blockingKeys
      ensures clients == old(clients)[c := old(clients)[c].(keys := old(clients)[c].keys + {key})]
      ensures Indexed(blockingKeys, before + [c], clients) && Counted(clients, blockedClients, byType)
    {
      hide Counted, Indexed;
      if key in clients[c].keys {
        assert clients[c].keys + {key} == clients[c].keys;
        return;
      }
      IndexedAdd(blockingKeys, before, clients, c, key);
      CountSame(clients, blockedClients, byType, c, clients[c].(keys := clients[c].keys + {key}));
      clients := clients[c := clients[c].(keys := clients[c].keys + {key})];
      var dk := DbKey(clients[c].db, key);
      var l := if dk in blockingKeys then blockingKeys[dk] else [];
      blockingKeys := blockingKeys[dk := l + [c]];
    }

    /** The loop of `blockForKeys`: a repeated key is ignored. */
    method WaitForKeys(c: Id, keys: seq<Key>, ghost before: seq<Id>)
      requires c in clients && clients[c].keys == {}
      requires Indexed(blockingKeys, before + [c], clients) && Counted(clients, blockedClients, byType)
      modifies this`clients, this`blockingKeys
      ensures clients == old(clients)[c := old(clients)[c].(keys := KeySet(keys))]
      ensures Indexed(blockingKeys, before + [c], clients) && Counted(clients, blockedClients, byType)
    {
      hide Counted, Indexed;
      assert KeySet(keys[..0]) == {} && clients == clients[c := clients[c]];
      for j := 0 to |keys|
        invariant Indexed(blockingKeys, before + [c], clients) && Counted(clients, blockedClients, byType)
        invariant clients == old(clients)[c := old(clients)[c].(keys := KeySet(keys[..j]))]
      {
        assert keys[..j + 1] == keys[..j] + [keys[j]];
        assert KeySet(keys[..j + 1]) == KeySet(keys[..j]) + {keys[j]};
        WaitForKey(c, keys[j], before);
      }
      assert keys[..|keys|] == keys;
    }

    /** `blockForKeys` */
    method BlockForKeys(c: Id, btype: BType, keys: seq<Key>)
      requires Valid() && c in clients && !clients[c].blocked && WaitsForData(btype) && keys != []
      modifies this`clients, this`blockedClients, this`byType, this`postponedClients, this`blockingKeys, this`order
      ensures Valid() && order == old(order) + [c]
      ensures clients == old(clients)[c := old(clients)[c].(blocked := true, btype := btype, keys := KeySet(keys))]
    {
      hide Counted, Indexed, Queued, PostponedIs, InOrder, AllTyped;
      assert keys[0] in KeySet(keys);
      AfterBlock(clients, order, postponedClients, unblockedClients, c,
                 clients[c].(blocked := true, btype := btype, keys := KeySet(keys)));
      IndexedArrives(blockingKeys, order, clients, c);
      WaitForKeys(c, keys, order);
      order := order + [c];
      ghost var before := clients;
      BlockClient(c, btype);
      assert clients == old(clients)[c := old(clients)[c].(blocked := true, btype := btype, keys := KeySet(keys))];
      IndexedSame(blockingKeys, order, before, clients);
    }

    // ---- unblocking ---------------------------------------------------------------------------

    /** `unblockClientWaitingData`: the loop over the client's keys, in whatever order the dictionary gives. */
    method UnblockClientWaitingData(c: Id)
      requires c in clients && Indexed(blockingKeys, order, clients) && Counted(clients, blockedClients, byType)
      modifies this`clients, this`blockingKeys
      ensures clients == WithKeys(old(clients), c, {})
      ensures Indexed(blockingKeys, order, clients) && Counted(clients, blockedClients, byType)
    {
      hide Counted, Indexed;
      var todo := clients[c].keys;
      assert WithKeys(clients, c, todo) == clients;
      while todo != {}
        invariant clients == old(clients)
        invariant Indexed(blockingKeys, order, WithKeys(clients, c, todo))
        decreases todo
      {
        var key :| key in todo;
        var dk := DbKey(clients[c].db, key);
        IndexedDrop(blockingKeys, order, WithKeys(clients, c, todo), c, key);
        assert WithKeys(WithKeys(clients, c, todo), c, todo - {key}) == WithKeys(clients, c, todo - {key});
        var l := Without(blockingKeys[dk], c);
        blockingKeys := if l == [] then blockingKeys - {dk} else blockingKeys[dk := l];
        todo := todo - {key};
      }
      CountSame(clients, blockedClients, byType, c, clients[c].(keys := {}));
      clients := clients[c := clients[c].(keys := {})];
    }

    /** `queueClientForReprocessing` */
    method QueueClientForReprocessing(c: Id)
      requires Valid() && c in clients
      modifies this`clients, this`unblockedClients
      ensures Valid() && clients == old(clients)[c := old(clients)[c].(unblocked := true)]
      ensures unblockedClients == if old(clients)[c].unblocked then old(unblockedClients) else old(unblockedClients) + [c]
    {
      hide Counted, Indexed, Queued, PostponedIs, InOrder, AllTyped;
      AfterFlag(clients, order, postponedClients, c, true);
      AfterRequeue(clients, unblockedClients, c);
      CountSame(clients, blockedClients, byType, c, clients[c].(unblocked := true));
      if !clients[c].unblocked {
        clients := clients[c := clients[c].(unblocked := true)];
        unblockedClients := unblockedClients + [c];
      } else {
        assert clients == clients[c := clients[c]];
      }
      IndexedSame(blockingKeys, order, old(clients), clients);
    }

    /** `unblockClient` for the kinds of this model. */
    method UnblockClient(c: Id)
      requires Valid() && c in clients && clients[c].blocked
      modifies this`clients, this`blockingKeys, this`order, this`blockedClients, this`byType, this`unblockedClients, this`postponedClients
      ensures Valid()
      ensures clients == old(clients)[c := Client(false, true, NotBlocked, old(clients)[c].db, {})]
      ensures unblockedClients == if old(clients)[c].unblocked then old(unblockedClients) else old(unblockedClients) + [c]
      ensures order == Without(old(order), c) && blockedClients == old(blockedClients) - 1
    {
      hide Counted, Indexed, Queued, PostponedIs, InOrder, AllTyped;
      Release(c);
      QueueClientForReprocessing(c);
    }

    /** The first part of `unblockClient`: the client leaves all lists of waiting clients and the counters. */
    method Release(c: Id)
      requires Valid() && c in clients && clients[c].blocked
      modifies this`clients, this`blockingKeys, this`order, this`blockedClients, this`byType, this`postponedClients
      ensures Valid()
      ensures clients == old(clients)[c := Client(false, old(clients)[c].unblocked, NotBlocked, old(clients)[c].db, {})]
      ensures order == Without(old(order), c) && blockedClients == old(blockedClients) - 1
    {
      hide Counted, Indexed, Queued, PostponedIs, InOrder, AllTyped;
      TypedAt(clients, c);
      ghost var d := Client(false, clients[c].unblocked, NotBlocked, clients[c].db, {});
      AfterUnblock(clients, order, postponedClients, unblockedClients, c, d);
      if WaitsForData(clients[c].btype) {
        UnblockClientWaitingData(c);
      } else if clients[c].btype.Postponed? {
        postponedClients := Without(postponedClients, c);
      }
      assert clients == WithKeys(old(clients), c, {});
      IndexedLeaves(blockingKeys, order, clients, c);
      order := Without(order, c);
      ghost var before := clients;
      Uncount(c);
      assert clients == old(clients)[c := d];
      IndexedSame(blockingKeys, order, before, clients);
    }

    method Uncount(c: Id)
      requires c in clients && clients[c].blocked && Counted(clients, blockedClients, byType)
      modifies this`clients, this`blockedClients, this`byType
      ensures Counted(clients, blockedClients, byType) && blockedClients == old(blockedClients) - 1
      ensures clients == old(clients)[c := old(clients)[c].(blocked := false, btype := NotBlocked)]
    {
      hide Counted;
      var t := clients[c].btype;
      CountUnblock(clients, blockedClients, byType, c, clients[c].(blocked := false, btype := NotBlocked));
      Counts(clients, blockedClients, byType);
      blockedClients := blockedClients - 1;
      byType := byType[t := byType[t] - 1];
      clients := clients[c := clients[c].(blocked := false, btype := NotBlocked)];
    }

    /** One round of `processUnblockedClients`; `run` tells whether the client's pending input is processed now. */
    method TakeUnblocked() returns (c: Id, run: bool)
      requires Valid() && unblockedClients != []
      modifies this`clients, this`unblockedClients
      ensures Valid() && c == old(unblockedClients)[0] && c in old(clients) && unblockedClients == old(unblockedClients)[1..]
      ensures clients == old(clients)[c := old(clients)[c].(unblocked := false)] && run == !old(clients)[c].blocked
    {
      hide Counted, Indexed, Queued, PostponedIs, InOrder, AllTyped;
      c := unblockedClients[0];
      AfterTake(clients, unblockedClients);
      AfterFlag(clients, order, postponedClients, c, false);
      CountSame(clients, blockedClients, byType, c, clients[c].(unblocked := false));
      unblockedClients := unblockedClients[1..];
      clients := clients[c := clients[c].(unblocked := false)];
      run := !clients[c].blocked;
      IndexedSame(blockingKeys, order, old(clients), clients);
    }
  
    // ---- ready keys -----------------------------------------------------------------------------

    /** `signalKeyAsReady`; `l` is the part of the queue that is being worked off. */
    method SignalKeyAsReady(dk: DbKey, otype: ObjType, ghost l: seq<DbKey>)
      requires Valid() && ReadyIs(readyDict, l + readyList)
      modifies this`readyList, this`readyDict
      ensures ReadyIs(readyDict, l + readyList)
      ensures readyList == old(readyList) || readyList == old(readyList) + [dk]
      ensures Wanted(clients, dk, BlockedTypeOf(otype)) && !BlockedTypeOf(otype).NotBlocked? ==> dk in readyDict
      ensures otype.ListObj? && (exists c :: Waits(clients, c, dk) && clients[c].btype == OnList) ==> dk in readyDict
      ensures otype.ZsetObj? && (exists c :: Waits(clients, c, dk) && clients[c].btype == OnZset) ==> dk in readyDict
      ensures otype.StreamObj? && (exists c :: Waits(clients, c, dk) && clients[c].btype == OnStream) ==> dk in readyDict
      ensures readyList != old(readyList) ==> (exists c :: Waits(clients, c, dk)) && dk !in old(readyDict) && dk in readyDict
      ensures !otype.ListObj? && !otype.ZsetObj? && !otype.StreamObj? ==> readyList == old(readyList)
    {
      hide Counted, Indexed, Queued, PostponedIs, InOrder, AllTyped, Wanted;
      var btype := BlockedTypeOf(otype);
      WantedIs(clients, dk);
      if btype.NotBlocked? { return; }
      if Wanted(clients, dk, btype) {
        WantedIsSeen(clients, blockingKeys, order, blockedClients, byType, dk, btype);
      }
      Counts(clients, blockedClients, byType);
      if byType[btype] == 0 { return; }
      if dk !in blockingKeys { return; }
      if dk in readyDict { return; }
      IndexedIsWaited(clients, blockingKeys, order, dk);
      ReadySignalled(readyDict, l, readyList, dk);
      readyList := readyList + [dk];
      readyDict := readyDict + {dk};
    }

    /** Serving one client: its command may signal any keys; then it is unblocked. */
    method ServeClient(c: Id, signals: seq<(DbKey, ObjType)>, ghost l: seq<DbKey>)
      requires Valid() && c in clients && clients[c].blocked && ReadyIs(readyDict, l + readyList)
      modifies this
      ensures Valid() && ReadyIs(readyDict, l + readyList) && blockedClients == old(blockedClients) - 1
      ensures order == Without(old(order), c)
      ensures clients == old(clients)[c := Client(false, true, NotBlocked, old(clients)[c].db, {})]
    {
      hide Counted, Indexed, Queued, PostponedIs, InOrder, AllTyped, ReadyIs;
      for i := 0 to |signals|
        invariant Valid() && ReadyIs(readyDict, l + readyList) && blockedClients == old(blockedClients)
        invariant clients == old(clients) && order == old(order)
      {
        SignalKeyAsReady(signals[i].0, signals[i].1, l);
      }
      UnblockClient(c);
    }
  
    /**
     The loops of `serveClientsBlockedOnListKey`, `...SortedSetKey` and `...StreamKey` over the waiters
     of one key. What a served command signals, whether it deletes the key, and whether a stream
     has news for a client are left to the environment.
     */
    method ServeWaiters(waiters: seq<Id>, t: BType, ghost l: seq<DbKey>) returns (served: seq<Id>)
      requires Valid() && WaitsForData(t) && ReadyIs(readyDict, l + readyList)
      requires NoDup(waiters) && forall c :: c in waiters ==> c in clients && clients[c].blocked
      modifies this
      ensures Valid() && ReadyIs(readyDict, l + readyList) && blockedClients == old(blockedClients) - |served|
      ensures served == [] ==> readyList == old(readyList)
      ensures (clients, order) == (Released(old(clients), served), WithoutAll(old(order), served))
      ensures var waiting := OfKind(waiters, old(clients), t);
              if t.OnStream? then forall c :: c in served ==> c in waiting
              else served <= waiting && (waiting != [] ==> served != [])
    {
      hide Counted, Indexed, Queued, PostponedIs, InOrder, AllTyped, ReadyIs, OfKind, Released, WithoutAll;
      served := [];
      NobodyServed(clients, order);
      ghost var rest := OfKind(waiters, clients, t);
      assert waiters[0..] == waiters;
      for i := 0 to |waiters|
        invariant Valid() && ReadyIs(readyDict, l + readyList) && blockedClients == old(blockedClients) - |served|
        invariant served == [] ==> readyList == old(readyList)
        invariant (clients, order) == (Released(old(clients), served), WithoutAll(old(order), served))
        invariant forall k :: i <= k < |waiters| ==> waiters[k] in clients && clients[waiters[k]] == old(clients)[waiters[k]]
        invariant rest == OfKind(waiters[i..], old(clients), t)
        invariant forall c :: c in served || c in rest ==> c in OfKind(waiters, old(clients), t)
        invariant !t.OnStream? ==> served + rest == OfKind(waiters, old(clients), t)
      {
        var c := waiters[i];
        assert c in waiters;
        OfKindStep(waiters, i, old(clients), t);
        if clients[c].btype != t {
          assert [] + OfKind(waiters[i + 1..], old(clients), t) == OfKind(waiters[i + 1..], old(clients), t);
          continue;
        }
        assert rest == [c] + OfKind(waiters[i + 1..], old(clients), t);
        rest := OfKind(waiters[i + 1..], old(clients), t);
        var news: bool := *;
        if t.OnStream? && !news { continue; }
        var signals: seq<(DbKey, ObjType)> := *;
        ServeClient(c, signals, l);
        OneMore(old(clients), old(order), served, c);
        assert (served + [c]) + rest == served + ([c] + rest);
        served := served + [c];
        var deleted: bool := *;
        if !t.OnStream? && deleted { break; }
      }
      OfKindEnd(waiters, old(clients), t);
    }

    /** The head of `serveClientsBlockedOnListKey` and its two siblings. */
    method ServeClientsBlockedOnKey(dk: DbKey, otype: ObjType, ghost l: seq<DbKey>) returns (served: seq<Id>)
      requires Valid() && !BlockedTypeOf(otype).NotBlocked? && ReadyIs(readyDict, l + readyList)
      modifies this
      ensures Valid() && ReadyIs(readyDict, l + readyList) && blockedClients == old(blockedClients) - |served|
      ensures served == [] ==> readyList == old(readyList)
      ensures (clients, order) == (Released(old(clients), served), WithoutAll(old(order), served))
      ensures Fair(old(clients), old(order), Turn(dk, Some(otype), served))
    {
      hide Counted, Queued, PostponedIs, InOrder, AllTyped, ReadyIs, OfKind, Released, WithoutAll, Waiters;
      var t := BlockedTypeOf(otype);
      served := [];
      NobodyServed(clients, order);
      NobodyWaits(clients, t);
      Counts(clients, blockedClients, byType);
      if byType[t] == 0 {
        NoneOfType(clients, blockedClients, byType, t);
        NoKind(Waiters(order, clients, dk), clients, t);
        return;
      }
      if dk in blockingKeys {
        WaitersBlocked(clients, blockingKeys, order, dk);
        served := ServeWaiters(blockingKeys[dk], t, l);
      }
    }

    /**
     `handleClientsBlockedOnKeys`: it ends, because every round either unblocks a client or
     leaves nothing new in the queue, and then no key is ready any more. Every queued key gets
     its turn, in order, and each turn is fair.
     */
    method HandleClientsBlockedOnKeys() returns (ghost turns: seq<Turn>)
      requires Valid() && ReadyIs(readyDict, readyList)
      modifies this
      ensures Valid() && readyList == [] && readyDict == {}
      ensures AllFair(old(clients), old(order), turns) && (clients, order) == AfterTurns(old(clients), old(order), turns)
      ensures |turns| >= |old(readyList)| && forall i :: 0 <= i < |old(readyList)| ==> turns[i].dk == old(readyList)[i]
      ensures forall i :: 0 <= i < |turns| ==>
                var (c, o) := AfterTurns(old(clients), old(order), turns[..i]); ServesRight(c, o, turns[i])
    {
      hide Counted, Indexed, Queued, PostponedIs, InOrder, AllTyped, AllFair, AfterTurns, ServesRight;
      turns := [];
      NoTurns(clients, order);
      while readyList != []
        invariant Valid() && ReadyIs(readyDict, readyList)
        invariant AllFair(old(clients), old(order), turns) && (clients, order) == AfterTurns(old(clients), old(order), turns)
        invariant turns == [] ==> readyList == old(readyList)
        invariant turns != [] ==> |turns| >= |old(readyList)| && forall i :: 0 <= i < |old(readyList)| ==> turns[i].dk == old(readyList)[i]
        decreases blockedClients, |readyList|
      {
        CountedIsNat(clients, blockedClients, byType);
        turns := WorkOff(old(clients), old(order), turns);
        CountedIsNat(clients, blockedClients, byType);
      }
      AllServeRight(old(clients), old(order), turns);
    }

    /** One round: the whole queue is taken over and worked off key by key. */
    method WorkOff(ghost clients0: Clients, ghost order0: seq<Id>, ghost past: seq<Turn>) returns (ghost turns: seq<Turn>)
      requires Valid() && ReadyIs(readyDict, readyList)
      requires AllFair(clients0, order0, past) && (clients, order) == AfterTurns(clients0, order0, past)
      modifies this
      ensures Valid() && ReadyIs(readyDict, readyList) && blockedClients <= old(blockedClients)
      ensures blockedClients == old(blockedClients) ==> readyList == []
      ensures AllFair(clients0, order0, turns) && (clients, order) == AfterTurns(clients0, order0, turns)
      ensures |turns| == |past| + |old(readyList)| && past <= turns
      ensures forall i :: 0 <= i < |old(readyList)| ==> turns[|past| + i].dk == old(readyList)[i]
    {
      hide Counted, Indexed, Queued, PostponedIs, InOrder, AllTyped, ReadyIs, AllFair, AfterTurns, Fair, Released, WithoutAll;
      var l := readyList;
      ghost var queue := l;
      turns := past;
      readyList := [];
      assert l + [] == l;
      while l != []
        invariant Valid() && ReadyIs(readyDict, l + readyList) && blockedClients <= old(blockedClients)
        invariant blockedClients == old(blockedClients) ==> readyList == []
        invariant AllFair(clients0, order0, turns) && (clients, order) == AfterTurns(clients0, order0, turns)
        invariant |turns| + |l| == |past| + |queue| && past <= turns && queue[|queue| - |l|..] == l
        invariant forall i :: |past| <= i < |turns| ==> turns[i].dk == queue[i - |past|]
        decreases |l|
      {
        var dk := l[0];
        ReadyTaken(readyDict, l, readyList);
        readyDict := readyDict - {dk};
        var present: bool := *;
        var objtype: ObjType := *;
        var found := if present then Some(objtype) else None;
        var served := [];
        NobodyServed(clients, order);
        if found.None? || BlockedTypeOf(found.value).NotBlocked? { Untouched(clients, order, dk, found); }
        if found.Some? && !BlockedTypeOf(found.value).NotBlocked? {
          served := ServeClientsBlockedOnKey(dk, found.value, l[1..]);
        }
        NextTurn(clients0, order0, turns, Turn(dk, found, served));
        turns := turns + [Turn(dk, found, served)];
        l := l[1..];
      }
      assert [] + readyList == readyList;
    }
  }
}
