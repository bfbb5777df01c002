/**
 libco's timer wheel and the part of the event loop that fires timeouts. A wheel slot is an
 intrusive list; every node is on one list at most, because it names the list it is on.
 */
module CoTimer {
  import opened Common
  import opened CoList
  import opened CoLoop

  // ---- several lists side by side -------------------------------------------------

  /** A node that names a list is on it. */
  ghost predicate AtHome(lists: seq<ItemList>, nodes: set<Item>)
    reads lists, nodes`link
  {
    forall x :: x in nodes && x.link != null ==> x.link in lists && x in x.link.items
  }

  /** Lists that are well linked and all different, with nodes from a given set that are on no other list. */
  ghost predicate AllValid(lists: seq<ItemList>, nodes: set<Item>)
    reads lists, nodes`prev, nodes`next, nodes`link
  {
    (forall i, x :: 0 <= i < |lists| && x in lists[i].items ==> x in nodes)
    && (forall i :: 0 <= i < |lists| ==> lists[i].Valid())
    && (forall i, j :: 0 <= i < j < |lists| ==> lists[i] != lists[j])
    && AtHome(lists, nodes)
  }

  lemma MoreNodes(lists: seq<ItemList>, nodes: set<Item>, more: set<Item>)
    requires AllValid(lists, nodes) && forall x :: x in more ==> x in nodes || x.link == null
    ensures AllValid(lists, nodes + more)
  {
  }

  lemma HomeIs(lists: seq<ItemList>, nodes: set<Item>, x: Item)
    requires AllValid(lists, nodes) && x in nodes && x.link != null
    ensures exists k :: 0 <= k < |lists| && lists[k] == x.link && x in lists[k].items
  {
    var k :| 0 <= k < |lists| && lists[k] == x.link;
    assert x in lists[k].items;
  }

  lemma InNodes(lists: seq<ItemList>, nodes: set<Item>)
    requires AllValid(lists, nodes)
    ensures forall k, x :: 0 <= k < |lists| && x in lists[k].items ==> x in nodes
  {
  }

  lemma HeadIs(lists: seq<ItemList>, nodes: set<Item>, i: nat)
    requires AllValid(lists, nodes) && i < |lists| && lists[i].items != []
    ensures lists[i].head == lists[i].items[0] && lists[i].items[0] in nodes && lists[i].items[0] !in lists[i].items[1..]
  {
    assert lists[i].Valid();
  }

  lemma ValidAt(lists: seq<ItemList>, nodes: set<Item>, i: nat)
    requires AllValid(lists, nodes) && i < |lists|
    ensures lists[i].Valid()
  {
  }

  lemma EmptyHead(lists: seq<ItemList>, nodes: set<Item>, i: nat)
    requires AllValid(lists, nodes) && i < |lists|
    ensures lists[i].head == null <==> lists[i].items == []
  {
    assert lists[i].Valid();
  }

  lemma OnList(lists: seq<ItemList>, nodes: set<Item>, i: nat, x: Item)
    requires AllValid(lists, nodes) && i < |lists| && x in lists[i].items
    ensures x.link == lists[i]
  {
    OnItsList(lists[i], x);
  }

  /** No node is on two lists. */
  lemma OnOneList(lists: seq<ItemList>, nodes: set<Item>, i: nat, j: nat)
    requires AllValid(lists, nodes) && i < |lists| && j < |lists| && i != j
    ensures forall x :: x in lists[i].items ==> x !in lists[j].items
  {
    Apart(lists[i], lists[j]);
  }

  /** A node that names no list is on none. */
  lemma FreeIsNowhere(lists: seq<ItemList>, nodes: set<Item>, x: Item)
    requires AllValid(lists, nodes) && x.link == null
    ensures forall k :: 0 <= k < |lists| ==> x !in lists[k].items
  {
    forall k | 0 <= k < |lists| ensures x !in lists[k].items {
      if x in lists[k].items { OnItsList(lists[k], x); assert false; }
    }
  }

  method JoinAt(lists: seq<ItemList>, ghost nodes: set<Item>, i: nat, j: nat)
    requires AllValid(lists, nodes) && i < |lists| && j < |lists| && i != j
    modifies lists[i], lists[j], lists[i].items`next, lists[j].items`prev, lists[j].items`link
    ensures AllValid(lists, nodes)
    ensures lists[i].items == old(lists[i].items) + old(lists[j].items) && lists[j].items == []
    ensures forall k :: 0 <= k < |lists| && k != i && k != j ==> lists[k].items == old(lists[k].items)
  {
    forall k | 0 <= k < |lists| && k != i && k != j
      ensures forall x :: x in lists[k].items ==> x !in lists[i].items && x !in lists[j].items
    {
      OnOneList(lists, nodes, k, i);
      OnOneList(lists, nodes, k, j);
    }
    ghost var moved := lists[j].items;
    lists[i].Join(lists[j]);
    forall x | x in nodes && x.link != null ensures x.link in lists && x in x.link.items {
      if x in moved { OnItsList(lists[i], x); }
    }
    forall k | 0 <= k < |lists| && k != i && k != j ensures lists[k].Valid() {
      var s := lists[k].items;
      assert old(Chained(s, lists[k].head, lists[k].tail, lists[k]));
      forall m | 0 <= m < |s| ensures s[m].next == old(s[m].next) && s[m].prev == old(s[m].prev) && s[m].link == old(s[m].link) {
        assert s[m] in s;
      }
    }
  }

  method AddTailAt(lists: seq<ItemList>, ghost nodes: set<Item>, i: nat, ap: Item)
    requires AllValid(lists, nodes) && i < |lists| && (ap.link == null ==> ap in nodes)
    modifies lists[i], ap`prev, ap`next, ap`link, lists[i].items`next
    ensures AllValid(lists, nodes)
    ensures forall k :: 0 <= k < |lists| && k != i ==> lists[k].items == old(lists[k].items)
    ensures lists[i].items == if old(ap.link) != null then old(lists[i].items) else old(lists[i].items) + [ap]
  {
    hide AllValid;
    if ap.link == null {
      AppendAt(lists, nodes, i, ap);
    } else {
      lists[i].AddTail(ap) by { ValidAt(lists, nodes, i); }
      assert AllValid(lists, nodes);
    }
  }

  method AppendAt(lists: seq<ItemList>, ghost nodes: set<Item>, i: nat, ap: Item)
    requires AllValid(lists, nodes) && i < |lists| && ap.link == null && ap in nodes
    modifies lists[i], ap`prev, ap`next, ap`link, lists[i].items`next
    ensures AllValid(lists, nodes)
    ensures forall k :: 0 <= k < |lists| && k != i ==> lists[k].items == old(lists[k].items)
    ensures lists[i].items == old(lists[i].items) + [ap]
  {
    forall k | 0 <= k < |lists| && k != i
      ensures forall x :: x in lists[k].items ==> x !in lists[i].items
    {
      OnOneList(lists, nodes, k, i);
    }
    FreeIsNowhere(lists, nodes, ap);
    lists[i].AddTail(ap);
    forall x | x in nodes && x.link != null ensures x.link in lists && x in x.link.items {
      if x != ap { assert x.link == old(x.link); }
    }
    forall k | 0 <= k < |lists| && k != i ensures lists[k].Valid() {
      var s := lists[k].items;
      assert old(Chained(s, lists[k].head, lists[k].tail, lists[k]));
      forall m | 0 <= m < |s| ensures s[m].next == old(s[m].next) && s[m].prev == old(s[m].prev) && s[m].link == old(s[m].link) {
        assert s[m] in s && s[m] != ap;
      }
    }
  }

  method PopHeadAt(lists: seq<ItemList>, ghost nodes: set<Item>, i: nat)
    requires AllValid(lists, nodes) && i < |lists| && lists[i].items != []
    modifies lists[i], lists[i].items`prev, lists[i].items`next, lists[i].items`link
    ensures AllValid(lists, nodes)
    ensures forall k :: 0 <= k < |lists| && k != i ==> lists[k].items == old(lists[k].items)
    ensures lists[i].items == old(lists[i].items)[1..] && old(lists[i].items)[0].link == null
    ensures forall k :: 0 <= k < |lists| ==> old(lists[i].items)[0] !in lists[k].items
  {
    ghost var lp := lists[i].items[0];
    forall k | 0 <= k < |lists| && k != i
      ensures (forall x :: x in lists[k].items ==> x !in lists[i].items) && lp !in lists[k].items
    {
      OnOneList(lists, nodes, k, i);
      assert lp in lists[i].items;
    }
    lists[i].PopHead();
    forall k | 0 <= k < |lists| && k != i ensures lists[k].Valid() {
      var s := lists[k].items;
      assert old(Chained(s, lists[k].head, lists[k].tail, lists[k]));
      forall m | 0 <= m < |s| ensures s[m].next == old(s[m].next) && s[m].prev == old(s[m].prev) && s[m].link == old(s[m].link) {
        assert s[m] in s;
      }
    }
  }

  method RemoveAt(lists: seq<ItemList>, ghost nodes: set<Item>, ghost i: nat, ap: Item)
    requires AllValid(lists, nodes) && i < |lists| && ap.link == lists[i] && ap in lists[i].items
    modifies lists[i], ap`link, lists[i].items`prev, lists[i].items`next
    ensures AllValid(lists, nodes) && ap.link == null
    ensures forall k :: 0 <= k < |lists| && k != i ==> lists[k].items == old(lists[k].items)
    ensures lists[i].items == Removed(old(lists[i].items), ap) && ap !in lists[i].items
  {
    forall k | 0 <= k < |lists| && k != i
      ensures forall x :: x in lists[k].items ==> x !in lists[i].items
    {
      OnOneList(lists, nodes, k, i);
    }
    ghost var s := lists[i].items;
    ghost var at := RemoveFromLink(ap);
    RemovedAt(s, at);
    forall x | x in nodes && x.link != null ensures x.link in lists && x in x.link.items {
      assert x != ap && x.link == old(x.link);
    }
    forall k | 0 <= k < |lists| && k != i ensures lists[k].Valid() {
      var s := lists[k].items;
      assert old(Chained(s, lists[k].head, lists[k].tail, lists[k]));
      forall m | 0 <= m < |s| ensures s[m].next == old(s[m].next) && s[m].prev == old(s[m].prev) && s[m].link == old(s[m].link) {
        assert s[m] in s;
      }
    }
  }

  // ---- slot arithmetic --------------------------------------------------------------

  /** How many slots after the start slot the slot `k` comes. */
  function Offset(startIdx: nat, k: nat, size: nat): (r: nat)
    requires size > 0
    ensures r < size
  {
    (k - startIdx) % size
  }

  /** The slot `diff` ticks ahead. */
  function SlotFor(startIdx: nat, diff: nat, size: nat): (k: nat)
    requires size > 0
    ensures k < size
  {
    (startIdx + diff) % size
  }

  /** The slot computed for a distance is the one slot at that distance. */
  lemma SlotAtOffset(startIdx: nat, j: nat, k: nat, size: nat)
    requires j < size && k < size
    ensures SlotFor(startIdx, j, size) == k <==> j == Offset(startIdx, k, size)
  {
    var q := (k - startIdx) / size;
    if j == Offset(startIdx, k, size) {
      ModIs(startIdx + j, size, -q, k);
    } else if (startIdx + j) % size == k {
      ModIs(k - startIdx, size, -((startIdx + j) / size), j);
    }
  }

  lemma OneSlotAtOffset(startIdx: nat, j: nat, size: nat)
    requires j < size
    ensures forall k :: 0 <= k < size ==> (SlotFor(startIdx, j, size) == k <==> j == Offset(startIdx, k, size))
  {
    forall k | 0 <= k < size ensures SlotFor(startIdx, j, size) == k <==> j == Offset(startIdx, k, size) {
      SlotAtOffset(startIdx, j, k, size);
    }
  }

  /** Moving the start slot by `d` brings every slot nearer by `d`, around the wheel. */
  lemma OffsetShift(startIdx: nat, d: nat, k: nat, size: nat)
    requires k < size && d < size
    ensures Offset(startIdx + d, k, size)
            == Offset(startIdx, k, size) - d + (if d <= Offset(startIdx, k, size) then 0 else size)
  {
    var q, o := (k - startIdx) / size, Offset(startIdx, k, size);
    if d <= o {
      ModIs(k - startIdx - d, size, q, o - d);
    } else {
      ModIs(k - startIdx - d, size, q - 1, o - d + size);
    }
  }

  // ---- the wheel and the event loop -----------------------------------------------------

  function Min(a: int, b: int): int { if a < b then a else b }

  const INT_MAX: nat := 0x7fff_ffff

  /** A number of ticks cut to an `int`. */
  function ToInt(x: nat): (r: int)
    ensures x <= INT_MAX ==> r == x
    ensures r <= x
  {
    var low := x % 0x1_0000_0000;
    if low <= INT_MAX then low else low - 0x1_0000_0000
  }

  /** The number of ticks since the start survives the cut, or the cut number still covers the wheel. */
  predicate Fits(start: nat, now: nat, size: nat) {
    now < start || ToInt(now - start + 1) == now - start + 1 || ToInt(now - start + 1) >= size
  }

  // ---- a wheel as a value: the contents of its slots --------------------------------------

  type Slots = c: seq<seq<Item>> | |c| > 0 witness [[]]

  /** The tick at which the wheel hands an item out: its own, or the horizon it was clamped to. */
  ghost function Due(added: map<Item, nat>, x: Item, size: nat): int
    requires x in added
  {
    Min(x.expire, added[x] + size - 1)
  }

  /** An item is in the slot that its due tick stands for, and in no other. */
  ghost predicate InSlot(c: Slots, added: map<Item, nat>, x: Item, start: nat, startIdx: nat)
    requires x in added
  {
    added[x] <= start <= Due(added, x, |c|) < start + |c|
    && forall k :: 0 <= k < |c| ==> (x in c[k] <==> Offset(startIdx, k, |c|) == Due(added, x, |c|) - start)
  }

  ghost predicate Placed(c: Slots, added: map<Item, nat>, start: nat, startIdx: nat)
  {
    (forall x :: x in added ==> InSlot(c, added, x, start, startIdx))
    && (forall k, x :: 0 <= k < |c| && x in c[k] ==> x in added)
  }

  lemma PlacedOne(c: Slots, added: map<Item, nat>, start: nat, startIdx: nat, item: Item, k: nat)
    requires Placed(c, added, start, startIdx) && item !in added && item.expire >= start
    requires k == SlotFor(startIdx, Min(item.expire - start, |c| - 1), |c|)
    ensures Placed(c[k := c[k] + [item]], added[item := start], start, startIdx)
  {
    hide Offset, SlotFor;
    OneSlotAtOffset(startIdx, Min(item.expire - start, |c| - 1), |c|);
    var added' := added[item := start];
    forall x | x in added' ensures InSlot(c[k := c[k] + [item]], added', x, start, startIdx) {
      if x != item { assert InSlot(c, added, x, start, startIdx); }
    }
  }

  lemma PlacedWithout(c: Slots, added: map<Item, nat>, start: nat, startIdx: nat, x: Item, k: nat, s: seq<Item>)
    requires Placed(c, added, start, startIdx) && k < |c| && x in c[k]
    requires forall y :: y in s ==> y in c[k] && y != x
    requires forall y :: y in c[k] && y != x ==> y in s
    ensures Placed(c[k := s], added - {x}, start, startIdx)
  {
    hide Offset;
    var c', added' := c[k := s], added - {x};
    assert InSlot(c, added, x, start, startIdx);
    OneSlotAtOffset(startIdx, Due(added, x, |c|) - start, |c|);
    forall y | y in added' ensures InSlot(c', added', y, start, startIdx) {
      assert InSlot(c, added, y, start, startIdx);
    }
    forall j, y | 0 <= j < |c| && y in c'[j] ensures y in added' {
      assert y in c[j];
    }
  }

  /** The items of `s` are exactly the waiting ones that are due before tick `t`. */
  ghost predicate DueBefore(added: map<Item, nat>, s: seq<Item>, size: nat, t: int) {
    (forall x :: x in s ==> x in added && Due(added, x, size) < t)
    && (forall x :: x in added && Due(added, x, size) < t ==> x in s)
  }

  /** The slot a tick stands for holds exactly the items due at that tick. */
  lemma SlotHolds(c: Slots, added: map<Item, nat>, start: nat, startIdx: nat, i: nat)
    requires Placed(c, added, start, startIdx) && i < |c|
    ensures forall x :: x in c[SlotFor(startIdx, i, |c|)] ==> x in added && Due(added, x, |c|) == start + i
    ensures forall x :: x in added && Due(added, x, |c|) == start + i ==> x in c[SlotFor(startIdx, i, |c|)]
  {
    hide Offset, SlotFor;
    OneSlotAtOffset(startIdx, i, |c|);
    forall x | x in added ensures x in c[SlotFor(startIdx, i, |c|)] <==> Due(added, x, |c|) == start + i {
      assert InSlot(c, added, x, start, startIdx);
    }
  }

  /** The first `n` slots from the start slot, one after the other. */
  ghost function Gather(c: Slots, startIdx: nat, n: nat): seq<Item>
  {
    if n == 0 then [] else Gather(c, startIdx, n - 1) + c[SlotFor(startIdx, n - 1, |c|)]
  }

  /** The first `n` slots from the start slot are empty, the others hold what they held. */
  ghost predicate Swept(c: Slots, startIdx: nat, n: nat, c': Slots) {
    |c'| == |c| && forall k :: 0 <= k < |c| ==> c'[k] == if Offset(startIdx, k, |c|) < n then [] else c[k]
  }

  /** Waiting items in the order in which they are due. */
  ghost predicate InDueOrder(added: map<Item, nat>, s: seq<Item>, size: nat)
  {
    (forall x :: x in s ==> x in added)
    && forall i, j :: 0 <= i < j < |s| ==> Due(added, s[i], size) <= Due(added, s[j], size)
  }

  lemma DueOrderAppend(added: map<Item, nat>, s: seq<Item>, t: seq<Item>, size: nat, d: int)
    requires InDueOrder(added, s, size) && forall x :: x in s ==> x in added && Due(added, x, size) <= d
    requires forall x :: x in t ==> x in added && Due(added, x, size) == d
    ensures InDueOrder(added, s + t, size)
  {
    hide Due;
    var u := s + t;
    forall i, j | 0 <= i < j < |u| ensures u[i] in added && u[j] in added && Due(added, u[i], size) <= Due(added, u[j], size) {
      if i < |s| { assert u[i] in s; } else { assert u[i] in t; }
      if j < |s| { assert u[j] in s; } else { assert u[j] in t; }
    }
  }

  /** The first `n` slots hold exactly the items due within `n` ticks, in due order. */
  lemma {:induction false} GatherIsDue(c: Slots, added: map<Item, nat>, start: nat, startIdx: nat, n: nat)
    requires Placed(c, added, start, startIdx) && n <= |c|
    ensures DueBefore(added, Gather(c, startIdx, n), |c|, start + n)
    ensures InDueOrder(added, Gather(c, startIdx, n), |c|)
  {
    hide Offset, SlotFor, Placed, Due, InDueOrder;
    if n == 0 {
      WithinHorizon(c, added, start, startIdx);
      assert InDueOrder(added, [], |c|) by { NothingDue(added, |c|); }
    } else {
      GatherIsDue(c, added, start, startIdx, n - 1);
      SlotHolds(c, added, start, startIdx, n - 1);
      DueOrderAppend(added, Gather(c, startIdx, n - 1), c[SlotFor(startIdx, n - 1, |c|)], |c|, start + n - 1);
    }
  }

  /** How many slots the sweep passes when the cut number of ticks does not cover the wheel. */
  function CutCount(start: nat, now: nat): nat
    requires start <= now
  {
    if ToInt(now - start + 1) < 0 then 0 else ToInt(now - start + 1)
  }

  /** A jump of the clock whose length does not survive the cut: the sweep takes every due item if and only if
      none is due after its end. */
  lemma ShortSweep(c: Slots, added: map<Item, nat>, start: nat, startIdx: nat, now: nat)
    requires Placed(c, added, start, startIdx) && |c| <= INT_MAX && !Fits(start, now, |c|)
    ensures CutCount(start, now) < |c| <= now - start
    ensures DueBefore(added, Gather(c, startIdx, CutCount(start, now)), |c|, now + 1)
            <==> forall x :: x in added ==> Due(added, x, |c|) < start + CutCount(start, now)
  {
    hide Offset, SlotFor, Placed, Due, InDueOrder, Gather;
    GatherIsDue(c, added, start, startIdx, CutCount(start, now));
    WithinHorizon(c, added, start, startIdx);
  }

  /** After such a sweep the wheel, started at `now`, is in step if and only if nothing is left on it. */
  lemma OutOfStep(c: Slots, added: map<Item, nat>, start: nat, startIdx: nat, n: nat, c': Slots, taken: seq<Item>, now: nat,
                  startIdx': nat)
    requires Placed(c, added, start, startIdx) && Swept(c, startIdx, n, c') && |c| <= now - start
    requires DueBefore(added, taken, |c|, start + n)
    ensures Placed(c', Without(added, taken), now, startIdx') <==> Without(added, taken) == map[]
  {
    hide Offset;
    var left := Without(added, taken);
    forall k, x | 0 <= k < |c| && x in c'[k] ensures x in left {
      assert x in c[k] && InSlot(c, added, x, start, startIdx);
    }
    if x :| x in left {
      assert InSlot(c, added, x, start, startIdx);
      assert Placed(c', left, now, startIdx') ==> InSlot(c', left, x, now, startIdx');
    }
  }

  lemma NothingDue(added: map<Item, nat>, size: nat)
    ensures InDueOrder(added, [], size)
  {
  }

  /** The waiting items that stay. */
  ghost function Without(added: map<Item, nat>, taken: seq<Item>): map<Item, nat> {
    map x | x in added && x !in taken :: added[x]
  }

  lemma TurnedOne(c: Slots, added: map<Item, nat>, start: nat, startIdx: nat, n: nat, c': Slots, added': map<Item, nat>, x: Item)
    requires x in added && InSlot(c, added, x, start, startIdx) && Swept(c, startIdx, n, c')
    requires 0 < n <= |c| && x in added' && added'[x] == added[x] && start + n <= Due(added, x, |c|)
    ensures InSlot(c', added', x, start + n - 1, startIdx + n - 1)
  {
    hide Offset;
    forall k | 0 <= k < |c|
      ensures x in c'[k] <==> Offset(startIdx + n - 1, k, |c|) == Due(added, x, |c|) - (start + n - 1)
    {
      OffsetShift(startIdx, n - 1, k, |c|);
    }
  }

  /** After a sweep of `n` slots the wheel starts `n - 1` ticks later and keeps the items due from then on. */
  lemma Turned(c: Slots, added: map<Item, nat>, start: nat, startIdx: nat, n: nat, c': Slots, taken: seq<Item>)
    requires Placed(c, added, start, startIdx) && Swept(c, startIdx, n, c') && 0 < n <= |c|
    requires DueBefore(added, taken, |c|, start + n)
    ensures Placed(c', Without(added, taken), start + n - 1, startIdx + n - 1)
  {
    hide Offset, Due;
    var added' := Without(added, taken);
    forall x | x in added' ensures InSlot(c', added', x, start + n - 1, startIdx + n - 1) {
      TurnedOne(c, added, start, startIdx, n, c', added', x);
    }
    forall k, x | 0 <= k < |c| && x in c'[k] ensures x in added' {
      assert x in c[k] && InSlot(c, added, x, start, startIdx);
    }
  }

  /** The same for a sweep up to tick `now`, also when `now` is beyond the whole wheel. */
  lemma TurnedTo(c: Slots, added: map<Item, nat>, start: nat, startIdx: nat, now: nat, n: nat, c': Slots, taken: seq<Item>)
    requires Placed(c, added, start, startIdx) && start <= now && n == Min(now - start + 1, |c|)
    requires Swept(c, startIdx, n, c') && DueBefore(added, taken, |c|, start + n)
    ensures DueBefore(added, taken, |c|, now + 1)
    ensures Placed(c', Without(added, taken), now, startIdx + n - 1)
    ensures Without(added, taken).Keys <= added.Keys
  {
    hide Offset, Placed, InDueOrder, Swept;
    Turned(c, added, start, startIdx, n, c', taken);
    WithinHorizon(c, added, start, startIdx);
    if n == |c| {
      assert Without(added, taken) == map[];
      NothingWaits(c', start + n - 1, startIdx + n - 1, now, startIdx + n - 1);
    }
  }

  lemma NothingWaits(c: Slots, start: nat, startIdx: nat, start': nat, startIdx': nat)
    requires Placed(c, map[], start, startIdx)
    ensures Placed(c, map[], start', startIdx')
  {
  }

  lemma WithoutKeys(added: map<Item, nat>, taken: seq<Item>)
    ensures Without(added, taken).Keys <= added.Keys
  {
  }

  lemma TakenNone(c: Slots, added: map<Item, nat>, start: nat, startIdx: nat, now: nat)
    requires Placed(c, added, start, startIdx)
    ensures Without(added, []) == added && Gather(c, startIdx, 0) == []
    ensures now < start ==> DueBefore(added, [], |c|, now + 1)
  {
    hide Placed;
    WithinHorizon(c, added, start, startIdx);
  }

  lemma GatherSteps(c: Slots, startIdx: nat, n: nat)
    ensures Gather(c, startIdx, 0) == []
    ensures forall i :: 0 <= i < n ==> Gather(c, startIdx, i + 1) == Gather(c, startIdx, i) + c[SlotFor(startIdx, i, |c|)]
  {
  }

  lemma Associate(a: seq<Item>, b: seq<Item>, c: seq<Item>)
    ensures (a + b) + c == a + (b + c)
  {
  }

  lemma NoneSwept(c: Slots, startIdx: nat)
    ensures Swept(c, startIdx, 0, c)
  {
  }

  lemma WithinHorizon(c: Slots, added: map<Item, nat>, start: nat, startIdx: nat)
    requires Placed(c, added, start, startIdx)
    ensures forall x :: x in added ==> start <= Due(added, x, |c|) < start + |c|
  {
    forall x | x in added ensures start <= Due(added, x, |c|) < start + |c| { assert InSlot(c, added, x, start, startIdx); }
  }

  lemma WaitsInSlot(c: Slots, added: map<Item, nat>, start: nat, startIdx: nat, x: Item)
    requires Placed(c, added, start, startIdx)
    ensures x in added ==> exists k :: 0 <= k < |c| && x in c[k]
  {
    if x in added {
      assert InSlot(c, added, x, start, startIdx);
      OneSlotAtOffset(startIdx, Due(added, x, |c|) - start, |c|);
      assert x in c[SlotFor(startIdx, Due(added, x, |c|) - start, |c|)];
    }
  }

  // ---- what a turn of the event loop fires -----------------------------------------------

  /** The loop when the due items have joined the active list, all of them flagged. */
  ghost function Raised(added: map<Item, nat>, taken: seq<Item>, active: seq<Item>, flagged: set<Item>, now: nat): Loop {
    Loop(now, active + taken, Without(added, taken), flagged + set x | x in taken)
  }

  /**
   What a turn does with an item, whatever the resumed coroutines do: if it is due or active it is
   processed, unless the wheel raised it early; an item that is not due and not signalled waits on.
   */
  lemma TurnIs(added: map<Item, nat>, size: nat, taken: seq<Item>, active: seq<Item>, flagged: set<Item>, now: nat,
               script: seq<seq<Call>>, x: Item)
    requires size > 0 && DueBefore(added, taken, size, now + 1) && (x in active ==> x !in added)
    requires InOnePlace(Raised(added, taken, active, flagged, now))
    ensures var r := Play(Raised(added, taken, active, flagged, now), now, script);
            (x in added && x.expire <= now) || (x in active && !Early(x, flagged, now)) ==> Fires(r.fired, x)
    ensures var r := Play(Raised(added, taken, active, flagged, now), now, script);
            x in added || x in active ==> Fires(r.fired, x) || x in r.loop.added
    ensures var r := Play(Raised(added, taken, active, flagged, now), now, script);
            ((x in added && now < x.expire) || (x in active && Early(x, flagged, now))) && !EverSignalled(script, x)
            ==> !Fires(r.fired, x) && x in r.loop.added
  {
    hide Play, Fires, EverSignalled;
    var l := Raised(added, taken, active, flagged, now);
    if x in added || x in active {
      NothingLost(l, now, script, x);
    }
    if (x in added && x.expire <= now) || (x in active && !Early(x, flagged, now)) {
      RipeFires(l, now, script, x);
    }
    if !EverSignalled(script, x) {
      if x in added && now < Due(added, x, size) {
        WaitsOn(l, now, script, x);
      } else if x in added && now < x.expire {
        EarlyWaitsAgain(l, now, script, x);
      } else if x in active && Early(x, flagged, now) {
        EarlyWaitsAgain(l, now, script, x);
      }
    }
  }

  /** The loop that flags raised items. */
  method Flag(head: Item?, ghost s: seq<Item>, ghost tail: Item?, ghost owner: ItemList)
    requires Chained(s, head, tail, owner)
    modifies s`timedOut
    ensures forall x :: x in s ==> x.timedOut
  {
    var lp := head;
    ghost var k := 0;
    while lp != null
      invariant 0 <= k <= |s| && lp == if k < |s| then s[k] else null
      invariant forall i :: 0 <= i < k ==> s[i].timedOut
      decreases |s| - k
    {
      assert s[k].next == if k + 1 < |s| then s[k + 1] else null;
      lp.timedOut := true;
      lp := lp.next;
      k := k + 1;
    }
  }

  method EmptyLists(n: nat) returns (lists: seq<ItemList>)
    ensures |lists| == n && fresh(lists) && AllValid(lists, {}) && forall k :: 0 <= k < n ==> lists[k].items == []
  {
    lists := [];
    for i := 0 to n
      invariant |lists| == i && fresh(lists) && AllValid(lists, {}) && forall k :: 0 <= k < i ==> lists[k].items == []
    {
      var l := new ItemList();
      lists := lists + [l];
    }
  }

  /**
   `stCoEpoll_t`: a wheel of `size` one-millisecond slots, the active list and a scratch list,
   here one sequence of lists. The ghost map is the abstract state: which items wait on the
   wheel, and the tick the wheel stood at when each was added.
   */
  class Epoll {
    const size: nat
    const lists: seq<ItemList>
    var start: nat
    var startIdx: int
    ghost var nodes: set<Item>
    ghost var added: map<Item, nat>

    ghost predicate Shaped()
      reads this, lists, nodes`prev, nodes`next, nodes`link
    {
      0 < size <= INT_MAX && startIdx >= 0 && |lists| == size + 2 && AllValid(lists, nodes) && added.Keys <= nodes
    }

    /** What the slots hold. */
    ghost function Contents(): (c: Slots)
      requires size > 0 && |lists| == size + 2
      reads lists
      ensures |c| == size && forall k :: 0 <= k < size ==> c[k] == lists[k].items
    {
      seq(size, k requires 0 <= k < size reads lists => lists[k].items)
    }

    ghost predicate Valid()
      reads this, lists, nodes
    {
      Shaped() && Placed(Contents(), added, start, startIdx) && (start == 0 ==> added == map[])
    }

    /** The loop as a value; flags are those of the given items. */
    ghost function View(u: set<Item>): Loop
      requires |lists| == size + 2
      reads this, lists, u`timedOut
    {
      Loop(start, lists[size].items, added, set x | x in u && x.timedOut)
    }

    constructor (size: nat, now: nat)
      requires 0 < size <= INT_MAX
      ensures Valid() && this.size == size && start == now && added == map[] && nodes == {} && fresh(lists)
      ensures lists[size].items == [] && lists[size + 1].items == []
    {
      var ls := EmptyLists(size + 2);
      this.size, lists := size, ls;
      start, startIdx, nodes, added := now, 0, {}, map[];
    }

    /** `AddTimeout`; `ok` is a zero return code. */
    method AddTimeout(item: Item, now: nat) returns (ok: bool)
      requires Valid() && (start == 0 ==> now > 0)
      modifies this, lists, nodes`next, item`prev, item`next, item`link
      ensures Valid() && nodes == if old(item.link) == null then old(nodes) + {item} else old(nodes)
      ensures start == (if old(start) == 0 then now else old(start))
      ensures ok == (start <= now <= item.expire)
      ensures added == if ok && old(item.link) == null then old(added)[item := start] else old(added)
      ensures lists[size].items == old(lists[size].items) && lists[size + 1].items == old(lists[size + 1].items)
    {
      hide AllValid, Contents, Offset;
      if item.link == null {
        MoreNodes(lists, nodes, {item});
        nodes := nodes + {item};
      }
      if start == 0 {
        start, startIdx := now, 0;
      }
      if now < start { return false; }
      if item.expire < now { return false; }
      var diff := item.expire - start;
      if diff >= size {
        diff := size - 1;
      }
      Place(item, diff);
      ok := true;
    }

    method Place(item: Item, diff: nat)
      requires Valid() && (item.link == null ==> item in nodes) && start > 0 && item.expire >= start
      requires diff == Min(item.expire - start, size - 1)
      modifies this`added, lists, nodes`next, item`prev, item`next, item`link
      ensures Valid()
      ensures added == if old(item.link) == null then old(added)[item := start] else old(added)
      ensures lists[size].items == old(lists[size].items) && lists[size + 1].items == old(lists[size + 1].items)
    {
      hide AllValid, Contents, Placed, SlotFor;
      var k := SlotFor(startIdx, diff, size);
      ghost var c := Contents();
      InNodes(lists, nodes);
      if item.link == null {
        FreeDoesNotWait(item);
        PlacedOne(c, added, start, startIdx, item, k);
        added := added[item := start];
      }
      AddTailAt(lists, nodes, k, item);
      assert Contents() == if old(item.link) == null then c[k := c[k] + [item]] else c;
    }

    method SweepSlot(i: nat, ghost c: Slots)
      requires Shaped() && i < size && Swept(c, startIdx, i, Contents())
      modifies lists, nodes`prev, nodes`next, nodes`link
      ensures AllValid(lists, nodes) && Swept(c, startIdx, i + 1, Contents()) && lists[size].items == old(lists[size].items)
      ensures lists[size + 1].items == old(lists[size + 1].items) + c[SlotFor(startIdx, i, size)]
    {
      hide AllValid, Offset, SlotFor, Contents;
      var idx := SlotFor(startIdx, i, size);
      OneSlotAtOffset(startIdx, i, size);
      InNodes(lists, nodes);
      JoinAt(lists, nodes, size + 1, idx);
    }

    /** The loop of `TakeAllTimeout`. */
    method Sweep(cnt: nat) returns (ghost taken: seq<Item>)
      requires Shaped() && cnt <= size
      modifies lists, nodes`prev, nodes`next, nodes`link
      ensures AllValid(lists, nodes) && lists[size].items == old(lists[size].items)
      ensures taken == Gather(old(Contents()), startIdx, cnt) && Swept(old(Contents()), startIdx, cnt, Contents())
      ensures lists[size + 1].items == old(lists[size + 1].items) + taken
    {
      hide AllValid, Offset, SlotFor, Swept, Contents, Gather;
      GatherSteps(Contents(), startIdx, cnt);
      taken := [];
      ghost var c := Contents();
      NoneSwept(c, startIdx);
      for i := 0 to cnt
        invariant AllValid(lists, nodes) && lists[size].items == old(lists[size].items)
        invariant taken == Gather(c, startIdx, i) && Swept(c, startIdx, i, Contents())
        invariant lists[size + 1].items == old(lists[size + 1].items) + taken
      {
        SweepSlot(i, c);
        Associate(old(lists[size + 1].items), taken, c[SlotFor(startIdx, i, size)]);
        taken := taken + c[SlotFor(startIdx, i, size)];
      }
    }

    /** The sweep of `cnt` slots and the new start; the count gets to `now` or stops short of it. */
    method TakeFrom(now: nat, cnt: nat) returns (ghost taken: seq<Item>)
      requires Valid() && 0 < start <= now && (cnt == Min(now - start + 1, size) || cnt < size <= now - start)
      modifies this, lists, nodes`prev, nodes`next, nodes`link
      ensures AllValid(lists, nodes) && nodes == old(nodes) && start == now && startIdx == old(startIdx) + cnt - 1
      ensures lists[size].items == old(lists[size].items)
      ensures lists[size + 1].items == old(lists[size + 1].items) + taken
      ensures taken == Gather(old(Contents()), old(startIdx), cnt)
      ensures InDueOrder(old(added), taken, size) && added == Without(old(added), taken)
      ensures cnt == Min(now - old(start) + 1, size) ==> Valid() && DueBefore(old(added), taken, size, now + 1)
      ensures cnt < size <= now - old(start) ==> (Valid() <==> startIdx >= 0 && added == map[])
    {
      hide AllValid, Offset, SlotFor, Contents, Swept, Placed, Due, Without, InDueOrder, DueBefore, Gather;
      ghost var c := Contents();
      GatherIsDue(c, added, start, startIdx, cnt);
      taken := Sweep(cnt);
      WithoutKeys(added, taken);
      if cnt == Min(now - start + 1, size) {
        TurnedTo(c, added, start, startIdx, now, cnt, Contents(), taken);
      } else if startIdx + cnt >= 1 {
        OutOfStep(c, added, start, startIdx, cnt, Contents(), taken, now, startIdx + cnt - 1);
      }
      added := Without(added, taken);
      startIdx := startIdx + cnt - 1;
      start := now;
    }

    /** `TakeAllTimeout` onto the scratch list. */
    method TakeAllTimeout(now: nat) returns (ghost taken: seq<Item>)
      requires Valid() && now > 0
      modifies this, lists, nodes`prev, nodes`next, nodes`link
      ensures AllValid(lists, nodes) && nodes == old(nodes)
      ensures lists[size].items == old(lists[size].items)
      ensures lists[size + 1].items == old(lists[size + 1].items) + taken
      ensures InDueOrder(old(added), taken, size) && added == Without(old(added), taken)
      ensures old(start) == 0 || Fits(old(start), now, size) ==>
        Valid() && start == (if old(start) == 0 || old(start) < now then now else old(start))
        && DueBefore(old(added), taken, size, now + 1)
      ensures old(start) != 0 && !Fits(old(start), now, size) ==>
        taken == Gather(old(Contents()), old(startIdx), CutCount(old(start), now))
        && if ToInt(now - old(start) + 1) < 0 then Valid() && start == old(start) && startIdx == old(startIdx)
           else start == now && startIdx == old(startIdx) + CutCount(old(start), now) - 1
                && (Valid() <==> startIdx >= 0 && added == map[])
    {
      hide AllValid, Offset, Contents, Placed, Gather, DueBefore, InDueOrder, Without;
      taken := [];
      NothingDue(added, size);
      TakenNone(Contents(), added, start, startIdx, now);
      if start == 0 {
        NothingWaits(Contents(), start, startIdx, now, 0);
        start, startIdx := now, 0;
      }
      if now < start { return; }
      var cnt := ToInt(now - start + 1);
      if cnt > size {
        cnt := size;
      }
      if cnt < 0 {
        return;
      }
      taken := TakeFrom(now, cnt);
    }

    lemma FreeDoesNotWait(x: Item)
      requires Valid() && x.link == null
      ensures x !in added
    {
      hide AllValid, Chained, Placed, Contents;
      FreeIsNowhere(lists, nodes, x);
      WaitsInSlot(Contents(), added, start, startIdx, x);
    }

    /** An item of one of the two other lists is not on the wheel. */
    lemma OffTheWheel(i: nat)
      requires Valid() && size <= i < |lists|
      ensures forall x :: x in lists[i].items ==> x !in added
    {
      hide AllValid, Chained, Placed, Contents;
      forall x | x in lists[i].items ensures x !in added {
        WaitsInSlot(Contents(), added, start, startIdx, x);
        forall k | 0 <= k < size ensures x !in Contents()[k] { OnOneList(lists, nodes, k, i); }
      }
    }

    /** A node of the loop is free exactly when it is neither active nor waiting. */
    lemma FreeIs(x: Item)
      requires Valid() && x in nodes && lists[size + 1].items == []
      ensures x.link == null <==> x !in lists[size].items && x !in added
    {
      hide AllValid, Chained, Placed;
      if x.link == null {
        FreeIsNowhere(lists, nodes, x);
        FreeDoesNotWait(x);
      } else {
        HomeIs(lists, nodes, x);
        var k :| 0 <= k < |lists| && lists[k] == x.link && x in lists[k].items;
        if k < size { OnWheel(k, x); }
      }
    }

    lemma OnWheel(k: nat, x: Item)
      requires Valid() && k < size && x in lists[k].items
      ensures x in added
    {
      assert x in Contents()[k];
    }

    /** One round of the loop over the active list: its head goes back on the wheel or is processed. */
    method Step(now: nat) returns (fired: bool, lp: Item)
      requires Valid() && start <= now && start > 0 && lists[size].items != []
      modifies this, lists, nodes`prev, nodes`next, nodes`link, lists[size].items`timedOut
      ensures Valid() && nodes == old(nodes) && lists[size + 1].items == old(lists[size + 1].items)
      ensures lp == old(lists[size].items)[0]
      ensures fired == !(old(lp.timedOut) && now < lp.expire) && (fired ==> lp.link == null && lp.timedOut == old(lp.timedOut))
      ensures View(nodes) == if fired then Popped(old(View(nodes))) else PutBack(old(View(nodes)))
    {
      hide AllValid, Placed, Contents;
      HeadIs(lists, nodes, size);
      lp := lists[size].head;
      InNodes(lists, nodes);
      PopHeadAt(lists, nodes, size);
      assert Contents() == old(Contents());
      fired := true;
      if lp.timedOut && now < lp.expire {
        var ok := AddTimeout(lp, now);
        if ok {
          lp.timedOut := false;
          fired := false;
        }
      }
    }

    /** The first half of a turn: due items are flagged and join the active list. */
    method Collect(now: nat) returns (ghost taken: seq<Item>)
      requires Valid() && now > 0 && (start == 0 || Fits(start, now, size)) && lists[size + 1].items == []
      modifies this, lists, nodes
      ensures Valid() && nodes == old(nodes) && lists[size + 1].items == []
      ensures start == if old(start) == 0 || old(start) < now then now else old(start)
      ensures lists[size].items == old(lists[size].items) + taken
      ensures DueBefore(old(added), taken, size, now + 1) && InDueOrder(old(added), taken, size)
      ensures added == Without(old(added), taken)
      ensures forall x :: x in nodes ==> x.timedOut == (x in taken || old(x.timedOut))
    {
      hide AllValid, Placed, Contents, DueBefore, InDueOrder, Without;
      taken := TakeAllTimeout(now);
      InNodes(lists, nodes);
      Raise();
    }

    /** All of the scratch list is flagged and joins the active list. */
    method Raise()
      requires Valid()
      modifies lists, nodes`prev, nodes`next, nodes`link, lists[size + 1].items`timedOut
      ensures Valid() && lists[size + 1].items == [] && lists[size].items == old(lists[size].items) + old(lists[size + 1].items)
      ensures forall x :: x in old(lists[size + 1].items) ==> x.timedOut
    {
      hide AllValid, Placed, Contents;
      ghost var c := Contents();
      ValidAt(lists, nodes, size + 1);
      InNodes(lists, nodes);
      Flag(lists[size + 1].head, lists[size + 1].items, lists[size + 1].tail, lists[size + 1]);
      JoinAt(lists, nodes, size, size + 1);
      assert Contents() == c;
    }

    method Detach(ap: Item, ghost i: nat)
      requires Valid() && i < |lists| && ap.link == lists[i] && ap in lists[i].items
      modifies this`added, lists, nodes`prev, nodes`next, nodes`link
      ensures Valid() && ap.link == null && added == old(added) - {ap}
      ensures forall k :: 0 <= k < |lists| ==> lists[k].items == Removed(old(lists[k].items), ap)
    {
      hide AllValid, Placed, Chained, Contents, Removed;
      ghost var c := Contents();
      InNodes(lists, nodes);
      if i >= size { OffTheWheel(i); }
      forall k | 0 <= k < |lists| && k != i ensures Removed(lists[k].items, ap) == lists[k].items {
        OnOneList(lists, nodes, k, i);
        RemovedKeeps(lists[k].items, ap);
      }
      RemovedKeeps(lists[i].items, ap);
      RemoveAt(lists, nodes, i, ap);
      if i < size {
        PlacedWithout(c, added, start, startIdx, ap, i, lists[i].items);
        assert Contents() == c[i := lists[i].items];
      } else {
        assert Contents() == c;
        assert added - {ap} == added;
      }
      added := added - {ap};
    }

    /** An item leaves whatever list it is on. */
    method Release(ap: Item)
      requires Valid() && ap in nodes
      modifies this`added, lists, nodes`prev, nodes`next, nodes`link
      ensures Valid() && ap.link == null && added == old(added) - {ap}
      ensures forall k :: 0 <= k < |lists| ==> lists[k].items == Removed(old(lists[k].items), ap)
    {
      hide AllValid, Placed, Chained, Contents, Removed;
      if ap.link != null {
        HomeIs(lists, nodes, ap);
        ghost var i :| 0 <= i < |lists| && lists[i] == ap.link && ap in lists[i].items;
        Detach(ap, i);
      } else {
        FreeDoesNotWait(ap);
        assert added - {ap} == added;
        FreeIsNowhere(lists, nodes, ap);
        forall k | 0 <= k < |lists| ensures Removed(lists[k].items, ap) == lists[k].items { RemovedKeeps(lists[k].items, ap); }
      }
    }

    /** What `co_cond_signal` and the poll callback do: an item leaves whatever list it is on for the end of the active list. */
    method Activate(ap: Item)
      requires Valid() && ap in nodes
      modifies this`added, lists, nodes`prev, nodes`next, nodes`link
      ensures Valid() && View(nodes) == DoCall(old(View(nodes)), Signals(ap)) && ap.link == lists[size]
      ensures forall k :: 0 <= k < |lists| && k != size ==> lists[k].items == Removed(old(lists[k].items), ap)
    {
      hide AllValid, Placed, Chained, Contents, Removed;
      Release(ap);
      InNodes(lists, nodes);
      ghost var c := Contents();
      AddTailAt(lists, nodes, size, ap);
      assert Contents() == c;
      OnList(lists, nodes, size, ap);
    }

    /** One call of a resumed coroutine. */
    method Perform(call: Call)
      requires Valid() && start > 0 && call.item in nodes && lists[size + 1].items == []
      modifies this, lists, nodes`prev, nodes`next, nodes`link
      ensures Valid() && nodes == old(nodes) && start == old(start) && lists[size + 1].items == []
      ensures View(nodes) == DoCall(old(View(nodes)), call)
    {
      hide AllValid, Placed, Chained, Contents;
      match call
      case Adds(item, tick) =>
        FreeIs(item);
        var ok := AddTimeout(item, tick);
        assert nodes == old(nodes);
      case Signals(item) =>
        Activate(item);
    }

    /** All calls of a resumed coroutine until it yields. */
    method Resume(calls: seq<Call>)
      requires Valid() && start > 0 && lists[size + 1].items == []
      requires forall i :: 0 <= i < |calls| ==> calls[i].item in nodes
      modifies this, lists, nodes`prev, nodes`next, nodes`link
      ensures Valid() && nodes == old(nodes) && start == old(start) && lists[size + 1].items == []
      ensures View(nodes) == DoCalls(old(View(nodes)), calls)
    {
      hide AllValid, Placed, Chained, Contents, DoCall, View;
      ghost var goal := DoCalls(View(nodes), calls);
      for i := 0 to |calls|
        invariant Valid() && nodes == old(nodes) && start == old(start) && lists[size + 1].items == []
        invariant goal == DoCalls(View(nodes), calls[i..])
      {
        assert calls[i..][0] == calls[i] && calls[i..][1..] == calls[i + 1..];
        Perform(calls[i]);
      }
    }

    /**
     The loop over the active list. Each processed item resumes a coroutine, which does what the script says.
     Items that the script brings in are free.
     */
    method Drain(now: nat, script: seq<seq<Call>>) returns (fired: seq<Fired>)
      requires Valid() && 0 < start <= now && lists[size + 1].items == []
      requires forall x :: x in Mentioned(script) ==> x in nodes || x.link == null
      modifies this, lists, nodes, Mentioned(script)
      ensures Valid() && start == old(start) && nodes == old(nodes) + Mentioned(script)
      ensures lists[size].items == [] && lists[size + 1].items == []
      ensures Play(old(View(nodes + Mentioned(script))), now, script) == Outcome(View(nodes), fired)
    {
      hide AllValid, Chained, Placed, Contents, Play, Mentioned;
      MoreNodes(lists, nodes, Mentioned(script));
      nodes := nodes + Mentioned(script);
      ghost var goal := Play(View(nodes), now, script);
      ghost var u := nodes;
      assert View(u) == old(View(nodes + Mentioned(script)));
      var left := script;
      fired := [];
      EmptyHead(lists, nodes, size);
      while lists[size].head != null
        invariant Valid() && start == old(start) && nodes == u && lists[size + 1].items == []
        invariant lists[size].head == null <==> lists[size].items == []
        invariant Mentioned(left) <= nodes
        invariant goal == Outcome(Play(View(nodes), now, left).loop, fired + Play(View(nodes), now, left).fired)
        decreases |left|, |lists[size].items|
      {
        InNodes(lists, nodes);
        PlayStep(View(nodes), now, left, fired);
        MentionedNext(left);
        var process, lp := Step(now);
        if process {
          fired := fired + [Fired(lp, lp.timedOut)];
          Resume(Head(left));
          left := Tail(left);
        }
        EmptyHead(lists, nodes, size);
      }
      PlayEnd(View(nodes), now, left);
      assert fired + [] == fired;
    }

    /**
     A turn of `co_eventloop` after the poll, whatever the resumed coroutines do: every item whose time has come
     is processed, none is processed as timed out before its time, none is lost, and one that is not
     due waits on unless it is signalled.
     */
    method Turn(now: nat, script: seq<seq<Call>>) returns (fired: seq<Fired>, ghost taken: seq<Item>)
      requires Valid() && now > 0 && start <= now && (start == 0 || Fits(start, now, size)) && lists[size + 1].items == []
      requires forall x :: x in Mentioned(script) ==> x in nodes || x.link == null
      modifies this, lists, nodes, Mentioned(script)
      ensures Valid() && start == now && nodes == old(nodes) + Mentioned(script)
      ensures lists[size].items == [] && lists[size + 1].items == []
      ensures DueBefore(old(added), taken, size, now + 1) && InDueOrder(old(added), taken, size)
      ensures Distinct(old(lists[size].items) + taken)
      ensures Outcome(View(nodes), fired) ==
        Play(Raised(old(added), taken, old(lists[size].items), old(View(nodes + Mentioned(script))).flagged, now), now, script)
      ensures forall e :: e in fired && e.raised ==> e.item.expire <= now
      ensures forall x :: x in nodes ==>
        ((x in old(added) && x.expire <= now) || (x in old(lists[size].items) && !(old(x.timedOut) && now < x.expire))
         ==> Fires(fired, x))
      ensures forall x :: x in nodes ==> (x in old(added) || x in old(lists[size].items) ==> Fires(fired, x) || x in added)
      ensures forall x :: x in nodes && !EverSignalled(script, x) ==>
        ((x in old(added) && now < x.expire) || (x in old(lists[size].items) && old(x.timedOut) && now < x.expire)
         ==> !Fires(fired, x) && x in added)
    {
      hide AllValid, Chained, Placed, Contents, Without, Play, Fires, Mentioned, DueBefore, InDueOrder;
      OffTheWheel(size);
      InNodes(lists, nodes);
      ghost var active, was := lists[size].items, View(nodes + Mentioned(script)).flagged;
      ghost var added0 := added;
      taken := Collect(now);
      ghost var l := Raised(added0, taken, active, was, now);
      InNodes(lists, nodes);
      assert forall x :: x in taken ==> x in lists[size].items;
      assert View(nodes + Mentioned(script)).flagged == l.flagged;
      OnePlace();
      fired := Drain(now, script);
      NoneEarly(l, now, script);
      forall x | x in old(nodes)
        ensures (x in added0 && x.expire <= now) || (x in active && !(old(x.timedOut) && now < x.expire)) ==> Fires(fired, x)
        ensures x in added0 || x in active ==> Fires(fired, x) || x in added
        ensures ((x in added0 && now < x.expire) || (x in active && old(x.timedOut) && now < x.expire)) && !EverSignalled(script, x)
                ==> !Fires(fired, x) && x in added
      {
        TurnIs(added0, size, taken, active, was, now, script, x);
      }
    }

    lemma OnePlace()
      requires Valid()
      ensures Distinct(lists[size].items) && forall x :: x in lists[size].items ==> x !in added
    {
      hide Placed, Contents;
      OffTheWheel(size);
      ValidAt(lists, nodes, size);
    }
  }
  // ---- a jump of the clock ---------------------------------------------------------------

  lemma SomeIn(s: seq<Item>)
    ensures s != [] ==> exists x :: x in s
  {
    if s != [] { assert s[0] in s; }
  }

  lemma FirstSlotEmpty(c: Slots, added: map<Item, nat>, item: Item, startIdx: nat)
    requires Placed(c, added, 1, startIdx) && added == map[item := 1] && item.expire == 3 && |c| > 2
    ensures Gather(c, startIdx, 1) == []
  {
    hide Offset, SlotFor, Placed;
    SlotHolds(c, added, 1, startIdx, 0);
    var first := c[SlotFor(startIdx, 0, |c|)];
    assert Due(added, item, |c|) == 3;
    SomeIn(first);
    assert Gather(c, startIdx, 1) == Gather(c, startIdx, 0) + first;
  }

  /**
   The clock jumps by 2^32 milliseconds between two turns. The number of ticks is cut to 1, an item that is long due is not taken, and
   the wheel is out of step.
   */
  method ClockJump() returns (loop: Epoll, item: Item)
    ensures item in loop.added && item.expire < loop.start && !loop.Valid()
    ensures |loop.lists| == loop.size + 2 && loop.lists[loop.size + 1].items == []
  {
    hide Placed, AllValid, Epoll.Contents, Gather;
    loop := new Epoll(60000, 1);
    item := new Item(3);
    var ok := loop.AddTimeout(item, 1);
    assert loop.nodes == {item} && loop.added == map[item := 1];
    FirstSlotEmpty(loop.Contents(), loop.added, item, loop.startIdx);
    ghost var taken := loop.TakeAllTimeout(0x1_0000_0001);
    assert item in Without(map[item := 1], []);
  }

  // ---- a lost wakeup --------------------------------------------------------------------

  lemma OneOfTwo(s: seq<Item>, i: nat, j: nat, k: nat)
    requires Distinct(s) && i < |s| && j < |s| && k < |s| && (s[k] == s[i] || s[k] == s[j])
    ensures k == i || k == j
  {
  }

  lemma TwoTaken(added: map<Item, nat>, s: seq<Item>, a: Item, b: Item, size: nat, t: int)
    requires a != b && added.Keys == {a, b} && Due(added, a, size) < Due(added, b, size) < t
    requires Distinct(s) && DueBefore(added, s, size, t) && InDueOrder(added, s, size)
    ensures s == [a, b]
  {
    hide Due;
    assert a in s && b in s;
    var i, j :| 0 <= i < |s| && 0 <= j < |s| && s[i] == a && s[j] == b;
    assert i < j;
    OneOfTwo(s, i, j, 0);
    OneOfTwo(s, i, j, |s| - 1);
    OneOfTwo(s, i, j, 1);
  }

  /** The first item's coroutine signals the second, which was raised early, and the second goes back on the wheel. */
  lemma SignalTooSoon(a: Item, b: Item, now: nat)
    requires a != b && a.expire <= now < b.expire
    ensures Play(Loop(now, [a, b], map[], {a, b}), now, [[Signals(b)]]) == Outcome(Loop(now, [], map[b := now], {a}), [Fired(a, true)])
  {
    var l := Loop(now, [a, b], map[], {a, b});
    var m := Loop(now, [b], map[], {a, b});
    assert Popped(l) == m && PutBack(m) == Loop(now, [], map[b := now], {a});
    assert DoCalls(m, [Signals(b)]) == m by {
      assert Removed([b], b) == [];
      assert DoCall(m, Signals(b)) == m;
      assert [Signals(b)][1..] == [];
    }
    PlayStep(l, now, [[Signals(b)]], []);
    PlayStep(m, now, [], []);
    PlayEnd(PutBack(m), now, []);
  }

  /** Two waits that start together, one of 60 seconds, one longer than the wheel of 60000 slots. */
  method TwoWaits() returns (loop: Epoll, other: Item, waiter: Item)
    ensures fresh(loop) && fresh(loop.lists) && fresh(loop.nodes) && loop.Valid() && loop.start == 1 && loop.size == 60000
    ensures loop.lists[loop.size].items == [] && loop.lists[loop.size + 1].items == []
    ensures loop.nodes == {other, waiter} && !other.timedOut && !waiter.timedOut && other != waiter
    ensures other.expire == 59999 && waiter.expire == 70001 && loop.added == map[other := 1, waiter := 1]
  {
    hide Placed, AllValid, Epoll.Contents;
    loop := new Epoll(60000, 1);
    other := new Item(59999);
    waiter := new Item(70001);
    var ok := loop.AddTimeout(other, 1);
    assert loop.nodes == {other} && loop.added == map[other := 1];
    ok := loop.AddTimeout(waiter, 1);
  }

  /**
   A wait of 70 seconds on the wheel of 60000 slots, signalled 60 seconds later by a coroutine that is resumed in the very turn in
   which the wheel raises the clamped wait: the turn does not resume the waiter, who has left its condition.
   */
  method LostWakeup() returns (loop: Epoll, other: Item, waiter: Item, fired: seq<Fired>)
    ensures other != waiter && fired == [Fired(other, true)]
    ensures waiter in loop.added && loop.start < waiter.expire
  {
    hide Placed, AllValid, Epoll.Contents, Play, DueBefore, InDueOrder, Fires, EverSignalled, Distinct, Early, DoCalls;
    loop, other, waiter := TwoWaits();
    ghost var added := loop.added;
    ghost var taken;
    ghost var was := loop.View(loop.nodes + Mentioned([[Signals(waiter)]])).flagged;
    assert was == {};
    fired, taken := loop.Turn(60000, [[Signals(waiter)]]);
    assert [] + taken == taken;
    TwoTaken(added, taken, other, waiter, 60000, 60001);
    SignalTooSoon(other, waiter, 60000);
    assert Raised(added, taken, [], was, 60000) == Loop(60000, [other, waiter], map[], {other, waiter});
  }
}
