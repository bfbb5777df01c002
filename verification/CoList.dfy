/**
 libco's intrusive doubly linked lists: every node knows the list it is on, so it can
 be unlinked in place and is never on two lists.
 */
module CoList {

  class Item {
    var prev: Item?
    var next: Item?
    var link: ItemList?
    const expire: nat
    var timedOut: bool

    constructor (expire: nat)
      ensures this.expire == expire && link == null && !timedOut
    {
      prev, next, link, timedOut := null, null, null, false;
      this.expire := expire;
    }
  }

  /** The pointers between `head` and `tail` spell out the nodes `s`, all of them on the list `owner`. */
  ghost predicate Chained(s: seq<Item>, head: Item?, tail: Item?, owner: ItemList)
    reads s`prev, s`next, s`link
  {
    (if s == [] then head == null && tail == null else head == s[0] && tail == s[|s| - 1])
    && (forall i {:trigger s[i].link} :: 0 <= i < |s| ==> s[i].link == owner)
    && (forall i {:trigger s[i].next} :: 0 <= i < |s| ==> s[i].next == if i + 1 < |s| then s[i + 1] else null)
    && (forall i {:trigger s[i].prev} :: 0 <= i < |s| ==> s[i].prev == if i > 0 then s[i - 1] else null)
    && (forall i, j :: 0 <= i < j < |s| ==> s[i] != s[j])
  }

  /** Nodes of a valid list are on that list, hence on no other. */
  lemma OnItsList(l: ItemList, x: Item)
    requires l.Valid() && x in l.items
    ensures x.link == l
  {
    var i :| 0 <= i < |l.items| && l.items[i] == x;
    assert l.items[i].link == l;
  }

  lemma Apart(a: ItemList, b: ItemList)
    requires a.Valid() && b.Valid() && a != b
    ensures forall x :: x in a.items ==> x !in b.items
  {
    forall x | x in a.items ensures x !in b.items {
      OnItsList(a, x);
      if x in b.items { OnItsList(b, x); assert false; }
    }
  }

  lemma DistinctJoined(s: seq<Item>, t: seq<Item>)
    requires forall i, j :: 0 <= i < j < |s| ==> s[i] != s[j]
    requires forall i, j :: 0 <= i < j < |t| ==> t[i] != t[j]
    requires forall x :: x in s ==> x !in t
    ensures forall i, j :: 0 <= i < j < |s + t| ==> (s + t)[i] != (s + t)[j]
  {
    forall i, j | 0 <= i < j < |s + t| ensures (s + t)[i] != (s + t)[j] {
      if i < |s| <= j { assert s[i] in s && t[j - |s|] in t; }
    }
  }

  /** The loop of `Join`: all nodes of a chain change owner. */
  method Relabel(head: Item?, owner: ItemList, ghost s: seq<Item>, ghost tail: Item?, ghost was: ItemList)
    requires Chained(s, head, tail, was)
    modifies s`link
    ensures Chained(s, head, tail, owner)
  {
    var lp := head;
    ghost var k := 0;
    while lp != null
      invariant 0 <= k <= |s| && lp == if k < |s| then s[k] else null
      invariant forall i {:trigger s[i].link} :: 0 <= i < k ==> s[i].link == owner
      invariant forall i {:trigger s[i].next} :: 0 <= i < |s| ==> s[i].next == if i + 1 < |s| then s[i + 1] else null
      invariant forall i {:trigger s[i].prev} :: 0 <= i < |s| ==> s[i].prev == if i > 0 then s[i - 1] else null
      decreases |s| - k
    {
      assert s[k].next == if k + 1 < |s| then s[k + 1] else null;
      lp.link := owner;
      lp := lp.next;
      k := k + 1;
    }
  }

  class ItemList {
    var head: Item?
    var tail: Item?
    ghost var items: seq<Item>

    constructor ()
      ensures Valid() && items == []
    {
      head, tail, items := null, null, [];
    }

    ghost predicate Valid()
      reads this, items`prev, items`next, items`link
    {
      Chained(items, head, tail, this)
    }

    /** `AddTail`: a node that is on a list already stays where it is. */
    method AddTail(ap: Item)
      requires Valid()
      modifies this, ap`prev, ap`next, ap`link, items`next
      ensures Valid()
      ensures old(ap.link) != null ==> items == old(items) && unchanged(this) && unchanged(ap) && unchanged(items)
      ensures old(ap.link) == null ==> items == old(items) + [ap]
    {
      if ap.link != null { return; }
      if tail != null {
        tail.next := ap;
        ap.next := null;
        ap.prev := tail;
        tail := ap;
      } else {
        head, tail := ap, ap;
        ap.next, ap.prev := null, null;
      }
      ap.link := this;
      items := items + [ap];
    }

    /** `PopHead` */
    method PopHead()
      requires Valid()
      modifies this, items`prev, items`next, items`link
      ensures Valid()
      ensures old(items) == [] ==> items == []
      ensures old(items) != [] ==> items == old(items)[1..] && old(items)[0].link == null
    {
      if head == null { return; }
      var lp := head;
      assert items[0] == lp && (|items| > 1 ==> items[0].next == items[1]);
      if head == tail { head, tail := null, null; } else { head := head.next; }
      lp.prev, lp.next, lp.link := null, null, null;
      if head != null { head.prev := null; }
      items := items[1..];
    }

    /** The pointer work of `RemoveFromLink`: the neighbours of a node close the gap. */
    method Unhook(ap: Item) returns (ghost at: nat)
      requires Valid() && ap in items
      modifies this, items`prev, items`next
      ensures Valid() && at < |old(items)| && old(items)[at] == ap && items == old(items)[..at] + old(items)[at + 1..]
      ensures ap !in items
    {
      ghost var s := items;
      at :| at < |s| && s[at] == ap;
      var before, after := ap.prev, ap.next;
      assert before == (if at > 0 then s[at - 1] else null) && after == (if at + 1 < |s| then s[at + 1] else null);
      if ap == head {
        head := after;
        if head != null { head.prev := null; }
      } else if before != null {
        before.next := after;
      }
      if ap == tail {
        tail := before;
        if tail != null { tail.next := null; }
      } else {
        after.prev := before;
      }
      items := s[..at] + s[at + 1..];
      forall i | 0 <= i < |items|
        ensures items[i].next == (if i + 1 < |items| then items[i + 1] else null)
                && items[i].prev == (if i > 0 then items[i - 1] else null) && items[i].link == this
      {
        var k := if i < at then i else i + 1;
        assert items[i] == s[k] && s[k] != ap;
        assert old(s[k].next) == (if k + 1 < |s| then s[k + 1] else null) && old(s[k].prev) == (if k > 0 then s[k - 1] else null);
        assert old(s[k].link) == this;
      }
    }

    /** The pointer work of `Join`: a chain of nodes that are already ours is hung on behind. */
    method Splice(first: Item, last: Item, ghost moved: seq<Item>)
      requires Valid() && moved != [] && Chained(moved, first, last, this)
      requires forall x :: x in items ==> x !in moved
      modifies this, items`next, moved`prev
      ensures Valid() && items == old(items) + moved
    {
      ghost var mine := items;
      if tail != null {
        tail.next := first;
        first.prev := tail;
        tail := last;
      } else {
        head, tail := first, last;
      }
      items := mine + moved;
      DistinctJoined(mine, moved);
      forall i | 0 <= i < |items|
        ensures items[i].next == (if i + 1 < |items| then items[i + 1] else null)
                && items[i].prev == (if i > 0 then items[i - 1] else null) && items[i].link == this
      {
        var k := i - |mine|;
        if k < 0 {
          assert mine[i] in mine && old(mine[i].next) == (if i + 1 < |mine| then mine[i + 1] else null);
          assert old(mine[i].prev) == (if i > 0 then mine[i - 1] else null) && old(mine[i].link) == this;
        } else {
          assert moved[k] in moved && old(moved[k].next) == (if k + 1 < |moved| then moved[k + 1] else null);
          assert old(moved[k].prev) == (if k > 0 then moved[k - 1] else null) && old(moved[k].link) == this;
        }
      }
    }

    /** `Join`: all nodes of the other list move to the end of this one. */
    method Join(other: ItemList)
      requires Valid() && other.Valid() && other != this
      modifies this, other, items`next, other.items`prev, other.items`link
      ensures Valid() && other.Valid()
      ensures items == old(items) + old(other.items) && other.items == []
    {
      if other.head == null { return; }
      Apart(this, other);
      ghost var moved := other.items;
      Relabel(other.head, this, other.items, other.tail, other);
      forall i | 0 <= i < |items|
        ensures items[i].link == this
      {
        assert items[i] in items;
      }
      Splice(other.head, other.tail, moved);
      other.head, other.tail, other.items := null, null, [];
    }
  }

  /** `RemoveFromLink`: a node is taken out of whatever list it is on. */
  method RemoveFromLink(ap: Item) returns (ghost at: nat)
    requires ap.link != null ==> ap.link.Valid() && ap in ap.link.items
    modifies ap`prev, ap`next, ap`link, ap.link
    modifies (if ap.link == null then [] else ap.link.items)`prev, (if ap.link == null then [] else ap.link.items)`next
    ensures ap.link == null
    ensures old(ap.link) != null ==> old(ap.link).Valid() && ap !in old(ap.link).items
    ensures old(ap.link) != null ==> at < |old(ap.link.items)| && old(ap.link.items)[at] == ap
    ensures old(ap.link) != null ==> old(ap.link).items == old(ap.link.items)[..at] + old(ap.link.items)[at + 1..]
  {
    at := 0;
    var lst := ap.link;
    if lst == null { return; }
    at := lst.Unhook(ap);
    ap.prev, ap.next := null, null;
    ap.link := null;
  }
}
