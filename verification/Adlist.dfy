/** The doubly linked list of `adlist.c`: every operation against the sequence of its nodes. */
module Adlist {
  import opened Common

  class Node<V> {
    var prev: Node?<V>
    var next: Node?<V>
    const value: V

    constructor (value: V)
      ensures this.value == value
    {
      this.value := value;
      prev, next := null, null;
    }
  }

  /** The pointers between `head` and `tail` spell out the nodes `s`, in both directions. */
  ghost predicate Linked<V>(s: seq<Node<V>>, head: Node?<V>, tail: Node?<V>)
    reads s`prev, s`next
  {
    (if s == [] then head == null && tail == null else head == s[0] && tail == s[|s| - 1])
    && (forall i {:trigger s[i].next} :: 0 <= i < |s| ==> s[i].next == if i + 1 < |s| then s[i + 1] else null)
    && (forall i {:trigger s[i].prev} :: 0 <= i < |s| ==> s[i].prev == if i > 0 then s[i - 1] else null)
    && (forall i, j :: 0 <= i < j < |s| ==> s[i] != s[j])
  }

  lemma DistinctInserted<V>(s: seq<Node<V>>, at: nat, x: Node<V>)
    requires at <= |s| && x !in s && forall i, j :: 0 <= i < j < |s| ==> s[i] != s[j]
    ensures var t := s[..at] + [x] + s[at..]; forall i, j :: 0 <= i < j < |t| ==> t[i] != t[j]
  {
    var t := s[..at] + [x] + s[at..];
    forall i, j | 0 <= i < j < |t| ensures t[i] != t[j] {
      var p, q := if i < at then i else i - 1, if j < at then j else j - 1;
      if i != at { assert t[i] == s[p] && s[p] in s; }
      if j != at { assert t[j] == s[q] && s[q] in s; }
    }
  }

  class List<V> {
    var head: Node?<V>
    var tail: Node?<V>
    var len: nat
    ghost var nodes: seq<Node<V>>

    ghost predicate Valid()
      reads this, nodes`prev, nodes`next
    {
      Linked(nodes, head, tail) && len == |nodes|
    }

    /** `listCreate` */
    constructor ()
      ensures Valid() && nodes == []
    {
      head, tail, len, nodes := null, null, 0, [];
    }

    /** `listAddNodeHead` */
    method AddNodeHead(value: V)
      requires Valid()
      modifies this, nodes`prev
      ensures Valid() && |nodes| > 0 && fresh(nodes[0]) && nodes[0].value == value && nodes[1..] == old(nodes)
    {
      var node := new Node(value);
      if len == 0 {
        head, tail := node, node;
        node.prev, node.next := null, null;
      } else {
        node.prev := null;
        node.next := head;
        head.prev := node;
        head := node;
      }
      len := len + 1;
      nodes := [node] + nodes;
    }

    /** `listAddNodeTail` */
    method AddNodeTail(value: V)
      requires Valid()
      modifies this, nodes`next
      ensures Valid() && |nodes| == |old(nodes)| + 1 && nodes[..|old(nodes)|] == old(nodes)
      ensures fresh(nodes[|old(nodes)|]) && nodes[|old(nodes)|].value == value
    {
      var node := new Node(value);
      if len == 0 {
        head, tail := node, node;
        node.prev, node.next := null, null;
      } else {
        node.prev := tail;
        node.next := null;
        tail.next := node;
        tail := node;
      }
      len := len + 1;
      nodes := nodes + [node];
    }

    /** `listInsertNode` next to the node at position `at`. */
    method InsertNode(oldNode: Node<V>, value: V, after: bool, ghost at: nat)
      requires Valid() && at < |nodes| && nodes[at] == oldNode
      modifies this, nodes`prev, nodes`next
      ensures Valid()
      ensures var p := if after then at + 1 else at;
              |nodes| == |old(nodes)| + 1 && fresh(nodes[p]) && nodes[p].value == value
              && nodes == old(nodes)[..p] + [nodes[p]] + old(nodes)[p..]
    {
      ghost var s := nodes;
      ghost var p := if after then at + 1 else at;
      assert s[at].next == (if at + 1 < |s| then s[at + 1] else null) && s[at].prev == (if at > 0 then s[at - 1] else null);
      var node := new Node(value);
      if after {
        node.prev := oldNode;
        node.next := oldNode.next;
        if tail == oldNode { tail := node; }
      } else {
        node.next := oldNode;
        node.prev := oldNode.prev;
        if head == oldNode { head := node; }
      }
      LinkIn(node, p, old(head), old(tail));
    }

    /** The second half of `listInsertNode`: the neighbours learn about the new node. */
    method LinkIn(node: Node<V>, ghost p: nat, ghost first: Node?<V>, ghost last: Node?<V>)
      requires Linked(nodes, first, last) && len == |nodes| && p <= |nodes| && node !in nodes
      requires head == (if p == 0 then node else first) && tail == if p == |nodes| then node else last
      requires node.prev == (if p > 0 then nodes[p - 1] else null) && node.next == if p < |nodes| then nodes[p] else null
      modifies this, nodes`prev, nodes`next
      ensures Valid() && nodes == old(nodes)[..p] + [node] + old(nodes)[p..]
    {
      ghost var s := nodes;
      if node.prev != null { node.prev.next := node; }
      if node.next != null { node.next.prev := node; }
      len := len + 1;
      nodes := s[..p] + [node] + s[p..];
      DistinctInserted(s, p, node);
      forall i | 0 <= i < |nodes|
        ensures nodes[i].next == (if i + 1 < |nodes| then nodes[i + 1] else null)
                && nodes[i].prev == (if i > 0 then nodes[i - 1] else null)
      {
        if i != p {
          var k := if i < p then i else i - 1;
          assert nodes[i] == s[k];
          assert old(s[k].next) == (if k + 1 < |s| then s[k + 1] else null) && old(s[k].prev) == (if k > 0 then s[k - 1] else null);
        }
      }
    }

    /** `listDelNode` of the node at position `at`. */
    method DelNode(node: Node<V>, ghost at: nat)
      requires Valid() && at < |nodes| && nodes[at] == node
      modifies this, nodes`prev, nodes`next
      ensures Valid() && nodes == old(nodes)[..at] + old(nodes)[at + 1..]
    {
      ghost var s := nodes;
      assert s[at].next == (if at + 1 < |s| then s[at + 1] else null) && s[at].prev == (if at > 0 then s[at - 1] else null);
      if node.prev != null { node.prev.next := node.next; } else { head := node.next; }
      if node.next != null { node.next.prev := node.prev; } else { tail := node.prev; }
      len := len - 1;
      nodes := s[..at] + s[at + 1..];
      forall i | 0 <= i < |nodes|
        ensures nodes[i].next == (if i + 1 < |nodes| then nodes[i + 1] else null)
                && nodes[i].prev == (if i > 0 then nodes[i - 1] else null)
      {
        var k := if i < at then i else i + 1;
        assert nodes[i] == s[k] && s[k] != node;
        assert old(s[k].next) == (if k + 1 < |s| then s[k + 1] else null) && old(s[k].prev) == (if k > 0 then s[k - 1] else null);
      }
    }
  
    /** `listRotateTailToHead` */
    method RotateTailToHead()
      requires Valid()
      modifies this, nodes`prev, nodes`next
      ensures Valid() && nodes == if |old(nodes)| <= 1 then old(nodes) else [old(nodes)[|old(nodes)| - 1]] + old(nodes)[..|old(nodes)| - 1]
    {
      if len <= 1 { return; }
      ghost var s := nodes;
      ghost var n := |s| - 1;
      assert s[n].prev == s[n - 1];
      var last := tail;
      tail := last.prev;
      tail.next := null;
      head.prev := last;
      last.prev := null;
      last.next := head;
      head := last;
      nodes := [s[n]] + s[..n];
      forall i, j | 0 <= i < j < |nodes| ensures nodes[i] != nodes[j] {
        assert nodes[j] == s[j - 1] && nodes[i] == s[if i == 0 then n else i - 1];
      }
      forall i | 0 <= i < |nodes|
        ensures nodes[i].next == (if i + 1 < |nodes| then nodes[i + 1] else null)
                && nodes[i].prev == (if i > 0 then nodes[i - 1] else null)
      {
        if i > 0 {
          assert nodes[i] == s[i - 1] && old(s[i - 1].next) == s[i] && old(s[i - 1].prev) == if i > 1 then s[i - 2] else null;
        }
      }
    }

    /** `listRotateHeadToTail` */
    method RotateHeadToTail()
      requires Valid()
      modifies this, nodes`prev, nodes`next
      ensures Valid() && nodes == if |old(nodes)| <= 1 then old(nodes) else old(nodes)[1..] + [old(nodes)[0]]
    {
      if len <= 1 { return; }
      ghost var s := nodes;
      assert s[0].next == s[1];
      var first := head;
      head := first.next;
      head.prev := null;
      tail.next := first;
      first.next := null;
      first.prev := tail;
      tail := first;
      nodes := s[1..] + [s[0]];
      forall i | 0 <= i < |nodes|
        ensures nodes[i].next == (if i + 1 < |nodes| then nodes[i + 1] else null)
                && nodes[i].prev == (if i > 0 then nodes[i - 1] else null)
      {
        if i + 1 < |nodes| {
          assert nodes[i] == s[i + 1] && old(s[i + 1].prev) == s[i] && old(s[i + 1].next) == if i + 2 < |s| then s[i + 2] else null;
        }
      }
    }

    /** `listJoin` */
    method Join(o: List<V>)
      requires Valid() && o.Valid() && o != this && forall x :: x in nodes ==> x !in o.nodes
      modifies this, o, nodes`next, o.nodes`prev
      ensures Valid() && o.Valid() && nodes == old(nodes) + old(o.nodes) && o.nodes == []
    {
      if o.len == 0 { return; }
      ghost var mine, moved := nodes, o.nodes;
      o.head.prev := tail;
      if tail != null { tail.next := o.head; } else { head := o.head; }
      tail := o.tail;
      len := len + o.len;
      o.head, o.tail, o.len, o.nodes := null, null, 0, [];
      nodes := mine + moved;
      forall i, j | 0 <= i < j < |nodes| ensures nodes[i] != nodes[j] {
        if i < |mine| <= j { assert mine[i] in mine && moved[j - |mine|] in moved; }
      }
      forall i | 0 <= i < |nodes|
        ensures nodes[i].next == (if i + 1 < |nodes| then nodes[i + 1] else null)
                && nodes[i].prev == (if i > 0 then nodes[i - 1] else null)
      {
        var k := i - |mine|;
        if k < 0 {
          assert mine[i] in mine && old(mine[i].next) == (if i + 1 < |mine| then mine[i + 1] else null);
          assert old(mine[i].prev) == (if i > 0 then mine[i - 1] else null);
        } else {
          assert moved[k] in moved && old(moved[k].next) == (if k + 1 < |moved| then moved[k + 1] else null);
          assert old(moved[k].prev) == (if k > 0 then moved[k - 1] else null);
        }
      }
      assert Linked(nodes, head, tail);
    }

    /** `listEmpty`: the walk over `len` nodes meets every node and never runs off the end. */
    method Empty() returns (freed: seq<Node<V>>)
      requires Valid()
      modifies this
      ensures Valid() && nodes == [] && freed == old(nodes)
    {
      var current := head;
      var n := len;
      freed := [];
      while n != 0
        invariant Valid() && unchanged(this) && 0 <= n <= |nodes| && freed == nodes[..|nodes| - n]
        invariant current == if n > 0 then nodes[|nodes| - n] else null
      {
        ghost var p := |nodes| - n;
        assert nodes[p].next == if p + 1 < |nodes| then nodes[p + 1] else null;
        var next := current.next;
        freed := freed + [current];
        current := next;
        n := n - 1;
      }
      head, tail, len, nodes := null, null, 0, [];
    }

    /** `listIndex`: from the head, or from the tail for a negative index. */
    method Index(index: int) returns (n: Node?<V>)
      requires Valid()
      ensures 0 <= index < |nodes| ==> n == nodes[index]
      ensures -|nodes| <= index < 0 ==> n == nodes[|nodes| + index]
      ensures !(-|nodes| <= index < |nodes|) ==> n == null
    {
      if index < 0 {
        var i := -index - 1;
        n := tail;
        ghost var p := |nodes| - 1;
        while i != 0 && n != null
          invariant 0 <= i && -1 <= p && p - i == |nodes| + index && n == if p >= 0 then nodes[p] else null
          decreases i
        {
          assert nodes[p].prev == if p > 0 then nodes[p - 1] else null;
          n := n.prev;
          i, p := i - 1, p - 1;
        }
      } else {
        var i := index;
        n := head;
        ghost var p := 0;
        while i != 0 && n != null
          invariant 0 <= i && p <= |nodes| && p + i == index && n == if p < |nodes| then nodes[p] else null
          decreases i
        {
          assert nodes[p].next == if p + 1 < |nodes| then nodes[p + 1] else null;
          n := n.next;
          i, p := i - 1, p + 1;
        }
      }
    }
  }

  // ---- the iterator --------------------------------------------------------------------------

  /** `listIter`: the node to return next. */
  class Iter<V> {
    var next: Node?<V>
    const forward: bool

    /** `listGetIterator`, `listRewind` and `listRewindTail` */
    constructor (list: List<V>, forward: bool)
      ensures this.forward == forward && next == if forward then list.head else list.tail
    {
      this.forward := forward;
      next := if forward then list.head else list.tail;
    }

    /** `listNext` */
    method Next() returns (current: Node?<V>)
      modifies this
      ensures current == old(next)
      ensures next == if old(next) == null then null else if forward then old(next).next else old(next).prev
    {
      current := next;
      if current != null {
        if forward { next := current.next; } else { next := current.prev; }
      }
    }
  }

  lemma Neighbours<V>(list: List<V>, k: nat)
    requires list.Valid() && k < |list.nodes|
    ensures list.nodes[k].next == if k + 1 < |list.nodes| then list.nodes[k + 1] else null
    ensures list.nodes[k].prev == if k > 0 then list.nodes[k - 1] else null
  {
  }

  lemma Ends<V>(list: List<V>)
    requires list.Valid()
    ensures list.nodes == [] ==> list.head == null && list.tail == null
    ensures list.nodes != [] ==> list.head == list.nodes[0] && list.tail == list.nodes[|list.nodes| - 1]
  {
  }

  /** One round of a loop over `listNext` at position `k` that may delete the node it is given. */
  method Visit<V>(list: List<V>, li: Iter<V>, drop: set<Node<V>>, ghost k: nat) returns (node: Node<V>)
    requires list.Valid() && k < |list.nodes| && li.next == list.nodes[k]
    modifies li, list, list.nodes`prev, list.nodes`next
    ensures list.Valid() && node == old(list.nodes)[k]
    ensures list.nodes == if node in drop then old(list.nodes)[..k] + old(list.nodes)[k + 1..] else old(list.nodes)
    ensures li.forward ==> li.next == if k + 1 < |old(list.nodes)| then old(list.nodes)[k + 1] else null
    ensures !li.forward ==> li.next == if k > 0 then old(list.nodes)[k - 1] else null
    ensures forall j :: 0 <= j < |list.nodes| ==> list.nodes[j] in old(list.nodes)
  {
    hide Linked;
    Neighbours(list, k);
    node := li.Next();
    if node in drop {
      list.DelNode(node, k);
    }
  }

  lemma Around<T>(a: seq<T>, x: T, b: seq<T>)
    ensures (a + [x] + b)[..|a|] == a && (a + [x] + b)[|a| + 1..] == b && (a + [x] + b)[|a|] == x
    ensures a + ([x] + b) == a + [x] + b
  {
  }

  method VisitForward<V>(list: List<V>, li: Iter<V>, drop: set<Node<V>>, ghost done: seq<Node<V>>, ghost rest: seq<Node<V>>)
    returns (node: Node<V>)
    requires list.Valid() && rest != [] && list.nodes == done + rest && li.forward && li.next == rest[0]
    modifies li, list, list.nodes`prev, list.nodes`next
    ensures list.Valid() && node == rest[0] && list.nodes == (if node in drop then done else done + [node]) + rest[1..]
    ensures li.next == if |rest| == 1 then null else rest[1]
    ensures forall j :: 0 <= j < |list.nodes| ==> list.nodes[j] in old(list.nodes)
  {
    hide Linked;
    assert rest == [rest[0]] + rest[1..];
    Around(done, rest[0], rest[1..]);
    assert list.nodes == done + [rest[0]] + rest[1..];
    node := Visit(list, li, drop, |done|);
  }

  method VisitBackward<V>(list: List<V>, li: Iter<V>, drop: set<Node<V>>, ghost done: seq<Node<V>>, ghost rest: seq<Node<V>>)
    returns (node: Node<V>)
    requires list.Valid() && rest != [] && list.nodes == rest + done && !li.forward && li.next == rest[|rest| - 1]
    modifies li, list, list.nodes`prev, list.nodes`next
    ensures list.Valid() && node == rest[|rest| - 1]
    ensures list.nodes == rest[..|rest| - 1] + (if node in drop then done else [node] + done)
    ensures li.next == if |rest| == 1 then null else rest[|rest| - 2]
    ensures forall j :: 0 <= j < |list.nodes| ==> list.nodes[j] in old(list.nodes)
  {
    hide Linked;
    ghost var k := |rest| - 1;
    assert rest == rest[..k] + [rest[k]];
    Around(rest[..k], rest[k], done);
    assert list.nodes == rest[..k] + [rest[k]] + done;
    node := Visit(list, li, drop, k);
  }

  /** The nodes that are not in `drop`. */
  ghost function Kept<V>(s: seq<Node<V>>, drop: set<Node<V>>): seq<Node<V>> {
    if s == [] then [] else (if s[0] in drop then [] else [s[0]]) + Kept(s[1..], drop)
  }

  lemma {:induction false} KeptConcat<V>(s: seq<Node<V>>, t: seq<Node<V>>, drop: set<Node<V>>)
    ensures Kept(s + t, drop) == Kept(s, drop) + Kept(t, drop)
  {
    if s == [] {
      assert s + t == t;
    } else {
      assert (s + t)[1..] == s[1..] + t;
      KeptConcat(s[1..], t, drop);
      var h := if s[0] in drop then [] else [s[0]];
      assert h + (Kept(s[1..], drop) + Kept(t, drop)) == (h + Kept(s[1..], drop)) + Kept(t, drop);
    }
  }

  lemma KeptOne<V>(x: Node<V>, drop: set<Node<V>>)
    ensures Kept([x], drop) == if x in drop then [] else [x]
  {
    assert [x][1..] == [];
  }

  /** A forward loop over `listNext` that deletes any of the nodes it is given sees every node once, in order. */
  method SweepForward<V>(list: List<V>, drop: set<Node<V>>) returns (visited: seq<Node<V>>)
    requires list.Valid()
    modifies list, list.nodes`prev, list.nodes`next
    ensures list.Valid() && visited == old(list.nodes) && list.nodes == Kept(old(list.nodes), drop)
  {
    hide Linked, Kept;
    ghost var s, rest := list.nodes, list.nodes;
    Ends(list);
    var li := new Iter(list, true);
    visited := [];
    ghost var done := [];
    NoneKept(drop);
    while li.next != null
      invariant list.Valid() && visited + rest == s && li.forward && fresh(li)
      invariant done == Kept(visited, drop) && list.nodes == done + rest
      invariant forall j :: 0 <= j < |list.nodes| ==> list.nodes[j] in s
      invariant li.next == if rest == [] then null else rest[0]
      decreases |rest|
    {
      var node := VisitForward(list, li, drop, done, rest);
      KeptConcat(visited, [node], drop);
      KeptOne(node, drop);
      assert done + [] == done && (visited + [node]) + rest[1..] == visited + rest;
      done := if node in drop then done else done + [node];
      visited, rest := visited + [node], rest[1..];
    }
    assert visited + [] == visited && done + [] == done;
  }

  lemma NoneKept<V>(drop: set<Node<V>>)
    ensures Kept([], drop) == []
  {
  }

  /** The same from the tail: every node once, in reverse order. */
  method SweepBackward<V>(list: List<V>, drop: set<Node<V>>) returns (visited: seq<Node<V>>)
    requires list.Valid()
    modifies list, list.nodes`prev, list.nodes`next
    ensures list.Valid() && list.nodes == Kept(old(list.nodes), drop)
    ensures |visited| == |old(list.nodes)| && forall i :: 0 <= i < |visited| ==> visited[i] == old(list.nodes)[|visited| - 1 - i]
  {
    hide Linked, Kept;
    ghost var s, rest, gone := list.nodes, list.nodes, [];
    Ends(list);
    var li := new Iter(list, false);
    visited := [];
    NoneKept(drop);
    while li.next != null
      invariant list.Valid() && rest + gone == s && !li.forward && fresh(li)
      invariant list.nodes == rest + Kept(gone, drop)
      invariant forall j :: 0 <= j < |list.nodes| ==> list.nodes[j] in s
      invariant li.next == if rest == [] then null else rest[|rest| - 1]
      invariant |visited| == |gone| && forall i :: 0 <= i < |visited| ==> visited[i] == s[|s| - 1 - i]
      decreases |rest|
    {
      var node := VisitBackward(list, li, drop, Kept(gone, drop), rest);
      KeptConcat([node], gone, drop);
      KeptOne(node, drop);
      assert rest[..|rest| - 1] + ([node] + gone) == s;
      visited, rest, gone := visited + [node], rest[..|rest| - 1], [node] + gone;
    }
    assert [] + gone == gone && [] + Kept(gone, drop) == Kept(gone, drop);
  }

  // ---- loops that only read ---------------------------------------------------------------------

  /** `listSearchKey`: the first node whose value matches. */
  method SearchKey<V>(list: List<V>, matches: V -> bool) returns (found: Node?<V>)
    requires list.Valid()
    ensures found == null ==> forall i :: 0 <= i < |list.nodes| ==> !matches(list.nodes[i].value)
    ensures found != null ==> exists i :: 0 <= i < |list.nodes| && list.nodes[i] == found && matches(found.value)
                                          && forall j :: 0 <= j < i ==> !matches(list.nodes[j].value)
  {
    var li := new Iter(list, true);
    ghost var i := 0;
    found := li.Next();
    while found != null
      invariant 0 <= i <= |list.nodes| && found == (if i < |list.nodes| then list.nodes[i] else null)
      invariant fresh(li) && li.forward && li.next == if i + 1 < |list.nodes| then list.nodes[i + 1] else null
      invariant forall j :: 0 <= j < i ==> !matches(list.nodes[j].value)
      decreases |list.nodes| - i
    {
      if matches(found.value) { return; }
      if i + 1 < |list.nodes| { Neighbours(list, i + 1); }
      found := li.Next();
      i := i + 1;
    }
  }

  function DupValue<V>(dup: Option<V -> Option<V>>, v: V): Option<V> {
    if dup.None? then Some(v) else dup.value(v)
  }

  /** One round of `listDup`: the next value is copied to the end of the new list, if it can be. */
  method CopyNext<V>(li: Iter<V>, list: List<V>, dup: Option<V -> Option<V>>) returns (ok: bool)
    requires list.Valid() && li.next != null && li.forward
    modifies li, list, list.nodes`next
    ensures var value := DupValue(dup, old(li.next).value);
            ok == value.Some? && list.Valid()
            && (ok ==> |list.nodes| == |old(list.nodes)| + 1 && fresh(list.nodes[|old(list.nodes)|])
                       && list.nodes[|old(list.nodes)|].value == value.value)
    ensures li.next == old(li.next.next)
    ensures ok ==> forall j :: 0 <= j < |old(list.nodes)| ==> list.nodes[j] == old(list.nodes)[j]
  {
    hide Linked, DupValue;
    var node := li.Next();
    var value := DupValue(dup, node.value);
    if value.None? { return false; }
    list.AddNodeTail(value.value);
    assert forall j :: 0 <= j < |old(list.nodes)| ==> list.nodes[j] == list.nodes[..|old(list.nodes)|][j];
    ok := true;
  }

  /** The values of `t` are those of `s`, copied. */
  ghost predicate Copies<V>(dup: Option<V -> Option<V>>, s: seq<Node<V>>, t: seq<Node<V>>) {
    |s| == |t| && forall j :: 0 <= j < |s| ==> DupValue(dup, s[j].value) == Some(t[j].value)
  }

  lemma NoneCopied<V>(dup: Option<V -> Option<V>>)
    ensures Copies(dup, [], [])
  {
  }

  lemma CopiesMore<V>(dup: Option<V -> Option<V>>, s: seq<Node<V>>, t: seq<Node<V>>, x: Node<V>, t': seq<Node<V>>)
    requires Copies(dup, s, t) && |t'| == |t| + 1 && forall j :: 0 <= j < |t| ==> t'[j] == t[j]
    requires DupValue(dup, x.value) == Some(t'[|t|].value)
    ensures Copies(dup, s + [x], t')
  {
  }

  lemma CopiesAll<V>(dup: Option<V -> Option<V>>, s: seq<Node<V>>, t: seq<Node<V>>)
    requires Copies(dup, s, t)
    ensures |s| == |t| && forall j :: 0 <= j < |s| ==> DupValue(dup, s[j].value) == Some(t[j].value)
  {
  }

  /** `listDup`: a copy of every value in order, or nothing if one value cannot be copied. */
  method Dup<V>(orig: List<V>, dup: Option<V -> Option<V>>) returns (copy: Option<List<V>>)
    requires orig.Valid()
    ensures copy.None? <==> exists i :: 0 <= i < |orig.nodes| && DupValue(dup, orig.nodes[i].value).None?
    ensures copy.Some? ==> fresh(copy.value) && copy.value.Valid() && |copy.value.nodes| == |orig.nodes|
    ensures copy.Some? ==> forall i :: 0 <= i < |orig.nodes| ==> DupValue(dup, orig.nodes[i].value) == Some(copy.value.nodes[i].value)
  {
    hide Linked, DupValue, Copies;
    Ends(orig);
    NoneCopied(dup);
    var list := new List<V>();
    var li := new Iter(orig, true);
    ghost var n := 0;
    while li.next != null
      invariant 0 <= n <= |orig.nodes| && fresh(list) && fresh(li) && li.forward && list.Valid() && |list.nodes| == n
      invariant li.next == if n < |orig.nodes| then orig.nodes[n] else null
      invariant orig.Valid() && fresh(list.nodes)
      invariant Copies(dup, orig.nodes[..n], list.nodes)
      decreases |orig.nodes| - n
    {
      Neighbours(orig, n);
      ghost var before := list.nodes;
      var ok := CopyNext(li, list, dup);
      if !ok { return None; }
      CopiesMore(dup, orig.nodes[..n], before, orig.nodes[n], list.nodes);
      assert orig.nodes[..n] + [orig.nodes[n]] == orig.nodes[..n + 1];
      n := n + 1;
    }
    assert orig.nodes[..n] == orig.nodes;
    CopiesAll(dup, orig.nodes, list.nodes);
    return Some(list);
  }
}
