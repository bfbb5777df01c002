/**
 One pass of libco's event loop over its active list, as a value. Processing an item resumes a
 coroutine, and that coroutine may add timeouts and signal conditions before the loop looks at the
 list again; a script says what each resumed coroutine does.
 */
module CoLoop {
  import opened CoList

  /** What a resumed coroutine does to the loop: `AddTimeout` at some tick, or `co_cond_signal`. */
  datatype Call = Adds(item: Item, tick: nat) | Signals(item: Item)

  /** The loop's tick, its active list, the waiting items with the tick they wait since, and the items flagged as timed out. */
  datatype Loop = Loop(start: nat, active: seq<Item>, added: map<Item, nat>, flagged: set<Item>)

  /** A processed item and whether it was flagged as timed out. */
  datatype Fired = Fired(item: Item, raised: bool)

  datatype Outcome = Outcome(loop: Loop, fired: seq<Fired>)

  /** An item was raised by the wheel but its own time has not come. */
  ghost predicate Early(x: Item, flagged: set<Item>, now: nat) { x in flagged && now < x.expire }

  ghost predicate Fires(fired: seq<Fired>, x: Item) { exists i :: 0 <= i < |fired| && fired[i].item == x }

  lemma {:induction false} FiresAppend(s: seq<Fired>, t: seq<Fired>, x: Item)
    ensures Fires(s + t, x) <==> Fires(s, x) || Fires(t, x)
  {
    var u := s + t;
    if Fires(s, x) {
      var i :| 0 <= i < |s| && s[i].item == x;
      assert u[i].item == x;
    }
    if Fires(t, x) {
      var i :| 0 <= i < |t| && t[i].item == x;
      assert u[|s| + i].item == x;
    }
  }

  // ---- the calls of one coroutine --------------------------------------------------

  ghost function Removed(s: seq<Item>, x: Item): seq<Item> {
    if s == [] then [] else if s[0] == x then s[1..] else [s[0]] + Removed(s[1..], x)
  }

  lemma {:induction false} RemovedKeeps(s: seq<Item>, x: Item)
    ensures forall y :: y in s && y != x ==> y in Removed(s, x)
    ensures forall y :: y in Removed(s, x) ==> y in s
    ensures x !in s ==> Removed(s, x) == s
  {
    if s != [] && s[0] != x { RemovedKeeps(s[1..], x); }
  }

  lemma {:induction false} RemovedAt(s: seq<Item>, at: nat)
    requires at < |s| && s[at] !in s[..at]
    ensures Removed(s, s[at]) == s[..at] + s[at + 1..]
  {
    if at > 0 {
      assert s[1..][..at - 1] == s[..at][1..] && s[1..][at..] == s[at + 1..];
      assert s[0] in s[..at];
      RemovedAt(s[1..], at - 1);
    }
  }

  ghost predicate Distinct(s: seq<Item>) { forall i, j :: 0 <= i < j < |s| ==> s[i] != s[j] }

  lemma Prepended(y: Item, s: seq<Item>)
    requires Distinct(s) && y !in s
    ensures Distinct([y] + s)
  {
    forall i, j | 0 <= i < j < |s| + 1 ensures ([y] + s)[i] != ([y] + s)[j] { assert s[j - 1] in s; }
  }

  lemma {:induction false} RemovedDistinct(s: seq<Item>, x: Item)
    requires Distinct(s)
    ensures Distinct(Removed(s, x)) && x !in Removed(s, x)
  {
    if s != [] {
      RemovedDistinct(s[1..], x);
      RemovedKeeps(s[1..], x);
      assert s[0] !in s[1..];
      if s[0] != x { Prepended(s[0], Removed(s[1..], x)); }
    }
  }

  ghost function DoCall(l: Loop, c: Call): Loop {
    match c
    case Adds(x, tick) =>
      if l.start <= tick <= x.expire && x !in l.active && x !in l.added then l.(added := l.added[x := l.start]) else l
    case Signals(x) => l.(active := Removed(l.active, x) + [x], added := l.added - {x})
  }

  ghost function DoCalls(l: Loop, calls: seq<Call>): Loop
    decreases calls
  {
    if calls == [] then l else DoCalls(DoCall(l, calls[0]), calls[1..])
  }

  /** The items a script speaks of. */
  ghost function Mentioned(script: seq<seq<Call>>): set<Item> {
    set i, j | 0 <= i < |script| && 0 <= j < |script[i]| :: script[i][j].item
  }

  ghost predicate Signalled(calls: seq<Call>, x: Item) { Signals(x) in calls }

  ghost predicate EverSignalled(script: seq<seq<Call>>, x: Item) {
    exists i :: 0 <= i < |script| && Signalled(script[i], x)
  }

  /** No call takes an item off the active list, flags it or clears its flag. */
  lemma {:induction false} CallsKeepActive(l: Loop, calls: seq<Call>, x: Item)
    requires x in l.active
    ensures x in DoCalls(l, calls).active
    ensures DoCalls(l, calls).flagged == l.flagged && DoCalls(l, calls).start == l.start
    decreases calls
  {
    if calls != [] {
      if calls[0].Signals? { RemovedKeeps(l.active, calls[0].item); }
      CallsKeepActive(DoCall(l, calls[0]), calls[1..], x);
    }
  }

  /** No call loses an item. */
  lemma {:induction false} CallsLoseNothing(l: Loop, calls: seq<Call>, x: Item)
    requires x in l.active || x in l.added
    ensures x in DoCalls(l, calls).active || x in DoCalls(l, calls).added
    decreases calls
  {
    if calls != [] {
      if calls[0].Signals? { RemovedKeeps(l.active, calls[0].item); }
      CallsLoseNothing(DoCall(l, calls[0]), calls[1..], x);
    }
  }

  /** A waiting item that nobody signals goes on waiting. */
  lemma {:induction false} CallsLeaveWaiting(l: Loop, calls: seq<Call>, x: Item)
    requires x in l.added && x !in l.active && !Signalled(calls, x)
    ensures var m := DoCalls(l, calls); x in m.added && m.added[x] == l.added[x] && x !in m.active
    decreases calls
  {
    if calls != [] {
      if calls[0].Signals? { RemovedKeeps(l.active, calls[0].item); }
      CallsLeaveWaiting(DoCall(l, calls[0]), calls[1..], x);
    }
  }

  /** Nothing is twice on the active list, and nothing is on it and on the wheel. */
  ghost predicate InOnePlace(l: Loop) { Distinct(l.active) && forall x :: x in l.active ==> x !in l.added }

  lemma CallKeepsPlaces(l: Loop, c: Call)
    requires InOnePlace(l)
    ensures InOnePlace(DoCall(l, c))
  {
    if c.Signals? {
      RemovedDistinct(l.active, c.item);
      RemovedKeeps(l.active, c.item);
    }
  }

  lemma {:induction false} CallsKeepPlaces(l: Loop, calls: seq<Call>)
    requires InOnePlace(l)
    ensures InOnePlace(DoCalls(l, calls))
    decreases calls
  {
    if calls != [] {
      CallKeepsPlaces(l, calls[0]);
      CallsKeepPlaces(DoCall(l, calls[0]), calls[1..]);
    }
  }

  // ---- the pass -----------------------------------------------------------------------

  /** The head goes back on the wheel and is not flagged any more. */
  ghost function PutBack(l: Loop): Loop
    requires l.active != []
  {
    var x := l.active[0];
    Loop(l.start, l.active[1..], l.added[x := l.start], l.flagged - {x})
  }

  ghost function Popped(l: Loop): Loop
    requires l.active != []
  {
    l.(active := l.active[1..])
  }

  /** The calls of the next coroutine to be resumed; beyond the script coroutines make none. */
  function Head(script: seq<seq<Call>>): seq<Call> { if script == [] then [] else script[0] }

  function Tail(script: seq<seq<Call>>): seq<seq<Call>> { if script == [] then [] else script[1..] }

  /** The loop once the coroutine of its head has run. */
  ghost function Processed(l: Loop, calls: seq<Call>): (r: Loop)
    requires l.active != []
    ensures calls == [] ==> |r.active| < |l.active|
  {
    DoCalls(Popped(l), calls)
  }

  /** The loop over the active list: what is left of the loop and what was processed, in order. */
  ghost function Play(l: Loop, now: nat, script: seq<seq<Call>>): Outcome
    decreases |script|, |l.active|
  {
    if l.active == [] then Outcome(l, [])
    else if Early(l.active[0], l.flagged, now) then Play(PutBack(l), now, script)
    else
      var rest := Play(Processed(l, Head(script)), now, Tail(script));
      Outcome(rest.loop, [Fired(l.active[0], l.active[0] in l.flagged)] + rest.fired)
  }

  lemma PlayEnd(l: Loop, now: nat, script: seq<seq<Call>>)
    requires l.active == []
    ensures Play(l, now, script) == Outcome(l, [])
  {
  }

  /** One round of the pass. */
  lemma PlayStep(l: Loop, now: nat, script: seq<seq<Call>>, before: seq<Fired>)
    requires l.active != []
    ensures Early(l.active[0], l.flagged, now) ==> Play(l, now, script) == Play(PutBack(l), now, script)
    ensures !Early(l.active[0], l.flagged, now) ==>
      var r := Play(DoCalls(Popped(l), Head(script)), now, Tail(script));
      Play(l, now, script).loop == r.loop
      && before + Play(l, now, script).fired == before + [Fired(l.active[0], l.active[0] in l.flagged)] + r.fired
  {
    if !Early(l.active[0], l.flagged, now) {
      var r := Play(Processed(l, Head(script)), now, Tail(script));
      FiredAssociate(before, [Fired(l.active[0], l.active[0] in l.flagged)], r.fired);
    }
  }

  lemma MentionedNext(script: seq<seq<Call>>)
    ensures forall i :: 0 <= i < |Head(script)| ==> Head(script)[i].item in Mentioned(script)
    ensures Mentioned(Tail(script)) <= Mentioned(script)
  {
    if script != [] {
      forall i | 0 <= i < |Head(script)| ensures Head(script)[i].item in Mentioned(script) {
        assert script[0][i].item in Mentioned(script);
      }
      forall x | x in Mentioned(Tail(script)) ensures x in Mentioned(script) {
        var i, j :| 0 <= i < |Tail(script)| && 0 <= j < |Tail(script)[i]| && Tail(script)[i][j].item == x;
        assert script[i + 1][j].item == x;
      }
    }
  }

  lemma FiresNext(l: Loop, now: nat, script: seq<seq<Call>>, x: Item)
    requires l.active != [] && !Early(l.active[0], l.flagged, now)
    ensures Fires(Play(l, now, script).fired, x)
            <==> x == l.active[0] || Fires(Play(Processed(l, Head(script)), now, Tail(script)).fired, x)
  {
    FiresOne(l.active[0], l.active[0] in l.flagged, Play(Processed(l, Head(script)), now, Tail(script)).fired, x);
  }

  /** Whatever the coroutines do, no item is resumed as timed out before its time. */
  lemma {:induction false} NoneEarly(l: Loop, now: nat, script: seq<seq<Call>>)
    ensures Play(l, now, script).loop.active == []
    ensures forall e :: e in Play(l, now, script).fired && e.raised ==> e.item.expire <= now
    decreases |script|, |l.active|
  {
    if l.active == [] {
    } else if Early(l.active[0], l.flagged, now) {
      NoneEarly(PutBack(l), now, script);
    } else {
      NoneEarly(Processed(l, Head(script)), now, Tail(script));
    }
  }

  /** Every active item is processed unless the wheel raised it too early. */
  lemma {:induction false} RipeFires(l: Loop, now: nat, script: seq<seq<Call>>, x: Item)
    requires x in l.active && !Early(x, l.flagged, now)
    ensures Fires(Play(l, now, script).fired, x)
    decreases |script|, |l.active|
  {
    if Early(l.active[0], l.flagged, now) {
      RipeFires(PutBack(l), now, script, x);
    } else {
      FiresNext(l, now, script, x);
      if x != l.active[0] {
        CallsKeepActive(Popped(l), Head(script), x);
        RipeFires(Processed(l, Head(script)), now, Tail(script), x);
      }
    }
  }

  /** Every active or waiting item is processed or waits afterwards. */
  lemma {:induction false} NothingLost(l: Loop, now: nat, script: seq<seq<Call>>, x: Item)
    requires x in l.active || x in l.added
    ensures Fires(Play(l, now, script).fired, x) || x in Play(l, now, script).loop.added
    decreases |script|, |l.active|
  {
    if l.active == [] {
    } else if Early(l.active[0], l.flagged, now) {
      NothingLost(PutBack(l), now, script, x);
    } else {
      FiresNext(l, now, script, x);
      if x != l.active[0] {
        CallsLoseNothing(Popped(l), Head(script), x);
        NothingLost(Processed(l, Head(script)), now, Tail(script), x);
      }
    }
  }

  lemma SignalledLater(script: seq<seq<Call>>, x: Item)
    requires !EverSignalled(script, x)
    ensures !Signalled(Head(script), x) && !EverSignalled(Tail(script), x)
  {
    if script != [] {
      forall i | 0 <= i < |Tail(script)| ensures !Signalled(Tail(script)[i], x) {
        assert Tail(script)[i] == script[i + 1];
      }
    }
  }

  /** A waiting item that nobody signals is not processed. */
  lemma {:induction false} WaitsOn(l: Loop, now: nat, script: seq<seq<Call>>, x: Item)
    requires x in l.added && x !in l.active && !EverSignalled(script, x)
    ensures var r := Play(l, now, script); !Fires(r.fired, x) && x in r.loop.added && r.loop.added[x] == l.added[x]
    decreases |script|, |l.active|
  {
    if l.active == [] {
    } else if Early(l.active[0], l.flagged, now) {
      WaitsOn(PutBack(l), now, script, x);
    } else {
      FiresNext(l, now, script, x);
      SignalledLater(script, x);
      CallsLeaveWaiting(Popped(l), Head(script), x);
      WaitsOn(Processed(l, Head(script)), now, Tail(script), x);
    }
  }

  /** An item that the wheel raised too early and nobody signals waits again, unprocessed. */
  lemma {:induction false} EarlyWaitsAgain(l: Loop, now: nat, script: seq<seq<Call>>, x: Item)
    requires InOnePlace(l) && x in l.active && Early(x, l.flagged, now) && !EverSignalled(script, x)
    ensures var r := Play(l, now, script); !Fires(r.fired, x) && x in r.loop.added && r.loop.added[x] == l.start
    decreases |script|, |l.active|
  {
    if l.active[0] == x {
      WaitsOn(PutBack(l), now, script, x);
    } else if Early(l.active[0], l.flagged, now) {
      EarlyWaitsAgain(PutBack(l), now, script, x);
    } else {
      FiresNext(l, now, script, x);
      SignalledLater(script, x);
      CallsKeepActive(Popped(l), Head(script), x);
      CallsKeepPlaces(Popped(l), Head(script));
      EarlyWaitsAgain(Processed(l, Head(script)), now, Tail(script), x);
    }
  }

  // ---- signals -----------------------------------------------------------------------

  /** A point of the pass: the loop there, the script that is left, what has been processed. */
  datatype Point = Point(loop: Loop, script: seq<seq<Call>>, before: seq<Fired>)

  /** The point at which an item of the active list is first at its head. */
  ghost function Reach(l: Loop, now: nat, script: seq<seq<Call>>, x: Item): Point
    decreases |script|, |l.active|
  {
    if l.active == [] || l.active[0] == x then Point(l, script, [])
    else if Early(l.active[0], l.flagged, now) then Reach(PutBack(l), now, script, x)
    else
      var p := Reach(Processed(l, Head(script)), now, Tail(script), x);
      p.(before := [Fired(l.active[0], l.active[0] in l.flagged)] + p.before)
  }

  /** Every active item gets to the head, with the flag it has now. */
  lemma {:induction false} ReachIs(l: Loop, now: nat, script: seq<seq<Call>>, x: Item)
    requires x in l.active
    ensures var p := Reach(l, now, script, x);
            p.loop.active != [] && p.loop.active[0] == x && (x in p.loop.flagged <==> x in l.flagged) && !Fires(p.before, x)
    decreases |script|, |l.active|
  {
    hide DoCalls, Fires;
    if l.active[0] == x {
      FiresNothing(x);
    } else if Early(l.active[0], l.flagged, now) {
      ReachIs(PutBack(l), now, script, x);
    } else {
      CallsKeepActive(Popped(l), Head(script), x);
      var p := Reach(Processed(l, Head(script)), now, Tail(script), x);
      ReachIs(Processed(l, Head(script)), now, Tail(script), x);
      FiresOne(l.active[0], l.active[0] in l.flagged, p.before, x);
    }
  }

  lemma FiresNothing(x: Item)
    ensures !Fires([], x)
  {
  }

  lemma FiresOne(y: Item, raised: bool, t: seq<Fired>, x: Item)
    ensures Fires([Fired(y, raised)] + t, x) <==> x == y || Fires(t, x)
  {
    var head := [Fired(y, raised)];
    FiresAppend(head, t, x);
    assert Fires(head, x) <==> x == y by { assert head[0].item == y; }
  }

  /** And the pass goes on from there. */
  lemma {:induction false} ReachPlays(l: Loop, now: nat, script: seq<seq<Call>>, x: Item)
    ensures var p := Reach(l, now, script, x); var r := Play(p.loop, now, p.script);
            Play(l, now, script) == Outcome(r.loop, p.before + r.fired)
    decreases |script|, |l.active|
  {
    hide DoCalls, Processed;
    if l.active == [] || l.active[0] == x {
      assert Reach(l, now, script, x) == Point(l, script, []);
    } else if Early(l.active[0], l.flagged, now) {
      ReachPlays(PutBack(l), now, script, x);
    } else {
      var m, head := Processed(l, Head(script)), [Fired(l.active[0], l.active[0] in l.flagged)];
      ReachPlays(m, now, Tail(script), x);
      var p := Reach(m, now, Tail(script), x);
      FiredAssociate(head, p.before, Play(p.loop, now, p.script).fired);
    }
  }

  lemma FiredAssociate(a: seq<Fired>, b: seq<Fired>, c: seq<Fired>)
    ensures (a + b) + c == a + (b + c)
  {
  }

  /**
   A signalled item is processed when the pass gets to it if and only if the wheel had not already
   raised it before its time when it was signalled. Otherwise it goes back on the wheel.
   */
  lemma SignalArrives(l: Loop, now: nat, more: seq<Call>, script: seq<seq<Call>>, x: Item)
    ensures var p := Reach(DoCalls(DoCall(l, Signals(x)), more), now, script, x); var r := Play(p.loop, now, p.script);
            p.loop.active != [] && p.loop.active[0] == x && !Fires(p.before, x)
            && Play(DoCalls(DoCall(l, Signals(x)), more), now, script) == Outcome(r.loop, p.before + r.fired)
            && if x in l.flagged && now < x.expire then r == Play(PutBack(p.loop), now, p.script) && x in PutBack(p.loop).added
               else r.fired != [] && r.fired[0].item == x
  {
    var m := DoCall(l, Signals(x));
    CallsKeepActive(m, more, x);
    ReachIs(DoCalls(m, more), now, script, x);
    ReachPlays(DoCalls(m, more), now, script, x);
  }

  /** So the signal is lost if and only if that is so and no other signal follows. */
  lemma SignalLost(l: Loop, now: nat, more: seq<Call>, script: seq<seq<Call>>, x: Item)
    requires InOnePlace(l) && !Signalled(more, x) && !EverSignalled(script, x)
    ensures var r := Play(DoCalls(DoCall(l, Signals(x)), more), now, script);
            Fires(r.fired, x) <==> !(x in l.flagged && now < x.expire)
  {
    var m := DoCall(l, Signals(x));
    CallKeepsPlaces(l, Signals(x));
    CallsKeepActive(m, more, x);
    CallsKeepPlaces(m, more);
    if x in l.flagged && now < x.expire {
      EarlyWaitsAgain(DoCalls(m, more), now, script, x);
    } else {
      RipeFires(DoCalls(m, more), now, script, x);
    }
  }
}
