/**
 libco's coroutine mutex: a counter and a first-in-first-out condition queue. A coroutine that
 cannot have the lock yields; an unlock moves the first waiter to the event loop's active list,
 and the waiter owns the lock once the loop resumes it.
 */
module CoMutex {
  type Co = nat

  /** An entry of the active list: a waiter of this mutex to resume, or some other event. */
  datatype Active = Wakes(co: Co) | Other(id: nat)

  /**
   `holders` are the coroutines that have returned from `CoLock` and not yet unlocked;
   `requests` and `grants` record all calls of `CoLock` and all returns from it, in order.
   */
  datatype State = State(waitItemCnt: int, cond: seq<Co>, active: seq<Active>,
                         holders: seq<Co>, requests: seq<Co>, grants: seq<Co>)

  /** The waiters that an unlock has moved to the active list. */
  ghost function Woken(active: seq<Active>): seq<Co> {
    if active == [] then [] else (if active[0].Wakes? then [active[0].co] else []) + Woken(active[1..])
  }

  lemma {:induction false} WokenAppend(a: seq<Active>, x: Active)
    ensures Woken(a + [x]) == Woken(a) + (if x.Wakes? then [x.co] else [])
  {
    if a == [] {
      assert a + [x] == [x];
    } else {
      assert (a + [x])[1..] == a[1..] + [x];
      WokenAppend(a[1..], x);
      var h, t := if a[0].Wakes? then [a[0].co] else [], if x.Wakes? then [x.co] else [];
      assert h + (Woken(a[1..]) + t) == (h + Woken(a[1..])) + t;
    }
  }

  // ---- the steps --------------------------------------------------------------------

  ghost function Lock(s: State, c: Co): State {
    if s.waitItemCnt > 0 then
      s.(waitItemCnt := s.waitItemCnt + 1, cond := s.cond + [c], requests := s.requests + [c])
    else
      s.(waitItemCnt := s.waitItemCnt + 1, holders := s.holders + [c], requests := s.requests + [c], grants := s.grants + [c])
  }

  /** The first waiter, if any, goes to the active list. */
  ghost function Signal(s: State): State {
    if s.cond == [] then s else s.(cond := s.cond[1..], active := s.active + [Wakes(s.cond[0])])
  }

  /** The holder `c` unlocks. */
  ghost function Unlock(s: State, c: Co): State
    requires c in s.holders
  {
    var at :| 0 <= at < |s.holders| && s.holders[at] == c;
    Signal(s.(waitItemCnt := s.waitItemCnt - 1, holders := s.holders[..at] + s.holders[at + 1..]))
  }

  /** The event loop takes the head of the active list; a resumed waiter returns from `CoLock`. */
  ghost function Resume(s: State): State {
    if s.active == [] then s
    else
      var s' := s.(active := s.active[1..]);
      if s.active[0].Wakes? then
        s'.(holders := s.holders + [s.active[0].co], grants := s.grants + [s.active[0].co])
      else s'
  }

  datatype Step = CoLock(c: Co) | CoUnLock(c: Co) | EventLoop | Arrives(id: nat)

  /** A blocked coroutine makes no call, and only a holder unlocks. */
  ghost predicate Enabled(s: State, step: Step) {
    match step
    case CoLock(c) => c !in s.cond && c !in Woken(s.active)
    case CoUnLock(c) => c in s.holders && c !in s.cond
    case EventLoop => true
    case Arrives(_) => true
  }

  ghost function Next(s: State, step: Step): State
    requires Enabled(s, step)
  {
    match step
    case CoLock(c) => Lock(s, c)
    case CoUnLock(c) => Unlock(s, c)
    case EventLoop => Resume(s)
    case Arrives(id) => s.(active := s.active + [Other(id)])
  }

  ghost predicate IsRun(run: seq<State>, steps: seq<Step>) {
    |run| == |steps| + 1 && run[0] == State(0, [], [], [], [], [])
    && forall i :: 0 <= i < |steps| ==> Enabled(run[i], steps[i]) && run[i + 1] == Next(run[i], steps[i])
  }

  // ---- what every run keeps ----------------------------------------------------------------

  /** How many coroutines own the lock or are about to. */
  ghost function Owners(s: State): nat { |s.holders| + |Woken(s.active)| }

  ghost predicate Inv(s: State) {
    Owners(s) <= 1
    && s.waitItemCnt == Owners(s) + |s.cond|
    && (s.cond != [] ==> Owners(s) == 1)
    && s.requests == s.grants + Woken(s.active) + s.cond
  }

  lemma LockKeeps(s: State, c: Co)
    requires Inv(s)
    ensures Inv(Lock(s, c))
  {
    var s' := Lock(s, c);
    if s.waitItemCnt > 0 {
      assert s'.requests == s.grants + Woken(s.active) + (s.cond + [c]);
    } else {
      assert Woken(s.active) == [] && s.cond == [];
      assert s'.requests == s.grants + [c] + [] + [];
    }
  }

  lemma SignalMoves(s: State)
    requires s.cond != []
    ensures Woken(Signal(s).active) + Signal(s).cond == Woken(s.active) + s.cond
    ensures |Woken(Signal(s).active)| == |Woken(s.active)| + 1
  {
    WokenAppend(s.active, Wakes(s.cond[0]));
    assert s.cond == [s.cond[0]] + s.cond[1..];
  }

  lemma UnlockKeeps(s: State, c: Co)
    requires Inv(s) && c in s.holders
    ensures Inv(Unlock(s, c)) && Unlock(s, c).holders == []
  {
    assert s.holders == [c] && Woken(s.active) == [];
    var s1 := s.(waitItemCnt := s.waitItemCnt - 1, holders := []);
    assert Unlock(s, c) == Signal(s1);
    if s.cond != [] { 
      SignalMoves(s1);
      assert s.grants + (Woken(Signal(s1).active) + Signal(s1).cond) == s.grants + Woken(Signal(s1).active) + Signal(s1).cond;
      assert s.grants + (Woken(s.active) + s.cond) == s.grants + Woken(s.active) + s.cond;
    }
  }

  lemma ResumeKeeps(s: State)
    requires Inv(s)
    ensures Inv(Resume(s)) && Owners(Resume(s)) == Owners(s)
  {
    if s.active != [] && s.active[0].Wakes? {
      var c := s.active[0].co;
      assert Woken(s.active) == [c] + Woken(s.active[1..]);
      assert s.grants + ([c] + Woken(s.active[1..])) == s.grants + [c] + Woken(s.active[1..]);
    } else if s.active != [] {
      assert Woken(s.active) == Woken(s.active[1..]);
    }
  }

  lemma StepKeeps(s: State, step: Step)
    requires Inv(s) && Enabled(s, step)
    ensures Inv(Next(s, step))
  {
    match step
    case CoLock(c) => LockKeeps(s, c);
    case CoUnLock(c) => UnlockKeeps(s, c);
    case EventLoop => ResumeKeeps(s);
    case Arrives(id) => WokenAppend(s.active, Other(id)); assert Woken(s.active) + [] == Woken(s.active);
  }

  /**
   In every interleaving: at most one coroutine owns the lock, the counter is the owner (or next
   owner) plus the queue, the lock is granted in the order of the requests, and nobody waits for
   a lock that nobody has.
   */
  lemma {:induction false} EveryRun(run: seq<State>, steps: seq<Step>, i: nat)
    requires IsRun(run, steps) && i < |run|
    ensures Inv(run[i]) && |run[i].holders| <= 1 && run[i].grants <= run[i].requests
  {
    if i > 0 {
      EveryRun(run, steps, i - 1);
      StepKeeps(run[i - 1], steps[i - 1]);
    }
  }

  // ---- no lost wakeup -----------------------------------------------------------------------

  ghost function Loops(s: State, n: nat): State
    decreases n
  {
    if n == 0 then s else Loops(Resume(s), n - 1)
  }

  /** A woken waiter owns the lock once the loop has worked off the active list. */
  lemma {:induction false} WakeupArrives(s: State)
    requires Inv(s)
    ensures Inv(Loops(s, |s.active|))
    ensures Loops(s, |s.active|).holders == s.holders + Woken(s.active)
    ensures Loops(s, |s.active|).active == [] && Loops(s, |s.active|).cond == s.cond
    decreases |s.active|
  {
    ResumeKeeps(s);
    if s.active != [] {
      WakeupArrives(Resume(s));
      if s.active[0].Wakes? {
        var c := s.active[0].co;
        assert s.holders + ([c] + Woken(s.active[1..])) == s.holders + [c] + Woken(s.active[1..]);
      } else {
        assert Woken(s.active) == Woken(s.active[1..]);
      }
    } else {
      assert s.holders + [] == s.holders;
    }
  }

  /** After an unlock and one pass of the loop the lock is with the coroutine that waited longest. */
  lemma HandOver(s: State, c: Co)
    requires Inv(s) && c in s.holders
    ensures var s' := Unlock(s, c);
            Loops(s', |s'.active|).holders == if s.cond == [] then [] else [s.cond[0]]
  {
    UnlockKeeps(s, c);
    WakeupArrives(Unlock(s, c));
    assert s.holders == [c] && Woken(s.active) == [];
    if s.cond != [] {
      WokenAppend(s.active, Wakes(s.cond[0]));
    }
  }

  // ---- whatever comes in between -----------------------------------------------------------------

  /** How many of the steps from `i` to before `j` are steps of the event loop. */
  ghost function LoopSteps(steps: seq<Step>, i: nat, j: nat): nat
    requires i <= j <= |steps|
    decreases j - i
  {
    if i == j then 0 else LoopSteps(steps, i, j - 1) + if steps[j - 1].EventLoop? then 1 else 0
  }

  /** A woken waiter moves up by one place with every step of the event loop and by no other step. */
  lemma {:induction false} MovesUp(run: seq<State>, steps: seq<Step>, i: nat, j: nat, p: nat, c: Co)
    requires IsRun(run, steps) && i <= j <= |steps| && p < |run[i].active| && run[i].active[p] == Wakes(c)
    requires LoopSteps(steps, i, j) <= p
    ensures var q := p - LoopSteps(steps, i, j); q < |run[j].active| && run[j].active[q] == Wakes(c)
    decreases j - i
  {
    if i < j {
      MovesUp(run, steps, i, j - 1, p, c);
      EveryRun(run, steps, j - 1);
      var s, step := run[j - 1], steps[j - 1];
      WokenAt(s.active, p - LoopSteps(steps, i, j - 1));
      StepAppends(s, step);
    }
  }

  lemma {:induction false} WokenAt(active: seq<Active>, p: nat)
    requires p < |active| && active[p].Wakes?
    ensures active[p].co in Woken(active)
  {
    if p > 0 { WokenAt(active[1..], p - 1); }
  }

  /** While a waiter is on its way nobody can unlock, and all other steps only append to the active list. */
  lemma StepAppends(s: State, step: Step)
    requires Inv(s) && Enabled(s, step) && Woken(s.active) != []
    ensures !step.CoUnLock?
    ensures if step.EventLoop? then Next(s, step).active == s.active[1..] else s.active <= Next(s, step).active
  {
    assert s.holders == [];
  }

  /**
   In every run, a waiter at position `p` of the active list owns the lock right after the event
   loop's step number `p + 1`, whatever locks and events come in between.
   */
  lemma WaiterGetsLock(run: seq<State>, steps: seq<Step>, i: nat, j: nat, p: nat, c: Co)
    requires IsRun(run, steps) && i <= j < |steps| && p < |run[i].active| && run[i].active[p] == Wakes(c)
    requires LoopSteps(steps, i, j) == p && steps[j].EventLoop?
    ensures run[j + 1].holders == [c]
  {
    MovesUp(run, steps, i, j, p, c);
    EveryRun(run, steps, j);
    WokenAt(run[j].active, 0);
    assert run[j].holders == [];
  }

  /**
   In every run, an unlock hands the lock to the coroutine that waits longest: it owns the lock
   once the event loop has taken as many steps as there were active entries, and one more.
   */
  lemma UnlockHandsOver(run: seq<State>, steps: seq<Step>, i: nat, j: nat)
    requires IsRun(run, steps) && i < j < |steps| && steps[i].CoUnLock? && run[i].cond != []
    requires LoopSteps(steps, i + 1, j) == |run[i].active| && steps[j].EventLoop?
    ensures run[j + 1].holders == [run[i].cond[0]]
  {
    assert run[i + 1].active == run[i].active + [Wakes(run[i].cond[0])];
    WaiterGetsLock(run, steps, i + 1, j, |run[i].active|, run[i].cond[0]);
  }

  // ---- the objects --------------------------------------------------------------------------

  /** The event loop's active list. */
  class EventLoop {
    var active: seq<Active>

    constructor ()
      ensures active == []
    {
      active := [];
    }
  }

  /** `clsCoMutex` with its condition, and the coroutines' own view of the lock as ghost state. */
  class Mutex {
    const loop: EventLoop
    var waitItemCnt: int
    var cond: seq<Co>
    ghost var holders: seq<Co>
    ghost var requests: seq<Co>
    ghost var grants: seq<Co>

    ghost function View(): State
      reads this, loop
    {
      State(waitItemCnt, cond, loop.active, holders, requests, grants)
    }

    constructor (loop: EventLoop)
      requires loop.active == []
      ensures View() == State(0, [], [], [], [], []) && this.loop == loop
    {
      this.loop := loop;
      waitItemCnt, cond, holders, requests, grants := 0, [], [], [], [];
    }

    /** `CoLock`; `blocked` tells whether the caller yields until the loop resumes it. */
    method CoLock(c: Co) returns (blocked: bool)
      requires Inv(View()) && Enabled(View(), Step.CoLock(c))
      modifies this
      ensures View() == Lock(old(View()), c) && Inv(View())
      ensures blocked == (old(cond) != [] || old(holders) != [] || Woken(old(loop.active)) != [])
      ensures !blocked ==> holders == [c]
    {
      LockKeeps(View(), c);
      requests := requests + [c];
      if waitItemCnt > 0 {
        waitItemCnt := waitItemCnt + 1;
        cond := cond + [c];
        blocked := true;
      } else {
        waitItemCnt := waitItemCnt + 1;
        holders, grants := holders + [c], grants + [c];
        blocked := false;
      }
    }

    /** `CoUnLock` by the holder `c`. */
    method CoUnLock(ghost c: Co)
      requires Inv(View()) && Enabled(View(), Step.CoUnLock(c))
      modifies this, loop
      ensures View() == Unlock(old(View()), c) && Inv(View())
    {
      UnlockKeeps(View(), c);
      waitItemCnt := waitItemCnt - 1;
      ghost var at :| 0 <= at < |holders| && holders[at] == c;
      holders := holders[..at] + holders[at + 1..];
      CondSignal();
    }

    /** `co_cond_signal` */
    method CondSignal()
      modifies this`cond, loop
      ensures View() == Signal(old(View()))
      ensures old(cond) != [] ==> [old(cond)[0]] + cond == old(cond) && loop.active == old(loop.active) + [Wakes(old(cond)[0])]
      ensures Woken(loop.active) + cond == Woken(old(loop.active)) + old(cond)
    {
      if cond != [] { SignalMoves(View()); }
      if cond == [] { return; }
      var sp := cond[0];
      cond := cond[1..];
      loop.active := loop.active + [Wakes(sp)];
    }

    /** The loop resumes the head of its active list, which returns from `CoLock` if it waited there. */
    method ResumeHead() returns (resumed: Active)
      requires Inv(View()) && loop.active != []
      modifies this, loop
      ensures View() == Resume(old(View())) && Inv(View()) && resumed == old(loop.active)[0]
      ensures resumed.Wakes? ==> holders == [resumed.co]
    {
      ResumeKeeps(View());
      resumed := loop.active[0];
      loop.active := loop.active[1..];
      if resumed.Wakes? {
        holders, grants := holders + [resumed.co], grants + [resumed.co];
      }
    }
  }
}
