/** The caller's mutex over a wait, and that nobody is stuck for good. */
module CondVarProgress {
  import opened CondVar

  // ------------------------------------------------------------ the caller's mutex

  /** The mutex belongs to nobody, or to a thread that is not on its way out of a wait. */
  predicate MutexInv(s: State) {
    s.g.external.By? ==> s.g.external.i < |s.pcs| && !Departing(s.pcs[s.g.external.i])
  }

  lemma StepKeepsMutex(l: Local, i: nat, a: Action, r: set<nat>)
    requires CanAct(l, i, a) && (l.g.external == By(i) ==> !Departing(l.pc))
    ensures var l' := Act(l, i, a, r);
      && (l'.g.external == l.g.external || l'.g.external == Free || l'.g.external == By(i))
      && (l'.g.external == By(i) ==> !Departing(l'.pc))
  {
  }

  lemma {:induction false} MutexOverRuns(ss: seq<State>, ms: seq<Move>, k: nat)
    requires Run(ss, ms) && k < |ss|
    ensures MutexInv(ss[k])
  {
    hide Act, CanAct, Departing;
    if k > 0 {
      MutexOverRuns(ss, ms, k - 1);
      assert Follows(ss[k - 1], ms[k - 1], ss[k]);
      var s, m := ss[k - 1], ms[k - 1];
      StepKeepsMutex(Local(s.g, s.pcs[m.i]), m.i, m.a, RegisteredSet(s.pcs));
    }
  }

  /** A wait gives up the mutex before it waits for a token, and does not have it back before it returns. */
  lemma WaitGivesUpMutex(ss: seq<State>, ms: seq<Move>, k: nat, i: nat)
    requires Run(ss, ms) && k < |ss| && i < |ss[k].pcs| && Departing(ss[k].pcs[i])
    ensures ss[k].g.external != By(i)
  {
    hide Run;
    MutexOverRuns(ss, ms, k);
  }

  /** A thread in a wait that has taken no token yet holds the mutex or is registered: whoever takes the mutex
      after the wait has given it up, and then signals, finds the thread counted. */
  lemma RegisteredBeforeMutexIsFree(ss: seq<State>, ms: seq<Move>, k: nat, i: nat)
    requires Run(ss, ms) && k < |ss| && i < |ss[k].pcs| && (Entering(ss[k].pcs[i]) || ss[k].pcs[i] == WaitSemaphore)
    ensures ss[k].g.external == By(i) || i in RegisteredSet(ss[k].pcs)
  {
    hide Run, Total, TokensInv;
    RunInv(ss, ms, k);
    assert LocksInv(ss[k].g, i, ss[k].pcs[i]);
  }

  // ------------------------------------------------------------ no deadlock

  /** Waiting for a signal that has not come, or for a mutex whose owner is not in any operation. */
  predicate Parked(s: State, i: nat)
    requires i < |s.pcs|
  {
    || (s.pcs[i] == WaitSemaphore && s.g.semaphore == 0)
    || (s.pcs[i] == WaitLockExternal && s.g.external.By?
        && s.g.external.i < |s.pcs| && s.pcs[s.g.external.i] == Idle)
  }

  ghost predicate SomeStep(s: State) { exists j :: Enabled(s, j, Continue) }

  /** The holder of the count lock can always go on. */
  lemma CountHolderSteps(s: State)
    requires Inv(s) && s.g.countLock.By?
    ensures SomeStep(s)
  {
    hide TokensInv, EntryInv, CountInv, Total;
    assert LocksInv(s.g, s.g.countLock.i, s.pcs[s.g.countLock.i]);
    assert Enabled(s, s.g.countLock.i, Continue);
  }

  /** The holder of the broadcast lock can go on, or waits for the count lock or the event. */
  lemma BroadcastHolderSteps(s: State, i: nat)
    requires Inv(s) && i < |s.pcs| && HoldsBroadcast(s.pcs[i])
    ensures SomeStep(s)
  {
    hide TokensInv, EntryInv, CountInv, Total;
    if !Enabled(s, i, Continue) {
      if s.g.countLock.By? {
        CountHolderSteps(s);
      } else {
        var j := FindHelper(s, i);
        assert Enabled(s, j, Continue);
      }
    }
  }

  /** A thread in signal, in broadcast, or at the start of a wait. */
  lemma CallerSteps(s: State, i: nat)
    requires Inv(s) && i < |s.pcs| && s.pcs[i] != Idle
    requires s.pcs[i] != WaitSemaphore && s.pcs[i] != WaitLockExternal
    ensures SomeStep(s)
  {
    hide TokensInv, EntryInv, CountInv, Total, Inv;
    if !Enabled(s, i, Continue) {
      if HoldsBroadcast(s.pcs[i]) {
        BroadcastHolderSteps(s, i);
      } else if
        s.g.broadcastLock.By?
        && (s.pcs[i].WaitLockBroadcast? || s.pcs[i].SignalLockBroadcast? || s.pcs[i].BroadcastLock?)
      {
        HolderOf(s);
        BroadcastHolderSteps(s, s.g.broadcastLock.i);
      } else {
        CountHolderSteps(s);
      }
    }
  }

  lemma HolderOf(s: State)
    requires Inv(s) && s.g.broadcastLock.By?
    ensures s.g.broadcastLock.i < |s.pcs| && HoldsBroadcast(s.pcs[s.g.broadcastLock.i])
  {
    hide TokensInv, EntryInv, CountInv, Total;
    assert LocksInv(s.g, s.g.broadcastLock.i, s.pcs[s.g.broadcastLock.i]);
  }

  /** Whenever some thread is in an operation and is not waiting for its clients, some thread can step. */
  lemma NoDeadlock(ss: seq<State>, ms: seq<Move>, k: nat, i: nat)
    requires Run(ss, ms) && k < |ss| && i < |ss[k].pcs| && ss[k].pcs[i] != Idle && !Parked(ss[k], i)
    ensures SomeStep(ss[k])
  {
    hide Run, Inv;
    RunInv(ss, ms, k);
    MutexOverRuns(ss, ms, k);
    var s := ss[k];
    if s.pcs[i] == WaitSemaphore {
      assert Enabled(s, i, Continue);
    } else if s.pcs[i] == WaitLockExternal {
      if s.g.external.By? {
        CallerSteps(s, s.g.external.i);
      } else {
        assert Enabled(s, i, Continue);
      }
    } else {
      CallerSteps(s, i);
    }
  }

  // ------------------------------------------------------------ a wait and a signal

  /** The last of the visited states, with two threads. */
  ghost predicate Last(ss: seq<State>, ms: seq<Move>, g: Shared, p: Pc, q: Pc) {
    |ss| == |ms| + 1 && ss[|ms|] == State(g, [p, q])
  }

  function Of(g: Shared, p: Pc, q: Pc, i: nat): Local { Local(g, if i == 0 then p else q) }

  /** Thread i, one of two, makes one move more. */
  lemma Go(ss: seq<State>, ms: seq<Move>, g: Shared, p: Pc, q: Pc, i: nat, a: Action)
    returns (ss': seq<State>, ms': seq<Move>, l: Local)
    requires Run(ss, ms) && Last(ss, ms, g, p, q) && i < 2 && CanAct(Of(g, p, q, i), i, a)
    ensures l == Act(Of(g, p, q, i), i, a, RegisteredSet([p, q]))
    ensures Run(ss', ms') && ss'[0] == ss[0]
    ensures Last(ss', ms', l.g, if i == 0 then l.pc else p, if i == 0 then q else l.pc)
  {
    hide Act, CanAct, Init, RegisteredSet;
    var s := ss[|ms|];
    l := Act(Of(g, p, q, i), i, a, RegisteredSet([p, q]));
    ss', ms' := ss + [Next(s, i, a)], ms + [Move(i, a)];
    assert Next(s, i, a).pcs == [if i == 0 then l.pc else p, if i == 0 then q else l.pc];
    forall k | 0 <= k < |ms'|
      ensures Follows(ss'[k], ms'[k], ss'[k + 1])
    {
      if k < |ms| {
        assert Follows(ss[k], ms[k], ss[k + 1]);
      }
    }
  }

  predicate Quiet(g: Shared) {
    && g.broadcastLock == Free && g.countLock == Free && g.semaphore == 0 && !g.event && !g.isBroadcast
  }

  /** Thread 0 takes the mutex and waits. */
  lemma Waits(s: State) returns (ss: seq<State>, ms: seq<Move>, g: Shared)
    requires Init(s) && |s.pcs| == 2
    ensures Run(ss, ms) && ss[0] == s && Last(ss, ms, g, WaitSemaphore, Idle)
    ensures Quiet(g) && g.external == Free && g.waiterCount == 1
  {
    var l;
    ss, ms, g := [s], [], s.g;
    assert s.pcs == [Idle, Idle];
    hide Run, Last, RegisteredSet, Init;
    assert Run(ss, ms) by { BeginsHere(s); }
    assert Last(ss, ms, g, Idle, Idle) by { LastHere(s); }
    ss, ms, l := Go(ss, ms, g, Idle, Idle, 0, LockExternal);
    ss, ms, l := Go(ss, ms, l.g, l.pc, Idle, 0, StartWait);
    ss, ms, l := Go(ss, ms, l.g, l.pc, Idle, 0, Continue);
    ss, ms, l := Go(ss, ms, l.g, l.pc, Idle, 0, Continue);
    ss, ms, l := Go(ss, ms, l.g, l.pc, Idle, 0, Continue);
    ss, ms, l := Go(ss, ms, l.g, l.pc, Idle, 0, Continue);
    ss, ms, l := Go(ss, ms, l.g, l.pc, Idle, 0, Continue);
    ss, ms, l := Go(ss, ms, l.g, l.pc, Idle, 0, Continue);
    g := l.g;
  }

  lemma BeginsHere(s: State)
    requires Init(s)
    ensures Run([s], [])
  {
  }

  lemma LastHere(s: State)
    requires s.pcs == [Idle, Idle]
    ensures Last([s], [], s.g, Idle, Idle)
  {
  }

  /** Thread 1 takes the mutex, which is free, and signals until it has to wait for the waiter. */
  lemma Signals(ss0: seq<State>, ms0: seq<Move>, g0: Shared) returns (ss: seq<State>, ms: seq<Move>, g: Shared, q: Pc)
    requires Run(ss0, ms0) && Last(ss0, ms0, g0, WaitSemaphore, Idle)
    requires Quiet(g0) && g0.external == Free && g0.waiterCount == 1
    ensures Run(ss, ms) && ss[0] == ss0[0] && Last(ss, ms, g, WaitSemaphore, q) && q.SignalWaitEvent?
    ensures g.broadcastLock == By(1) && g.countLock == Free && g.external == By(1)
    ensures g.waiterCount == 1 && g.semaphore == 1 && !g.event && !g.isBroadcast
  {
    hide Run, Last, RegisteredSet;
    var l;
    ss, ms, l := Go(ss0, ms0, g0, WaitSemaphore, Idle, 1, LockExternal);
    ss, ms, l := Go(ss, ms, l.g, WaitSemaphore, l.pc, 1, StartSignal);
    ss, ms, l := Go(ss, ms, l.g, WaitSemaphore, l.pc, 1, Continue);
    ss, ms, l := Go(ss, ms, l.g, WaitSemaphore, l.pc, 1, Continue);
    ss, ms, l := Go(ss, ms, l.g, WaitSemaphore, l.pc, 1, Continue);
    ss, ms, l := Go(ss, ms, l.g, WaitSemaphore, l.pc, 1, Continue);
    ss, ms, l := Go(ss, ms, l.g, WaitSemaphore, l.pc, 1, Continue);
    g, q := l.g, l.pc;
  }

  /** Thread 0 takes the token, sets the event and waits for the mutex. */
  lemma Leaves(ss0: seq<State>, ms0: seq<Move>, g0: Shared, q: Pc) returns (ss: seq<State>, ms: seq<Move>, g: Shared)
    requires Run(ss0, ms0) && Last(ss0, ms0, g0, WaitSemaphore, q)
    requires g0.countLock == Free && g0.waiterCount == 1 && g0.semaphore == 1 && !g0.isBroadcast
    ensures Run(ss, ms) && ss[0] == ss0[0] && Last(ss, ms, g, WaitLockExternal, q)
    ensures g.broadcastLock == g0.broadcastLock && g.countLock == Free && g.external == g0.external
    ensures g.waiterCount == 0 && g.semaphore == 0 && g.event && !g.isBroadcast
  {
    hide Run, Last, RegisteredSet;
    var l;
    ss, ms, l := Go(ss0, ms0, g0, WaitSemaphore, q, 0, Continue);
    ss, ms, l := Go(ss, ms, l.g, l.pc, q, 0, Continue);
    ss, ms, l := Go(ss, ms, l.g, l.pc, q, 0, Continue);
    ss, ms, l := Go(ss, ms, l.g, l.pc, q, 0, Continue);
    ss, ms, l := Go(ss, ms, l.g, l.pc, q, 0, Continue);
    g := l.g;
  }

  /** A thread takes the mutex and waits; another one takes the mutex, signals and gives the mutex back; then the
      wait returns with the mutex, and nothing of the signal is left behind. */
  lemma SignalledWaitReturns(s: State) returns (ss: seq<State>, ms: seq<Move>, g: Shared)
    requires Init(s) && |s.pcs| == 2
    ensures Run(ss, ms) && ss[0] == s && Last(ss, ms, g, Idle, Idle)
    ensures Quiet(g) && g.external == By(0) && g.waiterCount == 0
  {
    hide Run, Last, RegisteredSet, Init;
    var q;
    ss, ms, g := Waits(s);
    ss, ms, g, q := Signals(ss, ms, g);
    ss, ms, g := Leaves(ss, ms, g, q);
    var l;
    ss, ms, l := Go(ss, ms, g, WaitLockExternal, q, 1, Continue);
    ss, ms, l := Go(ss, ms, l.g, WaitLockExternal, l.pc, 1, Continue);
    ss, ms, l := Go(ss, ms, l.g, WaitLockExternal, l.pc, 1, Continue);
    ss, ms, l := Go(ss, ms, l.g, WaitLockExternal, l.pc, 1, UnlockExternal);
    ss, ms, l := Go(ss, ms, l.g, WaitLockExternal, l.pc, 0, Continue);
    g := l.g;
  }
}
