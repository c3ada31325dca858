/** The operations of the emulated condition variable as code on its fields.  Between any two accesses the
    other threads make any moves of the protocol; an operation that cannot go on when they are through is
    reported as blocked. */
module CondVarCode {
  import opened CondVar
  import opened CondVarProgress

  lemma RunGrows(ss: seq<State>, ms: seq<Move>, m: Move)
    requires Run(ss, ms) && Enabled(ss[|ms|], m.i, m.a)
    ensures |ss| == |ms| + 1 && Run(ss + [Next(ss[|ms|], m.i, m.a)], ms + [m])
  {
    hide Next, Enabled, Init;
    var ss', ms' := ss + [Next(ss[|ms|], m.i, m.a)], ms + [m];
    forall k | 0 <= k < |ms'|
      ensures Follows(ss'[k], ms'[k], ss'[k + 1])
    {
      if k < |ms| {
        assert Follows(ss[k], ms[k], ss[k + 1]);
      }
    }
  }

  datatype Mutex = Broadcast | Count | External | NoMutex

  /** The mutex a thread is about to lock or to unlock. */
  function Locks(pc: Pc): Mutex {
    if pc.WaitLockBroadcast? || pc.SignalLockBroadcast? || pc.BroadcastLock? then Broadcast
    else if pc.WaitLockCount? || pc.WaitLockCountAgain? || pc.SignalLockCount? || pc.BroadcastLockCount? then Count
    else if pc.WaitLockExternal? then External
    else NoMutex
  }

  function Unlocks(pc: Pc): Mutex {
    if pc.WaitUnlockBroadcast? || pc.SignalUnlockBroadcast? || pc.BroadcastUnlock? then Broadcast
    else if pc.WaitUnlockCount? || pc.WaitUnlockCountAgain? || pc.SignalUnlockCount?
      || pc.BroadcastUnlockCountEmpty? || pc.BroadcastUnlockCount? then Count
    else if pc.WaitUnlockExternal? then External
    else NoMutex
  }

  /** Exactly one of the waiters registered on entry has been released, or there were none. */
  ghost predicate OneReleased(s: State) {
    if s.g.entry == {} then s.g.took == {} else exists j: nat :: ReleasedOnly(s, j)
  }

  /** All waiters registered on entry have been released, and nobody is registered. */
  ghost predicate AllReleased(s: State) {
    s.g.took == s.g.entry && forall j :: 0 <= j < |s.pcs| ==> !Registered(s.pcs[j])
  }

  lemma SignalReleasedOne(ss: seq<State>, ms: seq<Move>, k: nat, i: nat)
    requires Run(ss, ms) && k < |ss| && i < |ss[k].pcs| && ss[k].pcs[i].SignalUnlockBroadcast?
    ensures OneReleased(ss[k])
  {
    hide Run, ReleasedOnly;
    SignalReleasesExactlyOne(ss, ms, k, i);
  }

  lemma BroadcastReleasedAll(ss: seq<State>, ms: seq<Move>, k: nat, i: nat)
    requires Run(ss, ms) && k < |ss| && i < |ss[k].pcs| && ss[k].pcs[i].BroadcastUnlock?
    ensures AllReleased(ss[k])
  {
    hide Run;
    BroadcastReleasesAll(ss, ms, k, i);
  }

  /** At state k thread i, registered when the signaller read the count, takes its only token; it does not hold the
      caller's mutex meanwhile. */
  predicate TookToken(ss: seq<State>, k: int, i: nat) {
    && 0 <= k && k + 1 < |ss| && i < |ss[k].pcs| && ss[k].pcs[i] == WaitSemaphore
    && i in ss[k].g.entry && i !in ss[k].g.took && ss[k + 1].g.took == ss[k].g.took + {i}
    && ss[k].g.external != By(i)
  }

  lemma TokenIsDue(ss: seq<State>, ms: seq<Move>, i: nat)
    requires Run(ss, ms) && i < |ss[|ms|].pcs| && ss[|ms|].pcs[i] == WaitSemaphore && ss[|ms|].g.semaphore > 0
    ensures i in ss[|ms|].g.entry && i !in ss[|ms|].g.took && |ss| == |ms| + 1 && ss[|ms|].g.external != By(i)
  {
    WaitGivesUpMutex(ss, ms, |ms|, i);
    OnlyRegisteredWaitersTakeTokens(ss, ms, |ms|, i);
  }

  lemma NotMine(ss: seq<State>, ms: seq<Move>, i: nat)
    requires Run(ss, ms) && i < |ss[|ms|].pcs| && ss[|ms|].pcs[i] == WaitSemaphore
    ensures ss[|ms|].g.external != By(i)
  {
    WaitGivesUpMutex(ss, ms, |ms|, i);
  }

  lemma TokenKept(ss: seq<State>, ss': seq<State>, k: int, i: nat)
    requires ss <= ss' && TookToken(ss, k, i)
    ensures TookToken(ss', k, i)
  {
  }

  class WinCond {
    var broadcastLock: Owner
    var countLock: Owner
    var external: Owner
    var waiterCount: int
    var semaphore: nat
    var event: bool
    var isBroadcast: bool
    var entry: set<nat>
    var took: set<nat>
    /** Where every thread is, and how many moves the others have left. */
    var pcs: seq<Pc>
    var budget: nat
    ghost var visited: seq<State>
    ghost var moves: seq<Move>

    function Fields(): Shared
      reads this
    {
      Shared(broadcastLock, countLock, external, waiterCount, semaphore, event, isBroadcast, entry, took)
    }

    ghost predicate Valid()
      reads this
    {
      Run(visited, moves) && visited[|moves|] == State(Fields(), pcs)
    }

    constructor (count: nat, budget: nat)
      ensures Valid() && |pcs| == count && this.budget == budget
    {
      broadcastLock, countLock, external := Free, Free, Free;
      waiterCount, semaphore, event, isBroadcast, entry, took := 0, 0, false, false, {}, {};
      var idle := seq(count, _ => Idle);
      pcs, this.budget := idle, budget;
      moves := [];
      visited := [State(Shared(Free, Free, Free, 0, 0, false, false, {}, {}), idle)];
    }

    ghost method Record(me: nat, a: Action, mid: Shared, was: seq<Pc>)
      requires Run(visited, moves) && visited[|moves|] == State(mid, was) && me < |was|
      requires CanAct(Local(mid, was[me]), me, a)
      requires var l := Act(Local(mid, was[me]), me, a, RegisteredSet(was));
        Fields() == l.g && pcs == was[me := l.pc]
      modifies `visited, `moves
      ensures Valid() && visited == old(visited) + [State(Fields(), pcs)]
    {
      hide Act, CanAct, Init, RegisteredSet;
      RunGrows(visited, moves, Move(me, a));
      visited, moves := visited + [State(Fields(), pcs)], moves + [Move(me, a)];
    }

    method Become(s: State)
      modifies `broadcastLock, `countLock, `external, `waiterCount, `semaphore, `event, `isBroadcast, `entry, `took, `pcs
      ensures State(Fields(), pcs) == s
    {
      broadcastLock, countLock, external := s.g.broadcastLock, s.g.countLock, s.g.external;
      waiterCount, semaphore, event, isBroadcast := s.g.waiterCount, s.g.semaphore, s.g.event, s.g.isBroadcast;
      entry, took, pcs := s.g.entry, s.g.took, s.pcs;
    }

    /** The other threads make any of their remaining moves. */
    method Interfere(me: nat)
      requires Valid() && me < |pcs|
      modifies this
      ensures Valid() && |pcs| == |old(pcs)| && old(visited) <= visited && pcs[me] == old(pcs[me])
    {
      hide Next, Enabled, Run;
      while budget > 0
        invariant Valid() && |pcs| == |old(pcs)| && old(visited) <= visited && pcs[me] == old(pcs[me])
        decreases budget
      {
        var go: bool := *;
        var m: Move := *;
        var s := State(Fields(), pcs);
        if !go || m.i == me || !Enabled(s, m.i, m.a) {
          break;
        }
        var s' := Next(s, m.i, m.a);
        RunGrows(visited, moves, m);
        NextKeepsOthers(s, m, me);
        Become(s');
        budget := budget - 1;
        visited, moves := visited + [s'], moves + [m];
      }
    }

    lemma NextKeepsOthers(s: State, m: Move, me: nat)
      requires Enabled(s, m.i, m.a) && m.i != me && me < |s.pcs|
      ensures |Next(s, m.i, m.a).pcs| == |s.pcs| && Next(s, m.i, m.a).pcs[me] == s.pcs[me]
    {
      hide Act, CanAct;
    }

    /** The thread goes on to the next point of its operation. */
    method Advance(me: nat, before: Shared)
      requires me < |pcs| && CanAct(Local(before, pcs[me]), me, Continue)
      requires Run(visited, moves) && visited[|moves|] == State(before, pcs)
      requires Fields() == Act(Local(before, pcs[me]), me, Continue, RegisteredSet(pcs)).g
      modifies `pcs, `visited, `moves
      ensures Valid() && |pcs| == |old(pcs)| && visited == old(visited) + [State(Fields(), pcs)]
      ensures old(pcs[me]) != Idle && pcs[me] == After(old(pcs[me]), before) && Fields() == old(Fields())
    {
      hide Init, RegisteredSet, After, Accessed;
      ghost var was := pcs;
      pcs := pcs[me := After(pcs[me], before)];
      Record(me, Continue, before, was);
    }

    // ---------------------------------------------------------- accesses

    /** pthread_mutex_lock */
    method Lock(me: nat, mutex: Mutex) returns (ok: bool, ghost mid: Shared)
      requires Valid() && me < |pcs| && Locks(pcs[me]) == mutex != NoMutex
      modifies this
      ensures Valid() && |pcs| == |old(pcs)| && old(visited) <= visited
      ensures ok ==> pcs[me] == After(old(pcs[me]), mid) && (mutex == External ==> external == By(me))
      ensures !ok ==> pcs[me] == old(pcs[me]) && !CanAct(Local(Fields(), pcs[me]), me, Continue)
    {
      hide Init, Run, RegisteredSet;
      Interfere(me);
      var before := Fields();
      mid := before;
      ok := true;
      match mutex {
        case Broadcast => if broadcastLock != Free { return false, mid; } broadcastLock := By(me);
        case Count => if countLock != Free { return false, mid; } countLock := By(me);
        case External => if external != Free { return false, mid; } external := By(me);
      }
      Advance(me, before);
    }

    /** pthread_mutex_unlock */
    method Unlock(me: nat, mutex: Mutex) returns (ghost mid: Shared)
      requires Valid() && me < |pcs| && Unlocks(pcs[me]) == mutex != NoMutex
      modifies this
      ensures Valid() && |pcs| == |old(pcs)| && old(visited) <= visited && pcs[me] == After(old(pcs[me]), mid)
    {
      hide Init, Run, RegisteredSet;
      Interfere(me);
      var before := Fields();
      mid := before;
      match mutex {
        case Broadcast => broadcastLock := Free;
        case Count => countLock := Free;
        case External => external := Free;
      }
      Advance(me, before);
    }

    /** WaitForSingleObject on the semaphore. */
    method AcquireSemaphore(me: nat) returns (ok: bool, ghost mid: Shared)
      requires Valid() && me < |pcs| && pcs[me] == WaitSemaphore
      modifies this
      ensures Valid() && |pcs| == |old(pcs)| && old(visited) <= visited
      ensures ok ==> pcs[me] == After(old(pcs[me]), mid)
      ensures ok ==> |visited| > |old(visited)| && TookToken(visited, |visited| - 2, me)
      ensures !ok ==> pcs[me] == old(pcs[me]) && !CanAct(Local(Fields(), pcs[me]), me, Continue)
    {
      hide Init, Run, RegisteredSet;
      Interfere(me);
      var before := Fields();
      mid := before;
      if semaphore == 0 {
        return false, mid;
      }
      TokenIsDue(visited, moves, me);
      semaphore, took := semaphore - 1, took + {me};
      Advance(me, before);
      ok := true;
    }

    /** WaitForSingleObject on the event. */
    method AwaitEvent(me: nat) returns (ok: bool, ghost mid: Shared)
      requires Valid() && me < |pcs| && (pcs[me].SignalWaitEvent? || pcs[me].BroadcastWaitEvent?)
      modifies this
      ensures Valid() && |pcs| == |old(pcs)| && old(visited) <= visited
      ensures ok ==> pcs[me] == After(old(pcs[me]), mid)
      ensures !ok ==> pcs[me] == old(pcs[me]) && !CanAct(Local(Fields(), pcs[me]), me, Continue)
    {
      hide Init, Run, RegisteredSet;
      Interfere(me);
      var before := Fields();
      mid := before;
      if !event {
        return false, mid;
      }
      Advance(me, before);
      ok := true;
    }

    predicate OnFields(pc: Pc) {
      pc.WaitRegister? || pc.WaitDeregister? || pc.SignalRead? || pc.BroadcastTest? || pc.BroadcastClear?
    }

    /** A read or write of waiter_count and is_broadcast. */
    method Access(me: nat) returns (seen: Shared)
      requires Valid() && me < |pcs| && OnFields(pcs[me])
      modifies this
      ensures Valid() && |pcs| == |old(pcs)| && old(visited) <= visited && pcs[me] == After(old(pcs[me]), seen)
    {
      hide Init, Run, RegisteredSet;
      Interfere(me);
      seen := Fields();
      match pcs[me] {
        case WaitRegister => waiterCount := waiterCount + 1;
        case WaitDeregister => waiterCount := waiterCount - 1;
        case SignalRead => entry, took := RegisteredSet(pcs), {};
        case BroadcastTest =>
          entry, took := RegisteredSet(pcs), {};
          if waiterCount != 0 {
            isBroadcast := true;
          }
        case BroadcastClear(_) => isBroadcast := false;
      }
      Advance(me, seen);
    }

    /** ReleaseSemaphore, by one or by the waiter count. */
    method ReleaseSemaphore(me: nat) returns (ghost mid: Shared)
      requires Valid() && me < |pcs| && (pcs[me].SignalRelease? || pcs[me].BroadcastRelease?)
      modifies this
      ensures Valid() && |pcs| == |old(pcs)| && old(visited) <= visited && pcs[me] == After(old(pcs[me]), mid)
    {
      hide Init, Run, RegisteredSet;
      Interfere(me);
      var before := Fields();
      mid := before;
      var count := if pcs[me].SignalRelease? then 1 else waiterCount;
      if count > 0 {
        semaphore := semaphore + count;
      }
      Advance(me, before);
    }

    /** SetEvent and ResetEvent. */
    method ChangeEvent(me: nat, signalled: bool) returns (ghost mid: Shared)
      requires Valid() && me < |pcs|
      requires if signalled then pcs[me].WaitSetEvent? else pcs[me].SignalReset? || pcs[me].BroadcastReset?
      modifies this
      ensures Valid() && |pcs| == |old(pcs)| && old(visited) <= visited && pcs[me] == After(old(pcs[me]), mid)
    {
      hide Init, Run, RegisteredSet;
      Interfere(me);
      var before := Fields();
      mid := before;
      event := signalled;
      Advance(me, before);
    }

    method Start(me: nat, a: Action)
      requires Valid() && me < |pcs| && (a.StartWait? || a.StartSignal? || a.StartBroadcast?)
      requires pcs[me] == Idle && (a.StartWait? ==> external == By(me))
      modifies this
      ensures Valid() && |pcs| == |old(pcs)| && old(visited) < visited
      ensures pcs[me] ==
        if a.StartWait? then WaitLockBroadcast else if a.StartSignal? then SignalLockBroadcast else BroadcastLock
    {
      hide Init, Run, RegisteredSet;
      ghost var was := pcs;
      var pc := if a.StartWait? then WaitLockBroadcast else if a.StartSignal? then SignalLockBroadcast else BroadcastLock;
      pcs := pcs[me := pc];
      Record(me, a, Fields(), was);
    }

    // ---------------------------------------------------------- the operations

    /** An operation has returned, or its thread cannot move. */
    ghost predicate ReturnedOrBlocked(me: nat, done: bool)
      reads this
    {
      && Valid() && me < |pcs|
      && if done then pcs[me] == Idle
         else pcs[me] != Idle && !CanAct(Local(Fields(), pcs[me]), me, Continue)
    }

    /** All three operations begin by taking both internal locks. */
    method LockBoth(me: nat) returns (ok: bool)
      requires Valid() && me < |pcs| && Locks(pcs[me]) == Broadcast
      modifies this
      ensures Valid() && |pcs| == |old(pcs)| && old(visited) <= visited
      ensures ok ==>
        pcs[me] == if old(pcs[me]).WaitLockBroadcast? then WaitRegister
                   else if old(pcs[me]).SignalLockBroadcast? then SignalRead else BroadcastTest
      ensures !ok ==> pcs[me] != Idle && !CanAct(Local(Fields(), pcs[me]), me, Continue)
    {
      hide Init, Run, RegisteredSet, CanAct;
      ghost var mid;
      ok, mid := Lock(me, Broadcast);
      if ok {
        ok, mid := Lock(me, Count);
      }
    }

    /** Registers, and lets go of all locks. */
    method Register(me: nat)
      requires Valid() && me < |pcs| && pcs[me] == WaitRegister
      modifies this
      ensures Valid() && |pcs| == |old(pcs)| && old(visited) <= visited && pcs[me] == WaitSemaphore
      ensures external != By(me)
    {
      hide Init, Run, RegisteredSet, CanAct;
      ghost var mid;
      var seen := Access(me);
      mid := Unlock(me, Count);
      mid := Unlock(me, Broadcast);
      mid := Unlock(me, External);
      NotMine(visited, moves, me);
    }

    /** Deregisters after taking a token, and sets the event if it must. */
    method Deregister(me: nat) returns (ok: bool)
      requires Valid() && me < |pcs| && pcs[me] == WaitLockCountAgain
      modifies this
      ensures Valid() && |pcs| == |old(pcs)| && old(visited) <= visited
      ensures if ok then pcs[me] == WaitLockExternal
        else pcs[me] != Idle && !CanAct(Local(Fields(), pcs[me]), me, Continue)
    {
      hide Init, Run, RegisteredSet, CanAct;
      ghost var mid;
      ok, mid := Lock(me, Count);
      if ok {
        var seen := Access(me);
        var lastWaiter := seen.waiterCount - 1 == 0 || !seen.isBroadcast;
        mid := Unlock(me, Count);
        if lastWaiter {
          mid := ChangeEvent(me, true);
        }
      }
    }

    /** Returns, with the caller's mutex held, only after taking a token that was due to it. */
    method PthreadCondWait(me: nat) returns (done: bool, ghost at: nat)
      requires Valid() && me < |pcs| && pcs[me] == Idle && external == By(me)
      modifies this
      ensures ReturnedOrBlocked(me, done) && |pcs| == |old(pcs)| && old(visited) <= visited
      ensures done ==> external == By(me) && |old(visited)| <= at && TookToken(visited, at, me)
    {
      hide Init, Run, RegisteredSet, CanAct, After, TookToken;
      at := 0;
      done := Begin(me, StartWait);
      if done {
        Register(me);
        done, at := TakeToken(me);
        if done {
          ghost var vs := visited;
          done := Leave(me);
          TokenKept(vs, visited, at, me);
        }
      }
    }

    /** What is left of a wait after the token. */
    method Leave(me: nat) returns (ok: bool)
      requires Valid() && me < |pcs| && pcs[me] == WaitLockCountAgain
      modifies this
      ensures Valid() && |pcs| == |old(pcs)| && old(visited) <= visited
      ensures if ok then pcs[me] == Idle && external == By(me)
        else pcs[me] != Idle && !CanAct(Local(Fields(), pcs[me]), me, Continue)
    {
      hide Init, Run, RegisteredSet, CanAct, After;
      ok := Deregister(me);
      if ok {
        ok := Reacquire(me);
      }
    }

    method Begin(me: nat, a: Action) returns (ok: bool)
      requires Valid() && me < |pcs| && (a.StartWait? || a.StartSignal? || a.StartBroadcast?)
      requires pcs[me] == Idle && (a.StartWait? ==> external == By(me))
      modifies this
      ensures Valid() && |pcs| == |old(pcs)| && old(visited) < visited
      ensures ok ==> pcs[me] == if a.StartWait? then WaitRegister else if a.StartSignal? then SignalRead else BroadcastTest
      ensures !ok ==> pcs[me] != Idle && !CanAct(Local(Fields(), pcs[me]), me, Continue)
    {
      hide Init, Run, RegisteredSet, CanAct, After;
      Start(me, a);
      ok := LockBoth(me);
    }

    method TakeToken(me: nat) returns (ok: bool, ghost at: nat)
      requires Valid() && me < |pcs| && pcs[me] == WaitSemaphore
      modifies this
      ensures Valid() && |pcs| == |old(pcs)| && old(visited) <= visited
      ensures if ok then pcs[me] == WaitLockCountAgain && |old(visited)| <= at + 1 && TookToken(visited, at, me)
        else pcs[me] != Idle && !CanAct(Local(Fields(), pcs[me]), me, Continue)
    {
      hide Init, Run, RegisteredSet, CanAct;
      ghost var mid;
      ok, mid := AcquireSemaphore(me);
      at := if ok then |visited| - 2 else 0;
    }

    method Reacquire(me: nat) returns (ok: bool)
      requires Valid() && me < |pcs| && pcs[me] == WaitLockExternal
      modifies this
      ensures Valid() && |pcs| == |old(pcs)| && old(visited) <= visited
      ensures if ok then pcs[me] == Idle && external == By(me)
        else pcs[me] != Idle && !CanAct(Local(Fields(), pcs[me]), me, Continue)
    {
      hide Init, Run, RegisteredSet, CanAct;
      ghost var mid;
      ok, mid := Lock(me, External);
    }

    /** Reads the waiter count and releases one waiter, if there is any. */
    method ReleaseOne(me: nat) returns (released: bool)
      requires Valid() && me < |pcs| && pcs[me] == SignalRead
      modifies this
      ensures Valid() && |pcs| == |old(pcs)| && old(visited) <= visited
      ensures (if released then pcs[me].SignalWaitEvent? else pcs[me].SignalUnlockBroadcast?)
      ensures released <==> pcs[me].n != 0
    {
      hide Init, Run, RegisteredSet, CanAct;
      ghost var mid;
      var seen := Access(me);
      released := seen.waiterCount != 0;
      mid := Unlock(me, Count);
      if released {
        mid := ReleaseSemaphore(me);
      }
    }

    /** Reads the waiter count and releases all waiters, if there are any. */
    method ReleaseAll(me: nat) returns (released: bool)
      requires Valid() && me < |pcs| && pcs[me] == BroadcastTest
      modifies this
      ensures Valid() && |pcs| == |old(pcs)| && old(visited) <= visited
      ensures (if released then pcs[me].BroadcastWaitEvent? else pcs[me].BroadcastUnlock?)
      ensures released <==> pcs[me].n != 0
    {
      hide Init, Run, RegisteredSet, CanAct;
      ghost var mid;
      var seen := Access(me);
      released := seen.waiterCount != 0;
      if released {
        mid := ReleaseSemaphore(me);
      }
      mid := Unlock(me, Count);
    }

    /** Returns when exactly one of the waiters registered on entry has been released, if there were any;
        that was so in the visited state "at", while the broadcast lock was still held. */
    method PthreadCondSignal(me: nat) returns (done: bool, ghost at: nat)
      requires Valid() && me < |pcs| && pcs[me] == Idle
      modifies this
      ensures ReturnedOrBlocked(me, done) && |pcs| == |old(pcs)| && old(visited) <= visited
      ensures done ==> |old(visited)| <= at < |visited| && OneReleased(visited[at])
    {
      hide Init, Run, RegisteredSet, CanAct, OneReleased;
      at := 0;
      done := Begin(me, StartSignal);
      if done {
        var released := ReleaseOne(me);
        if released {
          done := FinishRelease(me);
        }
        if done {
          at := LeaveSignal(me);
        }
      }
    }

    method LeaveSignal(me: nat) returns (ghost at: nat)
      requires Valid() && me < |pcs| && pcs[me].SignalUnlockBroadcast?
      modifies this
      ensures Valid() && |pcs| == |old(pcs)| && old(visited) <= visited && pcs[me] == Idle
      ensures at == |old(visited)| - 1 && OneReleased(visited[at])
    {
      hide Init, RegisteredSet, CanAct, OneReleased;
      at := |moves|;
      SignalReleasedOne(visited, moves, at, me);
      ghost var mid := Unlock(me, Broadcast);
    }

    method LeaveBroadcast(me: nat) returns (ghost at: nat)
      requires Valid() && me < |pcs| && pcs[me].BroadcastUnlock?
      modifies this
      ensures Valid() && |pcs| == |old(pcs)| && old(visited) <= visited && pcs[me] == Idle
      ensures at == |old(visited)| - 1 && AllReleased(visited[at])
    {
      hide Init, RegisteredSet, CanAct, AllReleased;
      at := |moves|;
      BroadcastReleasedAll(visited, moves, at, me);
      ghost var mid := Unlock(me, Broadcast);
    }

    /** Waits for the released waiters and takes back what announced them. */
    method FinishRelease(me: nat) returns (ok: bool)
      requires Valid() && me < |pcs| && (pcs[me].SignalWaitEvent? || pcs[me].BroadcastWaitEvent?)
      modifies this
      ensures Valid() && |pcs| == |old(pcs)| && old(visited) <= visited
      ensures ok ==> if old(pcs[me]).SignalWaitEvent? then pcs[me].SignalUnlockBroadcast? else pcs[me].BroadcastUnlock?
      ensures !ok ==> pcs[me] != Idle && !CanAct(Local(Fields(), pcs[me]), me, Continue)
    {
      hide Init, Run, RegisteredSet, CanAct;
      ghost var mid;
      ok, mid := AwaitEvent(me);
      if ok {
        mid := ChangeEvent(me, false);
        if pcs[me].BroadcastClear? {
          var seen := Access(me);
        }
      }
    }

    /** Returns when all waiters registered on entry have been released; that was so in the visited state
        "at", while the broadcast lock was still held. */
    method PthreadCondBroadcast(me: nat) returns (done: bool, ghost at: nat)
      requires Valid() && me < |pcs| && pcs[me] == Idle
      modifies this
      ensures ReturnedOrBlocked(me, done) && |pcs| == |old(pcs)| && old(visited) <= visited
      ensures done ==> |old(visited)| <= at < |visited| && AllReleased(visited[at])
    {
      hide Init, Run, RegisteredSet, CanAct, AllReleased;
      at := 0;
      done := Begin(me, StartBroadcast);
      if done {
        var released := ReleaseAll(me);
        if released {
          done := FinishRelease(me);
        }
        if done {
          at := LeaveBroadcast(me);
        }
      }
    }
  }
}
