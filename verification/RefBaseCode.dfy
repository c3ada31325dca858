/** The operations of RefBase as code on shared fields.  Between any two accesses the other threads make
    any moves of the protocol, of which finitely many are still to come; so a failed compare-and-swap
    means another thread has moved, and every loop ends. */
module RefBaseCode {
  import opened RefBase
  import opened RefBaseAlone

  /** States visited by moves that need not respect the clients' obligations. */
  ghost predicate Trace(ss: seq<State>, ms: seq<Move>) {
    && |ss| == |ms| + 1 && Init(ss[0])
    && forall k :: 0 <= k < |ms| ==> Enabled(ss[k], ms[k]) && ss[k + 1] == Next(ss[k], ms[k])
  }

  lemma TraceGrows(ss: seq<State>, ms: seq<Move>, m: Move)
    requires Trace(ss, ms) && Enabled(ss[|ms|], m)
    ensures Trace(ss + [Next(ss[|ms|], m)], ms + [m])
  {
    hide Next, Enabled, Init;
  }

  /** The clients' obligations at one move. */
  ghost predicate Respected(s: State, m: Move, s': State) {
    Enabled(s, m) ==> !Races(s, m) && Legal(s')
  }

  /** A trace in which clients keep their obligations is a run, so all that holds of runs holds of it. */
  lemma LegalTraceIsRun(ss: seq<State>, ms: seq<Move>)
    requires Trace(ss, ms)
    requires Legal(ss[0]) && forall k :: 0 <= k < |ms| ==> Respected(ss[k], ms[k], ss[k + 1])
    ensures Run(ss, ms)
  {
    hide Next, Enabled, Init, Legal, Races;
  }

  class WeakrefImpl {
    var mStrong: int
    var mWeak: int
    const extended: bool
    var objectDeletes: nat
    var implDeletes: nat
    var unbiasings: nat
    /** Where every thread is, and how many moves the others have left. */
    var threads: seq<Thread>
    var budget: nat
    ghost var visited: seq<State>
    ghost var moves: seq<Move>

    function Fields(): Shared
      reads this
    {
      Shared(mStrong, mWeak, extended, objectDeletes, implDeletes, unbiasings)
    }

    ghost predicate Valid()
      reads this
    {
      |visited| == |moves| + 1 && Trace(visited, moves) && visited[|moves|] == State(Fields(), threads)
    }

    constructor (count: nat, extended: bool, budget: nat)
      requires count > 0
      ensures Valid() && |threads| == count && this.extended == extended && this.budget == budget
    {
      mStrong, mWeak, this.extended := INITIAL_STRONG_VALUE, 0, extended;
      objectDeletes, implDeletes, unbiasings := 0, 0, 0;
      var ts := seq(count, i => Thread(Idle, 0, 0, if i == 0 then Unshared else NoRaw));
      threads, this.budget := ts, budget;
      moves := [];
      visited := [State(Shared(INITIAL_STRONG_VALUE, 0, extended, 0, 0, 0), ts)];
    }

    /** What the next access of thread me does to the fields and to the thread itself. */
    ghost predicate Accessed(me: nat, mid: Shared, t: Thread, a: Action)
      reads this
    {
      && me < |threads| && CanAct(Local(mid, t), a)
      && Local(Fields(), threads[me]) == Act(Local(mid, t), a)
    }

    /** The state at position k was visited during a call before which so many had been visited; the last of those is
        the state at the call. */
    ghost predicate WasSeen(before: nat, k: int)
      reads this
    {
      before - 1 <= k && 0 <= k < |visited|
    }

    /** The thread me makes one move; the caller has brought the fields up to date. */
    ghost method Record(me: nat, a: Action, mid: Shared, ts: seq<Thread>)
      requires Trace(visited, moves) && visited[|moves|] == State(mid, ts) && me < |ts|
      requires CanAct(Local(mid, ts[me]), a)
      requires threads == ts[me := Act(Local(mid, ts[me]), a).t] && Fields() == Act(Local(mid, ts[me]), a).g
      modifies `visited, `moves
      ensures Valid() && visited == old(visited) + [State(Fields(), threads)]
    {
      hide Act, CanAct, Init;
      TraceGrows(visited, moves, Step(me, a));
      visited, moves := visited + [State(Fields(), threads)], moves + [Step(me, a)];
    }

    /** The other threads make any of their remaining moves; references they hand to thread me while it is
        busy reach it later. */
    method Interfere(me: nat)
      requires Valid() && me < |threads|
      modifies this
      ensures Valid() && |threads| == |old(threads)| && threads[me] == old(threads[me])
      ensures budget <= old(budget) && old(visited) <= visited && (budget == old(budget) ==> Fields() == old(Fields()))
    {
      hide Next, Enabled, Init;
      while budget > 0
        invariant Valid() && |threads| == |old(threads)| && threads[me] == old(threads[me])
        invariant budget <= old(budget) && old(visited) <= visited && (budget == old(budget) ==> Fields() == old(Fields()))
        decreases budget
      {
        var go: bool := *;
        var m: Move := *;
        var s := State(Fields(), threads);
        if !go || m.i == me || (!m.Step? && m.to == me) || !Enabled(s, m) {
          break;
        }
        var s' := Next(s, m);
        NextKeepsOthers(s, m, me);
        TraceGrows(visited, moves, m);
        mStrong, mWeak, objectDeletes := s'.shared.mStrong, s'.shared.mWeak, s'.shared.objectDeletes;
        implDeletes, unbiasings := s'.shared.implDeletes, s'.shared.unbiasings;
        threads, budget := s'.threads, budget - 1;
        visited, moves := visited + [s'], moves + [m];
      }
    }

    lemma NextKeepsOthers(s: State, m: Move, me: nat)
      requires Enabled(s, m) && m.i != me && (m.Step? || m.to != me) && me < |s.threads|
      ensures |Next(s, m).threads| == |s.threads| && Next(s, m).threads[me] == s.threads[me]
      ensures Next(s, m).shared.extended == s.shared.extended
    {
      if m.Step? {
        ActKeepsExtended(Local(s.shared, s.threads[m.i]), m.a);
      }
    }

    lemma ActKeepsExtended(l: Local, a: Action)
      requires CanAct(l, a)
      ensures Act(l, a).g.extended == l.g.extended
    {
    }

    // ---------------------------------------------------------- accesses

    /** What atomic additions the protocol makes at a program counter. */
    function StrongDelta(pc: Pc): int {
      match pc
      case IncStrong(_) => 1
      case Unbias => 0 - INITIAL_STRONG_VALUE
      case DecStrong => -1
      case AttemptRevive => 1
      case _ => 0
    }

    function WeakDelta(pc: Pc): int {
      match pc
      case IncStrongWeak(_) => 1
      case DecWeak => -1
      case AttemptIncWeak => 1
      case _ => 0
    }

    /** android_atomic_inc, _dec and _add on mStrong. */
    method FetchAddStrong(me: nat, delta: int) returns (c: int, ghost mid: Shared)
      requires Valid() && me < |threads| && StrongDelta(threads[me].pc) == delta != 0
      modifies this
      ensures Valid() && c == mid.mStrong && Accessed(me, mid, old(threads[me]), Continue)
      ensures |threads| == |old(threads)| && budget <= old(budget) && old(visited) <= visited
      ensures budget == old(budget) ==> mid == old(Fields())
    {
      hide Init, Trace;
      Interfere(me);
      ghost var ts := threads;
      var before := Fields();
      mid, c := before, mStrong;
      mStrong := mStrong + delta;
      if delta == 0 - INITIAL_STRONG_VALUE {
        unbiasings := unbiasings + 1;
      }
      threads := threads[me := Act(Local(before, threads[me]), Continue).t];
      Record(me, Continue, mid, ts);
    }

    /** android_atomic_inc and _dec on mWeak. */
    method FetchAddWeak(me: nat, delta: int) returns (c: int, ghost mid: Shared)
      requires Valid() && me < |threads| && WeakDelta(threads[me].pc) == delta != 0
      modifies this
      ensures Valid() && c == mid.mWeak && Accessed(me, mid, old(threads[me]), Continue)
      ensures |threads| == |old(threads)| && budget <= old(budget) && old(visited) <= visited
      ensures budget == old(budget) ==> mid == old(Fields())
    {
      hide Init, Trace;
      Interfere(me);
      ghost var ts := threads;
      var before := Fields();
      mid, c := before, mWeak;
      mWeak := mWeak + delta;
      threads := threads[me := Act(Local(before, threads[me]), Continue).t];
      Record(me, Continue, mid, ts);
    }

    /** The compare-and-swaps the protocol makes on mStrong, and the value they would store. */
    predicate CasPending(pc: Pc, expected: int, desired: int) {
      match pc
      case AttemptEasy(cur) => cur == expected && 0 < cur && cur != INITIAL_STRONG_VALUE && desired == cur + 1
      case AttemptLoop(cur) => cur == expected && 0 < cur && desired == cur + 1
      case FixLoop(cur) => cur == expected && INITIAL_STRONG_VALUE <= cur && desired == cur - INITIAL_STRONG_VALUE
      case _ => false
    }

    /** android_atomic_cmpxchg on mStrong: it fails only if another thread has moved. */
    method CasStrong(me: nat, expected: int, desired: int) returns (ok: bool, ghost mid: Shared)
      requires Valid() && me < |threads| && CasPending(threads[me].pc, expected, desired)
      modifies this
      ensures Valid() && (ok <==> mid.mStrong == expected) && Accessed(me, mid, old(threads[me]), Continue)
      ensures |threads| == |old(threads)| && budget <= old(budget) && old(visited) <= visited
      ensures budget == old(budget) ==> mid == old(Fields())
    {
      hide Init, Trace;
      Interfere(me);
      ghost var ts := threads;
      var before := Fields();
      mid, ok := before, mStrong == expected;
      if ok {
        if threads[me].pc.FixLoop? {
          unbiasings := unbiasings + 1;
        }
        mStrong := desired;
      }
      threads := threads[me := Act(Local(before, threads[me]), Continue).t];
      Record(me, Continue, mid, ts);
    }

    /** android_atomic_cmpxchg on mWeak. */
    method CasWeak(me: nat, expected: int) returns (ok: bool, ghost mid: Shared)
      requires Valid() && me < |threads| && threads[me].pc == WeakLoop(expected) && expected > 0
      modifies this
      ensures Valid() && (ok <==> mid.mWeak == expected) && Accessed(me, mid, old(threads[me]), Continue)
      ensures |threads| == |old(threads)| && budget <= old(budget) && old(visited) <= visited
      ensures budget == old(budget) ==> mid == old(Fields())
    {
      hide Init, Trace;
      Interfere(me);
      ghost var ts := threads;
      var before := Fields();
      mid, ok := before, mWeak == expected;
      if ok {
        mWeak := expected + 1;
      }
      threads := threads[me := Act(Local(before, threads[me]), Continue).t];
      Record(me, Continue, mid, ts);
    }

    /** Points at which a thread reads a count or only branches. */
    predicate Plain(pc: Pc) {
      || pc.AttemptRead? || pc.AttemptReread? || pc.FixRead? || pc.WeakRead?
      || pc.DtorReadStrong? || pc.DtorReadWeak? || pc.AttemptHard?
      || (pc.AttemptEasy? && (pc.cur <= 0 || pc.cur == INITIAL_STRONG_VALUE))
      || (pc.AttemptLoop? && pc.cur <= 0)
      || (pc.FixLoop? && pc.cur < INITIAL_STRONG_VALUE)
      || (pc.WeakLoop? && pc.cur <= 0)
    }

    lemma PlainKeepsFields(l: Local)
      requires Plain(l.t.pc)
      ensures Act(l, Continue).g == l.g
    {
    }

    /** A load or a branch; returns the fields it saw. */
    method Access(me: nat) returns (seen: Shared)
      requires Valid() && me < |threads| && Plain(threads[me].pc)
      modifies this
      ensures Valid() && Accessed(me, seen, old(threads[me]), Continue)
      ensures seen.extended == extended && Fields() == seen
      ensures |threads| == |old(threads)| && budget <= old(budget) && old(visited) <= visited
      ensures budget == old(budget) ==> seen == old(Fields())
      ensures WasSeen(|old(visited)|, |visited| - 2) && visited[|visited| - 2].shared == seen
    {
      hide Init, Trace, Act;
      Interfere(me);
      ghost var ts := threads;
      seen := Fields();
      PlainKeepsFields(Local(seen, threads[me]));
      threads := threads[me := Act(Local(seen, threads[me]), Continue).t];
      Record(me, Continue, seen, ts);
    }

    predicate Deletes(pc: Pc) { pc.LastStrong? || pc.LastWeak? || pc.DtorDeleteImpl? || pc.DeleteImpl? }

    /** A deletion, if the fields say so; returns them as they were. */
    method Delete(me: nat) returns (seen: Shared)
      requires Valid() && me < |threads| && Deletes(threads[me].pc)
      modifies this
      ensures Valid() && Accessed(me, seen, old(threads[me]), Continue)
      ensures seen.extended == extended
      ensures |threads| == |old(threads)| && budget <= old(budget) && old(visited) <= visited
      ensures budget == old(budget) ==> seen == old(Fields())
    {
      hide Init, Trace;
      Interfere(me);
      ghost var ts := threads;
      seen := Fields();
      match threads[me].pc {
        case LastStrong => if !extended { objectDeletes := objectDeletes + 1; }
        case LastWeak => if extended || mStrong == INITIAL_STRONG_VALUE { objectDeletes := objectDeletes + 1; }
        case DtorDeleteImpl(_) => implDeletes := implDeletes + 1;
        case DeleteImpl => implDeletes := implDeletes + 1;
      }
      threads := threads[me := Act(Local(seen, threads[me]), Continue).t];
      Record(me, Continue, seen, ts);
    }

    predicate Starts(a: Action) {
      a.StartIncStrong? || a.StartRawIncStrong? || a.StartDecStrong? || a.StartDecWeak? || a.StartAttempt?
      || a.StartAttemptWeak? || a.Refuse?
    }

    /** A call, or the refusal of a promotion: no field changes. */
    method Start(me: nat, a: Action)
      requires Valid() && me < |threads| && CanAct(Local(Fields(), threads[me]), a) && Starts(a)
      modifies this
      ensures |threads| == |old(threads)| && budget == old(budget) && old(visited) <= visited && Fields() == old(Fields())
      ensures Valid() && threads[me] == Act(Local(old(Fields()), old(threads[me])), a).t
    {
      hide Init, Trace;
      ghost var ts := threads;
      threads := threads[me := Act(Local(Fields(), threads[me]), a).t];
      Record(me, a, Fields(), ts);
    }

    // ---------------------------------------------------------- the operations

    method IncStrong(me: nat, raw: bool)
      requires Valid() && me < |threads|
      requires CanAct(Local(Fields(), threads[me]), if raw then StartRawIncStrong else StartIncStrong)
      modifies this
      ensures Valid() && |threads| == |old(threads)| && budget <= old(budget) && old(visited) <= visited
      ensures threads[me] ==
        old(threads[me]).(strong := old(threads[me].strong) + 1, raw := if raw then NoRaw else old(threads[me].raw))
    {
      hide Init, Trace;
      Start(me, if raw then StartRawIncStrong else StartIncStrong);
      var c;
      ghost var mid;
      c, mid := FetchAddWeak(me, 1);
      c, mid := FetchAddStrong(me, 1);
      if c != INITIAL_STRONG_VALUE {
        return;
      }
      c, mid := FetchAddStrong(me, 0 - INITIAL_STRONG_VALUE);
    }

    /** ~RefBase */
    method Destructor(me: nat)
      requires Valid() && me < |threads| && threads[me].pc.DtorReadStrong?
      modifies this
      ensures Valid() && |threads| == |old(threads)| && budget <= old(budget) && old(visited) <= visited
      ensures threads[me] == old(threads[me]).(pc := if old(threads[me].pc).last then Idle else Pc.DecWeak)
    {
      hide Init, Trace;
      var seen := Access(me);
      if seen.mStrong == INITIAL_STRONG_VALUE {
        seen := Delete(me);
      } else if extended {
        seen := Access(me);
        if seen.mWeak == 0 {
          seen := Delete(me);
        }
      }
    }

    method DecWeak(me: nat)
      requires Valid() && me < |threads| && threads[me].pc.DecWeak?
      modifies this
      ensures Valid() && |threads| == |old(threads)| && budget <= old(budget) && old(visited) <= visited
      ensures threads[me] == old(threads[me]).(pc := Idle)
    {
      hide Init, Trace;
      var c;
      ghost var mid;
      c, mid := FetchAddWeak(me, -1);
      if c != 1 {
        return;
      }
      var seen := Delete(me);
      if !extended {
        if seen.mStrong == INITIAL_STRONG_VALUE {
          Destructor(me);
        } else {
          seen := Delete(me);
        }
      } else {
        Destructor(me);
      }
    }

    method DecStrong(me: nat)
      requires Valid() && me < |threads| && CanAct(Local(Fields(), threads[me]), StartDecStrong)
      modifies this
      ensures Valid() && |threads| == |old(threads)| && budget <= old(budget) && old(visited) <= visited
      ensures threads[me] == old(threads[me]).(strong := old(threads[me].strong) - 1)
    {
      hide Init, Trace;
      Start(me, StartDecStrong);
      var c;
      ghost var mid;
      c, mid := FetchAddStrong(me, -1);
      if c == 1 {
        var seen := Delete(me);
        if !extended {
          Destructor(me);
        }
      }
      DecWeak(me);
    }

    /** Returns whether the caller got a strong reference; agreed is the answer of onIncStrongAttempted.  Under the
        strong lifetime it fails only if the count was not positive at some point of the call; under the weak
        one only if the object does not agree, and succeeds without its agreement only if there were strong
        references at some point.  If nobody else moves, the count at the call decides. */
    method AttemptIncStrong(me: nat, agreed: bool) returns (success: bool, ghost at: int)
      requires Valid() && me < |threads| && CanAct(Local(Fields(), threads[me]), StartAttempt)
      modifies this
      ensures Valid() && |threads| == |old(threads)| && budget <= old(budget) && old(visited) <= visited
      ensures threads[me] == old(threads[me]).(strong := old(threads[me].strong) + if success then 1 else 0)
      ensures WasSeen(|old(visited)|, at)
      ensures !success && !extended ==> visited[at].shared.mStrong <= 0
      ensures !success && extended ==> !agreed
      ensures success && extended && !agreed ==> HasStrong(visited[at].shared)
      ensures old(budget) == 0 ==> (success <==> Promotes(old(Fields()), agreed))
    {
      hide Init, Trace, CanAct;
      BeginAttempt(me);
      ghost var vs := visited;
      var curCount, ok;
      curCount, ok, at := PromoteEasy(me);
      SeenLater(|old(visited)|, |vs|, at);
      if !ok {
        ghost var at';
        ok, at' := PromoteHard(me, curCount, agreed);
        if !extended && curCount > 0 {
          SeenLater(|old(visited)|, |vs|, at');
          at := at';
        }
      }
      success := ok;
      if !ok {
        DecWeak(me);
        return;
      }
      FixUp(me);
    }

    predicate HasStrong(g: Shared) { 0 < g.mStrong && g.mStrong != INITIAL_STRONG_VALUE }

    lemma SeenLater(before: nat, later: nat, k: int)
      requires before <= later && WasSeen(later, k)
      ensures WasSeen(before, k)
    {
    }

    /** The call, and incWeak. */
    method BeginAttempt(me: nat)
      requires Valid() && me < |threads| && CanAct(Local(Fields(), threads[me]), StartAttempt)
      modifies this
      ensures Valid() && |threads| == |old(threads)| && budget <= old(budget) && old(visited) <= visited
      ensures old(threads[me]).pc == Idle && threads[me] == old(threads[me]).(pc := AttemptRead)
      ensures old(budget) == 0 ==> mStrong == old(mStrong)
    {
      hide Init, Trace;
      Start(me, StartAttempt);
      var c;
      ghost var mid;
      c, mid := FetchAddWeak(me, 1);
    }

    /** The harder case: there never was a strong reference, or all have been released. */
    method PromoteHard(me: nat, curCount: int, agreed: bool) returns (ok: bool, ghost at: int)
      requires Valid() && me < |threads| && threads[me].pc == AttemptEasy(curCount)
      requires curCount <= 0 || curCount == INITIAL_STRONG_VALUE
      modifies this
      ensures Valid() && |threads| == |old(threads)| && budget <= old(budget) && old(visited) <= visited
      ensures threads[me] == old(threads[me]).(pc := if ok then FixRead else Pc.DecWeak)
      ensures extended ==> (ok <==> agreed)
      ensures !extended && curCount <= 0 ==> !ok
      ensures !extended && curCount > 0 ==> WasSeen(|old(visited)|, at) && (!ok ==> visited[at].shared.mStrong <= 0)
      ensures old(budget) == 0 && old(mStrong) == curCount && !extended ==> (ok <==> curCount > 0)
    {
      hide Init, Trace;
      at := 0;
      var seen := Access(me);
      if !extended {
        seen := Access(me);
        if curCount <= 0 {
          return false, 0;
        }
        var c;
        c, ok, at := PromoteFirst(me, curCount);
      } else {
        ok := Revive(me, agreed);
      }
    }

    /** Takes a strong reference to an object of extended lifetime, if the object agrees. */
    method Revive(me: nat, agreed: bool) returns (ok: bool)
      requires Valid() && me < |threads| && threads[me].pc.AttemptHard? && extended
      modifies this
      ensures Valid() && |threads| == |old(threads)| && budget <= old(budget) && old(visited) <= visited
      ensures threads[me] == old(threads[me]).(pc := if ok then FixRead else Pc.DecWeak) && (ok <==> agreed)
    {
      hide Init, Trace;
      if !agreed {
        Start(me, Refuse);
        return false;
      }
      var seen := Access(me);
      var c;
      ghost var mid;
      c, mid := FetchAddStrong(me, 1);
      ok := true;
    }

    method ReadStrongCount(me: nat) returns (curCount: int, ghost at: int)
      requires Valid() && me < |threads| && (threads[me].pc == AttemptRead || threads[me].pc == AttemptReread)
      modifies this
      ensures Valid() && |threads| == |old(threads)| && budget <= old(budget) && old(visited) <= visited
      ensures threads[me] ==
        old(threads[me]).(pc := if old(threads[me]).pc == AttemptRead then AttemptEasy(curCount) else AttemptLoop(curCount))
      ensures mStrong == curCount && (old(budget) == 0 ==> curCount == old(mStrong))
      ensures WasSeen(|old(visited)|, at) && visited[at].shared.mStrong == curCount
    {
      hide Init, Trace;
      var seen := Access(me);
      curCount, at := seen.mStrong, |visited| - 2;
    }

    /** The loop for an object that has strong references; it ends with the count as it was at some point. */
    method PromoteEasy(me: nat) returns (curCount: int, ok: bool, ghost at: int)
      requires Valid() && me < |threads| && threads[me].pc == AttemptRead
      modifies this
      ensures Valid() && |threads| == |old(threads)| && budget <= old(budget) && old(visited) <= visited
      ensures threads[me] == old(threads[me]).(pc := if ok then FixRead else AttemptEasy(curCount))
      ensures ok <==> 0 < curCount && curCount != INITIAL_STRONG_VALUE
      ensures WasSeen(|old(visited)|, at) && visited[at].shared.mStrong == curCount
      ensures old(budget) == 0 ==> curCount == old(mStrong) && (!ok ==> mStrong == curCount)
    {
      hide Init, Trace;
      ghost var t, n := threads[me], |threads|;
      ghost var mid;
      ok := false;
      curCount, at := ReadStrongCount(me);
      while curCount > 0 && curCount != INITIAL_STRONG_VALUE
        invariant Valid() && |threads| == n && budget <= old(budget) && old(visited) <= visited
        invariant threads[me] == t.(pc := AttemptEasy(curCount)) && mStrong == curCount
        invariant WasSeen(|old(visited)|, at) && visited[at].shared.mStrong == curCount
        invariant old(budget) == 0 ==> curCount == old(mStrong)
        decreases budget
      {
        ok, mid := CasStrong(me, curCount, curCount + 1);
        if ok {
          return;
        }
        curCount, at := ReadStrongCount(me);
      }
    }

    /** The loop that promotes an object that never had a strong reference. */
    method PromoteFirst(me: nat, first: int) returns (curCount: int, ok: bool, ghost at: int)
      requires Valid() && me < |threads| && threads[me].pc == AttemptLoop(first) && first > 0
      modifies this
      ensures Valid() && |threads| == |old(threads)| && budget <= old(budget) && old(visited) <= visited
      ensures threads[me] == old(threads[me]).(pc := if ok then FixRead else Pc.DecWeak)
      ensures WasSeen(|old(visited)|, at) && (!ok ==> visited[at].shared.mStrong <= 0)
      ensures old(budget) == 0 && old(mStrong) == first ==> ok
    {
      hide Init, Trace;
      ghost var t, n := threads[me], |threads|;
      ghost var mid;
      curCount, ok, at := first, false, |visited| - 1;
      // The count may have changed since it was read: the first exchange fails without a move only now.
      ghost var stale := true;
      while curCount > 0
        invariant Valid() && |threads| == n && budget <= old(budget) && old(visited) <= visited
        invariant threads[me] == t.(pc := AttemptLoop(curCount)) && (stale || mStrong == curCount)
        invariant WasSeen(|old(visited)|, at) && (curCount > 0 || visited[at].shared.mStrong == curCount)
        invariant old(budget) == 0 && old(mStrong) == first ==> curCount == first == mStrong
        decreases budget, stale
      {
        ok, mid := CasStrong(me, curCount, curCount + 1);
        if ok {
          return;
        }
        curCount, at := ReadStrongCount(me);
        stale := false;
      }
      var seen := Access(me);
    }

    /** The loop that removes the bias, unless another thread already has. */
    method FixUp(me: nat)
      requires Valid() && me < |threads| && threads[me].pc == FixRead
      modifies this
      ensures Valid() && |threads| == |old(threads)| && budget <= old(budget) && old(visited) <= visited
      ensures threads[me] == old(threads[me]).(pc := Idle, strong := old(threads[me].strong) + 1)
    {
      hide Init, Trace;
      ghost var t, n := threads[me], |threads|;
      ghost var mid;
      var seen := Access(me);
      var curCount := seen.mStrong;
      while curCount >= INITIAL_STRONG_VALUE
        invariant Valid() && |threads| == n && budget <= old(budget) && old(visited) <= visited
        invariant threads[me] == t.(pc := FixLoop(curCount)) && mStrong == curCount
        decreases budget
      {
        var ok;
        ok, mid := CasStrong(me, curCount, curCount - INITIAL_STRONG_VALUE);
        if ok {
          return;
        }
        seen := Access(me);
        curCount := seen.mStrong;
      }
      seen := Access(me);
    }

    /** Fails only if the weak count was not positive at some point of the call; if nobody else moves, exactly if
        it was not at the call. */
    method AttemptIncWeak(me: nat) returns (success: bool, ghost at: int)
      requires Valid() && me < |threads| && CanAct(Local(Fields(), threads[me]), StartAttemptWeak)
      modifies this
      ensures Valid() && |threads| == |old(threads)| && budget <= old(budget) && old(visited) <= visited
      ensures threads[me] == old(threads[me]).(weak := old(threads[me].weak) + if success then 1 else 0)
      ensures WasSeen(|old(visited)|, at) && (success <==> visited[at].shared.mWeak > 0)
      ensures old(budget) == 0 ==> (success <==> old(mWeak) > 0)
    {
      hide Init, Trace;
      Start(me, StartAttemptWeak);
      success, at := CountUp(me);
    }

    method ReadWeakCount(me: nat) returns (curCount: int, ghost at: int)
      requires Valid() && me < |threads| && threads[me].pc == WeakRead
      modifies this
      ensures Valid() && |threads| == |old(threads)| && budget <= old(budget) && old(visited) <= visited
      ensures threads[me] == old(threads[me]).(pc := WeakLoop(curCount)) && mWeak == curCount
      ensures WasSeen(|old(visited)|, at) && visited[at].shared.mWeak == curCount
      ensures old(budget) == 0 ==> curCount == old(mWeak)
    {
      hide Init, Trace;
      var seen := Access(me);
      curCount, at := seen.mWeak, |visited| - 2;
    }

    /** The loop that adds to the weak count unless it is zero. */
    method CountUp(me: nat) returns (success: bool, ghost at: int)
      requires Valid() && me < |threads| && threads[me].pc == WeakRead
      modifies this
      ensures Valid() && |threads| == |old(threads)| && budget <= old(budget) && old(visited) <= visited
      ensures threads[me] == old(threads[me]).(pc := Idle, weak := old(threads[me].weak) + if success then 1 else 0)
      ensures WasSeen(|old(visited)|, at) && (success <==> visited[at].shared.mWeak > 0)
      ensures old(budget) == 0 ==> (success <==> old(mWeak) > 0)
    {
      hide Init, Trace;
      ghost var t, n := threads[me], |threads|;
      ghost var mid;
      var curCount;
      curCount, at := ReadWeakCount(me);
      while curCount > 0
        invariant Valid() && |threads| == n && budget <= old(budget) && old(visited) <= visited
        invariant threads[me] == t.(pc := WeakLoop(curCount)) && mWeak == curCount
        invariant WasSeen(|old(visited)|, at) && visited[at].shared.mWeak == curCount
        invariant old(budget) == 0 ==> curCount == old(mWeak)
        decreases budget
      {
        success, mid := CasWeak(me, curCount);
        if success {
          return;
        }
        curCount, at := ReadWeakCount(me);
      }
      var seen := Access(me);
      success := false;
    }

    /** incWeak and createWeak on a held reference, or for the first reference of the creator. */
    method IncWeak(me: nat)
      requires Valid() && me < |threads| && CanAct(Local(Fields(), threads[me]), CreateWeak)
      modifies this
      ensures Valid() && |threads| == |old(threads)| && budget <= old(budget) && old(visited) <= visited
      ensures var t := old(threads[me]);
        threads[me] == t.(weak := t.weak + 1, raw := if t.raw == Unshared then BesideWeak else t.raw)
    {
      hide Init, Trace;
      Interfere(me);
      ghost var ts, mid := threads, Fields();
      mWeak := mWeak + 1;
      threads := threads[me := Act(Local(Fields().(mWeak := mWeak - 1), threads[me]), CreateWeak).t];
      Record(me, CreateWeak, mid, ts);
    }

    method ReleaseWeak(me: nat)
      requires Valid() && me < |threads| && CanAct(Local(Fields(), threads[me]), StartDecWeak)
      modifies this
      ensures Valid() && |threads| == |old(threads)| && budget <= old(budget) && old(visited) <= visited
      ensures threads[me] == old(threads[me]).(weak := old(threads[me].weak) - 1)
    {
      hide Init, Trace;
      Start(me, StartDecWeak);
      DecWeak(me);
    }
  }
}
