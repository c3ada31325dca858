/** The condition variable of w32pthreads.h for systems without a native one: two locks, a
    semaphore and a manual-reset event, as atomic steps of any number of threads.  A program counter
    stands just before one access. */
module CondVar {
  import opened Counting

  datatype Owner = Free | By(i: nat)

  /** In signal and broadcast, n is the waiter count read on entry. */
  datatype Pc =
    | Idle
    // pthread_cond_wait
    | WaitLockBroadcast | WaitLockCount | WaitRegister | WaitUnlockCount | WaitUnlockBroadcast
    | WaitUnlockExternal | WaitSemaphore
    | WaitLockCountAgain | WaitDeregister | WaitUnlockCountAgain(last: bool) | WaitSetEvent
    | WaitLockExternal
    // pthread_cond_signal
    | SignalLockBroadcast | SignalLockCount | SignalRead | SignalUnlockCount(n: int)
    | SignalRelease(n: int) | SignalWaitEvent(n: int) | SignalReset(n: int) | SignalUnlockBroadcast(n: int)
    // pthread_cond_broadcast
    | BroadcastLock | BroadcastLockCount | BroadcastTest | BroadcastUnlockCountEmpty
    | BroadcastRelease(n: int) | BroadcastUnlockCount(n: int) | BroadcastWaitEvent(n: int)
    | BroadcastReset(n: int) | BroadcastClear(n: int) | BroadcastUnlock(n: int)

  /** The fields of win32_cond_t and the caller's mutex.  For the statements only: "entry", the
      threads registered when the last signaller read the count, and "took", the threads that have
      taken a semaphore token since. */
  datatype Shared = Shared(
    broadcastLock: Owner, countLock: Owner, external: Owner,
    waiterCount: int, semaphore: nat, event: bool, isBroadcast: bool,
    entry: set<nat>, took: set<nat>)

  datatype State = State(g: Shared, pcs: seq<Pc>)

  datatype Local = Local(g: Shared, pc: Pc)

  datatype Action = Continue | StartWait | StartSignal | StartBroadcast | LockExternal | UnlockExternal

  predicate Init(s: State) {
    && s.g.broadcastLock == s.g.countLock == s.g.external == Free
    && s.g.waiterCount == 0 && s.g.semaphore == 0 && !s.g.event && !s.g.isBroadcast
    && forall i :: 0 <= i < |s.pcs| ==> s.pcs[i] == Idle
  }

  /** A thread blocks at a lock that is held, at a semaphore without tokens and at a clear event.
      pthread_cond_wait is called with the mutex held. */
  predicate CanAct(l: Local, i: nat, a: Action) {
    var g := l.g;
    match a
    case StartWait => l.pc == Idle && g.external == By(i)
    case StartSignal => l.pc == Idle
    case StartBroadcast => l.pc == Idle
    case LockExternal => l.pc == Idle && g.external == Free
    case UnlockExternal => l.pc == Idle && g.external == By(i)
    case Continue =>
      match l.pc
      case Idle => false
      case WaitLockBroadcast => g.broadcastLock == Free
      case SignalLockBroadcast => g.broadcastLock == Free
      case BroadcastLock => g.broadcastLock == Free
      case WaitLockCount => g.countLock == Free
      case WaitLockCountAgain => g.countLock == Free
      case SignalLockCount => g.countLock == Free
      case BroadcastLockCount => g.countLock == Free
      case WaitSemaphore => g.semaphore > 0
      case WaitLockExternal => g.external == Free
      case SignalWaitEvent(_) => g.event
      case BroadcastWaitEvent(_) => g.event
      case _ => true
  }

  function Act(l: Local, i: nat, a: Action, registered: set<nat>): Local
    requires CanAct(l, i, a)
  {
    match a
    case StartWait => l.(pc := WaitLockBroadcast)
    case StartSignal => l.(pc := SignalLockBroadcast)
    case StartBroadcast => l.(pc := BroadcastLock)
    case LockExternal => l.(g := l.g.(external := By(i)))
    case UnlockExternal => l.(g := l.g.(external := Free))
    case Continue => Advance(l, i, registered)
  }

  /** Where a thread goes on when its access saw these fields. */
  function After(pc: Pc, seen: Shared): Pc
    requires pc != Idle
  {
    match pc
    case WaitLockBroadcast => WaitLockCount
    case WaitLockCount => WaitRegister
    case WaitRegister => WaitUnlockCount
    case WaitUnlockCount => WaitUnlockBroadcast
    case WaitUnlockBroadcast => WaitUnlockExternal
    case WaitUnlockExternal => WaitSemaphore
    case WaitSemaphore => WaitLockCountAgain
    case WaitLockCountAgain => WaitDeregister
    case WaitDeregister => WaitUnlockCountAgain(seen.waiterCount - 1 == 0 || !seen.isBroadcast)
    case WaitUnlockCountAgain(last) => if last then WaitSetEvent else WaitLockExternal
    case WaitSetEvent => WaitLockExternal
    case WaitLockExternal => Idle
    case SignalLockBroadcast => SignalLockCount
    case SignalLockCount => SignalRead
    case SignalRead => SignalUnlockCount(seen.waiterCount)
    case SignalUnlockCount(n) => if n != 0 then SignalRelease(n) else SignalUnlockBroadcast(n)
    case SignalRelease(n) => SignalWaitEvent(n)
    case SignalWaitEvent(n) => SignalReset(n)
    case SignalReset(n) => SignalUnlockBroadcast(n)
    case SignalUnlockBroadcast(_) => Idle
    case BroadcastLock => BroadcastLockCount
    case BroadcastLockCount => BroadcastTest
    case BroadcastTest =>
      if seen.waiterCount != 0 then BroadcastRelease(seen.waiterCount) else BroadcastUnlockCountEmpty
    case BroadcastUnlockCountEmpty => BroadcastUnlock(0)
    case BroadcastRelease(n) => BroadcastUnlockCount(n)
    case BroadcastUnlockCount(n) => BroadcastWaitEvent(n)
    case BroadcastWaitEvent(n) => BroadcastReset(n)
    case BroadcastReset(n) => BroadcastClear(n)
    case BroadcastClear(n) => BroadcastUnlock(n)
    case BroadcastUnlock(_) => Idle
  }

  /** What an access does to the fields. */
  function Accessed(g: Shared, pc: Pc, i: nat, registered: set<nat>): Shared
    requires pc == WaitSemaphore ==> g.semaphore > 0
  {
    match pc
    case WaitLockBroadcast => g.(broadcastLock := By(i))
    case WaitLockCount => g.(countLock := By(i))
    case WaitRegister => g.(waiterCount := g.waiterCount + 1)
    case WaitUnlockCount => g.(countLock := Free)
    case WaitUnlockBroadcast => g.(broadcastLock := Free)
    case WaitUnlockExternal => g.(external := Free)
    case WaitSemaphore => g.(semaphore := g.semaphore - 1, took := g.took + {i})
    case WaitLockCountAgain => g.(countLock := By(i))
    case WaitDeregister => g.(waiterCount := g.waiterCount - 1)
    case WaitUnlockCountAgain(_) => g.(countLock := Free)
    case WaitSetEvent => g.(event := true)
    case WaitLockExternal => g.(external := By(i))

    case SignalLockBroadcast => g.(broadcastLock := By(i))
    case SignalLockCount => g.(countLock := By(i))
    case SignalRead => g.(entry := registered, took := {})
    case SignalUnlockCount(_) => g.(countLock := Free)
    case SignalRelease(_) => g.(semaphore := g.semaphore + 1)
    case SignalReset(_) => g.(event := false)
    case SignalUnlockBroadcast(_) => g.(broadcastLock := Free)

    case BroadcastLock => g.(broadcastLock := By(i))
    case BroadcastLockCount => g.(countLock := By(i))
    case BroadcastTest => g.(entry := registered, took := {}, isBroadcast := g.isBroadcast || g.waiterCount != 0)
    case BroadcastUnlockCountEmpty => g.(countLock := Free)
    case BroadcastRelease(_) => g.(semaphore := g.semaphore + if g.waiterCount >= 0 then g.waiterCount else 0)
    case BroadcastUnlockCount(_) => g.(countLock := Free)
    case BroadcastReset(_) => g.(event := false)
    case BroadcastClear(_) => g.(isBroadcast := false)
    case BroadcastUnlock(_) => g.(broadcastLock := Free)
    case _ => g
  }

  function Advance(l: Local, i: nat, registered: set<nat>): Local
    requires CanAct(l, i, Continue)
  {
    Local(Accessed(l.g, l.pc, i, registered), After(l.pc, l.g))
  }

  predicate Enabled(s: State, i: nat, a: Action) {
    i < |s.pcs| && CanAct(Local(s.g, s.pcs[i]), i, a)
  }

  function Next(s: State, i: nat, a: Action): State
    requires Enabled(s, i, a)
  {
    var l := Act(Local(s.g, s.pcs[i]), i, a, RegisteredSet(s.pcs));
    State(l.g, s.pcs[i := l.pc])
  }

  // ------------------------------------------------------------ classification of program counters

  /** Registered and without a semaphore token. */
  predicate Waiting(pc: Pc) {
    pc.WaitUnlockCount? || pc.WaitUnlockBroadcast? || pc.WaitUnlockExternal? || pc.WaitSemaphore?
  }

  /** Registered and released by a token. */
  predicate Leaving(pc: Pc) { pc.WaitLockCountAgain? || pc.WaitDeregister? }

  predicate Registered(pc: Pc) { Waiting(pc) || Leaving(pc) }

  /** Deregistered, and bound to set the event. */
  predicate Setting(pc: Pc) { pc == WaitUnlockCountAgain(true) || pc.WaitSetEvent? }

  function RegisteredSet(pcs: seq<Pc>): set<nat> {
    set i: nat | i < |pcs| && Registered(pcs[i])
  }

  predicate HoldsBroadcast(pc: Pc) {
    pc.WaitLockCount? || pc.WaitRegister? || pc.WaitUnlockCount? || pc.WaitUnlockBroadcast?
    || Signalling(pc)
  }

  predicate Signalling(pc: Pc) {
    pc.SignalLockCount? || pc.SignalRead? || pc.SignalUnlockCount? || pc.SignalRelease?
    || pc.SignalWaitEvent? || pc.SignalReset? || pc.SignalUnlockBroadcast?
    || pc.BroadcastLockCount? || pc.BroadcastTest? || pc.BroadcastUnlockCountEmpty?
    || pc.BroadcastRelease? || pc.BroadcastUnlockCount? || pc.BroadcastWaitEvent?
    || pc.BroadcastReset? || pc.BroadcastClear? || pc.BroadcastUnlock?
  }

  predicate HoldsCount(pc: Pc) {
    pc.WaitRegister? || pc.WaitUnlockCount? || pc.WaitDeregister? || pc.WaitUnlockCountAgain?
    || pc.SignalRead? || pc.SignalUnlockCount?
    || pc.BroadcastTest? || pc.BroadcastUnlockCountEmpty? || pc.BroadcastRelease? || pc.BroadcastUnlockCount?
  }

  predicate HoldsExternal(pc: Pc) {
    pc.WaitLockBroadcast? || pc.WaitLockCount? || pc.WaitRegister? || pc.WaitUnlockCount?
    || pc.WaitUnlockBroadcast? || pc.WaitUnlockExternal?
  }

  // ------------------------------------------------------------ the invariant

  datatype Kind = InWait | Leave | Set | Rank

  function OneIf(b: bool): nat { if b then 1 else 0 }

  function Weight(k: Kind, pc: Pc): nat {
    match k
    case InWait => OneIf(Waiting(pc))
    case Leave => OneIf(Leaving(pc))
    case Set => OneIf(Setting(pc))
    case Rank => StepsToEvent(pc)
  }

  /** A bound on the steps a released waiter still takes until the event can be set. */
  function StepsToEvent(pc: Pc): nat {
    match pc
    case WaitUnlockExternal => 6
    case WaitSemaphore => 5
    case WaitLockCountAgain => 4
    case WaitDeregister => 3
    case WaitUnlockCountAgain(_) => 2
    case WaitSetEvent => 1
    case _ => 0
  }

  function Total(k: Kind, pcs: seq<Pc>): nat { Sum(Weight, k, pcs) }

  predicate LocksInv(g: Shared, i: nat, pc: Pc) {
    && (HoldsBroadcast(pc) <==> g.broadcastLock == By(i))
    && (HoldsCount(pc) <==> g.countLock == By(i))
    && (HoldsExternal(pc) ==> g.external == By(i))
  }

  /** Who waits, seen from a signaller that has read the count. */
  predicate EntryInv(g: Shared, i: nat, pc: Pc) {
    Waiting(pc) <==> i in g.entry && i !in g.took
  }

  /** The progress of the holder of mtx_broadcast. */
  datatype Phase =
    | Quiet
    | SignalCounted(n: int) | SignalDue(n: int) | SignalOpen(n: int) | SignalClosing(n: int) | SignalOver(n: int)
    | BroadcastCounted(n: int) | BroadcastOpen | BroadcastClosing | BroadcastClearing | BroadcastOver

  function PhaseOf(pc: Pc): Phase {
    match pc
    case SignalUnlockCount(n) => SignalCounted(n)
    case SignalRelease(n) => SignalDue(n)
    case SignalWaitEvent(n) => SignalOpen(n)
    case SignalReset(n) => SignalClosing(n)
    case SignalUnlockBroadcast(n) => SignalOver(n)
    case BroadcastRelease(n) => BroadcastCounted(n)
    case BroadcastUnlockCount(_) => BroadcastOpen
    case BroadcastWaitEvent(_) => BroadcastOpen
    case BroadcastReset(_) => BroadcastClosing
    case BroadcastClear(_) => BroadcastClearing
    case BroadcastUnlockCountEmpty => BroadcastOver
    case BroadcastUnlock(_) => BroadcastOver
    case _ => Quiet
  }

  function PhaseNow(s: State): Phase {
    if s.g.broadcastLock.By? && s.g.broadcastLock.i < |s.pcs| then PhaseOf(s.pcs[s.g.broadcastLock.i]) else Quiet
  }

  predicate NoTokens(g: Shared, leaving: int, setting: int) {
    g.semaphore == 0 && leaving == 0 && setting == 0 && !g.event
  }

  predicate InBroadcast(phase: Phase) {
    phase.BroadcastCounted? || phase.BroadcastOpen? || phase.BroadcastClosing? || phase.BroadcastClearing?
  }

  /** Tokens and event, by the phase. */
  predicate TokensInv(g: Shared, phase: Phase, waiting: int, leaving: int, setting: int) {
    && g.waiterCount == waiting + leaving
    && (g.isBroadcast <==> InBroadcast(phase))
    && match phase
       case Quiet => NoTokens(g, leaving, setting)
       case SignalCounted(n) => NoTokens(g, leaving, setting) && |g.took| == 0 && g.waiterCount == n
       case SignalDue(n) =>
         NoTokens(g, leaving, setting) && |g.took| == 0 && g.waiterCount == n && n > 0
       case SignalOpen(n) =>
         && n > 0
         && g.semaphore + leaving + setting + OneIf(g.event) == 1
         && g.waiterCount + setting + OneIf(g.event) == n
         && |g.took| + g.semaphore == 1
       case SignalClosing(n) =>
         && g.semaphore == 0 && leaving == 0 && setting == 0 && g.event
         && |g.took| == 1 && g.waiterCount == n - 1
       case SignalOver(n) =>
         NoTokens(g, leaving, setting) && |g.took| == OneIf(n > 0) && g.waiterCount == n - OneIf(n > 0)
       case BroadcastCounted(n) => NoTokens(g, leaving, setting) && g.waiterCount == n && n > 0
       case BroadcastOpen =>
         g.semaphore == waiting && setting + OneIf(g.event) == OneIf(g.waiterCount == 0)
       case BroadcastClosing =>
         g.semaphore == 0 && waiting == 0 && leaving == 0 && setting == 0 && g.event
       case BroadcastClearing => NoTokens(g, leaving, setting) && waiting == 0
       case BroadcastOver => NoTokens(g, leaving, setting) && waiting == 0
  }

  /** The count a signaller has read is the number of threads registered then. */
  predicate CountInv(entry: set<nat>, phase: Phase) {
    match phase
    case SignalCounted(n) => n == |entry|
    case SignalDue(n) => n == |entry|
    case SignalOpen(n) => n == |entry|
    case SignalClosing(n) => n == |entry|
    case SignalOver(n) => n == |entry|
    case BroadcastCounted(n) => n == |entry|
    case _ => true
  }

  predicate Inv(s: State) {
    && (forall i :: 0 <= i < |s.pcs| ==> LocksInv(s.g, i, s.pcs[i]))
    && (s.g.broadcastLock.By? ==> s.g.broadcastLock.i < |s.pcs|)
    && (s.g.countLock.By? ==> s.g.countLock.i < |s.pcs|)
    && (PhaseNow(s) != Quiet ==>
          && s.g.took <= s.g.entry
          && (forall i :: i in s.g.entry ==> i < |s.pcs|)
          && CountInv(s.g.entry, PhaseNow(s))
          && forall i :: 0 <= i < |s.pcs| ==> EntryInv(s.g, i, s.pcs[i]))
    && TokensInv(s.g, PhaseNow(s), Total(InWait, s.pcs), Total(Leave, s.pcs), Total(Set, s.pcs))
  }

  // ------------------------------------------------------------ preservation

  /** Thread i acquires only free locks and releases only its own. */
  predicate LockMoves(was: Owner, now: Owner, i: nat) {
    now == was || ((was == Free || was == By(i)) && (now == Free || now == By(i)))
  }

  predicate Entering(pc: Pc) {
    pc.WaitLockBroadcast? || pc.WaitLockCount? || pc.WaitRegister? || pc.WaitUnlockCount?
    || pc.WaitUnlockBroadcast? || pc.WaitUnlockExternal?
  }

  predicate Departing(pc: Pc) {
    pc.WaitSemaphore? || pc.WaitLockCountAgain? || pc.WaitDeregister? || pc.WaitUnlockCountAgain?
    || pc.WaitSetEvent? || pc.WaitLockExternal?
  }

  predicate InSignalCall(pc: Pc) {
    pc.SignalLockBroadcast? || pc.SignalLockCount? || pc.SignalRead? || pc.SignalUnlockCount?
    || pc.SignalRelease? || pc.SignalWaitEvent? || pc.SignalReset? || pc.SignalUnlockBroadcast?
  }

  predicate InBroadcastCall(pc: Pc) {
    pc.BroadcastLock? || pc.BroadcastLockCount? || pc.BroadcastTest? || pc.BroadcastUnlockCountEmpty?
    || pc.BroadcastRelease? || pc.BroadcastUnlockCount? || pc.BroadcastWaitEvent? || pc.BroadcastReset?
    || pc.BroadcastClear? || pc.BroadcastUnlock?
  }

  lemma OwnLocksKeep(l: Local, i: nat, a: Action, r: set<nat>)
    requires CanAct(l, i, a) && LocksInv(l.g, i, l.pc)
    ensures var l' := Act(l, i, a, r);
      && LocksInv(l'.g, i, l'.pc)
      && LockMoves(l.g.broadcastLock, l'.g.broadcastLock, i)
      && LockMoves(l.g.countLock, l'.g.countLock, i)
      && LockMoves(l.g.external, l'.g.external, i)
  {
    if a == Continue && (InSignalCall(l.pc) || InBroadcastCall(l.pc)) {
      SignallerLocksKeep(l, i, r);
    }
  }

  lemma SignallerLocksKeep(l: Local, i: nat, r: set<nat>)
    requires CanAct(l, i, Continue) && LocksInv(l.g, i, l.pc) && (InSignalCall(l.pc) || InBroadcastCall(l.pc))
    ensures var l' := Advance(l, i, r);
      && LocksInv(l'.g, i, l'.pc)
      && LockMoves(l.g.broadcastLock, l'.g.broadcastLock, i)
      && LockMoves(l.g.countLock, l'.g.countLock, i)
      && l'.g.external == l.g.external
  {
  }

  lemma OtherLocksKeep(g: Shared, g': Shared, i: nat, j: nat, pc: Pc)
    requires LocksInv(g, j, pc) && j != i
    requires LockMoves(g.broadcastLock, g'.broadcastLock, i)
    requires LockMoves(g.countLock, g'.countLock, i)
    requires LockMoves(g.external, g'.external, i)
    ensures LocksInv(g', j, pc)
  {
    hide HoldsBroadcast, HoldsCount, HoldsExternal;
  }

  lemma StartingKeeps(l: Local, l': Local, i: nat, a: Action, r: set<nat>,
       phase: Phase, w: nat, v: nat, t: nat, w': nat, v': nat, t': nat)
    requires CanAct(l, i, a) && a != Continue && l' == Act(l, i, a, r)
    requires w' == w - OneIf(Waiting(l.pc)) + OneIf(Waiting(l'.pc))
    requires v' == v - OneIf(Leaving(l.pc)) + OneIf(Leaving(l'.pc))
    requires t' == t - OneIf(Setting(l.pc)) + OneIf(Setting(l'.pc))
    requires TokensInv(l.g, phase, w, v, t)
    ensures TokensInv(l'.g, phase, w', v', t')
  {
  }

  lemma RegisteringKeeps(l: Local, l': Local, i: nat, r: set<nat>,
       phase: Phase, w: nat, v: nat, t: nat, w': nat, v': nat, t': nat)
    requires CanAct(l, i, Continue) && Entering(l.pc) && l' == Advance(l, i, r)
    requires l.pc.WaitRegister? ==> phase == Quiet
    requires w' == w - OneIf(Waiting(l.pc)) + OneIf(Waiting(l'.pc))
    requires v' == v - OneIf(Leaving(l.pc)) + OneIf(Leaving(l'.pc))
    requires t' == t - OneIf(Setting(l.pc)) + OneIf(Setting(l'.pc))
    requires TokensInv(l.g, phase, w, v, t)
    ensures TokensInv(l'.g, phase, w', v', t')
  {
  }

  lemma LeavingKeeps(l: Local, l': Local, i: nat, r: set<nat>,
       phase: Phase, w: nat, v: nat, t: nat, w': nat, v': nat, t': nat)
    requires CanAct(l, i, Continue) && Departing(l.pc) && l' == Advance(l, i, r)
    requires phase != Quiet ==> EntryInv(l.g, i, l.pc)
    requires w' == w - OneIf(Waiting(l.pc)) + OneIf(Waiting(l'.pc))
    requires v' == v - OneIf(Leaving(l.pc)) + OneIf(Leaving(l'.pc))
    requires t' == t - OneIf(Setting(l.pc)) + OneIf(Setting(l'.pc))
    requires TokensInv(l.g, phase, w, v, t)
    ensures TokensInv(l'.g, phase, w', v', t')
  {
  }

  lemma SignallingKeeps(l: Local, l': Local, i: nat, r: set<nat>, w: nat, v: nat, t: nat, w': nat, v': nat, t': nat)
    requires CanAct(l, i, Continue) && InSignalCall(l.pc) && l' == Advance(l, i, r)
    requires w' == w - OneIf(Waiting(l.pc)) + OneIf(Waiting(l'.pc))
    requires v' == v - OneIf(Leaving(l.pc)) + OneIf(Leaving(l'.pc))
    requires t' == t - OneIf(Setting(l.pc)) + OneIf(Setting(l'.pc))
    requires TokensInv(l.g, PhaseOf(l.pc), w, v, t)
    ensures TokensInv(l'.g, PhaseOf(l'.pc), w', v', t')
  {
  }

  lemma BroadcastStartKeeps(l: Local, l': Local, i: nat, r: set<nat>, w: nat, v: nat, t: nat, w': nat, v': nat, t': nat)
    requires CanAct(l, i, Continue) && (l.pc.BroadcastLock? || l.pc.BroadcastLockCount? || l.pc.BroadcastTest?
                                        || l.pc.BroadcastRelease?)
    requires l' == Advance(l, i, r)
    requires w' == w - OneIf(Waiting(l.pc)) + OneIf(Waiting(l'.pc))
    requires v' == v - OneIf(Leaving(l.pc)) + OneIf(Leaving(l'.pc))
    requires t' == t - OneIf(Setting(l.pc)) + OneIf(Setting(l'.pc))
    requires TokensInv(l.g, PhaseOf(l.pc), w, v, t)
    ensures TokensInv(l'.g, PhaseOf(l'.pc), w', v', t')
  {
  }

  lemma BroadcastWaitKeeps(l: Local, l': Local, i: nat, r: set<nat>, w: nat, v: nat, t: nat, w': nat, v': nat, t': nat)
    requires CanAct(l, i, Continue) && l' == Advance(l, i, r)
    requires l.pc.BroadcastUnlockCount? || l.pc.BroadcastWaitEvent? || l.pc.BroadcastReset?
    requires w' == w - OneIf(Waiting(l.pc)) + OneIf(Waiting(l'.pc))
    requires v' == v - OneIf(Leaving(l.pc)) + OneIf(Leaving(l'.pc))
    requires t' == t - OneIf(Setting(l.pc)) + OneIf(Setting(l'.pc))
    requires TokensInv(l.g, PhaseOf(l.pc), w, v, t)
    ensures TokensInv(l'.g, PhaseOf(l'.pc), w', v', t')
  {
  }

  lemma BroadcastEndKeeps(l: Local, l': Local, i: nat, r: set<nat>, w: nat, v: nat, t: nat, w': nat, v': nat, t': nat)
    requires CanAct(l, i, Continue) && l' == Advance(l, i, r)
    requires l.pc.BroadcastUnlockCountEmpty? || l.pc.BroadcastClear? || l.pc.BroadcastUnlock?
    requires w' == w - OneIf(Waiting(l.pc)) + OneIf(Waiting(l'.pc))
    requires v' == v - OneIf(Leaving(l.pc)) + OneIf(Leaving(l'.pc))
    requires t' == t - OneIf(Setting(l.pc)) + OneIf(Setting(l'.pc))
    requires TokensInv(l.g, PhaseOf(l.pc), w, v, t)
    ensures TokensInv(l'.g, PhaseOf(l'.pc), w', v', t')
  {
  }

  lemma {:induction false} RegisteredCount(pcs: seq<Pc>)
    ensures |RegisteredSet(pcs)| == Total(InWait, pcs) + Total(Leave, pcs)
  {
    hide Registered, Waiting, Leaving;
    if pcs != [] {
      var n := |pcs| - 1;
      var rest := pcs[..n];
      RegisteredCount(rest);
      SplitLast(InWait, pcs);
      SplitLast(Leave, pcs);
      assert RegisteredSet(pcs) == RegisteredSet(rest) + if Registered(pcs[n]) then {n} else {};
      RegisteredIsOneOf(pcs[n]);
    } else {
      assert RegisteredSet(pcs) == {};
    }
  }

  lemma RegisteredIsOneOf(pc: Pc)
    ensures OneIf(Registered(pc)) == Weight(InWait, pc) + Weight(Leave, pc)
  {
  }

  lemma {:induction false} SplitLast(k: Kind, pcs: seq<Pc>)
    requires pcs != []
    ensures Total(k, pcs) == Total(k, pcs[..|pcs| - 1]) + Weight(k, pcs[|pcs| - 1])
  {
    if |pcs| > 1 {
      SplitLast(k, pcs[1..]);
      assert pcs[..|pcs| - 1][1..] == pcs[1..][..|pcs| - 2];
    } else {
      assert pcs[1..] == pcs[..0] == [];
    }
  }

  lemma TotalsUpdate(pcs: seq<Pc>, i: nat, pc: Pc)
    requires i < |pcs|
    ensures forall k {:trigger Total(k, pcs[i := pc])} ::
              Total(k, pcs[i := pc]) == Total(k, pcs) - Weight(k, pcs[i]) + Weight(k, pc)
  {
    hide Weight;
    forall k
      ensures Total(k, pcs[i := pc]) == Total(k, pcs) - Weight(k, pcs[i]) + Weight(k, pc)
    {
      SumUpdate(Weight, k, pcs, i, pc);
    }
  }

  lemma NextKeepsLocks(s: State, i: nat, a: Action)
    requires Inv(s) && Enabled(s, i, a)
    ensures forall j :: 0 <= j < |s.pcs| ==> LocksInv(Next(s, i, a).g, j, Next(s, i, a).pcs[j])
    ensures LockMoves(s.g.broadcastLock, Next(s, i, a).g.broadcastLock, i)
    ensures LockMoves(s.g.countLock, Next(s, i, a).g.countLock, i)
  {
    hide TokensInv, EntryInv, CountInv, Total, Act, HoldsBroadcast, HoldsCount, HoldsExternal;
    var l := Local(s.g, s.pcs[i]);
    var l' := Act(l, i, a, RegisteredSet(s.pcs));
    assert LocksInv(s.g, i, l.pc);
    OwnLocksKeep(l, i, a, RegisteredSet(s.pcs));
    forall j | 0 <= j < |s.pcs| && j != i
      ensures LocksInv(l'.g, j, s.pcs[j])
    {
      OtherLocksKeep(s.g, l'.g, i, j, s.pcs[j]);
    }
  }

  /** The phase follows the thread that holds mtx_broadcast; only signallers have other phases. */
  lemma PhaseFollows(s: State, i: nat, a: Action)
    requires Inv(s) && Enabled(s, i, a)
    ensures HoldsBroadcast(s.pcs[i]) ==> PhaseNow(s) == PhaseOf(s.pcs[i])
    ensures var s' := Next(s, i, a);
      PhaseNow(s') == if HoldsBroadcast(s'.pcs[i]) then PhaseOf(s'.pcs[i])
                      else if HoldsBroadcast(s.pcs[i]) then Quiet else PhaseNow(s)
  {
    NextKeepsLocks(s, i, a);
    hide TokensInv, EntryInv, CountInv, Total, Act, HoldsBroadcast, HoldsCount, HoldsExternal, PhaseOf;
    assert LocksInv(s.g, i, s.pcs[i]);
    assert LocksInv(Next(s, i, a).g, i, Next(s, i, a).pcs[i]);
  }

  predicate BySignaller(pc: Pc, a: Action) { a == Continue && (InSignalCall(pc) || InBroadcastCall(pc)) }

  lemma HolderMoves(l: Local, i: nat, a: Action, r: set<nat>)
    requires CanAct(l, i, a)
    ensures var pc, pc' := l.pc, Act(l, i, a, r).pc;
      && (!HoldsBroadcast(pc) ==> PhaseOf(pc) == Quiet)
      && (!HoldsBroadcast(pc') ==> PhaseOf(pc') == Quiet)
      && (!HoldsBroadcast(pc) && HoldsBroadcast(pc') ==> l.g.broadcastLock == Free)
      && (!BySignaller(pc, a) ==> PhaseOf(pc) == Quiet && PhaseOf(pc') == Quiet)
      && (a == Continue && pc.WaitRegister? ==> HoldsBroadcast(pc))
      && (BySignaller(pc, a) && !HoldsBroadcast(pc) ==> HoldsBroadcast(pc'))
  {
  }

  /** Only a signaller's own steps change the phase, from that of its old program counter to that of
      its new one. */
  lemma PhaseMoves(s: State, i: nat, a: Action)
    requires Inv(s) && Enabled(s, i, a)
    ensures var s' := Next(s, i, a);
      if BySignaller(s.pcs[i], a) then
        PhaseNow(s) == PhaseOf(s.pcs[i]) && PhaseNow(s') == PhaseOf(s'.pcs[i])
      else PhaseNow(s') == PhaseNow(s)
    ensures a == Continue && s.pcs[i].WaitRegister? ==> PhaseNow(s) == Quiet
  {
    hide TokensInv, EntryInv, CountInv, Total, Act, HoldsBroadcast, HoldsCount, HoldsExternal, PhaseOf;
    PhaseFollows(s, i, a);
    HolderMoves(Local(s.g, s.pcs[i]), i, a, RegisteredSet(s.pcs));
  }

  /** Tokens, event and waiter count stay in step with the phase. */
  lemma NextKeepsTokens(s: State, i: nat, a: Action)
    requires Inv(s) && Enabled(s, i, a)
    ensures var s' := Next(s, i, a);
      TokensInv(s'.g, PhaseNow(s'), Total(InWait, s'.pcs), Total(Leave, s'.pcs), Total(Set, s'.pcs))
  {
    hide TokensInv, EntryInv, CountInv, Total, PhaseNow, HoldsBroadcast, PhaseOf, LocksInv, Advance;
    var r := RegisteredSet(s.pcs);
    var l := Local(s.g, s.pcs[i]);
    var l' := Act(l, i, a, r);
    PhaseMoves(s, i, a);
    TotalsUpdate(s.pcs, i, l'.pc);
    var w, v, t := Total(InWait, s.pcs), Total(Leave, s.pcs), Total(Set, s.pcs);
    var s' := Next(s, i, a);
    var w', v', t' := Total(InWait, s'.pcs), Total(Leave, s'.pcs), Total(Set, s'.pcs);
    assert PhaseNow(s) != Quiet ==> EntryInv(s.g, i, l.pc);
    hide Inv;
    if a != Continue {
      StartingKeeps(l, l', i, a, r, PhaseNow(s), w, v, t, w', v', t');
    } else {
      FamilyOf(l.pc);
      if Entering(l.pc) {
        RegisteringKeeps(l, l', i, r, PhaseNow(s), w, v, t, w', v', t');
      } else if Departing(l.pc) {
        LeavingKeeps(l, l', i, r, PhaseNow(s), w, v, t, w', v', t');
      } else if InSignalCall(l.pc) {
        SignallingKeeps(l, l', i, r, w, v, t, w', v', t');
      } else {
        if l.pc.BroadcastLock? || l.pc.BroadcastLockCount? || l.pc.BroadcastTest? || l.pc.BroadcastRelease? {
          BroadcastStartKeeps(l, l', i, r, w, v, t, w', v', t');
        } else if l.pc.BroadcastUnlockCount? || l.pc.BroadcastWaitEvent? || l.pc.BroadcastReset? {
          BroadcastWaitKeeps(l, l', i, r, w, v, t, w', v', t');
        } else {
          BroadcastEndKeeps(l, l', i, r, w, v, t, w', v', t');
        }
      }
    }
  }

  lemma FamilyOf(pc: Pc)
    ensures pc == Idle || Entering(pc) || Departing(pc) || InSignalCall(pc) || InBroadcastCall(pc)
    ensures Entering(pc) || Departing(pc) ==> !InSignalCall(pc) && !InBroadcastCall(pc)
  {
  }

  predicate EntriesInv(s: State) {
    PhaseNow(s) != Quiet ==>
      && s.g.took <= s.g.entry
      && (forall i :: i in s.g.entry ==> i < |s.pcs|)
      && CountInv(s.g.entry, PhaseNow(s))
      && forall i :: 0 <= i < |s.pcs| ==> EntryInv(s.g, i, s.pcs[i])
  }

  /** When no tokens are about, the registered threads are those that wait. */
  lemma EntryIsWaiting(s: State)
    requires TokensInv(s.g, Quiet, Total(InWait, s.pcs), Total(Leave, s.pcs), Total(Set, s.pcs))
    ensures forall j :: 0 <= j < |s.pcs| ==> (Waiting(s.pcs[j]) <==> j in RegisteredSet(s.pcs))
    ensures |RegisteredSet(s.pcs)| == s.g.waiterCount
  {
    hide Total, Waiting, Leaving;
    RegisteredCount(s.pcs);
    forall j | 0 <= j < |s.pcs|
      ensures !Leaving(s.pcs[j])
    {
      LeaveWeight(s.pcs, j);
    }
  }

  lemma LeaveWeight(pcs: seq<Pc>, j: nat)
    requires j < |pcs|
    ensures Weight(Leave, pcs[j]) <= Total(Leave, pcs)
  {
    hide Sum, Weight;
    SumCovers(Weight, Leave, pcs, j);
  }

  predicate ReadsCount(pc: Pc, a: Action) { a == Continue && (pc.SignalRead? || pc.BroadcastTest?) }

  lemma EntryKeeps(l: Local, i: nat, a: Action, r: set<nat>)
    requires CanAct(l, i, a) && EntryInv(l.g, i, l.pc) && !ReadsCount(l.pc, a)
    requires !(a == Continue && l.pc.WaitRegister?)
    ensures var l' := Act(l, i, a, r);
      && EntryInv(l'.g, i, l'.pc)
      && l'.g.entry == l.g.entry
      && (l'.g.took == l.g.took || (Waiting(l.pc) && l'.g.took == l.g.took + {i}))
  {
  }

  lemma CountKeeps(l: Local, i: nat, a: Action, r: set<nat>)
    requires CanAct(l, i, a) && BySignaller(l.pc, a) && !ReadsCount(l.pc, a)
    requires CountInv(l.g.entry, PhaseOf(l.pc))
    ensures CountInv(l.g.entry, PhaseOf(Act(l, i, a, r).pc))
    ensures PhaseOf(l.pc) == Quiet ==> PhaseOf(Act(l, i, a, r).pc) == Quiet
  {
  }

  lemma ReadingRecords(l: Local, i: nat, r: set<nat>)
    requires ReadsCount(l.pc, Continue) && l.g.waiterCount == |r|
    ensures CanAct(l, i, Continue)
    ensures var l' := Advance(l, i, r);
      && l'.g.entry == r && l'.g.took == {} && CountInv(r, PhaseOf(l'.pc))
      && !Waiting(l.pc) && !Waiting(l'.pc) && PhaseOf(l.pc) == Quiet
  {
  }

  lemma NextKeepsEntries(s: State, i: nat, a: Action)
    requires Inv(s) && Enabled(s, i, a)
    ensures EntriesInv(Next(s, i, a))
  {
    hide TokensInv, CountInv, Total, Act, Waiting, PhaseOf, PhaseNow, BySignaller;
    var l := Local(s.g, s.pcs[i]);
    var r := RegisteredSet(s.pcs);
    var s' := Next(s, i, a);
    PhaseMoves(s, i, a);
    if ReadsCount(l.pc, a) {
      RecordingKeepsEntries(s, i);
    } else if PhaseNow(s') != Quiet {
      if BySignaller(l.pc, a) {
        CountQuiet(s, i);
        CountKeeps(l, i, a, r);
      }
      EntryKeeps(l, i, a, r);
    }
  }

  lemma CountQuiet(s: State, i: nat)
    requires Inv(s) && i < |s.pcs| && PhaseNow(s) == PhaseOf(s.pcs[i])
    ensures CountInv(s.g.entry, PhaseOf(s.pcs[i]))
  {
    hide TokensInv, Total;
  }

  lemma RecordingKeepsEntries(s: State, i: nat)
    requires Inv(s) && i < |s.pcs| && ReadsCount(s.pcs[i], Continue)
    ensures Enabled(s, i, Continue) && EntriesInv(Next(s, i, Continue))
  {
    hide CountInv, Total, Waiting, PhaseOf, Advance;
    var l := Local(s.g, s.pcs[i]);
    var r := RegisteredSet(s.pcs);
    assert BySignaller(l.pc, Continue);
    PhaseMoves(s, i, Continue);
    hide PhaseNow, RegisteredSet;
    QuietRead(l.pc);
    EntryIsWaiting(s);
    ReadingRecords(l, i, r);
    RegisteredBound(s.pcs);
  }

  lemma QuietRead(pc: Pc)
    requires ReadsCount(pc, Continue)
    ensures PhaseOf(pc) == Quiet
  {
  }

  lemma RegisteredBound(pcs: seq<Pc>)
    ensures forall j :: j in RegisteredSet(pcs) ==> j < |pcs|
  {
  }

  lemma NextKeepsInv(s: State, i: nat, a: Action)
    requires Inv(s) && Enabled(s, i, a)
    ensures Inv(Next(s, i, a))
  {
    hide TokensInv, EntryInv, CountInv, Total, Act, PhaseNow, LocksInv;
    NextKeepsLocks(s, i, a);
    NextKeepsTokens(s, i, a);
    NextKeepsEntries(s, i, a);
  }

  // ------------------------------------------------------------ runs

  datatype Move = Move(i: nat, a: Action)

  ghost predicate Run(ss: seq<State>, ms: seq<Move>) {
    && |ss| == |ms| + 1
    && Init(ss[0])
    && forall k :: 0 <= k < |ms| ==> Follows(ss[k], ms[k], ss[k + 1])
  }

  predicate Follows(s: State, m: Move, s': State) {
    Enabled(s, m.i, m.a) && s' == Next(s, m.i, m.a)
  }

  lemma InitInv(s: State)
    requires Init(s)
    ensures Inv(s)
  {
    hide Sum;
    forall k
      ensures Total(k, s.pcs) == 0
    {
      SumNone(Weight, k, s.pcs);
    }
  }

  lemma {:induction false} RunInv(ss: seq<State>, ms: seq<Move>, k: nat)
    requires Run(ss, ms) && k < |ss|
    ensures Inv(ss[k])
  {
    hide Inv, Next, Init, Enabled;
    if k == 0 {
      InitInv(ss[0]);
    } else {
      RunInv(ss, ms, k - 1);
      assert Follows(ss[k - 1], ms[k - 1], ss[k]);
      NextKeepsInv(ss[k - 1], ms[k - 1].i, ms[k - 1].a);
    }
  }

  /** While no signaller has read the count, the semaphore is 0 and the event is clear. */
  lemma QuietMeansNoTokens(ss: seq<State>, ms: seq<Move>, k: nat)
    requires Run(ss, ms) && k < |ss|
    requires forall i :: 0 <= i < |ss[k].pcs| ==> PhaseOf(ss[k].pcs[i]) == Quiet
    ensures ss[k].g.semaphore == 0 && !ss[k].g.event && !ss[k].g.isBroadcast
  {
    hide Run, Total, PhaseOf;
    RunInv(ss, ms, k);
  }

  /** A thread that takes a token was registered when the active signaller read the count, and takes
      only one: no late waiter takes a token. */
  lemma OnlyRegisteredWaitersTakeTokens(ss: seq<State>, ms: seq<Move>, k: nat, i: nat)
    requires Run(ss, ms) && k < |ss| && i < |ss[k].pcs|
    requires ss[k].pcs[i] == WaitSemaphore && Enabled(ss[k], i, Continue)
    ensures i in ss[k].g.entry && i !in ss[k].g.took
  {
    hide Run, Total, PhaseOf;
    RunInv(ss, ms, k);
  }

  lemma HolderPhase(s: State, i: nat)
    requires Inv(s) && i < |s.pcs| && Signalling(s.pcs[i])
    ensures PhaseNow(s) == PhaseOf(s.pcs[i])
  {
    hide TokensInv, EntryInv, CountInv, Total, PhaseOf;
    assert LocksInv(s.g, i, s.pcs[i]);
  }

  lemma LeaverCounts(s: State, j: nat)
    requires j < |s.pcs|
    ensures OneIf(Leaving(s.pcs[j])) <= Total(Leave, s.pcs) && OneIf(Waiting(s.pcs[j])) <= Total(InWait, s.pcs)
    ensures OneIf(Setting(s.pcs[j])) <= Total(Set, s.pcs)
  {
    hide Sum, Leaving, Waiting, Setting;
    SumCovers(Weight, Leave, s.pcs, j);
    SumCovers(Weight, InWait, s.pcs, j);
    SumCovers(Weight, Set, s.pcs, j);
  }

  /** Of the threads registered on entry, j alone took a token and deregistered; the others wait. */
  predicate ReleasedOnly(s: State, j: nat) {
    && j < |s.pcs| && j in s.g.entry && s.g.took == {j} && !Registered(s.pcs[j])
    && forall i :: 0 <= i < |s.pcs| && i != j ==> (i in s.g.entry <==> Waiting(s.pcs[i]))
  }

  /** pthread_cond_signal is about to return.  If nobody was registered, it released nobody.
      Otherwise exactly one of the threads registered on entry has taken a token and deregistered;
      all others still wait. */
  lemma SignalReleasesExactlyOne(ss: seq<State>, ms: seq<Move>, k: nat, i: nat)
    requires Run(ss, ms) && k < |ss| && i < |ss[k].pcs| && ss[k].pcs[i].SignalUnlockBroadcast?
    ensures var g := ss[k].g;
      && (g.entry == {} ==> g.took == {})
      && (g.entry != {} ==> exists j: nat :: ReleasedOnly(ss[k], j))
  {
    var s := ss[k];
    hide Run, Total, Waiting, Leaving;
    RunInv(ss, ms, k);
    HolderPhase(s, i);
    if s.g.entry != {} {
      SignalTookOne(s, s.pcs[i].n);
    }
  }

  lemma SignalTookOne(s: State, n: int)
    requires Inv(s) && PhaseNow(s) == SignalOver(n) && s.g.entry != {}
    ensures exists j: nat :: ReleasedOnly(s, j)
  {
    hide Total, Waiting, Leaving;
    assert |s.g.took| == 1;
    var j :| j in s.g.took;
    assert |s.g.took - {j}| == 0;
    assert s.g.took == {j};
    LeaverCounts(s, j);
    assert EntryInv(s.g, j, s.pcs[j]);
    assert ReleasedOnly(s, j);
  }

  /** pthread_cond_broadcast is about to return: every thread registered on entry has taken a token
      and deregistered, and nobody is registered. */
  lemma BroadcastReleasesAll(ss: seq<State>, ms: seq<Move>, k: nat, i: nat)
    requires Run(ss, ms) && k < |ss| && i < |ss[k].pcs| && ss[k].pcs[i].BroadcastUnlock?
    ensures ss[k].g.took == ss[k].g.entry
    ensures forall j :: 0 <= j < |ss[k].pcs| ==> !Registered(ss[k].pcs[j])
  {
    var s := ss[k];
    hide Run, Total, Waiting, Leaving;
    RunInv(ss, ms, k);
    HolderPhase(s, i);
    forall j | 0 <= j < |s.pcs|
      ensures !Waiting(s.pcs[j]) && !Leaving(s.pcs[j])
    {
      LeaverCounts(s, j);
    }
    forall j | j in s.g.entry
      ensures j in s.g.took
    {
      assert EntryInv(s.g, j, s.pcs[j]);
    }
  }

  // ------------------------------------------------------------ progress

  predicate Blocked(s: State, i: nat) {
    i < |s.pcs| && (s.pcs[i].SignalWaitEvent? || s.pcs[i].BroadcastWaitEvent?) && !s.g.event
  }

  /** A waiter on its way to setting the event. */
  predicate Helper(s: State, j: nat) {
    j < |s.pcs| && StepsToEvent(s.pcs[j]) > 0 && Enabled(s, j, Continue)
  }

  /** A signaller that waits for the event is never deadlocked: some waiter can step. */
  lemma BlockedSignallerHasHelper(ss: seq<State>, ms: seq<Move>, k: nat, i: nat) returns (j: nat)
    requires Run(ss, ms) && k < |ss| && Blocked(ss[k], i)
    ensures Helper(ss[k], j)
  {
    hide Run, Sum, Inv;
    RunInv(ss, ms, k);
    j := FindHelper(ss[k], i);
  }

  lemma FindHelper(s: State, i: nat) returns (j: nat)
    requires Inv(s) && Blocked(s, i)
    ensures Helper(s, j)
  {
    HolderPhase(s, i);
    hide Total, Waiting, Leaving, Setting, HoldsBroadcast, HoldsCount;
    assert Total(Set, s.pcs) > 0 || Total(Leave, s.pcs) > 0 || (Total(InWait, s.pcs) > 0 && s.g.semaphore > 0);
    if Total(Set, s.pcs) > 0 {
      j := Member(Set, s.pcs);
      SettingHelps(s, j);
    } else if Total(Leave, s.pcs) > 0 {
      j := Member(Leave, s.pcs);
      if s.pcs[j].WaitLockCountAgain? && s.g.countLock != Free {
        j := s.g.countLock.i;
        CountHolderHelps(s, i, j);
      } else {
        LeavingHelps(s, j);
      }
    } else {
      j := Member(InWait, s.pcs);
      WaitingHelps(s, i, j);
    }
  }

  lemma Member(k: Kind, pcs: seq<Pc>) returns (j: nat)
    requires Total(k, pcs) > 0
    ensures j < |pcs| && Weight(k, pcs[j]) > 0
  {
    hide Sum, Weight;
    j := SumWitness(Weight, k, pcs);
  }

  lemma SettingHelps(s: State, j: nat)
    requires j < |s.pcs| && Setting(s.pcs[j])
    ensures Helper(s, j)
  {
  }

  lemma LeavingHelps(s: State, j: nat)
    requires j < |s.pcs| && Leaving(s.pcs[j]) && (s.pcs[j].WaitLockCountAgain? ==> s.g.countLock == Free)
    ensures Helper(s, j)
  {
  }

  lemma CountHolderHelps(s: State, i: nat, j: nat)
    requires i < |s.pcs| && LocksInv(s.g, i, s.pcs[i]) && (s.pcs[i].SignalWaitEvent? || s.pcs[i].BroadcastWaitEvent?)
    requires j < |s.pcs| && LocksInv(s.g, j, s.pcs[j]) && s.g.countLock == By(j)
    ensures Helper(s, j)
  {
  }

  lemma WaitingHelps(s: State, i: nat, j: nat)
    requires i < |s.pcs| && LocksInv(s.g, i, s.pcs[i]) && (s.pcs[i].SignalWaitEvent? || s.pcs[i].BroadcastWaitEvent?)
    requires j < |s.pcs| && LocksInv(s.g, j, s.pcs[j]) && Waiting(s.pcs[j]) && s.g.semaphore > 0
    ensures Helper(s, j)
  {
  }

  /** While a signaller is blocked, every helper step lowers the rank and no step raises it. */
  lemma HelpersLowerRank(s: State, i: nat, m: Move)
    requires Inv(s) && Blocked(s, i) && Enabled(s, m.i, m.a)
    ensures var s' := Next(s, m.i, m.a);
      && s'.pcs[i] == s.pcs[i]
      && Total(Rank, s'.pcs) <= Total(Rank, s.pcs)
      && (Helper(s, m.i) && m.a == Continue ==> Total(Rank, s'.pcs) < Total(Rank, s.pcs))
  {
    hide TokensInv, EntryInv, CountInv, Sum, Act;
    var l := Local(s.g, s.pcs[m.i]);
    var l' := Act(l, m.i, m.a, RegisteredSet(s.pcs));
    assert LocksInv(s.g, i, s.pcs[i]) && LocksInv(s.g, m.i, l.pc);
    RankOfStep(l, m.i, m.a, RegisteredSet(s.pcs), i);
    SumUpdate(Weight, Rank, s.pcs, m.i, l'.pc);
  }

  lemma RankOfStep(l: Local, i: nat, a: Action, r: set<nat>, signaller: nat)
    requires CanAct(l, i, a) && l.g.broadcastLock == By(signaller)
    requires HoldsBroadcast(l.pc) ==> i == signaller && (l.pc.SignalWaitEvent? || l.pc.BroadcastWaitEvent?)
    requires !l.g.event
    ensures i != signaller || !(l.pc.SignalWaitEvent? || l.pc.BroadcastWaitEvent?)
    ensures StepsToEvent(Act(l, i, a, r).pc) <= StepsToEvent(l.pc)
    ensures a == Continue && StepsToEvent(l.pc) > 0 ==> StepsToEvent(Act(l, i, a, r).pc) < StepsToEvent(l.pc)
  {
  }

  /** The number of helper steps among moves a to b of a run. */
  ghost function HelperSteps(ss: seq<State>, ms: seq<Move>, a: nat, b: nat): nat
    requires a <= b <= |ms| < |ss|
  {
    if a == b then 0
    else HelperSteps(ss, ms, a, b - 1) + OneIf(Helper(ss[b - 1], ms[b - 1].i) && ms[b - 1].a == Continue)
  }

  /** However the threads are scheduled, the helpers' steps while a signaller is blocked are bounded
      by the rank at the start; together with BlockedSignallerHasHelper, the event gets set. */
  lemma {:induction false} BlockedSignallerIsServed(ss: seq<State>, ms: seq<Move>, i: nat, a: nat, b: nat)
    requires Run(ss, ms) && a <= b <= |ms|
    requires forall k :: a <= k < b ==> Blocked(ss[k], i)
    ensures HelperSteps(ss, ms, a, b) + Total(Rank, ss[b].pcs) <= Total(Rank, ss[a].pcs)
    decreases b
  {
    hide Inv, Init, Enabled, Next, Total, Helper, Blocked;
    if a < b {
      BlockedSignallerIsServed(ss, ms, i, a, b - 1);
      RunInv(ss, ms, b - 1);
      assert Follows(ss[b - 1], ms[b - 1], ss[b]);
      HelpersLowerRank(ss[b - 1], i, ms[b - 1]);
    }
  }
}
