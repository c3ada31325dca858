/** Strong and weak reference counting of one object (RefBase.cpp) as atomic steps of any number
    of threads.  A program counter stands just before one access to a shared field. */
module RefBase {
  import opened Counting

  const INITIAL_STRONG_VALUE: int := 0x1000_0000
  const INT32_MAX: int := 0x7fff_ffff

  /** The creator's plain pointer to the new object: not yet used, still usable beside a weak
      reference of the creator, or used up by the first incStrong. */
  datatype Raw = NoRaw | Unshared | BesideWeak

  datatype Pc =
    | Idle
    // incStrong, on a held strong reference or on the creator's plain pointer
    | IncStrongWeak(raw: bool)
    | IncStrong(raw: bool)
    | Unbias
    // decStrong, and the destructor it or decWeak may run ("last": run by decWeak)
    | DecStrong
    | LastStrong
    | DtorReadStrong(last: bool)
    | DtorReadWeak(last: bool)
    | DtorDeleteImpl(last: bool)
    // decWeak, also the tail of decStrong and of a failing promotion
    | DecWeak
    | LastWeak
    | DeleteImpl
    // attemptIncStrong; "cur" is its local curCount
    | AttemptIncWeak
    | AttemptRead
    | AttemptEasy(cur: int)
    | AttemptHard(cur: int)
    | AttemptReread
    | AttemptLoop(cur: int)
    | AttemptRevive
    | FixRead
    | FixLoop(cur: int)
    // attemptIncWeak
    | WeakRead
    | WeakLoop(cur: int)

  /** "strong" and "weak" are the references the thread holds and is not using in an operation. */
  datatype Thread = Thread(pc: Pc, strong: nat, weak: nat, raw: Raw)

  /** The fields of weakref_impl; "extended" is OBJECT_LIFETIME_WEAK in mFlags.  The three counters
      record how often the object and the impl were deleted and the bias was subtracted. */
  datatype Shared = Shared(
    mStrong: int, mWeak: int, extended: bool,
    objectDeletes: nat, implDeletes: nat, unbiasings: nat)

  datatype State = State(shared: Shared, threads: seq<Thread>)

  /** The part of a state one step of one thread can read or write. */
  datatype Local = Local(g: Shared, t: Thread)

  datatype Action =
    | Continue
    | Refuse            // onIncStrongAttempted declines
    | StartIncStrong | StartRawIncStrong | StartDecStrong | StartDecWeak
    | StartAttempt | StartAttemptWeak
    | CreateWeak        // createWeak or incWeak on a held reference, or the creator's first one

  /** A thread steps, or hands one of its references to another thread. */
  datatype Move = Step(i: nat, a: Action) | GiveStrong(i: nat, to: nat) | GiveWeak(i: nat, to: nat)

  /** The object has just been constructed by thread 0. */
  predicate Init(s: State) {
    && s.shared.mStrong == INITIAL_STRONG_VALUE && s.shared.mWeak == 0
    && s.shared.objectDeletes == 0 && s.shared.implDeletes == 0 && s.shared.unbiasings == 0
    && |s.threads| > 0
    && forall i :: 0 <= i < |s.threads| ==>
         var t := s.threads[i];
         t.pc == Idle && t.strong == 0 && t.weak == 0 && t.raw == if i == 0 then Unshared else NoRaw
  }

  predicate CanAct(l: Local, a: Action) {
    var t := l.t;
    match a
    case Continue => t.pc != Idle
    case Refuse => t.pc.AttemptHard? && l.g.extended
    case StartIncStrong => t.pc == Idle && t.strong > 0
    case StartRawIncStrong => t.pc == Idle && (t.raw == Unshared || (t.raw == BesideWeak && t.weak > 0))
    case StartDecStrong => t.pc == Idle && t.strong > 0
    case StartDecWeak => t.pc == Idle && t.weak > 0
    case StartAttempt => t.pc == Idle && t.weak > 0
    case StartAttemptWeak => t.pc == Idle && t.weak > 0
    case CreateWeak => t.pc == Idle && (t.strong > 0 || t.weak > 0 || t.raw == Unshared)
  }

  function Act(l: Local, a: Action): Local
    requires CanAct(l, a)
  {
    var t := l.t;
    match a
    case Continue => Advance(l)
    case Refuse => Goto(l, DecWeak)
    case StartIncStrong => Goto(l, IncStrongWeak(false))
    case StartRawIncStrong => Goto(l, IncStrongWeak(true))
    case StartDecStrong => l.(t := t.(pc := DecStrong, strong := t.strong - 1))
    case StartDecWeak => l.(t := t.(pc := DecWeak, weak := t.weak - 1))
    case StartAttempt => Goto(l, AttemptIncWeak)
    case StartAttemptWeak => Goto(l, WeakRead)
    case CreateWeak =>
      Local(l.g.(mWeak := l.g.mWeak + 1),
            t.(weak := t.weak + 1, raw := if t.raw == Unshared then BesideWeak else t.raw))
  }

  function Goto(l: Local, pc: Pc): Local { l.(t := l.t.(pc := pc)) }

  /** The operation returns and its caller holds one more strong reference. */
  function Acquired(l: Local): Local { l.(t := l.t.(pc := Idle, strong := l.t.strong + 1)) }

  function Returned(l: Local, last: bool): Local { Goto(l, if last then Idle else DecWeak) }

  /** One atomic access, and the local branching up to the thread's next access. */
  function Advance(l: Local): Local
    requires l.t.pc != Idle
  {
    var g, t := l.g, l.t;
    match t.pc
    case IncStrongWeak(raw) =>
      Local(g.(mWeak := g.mWeak + 1), t.(pc := IncStrong(raw), raw := if raw then NoRaw else t.raw))
    case IncStrong(raw) =>
      var l1 := l.(g := g.(mStrong := g.mStrong + 1));
      if g.mStrong != INITIAL_STRONG_VALUE then Acquired(l1) else Goto(l1, Unbias)
    case Unbias =>
      Acquired(l.(g := g.(mStrong := g.mStrong - INITIAL_STRONG_VALUE, unbiasings := g.unbiasings + 1)))
    case DecStrong =>
      Goto(l.(g := g.(mStrong := g.mStrong - 1)), if g.mStrong == 1 then LastStrong else DecWeak)
    case LastStrong =>
      if g.extended then Goto(l, DecWeak)
      else Goto(l.(g := g.(objectDeletes := g.objectDeletes + 1)), DtorReadStrong(false))
    case DtorReadStrong(last) =>
      if g.mStrong == INITIAL_STRONG_VALUE then Goto(l, DtorDeleteImpl(last))
      else if g.extended then Goto(l, DtorReadWeak(last))
      else Returned(l, last)
    case DtorReadWeak(last) =>
      if g.mWeak == 0 then Goto(l, DtorDeleteImpl(last)) else Returned(l, last)
    case DtorDeleteImpl(last) => Returned(l.(g := g.(implDeletes := g.implDeletes + 1)), last)
    case DecWeak => Goto(l.(g := g.(mWeak := g.mWeak - 1)), if g.mWeak == 1 then LastWeak else Idle)
    case LastWeak =>
      if g.extended || g.mStrong == INITIAL_STRONG_VALUE then
        Goto(l.(g := g.(objectDeletes := g.objectDeletes + 1)), DtorReadStrong(true))
      else Goto(l, DeleteImpl)
    case DeleteImpl => Goto(l.(g := g.(implDeletes := g.implDeletes + 1)), Idle)
    case AttemptIncWeak => Goto(l.(g := g.(mWeak := g.mWeak + 1)), AttemptRead)
    case AttemptRead => Goto(l, AttemptEasy(g.mStrong))
    case AttemptEasy(cur) =>
      if cur <= 0 || cur == INITIAL_STRONG_VALUE then Goto(l, AttemptHard(cur))
      else if g.mStrong == cur then Goto(l.(g := g.(mStrong := cur + 1)), FixRead)
      else Goto(l, AttemptRead)
    case AttemptHard(cur) =>
      Goto(l, if g.extended then AttemptRevive else if cur <= 0 then DecWeak else AttemptLoop(cur))
    case AttemptReread => Goto(l, AttemptLoop(g.mStrong))
    case AttemptLoop(cur) =>
      if cur <= 0 then Goto(l, DecWeak)
      else if g.mStrong == cur then Goto(l.(g := g.(mStrong := cur + 1)), FixRead)
      else Goto(l, AttemptReread)
    case AttemptRevive => Goto(l.(g := g.(mStrong := g.mStrong + 1)), FixRead)
    case FixRead => Goto(l, FixLoop(g.mStrong))
    case FixLoop(cur) =>
      if cur < INITIAL_STRONG_VALUE then Acquired(l)
      else if g.mStrong == cur then
        Acquired(l.(g := g.(mStrong := cur - INITIAL_STRONG_VALUE, unbiasings := g.unbiasings + 1)))
      else Goto(l, FixRead)
    case WeakRead => Goto(l, WeakLoop(g.mWeak))
    case WeakLoop(cur) =>
      if cur <= 0 then Goto(l, Idle)
      else if g.mWeak == cur then Local(g.(mWeak := cur + 1), t.(pc := Idle, weak := t.weak + 1))
      else Goto(l, WeakRead)
  }

  predicate Enabled(s: State, m: Move) {
    m.i < |s.threads| &&
    match m
    case Step(i, a) => CanAct(Local(s.shared, s.threads[i]), a)
    case GiveStrong(i, to) =>
      to < |s.threads| && to != i && s.threads[i].pc == Idle && s.threads[i].strong > 0
    case GiveWeak(i, to) =>
      to < |s.threads| && to != i && s.threads[i].pc == Idle && s.threads[i].weak > 0
  }

  function Next(s: State, m: Move): State
    requires Enabled(s, m)
  {
    var giver := s.threads[m.i];
    match m
    case Step(i, a) =>
      var l := Act(Local(s.shared, giver), a);
      State(l.g, s.threads[i := l.t])
    case GiveStrong(i, to) =>
      var ts := s.threads[i := giver.(strong := giver.strong - 1)];
      s.(threads := ts[to := ts[to].(strong := ts[to].strong + 1)])
    case GiveWeak(i, to) =>
      var ts := s.threads[i := giver.(weak := giver.weak - 1)];
      s.(threads := ts[to := ts[to].(weak := ts[to].weak + 1)])
  }

  // ------------------------------------------------------------ weights

  function OneIf(b: bool): nat { if b then 1 else 0 }

  predicate InDestructor(t: Thread) {
    t.pc.DtorReadStrong? || t.pc.DtorReadWeak? || t.pc.DtorDeleteImpl?
  }

  datatype Kind =
    | Strongs             // strong references, held or owned by a running operation
    | Weaks               // weak counts: weak and strong references, promotions in flight, and
                          // counts an operation has taken or not yet returned
    | Unbiasing | Fixing  // about to subtract the bias: in the first incStrong, in a promotion
    | DroppingLast        // decStrong saw a count of 1
    | AtLastWeak          // decWeak saw a count of 1
    | FreeingImpl
    | Destroying | DestroyingOnStrong   // in the destructor, called by decWeak or by decStrong
    | Unused              // the creator before the first reference

  function Weight(k: Kind, t: Thread): nat {
    match k
    case Strongs => t.strong + OneIf(t.pc.Unbias? || t.pc.DecStrong? || t.pc.FixRead? || t.pc.FixLoop?)
    case Weaks =>
      t.strong + t.weak +
      OneIf(t.pc.IncStrong? || t.pc.Unbias? || t.pc.DecStrong? || t.pc.LastStrong?
            || (InDestructor(t) && !t.pc.last) || t.pc.DecWeak?
            || t.pc.AttemptRead? || t.pc.AttemptEasy? || t.pc.AttemptHard? || t.pc.AttemptReread?
            || t.pc.AttemptLoop? || t.pc.AttemptRevive? || t.pc.FixRead? || t.pc.FixLoop?)
    case Unbiasing => OneIf(t.pc.Unbias?)
    case Fixing => OneIf(t.pc.FixRead? || t.pc.FixLoop?)
    case DroppingLast => OneIf(t.pc.LastStrong?)
    case AtLastWeak => OneIf(t.pc.LastWeak?)
    case FreeingImpl => OneIf(t.pc.DeleteImpl?)
    case Destroying => OneIf(InDestructor(t) && t.pc.last)
    case DestroyingOnStrong => OneIf(InDestructor(t) && !t.pc.last)
    case Unused => OneIf(t.raw == Unshared)
  }

  /** The weights of all threads. */
  function Total(k: Kind, ts: seq<Thread>): nat { Sum(Weight, k, ts) }

  /** Thread t is one of the threads ts: no strong reference without its weak count, no pending
      subtraction of the bias without its strong reference, in t and in the others. */
  ghost predicate Covered(ts: seq<Thread>, t: Thread) {
    && (forall k {:trigger Total(k, ts)} :: Weight(k, t) <= Total(k, ts))
    && Total(Strongs, ts) - Weight(Strongs, t) <= Total(Weaks, ts) - Weight(Weaks, t)
    && Total(Unbiasing, ts) - Weight(Unbiasing, t) <= Total(Strongs, ts) - Weight(Strongs, t)
    && Total(Fixing, ts) - Weight(Fixing, t) <= Total(Strongs, ts) - Weight(Strongs, t)
    && Total(DroppingLast, ts) <= Total(Weaks, ts)
    && Total(DestroyingOnStrong, ts) <= Total(Weaks, ts)
  }

  ghost predicate Updated(ts: seq<Thread>, ts': seq<Thread>, t: Thread, t': Thread) {
    forall k {:trigger Total(k, ts')} :: Total(k, ts') == Total(k, ts) - Weight(k, t) + Weight(k, t')
  }

  lemma TotalUpdate(ts: seq<Thread>, i: nat, t: Thread)
    requires i < |ts|
    ensures Updated(ts, ts[i := t], ts[i], t)
  {
    hide Sum;
    forall k
      ensures Total(k, ts[i := t]) == Total(k, ts) - Weight(k, ts[i]) + Weight(k, t)
    {
      SumUpdate(Weight, k, ts, i, t);
    }
  }

  lemma TotalCovers(ts: seq<Thread>, i: nat)
    requires i < |ts|
    ensures Covered(ts, ts[i])
  {
    hide Sum;
    forall k
      ensures Weight(k, ts[i]) <= Total(k, ts)
    {
      SumCovers(Weight, k, ts, i);
    }
    SumOthers(Weight, Strongs, Weaks, ts, i);
    SumOthers(Weight, Unbiasing, Strongs, ts, i);
    SumOthers(Weight, Fixing, Strongs, ts, i);
    SumOthers(Weight, DroppingLast, Weaks, ts, i);
    SumOthers(Weight, DestroyingOnStrong, Weaks, ts, i);
  }

  // ------------------------------------------------------------ what clients must respect

  /** Counts stay below the bias and inside int32_t, and throughout an incStrong through the creator's
      plain pointer, from the call on, the count has not dropped to zero, as incStrong asserts. */
  predicate Legal(s: State) {
    && LegalCounts(s.threads)
    && forall i :: 0 <= i < |s.threads| ==> AssertsHold(s.shared, s.threads[i])
  }

  predicate LegalCounts(ts: seq<Thread>) {
    Total(Strongs, ts) < INITIAL_STRONG_VALUE && Total(Weaks, ts) <= INT32_MAX
  }

  predicate AssertsHold(g: Shared, t: Thread) {
    t.pc == IncStrongWeak(true) || t.pc == IncStrong(true) ==> g.mStrong > 0
  }

  /** A promotion's fix-up subtracts the bias while the first incStrong is still about to. */
  predicate Races(s: State, m: Move)
    requires Enabled(s, m)
  {
    m.Step? && m.a == Continue && Total(Unbiasing, s.threads) > 0
    && FixesUp(Local(s.shared, s.threads[m.i]))
  }

  predicate FixesUp(l: Local) {
    l.t.pc.FixLoop? && l.t.pc.cur >= INITIAL_STRONG_VALUE && l.g.mStrong == l.t.pc.cur
  }

  // ------------------------------------------------------------ the invariant

  predicate ThreadInv(g: Shared, t: Thread) {
    match t.pc
    case IncStrongWeak(raw) =>
      if raw then t.raw == Unshared || (t.raw == BesideWeak && t.weak > 0) else t.strong > 0
    case IncStrong(raw) => raw || t.strong > 0
    case AttemptIncWeak => t.weak > 0
    case AttemptRevive => g.extended
    case WeakRead => t.weak > 0
    case WeakLoop(_) => t.weak > 0
    case FixLoop(cur) =>
      0 < cur && cur != INITIAL_STRONG_VALUE && (cur < INITIAL_STRONG_VALUE ==> g.unbiasings == 1)
    case DtorReadWeak(last) => last
    case DtorDeleteImpl(last) => last
    case _ => true
  }

  predicate CountsInv(g: Shared, ts: seq<Thread>) {
    && g.mStrong == Total(Strongs, ts) + (if g.unbiasings == 0 then INITIAL_STRONG_VALUE else 0)
    && g.mWeak == Total(Weaks, ts)
    && g.unbiasings <= 1
    && Total(Unbiasing, ts) <= 1
    && (Total(Unbiasing, ts) > 0 ==> g.unbiasings == 0)
    && (g.unbiasings == 0 && Total(Strongs, ts) > 0 ==> Total(Unbiasing, ts) + Total(Fixing, ts) > 0)
  }

  predicate LifetimeInv(g: Shared, ts: seq<Thread>) {
    && Total(Unused, ts) <= 1
    && (Total(Unused, ts) == 1 ==> g.mWeak == 0 && g.mStrong == INITIAL_STRONG_VALUE)
    && Total(AtLastWeak, ts) + Total(FreeingImpl, ts) + Total(Destroying, ts) + g.implDeletes
       == (if Total(Unused, ts) == 0 && g.mWeak == 0 then 1 else 0)
    && g.objectDeletes
       == (if !g.extended && g.mStrong == 0 then 1 - Total(DroppingLast, ts)
           else Total(Destroying, ts) + g.implDeletes)
    && (!g.extended ==> Total(DroppingLast, ts) <= (if g.mStrong == 0 then 1 else 0))
    && (Total(FreeingImpl, ts) > 0 ==> !g.extended && g.mStrong == 0)
    && (Total(Destroying, ts) > 0 ==> g.extended || g.mStrong == INITIAL_STRONG_VALUE)
    && (Total(DestroyingOnStrong, ts) > 0 ==> !g.extended && g.mStrong == 0)
  }

  predicate Inv(s: State) {
    && CountsInv(s.shared, s.threads)
    && LifetimeInv(s.shared, s.threads)
    && forall i :: 0 <= i < |s.threads| ==> ThreadInv(s.shared, s.threads[i])
  }

  // ------------------------------------------------------------ preservation

  /** What is known when a thread of ts in local state l acts and the threads become ts'. */
  ghost predicate Acting(l: Local, a: Action, ts: seq<Thread>, ts': seq<Thread>) {
    && CanAct(l, a)
    && CountsInv(l.g, ts) && LifetimeInv(l.g, ts) && ThreadInv(l.g, l.t)
    && LegalCounts(ts) && LegalCounts(ts') && AssertsHold(l.g, l.t)
    && !(a == Continue && FixesUp(l) && Total(Unbiasing, ts) > 0)
    && Covered(ts, l.t) && Updated(ts, ts', l.t, Act(l, a).t)
  }

  predicate Reads(pc: Pc) {
    pc.AttemptRead? || pc.AttemptHard? || pc.AttemptReread? || pc.FixRead? || pc.WeakRead?
  }

  lemma StartingKeeps(l: Local, a: Action, ts: seq<Thread>, ts': seq<Thread>)
    requires Acting(l, a, ts, ts')
    requires a != Continue
    ensures CountsInv(Act(l, a).g, ts') && LifetimeInv(Act(l, a).g, ts')
  {
    hide Total;
  }

  lemma IncrementingKeeps(l: Local, a: Action, ts: seq<Thread>, ts': seq<Thread>)
    requires Acting(l, a, ts, ts')
    requires a == Continue && (l.t.pc.IncStrongWeak? || l.t.pc.IncStrong? || l.t.pc.Unbias?)
    ensures CountsInv(Act(l, a).g, ts') && LifetimeInv(Act(l, a).g, ts')
  {
    hide Total;
  }

  lemma DroppingStrongKeeps(l: Local, a: Action, ts: seq<Thread>, ts': seq<Thread>)
    requires Acting(l, a, ts, ts')
    requires a == Continue && (l.t.pc.DecStrong? || l.t.pc.LastStrong?)
    ensures CountsInv(Act(l, a).g, ts') && LifetimeInv(Act(l, a).g, ts')
  {
    hide Total;
  }

  lemma DestroyingKeeps(l: Local, a: Action, ts: seq<Thread>, ts': seq<Thread>)
    requires Acting(l, a, ts, ts')
    requires a == Continue && InDestructor(l.t)
    ensures CountsInv(Act(l, a).g, ts') && LifetimeInv(Act(l, a).g, ts')
  {
    hide Total;
  }

  lemma DroppingWeakKeeps(l: Local, a: Action, ts: seq<Thread>, ts': seq<Thread>)
    requires Acting(l, a, ts, ts')
    requires a == Continue && (l.t.pc.DecWeak? || l.t.pc.LastWeak? || l.t.pc.DeleteImpl?)
    ensures CountsInv(Act(l, a).g, ts') && LifetimeInv(Act(l, a).g, ts')
  {
    hide Total;
  }

  lemma ReadingKeeps(l: Local, a: Action, ts: seq<Thread>, ts': seq<Thread>)
    requires Acting(l, a, ts, ts')
    requires a == Continue && Reads(l.t.pc)
    ensures CountsInv(Act(l, a).g, ts') && LifetimeInv(Act(l, a).g, ts')
  {
    hide Total;
  }

  lemma AttemptingKeeps(l: Local, a: Action, ts: seq<Thread>, ts': seq<Thread>)
    requires Acting(l, a, ts, ts')
    requires a == Continue && (l.t.pc.AttemptIncWeak? || l.t.pc.AttemptEasy?)
    ensures CountsInv(Act(l, a).g, ts') && LifetimeInv(Act(l, a).g, ts')
  {
    hide Total;
  }

  lemma PromotingKeeps(l: Local, a: Action, ts: seq<Thread>, ts': seq<Thread>)
    requires Acting(l, a, ts, ts')
    requires a == Continue && (l.t.pc.AttemptLoop? || l.t.pc.AttemptRevive?)
    ensures CountsInv(Act(l, a).g, ts') && LifetimeInv(Act(l, a).g, ts')
  {
    hide Total;
  }

  lemma FixingUpKeeps(l: Local, a: Action, ts: seq<Thread>, ts': seq<Thread>)
    requires Acting(l, a, ts, ts')
    requires a == Continue && (l.t.pc.FixLoop? || l.t.pc.WeakLoop?)
    ensures CountsInv(Act(l, a).g, ts') && LifetimeInv(Act(l, a).g, ts')
  {
    hide Total;
  }

  lemma ThreadKeeps(l: Local, a: Action, ts: seq<Thread>, ts': seq<Thread>)
    requires Acting(l, a, ts, ts')
    ensures ThreadInv(Act(l, a).g, Act(l, a).t)
  {
    hide Total;
  }

  lemma OthersKeep(l: Local, a: Action, t: Thread)
    requires CanAct(l, a) && l.g.unbiasings <= Act(l, a).g.unbiasings <= 1 && ThreadInv(l.g, t)
    ensures ThreadInv(Act(l, a).g, t)
  {
  }

  lemma ActKeeps(l: Local, a: Action, ts: seq<Thread>, ts': seq<Thread>)
    requires Acting(l, a, ts, ts')
    ensures CountsInv(Act(l, a).g, ts') && LifetimeInv(Act(l, a).g, ts')
  {
    hide CountsInv, LifetimeInv, ThreadInv, Act, Updated, LegalCounts, Covered;
    if a != Continue {
      StartingKeeps(l, a, ts, ts');
    } else if Reads(l.t.pc) {
      ReadingKeeps(l, a, ts, ts');
    } else if l.t.pc.IncStrongWeak? || l.t.pc.IncStrong? || l.t.pc.Unbias? {
      IncrementingKeeps(l, a, ts, ts');
    } else if l.t.pc.DecStrong? || l.t.pc.LastStrong? {
      DroppingStrongKeeps(l, a, ts, ts');
    } else if InDestructor(l.t) {
      DestroyingKeeps(l, a, ts, ts');
    } else if l.t.pc.DecWeak? || l.t.pc.LastWeak? || l.t.pc.DeleteImpl? {
      DroppingWeakKeeps(l, a, ts, ts');
    } else if l.t.pc.AttemptIncWeak? || l.t.pc.AttemptEasy? {
      AttemptingKeeps(l, a, ts, ts');
    } else if l.t.pc.AttemptLoop? || l.t.pc.AttemptRevive? {
      PromotingKeeps(l, a, ts, ts');
    } else {
      FixingUpKeeps(l, a, ts, ts');
    }
  }

  lemma StepKeepsInv(s: State, i: nat, a: Action)
    requires Inv(s) && Legal(s) && Enabled(s, Step(i, a)) && !Races(s, Step(i, a))
    requires Legal(Next(s, Step(i, a)))
    ensures Inv(Next(s, Step(i, a)))
  {
    hide Total, LifetimeInv, Act;
    var l := Local(s.shared, s.threads[i]);
    var l' := Act(l, a);
    var ts' := s.threads[i := l'.t];
    TotalCovers(s.threads, i);
    TotalUpdate(s.threads, i, l'.t);
    assert ThreadInv(s.shared, l.t) && AssertsHold(s.shared, l.t);
    ActKeeps(l, a, s.threads, ts');
    ThreadKeeps(l, a, s.threads, ts');
    UnbiasingsGrow(l, a);
    forall j | 0 <= j < |ts'|
      ensures ThreadInv(l'.g, ts'[j])
    {
      OthersKeep(l, a, s.threads[j]);
    }
  }

  lemma UnbiasingsGrow(l: Local, a: Action)
    requires CanAct(l, a)
    ensures l.g.unbiasings <= Act(l, a).g.unbiasings && Act(l, a).g.extended == l.g.extended
  {
  }

  lemma GivingKeepsTotals(s: State, m: Move, k: Kind)
    requires Enabled(s, m) && !m.Step?
    ensures Total(k, Next(s, m).threads) == Total(k, s.threads)
  {
    hide Total, Weight;
    var giver := s.threads[m.i];
    var giver' := if m.GiveStrong? then giver.(strong := giver.strong - 1) else giver.(weak := giver.weak - 1);
    var taker := s.threads[m.to];
    var taker' := if m.GiveStrong? then taker.(strong := taker.strong + 1) else taker.(weak := taker.weak + 1);
    TotalUpdate(s.threads, m.i, giver');
    TotalUpdate(s.threads[m.i := giver'], m.to, taker');
    WeightMoves(giver, giver', taker, taker', k);
  }

  lemma WeightMoves(giver: Thread, giver': Thread, taker: Thread, taker': Thread, k: Kind)
    requires || (giver.strong > 0 && giver' == giver.(strong := giver.strong - 1)
                 && taker' == taker.(strong := taker.strong + 1))
             || (giver.weak > 0 && giver' == giver.(weak := giver.weak - 1)
                 && taker' == taker.(weak := taker.weak + 1))
    ensures Weight(k, giver) + Weight(k, taker) == Weight(k, giver') + Weight(k, taker')
  {
  }

  lemma GivingKeepsInv(s: State, m: Move)
    requires Inv(s) && Enabled(s, m) && !m.Step?
    ensures Inv(Next(s, m))
  {
    hide Total;
    forall k
      ensures Total(k, Next(s, m).threads) == Total(k, s.threads)
    {
      GivingKeepsTotals(s, m, k);
    }
    assert forall i :: 0 <= i < |s.threads| ==> ThreadInv(s.shared, s.threads[i]);
  }

  // ------------------------------------------------------------ runs

  /** States ss visited by moves ms, from the construction of the object on. */
  ghost predicate Run(ss: seq<State>, ms: seq<Move>) {
    && |ss| == |ms| + 1
    && Init(ss[0]) && Legal(ss[0])
    && forall k :: 0 <= k < |ms| ==> Follows(ss[k], ms[k], ss[k + 1])
  }

  predicate Follows(s: State, m: Move, s': State) {
    Enabled(s, m) && !Races(s, m) && s' == Next(s, m) && Legal(s')
  }

  lemma InitInv(s: State)
    requires Init(s)
    ensures Inv(s)
  {
    hide Sum;
    var ts := s.threads;
    forall k | k != Unused
      ensures Total(k, ts) == 0
    {
      SumNone(Weight, k, ts);
    }
    OneUnused(ts);
  }

  lemma OneUnused(ts: seq<Thread>)
    requires ts != [] && ts[0].raw == Unshared && forall i :: 0 < i < |ts| ==> ts[i].raw == NoRaw
    ensures Total(Unused, ts) == 1
  {
    SumNone(Weight, Unused, ts[1..]);
  }

  lemma NextKeepsInv(s: State, m: Move)
    requires Inv(s) && Legal(s) && Enabled(s, m) && Follows(s, m, Next(s, m))
    ensures Inv(Next(s, m))
  {
    hide Inv, Legal, Next, Races, Enabled;
    match m
    case Step(i, a) => StepKeepsInv(s, i, a);
    case GiveStrong(i, to) => GivingKeepsInv(s, m);
    case GiveWeak(i, to) => GivingKeepsInv(s, m);
  }

  lemma {:induction false} RunInv(ss: seq<State>, ms: seq<Move>, k: nat)
    requires Run(ss, ms) && k < |ss|
    ensures Inv(ss[k]) && Legal(ss[k])
  {
    hide Inv, Legal, Next, Races, Init, Enabled;
    if k == 0 {
      InitInv(ss[0]);
    } else {
      RunInv(ss, ms, k - 1);
      assert Follows(ss[k - 1], ms[k - 1], ss[k]);
      NextKeepsInv(ss[k - 1], ms[k - 1]);
    }
  }

  /** In every interleaving: at most one deletion each; nothing is deleted while needed. */
  lemma DeletedAtMostOnceAndNeverWhileReferenced(ss: seq<State>, ms: seq<Move>, k: nat)
    requires Run(ss, ms) && k < |ss|
    ensures ss[k].shared.objectDeletes <= 1 && ss[k].shared.implDeletes <= 1
    ensures forall i :: 0 <= i < |ss[k].threads| && Weight(Strongs, ss[k].threads[i]) > 0 ==>
              ss[k].shared.objectDeletes == 0
    ensures forall i :: 0 <= i < |ss[k].threads| && Weight(Weaks, ss[k].threads[i]) > 0 ==>
              ss[k].shared.implDeletes == 0
  {
    hide Run, Legal, Total;
    RunInv(ss, ms, k);
    forall i | 0 <= i < |ss[k].threads|
      ensures Covered(ss[k].threads, ss[k].threads[i])
    {
      TotalCovers(ss[k].threads, i);
    }
  }

  /** About to remove the bias, or to find it removed. */
  predicate UnbiasPending(t: Thread) { t.pc.Unbias? || t.pc.FixRead? || t.pc.FixLoop? }

  /** mStrong counts the strong references modulo one bias, which is removed exactly once: at most once ever,
      and it has been removed whenever some thread holds a strong reference and no thread is about to remove
      it.  mWeak counts the weak and strong references and the promotions in flight. */
  lemma CountsAreExact(ss: seq<State>, ms: seq<Move>, k: nat)
    requires Run(ss, ms) && k < |ss|
    ensures ss[k].shared.unbiasings <= 1
    ensures ss[k].shared.mStrong
         == Total(Strongs, ss[k].threads) + (if ss[k].shared.unbiasings == 0 then INITIAL_STRONG_VALUE else 0)
    ensures ss[k].shared.mWeak == Total(Weaks, ss[k].threads)
    ensures (forall i :: 0 <= i < |ss[k].threads| ==> !UnbiasPending(ss[k].threads[i]))
      && (exists i :: 0 <= i < |ss[k].threads| && ss[k].threads[i].strong > 0)
      ==> ss[k].shared.unbiasings == 1
  {
    hide Run, Legal, Sum, LifetimeInv;
    RunInv(ss, ms, k);
    var ts := ss[k].threads;
    if (forall i :: 0 <= i < |ts| ==> !UnbiasPending(ts[i])) && exists i :: 0 <= i < |ts| && ts[i].strong > 0 {
      var i :| 0 <= i < |ts| && ts[i].strong > 0;
      TotalCovers(ts, i);
      SumNone(Weight, Unbiasing, ts);
      SumNone(Weight, Fixing, ts);
    }
  }

  /** The object has been shared, no operation runs and no thread holds a reference. */
  predicate AllReleased(s: State) {
    forall i :: 0 <= i < |s.threads| ==>
      s.threads[i].pc == Idle && s.threads[i].strong == 0 && s.threads[i].weak == 0
      && s.threads[i].raw != Unshared
  }

  /** Under both lifetimes nothing leaks. */
  lemma ReleasedMeansDeleted(ss: seq<State>, ms: seq<Move>, k: nat)
    requires Run(ss, ms) && k < |ss| && AllReleased(ss[k])
    ensures ss[k].shared.objectDeletes == 1 && ss[k].shared.implDeletes == 1
  {
    hide Run, Legal, Sum;
    RunInv(ss, ms, k);
    forall kind
      ensures Total(kind, ss[k].threads) == 0
    {
      SumNone(Weight, kind, ss[k].threads);
    }
  }

  /** Under the strong lifetime the object goes with its last strong reference, without waiting for weak ones; under
      the weak lifetime, and before its first strong reference, it stays as long as anything refers to it. */
  lemma ObjectGoesOnTime(ss: seq<State>, ms: seq<Move>, k: nat)
    requires Run(ss, ms) && k < |ss|
    ensures !ss[k].shared.extended && ss[k].shared.mStrong == 0
      && (forall i :: 0 <= i < |ss[k].threads| ==> !ss[k].threads[i].pc.LastStrong?)
      ==> ss[k].shared.objectDeletes == 1
    ensures (ss[k].shared.extended || ss[k].shared.mStrong == INITIAL_STRONG_VALUE)
      && (exists i :: 0 <= i < |ss[k].threads| && Weight(Weaks, ss[k].threads[i]) > 0)
      ==> ss[k].shared.objectDeletes == 0
  {
    hide Run, Legal, Sum;
    RunInv(ss, ms, k);
    var ts := ss[k].threads;
    if forall i :: 0 <= i < |ts| ==> !ts[i].pc.LastStrong? {
      SumNone(Weight, DroppingLast, ts);
    }
    if i :| 0 <= i < |ts| && Weight(Weaks, ts[i]) > 0 {
      TotalCovers(ts, i);
    }
  }

  /** The actions that read or write the impl. */
  predicate TouchesImpl(a: Action) { a == Continue || a == Refuse || a == CreateWeak }

  /** The actions that read the object to find its impl, call a member of the object or delete it. */
  predicate TouchesObject(l: Local, a: Action) {
    match a
    case StartIncStrong => true
    case StartRawIncStrong => true
    case StartDecStrong => true
    case CreateWeak => l.t.strong > 0 || l.t.raw == Unshared
    case Refuse => true
    case Continue =>
      (match l.t.pc
       case Unbias => true
       case LastStrong => true
       case LastWeak => l.g.extended || l.g.mStrong == INITIAL_STRONG_VALUE
       case AttemptHard(_) => l.g.extended
       case AttemptLoop(cur) => l.g.mStrong == cur && 0 < cur < INITIAL_STRONG_VALUE
       case AttemptRevive => true
       case _ => false)
    case _ => false
  }

  /** No legal step, not even the call of an operation, uses the impl or the object after its deletion. */
  lemma StepsTouchLiveMemory(ss: seq<State>, ms: seq<Move>, k: nat, i: nat, a: Action)
    requires Run(ss, ms) && k < |ss| && Enabled(ss[k], Step(i, a)) && Legal(Next(ss[k], Step(i, a)))
    ensures TouchesImpl(a) ==> ss[k].shared.implDeletes == 0
    ensures TouchesObject(Local(ss[k].shared, ss[k].threads[i]), a) ==> ss[k].shared.objectDeletes == 0
  {
    hide Run, Total, LegalCounts;
    RunInv(ss, ms, k);
    TotalCovers(ss[k].threads, i);
    assert ThreadInv(ss[k].shared, ss[k].threads[i]);
    assert AssertsHold(Next(ss[k], Step(i, a)).shared, Next(ss[k], Step(i, a)).threads[i]);
  }

  /** With the strong lifetime the count, once zero, stays zero: no promotion succeeds any more. */
  lemma {:induction false} StrongLifetimeIsNeverRevived(ss: seq<State>, ms: seq<Move>, j: nat, k: nat)
    requires Run(ss, ms) && j <= k < |ss|
    requires !ss[j].shared.extended && ss[j].shared.mStrong == 0
    ensures !ss[k].shared.extended && ss[k].shared.mStrong == 0
    ensures forall i :: 0 <= i < |ss[k].threads| ==> Weight(Strongs, ss[k].threads[i]) == 0
    decreases k
  {
    hide Inv, Legal, Next, Races, Init, Enabled;
    if j < k {
      StrongLifetimeIsNeverRevived(ss, ms, j, k - 1);
      RunInv(ss, ms, k - 1);
      assert Follows(ss[k - 1], ms[k - 1], ss[k]);
      StaysAtZero(ss[k - 1], ms[k - 1]);
    }
    RunInv(ss, ms, k);
    forall i | 0 <= i < |ss[k].threads|
      ensures Weight(Strongs, ss[k].threads[i]) == 0
    {
      NoStrongsAtZero(ss[k], i);
    }
  }

  lemma NoStrongsAtZero(s: State, i: nat)
    requires Inv(s) && i < |s.threads| && s.shared.mStrong == 0
    ensures Weight(Strongs, s.threads[i]) == 0
  {
    hide Total;
    TotalCovers(s.threads, i);
  }

  lemma StaysAtZero(s: State, m: Move)
    requires Inv(s) && Legal(s) && Enabled(s, m)
    requires !s.shared.extended && s.shared.mStrong == 0
    ensures !Next(s, m).shared.extended && Next(s, m).shared.mStrong == 0
  {
    hide Total, LifetimeInv, CountsInv;
    var t := s.threads[m.i];
    assert ThreadInv(s.shared, t) && AssertsHold(s.shared, t);
    NoStrongsAtZero(s, m.i);
  }

  // ------------------------------------------------------------ the race that must be excluded

  /** A racing fix-up and the pending incStrong subtract the bias twice, so the count ends 2^28
      below the number of strong references. */
  lemma RaceSubtractsTwice(s: State, m: Move) returns (j: nat)
    requires Inv(s) && Legal(s) && Enabled(s, m) && Races(s, m)
    ensures Enabled(Next(s, m), Step(j, Continue))
    ensures var s' := Next(Next(s, m), Step(j, Continue));
      && s'.shared.unbiasings == 2
      && s'.shared.mStrong == Total(Strongs, s'.threads) - INITIAL_STRONG_VALUE < 0
  {
    hide LifetimeInv, Total;
    j := UnbiasingThread(s.threads);
    var t := Acquired(Local(s.shared, s.threads[m.i])).t;
    var ts := s.threads[m.i := t];
    TotalUpdate(s.threads, m.i, t);
    TotalUpdate(ts, j, Acquired(Local(s.shared, ts[j])).t);
  }

  lemma UnbiasingThread(ts: seq<Thread>) returns (j: nat)
    requires Total(Unbiasing, ts) > 0
    ensures j < |ts| && ts[j].pc == Unbias
  {
    j := SumWitness(Weight, Unbiasing, ts);
  }

  /** Under either lifetime runs reach such a race: the creator hands out a weak reference before
      its first incStrong. */
  lemma RaceIsReachable(s: State) returns (ss: seq<State>, ms: seq<Move>, m: Move)
    requires Init(s) && |s.threads| == 2
    ensures Run(ss, ms) && ss[0] == s && Enabled(ss[|ms|], m) && Races(ss[|ms|], m)
  {
    hide Run, Legal, Next, Enabled, Races, Init, Total, At;
    var n := INITIAL_STRONG_VALUE;
    ss, ms := FirstIncStrongPending(s);
    ss, ms := Extend(ss, ms, 1, StartAttempt, Pending(s, n + 1, 3, Idle), Pending(s, n + 1, 3, AttemptIncWeak));
    ss, ms := Extend(ss, ms, 1, Continue, Pending(s, n + 1, 3, AttemptIncWeak), Pending(s, n + 1, 4, AttemptRead));
    ss, ms := Extend(ss, ms, 1, Continue, Pending(s, n + 1, 4, AttemptRead), Pending(s, n + 1, 4, AttemptEasy(n + 1)));
    ss, ms := Extend(ss, ms, 1, Continue, Pending(s, n + 1, 4, AttemptEasy(n + 1)), Pending(s, n + 2, 4, FixRead));
    ss, ms := Extend(ss, ms, 1, Continue, Pending(s, n + 2, 4, FixRead), Pending(s, n + 2, 4, FixLoop(n + 2)));
    m := Step(1, Continue);
    FixUpRaces(ss, ms, Pending(s, n + 2, 4, FixLoop(n + 2)));
  }

  /** The shared fields and the two threads of a small state. */
  datatype Pair = Pair(g: Shared, t0: Thread, t1: Thread)

  function Of(p: Pair, i: nat): Local
    requires i < 2
  {
    Local(p.g, if i == 0 then p.t0 else p.t1)
  }

  ghost predicate At(ss: seq<State>, ms: seq<Move>, p: Pair) {
    |ss| == |ms| + 1 && ss[|ms|] == State(p.g, [p.t0, p.t1])
  }

  /** Thread 0 is between the two accesses of the first incStrong, thread 1 at pc. */
  function Pending(s: State, mStrong: int, mWeak: int, pc: Pc): Pair
    requires |s.threads| == 2
  {
    Pair(s.shared.(mStrong := mStrong, mWeak := mWeak),
         s.threads[0].(pc := Unbias, weak := 1, raw := NoRaw), s.threads[1].(pc := pc, weak := 1))
  }

  /** Thread 0, the creator, is at pc. */
  function Created(s: State, mWeak: int, pc: Pc, weak: nat, raw: Raw, otherWeak: nat): Pair
    requires |s.threads| == 2
  {
    Pair(s.shared.(mWeak := mWeak), s.threads[0].(pc := pc, weak := weak, raw := raw),
         s.threads[1].(weak := otherWeak))
  }

  lemma FixUpRaces(ss: seq<State>, ms: seq<Move>, p: Pair)
    requires At(ss, ms, p) && p.t0.pc == Unbias && FixesUp(Local(p.g, p.t1))
    ensures Enabled(ss[|ms|], Step(1, Continue)) && Races(ss[|ms|], Step(1, Continue))
  {
    hide Sum;
    SumCovers(Weight, Unbiasing, ss[|ms|].threads, 0);
  }

  predicate IsCreation(s: State) {
    && |s.threads| == 2 && s.shared.mStrong == INITIAL_STRONG_VALUE
    && s.threads[0].strong == 0 && s.threads[1].strong == 0 && s.threads[1].raw == NoRaw
    && s.threads[1].pc == Idle
  }

  lemma FirstIncStrongPending(s: State) returns (ss: seq<State>, ms: seq<Move>)
    requires Init(s) && |s.threads| == 2
    ensures IsCreation(s) && Run(ss, ms) && ss[0] == s
    ensures At(ss, ms, Pending(s, INITIAL_STRONG_VALUE + 1, 3, Idle))
  {
    hide Run, Legal, Next, Enabled, Init, Total, At;
    ss, ms := WeakReferenceHandedOut(s);
    var b := BesideWeak;
    ss, ms := Extend(ss, ms, 0, StartRawIncStrong,
                     Created(s, 2, Idle, 1, b, 1), Created(s, 2, IncStrongWeak(true), 1, b, 1));
    ss, ms := Extend(ss, ms, 0, Continue,
                     Created(s, 2, IncStrongWeak(true), 1, b, 1), Created(s, 3, IncStrong(true), 1, NoRaw, 1));
    ss, ms := Extend(ss, ms, 0, Continue,
                     Created(s, 3, IncStrong(true), 1, NoRaw, 1), Pending(s, INITIAL_STRONG_VALUE + 1, 3, Idle));
  }

  lemma WeakReferenceHandedOut(s: State) returns (ss: seq<State>, ms: seq<Move>)
    requires Init(s) && |s.threads| == 2
    ensures IsCreation(s) && Run(ss, ms) && ss[0] == s && At(ss, ms, Created(s, 2, Idle, 1, BesideWeak, 1))
  {
    hide Run, Legal, Next, Enabled, Init, Total, At;
    ss, ms := CreationIsRun(s);
    var b := BesideWeak;
    ss, ms := Extend(ss, ms, 0, CreateWeak, Created(s, 0, Idle, 0, Unshared, 0), Created(s, 1, Idle, 1, b, 0));
    ss, ms := Extend(ss, ms, 0, CreateWeak, Created(s, 1, Idle, 1, b, 0), Created(s, 2, Idle, 2, b, 0));
    ss, ms := ExtendGiving(ss, ms, Created(s, 2, Idle, 2, b, 0), Created(s, 2, Idle, 1, b, 1));
  }

  lemma CreationIsRun(s: State) returns (ss: seq<State>, ms: seq<Move>)
    requires Init(s) && |s.threads| == 2
    ensures IsCreation(s) && Run(ss, ms) && ss[0] == s && At(ss, ms, Created(s, 0, Idle, 0, Unshared, 0))
  {
    hide Legal, Next;
    ss, ms := [s], [];
    assert s.threads == [s.threads[0], s.threads[1]];
    PairIsLegal(s);
  }

  predicate Small(p: Pair) {
    && p.g.mStrong > 0
    && Weight(Strongs, p.t0) + Weight(Strongs, p.t1) < 10 && Weight(Weaks, p.t0) + Weight(Weaks, p.t1) < 10
  }

  lemma PairIsLegal(s: State)
    requires |s.threads| == 2 && Small(Pair(s.shared, s.threads[0], s.threads[1]))
    ensures Legal(s)
  {
    PairTotal(s.threads, Strongs);
    PairTotal(s.threads, Weaks);
    hide Total;
  }

  lemma PairTotal(ts: seq<Thread>, k: Kind)
    requires |ts| == 2
    ensures Total(k, ts) == Weight(k, ts[0]) + Weight(k, ts[1])
  {
    assert ts[1..][1..] == [];
    assert Sum(Weight, k, ts[1..]) == Weight(k, ts[1]);
  }

  /** One more step of thread i. */
  lemma Extend(ss: seq<State>, ms: seq<Move>, i: nat, a: Action, p: Pair, q: Pair)
    returns (ss': seq<State>, ms': seq<Move>)
    requires Run(ss, ms) && At(ss, ms, p) && i < 2
    requires CanAct(Of(p, i), a) && Act(Of(p, i), a) == Of(q, i) && !Of(p, i).t.pc.FixLoop?
    requires Of(q, 1 - i).t == Of(p, 1 - i).t && Small(q)
    ensures Run(ss', ms') && At(ss', ms', q) && ss'[0] == ss[0]
  {
    hide Act, Legal, Total, Run;
    var s' := State(q.g, [q.t0, q.t1]);
    PairIsLegal(s');
    assert Next(ss[|ms|], Step(i, a)).threads == s'.threads;
    assert Follows(ss[|ms|], Step(i, a), s');
    hide Follows;
    ss', ms' := ExtendRun(ss, ms, Step(i, a), s');
  }

  /** Thread 0 hands one of its weak references to thread 1. */
  lemma ExtendGiving(ss: seq<State>, ms: seq<Move>, p: Pair, q: Pair)
    returns (ss': seq<State>, ms': seq<Move>)
    requires Run(ss, ms) && At(ss, ms, p) && p.t0.pc == Idle && p.t0.weak > 0 && Small(q)
    requires q == Pair(p.g, p.t0.(weak := p.t0.weak - 1), p.t1.(weak := p.t1.weak + 1))
    ensures Run(ss', ms') && At(ss', ms', q) && ss'[0] == ss[0]
  {
    hide Run, Legal, Total;
    var s' := State(q.g, [q.t0, q.t1]);
    PairIsLegal(s');
    assert Next(ss[|ms|], GiveWeak(0, 1)).threads == s'.threads;
    assert Follows(ss[|ms|], GiveWeak(0, 1), s');
    hide Follows;
    ss', ms' := ExtendRun(ss, ms, GiveWeak(0, 1), s');
  }

  lemma ExtendRun(ss: seq<State>, ms: seq<Move>, m: Move, s': State) returns (ss': seq<State>, ms': seq<Move>)
    requires |ss| == |ms| + 1 && Run(ss, ms) && Follows(ss[|ms|], m, s')
    ensures Run(ss', ms') && ss' == ss + [s'] && ms' == ms + [m]
  {
    hide Follows, Legal, Init;
    ss', ms' := ss + [s'], ms + [m];
    forall k | 0 <= k < |ms'|
      ensures Follows(ss'[k], ms'[k], ss'[k + 1])
    {
      if k < |ms| {
        assert Follows(ss[k], ms[k], ss[k + 1]);
      }
    }
  }
}
