/** The wake protocol between one polling thread and any number of senders, as atomic steps. */
module LooperProtocol {
  import opened MessageQueue

  /** Bytes read from the wake pipe at a time. */
  const BUFFER: nat := 16

  /** Where the polling thread is.  It holds the lock while draining and dispatching, and a handler
      runs without it.  user is the caller's timeout, read when the clock was read, begun when the wait began. */
  datatype Pc =
    | Outside
    | Entering(user: int, timeout: int, read: int)
    | Waiting(user: int, timeout: int, read: int, begun: int)
    | Returned(drain: bool)
    | Draining
    | Dispatching
    | Handling

  /** A message handed to its handler, when, and how many messages had been sent by then. */
  datatype Delivery = Delivery(envelope: Envelope, at: int, sent: nat)

  /** pending counts the senders, and other callers of wake, that have yet to write to the wake pipe; sent,
      messages, removed and delivered record what happened to which message. */
  datatype State = State(
    pc: Pc, clock: int, queue: seq<Envelope>, next: int, sending: bool, pipe: nat, pending: nat,
    sent: nat, messages: multiset<Envelope>, removed: multiset<Envelope>, delivered: seq<Delivery>)

  datatype Action =
    | Tick(time: int)
    | Send(envelope: Envelope)
    | CallWake
    | Wake(full: bool)
    | Remove(drop: Envelope -> bool)
    | Poll(user: int)
    | Enter
    | Return(event: bool)
    | TimeOut
    | Lock
    | Read
    | Dispatch
    | Handled

  predicate Locked(pc: Pc) { pc.Draining? || pc.Dispatching? }

  /** When the wait of a polling thread ends by itself. */
  function Deadline(pc: Pc): int
    requires pc.Waiting?
  {
    pc.begun + pc.timeout * MILLISECOND
  }

  predicate Enabled(s: State, a: Action) {
    match a
    case Tick(time) => s.clock <= time
    case Send(e) => !Locked(s.pc) && e.stamp == s.sent
    case CallWake => true
    case Wake(full) => s.pending > 0 && (full ==> s.pipe > 0)
    case Remove(_) => !Locked(s.pc)
    case Poll(_) => s.pc.Outside?
    case Enter => s.pc.Entering?
    case Return(event) => s.pc.Waiting? && (event ==> s.pipe > 0)
    case TimeOut => s.pc.Waiting? && s.pipe == 0 && s.pc.timeout >= 0 && Deadline(s.pc) <= s.clock
    case Lock => s.pc.Returned?
    case Read => s.pc.Draining?
    case Dispatch => s.pc.Dispatching?
    case Handled => s.pc.Handling?
  }

  function Apply(s: State, a: Action): State
    requires Enabled(s, a)
  {
    match a
    case Tick(time) => s.(clock := time)
    case Send(e) =>
      var wake := !s.sending && Position(s.queue, e.uptime) == 0;
      s.(queue := Enqueue(s.queue, e), sent := s.sent + 1, messages := s.messages + multiset{e},
         pending := s.pending + if wake then 1 else 0)
    case CallWake => s.(pending := s.pending + 1)
    case Wake(full) => s.(pending := s.pending - 1, pipe := s.pipe + if full then 0 else 1)
    case Remove(drop) =>
      s.(queue := Without(s.queue, drop), removed := s.removed + multiset(Without(s.queue, Not(drop))))
    case Poll(user) => s.(pc := Entering(user, PollTimeout(user, s.next, s.clock), s.clock))
    case Enter => s.(pc := Waiting(s.pc.user, s.pc.timeout, s.pc.read, s.clock))
    case Return(event) => s.(pc := Returned(event))
    case TimeOut => s.(pc := Returned(false))
    case Lock => if s.pc.drain then s.(pc := Draining) else s.(pc := Dispatching, next := LLONG_MAX)
    case Read =>
      if s.pipe >= BUFFER then s.(pipe := s.pipe - BUFFER)
      else s.(pipe := 0, pc := Dispatching, next := LLONG_MAX)
    case Dispatch =>
      if s.queue == [] then s.(pc := Outside)
      else if s.queue[0].uptime <= s.clock then
        s.(pc := Handling, sending := true, queue := s.queue[1..],
           delivered := s.delivered + [Delivery(s.queue[0], s.clock, s.sent)])
      else s.(pc := Outside, next := s.queue[0].uptime)
    case Handled => s.(pc := Dispatching, sending := false)
  }

  ghost predicate Init(s: State) {
    && s.pc.Outside? && s.queue == [] && s.next == LLONG_MAX && !s.sending
    && s.pipe == 0 && s.pending == 0 && s.sent == 0
    && s.messages == multiset{} && s.removed == multiset{} && s.delivered == []
  }

  ghost predicate Follows(run: seq<State>) {
    && |run| > 0 && Init(run[0])
    && forall i :: 0 <= i < |run| - 1 ==> Next(run[i], run[i + 1])
  }

  ghost predicate Next(s: State, s': State) {
    exists a :: Enabled(s, a) && s' == Apply(s, a)
  }

  // ------------------------------------------------------------ invariants

  /** The polling thread is going to wait, or waits, without looking at the queue again. */
  predicate Committed(pc: Pc) { pc.Outside? || pc.Entering? || pc.Waiting? }

  ghost predicate NoLostWakeUp(s: State) {
    Committed(s.pc) ==> s.queue == [] || s.next <= s.queue[0].uptime || s.pipe > 0 || s.pending > 0
  }

  ghost predicate WaitMatchesNext(s: State) {
    && ((s.pc.Entering? || s.pc.Waiting?) ==> s.pc.timeout == PollTimeout(s.pc.user, s.next, s.pc.read))
    && (s.pc.Entering? ==> s.pc.read <= s.clock)
    && (s.pc.Waiting? ==> s.pc.read <= s.pc.begun <= s.clock)
  }

  ghost predicate QueueInv(s: State) {
    && Ordered(s.queue)
    && forall i :: 0 <= i < |s.queue| ==> s.queue[i].stamp < s.sent
  }

  /** e was sent after the delivery d, or comes behind it in the order of delivery. */
  ghost predicate Behind(d: Delivery, e: Envelope) {
    d.sent <= e.stamp || Before(d.envelope, e)
  }

  ghost predicate QueuedBehind(log: seq<Delivery>, q: seq<Envelope>) {
    forall i, e :: 0 <= i < |log| && e in q ==> Behind(log[i], e)
  }

  ghost predicate DeliveriesInOrder(log: seq<Delivery>) {
    forall i, j :: 0 <= i < j < |log| ==> Behind(log[i], log[j].envelope)
  }

  ghost predicate NeverEarly(log: seq<Delivery>) {
    forall i :: 0 <= i < |log| ==> log[i].envelope.uptime <= log[i].at
  }

  ghost predicate SentBound(log: seq<Delivery>, sent: nat) {
    forall i :: 0 <= i < |log| ==> log[i].sent <= sent
  }

  ghost function Envelopes(log: seq<Delivery>): multiset<Envelope> {
    if log == [] then multiset{}
    else Envelopes(log[..|log| - 1]) + multiset{log[|log| - 1].envelope}
  }

  /** Every message sent is queued, removed or delivered, exactly once. */
  ghost predicate Conserved(s: State) {
    s.messages == multiset(s.queue) + s.removed + Envelopes(s.delivered)
  }

  ghost predicate LogInv(s: State) {
    && QueuedBehind(s.delivered, s.queue) && DeliveriesInOrder(s.delivered) && NeverEarly(s.delivered)
    && SentBound(s.delivered, s.sent) && Conserved(s)
  }

  ghost predicate Inv(s: State) {
    && (s.sending <==> s.pc.Handling?)
    && NoLostWakeUp(s) && WaitMatchesNext(s) && QueueInv(s) && LogInv(s)
  }

  lemma SendKeepsQueue(s: State, e: Envelope)
    requires QueueInv(s) && e.stamp == s.sent
    ensures QueueInv(Apply(s.(pc := Outside), Send(e)))
  {
    hide Enqueue, Before, Ordered;
    EnqueueKeepsOrder(s.queue, e);
    EnqueueAdds(s.queue, e);
    var q := Enqueue(s.queue, e);
    forall i | 0 <= i < |q|
      ensures q[i].stamp <= s.sent
    {
      assert q[i] in q;
    }
  }

  lemma SendKeepsInv(s: State, a: Action)
    requires Inv(s) && Enabled(s, a) && a.Send?
    ensures Inv(Apply(s, a))
  {
    hide Enqueue, Before, QueueInv, Position, Envelopes;
    SendKeepsQueue(s, a.envelope);
    SameQueue(Apply(s, a), Apply(s.(pc := Outside), a));
    EnqueueAdds(s.queue, a.envelope);
  }

  lemma SameQueue(s: State, s': State)
    requires QueueInv(s') && s.queue == s'.queue && s.sent == s'.sent
    ensures QueueInv(s)
  {
  }

  /** What a removal keeps was in the queue, in the same order, and is due no earlier than its head. */
  lemma KeptQueue(s: State, drop: Envelope -> bool)
    requires QueueInv(s)
    ensures var q := Without(s.queue, drop);
      && Ordered(q) && (forall e :: e in q ==> e in s.queue) && (forall i :: 0 <= i < |q| ==> q[i].stamp < s.sent)
      && (q != [] ==> s.queue != [] && s.queue[0].uptime <= q[0].uptime)
  {
    hide Without, Ordered;
    WithoutIs(s.queue, drop);
    var q := Without(s.queue, drop);
    forall i | 0 <= i < |q|
      ensures q[i] in s.queue
    {
      assert q[i] in q;
    }
    if q != [] {
      HeadIsFirst(s.queue, q[0]);
    }
  }

  lemma HeadIsFirst(q: seq<Envelope>, e: Envelope)
    requires Ordered(q) && e in q
    ensures q[0].uptime <= e.uptime
  {
    var k :| 0 <= k < |q| && q[k] == e;
    assert k == 0 || Before(q[0], q[k]);
  }

  lemma RemoveKeepsInv(s: State, a: Action)
    requires Inv(s) && Enabled(s, a) && a.Remove?
    ensures Inv(Apply(s, a))
  {
    hide Without, Envelopes, Ordered, Before, Behind, DeliveriesInOrder, NeverEarly, SentBound;
    KeptQueue(s, a.drop);
    WithoutPartitions(s.queue, a.drop);
  }

  lemma DeliveryKeepsLog(log: seq<Delivery>, q: seq<Envelope>, d: Delivery, sent: nat)
    requires QueuedBehind(log, q) && DeliveriesInOrder(log) && NeverEarly(log) && SentBound(log, sent)
    requires Ordered(q) && q != [] && d.envelope == q[0] && d.sent == sent && d.envelope.uptime <= d.at
    ensures QueuedBehind(log + [d], q[1..]) && DeliveriesInOrder(log + [d])
    ensures NeverEarly(log + [d]) && SentBound(log + [d], sent)
    ensures Envelopes(log + [d]) == Envelopes(log) + multiset{d.envelope}
  {
    hide Before;
    TailIsBehind(q);
    assert q[0] in q;
    assert (log + [d])[..|log|] == log;
  }

  lemma DispatchKeepsInv(s: State, a: Action)
    requires Inv(s) && Enabled(s, a) && a.Dispatch?
    ensures Inv(Apply(s, a))
  {
    hide Before, Ordered, Envelopes, QueuedBehind, DeliveriesInOrder, NeverEarly, SentBound;
    if s.queue != [] && s.queue[0].uptime <= s.clock {
      TailIsBehind(s.queue);
      DeliveryKeepsLog(s.delivered, s.queue, Delivery(s.queue[0], s.clock, s.sent), s.sent);
    }
  }

  lemma OtherKeepsInv(s: State, a: Action)
    requires Inv(s) && Enabled(s, a) && !a.Send? && !a.Remove? && !a.Dispatch?
    ensures Inv(Apply(s, a))
  {
    hide Before, Envelopes, QueuedBehind, DeliveriesInOrder, NeverEarly, SentBound, QueueInv;
    assert QueueInv(Apply(s, a)) by { SameQueue(Apply(s, a), s); }
  }

  lemma NextKeepsInv(s: State, s': State)
    requires Inv(s) && Next(s, s')
    ensures Inv(s')
  {
    var a :| Enabled(s, a) && s' == Apply(s, a);
    if a.Send? {
      SendKeepsInv(s, a);
    } else if a.Remove? {
      RemoveKeepsInv(s, a);
    } else if a.Dispatch? {
      DispatchKeepsInv(s, a);
    } else {
      OtherKeepsInv(s, a);
    }
  }

  lemma {:induction false} RunInv(run: seq<State>)
    requires Follows(run)
    ensures Inv(run[|run| - 1])
    decreases |run|
  {
    var n := |run| - 1;
    if n > 0 {
      RunInv(run[..n]);
      assert Next(run[n - 1], run[n]);
      NextKeepsInv(run[n - 1], run[n]);
    }
  }

  // ------------------------------------------------------------ what every run keeps

  /** A wait with a message queued ends at once if a byte is in the pipe, ends when a sender writes, or
      ends by itself less than a millisecond after the time to the message has passed; and it has no
      end of its own exactly if the caller gave none and the delay noted for the head has none. */
  lemma WaitWithMessageEnds(run: seq<State>)
    requires Follows(run) && run[|run| - 1].pc.Waiting? && run[|run| - 1].queue != []
    requires run[|run| - 1].pipe == 0 && run[|run| - 1].pending == 0
    ensures var s := run[|run| - 1];
      var due := s.queue[0].uptime;
      && s.next <= due
      && (s.pc.timeout < 0 <==> s.pc.user < 0 && (s.next == LLONG_MAX || s.next - s.pc.read > LONGEST_DELAY))
      && (s.next != LLONG_MAX && s.next - s.pc.read <= LONGEST_DELAY ==>
            s.pc.timeout >= 0
            && (Deadline(s.pc) == s.pc.begun || Deadline(s.pc) < s.pc.begun + (due - s.pc.read) + MILLISECOND))
  {
    RunInv(run);
  }

  /** A wait bounded by the message at the head alone ends in time: as soon as its deadline has passed the
      message is delivered, and that is when it is due, or less than a millisecond later than the wait was late. */
  lemma MessageIsDeliveredInTime(run: seq<State>) returns (run': seq<State>)
    requires Follows(run) && run[|run| - 1].pc.Waiting? && run[|run| - 1].queue != []
    requires var s := run[|run| - 1];
      && s.pipe == 0 && s.pc.user < 0 && s.next == s.queue[0].uptime
      && s.next != LLONG_MAX && s.next - s.pc.read <= LONGEST_DELAY
    ensures Follows(run') && run <= run'
    ensures var s, s' := run[|run| - 1], run'[|run'| - 1];
      var due := s.queue[0].uptime;
      && s'.delivered == s.delivered + [Delivery(s.queue[0], s'.clock, s.sent)] && s'.queue == s.queue[1..]
      && due <= s'.clock && (s'.clock <= s.clock || s'.clock < s.pc.begun + (due - s.pc.read) + MILLISECOND
                             || s'.clock == s.pc.begun)
  {
    RunInv(run);
    hide Follows, Next, Inv;
    var s := run[|run| - 1];
    run' := FollowsMore(run, Tick(if s.clock < Deadline(s.pc) then Deadline(s.pc) else s.clock));
    run' := FollowsMore(run', TimeOut);
    run' := FollowsMore(run', Lock);
    run' := FollowsMore(run', Dispatch);
  }

  /** A wait that only messages bound does not time out before the noted message is due. */
  lemma TimeOutIsNotEarly(run: seq<State>)
    requires Follows(run) && Enabled(run[|run| - 1], TimeOut) && run[|run| - 1].pc.user < 0
    ensures run[|run| - 1].next <= run[|run| - 1].clock
  {
    RunInv(run);
  }

  /** No message is delivered early, and two deliveries are in the order of time and then of sending,
      unless the second message was sent only after the first was delivered. */
  lemma DeliveryIsOrdered(run: seq<State>, i: nat, j: nat)
    requires Follows(run) && i < j < |run[|run| - 1].delivered|
    ensures var log := run[|run| - 1].delivered;
      && log[i].envelope.uptime <= log[i].at && log[j].envelope.uptime <= log[j].at
      && (log[i].sent <= log[j].envelope.stamp || Before(log[i].envelope, log[j].envelope))
  {
    RunInv(run);
    var log := run[|run| - 1].delivered;
    assert Behind(log[i], log[j].envelope);
  }

  lemma MessagesAreConserved(run: seq<State>)
    requires Follows(run)
    ensures Conserved(run[|run| - 1])
  {
    RunInv(run);
  }

  // ------------------------------------------------------------ a wait that does not end

  lemma {:induction false} FollowsMore(run: seq<State>, a: Action) returns (run': seq<State>)
    requires Follows(run) && Enabled(run[|run| - 1], a)
    ensures Follows(run') && run' == run + [Apply(run[|run| - 1], a)]
  {
    var s := Apply(run[|run| - 1], a);
    run' := run + [s];
    assert Next(run[|run| - 1], s);
    forall i | 0 <= i < |run'| - 1
      ensures Next(run'[i], run'[i + 1])
    {
      if i < |run| - 1 {
        assert Next(run[i], run[i + 1]);
      }
    }
  }

  /** A message due in more than the longest delay: the thread ends up in a wait that only a further
      wake-up ends, although nothing else is wrong. */
  lemma LongDelaySleepsForever(s0: State, e: Envelope) returns (run: seq<State>)
    requires Init(s0) && e.stamp == 0 && s0.clock + LONGEST_DELAY < e.uptime < LLONG_MAX
    ensures Follows(run)
    ensures var s := run[|run| - 1];
      s.pc.Waiting? && s.pc.timeout < 0 && s.queue == [e] && s.pipe == 0 && s.pending == 0
  {
    hide Init, Next, Follows;
    run := SentAndWoken(s0, e);
    run := FollowsMore(run, Read);
    run := FollowsMore(run, Dispatch);
    run := FollowsMore(run, Poll(-1));
    run := FollowsMore(run, Enter);
  }

  lemma SentAndWoken(s0: State, e: Envelope) returns (run: seq<State>)
    requires Init(s0) && e.stamp == 0
    ensures Follows(run)
    ensures var s := run[|run| - 1];
      && s.pc.Draining? && s.pipe == 1 && s.pending == 0 && s.queue == [e] && s.clock == s0.clock
  {
    run := [s0];
    hide Next, Follows;
    assert Follows([s0]) by { Begins(s0); }
    run := FollowsMore(run, Send(e));
    run := FollowsMore(run, Wake(false));
    run := FollowsMore(run, Poll(-1));
    run := FollowsMore(run, Enter);
    run := FollowsMore(run, Return(true));
    run := FollowsMore(run, Lock);
  }

  lemma Begins(s0: State)
    requires Init(s0)
    ensures Follows([s0])
  {
  }
}
