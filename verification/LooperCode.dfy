/** pollInner as code on the fields of a looper.  Between any two of its accesses the clock advances and senders,
    other callers and message handlers make any moves of the protocol, of which finitely many are still to come. */
module LooperCode {
  import opened MessageQueue
  import opened LooperProtocol
  import opened Wrappers

  /** The moves of all others. */
  predicate ByOthers(a: Action) { a.Tick? || a.Send? || a.CallWake? || a.Wake? || a.Remove? }

  lemma OthersKeep(s: State, a: Action)
    requires Enabled(s, a) && ByOthers(a)
    ensures var s' := Apply(s, a);
      && s'.pc == s.pc && s'.next == s.next && s'.sending == s.sending && s.clock <= s'.clock
      && s'.delivered == s.delivered
      && s.pending - (if a.Wake? then 1 else 0) <= s'.pending && s'.pipe <= s.pipe + 1 && |s'.queue| <= |s.queue| + 1
  {
    if a.Remove? {
      WithoutShrinks(s.queue, a.drop);
    }
  }

  lemma {:induction false} WithoutShrinks(q: seq<Envelope>, drop: Envelope -> bool)
    ensures |Without(q, drop)| <= |q|
  {
    if q != [] {
      WithoutShrinks(q[1..], drop);
    }
  }

  class Looper {
    const messages: Queue
    var pipe: nat
    var pending: nat
    var clock: int
    var sent: nat
    var everSent: multiset<Envelope>
    var removed: multiset<Envelope>
    var delivered: seq<Delivery>
    /** Where the polling thread is, and how many moves the others have left. */
    var pc: Pc
    var budget: nat
    ghost var visited: seq<State>

    function Now(): State
      reads this, messages
    {
      State(pc, clock, messages.mMessageEnvelopes, messages.mNextMessageUptime, messages.mSendingMessage, pipe, pending,
            sent, everSent, removed, delivered)
    }

    ghost predicate Valid()
      reads this, messages
    {
      Follows(visited) && visited[|visited| - 1] == Now()
    }

    constructor (clock: int, budget: nat)
      ensures Valid() && fresh(messages) && this.clock == clock && this.budget == budget && pc == Outside
    {
      messages := new Queue();
      pipe, pending, sent := 0, 0, 0;
      everSent, removed, delivered := multiset{}, multiset{}, [];
      this.clock, this.budget, pc := clock, budget, Outside;
      new;
      visited := [Now()];
    }

    /** One move of the protocol; the caller has brought the fields up to date. */
    ghost method Record(was: State, a: Action)
      requires Follows(visited) && visited[|visited| - 1] == was && Enabled(was, a) && Now() == Apply(was, a)
      modifies `visited
      ensures Valid() && visited == old(visited) + [Now()]
    {
      hide Apply, Enabled, Follows;
      visited := FollowsMore(visited, a);
    }

    /** The others make any of their remaining moves; so many of the writes to come are not theirs. */
    method Interfere(own: nat := 0)
      requires Valid() && own <= pending
      modifies this, messages
      ensures Valid() && old(visited) <= visited && pc == old(pc) && old(clock) <= clock
      ensures messages.mNextMessageUptime == old(messages.mNextMessageUptime)
      ensures messages.mSendingMessage == old(messages.mSendingMessage) && delivered == old(delivered)
      ensures budget <= old(budget) && pipe + budget <= old(pipe + budget) && own <= pending
      ensures old(budget) == 0 ==> unchanged(this, messages)
      ensures |messages.mMessageEnvelopes| + budget <= |old(messages.mMessageEnvelopes)| + old(budget)
    {
      hide Apply, Enabled, Follows;
      while budget > 0
        invariant Valid() && old(visited) <= visited && pc == old(pc) && old(clock) <= clock
        invariant messages.mNextMessageUptime == old(messages.mNextMessageUptime)
        invariant messages.mSendingMessage == old(messages.mSendingMessage) && delivered == old(delivered)
        invariant budget <= old(budget) && pipe + budget <= old(pipe + budget) && own <= pending
        invariant old(budget) == 0 ==> unchanged(this, messages)
        invariant |messages.mMessageEnvelopes| + budget <= |old(messages.mMessageEnvelopes)| + old(budget)
        decreases budget
      {
        var go: bool := *;
        var a: Action := *;
        var s := Now();
        if !go || !ByOthers(a) || !Enabled(s, a) || (a.Wake? && pending <= own) {
          break;
        }
        OthersKeep(s, a);
        Become(Apply(s, a));
        budget := budget - 1;
        Record(s, a);
      }
    }

    /** The fields others may change. */
    method Become(s: State)
      requires s.pc == pc && s.next == messages.mNextMessageUptime && s.sending == messages.mSendingMessage
      modifies `pipe, `pending, `clock, `sent, `everSent, `removed, `delivered, messages`mMessageEnvelopes
      ensures Now() == s
    {
      pipe, pending, clock, sent := s.pipe, s.pending, s.clock, s.sent;
      everSent, removed, delivered := s.messages, s.removed, s.delivered;
      messages.mMessageEnvelopes := s.queue;
    }

    // ---------------------------------------------------------- senders and removers

    /** sendMessageAtTime, from any thread that does not hold the lock: visited[at] is the state in which the
        message has just been queued. */
    method SendMessageAtTime(uptime: int, handler: int, what: int) returns (woken: bool, ghost at: nat)
      requires Valid() && !Locked(pc)
      modifies this, messages
      ensures Valid() && old(visited) <= visited && pc == old(pc) && |old(visited)| <= at < |visited|
      ensures Queued(visited[at - 1], visited[at], uptime, handler, what)
      ensures woken <==> !visited[at - 1].sending && FirstDue(visited[at - 1].queue, uptime)
      ensures old(budget) == 0 ==> at == |old(visited)| && messages.mMessageEnvelopes == visited[at].queue
      ensures woken ==> pipe > 0
      ensures old(budget) == 0 ==> pending == old(pending) && (!woken ==> pipe == old(pipe))
    {
      hide Follows, Queued, FirstDue;
      Interfere();
      HasBegun(visited);
      at := |visited|;
      assert visited[at - 1] == Now();
      woken := QueueMessage(uptime, handler, what);
      if woken {
        WriteByte();
      }
    }

    /** The part of sendMessageAtTime that holds the lock. */
    method QueueMessage(uptime: int, handler: int, what: int) returns (wake: bool)
      requires Valid() && !Locked(pc)
      modifies this, messages
      ensures Valid() && visited == old(visited) + [Now()] && pc == old(pc) && budget == old(budget)
      ensures Queued(old(Now()), Now(), uptime, handler, what)
      ensures wake <==> !old(messages.mSendingMessage) && FirstDue(old(messages.mMessageEnvelopes), uptime)
      ensures pipe == old(pipe) && pending == old(pending) + if wake then 1 else 0
    {
      hide Follows, Enqueue, Position, FirstDue;
      var was := Now();
      var e := Envelope(uptime, handler, what, sent);
      FirstIsSoonest(visited, uptime);
      EnqueueAdds(was.queue, e);
      wake := messages.SendMessageAtTime(e);
      sent, everSent, pending := sent + 1, everSent + multiset{e}, pending + if wake then 1 else 0;
      Record(was, Send(e));
    }

    /** From s to s' the message has been queued in its place, with the next stamp. */
    predicate Queued(s: State, s': State, uptime: int, handler: int, what: int) {
      s'.queue == Enqueue(s.queue, Envelope(uptime, handler, what, s.sent)) && s'.sent == s.sent + 1
    }

    /** The time is before those of all messages in the queue. */
    predicate FirstDue(q: seq<Envelope>, uptime: int) { forall m :: m in q ==> uptime < m.uptime }

    /** The write of wake; it may fail while the pipe is full. */
    method WriteByte()
      requires Valid() && pending > 0
      modifies this, messages
      ensures Valid() && old(visited) <= visited && pc == old(pc) && pipe > 0
      ensures old(budget) == 0 ==>
        && messages.mMessageEnvelopes == old(messages.mMessageEnvelopes) && clock == old(clock)
        && delivered == old(delivered) && old(pipe) <= pipe && pending == old(pending) - 1
    {
      hide Follows;
      Interfere(1);
      var was := Now();
      var full: bool := *;
      full := full && pipe > 0;
      pending := pending - 1;
      pipe := pipe + if full then 0 else 1;
      Record(was, Wake(full));
    }

    /** wake, called by anyone. */
    method WakeUp()
      requires Valid()
      modifies this, messages
      ensures Valid() && old(visited) <= visited && pc == old(pc) && pipe > 0
      ensures old(budget) == 0 ==> messages.mMessageEnvelopes == old(messages.mMessageEnvelopes)
    {
      hide Follows;
      Interfere();
      var was := Now();
      pending := pending + 1;
      Record(was, CallWake);
      WriteByte();
    }

    /** removeMessages, with or without a restriction to one kind of message: visited[at] is the state in which
        the messages have just been removed. */
    method RemoveMessages(handler: int, what: Option<int>) returns (ghost at: nat)
      requires Valid() && !Locked(pc)
      modifies this, messages
      ensures Valid() && old(visited) <= visited && pc == old(pc) && at + 1 == |visited| && |old(visited)| <= at
      ensures forall e :: e in visited[at].queue <==> e in visited[at - 1].queue && !Matches(e, handler, what)
      ensures old(budget) == 0 ==> at == |old(visited)|
    {
      hide Follows, Without, Matches;
      var drop := (e: Envelope) => Matches(e, handler, what);
      Interfere();
      HasBegun(visited);
      at := |visited|;
      assert visited[at - 1] == Now();
      DropMessages(drop);
      WithoutIs(visited[at - 1].queue, drop);
    }

    predicate Matches(e: Envelope, handler: int, what: Option<int>) {
      e.handler == handler && (what == None || what == Some(e.what))
    }

    method DropMessages(drop: Envelope -> bool)
      requires Valid() && !Locked(pc)
      modifies this, messages
      ensures Valid() && visited == old(visited) + [Now()] && pc == old(pc)
      ensures messages.mMessageEnvelopes == Without(old(messages.mMessageEnvelopes), drop)
    {
      hide Follows, Without;
      var was := Now();
      messages.RemoveMessages(drop);
      removed := removed + multiset(Without(was.queue, Not(drop)));
      Record(was, Remove(drop));
    }

    lemma HasBegun(run: seq<State>)
      requires Follows(run)
      ensures |run| > 0
    {
    }

    /** The place of a new message is the head exactly if the message is due before all others. */
    lemma FirstIsSoonest(run: seq<State>, uptime: int)
      requires Follows(run)
      ensures Position(run[|run| - 1].queue, uptime) == 0 <==> FirstDue(run[|run| - 1].queue, uptime)
    {
      hide Next;
      RunInv(run);
      var q := run[|run| - 1].queue;
      if Position(q, uptime) == 0 {
        forall m | m in q
          ensures uptime < m.uptime
        {
          HeadIsFirst(q, m);
        }
      } else {
        assert q[0] in q;
      }
    }

    // ---------------------------------------------------------- pollInner

    /** The timeout, cut to when the next message is due; mNextMessageUptime is read without the lock. */
    method AdjustTimeout(timeoutMillis: int)
      requires Valid() && pc.Outside?
      modifies this, messages
      ensures Valid() && old(visited) <= visited && old(clock) <= clock && pc.Entering? && pc.user == timeoutMillis
      ensures delivered == old(delivered)
    {
      hide Follows;
      Interfere();
      var was := Now();
      var timeout := timeoutMillis;
      if timeoutMillis != 0 && messages.mNextMessageUptime != LLONG_MAX {
        var message := ToMillisecondTimeoutDelay(clock, messages.mNextMessageUptime);
        if message >= 0 && (timeout < 0 || message < timeout) {
          timeout := message;
        }
      }
      pc := Entering(timeoutMillis, timeout, clock);
      Record(was, Poll(timeoutMillis));
    }

    method BeginWait()
      requires Valid() && pc.Entering?
      modifies this, messages
      ensures Valid() && old(visited) <= visited && old(clock) <= clock && pc.Waiting? && delivered == old(delivered)
    {
      hide Follows;
      Interfere();
      var was := Now();
      pc := Waiting(pc.user, pc.timeout, pc.read, clock);
      Record(was, Enter);
    }

    /** Returns whether the wake pipe is readable; other descriptors and signals end the wait too. */
    method EpollWait() returns (event: bool)
      requires Valid() && pc.Waiting?
      modifies this, messages
      ensures Valid() && old(visited) <= visited && old(clock) <= clock && pc == Returned(event)
      ensures delivered == old(delivered)
    {
      hide Follows;
      Interfere();
      var was := Now();
      event := *;
      event := event && pipe > 0;
      var timedOut := pipe == 0 && pc.timeout >= 0 && Deadline(pc) <= clock;
      pc := Returned(event);
      Record(was, if timedOut then TimeOut else Return(event));
    }

    /** Reads the pipe until a read does not fill the buffer, which leaves it empty.  The lock is held. */
    method Awoken()
      requires Valid() && pc.Draining?
      modifies this, messages
      ensures Valid() && old(visited) <= visited && old(clock) <= clock && pc.Dispatching?
      ensures pipe == 0 && messages.mNextMessageUptime == LLONG_MAX
      ensures delivered == old(delivered)
    {
      hide Follows;
      var nRead := BUFFER;
      while nRead == BUFFER
        invariant Valid() && old(visited) <= visited && old(clock) <= clock && delivered == old(delivered)
        invariant if nRead == BUFFER then pc.Draining?
          else pc.Dispatching? && pipe == 0 && messages.mNextMessageUptime == LLONG_MAX
        decreases pipe + budget, nRead
      {
        nRead := ReadPipe();
      }
    }

    /** One read, of as many bytes as there are and the buffer holds. */
    method ReadPipe() returns (nRead: nat)
      requires Valid() && pc.Draining?
      modifies this, messages
      ensures Valid() && old(visited) <= visited && old(clock) <= clock && delivered == old(delivered)
      ensures nRead == BUFFER ==> pc.Draining? && pipe + budget < old(pipe + budget)
      ensures nRead != BUFFER ==>
        nRead < BUFFER && pc.Dispatching? && pipe == 0 && messages.mNextMessageUptime == LLONG_MAX
      ensures pipe + budget <= old(pipe + budget)
    {
      hide Follows;
      Interfere();
      var was := Now();
      nRead := if pipe >= BUFFER then BUFFER else pipe;
      pipe := pipe - nRead;
      if nRead < BUFFER {
        pc := Dispatching;
        messages.mNextMessageUptime := LLONG_MAX;
      }
      Record(was, Read);
    }

    /** Takes the lock and handles the event. */
    method LockAndHandle(event: bool)
      requires Valid() && pc == Returned(event)
      modifies this, messages
      ensures Valid() && old(visited) <= visited && old(clock) <= clock && pc.Dispatching?
      ensures messages.mNextMessageUptime == LLONG_MAX
      ensures delivered == old(delivered)
    {
      hide Follows;
      Interfere();
      var was := Now();
      if event {
        pc := Draining;
        Record(was, Lock);
        Awoken();
      } else {
        pc := Dispatching;
        messages.mNextMessageUptime := LLONG_MAX;
        Record(was, Lock);
      }
    }

    /** One round of the dispatch loop: more tells whether a handler was called. */
    method DispatchOne() returns (more: bool)
      requires Valid() && pc.Dispatching? && messages.mNextMessageUptime == LLONG_MAX
      modifies this, messages
      ensures Valid() && old(visited) <= visited && old(clock) <= clock && old(delivered) <= delivered
      ensures |messages.mMessageEnvelopes| + budget + (if more then 1 else 0)
           <= |old(messages.mMessageEnvelopes)| + old(budget)
      ensures if more then pc.Dispatching? && messages.mNextMessageUptime == LLONG_MAX else pc.Outside? && Idle()
    {
      hide Follows;
      more := TakeHead();
      if more {
        HandleMessage();
      }
    }

    /** With the lock held: takes the head if it is due and lets go of the lock, or ends the loop. */
    method TakeHead() returns (taken: bool)
      requires Valid() && pc.Dispatching? && messages.mNextMessageUptime == LLONG_MAX
      modifies this, messages
      ensures Valid() && old(visited) <= visited && old(clock) <= clock && old(delivered) <= delivered
      ensures |messages.mMessageEnvelopes| + budget + (if taken then 1 else 0)
           <= |old(messages.mMessageEnvelopes)| + old(budget)
      ensures if taken then pc.Handling? && messages.mNextMessageUptime == LLONG_MAX else pc.Outside? && Idle()
    {
      hide Follows;
      Interfere();
      var was := Now();
      var due := messages.TakeDue(clock);
      taken := due.Some?;
      if taken {
        delivered := delivered + [Delivery(due.value, clock, sent)];
        pc := Handling;
      } else {
        pc := Outside;
      }
      Record(was, Dispatch);
    }

    /** The handler runs without the lock, which is taken again afterwards. */
    method HandleMessage()
      requires Valid() && pc.Handling?
      modifies this, messages
      ensures Valid() && old(visited) <= visited && old(clock) <= clock && delivered == old(delivered)
      ensures |messages.mMessageEnvelopes| + budget <= |old(messages.mMessageEnvelopes)| + old(budget)
      ensures pc.Dispatching? && messages.mNextMessageUptime == old(messages.mNextMessageUptime)
    {
      hide Follows;
      Interfere();
      var was := Now();
      messages.mSendingMessage := false;
      pc := Dispatching;
      Record(was, Handled);
    }

    /** The queue is empty and no message noted, or its head is not due yet and is noted as the next one. */
    predicate Idle()
      reads this, messages
    {
      if messages.mMessageEnvelopes == [] then messages.mNextMessageUptime == LLONG_MAX
      else
        && clock < messages.mMessageEnvelopes[0].uptime
        && messages.mNextMessageUptime == messages.mMessageEnvelopes[0].uptime
    }

    /** Whatever the others do, the poll returns if its wait does; then no message due by then is left in the queue. */
    method PollInner(timeoutMillis: int)
      requires Valid() && pc.Outside?
      modifies this, messages
      ensures Valid() && old(visited) <= visited && pc.Outside? && old(clock) <= clock
      ensures Idle() && !messages.mSendingMessage && old(delivered) <= delivered
      ensures forall e :: e in messages.mMessageEnvelopes ==> clock < e.uptime
    {
      hide Follows, Ordered;
      AdjustTimeout(timeoutMillis);
      BeginWait();
      var event := EpollWait();
      LockAndHandle(event);
      var more := true;
      while more
        invariant Valid() && old(visited) <= visited && old(clock) <= clock && old(delivered) <= delivered
        invariant if more then pc.Dispatching? && messages.mNextMessageUptime == LLONG_MAX else pc.Outside? && Idle()
        decreases |messages.mMessageEnvelopes| + budget, more
      {
        more := DispatchOne();
      }
      NothingDueLeft(visited);
    }

    lemma NothingDueLeft(run: seq<State>)
      requires Follows(run)
      ensures var s := run[|run| - 1];
        && (s.pc.Outside? ==> !s.sending)
        && (s.queue != [] && s.clock < s.queue[0].uptime ==> forall e :: e in s.queue ==> s.clock < e.uptime)
    {
      RunInv(run);
      var s := run[|run| - 1];
      if s.queue != [] && s.clock < s.queue[0].uptime {
        forall e | e in s.queue
          ensures s.clock < e.uptime
        {
          var k :| 0 <= k < |s.queue| && s.queue[k] == e;
          assert k == 0 || Before(s.queue[0], s.queue[k]);
        }
      }
    }
  }
}
