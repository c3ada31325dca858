/** The message queue of a looper: stable insertion by time, removal, dispatch, and the poll timeout. */
module MessageQueue {
  import opened Wrappers

  const INT_MAX: int := 0x7fff_ffff
  const LLONG_MAX: int := 0x7fff_ffff_ffff_ffff
  const MILLISECOND: int := 1_000_000
  const LONGEST_DELAY: int := (INT_MAX - 1) * MILLISECOND

  /** stamp is the place of the message in the order in which messages were sent. */
  datatype Envelope = Envelope(uptime: int, handler: int, what: int, stamp: nat)

  /** The order of delivery: by time, and by the order of sending among equal times. */
  predicate Before(a: Envelope, b: Envelope) {
    a.uptime < b.uptime || (a.uptime == b.uptime && a.stamp < b.stamp)
  }

  ghost predicate Ordered(q: seq<Envelope>) {
    forall i, j :: 0 <= i < j < |q| ==> Before(q[i], q[j])
  }

  function Position(q: seq<Envelope>, uptime: int): (p: nat)
    ensures p <= |q|
    ensures forall i :: 0 <= i < p ==> q[i].uptime <= uptime
    ensures p < |q| ==> uptime < q[p].uptime
  {
    if q == [] || uptime < q[0].uptime then 0 else 1 + Position(q[1..], uptime)
  }

  function Enqueue(q: seq<Envelope>, e: Envelope): seq<Envelope> {
    var p := Position(q, e.uptime);
    q[..p] + [e] + q[p..]
  }

  /** The messages a removal keeps, in their order. */
  function Without(q: seq<Envelope>, drop: Envelope -> bool): seq<Envelope> {
    if q == [] then [] else (if drop(q[0]) then [] else [q[0]]) + Without(q[1..], drop)
  }

  function Not(drop: Envelope -> bool): Envelope -> bool { e => !drop(e) }

  lemma EnqueueKeepsOrder(q: seq<Envelope>, e: Envelope)
    requires Ordered(q) && forall i :: 0 <= i < |q| ==> q[i].stamp < e.stamp
    ensures Ordered(Enqueue(q, e))
  {
    var p := Position(q, e.uptime);
    var r := Enqueue(q, e);
    forall i, j | 0 <= i < j < |r|
      ensures Before(r[i], r[j])
    {
      if p < i {
        assert r[i] == q[i - 1] && r[j] == q[j - 1];
      } else if i == p {
        assert r[j] == q[j - 1];
        assert p == j - 1 || Before(q[p], q[j - 1]);
      } else if p < j {
        assert r[j] == q[j - 1];
      }
    }
  }

  lemma EnqueueAdds(q: seq<Envelope>, e: Envelope)
    ensures multiset(Enqueue(q, e)) == multiset(q) + multiset{e}
    ensures forall x :: x in Enqueue(q, e) <==> x == e || x in q
    ensures Enqueue(q, e)[0] == (if Position(q, e.uptime) == 0 then e else q[0])
  {
    var p := Position(q, e.uptime);
    assert q == q[..p] + q[p..];
  }

  lemma TailIsBehind(q: seq<Envelope>)
    requires Ordered(q) && q != []
    ensures Ordered(q[1..])
    ensures forall e :: e in q[1..] ==> e in q && Before(q[0], e)
    ensures multiset(q) == multiset{q[0]} + multiset(q[1..])
  {
    assert q == [q[0]] + q[1..];
    forall e | e in q[1..]
      ensures Before(q[0], e)
    {
      var k :| 0 <= k < |q[1..]| && q[1..][k] == e;
      assert q[k + 1] == e;
    }
  }

  lemma {:induction false} WithoutIs(q: seq<Envelope>, drop: Envelope -> bool)
    ensures forall e :: e in Without(q, drop) <==> e in q && !drop(e)
    ensures Ordered(q) ==> Ordered(Without(q, drop))
  {
    if q != [] {
      WithoutIs(q[1..], drop);
      if Ordered(q) {
        TailIsBehind(q);
      }
    }
  }

  lemma {:induction false} WithoutPartitions(q: seq<Envelope>, drop: Envelope -> bool)
    ensures multiset(q) == multiset(Without(q, drop)) + multiset(Without(q, Not(drop)))
  {
    if q != [] {
      WithoutPartitions(q[1..], drop);
      assert q == [q[0]] + q[1..];
    }
  }

  // ------------------------------------------------------------ timeouts

  /** Milliseconds from one time to another, rounded up, or -1 if that does not fit. */
  function ToMillisecondTimeoutDelay(reference: int, timeout: int): (millis: int)
    ensures millis == -1 <==> timeout - reference > LONGEST_DELAY
    ensures millis == 0 <==> timeout <= reference
    ensures millis > 0 ==> (millis - 1) * MILLISECOND < timeout - reference <= millis * MILLISECOND
    ensures -1 <= millis < INT_MAX
  {
    if timeout > reference then
      var delay := timeout - reference;
      if delay > LONGEST_DELAY then -1 else (delay + 999_999) / MILLISECOND
    else 0
  }

  /** The timeout passed to epoll_wait: the caller's, cut to when the next message is due. */
  function PollTimeout(timeoutMillis: int, next: int, now: int): (t: int)
    ensures timeoutMillis >= 0 ==> 0 <= t <= timeoutMillis
    ensures t < 0 <==> timeoutMillis < 0 && (next == LLONG_MAX || next - now > LONGEST_DELAY)
    ensures next != LLONG_MAX && next - now <= LONGEST_DELAY ==>
      t == 0 || (t - 1) * MILLISECOND < next - now
    ensures t == timeoutMillis || (next - now <= t * MILLISECOND && next != LLONG_MAX)
  {
    if timeoutMillis != 0 && next != LLONG_MAX then
      var message := ToMillisecondTimeoutDelay(now, next);
      if message >= 0 && (timeoutMillis < 0 || message < timeoutMillis) then message else timeoutMillis
    else timeoutMillis
  }

  // ------------------------------------------------------------ the queue

  class Queue {
    var mMessageEnvelopes: seq<Envelope>
    var mNextMessageUptime: int
    var mSendingMessage: bool

    constructor ()
      ensures mMessageEnvelopes == [] && mNextMessageUptime == LLONG_MAX && !mSendingMessage
    {
      mMessageEnvelopes, mNextMessageUptime, mSendingMessage := [], LLONG_MAX, false;
    }

    /** wake tells whether the sender goes on to wake the looper. */
    method SendMessageAtTime(e: Envelope) returns (wake: bool)
      modifies `mMessageEnvelopes
      ensures mMessageEnvelopes == Enqueue(old(mMessageEnvelopes), e)
      ensures wake <==> !mSendingMessage && mMessageEnvelopes[0] == e && Position(old(mMessageEnvelopes), e.uptime) == 0
    {
      var i, messageCount := 0, |mMessageEnvelopes|;
      while i < messageCount && e.uptime >= mMessageEnvelopes[i].uptime
        invariant 0 <= i <= messageCount
        invariant Position(mMessageEnvelopes, e.uptime) == i + Position(mMessageEnvelopes[i..], e.uptime)
      {
        assert mMessageEnvelopes[i..][1..] == mMessageEnvelopes[i + 1..];
        i := i + 1;
      }
      mMessageEnvelopes := mMessageEnvelopes[..i] + [e] + mMessageEnvelopes[i..];
      if mSendingMessage {
        return false;
      }
      return i == 0;
    }

    method RemoveMessages(drop: Envelope -> bool)
      modifies `mMessageEnvelopes
      ensures mMessageEnvelopes == Without(old(mMessageEnvelopes), drop)
    {
      ghost var q := mMessageEnvelopes;
      var i := |mMessageEnvelopes|;
      assert q[..i] == q;
      while i != 0
        invariant 0 <= i <= |q|
        invariant mMessageEnvelopes == q[..i] + Without(q[i..], drop)
      {
        i := i - 1;
        assert q[i..][1..] == q[i + 1..];
        if drop(mMessageEnvelopes[i]) {
          mMessageEnvelopes := mMessageEnvelopes[..i] + mMessageEnvelopes[i + 1..];
        }
      }
      assert q[0..] == q;
    }

    /** One round of the dispatch loop: takes the head if it is due, or else notes when it will be. */
    method TakeDue(now: int) returns (due: Option<Envelope>)
      modifies this
      ensures due.Some? <==> old(mMessageEnvelopes) != [] && old(mMessageEnvelopes)[0].uptime <= now
      ensures due.Some? ==>
        && [due.value] + mMessageEnvelopes == old(mMessageEnvelopes) && mSendingMessage
        && mNextMessageUptime == old(mNextMessageUptime)
      ensures due.None? ==>
        && mMessageEnvelopes == old(mMessageEnvelopes) && mSendingMessage == old(mSendingMessage)
        && mNextMessageUptime == (if mMessageEnvelopes == [] then old(mNextMessageUptime) else mMessageEnvelopes[0].uptime)
    {
      if |mMessageEnvelopes| != 0 {
        var head := mMessageEnvelopes[0];
        if head.uptime <= now {
          mMessageEnvelopes := mMessageEnvelopes[1..];
          mSendingMessage := true;
          return Some(head);
        }
        mNextMessageUptime := head.uptime;
      }
      return None;
    }
  }
}
