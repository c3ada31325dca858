/** What each operation of RefBase does when no other thread moves while it runs, as one change of the fields. */
module RefBaseAlone {
  import opened RefBase

  /** The next access of a thread; agreed is the answer of onIncStrongAttempted. */
  function Onward(l: Local, agreed: bool): Local
    requires l.t.pc != Idle
  {
    if l.t.pc.AttemptHard? && l.g.extended && !agreed then Act(l, Refuse) else Act(l, Continue)
  }

  /** Where n accesses of a thread lead, or fewer if its operation returns before. */
  function Ahead(l: Local, agreed: bool, n: nat): Local
    decreases n
  {
    if n == 0 || l.t.pc == Idle then l else Ahead(Onward(l, agreed), agreed, n - 1)
  }

  ghost predicate Leads(l: Local, agreed: bool, l': Local) { exists n: nat :: Ahead(l, agreed, n) == l' }

  /** The operation, called in l, returns in l' if nobody else moves. */
  ghost predicate Turns(l: Local, a: Action, agreed: bool, l': Local) {
    CanAct(l, a) && Leads(Act(l, a), agreed, l') && l'.t.pc == Idle
  }

  lemma {:induction false} AheadMore(l: Local, agreed: bool, m: nat, n: nat)
    ensures Ahead(Ahead(l, agreed, m), agreed, n) == Ahead(l, agreed, m + n)
    decreases m
  {
    hide Onward;
    if m > 0 && l.t.pc != Idle {
      AheadMore(Onward(l, agreed), agreed, m - 1, n);
    }
  }

  /** An operation that runs alone has one result. */
  lemma TurnsOnce(l: Local, a: Action, agreed: bool, l1: Local, l2: Local)
    requires Turns(l, a, agreed, l1) && Turns(l, a, agreed, l2)
    ensures l1 == l2
  {
    hide Act, CanAct, Onward;
    var m: nat :| Ahead(Act(l, a), agreed, m) == l1;
    var n: nat :| Ahead(Act(l, a), agreed, n) == l2;
    if m <= n {
      AheadMore(Act(l, a), agreed, m, n - m);
    } else {
      AheadMore(Act(l, a), agreed, n, m - n);
    }
  }

  lemma Here(l: Local, agreed: bool)
    ensures Leads(l, agreed, l)
  {
    assert Ahead(l, agreed, 0) == l;
  }

  lemma Then(l: Local, agreed: bool, l': Local)
    requires l.t.pc != Idle && Leads(Onward(l, agreed), agreed, l')
    ensures Leads(l, agreed, l')
  {
    hide Onward;
    var n: nat :| Ahead(Onward(l, agreed), agreed, n) == l';
    assert Ahead(l, agreed, n + 1) == l';
  }

  function Plus(b: bool): nat { if b then 1 else 0 }

  // ------------------------------------------------------------ parts of operations

  /** ~RefBase, called for its last count by decWeak or with a count of zero by decStrong. */
  lemma DestructorAlone(l: Local, agreed: bool, l': Local)
    requires l.t.pc.DtorReadStrong?
    requires var frees := l.g.mStrong == INITIAL_STRONG_VALUE || (l.g.extended && l.g.mWeak == 0);
      Leads(Returned(l.(g := l.g.(implDeletes := l.g.implDeletes + Plus(frees))), l.t.pc.last), agreed, l')
    ensures Leads(l, agreed, l')
  {
    hide Leads;
    var l1 := Onward(l, agreed);
    if l1.t.pc.DtorReadWeak? {
      var l2 := Onward(l1, agreed);
      if l2.t.pc.DtorDeleteImpl? {
        Then(l2, agreed, l');
      }
      Then(l1, agreed, l');
    } else if l1.t.pc.DtorDeleteImpl? {
      Then(l1, agreed, l');
    }
    Then(l, agreed, l');
  }

  /** decWeak gives up one count; the last one takes the impl along, and the object unless it has gone before. */
  lemma DecWeakAlone(l: Local, agreed: bool)
    requires l.t.pc == DecWeak
    ensures var dead := l.g.mWeak == 1;
      var withObject := dead && (l.g.extended || l.g.mStrong == INITIAL_STRONG_VALUE);
      Leads(l, agreed,
            Local(l.g.(mWeak := l.g.mWeak - 1, objectDeletes := l.g.objectDeletes + Plus(withObject),
                       implDeletes := l.g.implDeletes + Plus(dead)),
                  l.t.(pc := Idle)))
  {
    hide Leads;
    var l1 := Onward(l, agreed);
    var end := Local(l.g.(mWeak := l.g.mWeak - 1, implDeletes := l.g.implDeletes + Plus(l.g.mWeak == 1),
                          objectDeletes := l.g.objectDeletes
                            + Plus(l.g.mWeak == 1 && (l.g.extended || l.g.mStrong == INITIAL_STRONG_VALUE))),
                     l.t.(pc := Idle));
    Here(end, agreed);
    if l1.t.pc == LastWeak {
      var l2 := Onward(l1, agreed);
      if l2.t.pc == DeleteImpl {
        Then(l2, agreed, end);
      } else {
        DestructorAlone(l2, agreed, end);
      }
      Then(l1, agreed, end);
    }
    Then(l, agreed, end);
  }

  /** The count once a promotion has looked for the bias. */
  function Fixed(g: Shared): Shared {
    if g.mStrong >= INITIAL_STRONG_VALUE
    then g.(mStrong := g.mStrong - INITIAL_STRONG_VALUE, unbiasings := g.unbiasings + 1)
    else g
  }

  lemma FixUpAlone(l: Local, agreed: bool)
    requires l.t.pc == FixRead
    ensures Leads(l, agreed, Local(Fixed(l.g), l.t.(pc := Idle, strong := l.t.strong + 1)))
  {
    hide Leads;
    var l1 := Onward(l, agreed);
    var l2 := Onward(l1, agreed);
    Here(l2, agreed);
    Then(l1, agreed, l2);
    Then(l, agreed, l2);
  }

  // ------------------------------------------------------------ the operations

  /** incStrong adds a strong reference, and takes the bias away if it is the first one. */
  lemma IncStrongAlone(l: Local, raw: bool, agreed: bool)
    requires CanAct(l, if raw then StartRawIncStrong else StartIncStrong)
    ensures var first := l.g.mStrong == INITIAL_STRONG_VALUE;
      Turns(l, if raw then StartRawIncStrong else StartIncStrong, agreed,
            Local(l.g.(mWeak := l.g.mWeak + 1, mStrong := if first then 1 else l.g.mStrong + 1,
                       unbiasings := l.g.unbiasings + Plus(first)),
                  l.t.(strong := l.t.strong + 1, raw := if raw then NoRaw else l.t.raw)))
  {
    hide Leads;
    var l1 := Act(l, if raw then StartRawIncStrong else StartIncStrong);
    var l2 := Onward(l1, agreed);
    var l3 := Onward(l2, agreed);
    var end := if l3.t.pc == Idle then l3 else Onward(l3, agreed);
    Here(end, agreed);
    if l3.t.pc != Idle {
      Then(l3, agreed, end);
    }
    Then(l2, agreed, end);
    Then(l1, agreed, end);
  }

  /** decStrong gives up a strong reference.  The last one takes the object along under the strong lifetime; the
      last count of all takes the impl along, and the object under the weak lifetime. */
  lemma DecStrongAlone(l: Local, agreed: bool)
    requires CanAct(l, StartDecStrong)
    requires l.g.mStrong <= INITIAL_STRONG_VALUE && (l.g.mWeak == 1 ==> l.g.mStrong == 1)
    ensures var last, dead := l.g.mStrong == 1, l.g.mWeak == 1;
      Turns(l, StartDecStrong, agreed,
            Local(l.g.(mStrong := l.g.mStrong - 1, mWeak := l.g.mWeak - 1,
                       objectDeletes := l.g.objectDeletes + Plus(if l.g.extended then dead else last),
                       implDeletes := l.g.implDeletes + Plus(dead)),
                  l.t.(strong := l.t.strong - 1)))
  {
    hide Leads;
    var l1 := Act(l, StartDecStrong);
    var l2 := Onward(l1, agreed);
    var end := Local(l.g.(mStrong := l.g.mStrong - 1, mWeak := l.g.mWeak - 1,
                          implDeletes := l.g.implDeletes + Plus(l.g.mWeak == 1),
                          objectDeletes := l.g.objectDeletes
                            + Plus(if l.g.extended then l.g.mWeak == 1 else l.g.mStrong == 1)),
                     l.t.(strong := l.t.strong - 1));
    if l2.t.pc == LastStrong {
      var l3 := Onward(l2, agreed);
      if l3.t.pc == DecWeak {
        DecWeakAlone(l3, agreed);
      } else {
        DecWeakAlone(Returned(l3, false), agreed);
        DestructorAlone(l3, agreed, end);
      }
      Then(l2, agreed, end);
    } else {
      DecWeakAlone(l2, agreed);
    }
    Then(l1, agreed, end);
  }

  /** Giving up a weak reference. */
  lemma ReleaseWeakAlone(l: Local, agreed: bool)
    requires CanAct(l, StartDecWeak)
    ensures var dead := l.g.mWeak == 1;
      var withObject := dead && (l.g.extended || l.g.mStrong == INITIAL_STRONG_VALUE);
      Turns(l, StartDecWeak, agreed,
            Local(l.g.(mWeak := l.g.mWeak - 1, objectDeletes := l.g.objectDeletes + Plus(withObject),
                       implDeletes := l.g.implDeletes + Plus(dead)),
                  l.t.(weak := l.t.weak - 1)))
  {
    hide Leads;
    DecWeakAlone(Act(l, StartDecWeak), agreed);
  }

  /** A promotion succeeds exactly with a positive count under the strong lifetime, and exactly with strong
      references or the object's agreement under the weak one. */
  predicate Promotes(g: Shared, agreed: bool) {
    if g.extended then agreed || (g.mStrong > 0 && g.mStrong != INITIAL_STRONG_VALUE) else g.mStrong > 0
  }

  /** attemptIncStrong: a strong reference more, without the bias; or nothing at all. */
  lemma AttemptAlone(l: Local, agreed: bool)
    requires CanAct(l, StartAttempt) && l.g.mWeak > 0
    ensures Turns(l, StartAttempt, agreed,
      if Promotes(l.g, agreed)
      then Local(Fixed(l.g.(mStrong := l.g.mStrong + 1, mWeak := l.g.mWeak + 1)), l.t.(strong := l.t.strong + 1))
      else l)
  {
    hide Leads, Fixed;
    var l1 := Act(l, StartAttempt);
    var l2 := Onward(l1, agreed);
    var l3 := Onward(l2, agreed);
    var l4 := Onward(l3, agreed);
    var end := if Promotes(l.g, agreed)
      then Local(Fixed(l.g.(mStrong := l.g.mStrong + 1, mWeak := l.g.mWeak + 1)), l.t.(strong := l.t.strong + 1))
      else l;
    if l4.t.pc == FixRead {
      FixUpAlone(l4, agreed);
    } else {
      HardAlone(l4, agreed, end);
    }
    Then(l3, agreed, end);
    Then(l2, agreed, end);
    Then(l1, agreed, end);
  }

  /** The harder case of a promotion. */
  lemma HardAlone(l: Local, agreed: bool, end: Local)
    requires l.t.pc == AttemptHard(l.g.mStrong) && l.g.mWeak > 1
    requires l.g.mStrong <= 0 || l.g.mStrong == INITIAL_STRONG_VALUE
    requires end == if Promotes(l.g, agreed)
      then Local(Fixed(l.g.(mStrong := l.g.mStrong + 1)), l.t.(pc := Idle, strong := l.t.strong + 1))
      else Local(l.g.(mWeak := l.g.mWeak - 1), l.t.(pc := Idle))
    ensures Leads(l, agreed, end)
  {
    hide Leads, Fixed;
    var l1 := Onward(l, agreed);
    if l1.t.pc == DecWeak {
      DecWeakAlone(l1, agreed);
    } else {
      var l2 := Onward(l1, agreed);
      FixUpAlone(l2, agreed);
      Then(l1, agreed, end);
    }
    Then(l, agreed, end);
  }

  /** attemptIncWeak: a weak reference more unless there is no count left. */
  lemma AttemptWeakAlone(l: Local, agreed: bool)
    requires CanAct(l, StartAttemptWeak)
    ensures Turns(l, StartAttemptWeak, agreed,
      if l.g.mWeak > 0 then Local(l.g.(mWeak := l.g.mWeak + 1), l.t.(weak := l.t.weak + 1)) else l)
  {
    hide Leads;
    var l1 := Act(l, StartAttemptWeak);
    var l2 := Onward(l1, agreed);
    var end := Onward(l2, agreed);
    Here(end, agreed);
    Then(l2, agreed, end);
    Then(l1, agreed, end);
  }
}
