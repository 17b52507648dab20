/**
 * krsm's strong/weak pair: a strong future drives an inner future and, around it, a wrapper that
 * reads the inner result through weak futures.
 *
 * A child future is given by the outcomes of its successive polls. The wrapper's outcome may depend
 * on the result cell, which is all that a weak future looks at.
 */
module StrongFutures {
  import opened Wrappers

  datatype Poll<+T> = Pending | Ready(value: T)

  datatype Outcome<+U> = Finished(output: U) | Yielded | Panicked

  type Inner<!T> = nat -> Poll<T>

  type Wrapper<!T, !U> = (nat, Option<T>) -> Poll<U>

  /** `misused` records that some child was polled after it had completed. */
  datatype State<+T> = State(result: Option<T>, innerPolls: nat, wrapperPolls: nat,
                             innerDone: bool, wrapperDone: bool, misused: bool)

  function Initial<T>(): State<T> {
    State(None, 0, 0, false, false, false)
  }

  /** One poll of the strong future. */
  function PollStrong<T, U>(s: State<T>, inner: Inner<T>, wrapper: Wrapper<T, U>): (Outcome<U>, State<T>) {
    if s.result.Some? then (Panicked, s)
    else
      var early := wrapper(s.wrapperPolls, None);
      var s1 := s.(wrapperPolls := s.wrapperPolls + 1, misused := s.misused || s.wrapperDone,
                   wrapperDone := s.wrapperDone || early.Ready?);
      var main := inner(s1.innerPolls);
      var s2 := s1.(innerPolls := s1.innerPolls + 1, misused := s1.misused || s1.innerDone,
                    innerDone := s1.innerDone || main.Ready?);
      if main.Pending? then (Yielded, s2)
      else
        var s3 := s2.(result := Some(main.value));
        if early.Ready? then (Finished(early.value), s3)
        else
          var late := wrapper(s3.wrapperPolls, s3.result);
          var s4 := s3.(wrapperPolls := s3.wrapperPolls + 1, misused := s3.misused || s3.wrapperDone,
                        wrapperDone := s3.wrapperDone || late.Ready?);
          (if late.Ready? then Finished(late.value) else Yielded, s4)
  }

  /** The same poll, on the fields it changes. */
  class StrongFuture<T(!new), U(!new)> {
    const inner: Inner<T>
    const wrapper: Wrapper<T, U>
    var result: Option<T>
    var innerPolls: nat
    var wrapperPolls: nat
    var innerDone: bool
    var wrapperDone: bool
    var misused: bool

    constructor (inner: Inner<T>, wrapper: Wrapper<T, U>)
      ensures Abs() == Initial() && this.inner == inner && this.wrapper == wrapper
    {
      this.inner, this.wrapper := inner, wrapper;
      result, innerPolls, wrapperPolls := None, 0, 0;
      innerDone, wrapperDone, misused := false, false, false;
    }

    ghost function Abs(): State<T>
      reads this
    {
      State(result, innerPolls, wrapperPolls, innerDone, wrapperDone, misused)
    }

    method PollWrapper() returns (p: Poll<U>)
      modifies this`wrapperPolls, this`wrapperDone, this`misused
      ensures p == wrapper(old(wrapperPolls), result) && wrapperPolls == old(wrapperPolls) + 1
      ensures wrapperDone == (old(wrapperDone) || p.Ready?) && misused == (old(misused) || old(wrapperDone))
    {
      p := wrapper(wrapperPolls, result);
      misused := misused || wrapperDone;
      wrapperPolls, wrapperDone := wrapperPolls + 1, wrapperDone || p.Ready?;
    }

    method PollInner() returns (p: Poll<T>)
      modifies this`innerPolls, this`innerDone, this`misused
      ensures p == inner(old(innerPolls)) && innerPolls == old(innerPolls) + 1
      ensures innerDone == (old(innerDone) || p.Ready?) && misused == (old(misused) || old(innerDone))
    {
      p := inner(innerPolls);
      misused := misused || innerDone;
      innerPolls, innerDone := innerPolls + 1, innerDone || p.Ready?;
    }

    method Poll() returns (r: Outcome<U>)
      modifies this
      ensures (r, Abs()) == PollStrong(old(Abs()), inner, wrapper)
    {
      if result.Some? {
        return Panicked;
      }
      var weakResult := PollWrapper();
      var v := PollInner();
      if v.Pending? {
        return Yielded;
      }
      result := Some(v.value);
      if weakResult.Ready? {
        return Finished(weakResult.value);
      }
      var late := PollWrapper();
      r := if late.Ready? then Finished(late.value) else Yielded;
    }

    /** Taking the result is safe just after completion. */
    method TakeResult() returns (v: T)
      requires result.Some?
      modifies this`result
      ensures Some(v) == old(result) && result == None
    {
      v := result.value;
      result := None;
    }
  }

  /** The state after n polls from the start. */
  function After<T, U>(n: nat, inner: Inner<T>, wrapper: Wrapper<T, U>): State<T> {
    if n == 0 then Initial() else PollStrong(After(n - 1, inner, wrapper), inner, wrapper).1
  }

  function OutcomeOf<T, U>(n: nat, inner: Inner<T>, wrapper: Wrapper<T, U>): Outcome<U> {
    PollStrong(After(n, inner, wrapper), inner, wrapper).0
  }

  /** The inner future completes at its poll number f. */
  ghost predicate CompletesAt<T>(inner: Inner<T>, f: nat) {
    inner(f).Ready? && forall i: nat :: i < f ==> inner(i).Pending?
  }

  /** The strong future ends in the very poll in which the inner one does, and nothing is polled too often. */
  ghost predicate RunsWell<T, U>(inner: Inner<T>, wrapper: Wrapper<T, U>, f: nat)
    requires inner(f).Ready?
  {
    && (forall i: nat :: i < f ==> OutcomeOf(i, inner, wrapper) == Yielded)
    && OutcomeOf(f, inner, wrapper).Finished?
    && !After(f + 1, inner, wrapper).misused
    && After(f + 1, inner, wrapper).result == Some(inner(f).value)
  }

  /** The wrapper holds out until the inner future completes, and is finished then or on being polled once more. */
  ghost predicate WrapperInStep<T, U>(inner: Inner<T>, wrapper: Wrapper<T, U>, f: nat)
    requires inner(f).Ready?
  {
    && (forall i: nat :: i < f ==> wrapper(i, None).Pending?)
    && (wrapper(f, None).Ready? || wrapper(f + 1, Some(inner(f).value)).Ready?)
  }

  lemma {:induction false} WhileBothPend<T, U>(inner: Inner<T>, wrapper: Wrapper<T, U>, n: nat)
    requires forall i: nat :: i < n ==> inner(i).Pending? && wrapper(i, None).Pending?
    ensures After(n, inner, wrapper) == State(None, n, n, false, false, false)
  {
    if n > 0 {
      WhileBothPend(inner, wrapper, n - 1);
      assert inner(n - 1).Pending? && wrapper(n - 1, None).Pending?;
    }
  }

  /** While the inner future is pending no result is set, and a wrapper that was ready once stays marked. */
  lemma {:induction false} WhileInnerPends<T, U>(inner: Inner<T>, wrapper: Wrapper<T, U>, n: nat, e: nat)
    requires e < n && wrapper(e, None).Ready?
    requires forall i: nat :: i < n ==> inner(i).Pending?
    ensures var s := After(n, inner, wrapper);
            s.result.None? && s.innerPolls == n && s.wrapperPolls == n && s.wrapperDone
  {
    InnerPends(inner, wrapper, n - 1);
    assert inner(n - 1).Pending?;
    if e < n - 1 {
      WhileInnerPends(inner, wrapper, n - 1, e);
    }
  }

  lemma {:induction false} InnerPends<T, U>(inner: Inner<T>, wrapper: Wrapper<T, U>, n: nat)
    requires forall i: nat :: i < n ==> inner(i).Pending?
    ensures var s := After(n, inner, wrapper); s.result.None? && s.innerPolls == n && s.wrapperPolls == n
  {
    if n > 0 {
      InnerPends(inner, wrapper, n - 1);
      assert inner(n - 1).Pending?;
    }
  }

  /** The poll in which the inner future completes, after a stretch in which both were pending. */
  lemma {:induction false} CompletingPoll<T, U>(inner: Inner<T>, wrapper: Wrapper<T, U>, f: nat)
    requires inner(f).Ready? && After(f, inner, wrapper) == State(None, f, f, false, false, false)
    ensures var early := wrapper(f, None);
            var late := wrapper(f + 1, Some(inner(f).value));
            var s := After(f + 1, inner, wrapper);
            && !s.misused && s.result == Some(inner(f).value)
            && OutcomeOf(f, inner, wrapper) ==
               if early.Ready? then Finished(early.value) else if late.Ready? then Finished(late.value) else Yielded
  {
  }

  /** The wrappers are both ready at poll e, possibly with different outputs, and agree on all other polls. */
  ghost predicate DifferAt<T(!new), U>(v: Wrapper<T, U>, w: Wrapper<T, U>, e: nat) {
    && v(e, None).Ready? && w(e, None).Ready?
    && forall i: nat, r: Option<T> :: i != e || r.Some? ==> v(i, r) == w(i, r)
  }

  lemma {:induction false} SameStep<T(!new), U>(s: State<T>, inner: Inner<T>, v: Wrapper<T, U>, w: Wrapper<T, U>,
                                                e: nat)
    requires DifferAt(v, w, e)
    ensures PollStrong(s, inner, v).1 == PollStrong(s, inner, w).1
    ensures s.wrapperPolls != e || inner(s.innerPolls).Pending? || s.result.Some? ==>
              PollStrong(s, inner, v).0 == PollStrong(s, inner, w).0
  {
    assert v(s.wrapperPolls, None).Ready? <==> w(s.wrapperPolls, None).Ready?;
    var main := inner(s.innerPolls);
    if main.Ready? {
      assert v(s.wrapperPolls + 1, Some(main.value)) == w(s.wrapperPolls + 1, Some(main.value));
    }
  }

  lemma {:induction false} SameStates<T(!new), U>(inner: Inner<T>, v: Wrapper<T, U>, w: Wrapper<T, U>, e: nat, n: nat)
    requires DifferAt(v, w, e)
    ensures After(n, inner, v) == After(n, inner, w)
  {
    if n > 0 {
      SameStates(inner, v, w, e, n - 1);
      SameStep(After(n - 1, inner, v), inner, v, w, e);
    }
  }

  lemma {:induction false} ResultStays<T, U>(inner: Inner<T>, wrapper: Wrapper<T, U>, f: nat, n: nat)
    requires CompletesAt(inner, f) && n > f
    ensures After(n, inner, wrapper).result.Some?
  {
    if n == f + 1 {
      InnerPends(inner, wrapper, f);
    } else {
      ResultStays(inner, wrapper, f, n - 1);
    }
  }

  /** The output of a wrapper that is ready early is lost: no poll's outcome depends on it. */
  lemma {:induction false} EarlyOutputIsLost<T(!new), U>(inner: Inner<T>, v: Wrapper<T, U>, w: Wrapper<T, U>, f: nat,
                                                         e: nat, n: nat)
    requires CompletesAt(inner, f) && e < f && DifferAt(v, w, e)
    ensures OutcomeOf(n, inner, v) == OutcomeOf(n, inner, w)
  {
    SameStates(inner, v, w, e, n);
    SameStep(After(n, inner, v), inner, v, w, e);
    if n <= f {
      InnerPends(inner, v, n);
      assert n < f ==> inner(n).Pending?;
    } else {
      ResultStays(inner, v, f, n);
    }
  }

  /** A wrapper that was ready early is polled once more after that. */
  lemma {:induction false} EarlyWrapperMisused<T, U>(inner: Inner<T>, wrapper: Wrapper<T, U>, f: nat, e: nat)
    requires CompletesAt(inner, f) && e < f && wrapper(e, None).Ready?
    ensures After(f + 1, inner, wrapper).misused
  {
    WhileInnerPends(inner, wrapper, f, e);
  }

  /**
   * A strong future runs well exactly when its wrapper keeps in step. A wrapper that is ready early
   * loses its output and is polled again; one that is late leaves the strong future to panic.
   */
  lemma {:induction false} RunsWellIffInStep<T, U>(inner: Inner<T>, wrapper: Wrapper<T, U>, f: nat)
    requires CompletesAt(inner, f)
    ensures RunsWell(inner, wrapper, f) <==> WrapperInStep(inner, wrapper, f)
    ensures WrapperInStep(inner, wrapper, f) ==>
              OutcomeOf(f, inner, wrapper) ==
              Finished(if wrapper(f, None).Ready? then wrapper(f, None).value
                       else wrapper(f + 1, Some(inner(f).value)).value)
  {
    if e: nat :| e < f && wrapper(e, None).Ready? {
      EarlyWrapperMisused(inner, wrapper, f, e);
    } else {
      WhileBothPend(inner, wrapper, f);
      CompletingPoll(inner, wrapper, f);
      forall i: nat | i < f ensures OutcomeOf(i, inner, wrapper) == Yielded {
        WhileBothPend(inner, wrapper, i);
        assert inner(i).Pending?;
      }
    }
  }

  /** After a late wrapper the next poll is the re-entry panic. */
  lemma {:induction false} LateWrapperPanics<T, U>(inner: Inner<T>, wrapper: Wrapper<T, U>, f: nat)
    requires CompletesAt(inner, f)
    requires wrapper(f, None).Pending? && wrapper(f + 1, Some(inner(f).value)).Pending?
    requires forall i: nat :: i < f ==> wrapper(i, None).Pending?
    ensures OutcomeOf(f, inner, wrapper) == Yielded && OutcomeOf(f + 1, inner, wrapper) == Panicked
  {
    WhileBothPend(inner, wrapper, f);
  }

  // ---- Wrappers as pocker builds them ----

  /** A try_zip tree of handlers: one waits for the inner result, one returns at once, one fails at once. */
  datatype Handlers = Waits | Returns | Fails | TryZip(l: Handlers, r: Handlers)

  /** Halves that are done stay done, so a poll depends only on whether the result is set. True means success. */
  function PollHandlers(h: Handlers, resultSet: bool): Poll<bool> {
    match h
    case Waits => if resultSet then Ready(true) else Pending
    case Returns => Ready(true)
    case Fails => Ready(false)
    case TryZip(l, r) =>
      var pl := PollHandlers(l, resultSet);
      if pl == Ready(false) then pl
      else
        var pr := PollHandlers(r, resultSet);
        if pr == Ready(false) then pr
        else if pl.Pending? || pr.Pending? then Pending else Ready(true)
  }

  predicate SomeWaits(h: Handlers) {
    match h
    case TryZip(l, r) => SomeWaits(l) || SomeWaits(r)
    case _ => h == Waits
  }

  predicate SomeFails(h: Handlers) {
    match h
    case TryZip(l, r) => SomeFails(l) || SomeFails(r)
    case _ => h == Fails
  }

  lemma {:induction false} HandlersPoll(h: Handlers)
    ensures PollHandlers(h, false) ==
            if SomeFails(h) then Ready(false) else if SomeWaits(h) then Pending else Ready(true)
    ensures PollHandlers(h, true) == Ready(!SomeFails(h))
  {
    if h.TryZip? {
      HandlersPoll(h.l);
      HandlersPoll(h.r);
    }
  }

  /**
   * A try_zip tree works around every inner future exactly when some handler waits for the result
   * and none fails before the system call.
   */
  lemma {:induction false} HandlersRunWell(h: Handlers)
    ensures (forall inner: Inner<int>, f: nat :: CompletesAt(inner, f) ==>
               RunsWell(inner, (i: nat, result: Option<int>) => PollHandlers(h, result.Some?), f))
            <==> SomeWaits(h) && !SomeFails(h)
  {
    HandlersPoll(h);
    var wrapper := (i: nat, result: Option<int>) => PollHandlers(h, result.Some?);
    if SomeWaits(h) && !SomeFails(h) {
      forall inner: Inner<int>, f: nat | CompletesAt(inner, f) ensures RunsWell(inner, wrapper, f) {
        RunsWellIffInStep(inner, wrapper, f);
      }
    } else {
      var inner: Inner<int> := (i: nat) => if i == 1 then Ready(0) else Pending;
      assert CompletesAt(inner, 1);
      RunsWellIffInStep(inner, wrapper, 1);
      assert wrapper(0, None).Ready?;
      assert !RunsWell(inner, wrapper, 1);
    }
  }
}
