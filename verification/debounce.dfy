/**
  The trailing-edge `debounce(func, wait)` helper. The returned function keeps one
  pending timer in its closure: each call clears it and schedules `func` with that
  call's arguments `wait` milliseconds later. Time is abstract: a history is a sequence
  of calls and of elapsed durations.
 */
module Debounce {
  import opened JsText

  datatype Event<A> = Call(args: A) | Elapse(duration: nat)

  /** The scheduled timer: when it fires and the arguments it passes on. */
  datatype Pending<A> = Pending(deadline: nat, args: A)

  /** The clock, the timer held in the closure, and the runs of `func` so far. */
  datatype State<A> = State(now: nat, pending: Option<Pending<A>>, runs: seq<A>)

  function Init<A>(): State<A> {
    State(0, None, [])
  }

  /**
    One event. A call replaces whatever is pending; time passing fires the pending
    timer once its deadline is reached, which clears it.
   */
  function Step<A>(wait: nat, s: State<A>, e: Event<A>): State<A> {
    match e
    case Call(a) => s.(pending := Some(Pending(s.now + wait, a)))
    case Elapse(d) =>
      if s.pending.Some? && s.pending.value.deadline <= s.now + d
      then State(s.now + d, None, s.runs + [s.pending.value.args])
      else s.(now := s.now + d)
  }

  /** The state after a whole history, one event at a time. */
  function Run<A>(wait: nat, history: seq<Event<A>>): State<A>
    decreases |history|
  {
    if history == [] then Init()
    else Step(wait, Run(wait, history[..|history| - 1]), history[|history| - 1])
  }

  // ---------------------------------------------------------------------------
  // Reference: which calls run, read off the history directly

  /** Time elapsed over a history. */
  function Clock<A>(history: seq<Event<A>>): nat
    decreases |history|
  {
    if history == [] then 0
    else
      var last := history[|history| - 1];
      Clock(history[..|history| - 1]) + (if last.Elapse? then last.duration else 0)
  }

  /** The first call at index `j` or later, or `|history|` when there is none. */
  function NextCall<A>(history: seq<Event<A>>, j: nat): (k: nat)
    requires j <= |history|
    ensures j <= k <= |history|
    ensures forall i :: j <= i < k ==> history[i].Elapse?
    ensures k < |history| ==> history[k].Call?
    decreases |history| - j
  {
    if j == |history| || history[j].Call? then j else NextCall(history, j + 1)
  }

  /**
    Call `i` reaches `func` iff at least `wait` passes after it before the next call
    (or before the end of the history, for the last call).
   */
  predicate Fires<A>(wait: nat, history: seq<Event<A>>, i: nat)
    requires i < |history|
  {
    history[i].Call? && Clock(history[..NextCall(history, i + 1)]) >= Clock(history[..i]) + wait
  }

  /** The arguments of the firing calls from index `i` on, in order. */
  function Expected<A>(wait: nat, history: seq<Event<A>>, i: nat): seq<A>
    requires i <= |history|
    decreases |history| - i
  {
    if i == |history| then []
    else (if Fires(wait, history, i) then [history[i].args] else []) + Expected(wait, history, i + 1)
  }

  /** Index of the last call, if any. */
  function LastCall<A>(history: seq<Event<A>>): (r: Option<nat>)
    ensures r.None? ==> forall i :: 0 <= i < |history| ==> history[i].Elapse?
    ensures r.Some? ==> r.value < |history| && history[r.value].Call?
    ensures r.Some? ==> forall i :: r.value < i < |history| ==> history[i].Elapse?
    decreases |history|
  {
    if history == [] then None
    else if history[|history| - 1].Call? then Some(|history| - 1)
    else LastCall(history[..|history| - 1])
  }

  /**
    What the closure's state says about the history that produced it: the clock, the
    runs so far, and a pending timer exactly when the last call has not fired yet.
   */
  ghost predicate Inv<A>(wait: nat, history: seq<Event<A>>, s: State<A>) {
    && s.now == Clock(history)
    && s.runs == Expected(wait, history, 0)
    && match LastCall(history)
       case None => s.pending.None?
       case Some(p) =>
         && (s.pending.Some? <==> !Fires(wait, history, p))
         && (s.pending.Some? ==> s.pending.value == Pending(Clock(history[..p]) + wait, history[p].args))
  }

  // ---------------------------------------------------------------------------
  // The state machine meets the reference

  lemma ClockSnoc<A>(history: seq<Event<A>>, e: Event<A>)
    ensures Clock(history + [e]) == Clock(history) + (if e.Elapse? then e.duration else 0)
  {
    assert (history + [e])[..|history|] == history;
  }

  lemma {:induction false} NextCallSnoc<A>(history: seq<Event<A>>, e: Event<A>, j: nat)
    requires j <= |history|
    ensures NextCall(history, j) < |history| ==> NextCall(history + [e], j) == NextCall(history, j)
    ensures NextCall(history, j) == |history| ==>
      NextCall(history + [e], j) == if e.Call? then |history| else |history| + 1
    decreases |history| - j
  {
    if j < |history| && !history[j].Call? {
      NextCallSnoc(history, e, j + 1);
    }
  }

  /** Extending a history leaves the verdict on a call that is followed by another call as it was. */
  lemma FiresSnocEarlier<A>(wait: nat, history: seq<Event<A>>, e: Event<A>, i: nat)
    requires i < |history| && history[i].Call?
    requires NextCall(history, i + 1) < |history|
    ensures Fires(wait, history + [e], i) <==> Fires(wait, history, i)
  {
    var h' := history + [e];
    var k := NextCall(history, i + 1);
    NextCallSnoc(history, e, i + 1);
    assert NextCall(h', i + 1) == k;
    assert h'[..k] == history[..k];
    assert h'[..i] == history[..i];
  }

  /** For the last call, the verdict is taken again with the new event's time included. */
  lemma FiresSnocLast<A>(wait: nat, history: seq<Event<A>>, e: Event<A>, i: nat)
    requires i < |history| && history[i].Call?
    requires NextCall(history, i + 1) == |history|
    ensures Fires(wait, history, i) <==> Clock(history) >= Clock(history[..i]) + wait
    ensures Fires(wait, history + [e], i) <==>
      Clock(history) + (if e.Elapse? then e.duration else 0) >= Clock(history[..i]) + wait
  {
    var h' := history + [e];
    assert history[..|history|] == history;
    NextCallSnoc(history, e, i + 1);
    assert h'[..i] == history[..i];
    if e.Call? {
      assert NextCall(h', i + 1) == |history|;
      assert h'[..|history|] == history;
    } else {
      assert NextCall(h', i + 1) == |history| + 1;
      assert h'[..|history| + 1] == h';
      ClockSnoc(history, e);
    }
  }

  lemma {:induction false} NoCallsNoRuns<A>(wait: nat, history: seq<Event<A>>, i: nat)
    requires i <= |history|
    requires forall j :: i <= j < |history| ==> history[j].Elapse?
    ensures Expected(wait, history, i) == []
    decreases |history| - i
  {
    if i < |history| {
      NoCallsNoRuns(wait, history, i + 1);
    }
  }

  /** A new call adds no run yet and changes no earlier verdict (given a positive wait). */
  lemma {:induction false} ExpectedAfterCall<A>(wait: nat, history: seq<Event<A>>, a: A, i: nat)
    requires wait > 0 && i <= |history|
    ensures Expected(wait, history + [Call(a)], i) == Expected(wait, history, i)
    decreases |history| - i
  {
    var h' := history + [Call(a)];
    if i == |history| {
      assert h'[..|history|] == history;
      assert h'[..|history| + 1] == h';
      ClockSnoc(history, Call(a));
      assert !Fires(wait, h', i);
    } else {
      ExpectedAfterCall(wait, history, a, i + 1);
      if history[i].Call? {
        if NextCall(history, i + 1) < |history| {
          FiresSnocEarlier(wait, history, Call(a), i);
        } else {
          FiresSnocLast(wait, history, Call(a), i);
        }
      }
    }
  }

  /**
    The run that `d` more milliseconds add: the last call's, when it had not fired
    before and fires now.
   */
  function NewRun<A>(wait: nat, history: seq<Event<A>>, d: nat): seq<A> {
    match LastCall(history)
    case None => []
    case Some(p) =>
      if !Fires(wait, history, p) && Fires(wait, history + [Elapse(d)], p) then [history[p].args] else []
  }

  /** From the last call on, elapsed time only adds that call's run. */
  lemma ExpectedAfterElapseAtLast<A>(wait: nat, history: seq<Event<A>>, d: nat, p: nat)
    requires LastCall(history) == Some(p)
    ensures Expected(wait, history + [Elapse(d)], p) == Expected(wait, history, p) + NewRun(wait, history, d)
  {
    var h' := history + [Elapse(d)];
    NoCallsNoRuns(wait, history, p + 1);
    NoCallsNoRuns(wait, h', p + 1);
    assert h'[p] == history[p];
    assert NextCall(history, p + 1) == |history|;
    FiresSnocLast(wait, history, Elapse(d), p);
  }

  /** Before the last call, elapsed time changes no verdict. */
  lemma {:induction false} ExpectedAfterElapseBefore<A>(wait: nat, history: seq<Event<A>>, d: nat, p: nat, i: nat)
    requires LastCall(history) == Some(p) && i <= p
    ensures Expected(wait, history + [Elapse(d)], i) == Expected(wait, history, i) + NewRun(wait, history, d)
    decreases p - i
  {
    if i == p {
      ExpectedAfterElapseAtLast(wait, history, d, p);
    } else {
      ExpectedAfterElapseBefore(wait, history, d, p, i + 1);
      ExpectedAfterElapseStep(wait, history, d, p, i);
    }
  }

  /** One step of the induction above: the verdict at `i` is the same in both histories. */
  lemma ExpectedAfterElapseStep<A>(wait: nat, history: seq<Event<A>>, d: nat, p: nat, i: nat)
    requires LastCall(history) == Some(p) && i < p
    requires Expected(wait, history + [Elapse(d)], i + 1) == Expected(wait, history, i + 1) + NewRun(wait, history, d)
    ensures Expected(wait, history + [Elapse(d)], i) == Expected(wait, history, i) + NewRun(wait, history, d)
  {
    VerdictBeforeLastCall(wait, history, Elapse(d), p, i);
    ExpectedUnfold(wait, history + [Elapse(d)], i);
    ExpectedUnfold(wait, history, i);
    var head := if Fires(wait, history, i) then [history[i].args] else [];
    AppendAssoc(head, Expected(wait, history, i + 1), NewRun(wait, history, d));
  }

  /** Prover helper: concatenation is associative. */
  lemma AppendAssoc<T>(a: seq<T>, b: seq<T>, c: seq<T>)
    ensures a + (b + c) == (a + b) + c
  {
  }

  /** Extending a history changes neither an event before its last call nor its verdict. */
  lemma VerdictBeforeLastCall<A>(wait: nat, history: seq<Event<A>>, e: Event<A>, p: nat, i: nat)
    requires LastCall(history) == Some(p) && i < p
    ensures (history + [e])[i] == history[i]
    ensures Fires(wait, history + [e], i) == Fires(wait, history, i)
  {
    if history[i].Call? {
      assert NextCall(history, i + 1) <= p;
      FiresSnocEarlier(wait, history, e, i);
    }
  }

  /** Prover helper: one unfolding of `Expected`. */
  lemma ExpectedUnfold<A>(wait: nat, history: seq<Event<A>>, i: nat)
    requires i < |history|
    ensures Expected(wait, history, i) ==
      (if Fires(wait, history, i) then [history[i].args] else []) + Expected(wait, history, i + 1)
  {
  }

  /** Time passing adds at most the last call's run, at the end. */
  lemma ExpectedAfterElapse<A>(wait: nat, history: seq<Event<A>>, d: nat)
    ensures Expected(wait, history + [Elapse(d)], 0) == Expected(wait, history, 0) + NewRun(wait, history, d)
  {
    match LastCall(history)
    case None =>
      NoCallsNoRuns(wait, history, 0);
      NoCallsNoRuns(wait, history + [Elapse(d)], 0);
    case Some(p) =>
      ExpectedAfterElapseBefore(wait, history, d, p, 0);
  }

  /** Every event keeps the closure's state in line with the reference. */
  lemma StepKeepsInv<A>(wait: nat, history: seq<Event<A>>, s: State<A>, e: Event<A>)
    requires wait > 0 && Inv(wait, history, s)
    ensures Inv(wait, history + [e], Step(wait, s, e))
  {
    var h' := history + [e];
    ClockSnoc(history, e);
    match e
    case Call(a) =>
      ExpectedAfterCall(wait, history, a, 0);
      assert LastCall(h') == Some(|history|);
      assert h'[..|history|] == history;
      assert h'[..|history| + 1] == h';
      assert !Fires(wait, h', |history|);
    case Elapse(d) =>
      ExpectedAfterElapse(wait, history, d);
      assert h'[..|history|] == history;
      assert LastCall(h') == LastCall(history);
      match LastCall(history)
      case None =>
      case Some(p) =>
        assert NextCall(history, p + 1) == |history|;
        FiresSnocLast(wait, history, e, p);
        assert h'[..p] == history[..p];
  }

  /** Run from the start, the state machine produces exactly the reference runs. */
  lemma {:induction false} RunMatchesReference<A>(wait: nat, history: seq<Event<A>>)
    requires wait > 0
    ensures Inv(wait, history, Run(wait, history))
    ensures Run(wait, history).runs == Expected(wait, history, 0)
    decreases |history|
  {
    if history != [] {
      var init := history[..|history| - 1];
      RunMatchesReference(wait, init);
      assert init + [history[|history| - 1]] == history;
      StepKeepsInv(wait, init, Run(wait, init), history[|history| - 1]);
    }
  }

  /** A call followed by another call within `wait` never reaches `func`. */
  lemma SupersededCallDoesNotRun<A>(wait: nat, history: seq<Event<A>>, i: nat, k: nat)
    requires i < k < |history| && history[i].Call? && history[k].Call?
    requires forall j :: i < j < k ==> history[j].Elapse?
    requires Clock(history[..k]) < Clock(history[..i]) + wait
    ensures !Fires(wait, history, i)
  {
    assert NextCall(history, i + 1) == k;
  }

  // ---------------------------------------------------------------------------
  // The closure, as an object

  /** The function `debounce` returns, with the timer it keeps. */
  class Debouncer<A> {
    const wait: nat
    var now: nat
    var pending: Option<Pending<A>>
    /** The invocations of `func` so far, with the arguments each received. */
    var runs: seq<A>
    ghost var history: seq<Event<A>>

    function Snapshot(): State<A>
      reads this
    {
      State(now, pending, runs)
    }

    ghost predicate Valid()
      reads this
    {
      wait > 0 && Inv(wait, history, Snapshot())
    }

    constructor (wait: nat)
      requires wait > 0
      ensures Valid() && this.wait == wait
      ensures history == [] && Snapshot() == Init()
    {
      this.wait := wait;
      now := 0;
      pending := None;
      runs := [];
      history := [];
    }

    /** A call of the debounced function: clear the timer, schedule a new one. */
    method Invoke(args: A)
      requires Valid()
      modifies this
      ensures Valid() && history == old(history) + [Call(args)]
      ensures Snapshot() == Step(wait, old(Snapshot()), Call(args))
      ensures runs == old(runs) && pending == Some(Pending(now + wait, args))
    {
      StepKeepsInv(wait, history, Snapshot(), Call(args));
      pending := Some(Pending(now + wait, args));
      history := history + [Call(args)];
    }

    /** `d` milliseconds pass; a timer due by then runs `func` with its stored arguments. */
    method AdvanceTime(d: nat)
      requires Valid()
      modifies this
      ensures Valid() && history == old(history) + [Elapse(d)]
      ensures Snapshot() == Step(wait, old(Snapshot()), Elapse(d))
      ensures runs == Expected(wait, history, 0)
    {
      StepKeepsInv(wait, history, Snapshot(), Elapse(d));
      now := now + d;
      if pending.Some? && pending.value.deadline <= now {
        runs := runs + [pending.value.args];
        pending := None;
      }
      history := history + [Elapse(d)];
    }
  }
}
