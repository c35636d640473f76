/**
  The splash-screen counter of `startLoadingCounter`: every 200 ms tick adds a random
  amount between 5 and 20 to the percentage, which is clamped to 100, at which point the
  interval is cleared. The random amount is a parameter of each tick.
 */
module Loading {

  /** The percentage and whether its interval has been cleared. */
  datatype Counter = Counter(percent: real, stopped: bool)

  const Start := Counter(0.0, false)

  /** `Math.random() * 15 + 5` lies in [5, 20). */
  predicate ValidIncrement(inc: real) {
    5.0 <= inc < 20.0
  }

  /** The states the counter can be in: within [0, 100], stopped exactly at 100. */
  predicate Inv(c: Counter) {
    0.0 <= c.percent <= 100.0 && (c.stopped <==> c.percent == 100.0)
  }

  /**
    One interval callback. A cleared interval fires no more callbacks, which is the
    same as a tick that changes nothing.
   */
  function Step(c: Counter, inc: real): (c': Counter)
    requires Inv(c) && ValidIncrement(inc)
    ensures Inv(c')
    ensures c.percent <= c'.percent
    ensures !c.stopped ==> c'.percent >= c.percent + 5.0 || (c'.percent == 100.0 && c'.stopped)
    ensures c.stopped ==> c' == c
  {
    if c.stopped then c
    else
      var p := c.percent + inc;
      if p >= 100.0 then Counter(100.0, true) else Counter(p, false)
  }

  predicate AllValid(incs: seq<real>) {
    forall i :: 0 <= i < |incs| ==> ValidIncrement(incs[i])
  }

  /** The counter after one tick per increment, in order. */
  function Run(c: Counter, incs: seq<real>): Counter
    requires Inv(c) && AllValid(incs)
    decreases |incs|
  {
    if incs == [] then c else Run(Step(c, incs[0]), incs[1..])
  }

  /** Every tick before the stop raises the percentage by at least 5. */
  lemma {:induction false} RunGainsAtLeastFive(c: Counter, incs: seq<real>)
    requires Inv(c) && AllValid(incs)
    ensures Inv(Run(c, incs))
    ensures Run(c, incs).stopped || Run(c, incs).percent >= c.percent + 5.0 * |incs| as real
    decreases |incs|
  {
    if incs != [] {
      RunGainsAtLeastFive(Step(c, incs[0]), incs[1..]);
      if Step(c, incs[0]).stopped {
        RunStaysStopped(Step(c, incs[0]), incs[1..]);
      }
    }
  }

  /** Once stopped, the counter never changes again. */
  lemma {:induction false} RunStaysStopped(c: Counter, incs: seq<real>)
    requires Inv(c) && c.stopped && AllValid(incs)
    ensures Run(c, incs) == c
    decreases |incs|
  {
    if incs != [] {
      RunStaysStopped(Step(c, incs[0]), incs[1..]);
    }
  }

  /** Ticks never lower the percentage. */
  lemma {:induction false} RunMonotone(c: Counter, incs: seq<real>)
    requires Inv(c) && AllValid(incs)
    ensures c.percent <= Run(c, incs).percent
    decreases |incs|
  {
    if incs != [] {
      RunMonotone(Step(c, incs[0]), incs[1..]);
    }
  }

  /** Twenty ticks always reach 100 and stop the interval. */
  lemma StopsWithinTwentyTicks(incs: seq<real>)
    requires AllValid(incs) && |incs| >= 20
    ensures Run(Start, incs) == Counter(100.0, true)
  {
    RunGainsAtLeastFive(Start, incs);
  }

  /** While the total of the largest possible increments stays within 100, nothing stops. */
  lemma {:induction false} RunStaysBelow(c: Counter, incs: seq<real>)
    requires Inv(c) && !c.stopped && AllValid(incs)
    requires c.percent + 20.0 * |incs| as real <= 100.0
    ensures !Run(c, incs).stopped
    ensures Run(c, incs).percent <= c.percent + 20.0 * |incs| as real
    decreases |incs|
  {
    if incs != [] {
      RunStaysBelow(Step(c, incs[0]), incs[1..]);
    }
  }

  /** At least six ticks are needed: five of them add less than 100. */
  lemma NeedsAtLeastSixTicks(incs: seq<real>)
    requires AllValid(incs) && |incs| <= 5
    ensures !Run(Start, incs).stopped
  {
    RunStaysBelow(Start, incs);
  }

  /** The interval state of one counter run, updated by its callbacks. */
  class LoadingCounter {
    var percent: real
    var stopped: bool

    ghost predicate Valid()
      reads this
    {
      Inv(Counter(percent, stopped))
    }

    constructor ()
      ensures Valid() && percent == 0.0 && !stopped
    {
      percent := 0.0;
      stopped := false;
    }

    /** The interval callback, given the random increment it drew. */
    method Tick(inc: real)
      requires Valid() && ValidIncrement(inc)
      modifies this
      ensures Valid()
      ensures Counter(percent, stopped) == Step(Counter(old(percent), old(stopped)), inc)
    {
      if !stopped {
        percent := percent + inc;
        if percent >= 100.0 {
          percent := 100.0;
          stopped := true;
        }
      }
    }
  }
}
