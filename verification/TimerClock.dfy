/** The clock of the timer in the milliseconds that have really passed. */
module TimerClock {
  import opened Options
  import opened TimerSpec
  import opened TimerHistory

  /** The milliseconds that have passed between the calls of the clock: what the calls say, added up. */
  function Total(events: seq<Event>): int {
    if events == [] then 0 else (if events[0].Drive? then events[0].elapsed else 0) + Total(events[1..])
  }

  /** The milliseconds by which the time went backwards. */
  function Backwards(events: seq<Event>): nat {
    if events == [] then 0
    else (if events[0].Drive? && events[0].elapsed < 0 then -events[0].elapsed else 0) + Backwards(events[1..])
  }

  /** What leaps of three ticks or more have over one tick. */
  function Leapt(rate: Pos, events: seq<Event>): nat {
    if events == [] then 0
    else (if events[0].Drive? && events[0].elapsed >= 3 * rate then events[0].elapsed - rate else 0)
         + Leapt(rate, events[1..])
  }

  /** The time neither goes backwards nor leaps. */
  ghost predicate Steady(rate: Pos, events: seq<Event>) {
    forall e :: e in events && e.Drive? ==> 0 <= e.elapsed < 3 * rate
  }

  /** The time that has passed goes into ticks, and less than a tick is left.  Time that goes backwards counts as none,
      and a leap of three ticks or more as one tick. */
  ghost predicate Divided(rate: Pos, from: nat, elapsed: int, ticks: nat, left: nat) {
    var passed := ticks * rate + left - from;
    && left < rate
    && (0 <= elapsed < 3 * rate ==> passed == elapsed)
    && (elapsed < 0 ==> passed == 0)
    && (elapsed >= 3 * rate ==> passed == rate)
  }

  /** One call of drive_timer. */
  lemma DriveTicks(c: Clock, elapsed: int, scripts: Scripts)
    requires Handle(c, Drive(elapsed, scripts)).Some?
    ensures var (c', log) := Handle(c, Drive(elapsed, scripts)).value;
            && c'.spec.now == c.spec.now + |log|
            && Divided(c.spec.rate, c.accumulated, elapsed, |log|, c'.accumulated)
  {
    HandleClock(c, Drive(elapsed, scripts));
    MillisIsProduct(|Handle(c, Drive(elapsed, scripts)).value.1|, c.spec.rate);
  }

  lemma {:induction false} ElapsedTotal(rate: Pos, events: seq<Event>)
    ensures Elapsed(rate, events) == Total(events) + Backwards(events) - Leapt(rate, events)
  {
    if events == [] {
    } else {
      ElapsedTotal(rate, events[1..]);
    }
  }

  lemma {:induction false} SteadyTotal(rate: Pos, events: seq<Event>)
    requires Steady(rate, events)
    ensures Backwards(events) == 0 && Leapt(rate, events) == 0
  {
    if events == [] {
    } else {
      assert events[0] in events && forall e | e in events[1..] :: e in events;
      SteadyTotal(rate, events[1..]);
    }
  }

  /** Over any history, what the ticks stand for and what has accumulated is what was there at first and the time that
      has really passed, but for the time that went backwards and for what the leaps lose. */
  lemma RunTotal(c: Clock, events: seq<Event>)
    requires Run(c, events).Some?
    ensures var (c', log) := Run(c, events).value;
            && c'.spec.now == c.spec.now + |log|
            && |log| * c.spec.rate + c'.accumulated
               == c.accumulated + Total(events) + Backwards(events) - Leapt(c.spec.rate, events)
  {
    RunClock(c, events);
    MillisIsProduct(|Run(c, events).value.1|, c.spec.rate);
    ElapsedTotal(c.spec.rate, events);
  }

  /** If the time neither goes backwards nor leaps, no millisecond is lost or added. */
  lemma RunSteady(c: Clock, events: seq<Event>)
    requires Run(c, events).Some? && Steady(c.spec.rate, events)
    ensures var (c', log) := Run(c, events).value;
            |log| * c.spec.rate + c'.accumulated == c.accumulated + Total(events)
  {
    RunTotal(c, events);
    SteadyTotal(c.spec.rate, events);
  }

  /** A timer that is not started again is called, if the time neither goes backwards nor leaps, exactly when the
      milliseconds that have really passed make up a tick more than its tick count, with what had accumulated, unless it
      is stopped before its turn. */
  lemma CalledInTime(c: Clock, e: TimerElem, ms: Msec, events: seq<Event>)
    requires Between(c) && Apply(c.spec, Start(e, ms)).Some? && Run(AfterStart(c, e, ms), events).Some?
    requires UnstartedOver(AfterStart(c, e, ms), events, e)
    requires Steady(c.spec.rate, events) && c.accumulated < c.spec.rate
    ensures var rate := c.spec.rate;
            Called(Run(AfterStart(c, e, ms), events).value.1, e)
            <==> c.accumulated + Total(events) >= (TickCount(rate, ms) + 1) * rate
                 && SparedOver(AfterStart(c, e, ms), events, StartedAs(c, e, ms))
  {
    CalledAtThreshold(c, e, ms, events);
    ElapsedTotal(c.spec.rate, events);
    SteadyTotal(c.spec.rate, events);
    MillisIsProduct(TickCount(c.spec.rate, ms) + 1, c.spec.rate);
  }
}
