/** Whole histories of the plain collection of timers, driven by a clock. */
module TimerHistory {
  import opened CallScripts
  import opened Options
  import opened TimerSpec

  // ---------------------------------------------------------------------------------------------
  // One tick
  // ---------------------------------------------------------------------------------------------

  /** A pending timer is called in the tick of its deadline, once, exactly if it is not stopped before its turn; and in
      no other tick.  If it is neither called nor stopped, it goes on waiting; otherwise, if nobody starts it again, it
      is not running afterwards. */
  lemma TickOnTime(s: Spec, scripts: seq<seq<Action>>, p: Pending)
    requires WellFormed(s) && p in s.waiting && Tick(s, scripts).Some?
    ensures var (s', fired) := Tick(s, scripts).value;
            var waits := p.deadline > s.now && SparedInTick(s, scripts, p);
            && OnceEach(fired) && (On(fired, p.elem) ==> p in fired && p.deadline == s.now)
            && (p.deadline == s.now ==> (p in fired <==> SparedInTick(s, scripts, p)))
            && (waits ==> p in s'.waiting)
            && (!waits && Unstarted(scripts, p.elem, |fired|) ==> !Running(s', p.elem))
  {
    ExpireWellFormed(s);
    DrainOrder(Expire(s), scripts);
    var fired := Tick(s, scripts).value.1;
    FilterIn(Expire(s).due, Among(fired));
    FilterIn(s.waiting, DueAt(s.now));
    FilterIn(s.waiting, NotDueAt(s.now));
    if p.deadline == s.now {
      TickAtDeadline(s, scripts, p);
    } else if SparedInTick(s, scripts, p) {
      DrainWaiting(Expire(s), scripts, p);
    } else if Unstarted(scripts, p.elem, |fired|) {
      DrainStopped(Expire(s), scripts, p);
    }
  }

  lemma TickAtDeadline(s: Spec, scripts: seq<seq<Action>>, p: Pending)
    requires WellFormed(s) && p in s.waiting && p.deadline == s.now && Tick(s, scripts).Some?
    ensures var (s', fired) := Tick(s, scripts).value;
            && (p in fired <==> SparedInTick(s, scripts, p))
            && (Unstarted(scripts, p.elem, |fired|) ==> !Running(s', p.elem))
  {
    var due, fired := Expire(s).due, Tick(s, scripts).value.1;
    ExpireWellFormed(s);
    FilterIn(s.waiting, DueAt(s.now));
    var i := Place(due, p);
    assert due == due[..i] + [p] + due[i + 1..];
    DrainTurn(Expire(s), scripts, due[..i], p, due[i + 1..]);
    if Unstarted(scripts, p.elem, |fired|) {
      DrainNotWaiting(Expire(s), scripts, p.elem);
      TickWellFormed(s, scripts);
    }
  }

  /** A timer that is not running and that nobody starts is not called. */
  lemma TickIdle(s: Spec, scripts: seq<seq<Action>>, e: TimerElem)
    requires !Running(s, e) && Tick(s, scripts).Some? && Unstarted(scripts, e, |Tick(s, scripts).value.1|)
    ensures !Running(Tick(s, scripts).value.0, e) && !On(Tick(s, scripts).value.1, e)
  {
    FilterIn(s.waiting, DueAt(s.now));
    FilterIn(s.waiting, NotDueAt(s.now));
    DrainIdle(Expire(s), scripts, e);
  }

  /** Within a tick the callbacks are called in the order in which their timers were added, once each. */
  lemma TickOrder(s: Spec, scripts: seq<seq<Action>>)
    requires WellFormed(s) && Tick(s, scripts).Some?
    ensures var fired := Tick(s, scripts).value.1;
            OnceEach(fired) && fired == Filter(Filter(s.waiting, DueAt(s.now)), Among(fired))
  {
    ExpireWellFormed(s);
    DrainOrder(Expire(s), scripts);
  }

  // ---------------------------------------------------------------------------------------------
  // The clock
  // ---------------------------------------------------------------------------------------------

  /** The timers and the milliseconds that have accumulated since the last tick. */
  datatype Clock = Clock(spec: Spec, accumulated: nat)

  /** Time that goes backwards counts as none, and a leap as one tick. */
  function Clamped(rate: Pos, elapsed: int): nat {
    if elapsed < 0 then 0 else if elapsed >= rate * 3 then rate else elapsed
  }

  /** The scripts of the callbacks, one sequence of scripts for each tick. */
  type Scripts = seq<seq<seq<Action>>>

  /** The loop of drive_timer, and the timers called in each of its ticks. */
  ghost function DriveLoop(c: Clock, scripts: Scripts): (r: Option<(Clock, seq<seq<Pending>>)>)
    decreases c.accumulated
  {
    if c.accumulated < c.spec.rate then Some((c, []))
    else
      var t := Tick(c.spec, Script(scripts, 0));
      if t.None? then None
      else
        var r := DriveLoop(Clock(t.value.0, c.accumulated - c.spec.rate), Rest(scripts));
        if r.None? then None else Some((r.value.0, [t.value.1] + r.value.1))
  }

  datatype Event = Do(action: Action) | Drive(elapsed: int, scripts: Scripts)

  function Advance(c: Clock, elapsed: int): Clock {
    c.(accumulated := c.accumulated + Clamped(c.spec.rate, elapsed))
  }

  ghost function Handle(c: Clock, e: Event): Option<(Clock, seq<seq<Pending>>)> {
    if e.Drive? then DriveLoop(Advance(c, e.elapsed), e.scripts)
    else
      var r := Apply(c.spec, e.action);
      if r.None? then None else Some((c.(spec := r.value), []))
  }

  /** A history, with the timers called in each tick of it, unless it crashes. */
  ghost function Run(c: Clock, events: seq<Event>): Option<(Clock, seq<seq<Pending>>)>
    decreases |events|
  {
    if events == [] then Some((c, []))
    else
      var h := Handle(c, events[0]);
      if h.None? then None
      else
        var r := Run(h.value.0, events[1..]);
        if r.None? then None else Some((r.value.0, h.value.1 + r.value.1))
  }

  ghost predicate Between(c: Clock) {
    WellFormed(c.spec) && c.spec.due == []
  }

  /** The milliseconds that pass for the clock. */
  function Elapsed(rate: Pos, events: seq<Event>): nat {
    if events == [] then 0
    else ElapsedIn(rate, events[0]) + Elapsed(rate, events[1..])
  }

  /** The milliseconds that `ticks` ticks stand for. */
  function Millis(ticks: nat, rate: Pos): nat {
    if ticks == 0 then 0 else rate + Millis(ticks - 1, rate)
  }

  lemma {:induction false} MillisIsProduct(ticks: nat, rate: Pos)
    ensures Millis(ticks, rate) == ticks * rate
  {
    if ticks == 0 {
    } else {
      MillisIsProduct(ticks - 1, rate);
      assert ticks * rate == rate + (ticks - 1) * rate;
    }
  }

  lemma {:induction false} MillisSum(a: nat, b: nat, rate: Pos)
    ensures Millis(a + b, rate) == Millis(a, rate) + Millis(b, rate)
  {
    if a == 0 {
    } else {
      MillisSum(a - 1, b, rate);
    }
  }

  /** More ticks take at least one tick more. */
  lemma {:induction false} MillisLess(a: nat, b: nat, rate: Pos)
    ensures a < b ==> Millis(a, rate) + rate <= Millis(b, rate)
  {
    if a == 0 || b == 0 {
    } else {
      MillisLess(a - 1, b - 1, rate);
    }
  }

  // ---------------------------------------------------------------------------------------------
  // What every history keeps
  // ---------------------------------------------------------------------------------------------

  lemma {:induction false} DriveLoopBetween(c: Clock, scripts: Scripts)
    requires Between(c) && DriveLoop(c, scripts).Some?
    ensures Between(DriveLoop(c, scripts).value.0)
    decreases c.accumulated
  {
    if c.accumulated < c.spec.rate {
    } else {
      TickWellFormed(c.spec, Script(scripts, 0));
      DriveLoopBetween(Clock(Tick(c.spec, Script(scripts, 0)).value.0, c.accumulated - c.spec.rate), Rest(scripts));
    }
  }

  lemma HandleBetween(c: Clock, e: Event)
    requires Between(c) && Handle(c, e).Some?
    ensures Between(Handle(c, e).value.0)
  {
    if e.Do? {
      ApplyWellFormed(c.spec, e.action);
    } else {
      DriveLoopBetween(Advance(c, e.elapsed), e.scripts);
    }
  }

  lemma {:induction false} RunBetween(c: Clock, events: seq<Event>)
    requires Between(c) && Run(c, events).Some?
    ensures Between(Run(c, events).value.0)
    decreases |events|
  {
    if events == [] {
    } else {
      HandleBetween(c, events[0]);
      RunBetween(Handle(c, events[0]).value.0, events[1..]);
    }
  }

  lemma {:induction false} ApplyAllKeepsTime(s: Spec, script: seq<Action>)
    requires ApplyAll(s, script).Some?
    ensures ApplyAll(s, script).value.rate == s.rate && ApplyAll(s, script).value.now == s.now
    decreases |script|
  {
    if script == [] {
    } else {
      ApplyAllKeepsTime(Apply(s, script[0]).value, script[1..]);
    }
  }

  lemma {:induction false} DrainKeepsTime(s: Spec, scripts: seq<seq<Action>>)
    requires Drain(s, scripts).Some?
    ensures Drain(s, scripts).value.0.rate == s.rate && Drain(s, scripts).value.0.now == s.now
    decreases |s.due|
  {
    if s.due == [] {
    } else {
      ApplyAllKeepsTime(s.(due := s.due[1..]), Script(scripts, 0));
      var s2, later := DrainStep(s, scripts);
      DrainKeepsTime(s2, Rest(scripts));
    }
  }

  /** `ticks` ticks have passed, and `added` milliseconds. */
  ghost predicate Passed(c: Clock, c': Clock, ticks: nat, added: nat) {
    && c'.spec.rate == c.spec.rate && c'.spec.now == c.spec.now + ticks
    && Millis(ticks, c.spec.rate) + c'.accumulated == c.accumulated + added
  }

  lemma {:induction false} DriveLoopClock(c: Clock, scripts: Scripts)
    requires DriveLoop(c, scripts).Some?
    ensures var r := DriveLoop(c, scripts).value; Passed(c, r.0, |r.1|, 0) && r.0.accumulated < c.spec.rate
    decreases c.accumulated
  {
    if c.accumulated < c.spec.rate {
    } else {
      var s' := Tick(c.spec, Script(scripts, 0)).value.0;
      var c1 := Clock(s', c.accumulated - c.spec.rate);
      DrainKeepsTime(Expire(c.spec), Script(scripts, 0));
      DriveLoopClock(c1, Rest(scripts));
    }
  }

  ghost predicate AnyDrive(events: seq<Event>) {
    exists e :: e in events && e.Drive?
  }

  function ElapsedIn(rate: Pos, e: Event): nat {
    if e.Drive? then Clamped(rate, e.elapsed) else 0
  }

  lemma HandleClock(c: Clock, e: Event)
    requires Handle(c, e).Some?
    ensures var r := Handle(c, e).value;
            && Passed(c, r.0, |r.1|, ElapsedIn(c.spec.rate, e))
            && (c.accumulated < c.spec.rate || e.Drive? ==> r.0.accumulated < c.spec.rate)
  {
    if e.Drive? {
      DriveLoopClock(Advance(c, e.elapsed), e.scripts);
    }
  }

  /** Over any history, ticks * rate + what is accumulated = what was accumulated + the milliseconds that
      passed for the clock; and less than a tick is left over once the clock has been driven. */
  lemma {:induction false} RunClock(c: Clock, events: seq<Event>)
    requires Run(c, events).Some?
    ensures var r := Run(c, events).value;
            && Passed(c, r.0, |r.1|, Elapsed(c.spec.rate, events))
            && (c.accumulated < c.spec.rate || AnyDrive(events) ==> r.0.accumulated < c.spec.rate)
    decreases |events|
  {
    if events == [] {
    } else {
      HandleClock(c, events[0]);
      var h := Handle(c, events[0]).value;
      var r := Run(h.0, events[1..]).value;
      RunClock(h.0, events[1..]);
      MillisSum(|h.1|, |r.1|, c.spec.rate);
      assert Run(c, events).value == (r.0, h.1 + r.1);
      assert AnyDrive(events) ==> events[0].Drive? || AnyDrive(events[1..]);
    }
  }

  // ---------------------------------------------------------------------------------------------
  // One timer over a whole history
  // ---------------------------------------------------------------------------------------------

  ghost function AfterTick(c: Clock, scripts: Scripts): Clock
    requires c.accumulated >= c.spec.rate && Tick(c.spec, Script(scripts, 0)).Some?
  {
    Clock(Tick(c.spec, Script(scripts, 0)).value.0, c.accumulated - c.spec.rate)
  }

  /** Nobody stops the pending timer in the ticks of a call before its turn comes. */
  ghost predicate SparedInLoop(c: Clock, scripts: Scripts, p: Pending)
    requires DriveLoop(c, scripts).Some?
    decreases c.accumulated
  {
    c.accumulated >= c.spec.rate ==>
      && SparedInTick(c.spec, Script(scripts, 0), p)
      && (c.spec.now < p.deadline ==> SparedInLoop(AfterTick(c, scripts), Rest(scripts), p))
  }

  ghost predicate SparedIn(c: Clock, e: Event, p: Pending)
    requires Handle(c, e).Some?
  {
    match e
    case Do(a) => a != Stop(p.elem)
    case Drive(elapsed, scripts) => SparedInLoop(Advance(c, elapsed), scripts, p)
  }

  /** Nobody stops the pending timer before its turn comes: neither between the calls nor in a callback that is called
      before its own. */
  ghost predicate SparedOver(c: Clock, events: seq<Event>, p: Pending)
    requires Run(c, events).Some?
    decreases |events|
  {
    events != [] ==>
      var h := Handle(c, events[0]).value;
      && SparedIn(c, events[0], p)
      && (|h.1| <= p.deadline - c.spec.now ==> SparedOver(h.0, events[1..], p))
  }

  /** No callback that is called in the ticks of a call starts the timer. */
  ghost predicate UnstartedInLoop(c: Clock, scripts: Scripts, t: TimerElem)
    requires DriveLoop(c, scripts).Some?
    decreases c.accumulated
  {
    c.accumulated >= c.spec.rate ==>
      && Unstarted(Script(scripts, 0), t, |Tick(c.spec, Script(scripts, 0)).value.1|)
      && UnstartedInLoop(AfterTick(c, scripts), Rest(scripts), t)
  }

  ghost predicate UnstartedIn(c: Clock, e: Event, t: TimerElem)
    requires Handle(c, e).Some?
  {
    match e
    case Do(a) => !(a.Start? && a.elem == t)
    case Drive(elapsed, scripts) => UnstartedInLoop(Advance(c, elapsed), scripts, t)
  }

  /** Nobody starts the timer, neither between the calls nor in a callback that is called. */
  ghost predicate UnstartedOver(c: Clock, events: seq<Event>, t: TimerElem)
    requires Run(c, events).Some?
    decreases |events|
  {
    events != [] ==> UnstartedIn(c, events[0], t) && UnstartedOver(Handle(c, events[0]).value.0, events[1..], t)
  }

  ghost predicate NotCalled(log: seq<seq<Pending>>, t: TimerElem) {
    forall i :: 0 <= i < |log| ==> !On(log[i], t)
  }

  lemma NotCalledAppend(log1: seq<seq<Pending>>, log2: seq<seq<Pending>>, t: TimerElem)
    requires NotCalled(log1, t) && NotCalled(log2, t)
    ensures NotCalled(log1 + log2, t)
  {
  }

  lemma {:induction false} DriveLoopIdle(c: Clock, scripts: Scripts, t: TimerElem)
    requires !Running(c.spec, t) && DriveLoop(c, scripts).Some? && UnstartedInLoop(c, scripts, t)
    ensures var r := DriveLoop(c, scripts).value; !Running(r.0.spec, t) && NotCalled(r.1, t)
    decreases c.accumulated
  {
    if c.accumulated < c.spec.rate {
    } else {
      TickIdle(c.spec, Script(scripts, 0), t);
      DriveLoopIdle(AfterTick(c, scripts), Rest(scripts), t);
      NotCalledAppend([Tick(c.spec, Script(scripts, 0)).value.1],
        DriveLoop(AfterTick(c, scripts), Rest(scripts)).value.1, t);
    }
  }

  lemma HandleIdle(c: Clock, e: Event, t: TimerElem)
    requires !Running(c.spec, t) && Handle(c, e).Some? && UnstartedIn(c, e, t)
    ensures var r := Handle(c, e).value; !Running(r.0.spec, t) && NotCalled(r.1, t)
  {
    if e.Do? {
      FilterIn(c.spec.waiting, IsNot(e.action.elem));
      FilterIn(c.spec.due, IsNot(e.action.elem));
    } else {
      DriveLoopIdle(Advance(c, e.elapsed), e.scripts, t);
    }
  }

  /** A timer that is not running is never called until somebody starts it. */
  lemma {:induction false} RunIdle(c: Clock, events: seq<Event>, t: TimerElem)
    requires !Running(c.spec, t) && Run(c, events).Some? && UnstartedOver(c, events, t)
    ensures var r := Run(c, events).value; !Running(r.0.spec, t) && NotCalled(r.1, t)
    decreases |events|
  {
    if events == [] {
    } else {
      var h := Handle(c, events[0]).value;
      HandleIdle(c, events[0], t);
      RunIdle(h.0, events[1..], t);
      NotCalledAppend(h.1, Run(h.0, events[1..]).value.1, t);
    }
  }

  /** Stopping a timer, running or not, keeps it from being called until somebody starts it. */
  lemma StoppedIdle(c: Clock, t: TimerElem, events: seq<Event>)
    requires var c1 := c.(spec := Apply(c.spec, Stop(t)).value); Run(c1, events).Some? && UnstartedOver(c1, events, t)
    ensures NotCalled(Run(c.(spec := Apply(c.spec, Stop(t)).value), events).value.1, t)
  {
    FilterIn(c.spec.waiting, IsNot(t));
    FilterIn(c.spec.due, IsNot(t));
    RunIdle(c.(spec := Apply(c.spec, Stop(t)).value), events, t);
  }

  /** In the ticks of `log`, pending timer `p` is called in tick number `k`, once, and in none before it. */
  ghost predicate OnTime(log: seq<seq<Pending>>, p: Pending, k: nat) {
    && (forall i :: 0 <= i < |log| && i < k ==> !On(log[i], p.elem))
    && (k < |log| ==> p in log[k] && OnceEach(log[k]))
  }

  /** In the ticks of `log`, the timer of `p` is called at most in tick number `k`, there as `p`, and once. */
  ghost predicate OnlyThen(log: seq<seq<Pending>>, p: Pending, k: nat) {
    forall i :: 0 <= i < |log| && On(log[i], p.elem) ==> i == k && p in log[i] && OnceEach(log[i])
  }

  /** What becomes of pending timer `p` in the ticks of `log`.  If it is spared up to its turn, it is called on time if
      its deadline comes, and is still waiting for it if not.  If moreover nobody starts it, it is called at no other
      time; it is not called at all if it is not spared; and it is not running once it has been called or stopped. */
  ghost predicate Kept(c: Clock, c': Clock, log: seq<seq<Pending>>, p: Pending, spared: bool, unstarted: bool) {
    var k := p.deadline - c.spec.now;
    && k >= 0
    && (spared ==> OnTime(log, p, k) && (|log| <= k ==> p in c'.spec.waiting))
    && (unstarted ==> OnlyThen(log, p, k) && (!spared ==> NotCalled(log, p.elem)))
    && (unstarted && !(spared && |log| <= k) ==> !Running(c'.spec, p.elem))
  }

  lemma OnTimeAppend(log1: seq<seq<Pending>>, log2: seq<seq<Pending>>, p: Pending, k: nat)
    requires OnTime(log1, p, k) && (|log1| <= k ==> OnTime(log2, p, k - |log1|))
    ensures OnTime(log1 + log2, p, k)
  {
    var log := log1 + log2;
    forall i | 0 <= i < |log| && i < k ensures !On(log[i], p.elem) {
      assert log[i] == if i < |log1| then log1[i] else log2[i - |log1|];
    }
    if k < |log| {
      assert log[k] == if k < |log1| then log1[k] else log2[k - |log1|];
    }
  }

  lemma OnlyThenAppend(log1: seq<seq<Pending>>, log2: seq<seq<Pending>>, p: Pending, k: nat)
    requires OnlyThen(log1, p, k) && (if |log1| <= k then OnlyThen(log2, p, k - |log1|) else NotCalled(log2, p.elem))
    ensures OnlyThen(log1 + log2, p, k)
  {
    var log := log1 + log2;
    forall i | 0 <= i < |log| && On(log[i], p.elem) ensures i == k && p in log[i] && OnceEach(log[i]) {
      assert log[i] == if i < |log1| then log1[i] else log2[i - |log1|];
    }
  }

  /** What becomes of the timer goes on from part to part of a history. */
  lemma KeptThen(c: Clock, c1: Clock, c2: Clock, log1: seq<seq<Pending>>, log2: seq<seq<Pending>>, p: Pending,
                 spared1: bool, unstarted1: bool, spared2: bool, unstarted2: bool)
    requires Kept(c, c1, log1, p, spared1, unstarted1) && c1.spec.now == c.spec.now + |log1|
    requires if spared1 && |log1| <= p.deadline - c.spec.now then Kept(c1, c2, log2, p, spared2, unstarted2)
             else unstarted1 && unstarted2 ==> NotCalled(log2, p.elem) && !Running(c2.spec, p.elem)
    ensures Kept(c, c2, log1 + log2, p, spared1 && (|log1| <= p.deadline - c.spec.now ==> spared2),
                 unstarted1 && unstarted2)
  {
    var k := p.deadline - c.spec.now;
    if spared1 && (|log1| <= k ==> spared2) {
      OnTimeAppend(log1, log2, p, k);
    }
    if unstarted1 && unstarted2 {
      if spared1 && |log1| <= k {
        OnlyThenAppend(log1, log2, p, k);
        if !spared2 {
          NotCalledBefore(log1, p, k);
          NotCalledAppend(log1, log2, p.elem);
        }
      } else {
        OnlyThenNever(log1, log2, p, k);
        if !spared1 {
          NotCalledAppend(log1, log2, p.elem);
        }
      }
    }
  }

  lemma NotCalledBefore(log: seq<seq<Pending>>, p: Pending, k: nat)
    requires OnTime(log, p, k) && |log| <= k
    ensures NotCalled(log, p.elem)
  {
  }

  lemma OnlyThenNever(log1: seq<seq<Pending>>, log2: seq<seq<Pending>>, p: Pending, k: nat)
    requires OnlyThen(log1, p, k) && NotCalled(log2, p.elem)
    ensures OnlyThen(log1 + log2, p, k)
  {
    var log := log1 + log2;
    assert forall i :: 0 <= i < |log1| ==> log[i] == log1[i];
    assert forall i :: |log1| <= i < |log| ==> log[i] == log2[i - |log1|];
  }

  lemma TickKept(c: Clock, scripts: Scripts, p: Pending)
    requires Between(c) && p in c.spec.waiting && c.accumulated >= c.spec.rate && Tick(c.spec, Script(scripts, 0)).Some?
    ensures var fired := Tick(c.spec, Script(scripts, 0)).value.1;
            Kept(c, AfterTick(c, scripts), [fired], p, SparedInTick(c.spec, Script(scripts, 0), p),
                 Unstarted(Script(scripts, 0), p.elem, |fired|))
  {
    TickOnTime(c.spec, Script(scripts, 0), p);
  }

  lemma {:induction false} DriveLoopOnTime(c: Clock, scripts: Scripts, p: Pending)
    requires Between(c) && p in c.spec.waiting && DriveLoop(c, scripts).Some?
    ensures var r := DriveLoop(c, scripts).value;
            Kept(c, r.0, r.1, p, SparedInLoop(c, scripts, p), UnstartedInLoop(c, scripts, p.elem))
    decreases c.accumulated
  {
    if c.accumulated < c.spec.rate {
    } else {
      var t := Tick(c.spec, Script(scripts, 0)).value;
      var c1 := AfterTick(c, scripts);
      var spared1, unstarted1 := SparedInTick(c.spec, Script(scripts, 0), p),
        Unstarted(Script(scripts, 0), p.elem, |t.1|);
      var r := DriveLoop(c1, Rest(scripts)).value;
      TickKept(c, scripts, p);
      TickWellFormed(c.spec, Script(scripts, 0));
      DrainKeepsTime(Expire(c.spec), Script(scripts, 0));
      if spared1 && c.spec.now < p.deadline {
        DriveLoopOnTime(c1, Rest(scripts), p);
      } else if unstarted1 && UnstartedInLoop(c1, Rest(scripts), p.elem) {
        DriveLoopIdle(c1, Rest(scripts), p.elem);
      }
      KeptThen(c, c1, r.0, [t.1], r.1, p, spared1, unstarted1,
               SparedInLoop(c1, Rest(scripts), p), UnstartedInLoop(c1, Rest(scripts), p.elem));
    }
  }

  lemma HandleOnTime(c: Clock, e: Event, p: Pending)
    requires Between(c) && p in c.spec.waiting && Handle(c, e).Some?
    ensures var r := Handle(c, e).value; Kept(c, r.0, r.1, p, SparedIn(c, e, p), UnstartedIn(c, e, p.elem))
  {
    if e.Do? {
      FilterIn(c.spec.waiting, IsNot(e.action.elem));
    } else {
      DriveLoopOnTime(Advance(c, e.elapsed), e.scripts, p);
    }
  }

  /** For every interleaving of starts, stops and ticks, with callbacks that start and stop any timers: a pending timer
      that is not stopped before its turn is called in the tick of its deadline, and in none before; and if nobody
      starts it again, that is its only call, and it is not called at all if it is stopped before its turn. */
  lemma {:induction false} RunOnTime(c: Clock, events: seq<Event>, p: Pending)
    requires Between(c) && p in c.spec.waiting && Run(c, events).Some?
    ensures var r := Run(c, events).value;
            Kept(c, r.0, r.1, p, SparedOver(c, events, p), UnstartedOver(c, events, p.elem))
    decreases |events|
  {
    if events == [] {
    } else {
      var h := Handle(c, events[0]).value;
      var r := Run(h.0, events[1..]).value;
      var spared1, unstarted1 := SparedIn(c, events[0], p), UnstartedIn(c, events[0], p.elem);
      HandleOnTime(c, events[0], p);
      HandleBetween(c, events[0]);
      HandleClock(c, events[0]);
      if spared1 && |h.1| <= p.deadline - c.spec.now {
        RunOnTime(h.0, events[1..], p);
      } else if unstarted1 && UnstartedOver(h.0, events[1..], p.elem) {
        RunIdle(h.0, events[1..], p.elem);
      }
      KeptThen(c, h.0, r.0, h.1, r.1, p, spared1, unstarted1,
               SparedOver(h.0, events[1..], p), UnstartedOver(h.0, events[1..], p.elem));
    }
  }

  /** The clock after a timer has been started. */
  ghost function AfterStart(c: Clock, e: TimerElem, ms: Msec): Clock
    requires Apply(c.spec, Start(e, ms)).Some?
  {
    c.(spec := Apply(c.spec, Start(e, ms)).value)
  }

  function StartedAs(c: Clock, e: TimerElem, ms: Msec): Pending {
    Pending(e, c.spec.now + TickCount(c.spec.rate, ms))
  }

  /** A timer added with a time-out of k ticks is called in the (k + 1)-th tick that follows, once, and in none
      before, if it is not stopped before its turn. */
  lemma StartedOnTime(c: Clock, e: TimerElem, ms: Msec, events: seq<Event>)
    requires Between(c) && Apply(c.spec, Start(e, ms)).Some? && Run(AfterStart(c, e, ms), events).Some?
    requires SparedOver(AfterStart(c, e, ms), events, StartedAs(c, e, ms))
    ensures OnTime(Run(AfterStart(c, e, ms), events).value.1, StartedAs(c, e, ms), TickCount(c.spec.rate, ms))
  {
    ApplyWellFormed(c.spec, Start(e, ms));
    RunOnTime(AfterStart(c, e, ms), events, StartedAs(c, e, ms));
  }

  /** Over the ticks of a history the timer is called. */
  ghost predicate Called(log: seq<seq<Pending>>, e: TimerElem) {
    !NotCalled(log, e)
  }

  /** Exactly once: unless it is started again, a timer added with a time-out of k ticks is called at most in the
      (k + 1)-th tick, there once; and it is called if, and only if, that tick has come and it was not stopped before
      its turn. */
  lemma CalledOnce(c: Clock, e: TimerElem, ms: Msec, events: seq<Event>)
    requires Between(c) && Apply(c.spec, Start(e, ms)).Some? && Run(AfterStart(c, e, ms), events).Some?
    requires UnstartedOver(AfterStart(c, e, ms), events, e)
    ensures var log, k := Run(AfterStart(c, e, ms), events).value.1, TickCount(c.spec.rate, ms);
            && OnlyThen(log, StartedAs(c, e, ms), k)
            && (Called(log, e) <==> k < |log| && SparedOver(AfterStart(c, e, ms), events, StartedAs(c, e, ms)))
  {
    var p, log := StartedAs(c, e, ms), Run(AfterStart(c, e, ms), events).value.1;
    ApplyWellFormed(c.spec, Start(e, ms));
    RunOnTime(AfterStart(c, e, ms), events, p);
    if SparedOver(AfterStart(c, e, ms), events, p) && TickCount(c.spec.rate, ms) < |log| {
      assert On(log[TickCount(c.spec.rate, ms)], e);
    }
  }

  // ---------------------------------------------------------------------------------------------
  // Milliseconds
  // ---------------------------------------------------------------------------------------------

  /** The milliseconds after which a timer is called that is started when `accumulated` have accumulated. */
  function Threshold(rate: Pos, accumulated: nat, ms: Msec): int {
    Millis(TickCount(rate, ms) + 1, rate) - accumulated
  }

  lemma TicksReach(n: nat, k: nat, rate: Pos, from: nat, left: nat, elapsed: nat)
    requires Millis(n, rate) + left == from + elapsed && left < rate
    ensures n > k <==> elapsed >= Millis(k + 1, rate) - from
  {
    MillisLess(n, k + 1, rate);
    MillisLess(k + 1, n, rate);
  }

  /** The tick of a deadline comes exactly when the threshold has been reached. */
  lemma TickComesAtThreshold(c: Clock, ms: Msec, events: seq<Event>)
    requires Run(c, events).Some? && (c.accumulated < c.spec.rate || AnyDrive(events))
    ensures |Run(c, events).value.1| > TickCount(c.spec.rate, ms)
            <==> Elapsed(c.spec.rate, events) >= Threshold(c.spec.rate, c.accumulated, ms)
  {
    RunClock(c, events);
    var r, rate := Run(c, events).value, c.spec.rate;
    TicksReach(|r.1|, TickCount(rate, ms), rate, c.accumulated, r.0.accumulated, Elapsed(rate, events));
  }

  /** There are no ticks as long as the clock is not driven. */
  lemma {:induction false} NoDriveNoTicks(c: Clock, events: seq<Event>)
    requires Run(c, events).Some? && !AnyDrive(events)
    ensures Run(c, events).value.1 == []
    decreases |events|
  {
    if events == [] {
    } else {
      assert events[0] in events;
      assert forall e :: e in events[1..] ==> e in events;
      NoDriveNoTicks(Handle(c, events[0]).value.0, events[1..]);
    }
  }

  lemma TickCountRounds(rate: Pos, ms: Msec)
    ensures var k := TickCount(rate, ms);
            if ms < rate then k == 0 else ms <= Millis(k, rate) < ms + rate
  {
    var k := TickCount(rate, ms);
    MillisIsProduct(k, rate);
    var q, m := ms / rate, ms % rate;
    assert ms == q * rate + m;
    assert (q + 1) * rate == q * rate + rate;
    if ms < rate {
      assert q == 0;
    }
  }

  /** How far a number of ticks is from a time-out. */
  function Distance(ticks: nat, rate: Pos, ms: Msec): nat {
    var d := ticks * rate - ms;
    if d < 0 then -d else d
  }

  /** No number of ticks is closer to the time-out. */
  ghost predicate Closest(k: nat, rate: Pos, ms: Msec) {
    forall j: nat :: Distance(k, rate, ms) <= Distance(j, rate, ms)
  }

  /** The tick count is the closest one exactly if the time-out is a whole number of ticks, or is rounded up from half a
      tick or more, or down from half a tick or less. */
  lemma TickCountClosest(rate: Pos, ms: Msec)
    ensures Closest(TickCount(rate, ms), rate, ms)
       <==> if ms < rate then 2 * ms <= rate else ms % rate == 0 || 2 * (ms % rate) >= rate
  {
    var q, m := ms / rate, ms % rate;
    assert ms == q * rate + m;
    assert (q + 1) * rate == q * rate + rate;
    if ms < rate {
      assert q == 0;
    }
    assert Distance(q, rate, ms) == m && Distance(q + 1, rate, ms) == rate - m;
    forall j: nat ensures Distance(j, rate, ms) >= if j <= q then m else rate - m {
      if j <= q {
        ProductLess(j, q, rate);
      } else {
        ProductLess(q + 1, j, rate);
      }
    }
  }

  lemma ProductLess(a: nat, b: nat, rate: Pos)
    requires a <= b
    ensures a * rate <= b * rate
  {
  }

  /** 101 milliseconds are two ticks of 100, and 99 milliseconds none, though one tick is closer to both. */
  lemma NotClosest()
    ensures TickCount(100, 101) == 2 && !Closest(2, 100, 101)
    ensures TickCount(100, 99) == 0 && !Closest(0, 100, 99)
  {
    assert Distance(1, 100, 101) == 1 && Distance(1, 100, 99) == 1;
  }

  /** No timer with a time-out of a tick or more is called before its time-out has passed, and none is
      called two ticks late.  A shorter time-out is rounded down to nothing: then the timer may be called too
      early, and is unless so little has accumulated that the next tick is at least the time-out away. */
  lemma ThresholdBounds(rate: Pos, accumulated: nat, ms: Msec)
    requires accumulated <= rate
    ensures Threshold(rate, accumulated, ms) < ms + 2 * rate
    ensures Threshold(rate, accumulated, ms) >= ms <==> ms >= rate || accumulated + ms <= rate
  {
    TickCountRounds(rate, ms);
    var k := TickCount(rate, ms);
    assert Millis(k + 1, rate) == rate + Millis(k, rate);
  }

  /** A timer that is not started again is called exactly if its threshold has been reached and it was not stopped
      before its turn.  So no timer with a time-out of a tick or more is called before its time-out has passed. */
  lemma CalledAtThreshold(c: Clock, e: TimerElem, ms: Msec, events: seq<Event>)
    requires Between(c) && Apply(c.spec, Start(e, ms)).Some? && Run(AfterStart(c, e, ms), events).Some?
    requires UnstartedOver(AfterStart(c, e, ms), events, e)
    ensures var rate, elapsed, log := c.spec.rate, Elapsed(c.spec.rate, events),
            Run(AfterStart(c, e, ms), events).value.1;
            && (Called(log, e) ==> elapsed >= Threshold(rate, c.accumulated, ms))
            && (Called(log, e) && ms >= rate >= c.accumulated ==> elapsed >= ms)
            && (c.accumulated < rate || AnyDrive(events) ==>
                  (Called(log, e) <==> elapsed >= Threshold(rate, c.accumulated, ms)
                                       && SparedOver(AfterStart(c, e, ms), events, StartedAs(c, e, ms))))
  {
    var c1 := AfterStart(c, e, ms);
    CalledOnce(c, e, ms, events);
    if c.accumulated < c.spec.rate || AnyDrive(events) {
      TickComesAtThreshold(c1, ms, events);
    } else {
      NoDriveNoTicks(c1, events);
    }
    if c.spec.rate >= c.accumulated {
      ThresholdBounds(c.spec.rate, c.accumulated, ms);
    }
  }

  /** The only timer, in the tick of its deadline. */
  lemma TickOfOne(p: Pending, rate: Pos)
    ensures Tick(Spec(rate, p.deadline, [p], []), []) == Some((Spec(rate, p.deadline + 1, [], []), [p]))
  {
    var s := Spec(rate, p.deadline, [p], []);
    var none: seq<seq<Action>> := [];
    FilterAppend([], p, NotDueAt(p.deadline));
    FilterAppend([], p, DueAt(p.deadline));
    assert [] + [p] == [p];
    var due, end := Expire(s), Spec(rate, p.deadline + 1, [], []);
    assert due == Spec(rate, p.deadline + 1, [], [p]) && due.due[1..] == [];
    assert Popped(due, Script(none, 0)) == Some(end) && Drain(end, Rest(none)) == Some((end, []));
    assert [p] + [] == [p];
    assert Tick(s, none) == Some((end, [p]));
  }

  lemma LoopOfOne(p: Pending, rate: Pos)
    ensures DriveLoop(Clock(Spec(rate, p.deadline, [p], []), rate), []) ==
            Some((Clock(Spec(rate, p.deadline + 1, [], []), 0), [[p]]))
  {
    var scripts: Scripts, end := [], Clock(Spec(rate, p.deadline + 1, [], []), 0);
    TickOfOne(p, rate);
    assert Script(scripts, 0) == [] && DriveLoop(end, Rest(scripts)) == Some((end, []));
    assert [[p]] + [] == [[p]];
  }

  lemma RunOne(c: Clock, e: Event)
    requires Handle(c, e).Some?
    ensures Run(c, [e]) == Handle(c, e)
  {
    var events, h := [e], Handle(c, e).value;
    assert events[1..] == [] && h.1 + [] == h.1;
  }

  lemma RunTwo(c: Clock, a: Event, b: Event)
    requires Handle(c, a).Some? && Handle(Handle(c, a).value.0, b).Some?
    ensures Run(c, [a, b]).Some?
    ensures Run(c, [a, b]).value.1 == Handle(c, a).value.1 + Handle(Handle(c, a).value.0, b).value.1
  {
    var events := [a, b];
    assert events[1..] == [b];
    RunOne(Handle(c, a).value.0, b);
  }

  /** A timer with a time-out of half a tick, started a millisecond before a tick, is called when that millisecond has
      passed. */
  lemma CalledTooEarly(e: TimerElem)
    ensures var c := Clock(Spec(100, 1, [], []), 99);
            var r := Run(c, [Do(Start(e, 50)), Drive(1, [])]);
            r.Some? && r.value.1 == [[Pending(e, 1)]]
  {
    var p, c := Pending(e, 1), Clock(Spec(100, 1, [], []), 99);
    var started := Clock(Spec(100, 1, [p], []), 99);
    assert TickCount(100, 50) == 0 && [] + [p] == [p] && !Running(c.spec, e);
    assert Apply(c.spec, Start(e, 50)) == Some(started.spec);
    assert Handle(c, Do(Start(e, 50))) == Some((started, []));
    LoopOfOne(p, 100);
    assert Advance(started, 1) == Clock(Spec(100, 1, [p], []), 100);
    RunTwo(c, Do(Start(e, 50)), Drive(1, []));
  }

  /** A call of drive_timer runs at most three ticks, from the first call on. */
  lemma AtMostThreeTicks(c: Clock, elapsed: int, scripts: Scripts)
    requires c.accumulated <= c.spec.rate && Handle(c, Drive(elapsed, scripts)).Some?
    ensures |Handle(c, Drive(elapsed, scripts)).value.1| <= 3
  {
    HandleClock(c, Drive(elapsed, scripts));
    MillisLess(3, |Handle(c, Drive(elapsed, scripts)).value.1|, c.spec.rate);
    MillisIsProduct(3, c.spec.rate);
  }
}
