/** Timers that are started by callbacks, their own or those of others: what periodic timers rest on. */
module TimerRestart {
  import opened CallScripts
  import opened Options
  import opened TimerSpec
  import opened TimerHistory

  /** The action at `i` of a script starts the timer, and nothing after it stops it. */
  ghost predicate StartsAt(script: seq<Action>, e: TimerElem, ms: Msec, i: nat) {
    i < |script| && script[i] == Start(e, ms) && Stop(e) !in script[i + 1..]
  }

  /** The last one of the first `n` callbacks of a tick that has to do with the timer starts it. */
  ghost predicate StartedBy(scripts: seq<seq<Action>>, e: TimerElem, ms: Msec, j: nat, i: nat, n: nat) {
    && j < n && StartsAt(Script(scripts, j), e, ms, i)
    && forall m :: j < m < n ==> Stop(e) !in Script(scripts, m)
  }

  lemma {:induction false} ApplyAllStarts(s: Spec, script: seq<Action>, e: TimerElem, ms: Msec, i: nat)
    requires ApplyAll(s, script).Some? && StartsAt(script, e, ms, i)
    ensures Pending(e, s.now + TickCount(s.rate, ms)) in ApplyAll(s, script).value.waiting
    decreases |script|
  {
    var s1, rest := Apply(s, script[0]).value, script[1..];
    if i == 0 {
      var p := Pending(e, s.now + TickCount(s.rate, ms));
      StartRuns(s, e, ms);
      assert s1.waiting[|s.waiting|] == p;
      ApplyAllWaiting(s1, rest, p);
    } else {
      assert rest[i..] == script[i + 1..];
      ApplyAllStarts(s1, rest, e, ms, i - 1);
    }
  }

  lemma StartedLater(scripts: seq<seq<Action>>, e: TimerElem, ms: Msec, j: nat, i: nat, n: nat)
    requires StartedBy(scripts, e, ms, j, i, n + 1) && j > 0
    ensures StartedBy(Rest(scripts), e, ms, j - 1, i, n)
  {
    ScriptRest(scripts);
    assert forall m: nat :: Script(Rest(scripts), m) == Script(scripts, m + 1);
  }

  lemma SparedAfter(scripts: seq<seq<Action>>, e: TimerElem, ms: Msec, i: nat, n: nat)
    requires StartedBy(scripts, e, ms, 0, i, n + 1)
    ensures Spared(Rest(scripts), e, n)
  {
    ScriptRest(scripts);
    assert forall m: nat :: Script(Rest(scripts), m) == Script(scripts, m + 1);
  }

  /** The first callback of those still to be called starts the timer. */
  lemma FirstStarts(s: Spec, scripts: seq<seq<Action>>, e: TimerElem, ms: Msec, i: nat)
    requires WellFormed(s) && s.due != [] && Popped(s, Script(scripts, 0)).Some?
    requires StartsAt(Script(scripts, 0), e, ms, i)
    ensures var s2 := Popped(s, Script(scripts, 0)).value;
            && WellFormed(s2) && s2.now == s.now && s2.rate == s.rate
            && Pending(e, s.now + TickCount(s.rate, ms)) in s2.waiting
  {
    PoppedWellFormed(s, Script(scripts, 0));
    ApplyAllKeepsTime(s.(due := s.due[1..]), Script(scripts, 0));
    ApplyAllStarts(s.(due := s.due[1..]), Script(scripts, 0), e, ms, i);
  }

  lemma StepKeeps(s: Spec, scripts: seq<seq<Action>>) returns (s2: Spec, n: nat)
    requires WellFormed(s) && s.due != [] && Drain(s, scripts).Some?
    ensures Popped(s, Script(scripts, 0)) == Some(s2) && WellFormed(s2) && |s2.due| < |s.due|
    ensures s2.now == s.now && s2.rate == s.rate && Drain(s2, Rest(scripts)).Some?
    ensures |Drain(s, scripts).value.1| == n + 1 && n == |Drain(s2, Rest(scripts)).value.1|
    ensures Drain(s, scripts).value.0 == Drain(s2, Rest(scripts)).value.0
  {
    var later;
    s2, later := DrainStep(s, scripts);
    n := |later|;
    PoppedWellFormed(s, Script(scripts, 0));
    ApplyAllKeepsTime(s.(due := s.due[1..]), Script(scripts, 0));
  }

  lemma {:induction false} DrainStarts(s: Spec, scripts: seq<seq<Action>>, p: Pending, ms: Msec, j: nat, i: nat)
    requires WellFormed(s) && Drain(s, scripts).Some? && p.deadline == s.now + TickCount(s.rate, ms)
    requires StartedBy(scripts, p.elem, ms, j, i, |Drain(s, scripts).value.1|)
    ensures p in Drain(s, scripts).value.0.waiting
    decreases |s.due|
  {
    var s2, n := StepKeeps(s, scripts);
    if j == 0 {
      FirstStarts(s, scripts, p.elem, ms, i);
      SparedAfter(scripts, p.elem, ms, i, n);
      DrainWaiting(s2, Rest(scripts), p);
    } else {
      StartedLater(scripts, p.elem, ms, j, i, n);
      DrainStarts(s2, Rest(scripts), p, ms, j - 1, i);
    }
  }

  /** A timer that a callback starts counts its ticks from the one that follows, whether it was called in this one
      itself or not. */
  lemma TickStarts(s: Spec, scripts: seq<seq<Action>>, e: TimerElem, ms: Msec, j: nat, i: nat)
    requires WellFormed(s) && Tick(s, scripts).Some?
    requires StartedBy(scripts, e, ms, j, i, |Tick(s, scripts).value.1|)
    ensures var s' := Tick(s, scripts).value.0;
            && WellFormed(s') && s'.due == [] && s'.rate == s.rate && s'.now == s.now + 1
            && Pending(e, s'.now + TickCount(s.rate, ms)) in s'.waiting
  {
    TickWellFormed(s, scripts);
    ExpireWellFormed(s);
    DrainStarts(Expire(s), scripts, Pending(e, s.now + 1 + TickCount(s.rate, ms)), ms, j, i);
    DrainKeepsTime(Expire(s), scripts);
  }

  /** The rest of a clock call, from `c` on, and the history after it. */
  ghost function GoOn(c: Clock, scripts: Scripts, events: seq<Event>): Option<(Clock, seq<seq<Pending>>)> {
    var r := DriveLoop(c, scripts);
    if r.None? then None
    else
      var end := Run(r.value.0, events);
      if end.None? then None else Some((end.value.0, r.value.1 + end.value.1))
  }

  /** Nobody stops the pending timer before its turn, in the rest of the clock call or after it. */
  ghost predicate SparedOn(c: Clock, scripts: Scripts, events: seq<Event>, p: Pending)
    requires GoOn(c, scripts, events).Some?
  {
    var r := DriveLoop(c, scripts).value;
    SparedInLoop(c, scripts, p) && (|r.1| <= p.deadline - c.spec.now ==> SparedOver(r.0, events, p))
  }

  lemma WaitingOnTime(c: Clock, scripts: Scripts, events: seq<Event>, p: Pending)
    requires Between(c) && p in c.spec.waiting && GoOn(c, scripts, events).Some? && SparedOn(c, scripts, events, p)
    ensures p.deadline >= c.spec.now && OnTime(GoOn(c, scripts, events).value.1, p, p.deadline - c.spec.now)
  {
    var (c2, log) := DriveLoop(c, scripts).value;
    var k, later := p.deadline - c.spec.now, Run(c2, events).value.1;
    assert k >= 0 && OnTime(log, p, k) && (|log| <= k ==> p in c2.spec.waiting) by {
      DriveLoopOnTime(c, scripts, p);
    }
    assert Between(c2) && c2.spec.now == c.spec.now + |log| by {
      DriveLoopBetween(c, scripts);
      DriveLoopClock(c, scripts);
    }
    if |log| <= k {
      assert OnTime(later, p, k - |log|) by {
        RunOnTime(c2, events, p);
      }
    }
    OnTimeAppend(log, later, p, k);
  }

  /** A timer that a callback has started with a time-out of k ticks is called in the (k + 1)-th tick after the one of
      the callback, and in none before, if it is not stopped before its turn: in a later tick of the same clock call, or
      of whatever comes then.  So a timer that starts itself again is called every k + 1 ticks. */
  lemma RestartedOnTime(c: Clock, scripts: Scripts, e: TimerElem, ms: Msec, j: nat, i: nat, events: seq<Event>)
    requires Between(c) && c.accumulated >= c.spec.rate && Tick(c.spec, Script(scripts, 0)).Some?
    requires StartedBy(Script(scripts, 0), e, ms, j, i, |Tick(c.spec, Script(scripts, 0)).value.1|)
    requires GoOn(AfterTick(c, scripts), Rest(scripts), events).Some?
    requires SparedOn(AfterTick(c, scripts), Rest(scripts), events, StartedAs(AfterTick(c, scripts), e, ms))
    ensures OnTime(GoOn(AfterTick(c, scripts), Rest(scripts), events).value.1,
                   StartedAs(AfterTick(c, scripts), e, ms), TickCount(c.spec.rate, ms))
  {
    TickStarts(c.spec, Script(scripts, 0), e, ms, j, i);
    WaitingOnTime(AfterTick(c, scripts), Rest(scripts), events, StartedAs(AfterTick(c, scripts), e, ms));
  }
}
