/** The plain collection of (deadline, timer) pairs that a timer wheel stands for. */
module TimerSpec {
  import opened CallScripts
  import opened Options

  /** The number of values of the 32-bit tick counter. */
  const WRAP: nat := 0x1_0000_0000

  /** A time-out in milliseconds: a C `int` that is not negative. */
  type Msec = x: int | 0 <= x < 0x8000_0000

  type Pos = x: int | 0 < x witness 1

  /** `TimerElem`.  Whether it is running is a matter of the lists it is on; what its callback does is up to
      the client. */
  class TimerElem {
    var tick: nat

    constructor ()
      ensures tick == 0
    {
      tick := 0;
    }
  }

  /** One thing a callback, or anybody else, does to the timers. */
  datatype Action = Start(elem: TimerElem, expires: Msec) | Stop(elem: TimerElem)

  datatype Pending = Pending(elem: TimerElem, deadline: nat)

  /** `waiting` is in the order in which the timers were added; `due` holds the expired timers whose
      callbacks have yet to be called in the current tick. */
  datatype Spec = Spec(rate: Pos, now: nat, waiting: seq<Pending>, due: seq<Pending>)

  /** get_tick_from_milsec */
  function TickCount(rate: Pos, ms: Msec): (k: nat)
    ensures k < WRAP
  {
    if ms % rate != 0 && ms >= rate then ms / rate + 1 else ms / rate
  }

  // ---------------------------------------------------------------------------------------------
  // Lists of pending timers
  // ---------------------------------------------------------------------------------------------

  /** What lists are filtered by. */
  datatype Test =
    | IsNot(elem: TimerElem)
    | NotStoppedBy(script: seq<Action>)
    | DueAt(now: nat)
    | NotDueAt(now: nat)
    | Among(w: seq<Pending>)
    | InBucket(bucket: nat, buckets: Pos)
  {
    predicate Holds(p: Pending) {
      match this
      case IsNot(e) => p.elem != e
      case NotStoppedBy(script) => Stop(p.elem) !in script
      case DueAt(now) => p.deadline == now
      case NotDueAt(now) => p.deadline != now
      case Among(w) => p in w
      case InBucket(b, n) => p.deadline % WRAP % n == b
    }
  }

  function Filter(w: seq<Pending>, t: Test): (r: seq<Pending>)
    ensures |r| <= |w|
  {
    if w == [] then []
    else
      var init, last := w[..|w| - 1], w[|w| - 1];
      if t.Holds(last) then Filter(init, t) + [last] else Filter(init, t)
  }

  lemma {:induction false} FilterIn(w: seq<Pending>, t: Test)
    ensures forall p :: p in Filter(w, t) ==> p in w && t.Holds(p)
    ensures forall p :: p in w && t.Holds(p) ==> p in Filter(w, t)
  {
    if w == [] {
    } else {
      FilterIn(w[..|w| - 1], t);
      assert w == w[..|w| - 1] + [w[|w| - 1]];
    }
  }

  lemma FilterAppend(w: seq<Pending>, p: Pending, t: Test)
    ensures Filter(w + [p], t) == if t.Holds(p) then Filter(w, t) + [p] else Filter(w, t)
  {
    assert (w + [p])[..|w|] == w;
  }

  lemma {:induction false} FilterConcat(v: seq<Pending>, w: seq<Pending>, t: Test)
    ensures Filter(v + w, t) == Filter(v, t) + Filter(w, t)
  {
    if w == [] {
      assert v + w == v;
    } else {
      assert v + w == (v + w[..|w| - 1]) + [w[|w| - 1]];
      FilterConcat(v, w[..|w| - 1], t);
      FilterAppend(v + w[..|w| - 1], w[|w| - 1], t);
    }
  }

  lemma {:induction false} FilterComm(w: seq<Pending>, t: Test, u: Test)
    ensures Filter(Filter(w, t), u) == Filter(Filter(w, u), t)
  {
    if w == [] {
    } else {
      var init, last := w[..|w| - 1], w[|w| - 1];
      FilterComm(init, t, u);
      FilterAppend(Filter(init, t), last, u);
      FilterAppend(Filter(init, u), last, t);
    }
  }

  lemma {:induction false} FilterAll(w: seq<Pending>, t: Test)
    requires forall p :: p in w ==> t.Holds(p)
    ensures Filter(w, t) == w
  {
    if w == [] {
    } else {
      assert w[|w| - 1] in w;
      FilterAll(w[..|w| - 1], t);
    }
  }

  lemma {:induction false} FilterSame(w: seq<Pending>, t: Test, u: Test)
    requires forall p :: p in w ==> t.Holds(p) == u.Holds(p)
    ensures Filter(w, t) == Filter(w, u)
  {
    if w == [] {
    } else {
      assert w[|w| - 1] in w;
      FilterSame(w[..|w| - 1], t, u);
    }
  }

  /** Filtering by `t` before filtering by the stronger `u` changes nothing. */
  lemma {:induction false} FilterImplied(w: seq<Pending>, t: Test, u: Test)
    requires forall p :: p in w && u.Holds(p) ==> t.Holds(p)
    ensures Filter(Filter(w, t), u) == Filter(w, u)
  {
    if w == [] {
    } else {
      var init, last := w[..|w| - 1], w[|w| - 1];
      assert last in w;
      FilterImplied(init, t, u);
      FilterAppend(Filter(init, t), last, u);
    }
  }

  /** Timer `e` is on the list. */
  ghost predicate On(w: seq<Pending>, e: TimerElem) {
    exists p :: p in w && p.elem == e
  }

  /** No timer is on the list twice. */
  ghost predicate OnceEach(w: seq<Pending>) {
    forall i, j :: 0 <= i < j < |w| ==> w[i].elem != w[j].elem
  }

  lemma OnceUnique(w: seq<Pending>, p: Pending, q: Pending)
    requires OnceEach(w) && p in w && q in w && p.elem == q.elem
    ensures p == q
  {
  }

  lemma OnceSplit(w: seq<Pending>, p: Pending)
    ensures OnceEach(w + [p]) <==> OnceEach(w) && !On(w, p.elem)
  {
    var v := w + [p];
    if OnceEach(v) {
      assert forall i :: 0 <= i < |w| ==> v[i] == w[i];
      assert v[|w|] == p;
    }
  }

  lemma {:induction false} FilterOnce(w: seq<Pending>, t: Test)
    requires OnceEach(w)
    ensures OnceEach(Filter(w, t))
  {
    if w == [] {
    } else {
      var init, last := w[..|w| - 1], w[|w| - 1];
      assert w == init + [last];
      OnceSplit(init, last);
      FilterOnce(init, t);
      FilterIn(init, t);
      OnceSplit(Filter(init, t), last);
    }
  }

  // ---------------------------------------------------------------------------------------------
  // What the timers do
  // ---------------------------------------------------------------------------------------------

  ghost predicate Running(s: Spec, e: TimerElem) {
    On(s.waiting, e) || On(s.due, e)
  }

  /** Starting a running timer is a crash. */
  ghost function Apply(s: Spec, a: Action): (r: Option<Spec>)
    ensures r.Some? ==> |r.value.due| <= |s.due|
  {
    if a.Start? then
      if Running(s, a.elem) then None
      else Some(s.(waiting := s.waiting + [Pending(a.elem, s.now + TickCount(s.rate, a.expires))]))
    else
      Some(s.(waiting := Filter(s.waiting, IsNot(a.elem)), due := Filter(s.due, IsNot(a.elem))))
  }

  ghost function ApplyAll(s: Spec, script: seq<Action>): (r: Option<Spec>)
    ensures r.Some? ==> |r.value.due| <= |s.due|
    decreases |script|
  {
    if script == [] then Some(s)
    else
      var r := Apply(s, script[0]);
      if r.None? then None else ApplyAll(r.value, script[1..])
  }

  /** The state in which the callback of the first due timer has just been called. */
  ghost function Popped(s: Spec, script: seq<Action>): (r: Option<Spec>)
    requires s.due != []
    ensures r.Some? ==> |r.value.due| < |s.due|
  {
    ApplyAll(s.(due := s.due[1..]), script)
  }

  /** Calling the callbacks of the due timers one after the other.  The result is the state afterwards and
      the timers whose callbacks were called, in order. */
  ghost function Drain(s: Spec, scripts: seq<seq<Action>>): (r: Option<(Spec, seq<Pending>)>)
    decreases |s.due|
  {
    if s.due == [] then Some((s, []))
    else
      var r := Popped(s, Script(scripts, 0));
      if r.None? then None
      else
        var rest := Drain(r.value, Rest(scripts));
        if rest.None? then None else Some((rest.value.0, [s.due[0]] + rest.value.1))
  }

  ghost function Expire(s: Spec): Spec {
    s.(now := s.now + 1, waiting := Filter(s.waiting, NotDueAt(s.now)), due := Filter(s.waiting, DueAt(s.now)))
  }

  ghost function Tick(s: Spec, scripts: seq<seq<Action>>): Option<(Spec, seq<Pending>)> {
    Drain(Expire(s), scripts)
  }

  // ---------------------------------------------------------------------------------------------
  // What every action keeps
  // ---------------------------------------------------------------------------------------------

  /** No timer is on two lists, or twice on one, and no deadline has passed or is a full turn of the tick
      counter away. */
  ghost predicate WellFormed(s: Spec) {
    && OnceEach(s.waiting) && OnceEach(s.due)
    && (forall p, q :: p in s.waiting && q in s.due ==> p.elem != q.elem)
    && (forall p :: p in s.waiting ==> s.now <= p.deadline < s.now + WRAP)
  }

  /** A timer can be started exactly if it is not running.  Then it is the last one waiting, for the tick that its
      time-out stands for, and nothing else changes. */
  lemma StartRuns(s: Spec, e: TimerElem, ms: Msec)
    ensures Apply(s, Start(e, ms)).Some? <==> forall p :: p in s.waiting || p in s.due ==> p.elem != e
    ensures Apply(s, Start(e, ms)).Some? ==>
              var s' := Apply(s, Start(e, ms)).value;
              && |s'.waiting| == |s.waiting| + 1 && s'.waiting[..|s.waiting|] == s.waiting && s'.due == s.due
              && s'.waiting[|s.waiting|] == Pending(e, s.now + TickCount(s.rate, ms)) && s'.now == s.now
              && forall x :: Running(s', x) <==> Running(s, x) || x == e
  {
    if !Running(s, e) {
      var w, p := s.waiting, Pending(e, s.now + TickCount(s.rate, ms));
      assert forall q :: q in w + [p] <==> q in w || q == p;
      assert p in w + [p];
      forall x ensures On(w + [p], x) <==> On(w, x) || x == e {
        if On(w, x) {
          var q :| q in w && q.elem == x;
          assert q in w + [p];
        }
      }
    }
  }

  /** A timer can always be stopped.  Then it is not running, and every other timer waits as it did. */
  lemma StopRuns(s: Spec, e: TimerElem)
    ensures Apply(s, Stop(e)).Some?
    ensures var s' := Apply(s, Stop(e)).value;
            && (forall p :: p in s'.waiting <==> p in s.waiting && p.elem != e)
            && (forall p :: p in s'.due <==> p in s.due && p.elem != e)
            && forall x :: Running(s', x) <==> Running(s, x) && x != e
  {
    FilterIn(s.waiting, IsNot(e));
    FilterIn(s.due, IsNot(e));
    var s' := Apply(s, Stop(e)).value;
    forall x | Running(s, x) && x != e ensures Running(s', x) {
      var p :| (p in s.waiting || p in s.due) && p.elem == x;
      assert p in s'.waiting || p in s'.due;
    }
  }

  /** Taking timers off the lists, or from one list to the other, keeps the timers well-formed. */
  lemma FewerWellFormed(s: Spec, s': Spec)
    requires WellFormed(s) && OnceEach(s'.waiting) && OnceEach(s'.due)
    requires forall p :: p in s'.waiting ==> p in s.waiting && s'.now <= p.deadline < s'.now + WRAP
    requires forall p, q :: p in s'.waiting && q in s'.due ==> q in s.due || (q in s.waiting && p != q)
    ensures WellFormed(s')
  {
    forall p, q | p in s'.waiting && q in s'.due ensures p.elem != q.elem {
      if q in s.waiting && p.elem == q.elem {
        OnceUnique(s.waiting, p, q);
      }
    }
  }

  lemma ApplyWellFormed(s: Spec, a: Action)
    requires WellFormed(s) && Apply(s, a).Some?
    ensures WellFormed(Apply(s, a).value)
  {
    if a.Start? {
      OnceSplit(s.waiting, Pending(a.elem, s.now + TickCount(s.rate, a.expires)));
    } else {
      FilterOnce(s.waiting, IsNot(a.elem));
      FilterOnce(s.due, IsNot(a.elem));
      FilterIn(s.waiting, IsNot(a.elem));
      FilterIn(s.due, IsNot(a.elem));
      FewerWellFormed(s, Apply(s, a).value);
    }
  }

  lemma {:induction false} ApplyAllWellFormed(s: Spec, script: seq<Action>)
    requires WellFormed(s) && ApplyAll(s, script).Some?
    ensures WellFormed(ApplyAll(s, script).value)
    decreases |script|
  {
    if script == [] {
    } else {
      ApplyWellFormed(s, script[0]);
      ApplyAllWellFormed(Apply(s, script[0]).value, script[1..]);
    }
  }

  lemma PoppedWellFormed(s: Spec, script: seq<Action>)
    requires WellFormed(s) && s.due != [] && Popped(s, script).Some?
    ensures WellFormed(Popped(s, script).value)
  {
    ApplyAllWellFormed(s.(due := s.due[1..]), script);
  }

  lemma {:induction false} DrainWellFormed(s: Spec, scripts: seq<seq<Action>>)
    requires WellFormed(s) && Drain(s, scripts).Some?
    ensures WellFormed(Drain(s, scripts).value.0) && Drain(s, scripts).value.0.due == []
    decreases |s.due|
  {
    if s.due == [] {
    } else {
      PoppedWellFormed(s, Script(scripts, 0));
      DrainWellFormed(Popped(s, Script(scripts, 0)).value, Rest(scripts));
    }
  }

  lemma ExpireWellFormed(s: Spec)
    requires WellFormed(s)
    ensures WellFormed(Expire(s))
  {
    FilterOnce(s.waiting, NotDueAt(s.now));
    FilterOnce(s.waiting, DueAt(s.now));
    FilterIn(s.waiting, NotDueAt(s.now));
    FilterIn(s.waiting, DueAt(s.now));
    FewerWellFormed(s, Expire(s));
  }

  lemma TickWellFormed(s: Spec, scripts: seq<seq<Action>>)
    requires WellFormed(s) && Tick(s, scripts).Some?
    ensures WellFormed(Tick(s, scripts).value.0) && Tick(s, scripts).value.0.due == []
  {
    ExpireWellFormed(s);
    DrainWellFormed(Expire(s), scripts);
  }

  // ---------------------------------------------------------------------------------------------
  // What happens to one timer
  // ---------------------------------------------------------------------------------------------

  /** A callback can only take timers off the list of due ones; those it does not stop stay, in order. */
  lemma {:induction false} ApplyAllDue(s: Spec, script: seq<Action>)
    requires ApplyAll(s, script).Some?
    ensures ApplyAll(s, script).value.due == Filter(s.due, NotStoppedBy(script))
    decreases |script|
  {
    if script == [] {
      FilterAll(s.due, NotStoppedBy(script));
    } else {
      var a, rest := script[0], script[1..];
      ApplyAllDue(Apply(s, a).value, rest);
      assert script == [a] + rest;
      if a.Start? {
        FilterSame(s.due, NotStoppedBy(rest), NotStoppedBy(script));
      } else {
        FilterIn(s.due, IsNot(a.elem));
        FilterSame(Filter(s.due, IsNot(a.elem)), NotStoppedBy(rest), NotStoppedBy(script));
        FilterImplied(s.due, IsNot(a.elem), NotStoppedBy(script));
      }
    }
  }

  /** A pending timer that a callback does not stop stays as it is. */
  lemma {:induction false} ApplyAllWaiting(s: Spec, script: seq<Action>, p: Pending)
    requires p in s.waiting && Stop(p.elem) !in script && ApplyAll(s, script).Some?
    ensures p in ApplyAll(s, script).value.waiting
    decreases |script|
  {
    if script == [] {
    } else {
      var a := script[0];
      assert a in script;
      FilterIn(s.waiting, IsNot(a.elem));
      ApplyAllWaiting(Apply(s, a).value, script[1..], p);
    }
  }

  ghost predicate StartsIn(script: seq<Action>, e: TimerElem) {
    exists a :: a in script && a.Start? && a.elem == e
  }

  /** A timer that is not running and not started stays so. */
  lemma {:induction false} ApplyAllIdle(s: Spec, script: seq<Action>, e: TimerElem)
    requires !Running(s, e) && ApplyAll(s, script).Some? && !StartsIn(script, e)
    ensures !Running(ApplyAll(s, script).value, e)
    decreases |script|
  {
    if script == [] {
    } else {
      var a := script[0];
      assert a in script;
      FilterIn(s.waiting, IsNot(a.elem));
      FilterIn(s.due, IsNot(a.elem));
      ApplyAllIdle(Apply(s, a).value, script[1..], e);
    }
  }

  /** A timer that is stopped and not started is not running afterwards. */
  lemma {:induction false} ApplyAllStops(s: Spec, script: seq<Action>, e: TimerElem)
    requires Stop(e) in script && !StartsIn(script, e) && ApplyAll(s, script).Some?
    ensures !Running(ApplyAll(s, script).value, e)
    decreases |script|
  {
    var a, rest := script[0], script[1..];
    assert script == [a] + rest;
    if a == Stop(e) {
      FilterIn(s.waiting, IsNot(e));
      FilterIn(s.due, IsNot(e));
      ApplyAllIdle(Apply(s, a).value, rest, e);
    } else {
      ApplyAllStops(Apply(s, a).value, rest, e);
    }
  }

  /** A timer that is not waiting and not started does not wait afterwards. */
  lemma {:induction false} ApplyAllNotWaiting(s: Spec, script: seq<Action>, e: TimerElem)
    requires !On(s.waiting, e) && ApplyAll(s, script).Some? && !StartsIn(script, e)
    ensures !On(ApplyAll(s, script).value.waiting, e)
    decreases |script|
  {
    if script == [] {
    } else {
      var a := script[0];
      assert a in script;
      FilterIn(s.waiting, IsNot(a.elem));
      ApplyAllNotWaiting(Apply(s, a).value, script[1..], e);
    }
  }

  /** The first call, and the state that the others start from. */
  lemma DrainStep(s: Spec, scripts: seq<seq<Action>>) returns (s2: Spec, later: seq<Pending>)
    requires s.due != [] && Drain(s, scripts).Some?
    ensures Popped(s, Script(scripts, 0)) == Some(s2)
    ensures Drain(s2, Rest(scripts)).Some? && later == Drain(s2, Rest(scripts)).value.1
    ensures Drain(s, scripts).value == (Drain(s2, Rest(scripts)).value.0, [s.due[0]] + later)
    ensures s2.due == Filter(s.due[1..], NotStoppedBy(Script(scripts, 0))) && |s2.due| < |s.due|
  {
    s2 := Popped(s, Script(scripts, 0)).value;
    later := Drain(s2, Rest(scripts)).value.1;
    ApplyAllDue(s.(due := s.due[1..]), Script(scripts, 0));
  }

  lemma OnceFirst(p: Pending, rest: seq<Pending>)
    ensures OnceEach([p] + rest) <==> OnceEach(rest) && !On(rest, p.elem)
  {
    var w := [p] + rest;
    if OnceEach(w) {
      forall i, j | 0 <= i < j < |rest| ensures rest[i].elem != rest[j].elem {
        assert w[i + 1].elem != w[j + 1].elem;
      }
      forall i | 0 <= i < |rest| ensures rest[i].elem != p.elem {
        assert w[0].elem != w[i + 1].elem;
      }
    }
  }

  lemma FilterFirst(p: Pending, rest: seq<Pending>, t: Test)
    ensures Filter([p] + rest, t) == (if t.Holds(p) then [p] else []) + Filter(rest, t)
  {
    FilterConcat([p], rest, t);
    FilterAppend([], p, t);
    assert [] + [p] == [p];
  }

  /** If the later calls are of some of the rest, in order, then all the calls are of some of the due ones. */
  lemma OrderStep(p: Pending, rest: seq<Pending>, t: Test, later: seq<Pending>)
    requires OnceEach([p] + rest) && OnceEach(later)
    requires later == Filter(Filter(rest, t), Among(later))
    ensures var fired := [p] + later; OnceEach(fired) && fired == Filter([p] + rest, Among(fired))
  {
    var fired := [p] + later;
    OnceFirst(p, rest);
    FilterIn(Filter(rest, t), Among(later));
    FilterIn(rest, t);
    FilterImplied(rest, t, Among(later));
    FilterSame(rest, Among(later), Among(fired));
    FilterFirst(p, rest, Among(fired));
    OnceFirst(p, later);
  }

  /** Whoever is called was due, is called once, and in the order of the list of due timers. */
  lemma {:induction false} DrainOrder(s: Spec, scripts: seq<seq<Action>>)
    requires OnceEach(s.due) && Drain(s, scripts).Some?
    ensures var fired := Drain(s, scripts).value.1; OnceEach(fired) && fired == Filter(s.due, Among(fired))
    decreases |s.due|
  {
    if s.due == [] {
    } else {
      var p, rest := s.due[0], s.due[1..];
      assert s.due == [p] + rest;
      OnceFirst(p, rest);
      var s2, later := DrainStep(s, scripts);
      FilterOnce(rest, NotStoppedBy(Script(scripts, 0)));
      DrainOrder(s2, Rest(scripts));
      OrderStep(p, rest, NotStoppedBy(Script(scripts, 0)), later);
    }
  }

  /** None of the first `n` callbacks of a tick stops timer `e`. */
  ghost predicate Spared(scripts: seq<seq<Action>>, e: TimerElem, n: nat) {
    forall j :: 0 <= j < n ==> Stop(e) !in Script(scripts, j)
  }

  lemma SparedStep(scripts: seq<seq<Action>>, e: TimerElem, n: nat)
    ensures Spared(scripts, e, n + 1) <==> Stop(e) !in Script(scripts, 0) && Spared(Rest(scripts), e, n)
  {
    ScriptRest(scripts);
    if Spared(Rest(scripts), e, n) {
      assert forall j :: 0 < j < n + 1 ==> Script(scripts, j) == Script(Rest(scripts), j - 1);
    }
  }

  /** How many callbacks are called before the turn of the timers after `before`. */
  ghost function Turn(before: seq<Pending>, fired: seq<Pending>): nat {
    |Filter(before, Among(fired))|
  }

  lemma TurnStep(p: Pending, before: seq<Pending>, t: Test, later: seq<Pending>)
    requires p !in before && forall x :: x in later ==> t.Holds(x)
    ensures Turn([p] + before, [p] + later) == 1 + Turn(Filter(before, t), later)
  {
    FilterImplied(before, t, Among(later));
    FilterSame(before, Among(later), Among([p] + later));
    FilterFirst(p, before, Among([p] + later));
  }

  /** A due timer's callback is called exactly if no callback that is called before its turn stops it. */
  lemma {:induction false} DrainTurn(s: Spec, scripts: seq<seq<Action>>, before: seq<Pending>, p: Pending,
                                     after: seq<Pending>)
    requires OnceEach(s.due) && s.due == before + [p] + after && Drain(s, scripts).Some?
    ensures var fired := Drain(s, scripts).value.1; p in fired <==> Spared(scripts, p.elem, Turn(before, fired))
    decreases |s.due|, 0
  {
    var s2, later := DrainStep(s, scripts);
    if before == [] {
      assert s.due[0] == p;
    } else {
      var p0, b := before[0], before[1..];
      assert before == [p0] + b && s.due == [p0] + (b + [p] + after);
      DrainTurnLater(s2, scripts, s.due, p0, b, p, after, later);
    }
  }

  lemma {:induction false} DrainTurnLater(s2: Spec, scripts: seq<seq<Action>>, due: seq<Pending>, p0: Pending,
                                          b: seq<Pending>, p: Pending, a: seq<Pending>, later: seq<Pending>)
    requires OnceEach(due) && due == [p0] + (b + [p] + a)
    requires s2.due == Filter(due[1..], NotStoppedBy(Script(scripts, 0))) && |s2.due| < |due|
    requires Drain(s2, Rest(scripts)).Some? && later == Drain(s2, Rest(scripts)).value.1
    ensures p in [p0] + later <==> Spared(scripts, p.elem, Turn([p0] + b, [p0] + later))
    decreases |s2.due|, 1
  {
    var t, rest := NotStoppedBy(Script(scripts, 0)), b + [p] + a;
    assert due[1..] == rest && rest[|b|] == p;
    OnceFirst(p0, rest);
    FilterOnce(rest, t);
    FilterIn(rest, t);
    DrainOrder(s2, Rest(scripts));
    FilterIn(s2.due, Among(later));
    assert forall x :: x in b ==> x in rest;
    TurnStep(p0, b, t, later);
    SparedStep(scripts, p.elem, Turn(Filter(b, t), later));
    if t.Holds(p) {
      FilterConcat(b + [p], a, t);
      FilterAppend(b, p, t);
      DrainTurn(s2, Rest(scripts), Filter(b, t), p, Filter(a, t));
    }
  }

  // ---------------------------------------------------------------------------------------------
  // What happens to one timer in a tick
  // ---------------------------------------------------------------------------------------------

  /** None of the first `n` callbacks of a tick starts timer `e`. */
  ghost predicate Unstarted(scripts: seq<seq<Action>>, e: TimerElem, n: nat) {
    forall j :: 0 <= j < n ==> !StartsIn(Script(scripts, j), e)
  }

  lemma UnstartedStep(scripts: seq<seq<Action>>, e: TimerElem, n: nat)
    ensures Unstarted(scripts, e, n + 1) <==> !StartsIn(Script(scripts, 0), e) && Unstarted(Rest(scripts), e, n)
  {
    ScriptRest(scripts);
    if Unstarted(Rest(scripts), e, n) {
      assert forall j :: 0 < j < n + 1 ==> Script(scripts, j) == Script(Rest(scripts), j - 1);
    }
  }

  /** A timer that waits and is not stopped goes on waiting, and is not called. */
  lemma {:induction false} DrainWaiting(s: Spec, scripts: seq<seq<Action>>, p: Pending)
    requires WellFormed(s) && p in s.waiting && Drain(s, scripts).Some?
    requires Spared(scripts, p.elem, |Drain(s, scripts).value.1|)
    ensures p in Drain(s, scripts).value.0.waiting
    decreases |s.due|
  {
    if s.due == [] {
    } else {
      var s2, later := DrainStep(s, scripts);
      SparedStep(scripts, p.elem, |later|);
      PoppedWellFormed(s, Script(scripts, 0));
      ApplyAllWaiting(s.(due := s.due[1..]), Script(scripts, 0), p);
      DrainWaiting(s2, Rest(scripts), p);
    }
  }

  /** A timer that is not running and not started stays so, and is not called. */
  lemma {:induction false} DrainIdle(s: Spec, scripts: seq<seq<Action>>, e: TimerElem)
    requires !Running(s, e) && Drain(s, scripts).Some? && Unstarted(scripts, e, |Drain(s, scripts).value.1|)
    ensures !Running(Drain(s, scripts).value.0, e) && !On(Drain(s, scripts).value.1, e)
    decreases |s.due|
  {
    if s.due == [] {
    } else {
      var s2, later := DrainStep(s, scripts);
      assert s.due[0] in s.due;
      UnstartedStep(scripts, e, |later|);
      ApplyAllIdle(s.(due := s.due[1..]), Script(scripts, 0), e);
      DrainIdle(s2, Rest(scripts), e);
    }
  }

  /** A timer that does not wait and is not started does not wait afterwards. */
  lemma {:induction false} DrainNotWaiting(s: Spec, scripts: seq<seq<Action>>, e: TimerElem)
    requires !On(s.waiting, e) && Drain(s, scripts).Some? && Unstarted(scripts, e, |Drain(s, scripts).value.1|)
    ensures !On(Drain(s, scripts).value.0.waiting, e)
    decreases |s.due|
  {
    if s.due == [] {
    } else {
      var s2, later := DrainStep(s, scripts);
      UnstartedStep(scripts, e, |later|);
      ApplyAllNotWaiting(s.(due := s.due[1..]), Script(scripts, 0), e);
      DrainNotWaiting(s2, Rest(scripts), e);
    }
  }

  /** A timer that waits and is stopped by one of the callbacks, and not started again, is not running afterwards. */
  lemma {:induction false} DrainStopped(s: Spec, scripts: seq<seq<Action>>, p: Pending)
    requires WellFormed(s) && p in s.waiting && Drain(s, scripts).Some?
    requires var n := |Drain(s, scripts).value.1|; !Spared(scripts, p.elem, n) && Unstarted(scripts, p.elem, n)
    ensures !Running(Drain(s, scripts).value.0, p.elem)
    decreases |s.due|
  {
    if s.due == [] {
    } else {
      var s2, later := DrainStep(s, scripts);
      var popped := s.(due := s.due[1..]);
      SparedStep(scripts, p.elem, |later|);
      UnstartedStep(scripts, p.elem, |later|);
      PoppedWellFormed(s, Script(scripts, 0));
      if Stop(p.elem) in Script(scripts, 0) {
        ApplyAllStops(popped, Script(scripts, 0), p.elem);
        DrainIdle(s2, Rest(scripts), p.elem);
      } else {
        ApplyAllWaiting(popped, Script(scripts, 0), p);
        DrainStopped(s2, Rest(scripts), p);
      }
    }
  }

  /** Where `p` comes first on a list. */
  function Place(w: seq<Pending>, p: Pending): (i: nat)
    ensures i <= |w| && (p in w ==> i < |w| && w[i] == p)
  {
    if w == [] || w[0] == p then 0 else 1 + Place(w[1..], p)
  }

  /** The timers ahead of `p` on a list. */
  function Ahead(w: seq<Pending>, p: Pending): seq<Pending> {
    w[..Place(w, p)]
  }

  /** No callback of a tick stops the timer: in the tick of its deadline, none before its turn. */
  ghost predicate SparedInTick(s: Spec, scripts: seq<seq<Action>>, p: Pending)
    requires Tick(s, scripts).Some?
  {
    var fired := Tick(s, scripts).value.1;
    Spared(scripts, p.elem, if p.deadline == s.now then Turn(Ahead(Expire(s).due, p), fired) else |fired|)
  }
}
