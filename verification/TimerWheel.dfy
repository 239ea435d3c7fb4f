/** The hashed timer wheel: buckets indexed by an absolute 32-bit tick, and the list that a tick drains. */
module TimerWheel {
  import opened CallScripts
  import opened Options
  import opened TimerSpec
  import opened TimerHistory
  import opened TimerClock

  // ---------------------------------------------------------------------------------------------
  // The lists of timers, and the pending timers they stand for
  // ---------------------------------------------------------------------------------------------

  function Elems(w: seq<Pending>): (r: seq<TimerElem>)
    ensures |r| == |w|
  {
    if w == [] then [] else Elems(w[..|w| - 1]) + [w[|w| - 1].elem]
  }

  lemma {:induction false} ElemsAt(w: seq<Pending>)
    ensures forall i :: 0 <= i < |w| ==> Elems(w)[i] == w[i].elem
  {
    if w == [] {
    } else {
      ElemsAt(w[..|w| - 1]);
    }
  }

  lemma ElemsOn(w: seq<Pending>, e: TimerElem)
    ensures e in Elems(w) <==> On(w, e)
  {
    ElemsAt(w);
    if On(w, e) {
      var p :| p in w && p.elem == e;
      var i :| 0 <= i < |w| && w[i] == p;
      assert Elems(w)[i] == e;
    }
    if e in Elems(w) {
      var i :| 0 <= i < |w| && Elems(w)[i] == e;
      assert w[i] in w;
    }
  }

  lemma ElemsAppend(w: seq<Pending>, p: Pending)
    ensures Elems(w + [p]) == Elems(w) + [p.elem]
  {
    assert (w + [p])[..|w|] == w;
  }

  lemma ElemsFirst(w: seq<Pending>)
    requires w != []
    ensures Elems(w)[0] == w[0].elem && Elems(w)[1..] == Elems(w[1..])
  {
    ElemsAt(w);
    ElemsAt(w[1..]);
  }

  /** Taking a timer off a list. */
  function Unlink(l: seq<TimerElem>, e: TimerElem): seq<TimerElem> {
    if l == [] then []
    else if l[|l| - 1] == e then Unlink(l[..|l| - 1], e) else Unlink(l[..|l| - 1], e) + [l[|l| - 1]]
  }

  lemma {:induction false} UnlinkElems(w: seq<Pending>, e: TimerElem)
    ensures Unlink(Elems(w), e) == Elems(Filter(w, IsNot(e)))
  {
    if w == [] {
    } else {
      var init, last := w[..|w| - 1], w[|w| - 1];
      UnlinkElems(init, e);
      assert Elems(w)[..|w| - 1] == Elems(init);
      ElemsAppend(Filter(init, IsNot(e)), last);
    }
  }

  // ---------------------------------------------------------------------------------------------
  // Ticks modulo the counter
  // ---------------------------------------------------------------------------------------------

  lemma WrapAdd(now: nat, k: nat)
    ensures (now % WRAP + k) % WRAP == (now + k) % WRAP
  {
  }

  /** Within one turn of the counter, its value tells the tick. */
  lemma WrapUnique(now: nat, deadline: nat)
    requires now <= deadline < now + WRAP
    ensures deadline % WRAP == now % WRAP <==> deadline == now
  {
  }

  function Bucket(w: seq<Pending>, b: nat, n: Pos): seq<TimerElem> {
    Elems(Filter(w, InBucket(b, n)))
  }

  /** The state of the wheel, seen as the plain collection `s`. */
  ghost predicate Represents(s: Spec, n: Pos, tick: nat, buckets: seq<seq<TimerElem>>, due: seq<TimerElem>) {
    && WellFormed(s) && tick == s.now % WRAP && |buckets| == n && due == Elems(s.due)
    && forall b :: 0 <= b < n ==> buckets[b] == Bucket(s.waiting, b, n)
  }

  lemma StartBuckets(s: Spec, n: Pos, p: Pending, b: nat)
    ensures Bucket(s.waiting + [p], b, n) == Bucket(s.waiting, b, n) 
                                             + if p.deadline % WRAP % n == b then [p.elem] else []
  {
    FilterAppend(s.waiting, p, InBucket(b, n));
    ElemsAppend(Filter(s.waiting, InBucket(b, n)), p);
  }

  /** Appending a started timer to the bucket of its tick. */
  lemma StartRepresents(s: Spec, n: Pos, tick: nat, buckets: seq<seq<TimerElem>>, due: seq<TimerElem>, e: TimerElem,
                        ms: Msec, target: nat)
    requires Represents(s, n, tick, buckets, due) && !Running(s, e)
    requires target < n && target == (s.now + TickCount(s.rate, ms)) % WRAP % n
    ensures Represents(Apply(s, Start(e, ms)).value, n, tick, buckets[target := buckets[target] + [e]], due)
  {
    var p := Pending(e, s.now + TickCount(s.rate, ms));
    forall b | 0 <= b < n ensures buckets[target := buckets[target] + [e]][b] == Bucket(s.waiting + [p], b, n) {
      StartBuckets(s, n, p, b);
    }
    ApplyWellFormed(s, Start(e, ms));
  }

  lemma StopBuckets(s: Spec, n: Pos, e: TimerElem, b: nat)
    ensures Bucket(Filter(s.waiting, IsNot(e)), b, n) == Unlink(Bucket(s.waiting, b, n), e)
  {
    FilterComm(s.waiting, IsNot(e), InBucket(b, n));
    UnlinkElems(Filter(s.waiting, InBucket(b, n)), e);
  }

  /** Only the bucket of the current tick holds timers that are due, and it holds them all. */
  lemma ExpireBuckets(s: Spec, n: Pos, current: nat, b: nat)
    requires WellFormed(s) && current == s.now % WRAP % n
    ensures var w := Filter(s.waiting, InBucket(b, n));
            && Bucket(Expire(s).waiting, b, n) == Elems(if b == current then Filter(w, NotDueAt(s.now)) else w)
            && (b == current ==> Expire(s).due == Filter(w, DueAt(s.now)))
  {
    var w := Filter(s.waiting, InBucket(b, n));
    FilterComm(s.waiting, NotDueAt(s.now), InBucket(b, n));
    FilterIn(s.waiting, InBucket(b, n));
    if b == current {
      FilterImplied(s.waiting, InBucket(b, n), DueAt(s.now));
    } else {
      FilterAll(w, NotDueAt(s.now));
    }
  }

  /** Part of the bucket of tick `now` has been scanned: `w` are the pending timers it stood for, `i` of
      them have been looked at, and `j` of those have been left where they are. */
  ghost predicate Scanned(w: seq<Pending>, i: nat, now: nat, bucket: seq<TimerElem>, due: seq<TimerElem>, j: nat) {
    && i <= |w| && j == |Filter(w[..i], NotDueAt(now))|
    && bucket == Elems(Filter(w[..i], NotDueAt(now))) + Elems(w[i..])
    && due == Elems(Filter(w[..i], DueAt(now)))
  }

  lemma ElemsCons(p: Pending, w: seq<Pending>)
    ensures Elems([p] + w) == [p.elem] + Elems(w)
  {
    ElemsFirst([p] + w);
    assert ([p] + w)[1..] == w;
  }

  lemma CutAt(a: seq<TimerElem>, e: TimerElem, b: seq<TimerElem>)
    ensures var l := a + ([e] + b); l[|a|] == e && l[..|a|] + l[|a| + 1..] == a + b && l == (a + [e]) + b
  {
  }

  lemma ScanStep(w: seq<Pending>, i: nat, now: nat, bucket: seq<TimerElem>, due: seq<TimerElem>, j: nat)
    requires Scanned(w, i, now, bucket, due, j) && i < |w|
    ensures j < |bucket| && bucket[j] == w[i].elem
    ensures if w[i].deadline == now then Scanned(w, i + 1, now, bucket[..j] + bucket[j + 1..], due + [bucket[j]], j)
            else Scanned(w, i + 1, now, bucket, due, j + 1)
  {
    var p, kept, hit := w[i], Filter(w[..i], NotDueAt(now)), Filter(w[..i], DueAt(now));
    assert w[..i + 1] == w[..i] + [p] && w[i..] == [p] + w[i + 1..];
    ElemsCons(p, w[i + 1..]);
    FilterAppend(w[..i], p, NotDueAt(now));
    FilterAppend(w[..i], p, DueAt(now));
    ElemsAppend(kept, p);
    ElemsAppend(hit, p);
    CutAt(Elems(kept), p.elem, Elems(w[i + 1..]));
  }

  lemma ExpiredBucket(s: Spec, n: Pos, buckets: seq<seq<TimerElem>>, bucket: seq<TimerElem>, current: nat, b: nat)
    requires WellFormed(s) && |buckets| == n && current == s.now % WRAP % n && b < n
    requires buckets[b] == Bucket(s.waiting, b, n)
    requires bucket == Elems(Filter(Filter(s.waiting, InBucket(current, n)), NotDueAt(s.now)))
    ensures buckets[current := bucket][b] == Bucket(Expire(s).waiting, b, n)
  {
    ExpireBuckets(s, n, current, b);
  }

  /** After the scan of the bucket of the current tick, the wheel stands for the expired collection. */
  lemma ExpireRepresents(s: Spec, n: Pos, tick: nat, buckets: seq<seq<TimerElem>>, bucket: seq<TimerElem>,
                         due: seq<TimerElem>, current: nat)
    requires Represents(s, n, tick, buckets, []) && current == tick % n && current < n
    requires bucket == Elems(Filter(Filter(s.waiting, InBucket(current, n)), NotDueAt(s.now)))
    requires due == Elems(Filter(Filter(s.waiting, InBucket(current, n)), DueAt(s.now)))
    ensures Represents(Expire(s), n, (tick + 1) % WRAP, buckets[current := bucket], due)
  {
    assert WellFormed(Expire(s)) by {
      ExpireWellFormed(s);
    }
    assert (tick + 1) % WRAP == (s.now + 1) % WRAP by {
      WrapAdd(s.now, 1);
    }
    assert due == Elems(Expire(s).due) by {
      ExpireBuckets(s, n, current, current);
    }
    forall b | 0 <= b < n ensures buckets[current := bucket][b] == Bucket(Expire(s).waiting, b, n) {
      ExpiredBucket(s, n, buckets, bucket, current, b);
    }
  }

  /** The timers of `w` carry their deadlines, none of which has passed, modulo the counter. */
  ghost predicate Stamped(w: seq<Pending>, now: nat)
    reads set p | p in w :: p.elem
  {
    forall p :: p in w ==> now <= p.deadline < now + WRAP && p.elem.tick == p.deadline % WRAP
  }

  /** The scan of timer_tick: the timers that expire now move from their bucket to the list of due ones. */
  method Scan(tick: nat, bucket0: seq<TimerElem>, ghost w: seq<Pending>, ghost now: nat)
    returns (bucket: seq<TimerElem>, due: seq<TimerElem>)
    requires bucket0 == Elems(w) && tick == now % WRAP && Stamped(w, now)
    ensures bucket == Elems(Filter(w, NotDueAt(now))) && due == Elems(Filter(w, DueAt(now)))
  {
    bucket, due := bucket0, [];
    var j := 0;
    ghost var i := 0;
    assert w[0..] == w;
    while j < |bucket|
      invariant Scanned(w, i, now, bucket, due, j)
      decreases |w| - i
    {
      var p := bucket[j];
      ScanStep(w, i, now, bucket, due, j);
      assert w[i] in w;
      WrapUnique(now, w[i].deadline);
      if p.tick == tick {
        bucket := bucket[..j] + bucket[j + 1..];
        due := due + [p];
      } else {
        j := j + 1;
      }
      i := i + 1;
    }
    assert w[..i] == w;
  }

  // ---------------------------------------------------------------------------------------------
  // The timer manager
  // ---------------------------------------------------------------------------------------------

  /** The timers that a script starts. */
  ghost function Started(script: seq<Action>): set<TimerElem> {
    set a | a in script && a.Start? :: a.elem
  }

  ghost function StartedBy(scripts: seq<seq<Action>>): set<TimerElem> {
    set script, e | script in scripts && e in Started(script) :: e
  }

  /** Draining `s` comes to calling `called` and then draining `s'`. */
  ghost predicate Continues(s: Spec, scripts: seq<seq<Action>>, s': Spec, rest: seq<seq<Action>>,
                            called: seq<Pending>) {
    var r := Drain(s', rest);
    Drain(s, scripts) == if r.None? then None else Some((r.value.0, called + r.value.1))
  }

  lemma ContinuesHere(s: Spec, scripts: seq<seq<Action>>)
    ensures Continues(s, scripts, s, scripts, [])
  {
    var r := Drain(s, scripts);
    if r.Some? {
      assert [] + r.value.1 == r.value.1;
    }
  }

  lemma ContinuesEnd(s: Spec, scripts: seq<seq<Action>>, s1: Spec, rest: seq<seq<Action>>, called: seq<Pending>)
    requires Continues(s, scripts, s1, rest, called) && s1.due == []
    ensures Drain(s, scripts) == Some((s1, called))
  {
    assert called + [] == called;
  }

  lemma ContinuesStep(s: Spec, scripts: seq<seq<Action>>, s1: Spec, rest: seq<seq<Action>>, called: seq<Pending>)
    requires Continues(s, scripts, s1, rest, called) && s1.due != []
    ensures var r := Popped(s1, Script(rest, 0));
            if r.None? then Drain(s, scripts).None?
            else Continues(s, scripts, r.value, Rest(rest), called + [s1.due[0]])
  {
    var r := Popped(s1, Script(rest, 0));
    if r.Some? && Drain(r.value, Rest(rest)).Some? {
      var later := Drain(r.value, Rest(rest)).value.1;
      assert called + ([s1.due[0]] + later) == (called + [s1.due[0]]) + later;
    }
  }

  ghost function StartedByAny(scripts: Scripts): set<TimerElem> {
    set tick, e | tick in scripts && e in StartedBy(tick) :: e
  }

  function ElemsOf(log: seq<seq<Pending>>): (r: seq<seq<TimerElem>>)
    ensures |r| == |log|
  {
    if log == [] then [] else ElemsOf(log[..|log| - 1]) + [Elems(log[|log| - 1])]
  }

  lemma ElemsOfAppend(log: seq<seq<Pending>>, t: seq<Pending>)
    ensures ElemsOf(log + [t]) == ElemsOf(log) + [Elems(t)]
  {
    assert (log + [t])[..|log|] == log;
  }

  /** Driving from `c` comes to the ticks of `log` and then driving from `c1`. */
  ghost predicate GoesOn(c: Clock, scripts: Scripts, c1: Clock, rest: Scripts, log: seq<seq<Pending>>) {
    var r := DriveLoop(c1, rest);
    DriveLoop(c, scripts) == if r.None? then None else Some((r.value.0, log + r.value.1))
  }

  lemma GoesOnHere(c: Clock, scripts: Scripts)
    ensures GoesOn(c, scripts, c, scripts, [])
  {
    var r := DriveLoop(c, scripts);
    if r.Some? {
      assert [] + r.value.1 == r.value.1;
    }
  }

  lemma GoesOnEnd(c: Clock, scripts: Scripts, c1: Clock, rest: Scripts, log: seq<seq<Pending>>)
    requires GoesOn(c, scripts, c1, rest, log) && c1.accumulated < c1.spec.rate
    ensures DriveLoop(c, scripts) == Some((c1, log))
  {
    assert log + [] == log;
  }

  lemma GoesOnStep(c: Clock, scripts: Scripts, c1: Clock, rest: Scripts, log: seq<seq<Pending>>)
    requires GoesOn(c, scripts, c1, rest, log) && c1.accumulated >= c1.spec.rate
    ensures var r := Tick(c1.spec, Script(rest, 0));
            if r.None? then DriveLoop(c, scripts).None?
            else GoesOn(c, scripts, Clock(r.value.0, c1.accumulated - c1.spec.rate), Rest(rest), log + [r.value.1])
  {
    var t := Tick(c1.spec, Script(rest, 0));
    if t.Some? {
      var r := DriveLoop(Clock(t.value.0, c1.accumulated - c1.spec.rate), Rest(rest));
      if r.Some? {
        assert log + ([t.value.1] + r.value.1) == (log + [t.value.1]) + r.value.1;
      }
    }
  }

  lemma {:induction false} ElemsOfConcat(log: seq<seq<Pending>>, more: seq<seq<Pending>>)
    ensures ElemsOf(log + more) == ElemsOf(log) + ElemsOf(more)
  {
    if more == [] {
      assert log + more == log;
    } else {
      ElemsOfConcat(log, more[..|more| - 1]);
      assert log + more == (log + more[..|more| - 1]) + [more[|more| - 1]];
      ElemsOfAppend(log + more[..|more| - 1], more[|more| - 1]);
    }
  }

  ghost function StartedIn(e: Event): set<TimerElem> {
    match e
    case Do(a) => Started([a])
    case Drive(_, scripts) => StartedByAny(scripts)
  }

  ghost function StartedInAny(events: seq<Event>): set<TimerElem> {
    set e, t | e in events && t in StartedIn(e) :: t
  }

  /** The history `events` from `c` comes to the ticks of `log` and then the history `rest` from `c1`. */
  ghost predicate Plays(c: Clock, events: seq<Event>, c1: Clock, rest: seq<Event>, log: seq<seq<Pending>>) {
    var r := Run(c1, rest);
    Run(c, events) == if r.None? then None else Some((r.value.0, log + r.value.1))
  }

  lemma PlaysHere(c: Clock, events: seq<Event>)
    ensures Plays(c, events, c, events[0..], [])
  {
    assert events[0..] == events;
    var r := Run(c, events);
    if r.Some? {
      assert [] + r.value.1 == r.value.1;
    }
  }

  lemma PlaysEnd(c: Clock, events: seq<Event>, c1: Clock, log: seq<seq<Pending>>)
    requires Plays(c, events, c1, [], log)
    ensures Run(c, events) == Some((c1, log))
  {
    assert log + [] == log;
  }

  lemma PlaysStep(c: Clock, events: seq<Event>, c1: Clock, rest: seq<Event>, log: seq<seq<Pending>>)
    requires Plays(c, events, c1, rest, log) && rest != []
    ensures var h := Handle(c1, rest[0]);
            if h.None? then Run(c, events).None?
            else Plays(c, events, h.value.0, rest[1..], log + h.value.1)
  {
    var h := Handle(c1, rest[0]);
    if h.Some? && Run(h.value.0, rest[1..]).Some? {
      var more := Run(h.value.0, rest[1..]).value.1;
      assert log + (h.value.1 + more) == (log + h.value.1) + more;
    }
  }

  class Timer {
    const numBuckets: Pos
    const tickRate: Pos
    var tick: nat
    var buckets: seq<seq<TimerElem>>
    var timeoutList: seq<TimerElem>  // local to timer_tick, but within reach of the callbacks it calls
    var accumulated: nat
    ghost var spec: Spec

    ghost predicate Valid()
      reads this, set p | p in spec.waiting :: p.elem
    {
      && Represents(spec, numBuckets, tick, buckets, timeoutList) && spec.rate == tickRate
      && forall p :: p in spec.waiting ==> p.elem.tick == p.deadline % WRAP
    }

    /** init_timer */
    constructor (rate: Pos, n: Pos)
      ensures Valid() && spec == Spec(rate, 0, [], []) && accumulated == rate && numBuckets == n
    {
      numBuckets, tickRate, tick := n, rate, 0;
      buckets := seq(n, _ => []);
      timeoutList := [];
      accumulated := rate;
      spec := Spec(rate, 0, [], []);
    }

    /** is_timer_running */
    predicate IsRunning(e: TimerElem)
      reads this
    {
      e in timeoutList || exists b :: 0 <= b < |buckets| && e in buckets[b]
    }

    lemma IsRunningIsRunning(e: TimerElem)
      requires Valid()
      ensures IsRunning(e) <==> Running(spec, e)
    {
      ElemsOn(spec.due, e);
      if On(spec.waiting, e) {
        var p :| p in spec.waiting && p.elem == e;
        var b := p.deadline % WRAP % numBuckets;
        FilterIn(spec.waiting, InBucket(b, numBuckets));
        ElemsOn(Filter(spec.waiting, InBucket(b, numBuckets)), e);
        assert e in buckets[b];
      }
      if exists b :: 0 <= b < |buckets| && e in buckets[b] {
        var b :| 0 <= b < |buckets| && e in buckets[b];
        ElemsOn(Filter(spec.waiting, InBucket(b, numBuckets)), e);
        FilterIn(spec.waiting, InBucket(b, numBuckets));
      }
    }

    /** add_timer: `ok` is false where the code crashes on purpose. */
    method AddTimer(elem: TimerElem, expires: Msec) returns (ok: bool)
      requires Valid()
      modifies this`buckets, this`spec, elem`tick
      ensures Valid() && ok == Apply(old(spec), Start(elem, expires)).Some?
      ensures spec == if ok then Apply(old(spec), Start(elem, expires)).value else old(spec)
      ensures ok <==> !old(IsRunning(elem))
      ensures forall e: TimerElem :: Running(spec, e) <==> Running(old(spec), e) || e == elem
    {
      IsRunningIsRunning(elem);
      StartRuns(spec, elem, expires);
      if IsRunning(elem) {
        return false;
      }
      WrapAdd(spec.now, TickCount(tickRate, expires));
      elem.tick := (tick + TickCount(tickRate, expires)) % WRAP;
      var target := elem.tick % numBuckets;
      StartRepresents(spec, numBuckets, tick, buckets, timeoutList, elem, expires, target);
      buckets := buckets[target := buckets[target] + [elem]];
      spec := Apply(spec, Start(elem, expires)).value;
      ok := true;
    }

    /** del_timer: off whatever list the timer is on. */
    method DelTimer(elem: TimerElem)
      requires Valid()
      modifies this`buckets, this`timeoutList, this`spec
      ensures Valid() && Apply(old(spec), Stop(elem)) == Some(spec)
      ensures forall e: TimerElem :: Running(spec, e) <==> Running(old(spec), e) && e != elem
    {
      StopRuns(spec, elem);
      ghost var s' := Apply(spec, Stop(elem)).value;
      ApplyWellFormed(spec, Stop(elem));
      FilterIn(spec.waiting, IsNot(elem));
      UnlinkElems(spec.due, elem);
      forall b | 0 <= b < numBuckets ensures Bucket(s'.waiting, b, numBuckets) == Unlink(buckets[b], elem) {
        StopBuckets(spec, numBuckets, elem, b);
      }
      buckets := seq(|buckets|, b requires 0 <= b < |buckets| reads this => Unlink(buckets[b], elem));
      timeoutList := Unlink(timeoutList, elem);
      spec := s';
    }

    /** A callback. */
    method RunScript(script: seq<Action>) returns (ok: bool)
      requires Valid()
      modifies this`buckets, this`timeoutList, this`spec, Started(script)`tick
      ensures Valid() && ok == ApplyAll(old(spec), script).Some? && (ok ==> Some(spec) == ApplyAll(old(spec), script))
    {
      ghost var s := spec;
      for i := 0 to |script|
        invariant Valid() && ApplyAll(s, script) == ApplyAll(spec, script[i..])
      {
        assert script[i] in script && script[i..][0] == script[i] && script[i..][1..] == script[i + 1..];
        match script[i]
        case Start(e, ms) =>
          assert e in Started(script);
          var added := AddTimer(e, ms);
          if !added {
            return false;
          }
        case Stop(e) =>
          DelTimer(e);
      }
      ok := true;
    }

    /** The first half of timer_tick. */
    method ExpireNow()
      requires Valid() && spec.due == []
      modifies this`tick, this`buckets, this`timeoutList, this`spec
      ensures Valid() && spec == Expire(old(spec))
    {
      var current := tick % numBuckets;
      ghost var w := Filter(spec.waiting, InBucket(current, numBuckets));
      FilterIn(spec.waiting, InBucket(current, numBuckets));
      var bucket, due := Scan(tick, buckets[current], w, spec.now);
      ExpireRepresents(spec, numBuckets, tick, buckets, bucket, due, current);
      buckets := buckets[current := bucket];
      timeoutList := due;
      tick := (tick + 1) % WRAP;
      FilterIn(spec.waiting, NotDueAt(spec.now));
      spec := Expire(spec);
    }

    /** One round of the second half of timer_tick: the first due timer leaves the list, then its callback is
        called. */
    method CallFirst(script: seq<Action>) returns (ok: bool, p: TimerElem)
      requires Valid() && spec.due != []
      modifies this`buckets, this`timeoutList, this`spec, Started(script)`tick
      ensures Valid() && ok == Popped(old(spec), script).Some? && (ok ==> Some(spec) == Popped(old(spec), script))
      ensures p == old(spec).due[0].elem
    {
      ElemsFirst(spec.due);
      p := timeoutList[0];
      timeoutList := timeoutList[1..];
      spec := spec.(due := spec.due[1..]);
      ok := RunScript(script);
    }

    /** The second half of timer_tick. */
    method CallDue(scripts: seq<seq<Action>>) returns (ok: bool, fired: seq<TimerElem>)
      requires Valid()
      modifies this`buckets, this`timeoutList, this`spec, StartedBy(scripts)`tick
      ensures Valid() && ok == Drain(old(spec), scripts).Some?
      ensures ok ==> var r := Drain(old(spec), scripts).value; spec == r.0 && fired == Elems(r.1) && spec.due == []
    {
      fired := [];
      ghost var s, called := spec, [];
      var rest := scripts;
      ContinuesHere(s, scripts);
      while timeoutList != []
        invariant Valid() && fired == Elems(called) && forall script :: script in rest ==> script in scripts
        invariant Continues(s, scripts, spec, rest, called)
        decreases |timeoutList|
      {
        ghost var before := spec;
        ContinuesStep(s, scripts, before, rest, called);
        assert Started(Script(rest, 0)) <= StartedBy(scripts);
        var more, p := CallFirst(Script(rest, 0));
        if !more {
          return false, fired;
        }
        ElemsAppend(called, before.due[0]);
        fired := fired + [p];
        called := called + [before.due[0]];
        rest := Rest(rest);
      }
      ContinuesEnd(s, scripts, spec, rest, called);
      ok := true;
    }

    /** timer_tick, with the scripts of the callbacks that it calls. */
    method TimerTick(scripts: seq<seq<Action>>) returns (ok: bool, fired: seq<TimerElem>)
      requires Valid() && spec.due == []
      modifies this`tick, this`buckets, this`timeoutList, this`spec, StartedBy(scripts)`tick
      ensures Valid() && ok == Tick(old(spec), scripts).Some?
      ensures ok ==> var r := Tick(old(spec), scripts).value; spec == r.0 && fired == Elems(r.1) && spec.due == []
    {
      ExpireNow();
      ok, fired := CallDue(scripts);
    }

    /** One round of the loop of drive_timer. */
    method CatchUpTick(now: seq<seq<Action>>, ghost c: Clock, ghost scripts: Scripts, ghost rest: Scripts,
                       ghost called: seq<seq<Pending>>)
      returns (ok: bool, fired: seq<TimerElem>, ghost t: seq<Pending>)
      requires Valid() && spec.due == [] && accumulated >= tickRate && now == Script(rest, 0)
      requires GoesOn(c, scripts, Clock(spec, accumulated), rest, called)
      modifies this`tick, this`buckets, this`timeoutList, this`spec, this`accumulated, StartedBy(now)`tick
      ensures Valid() && accumulated == old(accumulated) - tickRate && (!ok ==> DriveLoop(c, scripts).None?)
      ensures ok ==> GoesOn(c, scripts, Clock(spec, accumulated), Rest(rest), called + [t]) && fired == Elems(t)
                     && spec.due == []
    {
      ghost var before := spec;
      GoesOnStep(c, scripts, Clock(spec, accumulated), rest, called);
      accumulated := accumulated - tickRate;
      ok, fired := TimerTick(now);
      t := if ok then Tick(before, now).value.1 else [];
    }

    /** The loop of drive_timer. */
    method CatchUp(scripts: Scripts) returns (ok: bool, log: seq<seq<TimerElem>>)
      requires Valid() && spec.due == []
      modifies this`tick, this`buckets, this`timeoutList, this`spec, this`accumulated, StartedByAny(scripts)`tick
      ensures Valid() && ok == DriveLoop(old(Clock(spec, accumulated)), scripts).Some?
      ensures ok ==> var r := DriveLoop(old(Clock(spec, accumulated)), scripts).value;
                     Clock(spec, accumulated) == r.0 && log == ElemsOf(r.1) && spec.due == []
    {
      log := [];
      var rest := scripts;
      ghost var c, called := Clock(spec, accumulated), [];
      GoesOnHere(c, scripts);
      while accumulated >= tickRate
        invariant Valid() && spec.due == [] && log == ElemsOf(called) && forall s :: s in rest ==> s in scripts
        invariant GoesOn(c, scripts, Clock(spec, accumulated), rest, called)
        decreases accumulated
      {
        assert StartedBy(Script(rest, 0)) <= StartedByAny(scripts);
        var more, fired;
        ghost var t;
        more, fired, t := CatchUpTick(Script(rest, 0), c, scripts, rest, called);
        if !more {
          return false, log;
        }
        ElemsOfAppend(called, t);
        called := called + [t];
        log := log + [fired];
        rest := Rest(rest);
      }
      GoesOnEnd(c, scripts, Clock(spec, accumulated), rest, called);
      ok := true;
    }

    /** drive_timer, where `elapsed` are the milliseconds since the last call, which may be negative or far too
        many. */
    method DriveTimer(elapsed: int, scripts: Scripts) returns (ok: bool, log: seq<seq<TimerElem>>)
      requires Valid() && spec.due == []
      modifies this`tick, this`buckets, this`timeoutList, this`spec, this`accumulated, StartedByAny(scripts)`tick
      ensures Valid() && ok == Handle(old(Clock(spec, accumulated)), Drive(elapsed, scripts)).Some?
      ensures ok ==> var r := Handle(old(Clock(spec, accumulated)), Drive(elapsed, scripts)).value;
                     Clock(spec, accumulated) == r.0 && log == ElemsOf(r.1) && spec.due == []
      ensures ok ==> spec.now == old(spec.now) + |log|
      ensures ok ==> Divided(tickRate, old(accumulated), elapsed, |log|, accumulated)
    {
      ghost var c0 := Clock(spec, accumulated);
      ghost var c := Advance(Clock(spec, accumulated), elapsed);
      var mtime := if elapsed < 0 then 0 else elapsed;
      mtime := if mtime >= tickRate * 3 then tickRate else mtime;
      accumulated := accumulated + mtime;
      assert Clock(spec, accumulated) == c;
      ok, log := CatchUp(scripts);
      if ok {
        DriveTicks(c0, elapsed, scripts);
      }
    }

    method React(e: Event) returns (ok: bool, log: seq<seq<TimerElem>>)
      requires Valid() && spec.due == []
      modifies this`tick, this`buckets, this`timeoutList, this`spec, this`accumulated, StartedIn(e)`tick
      ensures Valid() && ok == Handle(old(Clock(spec, accumulated)), e).Some?
      ensures ok ==> var r := Handle(old(Clock(spec, accumulated)), e).value;
                     Clock(spec, accumulated) == r.0 && log == ElemsOf(r.1) && spec.due == []
    {
      log := [];
      match e
      case Do(Start(t, ms)) =>
        ok := AddTimer(t, ms);
      case Do(Stop(t)) =>
        DelTimer(t);
        ok := true;
      case Drive(elapsed, scripts) =>
        ok, log := DriveTimer(elapsed, scripts);
    }

    /** Over any history the wheel does what the plain collection of timers does. */
    method Play(events: seq<Event>) returns (ok: bool, log: seq<seq<TimerElem>>)
      requires Valid() && spec.due == []
      modifies this`tick, this`buckets, this`timeoutList, this`spec, this`accumulated, StartedInAny(events)`tick
      ensures Valid() && ok == Run(old(Clock(spec, accumulated)), events).Some?
      ensures ok ==> var r := Run(old(Clock(spec, accumulated)), events).value;
                     Clock(spec, accumulated) == r.0 && log == ElemsOf(r.1)
    {
      log := [];
      ghost var c, called := Clock(spec, accumulated), [];
      PlaysHere(c, events);
      for i := 0 to |events|
        invariant Valid() && spec.due == [] && log == ElemsOf(called)
        invariant Plays(c, events, Clock(spec, accumulated), events[i..], called)
      {
        assert StartedIn(events[i]) <= StartedInAny(events) && events[i..][1..] == events[i + 1..];
        ghost var before := Clock(spec, accumulated);
        PlaysStep(c, events, before, events[i..], called);
        var went, more := React(events[i]);
        if !went {
          return false, log;
        }
        ghost var t := Handle(before, events[i]).value.1;
        ElemsOfConcat(called, t);
        called := called + t;
        log := log + more;
      }
      PlaysEnd(c, events, Clock(spec, accumulated), called);
      ok := true;
    }
  }
}
