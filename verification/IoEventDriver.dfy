/** The driver's lists of elements, and the pass over those that are ready. */
module IoEventDrivers {
  import opened CallScripts
  import opened Options
  import opened Sequences
  import opened IoEventSpec

  function Fds(l: seq<Element>): (r: seq<int>)
    ensures |r| == |l| && forall i :: 0 <= i < |l| ==> r[i] == l[i].fd
  {
    seq(|l|, i requires 0 <= i < |l| => l[i].fd)
  }

  /** The elements that are ready, and those that are not. */
  function Ready(l: seq<Element>, fdSet: set<int>, ready: bool): seq<Element> {
    if l == [] then []
    else
      var init, last := l[..|l| - 1], l[|l| - 1];
      if (last.fd in fdSet) == ready then Ready(init, fdSet, ready) + [last] else Ready(init, fdSet, ready)
  }

  /** The descriptors of type `u` that a pass for type `t` leaves on their list to begin with. */
  function NotReady(l: seq<Element>, fdSet: set<int>, t: EventType, u: EventType): seq<int> {
    Fds(if u == t then Ready(l, fdSet, false) else l)
  }

  lemma ReadyAppend(l: seq<Element>, e: Element, fdSet: set<int>, ready: bool)
    ensures Ready(l + [e], fdSet, ready)
         == if (e.fd in fdSet) == ready then Ready(l, fdSet, ready) + [e] else Ready(l, fdSet, ready)
  {
    assert (l + [e])[..|l|] == l;
  }

  /** The elements of one type hold what is registered for it. */
  ghost predicate Holds(l: seq<Element>, reg: Registry, t: EventType) {
    && NoDuplicates(Fds(l))
    && (forall e | e in l :: (t, e.fd) in reg && reg[(t, e.fd)] == e.cb)
    && forall k | k in reg :: k.0 == t ==> k.1 in Fds(l)
  }

  lemma FdsAppend(l: seq<Element>, m: seq<Element>)
    ensures Fds(l + m) == Fds(l) + Fds(m)
  {
  }

  lemma FdsAround(a: seq<Element>, e: Element, b: seq<Element>)
    ensures Fds(a + [e] + b) == Fds(a) + [e.fd] + Fds(b) && Fds(a + b) == Fds(a) + Fds(b) && Fds([e]) == [e.fd]
  {
  }

  lemma HoldsIn(l: seq<Element>, m: seq<Element>, reg: Registry, t: EventType)
    requires Holds(l, reg, t) && NoDuplicates(Fds(m)) && forall e :: e in m <==> e in l
    ensures Holds(m, reg, t)
  {
    forall fd | fd in Fds(l) ensures fd in Fds(m) {
      var i :| 0 <= i < |l| && Fds(l)[i] == fd;
      assert l[i] in m;
      var j :| 0 <= j < |m| && m[j] == l[i];
      assert Fds(m)[j] == fd;
    }
  }

  lemma Moved<T>(a: seq<T>, x: T, b: seq<T>, w: seq<T>, y: T)
    ensures y in a + [x] + b + w <==> y in a + b + (w + [x])
  {
  }

  lemma NoDuplicatesMove(a: seq<int>, x: int, b: seq<int>, w: seq<int>)
    requires NoDuplicates(a + [x] + b + w)
    ensures NoDuplicates(a + b + (w + [x]))
  {
    var l, m := a + [x] + b + w, a + b + (w + [x]);
    forall i, j | 0 <= i < j < |m| ensures m[i] != m[j] {
      assert m[i] == l[if i < |a| then i else i + 1];
      if j == |m| - 1 {
        assert m[j] == l[|a|];
      } else {
        assert m[j] == l[if j < |a| then j else j + 1];
      }
    }
  }

  /** An element goes from the middle of one list to the end of the other. */
  lemma HoldsMove(a: seq<Element>, e: Element, b: seq<Element>, w: seq<Element>, reg: Registry, t: EventType)
    requires Holds(a + [e] + b + w, reg, t)
    ensures Holds(a + b + (w + [e]), reg, t)
  {
    var l, m := a + [e] + b + w, a + b + (w + [e]);
    FdsAround(a, e, b);
    FdsAppend(a + [e] + b, w);
    FdsAppend(a + b, w + [e]);
    FdsAppend(w, [e]);
    NoDuplicatesMove(Fds(a), e.fd, Fds(b), Fds(w));
    forall x ensures x in m <==> x in l {
      Moved(a, e, b, w, x);
    }
    HoldsIn(l, m, reg, t);
  }

  /** Listening to what is listened to already. */
  lemma HoldsUpdate(l: seq<Element>, i: nat, cb: Callback, reg: Registry, t: EventType)
    requires i < |l| && Holds(l, reg, t)
    ensures var e := Element(l[i].fd, cb);
            Fds(l[i := e]) == Fds(l) && Holds(l[i := e], Act(reg, Listen(t, e.fd, cb)), t)
  {
    var m, fd := l[i := Element(l[i].fd, cb)], l[i].fd;
    assert Fds(m) == Fds(l);
    forall e | e in m ensures (t, e.fd) in reg && (if e.fd == fd then cb else reg[(t, e.fd)]) == e.cb {
      var j :| 0 <= j < |m| && m[j] == e;
      assert Fds(m)[j] == e.fd && Fds(m)[i] == fd;
      assert l[i] in l && l[j] in l;
    }
  }

  /** The lists after the callback of an element has been replaced on the one that it is on. */
  ghost predicate Updated(io: seq<Element>, working: seq<Element>, io': seq<Element>, working': seq<Element>,
                          reg: Registry, t: EventType, fd: int, cb: Callback) {
    && (t, fd) in reg && Holds(io' + working', Act(reg, Listen(t, fd, cb)), t)
    && Fds(working') == Fds(working) && Fds(io') == Fds(io)
  }

  lemma UpdateIoSet(io: seq<Element>, working: seq<Element>, i: nat, cb: Callback, reg: Registry, t: EventType)
    requires Holds(io + working, reg, t) && i < |io|
    ensures Updated(io, working, io[i := Element(io[i].fd, cb)], working, reg, t, io[i].fd, cb)
  {
    var l, e := io + working, Element(io[i].fd, cb);
    HoldsUpdate(l, i, cb, reg, t);
    assert io[i := e] + working == l[i := e] && l[i] == io[i] && l[i] in l;
    assert Fds(io[i := e]) == Fds(io);
  }

  lemma UpdateWorkingSet(io: seq<Element>, working: seq<Element>, i: nat, cb: Callback, reg: Registry, t: EventType)
    requires Holds(io + working, reg, t) && i < |working|
    ensures Updated(io, working, io, working[i := Element(working[i].fd, cb)], reg, t, working[i].fd, cb)
  {
    var l, e, j := io + working, Element(working[i].fd, cb), |io| + i;
    HoldsUpdate(l, j, cb, reg, t);
    assert io + working[i := e] == l[j := e] && l[j] == working[i] && l[j] in l;
    assert Fds(working[i := e]) == Fds(working);
  }

  lemma HoldsAdd(l: seq<Element>, w: seq<Element>, e: Element, reg: Registry, t: EventType)
    requires Holds(l + w, reg, t) && e.fd !in Fds(l + w)
    ensures Holds(l + [e] + w, Act(reg, Listen(t, e.fd, e.cb)), t)
  {
    var m := l + [e] + w;
    FdsAppend(l, w);
    assert Fds(m) == Fds(l) + [e.fd] + Fds(w);
    NoDuplicatesParts(Fds(l), Fds(w));
    NoDuplicatesJoin(Fds(l), e.fd, Fds(w));
    forall x | x in m && x != e ensures x in l + w && x.fd != e.fd {
      var i :| 0 <= i < |l + w| && (l + w)[i] == x;
      assert Fds(l + w)[i] == x.fd;
    }
  }

  lemma NoDuplicatesParts(a: seq<int>, b: seq<int>)
    requires NoDuplicates(a + b)
    ensures NoDuplicates(a) && NoDuplicates(b) && forall x :: x in a ==> x !in b
  {
    forall i, j | 0 <= i < j < |b| ensures b[i] != b[j] {
      assert (a + b)[|a| + i] != (a + b)[|a| + j];
    }
    forall i, j | 0 <= i < |a| && 0 <= j < |b| ensures a[i] != b[j] {
      assert (a + b)[i] != (a + b)[|a| + j];
    }
    forall i, j | 0 <= i < j < |a| ensures a[i] != a[j] {
      assert (a + b)[i] != (a + b)[j];
    }
  }

  lemma HoldsRemove(a: seq<Element>, e: Element, b: seq<Element>, reg: Registry, t: EventType)
    requires Holds(a + [e] + b, reg, t)
    ensures Holds(a + b, Act(reg, Unlisten(t, e.fd)), t)
  {
    var l, m := a + [e] + b, a + b;
    FdsAround(a, e, b);
    NoDuplicatesAround(Fds(a), e.fd, Fds(b));
    NoDuplicatesBoth(Fds(a), Fds(b));
    forall x | x in m ensures x in l && x.fd != e.fd {
      var i :| 0 <= i < |m| && m[i] == x;
      assert Fds(m)[i] == (if i < |a| then Fds(a)[i] else Fds(b)[i - |a|]);
    }
  }

  lemma NoDuplicatesBoth(a: seq<int>, b: seq<int>)
    requires NoDuplicates(a) && NoDuplicates(b) && forall x :: x in a ==> x !in b
    ensures NoDuplicates(a + b)
  {
    forall i, j | 0 <= i < j < |a + b| ensures (a + b)[i] != (a + b)[j] {
      if i < |a| && j >= |a| {
        assert a[i] in a && b[j - |a|] in b;
      }
    }
  }

  lemma NotRegistered(l: seq<Element>, reg: Registry, t: EventType, fd: int)
    requires Holds(l, reg, t) && fd !in Fds(l)
    ensures (t, fd) !in reg && Act(reg, Unlisten(t, fd)) == reg
  {
    assert (t, fd).0 == t;
  }

  lemma NotWaiting(io: seq<Element>, working: seq<Element>, fd: int)
    requires fd !in Fds(io + working)
    ensures Without(Fds(working), fd) == Fds(working) && Without(Fds(io), fd) == Fds(io)
  {
    FdsAppend(io, working);
    WithoutNone(Fds(working), fd);
    WithoutNone(Fds(io), fd);
  }

  lemma {:induction false} WithoutNone(turn: seq<int>, fd: int)
    requires fd !in turn
    ensures Without(turn, fd) == turn
  {
    if turn == [] {
    } else {
      WithoutNone(turn[1..], fd);
    }
  }

  lemma {:induction false} WithoutOne(a: seq<int>, fd: int, b: seq<int>)
    requires fd !in a && fd !in b
    ensures Without(a + [fd] + b, fd) == a + b
  {
    var l := a + [fd] + b;
    if a == [] {
      assert l[0] == fd && l[1..] == b && a + b == b;
      WithoutNone(b, fd);
    } else {
      assert l[0] == a[0] && l[1..] == a[1..] + [fd] + b;
      WithoutOne(a[1..], fd, b);
      assert [a[0]] + (a[1..] + b) == a + b;
    }
  }

  /** The lists after the element of a descriptor has been taken off the one that it was on. */
  ghost predicate Off(io: seq<Element>, working: seq<Element>, io': seq<Element>, working': seq<Element>,
                      reg: Registry, t: EventType, fd: int) {
    && (t, fd) in reg && Holds(io' + working', Act(reg, Unlisten(t, fd)), t)
    && Fds(working') == Without(Fds(working), fd) && Fds(io') == Without(Fds(io), fd)
  }

  lemma OffIoSet(io: seq<Element>, working: seq<Element>, i: nat, reg: Registry, t: EventType)
    requires Holds(io + working, reg, t) && i < |io|
    ensures Off(io, working, io[..i] + io[i + 1..], working, reg, t, io[i].fd)
  {
    var a, e, b := io[..i], io[i], io[i + 1..];
    assert io == a + [e] + b && io + working == a + [e] + (b + working) && (a + b) + working == a + (b + working);
    HoldsRemove(a, e, b + working, reg, t);
    RemovedNotWaiting(a, e, b, working);
    assert e in io + working;
  }

  lemma OffWorkingSet(io: seq<Element>, working: seq<Element>, i: nat, reg: Registry, t: EventType)
    requires Holds(io + working, reg, t) && i < |working|
    ensures Off(io, working, io, working[..i] + working[i + 1..], reg, t, working[i].fd)
  {
    var a, e, b := working[..i], working[i], working[i + 1..];
    assert working == a + [e] + b && io + working == (io + a) + [e] + b && io + (a + b) == (io + a) + b;
    HoldsRemove(io + a, e, b, reg, t);
    RemovedFromWaiting(io, a, e, b);
    assert e in io + working;
  }

  lemma RemovedNotWaiting(a: seq<Element>, e: Element, b: seq<Element>, working: seq<Element>)
    requires NoDuplicates(Fds(a + [e] + (b + working)))
    ensures Without(Fds(working), e.fd) == Fds(working) && Without(Fds(a + [e] + b), e.fd) == Fds(a + b)
  {
    FdsAround(a, e, b + working);
    NoDuplicatesAround(Fds(a), e.fd, Fds(b + working));
    FdsAppend(b, working);
    FdsAround(a, e, b);
    WithoutNone(Fds(working), e.fd);
    WithoutOne(Fds(a), e.fd, Fds(b));
  }

  lemma RemovedFromWaiting(io: seq<Element>, a: seq<Element>, e: Element, b: seq<Element>)
    requires NoDuplicates(Fds((io + a) + [e] + b))
    ensures Without(Fds(a + [e] + b), e.fd) == Fds(a + b) && Without(Fds(io), e.fd) == Fds(io)
  {
    FdsAround(io + a, e, b);
    NoDuplicatesAround(Fds(io + a), e.fd, Fds(b));
    FdsAppend(io, a);
    FdsAround(a, e, b);
    WithoutOne(Fds(a), e.fd, Fds(b));
    WithoutNone(Fds(io), e.fd);
  }

  /** What is done for one type leaves the others alone. */
  lemma HoldsOther(l: seq<Element>, reg: Registry, t: EventType, a: Action)
    requires Holds(l, reg, t) && a.typ != t
    ensures Holds(l, Act(reg, a), t)
  {
  }

  /** The first `k` elements of `l` have been looked at; what is left of the list goes on at `i`. */
  ghost predicate Scanned(l: seq<Element>, k: nat, fdSet: set<int>, i: nat, io: seq<Element>, working: seq<Element>) {
    && k <= |l| && i == |Ready(l[..k], fdSet, false)|
    && io == Ready(l[..k], fdSet, false) + l[k..] && working == Ready(l[..k], fdSet, true)
  }

  /** The element at `i` is the next one. */
  lemma ScanNext(l: seq<Element>, k: nat, fdSet: set<int>, i: nat, io: seq<Element>, working: seq<Element>)
    requires Scanned(l, k, fdSet, i, io, working) && i < |io|
    ensures k < |l| && io[i] == l[k] && l[..k + 1] == l[..k] + [l[k]]
    ensures io[..i] == Ready(l[..k], fdSet, false) && io[i + 1..] == l[k + 1..] && io == io[..i] + [io[i]] + io[i + 1..]
  {
  }

  lemma ScanReady(l: seq<Element>, k: nat, fdSet: set<int>, i: nat, io: seq<Element>, working: seq<Element>,
                  reg: Registry, t: EventType)
    requires Scanned(l, k, fdSet, i, io, working) && i < |io| && io[i].fd in fdSet && Holds(io + working, reg, t)
    ensures var io' := io[..i] + io[i + 1..];
            Scanned(l, k + 1, fdSet, i, io', working + [io[i]]) && Holds(io' + (working + [io[i]]), reg, t)
  {
    ScanNext(l, k, fdSet, i, io, working);
    ReadyAppend(l[..k], io[i], fdSet, false);
    ReadyAppend(l[..k], io[i], fdSet, true);
    HoldsMove(io[..i], io[i], io[i + 1..], working, reg, t);
  }

  lemma ScanNotReady(l: seq<Element>, k: nat, fdSet: set<int>, i: nat, io: seq<Element>, working: seq<Element>)
    requires Scanned(l, k, fdSet, i, io, working) && i < |io| && io[i].fd !in fdSet
    ensures Scanned(l, k + 1, fdSet, i + 1, io, working)
  {
    ScanNext(l, k, fdSet, i, io, working);
    ReadyAppend(l[..k], io[i], fdSet, false);
    ReadyAppend(l[..k], io[i], fdSet, true);
    assert io[..i] + [io[i]] + io[i + 1..] == (io[..i] + [io[i]]) + l[k + 1..];
  }

  lemma ScanEnd(l: seq<Element>, k: nat, fdSet: set<int>, i: nat, io: seq<Element>, working: seq<Element>)
    requires Scanned(l, k, fdSet, i, io, working) && i >= |io|
    ensures io == Ready(l, fdSet, false) && working == Ready(l, fdSet, true)
  {
    assert k == |l| && l[..k] == l;
  }

  lemma WorkingRegistered(io: seq<Element>, working: seq<Element>, reg: Registry, t: EventType)
    requires Holds(io + working, reg, t)
    ensures AllRegistered(reg, Fds(working), t)
    ensures working != [] ==> reg[(t, working[0].fd)] == working[0].cb
  {
    forall fd | fd in Fds(working) ensures Registered(reg, t, fd) {
      var i :| 0 <= i < |working| && Fds(working)[i] == fd;
      assert working[i] in io + working;
    }
    assert working != [] ==> working[0] in io + working;
  }

  /** A pass that has come to `reg1`, with `turn1` still to come and the calls of `log` done. */
  ghost predicate PassGoesOn(reg: Registry, turn: seq<int>, t: EventType, scripts: seq<seq<Action>>,
                             reg1: Registry, turn1: seq<int>, rest: seq<seq<Action>>, log: seq<Element>)
    requires AllRegistered(reg, turn, t)
  {
    AllRegistered(reg1, turn1, t) &&
    Pass(reg, turn, t, scripts) == (Pass(reg1, turn1, t, rest).0, log + Pass(reg1, turn1, t, rest).1)
  }

  lemma PassStarts(reg: Registry, turn: seq<int>, t: EventType, scripts: seq<seq<Action>>)
    requires AllRegistered(reg, turn, t)
    ensures PassGoesOn(reg, turn, t, scripts, reg, turn, scripts, [])
  {
    var log := Pass(reg, turn, t, scripts).1;
    assert [] + log == log;
  }

  lemma PassEnds(reg: Registry, turn: seq<int>, t: EventType, scripts: seq<seq<Action>>,
                 reg1: Registry, rest: seq<seq<Action>>, log: seq<Element>)
    requires AllRegistered(reg, turn, t) && PassGoesOn(reg, turn, t, scripts, reg1, [], rest, log)
    ensures Pass(reg, turn, t, scripts) == (reg1, log)
  {
    assert log + [] == log;
  }

  lemma PassGoes(reg: Registry, turn: seq<int>, t: EventType, scripts: seq<seq<Action>>,
                 reg1: Registry, turn1: seq<int>, rest: seq<seq<Action>>, log: seq<Element>)
    requires AllRegistered(reg, turn, t) && PassGoesOn(reg, turn, t, scripts, reg1, turn1, rest, log) && turn1 != []
    ensures Registered(reg1, t, turn1[0])
    ensures PassGoesOn(reg, turn, t, scripts, ActAll(reg1, Script(rest, 0)), ExcuseAll(turn1[1..], t, Script(rest, 0)),
                       Rest(rest), log + [Element(turn1[0], reg1[(t, turn1[0])])])
  {
    assert turn1[0] in turn1;
    StaysRegistered(reg1, turn1[1..], t, Script(rest, 0));
    var later := Pass(ActAll(reg1, Script(rest, 0)), ExcuseAll(turn1[1..], t, Script(rest, 0)), t, Rest(rest)).1;
    var p := Element(turn1[0], reg1[(t, turn1[0])]);
    assert log + ([p] + later) == (log + [p]) + later;
  }

  lemma {:induction false} ReadyIn(l: seq<Element>, fdSet: set<int>, ready: bool, rank: int -> int)
    requires Increasing(rank, Fds(l))
    ensures Increasing(rank, Fds(Ready(l, fdSet, ready)))
    ensures forall fd :: fd in Fds(Ready(l, fdSet, ready)) <==> fd in Fds(l) && (fd in fdSet) == ready
  {
    if l == [] {
    } else {
      var init, last := l[..|l| - 1], l[|l| - 1];
      assert Fds(l) == Fds(init) + [last.fd];
      forall i, j | 0 <= i < j < |init| ensures rank(Fds(init)[i]) < rank(Fds(init)[j]) {
        assert Fds(init)[i] == Fds(l)[i] && Fds(init)[j] == Fds(l)[j];
      }
      ReadyIn(init, fdSet, ready, rank);
      ReadyLast(init, last, fdSet, ready, rank);
      assert forall fd :: fd in Fds(l) <==> fd in Fds(init) || fd == last.fd;
    }
  }

  lemma ReadyLast(init: seq<Element>, last: Element, fdSet: set<int>, ready: bool, rank: int -> int)
    requires Increasing(rank, Fds(init) + [last.fd]) && Increasing(rank, Fds(Ready(init, fdSet, ready)))
    requires forall fd :: fd in Fds(Ready(init, fdSet, ready)) <==> fd in Fds(init) && (fd in fdSet) == ready
    ensures (last.fd in fdSet) == ready ==> Increasing(rank, Fds(Ready(init, fdSet, ready) + [last]))
    ensures Fds(Ready(init, fdSet, ready) + [last]) == Fds(Ready(init, fdSet, ready)) + [last.fd]
  {
    var w, x := Fds(Ready(init, fdSet, ready)), Fds(init) + [last.fd];
    assert Fds(Ready(init, fdSet, ready) + [last]) == w + [last.fd];
    forall i | 0 <= i < |w| ensures rank(w[i]) < rank(last.fd) {
      assert w[i] in w;
      var j :| 0 <= j < |Fds(init)| && Fds(init)[j] == w[i];
      assert x[j] == w[i] && x[|init|] == last.fd;
    }
  }

  /** In a pass over a list of elements the calls come in the order of the list, none comes twice, and an element is
      called exactly if it is ready and no callback before its turn takes it off. */
  lemma PassCalls(l: seq<Element>, reg: Registry, t: EventType, fdSet: set<int>, scripts: seq<seq<Action>>)
    requires Holds(l, reg, t) && AllRegistered(reg, Fds(Ready(l, fdSet, true)), t)
    ensures var log := Pass(reg, Fds(Ready(l, fdSet, true)), t, scripts).1;
            var rank := (fd: int) => Place(Fds(l), fd);
            && (forall j, k :: 0 <= j < k < |log| ==> rank(log[j].fd) < rank(log[k].fd))
            && forall fd | fd in Fds(l) :: Called(log, fd) <==> fd in fdSet && Spared(rank, log, t, scripts, fd)
  {
    var rank := (fd: int) => Place(Fds(l), fd);
    var turn := Fds(Ready(l, fdSet, true));
    forall i | 0 <= i < |l| ensures Place(Fds(l), Fds(l)[i]) == i {
    }
    ReadyIn(l, fdSet, true, rank);
    PassOrder(rank, reg, turn, t, scripts);
    PassRegistry(reg, turn, t, scripts);
    var log := Pass(reg, turn, t, scripts).1;
    forall fd | fd in Fds(l) ensures Called(log, fd) <==> fd in fdSet && Spared(rank, log, t, scripts, fd) {
      if fd in fdSet {
        PassTurn(rank, reg, turn, t, scripts, fd);
      }
    }
  }

  class IOEventDriver {
    const ioSet: array<seq<Element>>
    const workingSet: array<seq<Element>>
    ghost var registry: Registry

    ghost predicate Valid()
      reads this, ioSet, workingSet
    {
      && ioSet.Length == 3 && workingSet.Length == 3 && ioSet != workingSet
      && forall t: EventType :: Holds(ioSet[t] + workingSet[t], registry, t)
    }

    ghost predicate Idle()
      reads workingSet
    {
      workingSet.Length == 3 && workingSet[..] == [[], [], []]
    }

    constructor ()
      ensures Valid() && Idle() && registry == map[] && fresh(ioSet) && fresh(workingSet)
    {
      ioSet := new seq<Element>[3](_ => []);
      workingSet := new seq<Element>[3](_ => []);
      registry := map[];
    }

    /** get_io_event_element: where the element of the descriptor is, if there is one. */
    method GetIoEventElement(t: EventType, fd: int) returns (inIoSet: bool, i: Option<nat>)
      requires Valid()
      ensures i.Some? ==> var l := if inIoSet then ioSet[t] else workingSet[t]; i.value < |l| && l[i.value].fd == fd
      ensures i.None? ==> fd !in Fds(ioSet[t] + workingSet[t])
    {
      var j := 0;
      while j < |ioSet[t]|
        invariant 0 <= j <= |ioSet[t]| && forall k :: 0 <= k < j ==> ioSet[t][k].fd != fd
      {
        if ioSet[t][j].fd == fd {
          return true, Some(j);
        }
        j := j + 1;
      }
      j := 0;
      while j < |workingSet[t]|
        invariant 0 <= j <= |workingSet[t]| && forall k :: 0 <= k < j ==> workingSet[t][k].fd != fd
      {
        if workingSet[t][j].fd == fd {
          return false, Some(j);
        }
        j := j + 1;
      }
      return false, None;
    }

    method ListenIoEvent(fd: int, t: EventType, cb: Callback)
      requires Valid()
      modifies this, ioSet, workingSet
      ensures Valid() && registry == Act(old(registry), Listen(t, fd, cb))
      ensures registry == old(registry)[(t, fd) := cb]
      ensures forall u: EventType :: Fds(workingSet[u]) == old(Fds(workingSet[u]))
      ensures forall u: EventType :: Fds(ioSet[u]) == Queue(old(registry), old(Fds(ioSet[u])), u, Listen(t, fd, cb))
      ensures forall u: EventType ::
                Fds(ioSet[u]) == old(Fds(ioSet[u])) + if u == t && (t, fd) !in old(registry) then [fd] else []
    {
      var inIoSet, i := GetIoEventElement(t, fd);
      if i.Some? {
        Replace(inIoSet, i.value, fd, t, cb);
      } else {
        NotRegistered(ioSet[t] + workingSet[t], registry, t, fd);
        FdsAppend(ioSet[t], [Element(fd, cb)]);
        ioSet[t] := ioSet[t] + [Element(fd, cb)];
        HoldsAdd(old(ioSet[t]), workingSet[t], Element(fd, cb), registry, t);
        Others(Listen(t, fd, cb));
        registry := Act(registry, Listen(t, fd, cb));
      }
    }

    method Replace(inIoSet: bool, i: nat, fd: int, t: EventType, cb: Callback)
      requires Valid() && var l := if inIoSet then ioSet[t] else workingSet[t]; i < |l| && l[i].fd == fd
      modifies this, ioSet, workingSet
      ensures Valid() && registry == Act(old(registry), Listen(t, fd, cb))
      ensures forall u: EventType :: Fds(workingSet[u]) == old(Fds(workingSet[u]))
      ensures forall u: EventType :: Fds(ioSet[u]) == Queue(old(registry), old(Fds(ioSet[u])), u, Listen(t, fd, cb))
    {
      if inIoSet {
        UpdateIoSet(ioSet[t], workingSet[t], i, cb, registry, t);
        ioSet[t] := ioSet[t][i := Element(fd, cb)];
      } else {
        UpdateWorkingSet(ioSet[t], workingSet[t], i, cb, registry, t);
        workingSet[t] := workingSet[t][i := Element(fd, cb)];
      }
      assert Updated(old(ioSet[t]), old(workingSet[t]), ioSet[t], workingSet[t], registry, t, fd, cb);
      Others(Listen(t, fd, cb));
      registry := Act(registry, Listen(t, fd, cb));
    }

    method UnlistenIoEvent(fd: int, t: EventType) returns (ret: int)
      requires Valid()
      modifies this, ioSet, workingSet
      ensures ret == if (t, fd) in old(registry) then 0 else -1
      ensures Valid() && registry == Act(old(registry), Unlisten(t, fd)) && registry == old(registry) - {(t, fd)}
      ensures forall u: EventType :: Fds(workingSet[u]) == Excuse(old(Fds(workingSet[u])), u, Unlisten(t, fd))
      ensures forall u: EventType :: Fds(ioSet[u]) == Queue(old(registry), old(Fds(ioSet[u])), u, Unlisten(t, fd))
    {
      var inIoSet, i := GetIoEventElement(t, fd);
      if i.None? {
        NotRegistered(ioSet[t] + workingSet[t], registry, t, fd);
        NotWaiting(ioSet[t], workingSet[t], fd);
        return -1;
      }
      Remove(inIoSet, i.value, fd, t);
      return 0;
    }

    method Remove(inIoSet: bool, i: nat, fd: int, t: EventType)
      requires Valid() && var l := if inIoSet then ioSet[t] else workingSet[t]; i < |l| && l[i].fd == fd
      modifies this, ioSet, workingSet
      ensures Valid() && (t, fd) in old(registry) && registry == Act(old(registry), Unlisten(t, fd))
      ensures forall u: EventType :: Fds(workingSet[u]) == Excuse(old(Fds(workingSet[u])), u, Unlisten(t, fd))
      ensures forall u: EventType :: Fds(ioSet[u]) == Queue(old(registry), old(Fds(ioSet[u])), u, Unlisten(t, fd))
    {
      if inIoSet {
        OffIoSet(ioSet[t], workingSet[t], i, registry, t);
        ioSet[t] := ioSet[t][..i] + ioSet[t][i + 1..];
      } else {
        OffWorkingSet(ioSet[t], workingSet[t], i, registry, t);
        workingSet[t] := workingSet[t][..i] + workingSet[t][i + 1..];
      }
      assert Off(old(ioSet[t]), old(workingSet[t]), ioSet[t], workingSet[t], registry, t, fd);
      Others(Unlisten(t, fd));
      registry := Act(registry, Unlisten(t, fd));
    }

    /** What was done for one type leaves the others alone. */
    twostate lemma Others(a: Action)
      requires old(Valid()) && ioSet.Length == 3 && workingSet.Length == 3
      requires forall u: EventType | u != a.typ :: ioSet[u] == old(ioSet[u]) && workingSet[u] == old(workingSet[u])
      ensures forall u: EventType | u != a.typ :: Holds(ioSet[u] + workingSet[u], Act(old(registry), a), u)
    {
      forall u: EventType | u != a.typ ensures Holds(ioSet[u] + workingSet[u], Act(old(registry), a), u) {
        HoldsOther(old(ioSet[u] + workingSet[u]), old(registry), u, a);
      }
    }

    /** What a callback does to the registry. */
    method RunScript(script: seq<Action>)
      requires Valid()
      modifies this, ioSet, workingSet
      ensures Valid() && registry == ActAll(old(registry), script)
      ensures forall u: EventType :: Fds(workingSet[u]) == ExcuseAll(old(Fds(workingSet[u])), u, script)
      ensures forall u: EventType :: Fds(ioSet[u]) == QueueAll(old(registry), old(Fds(ioSet[u])), u, script)
    {
      var i := 0;
      assert script[0..] == script;
      while i < |script|
        invariant 0 <= i <= |script| && Valid()
        invariant ActAll(registry, script[i..]) == ActAll(old(registry), script)
        invariant forall u: EventType ::
          ExcuseAll(Fds(workingSet[u]), u, script[i..]) == ExcuseAll(old(Fds(workingSet[u])), u, script)
        invariant forall u: EventType ::
          QueueAll(registry, Fds(ioSet[u]), u, script[i..]) == QueueAll(old(registry), old(Fds(ioSet[u])), u, script)
      {
        var a := script[i];
        assert script[i..][0] == a && script[i..][1..] == script[i + 1..];
        match a {
          case Listen(t, fd, cb) => ListenIoEvent(fd, t, cb);
          case Unlisten(t, fd) => var _ := UnlistenIoEvent(fd, t);
        }
        i := i + 1;
      }
    }

    /** The element at `i` goes to the working set. */
    method MoveOne(t: EventType, i: nat)
      requires Valid() && i < |ioSet[t]|
      requires Holds(ioSet[t][..i] + ioSet[t][i + 1..] + (workingSet[t] + [ioSet[t][i]]), registry, t)
      modifies ioSet, workingSet
      ensures Valid()
      ensures ioSet[t] == old(ioSet[t][..i] + ioSet[t][i + 1..]) && workingSet[t] == old(workingSet[t] + [ioSet[t][i]])
      ensures forall u: EventType | u != t :: ioSet[u] == old(ioSet[u]) && workingSet[u] == old(workingSet[u])
    {
      ioSet[t], workingSet[t] := ioSet[t][..i] + ioSet[t][i + 1..], workingSet[t] + [ioSet[t][i]];
    }

    /** The first loop of check_select: the elements that are ready go to the working set. */
    method MoveReady(t: EventType, fdSet: set<int>)
      requires Valid() && Idle()
      modifies ioSet, workingSet
      ensures Valid()
      ensures workingSet[t] == Ready(old(ioSet[t]), fdSet, true) && ioSet[t] == Ready(old(ioSet[t]), fdSet, false)
      ensures forall u: EventType | u != t :: ioSet[u] == old(ioSet[u]) && workingSet[u] == []
    {
      ghost var l, k := ioSet[t], 0;
      var i := 0;
      assert l[..0] == [] && l[0..] == l;
      while i < |ioSet[t]|
        invariant Valid() && Scanned(l, k, fdSet, i, ioSet[t], workingSet[t])
        invariant forall u: EventType | u != t :: ioSet[u] == old(ioSet[u]) && workingSet[u] == old(workingSet[u])
        decreases |ioSet[t]| - i
      {
        var p := ioSet[t][i];
        if p.fd in fdSet {
          ScanReady(l, k, fdSet, i, ioSet[t], workingSet[t], registry, t);
          MoveOne(t, i);
        } else {
          ScanNotReady(l, k, fdSet, i, ioSet[t], workingSet[t]);
          i := i + 1;
        }
        k := k + 1;
      }
      ScanEnd(l, k, fdSet, i, ioSet[t], workingSet[t]);
    }

    /** The first element of the working set goes back to the end of the other list. */
    method MoveBack(t: EventType) returns (p: Element)
      requires Valid() && workingSet[t] != []
      modifies ioSet, workingSet
      ensures Valid() && p == old(workingSet[t][0]) && registry[(t, p.fd)] == p.cb
      ensures Fds(workingSet[t]) == old(Fds(workingSet[t]))[1..]
      ensures forall u: EventType | u != t :: workingSet[u] == old(workingSet[u])
      ensures forall u: EventType :: Fds(ioSet[u]) == Back(old(Fds(ioSet[u])), p.fd, t, u)
    {
      p := workingSet[t][0];
      FdsAppend(ioSet[t], [p]);
      WorkingRegistered(ioSet[t], workingSet[t], registry, t);
      assert ioSet[t] + workingSet[t] == (ioSet[t] + [p]) + workingSet[t][1..];
      assert Fds(workingSet[t][1..]) == Fds(workingSet[t])[1..];
      ioSet[t], workingSet[t] := ioSet[t] + [p], workingSet[t][1..];
    }

    /** One round of the second loop: the first element goes back, and its callback is called. */
    method CallFirst(t: EventType, script: seq<Action>) returns (p: Element)
      requires Valid() && workingSet[t] != []
      modifies this, ioSet, workingSet
      ensures Valid() && registry == ActAll(old(registry), script)
      ensures p.fd == old(Fds(workingSet[t])[0]) && (t, p.fd) in old(registry) && p.cb == old(registry)[(t, p.fd)]
      ensures Fds(workingSet[t]) == ExcuseAll(old(Fds(workingSet[t])[1..]), t, script)
      ensures forall u: EventType | u != t :: Fds(workingSet[u]) == ExcuseAll(old(Fds(workingSet[u])), u, script)
      ensures forall u: EventType ::
                Fds(ioSet[u]) == QueueAll(old(registry), Back(old(Fds(ioSet[u])), p.fd, t, u), u, script)
    {
      p := MoveBack(t);
      RunScript(script);
    }

    /** The second loop of check_select. */
    method Drain(t: EventType, scripts: seq<seq<Action>>) returns (log: seq<Element>)
      requires Valid() && forall u: EventType | u != t :: workingSet[u] == []
      modifies this, ioSet, workingSet
      ensures Valid() && Idle()
      ensures old(AllRegistered(registry, Fds(workingSet[t]), t))
      ensures (registry, log) == Pass(old(registry), old(Fds(workingSet[t])), t, scripts)
      ensures forall u: EventType ::
        Fds(ioSet[u]) == PassQueue(old(registry), old(Fds(ioSet[u])), old(Fds(workingSet[t])), t, u, scripts)
    {
      ghost var reg0, turn := registry, Fds(workingSet[t]);
      WorkingRegistered(ioSet[t], workingSet[t], registry, t);
      PassStarts(reg0, turn, t, scripts);
      log := [];
      var rest := scripts;
      while workingSet[t] != []
        invariant Valid() && forall u: EventType | u != t :: workingSet[u] == []
        invariant PassGoesOn(reg0, turn, t, scripts, registry, Fds(workingSet[t]), rest, log)
        invariant forall u: EventType :: PassQueue(registry, Fds(ioSet[u]), Fds(workingSet[t]), t, u, rest)
                                         == PassQueue(reg0, old(Fds(ioSet[u])), turn, t, u, scripts)
        decreases |workingSet[t]|
      {
        ghost var reg, left := registry, Fds(workingSet[t]);
        var p := CallFirst(t, Script(rest, 0));
        PassGoes(reg0, turn, t, scripts, reg, left, rest, log);
        log, rest := log + [p], Rest(rest);
      }
      assert Fds(workingSet[t]) == [];
      PassEnds(reg0, turn, t, scripts, registry, rest, log);
      assert workingSet[..] == [workingSet[0], workingSet[1], workingSet[2]];
    }

    /** One pass: whose turn comes, what is called, and what becomes of the registry and of the lists. */
    method CheckSelect(fdSet: set<int>, t: EventType, scripts: seq<seq<Action>>) returns (log: seq<Element>)
      requires Valid() && Idle()
      modifies this, ioSet, workingSet
      ensures Valid() && Idle()
      ensures var turn := old(Fds(Ready(ioSet[t], fdSet, true)));
              && AllRegistered(old(registry), turn, t) && (registry, log) == Pass(old(registry), turn, t, scripts)
              && (forall u: EventType ::
                    Fds(ioSet[u]) == PassQueue(old(registry), NotReady(old(ioSet[u]), fdSet, t, u), turn, t, u,
                      scripts))
    {
      MoveReady(t, fdSet);
      log := Drain(t, scripts);
    }
  }
}
