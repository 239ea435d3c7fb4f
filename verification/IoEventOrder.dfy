/** The order in which descriptors come on their list: that of their registration. */
module IoEventOrder {
  import opened IoEventSpec
  import opened IoEventDrivers

  // ---------------------------------------------------------------------------------------------
  // What is registered
  // ---------------------------------------------------------------------------------------------

  ghost predicate About(a: Action, t: EventType, fd: int) {
    a.typ == t && a.fd == fd
  }

  /** The action at `i` is the last one about the descriptor. */
  ghost predicate LastWord(script: seq<Action>, t: EventType, fd: int, i: nat) {
    i < |script| && About(script[i], t, fd) && forall j :: i < j < |script| ==> !About(script[j], t, fd)
  }

  lemma {:induction false} NoWord(reg: Registry, script: seq<Action>, t: EventType, fd: int)
    requires forall a :: a in script ==> !About(a, t, fd)
    ensures (t, fd) in ActAll(reg, script) <==> (t, fd) in reg
    ensures (t, fd) in reg ==> ActAll(reg, script)[(t, fd)] == reg[(t, fd)]
    decreases |script|
  {
    if script == [] {
    } else {
      assert script[0] in script;
      NoWord(Act(reg, script[0]), script[1..], t, fd);
    }
  }

  /** What is registered for a descriptor is what was said last about it. */
  lemma {:induction false} LastWordCounts(reg: Registry, script: seq<Action>, t: EventType, fd: int, i: nat)
    requires LastWord(script, t, fd, i)
    ensures (t, fd) in ActAll(reg, script) <==> script[i].Listen?
    ensures script[i].Listen? ==> ActAll(reg, script)[(t, fd)] == script[i].cb
    decreases |script|
  {
    if i == 0 {
      assert forall a :: a in script[1..] ==> !About(a, t, fd);
      NoWord(Act(reg, script[0]), script[1..], t, fd);
    } else {
      LastWordCounts(Act(reg, script[0]), script[1..], t, fd, i - 1);
    }
  }

  // ---------------------------------------------------------------------------------------------
  // Who comes first
  // ---------------------------------------------------------------------------------------------

  /** Both are on the list, `x` before `y`. */
  ghost predicate Ahead(l: seq<int>, x: int, y: int) {
    x in l && y in l && Place(l, x) < Place(l, y)
  }

  lemma PlaceIn(l: seq<int>, fd: int)
    ensures Place(l, fd) < |l| <==> fd in l
  {
  }

  lemma {:induction false} PlaceAppend(l: seq<int>, y: int, x: int)
    ensures x in l ==> Place(l + [y], x) == Place(l, x)
    ensures y !in l ==> Place(l + [y], y) == |l|
  {
    if l == [] {
    } else {
      assert (l + [y])[1..] == l[1..] + [y];
      PlaceAppend(l[1..], y, x);
    }
  }

  lemma {:induction false} AheadWithout(l: seq<int>, fd: int, x: int, y: int)
    requires Ahead(l, x, y) && x != fd && y != fd
    ensures Ahead(Without(l, fd), x, y)
  {
    WithoutIn(l, fd, x);
    WithoutIn(l, fd, y);
    if l[0] != x {
      AheadWithout(l[1..], fd, x, y);
    } else {
      WithoutIn(l[1..], fd, y);
    }
  }

  /** Who is on the list, and stays registered, keeps his place before others who do. */
  lemma QueueKeeps(reg: Registry, idle: seq<int>, t: EventType, a: Action, x: int, y: int)
    requires Ahead(idle, x, y) && a != Unlisten(t, x) && a != Unlisten(t, y)
    ensures Ahead(Queue(reg, idle, t, a), x, y)
  {
    if a.typ == t && a.Unlisten? {
      AheadWithout(idle, a.fd, x, y);
    } else if a.typ == t {
      PlaceAppend(idle, a.fd, x);
      PlaceAppend(idle, a.fd, y);
    }
  }

  lemma QueueStays(reg: Registry, idle: seq<int>, t: EventType, a: Action)
    requires AllRegistered(reg, idle, t)
    ensures AllRegistered(Act(reg, a), Queue(reg, idle, t, a), t)
    ensures forall x | x in idle && a != Unlisten(t, x) :: x in Queue(reg, idle, t, a)
  {
    forall x ensures x in Without(idle, a.fd) <==> x in idle && x != a.fd {
      WithoutIn(idle, a.fd, x);
    }
    forall x | x in Queue(reg, idle, t, a) ensures Registered(Act(reg, a), t, x) {
      assert x in idle ==> Registered(reg, t, x);
    }
  }

  lemma {:induction false} OrderKept(reg: Registry, idle: seq<int>, t: EventType, script: seq<Action>, x: int, y: int)
    requires Ahead(idle, x, y) && Unlisten(t, x) !in script && Unlisten(t, y) !in script
    ensures Ahead(QueueAll(reg, idle, t, script), x, y)
    decreases |script|
  {
    if script == [] {
    } else {
      QueueKeeps(reg, idle, t, script[0], x, y);
      OrderKept(Act(reg, script[0]), Queue(reg, idle, t, script[0]), t, script[1..], x, y);
    }
  }

  /** The descriptor is registered by the action at `i`, at which it was not, and is not taken off any more. */
  ghost predicate RegisteredAt(reg: Registry, script: seq<Action>, t: EventType, fd: int, i: nat) {
    && i < |script| && script[i].Listen? && About(script[i], t, fd)
    && (t, fd) !in ActAll(reg, script[..i]) && Unlisten(t, fd) !in script[i..]
  }

  lemma RegisteredLater(reg: Registry, script: seq<Action>, t: EventType, fd: int, i: nat)
    requires RegisteredAt(reg, script, t, fd, i) && i > 0
    ensures RegisteredAt(Act(reg, script[0]), script[1..], t, fd, i - 1)
  {
    assert script[..i][0] == script[0] && script[..i][1..] == script[1..][..i - 1];
    assert script[1..][i - 1..] == script[i..];
  }

  /** Whoever is newly registered comes behind everybody who is on the list and stays there. */
  lemma {:induction false} NewBehind(reg: Registry, idle: seq<int>, t: EventType, script: seq<Action>, x: int, fd: int,
                                     i: nat)
    requires AllRegistered(reg, idle, t) && x in idle && Unlisten(t, x) !in script
    requires RegisteredAt(reg, script, t, fd, i)
    ensures Ahead(QueueAll(reg, idle, t, script), x, fd)
    decreases |script|
  {
    var reg', idle' := Act(reg, script[0]), Queue(reg, idle, t, script[0]);
    QueueStays(reg, idle, t, script[0]);
    if i == 0 {
      assert script[..0] == [] && script[0..] == script;
      assert fd in idle ==> Registered(reg, t, fd);
      PlaceAppend(idle, fd, x);
      OrderKept(reg', idle', t, script[1..], x, fd);
    } else {
      RegisteredLater(reg, script, t, fd, i);
      NewBehind(reg', idle', t, script[1..], x, fd, i - 1);
    }
  }

  /** Of two descriptors that are newly registered, the one that is registered first comes first. */
  lemma {:induction false} FirstComesFirst(reg: Registry, idle: seq<int>, t: EventType, script: seq<Action>,
                                           x: int, i: nat, y: int, j: nat)
    requires AllRegistered(reg, idle, t) && i < j
    requires RegisteredAt(reg, script, t, x, i) && RegisteredAt(reg, script, t, y, j)
    ensures Ahead(QueueAll(reg, idle, t, script), x, y)
    decreases |script|
  {
    var reg', idle' := Act(reg, script[0]), Queue(reg, idle, t, script[0]);
    QueueStays(reg, idle, t, script[0]);
    RegisteredLater(reg, script, t, y, j);
    if i == 0 {
      assert script[0..] == script && script[..0] == [];
      NewBehind(reg', idle', t, script[1..], x, y, j - 1);
    } else {
      RegisteredLater(reg, script, t, x, i);
      FirstComesFirst(reg', idle', t, script[1..], x, i - 1, y, j - 1);
    }
  }

  /** So, if nothing was registered at first, of two descriptors that are called in a pass the one that was registered
      first is called first. */
  lemma FirstCalledFirst(script: seq<Action>, l: seq<Element>, t: EventType, fdSet: set<int>, scripts: seq<seq<Action>>,
                         x: int, i: nat, y: int, j: nat)
    requires var reg := ActAll(map[], script);
             && Holds(l, reg, t) && Fds(l) == QueueAll(map[], [], t, script)
             && AllRegistered(reg, Fds(Ready(l, fdSet, true)), t)
    requires i < j && RegisteredAt(map[], script, t, x, i) && RegisteredAt(map[], script, t, y, j)
    ensures var log := Pass(ActAll(map[], script), Fds(Ready(l, fdSet, true)), t, scripts).1;
            forall p, q :: 0 <= p < |log| && 0 <= q < |log| && log[p].fd == x && log[q].fd == y ==> p < q
  {
    FirstComesFirst(map[], [], t, script, x, i, y, j);
    PassCalls(l, ActAll(map[], script), t, fdSet, scripts);
  }

  /** What a callback registers comes behind the descriptor that it was called for. */
  lemma NewBehindCalled(reg: Registry, idle: seq<int>, t: EventType, script: seq<Action>, called: int, fd: int, i: nat)
    requires AllRegistered(reg, idle, t) && Registered(reg, t, called) && Unlisten(t, called) !in script
    requires RegisteredAt(reg, script, t, fd, i)
    ensures Ahead(QueueAll(reg, Back(idle, called, t, t), t, script), called, fd)
  {
    assert AllRegistered(reg, idle + [called], t);
    NewBehind(reg, idle + [called], t, script, called, fd, i);
  }
}
