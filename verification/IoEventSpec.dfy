/** What one pass over the ready descriptors of a type has to do: a registry of callbacks, and whose turn is to come. */
module IoEventSpec {
  import opened CallScripts

  /** A callback function with its parameter. */
  type Callback(==, 0)

  /** IO_EVENT_RX, IO_EVENT_TX and IO_EVENT_ERROR. */
  type EventType = t: int | 0 <= t < 3

  /** What is registered: at most one callback for each type and descriptor. */
  type Registry = map<(EventType, int), Callback>

  /** One thing that a callback, or anybody else, does to the registry. */
  datatype Action = Listen(typ: EventType, fd: int, cb: Callback) | Unlisten(typ: EventType, fd: int)

  datatype Element = Element(fd: int, cb: Callback)

  function Act(reg: Registry, a: Action): Registry {
    match a
    case Listen(t, fd, cb) => reg[(t, fd) := cb]
    case Unlisten(t, fd) => reg - {(t, fd)}
  }

  function ActAll(reg: Registry, script: seq<Action>): Registry
    decreases |script|
  {
    if script == [] then reg else ActAll(Act(reg, script[0]), script[1..])
  }

  /** A list of descriptors without one of them. */
  function Without(turn: seq<int>, fd: int): (r: seq<int>)
    ensures |r| <= |turn|
  {
    if turn == [] then []
    else if turn[0] == fd then Without(turn[1..], fd)
    else [turn[0]] + Without(turn[1..], fd)
  }

  /** Where a descriptor comes first. */
  function Place(w: seq<int>, fd: int): (i: nat)
    ensures i <= |w| && (i < |w| ==> w[i] == fd) && forall j :: 0 <= j < i ==> w[j] != fd
  {
    if w == [] || w[0] == fd then 0 else 1 + Place(w[1..], fd)
  }

  /** Whose turn is still to come after an action. */
  function Excuse(turn: seq<int>, t: EventType, a: Action): (r: seq<int>)
    ensures |r| <= |turn|
  {
    if a.Unlisten? && a.typ == t then Without(turn, a.fd) else turn
  }

  function ExcuseAll(turn: seq<int>, t: EventType, script: seq<Action>): (r: seq<int>)
    ensures |r| <= |turn|
    decreases |script|
  {
    if script == [] then turn else ExcuseAll(Excuse(turn, t, script[0]), t, script[1..])
  }

  /** The descriptors of a type that are not waiting for their turn, in the order of their list, after an action. */
  function Queue(reg: Registry, idle: seq<int>, t: EventType, a: Action): seq<int> {
    if a.typ != t then idle
    else if a.Unlisten? then Without(idle, a.fd)
    else if (t, a.fd) in reg then idle
    else idle + [a.fd]
  }

  function QueueAll(reg: Registry, idle: seq<int>, t: EventType, script: seq<Action>): seq<int>
    decreases |script|
  {
    if script == [] then idle else QueueAll(Act(reg, script[0]), Queue(reg, idle, t, script[0]), t, script[1..])
  }

  ghost predicate AllRegistered(reg: Registry, turn: seq<int>, t: EventType) {
    forall fd | fd in turn :: Registered(reg, t, fd)
  }

  predicate Registered(reg: Registry, t: EventType, fd: int) {
    (t, fd) in reg
  }

  /** One pass for a type: the callbacks of the descriptors are called in turn.  The result is the registry afterwards
      and the calls. */
  ghost function Pass(reg: Registry, turn: seq<int>, t: EventType, scripts: seq<seq<Action>>): (Registry, seq<Element>)
    requires AllRegistered(reg, turn, t)
    decreases |turn|
  {
    if turn == [] then (reg, [])
    else
      assert turn[0] in turn && Registered(reg, t, turn[0]);
      StaysRegistered(reg, turn[1..], t, Script(scripts, 0));
      var rest := Pass(ActAll(reg, Script(scripts, 0)), ExcuseAll(turn[1..], t, Script(scripts, 0)), t, Rest(scripts));
      (rest.0, [Element(turn[0], reg[(t, turn[0])])] + rest.1)
  }

  /** The list of type `u` with a descriptor of type `t` put back. */
  function Back(idle: seq<int>, fd: int, t: EventType, u: EventType): seq<int> {
    if u == t then idle + [fd] else idle
  }

  /** What becomes of the list of type `u` in a pass for type `t`: whoever is called goes to its end before the call. */
  function PassQueue(reg: Registry, idle: seq<int>, turn: seq<int>, t: EventType, u: EventType,
                     scripts: seq<seq<Action>>): seq<int>
    decreases |turn|
  {
    if turn == [] then idle
    else
      var script := Script(scripts, 0);
      var idle' := QueueAll(reg, Back(idle, turn[0], t, u), u, script);
      PassQueue(ActAll(reg, script), idle', ExcuseAll(turn[1..], t, script), t, u, Rest(scripts))
  }

  /** A pass whose callbacks do nothing puts those that are called behind the others, in order. */
  lemma {:induction false} PassRotates(reg: Registry, idle: seq<int>, turn: seq<int>, t: EventType)
    ensures PassQueue(reg, idle, turn, t, t, []) == idle + turn
    decreases |turn|
  {
    if turn == [] {
      assert idle + turn == idle;
    } else {
      PassRotates(reg, idle + [turn[0]], turn[1..], t);
      assert (idle + [turn[0]]) + turn[1..] == idle + turn;
    }
  }

  // ---------------------------------------------------------------------------------------------
  // What is excused
  // ---------------------------------------------------------------------------------------------

  lemma {:induction false} WithoutIn(turn: seq<int>, fd: int, x: int)
    ensures x in Without(turn, fd) <==> x in turn && x != fd
  {
    if turn == [] {
    } else {
      WithoutIn(turn[1..], fd, x);
      assert turn == [turn[0]] + turn[1..];
    }
  }

  lemma {:induction false} ExcusedIn(turn: seq<int>, t: EventType, script: seq<Action>, x: int)
    ensures x in ExcuseAll(turn, t, script) <==> x in turn && Unlisten(t, x) !in script
    decreases |script|
  {
    if script == [] {
    } else {
      assert script == [script[0]] + script[1..];
      ExcusedIn(Excuse(turn, t, script[0]), t, script[1..], x);
      if script[0].Unlisten? && script[0].typ == t {
        WithoutIn(turn, script[0].fd, x);
      }
    }
  }

  /** Descriptors in an order. */
  ghost predicate Increasing(rank: int -> int, turn: seq<int>) {
    forall i, j :: 0 <= i < j < |turn| ==> rank(turn[i]) < rank(turn[j])
  }

  lemma IncreasingRest(rank: int -> int, turn: seq<int>)
    requires turn != [] && Increasing(rank, turn)
    ensures Increasing(rank, turn[1..]) && forall x | x in turn[1..] :: rank(turn[0]) < rank(x)
  {
  }

  lemma {:induction false} WithoutIncreasing(rank: int -> int, turn: seq<int>, fd: int)
    requires Increasing(rank, turn)
    ensures Increasing(rank, Without(turn, fd))
  {
    if turn == [] {
    } else {
      var rest := Without(turn[1..], fd);
      IncreasingRest(rank, turn);
      WithoutIncreasing(rank, turn[1..], fd);
      forall j | 0 <= j < |rest| ensures rank(turn[0]) < rank(rest[j]) {
        WithoutIn(turn[1..], fd, rest[j]);
      }
    }
  }

  lemma {:induction false} ExcusedIncreasing(rank: int -> int, turn: seq<int>, t: EventType, script: seq<Action>)
    requires Increasing(rank, turn)
    ensures Increasing(rank, ExcuseAll(turn, t, script))
    decreases |script|
  {
    if script == [] {
    } else {
      if script[0].Unlisten? && script[0].typ == t {
        WithoutIncreasing(rank, turn, script[0].fd);
      }
      ExcusedIncreasing(rank, Excuse(turn, t, script[0]), t, script[1..]);
    }
  }

  lemma {:induction false} StaysRegistered(reg: Registry, turn: seq<int>, t: EventType, script: seq<Action>)
    requires AllRegistered(reg, turn, t)
    ensures AllRegistered(ActAll(reg, script), ExcuseAll(turn, t, script), t)
    decreases |script|
  {
    if script == [] {
    } else {
      var turn' := Excuse(turn, t, script[0]);
      forall fd | fd in turn' ensures Registered(Act(reg, script[0]), t, fd) {
        ExcusedIn(turn, t, [script[0]], fd);
        assert ExcuseAll(turn, t, [script[0]]) == turn';
      }
      StaysRegistered(Act(reg, script[0]), turn', t, script[1..]);
    }
  }

  // ---------------------------------------------------------------------------------------------
  // What a pass does
  // ---------------------------------------------------------------------------------------------

  /** The registry after the first `k` callbacks. */
  function RegistryAt(reg: Registry, scripts: seq<seq<Action>>, k: nat): Registry
    decreases k
  {
    if k == 0 then reg else RegistryAt(ActAll(reg, Script(scripts, 0)), Rest(scripts), k - 1)
  }

  /** Every call is of a descriptor whose turn it was, with the callback that is registered at that moment, and the
      calls and nothing else change the registry. */
  lemma {:induction false} PassRegistry(reg: Registry, turn: seq<int>, t: EventType, scripts: seq<seq<Action>>)
    requires AllRegistered(reg, turn, t)
    ensures var (end, log) := Pass(reg, turn, t, scripts);
            && end == RegistryAt(reg, scripts, |log|)
            && forall k :: 0 <= k < |log| ==>
                 log[k].fd in turn && (t, log[k].fd) in RegistryAt(reg, scripts, k)
                 && log[k].cb == RegistryAt(reg, scripts, k)[(t, log[k].fd)]
    decreases |turn|
  {
    if turn == [] {
    } else {
      var script := Script(scripts, 0);
      var reg', turn' := ActAll(reg, script), ExcuseAll(turn[1..], t, script);
      StaysRegistered(reg, turn[1..], t, script);
      PassRegistry(reg', turn', t, Rest(scripts));
      assert turn[0] in turn && Registered(reg, t, turn[0]);
      var (end, log) := Pass(reg, turn, t, scripts);
      var later := Pass(reg', turn', t, Rest(scripts)).1;
      forall k | 0 < k < |log|
        ensures log[k].fd in turn && RegistryAt(reg, scripts, k) == RegistryAt(reg', Rest(scripts), k - 1)
      {
        assert log[k] == later[k - 1];
        ExcusedIn(turn[1..], t, script, log[k].fd);
      }
    }
  }

  /** The calls of a pass: the first one, and those of the rest. */
  lemma PassCons(reg: Registry, turn: seq<int>, t: EventType, scripts: seq<seq<Action>>)
    requires turn != [] && AllRegistered(reg, turn, t)
    ensures var reg', turn' := ActAll(reg, Script(scripts, 0)), ExcuseAll(turn[1..], t, Script(scripts, 0));
            && Registered(reg, t, turn[0]) && AllRegistered(reg', turn', t)
            && Pass(reg, turn, t, scripts).1
               == [Element(turn[0], reg[(t, turn[0])])] + Pass(reg', turn', t, Rest(scripts)).1
  {
    assert turn[0] in turn;
    StaysRegistered(reg, turn[1..], t, Script(scripts, 0));
  }

  /** Whatever is called later comes after the first. */
  lemma LaterRank(rank: int -> int, turn: seq<int>, t: EventType, script: seq<Action>, fd: int)
    requires turn != [] && Increasing(rank, turn) && fd in ExcuseAll(turn[1..], t, script)
    ensures rank(turn[0]) < rank(fd)
  {
    ExcusedIn(turn[1..], t, script, fd);
    IncreasingRest(rank, turn);
  }

  /** Only descriptors whose turn it was are called. */
  lemma {:induction false} PassWithin(reg: Registry, turn: seq<int>, t: EventType, scripts: seq<seq<Action>>)
    requires AllRegistered(reg, turn, t)
    ensures forall e | e in Pass(reg, turn, t, scripts).1 :: e.fd in turn
    decreases |turn|
  {
    if turn == [] {
    } else {
      var script := Script(scripts, 0);
      PassCons(reg, turn, t, scripts);
      PassWithin(ActAll(reg, script), ExcuseAll(turn[1..], t, script), t, Rest(scripts));
      forall e | e in Pass(reg, turn, t, scripts).1 ensures e.fd in turn {
        ExcusedIn(turn[1..], t, script, e.fd);
      }
    }
  }

  lemma IncreasingLater(rank: int -> int, turn: seq<int>, t: EventType, script: seq<Action>)
    requires turn != [] && Increasing(rank, turn)
    ensures Increasing(rank, ExcuseAll(turn[1..], t, script))
  {
    IncreasingRest(rank, turn);
    ExcusedIncreasing(rank, turn[1..], t, script);
  }

  lemma PassStep(reg: Registry, turn: seq<int>, t: EventType, scripts: seq<seq<Action>>)
    returns (reg': Registry, turn': seq<int>, log: seq<Element>, later: seq<Element>)
    requires turn != [] && AllRegistered(reg, turn, t)
    ensures turn' == ExcuseAll(turn[1..], t, Script(scripts, 0)) && AllRegistered(reg', turn', t)
    ensures log == Pass(reg, turn, t, scripts).1 && later == Pass(reg', turn', t, Rest(scripts)).1
    ensures |log| == |later| + 1 && log[0].fd == turn[0] && forall k :: 0 <= k < |later| ==> log[k + 1] == later[k]
    ensures forall k :: 0 <= k < |later| ==> later[k].fd in turn'
  {
    reg', turn' := ActAll(reg, Script(scripts, 0)), ExcuseAll(turn[1..], t, Script(scripts, 0));
    PassCons(reg, turn, t, scripts);
    PassWithin(reg', turn', t, Rest(scripts));
    log, later := Pass(reg, turn, t, scripts).1, Pass(reg', turn', t, Rest(scripts)).1;
  }

  lemma FirstOrLater(rank: int -> int, turn: seq<int>, fd: int)
    requires fd in turn && Increasing(rank, turn)
    ensures fd == turn[0] || (fd in turn[1..] && rank(turn[0]) < rank(fd))
  {
    assert turn == [turn[0]] + turn[1..];
    IncreasingRest(rank, turn);
  }

  /** Calls come in order, and so no descriptor is called twice. */
  lemma {:induction false} PassOrder(rank: int -> int, reg: Registry, turn: seq<int>, t: EventType,
                                     scripts: seq<seq<Action>>)
    requires AllRegistered(reg, turn, t) && Increasing(rank, turn)
    ensures var log := Pass(reg, turn, t, scripts).1;
            forall j, k :: 0 <= j < k < |log| ==> rank(log[j].fd) < rank(log[k].fd)
    decreases |turn|
  {
    if turn == [] {
    } else {
      var reg', turn', log, later := PassStep(reg, turn, t, scripts);
      IncreasingLater(rank, turn, t, Script(scripts, 0));
      PassOrder(rank, reg', turn', t, Rest(scripts));
      forall j, k | 0 <= j < k < |log| ensures rank(log[j].fd) < rank(log[k].fd) {
        assert log[k] == later[k - 1];
        LaterRank(rank, turn, t, Script(scripts, 0), later[k - 1].fd);
        if j > 0 {
          assert log[j] == later[j - 1];
        }
      }
    }
  }

  /** A descriptor is called exactly if no callback that is called before its turn takes it off the registry. */
  lemma {:induction false} PassTurn(rank: int -> int, reg: Registry, turn: seq<int>, t: EventType,
                                    scripts: seq<seq<Action>>, fd: int)
    requires AllRegistered(reg, turn, t) && Increasing(rank, turn) && fd in turn
    ensures var log := Pass(reg, turn, t, scripts).1; Called(log, fd) <==> Spared(rank, log, t, scripts, fd)
    decreases |turn|
  {
    var reg', turn', log, later := PassStep(reg, turn, t, scripts);
      IncreasingLater(rank, turn, t, Script(scripts, 0));
    if fd == turn[0] {
      assert log[0].fd == fd;
      forall k | 0 <= k < |log| ensures rank(fd) <= rank(log[k].fd) {
        if k > 0 {
          assert log[k] == later[k - 1];
          LaterRank(rank, turn, t, Script(scripts, 0), later[k - 1].fd);
        }
      }
    } else {
      FirstOrLater(rank, turn, fd);
      if fd in turn' {
        PassTurn(rank, reg', turn', t, Rest(scripts), fd);
      }
      TurnLater(rank, turn, log, later, t, scripts, fd);
    }
  }

  lemma TurnLater(rank: int -> int, turn: seq<int>, log: seq<Element>, later: seq<Element>, t: EventType,
                  scripts: seq<seq<Action>>, fd: int)
    requires turn != [] && fd in turn[1..] && fd != turn[0] && rank(turn[0]) < rank(fd)
    requires |log| == |later| + 1 && log[0].fd == turn[0] && forall k :: 0 <= k < |later| ==> log[k + 1] == later[k]
    requires fd in ExcuseAll(turn[1..], t, Script(scripts, 0)) ==>
               (Called(later, fd) <==> Spared(rank, later, t, Rest(scripts), fd))
    requires forall k :: 0 <= k < |later| ==> later[k].fd in ExcuseAll(turn[1..], t, Script(scripts, 0))
    ensures Called(log, fd) <==> Spared(rank, log, t, scripts, fd)
  {
    ExcusedIn(turn[1..], t, Script(scripts, 0), fd);
    CalledLater(log, later, fd);
    SparedLater(rank, log, later, t, scripts, fd);
  }

  ghost predicate Called(log: seq<Element>, fd: int) {
    exists k :: 0 <= k < |log| && log[k].fd == fd
  }

  /** No callback that is called before the turn of the descriptor takes it off the registry. */
  ghost predicate Spared(rank: int -> int, log: seq<Element>, t: EventType, scripts: seq<seq<Action>>, fd: int) {
    forall k :: 0 <= k < |log| && rank(log[k].fd) < rank(fd) ==> Unlisten(t, fd) !in Script(scripts, k)
  }

  lemma CalledLater(log: seq<Element>, later: seq<Element>, fd: int)
    requires |log| == |later| + 1 && log[0].fd != fd && forall k :: 0 <= k < |later| ==> log[k + 1] == later[k]
    ensures Called(log, fd) <==> Called(later, fd)
  {
    if Called(log, fd) {
      var k :| 0 <= k < |log| && log[k].fd == fd;
      assert later[k - 1].fd == fd;
    }
  }

  lemma SparedLater(rank: int -> int, log: seq<Element>, later: seq<Element>, t: EventType, scripts: seq<seq<Action>>,
                    fd: int)
    requires |log| == |later| + 1 && rank(log[0].fd) < rank(fd)
    requires forall k :: 0 <= k < |later| ==> log[k + 1] == later[k]
    ensures Spared(rank, log, t, scripts, fd)
        <==> Unlisten(t, fd) !in Script(scripts, 0) && Spared(rank, later, t, Rest(scripts), fd)
  {
    if Spared(rank, log, t, scripts, fd) {
      forall k | 0 <= k < |later| && rank(later[k].fd) < rank(fd) ensures Unlisten(t, fd) !in Script(Rest(scripts), k) {
        assert log[k + 1] == later[k];
        ScriptRest(scripts);
      }
    }
    if Unlisten(t, fd) !in Script(scripts, 0) && Spared(rank, later, t, Rest(scripts), fd) {
      forall k | 0 <= k < |log| && rank(log[k].fd) < rank(fd) ensures Unlisten(t, fd) !in Script(scripts, k) {
        if k > 0 {
          assert log[k] == later[k - 1];
          ScriptRest(scripts);
        }
      }
    }
  }
}
