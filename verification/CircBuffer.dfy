/** The circular buffer, and the queue of bytes that it stands for. */
module CircBuffers {

  /** An index that may have gone past the end once. */
  function Wrap(i: nat, size: nat): (r: nat)
    requires i < 2 * size
    ensures r < size
  {
    if i < size then i else i - size
  }

  lemma WrapIsMod(i: nat, size: nat)
    requires i < 2 * size
    ensures i % size == Wrap(i, size)
  {
    if i >= size {
      assert i == size + (i - size);
    }
  }

  /** The `n` bytes from `begin` on. */
  function Held(buffer: seq<char>, begin: nat, n: nat): (r: seq<char>)
    requires begin < |buffer| && n <= |buffer|
    ensures |r| == n
  {
    if begin + n <= |buffer| then buffer[begin..begin + n]
    else buffer[begin..] + buffer[..begin + n - |buffer|]
  }

  lemma HeldAt(buffer: seq<char>, begin: nat, n: nat)
    requires begin < |buffer| && n <= |buffer|
    ensures forall i :: 0 <= i < n ==> Held(buffer, begin, n)[i] == buffer[Wrap(begin + i, |buffer|)]
  {
  }

  /** The buffer with data copied to `end` and, past the end of the buffer, to its start. */
  function Stored(buffer: seq<char>, end: nat, data: seq<char>): (r: seq<char>)
    requires end < |buffer| && |data| <= |buffer|
    ensures |r| == |buffer|
  {
    var k := |buffer| - end;
    if |data| <= k then buffer[..end] + data + buffer[end + |data|..]
    else data[k..] + buffer[|data| - k..end] + data[..k]
  }

  lemma StoredAt(buffer: seq<char>, end: nat, data: seq<char>, j: nat)
    requires end < |buffer| && |data| <= |buffer| && j < |buffer|
    ensures Stored(buffer, end, data)[j]
         == (if end <= j < end + |data| then data[j - end]
             else if j + |buffer| < end + |data| then data[j + |buffer| - end]
             else buffer[j])
  {
  }

  /** Data stored behind `n` bytes is held behind them. */
  lemma StoredHeld(buffer: seq<char>, after: seq<char>, begin: nat, n: nat, end: nat, data: seq<char>)
    requires begin < |buffer| && n + |data| <= |buffer| && end == Wrap(begin + n, |buffer|)
    requires after == Stored(buffer, end, data)
    ensures Held(after, begin, n + |data|) == Held(buffer, begin, n) + data
  {
    var size, was := |buffer|, Held(buffer, begin, n);
    HeldAt(buffer, begin, n);
    HeldAt(after, begin, n + |data|);
    forall i | 0 <= i < n + |data| ensures Held(after, begin, n + |data|)[i] == (was + data)[i] {
      StoredAt(buffer, end, data, Wrap(begin + i, size));
    }
  }

  lemma HeldRest(buffer: seq<char>, begin: nat, n: nat, m: nat)
    requires begin < |buffer| && n <= |buffer| && m <= n
    ensures Held(buffer, Wrap(begin + m, |buffer|), n - m) == Held(buffer, begin, n)[m..]
    ensures Held(buffer, begin, m) == Held(buffer, begin, n)[..m]
  {
    var size, rest := |buffer|, Held(buffer, Wrap(begin + m, |buffer|), n - m);
    HeldAt(buffer, begin, n);
    HeldAt(buffer, begin, m);
    HeldAt(buffer, Wrap(begin + m, size), n - m);
    forall i | 0 <= i < n - m ensures rest[i] == Held(buffer, begin, n)[m + i] {
      assert Wrap(Wrap(begin + m, size) + i, size) == Wrap(begin + (m + i), size);
    }
    forall i | 0 <= i < m ensures Held(buffer, begin, m)[i] == Held(buffer, begin, n)[i] {
    }
  }

  // ---------------------------------------------------------------------------------------------
  // The queue
  // ---------------------------------------------------------------------------------------------

  datatype Op = Put(data: seq<char>) | Get(n: nat) | Skip(n: nat) | Peek(n: nat)

  /** The return value, and what has been copied to the caller. */
  datatype Out = Out(ret: int, data: seq<char>)

  function Step(size: nat, held: seq<char>, op: Op): (seq<char>, Out) {
    match op
    case Put(data) => if |held| + |data| > size then (held, Out(-1, [])) else (held + data, Out(0, []))
    case Get(n) => if n > |held| then (held, Out(-1, [])) else (held[n..], Out(0, held[..n]))
    case Skip(n) => if n > |held| then (held, Out(-1, [])) else (held[n..], Out(0, []))
    case Peek(n) => if n > |held| then (held, Out(-1, [])) else (held, Out(0, held[..n]))
  }

  function Run(size: nat, held: seq<char>, ops: seq<Op>): (seq<char>, seq<Out>)
    decreases |ops|
  {
    if ops == [] then (held, [])
    else
      var (next, out) := Step(size, held, ops[0]);
      var (end, outs) := Run(size, next, ops[1..]);
      (end, [out] + outs)
  }

  /** The bytes that a step accepts. */
  function AcceptedBy(op: Op, out: Out): seq<char> {
    if op.Put? && out.ret == 0 then op.data else []
  }

  function Accepted(ops: seq<Op>, outs: seq<Out>): seq<char>
    requires |ops| == |outs|
  {
    if ops == [] then [] else AcceptedBy(ops[0], outs[0]) + Accepted(ops[1..], outs[1..])
  }

  /** The bytes that a step takes out of the queue, whether they are copied or not. */
  function TakenBy(held: seq<char>, op: Op): seq<char> {
    if (op.Get? || op.Skip?) && op.n <= |held| then held[..op.n] else []
  }

  function Taken(size: nat, held: seq<char>, ops: seq<Op>): seq<char>
    decreases |ops|
  {
    if ops == [] then [] else TakenBy(held, ops[0]) + Taken(size, Step(size, held, ops[0]).0, ops[1..])
  }

  lemma Shift(held: seq<char>, more: seq<char>, taken: seq<char>, next: seq<char>, others: seq<char>,
              later: seq<char>, end: seq<char>)
    requires held + more == taken + next && next + others == later + end
    ensures held + (more + others) == (taken + later) + end
  {
    assert held + (more + others) == (held + more) + others;
    assert (taken + next) + others == taken + (next + others);
  }

  lemma StepConserves(size: nat, held: seq<char>, op: Op)
    requires |held| <= size
    ensures var (next, out) := Step(size, held, op);
            |next| <= size && held + AcceptedBy(op, out) == TakenBy(held, op) + next
  {
  }

  /** What was there and what a run accepts comes out in the same order: first what is taken, then what is left. */
  lemma {:induction false} RunConserves(size: nat, held: seq<char>, ops: seq<Op>)
    requires |held| <= size
    ensures var (end, outs) := Run(size, held, ops);
            && |outs| == |ops| && |end| <= size
            && held + Accepted(ops, outs) == Taken(size, held, ops) + end
    decreases |ops|
  {
    if ops == [] {
    } else {
      var (next, out) := Step(size, held, ops[0]);
      var (end, outs) := Run(size, next, ops[1..]);
      StepConserves(size, held, ops[0]);
      RunConserves(size, next, ops[1..]);
      assert ([out] + outs)[1..] == outs;
      Shift(held, AcceptedBy(ops[0], out), TakenBy(held, ops[0]), next,
            Accepted(ops[1..], outs), Taken(size, next, ops[1..]), end);
    }
  }

  /** When a step is refused, and what it copies: a get takes what it copies, and a peek copies what a get would. */
  lemma StepCopies(size: nat, held: seq<char>, op: Op)
    ensures var (next, out) := Step(size, held, op);
            && (out.ret == 0 || out.ret == -1)
            && (out.ret == -1 <==> if op.Put? then |held| + |op.data| > size else op.n > |held|)
            && (out.ret == -1 || op.Peek? ==> next == held)
            && (out.ret == -1 ==> out.data == [])
            && (out.ret == 0 && op.Get? ==> |out.data| == op.n && out.data + next == held)
            && (out.ret == 0 && op.Skip? ==> op.n <= |held| && next == held[op.n..])
            && (op.Peek? ==> out == Step(size, held, Op.Get(op.n)).1)
  {
  }

  /** The bytes that the gets of a run copy to the caller. */
  function Received(ops: seq<Op>, outs: seq<Out>): seq<char>
    requires |ops| == |outs|
  {
    if ops == [] then [] else (if ops[0].Get? then outs[0].data else []) + Received(ops[1..], outs[1..])
  }

  lemma {:induction false} ReceivedIsTaken(size: nat, held: seq<char>, ops: seq<Op>)
    requires forall op | op in ops :: !op.Skip?
    ensures |Run(size, held, ops).1| == |ops|
    ensures Received(ops, Run(size, held, ops).1) == Taken(size, held, ops)
    decreases |ops|
  {
    if ops == [] {
    } else {
      var (next, out) := Step(size, held, ops[0]);
      var outs := Run(size, next, ops[1..]).1;
      assert ops[0] in ops;
      ReceivedIsTaken(size, next, ops[1..]);
      assert ([out] + outs)[1..] == outs;
    }
  }

  /** First in, first out: as long as nothing is skipped, what was held and what the puts bring come to the caller in
      the same order, up to what is left. */
  lemma FirstInFirstOut(size: nat, held: seq<char>, ops: seq<Op>)
    requires |held| <= size && forall op | op in ops :: !op.Skip?
    ensures var (end, outs) := Run(size, held, ops);
            |outs| == |ops| && held + Accepted(ops, outs) == Received(ops, outs) + end
  {
    RunConserves(size, held, ops);
    ReceivedIsTaken(size, held, ops);
  }

  // ---------------------------------------------------------------------------------------------
  // The buffer
  // ---------------------------------------------------------------------------------------------

  /** `n` bytes from `s` on. */
  function Part(src: seq<char>, s: nat, n: nat): (r: seq<char>)
    requires s + n <= |src|
    ensures |r| == n
  {
    src[s..s + n]
  }

  /** `dst` with `src` copied to `d`. */
  function Copied(dst: seq<char>, d: nat, src: seq<char>): (r: seq<char>)
    requires d + |src| <= |dst|
    ensures |r| == |dst|
  {
    dst[..d] + src + dst[d + |src|..]
  }

  lemma CopiedFirst(dst: seq<char>, src: seq<char>)
    requires |src| <= |dst|
    ensures Copied(dst, 0, src) == src + dst[|src|..]
    ensures Copied(dst, 0, src)[..|src|] == src && Copied(dst, 0, src)[|src|..] == dst[|src|..]
  {
  }

  /** Copying to the end of the buffer, and what is left to its start. */
  lemma StoredInTwo(buffer: seq<char>, end: nat, data: seq<char>, n: nat)
    requires end < |buffer| && |buffer| - end < n <= |buffer| && n <= |data|
    ensures var k := |buffer| - end;
            Copied(Copied(buffer, end, Part(data, 0, k)), 0, Part(data, k, n - k))
              == Stored(buffer, end, Part(data, 0, n))
  {
    var k, d := |buffer| - end, Part(data, 0, n);
    assert Part(data, 0, k) == d[..k] && Part(data, k, n - k) == d[k..];
    var once := Copied(buffer, end, d[..k]);
    assert once == buffer[..end] + d[..k];
    CopiedFirst(once, d[k..]);
    assert once[n - k..] == buffer[n - k..end] + d[..k];
  }

  lemma StoredInOne(buffer: seq<char>, end: nat, data: seq<char>, n: nat)
    requires end < |buffer| && end + n <= |buffer| && n <= |data|
    ensures Copied(buffer, end, Part(data, 0, n)) == Stored(buffer, end, Part(data, 0, n))
  {
  }

  lemma HeldInTwo(buf: seq<char>, buffer: seq<char>, begin: nat, n: nat)
    requires begin < |buffer| && |buffer| - begin < n <= |buffer| && n <= |buf|
    ensures var k := |buffer| - begin;
            Copied(Copied(buf, 0, Part(buffer, begin, k)), k, Part(buffer, 0, n - k))
              == Copied(buf, 0, Held(buffer, begin, n))
  {
    var k := |buffer| - begin;
    var p, q := Part(buffer, begin, k), Part(buffer, 0, n - k);
    var once := Copied(buf, 0, p);
    CopiedFirst(buf, p);
    assert once[n..] == buf[n..] by {
      assert once[n..] == once[k..][n - k..] && buf[n..] == buf[k..][n - k..];
    }
    assert Copied(once, k, q) == p + q + buf[n..];
    assert Held(buffer, begin, n) == p + q;
    CopiedFirst(buf, p + q);
  }

  lemma HeldInOne(buf: seq<char>, buffer: seq<char>, begin: nat, n: nat)
    requires begin < |buffer| && begin + n <= |buffer| && n <= |buf|
    ensures Copied(buf, 0, Part(buffer, begin, n)) == Copied(buf, 0, Held(buffer, begin, n))
  {
    assert Held(buffer, begin, n) == Part(buffer, begin, n);
  }

  method Memcpy(dst: array<char>, d: nat, src: array<char>, s: nat, n: nat)
    requires dst != src && d + n <= dst.Length && s + n <= src.Length
    modifies dst
    ensures dst[..] == Copied(old(dst[..]), d, Part(src[..], s, n))
  {
    ghost var was := dst[..];
    var i := 0;
    while i < n
      invariant 0 <= i <= n
      invariant forall j :: 0 <= j < dst.Length ==> dst[j] == if d <= j < d + i then src[s + j - d] else was[j]
    {
      dst[d + i] := src[s + i];
      i := i + 1;
    }
    assert forall j :: 0 <= j < dst.Length ==> dst[..][j] == Copied(was, d, Part(src[..], s, n))[j];
  }

  /** Copying `k` bytes from `s` on, and then `m` from the start. */
  method MemcpyTwice(dst: array<char>, src: array<char>, s: nat, k: nat, m: nat)
    requires dst != src && k + m <= dst.Length && s + k <= src.Length && m <= src.Length
    modifies dst
    ensures dst[..] == Copied(Copied(old(dst[..]), 0, Part(src[..], s, k)), k, Part(src[..], 0, m))
  {
    Memcpy(dst, 0, src, s, k);
    Memcpy(dst, k, src, 0, m);
  }

  class CircBuffer {
    const buffer: array<char>
    const size: nat
    var dataSize: nat
    var begin: nat
    var end: nat

    ghost predicate Valid()
      reads this, buffer
    {
      0 < size == buffer.Length && begin < size && dataSize <= size && end == Wrap(begin + dataSize, size)
    }

    ghost function Contents(): (held: seq<char>)
      requires Valid()
      reads this, buffer
      ensures |held| == dataSize
    {
      Held(buffer[..], begin, dataSize)
    }

    constructor (size: nat)
      requires size > 0
      ensures Valid() && this.size == size && Contents() == [] && fresh(buffer)
    {
      this.size := size;
      buffer := new char[size];
      dataSize, begin, end := 0, 0, 0;
    }

    method CopyIn(buf: array<char>, n: nat)
      requires Valid() && buf != buffer && n <= buf.Length && n <= size
      modifies buffer
      ensures buffer[..] == Stored(old(buffer[..]), end, Part(buf[..], 0, n))
    {
      ghost var was, data := buffer[..], buf[..];
      if end + n > size {
        var k := size - end;
        Memcpy(buffer, end, buf, 0, k);
        assert buf[..] == data && buffer[..] == Copied(was, end, Part(data, 0, k));
        Memcpy(buffer, 0, buf, k, n - k);
        assert buf[..] == data;
        StoredInTwo(was, end, data, n);
      } else {
        Memcpy(buffer, end, buf, 0, n);
        assert buf[..] == data;
        StoredInOne(was, end, data, n);
      }
    }

    /** The data goes behind what the buffer holds. */
    method Append(buf: array<char>, n: nat)
      requires Valid() && buf != buffer && n <= buf.Length && dataSize + n <= size
      modifies buffer
      ensures Held(buffer[..], begin, dataSize + n) == old(Contents()) + Part(buf[..], 0, n)
    {
      ghost var was := buffer[..];
      CopyIn(buf, n);
      StoredHeld(was, buffer[..], begin, dataSize, end, Part(buf[..], 0, n));
    }

    method Put(buf: array<char>, n: nat) returns (ret: int)
      requires Valid() && buf != buffer && n <= buf.Length
      modifies this, buffer
      ensures Valid() && (Contents(), Out(ret, [])) == Step(size, old(Contents()), Op.Put(Part(buf[..], 0, n)))
      ensures ret == if old(dataSize) + n > size then -1 else 0
      ensures Contents() == old(Contents()) + if ret == 0 then buf[..n] else []
      ensures begin == old(begin) && (ret != 0 ==> buffer[..] == old(buffer[..]))
    {
      if dataSize + n > size {
        return -1;
      }
      Append(buf, n);
      WrapIsMod(end + n, size);
      end := (end + n) % size;
      dataSize := dataSize + n;
      return 0;
    }

    /** The copying that is common to getting and peeking. */
    method CopyOut(buf: array<char>, n: nat)
      requires Valid() && buf != buffer && n <= buf.Length && n <= dataSize
      modifies buf
      ensures buf[..] == Copied(old(buf[..]), 0, Held(buffer[..], begin, n))
    {
      if begin + n <= size {
        HeldInOne(buf[..], buffer[..], begin, n);
        Memcpy(buf, 0, buffer, begin, n);
      } else {
        HeldInTwo(buf[..], buffer[..], begin, n);
        MemcpyTwice(buf, buffer, begin, size - begin, n - (size - begin));
      }
    }

    method Get(buf: array<char>, n: nat) returns (ret: int)
      requires Valid() && buf != buffer && n <= buf.Length
      modifies this, buf
      ensures Valid() && (Contents(), Out(ret, if ret == 0 then buf[..n] else []))
              == Step(size, old(Contents()), Op.Get(n))
      ensures ret == if old(dataSize) < n then -1 else 0
      ensures old(Contents()) == (if ret == 0 then buf[..n] else []) + Contents()
      ensures ret != 0 ==> buf[..] == old(buf[..])
      ensures buf[n..] == old(buf[n..]) && begin == if ret == 0 then Wrap(old(begin) + n, size) else old(begin)
    {
      if dataSize < n {
        return -1;
      }
      HeldRest(buffer[..], begin, dataSize, n);
      CopiedFirst(buf[..], Held(buffer[..], begin, n));
      CopyOut(buf, n);
      assert buf[..n] == buf[..][..n] && buf[n..] == buf[..][n..];
      ret := GetNoCopy(n);
    }

    method GetNoCopy(n: nat) returns (ret: int)
      requires Valid()
      modifies this
      ensures Valid() && (Contents(), Out(ret, [])) == Step(size, old(Contents()), Skip(n))
      ensures ret == if old(dataSize) < n then -1 else 0
      ensures Contents() == if ret == 0 then old(Contents())[n..] else old(Contents())
      ensures begin == if ret == 0 then Wrap(old(begin) + n, size) else old(begin)
    {
      if dataSize < n {
        return -1;
      }
      HeldRest(buffer[..], begin, dataSize, n);
      WrapIsMod(begin + n, size);
      begin := (begin + n) % size;
      dataSize := dataSize - n;
      return 0;
    }

    method Peek(buf: array<char>, n: nat) returns (ret: int)
      requires Valid() && buf != buffer && n <= buf.Length
      modifies buf
      ensures Valid() && (Contents(), Out(ret, if ret == 0 then buf[..n] else []))
              == Step(size, old(Contents()), Op.Peek(n))
      ensures ret == (if dataSize < n then -1 else 0) && Contents() == old(Contents())
      ensures ret == 0 ==> buf[..n] == Contents()[..n]
      ensures ret != 0 ==> buf[..] == old(buf[..])
      ensures buf[n..] == old(buf[n..])
    {
      if dataSize < n {
        return -1;
      }
      HeldRest(buffer[..], begin, dataSize, n);
      CopiedFirst(buf[..], Held(buffer[..], begin, n));
      CopyOut(buf, n);
      assert buf[..n] == buf[..][..n] && buf[n..] == buf[..][n..];
      return 0;
    }

    /** A call, with a buffer of the caller's that is just large enough. */
    method Perform(op: Op) returns (out: Out)
      requires Valid()
      modifies this, buffer
      ensures Valid() && (Contents(), out) == Step(size, old(Contents()), op)
    {
      match op
      case Put(data) =>
        var buf := new char[|data|](i requires 0 <= i < |data| => data[i]);
        assert Part(buf[..], 0, |data|) == data;
        var ret := Put(buf, |data|);
        out := Out(ret, []);
      case Get(n) =>
        var buf := new char[n];
        var ret := Get(buf, n);
        out := Out(ret, if ret == 0 then buf[..n] else []);
      case Skip(n) =>
        var ret := GetNoCopy(n);
        out := Out(ret, []);
      case Peek(n) =>
        var buf := new char[n];
        var ret := Peek(buf, n);
        out := Out(ret, if ret == 0 then buf[..n] else []);
    }

    /** Any run of calls does what it does on the queue. */
    method PerformAll(ops: seq<Op>) returns (outs: seq<Out>)
      requires Valid()
      modifies this, buffer
      ensures Valid() && (Contents(), outs) == Run(size, old(Contents()), ops)
    {
      ghost var held := Contents();
      outs := [];
      var i := 0;
      assert ops[0..] == ops && [] + Run(size, held, ops).1 == Run(size, held, ops).1;
      while i < |ops|
        invariant 0 <= i <= |ops| && Valid()
        invariant Run(size, held, ops) == (Run(size, Contents(), ops[i..]).0, outs + Run(size, Contents(), ops[i..]).1)
      {
        assert ops[i..][0] == ops[i] && ops[i..][1..] == ops[i + 1..];
        var out := Perform(ops[i]);
        ghost var later := Run(size, Contents(), ops[i + 1..]).1;
        assert outs + ([out] + later) == (outs + [out]) + later;
        outs, i := outs + [out], i + 1;
      }
      assert ops[i..] == [] && outs + [] == outs;
    }
  }
}
