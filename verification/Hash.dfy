/** A hash of buckets, and the finite map that it stands for. */
module Hash {
  import opened Options
  import opened Sequences

  /** How a hash finds the key of an element and the number of a key. */
  datatype Keys<!K, !E> = Keys(keyOf: E -> K, calcHash: K -> nat)

  /** Every element is in the bucket of its key and in the table, and nothing else is in the table. */
  ghost predicate Represents<K, E>(keys: Keys<K, E>, buckets: seq<seq<E>>, table: map<K, E>) {
    && |buckets| > 0
    && (forall b, i {:trigger Placed(keys, buckets, table, b, i)} ::
          0 <= b < |buckets| && 0 <= i < |buckets[b]| ==> Placed(keys, buckets, table, b, i))
    && (forall b {:trigger Distinct(buckets, b)} :: 0 <= b < |buckets| ==> Distinct(buckets, b))
    && forall k {:trigger Listed(keys, buckets, table, k)} | k in table :: Listed(keys, buckets, table, k)
  }

  ghost predicate Placed<K, E>(keys: Keys<K, E>, buckets: seq<seq<E>>, table: map<K, E>, b: nat, i: nat)
    requires b < |buckets| && i < |buckets[b]|
  {
    var k := keys.keyOf(buckets[b][i]);
    keys.calcHash(k) % |buckets| == b && k in table && table[k] == buckets[b][i]
  }

  ghost predicate Distinct<E>(buckets: seq<seq<E>>, b: nat)
    requires b < |buckets|
  {
    NoDuplicates(buckets[b])
  }

  ghost predicate Listed<K, E>(keys: Keys<K, E>, buckets: seq<seq<E>>, table: map<K, E>, k: K)
    requires k in table && |buckets| > 0
  {
    keys.keyOf(table[k]) == k && table[k] in buckets[keys.calcHash(k) % |buckets|]
  }

  /** Keys are unique across all buckets. */
  lemma UniqueKeys<K, E>(keys: Keys<K, E>, buckets: seq<seq<E>>, table: map<K, E>, b: nat, i: nat, c: nat, j: nat)
    requires Represents(keys, buckets, table)
    requires b < |buckets| && i < |buckets[b]| && c < |buckets| && j < |buckets[c]|
    requires keys.keyOf(buckets[b][i]) == keys.keyOf(buckets[c][j])
    ensures b == c && i == j
  {
    assert Placed(keys, buckets, table, b, i) && Placed(keys, buckets, table, c, j) && Distinct(buckets, b);
  }

  datatype Op<+K, +E> = Add(element: E) | Del(key: K) | Lookup(key: K)

  datatype Out<+E> = Status(ret: int) | Found(element: Option<E>)

  /** What an operation does to the map. */
  ghost function Step<K, E>(keys: Keys<K, E>, table: map<K, E>, op: Op<K, E>): (map<K, E>, Out<E>) {
    match op
    case Add(e) =>
      var k := keys.keyOf(e);
      if k in table then (table, Status(0)) else (table[k := e], Status(1))
    case Del(k) => (table - {k}, Status(if k in table then 1 else 0))
    case Lookup(k) => (table, Found(if k in table then Some(table[k]) else None))
  }

  ghost function Run<K, E>(keys: Keys<K, E>, table: map<K, E>, ops: seq<Op<K, E>>): (map<K, E>, seq<Out<E>>)
    decreases |ops|
  {
    if ops == [] then (table, [])
    else
      var (next, out) := Step(keys, table, ops[0]);
      var (end, outs) := Run(keys, next, ops[1..]);
      (end, [out] + outs)
  }

  class HashContext<K(==), E(==)> {
    const keys: Keys<K, E>
    const buckets: array<seq<E>>
    ghost var table: map<K, E>

    ghost predicate Valid()
      reads this, buckets
    {
      Represents(keys, buckets[..], table)
    }

    /** initHash */
    constructor (numBuckets: int, keys: Keys<K, E>)
      requires numBuckets > 0
      ensures Valid() && table == map[] && this.keys == keys && fresh(buckets)
    {
      this.keys := keys;
      buckets := new seq<E>[numBuckets];
      table := map[];
      new;
      var i := 0;
      while i < numBuckets
        invariant 0 <= i <= numBuckets == buckets.Length && forall j :: 0 <= j < i ==> buckets[j] == []
        modifies buckets
      {
        buckets[i] := [];
        i := i + 1;
      }
    }

    method LookupHash(key: K) returns (e: Option<E>)
      requires Valid()
      ensures e == if key in table then Some(table[key]) else None
    {
      var ndx := keys.calcHash(key) % buckets.Length % buckets.Length;
      var pos := Position(ndx, key);
      e := if pos.None? then None else Some(buckets[ndx][pos.value]);
    }

    /** The walk along a bucket. */
    method Position(ndx: nat, key: K) returns (i: Option<nat>)
      requires Valid() && ndx == keys.calcHash(key) % buckets.Length
      ensures i.Some? <==> key in table
      ensures i.Some? ==> i.value < |buckets[ndx]| && buckets[ndx][i.value] == table[key]
                          && keys.keyOf(table[key]) == key
    {
      var j := 0;
      while j < |buckets[ndx]|
        invariant 0 <= j <= |buckets[ndx]| && forall m :: 0 <= m < j ==> keys.keyOf(buckets[ndx][m]) != key
      {
        if keys.keyOf(buckets[ndx][j]) == key {
          assert Placed(keys, buckets[..], table, ndx, j) && Listed(keys, buckets[..], table, key);
          return Some(j);
        }
        j := j + 1;
      }
      if key in table && Listed(keys, buckets[..], table, key) {
        assert false;
      }
      return None;
    }

    /** 0 if there is an element of that key already, and otherwise 1. */
    method AddHash(element: E) returns (ret: int)
      requires Valid()
      modifies this, buckets
      ensures Valid()
      ensures var key := keys.keyOf(element);
              if key in old(table) then ret == 0 && table == old(table) && buckets[..] == old(buckets[..])
              else ret == 1 && table == old(table)[key := element] &&
                   var ndx := keys.calcHash(key) % buckets.Length;
                   buckets[..] == old(buckets[..])[ndx := old(buckets[ndx]) + [element]]
    {
      var key := keys.keyOf(element);
      var found := LookupHash(key);
      if found.Some? {
        return 0;
      }
      var ndx := keys.calcHash(key) % buckets.Length;
      ghost var was := buckets[..];
      AddRepresents(keys, was, table, element);
      buckets[ndx] := buckets[ndx] + [element];
      assert buckets[..] == was[ndx := was[ndx] + [element]];
      table := table[key := element];
      return 1;
    }

    /** 1 if there was an element of that key, which has been removed, and otherwise 0. */
    method DelHash(key: K) returns (ret: int)
      requires Valid()
      modifies this, buckets
      ensures Valid()
      ensures ret == (if key in old(table) then 1 else 0) && table == old(table) - {key}
      ensures key !in old(table) ==> buckets[..] == old(buckets[..])
      ensures key in old(table) ==>
                var ndx := keys.calcHash(key) % buckets.Length;
                && Removed(old(buckets[ndx]), buckets[ndx], old(table)[key])
                && buckets[..] == old(buckets[..])[ndx := buckets[ndx]]
    {
      var found := LookupHash(key);
      if found.None? {
        return 0;
      }
      var ndx := keys.calcHash(key) % buckets.Length;
      var pos := Position(ndx, key);
      if pos.None? {
        return 0;
      }
      var i := pos.value;
      ghost var was := buckets[..];
      DelRepresents(keys, was, table, key, i);
      buckets[ndx] := buckets[ndx][..i] + buckets[ndx][i + 1..];
      assert buckets[..] == was[ndx := was[ndx][..i] + was[ndx][i + 1..]];
      table := table - {key};
      return 1;
    }

    method Perform(op: Op<K, E>) returns (out: Out<E>)
      requires Valid()
      modifies this, buckets
      ensures Valid() && (table, out) == Step(keys, old(table), op)
    {
      match op
      case Add(e) =>
        var ret := AddHash(e);
        out := Status(ret);
      case Del(k) =>
        var ret := DelHash(k);
        out := Status(ret);
      case Lookup(k) =>
        var e := LookupHash(k);
        out := Found(e);
    }

    /** Any run of calls has the results that it has on the map. */
    method PerformAll(ops: seq<Op<K, E>>) returns (outs: seq<Out<E>>)
      requires Valid()
      modifies this, buckets
      ensures Valid() && (table, outs) == Run(keys, old(table), ops)
    {
      outs := [];
      var i := 0;
      assert ops[0..] == ops && [] + Run(keys, table, ops).1 == Run(keys, table, ops).1;
      while i < |ops|
        invariant 0 <= i <= |ops| && Valid()
        invariant Run(keys, old(table), ops) == (Run(keys, table, ops[i..]).0, outs + Run(keys, table, ops[i..]).1)
      {
        assert ops[i..][0] == ops[i] && ops[i..][1..] == ops[i + 1..];
        var out := Perform(ops[i]);
        assert outs + ([out] + Run(keys, table, ops[i + 1..]).1) == (outs + [out]) + Run(keys, table, ops[i + 1..]).1;
        outs, i := outs + [out], i + 1;
      }
      assert ops[i..] == [] && outs + [] == outs;
    }
  }

  lemma AddRepresents<K, E>(keys: Keys<K, E>, buckets: seq<seq<E>>, table: map<K, E>, e: E)
    requires Represents(keys, buckets, table) && keys.keyOf(e) !in table
    ensures var ndx := keys.calcHash(keys.keyOf(e)) % |buckets|;
            Represents(keys, buckets[ndx := buckets[ndx] + [e]], table[keys.keyOf(e) := e])
  {
    var key := keys.keyOf(e);
    var ndx := keys.calcHash(key) % |buckets|;
    var buckets', table' := buckets[ndx := buckets[ndx] + [e]], table[key := e];
    forall b, i | 0 <= b < |buckets'| && 0 <= i < |buckets'[b]| ensures Placed(keys, buckets', table', b, i) {
      if b != ndx || i < |buckets[b]| {
        assert Placed(keys, buckets, table, b, i);
      }
    }
    forall i | 0 <= i < |buckets[ndx]| ensures buckets[ndx][i] != e {
      assert Placed(keys, buckets, table, ndx, i);
    }
    forall b | 0 <= b < |buckets'| ensures Distinct(buckets', b) {
      assert Distinct(buckets, b);
    }
    forall k | k in table' ensures Listed(keys, buckets', table', k) {
      if k == key {
        assert buckets'[ndx][|buckets[ndx]|] == e;
      } else {
        assert Listed(keys, buckets, table, k);
      }
    }
  }

  lemma DelRepresents<K, E>(keys: Keys<K, E>, buckets: seq<seq<E>>, table: map<K, E>, key: K, i: nat)
    requires Represents(keys, buckets, table) && key in table
    requires var ndx := keys.calcHash(key) % |buckets|; i < |buckets[ndx]| && buckets[ndx][i] == table[key]
    ensures var ndx := keys.calcHash(key) % |buckets|;
            Represents(keys, buckets[ndx := buckets[ndx][..i] + buckets[ndx][i + 1..]], table - {key})
  {
    var ndx := keys.calcHash(key) % |buckets|;
    assert Distinct(buckets, ndx);
    var l := buckets[ndx];
    var l' := l[..i] + l[i + 1..];
    var buckets', table' := buckets[ndx := l'], table - {key};
    forall b, j | 0 <= b < |buckets'| && 0 <= j < |buckets'[b]| ensures Placed(keys, buckets', table', b, j) {
      var m := if b != ndx || j < i then j else j + 1;
      assert buckets'[b][j] == buckets[b][m];
      assert Placed(keys, buckets, table, b, m);
      if b == ndx {
        assert l[m] != l[i];
      }
    }
    forall b | 0 <= b < |buckets'| ensures Distinct(buckets', b) {
      assert Distinct(buckets, b);
    }
    forall k | k in table' ensures Listed(keys, buckets', table', k) {
      var b := keys.calcHash(k) % |buckets|;
      assert Listed(keys, buckets, table, k);
      var m :| 0 <= m < |buckets[b]| && buckets[b][m] == table[k];
      if b == ndx {
        assert m != i by {
          assert Listed(keys, buckets, table, key);
        }
        assert l'[if m < i then m else m - 1] == table[k];
      }
    }
  }
}
