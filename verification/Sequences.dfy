/** A value that may be missing. */
module Options {
  datatype Option<+T> = None | Some(value: T)
}

/** What callbacks do: a script for each call, in the order in which they are called. */
module CallScripts {
  function Script<A>(scripts: seq<seq<A>>, j: nat): seq<A> {
    if j < |scripts| then scripts[j] else []
  }

  function Rest<A>(scripts: seq<seq<A>>): seq<seq<A>> {
    if scripts == [] then [] else scripts[1..]
  }

  lemma ScriptRest<A>(scripts: seq<seq<A>>)
    ensures forall j: nat :: Script(Rest(scripts), j) == Script(scripts, j + 1)
  {
  }
}

/** Facts about finite sequences that several of the programs need. */
module Sequences {

  ghost predicate NoDuplicates<T>(s: seq<T>) {
    forall i, j :: 0 <= i < j < |s| ==> s[i] != s[j]
  }

  lemma NoDuplicatesAround<T>(a: seq<T>, x: T, b: seq<T>)
    requires NoDuplicates(a + [x] + b)
    ensures NoDuplicates(a) && NoDuplicates(b)
    ensures x !in a && x !in b && forall y :: y in a ==> y !in b
  {
    var s := a + [x] + b;
    forall i, j | 0 <= i < j < |a| ensures a[i] != a[j] {
      assert s[i] != s[j];
    }
    forall i, j | 0 <= i < j < |b| ensures b[i] != b[j] {
      assert s[|a| + 1 + i] != s[|a| + 1 + j];
    }
    forall i | 0 <= i < |a| ensures a[i] != x && a[i] !in b {
      assert s[i] != s[|a|];
      forall j | 0 <= j < |b| ensures a[i] != b[j] {
        assert s[i] != s[|a| + 1 + j];
      }
    }
    forall j | 0 <= j < |b| ensures b[j] != x {
      assert s[|a|] != s[|a| + 1 + j];
    }
  }

  lemma NoDuplicatesJoin<T>(a: seq<T>, x: T, b: seq<T>)
    requires NoDuplicates(a) && NoDuplicates(b)
    requires x !in a && x !in b && forall y :: y in a ==> y !in b
    ensures NoDuplicates(a + [x] + b)
  {
    var s := a + [x] + b;
    forall i, j | 0 <= i < j < |s| ensures s[i] != s[j] {
      assert s[i] == if i < |a| then a[i] else if i == |a| then x else b[i - |a| - 1];
      assert s[j] == if j < |a| then a[j] else if j == |a| then x else b[j - |a| - 1];
      if i < |a| && j > |a| {
        assert a[i] in a;
      }
    }
  }

  /** `s'` is `s` without one occurrence of `x`. */
  ghost predicate Removed<T>(s: seq<T>, s': seq<T>, x: T) {
    exists i :: 0 <= i < |s| && s[i] == x && s' == s[..i] + s[i + 1..]
  }

  lemma RemovedFrom<T>(b: seq<T>, x: T, a: seq<T>)
    ensures Removed(b + [x] + a, b + a, x)
  {
    var s := b + [x] + a;
    assert s[|b|] == x && b + a == s[..|b|] + s[|b| + 1..];
  }

  /** The concatenation of sequences. */
  function Flat<T>(ss: seq<seq<T>>): seq<T> {
    if ss == [] then [] else ss[0] + Flat(ss[1..])
  }

  lemma {:induction false} FlatAppend<T>(ss: seq<seq<T>>, us: seq<seq<T>>)
    ensures Flat(ss + us) == Flat(ss) + Flat(us)
  {
    if ss == [] {
      assert ss + us == us;
    } else {
      FlatAppend(ss[1..], us);
      assert (ss + us)[0] == ss[0] && (ss + us)[1..] == ss[1..] + us;
    }
  }
}
