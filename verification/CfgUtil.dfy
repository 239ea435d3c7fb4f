/** Reading and updating a configuration file by the names of parameters. */
module CfgUtil {
  import opened Options
  import opened CfgScanner
  import opened CfgText
  import opened CfgLexemes
  import opened CfgRoundTrip
  import opened CfgLoader
  import opened Sequences

  /** A name with the argument that follows it, for each type that it can be fetched as. */
  datatype Arg = Arg(name: string, s: string, i: Int32, f: Float)

  function AssignedUnit(u: Unit, a: Arg): Unit {
    match u
    case Str(_) => Str(a.s)
    case Flt(_) => Flt(a.f)
    case Int(_) => Int(a.i)
    case Bool(_) => Bool(a.i)
  }

  /** The value of the first parameter of a name, unless that is a list. */
  function ValueOf(ps: seq<Param>, name: string): Option<Unit> {
    var i := FirstOf(ps, name);
    if i.None? || ps[i.value].val.Many? then None else Some(ps[i.value].val.u)
  }

  function Assign(ps: seq<Param>, a: Arg): seq<Param>
    requires ValueOf(ps, a.name).Some?
  {
    var i := FirstOf(ps, a.name).value;
    ps[i := Param(a.name, One(AssignedUnit(ps[i].val.u, a)))]
  }

  /** The arguments are assigned one after the other, unless a name is unknown or names a list. */
  function Update(ps: seq<Param>, args: seq<Arg>): Option<seq<Param>>
    decreases |args|
  {
    if args == [] then Some(ps)
    else if ValueOf(ps, args[0].name).None? then None
    else Update(Assign(ps, args[0]), args[1..])
  }

  /** The values of the names, up to the first that is unknown or names a list. */
  function ReadAll(ps: seq<Param>, names: seq<string>): seq<Unit> {
    if names == [] || ValueOf(ps, names[0]).None? then []
    else [ValueOf(ps, names[0]).value] + ReadAll(ps, names[1..])
  }

  /** The first parameter of a name is at `k`. */
  ghost predicate IsFirst(ps: seq<Param>, name: string, k: nat) {
    k < |ps| && ps[k].name == name && forall j :: 0 <= j < k ==> ps[j].name != name
  }

  /** The last argument of a name is at `j`. */
  ghost predicate IsLast(args: seq<Arg>, name: string, j: nat) {
    j < |args| && args[j].name == name && forall m :: j < m < |args| ==> args[m].name != name
  }

  /** `u` is what the argument says for a parameter of the type of `was`. */
  ghost predicate Fetched(was: Unit, a: Arg, u: Unit) {
    && (was.Str? ==> u == Str(a.s)) && (was.Int? ==> u == Int(a.i))
    && (was.Flt? ==> u == Flt(a.f)) && (was.Bool? ==> u == Bool(a.i))
  }

  /** The first parameter of the name has the value `u`, of whatever type. */
  ghost predicate HasValue(ps: seq<Param>, name: string, u: Unit) {
    exists k: nat :: IsFirst(ps, name, k) && ps[k].val == One(u)
  }

  lemma ValueIs(ps: seq<Param>, name: string, u: Unit)
    ensures ValueOf(ps, name) == Some(u) <==> HasValue(ps, name, u)
  {
    var k := FirstOf(ps, name);
    if k.Some? {
      assert IsFirst(ps, name, k.value);
    }
    if HasValue(ps, name, u) {
      var i: nat :| IsFirst(ps, name, i) && ps[i].val == One(u);
      FirstOfIs(ps, name, i);
    }
  }

  lemma {:induction false} LastOfIs(args: seq<Arg>, name: string, j: nat)
    requires IsLast(args, name, j)
    ensures LastOf(args, name) == Some(args[j])
  {
    if j == 0 {
      assert forall b | b in args[1..] :: b.name != name;
    } else {
      assert forall m :: 0 < m < |args| ==> args[m] == args[1..][m - 1];
      LastOfIs(args[1..], name, j - 1);
    }
  }

  /** The values that have been read are those of the names, as far as every name has one. */
  ghost predicate ReadsTo(ps: seq<Param>, names: seq<string>, values: seq<Unit>) {
    && |values| <= |names|
    && (forall i :: 0 <= i < |values| ==> HasValue(ps, names[i], values[i]))
    && (|values| < |names| ==> forall u :: !HasValue(ps, names[|values|], u))
  }

  lemma {:induction false} ReadAllReads(ps: seq<Param>, names: seq<string>)
    ensures ReadsTo(ps, names, ReadAll(ps, names))
  {
    if names == [] {
    } else {
      var name, v := names[0], ValueOf(ps, names[0]);
      forall u ensures HasValue(ps, name, u) <==> v == Some(u) {
        ValueIs(ps, name, u);
      }
      if v.Some? {
        ReadAllReads(ps, names[1..]);
      }
    }
  }

  // ---------------------------------------------------------------------------------------------
  // The files
  // ---------------------------------------------------------------------------------------------

  /** A file, if it exists, and its text. */
  class File {
    var text: Option<string>
  }

  ghost function ParsedFile(fmt: Format, text: Option<string>): Option<seq<Param>> {
    if text.None? then None else Parse(fmt, text.value)
  }

  lemma ContentsAssigned(list: seq<ConfigParameter>, was: seq<Param>, a: Arg)
    requires NoDuplicates(list) && |was| == |list| && ValueOf(was, a.name).Some?
    requires var k := FirstOf(was, a.name).value;
             forall i :: 0 <= i < |list| ==>
               list[i].name == was[i].name && list[i].val
                 == (if i == k then One(AssignedUnit(was[k].val.u, a)) else was[i].val)
    ensures ContentsOf(list) == Assign(was, a)
  {
  }

  /** One round of the updating loop. */
  method AssignArg(cfg: ConfigCB, a: Arg) returns (ok: bool)
    requires cfg.Valid()
    modifies cfg.parmList
    ensures ok <==> ValueOf(old(cfg.Contents()), a.name).Some?
    ensures cfg.Contents() == if ok then Assign(old(cfg.Contents()), a) else old(cfg.Contents())
  {
    ghost var was := cfg.Contents();
    var param := cfg.LookupConfig(a.name);
    if param == null || param.val.Many? {
      return false;
    }
    match param.val.u {
      case Str(_) => param.val := One(Str(a.s));
      case Flt(_) => param.val := One(Flt(a.f));
      case Int(_) => param.val := One(Int(a.i));
      case Bool(_) => param.val := One(Bool(a.i));
    }
    ok := true;
    ContentsAssigned(cfg.parmList, was, a);
  }

  method AssignArgs(cfg: ConfigCB, args: seq<Arg>) returns (ok: bool)
    requires cfg.Valid()
    modifies cfg.parmList
    ensures ok <==> Update(old(cfg.Contents()), args).Some?
    ensures ok ==> cfg.Contents() == Update(old(cfg.Contents()), args).value
  {
    var i := 0;
    assert args[0..] == args;
    while i < |args|
      invariant 0 <= i <= |args|
      invariant Update(cfg.Contents(), args[i..]) == Update(old(cfg.Contents()), args)
    {
      assert args[i..][0] == args[i] && args[i..][1..] == args[i + 1..];
      ok := AssignArg(cfg, args[i]);
      if !ok {
        return;
      }
      i := i + 1;
    }
    ok := true;
  }

  method UpdateBimCfg(fmt: Format, file: File, args: seq<Arg>) returns (ret: int)
    modifies file
    ensures var was := ParsedFile(fmt, old(file.text));
            if was.Some? && Update(was.value, args).Some? then
              ret == 0 && file.text == Some(ConfigText(fmt, Update(was.value, args).value))
            else
              ret == -1 && file.text == old(file.text)
  {
    var cfg: ConfigCB;
    ret, cfg := ParseConfig(fmt, file.text);
    if ret != 0 {
      return -1;
    }
    var ok := AssignArgs(cfg, args);
    if !ok {
      return -1;
    }
    var text := cfg.WriteConfig(fmt);
    file.text := Some(text);
  }

  method FetchArgs(cfg: ConfigCB, names: seq<string>) returns (values: seq<Unit>)
    ensures values == ReadAll(cfg.Contents(), names)
  {
    var i := 0;
    values := [];
    assert names[0..] == names;
    while i < |names|
      invariant 0 <= i <= |names| && |values| == i
      invariant values + ReadAll(cfg.Contents(), names[i..]) == ReadAll(cfg.Contents(), names)
    {
      assert names[i..][0] == names[i] && names[i..][1..] == names[i + 1..];
      var param := cfg.LookupConfig(names[i]);
      if param == null || param.val.Many? {
        return;
      }
      values := values + [param.val.u];
      Shift(values[..i], param.val.u, ReadAll(cfg.Contents(), names[i + 1..]));
      i := i + 1;
    }
  }

  lemma Shift(us: seq<Unit>, u: Unit, rest: seq<Unit>)
    ensures us + ([u] + rest) == (us + [u]) + rest
  {
  }

  method ReadBimCfg(fmt: Format, file: File, names: seq<string>) returns (ret: int, values: seq<Unit>)
    ensures var was := ParsedFile(fmt, file.text);
            if was.Some? then values == ReadAll(was.value, names) && ret == (if |values| == |names| then 0 else -1)
            else ret == -1 && values == []
    ensures ParsedFile(fmt, file.text).Some? ==> ReadsTo(ParsedFile(fmt, file.text).value, names, values)
  {
    var cfg: ConfigCB;
    ret, cfg := ParseConfig(fmt, file.text);
    if ret != 0 {
      return -1, [];
    }
    values := FetchArgs(cfg, names);
    ReadAllReads(cfg.Contents(), names);
    ret := if |values| == |names| then 0 else -1;
  }

  // ---------------------------------------------------------------------------------------------
  // What an update does
  // ---------------------------------------------------------------------------------------------

  /** The last argument of a name. */
  function LastOf(args: seq<Arg>, name: string): (a: Option<Arg>)
    ensures a.None? <==> forall b | b in args :: b.name != name
    ensures a.Some? ==> a.value in args && a.value.name == name
  {
    if args == [] then None
    else
      var b := LastOf(args[1..], name);
      if b.Some? then b else if args[0].name == name then Some(args[0]) else None
  }

  predicate SameNames(ps: seq<Param>, qs: seq<Param>) {
    |ps| == |qs| && forall i :: 0 <= i < |ps| ==> ps[i].name == qs[i].name
  }

  lemma SameFirst(ps: seq<Param>, qs: seq<Param>, name: string)
    requires SameNames(ps, qs)
    ensures FirstOf(ps, name) == FirstOf(qs, name)
  {
    if FirstOf(ps, name).Some? {
      FirstOfIs(qs, name, FirstOf(ps, name).value);
    }
  }

  /** What a parameter of the configuration is after the update. */
  function Replaced(ps: seq<Param>, args: seq<Arg>, i: nat): Param
    requires i < |ps|
  {
    var a := LastOf(args, ps[i].name);
    if FirstOf(ps, ps[i].name) == Some(i) && a.Some? && ps[i].val.One? then
      Param(ps[i].name, One(AssignedUnit(ps[i].val.u, a.value)))
    else ps[i]
  }

  /** Assigning to one parameter changes neither where the names are nor which of them have a value. */
  lemma AssignKeeps(ps: seq<Param>, a: Arg, name: string)
    requires ValueOf(ps, a.name).Some?
    ensures FirstOf(Assign(ps, a), name) == FirstOf(ps, name)
    ensures ValueOf(Assign(ps, a), name).Some? <==> ValueOf(ps, name).Some?
  {
    SameFirst(Assign(ps, a), ps, name);
  }

  lemma ReplacedStep(ps: seq<Param>, args: seq<Arg>, i: nat)
    requires args != [] && ValueOf(ps, args[0].name).Some? && i < |ps|
    ensures Replaced(Assign(ps, args[0]), args[1..], i) == Replaced(ps, args, i)
  {
    AssignKeeps(ps, args[0], ps[i].name);
    LastOfRest(args, ps[i].name);
  }

  /** An update fails only for an unknown name or a list.  It replaces the first parameter of each name, by the last
      value that is given for it, and nothing else. */
  lemma {:induction false} UpdateReplaces(ps: seq<Param>, args: seq<Arg>)
    ensures Update(ps, args).Some? <==> forall a | a in args :: ValueOf(ps, a.name).Some?
    ensures Update(ps, args).Some? ==>
              var qs := Update(ps, args).value;
              |qs| == |ps| && forall i :: 0 <= i < |ps| ==> qs[i] == Replaced(ps, args, i)
    decreases |args|
  {
    if args == [] {
    } else if ValueOf(ps, args[0].name).Some? {
      UpdateReplaces(Assign(ps, args[0]), args[1..]);
      forall a | a in args[1..]
        ensures ValueOf(Assign(ps, args[0]), a.name).Some? <==> ValueOf(ps, a.name).Some?
      {
        AssignKeeps(ps, args[0], a.name);
      }
      assert forall a :: a in args <==> a == args[0] || a in args[1..];
      forall i | 0 <= i < |ps| ensures Replaced(Assign(ps, args[0]), args[1..], i) == Replaced(ps, args, i) {
        ReplacedStep(ps, args, i);
      }
    }
  }

  lemma LastOfRest(args: seq<Arg>, name: string)
    requires args != []
    ensures LastOf(args, name)
         == (if LastOf(args[1..], name).Some? then LastOf(args[1..], name)
             else if args[0].name == name then Some(args[0]) else None)
  {
  }

  /** After an update every name that was given has the last value given for it, and every other name what it had. */
  lemma UpdatedValues(ps: seq<Param>, args: seq<Arg>, name: string)
    requires Update(ps, args).Some?
    ensures LastOf(args, name).Some? ==> ValueOf(ps, name).Some?
    ensures ValueOf(Update(ps, args).value, name)
         == (if LastOf(args, name).None? || ValueOf(ps, name).None? then ValueOf(ps, name)
             else Some(AssignedUnit(ValueOf(ps, name).value, LastOf(args, name).value)))
  {
    UpdateReplaces(ps, args);
    var qs := Update(ps, args).value;
    SameFirst(ps, qs, name);
    if FirstOf(ps, name).Some? {
      assert qs[FirstOf(ps, name).value] == Replaced(ps, args, FirstOf(ps, name).value);
    }
  }

  /** The value that a name has can be written and read back. */
  predicate WritableAt(fmt: Format, qs: seq<Param>, name: string) {
    var u := ValueOf(qs, name);
    u.Some? && ReadableUnit(u.value) && Finite(fmt, u.value) && StableUnit(fmt, u.value)
  }

  lemma ReplacedWritable(fmt: Format, ps: seq<Param>, args: seq<Arg>, i: nat)
    requires i < |ps| && Writable(fmt, ps[i])
    requires Update(ps, args).Some? && forall a | a in args :: WritableAt(fmt, Update(ps, args).value, a.name)
    ensures Writable(fmt, Replaced(ps, args, i))
  {
    var name := ps[i].name;
    var a := LastOf(args, name);
    if FirstOf(ps, name) == Some(i) && a.Some? {
      UpdatedValues(ps, args, name);
      assert WritableAt(fmt, Update(ps, args).value, a.value.name);
    }
  }

  /** The file that an update of a writable configuration writes is read as that configuration with the given values if,
      and only if, the last value given for each name is writable. */
  lemma UpdateReadsBack(fmt: Format, ps: seq<Param>, args: seq<Arg>)
    requires Update(ps, args).Some? && FormattedParams(fmt, Update(ps, args).value)
    requires forall p | p in ps :: Writable(fmt, p)
    ensures var qs := Update(ps, args).value;
            Parse(fmt, ConfigText(fmt, qs)) == Some(qs) <==> forall a | a in args :: WritableAt(fmt, qs, a.name)
  {
    var qs := Update(ps, args).value;
    UpdateReplaces(ps, args);
    RoundTrip(fmt, qs);
    if forall a | a in args :: WritableAt(fmt, qs, a.name) {
      forall q | q in qs ensures Writable(fmt, q) {
        var i :| 0 <= i < |qs| && qs[i] == q;
        assert qs[i] == Replaced(ps, args, i) && ps[i] in ps;
        ReplacedWritable(fmt, ps, args, i);
      }
    }
    if forall q | q in qs :: Writable(fmt, q) {
      forall a | a in args ensures WritableAt(fmt, qs, a.name) {
        UpdatedValues(ps, args, a.name);
        assert qs[FirstOf(qs, a.name).value] in qs;
      }
    }
  }

  function Names(args: seq<Arg>): (names: seq<string>)
    ensures |names| == |args| && forall i :: 0 <= i < |args| ==> names[i] == args[i].name
  {
    seq(|args|, i requires 0 <= i < |args| => args[i].name)
  }

  lemma {:induction false} ReadAllKnown(ps: seq<Param>, names: seq<string>)
    requires forall i :: 0 <= i < |names| ==> ValueOf(ps, names[i]).Some?
    ensures |ReadAll(ps, names)| == |names|
    ensures forall i :: 0 <= i < |names| ==> Some(ReadAll(ps, names)[i]) == ValueOf(ps, names[i])
  {
    if names == [] {
    } else {
      ReadAllKnown(ps, names[1..]);
    }
  }

  /** What the values are after an update, by the types that the parameters have. */
  lemma UpdateStores(ps: seq<Param>, args: seq<Arg>, i: nat)
    requires Update(ps, args).Some? && i < |ps|
    ensures var qs, name := Update(ps, args).value, ps[i].name;
            && |qs| == |ps| && qs[i].name == name
            && (!IsFirst(ps, name, i) || (forall a | a in args :: a.name != name) ==> qs[i] == ps[i])
            && forall j: nat :: IsFirst(ps, name, i) && IsLast(args, name, j) ==>
                 ps[i].val.One? && qs[i].val.One? && Fetched(ps[i].val.u, args[j], qs[i].val.u)
  {
    var name := ps[i].name;
    UpdateReplaces(ps, args);
    assert FirstOf(ps, name) == Some(i) ==> IsFirst(ps, name, i);
    forall j: nat | IsFirst(ps, name, i) && IsLast(args, name, j)
      ensures FirstOf(ps, name) == Some(i) && LastOf(args, name) == Some(args[j]) && ps[i].val.One?
    {
      FirstOfIs(ps, name, i);
      LastOfIs(args, name, j);
      assert ValueOf(ps, args[j].name).Some?;
    }
  }

  /** An update fails exactly if the first parameter of some name is missing or a list. */
  lemma UpdateFails(ps: seq<Param>, args: seq<Arg>)
    ensures Update(ps, args).None? <==> exists a :: a in args && forall u :: !HasValue(ps, a.name, u)
  {
    UpdateReplaces(ps, args);
    forall a | a in args ensures ValueOf(ps, a.name).None? <==> forall u :: !HasValue(ps, a.name, u) {
      forall u ensures HasValue(ps, a.name, u) <==> ValueOf(ps, a.name) == Some(u) {
        ValueIs(ps, a.name, u);
      }
    }
  }

  /** `u` is what the last argument of the name says, as the type of its first parameter was. */
  ghost predicate Given(ps: seq<Param>, args: seq<Arg>, name: string, u: Unit) {
    exists j: nat, k: nat ::
      IsLast(args, name, j) && IsFirst(ps, name, k) && ps[k].val.One? && Fetched(ps[k].val.u, args[j], u)
  }

  lemma LastExists(args: seq<Arg>, i: nat) returns (j: nat)
    requires i < |args|
    ensures IsLast(args, args[i].name, j)
  {
    j := i;
    for m := i to |args|
      invariant j < |args| && args[j].name == args[i].name && i <= j
      invariant forall l :: j < l < m ==> args[l].name != args[i].name
    {
      if args[m].name == args[i].name {
        j := m;
      }
    }
  }

  lemma UpdateGives(ps: seq<Param>, args: seq<Arg>, i: nat)
    requires Update(ps, args).Some? && i < |args|
    ensures ValueOf(Update(ps, args).value, args[i].name).Some?
    ensures Given(ps, args, args[i].name, ValueOf(Update(ps, args).value, args[i].name).value)
  {
    var qs, name := Update(ps, args).value, args[i].name;
    UpdatedValues(ps, args, name);
    assert args[i] in args;
    var j := LastExists(args, i);
    var k := FirstOf(ps, name).value;
    assert IsFirst(ps, name, k);
    UpdateStores(ps, args, k);
    UpdateReplaces(ps, args);
    SameFirst(ps, qs, name);
  }

  /** After a successful update of a writable configuration with writable values, reading the names from the file gives
      for each of them exactly the last value that was given: the string, the number or the truth value of the argument,
      as the type of the parameter was. */
  lemma UpdateThenRead(fmt: Format, ps: seq<Param>, args: seq<Arg>)
    requires forall p | p in ps :: Writable(fmt, p)
    requires Update(ps, args).Some? && FormattedParams(fmt, Update(ps, args).value)
    requires forall a | a in args :: WritableAt(fmt, Update(ps, args).value, a.name)
    ensures var file := ParsedFile(fmt, Some(ConfigText(fmt, Update(ps, args).value)));
            && file.Some? && |ReadAll(file.value, Names(args))| == |args|
            && forall i :: 0 <= i < |args| ==> Given(ps, args, args[i].name, ReadAll(file.value, Names(args))[i])
  {
    var qs := Update(ps, args).value;
    UpdateReadsBack(fmt, ps, args);
    forall i | 0 <= i < |args|
      ensures ValueOf(qs, args[i].name).Some? && Given(ps, args, args[i].name, ValueOf(qs, args[i].name).value)
    {
      UpdateGives(ps, args, i);
    }
    ReadAllKnown(qs, Names(args));
  }

  lemma {:induction false} UpdateAppend(ps: seq<Param>, args: seq<Arg>, more: seq<Arg>)
    ensures Update(ps, args + more) == if Update(ps, args).None? then None else Update(Update(ps, args).value, more)
    decreases |args|
  {
    if args == [] {
      assert args + more == more;
    } else {
      assert (args + more)[0] == args[0] && (args + more)[1..] == args[1..] + more;
      if ValueOf(ps, args[0].name).Some? {
        UpdateAppend(Assign(ps, args[0]), args[1..], more);
      }
    }
  }

  /** Two updates of a file come to one with all the arguments, as far as what the first one writes can be read back. */
  lemma TwoUpdates(fmt: Format, ps: seq<Param>, args: seq<Arg>, more: seq<Arg>)
    requires Update(ps, args).Some? && forall p | p in Update(ps, args).value :: Writable(fmt, p)
    ensures var text := Some(ConfigText(fmt, Update(ps, args).value));
            ParsedFile(fmt, text).Some? && Update(ParsedFile(fmt, text).value, more) == Update(ps, args + more)
  {
    RoundTrip(fmt, Update(ps, args).value);
    UpdateAppend(ps, args, more);
  }
}
