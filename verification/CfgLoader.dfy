/** The configuration in memory: how it is filled, searched and written. */
module CfgLoader {
  import opened Options
  import opened CfgScanner
  import opened CfgText
  import opened CfgGrammar
  import opened Sequences

  class ConfigParameter {
    const name: string
    var val: Value

    constructor (name: string, val: Value)
      ensures this.name == name && this.val == val
    {
      this.name, this.val := name, val;
    }
  }

  ghost function ContentsOf(list: seq<ConfigParameter>): (ps: seq<Param>)
    reads list
    ensures |ps| == |list| && forall i :: 0 <= i < |list| ==> ps[i] == Param(list[i].name, list[i].val)
  {
    seq(|list|, i requires 0 <= i < |list| reads list => Param(list[i].name, list[i].val))
  }

  /** The place of the first parameter of a name. */
  function FirstOf(ps: seq<Param>, name: string): (i: Option<nat>)
    ensures i.Some? ==> i.value < |ps| && ps[i.value].name == name
                        && forall j :: 0 <= j < i.value ==> ps[j].name != name
    ensures i.None? ==> forall j :: 0 <= j < |ps| ==> ps[j].name != name
  {
    if ps == [] then None
    else if ps[0].name == name then Some(0)
    else
      var i := FirstOf(ps[1..], name);
      assert forall j :: 0 < j < |ps| ==> ps[j] == ps[1..][j - 1];
      if i.None? then None else Some(i.value + 1)
  }

  lemma FirstOfIs(ps: seq<Param>, name: string, i: nat)
    requires i < |ps| && ps[i].name == name && forall j :: 0 <= j < i ==> ps[j].name != name
    ensures FirstOf(ps, name) == Some(i)
  {
  }

  class ConfigCB {
    var parmList: seq<ConfigParameter>
    var numParams: nat

    ghost predicate Valid()
      reads this
    {
      NoDuplicates(parmList) && numParams == |parmList|
    }

    ghost function Contents(): seq<Param>
      reads this, parmList
    {
      ContentsOf(parmList)
    }

    /** __init_config */
    constructor ()
      ensures Valid() && parmList == []
    {
      parmList, numParams := [], 0;
    }

    method AddParameter(param: ConfigParameter)
      requires Valid() && param !in parmList
      modifies this
      ensures Valid() && parmList == old(parmList) + [param]
      ensures Contents() == old(Contents()) + [Param(param.name, param.val)]
    {
      parmList := parmList + [param];
      numParams := numParams + 1;
    }

    method AddConfigParam(name: string, pval: Value)
      requires Valid()
      modifies this
      ensures Valid() && old(parmList) <= parmList && fresh(parmList[|old(parmList)|..])
      ensures Contents() == old(Contents()) + [Param(name, pval)]
    {
      var param := new ConfigParameter(name, pval);
      AddParameter(param);
    }

    /** The first parameter of the name, if there is one. */
    method LookupConfig(name: string) returns (p: ConfigParameter?)
      ensures p == null <==> FirstOf(Contents(), name).None?
      ensures p != null ==> p == parmList[FirstOf(Contents(), name).value]
    {
      var i := 0;
      while i < |parmList|
        invariant 0 <= i <= |parmList| && forall j :: 0 <= j < i ==> parmList[j].name != name
      {
        if parmList[i].name == name {
          FirstOfIs(Contents(), name, i);
          return parmList[i];
        }
        i := i + 1;
      }
      p := null;
    }

    /** The text that is written to the file. */
    method WriteConfig(fmt: Format) returns (text: string)
      ensures text == ConfigText(fmt, Contents())
    {
      ghost var ps := Contents();
      text := WriteHeading(ParamsText(fmt, ps));
      assert ps[0..] == ps;
      var i := 0;
      while i < |parmList|
        invariant 0 <= i <= |parmList|
        invariant text + ParamsText(fmt, ps[i..]) == ConfigText(fmt, ps)
      {
        var line := WriteParameter(fmt, parmList[i]);
        Regroup(text, line, ParamsText(fmt, ps[i..][1..]));
        assert ps[i..][1..] == ps[i + 1..];
        text := text + line;
        i := i + 1;
      }
    }
  }

  /** The three comments and the empty line that come before the parameters. */
  method WriteHeading(ghost params: string) returns (text: string)
    ensures text + params == "#\n" + ("#\n" + ("#\n" + ("\n" + params)))
  {
    text := "";
    var i := 0;
    while i < 3
      invariant 0 <= i <= 3
      invariant text == (if i == 0 then "" else if i == 1 then "#\n" else if i == 2 then "#\n#\n" else "#\n#\n#\n")
    {
      text := text + "#\n";
      i := i + 1;
    }
    text := text + "\n";
  }

  lemma Regroup(a: string, b: string, c: string)
    ensures a + (b + c) == (a + b) + c
  {
  }

  method WriteValue(fmt: Format, val: Unit) returns (text: string)
    ensures text == UnitText(fmt, val)
  {
    match val
    case Str(s) => text := "\"" + s + "\"";
    case Int(i) => text := PrintInt(i);
    case Flt(f) => text := fmt.show(f);
    case Bool(b) => text := if b == 0 then "false" else "true";
  }

  /** `%-20s= ` */
  method WriteName(name: string) returns (text: string)
    ensures text == name + Spaces(20 - |name|) + "= "
  {
    text := name;
    while |text| < 20
      invariant |name| <= |text| && text + Spaces(20 - |text|) == name + Spaces(20 - |name|)
    {
      Regroup(text, " ", Spaces(20 - |text| - 1));
      text := text + " ";
    }
    text := text + "= ";
  }

  method WriteParameter(fmt: Format, p: ConfigParameter) returns (text: string)
    ensures text == ParamText(fmt, Param(p.name, p.val))
  {
    var name := WriteName(p.name);
    match p.val
    case One(u) =>
      var value := WriteValue(fmt, u);
      text := name + value + "\n";
    case Many(us) =>
      var list := WriteList(fmt, us);
      text := name + ("[ " + list + " ]") + "\n";
  }

  /** The values of a list, with commas between them. */
  method WriteList(fmt: Format, elements: seq<Unit>) returns (text: string)
    ensures text == UnitsText(fmt, elements)
  {
    text := "";
    var i, numParams := 0, |elements|;
    assert elements[0..] == elements;
    while i < numParams
      invariant 0 <= i <= numParams
      invariant text + UnitsText(fmt, elements[i..]) == UnitsText(fmt, elements)
    {
      ghost var rest := elements[i..];
      var value := WriteValue(fmt, elements[i]);
      assert rest[0] == elements[i] && rest[1..] == elements[i + 1..];
      if i < numParams - 1 {
        Regroup(text, value + " , ", UnitsText(fmt, rest[1..]));
        text := text + (value + " , ");
      } else {
        text := text + value;
      }
      i := i + 1;
    }
  }

  // ---------------------------------------------------------------------------------------------
  // Parsing
  // ---------------------------------------------------------------------------------------------

  /** allocPValue for a list: the values are counted, then moved to an array. */
  method AllocList(l: seq<Unit>) returns (v: Value)
    ensures v == Many(l)
  {
    var count := 0;
    while count < |l|
      invariant 0 <= count <= |l|
    {
      count := count + 1;
    }
    var elements := new Unit[count];
    count := 0;
    var rest := l;
    while rest != []
      invariant count + |rest| == |l| == elements.Length && elements[..count] + rest == l
    {
      elements[count] := rest[0];
      assert elements[..count + 1] + rest[1..] == elements[..count] + rest;
      count, rest := count + 1, rest[1..];
    }
    v := Many(elements[..]);
  }

  /** The parameters of `done` have been read, and `ts` is left. */
  ghost predicate GrammarGoesOn(fmt: Format, tokens: seq<Token>, done: seq<Param>, ts: seq<Token>) {
    Grammar(fmt, tokens) == if Grammar(fmt, ts).None? then None else Some(done + Grammar(fmt, ts).value)
  }

  lemma GrammarGoes(fmt: Format, tokens: seq<Token>, done: seq<Param>, ts: seq<Token>, p: Param, rest: seq<Token>)
    requires GrammarGoesOn(fmt, tokens, done, ts) && ts != [] && Expression(fmt, ts) == Some((p, rest))
    ensures GrammarGoesOn(fmt, tokens, done + [p], rest)
  {
    if Grammar(fmt, rest).Some? {
      assert done + ([p] + Grammar(fmt, rest).value) == (done + [p]) + Grammar(fmt, rest).value;
    }
  }

  /** The parser, with the configuration that it fills and the list that it is collecting. */
  class Parser {
    const fmt: Format
    const cfg: ConfigCB
    var gList: seq<Unit>

    constructor (fmt: Format, cfg: ConfigCB)
      ensures this.fmt == fmt && this.cfg == cfg
    {
      this.fmt, this.cfg, gList := fmt, cfg, [];
    }

    /** unit_value */
    method UnitValue(t: Token) returns (u: Option<Unit>)
      ensures u == UnitOf(fmt, t)
    {
      match t
      case STRING_LITERAL(s) => u := Some(Str(s));
      case DECIMAL(i) => u := Some(Int(i));
      case FLOAT(text) => u := Some(Flt(fmt.read(text)));
      case BOOLEAN(b) => u := Some(Bool(b));
      case _ => u := None;
    }

    /** value_sequence: each value is appended to the list as soon as it has been read. */
    method ValueSequence(ts: seq<Token>) returns (rest: Option<seq<Token>>)
      modifies `gList
      ensures rest.Some? <==> Sequence(fmt, ts).Some?
      ensures rest.Some? ==> gList == old(gList) + Sequence(fmt, ts).value.0 && rest.value == Sequence(fmt, ts).value.1
      decreases |ts|
    {
      if ts == [] {
        return None;
      }
      var u := UnitValue(ts[0]);
      if u.None? {
        return None;
      }
      gList := gList + [u.value];
      if |ts| > 1 && ts[1].COMMA? {
        rest := ValueSequence(ts[2..]);
        if rest.Some? {
          assert old(gList) + [u.value] + Sequence(fmt, ts[2..]).value.0
              == old(gList) + ([u.value] + Sequence(fmt, ts[2..]).value.0);
        }
      } else {
        rest := Some(ts[1..]);
      }
    }

    /** values */
    method ReadValues(ts: seq<Token>) returns (r: Option<(Value, seq<Token>)>)
      modifies `gList
      ensures r == Values(fmt, ts)
    {
      if ts == [] {
        return None;
      }
      if ts[0].LIST_OPEN? {
        gList := [];
        var rest := ValueSequence(ts[1..]);
        if rest.None? || rest.value == [] || !rest.value[0].LIST_CLOSE? {
          return None;
        }
        var list := AllocList(gList);
        gList := [];
        assert [] + Sequence(fmt, ts[1..]).value.0 == Sequence(fmt, ts[1..]).value.0;
        return Some((list, rest.value[1..]));
      }
      var u := UnitValue(ts[0]);
      r := if u.None? then None else Some((One(u.value), ts[1..]));
    }

    /** cfg_list: each parameter is added to the configuration as soon as it has been read. */
    method CfgList(tokens: seq<Token>) returns (ok: bool)
      requires cfg.Valid()
      modifies `gList, cfg
      ensures cfg.Valid() && old(cfg.parmList) <= cfg.parmList && fresh(cfg.parmList[|old(cfg.parmList)|..])
      ensures ok <==> Grammar(fmt, tokens).Some?
      ensures ok ==> cfg.Contents() == old(cfg.Contents()) + Grammar(fmt, tokens).value
    {
      var ts := tokens;
      ghost var was, done := cfg.Contents(), [];
      assert Grammar(fmt, tokens).Some? ==> done + Grammar(fmt, tokens).value == Grammar(fmt, tokens).value;
      while ts != []
        invariant cfg.Valid() && old(cfg.parmList) <= cfg.parmList && fresh(cfg.parmList[|old(cfg.parmList)|..])
        invariant cfg.Contents() == was + done && GrammarGoesOn(fmt, tokens, done, ts)
        decreases |ts|
      {
        if |ts| < 2 || !ts[0].PARAMETER? || !ts[1].ASSIGNMENT? {
          return false;
        }
        var values := ReadValues(ts[2..]);
        if values.None? {
          return false;
        }
        ghost var p := Param(ts[0].name, values.value.0);
        GrammarGoes(fmt, tokens, done, ts, p, values.value.1);
        cfg.AddConfigParam(ts[0].name, values.value.0);
        done, ts := done + [p], values.value.1;
      }
      ok := true;
    }
  }

  /** Nothing derives from tokens that the parser refuses. */
  lemma Refused(fmt: Format, ts: seq<Token>)
    requires Grammar(fmt, ts).None?
    ensures forall ps :: !Derives(fmt, ts, ps)
  {
    forall ps ensures !Derives(fmt, ts, ps) {
      ParsesWhatDerives(fmt, ts, ps);
    }
  }

  /** parseConfig: 0 and a filled configuration, or -1. */
  method ParseConfig(fmt: Format, text: Option<string>) returns (ret: int, cfg: ConfigCB)
    ensures fresh(cfg) && cfg.Valid() && fresh(cfg.parmList)
    ensures ret == (if text.Some? && Parse(fmt, text.value).Some? then 0 else -1)
    ensures ret == 0 ==> Some(cfg.Contents()) == Parse(fmt, text.value)
    ensures ret == 0 ==> Derives(fmt, Scan(text.value).value, cfg.Contents())
    ensures ret == -1 ==> text.None? || Scan(text.value).None? || forall ps :: !Derives(fmt, Scan(text.value).value, ps)
  {
    cfg := new ConfigCB();
    if text.None? || Scan(text.value).None? {
      return -1, cfg;
    }
    var parser := new Parser(fmt, cfg);
    ghost var none := cfg.parmList;
    var ok := parser.CfgList(Scan(text.value).value);
    ret := if ok then 0 else -1;
    if ok {
      ParsesWhatDerives(fmt, Scan(text.value).value, Parse(fmt, text.value).value);
    } else {
      Refused(fmt, Scan(text.value).value);
    }
    assert cfg.parmList[|none|..] == cfg.parmList;
    assert ok ==> [] + Parse(fmt, text.value).value == Parse(fmt, text.value).value;
  }
}
