/** Writing a configuration and reading it back. */
module CfgRoundTrip {
  import opened Options
  import opened CfgScanner
  import opened CfgText
  import opened CfgLexemes

  // ---------------------------------------------------------------------------------------------
  // What is read back
  // ---------------------------------------------------------------------------------------------

  /** What becomes of a value: a minus sign is lost, and so is which number stood for true. */
  function UnitBack(fmt: Format, u: Unit): Unit {
    match u
    case Str(_) => u
    case Int(i) => Int(ToInt32(Magnitude(i)))
    case Flt(f) => Flt(fmt.read(Unsigned(fmt.show(f))))
    case Bool(b) => Bool(if b == 0 then 0 else 1)
  }

  function UnitsBack(fmt: Format, us: seq<Unit>): (r: seq<Unit>)
    ensures |r| == |us| && forall i :: 0 <= i < |us| ==> r[i] == UnitBack(fmt, us[i])
  {
    seq(|us|, i requires 0 <= i < |us| => UnitBack(fmt, us[i]))
  }

  function ParamBack(fmt: Format, p: Param): Param {
    Param(p.name, match p.val case One(u) => One(UnitBack(fmt, u)) case Many(us) => Many(UnitsBack(fmt, us)))
  }

  function ParamsBack(fmt: Format, ps: seq<Param>): (r: seq<Param>)
    ensures |r| == |ps| && forall i :: 0 <= i < |ps| ==> r[i] == ParamBack(fmt, ps[i])
  {
    seq(|ps|, i requires 0 <= i < |ps| => ParamBack(fmt, ps[i]))
  }

  lemma UnitsBackCons(fmt: Format, us: seq<Unit>)
    requires us != []
    ensures UnitsBack(fmt, us) == [UnitBack(fmt, us[0])] + UnitsBack(fmt, us[1..])
  {
  }

  lemma ParamsBackCons(fmt: Format, ps: seq<Param>)
    requires ps != []
    ensures ParamsBack(fmt, ps) == [ParamBack(fmt, ps[0])] + ParamsBack(fmt, ps[1..])
  {
  }

  lemma FirstTwo(t: Token, u: Token, more: seq<Token>, rest: seq<Token>)
    ensures var ts := [t] + ([u] + more) + rest; |ts| >= 2 && ts[0] == t && ts[1] == u && ts[2..] == more + rest
  {
  }

  /** The tokens of a list: a value and a comma, and the tokens of the other values. */
  lemma UnitsTokensCons(fmt: Format, us: seq<Unit>, rest: seq<Token>)
    requires |us| > 1
    ensures var ts := UnitsTokens(fmt, us) + rest;
            |ts| > 1 && ts[0] == UnitToken(fmt, us[0]) && ts[1] == COMMA && ts[2..] == UnitsTokens(fmt, us[1..]) + rest
  {
    FirstTwo(UnitToken(fmt, us[0]), COMMA, UnitsTokens(fmt, us[1..]), rest);
  }

  lemma FiniteRest(fmt: Format, us: seq<Unit>)
    requires us != []
    ensures FiniteValue(fmt, Many(us)) <==> Finite(fmt, us[0]) && FiniteValue(fmt, Many(us[1..]))
  {
    assert forall u :: u in us <==> u == us[0] || u in us[1..];
  }

  lemma {:induction false} SequenceReads(fmt: Format, us: seq<Unit>, rest: seq<Token>)
    requires FiniteValue(fmt, Many(us))
    requires us != [] && rest != [] && !rest[0].COMMA?
    ensures Sequence(fmt, UnitsTokens(fmt, us) + rest) == Some((UnitsBack(fmt, us), rest))
  {
    var ts := UnitsTokens(fmt, us) + rest;
    UnitsBackCons(fmt, us);
    FiniteRest(fmt, us);
    if |us| == 1 {
      assert ts[1] == rest[0] && ts[1..] == rest;
      assert UnitsBack(fmt, us) == [UnitBack(fmt, us[0])];
    } else {
      UnitsTokensCons(fmt, us, rest);
      SequenceReads(fmt, us[1..], rest);
    }
  }

  /** The tokens of a list without its brackets. */
  lemma InBrackets(ts: seq<Token>, rest: seq<Token>)
    ensures var all := [LIST_OPEN] + (ts + [LIST_CLOSE]) + rest;
            all[0] == LIST_OPEN && all[1..] == ts + ([LIST_CLOSE] + rest) && ([LIST_CLOSE] + rest)[1..] == rest
  {
  }

  lemma ValuesRead(fmt: Format, v: Value, rest: seq<Token>)
    requires FiniteValue(fmt, v) && (v.Many? ==> v.us != [])
    ensures Values(fmt, ValueTokens(fmt, v) + rest) == Some((ParamBack(fmt, Param("", v)).val, rest))
  {
    if v.One? {
      assert (ValueTokens(fmt, v) + rest)[1..] == rest;
    } else {
      InBrackets(UnitsTokens(fmt, v.us), rest);
      SequenceReads(fmt, v.us, [LIST_CLOSE] + rest);
    }
  }

  /** The tokens of a parameter: its name, the assignment, and those of its value. */
  lemma ParamTokensCons(fmt: Format, p: Param, rest: seq<Token>)
    ensures var ts := ParamTokens(fmt, p) + rest;
            |ts| >= 2 && ts[0] == PARAMETER(p.name) && ts[1] == ASSIGNMENT && ts[2..] == ValueTokens(fmt, p.val) + rest
  {
    FirstTwo(PARAMETER(p.name), ASSIGNMENT, ValueTokens(fmt, p.val), rest);
  }

  lemma ExpressionReads(fmt: Format, p: Param, rest: seq<Token>)
    requires FiniteValue(fmt, p.val) && (p.val.Many? ==> p.val.us != [])
    ensures Expression(fmt, ParamTokens(fmt, p) + rest) == Some((ParamBack(fmt, p), rest))
  {
    ParamTokensCons(fmt, p, rest);
    ValuesRead(fmt, p.val, rest);
  }

  lemma {:induction false} GrammarReads(fmt: Format, ps: seq<Param>)
    requires FiniteParams(fmt, ps) && forall p | p in ps :: p.val.Many? ==> p.val.us != []
    ensures Grammar(fmt, ParamsTokens(fmt, ps)) == Some(ParamsBack(fmt, ps))
  {
    if ps == [] {
    } else {
      var more := ParamsTokens(fmt, ps[1..]);
      assert ps[0] in ps && forall p | p in ps[1..] :: p in ps;
      GrammarReads(fmt, ps[1..]);
      ExpressionReads(fmt, ps[0], more);
      ParamsBackCons(fmt, ps);
    }
  }

  /** What is written for a printable configuration is read back, value by value. */
  lemma ReadsBack(fmt: Format, ps: seq<Param>)
    requires forall p | p in ps :: Printable(fmt, p)
    ensures Parse(fmt, ConfigText(fmt, ps)) == Some(ParamsBack(fmt, ps))
  {
    ScanConfig(fmt, ps);
    GrammarReads(fmt, ps);
  }

  /** `v` is `u` but for a minus sign, and for which number stands for true. */
  ghost predicate SameUnit(fmt: Format, u: Unit, v: Unit) {
    && (u.Str? ==> v == u)
    && (u.Int? && u.i >= 0 ==> v == u)
    && (u.Int? && -0x8000_0000 < u.i < 0 ==> v == Int(-u.i))
    && (u.Int? && u.i == -0x8000_0000 ==> v == u)
    && (u.Bool? ==> v == Bool(0) || v == Bool(1))
    && (u.Bool? ==> (v == Bool(0) <==> u == Bool(0)))
    && (u.Flt? ==> v.Flt? && exists w :: FloatText(w) && v.f == fmt.read(w) && fmt.show(u.f) in {w, "-" + w})
  }

  ghost predicate SameValue(fmt: Format, a: Value, b: Value) {
    match a
    case One(u) => b.One? && SameUnit(fmt, u, b.u)
    case Many(us) => b.Many? && |b.us| == |us| && forall i :: 0 <= i < |us| ==> SameUnit(fmt, us[i], b.us[i])
  }

  lemma UnitBackIs(fmt: Format, u: Unit)
    requires Finite(fmt, u)
    ensures SameUnit(fmt, u, UnitBack(fmt, u))
  {
    if u.Flt? {
      var w := Unsigned(fmt.show(u.f));
      assert fmt.show(u.f) != [] && fmt.show(u.f)[0] == '-' ==> fmt.show(u.f) == "-" + w;
      assert FloatText(w) && fmt.read(w) == UnitBack(fmt, u).f && fmt.show(u.f) in {w, "-" + w};
    }
  }

  /** What is written for a printable configuration is read back with the same names, types and values, except that
      negative numbers lose their sign and every true value becomes 1. */
  lemma ReadsTheSame(fmt: Format, ps: seq<Param>)
    requires forall p | p in ps :: Printable(fmt, p)
    ensures var r := Parse(fmt, ConfigText(fmt, ps));
            && r.Some? && |r.value| == |ps|
            && forall i :: 0 <= i < |ps| ==>
                 r.value[i].name == ps[i].name && SameValue(fmt, ps[i].val, r.value[i].val)
  {
    ReadsBack(fmt, ps);
    forall i | 0 <= i < |ps| ensures SameValue(fmt, ps[i].val, ParamBack(fmt, ps[i]).val) {
      assert Printable(fmt, ps[i]);
      match ps[i].val
      case One(u) => UnitBackIs(fmt, u);
      case Many(us) =>
        forall j | 0 <= j < |us| ensures SameUnit(fmt, us[j], UnitBack(fmt, us[j])) {
          assert us[j] in us;
          UnitBackIs(fmt, us[j]);
        }
    }
  }

  // ---------------------------------------------------------------------------------------------
  // What can be read
  // ---------------------------------------------------------------------------------------------

  predicate GoodToken(t: Token) {
    (t.PARAMETER? ==> Name(t.name)) && (t.STRING_LITERAL? ==> Body(t.body))
  }

  predicate GoodTokens(ts: seq<Token>) {
    forall t | t in ts :: GoodToken(t)
  }

  lemma Between(text: string, n: nat)
    requires 1 <= n < |text|
    ensures text[..n + 1][1..n] == text[1..n]
  {
  }

  lemma ActionGood(text: string)
    requires text != []
    ensures var t := Action(Best(text), text[..Length(Best(text), text)]); t.Some? ==> GoodToken(t.value)
  {
    var r := Best(text);
    var w := text[..Length(r, text)];
    BestProgress(text);
    BestBeats(text);
    if r.NameRule? {
      assert Beats(text, r, TrueRule) && Beats(text, r, FalseRule);
      assert w == "true" ==> "true" <= text;
      assert w == "false" ==> "false" <= text;
    } else if r.StringRule? {
      BodyOf(text, 1);
      Between(text, BodyEnd(text, 1).value);
    }
  }

  lemma {:induction false} ScanGood(text: string)
    requires Scan(text).Some?
    ensures GoodTokens(Scan(text).value)
    decreases |text|
  {
    if text == [] {
    } else {
      ActionGood(text);
      BestProgress(text);
      if Best(text).HashRule? {
        ScanGood(AfterLine(text[1..]).value);
      } else {
        ScanGood(text[Length(Best(text), text)..]);
      }
    }
  }

  lemma {:induction false} SequenceGood(fmt: Format, ts: seq<Token>)
    requires GoodTokens(ts) && Sequence(fmt, ts).Some?
    ensures ReadableValue(Many(Sequence(fmt, ts).value.0)) && GoodTokens(Sequence(fmt, ts).value.1)
  {
    assert GoodToken(ts[0]);
    if |ts| > 1 && ts[1].COMMA? {
      SequenceGood(fmt, ts[2..]);
    }
  }

  lemma ExpressionGood(fmt: Format, ts: seq<Token>)
    requires GoodTokens(ts) && Expression(fmt, ts).Some?
    ensures Readable(Expression(fmt, ts).value.0) && GoodTokens(Expression(fmt, ts).value.1)
  {
    assert GoodToken(ts[0]);
    var vs := ts[2..];
    assert GoodToken(vs[0]);
    if vs[0].LIST_OPEN? {
      SequenceGood(fmt, vs[1..]);
    }
  }

  lemma {:induction false} GrammarGood(fmt: Format, ts: seq<Token>)
    requires GoodTokens(ts) && Grammar(fmt, ts).Some?
    ensures forall p | p in Grammar(fmt, ts).value :: Readable(p)
    decreases |ts|
  {
    if ts == [] {
    } else {
      ExpressionGood(fmt, ts);
      GrammarGood(fmt, Expression(fmt, ts).value.1);
    }
  }

  lemma ParsedIsReadable(fmt: Format, text: string)
    requires Parse(fmt, text).Some?
    ensures forall p | p in Parse(fmt, text).value :: Readable(p)
  {
    ScanGood(text);
    GrammarGood(fmt, Scan(text).value);
  }

  // ---------------------------------------------------------------------------------------------
  // When writing and reading come to nothing
  // ---------------------------------------------------------------------------------------------

  /** The values that are read as they were written. */
  predicate StableUnit(fmt: Format, u: Unit) {
    match u
    case Str(_) => true
    case Int(i) => i >= 0 || i == -0x8000_0000
    case Flt(f) => fmt.read(Unsigned(fmt.show(f))) == f
    case Bool(b) => b == 0 || b == 1
  }

  predicate Stable(fmt: Format, v: Value) {
    match v
    case One(u) => StableUnit(fmt, u)
    case Many(us) => forall u | u in us :: StableUnit(fmt, u)
  }

  predicate Writable(fmt: Format, p: Param) {
    Printable(fmt, p) && Stable(fmt, p.val)
  }

  lemma UnitStable(fmt: Format, u: Unit)
    ensures UnitBack(fmt, u) == u <==> StableUnit(fmt, u)
  {
  }

  lemma ParamStable(fmt: Format, p: Param)
    ensures ParamBack(fmt, p) == p <==> Stable(fmt, p.val)
  {
    if p.val.Many? {
      var us := p.val.us;
      if Stable(fmt, p.val) {
        forall i | 0 <= i < |us| ensures UnitBack(fmt, us[i]) == us[i] {
          assert us[i] in us;
          UnitStable(fmt, us[i]);
        }
        assert UnitsBack(fmt, us) == us;
      } else if UnitsBack(fmt, us) == us {
        forall u | u in us ensures StableUnit(fmt, u) {
          var i :| 0 <= i < |us| && us[i] == u;
          UnitStable(fmt, us[i]);
        }
      }
    }
  }

  // ---------------------------------------------------------------------------------------------
  // Where the grammar stops: at the name that an infinite or undefined number is printed as
  // ---------------------------------------------------------------------------------------------

  lemma {:induction false} SequenceStops(fmt: Format, us: seq<Unit>, rest: seq<Token>)
    requires us != [] && !FiniteValue(fmt, Many(us))
    ensures Sequence(fmt, UnitsTokens(fmt, us) + rest).None?
  {
    FiniteRest(fmt, us);
    if |us| == 1 {
      assert (UnitsTokens(fmt, us) + rest)[0] == UnitToken(fmt, us[0]);
    } else {
      UnitsTokensCons(fmt, us, rest);
      if Finite(fmt, us[0]) {
        SequenceStops(fmt, us[1..], rest);
      }
    }
  }

  lemma ValuesStop(fmt: Format, v: Value, rest: seq<Token>)
    requires !FiniteValue(fmt, v) && (v.Many? ==> v.us != [])
    ensures Values(fmt, ValueTokens(fmt, v) + rest).None?
  {
    if v.One? {
      assert (ValueTokens(fmt, v) + rest)[0] == UnitToken(fmt, v.u);
    } else {
      InBrackets(UnitsTokens(fmt, v.us), rest);
      SequenceStops(fmt, v.us, [LIST_CLOSE] + rest);
    }
  }

  lemma ExpressionStops(fmt: Format, p: Param, rest: seq<Token>)
    requires !FiniteValue(fmt, p.val) && (p.val.Many? ==> p.val.us != [])
    ensures Expression(fmt, ParamTokens(fmt, p) + rest).None?
  {
    ParamTokensCons(fmt, p, rest);
    ValuesStop(fmt, p.val, rest);
  }

  lemma {:induction false} GrammarStops(fmt: Format, ps: seq<Param>)
    requires !FiniteParams(fmt, ps) && forall p | p in ps :: p.val.Many? ==> p.val.us != []
    ensures Grammar(fmt, ParamsTokens(fmt, ps)).None?
  {
    assert ps == [ps[0]] + ps[1..];
    if FiniteValue(fmt, ps[0].val) {
      ExpressionReads(fmt, ps[0], ParamsTokens(fmt, ps[1..]));
      GrammarStops(fmt, ps[1..]);
    } else {
      ExpressionStops(fmt, ps[0], ParamsTokens(fmt, ps[1..]));
    }
  }

  /** A configuration with a number that is infinite or undefined cannot be loaded from the text saved for it. */
  lemma NotFiniteIsLost(fmt: Format, ps: seq<Param>)
    requires FormattedParams(fmt, ps) && !FiniteParams(fmt, ps) && forall p | p in ps :: Readable(p)
    ensures Parse(fmt, ConfigText(fmt, ps)).None?
  {
    ScanConfig(fmt, ps);
    GrammarStops(fmt, ps);
  }

  /** A configuration is read exactly as it was written if, and only if, all of its parameters are writable. */
  lemma RoundTrip(fmt: Format, ps: seq<Param>)
    requires FormattedParams(fmt, ps)
    ensures Parse(fmt, ConfigText(fmt, ps)) == Some(ps) <==> forall p | p in ps :: Writable(fmt, p)
  {
    if Parse(fmt, ConfigText(fmt, ps)) == Some(ps) {
      ParsedIsReadable(fmt, ConfigText(fmt, ps));
      if !FiniteParams(fmt, ps) {
        NotFiniteIsLost(fmt, ps);
      }
      ReadsBack(fmt, ps);
      forall p | p in ps ensures Writable(fmt, p) {
        var i :| 0 <= i < |ps| && ps[i] == p;
        ParamStable(fmt, ps[i]);
      }
    }
    if forall p | p in ps :: Writable(fmt, p) {
      ReadsBack(fmt, ps);
      forall i | 0 <= i < |ps| ensures ParamBack(fmt, ps[i]) == ps[i] {
        ParamStable(fmt, ps[i]);
      }
      assert ParamsBack(fmt, ps) == ps;
    }
  }

  predicate NoFloats(v: Value) {
    match v
    case One(u) => !u.Flt?
    case Many(us) => forall u | u in us :: !u.Flt?
  }

  /** What has been loaded from any text can be saved and loaded again exactly if its floating-point numbers are finite,
      and as far as it holds none of them it changes no more when that is done once more. */
  lemma LoadSaveLoad(fmt: Format, text: string)
    requires Parse(fmt, text).Some? && FormattedParams(fmt, Parse(fmt, text).value)
    ensures var ps := Parse(fmt, text).value;
            var back := ParamsBack(fmt, ps);
            && Parse(fmt, ConfigText(fmt, ps)) == (if FiniteParams(fmt, ps) then Some(back) else None)
            && ((forall p | p in ps :: NoFloats(p.val)) ==> Parse(fmt, ConfigText(fmt, back)) == Some(back))
  {
    var ps := Parse(fmt, text).value;
    var back := ParamsBack(fmt, ps);
    ParsedIsReadable(fmt, text);
    if FiniteParams(fmt, ps) {
      ReadsBack(fmt, ps);
    } else {
      NotFiniteIsLost(fmt, ps);
    }
    if forall p | p in ps :: NoFloats(p.val) {
      BackIsStable(fmt, ps);
    }
  }

  lemma BackIsStable(fmt: Format, ps: seq<Param>)
    requires forall p | p in ps :: Readable(p) && NoFloats(p.val)
    ensures Parse(fmt, ConfigText(fmt, ParamsBack(fmt, ps))) == Some(ParamsBack(fmt, ps))
  {
    var back := ParamsBack(fmt, ps);
    forall p | p in back ensures Writable(fmt, p) {
      var i :| 0 <= i < |back| && p == back[i];
      assert ps[i] in ps;
      BackIsWritable(fmt, ps[i]);
    }
    RoundTrip(fmt, back);
  }

  lemma BackIsWritable(fmt: Format, p: Param)
    requires Readable(p) && NoFloats(p.val)
    ensures Writable(fmt, ParamBack(fmt, p))
  {
    if p.val.Many? {
      var us := p.val.us;
      forall u | u in UnitsBack(fmt, us)
        ensures ReadableUnit(u) && !u.Flt? && StableUnit(fmt, u)
      {
        var i :| 0 <= i < |us| && u == UnitBack(fmt, us[i]);
        assert us[i] in us;
      }
    }
  }

  /** A negative integer is not read as it was written. */
  lemma MinusIsLost(fmt: Format)
    ensures Parse(fmt, ConfigText(fmt, [Param("a", One(Int(-1)))])) == Some([Param("a", One(Int(1)))])
  {
    var ps := [Param("a", One(Int(-1)))];
    ReadsBack(fmt, ps);
    assert ParamsBack(fmt, ps) == [Param("a", One(Int(1)))];
  }
}
