/** The productions of the grammar, as predicates on whole sequences of tokens. */
module CfgGrammar {
  import opened Options
  import opened Sequences
  import opened CfgScanner
  import opened CfgText

  /** unit_value */
  ghost predicate IsUnit(fmt: Format, t: Token, u: Unit) {
    match u
    case Str(s) => t == STRING_LITERAL(s)
    case Int(i) => t == DECIMAL(i)
    case Flt(f) => t.FLOAT? && f == fmt.read(t.text)
    case Bool(b) => t == BOOLEAN(b)
  }

  /** value_sequence: one value or more, with a comma between any two. */
  ghost predicate IsSequence(fmt: Format, ts: seq<Token>, us: seq<Unit>) {
    && us != [] && |ts| == 2 * |us| - 1
    && forall j :: 0 <= j < |ts| ==> if j % 2 == 0 then IsUnit(fmt, ts[j], us[j / 2]) else ts[j] == COMMA
  }

  /** values: a unit value, or a sequence of them in brackets. */
  ghost predicate IsValue(fmt: Format, ts: seq<Token>, v: Value) {
    match v
    case One(u) => |ts| == 1 && IsUnit(fmt, ts[0], u)
    case Many(us) =>
      && |ts| >= 2 && ts[0] == LIST_OPEN && ts[|ts| - 1] == LIST_CLOSE
      && IsSequence(fmt, ts[1..|ts| - 1], us)
  }

  /** cfg_expression */
  ghost predicate IsExpression(fmt: Format, ts: seq<Token>, p: Param) {
    |ts| >= 2 && ts[0] == PARAMETER(p.name) && ts[1] == ASSIGNMENT && IsValue(fmt, ts[2..], p.val)
  }

  ghost predicate AreExpressions(fmt: Format, parts: seq<seq<Token>>, ps: seq<Param>) {
    |parts| == |ps| && forall i :: 0 <= i < |ps| ==> IsExpression(fmt, parts[i], ps[i])
  }

  /** cfg_list: the tokens are those of one expression after the other, and no others. */
  ghost predicate Derives(fmt: Format, ts: seq<Token>, ps: seq<Param>) {
    exists parts: seq<seq<Token>> :: Flat(parts) == ts && AreExpressions(fmt, parts, ps)
  }

  // ---------------------------------------------------------------------------------------------
  // What derives is parsed
  // ---------------------------------------------------------------------------------------------

  lemma UnitIs(fmt: Format, t: Token, u: Unit)
    ensures UnitOf(fmt, t) == Some(u) <==> IsUnit(fmt, t, u)
  {
  }

  lemma SequenceRest(fmt: Format, ts: seq<Token>, us: seq<Unit>)
    requires IsSequence(fmt, ts, us) && |us| > 1
    ensures IsUnit(fmt, ts[0], us[0]) && ts[1] == COMMA && IsSequence(fmt, ts[2..], us[1..])
  {
    forall j | 0 <= j < |ts| - 2
      ensures if j % 2 == 0 then IsUnit(fmt, ts[2..][j], us[1..][j / 2]) else ts[2..][j] == COMMA
    {
      assert ts[2..][j] == ts[j + 2] && (j + 2) % 2 == j % 2 && (j + 2) / 2 == j / 2 + 1;
    }
  }

  lemma {:induction false} SequenceParses(fmt: Format, ts: seq<Token>, us: seq<Unit>, rest: seq<Token>)
    requires IsSequence(fmt, ts, us) && (rest == [] || !rest[0].COMMA?)
    ensures Sequence(fmt, ts + rest) == Some((us, rest))
    decreases |us|
  {
    var all := ts + rest;
    assert all[0] == ts[0];
    UnitIs(fmt, ts[0], us[0]);
    if |us| == 1 {
      assert all[1..] == rest && us == [us[0]];
    } else {
      SequenceRest(fmt, ts, us);
      SequenceParses(fmt, ts[2..], us[1..], rest);
      assert all[1] == COMMA && all[2..] == ts[2..] + rest;
      assert us == [us[0]] + us[1..];
    }
  }

  lemma ValueParses(fmt: Format, ts: seq<Token>, v: Value, rest: seq<Token>)
    requires IsValue(fmt, ts, v)
    ensures Values(fmt, ts + rest) == Some((v, rest))
  {
    var all := ts + rest;
    assert all[0] == ts[0];
    match v
    case One(u) =>
      UnitIs(fmt, ts[0], u);
      assert all[1..] == rest;
    case Many(us) =>
      var inner, close := ts[1..|ts| - 1], [LIST_CLOSE] + rest;
      SequenceParses(fmt, inner, us, close);
      assert all[1..] == inner + close && close[1..] == rest;
  }

  lemma ExpressionParses(fmt: Format, ts: seq<Token>, p: Param, rest: seq<Token>)
    requires IsExpression(fmt, ts, p)
    ensures Expression(fmt, ts + rest) == Some((p, rest))
  {
    ValueParses(fmt, ts[2..], p.val, rest);
    assert (ts + rest)[0] == ts[0] && (ts + rest)[1] == ts[1] && (ts + rest)[2..] == ts[2..] + rest;
  }

  lemma GrammarCons(fmt: Format, ts: seq<Token>, p: Param, rest: seq<Token>)
    requires Expression(fmt, ts) == Some((p, rest))
    ensures Grammar(fmt, ts) == if Grammar(fmt, rest).None? then None else Some([p] + Grammar(fmt, rest).value)
  {
  }

  lemma FirstAndRest<T>(s: seq<T>, more: seq<T>)
    requires s != []
    ensures [s[0]] + (s[1..] + more) == s + more
  {
    assert s == [s[0]] + s[1..];
  }

  /** Expressions, and whatever may follow them. */
  lemma {:induction false} ExpressionsParse(fmt: Format, parts: seq<seq<Token>>, ps: seq<Param>, rest: seq<Token>)
    requires AreExpressions(fmt, parts, ps)
    ensures Grammar(fmt, Flat(parts) + rest)
         == if Grammar(fmt, rest).None? then None else Some(ps + Grammar(fmt, rest).value)
    decreases |ps|
  {
    var later := Grammar(fmt, rest);
    if ps == [] {
      assert Flat(parts) + rest == rest;
      assert later.Some? ==> ps + later.value == later.value;
    } else {
      var more, all := Flat(parts[1..]) + rest, Flat(parts) + rest;
      assert all == parts[0] + more;
      assert Expression(fmt, all) == Some((ps[0], more)) by {
        ExpressionParses(fmt, parts[0], ps[0], more);
      }
      ExpressionsParse(fmt, parts[1..], ps[1..], rest);
      GrammarCons(fmt, all, ps[0], more);
      if later.Some? {
        FirstAndRest(ps, later.value);
      }
    }
  }

  // ---------------------------------------------------------------------------------------------
  // What is parsed derives
  // ---------------------------------------------------------------------------------------------

  lemma {:induction false} SequenceParsed(fmt: Format, ts: seq<Token>) returns (w: seq<Token>)
    requires Sequence(fmt, ts).Some?
    ensures ts == w + Sequence(fmt, ts).value.1 && IsSequence(fmt, w, Sequence(fmt, ts).value.0)
    decreases |ts|
  {
    var (us, rest) := Sequence(fmt, ts).value;
    UnitIs(fmt, ts[0], us[0]);
    if |ts| > 1 && ts[1].COMMA? {
      var more := SequenceParsed(fmt, ts[2..]);
      w := [ts[0], COMMA] + more;
      forall j | 0 <= j < |w| ensures if j % 2 == 0 then IsUnit(fmt, w[j], us[j / 2]) else w[j] == COMMA {
        if j >= 2 {
          assert w[j] == more[j - 2] && (j - 2) % 2 == j % 2 && (j - 2) / 2 == j / 2 - 1;
        }
      }
      assert ts == [ts[0], ts[1]] + ts[2..];
    } else {
      w := [ts[0]];
    }
  }

  lemma ValueParsed(fmt: Format, ts: seq<Token>) returns (w: seq<Token>)
    requires Values(fmt, ts).Some?
    ensures ts == w + Values(fmt, ts).value.1 && IsValue(fmt, w, Values(fmt, ts).value.0)
  {
    if ts[0].LIST_OPEN? {
      var inner := SequenceParsed(fmt, ts[1..]);
      w := [LIST_OPEN] + inner + [LIST_CLOSE];
      assert w[1..|w| - 1] == inner;
    } else {
      w := [ts[0]];
      UnitIs(fmt, ts[0], UnitOf(fmt, ts[0]).value);
    }
  }

  lemma ExpressionParsed(fmt: Format, ts: seq<Token>) returns (w: seq<Token>)
    requires Expression(fmt, ts).Some?
    ensures ts == w + Expression(fmt, ts).value.1 && IsExpression(fmt, w, Expression(fmt, ts).value.0)
  {
    var value := ValueParsed(fmt, ts[2..]);
    w := [ts[0], ts[1]] + value;
    assert w[2..] == value;
    assert ts == [ts[0], ts[1]] + ts[2..];
  }

  lemma {:induction false} GrammarParsed(fmt: Format, ts: seq<Token>) returns (parts: seq<seq<Token>>)
    requires Grammar(fmt, ts).Some?
    ensures Flat(parts) == ts && AreExpressions(fmt, parts, Grammar(fmt, ts).value)
    decreases |ts|
  {
    if ts == [] {
      parts := [];
    } else {
      var w := ExpressionParsed(fmt, ts);
      var more := GrammarParsed(fmt, Expression(fmt, ts).value.1);
      parts := [w] + more;
      assert parts[1..] == more;
    }
  }

  /** The parser accepts exactly the sequences of expressions, and gives what they say. */
  lemma ParsesWhatDerives(fmt: Format, ts: seq<Token>, ps: seq<Param>)
    ensures Grammar(fmt, ts) == Some(ps) <==> Derives(fmt, ts, ps)
  {
    if Grammar(fmt, ts) == Some(ps) {
      var parts := GrammarParsed(fmt, ts);
      assert Flat(parts) == ts && AreExpressions(fmt, parts, ps);
    }
    if Derives(fmt, ts, ps) {
      var parts: seq<seq<Token>> :| Flat(parts) == ts && AreExpressions(fmt, parts, ps);
      ExpressionsParse(fmt, parts, ps, []);
      assert ts + [] == ts && ps + [] == ps;
    }
  }

  /** Where the expressions end, anything that does not start another one is an error: the parameters that have been
      read do not count. */
  lemma NothingElse(fmt: Format, ts: seq<Token>, ps: seq<Param>, t: Token, rest: seq<Token>)
    requires Derives(fmt, ts, ps) && !t.PARAMETER?
    ensures Grammar(fmt, ts + ([t] + rest)).None?
  {
    var parts: seq<seq<Token>> :| Flat(parts) == ts && AreExpressions(fmt, parts, ps);
    ExpressionsParse(fmt, parts, ps, [t] + rest);
  }
}
