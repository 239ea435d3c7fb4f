/** The text of a configuration as lexemes, which the scanner takes apart again. */
module CfgLexemes {
  import opened Options
  import opened CfgScanner
  import opened CfgText
  import opened Sequences

  // ---------------------------------------------------------------------------------------------
  // Decimal numbers
  // ---------------------------------------------------------------------------------------------

  lemma DigitOf(d: nat)
    requires d < 10
    ensures Digit.Has('0' + d as char) && DigitValue('0' + d as char) == d
  {
  }

  lemma {:induction false} PrintNatReads(n: nat)
    ensures PrintNat(n) != [] && AllOf(Digit, PrintNat(n)) && Number(10, PrintNat(n)) == n
  {
    DigitOf(n % 10);
    var digit := ['0' + (n % 10) as char];
    if n < 10 {
      assert PrintNat(n) == digit;
      assert digit[..0] == [];
    } else {
      PrintNatReads(n / 10);
      var w := PrintNat(n / 10) + digit;
      assert w[..|w| - 1] == PrintNat(n / 10);
    }
  }

  lemma PrintNatAtoi(n: nat)
    requires n <= 0x8000_0000
    ensures Atoi(PrintNat(n)) == ToInt32(n)
  {
    PrintNatReads(n);
    var w := PrintNat(n);
    SpanFrom(Digit, w, 0, |w|);
    assert w[..|w|] == w;
  }

  // ---------------------------------------------------------------------------------------------
  // What is written, as tokens
  // ---------------------------------------------------------------------------------------------

  /** What is printed for a floating-point number, without the minus sign that the scanner skips. */
  function Unsigned(w: string): string {
    if w != [] && w[0] == '-' then w[1..] else w
  }

  function UnitToken(fmt: Format, u: Unit): Token {
    match u
    case Str(s) => STRING_LITERAL(s)
    case Int(i) => DECIMAL(ToInt32(Magnitude(i)))
    case Flt(f) => var w := Unsigned(fmt.show(f)); if FloatText(w) then FLOAT(w) else PARAMETER(w)
    case Bool(b) => BOOLEAN(if b == 0 then 0 else 1)
  }

  function UnitsTokens(fmt: Format, us: seq<Unit>): seq<Token> {
    if us == [] then []
    else if |us| == 1 then [UnitToken(fmt, us[0])]
    else [UnitToken(fmt, us[0])] + ([COMMA] + UnitsTokens(fmt, us[1..]))
  }

  function ValueTokens(fmt: Format, v: Value): seq<Token> {
    match v
    case One(u) => [UnitToken(fmt, u)]
    case Many(us) => [LIST_OPEN] + (UnitsTokens(fmt, us) + [LIST_CLOSE])
  }

  function ParamTokens(fmt: Format, p: Param): seq<Token> {
    [PARAMETER(p.name)] + ([ASSIGNMENT] + ValueTokens(fmt, p.val))
  }

  function ParamsTokens(fmt: Format, ps: seq<Param>): seq<Token> {
    if ps == [] then [] else ParamTokens(fmt, ps[0]) + ParamsTokens(fmt, ps[1..])
  }

  predicate Name(w: string) {
    Identifier(w) && w != "true" && w != "false"
  }

  /** What the grammar can yield: names that are identifiers but no keywords, strings that are bodies of string
      literals, and lists that are not empty. */
  predicate Readable(p: Param) {
    Name(p.name) && ReadableValue(p.val)
  }

  predicate ReadableValue(v: Value) {
    match v
    case One(u) => ReadableUnit(u)
    case Many(us) => us != [] && forall u | u in us :: ReadableUnit(u)
  }

  predicate ReadableUnit(u: Unit) {
    u.Str? ==> Body(u.s)
  }

  /** Floating-point numbers that are neither infinite nor undefined are printed as digits around a point. */
  predicate Finite(fmt: Format, u: Unit) {
    u.Flt? ==> FloatText(Unsigned(fmt.show(u.f)))
  }

  /** The others are printed as names, `inf` or `nan`. */
  predicate Formatted(fmt: Format, u: Unit) {
    u.Flt? ==> FloatText(Unsigned(fmt.show(u.f))) || Name(Unsigned(fmt.show(u.f)))
  }

  predicate FormattedValue(fmt: Format, v: Value) {
    match v
    case One(u) => Formatted(fmt, u)
    case Many(us) => forall u | u in us :: Formatted(fmt, u)
  }

  predicate FormattedParams(fmt: Format, ps: seq<Param>) {
    forall p | p in ps :: FormattedValue(fmt, p.val)
  }

  predicate FiniteValue(fmt: Format, v: Value) {
    match v
    case One(u) => Finite(fmt, u)
    case Many(us) => forall u | u in us :: Finite(fmt, u)
  }

  predicate FiniteParams(fmt: Format, ps: seq<Param>) {
    forall p | p in ps :: FiniteValue(fmt, p.val)
  }

  /** What can be written so that it can be read at all. */
  predicate Printable(fmt: Format, p: Param) {
    Readable(p) && FiniteValue(fmt, p.val)
  }

  // ---------------------------------------------------------------------------------------------
  // What is written, as lexemes
  // ---------------------------------------------------------------------------------------------

  /** The pieces of a written text; each is matched by one rule. */
  datatype Lexeme =
    | Word(w: string)
    | Keyword(truth: bool)
    | Digits(n: nat)
    | Decimals(w: string)
    | Quoted(body: string)
    | Mark(c: char)
    | Minus
    | Gap(c: char)
    | Comment
  {
    function Text(): string {
      match this
      case Word(w) => w
      case Keyword(truth) => if truth then "true" else "false"
      case Digits(n) => PrintNat(n)
      case Decimals(w) => w
      case Quoted(body) => "\"" + body + "\""
      case Mark(c) => [c]
      case Minus => "-"
      case Gap(c) => [c]
      case Comment => "#\n"
    }

    function Token(): Option<Token> {
      match this
      case Word(w) => Some(PARAMETER(w))
      case Keyword(truth) => Some(BOOLEAN(if truth then 1 else 0))
      case Digits(n) => Some(DECIMAL(ToInt32(n)))
      case Decimals(w) => Some(FLOAT(w))
      case Quoted(body) => Some(STRING_LITERAL(body))
      case Mark(c) =>
        Some(if c == '=' then ASSIGNMENT else if c == '[' then LIST_OPEN else if c == ']' then LIST_CLOSE else COMMA)
      case Minus => None
      case Gap(_) => None
      case Comment => None
    }

    function Tokens(): seq<CfgScanner.Token> {
      if Token().None? then [] else [Token().value]
    }

    ghost predicate Proper() {
      match this
      case Word(w) => Name(w)
      case Digits(n) => n <= 0x8000_0000
      case Decimals(w) => FloatText(w)
      case Quoted(body) => Body(body)
      case Mark(c) => c in "=[],"
      case Gap(c) => Blank.Has(c)
      case _ => true
    }

    /** A lexeme that would run into a word after it. */
    predicate Open() {
      Word? || Keyword? || Digits? || Decimals?
    }
  }

  function Texts(ls: seq<Lexeme>): (ts: seq<string>)
    ensures |ts| == |ls| && forall i :: 0 <= i < |ls| ==> ts[i] == ls[i].Text()
  {
    seq(|ls|, i requires 0 <= i < |ls| => ls[i].Text())
  }

  function Join(ls: seq<Lexeme>): string {
    Flat(Texts(ls))
  }

  function TokenLists(ls: seq<Lexeme>): (ts: seq<seq<Token>>)
    ensures |ts| == |ls| && forall i :: 0 <= i < |ls| ==> ts[i] == ls[i].Tokens()
  {
    seq(|ls|, i requires 0 <= i < |ls| => ls[i].Tokens())
  }

  function Tokens(ls: seq<Lexeme>): seq<Token> {
    Flat(TokenLists(ls))
  }

  /** Lexemes that stay apart when they are joined: words and numbers are followed by a blank, or names by a mark. */
  ghost predicate Apart(ls: seq<Lexeme>) {
    forall i :: 0 <= i < |ls| ==> ApartAt(ls, i)
  }

  ghost predicate ApartAt(ls: seq<Lexeme>, i: nat)
    requires i < |ls|
  {
    ls[i].Proper() && (ls[i].Open() ==> i + 1 < |ls| && Separates(ls[i], ls[i + 1]))
  }

  predicate Separates(l: Lexeme, next: Lexeme) {
    next.Gap? || (l.Word? && next.Mark?)
  }

  lemma ScanNat(n: nat, rest: string)
    requires n <= 0x8000_0000 && rest != [] && Blank.Has(rest[0])
    ensures Scan(PrintNat(n) + rest) == Prepend(Some(DECIMAL(ToInt32(n))), Scan(rest))
  {
    PrintNatReads(n);
    PrintNatAtoi(n);
    ScanDigits(PrintNat(n), rest);
  }

  /** One lexeme is scanned as it was written. */
  lemma ScanLexeme(l: Lexeme, rest: string)
    requires l.Proper()
    requires l.Open() ==> rest != [] && (Blank.Has(rest[0]) || (l.Word? && rest[0] in "=[],"))
    ensures Scan(l.Text() + rest) == Prepend(l.Token(), Scan(rest))
  {
    match l
    case Word(w) => ScanName(w, rest);
    case Keyword(truth) => ScanKeyword(l.Text(), rest);
    case Digits(n) => ScanNat(n, rest);
    case Decimals(w) => ScanFloat(w, rest);
    case Quoted(body) => ScanString(body, rest);
    case Mark(c) => ScanMark(c, rest);
    case Minus => ScanMinus(rest);
    case Gap(c) => ScanBlank(c, rest);
    case Comment => ScanEmptyComment(rest);
  }

  lemma JoinFirst(ls: seq<Lexeme>)
    requires ls != []
    ensures Join(ls) == ls[0].Text() + Join(ls[1..]) && Tokens(ls) == ls[0].Tokens() + Tokens(ls[1..])
  {
    assert Texts(ls[1..]) == Texts(ls)[1..] && TokenLists(ls[1..]) == TokenLists(ls)[1..];
  }

  /** Lexemes that stay apart are scanned as they were written. */
  lemma {:induction false} ScanLexemes(ls: seq<Lexeme>)
    requires Apart(ls)
    ensures Scan(Join(ls)) == Some(Tokens(ls))
  {
    if ls == [] {
    } else {
      var more := ls[1..];
      assert ApartAt(ls, 0);
      forall i | 0 <= i < |more| ensures ApartAt(more, i) {
        assert ApartAt(ls, i + 1);
      }
      ScanLexemes(more);
      if ls[0].Open() {
        FirstOfJoin(ls);
      }
      ScanLexeme(ls[0], Join(more));
      JoinFirst(ls);
      assert ls[0].Tokens() + Tokens(more) == Prepend(ls[0].Token(), Some(Tokens(more))).value;
    }
  }

  lemma FirstOfJoin(ls: seq<Lexeme>)
    requires ls != [] && Apart(ls) && ls[0].Open()
    ensures Join(ls[1..]) != [] && (Blank.Has(Join(ls[1..])[0]) || (ls[0].Word? && Join(ls[1..])[0] in "=[],"))
  {
    assert ApartAt(ls, 0) && ApartAt(ls, 1);
    assert Separates(ls[0], ls[1]) && ls[1..][0] == ls[1] && ls[1].Proper();
  }

  lemma TextsAppend(ls: seq<Lexeme>, ms: seq<Lexeme>)
    ensures Texts(ls + ms) == Texts(ls) + Texts(ms)
  {
    forall i | 0 <= i < |ls + ms| ensures Texts(ls + ms)[i] == (Texts(ls) + Texts(ms))[i] {
      assert (ls + ms)[i] == if i < |ls| then ls[i] else ms[i - |ls|];
    }
  }

  lemma TokenListsAppend(ls: seq<Lexeme>, ms: seq<Lexeme>)
    ensures TokenLists(ls + ms) == TokenLists(ls) + TokenLists(ms)
  {
    forall i | 0 <= i < |ls + ms| ensures TokenLists(ls + ms)[i] == (TokenLists(ls) + TokenLists(ms))[i] {
      assert (ls + ms)[i] == if i < |ls| then ls[i] else ms[i - |ls|];
    }
  }

  lemma JoinAppend(ls: seq<Lexeme>, ms: seq<Lexeme>)
    ensures Join(ls + ms) == Join(ls) + Join(ms) && Tokens(ls + ms) == Tokens(ls) + Tokens(ms)
  {
    TextsAppend(ls, ms);
    TokenListsAppend(ls, ms);
    FlatAppend(Texts(ls), Texts(ms));
    FlatAppend(TokenLists(ls), TokenLists(ms));
  }

  lemma ApartAppend(ls: seq<Lexeme>, ms: seq<Lexeme>)
    requires Apart(ls) && Apart(ms)
    ensures Apart(ls + ms)
  {
    forall i | 0 <= i < |ls + ms| ensures ApartAt(ls + ms, i) {
      if i < |ls| {
        assert ApartAt(ls, i);
      } else {
        assert ApartAt(ms, i - |ls|);
      }
    }
  }

  /** A text and its tokens, as lexemes that stay apart. */
  ghost predicate Written(ls: seq<Lexeme>, text: string, tokens: seq<Token>) {
    Apart(ls) && Join(ls) == text && Tokens(ls) == tokens
  }

  lemma WrittenAppend(ls: seq<Lexeme>, text: string, tokens: seq<Token>, ms: seq<Lexeme>, more: string,
                      others: seq<Token>)
    requires Written(ls, text, tokens) && Written(ms, more, others)
    ensures Written(ls + ms, text + more, tokens + others)
  {
    ApartAppend(ls, ms);
    JoinAppend(ls, ms);
  }

  /** A lexeme after which anything may come. */
  lemma WrittenClosed(l: Lexeme)
    requires l.Proper() && !l.Open()
    ensures Written([l], l.Text(), l.Tokens())
  {
    var none: seq<Lexeme> := [];
    JoinFirst([l]);
    assert [l][1..] == none && Join(none) == "" && Tokens(none) == [];
    assert ApartAt([l], 0);
  }

  /** A word or a number with the blank after it. */
  lemma WrittenOpen(l: Lexeme, c: char)
    requires l.Proper() && Blank.Has(c)
    ensures Written([l, Gap(c)], l.Text() + [c], l.Tokens())
  {
    WrittenClosed(Gap(c));
    JoinFirst([l, Gap(c)]);
    assert [l, Gap(c)][1..] == [Gap(c)] && [l, Gap(c)][1] == Gap(c);
    assert ApartAt([Gap(c)], 0);
    assert ApartAt([l, Gap(c)], 0) && ApartAt([l, Gap(c)], 1);
  }

  /** A minus sign before a number comes to nothing. */
  lemma WrittenMinus(ls: seq<Lexeme>, text: string, tokens: seq<Token>)
    requires Written(ls, text, tokens)
    ensures Written([Minus] + ls, "-" + text, tokens)
  {
    WrittenClosed(Minus);
    WrittenAppend([Minus], "-", [], ls, text, tokens);
    assert [] + tokens == tokens;
  }

  /** A number that is printed with a minus sign, or without. */
  lemma SignedWritten(sign: bool, l: Lexeme, c: char) returns (ls: seq<Lexeme>)
    requires l.Proper() && Blank.Has(c)
    ensures Written(ls, (if sign then "-" + l.Text() else l.Text()) + [c], l.Tokens())
  {
    ls := [l, Gap(c)];
    WrittenOpen(l, c);
    if sign {
      WrittenMinus(ls, l.Text() + [c], l.Tokens());
      ls := [Minus] + ls;
      assert ("-" + l.Text()) + [c] == "-" + (l.Text() + [c]);
    }
  }

  lemma UnitWritten(fmt: Format, u: Unit, c: char) returns (ls: seq<Lexeme>)
    requires ReadableUnit(u) && Formatted(fmt, u) && Blank.Has(c)
    ensures Written(ls, UnitText(fmt, u) + [c], [UnitToken(fmt, u)])
  {
    if u.Str? {
      ls := SignedWritten(false, Quoted(u.s), c);
    } else if u.Bool? {
      ls := SignedWritten(false, Keyword(u.b != 0), c);
    } else if u.Int? {
      ls := SignedWritten(u.i < 0, Digits(Magnitude(u.i)), c);
    } else {
      var w := fmt.show(u.f);
      var l := if FloatText(Unsigned(w)) then Decimals(Unsigned(w)) else Word(Unsigned(w));
      ls := SignedWritten(w != [] && w[0] == '-', l, c);
      assert w != [] && w[0] == '-' ==> w == "-" + Unsigned(w);
    }
  }

  lemma Commas(first: string, more: string)
    ensures first + " , " + more + " " == first + " " + (", " + (more + " "))
  {
  }

  lemma {:induction false} UnitsWritten(fmt: Format, us: seq<Unit>) returns (ls: seq<Lexeme>)
    requires ReadableValue(Many(us)) && FormattedValue(fmt, Many(us))
    ensures Written(ls, UnitsText(fmt, us) + " ", UnitsTokens(fmt, us))
  {
    var a := UnitWritten(fmt, us[0], ' ');
    if |us| == 1 {
      return a;
    }
    var b := UnitsWritten(fmt, us[1..]);
    var comma := WrittenMark(',', b, UnitsText(fmt, us[1..]) + " ", UnitsTokens(fmt, us[1..]));
    ls := a + comma;
    WrittenAppend(a, UnitText(fmt, us[0]) + " ", [UnitToken(fmt, us[0])],
                  comma, ", " + (UnitsText(fmt, us[1..]) + " "), [COMMA] + UnitsTokens(fmt, us[1..]));
    Commas(UnitText(fmt, us[0]), UnitsText(fmt, us[1..]));
  }

  /** A mark and a blank before what is written. */
  lemma WrittenMark(c: char, ls: seq<Lexeme>, text: string, tokens: seq<Token>) returns (ms: seq<Lexeme>)
    requires Written(ls, text, tokens) && c in "=[],"
    ensures Written(ms, [c, ' '] + text, Mark(c).Tokens() + tokens)
    ensures ms != [] && ms[0] == Mark(c)
  {
    WrittenOpen(Mark(c), ' ');
    WrittenAppend([Mark(c), Gap(' ')], [c] + [' '], Mark(c).Tokens(), ls, text, tokens);
    ms := [Mark(c), Gap(' ')] + ls;
    assert [c] + [' '] == [c, ' '];
  }

  lemma Brackets(units: string)
    ensures "[ " + units + " ]" + "\n" == "[ " + (units + " " + "]\n")
  {
  }

  lemma Columns(name: string, gap: string, value: string)
    ensures name + gap + "= " + value + "\n" == name + (gap + ("= " + (value + "\n")))
  {
  }

  lemma ValueWritten(fmt: Format, v: Value) returns (ls: seq<Lexeme>)
    requires ReadableValue(v) && FormattedValue(fmt, v)
    ensures Written(ls, ValueText(fmt, v) + "\n", ValueTokens(fmt, v))
  {
    if v.One? {
      ls := UnitWritten(fmt, v.u, '\n');
    } else {
      var units := UnitsWritten(fmt, v.us);
      WrittenOpen(Mark(']'), '\n');
      WrittenAppend(units, UnitsText(fmt, v.us) + " ", UnitsTokens(fmt, v.us), [Mark(']'), Gap('\n')], "]\n",
        [LIST_CLOSE]);
      ls := WrittenMark('[', units + [Mark(']'), Gap('\n')], UnitsText(fmt, v.us) + " " + "]\n",
                        UnitsTokens(fmt, v.us) + [LIST_CLOSE]);
      Brackets(UnitsText(fmt, v.us));
    }
  }

  lemma OneMore(gap: string, text: string)
    ensures " " + gap + text == " " + (gap + text)
  {
  }

  lemma {:induction false} SpacesWritten(n: int, ls: seq<Lexeme>, text: string,
                                         tokens: seq<Token>) returns (ms: seq<Lexeme>)
    requires Written(ls, text, tokens) && ls != [] && ls[0].Mark?
    ensures Written(ms, Spaces(n) + text, tokens) && ms != [] && (ms[0].Gap? || ms[0].Mark?)
    decreases if n < 0 then 0 else n
  {
    if n <= 0 {
      return ls;
    }
    var rest := SpacesWritten(n - 1, ls, text, tokens);
    WrittenClosed(Gap(' '));
    WrittenAppend([Gap(' ')], " ", [], rest, Spaces(n - 1) + text, tokens);
    ms := [Gap(' ')] + rest;
    assert [] + tokens == tokens;
    OneMore(Spaces(n - 1), text);
  }

  /** A name before blanks or a mark. */
  lemma WrittenName(w: string, ls: seq<Lexeme>, text: string, tokens: seq<Token>)
    requires Name(w) && Written(ls, text, tokens) && ls != [] && (ls[0].Gap? || ls[0].Mark?)
    ensures Written([Word(w)] + ls, w + text, [PARAMETER(w)] + tokens)
  {
    var all := [Word(w)] + ls;
    JoinFirst(all);
    assert all[1..] == ls && all[1] == ls[0];
    forall i | 0 <= i < |all| ensures ApartAt(all, i) {
      if i > 0 {
        assert ApartAt(ls, i - 1);
      }
    }
  }

  lemma AssignWritten(fmt: Format, v: Value) returns (ls: seq<Lexeme>)
    requires ReadableValue(v) && FormattedValue(fmt, v)
    ensures Written(ls, "= " + (ValueText(fmt, v) + "\n"), [ASSIGNMENT] + ValueTokens(fmt, v))
    ensures ls != [] && ls[0] == Mark('=')
  {
    var value := ValueWritten(fmt, v);
    ls := WrittenMark('=', value, ValueText(fmt, v) + "\n", ValueTokens(fmt, v));
  }

  lemma ParamWritten(fmt: Format, p: Param) returns (ls: seq<Lexeme>)
    requires Readable(p) && FormattedValue(fmt, p.val)
    ensures Written(ls, ParamText(fmt, p), ParamTokens(fmt, p))
  {
    var text, tokens := "= " + (ValueText(fmt, p.val) + "\n"), [ASSIGNMENT] + ValueTokens(fmt, p.val);
    var assign := AssignWritten(fmt, p.val);
    var padded := SpacesWritten(20 - |p.name|, assign, text, tokens);
    WrittenName(p.name, padded, Spaces(20 - |p.name|) + text, tokens);
    ls := [Word(p.name)] + padded;
    Columns(p.name, Spaces(20 - |p.name|), ValueText(fmt, p.val));
  }

  lemma {:induction false} ParamsWritten(fmt: Format, ps: seq<Param>) returns (ls: seq<Lexeme>)
    requires FormattedParams(fmt, ps) && forall p | p in ps :: Readable(p)
    ensures Written(ls, ParamsText(fmt, ps), ParamsTokens(fmt, ps))
  {
    if ps == [] {
      return [];
    }
    var a := ParamWritten(fmt, ps[0]);
    var b := ParamsWritten(fmt, ps[1..]);
    WrittenAppend(a, ParamText(fmt, ps[0]), ParamTokens(fmt, ps[0]), b, ParamsText(fmt, ps[1..]),
      ParamsTokens(fmt, ps[1..]));
    ls := a + b;
  }

  lemma WrittenSkipped(l: Lexeme, ls: seq<Lexeme>, text: string, tokens: seq<Token>)
    requires Written(ls, text, tokens) && (l.Comment? || l == Gap('\n'))
    ensures Written([l] + ls, l.Text() + text, tokens)
  {
    WrittenClosed(l);
    WrittenAppend([l], l.Text(), [], ls, text, tokens);
    assert [] + tokens == tokens;
  }

  /** The scanner finds in the text of a configuration the tokens of its parameters and nothing else. */
  lemma ScanConfig(fmt: Format, ps: seq<Param>)
    requires FormattedParams(fmt, ps) && forall p | p in ps :: Readable(p)
    ensures Scan(ConfigText(fmt, ps)) == Some(ParamsTokens(fmt, ps))
  {
    var body, tokens := ParamsText(fmt, ps), ParamsTokens(fmt, ps);
    var ls := ParamsWritten(fmt, ps);
    WrittenSkipped(Gap('\n'), ls, body, tokens);
    WrittenSkipped(Comment, [Gap('\n')] + ls, "\n" + body, tokens);
    WrittenSkipped(Comment, [Comment] + ([Gap('\n')] + ls), "#\n" + ("\n" + body), tokens);
    var all := [Comment] + ([Comment] + ([Gap('\n')] + ls));
    WrittenSkipped(Comment, all, "#\n" + ("#\n" + ("\n" + body)), tokens);
    ScanLexemes([Comment] + all);
  }
}
