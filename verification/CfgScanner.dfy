/** The lexical scanner of configuration files: the token rules, and the choice of the longest match. */
module CfgScanner {
  import opened Options

  /** The 32-bit integers. */
  type Int32 = x: int | -0x8000_0000 <= x < 0x8000_0000

  datatype Token =
    | ASSIGNMENT
    | LIST_OPEN
    | LIST_CLOSE
    | COMMA
    | BOOLEAN(ival: Int32)
    | PARAMETER(name: string)
    | DECIMAL(value: Int32)
    | FLOAT(text: string)
    | STRING_LITERAL(body: string)

  // ---------------------------------------------------------------------------------------------
  // Character classes
  // ---------------------------------------------------------------------------------------------

  datatype Class = Digit | Letter | LetterOrDigit | Hex | IntSuffix | Blank {
    predicate Has(c: char) {
      match this
      case Digit => '0' <= c <= '9'
      case Letter => 'a' <= c <= 'z' || 'A' <= c <= 'Z' || c == '_'
      case LetterOrDigit => 'a' <= c <= 'z' || 'A' <= c <= 'Z' || c == '_' || '0' <= c <= '9'
      case Hex => 'a' <= c <= 'f' || 'A' <= c <= 'F' || '0' <= c <= '9'
      case IntSuffix => c == 'u' || c == 'U' || c == 'l' || c == 'L'
      case Blank => c == ' ' || c == '\t' || c == '\n'
    }
  }

  /** Where the characters of a class that the text has from `i` on come to an end. */
  function Span(k: Class, text: string, i: nat): (n: nat)
    requires i <= |text|
    ensures i <= n <= |text|
    ensures forall j :: i <= j < n ==> k.Has(text[j])
    ensures n < |text| ==> !k.Has(text[n])
    decreases |text| - i
  {
    if i == |text| || !k.Has(text[i]) then i else Span(k, text, i + 1)
  }

  // ---------------------------------------------------------------------------------------------
  // Rules
  // ---------------------------------------------------------------------------------------------

  /** The rules of the scanner, in the order in which they are given. */
  datatype Rule =
    | HashRule | AssignRule | TrueRule | FalseRule | OpenRule | CloseRule | CommaRule
    | NameRule | HexRule | DecimalRule | FloatRule | StringRule | BlankRule | OtherRule
  {
    function Rank(): nat {
      match this
      case HashRule => 0 case AssignRule => 1 case TrueRule => 2 case FalseRule => 3 case OpenRule => 4
      case CloseRule => 5 case CommaRule => 6 case NameRule => 7 case HexRule => 8 case DecimalRule => 9
      case FloatRule => 10 case StringRule => 11 case BlankRule => 12 case OtherRule => 13
    }
  }

  /** Where an exponent that may come at `i` ends. */
  function Exponent(text: string, i: nat): (n: nat)
    requires i <= |text|
    ensures i <= n <= |text|
  {
    if i == |text| || !(text[i] == 'e' || text[i] == 'E') then i
    else
      var d := if i + 1 < |text| && (text[i + 1] == '+' || text[i + 1] == '-') then i + 2 else i + 1;
      var n := Span(Digit, text, d);
      if n == d then i else n
  }

  function FloatLength(text: string): (n: nat)
    ensures n <= |text|
  {
    var d := Span(Digit, text, 0);
    if d == |text| || text[d] != '.' then 0
    else
      var f := Span(Digit, text, d + 1);
      if f == d + 1 then 0
      else
        var n := Exponent(text, f);
        if n < |text| && (text[n] == 'f' || text[n] == 'F' || text[n] == 'l' || text[n] == 'L') then n + 1 else n
  }

  /** Where the body of a string literal that starts at `i` ends: at a quote.  A backslash takes the next
      character with it, unless that is the end of the line. */
  function BodyEnd(text: string, i: nat): (n: Option<nat>)
    requires i <= |text|
    ensures n.Some? ==> i <= n.value < |text| && text[n.value] == '"'
    decreases |text| - i
  {
    if i == |text| then None
    else if text[i] == '"' then Some(i)
    else if text[i] != '\\' then BodyEnd(text, i + 1)
    else if i + 1 == |text| || text[i + 1] == '\n' then None
    else BodyEnd(text, i + 2)
  }

  /** How much of the text a rule can match at most; 0 if it does not match. */
  function Length(r: Rule, text: string): (n: nat)
    ensures n <= |text|
  {
    if text == [] then 0
    else
      match r
      case HashRule => if text[0] == '#' then 1 else 0
      case AssignRule => if text[0] == '=' then 1 else 0
      case TrueRule => if "true" <= text then 4 else 0
      case FalseRule => if "false" <= text then 5 else 0
      case OpenRule => if text[0] == '[' then 1 else 0
      case CloseRule => if text[0] == ']' then 1 else 0
      case CommaRule => if text[0] == ',' then 1 else 0
      case NameRule => if Letter.Has(text[0]) then Span(LetterOrDigit, text, 0) else 0
      case HexRule =>
        if |text| > 2 && text[0] == '0' && (text[1] == 'x' || text[1] == 'X') then
          var h := Span(Hex, text, 2);
          if h == 2 then 0 else Span(IntSuffix, text, h)
        else 0
      case DecimalRule =>
        var d := Span(Digit, text, 0);
        if d == 0 then 0 else Span(IntSuffix, text, d)
      case FloatRule => FloatLength(text)
      case StringRule =>
        var n := if text[0] == '"' then BodyEnd(text, 1) else None;
        if n.None? then 0 else n.value + 1
      case BlankRule => Span(Blank, text, 0)
      case OtherRule => if text[0] == '\n' then 0 else 1
  }

  function RuleAt(k: nat): (r: Rule)
    requires k < 14
    ensures r.Rank() == k
  {
    match k
    case 0 => HashRule case 1 => AssignRule case 2 => TrueRule case 3 => FalseRule case 4 => OpenRule
    case 5 => CloseRule case 6 => CommaRule case 7 => NameRule case 8 => HexRule case 9 => DecimalRule
    case 10 => FloatRule case 11 => StringRule case 12 => BlankRule case _ => OtherRule
  }

  /** Rule `r` matches more than `q`, or as much and is given no later. */
  predicate Beats(text: string, r: Rule, q: Rule) {
    Length(r, text) > Length(q, text) || (Length(r, text) == Length(q, text) && r.Rank() <= q.Rank())
  }

  function BestOf(text: string, k: nat): Rule
    requires k < 14
  {
    if k == 0 then HashRule
    else
      var r := BestOf(text, k - 1);
      if Length(RuleAt(k), text) > Length(r, text) then RuleAt(k) else r
  }

  /** The rule that matches most of the text, and among those the one that is given first. */
  function Best(text: string): Rule {
    BestOf(text, 13)
  }

  lemma {:induction false} BestOfBeats(text: string, k: nat)
    requires k < 14
    ensures BestOf(text, k).Rank() <= k && forall q: Rule :: q.Rank() <= k ==> Beats(text, BestOf(text, k), q)
  {
    if k == 0 {
    } else {
      BestOfBeats(text, k - 1);
      forall q: Rule | q.Rank() <= k ensures Beats(text, BestOf(text, k), q) {
        if q.Rank() == k {
          assert q == RuleAt(k);
        } else {
          assert Beats(text, BestOf(text, k - 1), q);
        }
      }
    }
  }

  lemma BestBeats(text: string)
    ensures forall q: Rule :: Beats(text, Best(text), q)
  {
    BestOfBeats(text, 13);
    assert forall q: Rule :: q.Rank() <= 13;
  }

  lemma BestIs(text: string, r: Rule)
    requires forall q: Rule :: Beats(text, r, q)
    ensures Best(text) == r
  {
    BestBeats(text);
    assert Beats(text, r, Best(text)) && Beats(text, Best(text), r);
    assert RuleAt(r.Rank()) == r && RuleAt(Best(text).Rank()) == Best(text);
  }

  // ---------------------------------------------------------------------------------------------
  // Actions
  // ---------------------------------------------------------------------------------------------

  function DigitValue(c: char): nat {
    if '0' <= c <= '9' then (c - '0') as int
    else if 'a' <= c <= 'f' then (c - 'a') as int + 10
    else if 'A' <= c <= 'F' then (c - 'A') as int + 10
    else 0
  }

  /** The number that digits stand for. */
  function Number(base: nat, digits: string): nat {
    if digits == [] then 0
    else Number(base, digits[..|digits| - 1]) * base + DigitValue(digits[|digits| - 1])
  }

  /** What is left of a number that is stored in an `int`. */
  function ToInt32(n: nat): Int32 {
    var m := n % 0x1_0000_0000;
    if m < 0x8000_0000 then m else m - 0x1_0000_0000
  }

  function AtMost(n: nat, max: nat): nat {
    if n < max then n else max
  }

  /** atoi: the digits in front, saturating at the largest `long`. */
  function Atoi(text: string): Int32 {
    ToInt32(AtMost(Number(10, text[..Span(Digit, text, 0)]), 0x7FFF_FFFF_FFFF_FFFF))
  }

  /** strtoul of a hexadecimal number, saturating at the largest `unsigned long`. */
  function Strtoul(text: string): Int32 {
    if |text| < 2 then 0
    else ToInt32(AtMost(Number(16, text[2..Span(Hex, text, 2)]), 0xFFFF_FFFF_FFFF_FFFF))
  }

  /** The token that a rule makes of the text it has matched, if it makes one. */
  function Action(r: Rule, yytext: string): Option<Token> {
    match r
    case AssignRule => Some(ASSIGNMENT)
    case TrueRule => Some(BOOLEAN(1))
    case FalseRule => Some(BOOLEAN(0))
    case OpenRule => Some(LIST_OPEN)
    case CloseRule => Some(LIST_CLOSE)
    case CommaRule => Some(COMMA)
    case NameRule => Some(PARAMETER(yytext))
    case HexRule => Some(DECIMAL(Strtoul(yytext)))
    case DecimalRule => Some(DECIMAL(Atoi(yytext)))
    case FloatRule => Some(FLOAT(yytext))
    case StringRule => if |yytext| < 2 then None else Some(STRING_LITERAL(yytext[1..|yytext| - 1]))
    case HashRule => None
    case BlankRule => None
    case OtherRule => None
  }

  /** The rest of the text after the end of the line. */
  function AfterLine(text: string): (r: Option<string>)
    ensures r.Some? ==> |r.value| < |text|
  {
    if text == [] then None else if text[0] == '\n' then Some(text[1..]) else AfterLine(text[1..])
  }

  lemma BestProgress(text: string)
    requires text != []
    ensures Length(Best(text), text) > 0
  {
    BestBeats(text);
    assert Beats(text, Best(text), OtherRule) && Beats(text, Best(text), BlankRule);
  }

  function Prepend(t: Option<Token>, r: Option<seq<Token>>): Option<seq<Token>> {
    if t.None? || r.None? then r else Some([t.value] + r.value)
  }

  /** The tokens of a text.  There is no result if a comment does not end: then the scanner never ends. */
  function Scan(text: string): Option<seq<Token>>
    decreases |text|
  {
    if text == [] then Some([])
    else
      BestProgress(text);
      var r, n := Best(text), Length(Best(text), text);
      if r.HashRule? then
        var rest := AfterLine(text[1..]);
        if rest.None? then None else Scan(rest.value)
      else Prepend(Action(r, text[..n]), Scan(text[n..]))
  }

  // ---------------------------------------------------------------------------------------------
  // What the scanner makes of a word, and of what follows it
  // ---------------------------------------------------------------------------------------------

  /** All characters of `w` are of class `k`. */
  ghost predicate AllOf(k: Class, w: string) {
    forall i :: 0 <= i < |w| ==> k.Has(w[i])
  }

  /** No character of class `k` comes first. */
  ghost predicate NoneFirst(k: Class, rest: string) {
    rest == [] || !k.Has(rest[0])
  }

  lemma SpanIs(k: Class, w: string, rest: string)
    requires AllOf(k, w) && NoneFirst(k, rest)
    ensures Span(k, w + rest, 0) == |w|
  {
    SpanFrom(k, w + rest, 0, |w|);
  }

  /** Where a stretch of characters of a class ends. */
  lemma SpanFrom(k: Class, text: string, i: nat, n: nat)
    requires i <= n <= |text| && (forall j :: i <= j < n ==> k.Has(text[j])) && (n < |text| ==> !k.Has(text[n]))
    ensures Span(k, text, i) == n
  {
    var m := Span(k, text, i);
    assert forall j :: i <= j < m || i <= j < n ==> k.Has(text[j]);
  }

  /** If rule `r` matches `w` at the start of the text and beats the others, the scanner goes on after `w`. */
  lemma ScanWord(w: string, rest: string, r: Rule)
    requires w != [] && !r.HashRule? && Length(r, w + rest) == |w|
    requires forall q: Rule :: Beats(w + rest, r, q)
    ensures Scan(w + rest) == Prepend(Action(r, w), Scan(rest))
  {
    BestIs(w + rest, r);
    assert (w + rest)[..|w|] == w && (w + rest)[|w|..] == rest;
  }

  /** Which rules the first character leaves in the game. */
  lemma FirstCharacter(text: string)
    requires text != []
    ensures var c := text[0];
            && Length(HashRule, text) == (if c == '#' then 1 else 0)
            && Length(AssignRule, text) == (if c == '=' then 1 else 0)
            && Length(OpenRule, text) == (if c == '[' then 1 else 0)
            && Length(CloseRule, text) == (if c == ']' then 1 else 0)
            && Length(CommaRule, text) == (if c == ',' then 1 else 0)
            && Length(OtherRule, text) == (if c == '\n' then 0 else 1)
            && (!Letter.Has(c) ==> Length(TrueRule, text) == Length(FalseRule, text) == Length(NameRule, text) == 0)
            && (!Digit.Has(c) ==> Length(HexRule, text) == Length(DecimalRule, text) == 0)
            && (!Digit.Has(c) && c != '.' ==> Length(FloatRule, text) == 0)
            && (c != '"' ==> Length(StringRule, text) == 0)
            && (!Blank.Has(c) ==> Length(BlankRule, text) == 0)
  {
    assert !Digit.Has(text[0]) ==> Span(Digit, text, 0) == 0;
    assert !Blank.Has(text[0]) ==> Span(Blank, text, 0) == 0;
  }

  predicate Identifier(w: string) {
    w != [] && Letter.Has(w[0]) && forall i :: 0 <= i < |w| ==> LetterOrDigit.Has(w[i])
  }

  lemma ScanName(w: string, rest: string)
    requires Identifier(w) && NoneFirst(LetterOrDigit, rest) && w != "true" && w != "false"
    ensures Scan(w + rest) == Prepend(Some(PARAMETER(w)), Scan(rest))
  {
    var text := w + rest;
    SpanIs(LetterOrDigit, w, rest);
    assert text[0] == w[0];
    FirstCharacter(text);
    KeywordLength("true", w, rest);
    KeywordLength("false", w, rest);
    ScanWord(w, rest, NameRule);
  }

  /** A keyword at the start of the text is no longer than the word there, and is that word if it is as long. */
  lemma KeywordLength(keyword: string, w: string, rest: string)
    requires AllOf(LetterOrDigit, keyword) && NoneFirst(LetterOrDigit, rest)
    ensures keyword <= w + rest ==> |keyword| <= |w| && (|keyword| == |w| ==> keyword == w)
  {
    var text := w + rest;
    if keyword <= text {
      assert forall i :: 0 <= i < |keyword| ==> text[i] == keyword[i];
      assert rest != [] ==> text[|w|] == rest[0];
      if |keyword| == |w| {
        assert text[..|w|] == w;
      }
    }
  }

  lemma ScanKeyword(w: string, rest: string)
    requires (w == "true" || w == "false") && NoneFirst(LetterOrDigit, rest)
    ensures Scan(w + rest) == Prepend(Some(BOOLEAN(if w == "true" then 1 else 0)), Scan(rest))
  {
    var text, r := w + rest, if w == "true" then TrueRule else FalseRule;
    SpanIs(LetterOrDigit, w, rest);
    assert text[0] == w[0];
    FirstCharacter(text);
    KeywordLength("true", w, rest);
    KeywordLength("false", w, rest);
    assert text[..|w|] == w;
    ScanWord(w, rest, r);
  }

  /** Digits, followed by a blank. */
  lemma ScanDigits(w: string, rest: string)
    requires w != [] && AllOf(Digit, w) && rest != [] && Blank.Has(rest[0])
    ensures Scan(w + rest) == Prepend(Some(DECIMAL(Atoi(w))), Scan(rest))
  {
    var text := w + rest;
    SpanIs(Digit, w, rest);
    assert text[0] == w[0] && text[1] == (if |w| > 1 then w[1] else rest[0]) && text[|w|] == rest[0];
    SpanFrom(IntSuffix, text, |w|, |w|);
    FirstCharacter(text);
    ScanWord(w, rest, DecimalRule);
  }

  /** What the printing of a floating-point number has to look like: digits around a point. */
  predicate FloatText(w: string) {
    var d := Span(Digit, w, 0);
    d + 1 < |w| && w[d] == '.' && forall i :: d < i < |w| ==> Digit.Has(w[i])
  }

  /** The digits in front of the point and after it, in a text that starts with them. */
  lemma FloatSpans(w: string, rest: string)
    requires FloatText(w) && rest != [] && Blank.Has(rest[0])
    ensures var text, d := w + rest, Span(Digit, w, 0);
            && text[d] == '.' && text[|w|] == rest[0]
            && Span(Digit, text, 0) == d && Span(Digit, text, d + 1) == |w| && Span(IntSuffix, text, d) == d
  {
    var text, d := w + rest, Span(Digit, w, 0);
    assert forall i :: 0 <= i < |w| ==> text[i] == w[i];
    assert text[|w|] == rest[0];
    SpanFrom(Digit, text, 0, d);
    SpanFrom(Digit, text, d + 1, |w|);
    SpanFrom(IntSuffix, text, d, d);
  }

  lemma FloatLengths(w: string, rest: string)
    requires FloatText(w) && rest != [] && Blank.Has(rest[0])
    ensures Length(FloatRule, w + rest) == |w| && Length(DecimalRule, w + rest) < |w|
  {
    FloatSpans(w, rest);
  }

  lemma FloatFirst(w: string, rest: string)
    requires FloatText(w) && rest != [] && Blank.Has(rest[0])
    ensures var text := w + rest;
            Length(HexRule, text) == 0 && !Letter.Has(text[0]) && !Blank.Has(text[0]) && text[0] !in "\"#=[],"
  {
    var text, d := w + rest, Span(Digit, w, 0);
    assert text[0] == w[0] && text[1] == w[1];
    assert if d == 0 then w[0] == '.' else Digit.Has(w[0]) && (w[1] == '.' || Digit.Has(w[1]));
  }

  lemma ScanFloat(w: string, rest: string)
    requires FloatText(w) && rest != [] && Blank.Has(rest[0])
    ensures Scan(w + rest) == Prepend(Some(FLOAT(w)), Scan(rest))
  {
    FloatLengths(w, rest);
    FloatFirst(w, rest);
    FirstCharacter(w + rest);
    ScanWord(w, rest, FloatRule);
  }

  /** The bodies of string literals: no quote and no lone backslash. */
  predicate Body(b: string) {
    b == [] ||
    (if b[0] == '\\' then |b| > 1 && b[1] != '\n' && Body(b[2..]) else b[0] != '"' && Body(b[1..]))
  }

  lemma {:induction false} BodyEndIs(front: string, b: string, rest: string)
    requires Body(b)
    ensures BodyEnd(front + b + "\"" + rest, |front|) == Some(|front| + |b|)
    decreases |b|
  {
    var text := front + b + "\"" + rest;
    if b == [] {
    } else {
      var step := if b[0] == '\\' then 2 else 1;
      assert text[|front|] == b[0] && (step == 2 ==> text[|front| + 1] == b[1]);
      assert b == b[..step] + b[step..];
      assert (front + b[..step]) + b[step..] + "\"" + rest == text;
      BodyEndIs(front + b[..step], b[step..], rest);
    }
  }

  lemma {:induction false} BodyOf(text: string, i: nat)
    requires i <= |text| && BodyEnd(text, i).Some?
    ensures Body(text[i..BodyEnd(text, i).value])
    decreases |text| - i
  {
    var n := BodyEnd(text, i).value;
    if text[i] == '"' {
    } else {
      var step := if text[i] == '\\' then 2 else 1;
      BodyOf(text, i + step);
      assert text[i..n][step..] == text[i + step..n];
    }
  }

  lemma ScanString(b: string, rest: string)
    requires Body(b)
    ensures Scan("\"" + b + "\"" + rest) == Prepend(Some(STRING_LITERAL(b)), Scan(rest))
  {
    var w := "\"" + b + "\"";
    var text := w + rest;
    BodyEndIs("\"", b, rest);
    assert text[0] == '"';
    FirstCharacter(text);
    ScanWord(w, rest, StringRule);
    assert w[1..|w| - 1] == b;
  }

  /** Punctuation. */
  lemma ScanMark(c: char, rest: string)
    requires c in "=[],"
    ensures Scan([c] + rest)
            == Prepend(Some(if c == '=' then ASSIGNMENT else if c == '[' then LIST_OPEN
                            else if c == ']' then LIST_CLOSE else COMMA),
                       Scan(rest))
  {
    var text := [c] + rest;
    var r := if c == '=' then AssignRule else if c == '[' then OpenRule else if c == ']' then CloseRule else CommaRule;
    assert text[0] == c;
    FirstCharacter(text);
    ScanWord([c], rest, r);
  }

  /** A minus sign is skipped, like every character that no other rule knows. */
  lemma ScanMinus(rest: string)
    ensures Scan("-" + rest) == Scan(rest)
  {
    var text := "-" + rest;
    FirstCharacter(text);
    ScanWord("-", rest, OtherRule);
  }

  lemma ScanBlanks(text: string)
    requires text != [] && Blank.Has(text[0])
    ensures Scan(text) == Scan(text[Span(Blank, text, 0)..])
  {
    FirstCharacter(text);
    forall q: Rule ensures Beats(text, BlankRule, q) {
    }
    BestIs(text, BlankRule);
  }

  /** Blanks are skipped, one by one or all at once. */
  lemma ScanBlank(c: char, rest: string)
    requires Blank.Has(c)
    ensures Scan([c] + rest) == Scan(rest)
  {
    var text, n := [c] + rest, Span(Blank, rest, 0);
    assert text[0] == c && forall i :: 0 <= i < |rest| ==> text[i + 1] == rest[i];
    SpanFrom(Blank, text, 0, 1 + n);
    ScanBlanks(text);
    assert text[1 + n..] == rest[n..];
    if n > 0 {
      ScanBlanks(rest);
    } else {
      assert rest[0..] == rest;
    }
  }

  lemma {:induction false} AfterLineIs(w: string, rest: string)
    requires '\n' !in w
    ensures AfterLine(w + "\n" + rest) == Some(rest)
  {
    var text := w + "\n" + rest;
    if w == [] {
      assert text[1..] == rest;
    } else {
      assert text[0] == w[0] && text[1..] == w[1..] + "\n" + rest;
      AfterLineIs(w[1..], rest);
    }
  }

  lemma ScanEmptyComment(rest: string)
    ensures Scan("#\n" + rest) == Scan(rest)
  {
    ScanComment("", rest);
    assert "#" + "" + "\n" + rest == "#\n" + rest;
  }

  /** A comment is skipped with its line. */
  lemma ScanComment(w: string, rest: string)
    requires '\n' !in w
    ensures Scan("#" + w + "\n" + rest) == Scan(rest)
  {
    var text := "#" + w + "\n" + rest;
    assert text[1..] == w + "\n" + rest;
    FirstCharacter(text);
    BestIs(text, HashRule);
    AfterLineIs(w, rest);
  }
}
