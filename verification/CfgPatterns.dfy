/** The patterns of the scanner's rules, and the longest match. */
module CfgPatterns {
  import opened CfgScanner

  /** The characters of `w` from `i` to `j` are of class `k`. */
  ghost predicate Stretch(k: Class, w: string, i: nat, j: nat)
    requires i <= j <= |w|
  {
    forall m :: i <= m < j ==> k.Has(w[m])
  }

  predicate IsFloatSuffix(c: char) {
    c == 'f' || c == 'F' || c == 'l' || c == 'L'
  }

  /** `[Ee][+-]?{D}+`, from `i` to `j`; the digits start at `d`. */
  ghost predicate IsExponent(w: string, i: nat, d: nat, j: nat)
    requires j <= |w|
  {
    && i < d < j && (w[i] == 'e' || w[i] == 'E')
    && (d == i + 1 || (d == i + 2 && (w[i + 1] == '+' || w[i + 1] == '-')))
    && Stretch(Digit, w, d, j)
  }

  /** `{D}*"."{D}+` up to `f`, with the point at `d`; then an exponent up to `n`, if there is one, and a suffix, if
      there is one. */
  ghost predicate IsFloat(w: string, d: nat, f: nat, n: nat) {
    && d + 1 < f <= n <= |w| && Stretch(Digit, w, 0, d) && w[d] == '.' && Stretch(Digit, w, d + 1, f)
    && (n == f || exists e :: IsExponent(w, f, e, n))
    && (n == |w| || (n + 1 == |w| && IsFloatSuffix(w[n])))
  }

  /** `{D}+{IS}?`, with the suffix from `d` on; `IS` is already repeated. */
  ghost predicate IsDecimal(w: string, d: nat) {
    0 < d <= |w| && Stretch(Digit, w, 0, d) && Stretch(IntSuffix, w, d, |w|)
  }

  /** `0[xX]{H}+{IS}?`, with the suffix from `h` on. */
  ghost predicate IsHex(w: string, h: nat) {
    && 2 < h <= |w| && w[0] == '0' && (w[1] == 'x' || w[1] == 'X')
    && Stretch(Hex, w, 2, h) && Stretch(IntSuffix, w, h, |w|)
  }

  /** What the pattern of each rule matches. */
  ghost predicate Matches(r: Rule, w: string) {
    match r
    case HashRule => w == "#"
    case AssignRule => w == "="
    case TrueRule => w == "true"
    case FalseRule => w == "false"
    case OpenRule => w == "["
    case CloseRule => w == "]"
    case CommaRule => w == ","
    case NameRule => Identifier(w)
    case HexRule => exists h :: IsHex(w, h)
    case DecimalRule => exists d :: IsDecimal(w, d)
    case FloatRule => exists d, f, n :: IsFloat(w, d, f, n)
    case StringRule => |w| >= 2 && w[0] == '"' && w[|w| - 1] == '"' && Body(w[1..|w| - 1])
    case BlankRule => w != [] && Stretch(Blank, w, 0, |w|)
    case OtherRule => |w| == 1 && w != "\n"
  }

  /** The pattern of the rule matches the first `n` characters of the text. */
  ghost predicate MatchesFirst(r: Rule, text: string, n: nat) {
    n <= |text| && Matches(r, text[..n])
  }

  // ---------------------------------------------------------------------------------------------
  // What the rules match of a text
  // ---------------------------------------------------------------------------------------------

  lemma SpanAtLeast(k: Class, text: string, i: nat, n: nat)
    requires i <= n <= |text| && forall j :: i <= j < n ==> k.Has(text[j])
    ensures Span(k, text, i) >= n
  {
    if Span(k, text, i) < n {
      assert false;
    }
  }

  lemma DecimalMatches(text: string)
    requires Length(DecimalRule, text) > 0
    ensures Matches(DecimalRule, text[..Length(DecimalRule, text)])
  {
    assert IsDecimal(text[..Length(DecimalRule, text)], Span(Digit, text, 0));
  }

  lemma DecimalBound(text: string, n: nat, d: nat)
    requires n <= |text| && IsDecimal(text[..n], d)
    ensures n <= Length(DecimalRule, text)
  {
    var w := text[..n];
    SpanAtLeast(Digit, text, 0, d);
    if d < n {
      assert IntSuffix.Has(w[d]);
      SpanFrom(Digit, text, 0, d);
      SpanAtLeast(IntSuffix, text, d, n);
    }
  }

  lemma HexMatches(text: string)
    requires Length(HexRule, text) > 0
    ensures Matches(HexRule, text[..Length(HexRule, text)])
  {
    assert IsHex(text[..Length(HexRule, text)], Span(Hex, text, 2));
  }

  lemma HexBound(text: string, n: nat, h: nat)
    requires n <= |text| && IsHex(text[..n], h)
    ensures n <= Length(HexRule, text)
  {
    var w := text[..n];
    assert w[0] == text[0] && w[1] == text[1];
    SpanAtLeast(Hex, text, 2, h);
    if h < n {
      assert IntSuffix.Has(w[h]);
      SpanFrom(Hex, text, 2, h);
      SpanAtLeast(IntSuffix, text, h, n);
    }
  }

  lemma FloatMatches(text: string)
    requires Length(FloatRule, text) > 0
    ensures Matches(FloatRule, text[..Length(FloatRule, text)])
  {
    var d := Span(Digit, text, 0);
    var f := Span(Digit, text, d + 1);
    var n := Exponent(text, f);
    var w := text[..Length(FloatRule, text)];
    if n > f {
      ExponentMatches(text, f, w);
    }
    assert IsFloat(w, d, f, n);
  }

  lemma ExponentMatches(text: string, i: nat, w: string)
    requires i <= |text| && Exponent(text, i) > i && Exponent(text, i) <= |w| <= |text| && w == text[..|w|]
    ensures exists d :: IsExponent(w, i, d, Exponent(text, i))
  {
    var d := if i + 1 < |text| && (text[i + 1] == '+' || text[i + 1] == '-') then i + 2 else i + 1;
    assert IsExponent(w, i, d, Exponent(text, i));
  }

  lemma ExponentBound(text: string, i: nat, d: nat, j: nat)
    requires j <= |text| && IsExponent(text, i, d, j)
    ensures Exponent(text, i) >= j
    ensures j < |text| && !Digit.Has(text[j]) ==> Exponent(text, i) == j
  {
    assert Digit.Has(text[d]);
    SpanAtLeast(Digit, text, d, j);
    if j < |text| && !Digit.Has(text[j]) {
      SpanFrom(Digit, text, d, j);
    }
  }

  /** Where the digits after the point end, and the exponent, in a text that starts with a float. */
  lemma FloatParts(text: string, m: nat, d: nat, f: nat, n: nat)
    requires m <= |text| && IsFloat(text[..m], d, f, n)
    ensures Span(Digit, text, 0) == d && Span(Digit, text, d + 1) >= f
    ensures n > f || n < m ==> Span(Digit, text, d + 1) == f
    ensures n > f ==> Exponent(text, f) >= n && (n < m ==> Exponent(text, f) == n)
  {
    var w := text[..m];
    assert w[d] == text[d] && (n < m ==> w[n] == text[n]);
    SpanFrom(Digit, text, 0, d);
    SpanAtLeast(Digit, text, d + 1, f);
    if n > f {
      var e :| IsExponent(w, f, e, n);
      assert w[f] == text[f] && IsExponent(text, f, e, n);
      SpanFrom(Digit, text, d + 1, f);
      ExponentBound(text, f, e, n);
    } else if n < m {
      SpanFrom(Digit, text, d + 1, f);
    }
  }

  lemma FloatBound(text: string, m: nat, d: nat, f: nat, n: nat)
    requires m <= |text| && IsFloat(text[..m], d, f, n)
    ensures m <= Length(FloatRule, text)
  {
    FloatParts(text, m, d, f, n);
    assert text[..m][d] == text[d] && (n < m ==> text[..m][n] == text[n]);
  }

  lemma StringMatches(text: string)
    requires Length(StringRule, text) > 0
    ensures Matches(StringRule, text[..Length(StringRule, text)])
  {
    var n := BodyEnd(text, 1).value;
    BodyOf(text, 1);
    assert text[..n + 1][1..n] == text[1..n];
  }

  lemma StringBound(text: string, n: nat)
    requires 2 <= n <= |text| && Matches(StringRule, text[..n])
    ensures n <= Length(StringRule, text)
  {
    var w := text[..n];
    var body := w[1..n - 1];
    assert text == "\"" + body + "\"" + text[n..] by {
      assert w == "\"" + body + "\"" && text == w + text[n..];
    }
    BodyEndIs("\"", body, text[n..]);
  }

  /** As much of the text as a rule can match is matched by its pattern. */
  lemma LengthMatches(r: Rule, text: string)
    requires Length(r, text) > 0
    ensures MatchesFirst(r, text, Length(r, text))
  {
    match r
    case HexRule => HexMatches(text);
    case DecimalRule => DecimalMatches(text);
    case FloatRule => FloatMatches(text);
    case StringRule => StringMatches(text);
    case _ =>
  }

  /** Nothing longer is. */
  lemma LengthBounds(r: Rule, text: string, n: nat)
    requires MatchesFirst(r, text, n)
    ensures 0 < n <= Length(r, text)
  {
    var w := text[..n];
    match r
    case HexRule =>
      var h :| IsHex(w, h);
      HexBound(text, n, h);
    case DecimalRule =>
      var d :| IsDecimal(w, d);
      DecimalBound(text, n, d);
    case FloatRule =>
      var d, f, e :| IsFloat(w, d, f, e);
      FloatBound(text, n, d, f, e);
    case StringRule => StringBound(text, n);
    case NameRule =>
      assert w[0] == text[0];
      SpanAtLeast(LetterOrDigit, text, 0, n);
    case BlankRule => SpanAtLeast(Blank, text, 0, n);
    case _ => assert w[0] == text[0];
  }

  /** The rule that the scanner chooses matches as much of the text as any rule can, and among the rules that match as
      much it is the one that is given first. */
  lemma LongestMatch(text: string)
    requires text != []
    ensures var r, n := Best(text), Length(Best(text), text);
            && n > 0 && MatchesFirst(r, text, n)
            && forall q: Rule, m: nat :: MatchesFirst(q, text, m) ==> m < n || (m == n && r.Rank() <= q.Rank())
  {
    var r, n := Best(text), Length(Best(text), text);
    BestProgress(text);
    BestBeats(text);
    LengthMatches(r, text);
    forall q: Rule, m: nat | MatchesFirst(q, text, m) ensures m < n || (m == n && r.Rank() <= q.Rank()) {
      LengthBounds(q, text, m);
      assert Beats(text, r, q);
    }
  }
}
