/** The numbers that the scanner reads, in either base and with any suffix. */
module CfgNumbers {
  import opened Options
  import opened CfgScanner
  import opened CfgText
  import opened CfgPatterns
  import opened CfgLexemes

  /** The digits of a number in base 16, with small or capital letters. */
  function HexDigit(d: nat, capital: bool): char
    requires d < 16
  {
    if d < 10 then '0' + d as char else (if capital then 'A' else 'a') + (d - 10) as char
  }

  function Hexadecimal(n: nat, capital: bool): string {
    if n < 16 then [HexDigit(n, capital)] else Hexadecimal(n / 16, capital) + [HexDigit(n % 16, capital)]
  }

  lemma HexDigitReads(d: nat, capital: bool)
    requires d < 16
    ensures Class.Hex.Has(HexDigit(d, capital)) && DigitValue(HexDigit(d, capital)) == d
  {
  }

  lemma NumberAppend(base: nat, w: string, c: char)
    ensures Number(base, w + [c]) == Number(base, w) * base + DigitValue(c)
  {
    assert (w + [c])[..|w|] == w;
  }

  lemma {:induction false} HexadecimalReads(n: nat, capital: bool)
    ensures var w := Hexadecimal(n, capital); w != [] && AllOf(Class.Hex, w) && Number(16, w) == n
  {
    var c := HexDigit(n % 16, capital);
    HexDigitReads(n % 16, capital);
    if n < 16 {
      NumberAppend(16, [], c);
      assert [] + [c] == [c];
    } else {
      HexadecimalReads(n / 16, capital);
      NumberAppend(16, Hexadecimal(n / 16, capital), c);
    }
  }

  /** What is stored differs from the number by a multiple of 2 to the 32, and so not at all if it fits. */
  lemma StoredModulo(n: nat)
    ensures (n - ToInt32(n)) % 0x1_0000_0000 == 0 && (n < 0x8000_0000 ==> ToInt32(n) == n)
  {
  }

  /** Where the digits and the suffix of a number end. */
  lemma NumberSpans(k: Class, head: string, w: string, suffix: string, rest: string)
    requires k == Digit || k == Class.Hex
    requires AllOf(k, w) && AllOf(IntSuffix, suffix) && NoneFirst(IntSuffix, rest)
    requires suffix == [] ==> NoneFirst(k, rest)
    ensures var text, h := head + w + suffix + rest, |head|;
            && Span(k, text, h) == h + |w| && Span(IntSuffix, text, h + |w|) == h + |w| + |suffix|
            && text[h + |w|..] == suffix + rest && text[..h + |w| + |suffix|] == head + w + suffix
  {
    var text, h, d := head + w + suffix + rest, |head|, |head| + |w|;
    assert forall i :: h <= i < d ==> text[i] == w[i - h];
    assert forall i :: d <= i < d + |suffix| ==> text[i] == suffix[i - d];
    assert d + |suffix| < |text| ==> text[d + |suffix|] == rest[0];
    SpanFrom(k, text, h, d);
    SpanFrom(IntSuffix, text, d, d + |suffix|);
  }

  /** A hexadecimal number in either spelling, whatever its suffix, becomes that number, cut to an int. */
  lemma ScanHex(n: nat, capital: bool, x: char, suffix: string, rest: string)
    requires (x == 'x' || x == 'X') && AllOf(IntSuffix, suffix) && NoneFirst(IntSuffix, rest)
    requires suffix == [] ==> NoneFirst(Class.Hex, rest)
    ensures Scan("0" + [x] + Hexadecimal(n, capital) + suffix + rest)
         == Prepend(Some(DECIMAL(ToInt32(if n < 0x1_0000_0000_0000_0000 then n else 0xFFFF_FFFF_FFFF_FFFF))),
                    Scan(rest))
  {
    var w := Hexadecimal(n, capital);
    var all := "0" + [x] + w + suffix;
    var text := all + rest;
    HexadecimalReads(n, capital);
    NumberSpans(Class.Hex, "0" + [x], w, suffix, rest);
    assert text[0] == '0' && text[1] == x;
    HexRules(text);
    ScanWord(all, rest, HexRule);
    HexValue(x, w, suffix);
  }

  /** No other rule matches as much. */
  lemma HexRules(text: string)
    requires |text| > 2 && text[0] == '0' && (text[1] == 'x' || text[1] == 'X') && Length(HexRule, text) > 2
    ensures forall q: Rule :: Beats(text, HexRule, q)
  {
    FirstCharacter(text);
    SpanFrom(Digit, text, 0, 1);
    SpanFrom(IntSuffix, text, 1, 1);
  }

  lemma HexValue(x: char, w: string, suffix: string)
    requires AllOf(Class.Hex, w) && AllOf(IntSuffix, suffix)
    ensures Strtoul("0" + [x] + w + suffix) == ToInt32(AtMost(Number(16, w), 0xFFFF_FFFF_FFFF_FFFF))
  {
    var text := "0" + [x] + w + suffix;
    NumberSpans(Class.Hex, "0" + [x], w, suffix, "");
    assert text + "" == text && text[2..2 + |w|] == w;
  }

  /** A decimal number becomes that number, cut to an int, whatever its suffix. */
  lemma ScanDecimal(n: nat, suffix: string, rest: string)
    requires AllOf(IntSuffix, suffix) && NoneFirst(IntSuffix, rest)
    requires suffix == [] ==> NoneFirst(Digit, rest) && (rest == [] || rest[0] !in ".xX")
    ensures Scan(PrintNat(n) + suffix + rest)
         == Prepend(Some(DECIMAL(ToInt32(if n < 0x8000_0000_0000_0000 then n else 0x7FFF_FFFF_FFFF_FFFF))), Scan(rest))
  {
    PrintNatReads(n);
    ScanDecimalWord(PrintNat(n), suffix, rest);
    DecimalValue(PrintNat(n), suffix);
  }

  lemma ScanDecimalWord(w: string, suffix: string, rest: string)
    requires w != [] && AllOf(Digit, w) && AllOf(IntSuffix, suffix) && NoneFirst(IntSuffix, rest)
    requires suffix == [] ==> NoneFirst(Digit, rest) && (rest == [] || rest[0] !in ".xX")
    ensures Scan(w + suffix + rest) == Prepend(Some(DECIMAL(Atoi(w + suffix))), Scan(rest))
  {
    var all := w + suffix;
    var text := all + rest;
    assert Span(Digit, text, 0) == |w| && Span(IntSuffix, text, |w|) == |all| by {
      NumberSpans(Digit, "", w, suffix, rest);
      assert "" + w == w;
    }
    assert text[0] == w[0] && (|w| < |text| ==> text[|w|] == (suffix + rest)[0]) by {
      assert text == w + (suffix + rest);
    }
    assert forall q: Rule :: Beats(text, DecimalRule, q) by {
      DecimalRules(text, |w|);
    }
    ScanWord(all, rest, DecimalRule);
  }

  lemma DecimalValue(w: string, suffix: string)
    requires AllOf(Digit, w) && AllOf(IntSuffix, suffix)
    ensures Atoi(w + suffix) == ToInt32(AtMost(Number(10, w), 0x7FFF_FFFF_FFFF_FFFF))
  {
    var text := w + suffix;
    NumberSpans(Digit, "", w, suffix, "");
    assert "" + w + suffix + "" == text && text[..|w|] == w;
  }

  /** No other rule matches as much. */
  lemma DecimalRules(text: string, d: nat)
    requires 0 < d <= |text| && Digit.Has(text[0]) && Span(Digit, text, 0) == d
    requires d < |text| ==> text[d] !in ".xX"
    ensures forall q: Rule :: Beats(text, DecimalRule, q)
  {
    FirstCharacter(text);
  }

  /** No blank is part of a float. */
  lemma FloatHasNoBlank(w: string, d: nat, f: nat, n: nat, i: nat)
    requires IsFloat(w, d, f, n) && i < |w|
    ensures !Blank.Has(w[i])
  {
    if f <= i < n {
      var e: nat :| IsExponent(w, f, e, n);
      assert i == f || (i == f + 1 && i < e) || Digit.Has(w[i]);
    }
  }

  /** A float of any form before a blank, with an exponent and a suffix or without, becomes one token of that text. */
  lemma ScanFloatWord(w: string, d: nat, f: nat, n: nat, rest: string)
    requires IsFloat(w, d, f, n) && rest != [] && Blank.Has(rest[0])
    ensures Scan(w + rest) == Prepend(Some(FLOAT(w)), Scan(rest))
  {
    var text := w + rest;
    assert text[..|w|] == w && text[|w|] == rest[0];
    FloatBound(text, |w|, d, f, n);
    FloatParts(text, |w|, d, f, n);
    assert Length(FloatRule, text) == |w| by {
      FloatEnds(text, |w|);
    }
    assert text[0] == w[0] && text[d] == '.';
    FloatRules(text, d);
    ScanWord(w, rest, FloatRule);
  }

  lemma FloatEnds(text: string, m: nat)
    requires m < |text| && Blank.Has(text[m]) && Length(FloatRule, text) >= m > 0
    ensures Length(FloatRule, text) == m
  {
    var n := Length(FloatRule, text);
    FloatMatches(text);
    var d, f, e :| IsFloat(text[..n], d, f, e);
    if n > m {
      FloatHasNoBlank(text[..n], d, f, e, m);
    }
  }

  /** No other rule matches as much. */
  lemma FloatRules(text: string, d: nat)
    requires d < |text| && Span(Digit, text, 0) == d && text[d] == '.' && Length(FloatRule, text) > d + 1
    ensures forall q: Rule :: Beats(text, FloatRule, q)
  {
    FirstCharacter(text);
    SpanFrom(IntSuffix, text, d, d);
    assert d > 1 ==> Digit.Has(text[1]);
    assert d > 0 ==> Digit.Has(text[0]);
  }

  /** A comment that is not ended by a line end is never left. */
  lemma ScanOpenComment(w: string)
    requires '\n' !in w
    ensures Scan("#" + w).None?
  {
    var text := "#" + w;
    FirstCharacter(text);
    BestIs(text, HashRule);
    assert text[1..] == w;
    NoLineEnd(w);
  }

  lemma {:induction false} NoLineEnd(w: string)
    requires '\n' !in w
    ensures AfterLine(w).None?
  {
    if w == [] {
    } else {
      NoLineEnd(w[1..]);
    }
  }
}
