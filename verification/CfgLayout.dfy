/** How the written text is laid out. */
module CfgLayout {
  import opened CfgScanner
  import opened CfgText
  import opened CfgLexemes

  /** `%d`: a minus sign for a negative number only, and its digits, without a leading zero. */
  lemma PrintIntReads(i: Int32)
    ensures var w := PrintInt(i);
            var digits := Unsigned(w);
            && w == (if i < 0 then "-" else "") + digits && digits != [] && AllOf(Digit, digits)
            && Number(10, digits) == (if i < 0 then -(i as int) else i as int)
            && (digits[0] == '0' ==> |digits| == 1)
  {
    var n := Magnitude(i);
    PrintNatReads(n);
    PrintNatShort(n);
    assert Digit.Has(PrintNat(n)[0]);
    assert ("-" + PrintNat(n))[1..] == PrintNat(n) && "" + PrintNat(n) == PrintNat(n);
  }

  lemma {:induction false} PrintNatShort(n: nat)
    ensures PrintNat(n) != [] && (PrintNat(n)[0] == '0' ==> n == 0 && |PrintNat(n)| == 1)
  {
    DigitOf(n % 10);
    if n < 10 {
      assert DigitValue(PrintNat(n)[0]) == n;
    } else {
      PrintNatShort(n / 10);
    }
  }

  lemma {:induction false} SpacesAre(n: int)
    ensures |Spaces(n)| == (if n < 0 then 0 else n) && forall i :: 0 <= i < |Spaces(n)| ==> Spaces(n)[i] == ' '
    decreases if n < 0 then 0 else n
  {
    if n <= 0 {
    } else {
      SpacesAre(n - 1);
    }
  }

  /** The line of a parameter: its name, blanks up to column 20, the assignment and the value. */
  lemma ParamLine(fmt: Format, p: Param)
    ensures var text, column := ParamText(fmt, p), if |p.name| < 20 then 20 else |p.name|;
            && column <= |text| && text[..|p.name|] == p.name
            && (forall i :: |p.name| <= i < column ==> text[i] == ' ')
            && text[column..] == "= " + ValueText(fmt, p.val) + "\n"
  {
    var gap, rest := Spaces(20 - |p.name|), "= " + ValueText(fmt, p.val) + "\n";
    SpacesAre(20 - |p.name|);
    assert ParamText(fmt, p) == p.name + gap + rest;
  }

  /** The text of a list of values grows by a separator and the text of the value that is added. */
  lemma {:induction false} UnitsTextAppend(fmt: Format, us: seq<Unit>, u: Unit)
    ensures UnitsText(fmt, us + [u]) == (if us == [] then "" else UnitsText(fmt, us) + " , ") + UnitText(fmt, u)
  {
    if us == [] {
      assert us + [u] == [u];
    } else {
      var all := us + [u];
      assert all[0] == us[0] && all[1..] == us[1..] + [u];
      UnitsTextAppend(fmt, us[1..], u);
      Separated(UnitText(fmt, us[0]), if |us| == 1 then "" else UnitsText(fmt, us[1..]), UnitText(fmt, u));
    }
  }

  lemma Separated(a: string, b: string, c: string)
    ensures a + " , " + (b + " , " + c) == (a + " , " + b) + " , " + c
  {
  }

  /** The text of a configuration starts with three comments and an empty line. */
  lemma ConfigHead(fmt: Format)
    ensures ConfigText(fmt, []) == "#\n#\n#\n\n"
  {
    assert ParamsText(fmt, []) == "";
  }

  /** It grows by one line for each parameter that is added. */
  lemma ConfigLines(fmt: Format, ps: seq<Param>, p: Param)
    ensures ConfigText(fmt, ps + [p]) == ConfigText(fmt, ps) + ParamText(fmt, p)
  {
    ParamsTextAppend(fmt, ps, p);
    Behind("#\n", "\n", ParamsText(fmt, ps), ParamText(fmt, p));
  }

  lemma Behind(a: string, b: string, text: string, more: string)
    ensures a + (a + (a + (b + (text + more)))) == a + (a + (a + (b + text))) + more
  {
  }

  lemma {:induction false} ParamsTextAppend(fmt: Format, ps: seq<Param>, p: Param)
    ensures ParamsText(fmt, ps + [p]) == ParamsText(fmt, ps) + ParamText(fmt, p)
  {
    if ps == [] {
      assert ps + [p] == [p];
      assert ParamsText(fmt, [p]) == ParamText(fmt, p) + "";
    } else {
      var all := ps + [p];
      assert all[0] == ps[0] && all[1..] == ps[1..] + [p];
      ParamsTextAppend(fmt, ps[1..], p);
      assert ParamText(fmt, ps[0]) + (ParamsText(fmt, ps[1..]) + ParamText(fmt, p))
          == (ParamText(fmt, ps[0]) + ParamsText(fmt, ps[1..])) + ParamText(fmt, p);
    }
  }
}
