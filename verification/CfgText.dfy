/** Configurations, the text that is written for them, and the grammar that reads it. */
module CfgText {
  import opened Options
  import opened CfgScanner

  /** A C `float`.  Nothing is assumed about it. */
  type Float(==, 0, !new)

  /** The two library calls that floating-point parameters go through: printf with `%f`, and atof. */
  datatype Format = Format(show: Float -> string, read: string -> Float)

  /** A parameter value that is no list. */
  datatype Unit = Str(s: string) | Int(i: Int32) | Flt(f: Float) | Bool(b: Int32)

  /** `ParamValue`; a list cannot hold a list. */
  datatype Value = One(u: Unit) | Many(us: seq<Unit>)

  datatype Param = Param(name: string, val: Value)

  // ---------------------------------------------------------------------------------------------
  // Writing
  // ---------------------------------------------------------------------------------------------

  function PrintNat(n: nat): string {
    var digit := ['0' + (n % 10) as char];
    if n < 10 then digit else PrintNat(n / 10) + digit
  }

  function Magnitude(i: int): nat {
    if i < 0 then -i else i
  }

  /** `%d` */
  function PrintInt(i: Int32): string {
    if i < 0 then "-" + PrintNat(Magnitude(i)) else PrintNat(i)
  }

  /** writeValue */
  function UnitText(fmt: Format, u: Unit): string {
    match u
    case Str(s) => "\"" + s + "\""
    case Int(i) => PrintInt(i)
    case Flt(f) => fmt.show(f)
    case Bool(b) => if b == 0 then "false" else "true"
  }

  function UnitsText(fmt: Format, us: seq<Unit>): string {
    if us == [] then ""
    else if |us| == 1 then UnitText(fmt, us[0])
    else UnitText(fmt, us[0]) + " , " + UnitsText(fmt, us[1..])
  }

  function Spaces(n: int): string {
    if n <= 0 then "" else " " + Spaces(n - 1)
  }

  function ValueText(fmt: Format, v: Value): string {
    match v
    case One(u) => UnitText(fmt, u)
    case Many(us) => "[ " + UnitsText(fmt, us) + " ]"
  }

  /** writeParameter: the name is padded to 20 columns. */
  function ParamText(fmt: Format, p: Param): string {
    p.name + Spaces(20 - |p.name|) + "= " + ValueText(fmt, p.val) + "\n"
  }

  function ParamsText(fmt: Format, ps: seq<Param>): string {
    if ps == [] then "" else ParamText(fmt, ps[0]) + ParamsText(fmt, ps[1..])
  }

  /** writeConfig: three empty comments and an empty line come first. */
  function ConfigText(fmt: Format, ps: seq<Param>): string {
    "#\n" + ("#\n" + ("#\n" + ("\n" + ParamsText(fmt, ps))))
  }

  // ---------------------------------------------------------------------------------------------
  // Reading
  // ---------------------------------------------------------------------------------------------

  /** unit_value */
  function UnitOf(fmt: Format, t: Token): Option<Unit> {
    match t
    case STRING_LITERAL(s) => Some(Str(s))
    case DECIMAL(i) => Some(Int(i))
    case FLOAT(text) => Some(Flt(fmt.read(text)))
    case BOOLEAN(b) => Some(Bool(b))
    case _ => None
  }

  /** value_sequence: the values, and the tokens after them. */
  function Sequence(fmt: Format, ts: seq<Token>): (r: Option<(seq<Unit>, seq<Token>)>)
    ensures r.Some? ==> |r.value.1| < |ts| && r.value.0 != []
  {
    if ts == [] then None
    else
      var u := UnitOf(fmt, ts[0]);
      if u.None? then None
      else if |ts| > 1 && ts[1].COMMA? then
        var rest := Sequence(fmt, ts[2..]);
        if rest.None? then None else Some(([u.value] + rest.value.0, rest.value.1))
      else Some(([u.value], ts[1..]))
  }

  /** values: a unit value or a list. */
  function Values(fmt: Format, ts: seq<Token>): (r: Option<(Value, seq<Token>)>)
    ensures r.Some? ==> |r.value.1| < |ts|
  {
    if ts == [] then None
    else if ts[0].LIST_OPEN? then
      var s := Sequence(fmt, ts[1..]);
      if s.None? || s.value.1 == [] || !s.value.1[0].LIST_CLOSE? then None
      else Some((Many(s.value.0), s.value.1[1..]))
    else
      var u := UnitOf(fmt, ts[0]);
      if u.None? then None else Some((One(u.value), ts[1..]))
  }

  /** cfg_expression */
  function Expression(fmt: Format, ts: seq<Token>): (r: Option<(Param, seq<Token>)>)
    ensures r.Some? ==> |r.value.1| < |ts|
  {
    if |ts| < 2 || !ts[0].PARAMETER? || !ts[1].ASSIGNMENT? then None
    else
      var v := Values(fmt, ts[2..]);
      if v.None? then None else Some((Param(ts[0].name, v.value.0), v.value.1))
  }

  /** cfg_list */
  function Grammar(fmt: Format, ts: seq<Token>): Option<seq<Param>>
    decreases |ts|
  {
    if ts == [] then Some([])
    else
      var e := Expression(fmt, ts);
      if e.None? then None
      else
        var rest := Grammar(fmt, e.value.1);
        if rest.None? then None else Some([e.value.0] + rest.value)
  }

  /** What parseConfig reads from a text. */
  function Parse(fmt: Format, text: string): Option<seq<Param>> {
    var ts := Scan(text);
    if ts.None? then None else Grammar(fmt, ts.value)
  }
}
