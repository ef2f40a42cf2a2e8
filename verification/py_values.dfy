/** Python values as produced by `json.loads` and handled by the services:
    the JSON shapes, Python's truthiness test, and `str()` of a value. */
module PyValues {

  /** A decoded JSON value.  Fractional numbers are not modelled: every JSON
      number is an integer here. */
  datatype Value =
    | Null
    | Bool(b: bool)
    | Int(i: int)
    | Str(s: string)
    | Arr(items: seq<Value>)
    | Obj(fields: map<string, Value>)

  /** A Python dict with string keys, as a JSON object decodes to. */
  type Object = map<string, Value>

  /** Python's `bool(v)`: None, False, 0 and empty containers are falsy. */
  predicate Truthy(v: Value) {
    match v
    case Null => false
    case Bool(b) => b
    case Int(i) => i != 0
    case Str(s) => s != []
    case Arr(items) => items != []
    case Obj(fields) => fields != map[]
  }

  /** `d.get(key, default)` */
  function GetOr(d: Object, key: string, default: Value): Value {
    if key in d then d[key] else default
  }

  /** `d.get(key)`: a missing key reads as None. */
  function Get(d: Object, key: string): Value {
    GetOr(d, key, Null)
  }

  predicate IsDigit(c: char) {
    '0' <= c <= '9'
  }

  function DigitChar(d: nat): (c: char)
    requires d < 10
    ensures IsDigit(c) && c as int - '0' as int == d
  {
    ('0' as int + d) as char
  }

  /** The decimal digits of `n`, most significant first, as `str(n)` prints them. */
  function NatToDecimal(n: nat): (r: string)
    ensures |r| >= 1
    ensures forall k :: 0 <= k < |r| ==> IsDigit(r[k])
    ensures r[0] == '0' ==> n == 0
    decreases n
  {
    if n < 10 then [DigitChar(n)] else NatToDecimal(n / 10) + [DigitChar(n % 10)]
  }

  /** `str(i)` for a Python int. */
  function IntToDecimal(i: int): string {
    if i < 0 then "-" + NatToDecimal(-i) else NatToDecimal(i)
  }

  function DigitValue(c: char): nat
    requires IsDigit(c)
  {
    c as int - '0' as int
  }

  /** The number a string of decimal digits denotes, read left to right. */
  function DecimalValue(s: string): nat
    requires forall k :: 0 <= k < |s| ==> IsDigit(s[k])
  {
    if s == [] then 0
    else DecimalValue(s[..|s| - 1]) * 10 + DigitValue(s[|s| - 1])
  }

  /** Reading back the digits `str(n)` printed gives `n`. */
  lemma {:induction false} DecimalRoundTrip(n: nat)
    ensures DecimalValue(NatToDecimal(n)) == n
    decreases n
  {
    if n >= 10 {
      var r := NatToDecimal(n);
      assert r[..|r| - 1] == NatToDecimal(n / 10);
      DecimalRoundTrip(n / 10);
    }
  }

  /** The text of an integer starts with '-' exactly when it is negative,
      and the digits after the sign are those of its magnitude. */
  lemma DecimalSign(i: int)
    ensures i < 0 <==> IntToDecimal(i)[0] == '-'
    ensures i < 0 ==> IntToDecimal(i)[1..] == NatToDecimal(-i)
  {
    if i >= 0 {
      assert IsDigit(NatToDecimal(i)[0]);
    }
  }

  /** Distinct naturals print as distinct digit strings. */
  lemma NatToDecimalInjective(m: nat, n: nat)
    requires NatToDecimal(m) == NatToDecimal(n)
    ensures m == n
  {
    DecimalRoundTrip(m);
    DecimalRoundTrip(n);
  }

  /** Distinct integers print as distinct texts, so integer reporting years
      never share a year slot. */
  lemma IntToDecimalInjective(a: int, b: int)
    requires IntToDecimal(a) == IntToDecimal(b)
    ensures a == b
  {
    DecimalSign(a);
    DecimalSign(b);
    if a < 0 {
      NatToDecimalInjective(-a, -b);
    } else {
      NatToDecimalInjective(a, b);
    }
  }

  /** `str(v)` as an f-string or `str()` call renders it.  `repr` stands for
      Python's rendering of a list or dict, which depends on key insertion
      order and Unicode escaping that this model does not carry. */
  function PyStr(v: Value, repr: Value -> string): string {
    match v
    case Null => "None"
    case Bool(b) => if b then "True" else "False"
    case Int(i) => IntToDecimal(i)
    case Str(s) => s
    case Arr(_) => repr(v)
    case Obj(_) => repr(v)
  }
}
