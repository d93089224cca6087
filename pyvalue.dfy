/**
 * The JSON values note_generator.py works on, as `json.load` decodes them,
 * and the Python built-ins it applies to them: truth testing, `dict.get`,
 * iteration, subscripts, `str()` and `int()`. A raised exception is an
 * `Err` carrying its Python class.
 */
module PyValue {
  import opened Wrappers
  import opened Text
  import opened Annotations

  /**
   * A decoded JSON value; an object keeps its keys in file order. A JSON
   * number with a fraction or an exponent decodes to a float, here a finite
   * real.
   */
  datatype Json = JNull | JBool(b: bool) | JInt(n: int) | JFloat(x: real) | JStr(s: string) | JArr(items: seq<Json>) | JObj(obj: Dict<Json>)

  /** The exception classes these operations raise. */
  datatype PyError = AttributeError | TypeError | ValueError | KeyError | IndexError

  /** `bool(v)`: null, false, zero, `0.0` and empty strings, lists and dicts are false. */
  predicate Truthy(v: Json) {
    match v
    case JNull => false
    case JBool(b) => b
    case JInt(n) => n != 0
    case JFloat(x) => x != 0.0
    case JStr(s) => s != ""
    case JArr(xs) => xs != []
    case JObj(d) => d.keys != []
  }

  const EmptyObject: Json := JObj(Dict([], map[]))

  /** `d.get(key, default)` */
  function GetOr(d: Dict<Json>, key: string, default: Json): Json {
    if key in d.at then d.at[key] else default
  }

  /** `d.get(key)`: `None` for a missing key, the same value as a JSON null. */
  function Get(d: Dict<Json>, key: string): Json {
    GetOr(d, key, JNull)
  }

  /** `for x in v`: a list's elements, a string's characters, a dict's keys. */
  function Iterate(v: Json): (r: Result<seq<Json>, PyError>)
    ensures r.Err? ==> r.error == TypeError
    ensures r.Ok? ==> |r.value| == match v case JArr(xs) => |xs| case JStr(s) => |s| case JObj(d) => |d.keys| case _ => 0
  {
    match v
    case JArr(xs) => Ok(xs)
    case JStr(s) => Ok(seq(|s|, k requires 0 <= k < |s| => JStr([s[k]])))
    case JObj(d) => Ok(seq(|d.keys|, k requires 0 <= k < |d.keys| => JStr(d.keys[k])))
    case _ => Err(TypeError)
  }

  /** `v[key]` with a string key: only a dict has one, and only if the key is there. */
  function Subscript(v: Json, key: string): Result<Json, PyError> {
    match v
    case JObj(d) => if key in d.at then Ok(d.at[key]) else Err(KeyError)
    case _ => Err(TypeError)
  }

  /**
   * `v[i]` with an integer index, which counts from the end when negative.
   * A dict decoded from JSON has only string keys, so an integer is never
   * one of them.
   */
  function Index(v: Json, i: int): Result<Json, PyError> {
    match v
    case JArr(xs) => if -|xs| <= i < |xs| then Ok(xs[if i < 0 then i + |xs| else i]) else Err(IndexError)
    case JStr(s) => if -|s| <= i < |s| then Ok(JStr([s[if i < 0 then i + |s| else i]])) else Err(IndexError)
    case JObj(_) => Err(KeyError)
    case _ => Err(TypeError)
  }

  /** Index `-k` is index `|xs| - k`: the last element is `xs[-1]`, and `xs[-|xs|]` is the first. */
  lemma IndexFromEnd(xs: seq<Json>, k: nat)
    requires 0 < k <= |xs|
    ensures Index(JArr(xs), -(k as int)) == Index(JArr(xs), |xs| - k) == Ok(xs[|xs| - k])
    ensures Index(JArr(xs), -(k as int) - |xs|).Err? && Index(JArr(xs), |xs| + k - 1).Err?
  {
  }

  /** `str(n)` on an int. */
  function IntString(n: int): string {
    if n < 0 then "-" + Decimal(-n) else Decimal(n)
  }

  /** `str(v)`; the `repr` text of a float, a list or a dict is a parameter. */
  function PyStr(v: Json, repr: Json -> string): string {
    match v
    case JNull => "None"
    case JBool(b) => if b then "True" else "False"
    case JInt(n) => IntString(n)
    case JStr(s) => s
    case _ => repr(v)
  }

  /** `int(s)` on a string: surrounding whitespace, an optional sign, then decimal digits. */
  function ParseInt(s: string): Result<int, PyError> {
    var t := Strip(s);
    if |t| > 0 && (t[0] == '-' || t[0] == '+') then
      var d := t[1..];
      if d != [] && AllDigits(d) then Ok(if t[0] == '-' then -(DecimalValue(d) as int) else DecimalValue(d)) else Err(ValueError)
    else if t != [] && AllDigits(t) then Ok(DecimalValue(t))
    else Err(ValueError)
  }

  /** `int(x)` on a float: the integer part, rounding toward zero whatever the sign. */
  function Truncate(x: real): (n: int)
    ensures 0.0 <= x ==> n as real <= x < n as real + 1.0
    ensures x < 0.0 ==> n as real - 1.0 < x <= n as real
  {
    if x >= 0.0 then x.Floor else -((-x).Floor)
  }

  /**
   * `int(v)`: an int, a bool, a float (truncated), or a string of digits;
   * `None`, lists and dicts raise TypeError.
   */
  function PyInt(v: Json): Result<int, PyError> {
    match v
    case JBool(b) => Ok(if b then 1 else 0)
    case JInt(n) => Ok(n)
    case JFloat(x) => Ok(Truncate(x))
    case JStr(s) => ParseInt(s)
    case _ => Err(TypeError)
  }

  /** `int(str(n)) == n` for every int `n`, as a JSON string or as the int itself. */
  lemma IntStringRoundTrip(n: int, repr: Json -> string)
    ensures PyInt(JStr(IntString(n))) == Ok(n)
    ensures PyInt(JStr(PyStr(JInt(n), repr))) == PyInt(JInt(n))
  {
    assert PyStr(JInt(n), repr) == IntString(n);
    if n < 0 {
      assert IntString(n) == "-" + Decimal(-n);
      NegativeRoundTrip(-n);
    } else {
      assert IntString(n) == Decimal(n);
      NaturalRoundTrip(n);
    }
  }

  lemma NaturalRoundTrip(n: nat)
    ensures ParseInt(Decimal(n)) == Ok(n)
  {
    var d := Decimal(n);
    DecimalRoundTrip(n);
    DecimalNoSpace(n);
    StripKeeps(d);
    assert d[0] != '-' && d[0] != '+' by { assert IsDigit(d[0]); }
  }

  lemma NegativeRoundTrip(m: nat)
    requires m > 0
    ensures ParseInt("-" + Decimal(m)) == Ok(-(m as int))
  {
    var d := Decimal(m);
    var s := "-" + d;
    DecimalRoundTrip(m);
    DecimalNoSpace(m);
    assert s[1..] == d && s[0] == '-' && s[|s| - 1] == d[|d| - 1];
    StripKeeps(s);
  }

  /** The digits of `n` start and end with a character that is not whitespace. */
  lemma DecimalNoSpace(n: nat)
    ensures var d := Decimal(n); !IsSpace(d[0]) && !IsSpace(d[|d| - 1])
  {
    var d := Decimal(n);
    if IsSpace(d[|d| - 1]) { SpaceNotDigit(d[|d| - 1]); }
    if IsSpace(d[0]) { SpaceNotDigit(d[0]); }
  }

  /** Blanks around a number do not change what `int()` reads. */
  lemma ParseIntBlanks(n: nat)
    ensures ParseInt(" " + Decimal(n) + "\n") == Ok(n)
  {
    var d := Decimal(n);
    DecimalRoundTrip(n);
    DecimalNoSpace(n);
    var s, t := " " + d + "\n", " " + d;
    assert s[..|s| - 1] == t && t[1..] == d;
    assert TrimRight(s) == TrimRight(t) == t;
    assert TrimLeft(t) == TrimLeft(d) == d;
  }

  /** Nor does a leading `+`. */
  lemma ParseIntPlus(n: nat)
    ensures ParseInt("+" + Decimal(n)) == Ok(n)
  {
    var d := Decimal(n);
    DecimalRoundTrip(n);
    DecimalNoSpace(n);
    var p := "+" + d;
    assert p[1..] == d;
    StripKeeps(p);
  }

  /** A blank string, a sign alone, and a sign followed by anything but a digit are not numbers. */
  lemma ParseIntRejects(s: string)
    requires var t := Strip(s); t == [] || ((t[0] == '-' || t[0] == '+') && (|t| == 1 || !IsDigit(t[1])))
    ensures ParseInt(s).Err?
  {
    var t := Strip(s);
    if |t| > 1 && (t[0] == '-' || t[0] == '+') {
      assert t[1..][0] == t[1];
    }
  }
}
