/** The usual optional-value wrapper. */
module Wrappers {
  datatype Option<+T> = None | Some(value: T)
}

/**
 * JavaScript values as the test runner sees them: the parsed response body
 * (a JSON tree), the primitive an assertion expects, truthiness, strict
 * equality, and the string a template literal `${v}` produces for each.
 * Numbers are integers in this model.
 */
module JsValues {
  import opened Wrappers

  /** A parsed response body, as `resp.json()` yields it. */
  datatype Json =
    | JObj(fields: map<string, Json>)
    | JArr(items: seq<Json>)
    | JStr(str: string)
    | JNum(num: int)
    | JBool(flag: bool)
    | JNull

  /** The expected value of an assertion: `number | string | boolean | null | undefined`. */
  datatype Scalar =
    | SNum(n: int)
    | SStr(s: string)
    | SBool(b: bool)
    | SNull
    | SUndefined

  /** The `{}` that the body drill-down substitutes for a missing or falsy step. */
  const EmptyObject: Json := JObj(map[])

  /** JavaScript truthiness of a JSON value: objects and arrays are always truthy. */
  predicate Truthy(j: Json)
  {
    match j
    case JObj(_) => true
    case JArr(_) => true
    case JStr(s) => s != ""
    case JNum(n) => n != 0
    case JBool(b) => b
    case JNull => false
  }

  /** JavaScript truthiness of a primitive. */
  predicate ScalarTruthy(v: Scalar)
  {
    match v
    case SNum(n) => n != 0
    case SStr(s) => s != ""
    case SBool(b) => b
    case SNull => false
    case SUndefined => false
  }

  /** The primitive a JSON value is, if it is one; objects and arrays are not primitives. */
  function AsScalar(j: Json): (r: Option<Scalar>)
    ensures r.Some? <==> !(j.JObj? || j.JArr?)
    ensures r.Some? ==> r.value != SUndefined && (ScalarTruthy(r.value) <==> Truthy(j))
  {
    match j
    case JObj(_) => None
    case JArr(_) => None
    case JStr(s) => Some(SStr(s))
    case JNum(n) => Some(SNum(n))
    case JBool(b) => Some(SBool(b))
    case JNull => Some(SNull)
  }

  /**
   * `j === v`. An object or array is never strictly equal to a primitive, and
   * a parsed body never holds `undefined`.
   */
  predicate StrictEquals(j: Json, v: Scalar)
    ensures StrictEquals(j, v) ==> v != SUndefined && !(j.JObj? || j.JArr?)
    ensures StrictEquals(j, v) ==> (Truthy(j) <==> ScalarTruthy(v))
    ensures StrictEquals(j, v) ==> JsonToString(j) == ScalarToString(v)
  {
    AsScalar(j) == Some(v)
  }

  /** The decimal digit `d`. */
  function DigitChar(d: nat): (c: char)
    requires d < 10
    ensures '0' <= c <= '9' && c as int - '0' as int == d
  {
    "0123456789"[d]
  }

  predicate IsDigits(s: string)
  {
    forall k :: 0 <= k < |s| ==> '0' <= s[k] <= '9'
  }

  /** The decimal representation of `n`, without leading zeros. */
  function NatToDecimal(n: nat): (s: string)
    ensures |s| >= 1 && IsDigits(s)
    ensures |s| > 1 ==> s[0] != '0'
    decreases n
  {
    if n < 10 then [DigitChar(n)] else NatToDecimal(n / 10) + [DigitChar(n % 10)]
  }

  /** The number a string of decimal digits denotes: the reading side of `NatToDecimal`. */
  function DecimalValue(s: string): nat
    requires IsDigits(s)
  {
    if s == [] then 0 else DecimalValue(s[..|s| - 1]) * 10 + (s[|s| - 1] as int - '0' as int)
  }

  lemma {:induction false} DecimalRoundTrip(n: nat)
    ensures DecimalValue(NatToDecimal(n)) == n
    decreases n
  {
    if n >= 10 {
      DecimalRoundTrip(n / 10);
      var s := NatToDecimal(n);
      assert s[..|s| - 1] == NatToDecimal(n / 10);
    }
  }

  /** `String(n)` for an integer `n`: a minus sign for negatives, then the decimal digits. */
  function IntToString(n: int): string
  {
    if n < 0 then "-" + NatToDecimal(-n) else NatToDecimal(n)
  }

  /** Reads back what `IntToString` writes. */
  function ParseInt(s: string): int
  {
    if |s| > 0 && s[0] == '-' && IsDigits(s[1..]) then 0 - DecimalValue(s[1..]) as int
    else if IsDigits(s) then DecimalValue(s)
    else 0
  }

  /** The number in a message can be read back: distinct numbers print differently. */
  lemma IntToStringRoundTrip(n: int)
    ensures ParseInt(IntToString(n)) == n
  {
    if n < 0 {
      DecimalRoundTrip(-n);
      assert IntToString(n)[1..] == NatToDecimal(-n);
    } else {
      DecimalRoundTrip(n);
    }
  }

  /** `${v}` for an expected value. */
  function ScalarToString(v: Scalar): string
  {
    match v
    case SNum(n) => IntToString(n)
    case SStr(s) => s
    case SBool(b) => if b then "true" else "false"
    case SNull => "null"
    case SUndefined => "undefined"
  }

  /**
   * `${j}` for a JSON value: every object prints as "[object Object]", an
   * array as its elements joined with ",".
   */
  function JsonToString(j: Json): (r: string)
    ensures AsScalar(j).Some? ==> r == ScalarToString(AsScalar(j).value)
    ensures j.JObj? ==> r == "[object Object]"
    decreases j, 0
  {
    match j
    case JObj(_) => "[object Object]"
    case JArr(items) => JoinElements(items)
    case JStr(s) => s
    case JNum(n) => IntToString(n)
    case JBool(b) => if b then "true" else "false"
    case JNull => "null"
  }

  /** An element's text inside `join`: `null` contributes the empty string. */
  function ElementText(j: Json): string
    decreases j, 1
  {
    if j.JNull? then "" else JsonToString(j)
  }

  /** `items.join(",")`. */
  function JoinElements(items: seq<Json>): (r: string)
    ensures |r| >= |items| - 1
    decreases items
  {
    if items == [] then ""
    else if |items| == 1 then ElementText(items[0])
    else JoinElements(items[..|items| - 1]) + "," + ElementText(items[|items| - 1])
  }

  /** Appending one element to a non-empty array adds "," and that element's text. */
  lemma JoinElementsSnoc(front: seq<Json>, x: Json)
    requires front != []
    ensures JoinElements(front + [x]) == JoinElements(front) + "," + ElementText(x)
  {
    var items := front + [x];
    assert items[..|items| - 1] == front;
  }

  /** Joining a concatenation puts exactly one "," between the two joined halves. */
  lemma {:induction false} JoinElementsConcat(a: seq<Json>, b: seq<Json>)
    requires a != [] && b != []
    ensures JoinElements(a + b) == JoinElements(a) + "," + JoinElements(b)
    decreases |b|
  {
    if |b| == 1 {
      assert b == [b[0]];
      JoinElementsSnoc(a, b[0]);
    } else {
      var front, last := b[..|b| - 1], b[|b| - 1];
      assert b == front + [last];
      assert a + b == (a + front) + [last];
      JoinElementsSnoc(a + front, last);
      JoinElementsSnoc(front, last);
      JoinElementsConcat(a, front);
      var ja, jf, t := JoinElements(a), JoinElements(front), ElementText(last);
      assert (ja + "," + jf) + "," + t == ja + "," + (jf + "," + t);
    }
  }
}
