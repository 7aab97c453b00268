/**
 * The assertion evaluator: one `Assert` checked against one response
 * snapshot (status code, headers, parsed body), giving a pass or a failure
 * message. The comparison tag is checked before the type tag; every
 * comparison is strict equality.
 */
module Evaluator {
  import opened Wrappers
  import opened JsValues

  /**
   * One assertion. `kind` and `comparison` are the string tags the runner
   * dispatches on; values outside the declared unions reach the
   * "Invalid ..." branches.
   */
  datatype Assert = Assert(
    title: string,
    kind: string,
    comparison: string,
    path: seq<string>,
    value: Scalar)

  /**
   * What the runner keeps of a fetched response: the status code, the
   * headers keyed by lower-case name, and the parsed JSON body.
   */
  datatype Response = Response(status: int, headers: map<string, string>, body: Json)

  datatype Verdict = Pass | Fail(message: string)

  const Equal := "EQUAL"
  const Body := "BODY"
  const Header := "HEADER"
  const StatusCode := "STATUS_CODE"
  const InvalidComparison := "Invalid Assert comparison type"
  const InvalidType := "Invalid Assert type"

  /**
   * One step of the body drill-down, `prev[curr] || {}`. Indexing a
   * non-object is treated as a missing key; indexing `null` throws in the
   * source, so it is excluded.
   */
  function Step(prev: Json, key: string): (r: Json)
    requires !prev.JNull?
    ensures Truthy(r) || r == EmptyObject
  {
    if prev.JObj? && key in prev.fields && Truthy(prev.fields[key]) then prev.fields[key]
    else EmptyObject
  }

  /** `path.reduce((prev, curr) => prev[curr] || {}, body)`. */
  function Drill(j: Json, path: seq<string>): (r: Json)
    requires path == [] || !j.JNull?
    ensures path != [] ==> Truthy(r) || r == EmptyObject
    decreases |path|
  {
    if path == [] then j else Drill(Step(j, path[0]), path[1..])
  }

  /**
   * Strict lookup, the reference the drill-down is measured against: follow
   * the keys through nested objects, `None` as soon as a key is missing or a
   * step is not an object.
   */
  function Lookup(j: Json, path: seq<string>): Option<Json>
    decreases |path|
  {
    if path == [] then Some(j)
    else if j.JObj? && path[0] in j.fields then Lookup(j.fields[path[0]], path[1..])
    else None
  }

  /** Once the drill-down has fallen back to `{}` it stays there. */
  lemma {:induction false} DrillEmptyObject(path: seq<string>)
    ensures Drill(EmptyObject, path) == EmptyObject
    decreases |path|
  {
    if path != [] {
      DrillEmptyObject(path[1..]);
    }
  }

  /**
   * At a non-empty path the drill-down yields what strict lookup finds when
   * that is truthy, and `{}` in every other case (missing key, non-object
   * step, falsy value).
   */
  lemma {:induction false} DrillIsTruthyLookup(j: Json, path: seq<string>)
    requires path != [] && !j.JNull?
    ensures Drill(j, path) ==
      if Lookup(j, path).Some? && Truthy(Lookup(j, path).value) then Lookup(j, path).value
      else EmptyObject
    decreases |path|
  {
    var key, rest := path[0], path[1..];
    var next := Step(j, key);
    if rest == [] {
      assert Drill(j, path) == Drill(next, rest) == next;
    } else if j.JObj? && key in j.fields && Truthy(j.fields[key]) {
      DrillIsTruthyLookup(j.fields[key], rest);
    } else {
      DrillEmptyObject(rest);
      if j.JObj? && key in j.fields {
        // a falsy step is a primitive, so nothing further can be looked up in it
        assert Lookup(j, path) == Lookup(j.fields[key], rest) == None;
      }
    }
  }

  /** ASCII lower-casing, as `Headers.get` normalises the name it is given. */
  function LowerChar(c: char): (r: char)
    ensures !('A' <= r <= 'Z')
    ensures 'A' <= c <= 'Z' ==> r as int == c as int + 32
    ensures !('A' <= c <= 'Z') ==> r == c
  {
    if 'A' <= c <= 'Z' then (c as int - 'A' as int + 'a' as int) as char else c
  }

  function LowerAscii(s: string): (r: string)
    ensures |r| == |s|
    ensures forall k :: 0 <= k < |s| ==> r[k] == LowerChar(s[k])
  {
    seq(|s|, k requires 0 <= k < |s| => LowerChar(s[k]))
  }

  lemma LowerAsciiIdempotent(s: string)
    ensures LowerAscii(LowerAscii(s)) == LowerAscii(s)
  {
  }

  /** Two characters that are equal or differ only in ASCII letter case. */
  predicate SameCharUpToCase(c: char, d: char)
  {
    c == d ||
    ('A' <= c <= 'Z' && d as int == c as int + 32) ||
    ('A' <= d <= 'Z' && c as int == d as int + 32)
  }

  /** Two names that are equal up to ASCII letter case, character by character. */
  predicate SameUpToCase(s: string, t: string)
  {
    |s| == |t| && forall k :: 0 <= k < |s| ==> SameCharUpToCase(s[k], t[k])
  }

  /** Names equal up to case lower-case to the same key. */
  lemma LowerAsciiUpToCase(s: string, t: string)
    requires SameUpToCase(s, t)
    ensures LowerAscii(s) == LowerAscii(t)
  {
    assert forall k :: 0 <= k < |s| ==> LowerAscii(s)[k] == LowerAscii(t)[k];
  }

  /** A name is equal up to case to its lower-cased form. */
  lemma LowerAsciiSameUpToCase(s: string)
    ensures SameUpToCase(LowerAscii(s), s)
  {
  }

  /** What `Headers` guarantees of its keys: they are stored lower-cased. */
  predicate LowerCaseKeys(headers: map<string, string>)
  {
    forall key :: key in headers ==> LowerAscii(key) == key
  }

  /**
   * `propDrilldown[0]` as the header name: an empty path gives `undefined`,
   * which `Headers.get` turns into the name "undefined".
   */
  function HeaderName(path: seq<string>): (r: string)
    ensures |path| > 0 ==> r == path[0]
    ensures path == [] ==> r == "undefined"
  {
    if |path| > 0 then path[0] else "undefined"
  }

  /** `headers.get(name)`: the header's value, or `null` when it is absent. */
  function HeaderValue(headers: map<string, string>, name: string): (r: Scalar)
    ensures r == SNull || r.SStr?
    ensures r.SStr? <==> LowerAscii(name) in headers
    ensures LowerAscii(name) in headers ==> r == SStr(headers[LowerAscii(name)])
  {
    var key := LowerAscii(name);
    if key in headers then SStr(headers[key]) else SNull
  }

  /** The header lookup is case-insensitive: names equal up to case find the same value. */
  lemma HeaderLookupIgnoresCase(headers: map<string, string>, name: string, other: string)
    requires SameUpToCase(name, other)
    ensures HeaderValue(headers, name) == HeaderValue(headers, other)
  {
    LowerAsciiUpToCase(name, other);
  }

  /**
   * With keys stored lower-cased, a header is found exactly when some stored
   * name equals the requested one up to case, and the value is that header's.
   */
  lemma HeaderFoundIffStored(headers: map<string, string>, name: string)
    requires LowerCaseKeys(headers)
    ensures HeaderValue(headers, name).SStr? <==> exists key :: key in headers && SameUpToCase(key, name)
    ensures forall key :: key in headers && SameUpToCase(key, name) ==>
              HeaderValue(headers, name) == SStr(headers[key])
  {
    var lowered := LowerAscii(name);
    LowerAsciiSameUpToCase(name);
    if lowered in headers {
      assert SameUpToCase(lowered, name);
    }
    forall key | key in headers && SameUpToCase(key, name)
      ensures lowered == key
    {
      LowerAsciiUpToCase(key, name);
    }
  }

  /** The failure message of a mismatch, `Expected ${value} received ${result}`. */
  function Mismatch(expected: Scalar, received: string): (r: Verdict)
    ensures r.Fail? && |r.message| > |"Expected "|
    ensures r.message[..9] == "Expected "
  {
    Fail("Expected " + ScalarToString(expected) + " received " + received)
  }

  /**
   * Whether the source can evaluate `a` without throwing: a BODY drill-down
   * along a non-empty path into a `null` body raises a TypeError.
   */
  predicate Evaluable(a: Assert, resp: Response)
  {
    !(a.comparison == Equal && a.kind == Body && |a.path| > 0 && resp.body.JNull?)
  }

  /** Checks one assertion against one response. */
  function Evaluate(a: Assert, resp: Response): (r: Verdict)
    requires Evaluable(a, resp)
    ensures a.comparison != Equal ==> r == Fail(InvalidComparison)
    ensures (a.comparison == Equal && a.kind != Body && a.kind != Header && a.kind != StatusCode)
              ==> r == Fail(InvalidType)
    ensures a.comparison == Equal && a.kind == StatusCode ==>
              (r.Pass? <==> a.value == SNum(resp.status)) &&
              (r.Fail? ==> r == Mismatch(a.value, IntToString(resp.status)))
    ensures a.comparison == Equal && a.kind == Header ==>
              var received := HeaderValue(resp.headers, HeaderName(a.path));
              (r.Pass? <==> a.value == received) &&
              (r.Fail? ==> r == Mismatch(a.value, ScalarToString(received)))
    ensures r.Fail? ==> r.message != ""
  {
    if a.comparison == Equal then
      if a.kind == Body then
        var result := Drill(resp.body, a.path);
        if StrictEquals(result, a.value) then Pass else Mismatch(a.value, JsonToString(result))
      else if a.kind == Header then
        var result := HeaderValue(resp.headers, HeaderName(a.path));
        if result == a.value then Pass else Mismatch(a.value, ScalarToString(result))
      else if a.kind == StatusCode then
        if SNum(resp.status) == a.value then Pass
        else Mismatch(a.value, IntToString(resp.status))
      else
        Fail(InvalidType)
    else
      Fail(InvalidComparison)
  }

  /** A BODY assertion at an empty path compares the whole body. */
  lemma BodyEmptyPath(a: Assert, resp: Response)
    requires a.comparison == Equal && a.kind == Body && a.path == []
    ensures Evaluate(a, resp).Pass? <==> StrictEquals(resp.body, a.value)
    ensures Evaluate(a, resp).Fail? ==>
              Evaluate(a, resp) == Mismatch(a.value, JsonToString(resp.body))
  {
  }

  /**
   * A BODY assertion passes exactly when strict lookup finds a primitive
   * strictly equal to the expected value, and, at a non-empty path, that
   * value is truthy.
   */
  lemma BodyPassesIff(a: Assert, resp: Response)
    requires a.comparison == Equal && a.kind == Body && Evaluable(a, resp)
    ensures Evaluate(a, resp).Pass? <==>
              Lookup(resp.body, a.path).Some? &&
              StrictEquals(Lookup(resp.body, a.path).value, a.value) &&
              (a.path == [] || ScalarTruthy(a.value))
  {
    if a.path != [] {
      DrillIsTruthyLookup(resp.body, a.path);
    }
  }

  /**
   * The consequence of `|| {}`: at a non-empty path the expected values 0,
   * "", false, null and undefined never pass, whatever the body holds.
   */
  lemma FalsyNeverPasses(a: Assert, resp: Response)
    requires a.comparison == Equal && a.kind == Body && Evaluable(a, resp)
    requires a.path != [] && !ScalarTruthy(a.value)
    ensures Evaluate(a, resp).Fail?
  {
    BodyPassesIff(a, resp);
  }

  /**
   * A missing key anywhere along a non-empty path reports `{}`, printed as
   * "[object Object]", as the received value.
   */
  lemma MissingKeyReportsEmptyObject(a: Assert, resp: Response)
    requires a.comparison == Equal && a.kind == Body && Evaluable(a, resp)
    requires a.path != [] && Lookup(resp.body, a.path).None?
    ensures Evaluate(a, resp) == Mismatch(a.value, "[object Object]")
  {
    DrillIsTruthyLookup(resp.body, a.path);
  }

  /**
   * The failure message of a BODY assertion names what the drill-down
   * received: the whole body at an empty path; otherwise the looked-up value
   * when it exists and is truthy, and `{}` for a missing key or a falsy value.
   */
  lemma BodyFailureMessage(a: Assert, resp: Response)
    requires a.comparison == Equal && a.kind == Body && Evaluable(a, resp)
    requires Evaluate(a, resp).Fail?
    ensures var found := Lookup(resp.body, a.path);
            var received :=
              if a.path == [] then resp.body
              else if found.Some? && Truthy(found.value) then found.value
              else EmptyObject;
            Evaluate(a, resp) == Mismatch(a.value, JsonToString(received))
  {
    if a.path != [] {
      DrillIsTruthyLookup(resp.body, a.path);
    }
  }

  /** HEADER looks up only the first key of the path. */
  lemma HeaderUsesFirstKeyOnly(a: Assert, resp: Response, rest: seq<string>)
    requires a.comparison == Equal && a.kind == Header && a.path != []
    ensures Evaluate(a.(path := [a.path[0]] + rest), resp) == Evaluate(a, resp)
  {
  }

  /** A present header passes only against its own string value. */
  lemma HeaderPassesIff(a: Assert, resp: Response)
    requires a.comparison == Equal && a.kind == Header
    ensures var key := LowerAscii(HeaderName(a.path));
            Evaluate(a, resp).Pass? <==>
              (key in resp.headers && a.value == SStr(resp.headers[key])) ||
              (key !in resp.headers && a.value == SNull)
  {
  }

  /** STATUS_CODE ignores the path. */
  lemma StatusCodeIgnoresPath(a: Assert, resp: Response, path: seq<string>)
    requires a.comparison == Equal && a.kind == StatusCode
    ensures Evaluate(a.(path := path), resp) == Evaluate(a, resp)
  {
  }
}
