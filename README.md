# fetchguy test runner, modelled in Dafny

fetchguy runs a list of declarative HTTP tests (`RequestTest`). Each test has a title, a URL, fetch options and a list of equality assertions (`Assert`). An assertion checks the response's status code, one header, or a field of the JSON body. The runner shows a live table: one coloured line per test and one per assertion. Blue means pending, yellow running, green passed and red failed. Below the table it shows the passed/failed/left counters.

This project models the engine behind that display, in `src/index.tsx`:

- `values.dfy`, module `JsValues`:
  - the JavaScript values the engine handles: a JSON response body (`Json`) and the primitive an assertion expects (`Scalar`, which includes `undefined`);
  - truthiness and strict equality `===`;
  - the text a template literal produces for each value: integers in decimal, objects as `[object Object]`, arrays joined with `,`.
- `evaluator.dfy`, module `Evaluator`: checks one assertion against one response snapshot (status code, headers keyed by lower-case name, parsed body):
  - the comparison tag is checked before the type tag;
  - the BODY drill-down `prev[curr] || {}` and its relation to a strict key lookup;
  - the HEADER lookup of `propDrilldown[0]`;
  - the STATUS_CODE comparison;
  - the exact failure messages.
- `engine.dfy`, module `Engine`:
  - the initial status table;
  - the display line of an assertion;
  - `TestRunner`, a class holding the status table (an array updated in place), the three counters, and a ghost log of every table handed to the display;
  - `RunTests`, the sequential run loop;
  - `Run`, the whole program from a list of tests and one response per test.

The network is replaced by a given sequence of response snapshots, one per test, in test order. The `fetch` call and the two `await`s are not modelled.

Three consequences of the code worth knowing:
- A missing body key is reported as `received [object Object]`, the `{}` substituted by the drill-down. It is not reported as `received undefined`.
- Because of `|| {}`, a falsy expected value (`0`, `""`, `false`, `null`) can never pass at a non-empty body path.
- With an empty path, a HEADER assertion looks up the header named "undefined". `propDrilldown[0]` is `undefined` there, and `Headers.get` turns it into that string.

## Model

| member | source | states |
|---|---|---|
| JsValues.AsScalar | src/index.tsx:89 | a JSON value is a primitive exactly when it is not an object or array; the primitive is never `undefined` and has the same truthiness |
| JsValues.NatToDecimal | src/index.tsx:105 | the printed status code is a non-empty string of decimal digits without a leading zero |
| JsValues.DecimalRoundTrip | src/index.tsx:105 | reading the printed digits back gives the number |
| JsValues.IntToStringRoundTrip | src/index.tsx:92 | the number printed in an "Expected ... received ..." message can be read back, sign included |
| JsValues.StrictEquals | src/index.tsx:89 | `===` holds only between a primitive body value and the same primitive, never `undefined`, an object or an array; equal values have the same truthiness and print the same |
| JsValues.JsonToString | src/index.tsx:92 | `${result}`: a primitive prints as that primitive does; every object prints as "[object Object]" |
| JsValues.JoinElements | src/index.tsx:92 | `${array}` joins the elements; the joined text of n elements is at least n - 1 characters long, one per separator |
| JsValues.JoinElementsSnoc | src/index.tsx:92 | appending an element to a non-empty array adds "," and the element's text (empty for `null`) |
| JsValues.JoinElementsConcat | src/index.tsx:92 | joining a concatenation of two non-empty arrays is the two joins with one "," between them |
| Evaluator.Step | src/index.tsx:86 | one drill-down step gives a truthy value or `{}`, never `null` |
| Evaluator.Drill | src/index.tsx:85-88 | after at least one key the drill-down result is truthy or `{}` |
| Evaluator.DrillEmptyObject | src/index.tsx:86 | once the drill-down has fallen back to `{}`, every further key keeps it at `{}` |
| Evaluator.DrillIsTruthyLookup | src/index.tsx:85-88 | at a non-empty path the drill-down gives the strict lookup's value when that value exists and is truthy, and `{}` otherwise |
| Evaluator.HeaderName | src/index.tsx:95 | the header name is the first key of the path, and "undefined" for an empty path |
| Evaluator.LowerAsciiUpToCase | src/index.tsx:95 | names equal up to ASCII letter case lower-case to the same key |
| Evaluator.HeaderLookupIgnoresCase | src/index.tsx:95 | `headers.get` finds the same value for names equal up to case |
| Evaluator.HeaderFoundIffStored | src/index.tsx:95 | when the stored names are lower-case, a header is found iff a stored name equals the requested one up to case, and the value is that header's |
| Evaluator.LowerAsciiIdempotent | src/index.tsx:95 | lower-casing a lower-cased name changes nothing |
| Evaluator.HeaderValue | src/index.tsx:95 | `headers.get` gives exactly the string stored under the lower-cased name when it is present, and `null` otherwise |
| Evaluator.Mismatch | src/index.tsx:92 | a mismatch is a failure whose message starts with "Expected " |
| Evaluator.Evaluate | src/index.tsx:82-112 | a non-EQUAL comparison fails with "Invalid Assert comparison type" whatever the type; an unknown type fails with "Invalid Assert type"; STATUS_CODE passes iff the expected value is the number equal to the status, else "Expected v received status"; HEADER passes iff the expected value is the header's string (or `null` when it is absent); every failure message is non-empty |
| Evaluator.BodyEmptyPath | src/index.tsx:84-93 | a BODY assertion with an empty path compares the whole body |
| Evaluator.BodyPassesIff | src/index.tsx:84-93 | a BODY assertion passes iff strict lookup finds a primitive strictly equal to the expected value that is truthy (or the path is empty) |
| Evaluator.FalsyNeverPasses | src/index.tsx:85-90 | at a non-empty path the expected values 0, "", false, null and undefined never pass |
| Evaluator.MissingKeyReportsEmptyObject | src/index.tsx:85-92 | a missing key at a non-empty path fails with "Expected v received [object Object]" |
| Evaluator.BodyFailureMessage | src/index.tsx:84-93 | a failed BODY assertion's message is "Expected v received r", where r prints the whole body at an empty path, the looked-up value when it is present and truthy, and `{}` for a missing key or a falsy value |
| Evaluator.HeaderUsesFirstKeyOnly | src/index.tsx:95 | HEADER ignores every key of the path after the first |
| Evaluator.HeaderPassesIff | src/index.tsx:94-100 | HEADER passes iff the header is present with the expected string, or absent and `null` is expected |
| Evaluator.StatusCodeIgnoresPath | src/index.tsx:101-106 | the STATUS_CODE verdict does not depend on the path |
| Engine.InitialStatuses | src/index.tsx:141-155 | one test status per test and one assertion status per assertion, titles copied index by index, every colour blue, every message empty |
| Engine.DisplayLine | src/index.tsx:186-189 | an assertion's line starts with its title and is longer than the title exactly when there is a failure message |
| Engine.DisplayLineShowsMessage | src/index.tsx:186-189 | two lines with the same title are equal only when their messages are, so the message can be read back from the line |
| Engine.ApplyVerdict | src/index.tsx:73-81 | a pass makes the status green and keeps its message; a failure makes it red with the failure message; the title is kept |
| Engine.AllGreen | src/index.tsx:116-118 | the map/reduce verdict is true iff every assertion status is green (true for none) |
| Engine.GreenCount | src/index.tsx:121-122 | the number of passed tests never exceeds the number of tests |
| Engine.GreenCountNext | src/index.tsx:119-132 | finishing one more test adds one to the passed count exactly when that test is green |
| Engine.GreenCountExtremes | src/index.tsx:121-132 | the passed count equals the number of tests iff every test is green, and is 0 iff none is |
| Engine.FinishTestVerdict | src/index.tsx:115-133 | a finished test is green iff every one of its assertions passed, red otherwise; each assertion status records its own verdict; the title is kept |
| Engine.FreshRunOutcome | src/index.tsx:137-165 | after a run from the initial table, each test is green iff all its assertions pass; a passed assertion's line is its title alone; a failed one's is the title, " - " and the failure message |
| Engine.OneTestAtATime | src/index.tsx:57-63 | in every table published during a run from the initial table, tests before the running one are green or red, tests after it are blue, only the running test can be yellow, and the running test keeps its title and is yellow or already green or red |
| Engine.Midway | src/index.tsx:57-58 | while test i runs, the table holds the finished status of every earlier test and the unchanged status of every later one |
| Engine.Running | src/index.tsx:62-81 | a running test is shown yellow, keeps its title and its number of assertions |
| Engine.RunningStart | src/index.tsx:62 | marking a test as running changes only its colour |
| Engine.RunningStep | src/index.tsx:71-81 | recording assertion j's verdict takes the running status from j recorded verdicts to j + 1 |
| Engine.RunningComplete | src/index.tsx:113-131 | once every verdict is recorded, colouring the test gives exactly its finished status |
| Engine.RunningPublications | src/index.tsx:63-80 | while a test runs, each of its first j steps publishes one table, so j steps give j tables |
| Engine.TestPublicationsShow | src/index.tsx:57-133 | a test with n assertions publishes n + 2 tables. The first n + 1 show it yellow, with the verdicts of its first m assertions recorded and the rest untouched. The last shows its finished status. The other tests stay as the run has left them |
| Engine.TestPublicationsInProgress | src/index.tsx:57-133 | every table published while test i runs names test i and was taken while it was in progress |
| Engine.RunPublicationsInProgress | src/index.tsx:57-133 | every table a run publishes was taken while the test it names was in progress, and the tables come in test order |
| Engine.RunPublicationsCount | src/index.tsx:57-133 | a run publishes exactly two tables per test and one per assertion |
| Engine.PublishedLog | src/index.tsx:57-133 | a log extended by a whole run grows by that count, and every new table is in progress and in test order |
| Engine.TestRunner.constructor | src/index.tsx:137-155 | the table starts as the initial table; the counters start at 0 passed, 0 failed and the number of tests left; nothing has been published yet |
| Engine.TestRunner.RunTests | src/index.tsx:35-135 | the final table is the run's outcome for every test; left goes down by the number of tests; passed goes up by the number of green tests and failed by the rest, so passed + failed + left is unchanged; the display is handed exactly the tables `RunPublications` lists, two per test and one per assertion; each was taken while exactly one test was in progress, and they come in test order |
| Engine.TestRunner.RunOne | src/index.tsx:57-133 | test i ends with its final status, no other test changes, left goes down by one, exactly one of passed/failed goes up by one, and the tables published are exactly `TestPublications` for test i |
| Engine.TestRunner.RecordVerdicts | src/index.tsx:71-112 | after the assertion loop the running test has every verdict recorded, the other tests are unchanged, and one table was published per assertion |
| Engine.TestRunner.Publish | src/index.tsx:63 | the published table is the midway table with the running test's current status, appended to the log; nothing else changes |
| Engine.Run | src/index.tsx:31-33 | a complete run leaves no test left and counts every test once, as passed or failed; the final table is the run's outcome from the initial table |

## Left out

- The network: `fetch`, `resp.json()` and the `await`s. Responses are a given sequence of snapshots, one per test. Transport failures and non-JSON bodies are not handled by the code, so no policy for them is modelled.
- The React and ink layer: `useState`, `useEffect`, the `set...` dispatchers, re-render timing, and the rendering of boxes and colours. A call to `setTestsStatus` is a ghost entry in the `published` log. The counter setters are the updates of the runner's counter fields.
- Aliasing: `[...testStatus]` copies only the outer array, so the source mutates status objects shared with React state. The model keeps one status array of values and updates it in place.
- Numbers are integers. JavaScript floating point is not modelled, so neither are `NaN`, `-0`, fractions, or the exponent form `String` uses from 10^21 upwards.
- JavaScript indexing quirks in the drill-down are not modelled. A key into an array or string (`"0"`, `"length"`) and a property inherited from `Object.prototype` are treated as missing keys.
- Evaluator.Evaluate: requires a non-null body when a BODY assertion has a non-empty path. In the source, `null[curr]` throws a TypeError there and the run stops.
- Headers: the map is keyed by lower-case names (the predicate `LowerCaseKeys`) and the lookup lower-cases ASCII letters. Joining repeated headers with ", " is not modelled. Neither is the TypeError `Headers.get` raises for a syntactically invalid name.
- `fetchOptions` is transport configuration and is not represented. `url` is carried but not used.
