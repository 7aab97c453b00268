/**
 * The test execution engine: the status table built before the run, the
 * run loop that walks the tests in order and records each assertion's
 * verdict and each test's final colour, the pass/fail/left counters, and
 * the text of an assertion's display line.
 */
module Engine {
  import opened JsValues
  import opened Evaluator

  /** Display colours: blue pending, yellow running, green passed, red failed. */
  datatype Color = Green | Red | Blue | Yellow

  /** An assertion is never shown as running. */
  type AssertColor = c: Color | c != Yellow witness Blue

  datatype AssertStatus = AssertStatus(title: string, failureMessage: string, color: AssertColor)

  datatype TestStatus = TestStatus(title: string, color: Color, assertStatuses: seq<AssertStatus>)

  /** One declared request and its assertions; the fetch options belong to the transport. */
  datatype RequestTest = RequestTest(title: string, url: string, asserts: seq<Assert>)

  /** A snapshot handed to the display, with the index of the test being run. */
  datatype Publication = Publication(running: nat, table: seq<TestStatus>)

  predicate Terminal(c: Color)
  {
    c == Green || c == Red
  }

  // ---------------------------------------------------------------------
  // Initial status table
  // ---------------------------------------------------------------------

  function InitialStatus(t: RequestTest): TestStatus
  {
    TestStatus(t.title, Blue,
      seq(|t.asserts|, j requires 0 <= j < |t.asserts| => AssertStatus(t.asserts[j].title, "", Blue)))
  }

  /** The table shown before any request is issued. */
  function InitialStatuses(tests: seq<RequestTest>): (r: seq<TestStatus>)
    ensures |r| == |tests|
    ensures forall i :: 0 <= i < |tests| ==>
              r[i].title == tests[i].title && r[i].color == Blue &&
              |r[i].assertStatuses| == |tests[i].asserts|
    ensures forall i, j :: 0 <= i < |tests| && 0 <= j < |tests[i].asserts| ==>
              r[i].assertStatuses[j] == AssertStatus(tests[i].asserts[j].title, "", Blue)
  {
    seq(|tests|, i requires 0 <= i < |tests| => InitialStatus(tests[i]))
  }

  /** Index correspondence between a status table and the tests. */
  predicate Shaped(table: seq<TestStatus>, tests: seq<RequestTest>)
  {
    |table| == |tests| &&
    forall i :: 0 <= i < |tests| ==> |table[i].assertStatuses| == |tests[i].asserts|
  }

  // ---------------------------------------------------------------------
  // Display line
  // ---------------------------------------------------------------------

  /** An assertion's line: its title, then " - " and the message when there is one. */
  function DisplayLine(s: AssertStatus): (r: string)
    ensures |r| >= |s.title| && r[..|s.title|] == s.title
    ensures |r| > |s.title| <==> s.failureMessage != ""
  {
    s.title + (if s.failureMessage != "" then " - " + s.failureMessage else "")
  }

  /** Of two lines with the same title, the message can be read back from the line. */
  lemma DisplayLineShowsMessage(s: AssertStatus, t: AssertStatus)
    requires s.title == t.title
    ensures DisplayLine(s) == DisplayLine(t) ==> s.failureMessage == t.failureMessage
  {
    var n := |s.title|;
    if DisplayLine(s) == DisplayLine(t) && s.failureMessage != "" && t.failureMessage != "" {
      assert DisplayLine(s)[n + 3..] == s.failureMessage;
      assert DisplayLine(t)[n + 3..] == t.failureMessage;
    }
  }

  // ---------------------------------------------------------------------
  // What a run does, as functions of the table before it
  // ---------------------------------------------------------------------

  /** A pass turns the status green and keeps its message; a failure turns it red with the message. */
  function ApplyVerdict(s: AssertStatus, v: Verdict): (r: AssertStatus)
    ensures r.title == s.title
    ensures v.Pass? ==> r.color == Green && r.failureMessage == s.failureMessage
    ensures v.Fail? ==> r.color == Red && r.failureMessage == v.message
  {
    match v
    case Pass => s.(color := Green)
    case Fail(m) => s.(color := Red, failureMessage := m)
  }

  /** `statuses.map(s => s.statusColor === "green").reduce((p, c) => p && c, true)`. */
  function AllGreen(ss: seq<AssertStatus>): (r: bool)
    ensures r <==> forall j :: 0 <= j < |ss| ==> ss[j].color == Green
  {
    if ss == [] then true
    else
      assert forall j :: 0 <= j < |ss| - 1 ==> ss[..|ss| - 1][j] == ss[j];
      AllGreen(ss[..|ss| - 1]) && ss[|ss| - 1].color == Green
  }

  predicate TestEvaluable(t: RequestTest, resp: Response)
  {
    forall j :: 0 <= j < |t.asserts| ==> Evaluable(t.asserts[j], resp)
  }

  /** One response per test, and none that makes an assertion throw. */
  predicate Runnable(tests: seq<RequestTest>, responses: seq<Response>)
  {
    |responses| == |tests| && forall i :: 0 <= i < |tests| ==> TestEvaluable(tests[i], responses[i])
  }

  /** The assertion statuses once every assertion of the test has been evaluated. */
  function EvaluatedStatuses(ss: seq<AssertStatus>, t: RequestTest, resp: Response): seq<AssertStatus>
    requires |ss| == |t.asserts| && TestEvaluable(t, resp)
  {
    seq(|ss|, j requires 0 <= j < |ss| => ApplyVerdict(ss[j], Evaluate(t.asserts[j], resp)))
  }

  /** A test's status once it has finished: verdicts recorded, colour from all of them. */
  function FinishTest(st: TestStatus, t: RequestTest, resp: Response): TestStatus
    requires |st.assertStatuses| == |t.asserts| && TestEvaluable(t, resp)
  {
    var ss := EvaluatedStatuses(st.assertStatuses, t, resp);
    st.(color := if AllGreen(ss) then Green else Red, assertStatuses := ss)
  }

  /** The table after a whole run. */
  function RunAll(table: seq<TestStatus>, tests: seq<RequestTest>, responses: seq<Response>)
    : seq<TestStatus>
    requires Shaped(table, tests) && Runnable(tests, responses)
  {
    seq(|table|, i requires 0 <= i < |table| => FinishTest(table[i], tests[i], responses[i]))
  }

  /** The number of green tests in a table. */
  function GreenCount(table: seq<TestStatus>): (n: nat)
    ensures n <= |table|
  {
    if table == [] then 0
    else GreenCount(table[..|table| - 1]) + (if table[|table| - 1].color == Green then 1 else 0)
  }

  /** Counting one more test adds one exactly when that test is green. */
  lemma GreenCountNext(table: seq<TestStatus>, i: nat)
    requires i < |table|
    ensures GreenCount(table[..i + 1]) == GreenCount(table[..i]) + if table[i].color == Green then 1 else 0
  {
    assert table[..i + 1][..i] == table[..i];
  }

  /** The count reaches the table's length exactly when every test is green, and 0 exactly when none is. */
  lemma {:induction false} GreenCountExtremes(table: seq<TestStatus>)
    ensures GreenCount(table) == |table| <==> forall k :: 0 <= k < |table| ==> table[k].color == Green
    ensures GreenCount(table) == 0 <==> forall k :: 0 <= k < |table| ==> table[k].color != Green
  {
    if table != [] {
      var front := table[..|table| - 1];
      GreenCountExtremes(front);
      assert forall k :: 0 <= k < |front| ==> front[k] == table[k];
    }
  }

  /**
   * A finished test is green exactly when every one of its assertions
   * passed (so a test without assertions is green) and red otherwise; each
   * assertion status records its own verdict and nothing else changes.
   */
  lemma FinishTestVerdict(st: TestStatus, t: RequestTest, resp: Response)
    requires |st.assertStatuses| == |t.asserts| && TestEvaluable(t, resp)
    ensures var f := FinishTest(st, t, resp);
      && f.title == st.title
      && |f.assertStatuses| == |t.asserts|
      && Terminal(f.color)
      && (f.color == Green <==> forall j :: 0 <= j < |t.asserts| ==> Evaluate(t.asserts[j], resp).Pass?)
      && forall j :: 0 <= j < |t.asserts| ==>
           f.assertStatuses[j] == ApplyVerdict(st.assertStatuses[j], Evaluate(t.asserts[j], resp))
  {
    var ss := EvaluatedStatuses(st.assertStatuses, t, resp);
    assert forall j :: 0 <= j < |ss| ==> (ss[j].color == Green <==> Evaluate(t.asserts[j], resp).Pass?);
  }

  /**
   * A run from the initial table: titles are kept, a test is green exactly
   * when all its assertions pass, and an assertion's line shows a message
   * exactly when it failed, the message being its failure text.
   */
  lemma FreshRunOutcome(tests: seq<RequestTest>, responses: seq<Response>, i: nat, j: nat)
    requires Runnable(tests, responses)
    requires i < |tests| && j < |tests[i].asserts|
    ensures Shaped(InitialStatuses(tests), tests)
    ensures var f := RunAll(InitialStatuses(tests), tests, responses)[i];
            var v := Evaluate(tests[i].asserts[j], responses[i]);
      && f.title == tests[i].title
      && (f.color == Green <==>
           forall k :: 0 <= k < |tests[i].asserts| ==> Evaluate(tests[i].asserts[k], responses[i]).Pass?)
      && (f.color == Red <==> !(f.color == Green))
      && f.assertStatuses[j].title == tests[i].asserts[j].title
      && (v.Pass? ==> f.assertStatuses[j].color == Green &&
                      DisplayLine(f.assertStatuses[j]) == tests[i].asserts[j].title)
      && (v.Fail? ==> f.assertStatuses[j].color == Red &&
                      DisplayLine(f.assertStatuses[j]) == tests[i].asserts[j].title + " - " + v.message)
  {
    var init := InitialStatuses(tests);
    FinishTestVerdict(init[i], tests[i], responses[i]);
  }

  /**
   * Tests run one at a time. In every snapshot published during a run from
   * the initial table, the tests before the running one have their final
   * colour, the tests after it are still blue, no other test is yellow, and
   * the running test is shown yellow unless it has already finished.
   */
  lemma OneTestAtATime(tests: seq<RequestTest>, responses: seq<Response>, p: Publication)
    requires Runnable(tests, responses)
    requires var init := InitialStatuses(tests);
             InProgress(init, RunAll(init, tests, responses), p)
    ensures forall k :: 0 <= k < p.running ==> Terminal(p.table[k].color)
    ensures forall k :: p.running < k < |tests| ==> p.table[k].color == Blue
    ensures forall k :: 0 <= k < |tests| && p.table[k].color == Yellow ==> k == p.running
    ensures p.table[p.running].title == tests[p.running].title
    ensures p.table[p.running].color == Yellow || Terminal(p.table[p.running].color)
  {
    var init := InitialStatuses(tests);
    forall k | 0 <= k <= p.running
      ensures Terminal(RunAll(init, tests, responses)[k].color)
    {
      FinishTestVerdict(init[k], tests[k], responses[k]);
    }
  }

  /**
   * `p` was published while test `p.running` was under way: everything
   * before it is as the run leaves it, everything after it as it was, and
   * the running test itself is shown yellow or already has its final status.
   */
  ghost predicate InProgress(before: seq<TestStatus>, after: seq<TestStatus>, p: Publication)
  {
    && |p.table| == |before| == |after|
    && p.running < |before|
    && (forall k :: 0 <= k < p.running ==> p.table[k] == after[k])
    && (forall k :: p.running < k < |before| ==> p.table[k] == before[k])
    && (p.table[p.running] == after[p.running] ||
        (p.table[p.running].color == Yellow && p.table[p.running].title == after[p.running].title))
  }

  /** The publications from index `from` on are in the order of the tests they belong to. */
  ghost predicate InOrder(ps: seq<Publication>, from: nat)
  {
    forall m, n :: from <= m < n < |ps| ==> ps[m].running <= ps[n].running
  }

  // ---------------------------------------------------------------------
  // What a run publishes, as functions of the table before it
  // ---------------------------------------------------------------------

  /** The table while test `i` runs: the tests before it finished, the others as they were. */
  function Midway(before: seq<TestStatus>, after: seq<TestStatus>, i: nat): (r: seq<TestStatus>)
    requires |before| == |after| && i <= |before|
    ensures |r| == |before|
    ensures forall k :: 0 <= k < |r| ==> r[k] == if k < i then after[k] else before[k]
  {
    seq(|before|, k requires 0 <= k < |before| => if k < i then after[k] else before[k])
  }

  /** A test's status while it runs: shown yellow, the verdicts of its first `j` assertions recorded. */
  function Running(st: TestStatus, t: RequestTest, resp: Response, j: nat): (r: TestStatus)
    requires |st.assertStatuses| == |t.asserts| && TestEvaluable(t, resp) && j <= |t.asserts|
    ensures r.title == st.title && r.color == Yellow && |r.assertStatuses| == |t.asserts|
  {
    st.(color := Yellow,
        assertStatuses := seq(|t.asserts|, k requires 0 <= k < |t.asserts| =>
          if k < j then ApplyVerdict(st.assertStatuses[k], Evaluate(t.asserts[k], resp))
          else st.assertStatuses[k]))
  }

  /** Marking a test as running changes only its colour. */
  lemma RunningStart(st: TestStatus, t: RequestTest, resp: Response)
    requires |st.assertStatuses| == |t.asserts| && TestEvaluable(t, resp)
    ensures Running(st, t, resp, 0) == st.(color := Yellow)
  {
    assert Running(st, t, resp, 0).assertStatuses == st.assertStatuses;
  }

  /** Recording assertion `j`'s verdict takes the running status from `j` to `j + 1` verdicts. */
  lemma RunningStep(st: TestStatus, t: RequestTest, resp: Response, j: nat)
    requires |st.assertStatuses| == |t.asserts| && TestEvaluable(t, resp) && j < |t.asserts|
    ensures var r := Running(st, t, resp, j);
            r.(assertStatuses := r.assertStatuses[j := ApplyVerdict(r.assertStatuses[j], Evaluate(t.asserts[j], resp))])
            == Running(st, t, resp, j + 1)
  {
    var r := Running(st, t, resp, j);
    var s := r.assertStatuses[j := ApplyVerdict(r.assertStatuses[j], Evaluate(t.asserts[j], resp))];
    assert s == Running(st, t, resp, j + 1).assertStatuses;
  }

  /** Once every verdict is recorded, giving the test its colour yields its finished status. */
  lemma RunningComplete(st: TestStatus, t: RequestTest, resp: Response)
    requires |st.assertStatuses| == |t.asserts| && TestEvaluable(t, resp)
    ensures var r := Running(st, t, resp, |t.asserts|);
            && r.assertStatuses == FinishTest(st, t, resp).assertStatuses
            && r.(color := FinishTest(st, t, resp).color) == FinishTest(st, t, resp)
  {
    assert Running(st, t, resp, |t.asserts|).assertStatuses == FinishTest(st, t, resp).assertStatuses;
  }

  /** The first `j` tables published while test `i` runs, `table` being the table when it starts. */
  function RunningPublications(table: seq<TestStatus>, i: nat, t: RequestTest, resp: Response, j: nat)
    : (r: seq<Publication>)
    requires i < |table| && |table[i].assertStatuses| == |t.asserts| && TestEvaluable(t, resp)
    requires j <= |t.asserts| + 1
    ensures |r| == j
    decreases j
  {
    if j == 0 then []
    else RunningPublications(table, i, t, resp, j - 1)
         + [Publication(i, table[i := Running(table[i], t, resp, j - 1)])]
  }

  /**
   * Every table published while test `i` runs: once when it is marked
   * running, once after each assertion, once when it has its colour.
   */
  function TestPublications(before: seq<TestStatus>, tests: seq<RequestTest>, responses: seq<Response>, i: nat)
    : seq<Publication>
    requires Shaped(before, tests) && Runnable(tests, responses) && i < |tests|
  {
    var after := RunAll(before, tests, responses);
    var table := Midway(before, after, i);
    RunningPublications(table, i, tests[i], responses[i], |tests[i].asserts| + 1)
    + [Publication(i, table[i := after[i]])]
  }

  /** Every table published while the first `i` tests run. */
  function RunPublications(before: seq<TestStatus>, tests: seq<RequestTest>, responses: seq<Response>, i: nat)
    : seq<Publication>
    requires Shaped(before, tests) && Runnable(tests, responses) && i <= |tests|
    decreases i
  {
    if i == 0 then []
    else RunPublications(before, tests, responses, i - 1) + TestPublications(before, tests, responses, i - 1)
  }

  /** The number of tables a run of `tests` publishes: two per test and one per assertion. */
  function PublicationCount(tests: seq<RequestTest>): nat
  {
    if tests == [] then 0
    else PublicationCount(tests[..|tests| - 1]) + |tests[|tests| - 1].asserts| + 2
  }

  lemma {:induction false} RunningPublicationsAt(table: seq<TestStatus>, i: nat, t: RequestTest, resp: Response, j: nat)
    requires i < |table| && |table[i].assertStatuses| == |t.asserts| && TestEvaluable(t, resp)
    requires j <= |t.asserts| + 1
    ensures forall m :: 0 <= m < j ==>
              RunningPublications(table, i, t, resp, j)[m] == Publication(i, table[i := Running(table[i], t, resp, m)])
    decreases j
  {
    if j > 0 {
      RunningPublicationsAt(table, i, t, resp, j - 1);
    }
  }

  /**
   * While test `i` runs, the table is published `n + 2` times for its `n`
   * assertions. The first `n + 1` show it yellow with the verdicts of its
   * first `m` assertions recorded and the rest untouched; the last shows its
   * finished status. The other tests are as `Midway` has them throughout.
   */
  lemma TestPublicationsShow(before: seq<TestStatus>, tests: seq<RequestTest>, responses: seq<Response>, i: nat)
    requires Shaped(before, tests) && Runnable(tests, responses) && i < |tests|
    ensures var tp := TestPublications(before, tests, responses, i);
            var after := RunAll(before, tests, responses);
            var n := |tests[i].asserts|;
      && |tp| == n + 2
      && (forall m :: 0 <= m < |tp| ==>
            tp[m].running == i && |tp[m].table| == |tests| &&
            tp[m].table == Midway(before, after, i)[i := tp[m].table[i]])
      && (forall m :: 0 <= m <= n ==>
            tp[m].table[i].color == Yellow && tp[m].table[i].title == before[i].title &&
            |tp[m].table[i].assertStatuses| == n)
      && (forall m, k :: 0 <= m <= n && 0 <= k < n ==>
            tp[m].table[i].assertStatuses[k] ==
              if k < m then ApplyVerdict(before[i].assertStatuses[k], Evaluate(tests[i].asserts[k], responses[i]))
              else before[i].assertStatuses[k])
      && tp[n + 1].table[i] == after[i]
  {
    var after := RunAll(before, tests, responses);
    var table := Midway(before, after, i);
    RunningPublicationsAt(table, i, tests[i], responses[i], |tests[i].asserts| + 1);
  }

  /** Every table of test `i` was published while it was in progress. */
  lemma TestPublicationsInProgress(before: seq<TestStatus>, tests: seq<RequestTest>, responses: seq<Response>, i: nat)
    requires Shaped(before, tests) && Runnable(tests, responses) && i < |tests|
    ensures var tp := TestPublications(before, tests, responses, i);
            forall m :: 0 <= m < |tp| ==>
              tp[m].running == i && InProgress(before, RunAll(before, tests, responses), tp[m])
  {
    var tp := TestPublications(before, tests, responses, i);
    var after := RunAll(before, tests, responses);
    TestPublicationsShow(before, tests, responses, i);
    FinishTestVerdict(before[i], tests[i], responses[i]);
    forall m | 0 <= m < |tp|
      ensures InProgress(before, after, tp[m])
    {
      assert tp[m].table == Midway(before, after, i)[i := tp[m].table[i]];
    }
  }

  /**
   * Every table a run publishes was taken while the test it names was in
   * progress, and the tables come in test order.
   */
  lemma {:induction false} RunPublicationsInProgress(before: seq<TestStatus>, tests: seq<RequestTest>,
                                                     responses: seq<Response>, i: nat)
    requires Shaped(before, tests) && Runnable(tests, responses) && i <= |tests|
    ensures forall m :: 0 <= m < |RunPublications(before, tests, responses, i)| ==>
              && RunPublications(before, tests, responses, i)[m].running < i
              && InProgress(before, RunAll(before, tests, responses), RunPublications(before, tests, responses, i)[m])
    ensures InOrder(RunPublications(before, tests, responses, i), 0)
    decreases i
  {
    if i > 0 {
      RunPublicationsInProgress(before, tests, responses, i - 1);
      TestPublicationsInProgress(before, tests, responses, i - 1);
      var after := RunAll(before, tests, responses);
      var front := RunPublications(before, tests, responses, i - 1);
      var tp := TestPublications(before, tests, responses, i - 1);
      var ps := front + tp;
      forall m | 0 <= m < |ps|
        ensures ps[m].running < i && InProgress(before, after, ps[m])
      {
        if m < |front| {
          assert ps[m] == front[m];
        } else {
          assert ps[m] == tp[m - |front|];
        }
      }
    }
  }

  /** Appending test `i`'s tables to a log of the first `i` tests gives the log of the first `i + 1`. */
  lemma RunPublicationsNext(before: seq<TestStatus>, tests: seq<RequestTest>, responses: seq<Response>, i: nat,
                            log: seq<Publication>, done: seq<Publication>, published: seq<Publication>)
    requires Shaped(before, tests) && Runnable(tests, responses) && i < |tests|
    requires done == log + RunPublications(before, tests, responses, i)
    requires published == done + TestPublications(before, tests, responses, i)
    ensures published == log + RunPublications(before, tests, responses, i + 1)
  {
  }

  /** A log extended by a whole run: its length, and each new table in progress and in test order. */
  lemma PublishedLog(before: seq<TestStatus>, tests: seq<RequestTest>, responses: seq<Response>,
                     log: seq<Publication>, published: seq<Publication>)
    requires Shaped(before, tests) && Runnable(tests, responses)
    requires published == log + RunPublications(before, tests, responses, |tests|)
    ensures |published| == |log| + PublicationCount(tests)
    ensures forall n :: |log| <= n < |published| ==>
              InProgress(before, RunAll(before, tests, responses), published[n])
    ensures InOrder(published, |log|)
  {
    var ps := RunPublications(before, tests, responses, |tests|);
    RunPublicationsCount(before, tests, responses, |tests|);
    assert tests[..|tests|] == tests;
    RunPublicationsInProgress(before, tests, responses, |tests|);
    assert forall n :: |log| <= n < |published| ==> published[n] == ps[n - |log|];
  }

  /** A run publishes exactly two tables per test and one per assertion. */
  lemma {:induction false} RunPublicationsCount(before: seq<TestStatus>, tests: seq<RequestTest>,
                                                responses: seq<Response>, i: nat)
    requires Shaped(before, tests) && Runnable(tests, responses) && i <= |tests|
    ensures |RunPublications(before, tests, responses, i)| == PublicationCount(tests[..i])
    decreases i
  {
    if i > 0 {
      RunPublicationsCount(before, tests, responses, i - 1);
      assert tests[..i][..i - 1] == tests[..i - 1];
    }
  }

  // ---------------------------------------------------------------------
  // The runner
  // ---------------------------------------------------------------------

  /**
   * The runner's state: the tests, the status table (one entry per test,
   * updated in place), the three counters, and the log of every status
   * table published to the display.
   */
  class TestRunner {
    const tests: seq<RequestTest>
    const statuses: array<TestStatus>
    var testsPassed: int
    var testsFailed: int
    var testsLeft: int
    ghost var published: seq<Publication>

    ghost predicate Valid()
      reads statuses
    {
      Shaped(statuses[..], tests)
    }

    /** Builds the initial table: everything blue, no messages, counters 0, 0 and the test count. */
    constructor (tests: seq<RequestTest>)
      ensures this.tests == tests && fresh(statuses)
      ensures statuses[..] == InitialStatuses(tests) && Valid()
      ensures testsPassed == 0 && testsFailed == 0 && testsLeft == |tests|
      ensures published == []
    {
      var table := InitialStatuses(tests);
      this.tests := tests;
      statuses := new TestStatus[|tests|](i requires 0 <= i < |tests| => table[i]);
      testsPassed, testsFailed, testsLeft := 0, 0, |tests|;
      published := [];
      new;
      assert statuses[..] == table;
    }

    /**
     * `runTests` with one response per test: each test in order is marked
     * running, each of its assertions evaluated once and recorded, then the
     * test is coloured by all of its verdicts and exactly one of the
     * passed/failed counters moves with the left counter. The display is
     * handed exactly the tables `RunPublications` lists.
     */
    method RunTests(responses: seq<Response>)
      requires Valid() && Runnable(tests, responses)
      modifies this, statuses
      ensures Valid()
      ensures statuses[..] == RunAll(old(statuses[..]), tests, responses)
      ensures testsLeft == old(testsLeft) - |tests|
      ensures testsPassed == old(testsPassed) + GreenCount(statuses[..])
      ensures testsFailed == old(testsFailed) + (|tests| - GreenCount(statuses[..]))
      ensures testsPassed + testsFailed + testsLeft == old(testsPassed + testsFailed + testsLeft)
      ensures published == old(published) + RunPublications(old(statuses[..]), tests, responses, |tests|)
      ensures |published| == |old(published)| + PublicationCount(tests)
      ensures forall n :: |old(published)| <= n < |published| ==>
                InProgress(old(statuses[..]), statuses[..], published[n])
      ensures InOrder(published, |old(published)|)
    {
      ghost var before := statuses[..];
      ghost var after := RunAll(before, tests, responses);
      ghost var log := published;
      var i := 0;
      while i < |tests|
        invariant 0 <= i <= |tests|
        invariant forall k :: 0 <= k < i ==> statuses[k] == after[k]
        invariant forall k :: i <= k < |tests| ==> statuses[k] == before[k]
        invariant testsLeft == old(testsLeft) - i
        invariant testsPassed == old(testsPassed) + GreenCount(after[..i])
        invariant testsFailed == old(testsFailed) + (i - GreenCount(after[..i]))
        invariant published == log + RunPublications(before, tests, responses, i)
      {
        ghost var done := published;
        RunOne(i, responses, before, after);
        RunPublicationsNext(before, tests, responses, i, log, done, published);
        GreenCountNext(after, i);
        i := i + 1;
      }
      assert statuses[..] == after;
      assert after[..|tests|] == after;
      PublishedLog(old(statuses[..]), tests, responses, old(published), published);
    }

    /** The body of the loop in `runTests` for test `i`. */
    method RunOne(i: nat, responses: seq<Response>, ghost before: seq<TestStatus>, ghost after: seq<TestStatus>)
      requires Shaped(before, tests) && Runnable(tests, responses)
      requires after == RunAll(before, tests, responses)
      requires i < |tests| == statuses.Length
      requires forall k :: 0 <= k < i ==> statuses[k] == after[k]
      requires forall k :: i <= k < |tests| ==> statuses[k] == before[k]
      modifies this, statuses
      ensures forall k :: 0 <= k <= i ==> statuses[k] == after[k]
      ensures forall k :: i < k < |tests| ==> statuses[k] == before[k]
      ensures testsLeft == old(testsLeft) - 1
      ensures after[i].color == Green ==> testsPassed == old(testsPassed) + 1 && testsFailed == old(testsFailed)
      ensures after[i].color != Green ==> testsFailed == old(testsFailed) + 1 && testsPassed == old(testsPassed)
      ensures published == old(published) + TestPublications(before, tests, responses, i)
    {
      var t, resp := tests[i], responses[i];
      ghost var start := before[i];
      ghost var table := Midway(before, after, i);
      FinishTestVerdict(start, t, resp);
      RunningStart(start, t, resp);

      // Start showing the test as running.
      statuses[i] := statuses[i].(color := Yellow);
      Publish(i, before, after, Running(start, t, resp, 0));
      RecordVerdicts(i, responses, before, after, old(published));

      var st := statuses[i];
      RunningComplete(start, t, resp);
      if AllGreen(st.assertStatuses) {
        statuses[i] := st.(color := Green);
        testsLeft := testsLeft - 1;
        testsPassed := testsPassed + 1;
      } else {
        statuses[i] := st.(color := Red);
        testsLeft := testsLeft - 1;
        testsFailed := testsFailed + 1;
      }
      Publish(i, before, after, after[i]);
    }

    /**
     * The inner loop of `runTests` for test `i`: each assertion in turn is
     * evaluated, its verdict recorded, and the table published.
     */
    method RecordVerdicts(i: nat, responses: seq<Response>, ghost before: seq<TestStatus>,
                          ghost after: seq<TestStatus>, ghost log: seq<Publication>)
      requires Shaped(before, tests) && Runnable(tests, responses)
      requires after == RunAll(before, tests, responses)
      requires i < |tests| == statuses.Length
      requires forall k :: 0 <= k < i ==> statuses[k] == after[k]
      requires forall k :: i < k < |tests| ==> statuses[k] == before[k]
      requires statuses[i] == Running(before[i], tests[i], responses[i], 0)
      requires published == log + RunningPublications(Midway(before, after, i), i, tests[i], responses[i], 1)
      modifies this`published, statuses
      ensures forall k :: 0 <= k < i ==> statuses[k] == after[k]
      ensures forall k :: i < k < |tests| ==> statuses[k] == before[k]
      ensures statuses[i] == Running(before[i], tests[i], responses[i], |tests[i].asserts|)
      ensures published == log + RunningPublications(Midway(before, after, i), i, tests[i], responses[i],
                                                      |tests[i].asserts| + 1)
    {
      var t, resp := tests[i], responses[i];
      ghost var start := before[i];
      ghost var table := Midway(before, after, i);
      var j := 0;
      while j < |t.asserts|
        invariant 0 <= j <= |t.asserts|
        invariant statuses[i] == Running(start, t, resp, j)
        invariant forall k :: 0 <= k < i ==> statuses[k] == after[k]
        invariant forall k :: i < k < |tests| ==> statuses[k] == before[k]
        invariant published == log + RunningPublications(table, i, t, resp, j + 1)
      {
        var verdict := Evaluate(t.asserts[j], resp);
        var st := statuses[i];
        RunningStep(start, t, resp, j);
        statuses[i] := st.(assertStatuses := st.assertStatuses[j := ApplyVerdict(st.assertStatuses[j], verdict)]);
        Publish(i, before, after, Running(start, t, resp, j + 1));
        j := j + 1;
      }
    }

    /** `setTestsStatus`: hands the current table, with `entry` for running test `i`, to the display. */
    ghost method Publish(i: nat, before: seq<TestStatus>, after: seq<TestStatus>, entry: TestStatus)
      requires |before| == |after| == statuses.Length && i < statuses.Length
      requires forall k :: 0 <= k < i ==> statuses[k] == after[k]
      requires forall k :: i < k < statuses.Length ==> statuses[k] == before[k]
      requires statuses[i] == entry
      modifies this`published
      ensures published == old(published) + [Publication(i, Midway(before, after, i)[i := entry])]
    {
      assert statuses[..] == Midway(before, after, i)[i := entry];
      published := published + [Publication(i, statuses[..])];
    }
  }

  /**
   * The whole program: build the initial table, run every test against its
   * response. Afterwards nothing is left, every test counted once as passed
   * or failed, and the table is the run's outcome.
   */
  method Run(tests: seq<RequestTest>, responses: seq<Response>)
    returns (table: seq<TestStatus>, passed: int, failed: int, left: int)
    requires Runnable(tests, responses)
    ensures Shaped(InitialStatuses(tests), tests)
    ensures table == RunAll(InitialStatuses(tests), tests, responses)
    ensures left == 0 && passed == GreenCount(table) && passed + failed == |tests|
  {
    var runner := new TestRunner(tests);
    runner.RunTests(responses);
    table := runner.statuses[..];
    passed, failed, left := runner.testsPassed, runner.testsFailed, runner.testsLeft;
  }
}
