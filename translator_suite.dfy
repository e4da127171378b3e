/**
 * The functional (translator) suite: every case whose ID starts with "Pos_Fun"
 * or "Neg_Fun" types its whole input, waits for the output to settle, and
 * passes when the settled output, trimmed, is the trimmed expected text.
 *
 * A run of one case says what each pass of the output scan returns once the
 * input has been typed.
 */
module TranslatorSuite {
  import opened Basics
  import opened Text
  import opened Discovery
  import opened Pollers
  import opened Grid

  /** What the scans return during one case, and how many loop iterations the deadline admits. */
  datatype FunRun = FunRun(scan: nat -> string, budget: nat)

  /** Pass when the trimmed expected text is non-empty and equals the trimmed actual text, Fail otherwise. */
  function FunStatus(expected: string, actual: string): Status
  {
    if Trim(expected) != "" && Trim(actual) == Trim(expected) then Pass else Fail
  }

  /** The update one case records: its row, the settled output and the status. */
  function FunOutcome(c: TestCase, run: FunRun): Update
  {
    var actual := PollStable(Samples(run.scan), run.budget);
    Update(c.r, actual, FunStatus(c.expected, actual))
  }

  /**
   * What a recorded translator result means: the Actual text is what the stable
   * poller returned, it is trimmed, and Pass means it is exactly the non-empty
   * trimmed expected text.
   */
  lemma FunOutcomeSound(c: TestCase, run: FunRun)
    ensures var u := FunOutcome(c, run);
      u.r == c.r
      && u.actual == PollStable(Samples(run.scan), run.budget)
      && IsTrimmed(u.actual)
      && (u.status == Pass <==> Trim(c.expected) != "" && u.actual == Trim(c.expected))
  {
    var a := PollStable(Samples(run.scan), run.budget);
    SamplesAreTrimmed(run.scan, StablePass(Samples(run.scan), run.budget));
    TrimIsTrimmed(a);
  }

  /** On a page read by discovery, a non-empty recorded Actual text is never an echo of the case's input. */
  lemma FunOutcomeNeverEchoes(c: TestCase, pages: nat -> seq<Element>, budget: nat)
    ensures var u := FunOutcome(c, FunRun(Passes(pages, c.input), budget));
      u.actual != "" ==> !IsEcho(u.actual, c.input)
  {
    PollStableNeverEchoes(pages, c.input, budget);
  }

  /** One case as the test body runs it: wait for a stable output, then compare. */
  method ObserveFunCase(c: TestCase, run: FunRun) returns (actual: string, status: Status)
    ensures Update(c.r, actual, status) == FunOutcome(c, run)
  {
    var scans;
    actual, scans := WaitForStableOutput(run.scan, run.budget);
    var exp := Trim(c.expected);
    var act := Trim(actual);
    status := if exp != "" && act == exp then Pass else Fail;
  }

  /** The update of every case, in order. */
  function FunOutcomes(cases: seq<TestCase>, runs: nat -> FunRun): (us: seq<Update>)
    ensures |us| == |cases|
    ensures forall i :: 0 <= i < |cases| ==> us[i] == FunOutcome(cases[i], runs(i))
  {
    seq(|cases|, i requires 0 <= i < |cases| => FunOutcome(cases[i], runs(i)))
  }

  /**
   * The k-th update is the k-th case's: it names that case's row, holds what the
   * stable poller returned on its own run, trimmed, and is Pass exactly when that
   * is the non-empty trimmed expected text; for cases on increasing rows, no row
   * is written twice.
   */
  lemma FunOutcomesRecordCases(cases: seq<TestCase>, runs: nat -> FunRun)
    ensures var us := FunOutcomes(cases, runs);
      |us| == |cases|
      && (forall k :: 0 <= k < |cases| ==>
            us[k].r == cases[k].r
            && IsTrimmed(us[k].actual)
            && us[k].actual == PollStable(Samples(runs(k).scan), runs(k).budget)
            && (us[k].status == Pass <==> Trim(cases[k].expected) != "" && us[k].actual == Trim(cases[k].expected)))
      && (IncreasingRows(cases) ==> DistinctRows(us))
  {
    var us := FunOutcomes(cases, runs);
    forall k | 0 <= k < |cases|
      ensures us[k].r == cases[k].r
      ensures IsTrimmed(us[k].actual)
      ensures us[k].actual == PollStable(Samples(runs(k).scan), runs(k).budget)
      ensures us[k].status == Pass <==> Trim(cases[k].expected) != "" && us[k].actual == Trim(cases[k].expected)
    {
      FunOutcomeSound(cases[k], runs(k));
    }
    if IncreasingRows(cases) {
      CaseUpdatesDistinct(cases, us);
    }
  }

  /** The test body of the k-th case: observe it, then record its update and write its two cells. */
  method RunFunCase(suite: Suite, grid: seq<Row>, cols: Columns, cases: seq<TestCase>, runs: nat -> FunRun, k: nat)
    requires k < |cases| && cases[k].r < |grid|
    requires suite.Wrote(grid, cols, FunOutcomes(cases, runs), k)
    modifies suite
    ensures suite.Wrote(grid, cols, FunOutcomes(cases, runs), k + 1)
  {
    var actual, status := ObserveFunCase(cases[k], runs(k));
    suite.RecordNext(grid, cols, FunOutcomes(cases, runs), k, Update(cases[k].r, actual, status));
  }

  /**
   * The translator suite: select the cases whose ID starts with "Pos_Fun" or
   * "Neg_Fun", then run them one after the other on a fresh suite state;
   * `runs(k)` is what the scans return for the k-th case.
   */
  method RunFunSuite(grid: seq<Row>, layout: Layout, runs: nat -> FunRun) returns (cases: seq<TestCase>, suite: Suite)
    ensures CasesOfGrid(grid, layout, "Pos_Fun", "Neg_Fun", cases)
    ensures suite.updates == FunOutcomes(cases, runs)
    ensures UpdatesFit(grid, suite.updates)
    ensures suite.grid == ApplyUpdates(grid, layout.cols, suite.updates)
  {
    cases := SelectCases(grid, layout, "Pos_Fun", "Neg_Fun");
    suite := new Suite(grid);
    var k := 0;
    while k < |cases|
      invariant 0 <= k <= |cases|
      invariant suite.Wrote(grid, layout.cols, FunOutcomes(cases, runs), k)
    {
      RunFunCase(suite, grid, layout.cols, cases, runs, k);
      k := k + 1;
    }
    assert FunOutcomes(cases, runs)[..|cases|] == FunOutcomes(cases, runs);
  }

  /**
   * The passing scenario: a page whose every pass shows the expected text, with
   * a deadline that admits at least four iterations, gives Pass: the fifth pass is
   * the fifth equal sample in a row, or the final sample when the deadline ends there.
   */
  lemma SteadyOutputPasses(c: TestCase, run: FunRun, v: string)
    requires v != "" && v == Trim(c.expected)
    requires forall k :: Samples(run.scan)(k) == v
    requires run.budget >= 4
    ensures FunOutcome(c, run) == Update(c.r, v, Pass)
  {
    ConstantSourceStabilisesOnFifthPass(Samples(run.scan), v);
    if run.budget > 4 {
      PollStableReturnsFirstStable(Samples(run.scan), run.budget, 4);
    } else {
      PollStableTimesOut(Samples(run.scan), run.budget);
    }
    FunOutcomeSound(c, run);
  }
}
