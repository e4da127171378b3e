/**
 * The UI suite: every case whose ID starts with "Pos_UI" or "Neg_UI" types its
 * input in three chunks, waits for a non-empty output after each chunk, and
 * passes when the final output is the expected text and the output was seen to
 * change along the way.
 *
 * A run of one case says, for each of the three waits (numbered 1 to 3) and
 * the text typed into the input box by then, what each pass of the output scan
 * returns during that wait; `Browse` builds such a run from the page snapshots
 * by discovery, filtering echoes of the whole input as the test does.
 */
module UiSuite {
  import opened Basics
  import opened Text
  import opened Discovery
  import opened Pollers
  import opened Grid

  /** The page at each pass of wait `w`, once `typed` has been typed into the (cleared) input box. */
  type Browser = (nat, string) -> (nat -> seq<Element>)

  /** What the output scan returns at each pass of wait `w`, once `typed` is in the input box. */
  type Scans = (nat, string) -> (nat -> string)

  /** What the scans return during one case, and how many loop iterations each of the three deadlines admits. */
  datatype UiRun = UiRun(scan: Scans, budget1: nat, budget2: nat, budget3: nat)

  /** The scans of a page driven by a browser: discovery passes with the whole input as the echo filter. */
  function Browse(page: Browser, input: string): Scans
  {
    (w: nat, typed: string) => Passes(page(w, typed), input)
  }

  /** `s.slice(a, b)` for non-negative bounds: both are clamped to the length, and a reversed range is empty. */
  function JsSlice(s: string, a: nat, b: nat): (r: string)
    ensures |r| == if Min(b, |s|) > Min(a, |s|) then Min(b, |s|) - Min(a, |s|) else 0
    ensures forall k :: 0 <= k < |r| ==> r[k] == s[Min(a, |s|) + k]
  {
    var lo := Min(a, |s|);
    var hi := Min(b, |s|);
    if lo < hi then s[lo..hi] else []
  }

  /** Slicing at consecutive bounds and joining the pieces gives the slice over the whole range. */
  lemma JsSliceConcat(s: string, a: nat, b: nat, c: nat)
    requires a <= b <= c
    ensures JsSlice(s, a, b) + JsSlice(s, b, c) == JsSlice(s, a, c)
  {
    var lo, mid, hi := Min(a, |s|), Min(b, |s|), Min(c, |s|);
    assert lo <= mid <= hi;
    if lo < mid && mid < hi {
      assert s[lo..mid] + s[mid..hi] == s[lo..hi];
    }
  }

  /** A slice from the start to the length or beyond is the whole text. */
  lemma JsSliceWhole(s: string, b: nat)
    requires |s| <= b
    ensures JsSlice(s, 0, b) == s
  {
    if s != [] {
      assert s[0..|s|] == s;
    }
  }

  /** The three chunks the input is typed in. */
  datatype Chunks = Chunks(p1: string, p2: string, p3: string)

  /**
   * The split: the first chunk ends at a third of the text (at least one
   * character), the second at two thirds (at least one character further), the
   * third takes the rest.
   */
  function Split(text: string): Chunks
  {
    var n := |text|;
    var p1 := JsSlice(text, 0, Max(1, n / 3));
    var p2 := JsSlice(text, |p1|, Max(|p1| + 1, (2 * n) / 3));
    var p3 := JsSlice(text, |p1| + |p2|, n);
    Chunks(p1, p2, p3)
  }

  /**
   * Typing the three chunks types the whole text, no character lost or repeated;
   * the chunk ends sit where the source's bounds put them; and every chunk is
   * non-empty as soon as the text has three characters.
   */
  lemma SplitCoversText(text: string)
    ensures var c := Split(text);
      c.p1 + c.p2 + c.p3 == text
      && (|text| >= 1 ==> |c.p1| == Max(1, |text| / 3))
      && (|text| >= 2 ==> |c.p1| + |c.p2| == Max(|c.p1| + 1, (2 * |text|) / 3))
      && (|text| >= 1 ==> c.p1 != "")
      && (|text| >= 2 ==> c.p2 != "")
      && (|text| >= 3 ==> c.p3 != "")
  {
    var n := |text|;
    var c := Split(text);
    var a := Min(Max(1, n / 3), n);
    assert |c.p1| == a;
    assert c.p1 == text[..a];
    var b := Min(Max(a + 1, (2 * n) / 3), n);
    assert |c.p1| + |c.p2| == b;
    assert c.p2 == text[a..b];
    assert c.p3 == text[b..];
    assert text == text[..a] + text[a..b] + text[b..];
  }

  /**
   * A shorter chunk is not always a partial text: the trailing white space of
   * "h   " vanishes under normalisation, so the box holding only the first
   * chunk "h" is an echo of the whole input and is dropped.
   */
  lemma PaddedFirstChunkIsEcho()
    ensures Split("h   ").p1 == "h"
    ensures Norm("h   ") == "h" && IsEcho(Norm("h"), "h   ")
  {
    assert JsSlice("h   ", 0, 1) == "h";
    assert IsWhitespace(' ');
    assert Collapse("h   ") == "h ";
    assert Norm("h   ") == "h";
    assert Norm("h") == "h";
    ContainsSelf("h");
  }

  /** Pass when the trimmed expected text is non-empty, the final output equals it, and at least two distinct outputs were seen. */
  function UiStatus(expected: string, finalOut: string, seen: set<string>): Status
  {
    if Trim(expected) != "" && finalOut == Trim(expected) && |seen| >= 2 then Pass else Fail
  }

  /**
   * With the three observations collected, a case passes exactly when the final
   * output is the non-empty trimmed expected text and at least one earlier
   * observation differed from it.
   */
  lemma UiStatusMeaning(expected: string, o1: string, o2: string, f: string)
    ensures UiStatus(expected, f, {o1, o2, f}) == Pass <==>
      Trim(expected) != "" && f == Trim(expected) && (o1 != f || o2 != f)
  {
    var seen := {o1, o2, f};
    if o1 == f && o2 == f {
      assert seen == {f};
    } else if o1 != f {
      assert {o1, f} <= seen;
      assert |{o1, f}| == 2;
      SubsetSize({o1, f}, seen);
    } else {
      assert {o2, f} <= seen;
      assert |{o2, f}| == 2;
      SubsetSize({o2, f}, seen);
    }
  }

  lemma SubsetSize(a: set<string>, b: set<string>)
    requires a <= b
    ensures |a| <= |b|
  {
    assert b == a + (b - a);
  }

  /** The three outputs the waits return: after the first chunk, after the second, and the final one. */
  datatype Observations = Observations(o1: string, o2: string, final: string)

  function Observe(c: TestCase, run: UiRun): Observations
  {
    var parts := Split(c.input);
    Observations(
      PollNonEmpty(Samples(run.scan(1, parts.p1)), run.budget1),
      PollNonEmpty(Samples(run.scan(2, parts.p1 + parts.p2)), run.budget2),
      PollNonEmpty(Samples(run.scan(3, parts.p1 + parts.p2 + parts.p3)), run.budget3))
  }

  /** The update one case records: its row, the final output and the status. */
  function UiOutcome(c: TestCase, run: UiRun): Update
  {
    var obs := Observe(c, run);
    Update(c.r, obs.final, UiStatus(c.expected, obs.final, {obs.o1, obs.o2, obs.final}))
  }

  /**
   * What a recorded UI result means: the final wait watched the scans for the
   * whole input; the Actual text is trimmed; and Pass means it is the non-empty
   * expected text and an earlier wait saw something else.
   */
  lemma UiOutcomeSound(c: TestCase, run: UiRun)
    ensures var u := UiOutcome(c, run);
      var obs := Observe(c, run);
      u.r == c.r
      && u.actual == PollNonEmpty(Samples(run.scan(3, c.input)), run.budget3)
      && IsTrimmed(u.actual)
      && (u.status == Pass <==>
          Trim(c.expected) != "" && u.actual == Trim(c.expected)
          && (obs.o1 != u.actual || obs.o2 != u.actual))
  {
    SplitCoversText(c.input);
    var obs := Observe(c, run);
    SamplesAreTrimmed(run.scan(3, c.input), NonEmptyPass(Samples(run.scan(3, c.input)), run.budget3));
    UiStatusMeaning(c.expected, obs.o1, obs.o2, obs.final);
  }

  /** On a page read by discovery, a non-empty recorded Actual text is never an echo of the case's input. */
  lemma UiOutcomeNeverEchoes(c: TestCase, page: Browser, b1: nat, b2: nat, b3: nat)
    ensures var u := UiOutcome(c, UiRun(Browse(page, c.input), b1, b2, b3));
      u.actual != "" ==> !IsEcho(u.actual, c.input)
  {
    SplitCoversText(c.input);
    assert Browse(page, c.input)(3, c.input) == Passes(page(3, c.input), c.input);
    PollNonEmptyNeverEchoes(page(3, c.input), c.input, b3);
  }

  /**
   * One case as the test body runs it: the three typing steps and waits, the
   * trimmed observations collected in a set, and the status.
   */
  method ObserveUiCase(c: TestCase, run: UiRun) returns (finalOut: string, seen: set<string>, status: Status)
    ensures Update(c.r, finalOut, status) == UiOutcome(c, run)
    ensures var obs := Observe(c, run); seen == {obs.o1, obs.o2, obs.final}
  {
    ghost var obs := Observe(c, run);
    var text := c.input;
    var parts := Split(text);
    var typed := parts.p1;
    var out, scans := WaitNonEmptyOutput(run.scan(1, typed), run.budget1);
    assert out == obs.o1;
    var o1 := Trim(out);
    TrimIsTrimmed(out);
    seen := {o1};
    typed := typed + parts.p2;
    out, scans := WaitNonEmptyOutput(run.scan(2, typed), run.budget2);
    assert out == obs.o2;
    var o2 := Trim(out);
    TrimIsTrimmed(out);
    seen := seen + {o2};
    typed := typed + parts.p3;
    out, scans := WaitNonEmptyOutput(run.scan(3, typed), run.budget3);
    assert out == obs.final;
    finalOut := Trim(out);
    TrimIsTrimmed(out);
    seen := seen + {finalOut};
    assert seen == {obs.o1, obs.o2, obs.final};
    status := if Trim(c.expected) != "" && finalOut == Trim(c.expected) && |seen| >= 2 then Pass else Fail;
    assert status == UiStatus(c.expected, obs.final, {obs.o1, obs.o2, obs.final});
  }

  /** The update of every case, in order. */
  function UiOutcomes(cases: seq<TestCase>, runs: nat -> UiRun): (us: seq<Update>)
    ensures |us| == |cases|
    ensures forall i :: 0 <= i < |cases| ==> us[i] == UiOutcome(cases[i], runs(i))
  {
    seq(|cases|, i requires 0 <= i < |cases| => UiOutcome(cases[i], runs(i)))
  }

  /**
   * The k-th update is the k-th case's: it names that case's row, holds the
   * trimmed final output of its own run, and is Pass exactly by the rule of
   * `UiOutcomeSound`; for cases on increasing rows, no row is written twice.
   */
  lemma UiOutcomesRecordCases(cases: seq<TestCase>, runs: nat -> UiRun)
    ensures var us := UiOutcomes(cases, runs);
      |us| == |cases|
      && (forall k :: 0 <= k < |cases| ==>
            us[k].r == cases[k].r
            && IsTrimmed(us[k].actual)
            && us[k].actual == PollNonEmpty(Samples(runs(k).scan(3, cases[k].input)), runs(k).budget3)
            && (us[k].status == Pass <==>
                Trim(cases[k].expected) != "" && us[k].actual == Trim(cases[k].expected)
                && (Observe(cases[k], runs(k)).o1 != us[k].actual || Observe(cases[k], runs(k)).o2 != us[k].actual)))
      && (IncreasingRows(cases) ==> DistinctRows(us))
  {
    var us := UiOutcomes(cases, runs);
    forall k | 0 <= k < |cases|
      ensures us[k].r == cases[k].r
      ensures IsTrimmed(us[k].actual)
      ensures us[k].actual == PollNonEmpty(Samples(runs(k).scan(3, cases[k].input)), runs(k).budget3)
      ensures us[k].status == Pass <==>
        Trim(cases[k].expected) != "" && us[k].actual == Trim(cases[k].expected)
        && (Observe(cases[k], runs(k)).o1 != us[k].actual || Observe(cases[k], runs(k)).o2 != us[k].actual)
    {
      UiOutcomeSound(cases[k], runs(k));
    }
    if IncreasingRows(cases) {
      CaseUpdatesDistinct(cases, us);
    }
  }

  /**
   * The UI suite: select the cases whose ID starts with "Pos_UI" or "Neg_UI",
   * then run them one after the other on a fresh suite state; `runs(k)` is what
   * the scans return for the k-th case.
   */
  method RunUiSuite(grid: seq<Row>, layout: Layout, runs: nat -> UiRun) returns (cases: seq<TestCase>, suite: Suite)
    ensures CasesOfGrid(grid, layout, "Pos_UI", "Neg_UI", cases)
    ensures suite.updates == UiOutcomes(cases, runs)
    ensures UpdatesFit(grid, suite.updates)
    ensures suite.grid == ApplyUpdates(grid, layout.cols, suite.updates)
  {
    cases := SelectCases(grid, layout, "Pos_UI", "Neg_UI");
    suite := new Suite(grid);
    var k := 0;
    while k < |cases|
      invariant 0 <= k <= |cases|
      invariant suite.Wrote(grid, layout.cols, UiOutcomes(cases, runs), k)
    {
      RunUiCase(suite, grid, layout.cols, cases, runs, k);
      k := k + 1;
    }
    assert UiOutcomes(cases, runs)[..|cases|] == UiOutcomes(cases, runs);
  }

  /** The test body of the k-th case: observe it, then record its update and write its two cells. */
  method RunUiCase(suite: Suite, grid: seq<Row>, cols: Columns, cases: seq<TestCase>, runs: nat -> UiRun, k: nat)
    requires k < |cases| && cases[k].r < |grid|
    requires suite.Wrote(grid, cols, UiOutcomes(cases, runs), k)
    modifies suite
    ensures suite.Wrote(grid, cols, UiOutcomes(cases, runs), k + 1)
  {
    var finalOut, seen, status := ObserveUiCase(cases[k], runs(k));
    suite.RecordNext(grid, cols, UiOutcomes(cases, runs), k, Update(cases[k].r, finalOut, status));
  }

  /**
   * The passing scenario: an output that differs after the first chunk, and a
   * final page whose every pass shows the expected text, give Pass.
   */
  lemma ChangingOutputPasses(c: TestCase, run: UiRun, v: string)
    requires v != "" && v == Trim(c.expected)
    requires Observe(c, run).o1 != v
    requires forall k: nat :: Samples(run.scan(3, c.input))(k) == v
    ensures UiOutcome(c, run).status == Pass
    ensures UiOutcome(c, run).actual == v
  {
    var f := FirstNonEmpty(Samples(run.scan(3, c.input)), 0, run.budget3);
    UiOutcomeSound(c, run);
  }

  /**
   * The failing scenario: when every wait returns the expected text, the output
   * never changed, and the case fails even though its final output is right.
   */
  lemma UnchangedOutputFails(c: TestCase, run: UiRun)
    requires var obs := Observe(c, run); obs.o1 == obs.final && obs.o2 == obs.final
    ensures UiOutcome(c, run).status == Fail
  {
    var obs := Observe(c, run);
    UiStatusMeaning(c.expected, obs.o1, obs.o2, obs.final);
  }
}
