/**
 * The two polling loops. Wall-clock time is replaced by a budget: the number of
 * loop iterations the deadline admits (the test that the elapsed time is
 * still under the limit holds for the first `budget` tests and then fails). `scan(k)` is what the k-th
 * call of `scanBestOutput` returns. Both loops end with one more pass when the
 * budget runs out. Each method also returns how many passes it made.
 *
 * What the loops decide depends only on the trimmed results, so the reference
 * definitions are stated over any sequence of samples `s`, and the methods use
 * them with `s == Samples(scan)`.
 */
module Pollers {
  import opened Basics
  import opened Text
  import opened Discovery

  /** The trimmed result of every pass, an absent result read as the empty text. */
  function Samples(scan: nat -> string): nat -> string
  {
    (k: nat) => Trim(scan(k))
  }

  /** Every sample is trimmed. */
  lemma SamplesAreTrimmed(scan: nat -> string, k: nat)
    ensures IsTrimmed(Samples(scan)(k))
  {
    TrimIsTrimmed(scan(k));
  }

  /** The passes over a changing page, `scanBestOutput(page, input)` at the k-th pass. */
  function Passes(pages: nat -> seq<Element>, input: string): nat -> string
  {
    (k: nat) => Discover(pages(k), input)
  }

  /** Every sample of a discovery pass is the pass result itself and never a non-empty echo. */
  lemma SampleIsDiscovery(pages: nat -> seq<Element>, input: string, k: nat)
    ensures Samples(Passes(pages, input))(k) == Discover(pages(k), input)
    ensures var t := Samples(Passes(pages, input))(k); t != "" ==> !IsEcho(t, input)
  {
    DiscoverSound(pages(k), input);
    TrimIsTrimmed(Discover(pages(k), input));
  }

  // ---- waitNonEmptyOutput ----

  /** The first pass in [k, budget) whose sample is not empty. */
  function FirstNonEmpty(s: nat -> string, k: nat, budget: nat): (r: Option<nat>)
    ensures r.Some? ==> k <= r.value < budget && s(r.value) != ""
    ensures r.Some? ==> forall j :: k <= j < r.value ==> s(j) == ""
    ensures r.None? ==> forall j :: k <= j < budget ==> s(j) == ""
    decreases budget - k
  {
    if k >= budget then None
    else if s(k) != "" then Some(k)
    else FirstNonEmpty(s, k + 1, budget)
  }

  /** The pass whose sample `waitNonEmptyOutput` returns: the first non-empty one in budget, else the final one. */
  function NonEmptyPass(s: nat -> string, budget: nat): nat
  {
    match FirstNonEmpty(s, 0, budget)
    case Some(j) => j
    case None => budget
  }

  /** What `waitNonEmptyOutput` returns. */
  function PollNonEmpty(s: nat -> string, budget: nat): string
  {
    s(NonEmptyPass(s, budget))
  }

  /** The result is one of the samples looked at, and empty only when every one of them was. */
  lemma PollNonEmptyProperties(s: nat -> string, budget: nat)
    ensures NonEmptyPass(s, budget) <= budget
    ensures PollNonEmpty(s, budget) == "" <==> forall j :: 0 <= j <= budget ==> s(j) == ""
  {
  }

  /** Over discovery passes, a non-empty result is never an echo of the input it was given. */
  lemma PollNonEmptyNeverEchoes(pages: nat -> seq<Element>, input: string, budget: nat)
    ensures var r := PollNonEmpty(Samples(Passes(pages, input)), budget); r != "" ==> !IsEcho(r, input)
  {
    SampleIsDiscovery(pages, input, NonEmptyPass(Samples(Passes(pages, input)), budget));
  }

  method WaitNonEmptyOutput(scan: nat -> string, budget: nat)
    returns (out: string, scans: nat)
    ensures 1 <= scans <= budget + 1
    ensures out == Samples(scan)(scans - 1)
    ensures forall j :: 0 <= j < scans - 1 ==> Samples(scan)(j) == ""
    ensures scans <= budget ==> out != ""
    ensures IsTrimmed(out)
    ensures out == PollNonEmpty(Samples(scan), budget)
  {
    var i := 0;
    while i < budget
      invariant 0 <= i <= budget
      invariant forall j :: 0 <= j < i ==> Samples(scan)(j) == ""
    {
      var cur := scan(i);
      cur := Trim(cur);
      if cur != "" {
        SamplesAreTrimmed(scan, i);
        return cur, i + 1;
      }
      i := i + 1;
    }
    out := scan(budget);
    out := Trim(out);
    SamplesAreTrimmed(scan, budget);
    scans := budget + 1;
  }

  // ---- waitForStableOutput ----

  /** The value of `stable` after the k-th pass. */
  function Streak(s: nat -> string, k: nat): nat
  {
    if k == 0 then 0
    else if s(k) != "" && s(k) == s(k - 1) then Streak(s, k - 1) + 1
    else 0
  }

  /** The k-th pass ends the loop: it and the four before it are one and the same non-empty text. */
  predicate StableAt(s: nat -> string, k: nat)
  {
    4 <= k && s(k) != "" && forall j :: k - 4 <= j < k ==> s(j) == s(k)
  }

  /** `stable` reaches n (n >= 1) exactly when the last n + 1 samples are equal and not empty. */
  lemma {:induction false} StreakCountsRepeats(s: nat -> string, k: nat, n: nat)
    requires 1 <= n
    ensures Streak(s, k) >= n <==>
      (n <= k && s(k) != "" && forall j :: k - n <= j < k ==> s(j) == s(k))
    decreases k
  {
    if k > 0 && n > 1 {
      StreakCountsRepeats(s, k - 1, n - 1);
    }
  }

  /** The loop's exit test, a streak of at least four, is the five-sample condition. */
  lemma StreakReachesFour(s: nat -> string, k: nat)
    ensures Streak(s, k) >= 4 <==> StableAt(s, k)
  {
    StreakCountsRepeats(s, k, 4);
  }

  /** The first pass in [k, budget) at which the loop returns early. */
  function FirstStable(s: nat -> string, k: nat, budget: nat): (r: Option<nat>)
    ensures r.Some? ==> k <= r.value < budget && StableAt(s, r.value)
    ensures r.Some? ==> forall j :: k <= j < r.value ==> !StableAt(s, j)
    ensures r.None? ==> forall j :: k <= j < budget ==> !StableAt(s, j)
    decreases budget - k
  {
    if k >= budget then None
    else if StableAt(s, k) then Some(k)
    else FirstStable(s, k + 1, budget)
  }

  /** The pass whose sample `waitForStableOutput` returns: the first five-fold repeat in budget, else the final one. */
  function StablePass(s: nat -> string, budget: nat): nat
  {
    match FirstStable(s, 0, budget)
    case Some(j) => j
    case None => budget
  }

  /** What `waitForStableOutput` returns. */
  function PollStable(s: nat -> string, budget: nat): string
  {
    s(StablePass(s, budget))
  }

  /** The reference result when the loop returns early at pass k. */
  lemma PollStableReturnsFirstStable(s: nat -> string, budget: nat, k: nat)
    requires k < budget && StableAt(s, k)
    requires forall j :: 0 <= j < k ==> !StableAt(s, j)
    ensures StablePass(s, budget) == k
  {
    var f := FirstStable(s, 0, budget);
    assert f.Some?;
    assert !(f.value < k) && !(f.value > k);
  }

  /** The reference result when no pass in budget is stable. */
  lemma PollStableTimesOut(s: nat -> string, budget: nat)
    requires forall j :: 0 <= j < budget ==> !StableAt(s, j)
    ensures StablePass(s, budget) == budget
  {
    var f := FirstStable(s, 0, budget);
    assert f.None?;
  }

  /** The loop state after i passes: the counter, the last sample, and no early return yet. */
  predicate StableLoop(s: nat -> string, i: nat, stable: nat, last: string)
  {
    stable == (if i == 0 then 0 else Streak(s, i - 1))
    && last == (if i == 0 then "" else s(i - 1))
    && forall j :: 0 <= j < i ==> Streak(s, j) < 4
  }

  /**
   * One pass of the loop: a sample equal to the last non-empty one increments the
   * counter, anything else resets it, and the counter is then the streak of pass i.
   */
  lemma StableLoopStep(s: nat -> string, i: nat, stable: nat, last: string, cur: string)
    requires StableLoop(s, i, stable, last)
    requires cur == s(i)
    ensures var next := if cur != "" && cur == last then stable + 1 else 0;
      next == Streak(s, i)
      && (next < 4 ==> StableLoop(s, i + 1, next, cur))
  {
    var next := if cur != "" && cur == last then stable + 1 else 0;
    if i == 0 {
      assert next == 0 == Streak(s, 0);
    } else {
      assert last == s(i - 1) && stable == Streak(s, i - 1);
      assert Streak(s, i) == if s(i) != "" && s(i) == s(i - 1) then Streak(s, i - 1) + 1 else 0;
    }
    if next < 4 {
      forall j | 0 <= j < i + 1
        ensures Streak(s, j) < 4
      {
        if j == i {
          assert Streak(s, j) == next;
        }
      }
    }
  }

  /** Everything `WaitForStableOutput` promises about its samples, for a run that made `scans` passes. */
  predicate StableRun(s: nat -> string, budget: nat, out: string, scans: nat)
  {
    1 <= scans <= budget + 1
    && out == s(scans - 1)
    && (forall j :: 0 <= j < scans - 1 ==> !StableAt(s, j))
    && (scans <= budget ==> StableAt(s, scans - 1))
    && out == PollStable(s, budget)
  }

  /** The loop leaves at pass i when the counter first reaches four there. */
  lemma StableRunEarly(s: nat -> string, budget: nat, i: nat)
    requires i < budget && Streak(s, i) >= 4
    requires forall j :: 0 <= j < i ==> Streak(s, j) < 4
    ensures StableRun(s, budget, s(i), i + 1)
  {
    forall j | 0 <= j < i
      ensures !StableAt(s, j)
    {
      StreakReachesFour(s, j);
    }
    StreakReachesFour(s, i);
    PollStableReturnsFirstStable(s, budget, i);
  }

  /** The loop runs out of budget when the counter never reached four. */
  lemma StableRunTimesOut(s: nat -> string, budget: nat)
    requires forall j :: 0 <= j < budget ==> Streak(s, j) < 4
    ensures StableRun(s, budget, s(budget), budget + 1)
  {
    forall j | 0 <= j < budget
      ensures !StableAt(s, j)
    {
      StreakReachesFour(s, j);
    }
    PollStableTimesOut(s, budget);
  }

  method WaitForStableOutput(scan: nat -> string, budget: nat)
    returns (out: string, scans: nat)
    ensures 1 <= scans <= budget + 1
    ensures out == Samples(scan)(scans - 1)
    ensures forall j :: 0 <= j < scans - 1 ==> !StableAt(Samples(scan), j)
    ensures scans <= budget ==> StableAt(Samples(scan), scans - 1)
    ensures IsTrimmed(out)
    ensures out == PollStable(Samples(scan), budget)
  {
    ghost var s := Samples(scan);
    var last := "";
    var stable := 0;
    var i := 0;
    while i < budget
      invariant 0 <= i <= budget
      invariant StableLoop(s, i, stable, last)
    {
      var cur := scan(i);
      cur := Trim(cur);
      StableLoopStep(s, i, stable, last, cur);
      if cur != "" && cur == last {
        stable := stable + 1;
      } else {
        stable := 0;
      }
      last := cur;
      if stable >= 4 {
        StableRunEarly(s, budget, i);
        SamplesAreTrimmed(scan, i);
        return cur, i + 1;
      }
      i := i + 1;
    }
    StableRunTimesOut(s, budget);
    out := scan(budget);
    out := Trim(out);
    SamplesAreTrimmed(scan, budget);
    scans := budget + 1;
  }

  /**
   * Samples that are one non-empty text from the first pass on end the loop on
   * the fifth pass and no sooner.
   */
  lemma ConstantSourceStabilisesOnFifthPass(s: nat -> string, v: string)
    requires v != "" && forall k :: s(k) == v
    ensures forall j :: 0 <= j < 4 ==> !StableAt(s, j)
    ensures StableAt(s, 4)
  {
  }

  /**
   * The client view of the lemma above: with a budget of at least four
   * iterations the stable poller returns that text after exactly five passes.
   */
  method ConstantSourceReturnsAfterFivePasses(scan: nat -> string, v: string, budget: nat)
    returns (out: string, scans: nat)
    requires v != "" && forall k :: Samples(scan)(k) == v
    requires budget >= 4
    ensures out == v && scans == 5
  {
    ConstantSourceStabilisesOnFifthPass(Samples(scan), v);
    out, scans := WaitForStableOutput(scan, budget);
  }

  /** Over discovery passes, a non-empty result of the stable poller is never an echo of the input. */
  lemma PollStableNeverEchoes(pages: nat -> seq<Element>, input: string, budget: nat)
    ensures var r := PollStable(Samples(Passes(pages, input)), budget); r != "" ==> !IsEcho(r, input)
  {
    SampleIsDiscovery(pages, input, StablePass(Samples(Passes(pages, input)), budget));
  }
}
