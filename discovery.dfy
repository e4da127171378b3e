/**
 * The in-page output discovery of `scanBestOutput`: which visible element of the
 * page holds the translation. Every element matching the structural selector is
 * given as a record in document order; the text of the surviving candidates is
 * scored, the candidates are sorted by descending score (a stable sort), and the
 * best one that contains Sinhala is preferred over the best one overall.
 */
module Discovery {
  import opened Basics
  import opened Text

  /**
   * What the page reports about one element: computed style, bounding box,
   * tag name, form value, rendered text and the attributes that earn a boost.
   * Absent attributes are "".
   */
  datatype Element = Element(
    visibility: string,
    display: string,
    opacityZero: bool,
    width: real,
    height: real,
    tagName: string,
    value: string,
    innerText: string,
    role: string,
    ariaLabel: string,
    className: string,
    id: string)

  /** `isVisible`: not hidden, displayed, not transparent, at least 2 by 2 pixels. */
  predicate IsVisible(el: Element)
  {
    el.visibility != "hidden" && el.display != "none" && !el.opacityZero
    && el.width >= 2.0 && el.height >= 2.0
  }

  predicate IsFormControl(el: Element)
  {
    Lower(el.tagName) == "textarea" || Lower(el.tagName) == "input"
  }

  /** The value of a textarea or input, the rendered text of anything else. */
  function RawText(el: Element): (t: string)
    ensures t == el.value || t == el.innerText
    ensures IsFormControl(el) ==> t == el.value
    ensures !IsFormControl(el) ==> t == el.innerText
  {
    if IsFormControl(el) then el.value else el.innerText
  }

  /** An element's text does not depend on how its tag name is capitalised. */
  lemma RawTextIgnoresTagCase(el: Element, tag: string)
    requires Lower(tag) == Lower(el.tagName)
    ensures RawText(el.(tagName := tag)) == RawText(el)
  {
  }

  /** The tag names as the page reports them in upper case: form controls give their value, other elements their text. */
  lemma RawTextOfReportedTags(el: Element)
    ensures RawText(el.(tagName := "TEXTAREA")) == el.value
    ensures RawText(el.(tagName := "INPUT")) == el.value
    ensures RawText(el.(tagName := "DIV")) == el.innerText
    ensures RawText(el.(tagName := "SPAN")) == el.innerText
  {
    assert Lower("TEXTAREA") == "textarea";
    assert Lower("INPUT") == "input";
    assert Lower("DIV") == "div";
    assert Lower("SPAN") == "span";
  }

  predicate NamesOutput(attr: string)
  {
    Contains(attr, "output") || Contains(attr, "result") || Contains(attr, "translate")
  }

  predicate AriaNamesOutput(attr: string)
  {
    Contains(attr, "output") || Contains(attr, "result") || Contains(attr, "translation")
  }

  /** The structural boost: +10 for role "alert", +6 each for class, id and aria-label hints. */
  function Boost(el: Element): (b: int)
    ensures 0 <= b <= 28
    ensures Lower(el.role) == "alert" <==> b in {10, 16, 22, 28}
    ensures Lower(el.role) != "alert" <==> b in {0, 6, 12, 18}
  {
    (if Lower(el.role) == "alert" then 10 else 0)
    + (if NamesOutput(Lower(el.className)) then 6 else 0)
    + (if NamesOutput(Lower(el.id)) then 6 else 0)
    + (if AriaNamesOutput(Lower(el.ariaLabel)) then 6 else 0)
  }

  /** Ten times the score of the source: 100 per Sinhala character, 10 per boost point, plus min(500, length). */
  function Score(el: Element, t: string): int
  {
    100 * CountSinhala(t) + 10 * Boost(el) + Min(500, |t|)
  }

  /** The score exactly as the source computes it, as a rational number. */
  function SourceScore(el: Element, t: string): real
  {
    10.0 * (CountSinhala(t) as real) + (Boost(el) as real)
    + (if 50.0 <= (|t| as real) / 10.0 then 50.0 else (|t| as real) / 10.0)
  }

  /** The integer score is ten times the source's, so both order the candidates alike. */
  lemma ScoreIsTenTimesSourceScore(el: Element, t: string)
    ensures Score(el, t) as real == 10.0 * SourceScore(el, t)
  {
  }

  lemma ScoreOrderAgrees(el1: Element, t1: string, el2: Element, t2: string)
    ensures Score(el1, t1) < Score(el2, t2) <==> SourceScore(el1, t1) < SourceScore(el2, t2)
    ensures Score(el1, t1) == Score(el2, t2) <==> SourceScore(el1, t1) == SourceScore(el2, t2)
  {
    ScoreIsTenTimesSourceScore(el1, t1);
    ScoreIsTenTimesSourceScore(el2, t2);
  }

  /** The functional suite's score: the Sinhala count enters only when the text has a Sinhala letter at all. */
  function TranslatorScore(el: Element, t: string): int
  {
    100 * (if HasSinhala(t) then CountSinhala(t) else 0) + 10 * Boost(el) + Min(500, |t|)
  }

  /** The conditional count changes nothing: both suites score every candidate alike. */
  lemma TranslatorScoreAgrees(el: Element, t: string)
    ensures TranslatorScore(el, t) == Score(el, t)
  {
  }

  /** One more Sinhala character anywhere in the text strictly raises the score. */
  lemma ScoreRisesWithSinhala(el: Element, a: string, c: char, b: string)
    requires IsSinhala(c)
    ensures Score(el, a + [c] + b) > Score(el, a + b)
  {
    CountSinhalaConcat(a + [c], b);
    CountSinhalaConcat(a, [c]);
    CountSinhalaConcat(a, b);
    assert CountSinhala([c]) == 1;
  }

  datatype Candidate = Candidate(text: string, score: int)

  /** The echo test: the text of a candidate contains the normalised input. */
  predicate IsEcho(t: string, input: string)
  {
    input != "" && Contains(t, Norm(input))
  }

  /** What one element contributes: nothing if hidden, empty after `norm`, or an echo of the input. */
  function CandidateOf(el: Element, input: string): (c: Option<Candidate>)
    ensures c.Some? ==> IsVisible(el) && c.value.text == Norm(RawText(el))
    ensures c.Some? ==> c.value.text != "" && !IsEcho(c.value.text, input)
    ensures c.Some? ==> c.value.score == Score(el, c.value.text)
    ensures c.None? ==> !IsVisible(el) || Norm(RawText(el)) == "" || IsEcho(Norm(RawText(el)), input)
  {
    if !IsVisible(el) then None
    else
      var t := Norm(RawText(el));
      if t == "" || IsEcho(t, input) then None
      else Some(Candidate(t, Score(el, t)))
  }

  /** An element whose normalised text is the normalised input is an echo and never a candidate. */
  lemma ExactEchoIsDropped(el: Element, input: string)
    requires input != "" && Norm(RawText(el)) == Norm(input)
    ensures CandidateOf(el, input).None?
  {
    ContainsSelf(Norm(input));
  }

  /** The element survives the filter: visible, with a non-empty normalised text that is no echo of the input. */
  predicate Survives(el: Element, input: string)
  {
    IsVisible(el) && Norm(RawText(el)) != "" && !IsEcho(Norm(RawText(el)), input)
  }

  /** The candidates of a page, in document order. */
  function Candidates(els: seq<Element>, input: string): (cs: seq<Candidate>)
    ensures |cs| <= |els|
    decreases |els|
  {
    if els == [] then []
    else
      var rest := Candidates(els[..|els| - 1], input);
      match CandidateOf(els[|els| - 1], input)
      case None => rest
      case Some(c) => rest + [c]
  }

  /** Every candidate comes from some element of the page. */
  lemma {:induction false} CandidatesComeFromElements(els: seq<Element>, input: string, k: nat)
    requires k < |Candidates(els, input)|
    ensures exists i :: 0 <= i < |els| && CandidateOf(els[i], input) == Some(Candidates(els, input)[k])
    decreases |els|
  {
    var front := els[..|els| - 1];
    var rest := Candidates(front, input);
    if k < |rest| {
      CandidatesComeFromElements(front, input, k);
      var i :| 0 <= i < |front| && CandidateOf(front[i], input) == Some(rest[k]);
      assert els[i] == front[i];
    } else {
      assert CandidateOf(els[|els| - 1], input) == Some(Candidates(els, input)[k]);
    }
  }

  /** What an element contributes is decided by `Survives` alone. */
  lemma CandidateOfSurvivor(el: Element, input: string)
    ensures CandidateOf(el, input).Some? <==> Survives(el, input)
    ensures Survives(el, input) ==>
      CandidateOf(el, input) == Some(Candidate(Norm(RawText(el)), Score(el, Norm(RawText(el)))))
  {
  }

  /** The positions of the elements that yield a candidate, in increasing order. */
  function Survivors(els: seq<Element>, input: string): seq<nat>
    decreases |els|
  {
    if els == [] then []
    else Survivors(els[..|els| - 1], input) + (if CandidateOf(els[|els| - 1], input).Some? then [|els| - 1] else [])
  }

  /** `idx` lists, in increasing order, positions of `els` whose elements yield the candidates `cs`. */
  predicate IndexesCandidates(els: seq<Element>, input: string, cs: seq<Candidate>, idx: seq<nat>)
  {
    |idx| == |cs|
    && (forall k :: 0 <= k < |idx| ==> idx[k] < |els| && CandidateOf(els[idx[k]], input) == Some(cs[k]))
    && (forall k1, k2 :: 0 <= k1 < k2 < |idx| ==> idx[k1] < idx[k2])
  }

  /** One more element at the end of the page extends the index list by its position, when it yields a candidate. */
  lemma IndexesCandidatesStep(els: seq<Element>, input: string, cs0: seq<Candidate>, idx0: seq<nat>)
    requires els != []
    requires IndexesCandidates(els[..|els| - 1], input, cs0, idx0)
    ensures var n := |els| - 1;
      match CandidateOf(els[n], input)
      case None => IndexesCandidates(els, input, cs0, idx0)
      case Some(c) => IndexesCandidates(els, input, cs0 + [c], idx0 + [n])
  {
    var n := |els| - 1;
    forall k | 0 <= k < |idx0|
      ensures els[idx0[k]] == els[..n][idx0[k]]
    {
    }
  }

  lemma {:induction false} SurvivorsIndexCandidates(els: seq<Element>, input: string)
    ensures IndexesCandidates(els, input, Candidates(els, input), Survivors(els, input))
    decreases |els|
  {
    if els != [] {
      var front := els[..|els| - 1];
      SurvivorsIndexCandidates(front, input);
      IndexesCandidatesStep(els, input, Candidates(front, input), Survivors(front, input));
    }
  }

  /** Every element that yields a candidate has its position listed. */
  lemma {:induction false} SurvivorsAreComplete(els: seq<Element>, input: string, i: nat)
    requires i < |els| && CandidateOf(els[i], input).Some?
    ensures i in Survivors(els, input)
    decreases |els|
  {
    var n := |els| - 1;
    if i < n {
      var front := els[..n];
      assert els[i] == front[i];
      SurvivorsAreComplete(front, input, i);
    }
  }

  /**
   * The candidates are exactly the surviving elements, one each, in document
   * order: the k-th candidate holds the normalised text and the score of the
   * element at the k-th listed position, the positions increase, and an element
   * survives exactly when its position is listed.
   */
  lemma CandidatesAreSurvivors(els: seq<Element>, input: string)
    ensures var cs, idx := Candidates(els, input), Survivors(els, input);
      |idx| == |cs|
      && (forall k :: 0 <= k < |idx| ==>
            idx[k] < |els|
            && cs[k] == Candidate(Norm(RawText(els[idx[k]])), Score(els[idx[k]], Norm(RawText(els[idx[k]])))))
      && (forall k1, k2 :: 0 <= k1 < k2 < |idx| ==> idx[k1] < idx[k2])
      && (forall i :: 0 <= i < |els| ==> (Survives(els[i], input) <==> i in idx))
  {
    var cs, idx := Candidates(els, input), Survivors(els, input);
    SurvivorsIndexCandidates(els, input);
    assert IndexesCandidates(els, input, cs, idx);
    forall k | 0 <= k < |idx|
      ensures cs[k] == Candidate(Norm(RawText(els[idx[k]])), Score(els[idx[k]], Norm(RawText(els[idx[k]]))))
    {
      CandidateOfSurvivor(els[idx[k]], input);
    }
    forall i | 0 <= i < |els|
      ensures Survives(els[i], input) <==> i in idx
    {
      CandidateOfSurvivor(els[i], input);
      if i in idx {
        var k :| 0 <= k < |idx| && idx[k] == i;
      } else if Survives(els[i], input) {
        SurvivorsAreComplete(els, input, i);
      }
    }
  }

  /** The candidate loop: each visible, non-empty, non-echo element is pushed in document order. */
  method ScanCandidates(els: seq<Element>, input: string) returns (cands: seq<Candidate>)
    ensures cands == Candidates(els, input)
  {
    cands := [];
    for i := 0 to |els|
      invariant cands == Candidates(els[..i], input)
    {
      assert els[..i + 1][..i] == els[..i];
      var c := CandidateOf(els[i], input);
      if c.Some? {
        cands := cands + [c.value];
      }
    }
    assert els[..|els|] == els;
  }

  // ---- Sorting by descending score ----

  predicate SortedDesc(s: seq<Candidate>)
  {
    forall i, j :: 0 <= i < j < |s| ==> s[i].score >= s[j].score
  }

  /** A candidate scoring at least the head of a descending sequence keeps it descending. */
  lemma SortedCons(c: Candidate, s: seq<Candidate>)
    requires SortedDesc(s)
    requires s != [] ==> c.score >= s[0].score
    ensures SortedDesc([c] + s)
  {
    var t := [c] + s;
    forall i, j | 0 <= i < j < |t|
      ensures t[i].score >= t[j].score
    {
      assert t[j] == s[j - 1];
      if i > 0 {
        assert t[i] == s[i - 1];
      }
    }
  }

  /** A descending sequence stays descending without its head. */
  lemma SortedTail(s: seq<Candidate>)
    requires SortedDesc(s) && s != []
    ensures SortedDesc(s[1..])
  {
    forall i, j | 0 <= i < j < |s| - 1
      ensures s[1..][i].score >= s[1..][j].score
    {
      assert s[1..][i] == s[i + 1] && s[1..][j] == s[j + 1];
    }
  }

  /** Inserts `c` before the first element that does not outscore it. */
  function Insert(c: Candidate, s: seq<Candidate>): seq<Candidate>
  {
    if s == [] || s[0].score <= c.score then [c] + s
    else [s[0]] + Insert(c, s[1..])
  }

  /** Insertion adds exactly `c`. */
  lemma {:induction false} InsertPermutes(c: Candidate, s: seq<Candidate>)
    ensures multiset(Insert(c, s)) == multiset(s) + multiset{c}
  {
    if !(s == [] || s[0].score <= c.score) {
      InsertPermutes(c, s[1..]);
      assert s == [s[0]] + s[1..];
    }
  }

  /** Insertion into a descending sequence keeps it descending. */
  lemma {:induction false} InsertKeepsSorted(c: Candidate, s: seq<Candidate>)
    requires SortedDesc(s)
    ensures SortedDesc(Insert(c, s))
  {
    if s == [] || s[0].score <= c.score {
      SortedCons(c, s);
    } else {
      var rest := Insert(c, s[1..]);
      SortedTail(s);
      InsertKeepsSorted(c, s[1..]);
      assert rest[0] == c || rest[0] == s[1];
      SortedCons(s[0], rest);
    }
  }

  /**
   * The candidate sort: stable, by descending score.
   * Candidates are inserted from the last one backwards, so an earlier one goes
   * in front of every later one that scores the same.
   */
  function SortDesc(cs: seq<Candidate>): (r: seq<Candidate>)
    ensures SortedDesc(r)
    ensures multiset(r) == multiset(cs)
    ensures |r| == |cs|
  {
    if cs == [] then []
    else
      var rest := SortDesc(cs[1..]);
      assert cs == [cs[0]] + cs[1..];
      InsertPermutes(cs[0], rest);
      InsertKeepsSorted(cs[0], rest);
      Insert(cs[0], rest)
  }

  /** The candidates scoring exactly `v`, in the order of `s`. */
  function ScoreClass(s: seq<Candidate>, v: int): seq<Candidate>
  {
    if s == [] then []
    else (if s[0].score == v then [s[0]] else []) + ScoreClass(s[1..], v)
  }

  /** An insertion step puts `c` in front of every candidate that scores the same. */
  lemma {:induction false} InsertScoreClass(c: Candidate, s: seq<Candidate>, v: int)
    ensures ScoreClass(Insert(c, s), v) == (if c.score == v then [c] else []) + ScoreClass(s, v)
  {
    var mine := if c.score == v then [c] else [];
    if s == [] || s[0].score <= c.score {
      var r := [c] + s;
      assert Insert(c, s) == r && r[0] == c && r[1..] == s;
      assert ScoreClass(r, v) == mine + ScoreClass(s, v);
    } else {
      var rest := Insert(c, s[1..]);
      var r := [s[0]] + rest;
      var head := if s[0].score == v then [s[0]] else [];
      assert Insert(c, s) == r && r[0] == s[0] && r[1..] == rest;
      InsertScoreClass(c, s[1..], v);
      assert ScoreClass(r, v) == head + (mine + ScoreClass(s[1..], v));
      assert ScoreClass(s, v) == head + ScoreClass(s[1..], v);
      assert head == [] || mine == [];
    }
  }

  /** The sort is stable: the candidates of each score keep their relative order. */
  lemma {:induction false} SortDescIsStable(cs: seq<Candidate>, v: int)
    ensures ScoreClass(SortDesc(cs), v) == ScoreClass(cs, v)
  {
    if cs != [] {
      SortDescIsStable(cs[1..], v);
      InsertScoreClass(cs[0], SortDesc(cs[1..]), v);
    }
  }

  // ---- Selection ----

  /** A candidate qualifies for a search: any candidate, or only one whose text has Sinhala. */
  predicate Qualifies(sinhalaOnly: bool, c: Candidate)
  {
    !sinhalaOnly || HasSinhala(c.text)
  }

  /** The array search of the selection step: the first qualifying candidate of a list. */
  function Find(sinhalaOnly: bool, s: seq<Candidate>): (r: Option<Candidate>)
    ensures r.Some? ==> r.value in s && Qualifies(sinhalaOnly, r.value)
    ensures r.Some? ==> exists i :: 0 <= i < |s| && s[i] == r.value && forall j :: 0 <= j < i ==> !Qualifies(sinhalaOnly, s[j])
    ensures r.None? ==> forall k :: 0 <= k < |s| ==> !Qualifies(sinhalaOnly, s[k])
  {
    if s == [] then None
    else if Qualifies(sinhalaOnly, s[0]) then
      Some(s[0])
    else
      var r := Find(sinhalaOnly, s[1..]);
      assert r.Some? ==> exists i :: 0 <= i < |s| && s[i] == r.value && forall j :: 0 <= j < i ==> !Qualifies(sinhalaOnly, s[j]) by {
        if r.Some? {
          var i :| 0 <= i < |s[1..]| && s[1..][i] == r.value && forall j :: 0 <= j < i ==> !Qualifies(sinhalaOnly, s[1..][j]);
          assert s[i + 1] == r.value;
          forall j | 0 <= j < i + 1
            ensures !Qualifies(sinhalaOnly, s[j])
          {
            if j > 0 { assert s[j] == s[1..][j - 1]; }
          }
        }
      }
      r
  }

  /**
   * The reference choice, without sorting: the index of the highest-scoring
   * qualifying candidate, the earliest in document order among equals.
   */
  function Best(sinhalaOnly: bool, cs: seq<Candidate>): (r: Option<nat>)
    ensures r.None? <==> forall j :: 0 <= j < |cs| ==> !Qualifies(sinhalaOnly, cs[j])
    ensures r.Some? ==> r.value < |cs| && Qualifies(sinhalaOnly, cs[r.value])
    ensures r.Some? ==> forall j :: 0 <= j < |cs| && Qualifies(sinhalaOnly, cs[j]) ==> cs[j].score <= cs[r.value].score
    ensures r.Some? ==> forall j :: 0 <= j < r.value && Qualifies(sinhalaOnly, cs[j]) ==> cs[j].score < cs[r.value].score
  {
    if cs == [] then None
    else
      var rest := Best(sinhalaOnly, cs[1..]);
      assert forall j :: 1 <= j < |cs| ==> cs[j] == cs[1..][j - 1];
      if !Qualifies(sinhalaOnly, cs[0]) then
        (match rest case None => None case Some(k) => Some(k + 1))
      else
        match rest
        case None => Some(0)
        case Some(k) => if cs[k + 1].score > cs[0].score then Some(k + 1) else Some(0)
  }

  /** The conditions Best's result satisfies single out one index. */
  lemma BestIsUnique(sinhalaOnly: bool, cs: seq<Candidate>, k: nat)
    requires k < |cs| && Qualifies(sinhalaOnly, cs[k])
    requires forall j :: 0 <= j < |cs| && Qualifies(sinhalaOnly, cs[j]) ==> cs[j].score <= cs[k].score
    requires forall j :: 0 <= j < k && Qualifies(sinhalaOnly, cs[j]) ==> cs[j].score < cs[k].score
    ensures Best(sinhalaOnly, cs) == Some(k)
  {
    var b := Best(sinhalaOnly, cs);
    assert b.Some?;
  }

  function BestCandidate(sinhalaOnly: bool, cs: seq<Candidate>): Option<Candidate>
  {
    match Best(sinhalaOnly, cs)
    case None => None
    case Some(k) => Some(cs[k])
  }

  /** What `Find` returns after `Insert(c, -)`, in terms of what it returned before. */
  function Combine(sinhalaOnly: bool, c: Candidate, f: Option<Candidate>): Option<Candidate>
  {
    if !Qualifies(sinhalaOnly, c) then f
    else match f
      case None => Some(c)
      case Some(b) => if b.score > c.score then Some(b) else Some(c)
  }

  lemma {:induction false} FindInsert(sinhalaOnly: bool, c: Candidate, s: seq<Candidate>)
    requires SortedDesc(s)
    ensures Find(sinhalaOnly, Insert(c, s)) == Combine(sinhalaOnly, c, Find(sinhalaOnly, s))
  {
    if s == [] {
    } else if s[0].score <= c.score {
      assert Insert(c, s) == [c] + s;
      assert ([c] + s)[1..] == s;
      var f := Find(sinhalaOnly, s);
      if f.Some? {
        var k :| 0 <= k < |s| && s[k] == f.value;
        assert f.value.score <= s[0].score;
      }
    } else {
      var rest := s[1..];
      SortedTail(s);
      FindInsert(sinhalaOnly, c, rest);
      assert Insert(c, s) == [s[0]] + Insert(c, rest);
      assert ([s[0]] + Insert(c, rest))[1..] == Insert(c, rest);
    }
  }

  /** The reference choice over `[c] + rest`, in terms of the choice over `rest`. */
  lemma BestCandidateCons(sinhalaOnly: bool, cs: seq<Candidate>)
    requires cs != []
    ensures BestCandidate(sinhalaOnly, cs) == Combine(sinhalaOnly, cs[0], BestCandidate(sinhalaOnly, cs[1..]))
  {
    var rest := Best(sinhalaOnly, cs[1..]);
    if rest.Some? {
      assert cs[rest.value + 1] == cs[1..][rest.value];
    }
  }

  /** The first qualifying candidate after the stable sort is the reference choice. */
  lemma {:induction false} FindSortedIsBest(sinhalaOnly: bool, cs: seq<Candidate>)
    ensures Find(sinhalaOnly, SortDesc(cs)) == BestCandidate(sinhalaOnly, cs)
  {
    if cs != [] {
      var rest := cs[1..];
      var sortedRest := SortDesc(rest);
      FindSortedIsBest(sinhalaOnly, rest);
      FindInsert(sinhalaOnly, cs[0], sortedRest);
      assert SortDesc(cs) == Insert(cs[0], sortedRest);
      BestCandidateCons(sinhalaOnly, cs);
    }
  }

  /** The tail of `scanBestOutput`: the best Sinhala candidate, else the first after sorting, else "". */
  function SelectOutput(sorted: seq<Candidate>): string
  {
    match Find(true, sorted)
    case Some(b) => b.text
    case None => if sorted == [] then "" else sorted[0].text
  }

  /** One discovery pass over a page (`scanBestOutput`). */
  function Discover(els: seq<Element>, input: string): string
  {
    SelectOutput(SortDesc(Candidates(els, input)))
  }

  /** The pass is decided by the reference choice: best Sinhala candidate, else best candidate, else "". */
  lemma DiscoverIsBestChoice(els: seq<Element>, input: string)
    ensures var cs := Candidates(els, input);
      Discover(els, input) ==
        match BestCandidate(true, cs)
        case Some(b) => b.text
        case None =>
          match BestCandidate(false, cs)
          case Some(b) => b.text
          case None => ""
  {
    var cs := Candidates(els, input);
    FindSortedIsBest(true, cs);
    FindSortedIsBest(false, cs);
  }

  /**
   * When some candidate contains Sinhala, the pass returns the text of the
   * highest-scoring such candidate that comes first in document order, whatever
   * the scores of the candidates without Sinhala.
   */
  lemma DiscoverPrefersSinhala(els: seq<Element>, input: string, k: nat)
    requires var cs := Candidates(els, input);
      k < |cs| && HasSinhala(cs[k].text)
      && (forall j :: 0 <= j < |cs| && HasSinhala(cs[j].text) ==> cs[j].score <= cs[k].score)
      && (forall j :: 0 <= j < k && HasSinhala(cs[j].text) ==> cs[j].score < cs[k].score)
    ensures Discover(els, input) == Candidates(els, input)[k].text
    ensures HasSinhala(Discover(els, input))
  {
    BestIsUnique(true, Candidates(els, input), k);
    DiscoverIsBestChoice(els, input);
  }

  /** With no Sinhala candidate, the pass returns the first of the highest-scoring candidates. */
  lemma DiscoverFallsBackToBestScore(els: seq<Element>, input: string, k: nat)
    requires var cs := Candidates(els, input);
      (forall j :: 0 <= j < |cs| ==> !HasSinhala(cs[j].text))
      && k < |cs|
      && (forall j :: 0 <= j < |cs| ==> cs[j].score <= cs[k].score)
      && (forall j :: 0 <= j < k ==> cs[j].score < cs[k].score)
    ensures Discover(els, input) == Candidates(els, input)[k].text
  {
    var cs := Candidates(els, input);
    assert Best(true, cs).None?;
    BestIsUnique(false, cs, k);
    DiscoverIsBestChoice(els, input);
  }

  /** Some candidate with Sinhala makes the result contain Sinhala. */
  lemma DiscoverHasSinhala(els: seq<Element>, input: string)
    requires exists k :: 0 <= k < |Candidates(els, input)| && HasSinhala(Candidates(els, input)[k].text)
    ensures HasSinhala(Discover(els, input))
  {
    var cs := Candidates(els, input);
    DiscoverIsBestChoice(els, input);
    var b := Best(true, cs);
    assert b.Some?;
  }

  /**
   * The result is "" or the normalised text of a visible element; it is never
   * empty white space, and for a non-empty input it never contains the
   * normalised input.
   */
  lemma DiscoverSound(els: seq<Element>, input: string)
    ensures var r := Discover(els, input);
      r == "" || exists i :: 0 <= i < |els| && IsVisible(els[i]) && r == Norm(RawText(els[i]))
    ensures Discover(els, input) != "" ==> !IsEcho(Discover(els, input), input)
    ensures Normalized(Discover(els, input))
  {
    var cs := Candidates(els, input);
    var r := Discover(els, input);
    DiscoverIsBestChoice(els, input);
    var b1, b2 := Best(true, cs), Best(false, cs);
    if b1.Some? || b2.Some? {
      var k := if b1.Some? then b1.value else b2.value;
      assert r == cs[k].text;
      CandidatesComeFromElements(els, input, k);
    } else {
      assert r == "";
    }
  }

  /**
   * A non-empty input of white space only normalises to "", which every text
   * contains, so no element survives and the pass returns "".
   */
  lemma {:induction false} WhitespaceInputHidesEverything(els: seq<Element>, input: string)
    requires input != "" && AllWhitespace(input)
    ensures Candidates(els, input) == []
    ensures Discover(els, input) == ""
    decreases |els|
  {
    NormEmptyIff(input);
    if els != [] {
      var front := els[..|els| - 1];
      var last := els[|els| - 1];
      WhitespaceInputHidesEverything(front, input);
      ContainsEmpty(Norm(RawText(last)));
      assert CandidateOf(last, input) == None;
    }
    assert SortDesc([]) == [];
  }

  /**
   * The echo test uses whatever input text it is given: an input box whose
   * normalised text is non-empty and shorter than the normalised input cannot
   * contain it, so it is no echo and, on a page where it is the only visible
   * element, is what the pass returns.
   */
  lemma PartialEchoIsSelected(box: Element, input: string)
    requires IsVisible(box) && IsFormControl(box)
    requires Norm(box.value) != "" && |Norm(box.value)| < |Norm(input)|
    ensures !IsEcho(Norm(box.value), input)
    ensures Discover([box], input) == Norm(box.value)
  {
    if Contains(Norm(box.value), Norm(input)) {
      ContainsIsNoShorter(Norm(box.value), Norm(input));
    }
    assert [box][..0] == [];
    assert Candidates([box], input) == [Candidate(Norm(box.value), Score(box, Norm(box.value)))];
  }

  /** The in-place version of the pass: scan, sort, then the two searches. */
  method ScanBestOutput(els: seq<Element>, input: string) returns (out: string)
    ensures out == Discover(els, input)
  {
    var cands := ScanCandidates(els, input);
    var sorted := SortDesc(cands);
    var bestSinhala := Find(true, sorted);
    if bestSinhala.Some? {
      return bestSinhala.value.text;
    }
    if |sorted| > 0 {
      return sorted[0].text;
    }
    return "";
  }
}
