/**
 * The spreadsheet side shared by both suites: the grid is the sheet already read
 * as rows of strings. `loadGrid` finds the header row and the five required
 * columns, `getRows` collects the test cases below it, each suite keeps the
 * cases whose ID has one of its two prefixes, and each test writes the Actual
 * and Status cells of its row.
 */
module Grid {
  import opened Basics
  import opened Text

  type Row = seq<string>

  const TcIdHeader: string := "TC ID"
  const InputHeader: string := "Input"
  const ExpectedHeader: string := "Expected output"
  const ActualHeader: string := "Actual output"
  const StatusHeader: string := "Status"

  /** Cell j of a row; a missing cell reads as "". */
  function Cell(row: Row, j: nat): string
  {
    if j < |row| then row[j] else ""
  }

  /** The row has a cell whose trimmed value is exactly "TC ID". */
  predicate HasTcIdCell(row: Row)
  {
    exists j :: 0 <= j < |row| && Trim(row[j]) == TcIdHeader
  }

  /** Row h is the first row with a "TC ID" cell. */
  predicate IsFirstHeaderRow(grid: seq<Row>, h: nat)
  {
    h < |grid| && HasTcIdCell(grid[h]) && forall i :: 0 <= i < h ==> !HasTcIdCell(grid[i])
  }

  /** Column j is the first one whose trimmed header is `name`. */
  predicate IsFirstMatch(row: Row, name: string, j: nat)
  {
    j < |row| && Trim(row[j]) == name && forall i :: 0 <= i < j ==> Trim(row[i]) != name
  }

  predicate HasColumn(row: Row, name: string)
  {
    exists j :: 0 <= j < |row| && Trim(row[j]) == name
  }

  predicate HasAllColumns(row: Row)
  {
    HasColumn(row, TcIdHeader) && HasColumn(row, InputHeader) && HasColumn(row, ExpectedHeader)
    && HasColumn(row, ActualHeader) && HasColumn(row, StatusHeader)
  }

  /** The first header row at or after row `from`. */
  function FindHeaderRow(grid: seq<Row>, from: nat): (r: Option<nat>)
    ensures r.Some? ==> from <= r.value < |grid| && HasTcIdCell(grid[r.value])
    ensures r.Some? ==> forall i :: from <= i < r.value ==> !HasTcIdCell(grid[i])
    ensures r.None? ==> forall i :: from <= i < |grid| ==> !HasTcIdCell(grid[i])
    decreases |grid| - from
  {
    if from >= |grid| then None
    else if HasTcIdCell(grid[from]) then Some(from)
    else FindHeaderRow(grid, from + 1)
  }

  /** The first column at or after `from` whose trimmed header is `name`. */
  function IndexOf(row: Row, name: string, from: nat): (r: Option<nat>)
    ensures r.Some? ==> from <= r.value < |row| && Trim(row[r.value]) == name
    ensures r.Some? ==> forall i :: from <= i < r.value ==> Trim(row[i]) != name
    ensures r.None? ==> forall i :: from <= i < |row| ==> Trim(row[i]) != name
    decreases |row| - from
  {
    if from >= |row| then None
    else if Trim(row[from]) == name then Some(from)
    else IndexOf(row, name, from + 1)
  }

  datatype Columns = Columns(tcId: nat, input: nat, expected: nat, actual: nat, status: nat)

  /** Where `loadGrid` found the header row and the five columns. */
  datatype Layout = Layout(headerRow: nat, cols: Columns)

  datatype LoadError = HeaderNotFound | ColumnsNotFound

  datatype LoadResult = Loaded(layout: Layout) | LoadFailed(error: LoadError)

  /** The column indices of a layout point at five distinct columns. */
  predicate DistinctColumns(c: Columns)
  {
    c.tcId != c.input && c.tcId != c.expected && c.tcId != c.actual && c.tcId != c.status
    && c.input != c.expected && c.input != c.actual && c.input != c.status
    && c.expected != c.actual && c.expected != c.status
    && c.actual != c.status
  }

  /**
   * The header and column lookup of `loadGrid`: on success the header row is the
   * first row with a "TC ID" cell and each column is the first trimmed match of
   * its header; the five columns are distinct.
   */
  function LoadGrid(grid: seq<Row>): (r: LoadResult)
    ensures r.Loaded? ==> IsFirstHeaderRow(grid, r.layout.headerRow)
    ensures r.Loaded? ==> var row, c := grid[r.layout.headerRow], r.layout.cols;
      IsFirstMatch(row, TcIdHeader, c.tcId) && IsFirstMatch(row, InputHeader, c.input)
      && IsFirstMatch(row, ExpectedHeader, c.expected) && IsFirstMatch(row, ActualHeader, c.actual)
      && IsFirstMatch(row, StatusHeader, c.status)
    ensures r.Loaded? ==> DistinctColumns(r.layout.cols)
  {
    match FindHeaderRow(grid, 0)
    case None => LoadFailed(HeaderNotFound)
    case Some(h) =>
      var row := grid[h];
      var tcId, input, expected := IndexOf(row, TcIdHeader, 0), IndexOf(row, InputHeader, 0), IndexOf(row, ExpectedHeader, 0);
      var actual, status := IndexOf(row, ActualHeader, 0), IndexOf(row, StatusHeader, 0);
      if tcId.Some? && input.Some? && expected.Some? && actual.Some? && status.Some? then
        Loaded(Layout(h, Columns(tcId.value, input.value, expected.value, actual.value, status.value)))
      else
        LoadFailed(ColumnsNotFound)
  }

  lemma FirstHeaderRowIsUnique(grid: seq<Row>, h1: nat, h2: nat)
    requires IsFirstHeaderRow(grid, h1) && IsFirstHeaderRow(grid, h2)
    ensures h1 == h2
  {
  }

  lemma IndexOfFindsColumn(row: Row, name: string)
    ensures IndexOf(row, name, 0).Some? <==> HasColumn(row, name)
  {
    if HasColumn(row, name) {
      var j :| 0 <= j < |row| && Trim(row[j]) == name;
    }
  }

  /**
   * Loading fails with HeaderNotFound exactly when no row has a "TC ID" cell;
   * otherwise it succeeds exactly when the first such row holds all five headers.
   */
  lemma LoadGridFailsExactly(grid: seq<Row>)
    ensures LoadGrid(grid) == LoadFailed(HeaderNotFound) <==> forall i :: 0 <= i < |grid| ==> !HasTcIdCell(grid[i])
    ensures forall h: nat :: IsFirstHeaderRow(grid, h) ==> (LoadGrid(grid).Loaded? <==> HasAllColumns(grid[h]))
  {
    var f := FindHeaderRow(grid, 0);
    if f.Some? {
      var row := grid[f.value];
      IndexOfFindsColumn(row, TcIdHeader);
      IndexOfFindsColumn(row, InputHeader);
      IndexOfFindsColumn(row, ExpectedHeader);
      IndexOfFindsColumn(row, ActualHeader);
      IndexOfFindsColumn(row, StatusHeader);
      forall h: nat | IsFirstHeaderRow(grid, h) ensures h == f.value {
        FirstHeaderRowIsUnique(grid, h, f.value);
      }
    }
  }

  /** One scheduled test case: its row, its trimmed ID, its raw input and expected text. */
  datatype TestCase = TestCase(r: nat, tc: string, input: string, expected: string)

  /** The test case that row r describes. */
  function CaseAt(grid: seq<Row>, cols: Columns, r: nat): TestCase
    requires r < |grid|
  {
    TestCase(r, Trim(Cell(grid[r], cols.tcId)), Cell(grid[r], cols.input), Cell(grid[r], cols.expected))
  }

  predicate IsCaseRow(grid: seq<Row>, cols: Columns, r: nat)
    requires r < |grid|
  {
    Trim(Cell(grid[r], cols.tcId)) != ""
  }

  predicate IncreasingRows(rows: seq<TestCase>)
  {
    forall i, j :: 0 <= i < j < |rows| ==> rows[i].r < rows[j].r
  }

  /** What `getRows` has collected once it has looked at the rows before r. */
  ghost predicate CollectedBefore(grid: seq<Row>, layout: Layout, rows: seq<TestCase>, r: nat)
  {
    (forall i :: 0 <= i < |rows| ==>
      layout.headerRow < rows[i].r < r && rows[i].r < |grid| && IsCaseRow(grid, layout.cols, rows[i].r)
      && rows[i] == CaseAt(grid, layout.cols, rows[i].r))
    && IncreasingRows(rows)
    && (forall q :: layout.headerRow < q < r && q < |grid| && IsCaseRow(grid, layout.cols, q) ==>
        exists i :: 0 <= i < |rows| && rows[i].r == q)
  }

  lemma CollectCase(grid: seq<Row>, layout: Layout, rows: seq<TestCase>, r: nat)
    requires layout.headerRow < r < |grid| && IsCaseRow(grid, layout.cols, r)
    requires CollectedBefore(grid, layout, rows, r)
    ensures CollectedBefore(grid, layout, rows + [CaseAt(grid, layout.cols, r)], r + 1)
  {
    var next := rows + [CaseAt(grid, layout.cols, r)];
    forall i | 0 <= i < |next|
      ensures layout.headerRow < next[i].r < r + 1 && next[i].r < |grid| && IsCaseRow(grid, layout.cols, next[i].r)
      ensures next[i] == CaseAt(grid, layout.cols, next[i].r)
    {
      if i < |rows| {
        assert next[i] == rows[i];
      }
    }
    forall i, j | 0 <= i < j < |next|
      ensures next[i].r < next[j].r
    {
      assert next[i] == rows[i];
      if j < |rows| {
        assert next[j] == rows[j];
      }
    }
    forall q | layout.headerRow < q < r + 1 && q < |grid| && IsCaseRow(grid, layout.cols, q)
      ensures exists i :: 0 <= i < |next| && next[i].r == q
    {
      if q == r {
        assert next[|next| - 1].r == q;
      } else {
        var i :| 0 <= i < |rows| && rows[i].r == q;
        assert next[i].r == q;
      }
    }
  }

  lemma SkipRow(grid: seq<Row>, layout: Layout, rows: seq<TestCase>, r: nat)
    requires layout.headerRow < r < |grid| && !IsCaseRow(grid, layout.cols, r)
    requires CollectedBefore(grid, layout, rows, r)
    ensures CollectedBefore(grid, layout, rows, r + 1)
  {
  }

  /**
   * `getRows`: in increasing row order, exactly the rows after the header whose
   * trimmed TC ID is not empty, each read as its test case.
   */
  method GetRows(grid: seq<Row>, layout: Layout) returns (rows: seq<TestCase>)
    ensures forall i :: 0 <= i < |rows| ==>
      layout.headerRow < rows[i].r < |grid| && IsCaseRow(grid, layout.cols, rows[i].r)
      && rows[i] == CaseAt(grid, layout.cols, rows[i].r)
    ensures IncreasingRows(rows)
    ensures forall r :: layout.headerRow < r < |grid| && IsCaseRow(grid, layout.cols, r) ==>
      exists i :: 0 <= i < |rows| && rows[i].r == r
  {
    rows := [];
    var r := layout.headerRow + 1;
    while r < |grid|
      invariant layout.headerRow < r
      invariant CollectedBefore(grid, layout, rows, r)
      decreases |grid| - r
    {
      var tc := Trim(Cell(grid[r], layout.cols.tcId));
      if tc != "" {
        var input := Cell(grid[r], layout.cols.input);
        var expected := Cell(grid[r], layout.cols.expected);
        CollectCase(grid, layout, rows, r);
        rows := rows + [TestCase(r, tc, input, expected)];
      } else {
        SkipRow(grid, layout, rows, r);
      }
      r := r + 1;
    }
  }

  predicate HasPrefix(tc: string, p: string, q: string)
  {
    p <= tc || q <= tc
  }

  /** A row in front of increasing rows that all come after it keeps them increasing. */
  lemma IncreasingCons(x: TestCase, rest: seq<TestCase>)
    requires IncreasingRows(rest)
    requires forall y :: y in rest ==> x.r < y.r
    ensures IncreasingRows([x] + rest)
  {
    var s := [x] + rest;
    forall i, j | 0 <= i < j < |s|
      ensures s[i].r < s[j].r
    {
      assert s[j] == rest[j - 1];
      if i > 0 {
        assert s[i] == rest[i - 1];
      }
    }
  }

  /** The cases whose ID starts with `p` or with `q`, in their order. */
  function SelectByPrefix(rows: seq<TestCase>, p: string, q: string): (r: seq<TestCase>)
    ensures forall x :: x in r <==> x in rows && HasPrefix(x.tc, p, q)
    ensures IncreasingRows(rows) ==> IncreasingRows(r)
    ensures |r| <= |rows|
  {
    if rows == [] then []
    else
      var rest := SelectByPrefix(rows[1..], p, q);
      assert forall x :: x in rows <==> x == rows[0] || x in rows[1..] by {
        assert rows == [rows[0]] + rows[1..];
      }
      assert IncreasingRows(rows) ==> IncreasingRows([rows[0]] + rest) by {
        if IncreasingRows(rows) {
          forall x | x in rest ensures rows[0].r < x.r {
            var k :| 0 <= k < |rows[1..]| && rows[1..][k] == x;
            assert rows[k + 1] == x;
          }
          IncreasingCons(rows[0], rest);
        }
      }
      if HasPrefix(rows[0].tc, p, q) then [rows[0]] + rest else rest
  }

  /** The rows `getRows` promises to return, read from the grid. */
  predicate RowsOfGrid(grid: seq<Row>, layout: Layout, rows: seq<TestCase>)
  {
    (forall i :: 0 <= i < |rows| ==>
      layout.headerRow < rows[i].r < |grid| && IsCaseRow(grid, layout.cols, rows[i].r)
      && rows[i] == CaseAt(grid, layout.cols, rows[i].r))
    && IncreasingRows(rows)
    && (forall r :: layout.headerRow < r < |grid| && IsCaseRow(grid, layout.cols, r) ==>
        exists i :: 0 <= i < |rows| && rows[i].r == r)
  }

  /**
   * The cases a suite runs: in increasing row order, exactly the case rows after
   * the header whose trimmed ID starts with p or q, each read as its test case.
   */
  predicate CasesOfGrid(grid: seq<Row>, layout: Layout, p: string, q: string, cases: seq<TestCase>)
  {
    (forall i :: 0 <= i < |cases| ==>
      layout.headerRow < cases[i].r < |grid| && cases[i] == CaseAt(grid, layout.cols, cases[i].r)
      && HasPrefix(cases[i].tc, p, q))
    && IncreasingRows(cases)
    && (forall r :: (layout.headerRow < r < |grid| && IsCaseRow(grid, layout.cols, r)
        && HasPrefix(CaseAt(grid, layout.cols, r).tc, p, q)) ==>
        exists i :: 0 <= i < |cases| && cases[i].r == r)
  }

  /** Filtering keeps what `getRows` promises, for the rows whose ID has one of the two prefixes. */
  lemma SelectedRowsOfGrid(grid: seq<Row>, layout: Layout, rows: seq<TestCase>, p: string, q: string)
    requires RowsOfGrid(grid, layout, rows)
    ensures CasesOfGrid(grid, layout, p, q, SelectByPrefix(rows, p, q))
  {
    var cases := SelectByPrefix(rows, p, q);
    forall i | 0 <= i < |cases|
      ensures layout.headerRow < cases[i].r < |grid| && cases[i] == CaseAt(grid, layout.cols, cases[i].r)
        && HasPrefix(cases[i].tc, p, q)
    {
      assert cases[i] in rows;
    }
    forall r | layout.headerRow < r < |grid| && IsCaseRow(grid, layout.cols, r)
        && HasPrefix(CaseAt(grid, layout.cols, r).tc, p, q)
      ensures exists i :: 0 <= i < |cases| && cases[i].r == r
    {
      var j :| 0 <= j < |rows| && rows[j].r == r;
      assert rows[j] in cases;
    }
  }

  /**
   * The rows `getRows` collects, filtered by the two ID prefixes:
   * in increasing row order, exactly the case rows after the header whose ID has one of the prefixes.
   */
  method SelectCases(grid: seq<Row>, layout: Layout, p: string, q: string) returns (cases: seq<TestCase>)
    ensures CasesOfGrid(grid, layout, p, q, cases)
  {
    var rows := GetRows(grid, layout);
    SelectedRowsOfGrid(grid, layout, rows, p, q);
    cases := SelectByPrefix(rows, p, q);
  }

  datatype Status = Pass | Fail

  function StatusText(s: Status): (t: string)
    ensures t == "Pass" <==> s == Pass
    ensures t == "Fail" <==> s == Fail
  {
    match s
    case Pass => "Pass"
    case Fail => "Fail"
  }

  /** Different statuses are written as different texts, so the Status cell tells them apart. */
  lemma StatusTextInjective(a: Status, b: Status)
    ensures StatusText(a) == StatusText(b) <==> a == b
  {
    if a != b {
      assert StatusText(a)[0] != StatusText(b)[0];
    }
  }

  /** Writing cell j of a row: a row that is too short grows, and the gap reads as "". */
  function SetCell(row: Row, j: nat, v: string): (r: Row)
    ensures |r| == Max(|row|, j + 1)
    ensures Cell(r, j) == v
    ensures forall i :: i != j ==> Cell(r, i) == Cell(row, i)
  {
    if j < |row| then row[j := v] else row + seq(j - |row|, _ => "") + [v]
  }

  /** The grid after one test wrote its Actual and Status cells. */
  function WithResult(grid: seq<Row>, r: nat, cols: Columns, actual: string, status: Status): (g: seq<Row>)
    requires r < |grid|
    ensures |g| == |grid|
  {
    grid[r := SetCell(SetCell(grid[r], cols.actual, actual), cols.status, StatusText(status))]
  }

  /**
   * Writing a result changes exactly two cells, Actual and Status of row r;
   * every other cell of every row reads as before.
   */
  lemma WithResultChangesTwoCells(grid: seq<Row>, r: nat, cols: Columns, actual: string, status: Status)
    requires r < |grid| && cols.actual != cols.status
    ensures var g := WithResult(grid, r, cols, actual, status);
      Cell(g[r], cols.actual) == actual && Cell(g[r], cols.status) == StatusText(status)
      && (forall j :: j != cols.actual && j != cols.status ==> Cell(g[r], j) == Cell(grid[r], j))
      && (forall i :: 0 <= i < |grid| && i != r ==> g[i] == grid[i])
  {
  }

  /** Writing results never changes a test case read from the grid with the same layout. */
  lemma WithResultKeepsCases(grid: seq<Row>, r: nat, cols: Columns, actual: string, status: Status, q: nat)
    requires r < |grid| && q < |grid| && DistinctColumns(cols)
    ensures CaseAt(WithResult(grid, r, cols, actual, status), cols, q) == CaseAt(grid, cols, q)
  {
    WithResultChangesTwoCells(grid, r, cols, actual, status);
  }

  /** One planned write, as the suites collect them: the row, its Actual text and its status. */
  datatype Update = Update(r: nat, actual: string, status: Status)

  /** Every update names a row of the grid. */
  predicate UpdatesFit(grid: seq<Row>, us: seq<Update>)
  {
    forall k :: 0 <= k < |us| ==> us[k].r < |grid|
  }

  /** No two updates name the same row. */
  predicate DistinctRows(us: seq<Update>)
  {
    forall i, j :: 0 <= i < j < |us| ==> us[i].r != us[j].r
  }

  /** The grid after the updates were written one after the other, each by `WithResult`. */
  function ApplyUpdates(grid: seq<Row>, cols: Columns, us: seq<Update>): (g: seq<Row>)
    requires UpdatesFit(grid, us)
    ensures |g| == |grid|
    decreases |us|
  {
    if us == [] then grid
    else
      var u := us[|us| - 1];
      WithResult(ApplyUpdates(grid, cols, us[..|us| - 1]), u.r, cols, u.actual, u.status)
  }

  /** Writing one more update is one more `WithResult` on the grid written so far. */
  lemma ApplyUpdatesSnoc(grid: seq<Row>, cols: Columns, us: seq<Update>, u: Update)
    requires UpdatesFit(grid, us) && u.r < |grid|
    ensures UpdatesFit(grid, us + [u])
    ensures ApplyUpdates(grid, cols, us + [u]) == WithResult(ApplyUpdates(grid, cols, us), u.r, cols, u.actual, u.status)
  {
    assert (us + [u])[..|us|] == us;
  }

  /** When the updates name distinct rows, each row ends up holding its own update's Actual and Status. */
  lemma {:induction false} ApplyUpdatesResult(grid: seq<Row>, cols: Columns, us: seq<Update>, k: nat)
    requires UpdatesFit(grid, us) && DistinctRows(us) && cols.actual != cols.status
    requires k < |us|
    ensures var g := ApplyUpdates(grid, cols, us);
      Cell(g[us[k].r], cols.actual) == us[k].actual && Cell(g[us[k].r], cols.status) == StatusText(us[k].status)
    decreases |us|
  {
    var n := |us| - 1;
    var prefix := us[..n];
    var prev := ApplyUpdates(grid, cols, prefix);
    WithResultChangesTwoCells(prev, us[n].r, cols, us[n].actual, us[n].status);
    if k < n {
      assert prefix[k] == us[k];
      ApplyUpdatesResult(grid, cols, prefix, k);
    }
  }

  /** A row no update names is left exactly as it was. */
  lemma {:induction false} ApplyUpdatesUntouched(grid: seq<Row>, cols: Columns, us: seq<Update>, i: nat)
    requires UpdatesFit(grid, us) && i < |grid|
    requires forall k :: 0 <= k < |us| ==> us[k].r != i
    ensures ApplyUpdates(grid, cols, us)[i] == grid[i]
    decreases |us|
  {
    if us != [] {
      var prefix := us[..|us| - 1];
      ApplyUpdatesUntouched(grid, cols, prefix, i);
    }
  }

  /** With distinct columns, writing results never changes the test case any row describes. */
  lemma {:induction false} ApplyUpdatesKeepsCases(grid: seq<Row>, cols: Columns, us: seq<Update>, q: nat)
    requires UpdatesFit(grid, us) && q < |grid| && DistinctColumns(cols)
    ensures CaseAt(ApplyUpdates(grid, cols, us), cols, q) == CaseAt(grid, cols, q)
    decreases |us|
  {
    if us != [] {
      var prefix := us[..|us| - 1];
      var u := us[|us| - 1];
      ApplyUpdatesKeepsCases(grid, cols, prefix, q);
      WithResultKeepsCases(ApplyUpdates(grid, cols, prefix), u.r, cols, u.actual, u.status, q);
    }
  }

  /** Updates made for cases in increasing row order name distinct rows. */
  lemma CaseUpdatesDistinct(cases: seq<TestCase>, us: seq<Update>)
    requires IncreasingRows(cases) && |us| == |cases|
    requires forall i :: 0 <= i < |us| ==> us[i].r == cases[i].r
    ensures DistinctRows(us)
  {
    forall i, j | 0 <= i < j < |us|
      ensures us[i].r != us[j].r
    {
      assert cases[i].r < cases[j].r;
    }
  }

  /**
   * Once one update per case has been written, the row of every case holds that
   * case's own Actual text and Status, every row without a case is as it was,
   * and every test case the grid describes reads the same.
   */
  lemma EachCaseHoldsItsResult(grid: seq<Row>, layout: Layout, cases: seq<TestCase>, us: seq<Update>, i: nat, q: nat)
    requires LoadGrid(grid) == Loaded(layout)
    requires IncreasingRows(cases) && |us| == |cases|
    requires forall k :: 0 <= k < |us| ==> us[k].r == cases[k].r && cases[k].r < |grid|
    requires i < |cases| && q < |grid|
    ensures UpdatesFit(grid, us)
    ensures var g := ApplyUpdates(grid, layout.cols, us);
      Cell(g[cases[i].r], layout.cols.actual) == us[i].actual
      && Cell(g[cases[i].r], layout.cols.status) == StatusText(us[i].status)
      && ((forall k :: 0 <= k < |cases| ==> cases[k].r != q) ==> g[q] == grid[q])
      && CaseAt(g, layout.cols, q) == CaseAt(grid, layout.cols, q)
  {
    CaseUpdatesDistinct(cases, us);
    ApplyUpdatesResult(grid, layout.cols, us, i);
    if forall k :: 0 <= k < |cases| ==> cases[k].r != q {
      ApplyUpdatesUntouched(grid, layout.cols, us, q);
    }
    ApplyUpdatesKeepsCases(grid, layout.cols, us, q);
  }

  /** The state a suite keeps while its tests run: the loaded grid and the list of updates. */
  class Suite {
    var grid: seq<Row>
    var updates: seq<Update>

    constructor (grid: seq<Row>)
      ensures this.grid == grid && updates == []
    {
      this.grid := grid;
      updates := [];
    }

    /**
     * The suite started on `start` and has recorded the first k of the updates
     * `want`, each written into its row by `WithResult`.
     */
    ghost predicate Wrote(start: seq<Row>, cols: Columns, want: seq<Update>, k: nat)
      reads this
      requires k <= |want|
    {
      updates == want[..k] && UpdatesFit(start, updates) && grid == ApplyUpdates(start, cols, updates)
    }

    /** Records one test's outcome: appends the update and overwrites the row's two result cells. */
    method Record(r: nat, cols: Columns, actual: string, status: Status)
      requires r < |grid|
      modifies this
      ensures updates == old(updates) + [Update(r, actual, status)]
      ensures grid == WithResult(old(grid), r, cols, actual, status)
    {
      updates := updates + [Update(r, actual, status)];
      grid := WithResult(grid, r, cols, actual, status);
    }

    /** Records the k-th of the planned updates, keeping `Wrote` one step further. */
    method RecordNext(ghost start: seq<Row>, cols: Columns, ghost want: seq<Update>, ghost k: nat, u: Update)
      requires k < |want| && want[k] == u && u.r < |start|
      requires Wrote(start, cols, want, k)
      modifies this
      ensures Wrote(start, cols, want, k + 1)
    {
      assert want[..k + 1] == want[..k] + [u];
      ApplyUpdatesSnoc(start, cols, updates, u);
      Record(u.r, cols, u.actual, u.status);
    }
  }
}
