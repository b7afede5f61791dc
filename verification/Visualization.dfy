/**
 The handler behind the charts (internal/http/visualization.go): it finds the analysis of a completed
 upload, anchors the window at the last month with a transaction, and assembles the page from the
 chart queries.  Which read fails, and today's date, come from outside.
 */
module Visualization {
  import opened Calendar
  import opened Charts
  import opened Groups
  import opened Store
  import opened Tables
  import opened Window

  datatype Read =
    | UploadRead | AnalysisRead | BoundsRead | SummaryRead
    | IncomeRead | CategoryRead | CellRead | SplitRead | BalanceRead

  datatype IncomePoint = IncomePoint(month: int, income: int, spending: int, net: int)

  datatype CategorySlice = CategorySlice(category: string, amount: int, count: int, share: real)

  datatype PresentCharts = PresentCharts(
    income: seq<IncomePoint>, categories: seq<CategorySlice>, cells: seq<MonthCategoryRow>,
    split: seq<MonthPair>, balance: seq<BalanceRow>)

  datatype Page = Page(
    analysisId: Uuid, currency: string, window: MonthWindow,
    present: PresentCharts, totals: SummaryRow, summary: Summary)

  datatype Reply =
    | NotFound | NotCompleted(status: Status) | NoAnalysis | ServerError
    | BadWindow(problem: Problem) | Served(page: Page)

  function IncomePointOf(row: MonthPair): IncomePoint {
    IncomePoint(row.month, row.left, row.right, row.left - row.right)
  }

  function SliceOf(totalSpending: int): CategoryRow -> CategorySlice {
    (row: CategoryRow) => CategorySlice(row.category, row.amount, row.count, Share(row, totalSpending))
  }

  function Same<T>(row: T): T {
    row
  }

  function PresentOf(rows: seq<Transaction>, totalSpending: int): PresentCharts {
    PresentCharts(
      MapSlice(MonthlyIncomeVsSpending(rows), IncomePointOf), MapSlice(CategoryBreakdown(rows), SliceOf(totalSpending)),
      MonthlyByCategory(rows), EssentialVsDiscretionary(rows), BalanceOverTime(rows))
  }

  predicate ChartReadFails(fails: Read -> bool) {
    fails(SummaryRead) || fails(IncomeRead) || fails(CategoryRead) || fails(CellRead) || fails(SplitRead)
      || fails(BalanceRead)
  }

  function OfAnalysis(a: Uuid): Transaction -> bool {
    (t: Transaction) => t.analysisId == a
  }

  /** MAX(date_trunc('month', txn_date)); None is NULL. */
  function LastMonth(rows: seq<Transaction>): Option<Date> {
    if rows == [] then None
    else
      var month, rest := FirstOfMonth(rows[0].entry.date), LastMonth(rows[1..]);
      if rest.Some? && MonthIndex(rest.value) > MonthIndex(month) then rest else Some(month)
  }

  /** MIN(date_trunc('month', txn_date)). */
  function FirstMonth(rows: seq<Transaction>): Option<Date> {
    if rows == [] then None
    else
      var month, rest := FirstOfMonth(rows[0].entry.date), FirstMonth(rows[1..]);
      if rest.Some? && MonthIndex(rest.value) < MonthIndex(month) then rest else Some(month)
  }

  function AnchorMonth(lastMonth: Option<Date>, periodEnd: Option<Day>, today: Day): Date {
    if lastMonth.Some? then lastMonth.value else if periodEnd.Some? then periodEnd.value else today
  }

  /** The anchor of an analysis as it is stored. */
  function AnchorOf(db: Database, a: Uuid, today: Day): (d: Date)
    requires a in db.analyses
    ensures Valid(d)
  {
    LastMonthMeaning(Filter(db.transactions, OfAnalysis(a)));
    AnchorMonth(LastMonth(Filter(db.transactions, OfAnalysis(a))), db.analyses[a].periodEnd, today)
  }

  lemma {:induction false} LastMonthMeaning(rows: seq<Transaction>)
    ensures LastMonth(rows).None? <==> rows == []
    ensures LastMonth(rows).Some? ==>
      var last := LastMonth(rows).value;
      && FirstDay(last) && (forall t | t in rows :: MonthOf(t) <= MonthIndex(last))
      && exists t :: t in rows && MonthOf(t) == MonthIndex(last)
  {
    if rows != [] {
      LastMonthMeaning(rows[1..]);
      assert forall t | t in rows :: t == rows[0] || t in rows[1..];
      assert rows[0] in rows && MonthOf(rows[0]) == MonthIndex(FirstOfMonth(rows[0].entry.date));
    }
  }

  lemma {:induction false} FirstMonthMeaning(rows: seq<Transaction>)
    ensures FirstMonth(rows).None? <==> rows == []
    ensures FirstMonth(rows).Some? ==>
      var first := FirstMonth(rows).value;
      && FirstDay(first) && (forall t | t in rows :: MonthOf(t) >= MonthIndex(first))
      && exists t :: t in rows && MonthOf(t) == MonthIndex(first)
  {
    if rows != [] {
      FirstMonthMeaning(rows[1..]);
      assert forall t | t in rows :: t == rows[0] || t in rows[1..];
      assert rows[0] in rows && MonthOf(rows[0]) == MonthIndex(FirstOfMonth(rows[0].entry.date));
    }
  }

  /** The window a request resolves to against the anchor of the analysis. */
  function WindowFor(db: Database, query: Query, a: Uuid, today: Day): Window.Result<MonthWindow>
    requires a in db.analyses
  {
    ResolveWindow(query, AnchorOf(db, a, today))
  }

  class VisualizationHandler {
    const store: Store

    constructor (store: Store)
      ensures this.store == store
    {
      this.store := store;
    }

    /** Five reads and their conversions; the first read that fails ends it. */
    method BuildPresent(a: Uuid, w: MonthWindow, totalSpending: int, fails: Read -> bool)
      returns (r: Option<PresentCharts>)
      requires WholeMonths(w)
      ensures r.None? <==>
        fails(IncomeRead) || fails(CategoryRead) || fails(CellRead) || fails(SplitRead) || fails(BalanceRead)
      ensures r.Some? ==> r.value == PresentOf(Selected(store.transactions, a, w), totalSpending)
    {
      var rows := Selected(store.transactions, a, w);
      if fails(IncomeRead) || fails(CategoryRead) || fails(CellRead) || fails(SplitRead) || fails(BalanceRead) {
        return None;
      }
      var income := Mapped(MonthlyIncomeVsSpending(rows), IncomePointOf);
      var categories := Mapped(CategoryBreakdown(rows), SliceOf(totalSpending));
      var cells := Mapped(MonthlyByCategory(rows), Same<MonthCategoryRow>);
      var split := Mapped(EssentialVsDiscretionary(rows), Same<MonthPair>);
      var balance := Mapped(BalanceOverTime(rows), Same<BalanceRow>);
      return Some(PresentCharts(income, categories, cells, split, balance));
    }

    /**
     `found` is the analysis the page would be drawn from; the caller sees only `r`.  A page is served
     exactly for a completed upload with an analysis, a window that resolves and no failing read that
     is reached, and every other reply has its exact cause.
     */
    method Get(u: Uuid, query: Query, today: Day, fails: Read -> bool) returns (r: Reply, found: Option<Uuid>)
      ensures r.NotFound? <==> !fails(UploadRead) && u !in store.uploads
      ensures r.NotCompleted? <==> !fails(UploadRead) && u in store.uploads && store.uploads[u].status != Completed
      ensures r.NotCompleted? ==> r.status == store.uploads[u].status
      ensures found.Some? ==> found.value in AnalysesOf(store.View(), u)
      ensures var ready := !fails(UploadRead) && u in store.uploads && store.uploads[u].status == Completed;
        && (r.NoAnalysis? <==> ready && !fails(AnalysisRead) && AnalysesOf(store.View(), u) == {})
        && (found.Some? <==> ready && !fails(AnalysisRead) && AnalysesOf(store.View(), u) != {})
        && (r.ServerError? <==>
             || fails(UploadRead)
             || (ready && fails(AnalysisRead))
             || (found.Some? && fails(BoundsRead))
             || (found.Some? && WindowFor(store.View(), query, found.value, today).Ok? && ChartReadFails(fails)))
      ensures r.BadWindow?
        <==> found.Some? && !fails(BoundsRead) && WindowFor(store.View(), query, found.value, today).Err?
      ensures r.BadWindow? ==> WindowFor(store.View(), query, found.value, today) == Window.Result.Err(r.problem)
      ensures r.Served? <==>
        && found.Some? && !fails(BoundsRead)
        && WindowFor(store.View(), query, found.value, today).Ok? && !ChartReadFails(fails)
      ensures r.Served? ==>
        var page := r.page;
        && page.analysisId == found.value && page.currency == store.analyses[found.value].currency
        && WindowFor(store.View(), query, found.value, today) == Window.Result.Ok(page.window)
        && WholeMonths(page.window)
        && var rows := Selected(store.transactions, found.value, page.window);
           && page.totals == WindowSummary(rows) && page.summary == BuildSummary(page.totals)
           && page.present == PresentOf(rows, page.totals.totalSpending)
    {
      if fails(UploadRead) {
        return ServerError, None;
      }
      if u !in store.uploads {
        return NotFound, None;
      }
      if store.uploads[u].status != Completed {
        return NotCompleted(store.uploads[u].status), None;
      }
      if fails(AnalysisRead) {
        return ServerError, None;
      }
      var ids := set a | a in store.analyses && store.analyses[a].uploadId == u;
      if ids == {} {
        return NoAnalysis, None;
      }
      var a :| a in ids;
      found := Some(a);
      if fails(BoundsRead) {
        return ServerError, found;
      }
      LastMonthMeaning(Filter(store.transactions, OfAnalysis(a)));
      var lastMonth := LastMonth(Filter(store.transactions, OfAnalysis(a)));
      var anchor := AnchorMonth(lastMonth, store.analyses[a].periodEnd, today);
      var resolved := ResolveWindow(query, anchor);
      if resolved.Err? {
        return BadWindow(resolved.problem), found;
      }
      var w := resolved.value;
      ResolvedIsWhole(query, anchor);
      if fails(SummaryRead) {
        return ServerError, found;
      }
      var totals := WindowSummary(Selected(store.transactions, a, w));
      var present := BuildPresent(a, w, totals.totalSpending, fails);
      if present.None? {
        return ServerError, found;
      }
      return Served(Page(a, store.analyses[a].currency, w, present.value, totals, BuildSummary(totals))), found;
    }
  }

  lemma ResolvedIsWhole(q: Query, anchor: Date)
    requires Valid(anchor) && ResolveWindow(q, anchor).Ok?
    ensures WholeMonths(ResolveWindow(q, anchor).value)
  {
    MalformedIsRejected(q, anchor);
    WindowResolution(q, anchor);
  }

  /******* The default window *******/

  /**
   With only `months` given, the window of an analysis with transactions is never empty, and leaves
   out exactly the transactions whose month lies `months` or more before the last month with one.
   */
  lemma DefaultWindowHolds(table: seq<Transaction>, a: Uuid, q: Query, periodEnd: Option<Day>, today: Day)
    requires q.from == "" && q.to == "" && WellFormed(q)
    ensures var mine := Filter(table, OfAnalysis(a)); var anchor := AnchorMonth(LastMonth(mine), periodEnd, today);
      && Valid(anchor) && ResolveWindow(q, anchor).Ok? && WholeMonths(ResolveWindow(q, anchor).value)
      && var rows := Selected(table, a, ResolveWindow(q, anchor).value);
         && (mine != [] ==> rows != [])
         && (forall t | t in mine :: t in rows <==> MonthOf(t) > MonthIndex(anchor) - ParseMonths(q.months).value)
  {
    var mine := Filter(table, OfAnalysis(a));
    var anchor := AnchorMonth(LastMonth(mine), periodEnd, today);
    LastMonthMeaning(mine);
    WindowSpan(q, anchor);
    var w := ResolveWindow(q, anchor).value;
    SelectedByMonth(table, a, w);
    if mine != [] {
      var t :| t in mine && MonthOf(t) == MonthIndex(anchor);
      assert t in Selected(table, a, w);
    }
  }

  /**
   Without `from` and `to` the window ends with the last month that has a transaction; without any
   transaction, with the month the statements end in; and without that, with the current one.
   */
  lemma DefaultWindowEnds(db: Database, a: Uuid, q: Query, today: Day)
    requires a in db.analyses && q.from == "" && q.to == "" && WellFormed(q)
    ensures WindowFor(db, q, a, today).Ok?
    ensures var w, mine := WindowFor(db, q, a, today).value, Filter(db.transactions, OfAnalysis(a));
      && (forall t | t in mine :: MonthOf(t) <= MonthIndex(w.to))
      && (mine != [] ==> exists t :: t in mine && MonthOf(t) == MonthIndex(w.to))
      && (mine == [] && db.analyses[a].periodEnd.Some? ==>
            MonthIndex(w.to) == MonthIndex(db.analyses[a].periodEnd.value))
      && (mine == [] && db.analyses[a].periodEnd.None? ==> MonthIndex(w.to) == MonthIndex(today))
  {
    var mine := Filter(db.transactions, OfAnalysis(a));
    LastMonthMeaning(mine);
    WindowSpan(q, AnchorOf(db, a, today));
  }

  /** Which of an analysis's rows a window selects. */
  lemma SelectedByMonth(table: seq<Transaction>, a: Uuid, w: MonthWindow)
    requires WholeMonths(w)
    ensures forall t | t in Filter(table, OfAnalysis(a)) ::
      t in Selected(table, a, w) <==> MonthIndex(w.from) <= MonthOf(t) <= MonthIndex(w.to)
    ensures Selected(table, a, w) == Filter(Filter(table, OfAnalysis(a)), ByMonth(w))
  {
    FilterMembers(table, OfAnalysis(a));
    FilterMembers(table, Selector(a, w));
    forall t: Transaction ensures Selector(a, w)(t) <==> OfAnalysis(a)(t) && ByMonth(w)(t) {
      PeriodIsItsMonths(w, t.entry.date);
    }
    FilterTwice(table, OfAnalysis(a), ByMonth(w), Selector(a, w));
  }

  function ByMonth(w: MonthWindow): Transaction -> bool {
    (t: Transaction) => MonthIndex(w.from) <= MonthOf(t) <= MonthIndex(w.to)
  }

  /** The last `n` months that carry data, or all of them. */
  function CarryingMonths(rows: seq<Transaction>, n: nat): seq<int> {
    LastOf(SortedKeys(rows, MonthOf), n)
  }

  function InMonths(months: seq<int>): Transaction -> bool {
    (t: Transaction) => MonthOf(t) in months
  }

  lemma CarryingKeys(rows: seq<Transaction>)
    ensures forall k :: k in SortedKeys(rows, MonthOf) <==> HasRow(rows, k)
  {
    SortedKeysMeaning(rows, MonthOf);
    forall k ensures k in SortedKeys(rows, MonthOf) <==> HasRow(rows, k) {
    }
  }

  /** In terms of rows and months: when picking by a range of months is picking the last months that carry data. */
  lemma RangeIsCarryingIff(rows: seq<Transaction>, w: MonthWindow, n: nat)
    requires n == MonthIndex(w.to) - MonthIndex(w.from) + 1 && forall t | t in rows :: MonthOf(t) <= MonthIndex(w.to)
    ensures Filter(rows, ByMonth(w)) == Filter(rows, InMonths(CarryingMonths(rows, n)))
       <==> || (forall t | t in rows :: MonthOf(t) >= MonthIndex(w.from))
            || (forall m | MonthIndex(w.from) <= m <= MonthIndex(w.to) :: HasRow(rows, m))
  {
    var ks, lo, hi := SortedKeys(rows, MonthOf), MonthIndex(w.from), MonthIndex(w.to);
    CarryingKeys(rows);
    forall t | t in rows ensures MonthOf(t) in ks {
      assert HasRow(rows, MonthOf(t));
    }
    LastKeysFill(ks, n, lo, hi);
    FiltersAgreeIff(rows, ByMonth(w), InMonths(LastOf(ks, n)));
  }

  /**
   The default window is described as the last months that carry data.  It selects exactly the rows
   of those months if and only if no row lies before it or each of its months has a row.
   */
  lemma DefaultIsCarryingIff(table: seq<Transaction>, a: Uuid, q: Query, periodEnd: Option<Day>, today: Day)
    requires q.from == "" && q.to == "" && WellFormed(q)
    ensures var mine, n := Filter(table, OfAnalysis(a)), ParseMonths(q.months).value;
      var anchor := AnchorMonth(LastMonth(mine), periodEnd, today);
      && n >= 1 && Valid(anchor) && ResolveWindow(q, anchor).Ok? && WholeMonths(ResolveWindow(q, anchor).value)
      && var w := ResolveWindow(q, anchor).value;
         (Selected(table, a, w) == Filter(mine, InMonths(CarryingMonths(mine, n)))
          <==> || (forall t | t in mine :: MonthOf(t) >= MonthIndex(w.from))
               || (forall m | MonthIndex(w.from) <= m <= MonthIndex(w.to) :: HasRow(mine, m)))
  {
    var mine := Filter(table, OfAnalysis(a));
    var anchor := AnchorMonth(LastMonth(mine), periodEnd, today);
    LastMonthMeaning(mine);
    WindowSpan(q, anchor);
    var w := ResolveWindow(q, anchor).value;
    SelectedByMonth(table, a, w);
    RangeIsCarryingIff(mine, w, ParseMonths(q.months).value);
  }

  /** With rows in two months more than the window's length apart and nothing between, the earlier one is left out. */
  lemma DefaultCanMissMonths(a: Uuid, early: Transaction, late: Transaction, q: Query, today: Day)
    requires q.from == "" && q.to == "" && WellFormed(q) && ParseMonths(q.months).value >= 2
    requires early.analysisId == a && late.analysisId == a
      && MonthOf(late) - MonthOf(early) >= ParseMonths(q.months).value
    ensures var table, n := [early, late], ParseMonths(q.months).value;
      var anchor := AnchorMonth(LastMonth(table), None, today);
      && Valid(anchor) && ResolveWindow(q, anchor).Ok? && WholeMonths(ResolveWindow(q, anchor).value)
      && early !in Selected(table, a, ResolveWindow(q, anchor).value)
      && early in Filter(table, InMonths(CarryingMonths(table, n)))
  {
    var table, n := [early, late], ParseMonths(q.months).value;
    var anchor := AnchorMonth(LastMonth(table), None, today);
    FilterAll(table, OfAnalysis(a));
    LastMonthMeaning(table);
    DefaultWindowHolds(table, a, q, None, today);
    CarryingKeys(table);
    TwoMonths(early, late);
    FilterMembers(table, InMonths(CarryingMonths(table, n)));
  }

  lemma TwoMonths(early: Transaction, late: Transaction)
    requires MonthOf(early) < MonthOf(late)
    ensures SortedKeys([early, late], MonthOf) == [MonthOf(early), MonthOf(late)]
  {
    assert [early, late][1..] == [late] && [late][1..] == [];
    assert SortedKeys([late], MonthOf) == [MonthOf(late)];
    assert SortedKeys([early, late], MonthOf) == InsertKey(MonthOf(early), [MonthOf(late)]);
  }

  /** Asking from the first month with a transaction, and no further, selects every one of them. */
  lemma FromFirstMonthHoldsAll(table: seq<Transaction>, a: Uuid, q: Query, periodEnd: Option<Day>, today: Day)
    requires WellFormed(q) && q.from != "" && q.to == ""
    requires FirstMonth(Filter(table, OfAnalysis(a))) == Some(ParseMonth(q.from).date)
    ensures var mine := Filter(table, OfAnalysis(a)); var anchor := AnchorMonth(LastMonth(mine), periodEnd, today);
      && Valid(anchor) && ResolveWindow(q, anchor).Ok? && WholeMonths(ResolveWindow(q, anchor).value)
      && Selected(table, a, ResolveWindow(q, anchor).value) == mine
  {
    var mine := Filter(table, OfAnalysis(a));
    var anchor := AnchorMonth(LastMonth(mine), periodEnd, today);
    LastMonthMeaning(mine);
    FirstMonthMeaning(mine);
    WindowSpan(q, anchor);
    SelectedByMonth(table, a, ResolveWindow(q, anchor).value);
    FilterAll(mine, ByMonth(ResolveWindow(q, anchor).value));
  }

  /******* The page *******/

  function PointIncome(p: IncomePoint): int { p.income }
  function PointSpending(p: IncomePoint): int { p.spending }
  function PointNet(p: IncomePoint): int { p.net }
  function SliceAmount(s: CategorySlice): int { s.amount }

  function ShareSum(slices: seq<CategorySlice>): real {
    if slices == [] then 0.0 else slices[0].share + ShareSum(slices[1..])
  }

  lemma {:induction false} SharesOfSlices(rows: seq<CategoryRow>, total: int)
    ensures ShareSum(MapSlice(rows, SliceOf(total))) == SumOfShares(rows, total)
  {
    if rows != [] {
      SharesOfSlices(rows[1..], total);
    }
  }

  /**
   The numbers of one page agree with one another: points, slices, cells and the split all add up to
   the summary's totals, there is one point for each month counted, and the shares add up to 1 unless
   nothing was spent.
   */
  lemma PageAgrees(rows: seq<Transaction>)
    requires Magnitudes(rows)
    ensures var totals := WindowSummary(rows); var page := PresentOf(rows, totals.totalSpending);
      && Total(page.income, PointIncome) == totals.totalIncome
      && Total(page.income, PointSpending) == totals.totalSpending
      && Total(page.income, PointNet) == BuildSummary(totals).netSavings
      && Total(page.categories, SliceAmount) == totals.totalSpending
      && Total(page.cells, CellAmount) == totals.totalSpending
      && Total(page.split, PairSum) == totals.totalSpending
      && |page.income| == totals.monthCount
      && ShareSum(page.categories) == if totals.totalSpending == 0 then 0.0 else 1.0
  {
    var totals := WindowSummary(rows);
    var page := PresentOf(rows, totals.totalSpending);
    NetAgrees(rows);
    SpendingAgrees(rows, 0, "");
    SplitAgrees(rows, 0);
    var monthly, slices := MonthlyIncomeVsSpending(rows), CategoryBreakdown(rows);
    TotalsAlign(page.income, monthly, PointIncome, PairLeft);
    TotalsAlign(page.income, monthly, PointNet, PairNet);
    TotalsAlign(page.categories, slices, SliceAmount, RowAmount);
    WeightsAdd(page.income, Whole<IncomePoint>, PointNet, PointSpending, PointIncome, ());
    WeightsAdd(page.split, Whole<MonthPair>, PairLeft, PairRight, PairSum, ());
    SharesOfSlices(slices, totals.totalSpending);
    SharesAreShares(rows);
  }
}
