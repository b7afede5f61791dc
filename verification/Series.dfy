/**
 What each number on the page says of the selected rows, item by item, without the queries' own
 grouping (internal/db/queries/visualization.sql and internal/http/visualization.go).
 */
module Series {
  import opened Calendar
  import opened Charts
  import opened Groups
  import opened Tables
  import opened Visualization

  /******* What a row adds to an item *******/

  /** An amount that went this way in this month. */
  function Flow(direction: string, month: int): Transaction -> int {
    (t: Transaction) =>
      if t.entry.direction == direction && MonthIndex(t.entry.date) == month then t.entry.amount else 0
  }

  /** An amount spent in this month, marked essential or not. */
  function Marked(month: int, essential: bool): Transaction -> int {
    (t: Transaction) =>
      if t.entry.direction == DEBIT && MonthIndex(t.entry.date) == month && t.entry.essential == essential
      then t.entry.amount else 0
  }

  /** The row's category under the name the charts show: its own, or the fixed one when it has none. */
  predicate Named(t: Transaction, name: string) {
    if t.entry.category == "" then name == "Uncategorised" else name == t.entry.category
  }

  predicate SpentOn(t: Transaction, name: string) {
    t.entry.direction == DEBIT && Named(t, name)
  }

  function AmountOn(name: string): Transaction -> int {
    (t: Transaction) => if SpentOn(t, name) then t.entry.amount else 0
  }

  function OneOn(name: string): Transaction -> int {
    (t: Transaction) => if SpentOn(t, name) then 1 else 0
  }

  function AmountOnIn(name: string, month: int): Transaction -> int {
    (t: Transaction) => if SpentOn(t, name) && MonthIndex(t.entry.date) == month then t.entry.amount else 0
  }

  /******* Groups as totals *******/

  lemma {:induction false} GroupIsTotal<T, K>(xs: seq<T>, key: T -> K, weight: T -> int, k: K, w: T -> int)
    requires forall x | x in xs :: w(x) == if key(x) == k then weight(x) else 0
    ensures GroupSum(xs, key, weight, k) == Total(xs, w)
  {
    if xs != [] {
      assert xs[0] in xs;
      GroupIsTotal(xs[1..], key, weight, k, w);
    }
  }

  lemma {:induction false} DebitGroupIsTotal<K>(rows: seq<Transaction>, key: Transaction -> K,
      weight: Transaction -> int, k: K, w: Transaction -> int)
    requires forall t | t in rows :: w(t) == if IsDebit(t) && key(t) == k then weight(t) else 0
    ensures GroupSum(Filter(rows, IsDebit), key, weight, k) == Total(rows, w)
  {
    if rows != [] {
      assert rows[0] in rows;
      DebitGroupIsTotal(rows[1..], key, weight, k, w);
    }
  }

  /******* Monthly series *******/

  function PointMonth(p: IncomePoint): int {
    p.month
  }

  /** The months of the rows, each once and in order. */
  ghost predicate MonthsOf(months: seq<int>, rows: seq<Transaction>) {
    Ascending(months) && forall m :: m in months <==> HasRow(rows, m)
  }

  /** One point for each month with a row, in order: what came in, what went out, and the difference. */
  ghost predicate PointsMean(points: seq<IncomePoint>, rows: seq<Transaction>) {
    && MonthsOf(MapSlice(points, PointMonth), rows)
    && (forall i | 0 <= i < |points| ::
         && points[i].income == Total(rows, Flow(CREDIT, points[i].month))
         && points[i].spending == Total(rows, Flow(DEBIT, points[i].month))
         && points[i].net == points[i].income - points[i].spending)
  }

  /** One pair for each month in which something was spent, in order: what was essential, and what was not. */
  ghost predicate SplitMeans(split: seq<MonthPair>, rows: seq<Transaction>) {
    && MonthsOf(MapSlice(split, PairMonth), Filter(rows, IsDebit))
    && (forall i | 0 <= i < |split| ::
         && split[i].left == Total(rows, Marked(split[i].month, true))
         && split[i].right == Total(rows, Marked(split[i].month, false)))
  }

  lemma MonthPairsMean(rows: seq<Transaction>, left: Transaction -> int, right: Transaction -> int)
    ensures MonthsOf(MapSlice(MonthPairs(rows, left, right), PairMonth), rows)
    ensures forall i | 0 <= i < |MonthPairs(rows, left, right)| ::
      MonthPairs(rows, left, right)[i] == PairRow(rows, left, right)(MonthPairs(rows, left, right)[i].month)
  {
    CarryingKeys(rows);
    assert MapSlice(MonthPairs(rows, left, right), PairMonth) == SortedKeys(rows, MonthOf);
  }

  lemma PointSays(rows: seq<Transaction>, i: nat)
    requires i < |MonthlyIncomeVsSpending(rows)|
    ensures var pair := MonthlyIncomeVsSpending(rows)[i];
      && pair.left == Total(rows, Flow(CREDIT, pair.month))
      && pair.right == Total(rows, Flow(DEBIT, pair.month))
  {
    var m := MonthlyIncomeVsSpending(rows)[i].month;
    MonthPairsMean(rows, Income, Spending);
    GroupIsTotal(rows, MonthOf, Income, m, Flow(CREDIT, m));
    GroupIsTotal(rows, MonthOf, Spending, m, Flow(DEBIT, m));
  }

  lemma PointsSay(rows: seq<Transaction>)
    ensures PointsMean(MapSlice(MonthlyIncomeVsSpending(rows), IncomePointOf), rows)
  {
    var pairs, points := MonthlyIncomeVsSpending(rows), MapSlice(MonthlyIncomeVsSpending(rows), IncomePointOf);
    MonthPairsMean(rows, Income, Spending);
    assert MapSlice(points, PointMonth) == MapSlice(pairs, PairMonth);
    forall i | 0 <= i < |points|
      ensures points[i].income == Total(rows, Flow(CREDIT, points[i].month))
      ensures points[i].spending == Total(rows, Flow(DEBIT, points[i].month))
    {
      PointSays(rows, i);
    }
  }

  lemma SplitSays(rows: seq<Transaction>)
    ensures SplitMeans(EssentialVsDiscretionary(rows), rows)
  {
    var split := EssentialVsDiscretionary(rows);
    MonthPairsMean(Filter(rows, IsDebit), EssentialAmount, DiscretionaryAmount);
    forall i | 0 <= i < |split|
      ensures split[i].left == Total(rows, Marked(split[i].month, true))
      ensures split[i].right == Total(rows, Marked(split[i].month, false))
    {
      DebitGroupIsTotal(rows, MonthOf, EssentialAmount, split[i].month, Marked(split[i].month, true));
      DebitGroupIsTotal(rows, MonthOf, DiscretionaryAmount, split[i].month, Marked(split[i].month, false));
    }
  }

  /******* Categories *******/

  /** What one slice says. */
  ghost predicate SliceMeans(s: CategorySlice, rows: seq<Transaction>, total: int) {
    && (exists t :: t in rows && SpentOn(t, s.category))
    && s.amount == Total(rows, AmountOn(s.category)) && s.count == Total(rows, OneOn(s.category))
    && (if total == 0 then s.share == 0.0 else s.share * total as real == s.amount as real)
  }

  ghost predicate HasSlice(slices: seq<CategorySlice>, t: Transaction) {
    exists i | 0 <= i < |slices| :: Named(t, slices[i].category)
  }

  /** One slice for each category money was spent on, largest first, ties by name. */
  ghost predicate SlicesMean(slices: seq<CategorySlice>, rows: seq<Transaction>, total: int) {
    && (forall i, j | 0 <= i < j < |slices| ::
         && slices[i].category != slices[j].category
         && (slices[i].amount > slices[j].amount
             || (slices[i].amount == slices[j].amount && TextLeq(slices[i].category, slices[j].category))))
    && (forall t | t in rows && IsDebit(t) :: HasSlice(slices, t))
    && (forall i | 0 <= i < |slices| :: SliceMeans(slices[i], rows, total))
  }

  /** One cell for each month and category money was spent in and on, month by month, largest first, ties by name. */
  ghost predicate CellsMean(cells: seq<MonthCategoryRow>, rows: seq<Transaction>) {
    && (forall i, j | 0 <= i < j < |cells| ::
         && !(cells[i].month == cells[j].month && cells[i].category == cells[j].category)
         && (cells[i].month < cells[j].month
             || (cells[i].month == cells[j].month
                 && (cells[i].amount > cells[j].amount
                     || (cells[i].amount == cells[j].amount && TextLeq(cells[i].category, cells[j].category))))))
    && (forall t | t in rows && IsDebit(t) ::
         exists i | 0 <= i < |cells| :: cells[i].month == MonthIndex(t.entry.date) && Named(t, cells[i].category))
    && (forall i | 0 <= i < |cells| ::
         && (exists t :: t in rows && SpentOn(t, cells[i].category) && MonthIndex(t.entry.date) == cells[i].month)
         && cells[i].amount == Total(rows, AmountOnIn(cells[i].category, cells[i].month)))
  }

  lemma NameOfCategory(t: Transaction, name: string)
    ensures CategoryOf(t) == name <==> Named(t, name)
  {
  }

  /** The slice of some debit. */
  ghost predicate IsSlice(debits: seq<Transaction>, slice: CategoryRow) {
    exists t :: t in debits && slice == CategoryGroup(debits)(CategoryOf(t))
  }

  lemma SlicesAreGroups(rows: seq<Transaction>)
    ensures NoRepeats(CategoryBreakdown(rows))
    ensures forall slice | slice in CategoryBreakdown(rows) :: IsSlice(Filter(rows, IsDebit), slice)
    ensures forall t | t in Filter(rows, IsDebit) ::
      CategoryGroup(Filter(rows, IsDebit))(CategoryOf(t)) in CategoryBreakdown(rows)
  {
    var debits := Filter(rows, IsDebit);
    var all := MapSlice(debits, CategoryOf);
    var keys := Distinct(all);
    var groups := MapSlice(keys, CategoryGroup(debits));
    DistinctMeaning(all);
    DistinctCovers(debits, CategoryOf);
    forall i, j | 0 <= i < j < |groups| ensures groups[i] != groups[j] {
      assert keys[i] != keys[j];
    }
    OrderByNoRepeats(LargerFirst, groups);
    OrderByMembers(LargerFirst, groups);
    forall slice | slice in groups ensures IsSlice(debits, slice) {
      var i :| 0 <= i < |groups| && groups[i] == slice;
      assert keys[i] in all;
      var k :| 0 <= k < |all| && all[k] == keys[i];
      assert debits[k] in debits;
    }
    forall t | t in debits ensures CategoryGroup(debits)(CategoryOf(t)) in groups {
      var i :| 0 <= i < |keys| && keys[i] == CategoryOf(t);
      assert groups[i] == CategoryGroup(debits)(CategoryOf(t));
    }
  }

  lemma SliceSays(rows: seq<Transaction>, slice: CategoryRow)
    requires IsSlice(Filter(rows, IsDebit), slice)
    ensures slice == CategoryGroup(Filter(rows, IsDebit))(slice.category)
    ensures exists t :: t in rows && SpentOn(t, slice.category)
    ensures slice.amount == Total(rows, AmountOn(slice.category))
      && slice.count == Total(rows, OneOn(slice.category))
  {
    FilterMembers(rows, IsDebit);
    var t :| t in Filter(rows, IsDebit) && slice == CategoryGroup(Filter(rows, IsDebit))(CategoryOf(t));
    assert t in rows && SpentOn(t, slice.category);
    DebitGroupIsTotal(rows, CategoryOf, Amount, slice.category, AmountOn(slice.category));
    DebitGroupIsTotal(rows, CategoryOf, One, slice.category, OneOn(slice.category));
  }

  lemma RatioTimes(a: int, total: int)
    ensures if total == 0 then Ratio(a, total) == 0.0 else Ratio(a, total) * total as real == a as real
  {
  }

  lemma SharedSlice(rows: seq<Transaction>, total: int, group: CategoryRow)
    requires exists t :: t in rows && SpentOn(t, group.category)
    requires group.amount == Total(rows, AmountOn(group.category)) && group.count == Total(rows, OneOn(group.category))
    ensures SliceMeans(SliceOf(total)(group), rows, total)
  {
    RatioTimes(group.amount, total);
  }

  lemma SliceAt(rows: seq<Transaction>, i: nat)
    requires i < |CategoryBreakdown(rows)|
    ensures IsSlice(Filter(rows, IsDebit), CategoryBreakdown(rows)[i])
  {
    SlicesAreGroups(rows);
    assert CategoryBreakdown(rows)[i] in CategoryBreakdown(rows);
  }

  lemma SliceItemSays(rows: seq<Transaction>, total: int, i: nat)
    requires i < |CategoryBreakdown(rows)|
    ensures SliceMeans(SliceOf(total)(CategoryBreakdown(rows)[i]), rows, total)
    ensures CategoryBreakdown(rows)[i] == CategoryGroup(Filter(rows, IsDebit))(CategoryBreakdown(rows)[i].category)
  {
    var group := CategoryBreakdown(rows)[i];
    SliceAt(rows, i);
    SliceSays(rows, group);
    SharedSlice(rows, total, group);
  }

  lemma DebitHasSlice(rows: seq<Transaction>, total: int, t: Transaction)
    requires t in rows && IsDebit(t)
    ensures HasSlice(MapSlice(CategoryBreakdown(rows), SliceOf(total)), t)
  {
    SlicesAreGroups(rows);
    FilterMembers(rows, IsDebit);
    var groups := CategoryBreakdown(rows);
    var i :| 0 <= i < |groups| && groups[i] == CategoryGroup(Filter(rows, IsDebit))(CategoryOf(t));
    assert Named(t, MapSlice(groups, SliceOf(total))[i].category);
  }

  lemma SlicesInOrder(rows: seq<Transaction>, i: nat, j: nat)
    requires i < j < |CategoryBreakdown(rows)|
    ensures var a, b := CategoryBreakdown(rows)[i], CategoryBreakdown(rows)[j];
      && a.category != b.category
      && (a.amount > b.amount || (a.amount == b.amount && TextLeq(a.category, b.category)))
  {
    SlicesAreGroups(rows);
    ResultsAreOrdered(rows);
    SliceItemSays(rows, 0, i);
    SliceItemSays(rows, 0, j);
  }

  lemma SlicesSay(rows: seq<Transaction>, total: int)
    ensures SlicesMean(MapSlice(CategoryBreakdown(rows), SliceOf(total)), rows, total)
  {
    var slices := MapSlice(CategoryBreakdown(rows), SliceOf(total));
    forall i | 0 <= i < |slices| ensures SliceMeans(slices[i], rows, total) {
      SliceItemSays(rows, total, i);
    }
    forall i, j | 0 <= i < j < |slices| ensures
      && slices[i].category != slices[j].category
      && (slices[i].amount > slices[j].amount
          || (slices[i].amount == slices[j].amount && TextLeq(slices[i].category, slices[j].category)))
    {
      SlicesInOrder(rows, i, j);
    }
    forall t | t in rows && IsDebit(t) ensures HasSlice(slices, t) {
      DebitHasSlice(rows, total, t);
    }
  }

  lemma CellSays(rows: seq<Transaction>, cell: MonthCategoryRow)
    requires IsCell(Filter(rows, IsDebit), cell)
    ensures cell == MonthCategoryGroup(Filter(rows, IsDebit))((cell.month, cell.category))
    ensures exists t :: t in rows && SpentOn(t, cell.category) && MonthIndex(t.entry.date) == cell.month
    ensures cell.amount == Total(rows, AmountOnIn(cell.category, cell.month))
  {
    FilterMembers(rows, IsDebit);
    var t :| t in Filter(rows, IsDebit) && cell == MonthCategoryGroup(Filter(rows, IsDebit))(MonthAndCategoryOf(t));
    assert t in rows && SpentOn(t, cell.category) && MonthIndex(t.entry.date) == cell.month;
    DebitGroupIsTotal(rows, MonthAndCategoryOf, Amount, (cell.month, cell.category),
                      AmountOnIn(cell.category, cell.month));
  }

  lemma CellsSay(rows: seq<Transaction>)
    ensures CellsMean(MonthlyByCategory(rows), rows)
  {
    var cells := MonthlyByCategory(rows);
    CellsMeaning(rows);
    CellsOnce(rows);
    ResultsAreOrdered(rows);
    FilterMembers(rows, IsDebit);
    forall i | 0 <= i < |cells|
      ensures cells[i] == MonthCategoryGroup(Filter(rows, IsDebit))((cells[i].month, cells[i].category))
      ensures exists t :: t in rows && SpentOn(t, cells[i].category) && MonthIndex(t.entry.date) == cells[i].month
      ensures cells[i].amount == Total(rows, AmountOnIn(cells[i].category, cells[i].month))
    {
      assert cells[i] in cells;
      CellSays(rows, cells[i]);
    }
    forall t | t in rows && IsDebit(t)
      ensures exists i | 0 <= i < |cells| :: cells[i].month == MonthIndex(t.entry.date) && Named(t, cells[i].category)
    {
      var cell := MonthCategoryGroup(Filter(rows, IsDebit))(MonthAndCategoryOf(t));
      assert IsCell(Filter(rows, IsDebit), cell);
      var i :| 0 <= i < |cells| && cells[i] == cell;
      assert cells[i].month == MonthIndex(t.entry.date) && Named(t, cells[i].category);
    }
  }

  /******* The summary *******/

  /** The summary says of the points what its names promise, and 0 where a denominator is 0. */
  ghost predicate SummaryMeans(s: Summary, totals: SummaryRow, points: seq<IncomePoint>) {
    && s.netSavings == Total(points, PointNet)
    && s.averageMonthlyIncome * |points| as real == Total(points, PointIncome) as real
    && s.averageMonthlySpending * |points| as real == Total(points, PointSpending) as real
    && (points == [] ==> s.averageMonthlyIncome == 0.0 && s.averageMonthlySpending == 0.0)
    && (if totals.totalIncome == 0 then s.savingsRate == 0.0
        else s.savingsRate * Total(points, PointIncome) as real == Total(points, PointNet) as real)
    && s.discretionarySpending + totals.essentialSpending == Total(points, PointSpending)
  }

  lemma PointTotals(rows: seq<Transaction>)
    ensures var totals, points := WindowSummary(rows), MapSlice(MonthlyIncomeVsSpending(rows), IncomePointOf);
      && Total(points, PointIncome) == totals.totalIncome && Total(points, PointSpending) == totals.totalSpending
      && Total(points, PointNet) == totals.totalIncome - totals.totalSpending && |points| == totals.monthCount
  {
    var pairs, points := MonthlyIncomeVsSpending(rows), MapSlice(MonthlyIncomeVsSpending(rows), IncomePointOf);
    NetAgrees(rows);
    NetSavingsIs(WindowSummary(rows));
    MonthlyTotals(rows);
    TotalsAlign(points, pairs, PointIncome, PairLeft);
    TotalsAlign(points, pairs, PointSpending, PairRight);
    TotalsAlign(points, pairs, PointNet, PairNet);
  }

  lemma SummaryOfTotals(totals: SummaryRow, points: seq<IncomePoint>)
    requires Total(points, PointIncome) == totals.totalIncome && Total(points, PointSpending) == totals.totalSpending
    requires Total(points, PointNet) == totals.totalIncome - totals.totalSpending && |points| == totals.monthCount
    ensures SummaryMeans(BuildSummary(totals), totals, points)
  {
    RatioTimes(totals.totalIncome, totals.monthCount);
    RatioTimes(totals.totalSpending, totals.monthCount);
    RatioTimes(totals.totalIncome - totals.totalSpending, totals.totalIncome);
  }

  lemma SummarySays(rows: seq<Transaction>)
    ensures var totals := WindowSummary(rows);
      SummaryMeans(BuildSummary(totals), totals, PresentOf(rows, totals.totalSpending).income)
  {
    PointTotals(rows);
    SummaryOfTotals(WindowSummary(rows), MapSlice(MonthlyIncomeVsSpending(rows), IncomePointOf));
  }

  /** With no negative amounts nobody saves more than came in. */
  lemma SavingsRateAtMostOne(rows: seq<Transaction>)
    requires Magnitudes(rows)
    ensures BuildSummary(WindowSummary(rows)).savingsRate <= 1.0
  {
    var totals := WindowSummary(rows);
    NonNegativeSum(rows, Whole<Transaction>, Income, ());
    NonNegativeSum(rows, Whole<Transaction>, Spending, ());
    RateAtMostOne(totals.totalIncome, totals.totalSpending);
  }

  lemma RateAtMostOne(income: int, spending: int)
    requires income >= 0 && spending >= 0
    ensures Ratio(income - spending, income) <= 1.0
  {
    RatioAdds(income - spending, spending, income);
    RatioSelf(income);
    RatioOfMagnitudes(spending, income);
  }

  lemma RatioOfMagnitudes(a: int, total: int)
    requires a >= 0 && total >= 0
    ensures Ratio(a, total) >= 0.0
  {
  }

  /**
   Every item of a page says of the selected rows what its name promises: the points month by month,
   the slices and the cells by category, the split by the essential mark, and the summary of them all.
   */
  lemma PageSays(rows: seq<Transaction>)
    ensures var totals := WindowSummary(rows); var page := PresentOf(rows, totals.totalSpending);
      && PointsMean(page.income, rows) && SplitMeans(page.split, rows) && CellsMean(page.cells, rows)
      && SlicesMean(page.categories, rows, totals.totalSpending)
      && SummaryMeans(BuildSummary(totals), totals, page.income)
  {
    PointsSay(rows);
    SplitSays(rows);
    CellsSay(rows);
    SlicesSay(rows, WindowSummary(rows).totalSpending);
    SummarySays(rows);
  }
}
