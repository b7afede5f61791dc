/**
 The chart queries (internal/db/queries/visualization.sql) and what the handler makes of their
 rows (internal/http/visualization.go).  Money stays in cents and shares are exact reals, so no
 float8 rounding appears.  A month is its index, counted from year 0; LabelsSortByMonth shows that
 the 'YYYY-MM' text the queries group and order by says the same.
 */
module Charts {
  import opened Calendar
  import opened Groups
  import opened Tables
  import opened Window

  const UNCATEGORISED := "Uncategorised"

  /******* Columns and filters *******/

  function MonthOf(t: Transaction): int {
    MonthIndex(t.entry.date)
  }

  function DayOf(t: Transaction): int {
    DayNumber(t.entry.date)
  }

  /** COALESCE(NULLIF(category, ''), 'Uncategorised'). */
  function CategoryOf(t: Transaction): string {
    if t.entry.category == "" then UNCATEGORISED else t.entry.category
  }

  function MonthAndCategoryOf(t: Transaction): (int, string) {
    (MonthOf(t), CategoryOf(t))
  }

  predicate IsDebit(t: Transaction) {
    t.entry.direction == DEBIT
  }

  predicate HasBalance(t: Transaction) {
    t.entry.balanceAfter.Some?
  }

  function Amount(t: Transaction): int {
    t.entry.amount
  }

  function Income(t: Transaction): int {
    if t.entry.direction == CREDIT then t.entry.amount else 0
  }

  function Spending(t: Transaction): int {
    if t.entry.direction == DEBIT then t.entry.amount else 0
  }

  function EssentialAmount(t: Transaction): int {
    if t.entry.essential then t.entry.amount else 0
  }

  function DiscretionaryAmount(t: Transaction): int {
    if !t.entry.essential then t.entry.amount else 0
  }

  function EssentialSpending(t: Transaction): int {
    if t.entry.direction == DEBIT && t.entry.essential then t.entry.amount else 0
  }

  function RecurringSpending(t: Transaction): int {
    if t.entry.direction == DEBIT && t.entry.recurring then t.entry.amount else 0
  }

  predicate WholeMonths(w: MonthWindow) {
    FirstDay(w.from) && FirstDay(w.to)
  }

  /** The WHERE clause every windowed query shares. */
  function Selector(analysisId: Uuid, w: MonthWindow): Transaction -> bool
    requires WholeMonths(w)
  {
    (t: Transaction) => t.analysisId == analysisId && InPeriod(w, t.entry.date)
  }

  function Selected(table: seq<Transaction>, analysisId: Uuid, w: MonthWindow): seq<Transaction>
    requires WholeMonths(w)
  {
    Filter(table, Selector(analysisId, w))
  }

  /******* The queries, over the selected rows *******/

  /** A row of a monthly query with two sums. */
  datatype MonthPair = MonthPair(month: int, left: int, right: int)

  datatype CategoryRow = CategoryRow(category: string, amount: int, count: int)

  datatype MonthCategoryRow = MonthCategoryRow(month: int, category: string, amount: int)

  datatype BalanceRow = BalanceRow(date: Date, balance: int)

  datatype SummaryRow = SummaryRow(
    totalIncome: int, totalSpending: int, essentialSpending: int, recurringSpending: int,
    transactionCount: int, monthCount: int)

  function PairRow(rows: seq<Transaction>, left: Transaction -> int, right: Transaction -> int): int -> MonthPair {
    (m: int) => MonthPair(m, GroupSum(rows, MonthOf, left, m), GroupSum(rows, MonthOf, right, m))
  }

  /** Two sums per month that has a row, in order of month. */
  function MonthPairs(rows: seq<Transaction>, left: Transaction -> int, right: Transaction -> int): seq<MonthPair> {
    MapSlice(SortedKeys(rows, MonthOf), PairRow(rows, left, right))
  }

  /** left is income, right is spending. */
  function MonthlyIncomeVsSpending(rows: seq<Transaction>): seq<MonthPair> {
    MonthPairs(rows, Income, Spending)
  }

  /** left is essential, right is discretionary; only months with a debit appear. */
  function EssentialVsDiscretionary(rows: seq<Transaction>): seq<MonthPair> {
    MonthPairs(Filter(rows, IsDebit), EssentialAmount, DiscretionaryAmount)
  }

  /** Bytewise order of text. */
  predicate TextLeq(a: string, b: string) {
    if a == "" then true
    else if b == "" then false
    else a[0] < b[0] || (a[0] == b[0] && TextLeq(a[1..], b[1..]))
  }

  /** ORDER BY amount DESC, category. */
  predicate LargerFirst(a: CategoryRow, b: CategoryRow) {
    a.amount > b.amount || (a.amount == b.amount && TextLeq(a.category, b.category))
  }

  /** ORDER BY month, amount DESC, category. */
  predicate MonthThenLarger(a: MonthCategoryRow, b: MonthCategoryRow) {
    || a.month < b.month
    || (a.month == b.month && (a.amount > b.amount || (a.amount == b.amount && TextLeq(a.category, b.category))))
  }

  function CategoryGroup(debits: seq<Transaction>): string -> CategoryRow {
    (c: string) =>
      CategoryRow(c, GroupSum(debits, CategoryOf, Amount, c), GroupSum(debits, CategoryOf, One<Transaction>, c))
  }

  function CategoryBreakdown(rows: seq<Transaction>): seq<CategoryRow> {
    var debits := Filter(rows, IsDebit);
    OrderBy(LargerFirst, MapSlice(Distinct(MapSlice(debits, CategoryOf)), CategoryGroup(debits)))
  }

  function MonthCategoryGroup(debits: seq<Transaction>): ((int, string)) -> MonthCategoryRow {
    (k: (int, string)) => MonthCategoryRow(k.0, k.1, GroupSum(debits, MonthAndCategoryOf, Amount, k))
  }

  function MonthlyByCategory(rows: seq<Transaction>): seq<MonthCategoryRow> {
    var debits := Filter(rows, IsDebit);
    OrderBy(MonthThenLarger, MapSlice(Distinct(MapSlice(debits, MonthAndCategoryOf)), MonthCategoryGroup(debits)))
  }

  /** The row with the highest id among those of one day that carry a balance. */
  function LastBalance(rows: seq<Transaction>, day: int): Option<Transaction> {
    if rows == [] then None
    else
      var t, rest := rows[0], LastBalance(rows[1..], day);
      if DayOf(t) == day && HasBalance(t) && (rest.None? || t.id > rest.value.id) then Some(t) else rest
  }

  function BalanceGroup(rows: seq<Transaction>): int -> BalanceRow {
    (day: int) =>
      var last := LastBalance(rows, day);
      BalanceRow(FromDayNumber(day),
                 if last.Some? && HasBalance(last.value) then last.value.entry.balanceAfter.value else 0)
  }

  /** DISTINCT ON (txn_date) ... ORDER BY txn_date, id DESC. */
  function BalanceOverTime(rows: seq<Transaction>): seq<BalanceRow> {
    MapSlice(SortedKeys(Filter(rows, HasBalance), DayOf), BalanceGroup(rows))
  }

  /** The distinct values of date_trunc('month', txn_date). */
  function MonthsSeen(rows: seq<Transaction>): set<Date> {
    set t | t in rows :: FirstOfMonth(t.entry.date)
  }

  function WindowSummary(rows: seq<Transaction>): SummaryRow {
    SummaryRow(
      Total(rows, Income), Total(rows, Spending), Total(rows, EssentialSpending), Total(rows, RecurringSpending),
      |rows|, |MonthsSeen(rows)|)
  }

  /******* The handler *******/

  /** ratio: 0 for a zero denominator. */
  function Ratio(numerator: int, denominator: int): real {
    if denominator == 0 then 0.0 else numerator as real / denominator as real
  }

  datatype Summary = Summary(
    netSavings: int, savingsRate: real, discretionarySpending: int,
    averageMonthlyIncome: real, averageMonthlySpending: real)

  /** The fields buildSummary computes; the others are copied from the row. */
  function BuildSummary(row: SummaryRow): Summary {
    var net := row.totalIncome - row.totalSpending;
    Summary(net, Ratio(net, row.totalIncome), row.totalSpending - row.essentialSpending,
            Ratio(row.totalIncome, row.monthCount), Ratio(row.totalSpending, row.monthCount))
  }

  function Share(row: CategoryRow, totalSpending: int): real {
    Ratio(row.amount, totalSpending)
  }

  /** mapSlice: a loop that appends. */
  method Mapped<T, U>(rows: seq<T>, f: T -> U) returns (out: seq<U>)
    ensures out == MapSlice(rows, f)
  {
    out := [];
    for i := 0 to |rows|
      invariant |out| == i && forall k | 0 <= k < i :: out[k] == f(rows[k])
    {
      out := out + [f(rows[i])];
    }
  }

  /******* Columns of the results *******/

  function PairMonth(r: MonthPair): int { r.month }
  function PairLeft(r: MonthPair): int { r.left }
  function PairRight(r: MonthPair): int { r.right }
  function PairSum(r: MonthPair): int { r.left + r.right }
  function PairNet(r: MonthPair): int { r.left - r.right }
  function RowCategory(r: CategoryRow): string { r.category }
  function RowAmount(r: CategoryRow): int { r.amount }
  function RowCount(r: CategoryRow): int { r.count }
  function CellMonth(r: MonthCategoryRow): int { r.month }
  function CellCategory(r: MonthCategoryRow): string { r.category }
  function CellAmount(r: MonthCategoryRow): int { r.amount }

  /******* Every chart tells the same totals *******/

  lemma DebitSums<K>(rows: seq<Transaction>, key: Transaction -> K, k: K)
    ensures GroupSum(Filter(rows, IsDebit), key, Amount, k) == GroupSum(rows, key, Spending, k)
  {
    FilterIsWeightZero(rows, IsDebit, key, Amount, Spending, k);
  }

  /** A monthly chart summed by month, or as a whole, gives the sums of its rows. */
  lemma PairsConserve<A>(
      rows: seq<Transaction>, left: Transaction -> int, right: Transaction -> int, weight: Transaction -> int,
      column: MonthPair -> int, rowKey: MonthPair -> A, coarse: Transaction -> A, a: A)
    requires forall m :: column(PairRow(rows, left, right)(m)) == GroupSum(rows, MonthOf, weight, m)
    requires forall t | t in rows :: rowKey(PairRow(rows, left, right)(MonthOf(t))) == coarse(t)
    ensures GroupSum(MonthPairs(rows, left, right), rowKey, column, a) == GroupSum(rows, coarse, weight, a)
  {
    SortedKeysMeaning(rows, MonthOf);
    GroupsConserve(rows, MonthOf, weight, SortedKeys(rows, MonthOf), PairRow(rows, left, right),
                   rowKey, column, coarse, a);
  }

  lemma DistinctCovers<K>(rows: seq<Transaction>, key: Transaction -> K)
    ensures NoRepeats(Distinct(MapSlice(rows, key))) && Covers(rows, key, Distinct(MapSlice(rows, key)))
  {
    DistinctMeaning(MapSlice(rows, key));
    forall t | t in rows ensures key(t) in Distinct(MapSlice(rows, key)) {
      var i :| 0 <= i < |rows| && rows[i] == t;
      assert MapSlice(rows, key)[i] == key(t);
    }
  }

  /** The month and category cells, summed by any coarser key, give spending by that key. */
  lemma CellsConserve<A>(rows: seq<Transaction>, cellKey: MonthCategoryRow -> A, coarse: Transaction -> A, a: A)
    requires forall t | t in Filter(rows, IsDebit) ::
      cellKey(MonthCategoryGroup(Filter(rows, IsDebit))(MonthAndCategoryOf(t))) == coarse(t)
    ensures GroupSum(MonthlyByCategory(rows), cellKey, CellAmount, a) == GroupSum(rows, coarse, Spending, a)
  {
    var debits := Filter(rows, IsDebit);
    var keys := Distinct(MapSlice(debits, MonthAndCategoryOf));
    DistinctCovers(debits, MonthAndCategoryOf);
    OrderByKeepsSum(MonthThenLarger, MapSlice(keys, MonthCategoryGroup(debits)), cellKey, CellAmount, a);
    GroupsConserve(debits, MonthAndCategoryOf, Amount, keys, MonthCategoryGroup(debits),
                   cellKey, CellAmount, coarse, a);
    DebitSums(rows, coarse, a);
  }

  /** The category slices, summed by any coarser key, give the debits' sums of a weight by that key. */
  lemma SlicesConserve<A>(
      rows: seq<Transaction>, weight: Transaction -> int, column: CategoryRow -> int,
      rowKey: CategoryRow -> A, coarse: Transaction -> A, a: A)
    requires forall c ::
      column(CategoryGroup(Filter(rows, IsDebit))(c)) == GroupSum(Filter(rows, IsDebit), CategoryOf, weight, c)
    requires forall t | t in Filter(rows, IsDebit) ::
      rowKey(CategoryGroup(Filter(rows, IsDebit))(CategoryOf(t))) == coarse(t)
    ensures GroupSum(CategoryBreakdown(rows), rowKey, column, a) == GroupSum(Filter(rows, IsDebit), coarse, weight, a)
  {
    var debits := Filter(rows, IsDebit);
    var keys := Distinct(MapSlice(debits, CategoryOf));
    DistinctCovers(debits, CategoryOf);
    OrderByKeepsSum(LargerFirst, MapSlice(keys, CategoryGroup(debits)), rowKey, column, a);
    GroupsConserve(debits, CategoryOf, weight, keys, CategoryGroup(debits), rowKey, column, coarse, a);
  }

  /** Cells by month are monthly spending; cells by category are the slices; both, and the whole, are total spending. */
  lemma SpendingAgrees(rows: seq<Transaction>, m: int, c: string)
    ensures GroupSum(MonthlyByCategory(rows), CellMonth, CellAmount, m)
      == GroupSum(MonthlyIncomeVsSpending(rows), PairMonth, PairRight, m)
    ensures GroupSum(MonthlyByCategory(rows), CellCategory, CellAmount, c)
      == GroupSum(CategoryBreakdown(rows), RowCategory, RowAmount, c)
    ensures Total(MonthlyByCategory(rows), CellAmount) == WindowSummary(rows).totalSpending
    ensures Total(CategoryBreakdown(rows), RowAmount) == WindowSummary(rows).totalSpending
    ensures Total(CategoryBreakdown(rows), RowCount) == |Filter(rows, IsDebit)|
  {
    var debits := Filter(rows, IsDebit);
    CellsConserve(rows, CellMonth, MonthOf, m);
    PairsConserve(rows, Income, Spending, Spending, PairRight, PairMonth, MonthOf, m);
    CellsConserve(rows, CellCategory, CategoryOf, c);
    SlicesConserve(rows, Amount, RowAmount, RowCategory, CategoryOf, c);
    DebitSums(rows, CategoryOf, c);
    CellsConserve(rows, Whole<MonthCategoryRow>, Whole<Transaction>, ());
    SlicesConserve(rows, Amount, RowAmount, Whole<CategoryRow>, Whole<Transaction>, ());
    DebitSums(rows, Whole<Transaction>, ());
    SlicesConserve(rows, One<Transaction>, RowCount, Whole<CategoryRow>, Whole<Transaction>, ());
    CountIsLength(debits);
  }

  /** Essential plus discretionary is monthly spending, and the totals of the split are the summary's. */
  lemma SplitAgrees(rows: seq<Transaction>, m: int)
    ensures GroupSum(EssentialVsDiscretionary(rows), PairMonth, PairSum, m)
      == GroupSum(MonthlyIncomeVsSpending(rows), PairMonth, PairRight, m)
    ensures Total(EssentialVsDiscretionary(rows), PairLeft) == WindowSummary(rows).essentialSpending
    ensures Total(EssentialVsDiscretionary(rows), PairRight) == BuildSummary(WindowSummary(rows)).discretionarySpending
  {
    var debits := Filter(rows, IsDebit);
    var row := PairRow(debits, EssentialAmount, DiscretionaryAmount);
    forall k ensures PairSum(row(k)) == GroupSum(debits, MonthOf, Amount, k) {
      WeightsAdd(debits, MonthOf, EssentialAmount, DiscretionaryAmount, Amount, k);
    }
    PairsConserve(debits, EssentialAmount, DiscretionaryAmount, Amount, PairSum, PairMonth, MonthOf, m);
    DebitSums(rows, MonthOf, m);
    PairsConserve(rows, Income, Spending, Spending, PairRight, PairMonth, MonthOf, m);

    PairsConserve(debits, EssentialAmount, DiscretionaryAmount, EssentialAmount, PairLeft,
                  Whole<MonthPair>, Whole<Transaction>, ());
    FilterIsWeightZero(rows, IsDebit, Whole<Transaction>, EssentialAmount, EssentialSpending, ());
    PairsConserve(debits, EssentialAmount, DiscretionaryAmount, DiscretionaryAmount, PairRight,
                  Whole<MonthPair>, Whole<Transaction>, ());
    WeightsAdd(debits, Whole<Transaction>, EssentialAmount, DiscretionaryAmount, Amount, ());
    DebitSums(rows, Whole<Transaction>, ());
  }

  lemma NetSavingsIs(row: SummaryRow)
    ensures BuildSummary(row).netSavings == row.totalIncome - row.totalSpending
  {
  }

  lemma {:induction false} NetIsDifference(pairs: seq<MonthPair>)
    ensures Total(pairs, PairNet) == Total(pairs, PairLeft) - Total(pairs, PairRight)
  {
    if pairs != [] {
      NetIsDifference(pairs[1..]);
    }
  }

  lemma MonthlyTotals(rows: seq<Transaction>)
    ensures Total(MonthlyIncomeVsSpending(rows), PairLeft) == WindowSummary(rows).totalIncome
    ensures Total(MonthlyIncomeVsSpending(rows), PairRight) == WindowSummary(rows).totalSpending
  {
    PairsConserve(rows, Income, Spending, Income, PairLeft, Whole<MonthPair>, Whole<Transaction>, ());
    PairsConserve(rows, Income, Spending, Spending, PairRight, Whole<MonthPair>, Whole<Transaction>, ());
  }

  /** Monthly income and net add up to the summary's, and the month count is the number of monthly rows. */
  lemma NetAgrees(rows: seq<Transaction>)
    ensures Total(MonthlyIncomeVsSpending(rows), PairLeft) == WindowSummary(rows).totalIncome
    ensures Total(MonthlyIncomeVsSpending(rows), PairNet) == BuildSummary(WindowSummary(rows)).netSavings
    ensures |MonthlyIncomeVsSpending(rows)| == WindowSummary(rows).monthCount
  {
    MonthlyTotals(rows);
    NetIsDifference(MonthlyIncomeVsSpending(rows));
    NetSavingsIs(WindowSummary(rows));
    MonthCountIsRows(rows);
  }

  lemma MonthsSeenAreStarts(rows: seq<Transaction>)
    ensures MonthsSeen(rows) == set d | d in MapSlice(SortedKeys(rows, MonthOf), MonthStart)
  {
    var ks := SortedKeys(rows, MonthOf);
    var starts := MapSlice(ks, MonthStart);
    SortedKeysMeaning(rows, MonthOf);
    forall d | d in MonthsSeen(rows) ensures d in starts {
      var t :| t in rows && d == FirstOfMonth(t.entry.date);
      MonthStartOf(t.entry.date);
      var i :| 0 <= i < |ks| && ks[i] == MonthOf(t);
      assert starts[i] == d;
    }
    forall d | d in starts ensures d in MonthsSeen(rows) {
      var i :| 0 <= i < |starts| && starts[i] == d;
      assert ks[i] in ks;
      var t :| t in rows && MonthOf(t) == ks[i];
      MonthStartOf(t.entry.date);
    }
  }

  lemma MonthCountIsRows(rows: seq<Transaction>)
    ensures |SortedKeys(rows, MonthOf)| == |MonthsSeen(rows)|
  {
    var ks := SortedKeys(rows, MonthOf);
    var starts := MapSlice(ks, MonthStart);
    MonthsSeenAreStarts(rows);
    forall i, j | 0 <= i < j < |starts| ensures starts[i] != starts[j] {
      MonthStartIndex(ks[i]);
      MonthStartIndex(ks[j]);
    }
    NoRepeatsCardinality(starts);
  }

  lemma MonthStartOf(d: Day)
    ensures MonthStart(MonthIndex(d)) == FirstOfMonth(d)
  {
  }

  /******* Cutting a window between two months *******/

  function UpTo(cut: int): Transaction -> bool {
    (t: Transaction) => MonthOf(t) <= cut
  }

  function After(cut: int): Transaction -> bool {
    (t: Transaction) => MonthOf(t) > cut
  }

  function FirstPart(w: MonthWindow, cut: int): MonthWindow {
    MonthWindow(w.from, MonthStart(cut))
  }

  function SecondPart(w: MonthWindow, cut: int): MonthWindow {
    MonthWindow(MonthStart(cut + 1), w.to)
  }

  predicate CutsInside(w: MonthWindow, cut: int) {
    WholeMonths(w) && MonthIndex(w.from) <= cut < MonthIndex(w.to)
  }

  /** The rows of the two parts are the rows of the window up to the cut and after it. */
  lemma PartsSelect(table: seq<Transaction>, a: Uuid, w: MonthWindow, cut: int)
    requires CutsInside(w, cut)
    ensures WholeMonths(FirstPart(w, cut)) && WholeMonths(SecondPart(w, cut))
    ensures Selected(table, a, FirstPart(w, cut)) == Filter(Selected(table, a, w), UpTo(cut))
    ensures Selected(table, a, SecondPart(w, cut)) == Filter(Selected(table, a, w), After(cut))
  {
    var lo, hi := FirstPart(w, cut), SecondPart(w, cut);
    MonthStartIndex(cut);
    MonthStartIndex(cut + 1);
    forall t | t in table
      ensures Selector(a, lo)(t) <==> Selector(a, w)(t) && UpTo(cut)(t)
      ensures Selector(a, hi)(t) <==> Selector(a, w)(t) && After(cut)(t)
    {
      PeriodIsItsMonths(w, t.entry.date);
      PeriodIsItsMonths(lo, t.entry.date);
      PeriodIsItsMonths(hi, t.entry.date);
    }
    FilterTwice(table, Selector(a, w), UpTo(cut), Selector(a, lo));
    FilterTwice(table, Selector(a, w), After(cut), Selector(a, hi));
  }

  /** Rows of one side of the cut contribute nothing to months of the other. */
  lemma SidesSum(rows: seq<Transaction>, cut: int, weight: Transaction -> int, m: int)
    ensures m <= cut ==> GroupSum(rows, MonthOf, weight, m) == GroupSum(Filter(rows, UpTo(cut)), MonthOf, weight, m)
    ensures m > cut ==> GroupSum(rows, MonthOf, weight, m) == GroupSum(Filter(rows, After(cut)), MonthOf, weight, m)
  {
    var lo, hi := Filter(rows, UpTo(cut)), Filter(rows, After(cut));
    SumSplits(rows, UpTo(cut), After(cut), MonthOf, weight, m);
    FilterMembers(rows, UpTo(cut));
    FilterMembers(rows, After(cut));
    if m <= cut { SumOfNone(hi, MonthOf, weight, m); } else { SumOfNone(lo, MonthOf, weight, m); }
  }

  /** A monthly series is the series of the rows up to the cut, then that of the rows after it. */
  lemma PairsSplit(rows: seq<Transaction>, left: Transaction -> int, right: Transaction -> int, cut: int)
    ensures MonthPairs(rows, left, right)
         == MonthPairs(Filter(rows, UpTo(cut)), left, right) + MonthPairs(Filter(rows, After(cut)), left, right)
  {
    var lo, hi := Filter(rows, UpTo(cut)), Filter(rows, After(cut));
    SortedKeysSplit(rows, MonthOf, UpTo(cut), After(cut), cut);
    forall m | m <= cut ensures PairRow(rows, left, right)(m) == PairRow(lo, left, right)(m) {
      SidesSum(rows, cut, left, m);
      SidesSum(rows, cut, right, m);
    }
    forall m | m > cut ensures PairRow(rows, left, right)(m) == PairRow(hi, left, right)(m) {
      SidesSum(rows, cut, left, m);
      SidesSum(rows, cut, right, m);
    }
    MapSliceAppend(SortedKeys(lo, MonthOf), SortedKeys(hi, MonthOf),
                   PairRow(rows, left, right), PairRow(lo, left, right), PairRow(hi, left, right));
  }

  lemma {:induction false} LastBalanceOfSide(rows: seq<Transaction>, p: Transaction -> bool, day: int)
    requires forall t | t in rows && DayOf(t) == day :: p(t)
    ensures LastBalance(rows, day) == LastBalance(Filter(rows, p), day)
  {
    if rows != [] {
      assert rows[0] in rows;
      LastBalanceOfSide(rows[1..], p, day);
      if p(rows[0]) {
        assert ([rows[0]] + Filter(rows[1..], p))[1..] == Filter(rows[1..], p);
      }
    }
  }

  /** The last day of the month `cut`, as a day number. */
  function LastDayBefore(cut: int): int {
    DayNumber(MonthStart(cut + 1)) - 1
  }

  lemma DaysOfSide(t: Transaction, cut: int)
    ensures DayOf(t) <= LastDayBefore(cut) <==> MonthOf(t) <= cut
  {
    MonthStartIndex(cut + 1);
    MonthIndexOrder(t.entry.date, MonthStart(cut + 1));
    DayNumbersOrderDates(t.entry.date, MonthStart(cut + 1));
  }

  lemma BalanceSplit(rows: seq<Transaction>, cut: int)
    ensures BalanceOverTime(rows)
      == BalanceOverTime(Filter(rows, UpTo(cut))) + BalanceOverTime(Filter(rows, After(cut)))
  {
    var lo, hi, d := Filter(rows, UpTo(cut)), Filter(rows, After(cut)), LastDayBefore(cut);
    forall t ensures DayOf(t) <= d <==> MonthOf(t) <= cut {
      DaysOfSide(t, cut);
    }
    SortedKeysSplit(Filter(rows, HasBalance), DayOf, UpTo(cut), After(cut), d);
    FilterCommutes(rows, HasBalance, UpTo(cut));
    FilterCommutes(rows, HasBalance, After(cut));
    forall day | day <= d ensures BalanceGroup(rows)(day) == BalanceGroup(lo)(day) {
      LastBalanceOfSide(rows, UpTo(cut), day);
    }
    forall day | day > d ensures BalanceGroup(rows)(day) == BalanceGroup(hi)(day) {
      LastBalanceOfSide(rows, After(cut), day);
    }
    MapSliceAppend(SortedKeys(Filter(lo, HasBalance), DayOf), SortedKeys(Filter(hi, HasBalance), DayOf),
                   BalanceGroup(rows), BalanceGroup(lo), BalanceGroup(hi));
  }

  /** The cell of some debit. */
  ghost predicate IsCell(debits: seq<Transaction>, cell: MonthCategoryRow) {
    exists t :: t in debits && cell == MonthCategoryGroup(debits)(MonthAndCategoryOf(t))
  }

  lemma CellsOnce(rows: seq<Transaction>)
    ensures NoRepeats(MonthlyByCategory(rows))
  {
    var debits := Filter(rows, IsDebit);
    var keys := Distinct(MapSlice(debits, MonthAndCategoryOf));
    var groups := MapSlice(keys, MonthCategoryGroup(debits));
    DistinctMeaning(MapSlice(debits, MonthAndCategoryOf));
    forall i, j | 0 <= i < j < |groups| ensures groups[i] != groups[j] {
      assert keys[i] != keys[j];
    }
    OrderByNoRepeats(MonthThenLarger, groups);
  }

  /** The cells are those of the debits. */
  lemma CellsMeaning(rows: seq<Transaction>)
    ensures forall cell | cell in MonthlyByCategory(rows) :: IsCell(Filter(rows, IsDebit), cell)
    ensures forall cell | IsCell(Filter(rows, IsDebit), cell) :: cell in MonthlyByCategory(rows)
  {
    var debits := Filter(rows, IsDebit);
    var all := MapSlice(debits, MonthAndCategoryOf);
    var keys := Distinct(all);
    var groups := MapSlice(keys, MonthCategoryGroup(debits));
    DistinctMeaning(all);
    DistinctCovers(debits, MonthAndCategoryOf);
    OrderByMembers(MonthThenLarger, groups);
    forall cell | cell in groups ensures IsCell(debits, cell) {
      var i :| 0 <= i < |groups| && groups[i] == cell;
      assert keys[i] in all;
      var k :| 0 <= k < |all| && all[k] == keys[i];
      assert debits[k] in debits;
    }
    forall cell | IsCell(debits, cell) ensures cell in groups {
      var t :| t in debits && cell == MonthCategoryGroup(debits)(MonthAndCategoryOf(t));
      var i :| 0 <= i < |keys| && keys[i] == MonthAndCategoryOf(t);
      assert groups[i] == cell;
    }
  }

  /** The cell of a debit depends only on the debits on its side of the cut. */
  lemma CellOfSide(debits: seq<Transaction>, cut: int, t: Transaction)
    requires t in debits
    ensures var k, lo, hi := MonthAndCategoryOf(t), Filter(debits, UpTo(cut)), Filter(debits, After(cut));
      && (MonthOf(t) <= cut ==> t in lo && MonthCategoryGroup(debits)(k) == MonthCategoryGroup(lo)(k))
      && (MonthOf(t) > cut ==> t in hi && MonthCategoryGroup(debits)(k) == MonthCategoryGroup(hi)(k))
  {
    var lo, hi, k := Filter(debits, UpTo(cut)), Filter(debits, After(cut)), MonthAndCategoryOf(t);
    SumSplits(debits, UpTo(cut), After(cut), MonthAndCategoryOf, Amount, k);
    FilterMembers(debits, UpTo(cut));
    FilterMembers(debits, After(cut));
    if MonthOf(t) <= cut {
      SumOfNone(hi, MonthAndCategoryOf, Amount, k);
    } else {
      SumOfNone(lo, MonthAndCategoryOf, Amount, k);
    }
  }

  lemma CellsOfSides(debits: seq<Transaction>, cut: int, cell: MonthCategoryRow)
    ensures IsCell(debits, cell)
      <==> IsCell(Filter(debits, UpTo(cut)), cell) || IsCell(Filter(debits, After(cut)), cell)
    ensures IsCell(Filter(debits, UpTo(cut)), cell) ==> cell.month <= cut
    ensures IsCell(Filter(debits, After(cut)), cell) ==> cell.month > cut
  {
    var lo, hi := Filter(debits, UpTo(cut)), Filter(debits, After(cut));
    FilterMembers(debits, UpTo(cut));
    FilterMembers(debits, After(cut));
    if IsCell(debits, cell) {
      var t :| t in debits && cell == MonthCategoryGroup(debits)(MonthAndCategoryOf(t));
      CellOfSide(debits, cut, t);
    }
    if IsCell(lo, cell) {
      var t :| t in lo && cell == MonthCategoryGroup(lo)(MonthAndCategoryOf(t));
      CellOfSide(debits, cut, t);
    }
    if IsCell(hi, cell) {
      var t :| t in hi && cell == MonthCategoryGroup(hi)(MonthAndCategoryOf(t));
      CellOfSide(debits, cut, t);
    }
  }

  lemma {:induction false} TextLeqAntisymmetric(a: string, b: string)
    requires TextLeq(a, b) && TextLeq(b, a)
    ensures a == b
  {
    if a != "" && b != "" {
      TextLeqAntisymmetric(a[1..], b[1..]);
      assert a == [a[0]] + a[1..] && b == [b[0]] + b[1..];
    }
  }

  lemma CellsTellApart()
    ensures Antisymmetric(MonthThenLarger)
  {
    forall x: MonthCategoryRow, y: MonthCategoryRow | MonthThenLarger(x, y) && MonthThenLarger(y, x) ensures x == y {
      TextLeqAntisymmetric(x.category, y.category);
    }
  }

  lemma SideBySide(lo: seq<MonthCategoryRow>, hi: seq<MonthCategoryRow>, cut: int)
    requires NoRepeats(lo) && NoRepeats(hi) && Sorted(MonthThenLarger, lo) && Sorted(MonthThenLarger, hi)
    requires (forall x | x in lo :: x.month <= cut) && (forall x | x in hi :: x.month > cut)
    ensures NoRepeats(lo + hi) && Sorted(MonthThenLarger, lo + hi)
  {
    assert forall i | 0 <= i < |lo| :: lo[i] in lo;
    assert forall i | 0 <= i < |hi| :: hi[i] in hi;
  }

  /** The cells by month and category are those of the rows up to the cut, then those of the rows after it. */
  lemma CellsSplit(rows: seq<Transaction>, cut: int)
    ensures MonthlyByCategory(rows)
      == MonthlyByCategory(Filter(rows, UpTo(cut))) + MonthlyByCategory(Filter(rows, After(cut)))
  {
    var debits, lo, hi := Filter(rows, IsDebit), Filter(rows, UpTo(cut)), Filter(rows, After(cut));
    var whole, sides := MonthlyByCategory(rows), MonthlyByCategory(lo) + MonthlyByCategory(hi);
    FilterCommutes(rows, IsDebit, UpTo(cut));
    FilterCommutes(rows, IsDebit, After(cut));
    forall part | part in [rows, lo, hi]
      ensures NoRepeats(MonthlyByCategory(part)) && Sorted(MonthThenLarger, MonthlyByCategory(part))
    {
      CellsOnce(part);
      ResultsAreOrdered(part);
    }
    CellsMeaning(rows);
    CellsMeaning(lo);
    CellsMeaning(hi);
    forall cell ensures
      && (IsCell(debits, cell) <==> IsCell(Filter(lo, IsDebit), cell) || IsCell(Filter(hi, IsDebit), cell))
      && (IsCell(Filter(lo, IsDebit), cell) ==> cell.month <= cut)
      && (IsCell(Filter(hi, IsDebit), cell) ==> cell.month > cut)
    {
      CellsOfSides(debits, cut, cell);
    }
    SideBySide(MonthlyByCategory(lo), MonthlyByCategory(hi), cut);
    QueryOrdersAreTotal();
    CellsTellApart();
    SortedUnique(MonthThenLarger, whole, sides);
  }

  function AddSummaries(a: SummaryRow, b: SummaryRow): SummaryRow {
    SummaryRow(a.totalIncome + b.totalIncome, a.totalSpending + b.totalSpending,
               a.essentialSpending + b.essentialSpending, a.recurringSpending + b.recurringSpending,
               a.transactionCount + b.transactionCount, a.monthCount + b.monthCount)
  }

  /**
   Cutting a window at any month boundary loses and duplicates nothing: the summaries of the parts
   add up in every field, the distinct-month count included, and each series is the first part's
   followed by the second's.
   */
  lemma WindowSplits(table: seq<Transaction>, a: Uuid, w: MonthWindow, cut: int)
    requires CutsInside(w, cut)
    ensures WholeMonths(FirstPart(w, cut)) && WholeMonths(SecondPart(w, cut))
    ensures var rows := Selected(table, a, w);
      var lo, hi := Selected(table, a, FirstPart(w, cut)), Selected(table, a, SecondPart(w, cut));
      && WindowSummary(rows) == AddSummaries(WindowSummary(lo), WindowSummary(hi))
      && MonthlyIncomeVsSpending(rows) == MonthlyIncomeVsSpending(lo) + MonthlyIncomeVsSpending(hi)
      && MonthlyByCategory(rows) == MonthlyByCategory(lo) + MonthlyByCategory(hi)
      && EssentialVsDiscretionary(rows) == EssentialVsDiscretionary(lo) + EssentialVsDiscretionary(hi)
      && BalanceOverTime(rows) == BalanceOverTime(lo) + BalanceOverTime(hi)
  {
    PartsSelect(table, a, w, cut);
    var rows := Selected(table, a, w);
    var lo, hi := Filter(rows, UpTo(cut)), Filter(rows, After(cut));
    PairsSplit(rows, Income, Spending, cut);
    PairsSplit(Filter(rows, IsDebit), EssentialAmount, DiscretionaryAmount, cut);
    FilterCommutes(rows, IsDebit, UpTo(cut));
    FilterCommutes(rows, IsDebit, After(cut));
    CellsSplit(rows, cut);
    BalanceSplit(rows, cut);
    SummarySplits(rows, cut);
  }

  lemma TotalsSplit(rows: seq<Transaction>, weight: Transaction -> int, cut: int)
    ensures Total(rows, weight) == Total(Filter(rows, UpTo(cut)), weight) + Total(Filter(rows, After(cut)), weight)
  {
    SumSplits(rows, UpTo(cut), After(cut), Whole<Transaction>, weight, ());
  }

  lemma CountsSplit(rows: seq<Transaction>, cut: int)
    ensures |rows| == |Filter(rows, UpTo(cut))| + |Filter(rows, After(cut))|
    ensures |SortedKeys(rows, MonthOf)|
      == |SortedKeys(Filter(rows, UpTo(cut)), MonthOf)| + |SortedKeys(Filter(rows, After(cut)), MonthOf)|
  {
    TotalsSplit(rows, One<Transaction>, cut);
    CountIsLength(rows);
    CountIsLength(Filter(rows, UpTo(cut)));
    CountIsLength(Filter(rows, After(cut)));
    SortedKeysSplit(rows, MonthOf, UpTo(cut), After(cut), cut);
  }

  lemma MonthCountsSplit(rows: seq<Transaction>, cut: int)
    ensures |MonthsSeen(rows)| == |MonthsSeen(Filter(rows, UpTo(cut)))| + |MonthsSeen(Filter(rows, After(cut)))|
  {
    CountsSplit(rows, cut);
    MonthCountIsRows(rows);
    MonthCountIsRows(Filter(rows, UpTo(cut)));
    MonthCountIsRows(Filter(rows, After(cut)));
  }

  lemma SummaryAdds(rows: seq<Transaction>, lo: seq<Transaction>, hi: seq<Transaction>)
    requires Total(rows, Income) == Total(lo, Income) + Total(hi, Income)
    requires Total(rows, Spending) == Total(lo, Spending) + Total(hi, Spending)
    requires Total(rows, EssentialSpending) == Total(lo, EssentialSpending) + Total(hi, EssentialSpending)
    requires Total(rows, RecurringSpending) == Total(lo, RecurringSpending) + Total(hi, RecurringSpending)
    requires |rows| == |lo| + |hi| && |MonthsSeen(rows)| == |MonthsSeen(lo)| + |MonthsSeen(hi)|
    ensures WindowSummary(rows) == AddSummaries(WindowSummary(lo), WindowSummary(hi))
  {
  }

  lemma SummarySplits(rows: seq<Transaction>, cut: int)
    ensures WindowSummary(rows)
      == AddSummaries(WindowSummary(Filter(rows, UpTo(cut))), WindowSummary(Filter(rows, After(cut))))
  {
    TotalsSplit(rows, Income, cut);
    TotalsSplit(rows, Spending, cut);
    TotalsSplit(rows, EssentialSpending, cut);
    TotalsSplit(rows, RecurringSpending, cut);
    CountsSplit(rows, cut);
    MonthCountsSplit(rows, cut);
    SummaryAdds(rows, Filter(rows, UpTo(cut)), Filter(rows, After(cut)));
  }

  /******* Closing balances *******/

  lemma {:induction false} LastBalanceMeaning(rows: seq<Transaction>, day: int)
    ensures LastBalance(rows, day).None? <==> forall t | t in rows :: !(DayOf(t) == day && HasBalance(t))
    ensures LastBalance(rows, day).Some? ==>
      var last := LastBalance(rows, day).value;
      && last in rows && DayOf(last) == day && HasBalance(last)
      && forall t | t in rows && DayOf(t) == day && HasBalance(t) :: t.id <= last.id
  {
    if rows != [] {
      LastBalanceMeaning(rows[1..], day);
      assert forall t | t in rows :: t == rows[0] || t in rows[1..];
      assert rows[0] in rows;
    }
  }

  /** The date of a day number that some row has. */
  lemma DateOfDay(d: Day)
    ensures FromDayNumber(DayNumber(d)) == d
  {
    CivilRoundTrip(d, 0);
  }

  /** The point at an index: its day is the key there, and it is the closing balance of that day. */
  lemma PointAt(rows: seq<Transaction>, i: nat)
    requires i < |BalanceOverTime(rows)|
    ensures var point, days := BalanceOverTime(rows)[i], SortedKeys(Filter(rows, HasBalance), DayOf);
      && i < |days| && Valid(point.date) && DayNumber(point.date) == days[i]
      && exists t :: IsClosing(rows, t) && point == BalanceRow(t.entry.date, t.entry.balanceAfter.value)
  {
    var days := SortedKeys(Filter(rows, HasBalance), DayOf);
    SortedKeysMeaning(Filter(rows, HasBalance), DayOf);
    FilterMembers(rows, HasBalance);
    assert days[i] in days;
    ClosingOfDay(rows, days[i]);
  }

  lemma PointFor(rows: seq<Transaction>, t: Transaction) returns (i: nat)
    requires t in rows && HasBalance(t)
    ensures i < |BalanceOverTime(rows)| && BalanceOverTime(rows)[i].date == t.entry.date
  {
    var days := SortedKeys(Filter(rows, HasBalance), DayOf);
    SortedKeysMeaning(Filter(rows, HasBalance), DayOf);
    FilterMembers(rows, HasBalance);
    assert t in Filter(rows, HasBalance) && DayOf(t) in days;
    i :| i < |days| && days[i] == DayOf(t);
    DateOfDay(t.entry.date);
  }

  /**
   One point for each date on which some row carries a balance, in strictly ascending order, and
   each point is the balance of that date's row with the highest id.
   */
  lemma BalancePoints(rows: seq<Transaction>)
    ensures var points := BalanceOverTime(rows);
      && (forall i | 0 <= i < |points| :: Valid(points[i].date))
      && (forall i, j | 0 <= i < j < |points| :: DayNumber(points[i].date) < DayNumber(points[j].date))
      && (forall t | t in rows && HasBalance(t) :: exists i | 0 <= i < |points| :: points[i].date == t.entry.date)
      && (forall i | 0 <= i < |points| :: exists t ::
            IsClosing(rows, t) && points[i] == BalanceRow(t.entry.date, t.entry.balanceAfter.value))
  {
    var points := BalanceOverTime(rows);
    forall i | 0 <= i < |points|
      ensures Valid(points[i].date) && DayNumber(points[i].date) == SortedKeys(Filter(rows, HasBalance), DayOf)[i]
      ensures exists t :: IsClosing(rows, t) && points[i] == BalanceRow(t.entry.date, t.entry.balanceAfter.value)
    {
      PointAt(rows, i);
    }
    forall t | t in rows && HasBalance(t) ensures exists i | 0 <= i < |points| :: points[i].date == t.entry.date {
      var i := PointFor(rows, t);
    }
  }

  /** `t` carries the balance with the highest id of its date. */
  ghost predicate IsClosing(rows: seq<Transaction>, t: Transaction) {
    t in rows && HasBalance(t) && forall u | u in rows && HasBalance(u) && u.entry.date == t.entry.date :: u.id <= t.id
  }

  lemma ClosingOfDay(rows: seq<Transaction>, day: int)
    requires exists t :: t in rows && HasBalance(t) && DayOf(t) == day
    ensures var row := BalanceGroup(rows)(day);
      && Valid(row.date) && DayNumber(row.date) == day
      && exists t :: IsClosing(rows, t) && row == BalanceRow(t.entry.date, t.entry.balanceAfter.value)
  {
    LastBalanceMeaning(rows, day);
    var last := LastBalance(rows, day).value;
    DateOfDay(last.entry.date);
    assert IsClosing(rows, last);
  }

  /******* Shares *******/

  ghost predicate Magnitudes(rows: seq<Transaction>) {
    forall t | t in rows :: t.entry.amount >= 0
  }

  /** Every row is a credit or a debit. */
  ghost predicate Directed(rows: seq<Transaction>) {
    forall t | t in rows :: t.entry.direction == CREDIT || t.entry.direction == DEBIT
  }

  /** No selected row is missing from the totals. */
  lemma NothingUncounted(rows: seq<Transaction>)
    requires Directed(rows)
    ensures WindowSummary(rows).totalIncome + WindowSummary(rows).totalSpending == Total(rows, Amount)
  {
    WeightsAdd(rows, Whole<Transaction>, Income, Spending, Amount, ());
  }

  function SumOfShares(slices: seq<CategoryRow>, total: int): real {
    if slices == [] then 0.0 else Share(slices[0], total) + SumOfShares(slices[1..], total)
  }

  lemma RatioAdds(a: int, b: int, total: int)
    ensures Ratio(a, total) + Ratio(b, total) == Ratio(a + b, total)
  {
    if total != 0 {
      var t := total as real;
      assert a as real / t + b as real / t == (a as real + b as real) / t;
    }
  }

  lemma {:induction false} SharesSum(slices: seq<CategoryRow>, total: int)
    ensures SumOfShares(slices, total) == Ratio(Total(slices, RowAmount), total)
  {
    if slices != [] {
      SharesSum(slices[1..], total);
      RatioAdds(slices[0].amount, Total(slices[1..], RowAmount), total);
    }
  }

  lemma RatioBounds(a: int, total: int)
    requires 0 <= a <= total
    ensures 0.0 <= Ratio(a, total) <= 1.0
  {
    if total != 0 {
      var x, t := a as real, total as real;
      assert x / t * t == x;
      assert x / t >= 0.0;
      if x / t > 1.0 {
        assert x / t * t > 1.0 * t;
      }
    }
  }

  lemma RatioSelf(total: int)
    ensures Ratio(total, total) == if total == 0 then 0.0 else 1.0
  {
    if total != 0 {
      var t := total as real;
      assert t / t == 1.0;
    }
  }

  lemma SliceAmount(rows: seq<Transaction>, i: nat)
    requires Magnitudes(rows) && i < |CategoryBreakdown(rows)|
    ensures 0 <= CategoryBreakdown(rows)[i].amount <= WindowSummary(rows).totalSpending
  {
    var slice := CategoryBreakdown(rows)[i];
    var debits := Filter(rows, IsDebit);
    FilterMembers(rows, IsDebit);
    DebitSums(rows, Whole<Transaction>, ());
    var groups := MapSlice(Distinct(MapSlice(debits, CategoryOf)), CategoryGroup(debits));
    OrderByMembers(LargerFirst, groups);
    assert slice in OrderBy(LargerFirst, groups);
    var j :| 0 <= j < |groups| && groups[j] == slice;
    NonNegativeSum(debits, CategoryOf, Amount, slice.category);
  }

  /** Each slice's share lies in [0, 1], and the shares add up to 1 unless nothing was spent. */
  lemma SharesAreShares(rows: seq<Transaction>)
    requires Magnitudes(rows)
    ensures var slices, total := CategoryBreakdown(rows), WindowSummary(rows).totalSpending;
      && (forall i | 0 <= i < |slices| :: 0.0 <= Share(slices[i], total) <= 1.0)
      && SumOfShares(slices, total) == if total == 0 then 0.0 else 1.0
  {
    var slices, total := CategoryBreakdown(rows), WindowSummary(rows).totalSpending;
    forall i | 0 <= i < |slices| ensures 0.0 <= Share(slices[i], total) <= 1.0 {
      SliceAmount(rows, i);
      RatioBounds(slices[i].amount, total);
    }
    SpendingAgrees(rows, 0, "");
    SharesSum(slices, total);
    RatioSelf(total);
  }

  /******* Order *******/

  lemma {:induction false} TextLeqTotal(a: string, b: string)
    ensures TextLeq(a, b) || TextLeq(b, a)
  {
    if a != "" && b != "" && a[0] == b[0] {
      TextLeqTotal(a[1..], b[1..]);
    }
  }

  lemma {:induction false} TextLeqTransitive(a: string, b: string, c: string)
    requires TextLeq(a, b) && TextLeq(b, c)
    ensures TextLeq(a, c)
  {
    if a != "" && a[0] == b[0] == c[0] {
      TextLeqTransitive(a[1..], b[1..], c[1..]);
    }
  }

  lemma QueryOrdersAreTotal()
    ensures TotalOrder(LargerFirst) && TotalOrder(MonthThenLarger)
  {
    forall a: string, b: string ensures TextLeq(a, b) || TextLeq(b, a) {
      TextLeqTotal(a, b);
    }
    forall a: string, b: string, c: string | TextLeq(a, b) && TextLeq(b, c) ensures TextLeq(a, c) {
      TextLeqTransitive(a, b, c);
    }
  }

  /** Slices come largest first and cells month by month, each a permutation of its groups. */
  lemma ResultsAreOrdered(rows: seq<Transaction>)
    ensures Sorted(LargerFirst, CategoryBreakdown(rows)) && Sorted(MonthThenLarger, MonthlyByCategory(rows))
  {
    QueryOrdersAreTotal();
    var debits := Filter(rows, IsDebit);
    OrderByMeaning(LargerFirst, MapSlice(Distinct(MapSlice(debits, CategoryOf)), CategoryGroup(debits)));
    OrderByMeaning(MonthThenLarger,
      MapSlice(Distinct(MapSlice(debits, MonthAndCategoryOf)), MonthCategoryGroup(debits)));
  }

  lemma {:induction false} PaddedOrder(m: nat, s: string, n: nat, t: string, width: nat)
    requires FitsWidth(m, width) && FitsWidth(n, width)
    ensures TextLeq(Padded(m, width) + s, Padded(n, width) + t) <==> m < n || (m == n && TextLeq(s, t))
    decreases width
  {
    if width == 0 {
      assert "" + s == s && "" + t == t;
    } else {
      var s', t' := [DigitChar(m % 10)] + s, [DigitChar(n % 10)] + t;
      PaddedOrder(m / 10, s', n / 10, t', width - 1);
      assert Padded(m, width) + s == Padded(m / 10, width - 1) + s';
      assert Padded(n, width) + t == Padded(n / 10, width - 1) + t';
      assert s'[1..] == s && t'[1..] == t;
      assert DigitValue(DigitChar(m % 10)) == m % 10 && DigitValue(DigitChar(n % 10)) == n % 10;
    }
  }

  /** Ordering by the text of the month is ordering by month, for every year of four digits. */
  lemma LabelsSortByMonth(a: Day, b: Day)
    requires 0 <= a.year <= 9999 && 0 <= b.year <= 9999
    ensures TextLeq(FormatMonth(a), FormatMonth(b)) <==> MonthIndex(a) <= MonthIndex(b)
  {
    var ra, rb := "-" + Padded(a.month, 2), "-" + Padded(b.month, 2);
    assert FormatMonth(a) == Padded(a.year, 4) + ra && FormatMonth(b) == Padded(b.year, 4) + rb;
    YearFits(a.year);
    YearFits(b.year);
    PaddedOrder(a.year, ra, b.year, rb, 4);
    assert ra[1..] == Padded(a.month, 2) + "" && rb[1..] == Padded(b.month, 2) + "";
    assert FitsWidth(a.month / 10, 1) && FitsWidth(b.month / 10, 1);
    PaddedOrder(a.month, "", b.month, "", 2);
  }

  /******* What the default window holds *******/

  ghost predicate HasRow(rows: seq<Transaction>, m: int) {
    exists t :: t in rows && MonthOf(t) == m
  }

  /**
   A window counts calendar months, not months with data: it carries as many months of data as it
   spans exactly when each of its months has a row.
   */
  lemma EveryMonthHasDataIff(table: seq<Transaction>, a: Uuid, w: MonthWindow)
    requires WholeMonths(w) && MonthIndex(w.from) <= MonthIndex(w.to)
    ensures var rows, span := Selected(table, a, w), MonthIndex(w.to) - MonthIndex(w.from) + 1;
      && WindowSummary(rows).monthCount <= span
      && (WindowSummary(rows).monthCount == span
          <==> forall m | MonthIndex(w.from) <= m <= MonthIndex(w.to) :: HasRow(rows, m))
  {
    var rows := Selected(table, a, w);
    var ks := SortedKeys(rows, MonthOf);
    SortedKeysMeaning(rows, MonthOf);
    MonthCountIsRows(rows);
    FilterMembers(table, Selector(a, w));
    forall k ensures k in ks <==> HasRow(rows, k) {
    }
    forall k | k in ks ensures MonthIndex(w.from) <= k <= MonthIndex(w.to) {
      var t :| t in rows && MonthOf(t) == k;
      PeriodIsItsMonths(w, t.entry.date);
    }
    AscendingFills(ks, MonthIndex(w.from), MonthIndex(w.to));
  }
}
