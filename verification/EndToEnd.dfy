/**
 From the model's reply to the charts: what internal/pipeline/convert.go builds,
 internal/db/store.go stores and internal/db/queries/visualization.sql selects again.
 */
module EndToEnd {
  import opened Calendar
  import opened Charts
  import opened Convert
  import opened Groups
  import opened Runs
  import opened Saga
  import opened SagaLaws
  import opened Store
  import opened StoreLaws
  import opened Tables
  import opened Text
  import opened Window

  function Within(w: MonthWindow): Day -> bool
    requires WholeMonths(w)
  {
    (d: Day) => InPeriod(w, d)
  }

  function DatedIn(within: Day -> bool): Transaction -> bool {
    (t: Transaction) => within(t.entry.date)
  }

  /** The replacement goes through. */
  ghost predicate Insertable(db: Database, na: NewAnalysis) {
    Consistent(db) && CanInsert(Deleted(db, na.analysis.uploadId), na.id, na.analysis)
  }

  /** The rows a chart of the new analysis is drawn from. */
  function ChartRows(db: Database, na: NewAnalysis, w: MonthWindow): seq<Transaction>
    requires WholeMonths(w)
  {
    Selected(Replaced(db, na).transactions, na.id, w)
  }

  /** They are the stored entries whose date is in the window, numbered in their order. */
  lemma ChartRowsAreEntries(db: Database, na: NewAnalysis, w: MonthWindow)
    requires Insertable(db, na) && WholeMonths(w)
    ensures ChartRows(db, na, w) == Filter(Numbered(na.id, na.entries, db.nextId), DatedIn(Within(w)))
  {
    ReplacedRows(db, na);
    FilterTwice(Replaced(db, na).transactions, In({na.id}), DatedIn(Within(w)), Selector(na.id, w));
  }

  /******* Closing balances *******/

  /** The k-th entry is the last one of its date to carry a balance. */
  ghost predicate LastOfDay(entries: seq<Entry>, k: nat) {
    && k < |entries| && entries[k].balanceAfter.Some?
    && forall j | k < j < |entries| :: !(entries[j].date == entries[k].date && entries[j].balanceAfter.Some?)
  }

  lemma RowIsEntry(a: Uuid, entries: seq<Entry>, from: nat, inside: Transaction -> bool, t: Transaction)
    returns (k: nat)
    requires t in Filter(Numbered(a, entries, from), inside)
    ensures k < |entries| && t == Transaction(from + k, a, entries[k]) && inside(t)
  {
    var all := Numbered(a, entries, from);
    FilterMembers(all, inside);
    k :| k < |all| && all[k] == t;
  }

  lemma EntryIsRow(a: Uuid, entries: seq<Entry>, from: nat, inside: Transaction -> bool, k: nat)
    requires k < |entries| && inside(Transaction(from + k, a, entries[k]))
    ensures Transaction(from + k, a, entries[k]) in Filter(Numbered(a, entries, from), inside)
  {
    var all := Numbered(a, entries, from);
    FilterMembers(all, inside);
    assert all[k] in all;
  }

  /** The row with the highest id of its date is the entry that comes last. */
  lemma ClosingIsLast(a: Uuid, entries: seq<Entry>, from: nat, within: Day -> bool, t: Transaction) returns (k: nat)
    requires IsClosing(Filter(Numbered(a, entries, from), DatedIn(within)), t)
    ensures LastOfDay(entries, k) && entries[k] == t.entry && within(t.entry.date)
  {
    k := RowIsEntry(a, entries, from, DatedIn(within), t);
    forall j | k < j < |entries| ensures !(entries[j].date == t.entry.date && entries[j].balanceAfter.Some?) {
      if entries[j].date == t.entry.date {
        EntryIsRow(a, entries, from, DatedIn(within), j);
      }
    }
  }

  /** Strictly ascending dates. */
  ghost predicate DatesAscend(points: seq<BalanceRow>) {
    && (forall i | 0 <= i < |points| :: Valid(points[i].date))
    && (forall i, j | 0 <= i < j < |points| :: DayNumber(points[i].date) < DayNumber(points[j].date))
  }

  /** The point shows the balance of the last entry of its date to carry one. */
  ghost predicate ShowsLast(entries: seq<Entry>, within: Day -> bool, point: BalanceRow) {
    exists k: nat :: LastOfDay(entries, k) && within(entries[k].date)
      && point == BalanceRow(entries[k].date, entries[k].balanceAfter.value)
  }

  ghost predicate HasPoint(points: seq<BalanceRow>, date: Date) {
    exists i | 0 <= i < |points| :: points[i].date == date
  }

  /** One point for each date in the window on which an entry carries a balance: that of the last such entry. */
  ghost predicate ClosesEntries(entries: seq<Entry>, within: Day -> bool, points: seq<BalanceRow>) {
    && (forall k | 0 <= k < |entries| && entries[k].balanceAfter.Some? && within(entries[k].date) ::
          HasPoint(points, entries[k].date))
    && (forall i | 0 <= i < |points| :: ShowsLast(entries, within, points[i]))
  }

  lemma PointShowsLast(a: Uuid, entries: seq<Entry>, from: nat, within: Day -> bool, i: nat)
    requires i < |BalanceOverTime(Filter(Numbered(a, entries, from), DatedIn(within)))|
    ensures ShowsLast(entries, within, BalanceOverTime(Filter(Numbered(a, entries, from), DatedIn(within)))[i])
  {
    var rows := Filter(Numbered(a, entries, from), DatedIn(within));
    PointAt(rows, i);
    var t :| IsClosing(rows, t) && BalanceOverTime(rows)[i] == BalanceRow(t.entry.date, t.entry.balanceAfter.value);
    var k := ClosingIsLast(a, entries, from, within, t);
  }

  lemma EntryHasPoint(a: Uuid, entries: seq<Entry>, from: nat, within: Day -> bool, k: nat)
    requires k < |entries| && entries[k].balanceAfter.Some? && within(entries[k].date)
    ensures HasPoint(BalanceOverTime(Filter(Numbered(a, entries, from), DatedIn(within))), entries[k].date)
  {
    EntryIsRow(a, entries, from, DatedIn(within), k);
    var i := PointFor(Filter(Numbered(a, entries, from), DatedIn(within)), Transaction(from + k, a, entries[k]));
  }

  lemma PointsCloseEntries(a: Uuid, entries: seq<Entry>, from: nat, within: Day -> bool)
    ensures ClosesEntries(entries, within, BalanceOverTime(Filter(Numbered(a, entries, from), DatedIn(within))))
  {
    var points := BalanceOverTime(Filter(Numbered(a, entries, from), DatedIn(within)));
    forall k | 0 <= k < |entries| && entries[k].balanceAfter.Some? && within(entries[k].date)
      ensures HasPoint(points, entries[k].date)
    {
      EntryHasPoint(a, entries, from, within, k);
    }
    forall i | 0 <= i < |points| ensures ShowsLast(entries, within, points[i]) {
      PointShowsLast(a, entries, from, within, i);
    }
  }

  lemma PointsAscend(rows: seq<Transaction>)
    ensures DatesAscend(BalanceOverTime(rows))
  {
    BalancePoints(rows);
  }

  lemma ClosingBalancesOfEntries(db: Database, na: NewAnalysis, w: MonthWindow)
    requires Insertable(db, na) && WholeMonths(w)
    ensures DatesAscend(BalanceOverTime(ChartRows(db, na, w)))
    ensures ClosesEntries(na.entries, Within(w), BalanceOverTime(ChartRows(db, na, w)))
  {
    ChartRowsAreEntries(db, na, w);
    PointsAscend(ChartRows(db, na, w));
    PointsCloseEntries(na.id, na.entries, db.nextId, Within(w));
  }

  /** The reply's entry states this balance for this date. */
  predicate States(txn: ReplyEntry, date: Date, cents: int) {
    ParseDay(TrimSpace(txn.date)) == Good(date) && OptionalNumeric(txn.balanceAfter) == Convert.Result.Ok(Some(cents))
  }

  /** The k-th entry of the reply states this balance, and no later one states any for the same date. */
  ghost predicate LastStated(states: (ReplyEntry, Date, int) -> bool, txns: seq<ReplyEntry>, k: nat, date: Date,
      cents: int)
  {
    && k < |txns| && states(txns[k], date, cents)
    && forall j, other | k < j < |txns| :: !states(txns[j], date, other)
  }

  ghost predicate PointStated(states: (ReplyEntry, Date, int) -> bool, txns: seq<ReplyEntry>, within: Day -> bool,
      point: BalanceRow)
  {
    Valid(point.date) && within(point.date) && exists k: nat :: LastStated(states, txns, k, point.date, point.balance)
  }

  /** One point for each date within the window for which the reply states a balance: the one it states last. */
  ghost predicate ClosesReply(states: (ReplyEntry, Date, int) -> bool, txns: seq<ReplyEntry>, within: Day -> bool,
      points: seq<BalanceRow>)
  {
    && (forall k, date: Day, cents | 0 <= k < |txns| && states(txns[k], date, cents) && within(date) ::
         HasPoint(points, date))
    && (forall i | 0 <= i < |points| :: PointStated(states, txns, within, points[i]))
  }

  /** What every converted entry says of dates and balances is what the reply said. */
  ghost predicate SaysTheSame(states: (ReplyEntry, Date, int) -> bool, txns: seq<ReplyEntry>, entries: seq<Entry>) {
    && |entries| == |txns|
    && forall k, date, cents | 0 <= k < |txns| ::
         states(txns[k], date, cents) <==> entries[k].date == date && entries[k].balanceAfter == Some(cents)
  }

  lemma BuiltStates(txn: ReplyEntry, e: Entry, date: Date, cents: int)
    requires BuildTransaction(txn) == Convert.Result.Ok(e)
    ensures States(txn, date, cents) <==> e.date == date && e.balanceAfter == Some(cents)
  {
    AssembledParts(txn, ParseDay(TrimSpace(txn.date)), StoredAmount(txn.amount), OptionalNumeric(txn.balanceAfter));
  }

  lemma EntriesState(txns: seq<ReplyEntry>, entries: seq<Entry>)
    requires RowForRow(BuildTransaction, txns, entries)
    ensures SaysTheSame(States, txns, entries)
  {
    forall k, date, cents | 0 <= k < |txns|
      ensures States(txns[k], date, cents) <==> entries[k].date == date && entries[k].balanceAfter == Some(cents)
    {
      BuiltStates(txns[k], entries[k], date, cents);
    }
  }

  lemma LastCarriesOver(states: (ReplyEntry, Date, int) -> bool, txns: seq<ReplyEntry>, entries: seq<Entry>,
      within: Day -> bool, point: BalanceRow)
    requires SaysTheSame(states, txns, entries) && ShowsLast(entries, within, point)
    ensures PointStated(states, txns, within, point)
  {
    var k: nat :| LastOfDay(entries, k) && within(entries[k].date)
      && point == BalanceRow(entries[k].date, entries[k].balanceAfter.value);
    assert LastStated(states, txns, k, point.date, point.balance);
  }

  lemma ClosingCarriesOver(states: (ReplyEntry, Date, int) -> bool, txns: seq<ReplyEntry>, entries: seq<Entry>,
      within: Day -> bool, points: seq<BalanceRow>)
    requires SaysTheSame(states, txns, entries) && ClosesEntries(entries, within, points)
    ensures ClosesReply(states, txns, within, points)
  {
    forall i | 0 <= i < |points| ensures PointStated(states, txns, within, points[i]) {
      LastCarriesOver(states, txns, entries, within, points[i]);
    }
    forall k, date: Day, cents | 0 <= k < |txns| && states(txns[k], date, cents) && within(date)
      ensures HasPoint(points, date)
    {
      assert entries[k].date == date;
    }
  }

  /**
   After the analysis of a reply is stored, the balance chart of any window has strictly ascending
   dates, one for each date in the window for which the reply states a balance, and shows the balance
   that the last such entry states, in the reply's own order.
   */
  lemma ClosingBalances(db: Database, id: Uuid, uploadId: Uuid, resp: Response, w: MonthWindow)
    requires Built(id, uploadId, Some(resp)).Ok? && Insertable(db, Built(id, uploadId, Some(resp)).value)
      && WholeMonths(w)
    ensures var points := BalanceOverTime(ChartRows(db, Built(id, uploadId, Some(resp)).value, w));
      DatesAscend(points) && ClosesReply(States, resp.transactions, Within(w), points)
  {
    var na := Built(id, uploadId, Some(resp)).value;
    NoRowVanishes(id, uploadId, resp);
    ClosingBalancesOfEntries(db, na, w);
    EntriesState(resp.transactions, na.entries);
    ClosingCarriesOver(States, resp.transactions, na.entries, Within(w), BalanceOverTime(ChartRows(db, na, w)));
  }

  /******* Totals *******/

  /** What a date and an amount add: the amount without its sign, if the date is within the window. */
  function Magnitude(within: Day -> bool, when: Parsed, amount: Option<int>): int
    requires when.Good? ==> Valid(when.date)
  {
    if when.Good? && amount.Some? && within(when.date) then Abs(amount.value) else 0
  }

  function MagnitudeIn(within: Day -> bool): ReplyEntry -> int {
    (txn: ReplyEntry) => Magnitude(within, ParseDay(TrimSpace(txn.date)), ParseCents(txn.amount))
  }

  /** Every amount of the reply is a JSON number. */
  ghost predicate AmountsAreNumbers(resp: Response) {
    forall i | 0 <= i < |resp.transactions| :: JsonNumber(resp.transactions[i].amount)
  }

  /** The wording says so, or, with a wording that says nothing, the sign does. */
  predicate GoesOut(txn: ReplyEntry) {
    SaysOutgoing(txn.direction) || (!SaysIncoming(txn.direction) && "-" <= txn.amount)
  }

  predicate ComesIn(txn: ReplyEntry) {
    SaysIncoming(txn.direction)
  }

  predicate EitherWay(txn: ReplyEntry) {
    true
  }

  predicate GoesOutAsEssential(txn: ReplyEntry) {
    GoesOut(txn) && txn.essential
  }

  predicate GoesOutAgainAndAgain(txn: ReplyEntry) {
    GoesOut(txn) && txn.recurring
  }

  /** What an entry adds to a sum over the entries of one kind. */
  function Sent(within: Day -> bool, kind: ReplyEntry -> bool): ReplyEntry -> int {
    (txn: ReplyEntry) => if kind(txn) then MagnitudeIn(within)(txn) else 0
  }

  /** One for an entry dated in the window. */
  function DatedOne(within: Day -> bool): ReplyEntry -> int {
    (txn: ReplyEntry) =>
      var when := ParseDay(TrimSpace(txn.date));
      if when.Good? && within(when.date) then 1 else 0
  }

  function Inside(within: Day -> bool, weight: Transaction -> int): Transaction -> int {
    (t: Transaction) => if within(t.entry.date) then weight(t) else 0
  }

  /** Rows made of entries of one kind weigh their amount, and the others nothing. */
  ghost predicate Measures(weight: Transaction -> int, kind: ReplyEntry -> bool) {
    forall txn: ReplyEntry, t: Transaction |
      JsonNumber(txn.amount) && BuildTransaction(txn) == Convert.Result.Ok(t.entry) ::
      weight(t) == if kind(txn) then t.entry.amount else 0
  }

  lemma StoredMagnitude(txn: ReplyEntry, e: Entry)
    requires JsonNumber(txn.amount) && BuildTransaction(txn) == Convert.Result.Ok(e)
    ensures ParseDay(TrimSpace(txn.date)) == Good(e.date)
    ensures ParseCents(txn.amount).Some? && e.amount == Abs(ParseCents(txn.amount).value)
    ensures e.direction == (if ComesIn(txn) then CREDIT else DEBIT) && (GoesOut(txn) <==> !ComesIn(txn))
    ensures e.essential == txn.essential && e.recurring == txn.recurring
  {
    StoredRow(txn);
    StoredAmountMeaning(txn.amount);
    DirectionMeaning(txn.direction, "-" <= txn.amount);
  }

  lemma SameMagnitude(within: Day -> bool, when: Parsed, amount: Option<int>, t: Transaction)
    requires when == Good(t.entry.date) && amount.Some? && t.entry.amount == Abs(amount.value)
    ensures Inside(within, Amount)(t) == Magnitude(within, when, amount)
  {
  }

  lemma EntryIsMagnitude(txn: ReplyEntry, within: Day -> bool, t: Transaction)
    requires JsonNumber(txn.amount) && BuildTransaction(txn) == Convert.Result.Ok(t.entry)
    ensures Inside(within, Amount)(t) == MagnitudeIn(within)(txn) && t.entry.amount >= 0
      && (t.entry.direction == CREDIT || t.entry.direction == DEBIT)
    ensures Inside(within, One)(t) == DatedOne(within)(txn)
  {
    StoredMagnitude(txn, t.entry);
    SameMagnitude(within, ParseDay(TrimSpace(txn.date)), ParseCents(txn.amount), t);
  }

  lemma QueriesMeasure()
    ensures Measures(Income, ComesIn) && Measures(Spending, GoesOut) && Measures(Amount, EitherWay)
    ensures Measures(EssentialSpending, GoesOutAsEssential) && Measures(RecurringSpending, GoesOutAgainAndAgain)
  {
    forall txn: ReplyEntry, t: Transaction |
      JsonNumber(txn.amount) && BuildTransaction(txn) == Convert.Result.Ok(t.entry)
      ensures t.entry.direction == (if ComesIn(txn) then CREDIT else DEBIT) && (GoesOut(txn) <==> !ComesIn(txn))
      ensures t.entry.essential == txn.essential && t.entry.recurring == txn.recurring
    {
      StoredMagnitude(txn, t.entry);
    }
  }

  lemma MeasureOfEntry(txn: ReplyEntry, within: Day -> bool, t: Transaction, weight: Transaction -> int,
      kind: ReplyEntry -> bool)
    requires JsonNumber(txn.amount) && BuildTransaction(txn) == Convert.Result.Ok(t.entry)
    requires Measures(weight, kind)
    ensures Inside(within, weight)(t) == Sent(within, kind)(txn)
  {
    EntryIsMagnitude(txn, within, t);
  }

  /** The entries are those of a reply whose amounts are numbers. */
  ghost predicate EntriesOf(txns: seq<ReplyEntry>, entries: seq<Entry>) {
    RowForRow(BuildTransaction, txns, entries) && forall i | 0 <= i < |txns| :: JsonNumber(txns[i].amount)
  }

  lemma RowsInside(all: seq<Transaction>, within: Day -> bool, weight: Transaction -> int)
    ensures Total(Filter(all, DatedIn(within)), weight) == Total(all, Inside(within, weight))
  {
    FilterIsWeightZero(all, DatedIn(within), Whole<Transaction>, weight, Inside(within, weight), ());
  }

  /** A sum over the selected rows is the sum over the reply's entries of that kind. */
  lemma MeasureAgrees(a: Uuid, entries: seq<Entry>, from: nat, txns: seq<ReplyEntry>, within: Day -> bool,
      weight: Transaction -> int, kind: ReplyEntry -> bool)
    requires EntriesOf(txns, entries) && Measures(weight, kind)
    ensures Total(Filter(Numbered(a, entries, from), DatedIn(within)), weight) == Total(txns, Sent(within, kind))
  {
    var all := Numbered(a, entries, from);
    forall i | 0 <= i < |all| ensures Inside(within, weight)(all[i]) == Sent(within, kind)(txns[i]) {
      MeasureOfEntry(txns[i], within, all[i], weight, kind);
    }
    TotalsAlign(all, txns, Inside(within, weight), Sent(within, kind));
    RowsInside(all, within, weight);
  }

  lemma CountAgrees(a: Uuid, entries: seq<Entry>, from: nat, txns: seq<ReplyEntry>, within: Day -> bool)
    requires EntriesOf(txns, entries)
    ensures var rows := Filter(Numbered(a, entries, from), DatedIn(within));
      |rows| == Total(txns, DatedOne(within)) && Magnitudes(rows) && Directed(rows)
  {
    var all := Numbered(a, entries, from);
    forall i | 0 <= i < |all|
      ensures Inside(within, One)(all[i]) == DatedOne(within)(txns[i]) && all[i].entry.amount >= 0
      ensures all[i].entry.direction == CREDIT || all[i].entry.direction == DEBIT
    {
      EntryIsMagnitude(txns[i], within, all[i]);
    }
    TotalsAlign(all, txns, Inside(within, One), DatedOne(within));
    RowsInside(all, within, One);
    CountIsLength(Filter(all, DatedIn(within)));
    FilterMembers(all, DatedIn(within));
  }

  /** The totals of the selected rows are sums over the reply's entries. */
  ghost predicate TotalsOfReply(s: SummaryRow, txns: seq<ReplyEntry>, within: Day -> bool) {
    && s.totalIncome == Total(txns, Sent(within, ComesIn)) && s.totalSpending == Total(txns, Sent(within, GoesOut))
    && s.totalIncome + s.totalSpending == Total(txns, Sent(within, EitherWay))
    && s.essentialSpending == Total(txns, Sent(within, GoesOutAsEssential))
    && s.recurringSpending == Total(txns, Sent(within, GoesOutAgainAndAgain))
    && s.transactionCount == Total(txns, DatedOne(within))
  }

  lemma TotalsAreOfReply(a: Uuid, entries: seq<Entry>, from: nat, txns: seq<ReplyEntry>, within: Day -> bool)
    requires EntriesOf(txns, entries)
    ensures var rows := Filter(Numbered(a, entries, from), DatedIn(within));
      TotalsOfReply(WindowSummary(rows), txns, within) && Magnitudes(rows)
  {
    QueriesMeasure();
    MeasureAgrees(a, entries, from, txns, within, Income, ComesIn);
    MeasureAgrees(a, entries, from, txns, within, Spending, GoesOut);
    MeasureAgrees(a, entries, from, txns, within, Amount, EitherWay);
    MeasureAgrees(a, entries, from, txns, within, EssentialSpending, GoesOutAsEssential);
    MeasureAgrees(a, entries, from, txns, within, RecurringSpending, GoesOutAgainAndAgain);
    CountAgrees(a, entries, from, txns, within);
    NothingUncounted(Filter(Numbered(a, entries, from), DatedIn(within)));
  }

  /**
   When the reply's amounts are JSON numbers, the totals of any window are sums over the reply's own
   entries dated in it: income over those whose wording says incoming, spending over the others,
   essential and recurring spending over those of them that are marked so, and no entry is left out.
   Every slice's share is between 0 and 1, and the shares add up to 1 unless nothing was spent.
   */
  lemma NothingMissing(db: Database, id: Uuid, uploadId: Uuid, resp: Response, w: MonthWindow)
    requires Built(id, uploadId, Some(resp)).Ok? && Insertable(db, Built(id, uploadId, Some(resp)).value)
    requires AmountsAreNumbers(resp) && WholeMonths(w)
    ensures var rows := ChartRows(db, Built(id, uploadId, Some(resp)).value, w);
      var s, slices := WindowSummary(rows), CategoryBreakdown(rows);
      && TotalsOfReply(s, resp.transactions, Within(w))
      && (forall i | 0 <= i < |slices| :: 0.0 <= Share(slices[i], s.totalSpending) <= 1.0)
      && SumOfShares(slices, s.totalSpending) == if s.totalSpending == 0 then 0.0 else 1.0
  {
    var na := Built(id, uploadId, Some(resp)).value;
    NoRowVanishes(id, uploadId, resp);
    ChartRowsAreEntries(db, na, w);
    TotalsAreOfReply(na.id, na.entries, db.nextId, resp.transactions, Within(w));
    SharesAreShares(ChartRows(db, na, w));
  }

  /******* What is served *******/

  function EntryOf(t: Transaction): Entry {
    t.entry
  }

  function EntryIn(within: Day -> bool): Entry -> bool {
    (e: Entry) => within(e.date)
  }

  /** The rows of a window, without ids, are the entries of the window when the analysis holds exactly these entries. */
  lemma SelectedEntries(ts: seq<Transaction>, a: Uuid, entries: seq<Entry>, w: MonthWindow)
    requires WholeMonths(w) && Stamps(ts, {a}) == StampAll(a, entries)
    ensures MapSlice(Selected(ts, a, w), EntryOf) == Filter(entries, EntryIn(Within(w)))
  {
    var mine := Filter(ts, In({a}));
    FilterTwice(ts, In({a}), DatedIn(Within(w)), Selector(a, w));
    assert MapSlice(mine, EntryOf) == entries by {
      forall i | 0 <= i < |mine| ensures mine[i].entry == entries[i] {
        assert Stamps(ts, {a})[i] == StampOf(mine[i]);
      }
    }
    MapOfFilter(mine, EntryOf, DatedIn(Within(w)), EntryIn(Within(w)));
  }

  /**
   What the charts endpoint may serve.  Over any runs of an upload, with any errors, retries and
   redeliveries, a completed upload outside a rollback has its analysis, and whatever window is asked
   for, the rows it selects are exactly the entries in it of the last reply that was stored, in the
   reply's order.
   */
  lemma ServedIsLastReply(cfg: Config, u: Uuid, db: Database, es: seq<Event>, w: MonthWindow)
    requires Consistent(db) && u in db.uploads && db.uploads[u].status != Completed && AnalysesOf(db, u) == {}
      && HooksLand(es)
    requires WholeMonths(w)
    ensures var end := History(cfg, Moment(Start(u), db, None), es);
      u in end.db.uploads && end.db.uploads[u].status == Completed && !end.run.phase.Rollback? ==>
        && end.ledger.Some? && AnalysesOf(end.db, u) != {}
        && forall a | a in AnalysesOf(end.db, u) ::
             MapSlice(Selected(end.db.transactions, a, w), EntryOf) == Filter(end.ledger.value, EntryIn(Within(w)))
  {
    CompletedMeansComplete(cfg, u, db, es);
    var end := History(cfg, Moment(Start(u), db, None), es);
    if u in end.db.uploads && end.db.uploads[u].status == Completed && !end.run.phase.Rollback? {
      var a :| AnalysesOf(end.db, u) == {a} && Stamps(end.db.transactions, {a}) == StampAll(a, end.ledger.value);
      assert a in AnalysesOf(end.db, u);
      SelectedEntries(end.db.transactions, a, end.ledger.value, w);
    }
  }

  /** For every analysis of the upload, the rows of the window are these entries, in order. */
  ghost predicate ServesEntries(db: Database, u: Uuid, entries: seq<Entry>, w: MonthWindow)
    requires WholeMonths(w)
  {
    && AnalysesOf(db, u) != {}
    && forall a | a in AnalysesOf(db, u) ::
         MapSlice(Selected(db.transactions, a, w), EntryOf) == Filter(entries, EntryIn(Within(w)))
  }

  lemma HeldIsServed(db: Database, u: Uuid, entries: seq<Entry>, w: MonthWindow)
    requires WholeMonths(w) && Holds(db, u, Some(entries))
    ensures ServesEntries(db, u, entries, w)
  {
    var a :| AnalysesOf(db, u) == {a} && Stamps(db.transactions, {a}) == StampAll(a, entries);
    assert a in AnalysesOf(db, u);
    SelectedEntries(db.transactions, a, entries, w);
  }

  /**
   When nothing fails, a fresh run ends completed, and the charts of any window are drawn from exactly
   the entries of the reply that are dated in it, in the reply's order.
   */
  lemma NothingFailsIsServed(cfg: Config, u: Uuid, db: Database, env: Env, w: MonthWindow)
    requires Consistent(db) && u in db.uploads && NothingFails(db, u, env) && WholeMonths(w)
    ensures var d := Delivery(env, true, false);
      var db' := Execute(cfg, Start(u), db, [d, d, d, d]).1;
      && u in db'.uploads && db'.uploads[u].status == Completed
      && RowForRow(BuildTransaction, env.reply.reply.value.transactions, Delivered(u, env))
      && ServesEntries(db', u, Delivered(u, env), w)
  {
    var d := Delivery(env, true, false);
    NothingFailsFinishes(cfg, u, db, env);
    HeldIsServed(Execute(cfg, Start(u), db, [d, d, d, d]).1, u, Delivered(u, env), w);
  }
}
