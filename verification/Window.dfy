/**
 The month window of the visualization endpoint (internal/http/window.go).
 The query parameters arrive as strings, empty when absent; the anchor is the UTC date the
 default window counts back from.
 */
module Window {
  import opened Calendar

  const DEFAULT_WINDOW_MONTHS: int := 3
  const MAX_WINDOW_MONTHS: int := 12

  /** Both bounds are the first day of their month. */
  datatype MonthWindow = MonthWindow(from: Date, to: Date)

  datatype Query = Query(months: string, from: string, to: string)

  datatype Problem = BadMonths | BadMonth(name: string) | FromLaterThanTo

  datatype Result<+T> = Ok(value: T) | Err(problem: Problem) {
    predicate IsFailure() {
      Err?
    }

    function PropagateFailure<U>(): Result<U>
      requires Err?
    {
      Err(problem)
    }

    function Extract(): T
      requires Ok?
    {
      value
    }
  }

  predicate FirstDay(d: Date) {
    Valid(d) && d.day == 1
  }

  function PeriodStart(w: MonthWindow): Date {
    w.from
  }

  function PeriodEnd(w: MonthWindow): Date {
    AddDate(w.to, 0, 1, -1)
  }

  /**
   strconv.Atoi: an optional sign and at least one digit.  Values past the int range are out of
   1..12 and rejected either way.
   */
  predicate AtoiText(raw: string) {
    var digits := if raw != "" && (raw[0] == '+' || raw[0] == '-') then raw[1..] else raw;
    digits != "" && Digits(digits)
  }

  function Atoi(raw: string): int
    requires AtoiText(raw)
  {
    if raw[0] == '-' then -Number(raw[1..])
    else if raw[0] == '+' then Number(raw[1..])
    else Number(raw)
  }

  function ParseMonths(raw: string): Result<int> {
    if raw == "" then Ok(DEFAULT_WINDOW_MONTHS)
    else if !AtoiText(raw) || Atoi(raw) < 1 || Atoi(raw) > MAX_WINDOW_MONTHS then Err(BadMonths)
    else Ok(Atoi(raw))
  }

  datatype MonthParam = Absent | Given(month: Date)

  function ParseMonthParam(raw: string, name: string): (r: Result<MonthParam>)
    ensures r.Ok? && r.value.Given? ==> FirstDay(r.value.month)
  {
    if raw == "" then Ok(Absent)
    else match ParseMonth(raw)
      case Bad => Err(BadMonth(name))
      case Good(d) => Ok(Given(d))
  }

  function MaxMonth(a: Date, b: Date): Date
    requires 1 <= a.month <= 12 && 1 <= b.month <= 12
  {
    if Before(b, a) then a else b
  }

  lemma MonthsBackSpan(to: Date, months: int)
    requires FirstDay(to)
    ensures var from := AddDate(to, 0, -(months - 1), 0);
      FirstDay(from) && MonthIndex(from) == MonthIndex(to) - months + 1
  {
    var back := -(months - 1);
    AddMonths(to, back);
    MonthStartIndex(MonthIndex(to) + back);
  }

  function MonthsBack(to: Date, months: int): (from: Date)
    requires FirstDay(to)
    ensures FirstDay(from) && MonthIndex(from) == MonthIndex(to) - months + 1
  {
    MonthsBackSpan(to, months);
    AddDate(to, 0, -(months - 1), 0)
  }

  /** The range before it is checked: which ends were given decides how the other is found. */
  function Choose(months: int, from: MonthParam, to: MonthParam, anchor: Date): (w: MonthWindow)
    requires Valid(anchor) && (from.Given? ==> FirstDay(from.month)) && (to.Given? ==> FirstDay(to.month))
    ensures FirstDay(w.from) && FirstDay(w.to)
  {
    match (from, to)
    case (Given(f), Given(t)) => MonthWindow(f, t)
    case (Given(f), Absent) => MonthWindow(f, MaxMonth(f, FirstOfMonth(anchor)))
    case (Absent, Given(t)) => MonthWindow(MonthsBack(t, months), t)
    case (Absent, Absent) => var t := FirstOfMonth(anchor); MonthWindow(MonthsBack(t, months), t)
  }

  function ResolveWindow(query: Query, anchor: Date): Result<MonthWindow>
    requires Valid(anchor)
  {
    var months :- ParseMonths(query.months);
    var from :- ParseMonthParam(query.from, "from");
    var to :- ParseMonthParam(query.to, "to");
    var w := Choose(months, from, to, anchor);
    if Before(w.to, w.from) then Err(FromLaterThanTo) else Ok(w)
  }

  /** The rows the queries select: both ends are inclusive dates. */
  predicate InPeriod(w: MonthWindow, d: Date)
    requires FirstDay(w.from) && FirstDay(w.to) && Valid(d)
  {
    LastDayOfMonth(w.to);
    DayNumber(PeriodStart(w)) <= DayNumber(d) <= DayNumber(PeriodEnd(w))
  }

  /******* Properties *******/

  /** The period ends on the last day its last month has, and holds exactly the dates of its months. */
  lemma PeriodIsItsMonths(w: MonthWindow, d: Date)
    requires FirstDay(w.from) && FirstDay(w.to) && Valid(d)
    ensures PeriodEnd(w) == Date(w.to.year, w.to.month, DaysIn(w.to.year, w.to.month))
    ensures InPeriod(w, d) <==> MonthIndex(w.from) <= MonthIndex(d) <= MonthIndex(w.to)
  {
    var end := PeriodEnd(w);
    LastDayOfMonth(w.to);
    DayNumbersOrderDates(d, w.from);
    DayNumbersOrderDates(end, d);
  }

  /******* What the parameters mean *******/

  /** The decimal text of `n`: leading zeros and a plus sign are allowed. */
  predicate Spells(raw: string, n: nat) {
    exists w: nat | 0 < w <= |raw| :: FitsWidth(n, w) && (raw == Padded(n, w) || raw == "+" + Padded(n, w))
  }

  /** The text asks for `n` months; no text asks for three. */
  predicate Asks(raw: string, n: int) {
    if raw == "" then n == 3 else 1 <= n <= 12 && Spells(raw, n)
  }

  lemma DigitsSpell(digits: string, raw: string)
    requires Digits(digits) && digits != "" && (raw == digits || raw == "+" + digits)
    ensures Spells(raw, Number(digits))
  {
    NumberFits(digits);
    PaddedNumber(digits);
  }

  lemma SpelledIsRead(raw: string, n: nat)
    requires Spells(raw, n)
    ensures AtoiText(raw) && Atoi(raw) == n
  {
    var w: nat :| 0 < w <= |raw| && FitsWidth(n, w) && (raw == Padded(n, w) || raw == "+" + Padded(n, w));
    NumberPadded(n, w);
    assert raw == "+" + Padded(n, w) ==> raw[1..] == Padded(n, w);
    assert raw == Padded(n, w) ==> '0' <= raw[0] <= '9';
  }

  /** `months` is read as the number it spells, from 1 to 12; everything else is rejected. */
  lemma MonthsAsked(raw: string, n: int)
    ensures ParseMonths(raw) == Ok(n) <==> Asks(raw, n)
    ensures ParseMonths(raw).Err? ==> ParseMonths(raw) == Err(BadMonths)
  {
    if raw != "" {
      if n >= 0 && Spells(raw, n) { SpelledIsRead(raw, n); }
      if AtoiText(raw) && raw[0] != '-' {
        DigitsSpell(if raw[0] == '+' then raw[1..] else raw, raw);
      }
    }
  }

  lemma AskedForIt(raw: string)
    ensures ParseMonths(raw).Ok? ==> Asks(raw, ParseMonths(raw).value)
  {
    if ParseMonths(raw).Ok? { MonthsAsked(raw, ParseMonths(raw).value); }
  }

  /** The text of the month of a four-digit year. */
  predicate NamesMonth(raw: string, d: Date) {
    FirstDay(d) && 0 <= d.year <= 9999 && FormatMonth(d) == raw
  }

  /** `from` and `to` are read exactly as the month whose text they are. */
  lemma MonthNamed(raw: string, d: Date)
    ensures ParseMonth(raw) == Good(d) <==> NamesMonth(raw, d)
  {
    if NamesMonth(raw, d) { MonthParses(d); }
    if ParseMonth(raw) == Good(d) { MonthTextRoundTrip(raw); }
  }

  /** No number from 1 to 12 is spelled. */
  ghost predicate NoCount(raw: string) {
    raw != "" && forall n :: !Asks(raw, n)
  }

  ghost predicate NoMonth(raw: string) {
    raw != "" && forall d :: !NamesMonth(raw, d)
  }

  lemma CountOrNot(raw: string)
    ensures ParseMonths(raw).Err? <==> NoCount(raw)
  {
    if ParseMonths(raw).Ok? { MonthsAsked(raw, ParseMonths(raw).value); }
    forall n ensures Asks(raw, n) ==> ParseMonths(raw) == Ok(n) {
      MonthsAsked(raw, n);
    }
  }

  lemma MonthOrNot(raw: string)
    ensures raw != "" && ParseMonth(raw).Bad? <==> NoMonth(raw)
  {
    if ParseMonth(raw).Good? { MonthNamed(raw, ParseMonth(raw).date); }
    forall d ensures NamesMonth(raw, d) ==> ParseMonth(raw) == Good(d) {
      MonthNamed(raw, d);
    }
  }

  /** Which parameter a rejection names: the first, in the order months, from, to, that means nothing. */
  lemma RejectedIff(q: Query, anchor: Date)
    requires Valid(anchor)
    ensures var r := ResolveWindow(q, anchor);
      && (r == Err(BadMonths) <==> NoCount(q.months))
      && (r == Err(BadMonth("from")) <==> !NoCount(q.months) && NoMonth(q.from))
      && (r == Err(BadMonth("to")) <==> !NoCount(q.months) && !NoMonth(q.from) && NoMonth(q.to))
      && (WellFormed(q) <==> !NoCount(q.months) && !NoMonth(q.from) && !NoMonth(q.to))
  {
    MalformedIsRejected(q, anchor);
    CountOrNot(q.months);
    MonthOrNot(q.from);
    MonthOrNot(q.to);
  }

  /******* Which months the window has *******/

  predicate WellFormed(q: Query) {
    && ParseMonths(q.months).Ok?
    && (q.from != "" ==> ParseMonth(q.from).Good?)
    && (q.to != "" ==> ParseMonth(q.to).Good?)
  }

  function Later(a: int, b: int): int {
    if a > b then a else b
  }

  lemma ChosenSpan(months: int, from: MonthParam, to: MonthParam, anchor: Date)
    requires Valid(anchor) && months >= 1 && (from.Given? ==> FirstDay(from.month))
      && (to.Given? ==> FirstDay(to.month))
    ensures var w := Choose(months, from, to, anchor);
      && (Before(w.to, w.from) <==> from.Given? && to.Given? && MonthIndex(to.month) < MonthIndex(from.month))
      && (!Before(w.to, w.from) ==> MonthIndex(w.from) <= MonthIndex(w.to))
      && (from.Absent? ==> MonthIndex(w.to) - MonthIndex(w.from) + 1 == months)
      && (to.Absent? && from.Absent? ==> MonthIndex(w.to) == MonthIndex(anchor))
      && (to.Absent? && from.Given? ==>
            MonthIndex(w.to) == Later(MonthIndex(w.from), MonthIndex(anchor)))
      && (from.Given? ==> w.from == from.month)
      && (to.Given? ==> w.to == to.month)
  {
    var w := Choose(months, from, to, anchor);
    MonthIndexOrder(w.to, w.from);
    MonthIndexOrder(FirstOfMonth(anchor), w.from);
  }

  /** What ResolveWindow does once its parameters are read. */
  lemma ResolvedIsChosen(q: Query, anchor: Date)
    requires Valid(anchor) && WellFormed(q)
    ensures var from := if q.from == "" then Absent else Given(ParseMonth(q.from).date);
      var to := if q.to == "" then Absent else Given(ParseMonth(q.to).date);
      && ParseMonths(q.months).value >= 1 && (from.Given? ==> FirstDay(from.month))
      && (to.Given? ==> FirstDay(to.month))
      && var w := Choose(ParseMonths(q.months).value, from, to, anchor);
         ResolveWindow(q, anchor) == if Before(w.to, w.from) then Err(FromLaterThanTo) else Ok(w)
  {
  }

  /** Which months an accepted window spans, and when it is accepted. */
  lemma WindowSpan(q: Query, anchor: Date)
    requires Valid(anchor) && WellFormed(q)
    ensures var r := ResolveWindow(q, anchor);
      && (r.Err? <==>
            q.from != "" && q.to != "" && MonthIndex(ParseMonth(q.to).date) < MonthIndex(ParseMonth(q.from).date))
      && (r.Ok? ==>
           var w := r.value;
           && FirstDay(w.from) && FirstDay(w.to) && MonthIndex(w.from) <= MonthIndex(w.to)
           && (q.from == "" ==> MonthIndex(w.to) - MonthIndex(w.from) + 1 == ParseMonths(q.months).value)
           && (q.to == "" && q.from == "" ==> MonthIndex(w.to) == MonthIndex(anchor))
           && (q.to == "" && q.from != "" ==>
                 MonthIndex(w.to) == Later(MonthIndex(w.from), MonthIndex(anchor)))
           && (q.from != "" ==> w.from == ParseMonth(q.from).date)
           && (q.to != "" ==> w.to == ParseMonth(q.to).date))
  {
    ResolvedIsChosen(q, anchor);
    ChosenSpan(ParseMonths(q.months).value, if q.from == "" then Absent else Given(ParseMonth(q.from).date),
               if q.to == "" then Absent else Given(ParseMonth(q.to).date), anchor);
  }

  /** The window spans as many months as the parameter asks for. */
  predicate SpansAsked(q: Query, w: MonthWindow) {
    Asks(q.months, MonthIndex(w.to) - MonthIndex(w.from) + 1)
  }

  lemma AskedSpan(q: Query, w: MonthWindow, n: int)
    requires Asks(q.months, n) && MonthIndex(w.to) - MonthIndex(w.from) + 1 == n
    ensures SpansAsked(q, w)
  {
  }

  lemma OpenWindowSpansAsked(q: Query, anchor: Date)
    requires Valid(anchor) && WellFormed(q) && q.from == ""
    ensures ResolveWindow(q, anchor).Ok? && SpansAsked(q, ResolveWindow(q, anchor).value)
  {
    WindowSpan(q, anchor);
    AskedForIt(q.months);
    AskedSpan(q, ResolveWindow(q, anchor).value, ParseMonths(q.months).value);
  }

  /** The ends that were given are printed back as they were written. */
  lemma GivenEnds(q: Query, anchor: Date)
    requires Valid(anchor) && WellFormed(q) && ResolveWindow(q, anchor).Ok?
    ensures var w := ResolveWindow(q, anchor).value;
      && (q.from != "" ==> NamesMonth(q.from, w.from))
      && (q.to != "" ==> NamesMonth(q.to, w.to))
  {
    WindowSpan(q, anchor);
    if q.from != "" { MonthNamed(q.from, ParseMonth(q.from).date); }
    if q.to != "" { MonthNamed(q.to, ParseMonth(q.to).date); }
  }

  /** The months named are in the wrong order. */
  ghost predicate WrongOrder(q: Query) {
    exists f, t :: NamesMonth(q.from, f) && NamesMonth(q.to, t) && MonthIndex(t) < MonthIndex(f)
  }

  lemma OrderOfNamed(q: Query)
    requires WellFormed(q)
    ensures WrongOrder(q) <==>
      q.from != "" && q.to != "" && MonthIndex(ParseMonth(q.to).date) < MonthIndex(ParseMonth(q.from).date)
  {
    if WrongOrder(q) {
      var f, t :| NamesMonth(q.from, f) && NamesMonth(q.to, t) && MonthIndex(t) < MonthIndex(f);
      MonthNamed(q.from, f);
      MonthNamed(q.to, t);
    }
    if q.from != "" && q.to != "" {
      MonthNamed(q.from, ParseMonth(q.from).date);
      MonthNamed(q.to, ParseMonth(q.to).date);
    }
  }

  lemma ResolvedWindow(q: Query, anchor: Date)
    requires Valid(anchor) && WellFormed(q)
    ensures var r := ResolveWindow(q, anchor);
      && (r.Err? <==> WrongOrder(q))
      && (r.Ok? ==>
           var w := r.value;
           && FirstDay(w.from) && FirstDay(w.to) && MonthIndex(w.from) <= MonthIndex(w.to)
           && (q.to == "" && q.from == "" ==> MonthIndex(w.to) == MonthIndex(anchor))
           && (q.to == "" && q.from != "" ==> MonthIndex(w.to) == Later(MonthIndex(w.from), MonthIndex(anchor))))
  {
    WindowSpan(q, anchor);
    OrderOfNamed(q);
  }

  /**
   With parameters that mean something, the only rejection is a `from` after the `to` given with it.
   Otherwise the window is made of whole months in order: the ends that were given, printed back
   as they were written; as many months as `months` spells when `from` is open; up to the anchor when
   only `from` is given.
   */
  lemma WindowResolution(q: Query, anchor: Date)
    requires Valid(anchor) && WellFormed(q)
    ensures var r := ResolveWindow(q, anchor);
      && (r.Err? <==> WrongOrder(q))
      && (r.Ok? ==>
           var w := r.value;
           && FirstDay(w.from) && FirstDay(w.to) && MonthIndex(w.from) <= MonthIndex(w.to)
           && (q.from == "" ==> SpansAsked(q, w))
           && (q.to == "" && q.from == "" ==> MonthIndex(w.to) == MonthIndex(anchor))
           && (q.to == "" && q.from != "" ==> MonthIndex(w.to) == Later(MonthIndex(w.from), MonthIndex(anchor)))
           && (q.from != "" ==> NamesMonth(q.from, w.from))
           && (q.to != "" ==> NamesMonth(q.to, w.to)))
  {
    ResolvedWindow(q, anchor);
    if q.from == "" { OpenWindowSpansAsked(q, anchor); }
    if ResolveWindow(q, anchor).Ok? { GivenEnds(q, anchor); }
  }

  /**
   The comment on resolveWindow has a request with only `from` span `months` months from there.  It
   does so if and only if the anchor is the last of these months, or one month is asked for and the
   anchor does not come after it.
   */
  lemma FromOnlySpansIff(q: Query, anchor: Date)
    requires Valid(anchor) && WellFormed(q) && q.from != "" && q.to == ""
    ensures ResolveWindow(q, anchor).Ok? && ParseMonths(q.months).value >= 1
    ensures var w, n := ResolveWindow(q, anchor).value, ParseMonths(q.months).value;
      var from := MonthIndex(ParseMonth(q.from).date);
      && MonthIndex(w.from) == from
      && (MonthIndex(w.to) == from + n - 1 <==>
            MonthIndex(anchor) == from + n - 1 || (n == 1 && MonthIndex(anchor) <= from))
  {
    WindowSpan(q, anchor);
    ResolvedIsChosen(q, anchor);
  }

  lemma MonthDigits(c: char, d: char)
    requires '0' <= c <= '9' && '0' <= d <= '9'
    ensures Digits([c, d]) && Number([c, d]) == 10 * DigitValue(c) + DigitValue(d)
  {
    assert [c, d][..1] == [c] && [c][..0] == [];
    assert Number([c]) == DigitValue(c);
  }

  lemma JanuaryParses()
    ensures ParseMonth("2024-01") == Good(Date(2024, 1, 1))
  {
    var s := "2024-01";
    MonthDigits('2', '0');
    MonthDigits('0', '1');
    assert s[..4] == "2024" && s[5..] == "01" && "2024"[..3] == "202" && "202"[..2] == "20";
    assert Number("202") == 202;
    assert Number("2024") == 2024;
  }

  /** Asked in December 2024 from January on, with the default of 3 months: the window spans 12. */
  lemma FromOnlyCanSpanMore(day: int)
    requires Valid(Date(2024, 12, day))
    ensures ResolveWindow(Query("", "2024-01", ""), Date(2024, 12, day)).Ok?
    ensures var w := ResolveWindow(Query("", "2024-01", ""), Date(2024, 12, day)).value;
      && w == MonthWindow(Date(2024, 1, 1), Date(2024, 12, 1))
      && MonthIndex(w.to) - MonthIndex(w.from) + 1 == 12 && DEFAULT_WINDOW_MONTHS == 3
  {
    var q, anchor := Query("", "2024-01", ""), Date(2024, 12, day);
    JanuaryParses();
    ResolvedIsChosen(q, anchor);
    WindowSpan(q, anchor);
    MonthIndexOrder(FirstOfMonth(anchor), Date(2024, 1, 1));
  }

  /** Parameters that do not parse are rejected in the order months, from, to, whatever the later ones hold. */
  lemma MalformedIsRejected(q: Query, anchor: Date)
    requires Valid(anchor)
    ensures var r := ResolveWindow(q, anchor);
      var badFrom, badTo := q.from != "" && ParseMonth(q.from).Bad?, q.to != "" && ParseMonth(q.to).Bad?;
      && (r == Err(BadMonths) <==> ParseMonths(q.months).Err?)
      && (r == Err(BadMonth("from")) <==> ParseMonths(q.months).Ok? && badFrom)
      && (r == Err(BadMonth("to")) <==> ParseMonths(q.months).Ok? && !badFrom && badTo)
      && (!WellFormed(q) <==> r.Err? && r.problem != FromLaterThanTo)
  {
  }
}
