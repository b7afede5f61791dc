/**
 Converting the model's reply into rows (internal/pipeline/convert.go, with the accessors of
 internal/llm/response.go).  A json.Number is the text the model wrote.  Decimals with an exponent
 or more than two places are outside this model: ParseCents rejects them.
 */
module Convert {
  import opened Calendar
  import opened Tables
  import opened Text

  /** One entry of the reply's transactions array. */
  datatype ReplyEntry = ReplyEntry(
    date: string, description: string, counterparty: string, amount: string, direction: string,
    balanceAfter: Option<string>, category: string, essential: bool, recurring: bool)

  /** `sections` holds the raw JSON of the jsonb columns in column order. */
  datatype Response = Response(
    metaCurrency: string, analysisCurrency: string,
    metaStart: string, analysisStart: string, metaEnd: string, analysisEnd: string,
    sections: seq<string>, transactions: seq<ReplyEntry>)

  datatype ConvertError =
    | BadDate(date: string)
    | BadAmount(amount: string)
    | MissingDirection
    | UnknownDirection(raw: string)
    | BadBalance
    | NoReply
    | BadTransaction(index: nat, cause: ConvertError)

  datatype Result<+T> = Ok(value: T) | Err(error: ConvertError) {
    predicate IsFailure() {
      Err?
    }

    function PropagateFailure<U>(): Result<U>
      requires Err?
    {
      Err(error)
    }

    function Extract(): T
      requires Ok?
    {
      value
    }
  }

  /** db.NewAnalysis. */
  datatype NewAnalysis = NewAnalysis(id: Uuid, analysis: Analysis, entries: seq<Entry>)

  /******* The pieces *******/

  const DIRECTION_SYNONYMS: map<string, string> := map[
    "credit" := CREDIT, "credits" := CREDIT, "in" := CREDIT, "inflow" := CREDIT, "income" := CREDIT,
    "deposit" := CREDIT,
    "debit" := DEBIT, "debits" := DEBIT, "out" := DEBIT, "outflow" := DEBIT, "expense" := DEBIT, "spending" := DEBIT,
    "payment" := DEBIT, "withdraw" := DEBIT]

  /**
   strings.ToLower as far as the synonyms can tell: ASCII letters, and the two other letters whose
   lower case is ASCII (U+0130 and U+212A).  Every other rune stays outside ASCII.
   */
  function ToLower(s: string): string
    decreases |s|
  {
    if s == "" then ""
    else if 'A' <= s[0] <= 'Z' then [(s[0] as int + 32) as char] + ToLower(s[1..])
    else if |s| >= 2 && s[0] == '\U{C4}' && s[1] == '\U{B0}' then "i" + ToLower(s[2..])
    else if |s| >= 3 && s[0] == '\U{E2}' && s[1] == '\U{84}' && s[2] == '\U{AA}' then "k" + ToLower(s[3..])
    else [s[0]] + ToLower(s[1..])
  }

  function ResolveDirection(raw: string, negative: bool): Result<string> {
    var key := ToLower(TrimSpace(raw));
    if key in DIRECTION_SYNONYMS then Ok(DIRECTION_SYNONYMS[key])
    else if negative then Ok(DEBIT)
    else if key == "" then Err(MissingDirection)
    else Err(UnknownDirection(raw))
  }

  /** The magnitude and whether the sign was a minus. */
  function SplitSign(text: string): (string, bool) {
    var amount := TrimSpace(text);
    if "-" <= amount then (TrimSpace(amount[1..]), true)
    else if "+" <= amount then (TrimSpace(amount[1..]), false)
    else (amount, false)
  }

  predicate AllDigits(s: string) {
    s != "" && Digits(s)
  }

  /** How many digits stand behind the point, when it has one or two behind it. */
  function Places(s: string): (k: nat)
    ensures k > 0 ==> |s| >= k + 2
  {
    if |s| >= 3 && s[|s|-2] == '.' then 1 else if |s| >= 4 && s[|s|-3] == '.' then 2 else 0
  }

  function BeforePoint(s: string): string {
    if Places(s) == 0 then s else s[..|s|-Places(s)-1]
  }

  function BehindPoint(s: string): string {
    s[|s|-Places(s)..]
  }

  function Cents(whole: string, places: string): (n: int)
    requires Digits(whole) && Digits(places)
    ensures n >= 0
  {
    100 * Number(whole) + if |places| == 1 then 10 * Number(places) else Number(places)
  }

  /** Unsigned decimal with at most two places, in cents. */
  function ParseMagnitude(s: string): (r: Option<int>)
    ensures r.Some? ==> r.value >= 0
  {
    if AllDigits(BeforePoint(s)) && Digits(BehindPoint(s)) then Some(Cents(BeforePoint(s), BehindPoint(s))) else None
  }

  /** numeric: the decimal's exact value in cents. */
  function ParseCents(s: string): Option<int> {
    if "-" <= s then
      match ParseMagnitude(s[1..])
      case Some(n) => Some(-n)
      case None => None
    else ParseMagnitude(s)
  }

  function OptionalNumeric(value: Option<string>): Result<Option<int>> {
    if value.None? || Blank(value.value) then Ok(None)
    else match ParseCents(value.value)
      case Some(n) => Ok(Some(n))
      case None => Err(BadBalance)
  }

  function OptionalDate(value: string): Option<Day> {
    match ParseDay(TrimSpace(value))
    case Good(d) => Some(d)
    case Bad => None
  }

  function JsonOrNil(raw: string): Option<string> {
    var trimmed := TrimSpace(raw);
    if trimmed == "" || trimmed == "null" then None else Some(raw)
  }

  function FirstNonBlank(a: string, b: string): string {
    if TrimSpace(a) != "" then TrimSpace(a) else TrimSpace(b)
  }

  /** splitSign, then numeric on the magnitude. */
  function StoredAmount(text: string): Result<(int, bool)> {
    var (magnitude, negative) := SplitSign(text);
    match ParseCents(magnitude)
    case None => Err(BadAmount(text))
    case Some(amount) => Ok((amount, negative))
  }

  /** The row from its converted date, amount and balance; the direction needs the amount's sign. */
  function Assemble(
      txn: ReplyEntry, date: Parsed, stored: Result<(int, bool)>, balance: Result<Option<int>>): Result<Entry>
    requires date.Good? ==> Valid(date.date)
  {
    match date
    case Bad => Err(BadDate(txn.date))
    case Good(when) =>
      var (amount, negative) :- stored;
      var direction :- ResolveDirection(txn.direction, negative);
      var balanceAfter :- balance;
      Ok(Entry(when, TrimSpace(txn.description), TrimSpace(txn.counterparty), amount, direction, balanceAfter,
               TrimSpace(txn.category), txn.essential, txn.recurring))
  }

  function BuildTransaction(txn: ReplyEntry): Result<Entry> {
    Assemble(txn, ParseDay(TrimSpace(txn.date)), StoredAmount(txn.amount), OptionalNumeric(txn.balanceAfter))
  }

  lemma AssembledParts(txn: ReplyEntry, date: Parsed, stored: Result<(int, bool)>, balance: Result<Option<int>>)
    requires date.Good? ==> Valid(date.date)
    ensures var r := Assemble(txn, date, stored, balance);
      r.Ok? ==> date == Good(r.value.date) && balance == Ok(r.value.balanceAfter)
  {
  }

  function BuildHeader(uploadId: Uuid, resp: Response): Analysis {
    Analysis(uploadId, FirstNonBlank(resp.metaCurrency, resp.analysisCurrency),
             OptionalDate(FirstNonBlank(resp.metaStart, resp.analysisStart)),
             OptionalDate(FirstNonBlank(resp.metaEnd, resp.analysisEnd)),
             seq(|resp.sections|, i requires 0 <= i < |resp.sections| => JsonOrNil(resp.sections[i])))
  }

  /******* The whole reply *******/

  /** The entries of the reply, up to the first that cannot be converted. */
  function Converted(txns: seq<ReplyEntry>, convert: ReplyEntry -> Result<Entry>, from: nat): Result<seq<Entry>>
    requires from <= |txns|
    decreases |txns| - from
  {
    if from == |txns| then Ok([])
    else match convert(txns[from])
      case Err(e) => Err(BadTransaction(from, e))
      case Ok(entry) =>
        var rest :- Converted(txns, convert, from + 1);
        Ok([entry] + rest)
  }

  function Built(id: Uuid, uploadId: Uuid, reply: Option<Response>): Result<NewAnalysis> {
    match reply
    case None => Err(NoReply)
    case Some(resp) =>
      var entries :- Converted(resp.transactions, BuildTransaction, 0);
      Ok(NewAnalysis(id, BuildHeader(uploadId, resp), entries))
  }

  function Prepend(done: seq<Entry>, rest: Result<seq<Entry>>): Result<seq<Entry>> {
    match rest
    case Ok(entries) => Ok(done + entries)
    case Err(e) => Err(e)
  }

  lemma ConvertedStep(txns: seq<ReplyEntry>, convert: ReplyEntry -> Result<Entry>, done: seq<Entry>, i: nat)
    requires i < |txns|
    ensures Prepend(done, Converted(txns, convert, i)) == match convert(txns[i])
      case Ok(row) => Prepend(done + [row], Converted(txns, convert, i + 1))
      case Err(e) => Err(BadTransaction(i, e))
  {
    match convert(txns[i])
    case Ok(row) =>
      var rest := Converted(txns, convert, i + 1);
      if rest.Ok? { Assoc(done, [row], rest.value); }
    case Err(_) =>
  }

  /** The loop of buildAnalysis. */
  method ConvertEach(txns: seq<ReplyEntry>, convert: ReplyEntry -> Result<Entry>) returns (r: Result<seq<Entry>>)
    ensures r == Converted(txns, convert, 0)
  {
    var transactions: seq<Entry> := [];
    ghost var all := Converted(txns, convert, 0);
    assert all.Ok? ==> [] + all.value == all.value;
    for i := 0 to |txns|
      invariant all == Prepend(transactions, Converted(txns, convert, i))
    {
      ConvertedStep(txns, convert, transactions, i);
      var row := convert(txns[i]);
      if row.Err? {
        return Err(BadTransaction(i, row.error));
      }
      transactions := transactions + [row.value];
    }
    assert transactions + [] == transactions;
    return Ok(transactions);
  }

  method BuildAnalysis(id: Uuid, uploadId: Uuid, reply: Option<Response>) returns (r: Result<NewAnalysis>)
    ensures r == Built(id, uploadId, reply)
  {
    match reply
    case None => r := Err(NoReply);
    case Some(resp) =>
      var rows := ConvertEach(resp.transactions, BuildTransaction);
      match rows
      case Ok(entries) => r := Ok(NewAnalysis(id, BuildHeader(uploadId, resp), entries));
      case Err(e) => r := Err(e);
  }

  lemma {:induction false} ConvertedMeaning(txns: seq<ReplyEntry>, convert: ReplyEntry -> Result<Entry>, from: nat)
    requires from <= |txns|
    ensures var r := Converted(txns, convert, from);
      && (r.Ok? ==> |r.value| == |txns| - from && forall i | from <= i < |txns| ::
            convert(txns[i]) == Ok(r.value[i-from]))
      && (r.Err? ==>
           && r.error.BadTransaction? && from <= r.error.index < |txns|
           && convert(txns[r.error.index]) == Err(r.error.cause)
           && forall i | from <= i < r.error.index :: convert(txns[i]).Ok?)
    decreases |txns| - from
  {
    if from < |txns| {
      ConvertedMeaning(txns, convert, from + 1);
    }
  }

  /** Every entry is the conversion of the reply's entry at its place, and none is missing. */
  ghost predicate RowForRow(convert: ReplyEntry -> Result<Entry>, txns: seq<ReplyEntry>, entries: seq<Entry>) {
    |entries| == |txns| && forall i | 0 <= i < |txns| :: convert(txns[i]) == Ok(entries[i])
  }

  /** `e` names the first entry that cannot be converted, and why. */
  ghost predicate NamesFirstBad(convert: ReplyEntry -> Result<Entry>, txns: seq<ReplyEntry>, e: ConvertError) {
    && e.BadTransaction? && e.index < |txns| && convert(txns[e.index]) == Err(e.cause)
    && forall i | 0 <= i < e.index :: convert(txns[i]).Ok?
  }

  lemma ConvertedWhole(txns: seq<ReplyEntry>, convert: ReplyEntry -> Result<Entry>)
    ensures var r := Converted(txns, convert, 0);
      && (r.Ok? ==> RowForRow(convert, txns, r.value))
      && (r.Err? ==> NamesFirstBad(convert, txns, r.error))
  {
    ConvertedMeaning(txns, convert, 0);
  }

  /** A reply is converted row for row in its own order, or rejected naming its first bad row. */
  lemma NoRowVanishes(id: Uuid, uploadId: Uuid, resp: Response)
    ensures var r := Built(id, uploadId, Some(resp));
      && (r.Ok? ==>
            && r.value.id == id && r.value.analysis.uploadId == uploadId
            && RowForRow(BuildTransaction, resp.transactions, r.value.entries))
      && (r.Err? ==> NamesFirstBad(BuildTransaction, resp.transactions, r.error))
  {
    ConvertedWhole(resp.transactions, BuildTransaction);
  }

  /******* Amounts and directions *******/

  /** A number as section 6 of RFC 8259 writes it, without exponent and with at most two decimals. */
  predicate JsonNumber(s: string) {
    var m := if "-" <= s then s[1..] else s;
    ParseMagnitude(m).Some? && (m[0] == '0' ==> |m| == 1 || m[1] == '.')
  }

  function Abs(n: int): nat {
    if n < 0 then -n else n
  }

  lemma DigitIsNotSpace(s: string)
    requires s != "" && '!' <= s[0] <= '~' && '!' <= s[|s|-1] <= '~'
    ensures TrimSpace(s) == s
  {
    assert SpaceLen(s) == 0;
    LastByteIsNotSpace(s);
  }

  lemma WideSpaceEnds(a: string)
    ensures SpaceLen(a) == |a| && |a| >= 2 ==> a[|a|-1] >= '\U{80}'
  {
  }

  lemma LastByteIsNotSpace(s: string)
    requires s != "" && '!' <= s[|s|-1] <= '~'
    ensures TrailingSpaceLen(s) == 0
  {
    if |s| >= 2 { WideSpaceEnds(s[|s|-2..]); }
    if |s| >= 3 { WideSpaceEnds(s[|s|-3..]); }
  }

  lemma MagnitudeEnds(m: string)
    requires ParseMagnitude(m).Some?
    ensures m != "" && '0' <= m[0] <= '9' && '0' <= m[|m|-1] <= '9'
  {
    assert BeforePoint(m)[0] == m[0];
    if Places(m) > 0 { assert BehindPoint(m)[Places(m)-1] == m[|m|-1]; }
  }

  lemma MagnitudeIsTrimmed(m: string)
    requires ParseMagnitude(m).Some?
    ensures m != "" && '0' <= m[|m|-1] <= '9' && TrimSpace(m) == m
  {
    MagnitudeEnds(m);
    DigitIsNotSpace(m);
  }

  lemma SplitTrimmedMinus(s: string)
    requires s != "" && s[0] == '-' && '!' <= s[|s|-1] <= '~' && TrimSpace(s[1..]) == s[1..]
    ensures SplitSign(s) == (s[1..], true)
  {
    DigitIsNotSpace(s);
  }

  lemma SplitMinus(s: string)
    requires s != "" && s[0] == '-' && ParseMagnitude(s[1..]).Some?
    ensures SplitSign(s) == (s[1..], true)
  {
    MagnitudeIsTrimmed(s[1..]);
    assert s[|s|-1] == s[1..][|s|-2];
    SplitTrimmedMinus(s);
  }

  lemma SplitPlain(m: string)
    requires ParseMagnitude(m).Some?
    ensures SplitSign(m) == (m, false)
  {
    MagnitudeEnds(m);
    DigitIsNotSpace(m);
  }

  lemma MagnitudeIsUnsigned(m: string)
    requires ParseMagnitude(m).Some?
    ensures ParseCents(m) == ParseMagnitude(m)
  {
    MagnitudeEnds(m);
  }

  lemma MinusMagnitude(s: string)
    requires s != "" && s[0] == '-' && ParseMagnitude(s[1..]).Some?
    ensures ParseCents(s) == Some(-ParseMagnitude(s[1..]).value)
  {
    assert "-" <= s;
  }

  lemma StoredFromSplit(text: string, magnitude: string, negative: bool)
    requires SplitSign(text) == (magnitude, negative) && ParseCents(magnitude).Some?
    ensures StoredAmount(text) == Ok((ParseCents(magnitude).value, negative))
  {
  }

  lemma StoredIsMagnitude(cents: Option<int>, stored: Result<(int, bool)>, n: int, negative: bool)
    requires n >= 0 && stored == Ok((n, negative)) && cents == Some(if negative then -n else n)
    ensures stored == Ok((Abs(cents.value), negative))
  {
  }

  lemma StoredMinus(s: string)
    requires s != "" && s[0] == '-' && ParseMagnitude(s[1..]).Some?
    ensures ParseCents(s).Some? && StoredAmount(s) == Ok((Abs(ParseCents(s).value), true))
  {
    SplitMinus(s);
    MagnitudeIsUnsigned(s[1..]);
    MinusMagnitude(s);
    StoredFromSplit(s, s[1..], true);
    StoredIsMagnitude(ParseCents(s), StoredAmount(s), ParseMagnitude(s[1..]).value, true);
  }

  lemma StoredPlain(s: string)
    requires ParseMagnitude(s).Some?
    ensures ParseCents(s).Some? && StoredAmount(s) == Ok((Abs(ParseCents(s).value), false))
  {
    SplitPlain(s);
    MagnitudeIsUnsigned(s);
    StoredFromSplit(s, s, false);
    StoredIsMagnitude(ParseCents(s), StoredAmount(s), ParseMagnitude(s).value, false);
  }

  lemma NumberParts(s: string)
    requires JsonNumber(s)
    ensures if "-" <= s then s != "" && s[0] == '-' && ParseMagnitude(s[1..]).Some? else ParseMagnitude(s).Some?
  {
  }

  /** A JSON number is stored as its magnitude, with whether it was written negative. */
  lemma StoredAmountMeaning(s: string)
    requires JsonNumber(s)
    ensures ParseCents(s).Some? && StoredAmount(s) == Ok((Abs(ParseCents(s).value), "-" <= s))
  {
    NumberParts(s);
    if "-" <= s { StoredMinus(s); } else { StoredPlain(s); }
  }

  /******* What a decimal says *******/

  /** A decimal of `n` cents: leading zeros are allowed, and so is leaving out zeros at the end of the places. */
  predicate Writes(s: string, n: nat) {
    exists w: nat | 0 < w <= |s| :: FitsWidth(n / 100, w) && Written(s, n / 100, n % 100, w)
  }

  /** `a` whole units in `w` digits, then, if there is a point, `r` cents in one or two. */
  predicate Written(s: string, a: nat, r: nat, w: nat) {
    || (|s| == w && r == 0 && s == Padded(a, w))
    || (PointFollows(s, w) && |s| == w + 2 && s[..w] == Padded(a, w) && r % 10 == 0 && s[w+1..] == Padded(r / 10, 1))
    || (PointFollows(s, w) && |s| == w + 3 && s[..w] == Padded(a, w) && s[w+1..] == Padded(r, 2))
  }

  predicate PointFollows(s: string, w: nat) {
    w < |s| && s[w] == '.'
  }

  lemma SmallFits(n: nat)
    ensures n <= 9 ==> FitsWidth(n, 1)
    ensures n <= 99 ==> FitsWidth(n, 2)
  {
    assert n <= 9 ==> FitsWidth(n / 10, 0);
    assert n <= 99 ==> FitsWidth(n / 10 / 10, 0) && FitsWidth(n / 10, 1);
  }

  lemma PlacesAt(s: string, w: nat)
    requires 0 < w && PointFollows(s, w) && w + 2 <= |s| <= w + 3 && Digits(s[w+1..])
    ensures Places(s) == |s| - w - 1 && BeforePoint(s) == s[..w] && BehindPoint(s) == s[w+1..]
  {
    assert |s| == w + 3 ==> s[w+1..][0] == s[w+1];
  }

  lemma ReadPlaces(s: string, whole: string, places: string, a: nat, p: nat)
    requires BeforePoint(s) == whole && BehindPoint(s) == places
    requires AllDigits(whole) && Digits(places) && Number(whole) == a && Number(places) == p
    ensures ParseMagnitude(s) == Some(100 * a + if |places| == 1 then 10 * p else p)
  {
  }

  lemma NumberIs(digits: string, n: nat, w: nat)
    requires digits == Padded(n, w) && FitsWidth(n, w)
    ensures Digits(digits) && |digits| == w && Number(digits) == n
  {
    NumberPadded(n, w);
  }

  lemma NoPlaces(s: string)
    requires AllDigits(s)
    ensures Places(s) == 0 && BeforePoint(s) == s && BehindPoint(s) == ""
  {
  }

  lemma ReadDigits(s: string, a: nat)
    requires AllDigits(s) && Number(s) == a
    ensures ParseMagnitude(s) == Some(100 * a)
  {
    NoPlaces(s);
    ReadPlaces(s, s, "", a, 0);
  }

  lemma ReadWhole(s: string, a: nat, w: nat)
    requires w > 0 && FitsWidth(a, w) && s == Padded(a, w)
    ensures ParseMagnitude(s) == Some(100 * a)
  {
    NumberIs(s, a, w);
    ReadDigits(s, a);
  }

  lemma ReadBehindPoint(s: string, a: nat, p: nat, w: nat, k: nat)
    requires w > 0 && 1 <= k <= 2 && FitsWidth(a, w) && FitsWidth(p, k)
    requires PointFollows(s, w) && |s| == w + 1 + k && s[..w] == Padded(a, w) && s[w+1..] == Padded(p, k)
    ensures ParseMagnitude(s) == Some(100 * a + if k == 1 then 10 * p else p)
  {
    NumberIs(s[..w], a, w);
    NumberIs(s[w+1..], p, k);
    PlacesAt(s, w);
    ReadPlaces(s, s[..w], s[w+1..], a, p);
  }

  lemma ReadWritten(s: string, a: nat, r: nat, w: nat)
    requires w > 0 && FitsWidth(a, w) && r <= 99 && Written(s, a, r, w)
    ensures ParseMagnitude(s) == Some(100 * a + r)
  {
    if |s| == w {
      ReadWhole(s, a, w);
    } else if |s| == w + 2 {
      SmallFits(r / 10);
      ReadBehindPoint(s, a, r / 10, w, 1);
    } else {
      SmallFits(r);
      ReadBehindPoint(s, a, r, w, 2);
    }
  }

  lemma Recomposed(n: nat)
    ensures 100 * (n / 100) + n % 100 == n && n % 100 <= 99
  {
  }

  lemma ReadWrittenAs(s: string, n: nat, w: nat)
    requires w > 0 && FitsWidth(n / 100, w) && Written(s, n / 100, n % 100, w)
    ensures ParseMagnitude(s) == Some(n)
  {
    Recomposed(n);
    ReadWritten(s, n / 100, n % 100, w);
  }

  lemma WrittenIsRead(s: string, n: nat)
    requires Writes(s, n)
    ensures ParseMagnitude(s) == Some(n)
  {
    var w: nat :| 0 < w <= |s| && FitsWidth(n / 100, w) && Written(s, n / 100, n % 100, w);
    ReadWrittenAs(s, n, w);
  }

  lemma Hundreds(n: nat, a: nat, r: nat)
    requires n == 100 * a + r && r < 100
    ensures n / 100 == a && n % 100 == r
  {
    assert n == 100 * (n / 100) + n % 100;
  }

  lemma WritesWith(s: string, a: nat, r: nat, w: nat)
    requires 0 < w <= |s| && FitsWidth(a, w) && r <= 99 && Written(s, a, r, w)
    ensures Writes(s, 100 * a + r)
  {
    Hundreds(100 * a + r, a, r);
  }

  lemma NumberOfPlaces(places: string)
    requires Digits(places) && |places| <= 2
    ensures |places| == 1 ==> Number(places) <= 9
    ensures Number(places) <= 99 && (places == "" ==> Number(places) == 0)
  {
    if |places| == 1 { assert places[..0] == ""; }
    if |places| == 2 { assert places[..1][..0] == ""; }
  }

  lemma PartsAreWritten(s: string, w: nat, places: string)
    requires 0 < w <= |s| && AllDigits(s[..w]) && Digits(places) && |places| <= 2
    requires if places == "" then |s| == w else |s| == w + 1 + |places| && PointFollows(s, w) && s[w+1..] == places
    ensures Written(s, Number(s[..w]), if |places| == 1 then 10 * Number(places) else Number(places), w)
  {
    NumberOfPlaces(places);
    PaddedNumber(s[..w]);
    PaddedNumber(places);
    assert 10 * Number(places) / 10 == Number(places);
    assert |s| == w ==> s[..w] == s;
  }

  lemma ReadIsWritten(s: string)
    requires ParseMagnitude(s).Some?
    ensures Writes(s, ParseMagnitude(s).value)
  {
    var places := BehindPoint(s);
    var w := |BeforePoint(s)|;
    assert s[..w] == BeforePoint(s);
    PartsAreWritten(s, w, places);
    NumberOfPlaces(places);
    NumberFits(s[..w]);
    WritesWith(s, Number(s[..w]), if |places| == 1 then 10 * Number(places) else Number(places), w);
  }

  lemma WritesIff(s: string, n: nat)
    ensures Writes(s, n) <==> ParseMagnitude(s) == Some(n)
  {
    if Writes(s, n) { WrittenIsRead(s, n); }
    if ParseMagnitude(s).Some? { ReadIsWritten(s); }
  }

  lemma NoMinusInFront(s: string, n: nat)
    requires Writes(s, n)
    ensures !("-" <= s)
  {
    WrittenIsRead(s, n);
    MagnitudeEnds(s);
  }

  lemma UnsignedCents(s: string, n: int)
    requires !("-" <= s)
    ensures ParseCents(s) == Some(n) <==> n >= 0 && Writes(s, Abs(n))
  {
    WritesIff(s, Abs(n));
  }

  lemma SignedCents(s: string, n: int)
    requires "-" <= s
    ensures ParseCents(s) == Some(n) <==> n <= 0 && Writes(s[1..], Abs(n))
  {
    WritesIff(s[1..], Abs(n));
  }

  /** Which texts are read as how many cents. */
  lemma CentsIff(s: string, n: int)
    ensures ParseCents(s) == Some(n)
      <==> (n >= 0 && Writes(s, Abs(n))) || (n <= 0 && "-" <= s && Writes(s[1..], Abs(n)))
  {
    if "-" <= s {
      SignedCents(s, n);
      if Writes(s, Abs(n)) { NoMinusInFront(s, Abs(n)); }
    } else {
      UnsignedCents(s, n);
    }
  }

  /** A plus sign is dropped. */
  lemma PlusIsDropped(m: string)
    requires ParseMagnitude(m).Some?
    ensures StoredAmount("+" + m) == Ok((ParseMagnitude(m).value, false))
  {
    var s := "+" + m;
    MagnitudeIsTrimmed(m);
    assert s[|s|-1] == m[|m|-1] && s[1..] == m;
    DigitIsNotSpace(s);
    MagnitudeIsUnsigned(m);
    StoredFromSplit(s, m, false);
  }

  /******* What a wording says *******/

  const INCOMING: set<string> := {"credit", "credits", "in", "inflow", "income", "deposit"}
  const OUTGOING: set<string> :=
    {"debit", "debits", "out", "outflow", "expense", "spending", "payment", "withdraw"}

  predicate SaysIncoming(raw: string) {
    ToLower(TrimSpace(raw)) in INCOMING
  }

  predicate SaysOutgoing(raw: string) {
    ToLower(TrimSpace(raw)) in OUTGOING
  }

  /** In ASCII, lower case replaces each capital by its small letter. */
  lemma {:induction false} AsciiLower(s: string)
    requires forall i | 0 <= i < |s| :: s[i] < '\U{80}'
    ensures |ToLower(s)| == |s|
    ensures forall i | 0 <= i < |s| ::
      ToLower(s)[i] == if 'A' <= s[i] <= 'Z' then (s[i] as int + 32) as char else s[i]
  {
    if s != "" {
      AsciiLower(s[1..]);
    }
  }

  lemma KeySide(key: string)
    ensures key in INCOMING ==> key in DIRECTION_SYNONYMS && DIRECTION_SYNONYMS[key] == CREDIT && key !in OUTGOING
    ensures key in OUTGOING ==> key in DIRECTION_SYNONYMS && DIRECTION_SYNONYMS[key] == DEBIT && key !in INCOMING
    ensures key in DIRECTION_SYNONYMS ==> key in INCOMING || key in OUTGOING
  {
  }

  /**
   A wording of either side decides, whatever the sign; any other one leaves the decision to a minus
   sign, and without one it is an error that tells a missing wording from an unknown one.
   */
  lemma DirectionMeaning(raw: string, negative: bool)
    ensures ResolveDirection(raw, negative) ==
      if SaysIncoming(raw) then Ok(CREDIT)
      else if SaysOutgoing(raw) || negative then Ok(DEBIT)
      else if Blank(raw) then Err(MissingDirection)
      else Err(UnknownDirection(raw))
    ensures !(SaysIncoming(raw) && SaysOutgoing(raw))
  {
    KeySide(ToLower(TrimSpace(raw)));
    LowerOfNothing(TrimSpace(raw));
  }

  lemma LowerOfNothing(s: string)
    ensures ToLower(s) == "" <==> s == ""
  {
  }

  lemma LowerWord(raw: string, w: string)
    requires raw != "" && |w| == |raw|
    requires forall i | 0 <= i < |raw| ::
      ('a' <= raw[i] <= 'z' && w[i] == raw[i]) || ('A' <= raw[i] <= 'Z' && w[i] as int == raw[i] as int + 32)
    ensures ToLower(TrimSpace(raw)) == w
  {
    DigitIsNotSpace(raw);
    AsciiLower(raw);
  }

  /** Every listed word means its side in any mixture of capitals and small letters, whatever the sign. */
  lemma WordMeans(raw: string, w: string, side: string, negative: bool)
    requires raw != "" && |w| == |raw|
    requires forall i | 0 <= i < |raw| ::
      ('a' <= raw[i] <= 'z' && w[i] == raw[i]) || ('A' <= raw[i] <= 'Z' && w[i] as int == raw[i] as int + 32)
    requires (w in INCOMING && side == CREDIT) || (w in OUTGOING && side == DEBIT)
    ensures ResolveDirection(raw, negative) == Ok(side)
  {
    LowerWord(raw, w);
    DirectionMeaning(raw, negative);
  }

  /** The two words the queries look for mean themselves. */
  lemma StoredWordsMeanThemselves(negative: bool)
    ensures ResolveDirection(CREDIT, negative) == Ok(CREDIT) && ResolveDirection(DEBIT, negative) == Ok(DEBIT)
  {
    WordMeans(CREDIT, CREDIT, CREDIT, negative);
    WordMeans(DEBIT, DEBIT, DEBIT, negative);
  }

  /******* What a row says *******/

  function DirectionOf(raw: string): string {
    if SaysIncoming(raw) then CREDIT else DEBIT
  }

  /** No wording and no sign say which way the money went. */
  predicate Undirected(raw: string, negative: bool) {
    !SaysIncoming(raw) && !SaysOutgoing(raw) && !negative
  }

  lemma ResolvedDirection(raw: string, negative: bool)
    ensures var r := ResolveDirection(raw, negative);
      && (r.Ok? ==> r.value == DirectionOf(raw))
      && (r.Err? <==> Undirected(raw, negative))
  {
    DirectionMeaning(raw, negative);
  }

  /** The columns that are copied: texts without outer white space, and the two marks as they are. */
  ghost predicate CopiedColumns(txn: ReplyEntry, e: Entry) {
    && e.description == TrimSpace(txn.description) && e.counterparty == TrimSpace(txn.counterparty)
    && e.category == TrimSpace(txn.category)
    && e.essential == txn.essential && e.recurring == txn.recurring
  }

  lemma AssembledRow(txn: ReplyEntry, date: Parsed, n: int, negative: bool, balance: Result<Option<int>>)
    requires date.Good? ==> Valid(date.date)
    ensures var r := Assemble(txn, date, Ok((n, negative)), balance);
      && (r.Ok? ==>
           && r.value.amount == n && r.value.direction == DirectionOf(txn.direction) && CopiedColumns(txn, r.value)
           && date == Good(r.value.date) && Ok(r.value.balanceAfter) == balance)
      && (r.Err? <==> date.Bad? || Undirected(txn.direction, negative) || balance.Err?)
  {
    ResolvedDirection(txn.direction, negative);
  }

  lemma BuiltRow(txn: ReplyEntry, n: int, negative: bool)
    requires StoredAmount(txn.amount) == Ok((n, negative))
    ensures var r := BuildTransaction(txn);
      var date, balance := ParseDay(TrimSpace(txn.date)), OptionalNumeric(txn.balanceAfter);
      && (r.Ok? ==>
           && r.value.amount == n && r.value.direction == DirectionOf(txn.direction) && CopiedColumns(txn, r.value)
           && date == Good(r.value.date) && Ok(r.value.balanceAfter) == balance)
      && (r.Err? <==> date.Bad? || Undirected(txn.direction, negative) || balance.Err?)
  {
    AssembledRow(txn, ParseDay(TrimSpace(txn.date)), n, negative, OptionalNumeric(txn.balanceAfter));
  }

  /** A balance that is absent or blank is none; any other is the decimal it is, or the row is refused. */
  lemma BalanceMeaning(value: Option<string>)
    ensures OptionalNumeric(value) ==
      if value.None? || TrimSpace(value.value) == "" then Ok(None)
      else if ParseCents(value.value).Some? then Ok(ParseCents(value.value))
      else Err(BadBalance)
  {
  }

  /**
   For an amount written as a JSON number: the stored amount is its magnitude, never negative, the
   direction is credit exactly for an incoming wording, and the other columns are the entry's own.
   The row fails exactly for a bad date, for wording that is unknown with no minus sign to fall back
   on, or for an unreadable balance.
   */
  lemma StoredRow(txn: ReplyEntry)
    requires JsonNumber(txn.amount)
    ensures var r := BuildTransaction(txn);
      && (r.Ok? ==>
           && r.value.amount == Abs(ParseCents(txn.amount).value)
           && r.value.direction == DirectionOf(txn.direction) && CopiedColumns(txn, r.value)
           && ParseDay(TrimSpace(txn.date)) == Good(r.value.date)
           && Ok(r.value.balanceAfter) == OptionalNumeric(txn.balanceAfter))
      && (r.Err? <==>
           || ParseDay(TrimSpace(txn.date)).Bad?
           || Undirected(txn.direction, "-" <= txn.amount)
           || OptionalNumeric(txn.balanceAfter).Err?)
  {
    StoredAmountMeaning(txn.amount);
    BuiltRow(txn, Abs(ParseCents(txn.amount).value), "-" <= txn.amount);
  }

  /******* What the header says *******/

  /** The first of two texts that is not blank, without outer white space. */
  predicate IsFirstNonBlank(r: string, a: string, b: string) {
    if TrimSpace(a) != "" then r == TrimSpace(a) else r == TrimSpace(b)
  }

  lemma FirstNonBlankMeaning(a: string, b: string)
    ensures IsFirstNonBlank(FirstNonBlank(a, b), a, b)
  {
  }

  lemma HeaderDate(text: string, d: Day)
    requires 0 <= d.year <= 9999
    ensures OptionalDate(text) == Some(d) <==> TrimSpace(text) == FormatDay(d)
  {
    DayTextRoundTrip(TrimSpace(text), d);
  }

  /**
   The stored header: the reply's meta values before those of its analysis; a date only where the text
   is one, and none otherwise; each section as it came, and none where it is blank or null.
   */
  lemma HeaderMeaning(u: Uuid, resp: Response, d: Day)
    requires 0 <= d.year <= 9999
    ensures var a := BuildHeader(u, resp);
      && a.uploadId == u && IsFirstNonBlank(a.currency, resp.metaCurrency, resp.analysisCurrency)
      && (a.periodStart == Some(d)
          <==> TrimSpace(FirstNonBlank(resp.metaStart, resp.analysisStart)) == FormatDay(d))
      && (a.periodEnd == Some(d) <==> TrimSpace(FirstNonBlank(resp.metaEnd, resp.analysisEnd)) == FormatDay(d))
      && |a.sections| == |resp.sections|
      && forall i | 0 <= i < |a.sections| ::
           && (a.sections[i].None? <==> TrimSpace(resp.sections[i]) == "" || TrimSpace(resp.sections[i]) == "null")
           && (a.sections[i].Some? ==> a.sections[i].value == resp.sections[i])
  {
    FirstNonBlankMeaning(resp.metaCurrency, resp.analysisCurrency);
    HeaderDate(FirstNonBlank(resp.metaStart, resp.analysisStart), d);
    HeaderDate(FirstNonBlank(resp.metaEnd, resp.analysisEnd), d);
  }
}
