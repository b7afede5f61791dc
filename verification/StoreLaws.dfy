/**
 Laws of the store: the invariant every statement keeps, what a replacement leaves behind, and how
 far a statement on one upload reaches (its footprint).
 */
module StoreLaws {
  import opened Groups
  import opened Tables
  import opened Convert
  import opened Store

  /******* The invariant *******/

  ghost predicate UniqueFileIds(files: seq<UploadFile>) {
    forall i, j | 0 <= i < j < |files| :: files[i].id != files[j].id
  }

  ghost predicate OneAnalysisEach(analyses: map<Uuid, Analysis>) {
    forall a, b | a in analyses && b in analyses && analyses[a].uploadId == analyses[b].uploadId :: a == b
  }

  ghost predicate IdsAscend(ts: seq<Transaction>, nextId: nat) {
    && (forall i, j | 0 <= i < j < |ts| :: ts[i].id < ts[j].id)
    && (forall i | 0 <= i < |ts| :: ts[i].id < nextId)
  }

  /** Each upload has at most one analysis, every reference is to a live row, and ids ascend in insertion order. */
  ghost predicate Consistent(db: Database) {
    && UniqueFileIds(db.files)
    && OneAnalysisEach(db.analyses)
    && (forall a | a in db.analyses :: db.analyses[a].uploadId in db.uploads)
    && (forall t | t in db.transactions :: t.analysisId in db.analyses)
    && IdsAscend(db.transactions, db.nextId)
  }

  lemma {:induction false} FilterKeepsAscending(ts: seq<Transaction>, p: Transaction -> bool, nextId: nat)
    requires IdsAscend(ts, nextId)
    ensures IdsAscend(Filter(ts, p), nextId)
  {
    if ts != [] {
      var rest := ts[1..];
      FilterKeepsAscending(rest, p, nextId);
      FilterMembers(rest, p);
      forall i | 0 <= i < |Filter(rest, p)| ensures ts[0].id < Filter(rest, p)[i].id {
        assert Filter(rest, p)[i] in rest;
        var k :| 0 <= k < |rest| && rest[k] == Filter(rest, p)[i];
        assert ts[k+1] == rest[k];
      }
    }
  }

  /** Recording an upload appends its rows in order, or changes nothing; either way the invariant is kept. */
  lemma {:induction false} FilesAddedMeaning(files: seq<UploadFile>, u: Uuid, added: seq<NewUploadFile>, from: nat,
      fault: CreateFault)
    requires from <= |added| && UniqueFileIds(files)
    ensures FilesAdded(files, u, added, from, fault).Some? ==>
      var r := FilesAdded(files, u, added, from, fault).value;
      && UniqueFileIds(r) && |r| == |files| + |added| - from && files <= r
      && forall i | from <= i < |added| :: r[|files|+i-from] == FileRow(u, added[i])
    decreases |added| - from
  {
    if from < |added| && fault != CreateAtFile(from) && CanAddFile(files, u, added[from]) {
      FilesAddedMeaning(files + [FileRow(u, added[from])], u, added, from + 1, fault);
    }
  }

  lemma CreateKeepsConsistent(db: Database, u: Uuid, added: seq<NewUploadFile>, fault: CreateFault)
    requires Consistent(db)
    ensures var (db', ok) := CreateOutcome(db, u, added, fault);
      && Consistent(db') && (!ok ==> db' == db)
      && (ok ==>
           && u !in db.uploads && db'.uploads == db.uploads[u := Upload(Pending, None, |added|)]
           && AnalysesOf(db', u) == {}
           && db' == db.(uploads := db'.uploads, files := db'.files)
           && |db'.files| == |db.files| + |added| && db.files <= db'.files
           && forall i | 0 <= i < |added| :: db'.files[|db.files|+i] == FileRow(u, added[i]))
  {
    FilesAddedMeaning(db.files, u, added, 0, fault);
  }

  /** No two rows, old or new, share an id, and none of the new ones shares its position in the upload. */
  ghost predicate Fits(files: seq<UploadFile>, u: Uuid, added: seq<NewUploadFile>, from: nat) {
    && (forall k, i | 0 <= k < |files| && from <= i < |added| ::
          files[k].id != added[i].id && !(files[k].uploadId == u && files[k].position == added[i].position))
    && (forall i, j | from <= i < j < |added| ::
          added[i].id != added[j].id && added[i].position != added[j].position)
  }

  /** The fault hits none of the statements from a row on. */
  predicate Spares(fault: CreateFault, from: nat, n: nat) {
    fault.CreateAtFile? ==> !(from <= fault.index < n)
  }

  lemma AddOneFits(files: seq<UploadFile>, u: Uuid, added: seq<NewUploadFile>, from: nat)
    requires from < |added|
    ensures Fits(files, u, added, from)
      <==> CanAddFile(files, u, added[from]) && Fits(files + [FileRow(u, added[from])], u, added, from + 1)
  {
    var all := files + [FileRow(u, added[from])];
    assert all[|files|] == FileRow(u, added[from]) && forall k | 0 <= k < |files| :: all[k] == files[k];
  }

  lemma {:induction false} FilesAddedIff(files: seq<UploadFile>, u: Uuid, added: seq<NewUploadFile>, from: nat,
      fault: CreateFault)
    requires from <= |added|
    ensures FilesAdded(files, u, added, from, fault).Some?
      <==> Fits(files, u, added, from) && Spares(fault, from, |added|)
    decreases |added| - from
  {
    if from < |added| {
      AddOneFits(files, u, added, from);
      FilesAddedIff(files + [FileRow(u, added[from])], u, added, from + 1, fault);
    }
  }

  /** Exactly when an upload is recorded: it is new, it has files, they fit, and no statement fails. */
  lemma CreateSucceedsIff(db: Database, u: Uuid, added: seq<NewUploadFile>, fault: CreateFault)
    ensures CreateOutcome(db, u, added, fault).1
      <==> && added != [] && u !in db.uploads && Fits(db.files, u, added, 0)
           && (fault.NoCreateFault? || fault.CreateAtFile?) && Spares(fault, 0, |added|)
  {
    FilesAddedIff(db.files, u, added, 0, fault);
  }

  /** Listed files come in order of position, each of the upload's files once. */
  lemma FilesInOrder(db: Database, u: Uuid)
    ensures forall i, j | 0 <= i < j < |FilesOf(db, u)| :: FilesOf(db, u)[i].position <= FilesOf(db, u)[j].position
    ensures multiset(FilesOf(db, u)) == multiset(Filter(db.files, OfUpload(u)))
  {
    OrderByMeaning(ByPosition, Filter(db.files, OfUpload(u)));
  }

  lemma WithOcrKeepsIds(db: Database, id: Uuid, markdown: string, pages: int)
    requires Consistent(db)
    ensures Consistent(WithOcr(db, id, markdown, pages))
  {
    var files := WithOcr(db, id, markdown, pages).files;
    forall i | 0 <= i < |files| ensures files[i].id == db.files[i].id {
    }
  }

  lemma DeletedIsConsistent(db: Database, u: Uuid)
    requires Consistent(db)
    ensures Consistent(Deleted(db, u)) && AnalysesOf(Deleted(db, u), u) == {}
  {
    var ids := AnalysesOf(db, u);
    FilterMembers(db.transactions, NotIn(ids));
    FilterKeepsAscending(db.transactions, NotIn(ids), db.nextId);
  }

  lemma CopiedIsConsistent(db: Database, a: Uuid, entries: seq<Entry>)
    requires Consistent(db) && a in db.analyses
    ensures Consistent(Copied(db, a, entries))
  {
    var ts := Copied(db, a, entries).transactions;
    forall i | 0 <= i < |ts| ensures ts[i].analysisId in db.analyses {
      if i < |db.transactions| { assert ts[i] == db.transactions[i] && db.transactions[i] in db.transactions; }
    }
  }

  lemma InsertedIsConsistent(db: Database, id: Uuid, analysis: Analysis)
    requires Consistent(db) && CanInsert(db, id, analysis)
    ensures Consistent(Inserted(db, id, analysis))
  {
    forall a | a in db.analyses ensures db.analyses[a].uploadId != analysis.uploadId {
      assert a !in AnalysesOf(db, analysis.uploadId);
    }
  }

  lemma ReplacedIsConsistent(db: Database, na: NewAnalysis)
    requires Consistent(db) && CanInsert(Deleted(db, na.analysis.uploadId), na.id, na.analysis)
    ensures Consistent(Replaced(db, na))
    ensures AnalysesOf(Replaced(db, na), na.analysis.uploadId) == {na.id}
      && Replaced(db, na).analyses[na.id] == na.analysis
  {
    var u := na.analysis.uploadId;
    var cleared := Deleted(db, u);
    var inserted := Inserted(cleared, na.id, na.analysis);
    DeletedIsConsistent(db, u);
    InsertedIsConsistent(cleared, na.id, na.analysis);
    CopiedIsConsistent(inserted, na.id, na.entries);
    forall a | a in cleared.analyses ensures cleared.analyses[a].uploadId != u {
      assert a !in AnalysesOf(cleared, u);
    }
  }

  lemma ReplaceSucceedsOnlyWhenInsertable(db: Database, na: NewAnalysis, fault: Fault)
    ensures var (db', ok) := ReplaceOutcome(db, na, fault);
      && (ok ==> CanInsert(Deleted(db, na.analysis.uploadId), na.id, na.analysis) && db' == Replaced(db, na))
      && (!ok ==> db' == db.(nextId := db'.nextId) && db'.nextId >= db.nextId)
      && (fault.NoFault? ==> (ok <==> CanInsert(Deleted(db, na.analysis.uploadId), na.id, na.analysis)))
  {
  }

  /** The fault does not hit a replacement by this many rows. */
  predicate SparesReplace(fault: Fault, n: nat) {
    || fault.NoFault?
    || (n == 0 && (fault.AtCopy? || fault.Miscounted?))
    || (fault.Miscounted? && fault.reported == n)
  }

  /** Exactly when a replacement succeeds: the upload exists, the id is free or its own, and no statement fails. */
  lemma ReplaceSucceedsIff(db: Database, na: NewAnalysis, fault: Fault)
    ensures var u := na.analysis.uploadId;
      ReplaceOutcome(db, na, fault).1
      <==> && u in db.uploads && (na.id in db.analyses ==> db.analyses[na.id].uploadId == u)
           && SparesReplace(fault, |na.entries|)
  {
    var u := na.analysis.uploadId;
    assert AnalysesOf(Deleted(db, u), u) == {};
  }

  /** Whatever fails and wherever: a replacement keeps the invariant, and a failed one changes no table. */
  lemma ReplaceKeepsConsistent(db: Database, na: NewAnalysis, fault: Fault)
    requires Consistent(db)
    ensures var (db', ok) := ReplaceOutcome(db, na, fault);
      && Consistent(db')
      && (!ok ==> db' == db.(nextId := db'.nextId) && db'.nextId >= db.nextId)
      && (ok ==> AnalysesOf(db', na.analysis.uploadId) == {na.id} && db'.analyses[na.id] == na.analysis)
  {
    ReplaceSucceedsOnlyWhenInsertable(db, na, fault);
    if ReplaceOutcome(db, na, fault).1 { ReplacedIsConsistent(db, na); }
  }

  /** A call on the store, with what makes it fail. */
  datatype Call =
    | Create(upload: Uuid, added: seq<NewUploadFile>, createFault: CreateFault)
    | SetStatus(id: Uuid, status: Status, reason: Option<string>)
    | SetOcr(fileId: Uuid, markdown: string, pages: int)
    | Replace(na: NewAnalysis, fault: Fault)
    | Delete(of: Uuid)

  function Perform(db: Database, call: Call): Database {
    match call
    case Create(u, added, fault) => CreateOutcome(db, u, added, fault).0
    case SetStatus(id, status, reason) => WithStatus(db, id, status, reason)
    case SetOcr(id, markdown, pages) => WithOcr(db, id, markdown, pages)
    case Replace(na, fault) => ReplaceOutcome(db, na, fault).0
    case Delete(u) => Deleted(db, u)
  }

  function PerformAll(db: Database, calls: seq<Call>): Database
    decreases |calls|
  {
    if calls == [] then db else PerformAll(Perform(db, calls[0]), calls[1..])
  }

  /**
   Any sequence of calls, failing at any inner statement, keeps the invariant: at most one analysis
   for each upload, and every transaction referring to a live one.
   */
  lemma {:induction false} CallsKeepConsistent(db: Database, calls: seq<Call>)
    requires Consistent(db)
    ensures Consistent(PerformAll(db, calls))
    decreases |calls|
  {
    if calls != [] {
      match calls[0] {
        case Create(u, added, fault) => CreateKeepsConsistent(db, u, added, fault);
        case SetStatus(_, _, _) =>
        case SetOcr(id, markdown, pages) => WithOcrKeepsIds(db, id, markdown, pages);
        case Replace(na, fault) => ReplaceKeepsConsistent(db, na, fault);
        case Delete(u) => DeletedIsConsistent(db, u);
      }
      CallsKeepConsistent(Perform(db, calls[0]), calls[1..]);
    }
  }

  /******* What a replacement leaves *******/

  function StampOf(t: Transaction): Stamped {
    Stamped(t.analysisId, t.entry)
  }

  /** The rows of a set of analyses, in id order, without their ids. */
  function Stamps(ts: seq<Transaction>, ids: set<Uuid>): seq<Stamped> {
    MapSlice(Filter(ts, In(ids)), StampOf)
  }

  function StampAll(a: Uuid, entries: seq<Entry>): (r: seq<Stamped>)
    ensures |r| == |entries| && forall i | 0 <= i < |r| :: r[i] == Stamped(a, entries[i])
  {
    seq(|entries|, i requires 0 <= i < |entries| => Stamped(a, entries[i]))
  }

  /** After a replacement, the upload's rows are exactly the entries handed over, in their order. */
  lemma ReplacedRows(db: Database, na: NewAnalysis)
    requires Consistent(db) && CanInsert(Deleted(db, na.analysis.uploadId), na.id, na.analysis)
    ensures Filter(Replaced(db, na).transactions, In({na.id})) == Numbered(na.id, na.entries, db.nextId)
    ensures Stamps(Replaced(db, na).transactions, {na.id}) == StampAll(na.id, na.entries)
  {
    var cleared := Deleted(db, na.analysis.uploadId);
    var added := Numbered(na.id, na.entries, db.nextId);
    DeletedIsConsistent(db, na.analysis.uploadId);
    FilterAppend(cleared.transactions, added, In({na.id}));
    FilterNone(cleared.transactions, In({na.id}));
    FilterAll(added, In({na.id}));
    assert [] + added == added;
    assert MapSlice(added, StampOf) == StampAll(na.id, na.entries);
  }

  lemma AddedRowsGo(earlier: seq<Transaction>, a: Uuid, entries: seq<Entry>, from: nat)
    requires forall t | t in earlier :: t.analysisId != a
    ensures Filter(earlier + Numbered(a, entries, from), NotIn({a})) == earlier
  {
    var added := Numbered(a, entries, from);
    FilterAppend(earlier, added, NotIn({a}));
    FilterAll(earlier, NotIn({a}));
    FilterNone(added, NotIn({a}));
    assert earlier + [] == earlier;
  }

  /** Deleting after a replacement undoes it: only the rows and ids of the earlier analysis stay gone. */
  lemma DeleteUndoesReplace(db: Database, na: NewAnalysis)
    requires Consistent(db) && CanInsert(Deleted(db, na.analysis.uploadId), na.id, na.analysis)
    ensures Deleted(Replaced(db, na), na.analysis.uploadId)
         == Deleted(db, na.analysis.uploadId).(nextId := db.nextId + |na.entries|)
  {
    var u := na.analysis.uploadId;
    var cleared, after := Deleted(db, u), Replaced(db, na);
    ReplacedIsConsistent(db, na);
    DeletedIsConsistent(db, u);
    AddedRowsGo(cleared.transactions, na.id, na.entries, db.nextId);
    assert after.analyses - {na.id} == cleared.analyses;
  }

  /** Replacing twice leaves what replacing once with the second leaves, up to where the ids start. */
  lemma ReplaceTwice(db: Database, first: NewAnalysis, second: NewAnalysis)
    requires Consistent(db) && first.analysis.uploadId == second.analysis.uploadId
    requires CanInsert(Deleted(db, first.analysis.uploadId), first.id, first.analysis)
    ensures Replaced(Replaced(db, first), second) == Replaced(db.(nextId := db.nextId + |first.entries|), second)
    ensures CanInsert(Deleted(db, second.analysis.uploadId), second.id, second.analysis) ==>
      Stamps(Replaced(Replaced(db, first), second).transactions, {second.id})
        == Stamps(Replaced(db, second).transactions, {second.id})
  {
    DeleteUndoesReplace(db, first);
    var shifted := db.(nextId := db.nextId + |first.entries|);
    assert Deleted(shifted, first.analysis.uploadId) == Deleted(db, first.analysis.uploadId).(nextId := shifted.nextId);
    if CanInsert(Deleted(db, second.analysis.uploadId), second.id, second.analysis) {
      ReplacedRows(db, second);
      ReplacedRows(shifted, second);
    }
  }

  /******* Footprints *******/

  /** All that belongs to one upload, transaction ids aside. */
  datatype Footprint = Footprint(
    upload: Option<Upload>, files: seq<UploadFile>, analyses: map<Uuid, Analysis>, rows: seq<Stamped>)

  function FootprintOf(db: Database, u: Uuid): Footprint {
    Footprint(
      if u in db.uploads then Some(db.uploads[u]) else None,
      Filter(db.files, OfUpload(u)),
      map a | a in AnalysesOf(db, u) :: db.analyses[a],
      Stamps(db.transactions, AnalysesOf(db, u)))
  }

  lemma StatusFootprint(db: Database, u: Uuid, status: Status, reason: Option<string>, v: Uuid)
    ensures v != u ==> FootprintOf(WithStatus(db, u, status, reason), v) == FootprintOf(db, v)
    ensures u in db.uploads ==>
      FootprintOf(WithStatus(db, u, status, reason), u)
      == FootprintOf(db, u).(upload := Some(db.uploads[u].(status := status, failureReason := reason)))
  {
    assert AnalysesOf(WithStatus(db, u, status, reason), v) == AnalysesOf(db, v);
    assert AnalysesOf(WithStatus(db, u, status, reason), u) == AnalysesOf(db, u);
  }

  function Writer(id: Uuid, markdown: string, pages: int): UploadFile -> UploadFile {
    (f: UploadFile) => WithText(f, id, markdown, pages)
  }

  lemma {:induction false} MapSliceIdentity<T>(xs: seq<T>, f: T -> T)
    requires forall x | x in xs :: f(x) == x
    ensures MapSlice(xs, f) == xs
  {
    if xs != [] {
      assert xs[0] in xs;
      MapSliceIdentity(xs[1..], f);
      assert [xs[0]] + xs[1..] == xs;
    }
  }

  lemma WithOcrIsWriter(db: Database, id: Uuid, markdown: string, pages: int)
    ensures WithOcr(db, id, markdown, pages) == db.(files := MapSlice(db.files, Writer(id, markdown, pages)))
  {
    var a, b := WithOcr(db, id, markdown, pages).files, MapSlice(db.files, Writer(id, markdown, pages));
    assert a == b;
  }

  /** A text write reaches only the upload whose file has that id. */
  lemma OcrFootprint(db: Database, id: Uuid, markdown: string, pages: int, u: Uuid, v: Uuid)
    requires forall f | f in db.files && f.id == id :: f.uploadId == u
    ensures v != u ==> FootprintOf(WithOcr(db, id, markdown, pages), v) == FootprintOf(db, v)
    ensures FootprintOf(WithOcr(db, id, markdown, pages), u)
         == FootprintOf(db, u).(files := MapSlice(FootprintOf(db, u).files, Writer(id, markdown, pages)))
  {
    var write := Writer(id, markdown, pages);
    var db' := WithOcr(db, id, markdown, pages);
    WithOcrIsWriter(db, id, markdown, pages);
    MapOfFilter(db.files, write, OfUpload(u), OfUpload(u));
    MapOfFilter(db.files, write, OfUpload(v), OfUpload(v));
    FilterMembers(db.files, OfUpload(v));
    if v != u { MapSliceIdentity(Filter(db.files, OfUpload(v)), write); }
    assert AnalysesOf(db', v) == AnalysesOf(db, v);
    assert AnalysesOf(db', u) == AnalysesOf(db, u);
  }

  lemma OtherRowsStay(db: Database, u: Uuid, v: Uuid)
    requires u != v
    ensures AnalysesOf(Deleted(db, u), v) == AnalysesOf(db, v)
    ensures Filter(Deleted(db, u).transactions, In(AnalysesOf(db, v))) == Filter(db.transactions, In(AnalysesOf(db, v)))
  {
    var mine, others := AnalysesOf(db, u), AnalysesOf(db, v);
    FilterTwice(db.transactions, NotIn(mine), In(others), In(others));
  }

  lemma DeletedOwnFootprint(db: Database, u: Uuid)
    requires Consistent(db)
    ensures FootprintOf(Deleted(db, u), u) == FootprintOf(db, u).(analyses := map[], rows := [])
  {
    DeletedIsConsistent(db, u);
    FilterNone(Deleted(db, u).transactions, In({}));
  }

  lemma DeleteFootprint(db: Database, u: Uuid, v: Uuid)
    requires Consistent(db)
    ensures v != u ==> FootprintOf(Deleted(db, u), v) == FootprintOf(db, v)
    ensures FootprintOf(Deleted(db, u), u) == FootprintOf(db, u).(analyses := map[], rows := [])
  {
    DeletedOwnFootprint(db, u);
    if v != u { OtherRowsStay(db, u, v); }
  }

  lemma AddedFootprint(db: Database, na: NewAnalysis, v: Uuid)
    requires Consistent(db) && CanInsert(db, na.id, na.analysis) && v != na.analysis.uploadId
    ensures FootprintOf(Copied(Inserted(db, na.id, na.analysis), na.id, na.entries), v) == FootprintOf(db, v)
  {
    var db' := Copied(Inserted(db, na.id, na.analysis), na.id, na.entries);
    var others := AnalysesOf(db, v);
    assert AnalysesOf(db', v) == others;
    var added := Numbered(na.id, na.entries, db.nextId);
    FilterAppend(db.transactions, added, In(others));
    FilterNone(added, In(others));
    assert Filter(db.transactions, In(others)) + [] == Filter(db.transactions, In(others));
  }

  lemma ReplaceFootprint(db: Database, na: NewAnalysis, v: Uuid)
    requires Consistent(db) && CanInsert(Deleted(db, na.analysis.uploadId), na.id, na.analysis)
    ensures v != na.analysis.uploadId ==> FootprintOf(Replaced(db, na), v) == FootprintOf(db, v)
    ensures FootprintOf(Replaced(db, na), na.analysis.uploadId)
         == FootprintOf(db, na.analysis.uploadId).(
              analyses := map[na.id := na.analysis], rows := StampAll(na.id, na.entries))
  {
    var u := na.analysis.uploadId;
    DeleteFootprint(db, u, v);
    DeletedIsConsistent(db, u);
    if v != u { AddedFootprint(Deleted(db, u), na, v); }
    ReplacedIsConsistent(db, na);
    ReplacedRows(db, na);
    assert FootprintOf(Replaced(db, na), u).analyses == map[na.id := na.analysis];
  }
}
