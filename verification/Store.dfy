/**
 The store (internal/db/store.go, copyfrom.go and the statements under internal/db/queries).
 Each statement is a function on the database; the class runs them, with transactions that roll
 back, and its methods are proved to do what the functions say.
 */
module Store {
  import opened Groups
  import opened Tables
  import opened Convert

  /******* Statements *******/

  /** SetUploadStatus; an unknown id is an error and changes nothing. */
  function WithStatus(db: Database, id: Uuid, status: Status, reason: Option<string>): Database {
    if id in db.uploads then
      db.(uploads := db.uploads[id := db.uploads[id].(status := status, failureReason := reason)])
    else db
  }

  function WithText(f: UploadFile, id: Uuid, markdown: string, pages: int): UploadFile {
    if f.id == id then f.(ocrMarkdown := Some(markdown), pageCount := Some(pages)) else f
  }

  /** SetUploadFileOCR. */
  function WithOcr(db: Database, id: Uuid, markdown: string, pages: int): Database {
    db.(files := MapSlice(db.files, (f: UploadFile) => WithText(f, id, markdown, pages)))
  }

  function OfUpload(u: Uuid): UploadFile -> bool {
    (f: UploadFile) => f.uploadId == u
  }

  predicate ByPosition(a: UploadFile, b: UploadFile) {
    a.position <= b.position
  }

  /** ListUploadFiles. */
  function FilesOf(db: Database, u: Uuid): seq<UploadFile> {
    OrderBy(ByPosition, Filter(db.files, OfUpload(u)))
  }

  /** The ids of an upload's analyses; Consistent says there is at most one. */
  function AnalysesOf(db: Database, u: Uuid): set<Uuid> {
    set a | a in db.analyses && db.analyses[a].uploadId == u
  }

  function NotIn(ids: set<Uuid>): Transaction -> bool {
    (t: Transaction) => t.analysisId !in ids
  }

  function In(ids: set<Uuid>): Transaction -> bool {
    (t: Transaction) => t.analysisId in ids
  }

  /** DeleteAnalysisByUpload, with the transactions that cascade. */
  function Deleted(db: Database, u: Uuid): Database {
    var ids := AnalysesOf(db, u);
    db.(analyses := db.analyses - ids, transactions := Filter(db.transactions, NotIn(ids)))
  }

  /** The constraints CreateAnalysis meets: primary key, one analysis per upload, and the foreign key. */
  predicate CanInsert(db: Database, id: Uuid, analysis: Analysis) {
    id !in db.analyses && AnalysesOf(db, analysis.uploadId) == {} && analysis.uploadId in db.uploads
  }

  function Inserted(db: Database, id: Uuid, analysis: Analysis): Database {
    db.(analyses := db.analyses[id := analysis])
  }

  function Numbered(a: Uuid, entries: seq<Entry>, from: nat): (r: seq<Transaction>)
    ensures |r| == |entries| && forall i | 0 <= i < |r| :: r[i] == Transaction(from + i, a, entries[i])
  {
    seq(|entries|, i requires 0 <= i < |entries| => Transaction(from + i, a, entries[i]))
  }

  /** CreateTransactions: the rows in order, with consecutive ids. */
  function Copied(db: Database, a: Uuid, entries: seq<Entry>): Database {
    db.(transactions := db.transactions + Numbered(a, entries, db.nextId), nextId := db.nextId + |entries|)
  }

  function Replaced(db: Database, na: NewAnalysis): Database {
    Copied(Inserted(Deleted(db, na.analysis.uploadId), na.id, na.analysis), na.id, na.entries)
  }

  /** Where a transaction can fail.  A copy that breaks off has already drawn ids, and a sequence is not rolled back. */
  datatype Fault = NoFault | AtBegin | AtDelete | AtInsert | AtCopy(drawn: nat) | Miscounted(reported: int) | AtCommit

  /** ReplaceAnalysis as a whole: either everything happens or nothing but the drawing of ids. */
  function ReplaceOutcome(db: Database, na: NewAnalysis, fault: Fault): (Database, bool) {
    if fault.AtBegin? || fault.AtDelete? || fault.AtInsert? then (db, false)
    else if !CanInsert(Deleted(db, na.analysis.uploadId), na.id, na.analysis) then (db, false)
    else if fault.AtCopy? && na.entries != [] then (db.(nextId := db.nextId + fault.drawn), false)
    else if fault.AtCommit? || (fault.Miscounted? && na.entries != [] && fault.reported != |na.entries|) then
      (db.(nextId := db.nextId + |na.entries|), false)
    else (Replaced(db, na), true)
  }

  /** db.NewUploadFile: a file whose bytes are already stored. */
  datatype NewUploadFile = NewUploadFile(
    id: Uuid, position: int, filename: string, contentType: string, sizeBytes: int, storageKey: string)

  function FileRow(u: Uuid, f: NewUploadFile): UploadFile {
    UploadFile(f.id, u, f.position, f.filename, f.contentType, f.sizeBytes, f.storageKey, None, None)
  }

  /** The constraints CreateUploadFile meets: primary key and unique (upload_id, position). */
  predicate CanAddFile(files: seq<UploadFile>, u: Uuid, f: NewUploadFile) {
    forall i | 0 <= i < |files| :: files[i].id != f.id && !(files[i].uploadId == u && files[i].position == f.position)
  }

  datatype CreateFault = NoCreateFault | CreateAtBegin | CreateAtUpload | CreateAtFile(index: nat) | CreateAtCommit

  /** The file inserts, in order, up to the first that fails. */
  function FilesAdded(
      files: seq<UploadFile>, u: Uuid, added: seq<NewUploadFile>, from: nat, fault: CreateFault)
    : Option<seq<UploadFile>>
    requires from <= |added|
    decreases |added| - from
  {
    if from == |added| then Some(files)
    else if fault == CreateAtFile(from) || !CanAddFile(files, u, added[from]) then None
    else FilesAdded(files + [FileRow(u, added[from])], u, added, from + 1, fault)
  }

  /** CreateUploadWithFiles as a whole. */
  function CreateOutcome(db: Database, u: Uuid, added: seq<NewUploadFile>, fault: CreateFault): (Database, bool) {
    if added == [] || fault.CreateAtBegin? || fault.CreateAtUpload? || u in db.uploads then (db, false)
    else match FilesAdded(db.files, u, added, 0, fault)
      case None => (db, false)
      case Some(files) =>
        if fault.CreateAtCommit? then (db, false)
        else (db.(uploads := db.uploads[u := Upload(Pending, None, |added|)], files := files), true)
  }

  /******* The code *******/

  /** One row handed to the copy protocol. */
  datatype Stamped = Stamped(analysisId: Uuid, entry: Entry)

  /** iteratorForCreateTransactions. */
  class RowIterator {
    var rows: seq<Stamped>
    var skippedFirstNextCall: bool

    constructor (rows: seq<Stamped>)
      ensures Remaining() == rows
    {
      this.rows := rows;
      skippedFirstNextCall := false;
    }

    /** What later calls of Next will still present. */
    ghost function Remaining(): seq<Stamped>
      reads this
    {
      if rows == [] || !skippedFirstNextCall then rows else rows[1..]
    }

    method Next() returns (more: bool)
      modifies this
      ensures more <==> old(Remaining()) != []
      ensures more ==> rows != [] && rows[0] == old(Remaining())[0] && Remaining() == old(Remaining())[1..]
      ensures !more ==> Remaining() == []
    {
      if |rows| == 0 {
        return false;
      }
      if !skippedFirstNextCall {
        skippedFirstNextCall := true;
        return true;
      }
      rows := rows[1..];
      return |rows| > 0;
    }

    method Values() returns (row: Stamped)
      requires rows != []
      ensures row == rows[0]
    {
      row := rows[0];
    }
  }

  class Store {
    var uploads: map<Uuid, Upload>
    var files: seq<UploadFile>
    var analyses: map<Uuid, Analysis>
    var transactions: seq<Transaction>
    var nextId: nat

    constructor ()
      ensures View() == Database(map[], [], map[], [], 1)
    {
      uploads, files, analyses, transactions, nextId := map[], [], map[], [], 1;
    }

    function View(): Database
      reads this
    {
      Database(uploads, files, analyses, transactions, nextId)
    }

    method CreateUploadWithFiles(u: Uuid, added: seq<NewUploadFile>, fault: CreateFault) returns (ok: bool)
      modifies this
      ensures (View(), ok) == CreateOutcome(old(View()), u, added, fault)
    {
      if |added| == 0 || fault.CreateAtBegin? {
        return false;
      }
      var savedUploads, savedFiles := uploads, files;
      ok := CreateInTx(u, added, fault);
      if !ok {
        uploads, files := savedUploads, savedFiles;
      }
    }

    /** The function InTx runs, with the commit that follows it. */
    method CreateInTx(u: Uuid, added: seq<NewUploadFile>, fault: CreateFault) returns (ok: bool)
      requires added != [] && !fault.CreateAtBegin?
      modifies this
      ensures analyses == old(analyses) && transactions == old(transactions) && nextId == old(nextId)
      ensures var outcome := CreateOutcome(old(View()), u, added, fault);
        ok == outcome.1 && (ok ==> View() == outcome.0)
    {
      if fault.CreateAtUpload? || u in uploads {
        return false;
      }
      uploads := uploads[u := Upload(Pending, None, |added|)];
      for i := 0 to |added|
        invariant uploads == old(uploads)[u := Upload(Pending, None, |added|)]
        invariant analyses == old(analyses) && transactions == old(transactions) && nextId == old(nextId)
        invariant FilesAdded(files, u, added, i, fault) == FilesAdded(old(files), u, added, 0, fault)
      {
        if fault == CreateAtFile(i) || !CanAddFile(files, u, added[i]) {
          return false;
        }
        files := files + [FileRow(u, added[i])];
      }
      return !fault.CreateAtCommit?;
    }

    method SetUploadStatus(id: Uuid, status: Status, reason: Option<string>, fails: bool) returns (ok: bool)
      modifies this
      ensures ok <==> !fails && id in old(uploads)
      ensures View() == if ok then WithStatus(old(View()), id, status, reason) else old(View())
      ensures ok ==> uploads == old(uploads)[id := Upload(status, reason, old(uploads)[id].fileCount)]
    {
      ok := !fails && id in uploads;
      if ok {
        uploads := uploads[id := uploads[id].(status := status, failureReason := reason)];
      }
    }

    method SetUploadFileOCR(id: Uuid, markdown: string, pages: int, fails: bool) returns (ok: bool)
      modifies this
      ensures ok <==> !fails
      ensures View() == if ok then WithOcr(old(View()), id, markdown, pages) else old(View())
    {
      ok := !fails;
      if ok {
        files := MapSlice(files, (f: UploadFile) => WithText(f, id, markdown, pages));
      }
    }

    method ListUploadFiles(u: Uuid) returns (r: seq<UploadFile>)
      ensures r == FilesOf(View(), u)
    {
      r := OrderBy(ByPosition, Filter(files, OfUpload(u)));
    }

    method DeleteAnalysisByUpload(u: Uuid, fails: bool) returns (ok: bool)
      modifies this
      ensures ok <==> !fails
      ensures View() == if ok then Deleted(old(View()), u) else old(View())
    {
      ok := !fails;
      if ok {
        var ids := set a | a in analyses && analyses[a].uploadId == u;
        analyses := analyses - ids;
        transactions := Filter(transactions, NotIn(ids));
      }
    }

    method CreateAnalysis(id: Uuid, analysis: Analysis, fails: bool) returns (ok: bool)
      modifies this
      ensures ok <==> !fails && CanInsert(old(View()), id, analysis)
      ensures View() == if ok then Inserted(old(View()), id, analysis) else old(View())
    {
      ok := !fails && id !in analyses && (set a | a in analyses && analyses[a].uploadId == analysis.uploadId) == {}
        && analysis.uploadId in uploads;
      if ok {
        analyses := analyses[id := analysis];
      }
    }

    /** The copy loop of the driver: every row the iterator presents is inserted under the next id. */
    method CopyFrom(source: RowIterator) returns (copied: nat)
      modifies this, source
      ensures copied == |old(source.Remaining())|
      ensures View() == old(View()).(
        transactions := old(transactions) + Appended(old(source.Remaining()), old(nextId)),
        nextId := old(nextId) + copied)
    {
      copied := 0;
      ghost var pending, total := source.Remaining(), |source.Remaining()|;
      ghost var target, last := transactions + Appended(pending, nextId), nextId + total;
      var more := source.Next();
      while more
        invariant more <==> pending != []
        invariant more ==> source.rows != [] && source.rows[0] == pending[0] && source.Remaining() == pending[1..]
        invariant uploads == old(uploads) && files == old(files) && analyses == old(analyses)
        invariant copied + |pending| == total && nextId + |pending| == last
        invariant transactions + Appended(pending, nextId) == target
        decreases |pending|
      {
        var row := source.Values();
        AppendedHead(transactions, pending, nextId);
        transactions := transactions + [Transaction(nextId, row.analysisId, row.entry)];
        nextId := nextId + 1;
        copied := copied + 1;
        pending := pending[1..];
        more := source.Next();
      }
      AppendedNone(transactions, nextId);
    }

    method CreateTransactions(rows: seq<Stamped>) returns (copied: nat)
      modifies this
      ensures copied == |rows|
      ensures View() == old(View()).(
        transactions := old(transactions) + Appended(rows, old(nextId)),
        nextId := old(nextId) + copied)
    {
      var source := new RowIterator(rows);
      copied := CopyFrom(source);
    }

    /** InTx around the three statements: on any failure the tables are put back as they were. */
    method ReplaceAnalysis(na: NewAnalysis, fault: Fault) returns (ok: bool)
      modifies this
      ensures (View(), ok) == ReplaceOutcome(old(View()), na, fault)
    {
      if fault.AtBegin? {
        return false;
      }
      var savedAnalyses, savedTransactions := analyses, transactions;
      ok := ReplaceInTx(na, fault);
      if !ok {
        analyses, transactions := savedAnalyses, savedTransactions;
      }
    }

    /** The function InTx runs, with the commit that follows it. */
    method ReplaceInTx(na: NewAnalysis, fault: Fault) returns (ok: bool)
      requires !fault.AtBegin?
      modifies this
      ensures uploads == old(uploads) && files == old(files)
      ensures var outcome := ReplaceOutcome(old(View()), na, fault);
        ok == outcome.1 && nextId == outcome.0.nextId && (ok ==> View() == outcome.0)
    {
      ok := DeleteAnalysisByUpload(na.analysis.uploadId, fault.AtDelete?);
      if !ok {
        return false;
      }
      ok := CreateAnalysis(na.id, na.analysis, fault.AtInsert?);
      if !ok {
        return false;
      }
      if |na.entries| == 0 {
        assert transactions + [] == transactions;
        return !fault.AtCommit?;
      }
      if fault.AtCopy? {
        nextId := nextId + fault.drawn;
        return false;
      }
      var rows := seq(|na.entries|, i requires 0 <= i < |na.entries| => Stamped(na.id, na.entries[i]));
      var copied := CreateTransactions(rows);
      StampedAreNumbered(na.id, na.entries, rows, old(nextId));
      if fault.Miscounted? && fault.reported != |rows| {
        return false;
      }
      return !fault.AtCommit?;
    }
  }

  /** The transactions a run of stamped rows becomes. */
  function Appended(rows: seq<Stamped>, from: nat): seq<Transaction> {
    if rows == [] then [] else [Transaction(from, rows[0].analysisId, rows[0].entry)] + Appended(rows[1..], from + 1)
  }

  lemma {:induction false} AppendedMeaning(rows: seq<Stamped>, from: nat)
    ensures var r := Appended(rows, from);
      |r| == |rows| && forall i | 0 <= i < |r| :: r[i] == Transaction(from + i, rows[i].analysisId, rows[i].entry)
  {
    if rows != [] {
      AppendedMeaning(rows[1..], from + 1);
    }
  }

  lemma AppendedHead(ts: seq<Transaction>, rows: seq<Stamped>, from: nat)
    requires rows != []
    ensures ts + Appended(rows, from)
      == (ts + [Transaction(from, rows[0].analysisId, rows[0].entry)]) + Appended(rows[1..], from + 1)
  {
  }

  lemma AppendedNone(ts: seq<Transaction>, from: nat)
    ensures ts + Appended([], from) == ts
  {
  }

  lemma StampedAreNumbered(a: Uuid, entries: seq<Entry>, rows: seq<Stamped>, from: nat)
    requires |rows| == |entries| && forall i | 0 <= i < |rows| :: rows[i] == Stamped(a, entries[i])
    ensures Appended(rows, from) == Numbered(a, entries, from)
  {
    AppendedMeaning(rows, from);
  }
}
