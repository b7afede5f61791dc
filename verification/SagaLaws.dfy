/**
 What every run of the saga keeps: OCR resumption, run safety, rollback, and the reason that is
 stored when a run fails.
 */
module SagaLaws {
  import opened Groups
  import opened Tables
  import opened Text
  import opened Scrub
  import opened Convert
  import opened Store
  import opened StoreLaws
  import opened Saga

  /******* OCR resumption *******/

  /** From `a` to `b` a file either stayed as it was or got its text; nothing else about it changed. */
  ghost predicate Progress(a: seq<UploadFile>, b: seq<UploadFile>) {
    && |a| == |b|
    && forall i | 0 <= i < |a| ::
      || b[i] == a[i]
      || (!HasOcr(a[i]) && HasOcr(b[i]) && b[i] == a[i].(ocrMarkdown := b[i].ocrMarkdown, pageCount := b[i].pageCount))
  }

  lemma ProgressTransitive(a: seq<UploadFile>, b: seq<UploadFile>, c: seq<UploadFile>)
    requires Progress(a, b) && Progress(b, c)
    ensures Progress(a, c)
  {
  }

  /** How many files have their text. */
  function OcrCount(files: seq<UploadFile>): nat {
    if files == [] then 0 else (if HasOcr(files[0]) then 1 else 0) + OcrCount(files[1..])
  }

  lemma {:induction false} OcrCountUpdate(files: seq<UploadFile>, k: nat, f: UploadFile)
    requires k < |files|
    ensures OcrCount(files[k := f])
      == OcrCount(files) - (if HasOcr(files[k]) then 1 else 0) + (if HasOcr(f) then 1 else 0)
  {
    if k > 0 {
      OcrCountUpdate(files[1..], k - 1, f);
      assert files[k := f][1..] == files[1..][k - 1 := f];
    } else {
      assert files[k := f][1..] == files[1..];
    }
  }

  lemma WriteIsUpdate(db: Database, k: nat, markdown: string, pages: int)
    requires UniqueFileIds(db.files) && k < |db.files|
    ensures WithOcr(db, db.files[k].id, markdown, pages)
         == db.(files := db.files[k := WithText(db.files[k], db.files[k].id, markdown, pages)])
  {
    var id := db.files[k].id;
    var written := WithOcr(db, id, markdown, pages).files;
    forall i | 0 <= i < |written| && i != k ensures written[i] == db.files[i] {
      assert db.files[i].id != id;
    }
    assert written == db.files[k := WithText(db.files[k], id, markdown, pages)];
  }

  /** One stored text: progress by exactly one file. */
  lemma WriteIsProgress(db: Database, f: UploadFile, markdown: string, pages: int)
    requires UniqueFileIds(db.files) && f in db.files && !HasOcr(f) && !Blank(markdown)
    ensures var db' := WithOcr(db, f.id, markdown, pages);
      && db' == db.(files := db'.files) && UniqueFileIds(db'.files) && Progress(db.files, db'.files)
      && OcrCount(db'.files) == OcrCount(db.files) + 1
      && forall g | g in db.files && g.id != f.id :: g in db'.files
  {
    var k: nat :| k < |db.files| && db.files[k] == f;
    WriteIsUpdate(db, k, markdown, pages);
    OcrCountUpdate(db.files, k, WithText(f, f.id, markdown, pages));
    var files' := WithOcr(db, f.id, markdown, pages).files;
    forall g | g in db.files && g.id != f.id ensures g in files' {
      var i: nat :| i < |db.files| && db.files[i] == g;
      assert files'[i] == g;
    }
  }

  ghost predicate HasTextFor(files: seq<UploadFile>, id: Uuid) {
    forall g | g in files && g.id == id :: HasOcr(g)
  }

  lemma ProgressKeepsText(a: seq<UploadFile>, b: seq<UploadFile>, id: Uuid)
    requires Progress(a, b) && HasTextFor(a, id)
    ensures HasTextFor(b, id)
  {
    forall g | g in b && g.id == id ensures HasOcr(g) {
      var i: nat :| i < |b| && b[i] == g;
      assert a[i] in a && a[i].id == id;
    }
  }

  lemma UniqueRow(files: seq<UploadFile>, f: UploadFile, g: UploadFile)
    requires UniqueFileIds(files) && f in files && g in files && f.id == g.id
    ensures f == g
  {
  }

  /** What the loop has done when it stops after some of the listed files. */
  ghost predicate OcrDone(db: Database, todo: seq<UploadFile>, r: OcrResult) {
    && r.db == db.(files := r.db.files) && UniqueFileIds(r.db.files) && Progress(db.files, r.db.files)
    && r.writes == OcrCount(r.db.files) - OcrCount(db.files)
    && (r.ok ==> forall f | f in todo :: HasTextFor(r.db.files, f.id))
  }

  lemma SkipOne(db: Database, todo: seq<UploadFile>, r: OcrResult)
    requires todo != [] && UniqueFileIds(db.files) && todo[0] in db.files && HasOcr(todo[0])
      && OcrDone(db, todo[1..], r)
    ensures OcrDone(db, todo, r)
  {
    var f := todo[0];
    forall g | g in db.files && g.id == f.id ensures HasOcr(g) { UniqueRow(db.files, f, g); }
    ProgressKeepsText(db.files, r.db.files, f.id);
  }

  lemma WriteOne(db: Database, todo: seq<UploadFile>, markdown: string, pages: int, r: OcrResult)
    requires todo != [] && UniqueFileIds(db.files) && todo[0] in db.files && !HasOcr(todo[0]) && !Blank(markdown)
    requires OcrDone(WithOcr(db, todo[0].id, markdown, pages), todo[1..], r)
    ensures OcrDone(db, todo, r.(writes := r.writes + 1))
  {
    var f := todo[0];
    var db' := WithOcr(db, f.id, markdown, pages);
    WriteIsProgress(db, f, markdown, pages);
    ProgressTransitive(db.files, db'.files, r.db.files);
    WrittenHasText(db, f, markdown, pages);
    ProgressKeepsText(db'.files, r.db.files, f.id);
  }

  lemma RestIsListed(db: Database, todo: seq<UploadFile>, markdown: string, pages: int)
    requires todo != [] && UniqueFileIds(db.files) && UniqueFileIds(todo) && (forall f | f in todo :: f in db.files)
    requires !HasOcr(todo[0]) && !Blank(markdown)
    ensures UniqueFileIds(todo[1..]) && UniqueFileIds(WithOcr(db, todo[0].id, markdown, pages).files)
    ensures forall g | g in todo[1..] :: g in WithOcr(db, todo[0].id, markdown, pages).files
  {
    WriteIsProgress(db, todo[0], markdown, pages);
    forall g | g in todo[1..] ensures g in WithOcr(db, todo[0].id, markdown, pages).files {
      var i: nat :| i < |todo[1..]| && todo[1..][i] == g;
      assert todo[i+1] == g && g in todo;
    }
  }

  lemma {:induction false} OcrFromMeaning(db: Database, todo: seq<UploadFile>, env: Env)
    requires UniqueFileIds(db.files) && UniqueFileIds(todo) && forall f | f in todo :: f in db.files
    ensures OcrDone(db, todo, OcrFrom(db, todo, env))
    decreases |todo|
  {
    if todo != [] {
      var f, rest := todo[0], todo[1..];
      assert f in todo;
      if HasOcr(f) {
        OcrFromMeaning(db, rest, env);
        SkipOne(db, todo, OcrFrom(db, rest, env));
      } else if env.extract(f.id).Extracted? && !Blank(env.extract(f.id).markdown) && !env.ocrWriteFails(f.id) {
        var markdown, pages := env.extract(f.id).markdown, env.extract(f.id).pages;
        RestIsListed(db, todo, markdown, pages);
        OcrFromMeaning(WithOcr(db, f.id, markdown, pages), rest, env);
        WriteOne(db, todo, markdown, pages, OcrFrom(WithOcr(db, f.id, markdown, pages), rest, env));
      }
    }
  }

  /** Every text that is new is the one OCR returned for that very file. */
  ghost predicate NewTextsAreExtracted(a: seq<UploadFile>, b: seq<UploadFile>, env: Env) {
    && |a| == |b|
    && forall i | 0 <= i < |a| ::
      || b[i] == a[i]
      || (env.extract(a[i].id).Extracted?
          && b[i] == a[i].(
               ocrMarkdown := Some(env.extract(a[i].id).markdown), pageCount := Some(env.extract(a[i].id).pages)))
  }

  lemma {:induction false} OcrFromTexts(db: Database, todo: seq<UploadFile>, env: Env)
    ensures NewTextsAreExtracted(db.files, OcrFrom(db, todo, env).db.files, env)
    decreases |todo|
  {
    if todo != [] {
      var id := todo[0].id;
      if HasOcr(todo[0]) {
        OcrFromTexts(db, todo[1..], env);
      } else if env.extract(id).Extracted? {
        var mid := WithOcr(db, id, env.extract(id).markdown, env.extract(id).pages);
        assert NewTextsAreExtracted(db.files, mid.files, env);
        OcrFromTexts(mid, todo[1..], env);
      }
    }
  }

  lemma WrittenHasText(db: Database, f: UploadFile, markdown: string, pages: int)
    requires !Blank(markdown)
    ensures HasTextFor(WithOcr(db, f.id, markdown, pages).files, f.id)
  {
    var files' := WithOcr(db, f.id, markdown, pages).files;
    forall g | g in files' && g.id == f.id ensures HasOcr(g) {
      var i: nat :| i < |files'| && files'[i] == g;
      assert g == WithText(db.files[i], f.id, markdown, pages);
    }
  }

  lemma FilesOfMembers(db: Database, u: Uuid)
    ensures forall f | f in FilesOf(db, u) :: f in db.files && f.uploadId == u
    ensures forall f | f in db.files && f.uploadId == u :: f in FilesOf(db, u)
  {
    FilterMembers(db.files, OfUpload(u));
    OrderByMembers(ByPosition, Filter(db.files, OfUpload(u)));
  }

  lemma {:induction false} FilterKeepsUnique(files: seq<UploadFile>, p: UploadFile -> bool)
    requires UniqueFileIds(files)
    ensures UniqueFileIds(Filter(files, p))
  {
    if files != [] {
      FilterKeepsUnique(files[1..], p);
      FilterMembers(files[1..], p);
      forall j | 0 <= j < |Filter(files[1..], p)| ensures Filter(files[1..], p)[j].id != files[0].id {
        var g := Filter(files[1..], p)[j];
        assert g in files[1..];
        var k: nat :| k < |files[1..]| && files[1..][k] == g;
        assert files[k+1] == g;
      }
    }
  }

  lemma {:induction false} InsertKeepsUnique(x: UploadFile, xs: seq<UploadFile>)
    requires UniqueFileIds(xs) && forall f | f in xs :: f.id != x.id
    ensures UniqueFileIds(Insert(ByPosition, x, xs))
  {
    if xs != [] && !ByPosition(x, xs[0]) {
      var rest := Insert(ByPosition, x, xs[1..]);
      InsertKeepsUnique(x, xs[1..]);
      InsertMembers(ByPosition, x, xs[1..]);
      forall j | 0 <= j < |rest| ensures rest[j].id != xs[0].id {
        assert rest[j] in rest;
        if rest[j] != x {
          var k: nat :| k < |xs[1..]| && xs[1..][k] == rest[j];
          assert xs[k+1] == rest[j];
        }
      }
    }
  }

  lemma {:induction false} OrderByKeepsUnique(xs: seq<UploadFile>)
    requires UniqueFileIds(xs)
    ensures UniqueFileIds(OrderBy(ByPosition, xs))
  {
    if xs != [] {
      OrderByKeepsUnique(xs[1..]);
      OrderByMembers(ByPosition, xs[1..]);
      forall f | f in OrderBy(ByPosition, xs[1..]) ensures f.id != xs[0].id {
        var k: nat :| k < |xs[1..]| && xs[1..][k] == f;
        assert xs[k+1] == f;
      }
      InsertKeepsUnique(xs[0], OrderBy(ByPosition, xs[1..]));
    }
  }

  lemma FilesOfUnique(db: Database, u: Uuid)
    requires UniqueFileIds(db.files)
    ensures UniqueFileIds(FilesOf(db, u))
  {
    FilterKeepsUnique(db.files, OfUpload(u));
    OrderByKeepsUnique(Filter(db.files, OfUpload(u)));
  }

  /** The upload has files and all of them have their text. */
  predicate Ready(db: Database, u: Uuid) {
    StatementsReady(FilesOf(db, u))
  }

  lemma ReadyMeaning(db: Database, u: Uuid)
    ensures Ready(db, u) <==>
      (exists f :: f in db.files && f.uploadId == u) && (forall f | f in db.files && f.uploadId == u :: HasOcr(f))
  {
    FilesOfMembers(db, u);
    var files := FilesOf(db, u);
    if files != [] { assert files[0] in files; }
    if Ready(db, u) {
      forall f | f in db.files && f.uploadId == u ensures HasOcr(f) {
        assert f in files;
      }
    } else if files != [] {
      var i :| 0 <= i < |files| && !HasOcr(files[i]);
      assert files[i] in files;
    }
  }

  lemma ProgressKeepsReady(db: Database, db': Database, u: Uuid)
    requires Progress(db.files, db'.files) && Ready(db, u)
    ensures Ready(db', u)
  {
    ReadyMeaning(db, u);
    ReadyMeaning(db', u);
    var f :| f in db.files && f.uploadId == u;
    var k: nat :| k < |db.files| && db.files[k] == f;
    assert db'.files[k] in db'.files && db'.files[k].uploadId == u;
    forall g | g in db'.files && g.uploadId == u ensures HasOcr(g) {
      var i: nat :| i < |db'.files| && db'.files[i] == g;
      assert db.files[i] in db.files;
    }
  }

  lemma AllTextsAreReady(db: Database, db': Database, u: Uuid)
    requires Progress(db.files, db'.files) && FilesOf(db, u) != []
    requires forall f | f in FilesOf(db, u) :: HasTextFor(db'.files, f.id)
    ensures Ready(db', u)
  {
    FilesOfMembers(db, u);
    ReadyMeaning(db', u);
    var f := FilesOf(db, u)[0];
    assert f in FilesOf(db, u);
    var k: nat :| k < |db.files| && db.files[k] == f;
    assert db'.files[k] in db'.files && db'.files[k].uploadId == u;
    forall g | g in db'.files && g.uploadId == u ensures HasOcr(g) {
      var i: nat :| i < |db'.files| && db'.files[i] == g;
      assert db.files[i] in FilesOf(db, u);
      assert HasTextFor(db'.files, db.files[i].id);
    }
  }

  /** One attempt at the ocr step, wherever it breaks off; success leaves nothing for analyze to miss. */
  lemma OcrPassMeaning(db: Database, u: Uuid, env: Env)
    requires Consistent(db)
    ensures var r := OcrPass(db, u, env);
      && r.db == db.(files := r.db.files) && Consistent(r.db) && Progress(db.files, r.db.files)
      && r.writes == OcrCount(r.db.files) - OcrCount(db.files)
      && NewTextsAreExtracted(db.files, r.db.files, env)
      && (r.ok ==> Ready(r.db, u))
  {
    OcrFromTexts(db, FilesOf(db, u), env);
    FilesOfMembers(db, u);
    FilesOfUnique(db, u);
    OcrFromMeaning(db, FilesOf(db, u), env);
    if OcrPass(db, u, env).ok { AllTextsAreReady(db, OcrPass(db, u, env).db, u); }
  }

  /** Attempt after attempt: the writes of all of them, and whether one succeeded. */
  function OcrAttempts(db: Database, u: Uuid, envs: seq<Env>): OcrResult
    decreases |envs|
  {
    if envs == [] then OcrResult(db, false, 0)
    else
      var r := OcrPass(db, u, envs[0]);
      var rest := OcrAttempts(r.db, u, envs[1..]);
      OcrResult(rest.db, r.ok || rest.ok, r.writes + rest.writes)
  }

  /**
   However many attempts there are and wherever each stops: no text is lost or rewritten, the
   successful writes number exactly the files newly finished, and once an attempt has succeeded
   the analyze step finds every text.
   */
  lemma {:induction false} OcrResumes(db: Database, u: Uuid, envs: seq<Env>)
    requires Consistent(db)
    ensures var r := OcrAttempts(db, u, envs);
      && Consistent(r.db) && Progress(db.files, r.db.files)
      && r.writes == OcrCount(r.db.files) - OcrCount(db.files)
      && (r.ok ==> Ready(r.db, u))
    decreases |envs|
  {
    if envs != [] {
      OcrPassMeaning(db, u, envs[0]);
      var first := OcrPass(db, u, envs[0]);
      OcrResumes(first.db, u, envs[1..]);
      var rest := OcrAttempts(first.db, u, envs[1..]);
      ProgressTransitive(db.files, first.db.files, rest.db.files);
      if first.ok { ProgressKeepsReady(first.db, rest.db, u); }
    }
  }

  /******* One step *******/

  /** What the upload's analysis holds: nothing, or exactly these entries, in order, and no others. */
  ghost predicate Holds(db: Database, u: Uuid, ledger: Option<seq<Entry>>) {
    match ledger
    case None => AnalysesOf(db, u) == {}
    case Some(entries) => exists a :: AnalysesOf(db, u) == {a} && Stamps(db.transactions, {a}) == StampAll(a, entries)
  }

  /** The entries a committed analyze step stores. */
  function Delivered(u: Uuid, env: Env): seq<Entry> {
    if env.reply.Replied? && Built(env.analysisId, u, env.reply.reply).Ok?
    then Built(env.analysisId, u, env.reply.reply).value.entries else []
  }

  lemma BuiltOwner(id: Uuid, u: Uuid, reply: Option<Response>)
    ensures Built(id, u, reply).Ok? ==>
      Built(id, u, reply).value.analysis.uploadId == u && Built(id, u, reply).value.id == id
  {
    if reply.Some? { NoRowVanishes(id, u, reply.value); }
  }

  lemma AnalyzedMeaning(db: Database, u: Uuid, env: Env)
    requires Consistent(db)
    ensures var (db', ok) := Analyzed(db, u, env);
      && Consistent(db') && db' == db.(analyses := db'.analyses, transactions := db'.transactions, nextId := db'.nextId)
      && (ok ==> Ready(db, u) && Holds(db', u, Some(Delivered(u, env))))
      && (!ok ==> db' == db.(nextId := db'.nextId))
  {
    if !(env.statementFails || !StatementsReady(FilesOf(db, u)) || env.reply.LlmFailed?) {
      var built := Built(env.analysisId, u, env.reply.reply);
      BuiltOwner(env.analysisId, u, env.reply.reply);
      if built.Ok? {
        ReplaceKeepsConsistent(db, built.value, env.fault);
        ReplaceSucceedsOnlyWhenInsertable(db, built.value, env.fault);
        if ReplaceOutcome(db, built.value, env.fault).1 { ReplacedRows(db, built.value); }
      }
    }
  }

  lemma StatusMeaning(db: Database, u: Uuid, status: Status, reason: Option<string>)
    requires Consistent(db)
    ensures Consistent(WithStatus(db, u, status, reason))
    ensures AnalysesOf(WithStatus(db, u, status, reason), u) == AnalysesOf(db, u)
    ensures FilesOf(WithStatus(db, u, status, reason), u) == FilesOf(db, u)
  {
  }

  lemma HoldsSame(db: Database, db': Database, u: Uuid, ledger: Option<seq<Entry>>)
    requires Holds(db, u, ledger) && db'.analyses == db.analyses && db'.transactions == db.transactions
    ensures Holds(db', u, ledger)
  {
    assert AnalysesOf(db', u) == AnalysesOf(db, u);
  }

  lemma DeletedHolds(db: Database, u: Uuid)
    requires Consistent(db)
    ensures Consistent(Deleted(db, u)) && Holds(Deleted(db, u), u, None) && FilesOf(Deleted(db, u), u) == FilesOf(db, u)
  {
    DeletedIsConsistent(db, u);
  }

  /** The ledger after a delivery: what a committed analyze stored, nothing after a committed compensation. */
  function LedgerAfter(run: Run, db: Database, d: Delivery, ledger: Option<seq<Entry>>): Option<seq<Entry>>
    requires WellFormedRun(run)
  {
    if run.phase == Forward(ANALYZE) && Analyzed(db, run.upload, d.env).1 then Some(Delivered(run.upload, d.env))
    else if run.phase.Rollback? && Compensate(db, run.upload, d.env).1 then None
    else ledger
  }

  /** What the handler of the current hop does to the database, before any hook. */
  function Handled(run: Run, db: Database, env: Env): (Database, bool)
    requires WellFormedRun(run)
  {
    match run.phase
    case Forward(step) => Do(step, db, run.upload, env)
    case Rollback(_, _, _) => Compensate(db, run.upload, env)
    case _ => (db, false)
  }

  /** The status, with no failure reason left. */
  predicate Shows(db: Database, u: Uuid, status: Status)
    requires u in db.uploads
  {
    db.uploads[u].status == status && db.uploads[u].failureReason == None
  }

  /** What any handler keeps, and what a successful one establishes. */
  ghost predicate HandledWell(run: Run, db: Database, d: Delivery, ledger: Option<seq<Entry>>)
    requires WellFormedRun(run) && run.upload in db.uploads
  {
    var u := run.upload;
    var (db', ok) := Handled(run, db, d.env);
    && Consistent(db') && u in db'.uploads && Progress(db.files, db'.files)
    && Holds(db', u, LedgerAfter(run, db, d, ledger))
    && (ok && run.phase == Forward(MARK_PROCESSING) ==> Shows(db', u, Processing))
    && (ok && run.phase == Forward(MARK_COMPLETED) ==> Shows(db', u, Completed))
    && (ok && run.phase == Forward(OCR) ==> Ready(db', u))
    && (ok && run.phase == Forward(ANALYZE) ==> Ready(db, u) && AnalysesOf(db', u) != {})
    && (!ok || run.phase == Forward(OCR) || run.phase == Forward(ANALYZE) || run.phase.Rollback? ==>
          db'.uploads[u] == db.uploads[u])
    && (run.phase.Forward? && run.phase != Forward(ANALYZE) ==> AnalysesOf(db', u) == AnalysesOf(db, u))
  }

  lemma StatusHolds(db: Database, u: Uuid, status: Status, ledger: Option<seq<Entry>>)
    requires Consistent(db) && Holds(db, u, ledger)
    ensures var db' := WithStatus(db, u, status, None);
      Consistent(db') && Holds(db', u, ledger) && db'.files == db.files && AnalysesOf(db', u) == AnalysesOf(db, u)
  {
    StatusMeaning(db, u, status, None);
    HoldsSame(db, WithStatus(db, u, status, None), u, ledger);
  }

  lemma StatusHandled(run: Run, db: Database, d: Delivery, ledger: Option<seq<Entry>>, status: Status)
    requires Consistent(db) && Holds(db, run.upload, ledger) && run.upload in db.uploads
    requires (run.phase == Forward(MARK_PROCESSING) && status == Processing)
      || (run.phase == Forward(MARK_COMPLETED) && status == Completed)
    ensures HandledWell(run, db, d, ledger)
  {
    StatusHolds(db, run.upload, status, ledger);
    assert Handled(run, db, d.env) == StatusStep(db, run.upload, status, d.env);
    assert LedgerAfter(run, db, d, ledger) == ledger;
  }

  lemma OcrHandled(run: Run, db: Database, d: Delivery, ledger: Option<seq<Entry>>)
    requires Consistent(db) && Holds(db, run.upload, ledger) && run.upload in db.uploads && run.phase == Forward(OCR)
    ensures HandledWell(run, db, d, ledger)
  {
    OcrPassMeaning(db, run.upload, d.env);
    HoldsSame(db, Handled(run, db, d.env).0, run.upload, ledger);
  }

  lemma AnalyzeHandled(run: Run, db: Database, d: Delivery, ledger: Option<seq<Entry>>)
    requires Consistent(db) && Holds(db, run.upload, ledger) && run.upload in db.uploads
      && run.phase == Forward(ANALYZE)
    ensures HandledWell(run, db, d, ledger)
  {
    var (db', ok) := Analyzed(db, run.upload, d.env);
    assert Handled(run, db, d.env) == (db', ok);
    AnalyzedMeaning(db, run.upload, d.env);
    if !ok {
      HoldsSame(db, db', run.upload, ledger);
      assert LedgerAfter(run, db, d, ledger) == ledger;
    } else {
      assert LedgerAfter(run, db, d, ledger) == Some(Delivered(run.upload, d.env));
    }
  }

  lemma HandledMeaning(run: Run, db: Database, d: Delivery, ledger: Option<seq<Entry>>)
    requires WellFormedRun(run) && Consistent(db) && Holds(db, run.upload, ledger) && run.upload in db.uploads
    ensures HandledWell(run, db, d, ledger)
  {
    match run.phase {
      case Forward(step) =>
        if step == MARK_PROCESSING { StatusHandled(run, db, d, ledger, Processing); }
        else if step == OCR { OcrHandled(run, db, d, ledger); }
        else if step == ANALYZE { AnalyzeHandled(run, db, d, ledger); }
        else { StatusHandled(run, db, d, ledger, Completed); }
      case Rollback(_, _, _) =>
        DeletedHolds(db, run.upload);
      case _ =>
    }
  }

  /******* Run safety *******/

  /** All texts are there, and one analysis with all its rows. */
  ghost predicate Complete(db: Database, u: Uuid) {
    Ready(db, u) && AnalysesOf(db, u) != {}
  }

  /** What holds between deliveries, phase by phase. */
  ghost predicate Invariant(run: Run, db: Database, ledger: Option<seq<Entry>>) {
    && WellFormedRun(run) && Consistent(db) && run.upload in db.uploads && Holds(db, run.upload, ledger)
    && var u := run.upload;
       match run.phase
       case Forward(step) =>
         if step == MARK_PROCESSING then db.uploads[u].status == Completed ==> Complete(db, u)
         else if step == OCR then Shows(db, u, Processing)
         else if step == ANALYZE then Shows(db, u, Processing) && Ready(db, u)
         else (Shows(db, u, Processing) || Shows(db, u, Completed)) && Complete(db, u)
       case Rollback(_, _, _) => Shows(db, u, Processing) || Shows(db, u, Completed)
       case Finished => Shows(db, u, Completed) && Complete(db, u)
       case _ => db.uploads[u].status == Failed && db.uploads[u].failureReason.Some?
  }

  lemma MarkFailedMeaning(db: Database, u: Uuid, reason: string, ledger: Option<seq<Entry>>)
    requires Consistent(db) && u in db.uploads && Holds(db, u, ledger)
    ensures var db' := MarkFailed(db, u, reason, true);
      && Consistent(db') && u in db'.uploads && db'.uploads[u].status == Failed
      && db'.uploads[u].failureReason == Some(reason)
      && Holds(db', u, ledger) && db'.files == db.files && AnalysesOf(db', u) == AnalysesOf(db, u)
  {
    StatusMeaning(db, u, Failed, Some(reason));
    HoldsSame(db, MarkFailed(db, u, reason, true), u, ledger);
  }

  lemma AdvanceIsSafe(run: Run, db: Database, d: Delivery, ledger: Option<seq<Entry>>)
    requires Invariant(run, db, ledger) && HandledWell(run, db, d, ledger) && run.phase.Forward?
      && Handled(run, db, d.env).1
    ensures var step := run.phase.step;
      Invariant(run.(phase := if step == MARK_COMPLETED then Finished else Forward(step + 1), attempts := 0),
                Handled(run, db, d.env).0, LedgerAfter(run, db, d, ledger))
  {
    if Ready(db, run.upload) { ProgressKeepsReady(db, Handled(run, db, d.env).0, run.upload); }
  }

  lemma RetryIsSafe(run: Run, db: Database, d: Delivery, ledger: Option<seq<Entry>>, attempts: nat)
    requires Invariant(run, db, ledger) && HandledWell(run, db, d, ledger) && run.phase.Forward?
    ensures Invariant(run.(attempts := attempts), Handled(run, db, d.env).0, LedgerAfter(run, db, d, ledger))
  {
    if Ready(db, run.upload) { ProgressKeepsReady(db, Handled(run, db, d.env).0, run.upload); }
  }

  /** Before the last step there is nothing to compensate: the hook marks the upload failed. */
  lemma AbortIsSafe(cfg: Config, run: Run, db: Database, step: nat, cause: Cause, ledger: Option<seq<Entry>>)
    requires WellFormedRun(run) && step < MARK_COMPLETED
    requires Consistent(db) && run.upload in db.uploads && Holds(db, run.upload, ledger)
    ensures var (run', db') := Unwind(cfg, run, db, step, step, cause, true); Invariant(run', db', ledger)
  {
    assert LastCompensable(2) == LastCompensable(1) == LastCompensable(0) == -1;
    MarkFailedMeaning(db, run.upload, FailureReason(cfg, step, cause), ledger);
  }

  lemma FailIsSafe(cfg: Config, run: Run, db: Database, d: Delivery, ledger: Option<seq<Entry>>)
    requires Invariant(run, db, ledger) && HandledWell(run, db, d, ledger) && run.phase.Forward? && d.hookLands
    ensures var step := run.phase.step;
      var (run', db') := Unwind(cfg, run, Handled(run, db, d.env).0, step, step, CauseOf(cfg, d), d.hookLands);
      Invariant(run', db', LedgerAfter(run, db, d, ledger))
  {
    var step, mid := run.phase.step, Handled(run, db, d.env).0;
    if step < MARK_COMPLETED {
      AbortIsSafe(cfg, run, mid, step, CauseOf(cfg, d), LedgerAfter(run, db, d, ledger));
    } else {
      assert LastCompensable(3) == 2;
    }
  }

  lemma ForwardIsSafe(cfg: Config, run: Run, db: Database, d: Delivery, ledger: Option<seq<Entry>>)
    requires Invariant(run, db, ledger) && run.phase.Forward? && d.hookLands
    ensures var (run', db') := ForwardStep(cfg, run, db, d); Invariant(run', db', LedgerAfter(run, db, d, ledger))
  {
    HandledMeaning(run, db, d, ledger);
    if Handled(run, db, d.env).1 && d.acked {
      AdvanceIsSafe(run, db, d, ledger);
    } else if run.attempts < cfg.maxRetry {
      RetryIsSafe(run, db, d, ledger, run.attempts + 1);
    } else {
      FailIsSafe(cfg, run, db, d, ledger);
    }
  }

  lemma RollbackIsSafe(cfg: Config, run: Run, db: Database, d: Delivery, ledger: Option<seq<Entry>>)
    requires Invariant(run, db, ledger) && run.phase.Rollback? && d.hookLands
    ensures var (run', db') := RollbackStep(cfg, run, db, d); Invariant(run', db', LedgerAfter(run, db, d, ledger))
  {
    var u, ledger' := run.upload, LedgerAfter(run, db, d, ledger);
    HandledMeaning(run, db, d, ledger);
    DeliverKeepsForm(cfg, run, db, d);
    RollbackCases(cfg, run, db, d);
    var mid := Compensate(db, u, d.env).0;
    MarkFailedMeaning(mid, u, FailureReason(cfg, run.phase.failed, run.phase.cause), ledger');
    MarkFailedMeaning(mid, u, RollbackReason(cfg, run.phase.at, CauseOf(cfg, d)), ledger');
  }

  /** One delivery keeps the invariant, provided a terminal hook's write lands. */
  lemma DeliveryIsSafe(cfg: Config, run: Run, db: Database, d: Delivery, ledger: Option<seq<Entry>>)
    requires Invariant(run, db, ledger) && d.hookLands
    ensures var (run', db') := Deliver(cfg, run, db, d); Invariant(run', db', LedgerAfter(run, db, d, ledger))
  {
    if run.phase.Forward? { ForwardIsSafe(cfg, run, db, d, ledger); }
    else if run.phase.Rollback? { RollbackIsSafe(cfg, run, db, d, ledger); }
  }

  /** Runs of one upload follow one another: a delivery of the current run, or a new run once it has ended. */
  datatype Event = Delivers(delivery: Delivery) | Enqueues

  /** A run, the database, and the entries the last committed analyze step stored and none has removed. */
  datatype Moment = Moment(run: Run, db: Database, ledger: Option<seq<Entry>>)

  function After(cfg: Config, m: Moment, e: Event): Moment
    requires WellFormedRun(m.run)
  {
    match e
    case Delivers(d) =>
      var (run, db) := Deliver(cfg, m.run, m.db, d);
      Moment(run, db, LedgerAfter(m.run, m.db, d, m.ledger))
    case Enqueues => if Terminal(m.run.phase) then m.(run := Start(m.run.upload)) else m
  }

  lemma AfterKeepsForm(cfg: Config, m: Moment, e: Event)
    requires WellFormedRun(m.run)
    ensures WellFormedRun(After(cfg, m, e).run) && After(cfg, m, e).run.upload == m.run.upload
  {
    if e.Delivers? { DeliverKeepsForm(cfg, m.run, m.db, e.delivery); }
  }

  function History(cfg: Config, m: Moment, es: seq<Event>): Moment
    requires WellFormedRun(m.run)
    decreases |es|
  {
    if es == [] then m
    else
      AfterKeepsForm(cfg, m, es[0]);
      History(cfg, After(cfg, m, es[0]), es[1..])
  }

  ghost predicate HooksLand(es: seq<Event>) {
    forall i | 0 <= i < |es| :: es[i].Delivers? ==> es[i].delivery.hookLands
  }

  lemma {:induction false} HistoryIsSafe(cfg: Config, m: Moment, es: seq<Event>)
    requires Invariant(m.run, m.db, m.ledger) && HooksLand(es)
    ensures var end := History(cfg, m, es); Invariant(end.run, end.db, end.ledger) && end.run.upload == m.run.upload
    decreases |es|
  {
    if es != [] {
      var next := After(cfg, m, es[0]);
      AfterKeepsForm(cfg, m, es[0]);
      if es[0].Delivers? { DeliveryIsSafe(cfg, m.run, m.db, es[0].delivery, m.ledger); }
      HistoryIsSafe(cfg, next, es[1..]);
    }
  }

  /**
   Run safety.  Over any runs of an upload with any errors, retries and redeliveries, a status of
   completed outside a rollback means that every file has its text and that exactly one analysis is
   stored, holding exactly the entries of the last reply that was stored.
   */
  lemma CompletedMeansComplete(cfg: Config, u: Uuid, db: Database, es: seq<Event>)
    requires Consistent(db) && u in db.uploads && db.uploads[u].status != Completed && AnalysesOf(db, u) == {}
      && HooksLand(es)
    ensures var end := History(cfg, Moment(Start(u), db, None), es);
      u in end.db.uploads && end.db.uploads[u].status == Completed && !end.run.phase.Rollback? ==>
        && Ready(end.db, u)
        && end.ledger.Some?
        && exists a :: AnalysesOf(end.db, u) == {a} && Stamps(end.db.transactions, {a}) == StampAll(a, end.ledger.value)
  {
    var m := Moment(Start(u), db, None);
    HistoryIsSafe(cfg, m, es);
  }

  /**
   The status tells how the last run ended: completed exactly when it finished, failed with a reason
   exactly when a hook ended it.  While a run is past its first step and not rolling back, no reason
   of an earlier failure is shown.
   */
  lemma OutcomeIsShown(cfg: Config, u: Uuid, db: Database, es: seq<Event>)
    requires Consistent(db) && u in db.uploads && db.uploads[u].status != Completed && AnalysesOf(db, u) == {}
      && HooksLand(es)
    ensures var end := History(cfg, Moment(Start(u), db, None), es); var phase := end.run.phase;
      && u in end.db.uploads
      && (Terminal(phase) ==>
           && (end.db.uploads[u].status == Completed <==> phase.Finished?)
           && (end.db.uploads[u].status == Failed <==> !phase.Finished?)
           && (end.db.uploads[u].failureReason.Some? <==> !phase.Finished?))
      && (phase.Forward? && phase.step > MARK_PROCESSING ==>
            Shows(end.db, u, Processing) || (phase.step == MARK_COMPLETED && Shows(end.db, u, Completed)))
  {
    HistoryIsSafe(cfg, Moment(Start(u), db, None), es);
  }

  /******* Rollback *******/

  /** Some analyze delivery took effect without being acknowledged. */
  predicate LostCommit(cfg: Config, run: Run, db: Database, ds: seq<Delivery>)
    requires WellFormedRun(run)
    decreases |ds|
  {
    ds != [] &&
    (|| (run.phase == Forward(ANALYZE) && !ds[0].acked && Analyzed(db, run.upload, ds[0].env).1)
     || (DeliverKeepsForm(cfg, run, db, ds[0]);
         var (run', db') := Deliver(cfg, run, db, ds[0]);
         LostCommit(cfg, run', db', ds[1..])))
  }

  /**
   The hop's handler can only add the upload's analysis by committing an analyze step, or remove it
   by compensating.
   */
  lemma HandledAnalyses(run: Run, db: Database, env: Env)
    requires WellFormedRun(run) && Consistent(db) && run.upload in db.uploads
    ensures var (db', ok) := Handled(run, db, env);
      && Consistent(db') && run.upload in db'.uploads && Progress(db.files, db'.files)
      && (ok && run.phase == Forward(ANALYZE) ==> AnalysesOf(db', run.upload) != {})
      && (ok && run.phase.Rollback? ==> AnalysesOf(db', run.upload) == {})
      && (!ok || (run.phase.Forward? && run.phase != Forward(ANALYZE)) ==>
            AnalysesOf(db', run.upload) == AnalysesOf(db, run.upload))
  {
    var u := run.upload;
    if run.phase.Forward? {
      var step := run.phase.step;
      if step == OCR { OcrPassMeaning(db, u, env); }
      else if step == ANALYZE { AnalyzedMeaning(db, u, env); }
      else { StatusMeaning(db, u, if step == MARK_PROCESSING then Processing else Completed, None); }
    } else if run.phase.Rollback? {
      DeletedIsConsistent(db, u);
    }
  }

  lemma HookAnalyses(db: Database, u: Uuid, reason: string, lands: bool)
    requires Consistent(db) && u in db.uploads
    ensures var db' := MarkFailed(db, u, reason, lands);
      Consistent(db') && u in db'.uploads && db'.files == db.files && AnalysesOf(db', u) == AnalysesOf(db, u)
  {
    StatusMeaning(db, u, Failed, Some(reason));
  }

  /** One of the two forms a hook's reason has. */
  ghost predicate HookReason(cfg: Config, reason: string, step: nat, cause: Cause) {
    step <= 3 && (reason == FailureReason(cfg, step, cause) || reason == RollbackReason(cfg, step, cause))
  }

  /** What a delivery leaves is what its handler left, with a hook's write on top at most. */
  lemma HandledThenHook(cfg: Config, run: Run, db: Database, d: Delivery) returns (reason: string, hooked: bool)
    requires WellFormedRun(run) && !Terminal(run.phase)
    ensures exists step, cause :: HookReason(cfg, reason, step, cause)
    ensures var mid := Handled(run, db, d.env).0;
      Deliver(cfg, run, db, d).1 == if hooked then MarkFailed(mid, run.upload, reason, d.hookLands) else mid
  {
    var next := Deliver(cfg, run, db, d).0;
    hooked := Terminal(next.phase) && !next.phase.Finished?;
    reason :=
      if run.phase.Forward? then FailureReason(cfg, run.phase.step, CauseOf(cfg, d))
      else if next.phase.Stuck? then RollbackReason(cfg, run.phase.at, CauseOf(cfg, d))
      else FailureReason(cfg, run.phase.failed, run.phase.cause);
    if run.phase.Forward? {
      assert HookReason(cfg, reason, run.phase.step, CauseOf(cfg, d));
    } else if next.phase.Stuck? {
      assert HookReason(cfg, reason, run.phase.at, CauseOf(cfg, d));
    } else {
      assert HookReason(cfg, reason, run.phase.failed, run.phase.cause);
    }
  }

  /** A delivery and what it does to the upload's analysis. */
  lemma DeliveredAnalyses(cfg: Config, run: Run, db: Database, d: Delivery)
    requires WellFormedRun(run) && Consistent(db) && run.upload in db.uploads
    ensures var (run', db') := Deliver(cfg, run, db, d);
      && Consistent(db') && run.upload in db'.uploads && Progress(db.files, db'.files)
      && (Terminal(run.phase) || AnalysesOf(db', run.upload) == AnalysesOf(Handled(run, db, d.env).0, run.upload))
  {
    if !Terminal(run.phase) {
      HandledAnalyses(run, db, d.env);
      var reason, hooked := HandledThenHook(cfg, run, db, d);
      HookAnalyses(Handled(run, db, d.env).0, run.upload, reason, d.hookLands);
    }
  }

  /** A rollback that ends in onFailed leaves no analysis. */
  lemma {:induction false} RollbackClears(cfg: Config, run: Run, db: Database, ds: seq<Delivery>)
    requires WellFormedRun(run) && run.phase.Rollback? && Consistent(db) && run.upload in db.uploads
    ensures var (run', db') := Execute(cfg, run, db, ds);
      run'.phase.Aborted? ==> run'.phase.failed == run.phase.failed && AnalysesOf(db', run.upload) == {}
    decreases |ds|
  {
    if ds != [] {
      var (run', db') := Deliver(cfg, run, db, ds[0]);
      DeliverKeepsForm(cfg, run, db, ds[0]);
      RollbackCases(cfg, run, db, ds[0]);
      HandledAnalyses(run, db, ds[0].env);
      DeliveredAnalyses(cfg, run, db, ds[0]);
      if run'.phase.Rollback? {
        RollbackClears(cfg, run', db', ds[1..]);
      } else {
        TerminalStays(cfg, run', db', ds[1..]);
      }
    }
  }

  /** From mark_completed on, a run that ends in onFailed names that step and leaves no analysis. */
  lemma {:induction false} LastStepClears(cfg: Config, run: Run, db: Database, ds: seq<Delivery>)
    requires run.phase == Forward(MARK_COMPLETED) && Consistent(db) && run.upload in db.uploads
    ensures var (run', db') := Execute(cfg, run, db, ds);
      run'.phase.Aborted? ==> run'.phase.failed == MARK_COMPLETED && AnalysesOf(db', run.upload) == {}
    decreases |ds|
  {
    if ds != [] {
      var (run', db') := Deliver(cfg, run, db, ds[0]);
      DeliverKeepsForm(cfg, run, db, ds[0]);
      ForwardCases(cfg, run, db, ds[0]);
      DeliveredAnalyses(cfg, run, db, ds[0]);
      assert LastCompensable(3) == 2;
      if run'.phase.Rollback? {
        RollbackClears(cfg, run', db', ds[1..]);
      } else if run'.phase == Forward(MARK_COMPLETED) {
        LastStepClears(cfg, run', db', ds[1..]);
      } else {
        TerminalStays(cfg, run', db', ds[1..]);
      }
    }
  }

  /**
   Rollback, exactly.  A run that ends through onFailed leaves an analysis behind if and only if it
   failed before its last step and either one was stored when it began or an analyze delivery took
   effect without being acknowledged.
   */
  lemma {:induction false} FailedLeavesAnalysisIff(cfg: Config, run: Run, db: Database, ds: seq<Delivery>)
    requires WellFormedRun(run) && run.phase.Forward? && run.phase.step <= ANALYZE && Consistent(db)
      && run.upload in db.uploads
    ensures var (run', db') := Execute(cfg, run, db, ds);
      run'.phase.Aborted? ==>
        (AnalysesOf(db', run.upload) != {}
         <==> run'.phase.failed < MARK_COMPLETED && (AnalysesOf(db, run.upload) != {} || LostCommit(cfg, run, db, ds)))
    decreases |ds|
  {
    if ds != [] {
      var (run', db') := Deliver(cfg, run, db, ds[0]);
      DeliverKeepsForm(cfg, run, db, ds[0]);
      ForwardCases(cfg, run, db, ds[0]);
      HandledAnalyses(run, db, ds[0].env);
      DeliveredAnalyses(cfg, run, db, ds[0]);
      if Terminal(run'.phase) {
        TerminalStays(cfg, run', db', ds[1..]);
        TerminalLosesNothing(cfg, run', db', ds[1..]);
      } else if run'.phase == Forward(MARK_COMPLETED) {
        LastStepClears(cfg, run', db', ds[1..]);
      } else {
        FailedLeavesAnalysisIff(cfg, run', db', ds[1..]);
      }
    }
  }

  lemma {:induction false} TerminalLosesNothing(cfg: Config, run: Run, db: Database, ds: seq<Delivery>)
    requires WellFormedRun(run) && Terminal(run.phase)
    ensures !LostCommit(cfg, run, db, ds)
    decreases |ds|
  {
    if ds != [] {
      TerminalLosesNothing(cfg, run, db, ds[1..]);
    }
  }

  ghost predicate AllAcked(ds: seq<Delivery>) {
    forall i | 0 <= i < |ds| :: ds[i].acked
  }

  ghost predicate AllLand(ds: seq<Delivery>) {
    forall i | 0 <= i < |ds| :: ds[i].hookLands
  }

  lemma {:induction false} AckedLosesNothing(cfg: Config, run: Run, db: Database, ds: seq<Delivery>)
    requires WellFormedRun(run) && AllAcked(ds)
    ensures !LostCommit(cfg, run, db, ds)
    decreases |ds|
  {
    if ds != [] {
      DeliverKeepsForm(cfg, run, db, ds[0]);
      var (run', db') := Deliver(cfg, run, db, ds[0]);
      AckedLosesNothing(cfg, run', db', ds[1..]);
    }
  }

  /** The upload is marked failed, and its reason names the step. */
  ghost predicate MarkedFailed(db: Database, u: Uuid, step: nat)
    requires step <= 3
  {
    && u in db.uploads && db.uploads[u].status == Failed
    && db.uploads[u].failureReason.Some? && StepName(step) + ": " <= db.uploads[u].failureReason.value
  }

  lemma ReasonNamesStep(cfg: Config, step: nat, cause: Cause)
    requires step <= 3
    ensures StepName(step) + ": " <= FailureReason(cfg, step, cause)
  {
    var reason := StepName(step) + ": " + Rendered(cfg.secrets, cause);
    assert |reason| <= MAX_FAILURE_REASON_BYTES;
  }

  /**
   Whatever happens, the texts stay, and a run that ends through onFailed is marked failed under the
   step that failed.
   */
  lemma {:induction false} FailureIsRecorded(cfg: Config, run: Run, db: Database, ds: seq<Delivery>)
    requires WellFormedRun(run) && !Terminal(run.phase) && Consistent(db) && run.upload in db.uploads && AllLand(ds)
    ensures var (run', db') := Execute(cfg, run, db, ds);
      && WellFormedRun(run') && Consistent(db') && Progress(db.files, db'.files)
      && (run'.phase.Aborted? ==> MarkedFailed(db', run.upload, run'.phase.failed))
    decreases |ds|
  {
    if ds != [] {
      var (run', db') := Deliver(cfg, run, db, ds[0]);
      DeliverKeepsForm(cfg, run, db, ds[0]);
      DeliveredAnalyses(cfg, run, db, ds[0]);
      if Terminal(run'.phase) {
        TerminalStays(cfg, run', db', ds[1..]);
        RecordedAtOnce(cfg, run, db, ds[0]);
      } else {
        FailureIsRecorded(cfg, run', db', ds[1..]);
        ProgressTransitive(db.files, db'.files, Execute(cfg, run', db', ds[1..]).1.files);
      }
    }
  }

  lemma RecordedAtOnce(cfg: Config, run: Run, db: Database, d: Delivery)
    requires WellFormedRun(run) && !Terminal(run.phase) && Consistent(db) && run.upload in db.uploads && d.hookLands
    ensures var (run', db') := Deliver(cfg, run, db, d);
      WellFormedRun(run') && (run'.phase.Aborted? ==> MarkedFailed(db', run.upload, run'.phase.failed))
  {
    DeliverKeepsForm(cfg, run, db, d);
    HandledAnalyses(run, db, d.env);
    if run.phase.Forward? {
      ReasonNamesStep(cfg, run.phase.step, CauseOf(cfg, d));
    } else {
      ReasonNamesStep(cfg, run.phase.failed, run.phase.cause);
    }
  }

  /**
   Rollback, as the design states it.  When no acknowledgement is lost, a run that starts with no
   analysis and ends through onFailed leaves no analysis and no transactions of the upload, keeps
   every text, and stores failed with a reason that begins with the failing step's name.
   */
  lemma FailedRunIsRolledBack(cfg: Config, u: Uuid, db: Database, ds: seq<Delivery>)
    requires Consistent(db) && u in db.uploads && AnalysesOf(db, u) == {} && AllAcked(ds) && AllLand(ds)
    ensures var (run, db') := Execute(cfg, Start(u), db, ds);
      run.phase.Aborted? ==>
        && run.phase.failed <= 3 && MarkedFailed(db', u, run.phase.failed)
        && AnalysesOf(db', u) == {} && FootprintOf(db', u).rows == []
        && Progress(db.files, db'.files)
  {
    FailedLeavesAnalysisIff(cfg, Start(u), db, ds);
    AckedLosesNothing(cfg, Start(u), db, ds);
    FailureIsRecorded(cfg, Start(u), db, ds);
    FilterNone(Execute(cfg, Start(u), db, ds).1.transactions, In({}));
  }

  /******* The stored reason *******/

  lemma {:induction false} SpaceSeparates(a: string, b: string, t: string)
    requires t != "" && ' ' !in t
    ensures Contains(a + " " + b, t) <==> Contains(a, t) || Contains(b, t)
  {
    if Contains(a, t) {
      ContainsLeft(a, " " + b, t);
      assert a + (" " + b) == a + " " + b;
    }
    if Contains(b, t) { ContainsRight(a + " ", b, t); }
    if Contains(a + " " + b, t) {
      assert JoinSpace([a, b]) == a + " " + b;
      var i: nat :| i <= |a + " " + b| && OccursAt(a + " " + b, t, i);
      OccursInJoined([a, b], t, i);
    }
  }

  /** The final cut changes no reason, for any configuration, step and cause. */
  lemma ReasonIsUncut(cfg: Config, step: nat, cause: Cause)
    requires step <= 3
    ensures FailureReason(cfg, step, cause) == StepName(step) + ": " + Rendered(cfg.secrets, cause)
    ensures RollbackReason(cfg, step, cause) == StepName(step) + ": rollback failed: " + Rendered(cfg.secrets, cause)
  {
  }

  /**
   What a failed run stores: the step's name, a colon, and the error scrubbed once; the second scrub
   in the hook and the final cut change nothing, and no secret shows except in the step's own name.
   */
  lemma StoredReason(cfg: Config, step: nat, text: string, secret: string)
    requires step <= 3 && AllScrubbable(cfg.secrets)
    ensures var clean := Cleaned(cfg.secrets, text); var reason := FailureReason(cfg, step, Reported(clean));
      && reason == StepName(step) + ": " + clean
      && (secret in cfg.secrets && ' ' !in secret ==>
            (Contains(reason, secret) <==> Contains(StepName(step) + ":", secret)))
  {
    var clean := Cleaned(cfg.secrets, text);
    CleanIsIdempotent(cfg.secrets, text);
    ReasonIsUncut(cfg, step, Reported(clean));
    if secret in cfg.secrets && ' ' !in secret {
      NoSecretSurvives(cfg.secrets, text, secret);
      assert StepName(step) + ": " + clean == StepName(step) + ":" + " " + clean;
      SpaceSeparates(StepName(step) + ":", clean, secret);
    }
  }

  /** The same for a rollback that could not finish. */
  lemma StoredRollbackReason(cfg: Config, step: nat, text: string, secret: string)
    requires step <= 3 && AllScrubbable(cfg.secrets)
    ensures var clean := Cleaned(cfg.secrets, text); var reason := RollbackReason(cfg, step, Reported(clean));
      && reason == StepName(step) + ": rollback failed: " + clean
      && (secret in cfg.secrets && ' ' !in secret ==>
            (Contains(reason, secret) <==> Contains(StepName(step) + ": rollback failed:", secret)))
  {
    var lead, clean := StepName(step) + ": rollback failed:", Cleaned(cfg.secrets, text);
    CleanIsIdempotent(cfg.secrets, text);
    ReasonIsUncut(cfg, step, Reported(clean));
    if secret in cfg.secrets && ' ' !in secret {
      NoSecretSurvives(cfg.secrets, text, secret);
      assert StepName(step) + ": rollback failed: " + clean == lead + " " + clean;
      SpaceSeparates(lead, clean, secret);
    }
  }

  /******* No reason reveals a secret *******/

  /** The secret is part of what the pipeline writes itself. */
  ghost predicate InOwnWords(secret: string) {
    Contains(NO_REASON, secret) || exists step | 0 <= step <= 3 ::
      Contains(StepName(step) + ": rollback failed:", secret)
  }

  ghost predicate Reveals(db: Database, u: Uuid, secret: string) {
    u in db.uploads && db.uploads[u].failureReason.Some? && Contains(db.uploads[u].failureReason.value, secret)
  }

  ghost predicate WellHidden(cfg: Config, secret: string) {
    secret in cfg.secrets && Scrubbable(secret) && ' ' !in secret && !InOwnWords(secret)
  }

  lemma RenderedHides(cfg: Config, cause: Cause, secret: string)
    requires WellHidden(cfg, secret)
    ensures !Contains(Rendered(cfg.secrets, cause), secret) && |Rendered(cfg.secrets, cause)| <= MAX_ERROR_MESSAGE_BYTES
  {
    if cause.Reported? { NoSecretSurvives(cfg.secrets, cause.text, secret); }
  }

  lemma FailureHides(cfg: Config, step: nat, cause: Cause, secret: string)
    requires WellHidden(cfg, secret) && step <= 3
    ensures !Contains(FailureReason(cfg, step, cause), secret)
  {
    var r, lead := Rendered(cfg.secrets, cause), StepName(step) + ":";
    RenderedHides(cfg, cause, secret);
    assert !Contains(StepName(step) + ": rollback failed:", secret);
    assert StepName(step) + ": rollback failed:" == lead + " rollback failed:";
    if Contains(lead, secret) { ContainsLeft(lead, " rollback failed:", secret); }
    SpaceSeparates(lead, r, secret);
    assert StepName(step) + ": " + r == lead + " " + r;
  }

  lemma RollbackHides(cfg: Config, step: nat, cause: Cause, secret: string)
    requires WellHidden(cfg, secret) && step <= 3
    ensures !Contains(RollbackReason(cfg, step, cause), secret)
  {
    var r, lead := Rendered(cfg.secrets, cause), StepName(step) + ": rollback failed:";
    RenderedHides(cfg, cause, secret);
    assert !Contains(lead, secret);
    SpaceSeparates(lead, r, secret);
    assert StepName(step) + ": rollback failed: " + r == lead + " " + r;
  }

  lemma ReasonHides(cfg: Config, reason: string, step: nat, cause: Cause, secret: string)
    requires WellHidden(cfg, secret) && HookReason(cfg, reason, step, cause)
    ensures !Contains(reason, secret)
  {
    FailureHides(cfg, step, cause, secret);
    RollbackHides(cfg, step, cause, secret);
  }

  /** A handler leaves the reason as it is or clears it. */
  lemma HandledReveals(run: Run, db: Database, env: Env, secret: string)
    requires WellFormedRun(run) && Consistent(db) && run.upload in db.uploads && !Reveals(db, run.upload, secret)
    ensures !Reveals(Handled(run, db, env).0, run.upload, secret)
  {
    if run.phase == Forward(OCR) { OcrPassMeaning(db, run.upload, env); }
    if run.phase == Forward(ANALYZE) { AnalyzedMeaning(db, run.upload, env); }
  }

  lemma DeliveryReveals(cfg: Config, run: Run, db: Database, d: Delivery, secret: string)
    requires WellFormedRun(run) && Consistent(db) && run.upload in db.uploads && !Reveals(db, run.upload, secret)
      && WellHidden(cfg, secret)
    ensures !Reveals(Deliver(cfg, run, db, d).1, run.upload, secret)
  {
    if !Terminal(run.phase) {
      HandledReveals(run, db, d.env, secret);
      var reason, hooked := HandledThenHook(cfg, run, db, d);
      var step, cause :| HookReason(cfg, reason, step, cause);
      ReasonHides(cfg, reason, step, cause, secret);
    }
  }

  /** Over any runs of an upload, whatever fails and whatever an error quotes, the stored reason reveals no secret. */
  lemma {:induction false} HistoryRevealsNothing(cfg: Config, m: Moment, es: seq<Event>, secret: string)
    requires WellFormedRun(m.run) && Consistent(m.db) && m.run.upload in m.db.uploads
    requires !Reveals(m.db, m.run.upload, secret) && WellHidden(cfg, secret)
    ensures !Reveals(History(cfg, m, es).db, m.run.upload, secret)
    decreases |es|
  {
    if es != [] {
      AfterKeepsForm(cfg, m, es[0]);
      if es[0].Delivers? {
        DeliveredAnalyses(cfg, m.run, m.db, es[0].delivery);
        DeliveryReveals(cfg, m.run, m.db, es[0].delivery, secret);
      }
      HistoryRevealsNothing(cfg, After(cfg, m, es[0]), es[1..], secret);
    }
  }
}
