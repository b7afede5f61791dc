/**
 Sagas of different uploads do not interfere: whatever the order in which their hops are delivered,
 each upload ends as if only its own hops had run.
 */
module Interleaving {
  import opened Groups
  import opened Tables
  import opened Scrub
  import opened Convert
  import opened Store
  import opened StoreLaws
  import opened Saga
  import opened SagaLaws

  /** The upload that draws a uuid; distinct draws give distinct uuids, so it is a function. */
  type Owner = Uuid -> Uuid

  ghost predicate WellOwned(db: Database, own: Owner) {
    forall a | a in db.analyses :: own(a) == db.analyses[a].uploadId
  }

  /******* A handler sees and changes only its upload's footprint *******/

  lemma FilesFromFootprint(db: Database, db2: Database, u: Uuid)
    requires FootprintOf(db, u) == FootprintOf(db2, u)
    ensures FilesOf(db, u) == FilesOf(db2, u)
  {
  }

  /** Every row with the id of a listed file belongs to the upload. */
  ghost predicate OwnsIds(db: Database, u: Uuid, todo: seq<UploadFile>) {
    forall f, g | f in db.files && g in todo && f.id == g.id :: f.uploadId == u
  }

  lemma WriteKeepsOwnership(db: Database, u: Uuid, todo: seq<UploadFile>, id: Uuid, markdown: string, pages: int)
    requires OwnsIds(db, u, todo)
    ensures OwnsIds(WithOcr(db, id, markdown, pages), u, todo)
  {
    var files := WithOcr(db, id, markdown, pages).files;
    forall f, g | f in files && g in todo && f.id == g.id ensures f.uploadId == u {
      var i: nat :| i < |files| && files[i] == f;
      assert db.files[i] in db.files && db.files[i].id == f.id;
    }
  }

  lemma {:induction false} OcrFromFrame(db: Database, u: Uuid, v: Uuid, todo: seq<UploadFile>, env: Env)
    requires OwnsIds(db, u, todo) && v != u
    ensures FootprintOf(OcrFrom(db, todo, env).db, v) == FootprintOf(db, v)
    decreases |todo|
  {
    if todo != [] {
      var f, rest := todo[0], todo[1..];
      assert f in todo;
      assert OwnsIds(db, u, rest);
      if HasOcr(f) {
        OcrFromFrame(db, u, v, rest, env);
      } else {
        match env.extract(f.id)
        case Extracted(markdown, pages) =>
          OcrFootprint(db, f.id, markdown, pages, u, v);
          WriteKeepsOwnership(db, u, rest, f.id, markdown, pages);
          OcrFromFrame(WithOcr(db, f.id, markdown, pages), u, v, rest, env);
        case _ =>
      }
    }
  }

  lemma {:induction false} OcrFromSame(db: Database, db2: Database, u: Uuid, todo: seq<UploadFile>, env: Env)
    requires OwnsIds(db, u, todo) && OwnsIds(db2, u, todo) && FootprintOf(db, u) == FootprintOf(db2, u)
    ensures FootprintOf(OcrFrom(db, todo, env).db, u) == FootprintOf(OcrFrom(db2, todo, env).db, u)
    ensures OcrFrom(db, todo, env).ok == OcrFrom(db2, todo, env).ok
    decreases |todo|
  {
    if todo != [] {
      var f, rest := todo[0], todo[1..];
      assert f in todo;
      assert OwnsIds(db, u, rest) && OwnsIds(db2, u, rest);
      if HasOcr(f) {
        OcrFromSame(db, db2, u, rest, env);
      } else {
        match env.extract(f.id)
        case Extracted(markdown, pages) =>
          OcrFootprint(db, f.id, markdown, pages, u, u);
          OcrFootprint(db2, f.id, markdown, pages, u, u);
          WriteKeepsOwnership(db, u, rest, f.id, markdown, pages);
          WriteKeepsOwnership(db2, u, rest, f.id, markdown, pages);
          OcrFromSame(WithOcr(db, f.id, markdown, pages), WithOcr(db2, f.id, markdown, pages), u, rest, env);
        case _ =>
      }
    }
  }

  lemma ListedIdsAreOwned(db: Database, u: Uuid)
    requires Consistent(db)
    ensures OwnsIds(db, u, FilesOf(db, u))
  {
    FilesOfMembers(db, u);
    forall f, g | f in db.files && g in FilesOf(db, u) && f.id == g.id ensures f.uploadId == u {
      UniqueRow(db.files, f, g);
    }
  }

  lemma FreshIdInserts(db: Database, na: NewAnalysis, own: Owner)
    requires Consistent(db) && WellOwned(db, own) && own(na.id) == na.analysis.uploadId
    ensures CanInsert(Deleted(db, na.analysis.uploadId), na.id, na.analysis) <==> na.analysis.uploadId in db.uploads
  {
    DeletedIsConsistent(db, na.analysis.uploadId);
  }

  lemma ReplaceFrame(db: Database, na: NewAnalysis, fault: Fault, v: Uuid, own: Owner)
    requires Consistent(db) && WellOwned(db, own) && own(na.id) == na.analysis.uploadId
    ensures v != na.analysis.uploadId ==> FootprintOf(ReplaceOutcome(db, na, fault).0, v) == FootprintOf(db, v)
    ensures WellOwned(ReplaceOutcome(db, na, fault).0, own)
  {
    ReplaceSucceedsOnlyWhenInsertable(db, na, fault);
    if ReplaceOutcome(db, na, fault).1 { ReplaceFootprint(db, na, v); }
    DrawnIdsLeaveNoTrace(db, ReplaceOutcome(db, na, fault).0, v);
  }

  lemma ReplaceSucceedsAlike(db: Database, db2: Database, na: NewAnalysis, fault: Fault)
    requires CanInsert(Deleted(db, na.analysis.uploadId), na.id, na.analysis)
        <==> CanInsert(Deleted(db2, na.analysis.uploadId), na.id, na.analysis)
    ensures ReplaceOutcome(db, na, fault).1 == ReplaceOutcome(db2, na, fault).1
  {
  }

  lemma ReplaceSame(db: Database, db2: Database, na: NewAnalysis, fault: Fault, own: Owner)
    requires Consistent(db) && WellOwned(db, own) && Consistent(db2) && WellOwned(db2, own)
      && own(na.id) == na.analysis.uploadId
    requires FootprintOf(db, na.analysis.uploadId) == FootprintOf(db2, na.analysis.uploadId)
    ensures ReplaceOutcome(db, na, fault).1 == ReplaceOutcome(db2, na, fault).1
    ensures FootprintOf(ReplaceOutcome(db, na, fault).0, na.analysis.uploadId)
      == FootprintOf(ReplaceOutcome(db2, na, fault).0, na.analysis.uploadId)
  {
    var u := na.analysis.uploadId;
    assert FootprintOf(db, u).upload == FootprintOf(db2, u).upload;
    FreshIdInserts(db, na, own);
    FreshIdInserts(db2, na, own);
    ReplaceSucceedsAlike(db, db2, na, fault);
    ReplaceSucceedsOnlyWhenInsertable(db, na, fault);
    ReplaceSucceedsOnlyWhenInsertable(db2, na, fault);
    if ReplaceOutcome(db, na, fault).1 {
      ReplaceFootprint(db, na, u);
      ReplaceFootprint(db2, na, u);
    } else {
      DrawnIdsLeaveNoTrace(db, ReplaceOutcome(db, na, fault).0, u);
      DrawnIdsLeaveNoTrace(db2, ReplaceOutcome(db2, na, fault).0, u);
    }
  }

  lemma DrawnIdsLeaveNoTrace(db: Database, db': Database, v: Uuid)
    ensures db' == db.(nextId := db'.nextId) ==> FootprintOf(db', v) == FootprintOf(db, v)
  {
    if db' == db.(nextId := db'.nextId) {
      assert AnalysesOf(db', v) == AnalysesOf(db, v);
    }
  }

  /** Handlers of one upload leave every other upload's footprint alone. */
  lemma HandledFrame(run: Run, db: Database, env: Env, v: Uuid, own: Owner)
    requires WellFormedRun(run) && Consistent(db) && WellOwned(db, own) && own(env.analysisId) == run.upload
    ensures var db' := Handled(run, db, env).0;
      WellOwned(db', own) && (v != run.upload ==> FootprintOf(db', v) == FootprintOf(db, v))
  {
    var u := run.upload;
    match run.phase {
      case Forward(step) =>
        if step == OCR {
          ListedIdsAreOwned(db, u);
          OcrPassMeaning(db, u, env);
          if v != u { OcrFromFrame(db, u, v, FilesOf(db, u), env); }
        } else if step == ANALYZE {
          AnalyzedFrame(db, u, env, v, own);
        } else {
          StatusFootprint(db, u, if step == MARK_PROCESSING then Processing else Completed, None, v);
        }
      case Rollback(_, _, _) =>
        DeleteFootprint(db, u, v);
      case _ =>
    }
  }

  lemma AnalyzedFrame(db: Database, u: Uuid, env: Env, v: Uuid, own: Owner)
    requires Consistent(db) && WellOwned(db, own) && own(env.analysisId) == u
    ensures var db' := Analyzed(db, u, env).0;
      WellOwned(db', own) && (v != u ==> FootprintOf(db', v) == FootprintOf(db, v))
  {
    if env.reply.Replied? {
      BuiltOwner(env.analysisId, u, env.reply.reply);
      var built := Built(env.analysisId, u, env.reply.reply);
      if built.Ok? { ReplaceFrame(db, built.value, env.fault, v, own); }
    }
  }

  lemma AnalyzedSame(db: Database, db2: Database, u: Uuid, env: Env, own: Owner)
    requires Consistent(db) && WellOwned(db, own) && Consistent(db2) && WellOwned(db2, own) && own(env.analysisId) == u
    requires FootprintOf(db, u) == FootprintOf(db2, u)
    ensures Analyzed(db, u, env).1 == Analyzed(db2, u, env).1
    ensures FootprintOf(Analyzed(db, u, env).0, u) == FootprintOf(Analyzed(db2, u, env).0, u)
  {
    FilesFromFootprint(db, db2, u);
    if env.reply.Replied? {
      BuiltOwner(env.analysisId, u, env.reply.reply);
      var built := Built(env.analysisId, u, env.reply.reply);
      if built.Ok? { ReplaceSame(db, db2, built.value, env.fault, own); }
    }
  }

  /** What a handler does to its upload depends on that upload's footprint alone. */
  lemma HandledSame(run: Run, db: Database, db2: Database, env: Env, own: Owner)
    requires WellFormedRun(run) && own(env.analysisId) == run.upload
    requires Consistent(db) && WellOwned(db, own) && Consistent(db2) && WellOwned(db2, own)
    requires FootprintOf(db, run.upload) == FootprintOf(db2, run.upload)
    ensures Handled(run, db, env).1 == Handled(run, db2, env).1
    ensures FootprintOf(Handled(run, db, env).0, run.upload) == FootprintOf(Handled(run, db2, env).0, run.upload)
  {
    var u := run.upload;
    match run.phase {
      case Forward(step) =>
        if step == OCR {
          ListedIdsAreOwned(db, u);
          ListedIdsAreOwned(db2, u);
          FilesFromFootprint(db, db2, u);
          OcrFromSame(db, db2, u, FilesOf(db, u), env);
        } else if step == ANALYZE {
          AnalyzedSame(db, db2, u, env, own);
        } else {
          var status := if step == MARK_PROCESSING then Processing else Completed;
          StatusFootprint(db, u, status, None, u);
          StatusFootprint(db2, u, status, None, u);
        }
      case Rollback(_, _, _) =>
        DeleteFootprint(db, u, u);
        DeleteFootprint(db2, u, u);
      case _ =>
    }
  }

  /******* A delivery, with its hook *******/

  lemma HookLocal(db: Database, db2: Database, u: Uuid, reason: string, lands: bool, v: Uuid, own: Owner)
    requires Consistent(db) && WellOwned(db, own)
    ensures var db' := MarkFailed(db, u, reason, lands);
      Consistent(db') && WellOwned(db', own) && (v != u ==> FootprintOf(db', v) == FootprintOf(db, v))
    ensures FootprintOf(db, u) == FootprintOf(db2, u) ==>
      FootprintOf(MarkFailed(db, u, reason, lands), u) == FootprintOf(MarkFailed(db2, u, reason, lands), u)
  {
    StatusMeaning(db, u, Failed, Some(reason));
    StatusFootprint(db, u, Failed, Some(reason), v);
    StatusFootprint(db2, u, Failed, Some(reason), u);
    if FootprintOf(db, u) == FootprintOf(db2, u) {
      assert FootprintOf(db, u).upload == FootprintOf(db2, u).upload;
    }
  }

  lemma HandledConsistent(run: Run, db: Database, env: Env)
    requires WellFormedRun(run) && Consistent(db)
    ensures Consistent(Handled(run, db, env).0)
  {
    var u := run.upload;
    match run.phase {
      case Forward(step) =>
        if step == OCR { OcrPassMeaning(db, u, env); }
        else if step == ANALYZE { AnalyzedMeaning(db, u, env); }
        else { StatusMeaning(db, u, if step == MARK_PROCESSING then Processing else Completed, None); }
      case Rollback(_, _, _) => DeletedIsConsistent(db, u);
      case _ =>
    }
  }

  lemma DeliverFrame(cfg: Config, run: Run, db: Database, d: Delivery, v: Uuid, own: Owner)
    requires WellFormedRun(run) && Consistent(db) && WellOwned(db, own) && own(d.env.analysisId) == run.upload
    ensures var db' := Deliver(cfg, run, db, d).1;
      Consistent(db') && WellOwned(db', own) && (v != run.upload ==> FootprintOf(db', v) == FootprintOf(db, v))
  {
    if !Terminal(run.phase) {
      HandledConsistent(run, db, d.env);
      HandledFrame(run, db, d.env, v, own);
      var mid := Handled(run, db, d.env).0;
      var reason, hooked := HandledThenHook(cfg, run, db, d);
      HookLocal(mid, mid, run.upload, reason, d.hookLands, v, own);
    }
  }

  lemma UnwindSame(
      cfg: Config, run: Run, db: Database, db2: Database, below: nat, failed: nat,
      cause: Cause, lands: bool, own: Owner)
    requires below <= failed <= 3
    requires Consistent(db) && WellOwned(db, own) && FootprintOf(db, run.upload) == FootprintOf(db2, run.upload)
    ensures var r := Unwind(cfg, run, db, below, failed, cause, lands);
      var r2 := Unwind(cfg, run, db2, below, failed, cause, lands);
      r.0 == r2.0 && FootprintOf(r.1, run.upload) == FootprintOf(r2.1, run.upload)
  {
    HookLocal(db, db2, run.upload, FailureReason(cfg, failed, cause), lands, run.upload, own);
  }

  lemma ForwardSame(cfg: Config, run: Run, db: Database, db2: Database, d: Delivery, own: Owner)
    requires WellFormedRun(run) && run.phase.Forward? && own(d.env.analysisId) == run.upload
    requires Consistent(db) && WellOwned(db, own) && Consistent(db2) && WellOwned(db2, own)
    requires FootprintOf(db, run.upload) == FootprintOf(db2, run.upload)
    ensures var r, r2 := ForwardStep(cfg, run, db, d), ForwardStep(cfg, run, db2, d);
      r.0 == r2.0 && FootprintOf(r.1, run.upload) == FootprintOf(r2.1, run.upload)
  {
    HandledSame(run, db, db2, d.env, own);
    HandledConsistent(run, db, d.env);
    HandledFrame(run, db, d.env, run.upload, own);
    var step := run.phase.step;
    var mid, mid2 := Do(step, db, run.upload, d.env).0, Do(step, db2, run.upload, d.env).0;
    UnwindSame(cfg, run, mid, mid2, step, step, CauseOf(cfg, d), d.hookLands, own);
  }

  lemma CompensateSame(db: Database, db2: Database, u: Uuid, env: Env, own: Owner)
    requires Consistent(db) && WellOwned(db, own) && Consistent(db2) && FootprintOf(db, u) == FootprintOf(db2, u)
    ensures var mid, mid2 := Compensate(db, u, env), Compensate(db2, u, env);
      && mid.1 == mid2.1 && FootprintOf(mid.0, u) == FootprintOf(mid2.0, u)
      && Consistent(mid.0) && WellOwned(mid.0, own)
  {
    DeleteFootprint(db, u, u);
    DeleteFootprint(db2, u, u);
    DeletedIsConsistent(db, u);
  }

  lemma RollbackSame(cfg: Config, run: Run, db: Database, db2: Database, d: Delivery, own: Owner)
    requires WellFormedRun(run) && run.phase.Rollback?
    requires Consistent(db) && WellOwned(db, own) && Consistent(db2)
    requires FootprintOf(db, run.upload) == FootprintOf(db2, run.upload)
    ensures var r, r2 := RollbackStep(cfg, run, db, d), RollbackStep(cfg, run, db2, d);
      r.0 == r2.0 && FootprintOf(r.1, run.upload) == FootprintOf(r2.1, run.upload)
  {
    CompensateSame(db, db2, run.upload, d.env, own);
    var mid, mid2 := Compensate(db, run.upload, d.env).0, Compensate(db2, run.upload, d.env).0;
    UnwindSame(cfg, run, mid, mid2, run.phase.at, run.phase.failed, run.phase.cause, d.hookLands, own);
    HookLocal(mid, mid2, run.upload, RollbackReason(cfg, run.phase.at, CauseOf(cfg, d)), d.hookLands, run.upload, own);
  }

  lemma DeliverSame(cfg: Config, run: Run, db: Database, db2: Database, d: Delivery, own: Owner)
    requires WellFormedRun(run) && own(d.env.analysisId) == run.upload
    requires Consistent(db) && WellOwned(db, own) && Consistent(db2) && WellOwned(db2, own)
    requires FootprintOf(db, run.upload) == FootprintOf(db2, run.upload)
    ensures Deliver(cfg, run, db, d).0 == Deliver(cfg, run, db2, d).0
    ensures FootprintOf(Deliver(cfg, run, db, d).1, run.upload) == FootprintOf(Deliver(cfg, run, db2, d).1, run.upload)
  {
    if run.phase.Forward? {
      ForwardSame(cfg, run, db, db2, d, own);
    } else if run.phase.Rollback? {
      RollbackSame(cfg, run, db, db2, d, own);
    }
  }

  /******* Interleavings *******/

  /** All runs in flight, over one database. */
  datatype System = System(runs: map<Uuid, Run>, db: Database)

  datatype Addressed = Addressed(upload: Uuid, event: Event)

  ghost predicate WellFormedSystem(s: System, own: Owner) {
    && Consistent(s.db) && WellOwned(s.db, own)
    && forall u | u in s.runs :: WellFormedRun(s.runs[u]) && s.runs[u].upload == u
  }

  /** Uuids drawn in a delivery belong to the upload it is for. */
  ghost predicate FreshFor(es: seq<Addressed>, own: Owner) {
    forall i | 0 <= i < |es| && es[i].event.Delivers? :: own(es[i].event.delivery.env.analysisId) == es[i].upload
  }

  predicate RunsWellFormed(s: System) {
    forall u | u in s.runs :: WellFormedRun(s.runs[u])
  }

  /** One event; an event for an upload that has no run starts its first when it enqueues, and is nothing otherwise. */
  function Handle(cfg: Config, s: System, e: Addressed): System
    requires RunsWellFormed(s)
  {
    match e.event
    case Enqueues =>
      if e.upload !in s.runs || Terminal(s.runs[e.upload].phase) then s.(runs := s.runs[e.upload := Start(e.upload)])
      else s
    case Delivers(d) =>
      if e.upload !in s.runs then s
      else
        var (run, db) := Deliver(cfg, s.runs[e.upload], s.db, d);
        System(s.runs[e.upload := run], db)
  }

  lemma HandleKeepsForm(cfg: Config, s: System, e: Addressed)
    requires RunsWellFormed(s)
    ensures RunsWellFormed(Handle(cfg, s, e))
  {
    if e.event.Delivers? && e.upload in s.runs { DeliverKeepsForm(cfg, s.runs[e.upload], s.db, e.event.delivery); }
  }

  function HandleAll(cfg: Config, s: System, es: seq<Addressed>): System
    requires RunsWellFormed(s)
    decreases |es|
  {
    if es == [] then s
    else
      HandleKeepsForm(cfg, s, es[0]);
      HandleAll(cfg, Handle(cfg, s, es[0]), es[1..])
  }

  function For(u: Uuid): Addressed -> bool {
    (e: Addressed) => e.upload == u
  }

  /** The two systems look alike to one upload. */
  ghost predicate Alike(s: System, t: System, u: Uuid) {
    && FootprintOf(s.db, u) == FootprintOf(t.db, u)
    && (u in s.runs <==> u in t.runs) && (u in s.runs ==> s.runs[u] == t.runs[u])
  }

  lemma HandleOther(cfg: Config, s: System, e: Addressed, u: Uuid, own: Owner)
    requires WellFormedSystem(s, own) && FreshFor([e], own)
    ensures WellFormedSystem(Handle(cfg, s, e), own)
    ensures e.upload != u ==> Alike(Handle(cfg, s, e), s, u)
  {
    assert [e][0] == e;
    if e.event.Delivers? && e.upload in s.runs {
      DeliverKeepsForm(cfg, s.runs[e.upload], s.db, e.event.delivery);
      DeliverFrame(cfg, s.runs[e.upload], s.db, e.event.delivery, u, own);
    }
  }

  lemma HandleMine(cfg: Config, s: System, t: System, e: Addressed, own: Owner)
    requires WellFormedSystem(s, own) && WellFormedSystem(t, own) && FreshFor([e], own) && Alike(s, t, e.upload)
    ensures Alike(Handle(cfg, s, e), Handle(cfg, t, e), e.upload)
  {
    assert [e][0] == e;
    if e.event.Delivers? && e.upload in s.runs {
      DeliverSame(cfg, s.runs[e.upload], s.db, t.db, e.event.delivery, own);
    }
  }

  lemma {:induction false} AlikeThroughout(cfg: Config, s: System, t: System, es: seq<Addressed>, u: Uuid, own: Owner)
    requires WellFormedSystem(s, own) && WellFormedSystem(t, own) && FreshFor(es, own) && Alike(s, t, u)
    ensures Alike(HandleAll(cfg, s, es), HandleAll(cfg, t, Filter(es, For(u))), u)
    decreases |es|
  {
    if es != [] {
      var e, rest := es[0], es[1..];
      assert FreshFor([e], own) && FreshFor(rest, own);
      HandleOther(cfg, s, e, u, own);
      if e.upload == u {
        HandleMine(cfg, s, t, e, own);
        HandleOther(cfg, t, e, u, own);
        AlikeThroughout(cfg, Handle(cfg, s, e), Handle(cfg, t, e), rest, u, own);
        assert ([e] + Filter(rest, For(u)))[1..] == Filter(rest, For(u));
      } else {
        AlikeThroughout(cfg, Handle(cfg, s, e), t, rest, u, own);
      }
    }
  }

  /**
   Non-interference.  For every interleaving of the hops of any number of sagas, each upload's
   status, files, analysis, rows and run end exactly as if only its own events had happened.
   */
  lemma SagasDoNotInterfere(cfg: Config, s: System, es: seq<Addressed>, u: Uuid, own: Owner)
    requires WellFormedSystem(s, own) && FreshFor(es, own)
    ensures var all, alone := HandleAll(cfg, s, es), HandleAll(cfg, s, Filter(es, For(u)));
      && FootprintOf(all.db, u) == FootprintOf(alone.db, u)
      && (u in all.runs <==> u in alone.runs) && (u in all.runs ==> all.runs[u] == alone.runs[u])
  {
    AlikeThroughout(cfg, s, s, es, u, own);
  }
}
