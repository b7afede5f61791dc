/**
 When a completed upload has nothing to show.  A terminal hook's write can be lost; this is what the
 status may then claim, over whole runs (internal/pipeline/pipeline.go and steps.go).
 */
module Claims {
  import opened Convert
  import opened Store
  import opened StoreLaws
  import opened Saga
  import opened SagaLaws
  import opened Scrub
  import opened Tables

  /** The upload claims to be completed, outside a rollback, and lacks its texts or its analysis. */
  ghost predicate Stale(m: Moment) {
    var u := m.run.upload;
    u in m.db.uploads && m.db.uploads[u].status == Completed && !m.run.phase.Rollback? && !Complete(m.db, u)
  }

  /** The delivery ends the run through one of the two hooks. */
  predicate HookFires(cfg: Config, m: Moment, d: Delivery)
    requires WellFormedRun(m.run)
  {
    var next := Deliver(cfg, m.run, m.db, d).0;
    !Terminal(m.run.phase) && (next.phase.Aborted? || next.phase.Stuck?)
  }

  /** The handler is one that writes a status, and the write goes through. */
  predicate WritesStatus(m: Moment, d: Delivery)
    requires WellFormedRun(m.run)
  {
    (m.run.phase == Forward(MARK_PROCESSING) || m.run.phase == Forward(MARK_COMPLETED)) && Handled(m.run, m.db, d.env).1
  }

  /**
   A stale claim begins when a rollback that has removed the analysis ends, from a completed status,
   with its hook's write lost; any later status write that lands ends it.
   */
  predicate Lingering(cfg: Config, m: Moment, e: Event, before: bool)
    requires WellFormedRun(m.run)
  {
    match e
    case Enqueues => before
    case Delivers(d) =>
      if m.run.phase.Rollback? && HookFires(cfg, m, d) && !d.hookLands then
        && m.run.upload in m.db.uploads && m.db.uploads[m.run.upload].status == Completed
        && LedgerAfter(m.run, m.db, d, m.ledger).None?
      else if WritesStatus(m, d) || (HookFires(cfg, m, d) && d.hookLands) then false
      else before
  }

  predicate LingersAfter(cfg: Config, m: Moment, es: seq<Event>, before: bool)
    requires WellFormedRun(m.run)
    decreases |es|
  {
    if es == [] then before
    else
      AfterKeepsForm(cfg, m, es[0]);
      LingersAfter(cfg, After(cfg, m, es[0]), es[1..], Lingering(cfg, m, es[0], before))
  }

  /******* The exact condition *******/

  ghost predicate ClaimsFalsely(db: Database, u: Uuid)
    requires u in db.uploads
  {
    db.uploads[u].status == Completed && !Complete(db, u)
  }

  /** What holds between events when hooks may be lost, with the flag for a stale claim. */
  ghost predicate Tracked(m: Moment, flag: bool) {
    && WellFormedRun(m.run) && Consistent(m.db) && m.run.upload in m.db.uploads && Holds(m.db, m.run.upload, m.ledger)
    && var u, status := m.run.upload, m.db.uploads[m.run.upload].status;
       match m.run.phase
       case Forward(step) =>
         if step == MARK_PROCESSING then flag <==> ClaimsFalsely(m.db, u)
         else if step == OCR then status == Processing && !flag
         else if step == ANALYZE then status == Processing && Ready(m.db, u) && !flag
         else (status == Processing || status == Completed) && Complete(m.db, u) && !flag
       case Rollback(_, _, _) => (status == Processing || status == Completed) && Ready(m.db, u) && !flag
       case _ => flag <==> ClaimsFalsely(m.db, u)
  }

  /** A status step that fails changes nothing. */
  lemma FailedStatusStep(run: Run, db: Database, env: Env)
    requires run.phase == Forward(MARK_PROCESSING) || run.phase == Forward(MARK_COMPLETED)
    ensures !Handled(run, db, env).1 ==> Handled(run, db, env).0 == db
  {
  }

  lemma HandledTracked(m: Moment, d: Delivery, flag: bool)
    requires Tracked(m, flag) && m.run.phase.Forward?
    ensures HandledWell(m.run, m.db, d, m.ledger)
    ensures Ready(m.db, m.run.upload) ==> Ready(Handled(m.run, m.db, d.env).0, m.run.upload)
  {
    HandledMeaning(m.run, m.db, d, m.ledger);
    if Ready(m.db, m.run.upload) { ProgressKeepsReady(m.db, Handled(m.run, m.db, d.env).0, m.run.upload); }
  }

  lemma AdvanceTracked(cfg: Config, m: Moment, d: Delivery, flag: bool)
    requires Tracked(m, flag) && m.run.phase.Forward? && Handled(m.run, m.db, d.env).1 && d.acked
    ensures Tracked(After(cfg, m, Delivers(d)), Lingering(cfg, m, Delivers(d), flag))
  {
    HandledTracked(m, d, flag);
  }

  lemma RetryTracked(cfg: Config, m: Moment, d: Delivery, flag: bool)
    requires Tracked(m, flag) && m.run.phase.Forward? && !(Handled(m.run, m.db, d.env).1 && d.acked)
      && m.run.attempts < cfg.maxRetry
    ensures Tracked(After(cfg, m, Delivers(d)), Lingering(cfg, m, Delivers(d), flag))
  {
    HandledTracked(m, d, flag);
    if m.run.phase == Forward(MARK_PROCESSING) { FailedStatusStep(m.run, m.db, d.env); }
  }

  lemma AbortFirstTracked(cfg: Config, m: Moment, d: Delivery, flag: bool)
    requires Tracked(m, flag) && m.run.phase == Forward(MARK_PROCESSING)
    requires !(Handled(m.run, m.db, d.env).1 && d.acked) && m.run.attempts >= cfg.maxRetry
    ensures Tracked(After(cfg, m, Delivers(d)), Lingering(cfg, m, Delivers(d), flag))
  {
    HandledTracked(m, d, flag);
    FailedStatusStep(m.run, m.db, d.env);
    assert LastCompensable(0) == -1;
    MarkFailedMeaning(Handled(m.run, m.db, d.env).0, m.run.upload,
                      FailureReason(cfg, MARK_PROCESSING, CauseOf(cfg, d)), m.ledger);
  }

  lemma AbortLaterTracked(cfg: Config, m: Moment, d: Delivery, flag: bool)
    requires Tracked(m, flag) && (m.run.phase == Forward(OCR) || m.run.phase == Forward(ANALYZE))
    requires !(Handled(m.run, m.db, d.env).1 && d.acked) && m.run.attempts >= cfg.maxRetry
    ensures Tracked(After(cfg, m, Delivers(d)), Lingering(cfg, m, Delivers(d), flag))
  {
    HandledTracked(m, d, flag);
    assert LastCompensable(2) == LastCompensable(1) == LastCompensable(0) == -1;
    MarkFailedMeaning(Handled(m.run, m.db, d.env).0, m.run.upload,
                      FailureReason(cfg, m.run.phase.step, CauseOf(cfg, d)),
                      LedgerAfter(m.run, m.db, d, m.ledger));
  }

  /** The last attempt at the last step starts the rollback. */
  lemma PivotTracked(cfg: Config, m: Moment, d: Delivery, flag: bool)
    requires Tracked(m, flag) && m.run.phase == Forward(MARK_COMPLETED)
    requires !(Handled(m.run, m.db, d.env).1 && d.acked) && m.run.attempts >= cfg.maxRetry
    ensures Tracked(After(cfg, m, Delivers(d)), Lingering(cfg, m, Delivers(d), flag))
  {
    HandledTracked(m, d, flag);
    assert LastCompensable(3) == 2;
  }

  lemma RollbackTracked(cfg: Config, m: Moment, d: Delivery, flag: bool)
    requires Tracked(m, flag) && m.run.phase.Rollback?
    ensures Tracked(After(cfg, m, Delivers(d)), Lingering(cfg, m, Delivers(d), flag))
  {
    var u, phase, ledger := m.run.upload, m.run.phase, LedgerAfter(m.run, m.db, d, m.ledger);
    var mid := Compensate(m.db, u, d.env).0;
    HandledMeaning(m.run, m.db, d, m.ledger);
    ProgressKeepsReady(m.db, mid, u);
    DeliverKeepsForm(cfg, m.run, m.db, d);
    RollbackCases(cfg, m.run, m.db, d);
    MarkFailedMeaning(mid, u, FailureReason(cfg, phase.failed, phase.cause), ledger);
    MarkFailedMeaning(mid, u, RollbackReason(cfg, phase.at, CauseOf(cfg, d)), ledger);
  }

  lemma EventTracked(cfg: Config, m: Moment, e: Event, flag: bool)
    requires Tracked(m, flag)
    ensures Tracked(After(cfg, m, e), Lingering(cfg, m, e, flag))
  {
    if e.Delivers? && m.run.phase.Forward? {
      var d := e.delivery;
      if Handled(m.run, m.db, d.env).1 && d.acked { AdvanceTracked(cfg, m, d, flag); }
      else if m.run.attempts < cfg.maxRetry { RetryTracked(cfg, m, d, flag); }
      else if m.run.phase.step == MARK_PROCESSING { AbortFirstTracked(cfg, m, d, flag); }
      else if m.run.phase.step < MARK_COMPLETED { AbortLaterTracked(cfg, m, d, flag); }
      else { PivotTracked(cfg, m, d, flag); }
    } else if e.Delivers? && m.run.phase.Rollback? {
      RollbackTracked(cfg, m, e.delivery, flag);
    }
  }

  lemma {:induction false} HistoryTracked(cfg: Config, m: Moment, es: seq<Event>, flag: bool)
    requires Tracked(m, flag)
    ensures Tracked(History(cfg, m, es), LingersAfter(cfg, m, es, flag))
      && History(cfg, m, es).run.upload == m.run.upload
    decreases |es|
  {
    if es != [] {
      AfterKeepsForm(cfg, m, es[0]);
      EventTracked(cfg, m, es[0], flag);
      HistoryTracked(cfg, After(cfg, m, es[0]), es[1..], Lingering(cfg, m, es[0], flag));
    }
  }

  /**
   Without assuming that hooks land.  Over any runs of an upload, it claims completed outside a
   rollback without its texts and its analysis if and only if some rollback that had removed the
   analysis ended from a completed status with its hook's write lost, and no status write has landed
   since.  Otherwise completed means what it should: every text, and exactly the last stored reply.
   */
  lemma StaleIff(cfg: Config, u: Uuid, db: Database, es: seq<Event>)
    requires Consistent(db) && u in db.uploads && db.uploads[u].status != Completed && AnalysesOf(db, u) == {}
    ensures Stale(History(cfg, Moment(Start(u), db, None), es))
      <==> LingersAfter(cfg, Moment(Start(u), db, None), es, false)
    ensures var end := History(cfg, Moment(Start(u), db, None), es);
      u in end.db.uploads && end.db.uploads[u].status == Completed && !end.run.phase.Rollback? && !Stale(end) ==>
        Ready(end.db, u) && end.ledger.Some? && Holds(end.db, u, end.ledger)
  {
    HistoryTracked(cfg, Moment(Start(u), db, None), es, false);
  }

  /******* Both endings are reached *******/

  /** A reply without entries. */
  const EMPTY_REPLY := Response("", "", "", "", "", "", [], [])

  /** Everything goes well in the delivery, apart from its acknowledgement and the hook. */
  function Quiet(id: Uuid, acked: bool): Delivery {
    Delivery(Env("", false, (f: Uuid) => ExtractFailed, (f: Uuid) => false, Replied(Some(EMPTY_REPLY)), id, NoFault),
      acked, false)
  }

  function Repeat(e: Event, n: nat): seq<Event> {
    if n == 0 then [] else [e] + Repeat(e, n - 1)
  }

  /**
   Three good hops; the last step takes effect on every attempt and is never acknowledged; the
   compensation takes effect, acknowledged (the run is aborted) or never acknowledged (it is stuck);
   the hook's write is lost.
   */
  function Story(cfg: Config, id: Uuid, stuck: bool): seq<Event> {
    var good, silent := Delivers(Quiet(id, true)), Delivers(Quiet(id, false));
    var tries := Repeat(silent, cfg.maxRetry + 1);
    [good, good, good] + (tries + (if stuck then tries else [good]))
  }

  lemma {:induction false} HistoryAppend(cfg: Config, m: Moment, a: seq<Event>, b: seq<Event>)
    requires WellFormedRun(m.run)
    ensures WellFormedRun(History(cfg, m, a).run) && History(cfg, m, a + b) == History(cfg, History(cfg, m, a), b)
    decreases |a|
  {
    if a == [] {
      assert a + b == b;
    } else {
      AfterKeepsForm(cfg, m, a[0]);
      assert (a + b)[0] == a[0] && (a + b)[1..] == a[1..] + b;
      HistoryAppend(cfg, After(cfg, m, a[0]), a[1..], b);
    }
  }

  lemma {:induction false} ReadyFilesAreSkipped(db: Database, todo: seq<UploadFile>, env: Env)
    requires forall i | 0 <= i < |todo| :: HasOcr(todo[i])
    ensures OcrFrom(db, todo, env) == OcrResult(db, true, 0)
    decreases |todo|
  {
    if todo != [] {
      ReadyFilesAreSkipped(db, todo[1..], env);
    }
  }

  lemma EmptyReplyIsStored(db: Database, u: Uuid, id: Uuid, acked: bool)
    requires Consistent(db) && u in db.uploads && Ready(db, u) && (id in db.analyses ==> db.analyses[id].uploadId == u)
    ensures Analyzed(db, u, Quiet(id, acked).env).1
  {
    DeletedIsConsistent(db, u);
    assert Converted([], BuildTransaction, 0) == Convert.Result.Ok([]);
    var na := NewAnalysis(id, BuildHeader(u, EMPTY_REPLY), []);
    assert Built(id, u, Some(EMPTY_REPLY)) == Convert.Result.Ok(na);
    ReplaceSucceedsOnlyWhenInsertable(db, na, NoFault);
  }

  /** Two good hops lead to analyze. */
  lemma TwoGoodHops(cfg: Config, u: Uuid, db: Database, id: Uuid)
    requires Consistent(db) && u in db.uploads && Ready(db, u)
    ensures var good := Delivers(Quiet(id, true)); var m := History(cfg, Moment(Start(u), db, None), [good, good]);
      m == Moment(Run(u, Forward(ANALYZE), 0), WithStatus(db, u, Processing, None), None)
  {
    var good := Delivers(Quiet(id, true));
    var db1 := WithStatus(db, u, Processing, None);
    StatusMeaning(db, u, Processing, None);
    var m0, m1 := Moment(Start(u), db, None), Moment(Run(u, Forward(OCR), 0), db1, None);
    assert After(cfg, m0, good) == m1;
    ReadyFilesAreSkipped(db1, FilesOf(db1, u), good.delivery.env);
    var m2 := Moment(Run(u, Forward(ANALYZE), 0), db1, None);
    assert After(cfg, m1, good) == m2;
    assert [good, good][1..] == [good] && [good][1..] == [];
    assert History(cfg, m2, []) == m2;
    assert History(cfg, m1, [good]) == m2;
  }

  lemma AnalyzeHop(cfg: Config, u: Uuid, db: Database, id: Uuid)
    requires Consistent(db) && u in db.uploads && Ready(db, u) && id !in db.analyses
    ensures var m := After(cfg, Moment(Run(u, Forward(ANALYZE), 0), db, None), Delivers(Quiet(id, true)));
      m.run == Run(u, Forward(MARK_COMPLETED), 0) && u in m.db.uploads
  {
    EmptyReplyIsStored(db, u, id, true);
    AnalyzedMeaning(db, u, Quiet(id, true).env);
  }

  lemma HistoryOfOne(cfg: Config, m: Moment, e: Event)
    requires WellFormedRun(m.run)
    ensures History(cfg, m, [e]) == After(cfg, m, e)
  {
    AfterKeepsForm(cfg, m, e);
    assert [e][1..] == [];
    assert History(cfg, After(cfg, m, e), []) == After(cfg, m, e);
  }

  /** A third leads to the last step. */
  lemma GoodHops(cfg: Config, u: Uuid, db: Database, id: Uuid)
    requires Consistent(db) && u in db.uploads && Ready(db, u) && id !in db.analyses
    ensures var good := Delivers(Quiet(id, true));
      var m := History(cfg, Moment(Start(u), db, None), [good, good, good]);
      m.run == Run(u, Forward(MARK_COMPLETED), 0) && u in m.db.uploads
  {
    var good, m, db1 := Delivers(Quiet(id, true)), Moment(Start(u), db, None), WithStatus(db, u, Processing, None);
    TwoGoodHops(cfg, u, db, id);
    StatusMeaning(db, u, Processing, None);
    AnalyzeHop(cfg, u, db1, id);
    HistoryAppend(cfg, m, [good, good], [good]);
    assert [good, good] + [good] == [good, good, good];
    HistoryOfOne(cfg, History(cfg, m, [good, good]), good);
  }

  lemma {:induction false} SilentCompletions(cfg: Config, m: Moment, id: Uuid, n: nat)
    requires m.run.phase == Forward(MARK_COMPLETED) && m.run.upload in m.db.uploads && n > 0
      && m.run.attempts + n == cfg.maxRetry + 1
    ensures var end := History(cfg, m, Repeat(Delivers(Quiet(id, false)), n)); var u := m.run.upload;
      && end.run == Run(u, Rollback(MARK_COMPLETED, ANALYZE, Unreported), 0)
      && u in end.db.uploads && end.db.uploads[u].status == Completed
    decreases n
  {
    var e := Delivers(Quiet(id, false));
    var next := After(cfg, m, e);
    assert LastCompensable(3) == 2;
    assert Repeat(e, n)[0] == e && Repeat(e, n)[1..] == Repeat(e, n - 1);
    AfterKeepsForm(cfg, m, e);
    if n == 1 {
      assert History(cfg, next, []) == next;
    } else {
      SilentCompletions(cfg, next, id, n - 1);
    }
  }

  lemma {:induction false} SilentCompensations(cfg: Config, m: Moment, id: Uuid, n: nat)
    requires m.run.phase == Rollback(MARK_COMPLETED, ANALYZE, Unreported) && n > 0
      && m.run.attempts + n == cfg.maxRetry + 1
    requires m.run.upload in m.db.uploads && m.db.uploads[m.run.upload].status == Completed
    ensures var end := History(cfg, m, Repeat(Delivers(Quiet(id, false)), n)); Stale(end) && end.run.phase == Stuck
    decreases n
  {
    var e := Delivers(Quiet(id, false));
    var next := After(cfg, m, e);
    assert Repeat(e, n)[0] == e && Repeat(e, n)[1..] == Repeat(e, n - 1);
    AfterKeepsForm(cfg, m, e);
    if n == 1 {
      assert History(cfg, next, []) == next;
    } else {
      SilentCompensations(cfg, next, id, n - 1);
    }
  }

  lemma LostAbort(cfg: Config, m: Moment, id: Uuid)
    requires m.run.phase == Rollback(MARK_COMPLETED, ANALYZE, Unreported)
    requires m.run.upload in m.db.uploads && m.db.uploads[m.run.upload].status == Completed
    ensures var end := History(cfg, m, [Delivers(Quiet(id, true))]);
      Stale(end) && end.run.phase == Aborted(MARK_COMPLETED)
  {
    var e := Delivers(Quiet(id, true));
    HistoryOfOne(cfg, m, e);
    assert LastCompensable(2) == LastCompensable(1) == LastCompensable(0) == -1;
  }

  /** From a fresh run, for every retry budget: both endings of a rollback leave a stale claim. */
  lemma StaleIsReached(cfg: Config, u: Uuid, db: Database, id: Uuid, stuck: bool)
    requires Consistent(db) && u in db.uploads && Ready(db, u) && id !in db.analyses
    ensures var end := History(cfg, Moment(Start(u), db, None), Story(cfg, id, stuck));
      Stale(end) && end.run.phase == if stuck then Stuck else Aborted(MARK_COMPLETED)
  {
    var good, silent := Delivers(Quiet(id, true)), Delivers(Quiet(id, false));
    var m := Moment(Start(u), db, None);
    var hops, tries := [good, good, good], Repeat(silent, cfg.maxRetry + 1);
    var rest := if stuck then Repeat(silent, cfg.maxRetry + 1) else [good];
    GoodHops(cfg, u, db, id);
    HistoryAppend(cfg, m, hops, tries + rest);
    var m3 := History(cfg, m, hops);
    SilentCompletions(cfg, m3, id, cfg.maxRetry + 1);
    HistoryAppend(cfg, m3, tries, rest);
    var m4 := History(cfg, m3, tries);
    if stuck { SilentCompensations(cfg, m4, id, cfg.maxRetry + 1); } else { LostAbort(cfg, m4, id); }
  }

  /******* A failed run that leaves its analysis *******/

  /** An analyze delivery that commits and is not acknowledged; a hook's write lands. */
  function Unheard(id: Uuid): Event {
    Delivers(Quiet(id, false).(hookLands := true))
  }

  /** A failed upload that still has an analysis. */
  ghost predicate FailedWithAnalysis(m: Moment, u: Uuid) {
    && m.run.phase == Aborted(ANALYZE) && m.run.upload == u && u in m.db.uploads
    && m.db.uploads[u].status == Failed && AnalysesOf(m.db, u) != {}
  }

  lemma UnheardCommit(cfg: Config, m: Moment, id: Uuid)
    requires m.run.phase == Forward(ANALYZE) && Consistent(m.db) && m.run.upload in m.db.uploads
      && Ready(m.db, m.run.upload)
    requires id in m.db.analyses ==> m.db.analyses[id].uploadId == m.run.upload
    ensures var mid := Analyzed(m.db, m.run.upload, Unheard(id).delivery.env).0;
      && After(cfg, m, Unheard(id)).run.upload == m.run.upload
      && Consistent(mid) && mid.uploads == m.db.uploads && mid.files == m.db.files
      && AnalysesOf(mid, m.run.upload) != {}
      && (id in mid.analyses ==> mid.analyses[id].uploadId == m.run.upload)
  {
    var u, env := m.run.upload, Unheard(id).delivery.env;
    EmptyReplyIsStored(m.db, u, id, false);
    AnalyzedMeaning(m.db, u, env);
    var na := NewAnalysis(id, BuildHeader(u, EMPTY_REPLY), []);
    assert Built(id, u, Some(EMPTY_REPLY)) == Convert.Result.Ok(na);
    ReplaceKeepsConsistent(m.db, na, NoFault);
  }

  lemma UnheardAbort(cfg: Config, m: Moment, id: Uuid)
    requires m.run.phase == Forward(ANALYZE) && m.run.attempts >= cfg.maxRetry
    requires Consistent(m.db) && m.run.upload in m.db.uploads && Ready(m.db, m.run.upload)
    requires id in m.db.analyses ==> m.db.analyses[id].uploadId == m.run.upload
    ensures FailedWithAnalysis(After(cfg, m, Unheard(id)), m.run.upload)
  {
    var e, u := Unheard(id), m.run.upload;
    UnheardCommit(cfg, m, id);
    assert LastCompensable(2) == LastCompensable(1) == LastCompensable(0) == -1;
    var mid := Analyzed(m.db, u, e.delivery.env).0;
    HookAnalyses(mid, u, FailureReason(cfg, ANALYZE, CauseOf(cfg, e.delivery)), true);
  }

  lemma SameFilesAreReady(db: Database, db': Database, u: Uuid)
    requires Ready(db, u) && db'.files == db.files
    ensures Ready(db', u)
  {
  }

  lemma UnheardNext(cfg: Config, m: Moment, id: Uuid)
    requires m.run.phase == Forward(ANALYZE) && m.run.attempts < cfg.maxRetry
    ensures var next := After(cfg, m, Unheard(id));
      && next.run == m.run.(attempts := m.run.attempts + 1)
      && next.db == Analyzed(m.db, m.run.upload, Unheard(id).delivery.env).0
  {
  }

  lemma UnheardRetry(cfg: Config, m: Moment, id: Uuid)
    requires m.run.phase == Forward(ANALYZE) && m.run.attempts < cfg.maxRetry
    requires Consistent(m.db) && m.run.upload in m.db.uploads && Ready(m.db, m.run.upload)
    requires id in m.db.analyses ==> m.db.analyses[id].uploadId == m.run.upload
    ensures var next := After(cfg, m, Unheard(id));
      && next.run == m.run.(attempts := m.run.attempts + 1)
      && Consistent(next.db) && next.run.upload in next.db.uploads && Ready(next.db, next.run.upload)
      && (id in next.db.analyses ==> next.db.analyses[id].uploadId == next.run.upload)
  {
    UnheardNext(cfg, m, id);
    UnheardCommit(cfg, m, id);
    SameFilesAreReady(m.db, After(cfg, m, Unheard(id)).db, m.run.upload);
  }

  lemma HistorySteps(cfg: Config, m: Moment, es: seq<Event>)
    requires WellFormedRun(m.run) && es != []
    ensures WellFormedRun(After(cfg, m, es[0]).run)
    ensures History(cfg, m, es) == History(cfg, After(cfg, m, es[0]), es[1..])
  {
    AfterKeepsForm(cfg, m, es[0]);
  }

  lemma {:induction false} UnheardCommits(cfg: Config, m: Moment, id: Uuid, n: nat, es: seq<Event>)
    requires m.run.phase == Forward(ANALYZE) && n > 0 && m.run.attempts + n == cfg.maxRetry + 1
    requires Consistent(m.db) && m.run.upload in m.db.uploads && Ready(m.db, m.run.upload)
    requires id in m.db.analyses ==> m.db.analyses[id].uploadId == m.run.upload
    requires es == Repeat(Unheard(id), n)
    ensures FailedWithAnalysis(History(cfg, m, es), m.run.upload)
    decreases n
  {
    assert es[0] == Unheard(id) && es[1..] == Repeat(Unheard(id), n - 1);
    if n == 1 {
      UnheardAbort(cfg, m, id);
      assert es == [es[0]];
      HistoryOfOne(cfg, m, es[0]);
    } else {
      UnheardRetry(cfg, m, id);
      HistorySteps(cfg, m, es);
      UnheardCommits(cfg, After(cfg, m, es[0]), id, n - 1, es[1..]);
    }
  }

  /**
   From a fresh run, for every retry budget: two good hops, then an analyze step that commits on every
   attempt and is never acknowledged.  The run fails, the hook's write lands, and the analysis stays.
   */
  lemma FailedCanKeepAnalysis(cfg: Config, u: Uuid, db: Database, id: Uuid)
    requires Consistent(db) && u in db.uploads && Ready(db, u) && AnalysesOf(db, u) == {} && id !in db.analyses
    ensures var good := Delivers(Quiet(id, true));
      var es := [good, good] + Repeat(Unheard(id), cfg.maxRetry + 1);
      FailedWithAnalysis(History(cfg, Moment(Start(u), db, None), es), u)
  {
    var good, m := Delivers(Quiet(id, true)), Moment(Start(u), db, None);
    TwoGoodHops(cfg, u, db, id);
    StatusMeaning(db, u, Processing, None);
    HistoryAppend(cfg, m, [good, good], Repeat(Unheard(id), cfg.maxRetry + 1));
    UnheardCommits(cfg, History(cfg, m, [good, good]), id, cfg.maxRetry + 1, Repeat(Unheard(id), cfg.maxRetry + 1));
  }
}
