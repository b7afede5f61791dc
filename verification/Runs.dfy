/**
 How runs end.  When a hop goes through and when it gives up, exactly when a run finishes, that it
 finishes when nothing fails, and which error the stored reason of a failed run quotes
 (internal/pipeline/pipeline.go and steps.go).
 */
module Runs {
  import opened Convert
  import opened Groups
  import opened Saga
  import opened SagaLaws
  import opened Scrub
  import opened Store
  import opened StoreLaws
  import opened Tables
  import opened Text

  /******* When a step succeeds *******/

  predicate HasText(f: UploadFile) {
    f.ocrMarkdown.Some? && TrimSpace(f.ocrMarkdown.value) != ""
  }

  /** The file is read, OCR finds a text in it, and the text is written. */
  predicate Extracts(env: Env, f: UploadFile) {
    && env.extract(f.id).Extracted? && TrimSpace(env.extract(f.id).markdown) != ""
    && !env.ocrWriteFails(f.id)
  }

  predicate Finishable(env: Env, f: UploadFile) {
    HasText(f) || Extracts(env, f)
  }

  lemma {:induction false} OcrFromSucceedsIff(db: Database, todo: seq<UploadFile>, env: Env)
    ensures OcrFrom(db, todo, env).ok <==> forall i | 0 <= i < |todo| :: Finishable(env, todo[i])
    decreases |todo|
  {
    if todo != [] {
      var f, rest := todo[0], todo[1..];
      assert forall i | 0 < i < |todo| :: todo[i] == rest[i-1];
      assert forall i | 0 <= i < |rest| :: rest[i] == todo[i+1];
      if HasOcr(f) {
        OcrFromSucceedsIff(db, rest, env);
      } else if Extracts(env, f) {
        OcrFromSucceedsIff(WithOcr(db, f.id, env.extract(f.id).markdown, env.extract(f.id).pages), rest, env);
      }
    }
  }

  /** How many of the listed files come before the first that cannot be finished. */
  function Reach(env: Env, todo: seq<UploadFile>): (k: nat)
    ensures k <= |todo| && (forall i | 0 <= i < k :: Finishable(env, todo[i]))
    ensures k < |todo| ==> !Finishable(env, todo[k])
  {
    if todo == [] || !Finishable(env, todo[0]) then 0 else 1 + Reach(env, todo[1..])
  }

  predicate ListedBefore(todo: seq<UploadFile>, k: nat, id: Uuid)
    requires k <= |todo|
  {
    exists i | 0 <= i < k :: todo[i].id == id
  }

  /** The file with the text and the page count OCR found. */
  function WithItsText(env: Env, f: UploadFile): UploadFile {
    match env.extract(f.id)
    case Extracted(markdown, pages) => f.(ocrMarkdown := Some(markdown), pageCount := Some(pages))
    case _ => f
  }

  /** A file gets its text exactly when it has none and is listed before the first that cannot be finished. */
  ghost predicate FinishesExactly(before: seq<UploadFile>, after: seq<UploadFile>, todo: seq<UploadFile>, k: nat,
      env: Env)
    requires k <= |todo|
  {
    && |after| == |before|
    && forall j | 0 <= j < |before| ::
         after[j] == if !HasText(before[j]) && ListedBefore(todo, k, before[j].id) then WithItsText(env, before[j])
                     else before[j]
  }

  lemma ListedLater(todo: seq<UploadFile>, k: nat, id: Uuid)
    requires k < |todo|
    ensures ListedBefore(todo, k + 1, id) <==> todo[0].id == id || ListedBefore(todo[1..], k, id)
  {
    assert forall i | 0 < i < |todo| :: todo[i] == todo[1..][i-1];
    if ListedBefore(todo[1..], k, id) {
      var i :| 0 <= i < k && todo[1..][i].id == id;
      assert todo[i+1].id == id;
    }
  }

  lemma SkipIsExact(db: Database, todo: seq<UploadFile>, after: seq<UploadFile>, k: nat, env: Env)
    requires UniqueFileIds(db.files) && todo != [] && todo[0] in db.files && HasText(todo[0]) && k < |todo|
    requires FinishesExactly(db.files, after, todo[1..], k, env)
    ensures FinishesExactly(db.files, after, todo, k + 1, env)
  {
    forall j | 0 <= j < |db.files|
      ensures (!HasText(db.files[j]) && ListedBefore(todo, k + 1, db.files[j].id))
         <==> (!HasText(db.files[j]) && ListedBefore(todo[1..], k, db.files[j].id))
    {
      ListedLater(todo, k, db.files[j].id);
      if db.files[j].id == todo[0].id { UniqueRow(db.files, db.files[j], todo[0]); }
    }
  }

  lemma WriteIsExact(db: Database, todo: seq<UploadFile>, after: seq<UploadFile>, k: nat, env: Env)
    requires UniqueFileIds(db.files) && todo != [] && todo[0] in db.files && !HasText(todo[0]) && k < |todo|
    requires Extracts(env, todo[0])
    requires var e := env.extract(todo[0].id);
      FinishesExactly(WithOcr(db, todo[0].id, e.markdown, e.pages).files, after, todo[1..], k, env)
    ensures FinishesExactly(db.files, after, todo, k + 1, env)
  {
    var f, e := todo[0], env.extract(todo[0].id);
    var mid := WithOcr(db, f.id, e.markdown, e.pages).files;
    forall j | 0 <= j < |db.files|
      ensures after[j] == if !HasText(db.files[j]) && ListedBefore(todo, k + 1, db.files[j].id)
                          then WithItsText(env, db.files[j]) else db.files[j]
    {
      assert mid[j] == WithText(db.files[j], f.id, e.markdown, e.pages);
      ListedLater(todo, k, db.files[j].id);
      if db.files[j].id == f.id {
        UniqueRow(db.files, db.files[j], f);
        assert mid[j] == WithItsText(env, f) && HasText(mid[j]);
      }
    }
  }

  lemma {:induction false} OcrFromExact(db: Database, todo: seq<UploadFile>, env: Env)
    requires UniqueFileIds(db.files) && UniqueFileIds(todo) && forall f | f in todo :: f in db.files
    ensures FinishesExactly(db.files, OcrFrom(db, todo, env).db.files, todo, Reach(env, todo), env)
    decreases |todo|
  {
    if todo != [] {
      var f, rest := todo[0], todo[1..];
      assert f in todo;
      if HasOcr(f) {
        OcrFromExact(db, rest, env);
        SkipIsExact(db, todo, OcrFrom(db, todo, env).db.files, Reach(env, rest), env);
      } else if Extracts(env, f) {
        var e := env.extract(f.id);
        RestIsListed(db, todo, e.markdown, e.pages);
        OcrFromExact(WithOcr(db, f.id, e.markdown, e.pages), rest, env);
        WriteIsExact(db, todo, OcrFrom(db, todo, env).db.files, Reach(env, rest), env);
      }
    }
  }

  /**
   Which files one attempt at ocr finishes: in order of position, every one without a text up to the
   first that cannot be finished, each with the text and page count OCR found; the others stay as they
   are, and a failing attempt keeps what it finished.
   */
  lemma OcrPassExact(db: Database, u: Uuid, env: Env)
    requires Consistent(db) && !env.statementFails
    ensures FinishesExactly(db.files, OcrPass(db, u, env).db.files, FilesOf(db, u), Reach(env, FilesOf(db, u)), env)
    ensures OcrPass(db, u, env).ok <==> FilesOf(db, u) != [] && Reach(env, FilesOf(db, u)) == |FilesOf(db, u)|
  {
    FilesOfMembers(db, u);
    FilesOfUnique(db, u);
    OcrFromExact(db, FilesOf(db, u), env);
    OcrFromSucceedsIff(db, FilesOf(db, u), env);
  }

  /** What the outside world must grant for the step to succeed. */
  predicate CanSucceed(step: nat, db: Database, u: Uuid, env: Env)
    requires step <= 3
  {
    && !env.statementFails
    && if step == OCR then
         FilesOf(db, u) != [] && forall i | 0 <= i < |FilesOf(db, u)| :: Finishable(env, FilesOf(db, u)[i])
       else if step == ANALYZE then
         && FilesOf(db, u) != [] && (forall i | 0 <= i < |FilesOf(db, u)| :: HasText(FilesOf(db, u)[i]))
         && Converts(env) && u in db.uploads
         && (env.analysisId in db.analyses ==> db.analyses[env.analysisId].uploadId == u)
         && SparesReplace(env.fault, |env.reply.reply.value.transactions|)
       else u in db.uploads
  }

  /** The model replies, and every entry of the reply can be converted. */
  predicate Converts(env: Env) {
    && env.reply.Replied? && env.reply.reply.Some?
    && forall i | 0 <= i < |env.reply.reply.value.transactions| ::
         BuildTransaction(env.reply.reply.value.transactions[i]).Ok?
  }

  lemma ReplyIsBuiltIff(env: Env, u: Uuid)
    requires env.reply.Replied?
    ensures var built := Built(env.analysisId, u, env.reply.reply);
      && (built.Ok? <==> Converts(env))
      && (built.Ok? ==>
            && built.value.id == env.analysisId && built.value.analysis.uploadId == u
            && |built.value.entries| == |env.reply.reply.value.transactions|)
  {
    if env.reply.reply.Some? { NoRowVanishes(env.analysisId, u, env.reply.reply.value); }
  }

  lemma StoredIff(db: Database, u: Uuid, env: Env)
    requires env.reply.Replied?
    ensures var built := Built(env.analysisId, u, env.reply.reply);
      built.Ok? && ReplaceOutcome(db, built.value, env.fault).1
      <==> && Converts(env) && u in db.uploads
           && (env.analysisId in db.analyses ==> db.analyses[env.analysisId].uploadId == u)
           && SparesReplace(env.fault, |env.reply.reply.value.transactions|)
  {
    ReplyIsBuiltIff(env, u);
    var built := Built(env.analysisId, u, env.reply.reply);
    if built.Ok? { ReplaceSucceedsIff(db, built.value, env.fault); }
  }

  lemma AnalyzedOnlyIf(db: Database, u: Uuid, env: Env)
    ensures Analyzed(db, u, env).1
      <==> && !env.statementFails && StatementsReady(FilesOf(db, u)) && env.reply.Replied?
           && var built := Built(env.analysisId, u, env.reply.reply);
              built.Ok? && ReplaceOutcome(db, built.value, env.fault).1
  {
  }

  lemma AnalyzeSucceedsIff(db: Database, u: Uuid, env: Env)
    ensures Analyzed(db, u, env).1 <==> CanSucceed(ANALYZE, db, u, env)
  {
    AnalyzedOnlyIf(db, u, env);
    if env.reply.Replied? { StoredIff(db, u, env); }
  }

  /** Exactly when a step's handler returns without an error. */
  lemma StepSucceedsIff(step: nat, db: Database, u: Uuid, env: Env)
    requires step <= 3
    ensures Do(step, db, u, env).1 <==> CanSucceed(step, db, u, env)
  {
    if step == OCR { OcrFromSucceedsIff(db, FilesOf(db, u), env); }
    if step == ANALYZE { AnalyzeSucceedsIff(db, u, env); }
  }

  /******* One hop *******/

  /** The handler succeeds and the delivery is acknowledged. */
  predicate Good(step: nat, u: Uuid, db: Database, d: Delivery)
    requires step <= 3
  {
    Do(step, db, u, d.env).1 && d.acked
  }

  function PhaseAfter(step: nat): Phase {
    if step == MARK_COMPLETED then Finished else Forward(step + 1)
  }

  /** A good delivery moves the run to the next step with a fresh budget, and from the last one to its end. */
  lemma GoodDelivery(cfg: Config, run: Run, db: Database, d: Delivery)
    requires WellFormedRun(run) && run.phase.Forward? && Good(run.phase.step, run.upload, db, d)
    ensures Deliver(cfg, run, db, d)
      == (Run(run.upload, PhaseAfter(run.phase.step), 0), Do(run.phase.step, db, run.upload, d.env).0)
  {
  }

  /** Any other one is delivered again while the budget lasts; then the run gives up at this step. */
  lemma BadDelivery(cfg: Config, run: Run, db: Database, d: Delivery)
    requires WellFormedRun(run) && run.phase.Forward? && !Good(run.phase.step, run.upload, db, d)
    ensures var step := run.phase.step; var (next, db') := Deliver(cfg, run, db, d);
      && (run.attempts < cfg.maxRetry ==>
            next == run.(attempts := run.attempts + 1) && db' == Do(step, db, run.upload, d.env).0)
      && (run.attempts >= cfg.maxRetry ==>
            next == Run(run.upload, if step == MARK_COMPLETED then Rollback(step, ANALYZE, CauseOf(cfg, d))
                                    else Aborted(step), 0))
  {
    assert LastCompensable(3) == 2 && LastCompensable(2) == LastCompensable(1) == LastCompensable(0) == -1;
  }

  /** What the attempts at one step leave in the database. */
  function HopDb(step: nat, u: Uuid, db: Database, ds: seq<Delivery>): Database
    requires step <= 3
    decreases |ds|
  {
    if ds == [] then db else HopDb(step, u, Do(step, db, u, ds[0].env).0, ds[1..])
  }

  /** Every delivery but the last is bad, and the last one is good. */
  predicate HopSucceeds(step: nat, u: Uuid, db: Database, ds: seq<Delivery>)
    requires step <= 3
    decreases |ds|
  {
    && ds != []
    && if |ds| == 1 then Good(step, u, db, ds[0])
       else !Good(step, u, db, ds[0]) && HopSucceeds(step, u, Do(step, db, u, ds[0].env).0, ds[1..])
  }

  predicate AllBad(step: nat, u: Uuid, db: Database, ds: seq<Delivery>)
    requires step <= 3
    decreases |ds|
  {
    ds == [] || (!Good(step, u, db, ds[0]) && AllBad(step, u, Do(step, db, u, ds[0].env).0, ds[1..]))
  }

  lemma {:induction false} HopAdvances(cfg: Config, run: Run, db: Database, ds: seq<Delivery>)
    requires WellFormedRun(run) && run.phase.Forward? && run.attempts + |ds| <= cfg.maxRetry + 1
    requires HopSucceeds(run.phase.step, run.upload, db, ds)
    ensures Execute(cfg, run, db, ds)
      == (Run(run.upload, PhaseAfter(run.phase.step), 0), HopDb(run.phase.step, run.upload, db, ds))
    decreases |ds|
  {
    var (next, db') := Deliver(cfg, run, db, ds[0]);
    DeliverKeepsForm(cfg, run, db, ds[0]);
    if |ds| == 1 {
      GoodDelivery(cfg, run, db, ds[0]);
      assert ds[1..] == [];
      assert Execute(cfg, next, db', []) == (next, db');
    } else {
      BadDelivery(cfg, run, db, ds[0]);
      HopAdvances(cfg, next, db', ds[1..]);
    }
  }

  lemma {:induction false} HopWaits(cfg: Config, run: Run, db: Database, ds: seq<Delivery>)
    requires WellFormedRun(run) && run.phase.Forward? && run.attempts + |ds| <= cfg.maxRetry
    requires AllBad(run.phase.step, run.upload, db, ds)
    ensures Execute(cfg, run, db, ds)
      == (run.(attempts := run.attempts + |ds|), HopDb(run.phase.step, run.upload, db, ds))
    decreases |ds|
  {
    if ds != [] {
      var (next, db') := Deliver(cfg, run, db, ds[0]);
      DeliverKeepsForm(cfg, run, db, ds[0]);
      BadDelivery(cfg, run, db, ds[0]);
      HopWaits(cfg, next, db', ds[1..]);
    }
  }

  predicate GivenUp(phase: Phase, step: nat) {
    phase == Aborted(step) || (step == MARK_COMPLETED && phase.Rollback?)
  }

  lemma {:induction false} HopGivesUp(cfg: Config, run: Run, db: Database, ds: seq<Delivery>)
    requires WellFormedRun(run) && run.phase.Forward? && run.attempts + |ds| == cfg.maxRetry + 1 && ds != []
    requires AllBad(run.phase.step, run.upload, db, ds)
    ensures GivenUp(Execute(cfg, run, db, ds).0.phase, run.phase.step)
    decreases |ds|
  {
    var (next, db') := Deliver(cfg, run, db, ds[0]);
    DeliverKeepsForm(cfg, run, db, ds[0]);
    BadDelivery(cfg, run, db, ds[0]);
    if |ds| == 1 {
      assert ds[1..] == [];
      assert Execute(cfg, next, db', []) == (next, db');
    } else {
      HopGivesUp(cfg, next, db', ds[1..]);
    }
  }

  /** Among `n` deliveries of a hop one is the first good one, or all are bad. */
  lemma {:induction false} HopSettles(step: nat, u: Uuid, db: Database, ds: seq<Delivery>) returns (n: nat)
    requires step <= 3
    ensures n <= |ds|
    ensures if n == 0 then AllBad(step, u, db, ds) else HopSucceeds(step, u, db, ds[..n])
    decreases |ds|
  {
    if ds == [] {
      n := 0;
    } else if Good(step, u, db, ds[0]) {
      n := 1;
      assert ds[..1] == [ds[0]];
    } else {
      var m := HopSettles(step, u, Do(step, db, u, ds[0].env).0, ds[1..]);
      n := if m == 0 then 0 else m + 1;
      if m > 0 { assert ds[..m+1][0] == ds[0] && ds[..m+1][1..] == ds[1..][..m]; }
    }
  }

  /******* Exactly when a run finishes *******/

  lemma {:induction false} ExecuteAppend(cfg: Config, run: Run, db: Database, a: seq<Delivery>, b: seq<Delivery>)
    requires WellFormedRun(run)
    ensures var (mid, db') := Execute(cfg, run, db, a);
      WellFormedRun(mid) && Execute(cfg, run, db, a + b) == Execute(cfg, mid, db', b)
    decreases |a|
  {
    if a == [] {
      assert a + b == b;
    } else {
      var (next, db') := Deliver(cfg, run, db, a[0]);
      DeliverKeepsForm(cfg, run, db, a[0]);
      assert (a + b)[0] == a[0] && (a + b)[1..] == a[1..] + b;
      ExecuteAppend(cfg, next, db', a[1..], b);
    }
  }

  /** From this step on, every hop has a good delivery within its budget. */
  ghost predicate Prospers(cfg: Config, step: nat, u: Uuid, db: Database, ds: seq<Delivery>)
    requires step <= 3
    decreases 3 - step
  {
    exists n | 1 <= n <= |ds| ::
      && n <= cfg.maxRetry + 1 && HopSucceeds(step, u, db, ds[..n])
      && (step == MARK_COMPLETED || Prospers(cfg, step + 1, u, HopDb(step, u, db, ds[..n]), ds[n..]))
  }

  lemma {:induction false} NoReturn(cfg: Config, run: Run, db: Database, ds: seq<Delivery>)
    requires WellFormedRun(run) && (run.phase.Rollback? || run.phase.Aborted? || run.phase.Stuck?)
    ensures !Execute(cfg, run, db, ds).0.phase.Finished?
    decreases |ds|
  {
    if ds != [] {
      var (next, db') := Deliver(cfg, run, db, ds[0]);
      DeliverKeepsForm(cfg, run, db, ds[0]);
      if run.phase.Rollback? { RollbackCases(cfg, run, db, ds[0]); }
      NoReturn(cfg, next, db', ds[1..]);
    }
  }

  lemma HopThenRest(cfg: Config, step: nat, u: Uuid, db: Database, ds: seq<Delivery>, n: nat)
    requires step <= 3 && 1 <= n <= |ds| && n <= cfg.maxRetry + 1 && HopSucceeds(step, u, db, ds[..n])
    ensures WellFormedRun(Run(u, PhaseAfter(step), 0))
    ensures Execute(cfg, Run(u, Forward(step), 0), db, ds)
      == Execute(cfg, Run(u, PhaseAfter(step), 0), HopDb(step, u, db, ds[..n]), ds[n..])
  {
    var run := Run(u, Forward(step), 0);
    assert ds == ds[..n] + ds[n..];
    ExecuteAppend(cfg, run, db, ds[..n], ds[n..]);
    HopAdvances(cfg, run, db, ds[..n]);
  }

  lemma HopNeverGood(cfg: Config, step: nat, u: Uuid, db: Database, ds: seq<Delivery>)
    requires step <= 3 && AllBad(step, u, db, if |ds| <= cfg.maxRetry then ds else ds[..cfg.maxRetry+1])
    ensures !Execute(cfg, Run(u, Forward(step), 0), db, ds).0.phase.Finished?
  {
    var run := Run(u, Forward(step), 0);
    if |ds| <= cfg.maxRetry {
      HopWaits(cfg, run, db, ds);
    } else {
      var first, rest := ds[..cfg.maxRetry+1], ds[cfg.maxRetry+1..];
      assert ds == first + rest;
      ExecuteAppend(cfg, run, db, first, rest);
      HopGivesUp(cfg, run, db, first);
      var (end, db') := Execute(cfg, run, db, first);
      NoReturn(cfg, end, db', rest);
    }
  }

  /**
   A run finishes if and only if each of its hops has an acknowledged success within its own budget of
   MaxRetry + 1 deliveries.
   */
  lemma {:induction false} FinishesIff(cfg: Config, step: nat, u: Uuid, db: Database, ds: seq<Delivery>)
    requires step <= 3
    ensures Execute(cfg, Run(u, Forward(step), 0), db, ds).0.phase.Finished? <==> Prospers(cfg, step, u, db, ds)
    decreases 3 - step
  {
    if Prospers(cfg, step, u, db, ds) {
      var n :| 1 <= n <= |ds| && n <= cfg.maxRetry + 1 && HopSucceeds(step, u, db, ds[..n])
        && (step == MARK_COMPLETED || Prospers(cfg, step + 1, u, HopDb(step, u, db, ds[..n]), ds[n..]));
      FinishesAfter(cfg, step, u, db, ds, n);
    } else {
      var within := if |ds| <= cfg.maxRetry then ds else ds[..cfg.maxRetry+1];
      var n := HopSettles(step, u, db, within);
      if n == 0 {
        HopNeverGood(cfg, step, u, db, ds);
      } else {
        assert within[..n] == ds[..n];
        FinishesAfter(cfg, step, u, db, ds, n);
      }
    }
  }

  lemma {:induction false} FinishesAfter(cfg: Config, step: nat, u: Uuid, db: Database, ds: seq<Delivery>, n: nat)
    requires step <= 3 && 1 <= n <= |ds| && n <= cfg.maxRetry + 1 && HopSucceeds(step, u, db, ds[..n])
    ensures Execute(cfg, Run(u, Forward(step), 0), db, ds).0.phase.Finished?
      <==> step == MARK_COMPLETED || Prospers(cfg, step + 1, u, HopDb(step, u, db, ds[..n]), ds[n..])
    decreases 3 - step, 0
  {
    HopThenRest(cfg, step, u, db, ds, n);
    var db' := HopDb(step, u, db, ds[..n]);
    if step == MARK_COMPLETED {
      TerminalStays(cfg, Run(u, Finished, 0), db', ds[n..]);
    } else {
      FinishesIff(cfg, step + 1, u, db', ds[n..]);
    }
  }

  /******* What a finished run has done *******/

  /** What one attempt at a step leaves alone. */
  lemma AttemptKeeps(step: nat, u: Uuid, db: Database, env: Env)
    requires step <= 3 && Consistent(db) && u in db.uploads
    ensures var db' := Do(step, db, u, env).0;
      && Consistent(db') && u in db'.uploads && Progress(db.files, db'.files)
      && (step != ANALYZE ==> db'.analyses == db.analyses && db'.transactions == db.transactions)
      && (step == OCR || step == ANALYZE ==> db'.uploads == db.uploads)
  {
    if step == OCR { OcrPassMeaning(db, u, env); }
    else if step == ANALYZE { AnalyzedMeaning(db, u, env); }
    else { StatusMeaning(db, u, if step == MARK_PROCESSING then Processing else Completed, None); }
  }

  lemma {:induction false} HopKeeps(step: nat, u: Uuid, db: Database, ds: seq<Delivery>)
    requires step <= 3 && Consistent(db) && u in db.uploads
    ensures var db' := HopDb(step, u, db, ds);
      && Consistent(db') && u in db'.uploads && Progress(db.files, db'.files)
      && (step != ANALYZE ==> db'.analyses == db.analyses && db'.transactions == db.transactions)
      && (step == OCR || step == ANALYZE ==> db'.uploads == db.uploads)
    decreases |ds|
  {
    if ds != [] {
      var mid := Do(step, db, u, ds[0].env).0;
      AttemptKeeps(step, u, db, ds[0].env);
      HopKeeps(step, u, mid, ds[1..]);
      ProgressTransitive(db.files, mid.files, HopDb(step, u, mid, ds[1..]).files);
    }
  }

  /** The entries are those of the reply this delivery got, converted one by one. */
  ghost predicate GotEntries(env: Env, entries: seq<Entry>) {
    && env.reply.Replied? && env.reply.reply.Some?
    && RowForRow(BuildTransaction, env.reply.reply.value.transactions, entries)
  }

  /** What a step is for. */
  ghost predicate Achieved(step: nat, u: Uuid, db: Database, env: Env) {
    && u in db.uploads
    && (step == MARK_PROCESSING ==> Shows(db, u, Processing))
    && (step == OCR ==> Ready(db, u))
    && (step == ANALYZE ==> GotEntries(env, Delivered(u, env)) && Holds(db, u, Some(Delivered(u, env))))
    && (step == MARK_COMPLETED ==> Shows(db, u, Completed))
  }

  lemma SuccessAchieves(step: nat, u: Uuid, db: Database, env: Env)
    requires step <= 3 && Consistent(db) && u in db.uploads && Do(step, db, u, env).1
    ensures Achieved(step, u, Do(step, db, u, env).0, env)
  {
    AttemptKeeps(step, u, db, env);
    if step == OCR { OcrPassMeaning(db, u, env); }
    if step == ANALYZE {
      AnalyzedMeaning(db, u, env);
      AnalyzeSucceedsIff(db, u, env);
      NoRowVanishes(env.analysisId, u, env.reply.reply.value);
      ReplyIsBuiltIff(env, u);
    }
  }

  lemma OnlyAttemptAchieves(step: nat, u: Uuid, db: Database, d: Delivery)
    requires step <= 3 && Consistent(db) && u in db.uploads && Good(step, u, db, d)
    ensures Achieved(step, u, HopDb(step, u, db, [d]), d.env)
  {
    SuccessAchieves(step, u, db, d.env);
    assert [d][1..] == [];
    assert HopDb(step, u, Do(step, db, u, d.env).0, []) == Do(step, db, u, d.env).0;
  }

  lemma HopDbSteps(step: nat, u: Uuid, db: Database, ds: seq<Delivery>)
    requires step <= 3 && ds != []
    ensures HopDb(step, u, db, ds) == HopDb(step, u, Do(step, db, u, ds[0].env).0, ds[1..])
  {
  }

  /** The deliveries of a hop that went through, the last of which is `last`. */
  lemma {:induction false} HopAchieves(step: nat, u: Uuid, db: Database, ds: seq<Delivery>, last: Delivery)
    requires step <= 3 && Consistent(db) && u in db.uploads && HopSucceeds(step, u, db, ds) && last == ds[|ds|-1]
    ensures Achieved(step, u, HopDb(step, u, db, ds), last.env)
    decreases |ds|
  {
    if |ds| == 1 {
      OnlyAttemptAchieves(step, u, db, last);
      assert ds == [last];
    } else {
      var rest := ds[1..];
      AttemptKeeps(step, u, db, ds[0].env);
      assert last == rest[|rest|-1];
      HopAchieves(step, u, Do(step, db, u, ds[0].env).0, rest, last);
      HopDbSteps(step, u, db, ds);
    }
  }

  /** The first hop of a run that prospers, with what it achieves and what it leaves alone. */
  lemma FirstHop(cfg: Config, step: nat, u: Uuid, db: Database, ds: seq<Delivery>) returns (n: nat, last: Delivery)
    requires step <= 3 && Consistent(db) && u in db.uploads && Prospers(cfg, step, u, db, ds)
    ensures 1 <= n <= |ds| && last in ds
    ensures var db' := HopDb(step, u, db, ds[..n]);
      && WellFormedRun(Run(u, PhaseAfter(step), 0))
      && Execute(cfg, Run(u, Forward(step), 0), db, ds) == Execute(cfg, Run(u, PhaseAfter(step), 0), db', ds[n..])
      && Consistent(db') && u in db'.uploads && Progress(db.files, db'.files) && Achieved(step, u, db', last.env)
      && (step != ANALYZE ==> db'.analyses == db.analyses && db'.transactions == db.transactions)
      && (step == OCR || step == ANALYZE ==> db'.uploads == db.uploads)
      && (step < MARK_COMPLETED ==> Prospers(cfg, step + 1, u, db', ds[n..]))
  {
    n :| 1 <= n <= |ds| && n <= cfg.maxRetry + 1 && HopSucceeds(step, u, db, ds[..n])
      && (step == MARK_COMPLETED || Prospers(cfg, step + 1, u, HopDb(step, u, db, ds[..n]), ds[n..]));
    last := ds[n-1];
    HopThenRest(cfg, step, u, db, ds, n);
    HopKeeps(step, u, db, ds[..n]);
    HopAchieves(step, u, db, ds[..n], last);
  }

  /** The entries some acknowledged analyze delivery got are exactly what the upload's analysis holds. */
  ghost predicate HoldsAReply(u: Uuid, db: Database, ds: seq<Delivery>) {
    exists d :: d in ds && GotEntries(d.env, Delivered(u, d.env)) && Holds(db, u, Some(Delivered(u, d.env)))
  }

  lemma LastHops(cfg: Config, u: Uuid, db: Database, ds: seq<Delivery>)
    requires Consistent(db) && u in db.uploads && Ready(db, u) && Prospers(cfg, ANALYZE, u, db, ds)
    ensures var (run, db') := Execute(cfg, Run(u, Forward(ANALYZE), 0), db, ds);
      && run.phase.Finished? && u in db'.uploads && Shows(db', u, Completed) && Ready(db', u)
      && HoldsAReply(u, db', ds)
  {
    var n, analyzed := FirstHop(cfg, ANALYZE, u, db, ds);
    var db1 := HopDb(ANALYZE, u, db, ds[..n]);
    ProgressKeepsReady(db, db1, u);
    var m, marked := FirstHop(cfg, MARK_COMPLETED, u, db1, ds[n..]);
    var db2 := HopDb(MARK_COMPLETED, u, db1, ds[n..][..m]);
    ProgressKeepsReady(db1, db2, u);
    HoldsSame(db1, db2, u, Some(Delivered(u, analyzed.env)));
    TerminalStays(cfg, Run(u, Finished, 0), db2, ds[n..][m..]);
  }

  /**
   A fresh run whose every hop has an acknowledged success within its budget finishes: the upload is
   completed, every file has its text, and exactly the entries of a reply it got are stored, in order.
   */
  lemma ProsperousRunFinishes(cfg: Config, u: Uuid, db: Database, ds: seq<Delivery>)
    requires Consistent(db) && u in db.uploads && Prospers(cfg, MARK_PROCESSING, u, db, ds)
    ensures var (run, db') := Execute(cfg, Start(u), db, ds);
      && run.phase.Finished? && u in db'.uploads && Shows(db', u, Completed) && Ready(db', u)
      && HoldsAReply(u, db', ds)
  {
    var n, begun := FirstHop(cfg, MARK_PROCESSING, u, db, ds);
    var db1 := HopDb(MARK_PROCESSING, u, db, ds[..n]);
    var m, read := FirstHop(cfg, OCR, u, db1, ds[n..]);
    var db2, rest := HopDb(OCR, u, db1, ds[n..][..m]), ds[n..][m..];
    LastHops(cfg, u, db2, rest);
    var end := Execute(cfg, Start(u), db, ds).1;
    var d :| d in rest && GotEntries(d.env, Delivered(u, d.env)) && Holds(end, u, Some(Delivered(u, d.env)));
    assert d in ds[n..];
    assert d in ds;
  }

  /******* When nothing fails *******/

  /** Nothing fails: every file has a text or OCR finds one, the reply converts, and its uuid is new or the upload's. */
  predicate NothingFails(db: Database, u: Uuid, env: Env) {
    && !env.statementFails && env.fault.NoFault? && Converts(env)
    && FilesOf(db, u) != [] && (forall i | 0 <= i < |FilesOf(db, u)| :: Finishable(env, FilesOf(db, u)[i]))
    && (env.analysisId in db.analyses ==> db.analyses[env.analysisId].uploadId == u)
  }

  /** The same delivery is good at this step and at each one after it. */
  predicate GoodThroughout(step: nat, u: Uuid, db: Database, d: Delivery)
    requires step <= 3
    decreases 3 - step
  {
    Good(step, u, db, d) && (step < MARK_COMPLETED ==> GoodThroughout(step + 1, u, Do(step, db, u, d.env).0, d))
  }

  function Times(d: Delivery, n: nat): (ds: seq<Delivery>)
    ensures |ds| == n && forall i | 0 <= i < n :: ds[i] == d
  {
    if n == 0 then [] else [d] + Times(d, n - 1)
  }

  lemma {:induction false} GoodThroughoutProspers(cfg: Config, step: nat, u: Uuid, db: Database, d: Delivery)
    requires step <= 3 && GoodThroughout(step, u, db, d)
    ensures Prospers(cfg, step, u, db, Times(d, 4 - step))
    decreases 3 - step
  {
    if step < MARK_COMPLETED { GoodThroughoutProspers(cfg, step + 1, u, Do(step, db, u, d.env).0, d); }
    GoodThenProspers(cfg, step, u, db, d, Times(d, 3 - step));
  }

  lemma MarkedIsBenign(u: Uuid, db: Database, env: Env)
    requires Consistent(db) && u in db.uploads && NothingFails(db, u, env)
    ensures var (db', ok) := Do(MARK_PROCESSING, db, u, env);
      ok && Consistent(db') && u in db'.uploads && NothingFails(db', u, env)
  {
    StepSucceedsIff(MARK_PROCESSING, db, u, env);
    AttemptKeeps(MARK_PROCESSING, u, db, env);
    assert FilesOf(Do(MARK_PROCESSING, db, u, env).0, u) == FilesOf(db, u);
  }

  lemma ReadIsBenign(u: Uuid, db: Database, env: Env)
    requires Consistent(db) && u in db.uploads && NothingFails(db, u, env)
    ensures var (db', ok) := Do(OCR, db, u, env);
      ok && Consistent(db') && u in db'.uploads && CanSucceed(ANALYZE, db', u, env)
  {
    StepSucceedsIff(OCR, db, u, env);
    AttemptKeeps(OCR, u, db, env);
    OcrPassMeaning(db, u, env);
  }

  lemma NothingFailsIsGood(u: Uuid, db: Database, d: Delivery)
    requires Consistent(db) && u in db.uploads && NothingFails(db, u, d.env) && d.acked
    ensures GoodThroughout(MARK_PROCESSING, u, db, d)
  {
    var db1 := Do(MARK_PROCESSING, db, u, d.env).0;
    MarkedIsBenign(u, db, d.env);
    var db2 := Do(OCR, db1, u, d.env).0;
    ReadIsBenign(u, db1, d.env);
    var db3 := Do(ANALYZE, db2, u, d.env).0;
    StepSucceedsIff(ANALYZE, db2, u, d.env);
    AttemptKeeps(ANALYZE, u, db2, d.env);
    StepSucceedsIff(MARK_COMPLETED, db3, u, d.env);
    assert GoodThroughout(MARK_COMPLETED, u, db3, d);
    assert GoodThroughout(ANALYZE, u, db2, d);
    assert GoodThroughout(OCR, u, db1, d);
  }

  lemma OnlyReply(u: Uuid, db: Database, ds: seq<Delivery>, d: Delivery)
    requires HoldsAReply(u, db, ds) && forall i | 0 <= i < |ds| :: ds[i] == d
    ensures GotEntries(d.env, Delivered(u, d.env)) && Holds(db, u, Some(Delivered(u, d.env)))
  {
  }

  /** When nothing fails, four acknowledged deliveries finish a run, whatever the retry budget. */
  lemma NothingFailsFinishes(cfg: Config, u: Uuid, db: Database, env: Env)
    requires Consistent(db) && u in db.uploads && NothingFails(db, u, env)
    ensures var d := Delivery(env, true, false);
      var (run, db') := Execute(cfg, Start(u), db, [d, d, d, d]);
      && run.phase.Finished? && u in db'.uploads && Shows(db', u, Completed) && Ready(db', u)
      && GotEntries(env, Delivered(u, env)) && Holds(db', u, Some(Delivered(u, env)))
  {
    var d := Delivery(env, true, false);
    NothingFailsIsGood(u, db, d);
    GoodThroughoutProspers(cfg, MARK_PROCESSING, u, db, d);
    assert Times(d, 4) == [d, d, d, d];
    ProsperousRunFinishes(cfg, u, db, [d, d, d, d]);
    OnlyReply(u, Execute(cfg, Start(u), db, [d, d, d, d]).1, [d, d, d, d], d);
  }

  lemma GoodThenProspers(cfg: Config, step: nat, u: Uuid, db: Database, d: Delivery, rest: seq<Delivery>)
    requires step <= 3 && Good(step, u, db, d)
    requires step < MARK_COMPLETED ==> Prospers(cfg, step + 1, u, Do(step, db, u, d.env).0, rest)
    ensures Prospers(cfg, step, u, db, [d] + rest)
  {
    var ds := [d] + rest;
    assert ds[..1] == [d] && ds[1..] == rest && [d][1..] == [];
    assert HopDb(step, u, Do(step, db, u, d.env).0, []) == Do(step, db, u, d.env).0;
    assert HopDb(step, u, db, [d]) == Do(step, db, u, d.env).0;
    assert HopSucceeds(step, u, db, ds[..1]);
  }

  /******* How a rollback ends *******/

  /** The compensation goes through and is acknowledged. */
  predicate Undoes(d: Delivery) {
    !d.env.statementFails && d.acked
  }

  lemma UndoingDelivery(cfg: Config, run: Run, db: Database, d: Delivery)
    requires WellFormedRun(run) && run.phase.Rollback?
    ensures var (next, db') := Deliver(cfg, run, db, d);
      && (Undoes(d) ==> next.phase == Aborted(run.phase.failed))
      && (!Undoes(d) && run.attempts < cfg.maxRetry ==> next == run.(attempts := run.attempts + 1))
      && (!Undoes(d) && run.attempts >= cfg.maxRetry ==> next.phase == Stuck)
  {
    assert LastCompensable(2) == LastCompensable(1) == LastCompensable(0) == -1;
  }

  /**
   Given its budget of deliveries, a rollback ends as aborted if one of them undoes the analysis, and as
   stuck otherwise.
   */
  lemma {:induction false} RollbackEnds(cfg: Config, run: Run, db: Database, ds: seq<Delivery>)
    requires WellFormedRun(run) && run.phase.Rollback? && run.attempts <= cfg.maxRetry
    requires |ds| >= cfg.maxRetry + 1 - run.attempts
    ensures Execute(cfg, run, db, ds).0.phase
      == if exists i | 0 <= i < cfg.maxRetry + 1 - run.attempts :: Undoes(ds[i]) then Aborted(run.phase.failed)
         else Stuck
    decreases |ds|
  {
    var (next, db') := Deliver(cfg, run, db, ds[0]);
    DeliverKeepsForm(cfg, run, db, ds[0]);
    UndoingDelivery(cfg, run, db, ds[0]);
    if next.phase.Rollback? {
      RollbackEnds(cfg, next, db', ds[1..]);
      assert forall i | 0 < i < |ds| :: ds[i] == ds[1..][i-1];
      assert forall i | 0 <= i < |ds[1..]| :: ds[1..][i] == ds[i+1];
    } else {
      TerminalStays(cfg, next, db', ds[1..]);
    }
  }

  /******* Which error the stored reason quotes *******/

  /** The names of the steps, as the reasons show them. */
  function Label(step: nat): string {
    if step == MARK_PROCESSING then "mark_processing"
    else if step == OCR then "ocr"
    else if step == ANALYZE then "analyze"
    else "mark_completed"
  }

  /** The delivery's own error, scrubbed, or the placeholder when it was never acknowledged. */
  function Quoted(cfg: Config, d: Delivery): string {
    if d.acked then Cleaned(cfg.secrets, Cleaned(cfg.secrets, d.env.errorText)) else NO_REASON
  }

  ghost predicate ReasonIs(db: Database, u: Uuid, reason: string) {
    u in db.uploads && db.uploads[u].failureReason == Some(reason)
  }

  /** After `i` deliveries the run stands at a step with its budget spent, and the next delivery is bad. */
  predicate GivesUpAt(cfg: Config, run: Run, db: Database, ds: seq<Delivery>, i: nat, step: nat)
    requires WellFormedRun(run) && step <= 3
  {
    && i < |ds|
    && var (at, db') := Execute(cfg, run, db, ds[..i]);
       && at.phase == Forward(step) && at.attempts >= cfg.maxRetry && !Good(step, run.upload, db', ds[i])
  }

  /** After `i` deliveries the run rolls back with its budget spent, and the next delivery undoes nothing. */
  predicate SticksAt(cfg: Config, run: Run, db: Database, ds: seq<Delivery>, i: nat)
    requires WellFormedRun(run)
  {
    && i < |ds|
    && var (at, db') := Execute(cfg, run, db, ds[..i]);
       && at.phase.Rollback? && at.attempts >= cfg.maxRetry && !Undoes(ds[i])
  }

  lemma StepsLater(cfg: Config, run: Run, db: Database, ds: seq<Delivery>, i: nat)
    requires WellFormedRun(run) && i < |ds|
    ensures var (next, db') := Deliver(cfg, run, db, ds[0]);
      && WellFormedRun(next) && next.upload == run.upload
      && Execute(cfg, run, db, ds[..i+1]) == Execute(cfg, next, db', ds[1..][..i])
  {
    DeliverKeepsForm(cfg, run, db, ds[0]);
    assert ds[..i+1][0] == ds[0] && ds[..i+1][1..] == ds[1..][..i];
  }

  lemma NothingExecuted(cfg: Config, run: Run, db: Database, ds: seq<Delivery>)
    requires WellFormedRun(run)
    ensures Execute(cfg, run, db, ds[..0]) == (run, db)
  {
    assert ds[..0] == [];
  }

  lemma HookWrites(cfg: Config, u: Uuid, db: Database, step: nat, cause: Cause)
    requires step <= 3 && u in db.uploads
    ensures ReasonIs(MarkFailed(db, u, FailureReason(cfg, step, cause), true), u,
                     Label(step) + ": " + Rendered(cfg.secrets, cause))
    ensures ReasonIs(MarkFailed(db, u, RollbackReason(cfg, step, cause), true), u,
                     Label(step) + ": rollback failed: " + Rendered(cfg.secrets, cause))
  {
    ReasonIsUncut(cfg, step, cause);
    assert StepName(step) == Label(step);
  }

  /** The stored reason names the step that gave up and quotes the delivery that made it give up. */
  ghost predicate QuotesFailure(cfg: Config, run: Run, db: Database, ds: seq<Delivery>, end: Database, step: nat)
    requires WellFormedRun(run) && step <= 3
  {
    exists i: nat | i < |ds| ::
      GivesUpAt(cfg, run, db, ds, i, step) && ReasonIs(end, run.upload, Label(step) + ": " + Quoted(cfg, ds[i]))
  }

  /** The stored reason says that the rollback failed and quotes the delivery it stuck at. */
  ghost predicate QuotesRollback(cfg: Config, run: Run, db: Database, ds: seq<Delivery>, end: Database)
    requires WellFormedRun(run)
  {
    exists i: nat | i < |ds| ::
      && SticksAt(cfg, run, db, ds, i)
      && ReasonIs(end, run.upload, Label(ANALYZE) + ": rollback failed: " + Quoted(cfg, ds[i]))
  }

  lemma FailureQuotedLater(cfg: Config, run: Run, db: Database, ds: seq<Delivery>, end: Database, step: nat)
    requires WellFormedRun(run) && step <= 3 && ds != [] && WellFormedRun(Deliver(cfg, run, db, ds[0]).0)
    requires var (next, db') := Deliver(cfg, run, db, ds[0]);
      next.upload == run.upload && QuotesFailure(cfg, next, db', ds[1..], end, step)
    ensures QuotesFailure(cfg, run, db, ds, end, step)
  {
    var (next, db') := Deliver(cfg, run, db, ds[0]);
    var i: nat :| i < |ds[1..]| && GivesUpAt(cfg, next, db', ds[1..], i, step)
      && ReasonIs(end, run.upload, Label(step) + ": " + Quoted(cfg, ds[1..][i]));
    StepsLater(cfg, run, db, ds, i);
    assert GivesUpAt(cfg, run, db, ds, i + 1, step);
  }

  lemma RollbackQuotedLater(cfg: Config, run: Run, db: Database, ds: seq<Delivery>, end: Database)
    requires WellFormedRun(run) && ds != [] && WellFormedRun(Deliver(cfg, run, db, ds[0]).0)
    requires var (next, db') := Deliver(cfg, run, db, ds[0]);
      next.upload == run.upload && QuotesRollback(cfg, next, db', ds[1..], end)
    ensures QuotesRollback(cfg, run, db, ds, end)
  {
    var (next, db') := Deliver(cfg, run, db, ds[0]);
    var i: nat :| i < |ds[1..]| && SticksAt(cfg, next, db', ds[1..], i)
      && ReasonIs(end, run.upload, Label(ANALYZE) + ": rollback failed: " + Quoted(cfg, ds[1..][i]));
    StepsLater(cfg, run, db, ds, i);
    assert SticksAt(cfg, run, db, ds, i + 1);
  }

  lemma RollbackReasonAtOnce(cfg: Config, run: Run, db: Database, d: Delivery)
    requires WellFormedRun(run) && run.phase.Rollback? && run.upload in db.uploads && d.hookLands
    ensures var (next, db') := Deliver(cfg, run, db, d);
      && (next.phase.Aborted? ==>
            ReasonIs(db', run.upload, Label(run.phase.failed) + ": " + Rendered(cfg.secrets, run.phase.cause)))
      && (next.phase.Stuck? ==>
            ReasonIs(db', run.upload, Label(ANALYZE) + ": rollback failed: " + Quoted(cfg, d)))
  {
    var mid := Compensate(db, run.upload, d.env).0;
    UndoingDelivery(cfg, run, db, d);
    HookWrites(cfg, run.upload, mid, run.phase.failed, run.phase.cause);
    HookWrites(cfg, run.upload, mid, ANALYZE, CauseOf(cfg, d));
  }

  /** A rollback ends with the reason it began for, or with the error of the delivery that stuck. */
  lemma {:induction false} RollbackReasons(cfg: Config, run: Run, db: Database, ds: seq<Delivery>)
    requires WellFormedRun(run) && run.phase.Rollback? && Consistent(db) && run.upload in db.uploads && AllLand(ds)
    ensures var (end, db') := Execute(cfg, run, db, ds);
      && (end.phase.Aborted? ==>
            && end.phase.failed == run.phase.failed
            && ReasonIs(db', run.upload, Label(run.phase.failed) + ": " + Rendered(cfg.secrets, run.phase.cause)))
      && (end.phase.Stuck? ==> QuotesRollback(cfg, run, db, ds, db'))
      && !end.phase.Finished?
    decreases |ds|
  {
    if ds != [] {
      var (next, db') := Deliver(cfg, run, db, ds[0]);
      var (end, last) := Execute(cfg, run, db, ds);
      DeliverKeepsForm(cfg, run, db, ds[0]);
      DeliveredAnalyses(cfg, run, db, ds[0]);
      UndoingDelivery(cfg, run, db, ds[0]);
      if next.phase.Rollback? {
        RollbackReasons(cfg, next, db', ds[1..]);
        if end.phase.Stuck? { RollbackQuotedLater(cfg, run, db, ds, last); }
      } else {
        TerminalStays(cfg, next, db', ds[1..]);
        RollbackReasonAtOnce(cfg, run, db, ds[0]);
        NothingExecuted(cfg, run, db, ds);
        assert end.phase.Stuck? ==> SticksAt(cfg, run, db, ds, 0);
      }
    }
  }

  lemma FailureReasonAtOnce(cfg: Config, run: Run, db: Database, d: Delivery)
    requires WellFormedRun(run) && run.phase.Forward? && Consistent(db) && run.upload in db.uploads && d.hookLands
    ensures var (next, db') := Deliver(cfg, run, db, d);
      && (next.phase.Aborted? ==>
            && next.phase.failed == run.phase.step
            && ReasonIs(db', run.upload, Label(run.phase.step) + ": " + Quoted(cfg, d)))
      && (next.phase.Rollback? ==>
            next.phase.failed == run.phase.step && Rendered(cfg.secrets, next.phase.cause) == Quoted(cfg, d))
      && (next.phase.Aborted? || next.phase.Rollback? ==>
            run.attempts >= cfg.maxRetry && !Good(run.phase.step, run.upload, db, d))
  {
    var step := run.phase.step;
    if Good(step, run.upload, db, d) {
      GoodDelivery(cfg, run, db, d);
    } else {
      BadDelivery(cfg, run, db, d);
      AttemptKeeps(step, run.upload, db, d.env);
      HookWrites(cfg, run.upload, Do(step, db, run.upload, d.env).0, step, CauseOf(cfg, d));
    }
  }

  /**
   While hooks land, a run that ends through onFailed is stored with the name of a step that spent its
   whole budget and the error of the delivery that spent the last of it; one that ends stuck says that
   the rollback failed, with the error of the compensation that spent the last of its own.
   */
  lemma {:induction false} ReasonsQuote(cfg: Config, run: Run, db: Database, ds: seq<Delivery>)
    requires WellFormedRun(run) && run.phase.Forward? && Consistent(db) && run.upload in db.uploads && AllLand(ds)
    ensures var (end, db') := Execute(cfg, run, db, ds);
      && (end.phase.Aborted? ==> end.phase.failed <= 3 && QuotesFailure(cfg, run, db, ds, db', end.phase.failed))
      && (end.phase.Stuck? ==> QuotesRollback(cfg, run, db, ds, db'))
    decreases |ds|
  {
    if ds != [] {
      var (next, db') := Deliver(cfg, run, db, ds[0]);
      var (end, last) := Execute(cfg, run, db, ds);
      DeliverKeepsForm(cfg, run, db, ds[0]);
      DeliveredAnalyses(cfg, run, db, ds[0]);
      FailureReasonAtOnce(cfg, run, db, ds[0]);
      NothingExecuted(cfg, run, db, ds);
      if next.phase.Forward? {
        ReasonsQuote(cfg, next, db', ds[1..]);
        if end.phase.Aborted? { FailureQuotedLater(cfg, run, db, ds, last, end.phase.failed); }
        if end.phase.Stuck? { RollbackQuotedLater(cfg, run, db, ds, last); }
      } else if next.phase.Rollback? {
        RollbackReasons(cfg, next, db', ds[1..]);
        assert GivesUpAt(cfg, run, db, ds, 0, run.phase.step);
        if end.phase.Stuck? { RollbackQuotedLater(cfg, run, db, ds, last); }
      } else {
        TerminalStays(cfg, next, db', ds[1..]);
        assert end.phase.Aborted? ==> GivesUpAt(cfg, run, db, ds, 0, run.phase.step);
      }
    }
  }
}
