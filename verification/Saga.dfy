/**
 The analysis saga (internal/pipeline/pipeline.go and steps.go): four steps, one queue hop each,
 over the store.

 What taskQ does is taken from what the repository says of it: a hop is delivered again until it
 is acknowledged, a delivery counts as an attempt, MaxRetry + 1 attempts are made, and then the run
 pivots: the completed steps that have a compensation are compensated in reverse, each under the
 same budget, and a terminal hook fires.  Deliveries for one upload follow one another, as the
 lease rule demands.  An unacknowledged delivery has had its effect, whole or broken off, and is
 delivered again.

 Everything the outside world decides about a delivery is in its Env: which statement fails, what
 OCR and the model answer, the fresh uuid, and the text of the error a failing step returns.
 */
module Saga {
  import opened Tables
  import opened Text
  import opened Scrub
  import opened Convert
  import opened Store

  /******* Steps *******/

  datatype FileOutcome = Unreadable | ExtractFailed | Extracted(markdown: string, pages: int)

  datatype ReplyOutcome = LlmFailed | Replied(reply: Option<Response>)

  datatype Env = Env(
    errorText: string, statementFails: bool,
    extract: Uuid -> FileOutcome, ocrWriteFails: Uuid -> bool,
    reply: ReplyOutcome, analysisId: Uuid, fault: Fault)

  predicate HasOcr(f: UploadFile) {
    f.ocrMarkdown.Some? && !Blank(f.ocrMarkdown.value)
  }

  datatype OcrResult = OcrResult(db: Database, ok: bool, writes: nat)

  /** The loop of runOCR over the listed files; files that have their text are skipped. */
  function OcrFrom(db: Database, todo: seq<UploadFile>, env: Env): OcrResult
    decreases |todo|
  {
    if todo == [] then OcrResult(db, true, 0)
    else if HasOcr(todo[0]) then OcrFrom(db, todo[1..], env)
    else
      var id := todo[0].id;
      match env.extract(id)
      case Extracted(markdown, pages) =>
        if Blank(markdown) || env.ocrWriteFails(id) then OcrResult(db, false, 0)
        else
          var rest := OcrFrom(WithOcr(db, id, markdown, pages), todo[1..], env);
          rest.(writes := rest.writes + 1)
      case _ => OcrResult(db, false, 0)
  }

  function OcrPass(db: Database, u: Uuid, env: Env): OcrResult {
    var files := FilesOf(db, u);
    if env.statementFails || files == [] then OcrResult(db, false, 0) else OcrFrom(db, files, env)
  }

  /** Every listed file has its text, and there is one. */
  predicate StatementsReady(files: seq<UploadFile>) {
    files != [] && forall i | 0 <= i < |files| :: HasOcr(files[i])
  }

  function Analyzed(db: Database, u: Uuid, env: Env): (Database, bool) {
    if env.statementFails || !StatementsReady(FilesOf(db, u)) || env.reply.LlmFailed? then (db, false)
    else match Built(env.analysisId, u, env.reply.reply)
      case Err(_) => (db, false)
      case Ok(na) => ReplaceOutcome(db, na, env.fault)
  }

  function StatusStep(db: Database, u: Uuid, status: Status, env: Env): (Database, bool) {
    if env.statementFails || u !in db.uploads then (db, false) else (WithStatus(db, u, status, None), true)
  }

  const MARK_PROCESSING: nat := 0
  const OCR: nat := 1
  const ANALYZE: nat := 2
  const MARK_COMPLETED: nat := 3

  function StepName(step: nat): string
    requires step <= 3
  {
    ["mark_processing", "ocr", "analyze", "mark_completed"][step]
  }

  /** The Do of a step: the database afterwards, and whether it returned nil. */
  function Do(step: nat, db: Database, u: Uuid, env: Env): (Database, bool)
    requires step <= 3
  {
    if step == MARK_PROCESSING then StatusStep(db, u, Processing, env)
    else if step == OCR then var r := OcrPass(db, u, env); (r.db, r.ok)
    else if step == ANALYZE then Analyzed(db, u, env)
    else StatusStep(db, u, Completed, env)
  }

  /** Only analyze has a compensation. */
  predicate HasCompensation(step: nat) {
    step == ANALYZE
  }

  /** deleteAnalysis. */
  function Compensate(db: Database, u: Uuid, env: Env): (Database, bool) {
    if env.statementFails then (db, false) else (Deleted(db, u), true)
  }

  /******* Hooks *******/

  datatype ConfigData = ConfigData(secrets: seq<string>, maxRetry: nat)

  type Config = c: ConfigData | AllNonEmpty(c.secrets) witness ConfigData([], 0)

  function FailureReason(cfg: Config, step: nat, cause: Cause): string
    requires step <= 3
  {
    Truncated(StepName(step) + ": " + Rendered(cfg.secrets, cause), MAX_FAILURE_REASON_BYTES)
  }

  function RollbackReason(cfg: Config, step: nat, cause: Cause): string
    requires step <= 3
  {
    Truncated(StepName(step) + ": rollback failed: " + Rendered(cfg.secrets, cause), MAX_FAILURE_REASON_BYTES)
  }

  function MarkFailed(db: Database, u: Uuid, reason: string, lands: bool): Database {
    if lands then WithStatus(db, u, Failed, Some(reason)) else db
  }

  /******* Runs *******/

  datatype Phase =
    | Forward(step: nat)
    | Rollback(failed: nat, at: nat, cause: Cause)
    | Finished
    | Aborted(failed: nat)
    | Stuck

  /** `attempts` counts the deliveries of the current hop. */
  datatype Run = Run(upload: Uuid, phase: Phase, attempts: nat)

  predicate Terminal(phase: Phase) {
    phase.Finished? || phase.Aborted? || phase.Stuck?
  }

  predicate WellFormedRun(run: Run) {
    && (run.phase.Forward? ==> run.phase.step <= 3)
    && (run.phase.Rollback? ==> run.phase.at < run.phase.failed <= 3 && HasCompensation(run.phase.at))
    && (run.phase.Aborted? ==> run.phase.failed <= 3)
  }

  datatype Delivery = Delivery(env: Env, acked: bool, hookLands: bool)

  /** The last step before `below` that has to be compensated, or -1. */
  function LastCompensable(below: nat): (r: int)
    ensures -1 <= r < below && (r >= 0 ==> HasCompensation(r))
  {
    if below == 0 then -1
    else if HasCompensation(below - 1) then below - 1
    else LastCompensable(below - 1)
  }

  /** The next compensation, or the onFailed hook when none is left. */
  function Unwind(
      cfg: Config, run: Run, db: Database, below: nat, failed: nat, cause: Cause, lands: bool): (Run, Database)
    requires below <= failed <= 3
  {
    var at := LastCompensable(below);
    if at >= 0 then (run.(phase := Rollback(failed, at, cause), attempts := 0), db)
    else (run.(phase := Aborted(failed), attempts := 0),
          MarkFailed(db, run.upload, FailureReason(cfg, failed, cause), lands))
  }

  /** What is known of why a delivery did not succeed: the scrubbed error, or nothing if it was never acknowledged. */
  function CauseOf(cfg: Config, d: Delivery): Cause {
    if d.acked then Reported(Cleaned(cfg.secrets, d.env.errorText)) else Unreported
  }

  function ForwardStep(cfg: Config, run: Run, db: Database, d: Delivery): (Run, Database)
    requires WellFormedRun(run) && run.phase.Forward?
  {
    var step := run.phase.step;
    var (db', ok) := Do(step, db, run.upload, d.env);
    if ok && d.acked then
      (run.(phase := if step == MARK_COMPLETED then Finished else Forward(step + 1), attempts := 0), db')
    else if run.attempts < cfg.maxRetry then (run.(attempts := run.attempts + 1), db')
    else Unwind(cfg, run, db', step, step, CauseOf(cfg, d), d.hookLands)
  }

  function RollbackStep(cfg: Config, run: Run, db: Database, d: Delivery): (Run, Database)
    requires WellFormedRun(run) && run.phase.Rollback?
  {
    var phase := run.phase;
    var (db', ok) := Compensate(db, run.upload, d.env);
    if ok && d.acked then Unwind(cfg, run, db', phase.at, phase.failed, phase.cause, d.hookLands)
    else if run.attempts < cfg.maxRetry then (run.(attempts := run.attempts + 1), db')
    else (run.(phase := Stuck, attempts := 0),
          MarkFailed(db', run.upload, RollbackReason(cfg, phase.at, CauseOf(cfg, d)), d.hookLands))
  }

  /** One delivery of the run's current hop. */
  function Deliver(cfg: Config, run: Run, db: Database, d: Delivery): (Run, Database)
    requires WellFormedRun(run)
  {
    if run.phase.Forward? then ForwardStep(cfg, run, db, d)
    else if run.phase.Rollback? then RollbackStep(cfg, run, db, d)
    else (run, db)
  }

  function Start(u: Uuid): Run {
    Run(u, Forward(MARK_PROCESSING), 0)
  }

  lemma DeliverKeepsForm(cfg: Config, run: Run, db: Database, d: Delivery)
    requires WellFormedRun(run)
    ensures WellFormedRun(Deliver(cfg, run, db, d).0) && Deliver(cfg, run, db, d).0.upload == run.upload
  {
  }

  function Execute(cfg: Config, run: Run, db: Database, ds: seq<Delivery>): (Run, Database)
    requires WellFormedRun(run)
    decreases |ds|
  {
    if ds == [] then (run, db)
    else
      DeliverKeepsForm(cfg, run, db, ds[0]);
      var (run', db') := Deliver(cfg, run, db, ds[0]);
      Execute(cfg, run', db', ds[1..])
  }

  /******* Termination *******/

  /** `n` full retry budgets. */
  function Budgets(cfg: Config, n: nat): nat {
    if n == 0 then 0 else cfg.maxRetry + 1 + Budgets(cfg, n - 1)
  }

  /**
   How many deliveries a run can still take: what is left of this hop's budget, and full budgets for
   the hops after it.
   */
  function DeliveriesLeft(cfg: Config, run: Run): int
    requires WellFormedRun(run)
  {
    match run.phase
    case Forward(step) => Budgets(cfg, 5 - step) - run.attempts
    case Rollback(_, _, _) => Budgets(cfg, 1) - run.attempts
    case _ => 0
  }

  predicate WithinBudget(cfg: Config, run: Run) {
    !Terminal(run.phase) ==> run.attempts <= cfg.maxRetry
  }

  /** Where a forward delivery can lead: on, to another attempt of the same hop, or into unwinding. */
  lemma ForwardCases(cfg: Config, run: Run, db: Database, d: Delivery)
    requires WellFormedRun(run) && run.phase.Forward?
    ensures var next, step := ForwardStep(cfg, run, db, d).0, run.phase.step;
      || (next.attempts == 0 && next.phase == if step == MARK_COMPLETED then Finished else Forward(step + 1))
      || (run.attempts < cfg.maxRetry && next == run.(attempts := run.attempts + 1))
      || (next.attempts == 0 && next.phase == Aborted(step))
      || (next.attempts == 0 && step == MARK_COMPLETED
          && next.phase.Rollback? && next.phase.failed == step && next.phase.at == ANALYZE)
  {
    var step := run.phase.step;
    var (db', ok) := Do(step, db, run.upload, d.env);
    assert LastCompensable(3) == 2 && LastCompensable(2) == LastCompensable(1) == LastCompensable(0) == -1;
  }

  lemma RollbackCases(cfg: Config, run: Run, db: Database, d: Delivery)
    requires WellFormedRun(run) && run.phase.Rollback?
    ensures var next := RollbackStep(cfg, run, db, d).0;
      || (next.attempts == 0 && next.phase == Aborted(run.phase.failed))
      || (run.attempts < cfg.maxRetry && next == run.(attempts := run.attempts + 1))
      || (next.attempts == 0 && next.phase == Stuck)
  {
    assert LastCompensable(2) == LastCompensable(1) == LastCompensable(0) == -1;
  }

  lemma DeliveryUsesBudget(cfg: Config, run: Run, db: Database, d: Delivery)
    requires WellFormedRun(run) && WithinBudget(cfg, run) && !Terminal(run.phase)
    ensures var next := Deliver(cfg, run, db, d).0;
      && WellFormedRun(next) && WithinBudget(cfg, next)
      && DeliveriesLeft(cfg, next) < DeliveriesLeft(cfg, run)
  {
    DeliverKeepsForm(cfg, run, db, d);
    if run.phase.Forward? {
      ForwardCases(cfg, run, db, d);
      BudgetsPositive(cfg, 5 - run.phase.step);
    } else {
      RollbackCases(cfg, run, db, d);
      BudgetsPositive(cfg, 1);
    }
  }

  lemma BudgetsPositive(cfg: Config, n: nat)
    requires n > 0
    ensures Budgets(cfg, n) == cfg.maxRetry + 1 + Budgets(cfg, n - 1) > cfg.maxRetry
    ensures n > 1 ==> Budgets(cfg, n) >= Budgets(cfg, 1) + cfg.maxRetry + 1
  {
    if n > 1 { BudgetsPositive(cfg, n - 1); }
  }

  /** Every run reaches a terminal hook within MaxRetry + 1 deliveries for each step and for the compensation. */
  lemma {:induction false} RunsTerminate(cfg: Config, run: Run, db: Database, ds: seq<Delivery>)
    requires WellFormedRun(run) && WithinBudget(cfg, run)
    requires |ds| >= DeliveriesLeft(cfg, run)
    ensures Terminal(Execute(cfg, run, db, ds).0.phase)
    decreases |ds|
  {
    if Terminal(run.phase) {
      TerminalStays(cfg, run, db, ds);
    } else {
      BudgetsPositive(cfg, if run.phase.Forward? then 5 - run.phase.step else 1);
      DeliveryUsesBudget(cfg, run, db, ds[0]);
      var (run', db') := Deliver(cfg, run, db, ds[0]);
      RunsTerminate(cfg, run', db', ds[1..]);
    }
  }

  lemma {:induction false} TerminalStays(cfg: Config, run: Run, db: Database, ds: seq<Delivery>)
    requires WellFormedRun(run) && Terminal(run.phase)
    ensures Execute(cfg, run, db, ds) == (run, db)
    decreases |ds|
  {
    if ds != [] {
      TerminalStays(cfg, run, db, ds[1..]);
    }
  }

  /** From the start: five budgets in all. */
  lemma FreshRunTerminates(cfg: Config, u: Uuid, db: Database, ds: seq<Delivery>)
    requires |ds| >= 5 * (cfg.maxRetry + 1)
    ensures Terminal(Execute(cfg, Start(u), db, ds).0.phase)
  {
    assert Budgets(cfg, 5) == cfg.maxRetry + 1 + Budgets(cfg, 4);
    assert Budgets(cfg, 3) == cfg.maxRetry + 1 + Budgets(cfg, 2);
    assert Budgets(cfg, 1) == cfg.maxRetry + 1;
    RunsTerminate(cfg, Start(u), db, ds);
  }
}
