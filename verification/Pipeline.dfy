/**
 The step handlers and hooks of the pipeline, working on a store (internal/pipeline/steps.go and
 pipeline.go).  Each method is proved to do to the store what Saga's functions say, so the laws of
 runs are laws of these methods.
 */
module Pipeline {
  import opened Tables
  import opened Text
  import opened Scrub
  import opened Convert
  import opened Store
  import opened Saga

  /** llm.Statement. */
  datatype Statement = Statement(filename: string, markdown: string)

  /** One statement for each file, in order, with its stored text. */
  ghost predicate AreStatementsOf(statements: seq<Statement>, files: seq<UploadFile>) {
    && |statements| == |files|
    && forall k | 0 <= k < |files| ::
         && HasOcr(files[k]) && statements[k] == Statement(files[k].filename, files[k].ocrMarkdown.value)
         && TrimSpace(statements[k].markdown) != ""
  }

  class Pipeline {
    const store: Store
    const cfg: Config

    constructor (store: Store, cfg: Config)
      ensures this.store == store && this.cfg == cfg
    {
      this.store := store;
      this.cfg := cfg;
    }

    method MarkProcessing(u: Uuid, env: Env) returns (ok: bool)
      modifies store
      ensures (store.View(), ok) == Do(MARK_PROCESSING, old(store.View()), u, env)
    {
      ok := store.SetUploadStatus(u, Processing, None, env.statementFails);
    }

    /** One file: read, extract, refuse an empty text, store. */
    method ExtractOne(file: UploadFile, env: Env) returns (ok: bool)
      modifies store
      ensures var outcome := env.extract(file.id);
        && (ok <==> outcome.Extracted? && !Blank(outcome.markdown) && !env.ocrWriteFails(file.id))
        && store.View() == if ok then WithOcr(old(store.View()), file.id, outcome.markdown, outcome.pages)
             else old(store.View())
    {
      match env.extract(file.id)
      case Unreadable => return false;
      case ExtractFailed => return false;
      case Extracted(markdown, pages) =>
        if Blank(markdown) {
          return false;
        }
        ok := store.SetUploadFileOCR(file.id, markdown, pages, env.ocrWriteFails(file.id));
    }

    /** `writes` counts the texts stored; the caller sees only `ok`. */
    method RunOCR(u: Uuid, env: Env) returns (ok: bool, writes: nat)
      modifies store
      ensures OcrResult(store.View(), ok, writes) == OcrPass(old(store.View()), u, env)
    {
      writes := 0;
      if env.statementFails {
        return false, 0;
      }
      var files := store.ListUploadFiles(u);
      if |files| == 0 {
        return false, 0;
      }
      ghost var whole := OcrFrom(store.View(), files, env);
      for i := 0 to |files|
        invariant var rest := OcrFrom(store.View(), files[i..], env); whole == rest.(writes := rest.writes + writes)
      {
        assert files[i..][0] == files[i] && files[i..][1..] == files[i+1..];
        if HasOcr(files[i]) {
          continue;
        }
        var stored := ExtractOne(files[i], env);
        if !stored {
          return false, writes;
        }
        writes := writes + 1;
      }
      ok := true;
    }

    /**
     `handed` is what the model was asked with; the caller sees only `ok`.  It is every listed file's
     text under its name, in order of position, or nothing at all.
     */
    method Analyze(u: Uuid, env: Env) returns (ok: bool, handed: seq<Statement>)
      modifies store
      ensures (store.View(), ok) == Do(ANALYZE, old(store.View()), u, env)
      ensures handed != [] <==> !env.statementFails && StatementsReady(FilesOf(old(store.View()), u))
      ensures handed != [] ==> AreStatementsOf(handed, FilesOf(old(store.View()), u))
      ensures ok ==> handed != []
    {
      if env.statementFails {
        return false, [];
      }
      var files := store.ListUploadFiles(u);
      var statements: seq<Statement> := [];
      for i := 0 to |files|
        invariant |statements| == i
        invariant forall k | 0 <= k < i ::
          HasOcr(files[k]) && statements[k] == Statement(files[k].filename, files[k].ocrMarkdown.value)
      {
        if !HasOcr(files[i]) {
          return false, [];
        }
        statements := statements + [Statement(files[i].filename, files[i].ocrMarkdown.value)];
      }
      if |statements| == 0 {
        return false, [];
      }
      handed := statements;
      if env.reply.LlmFailed? {
        return false, handed;
      }
      var built := BuildAnalysis(env.analysisId, u, env.reply.reply);
      if built.Err? {
        return false, handed;
      }
      ok := store.ReplaceAnalysis(built.value, env.fault);
    }

    method DeleteAnalysis(u: Uuid, env: Env) returns (ok: bool)
      modifies store
      ensures (store.View(), ok) == Compensate(old(store.View()), u, env)
    {
      ok := store.DeleteAnalysisByUpload(u, env.statementFails);
    }

    method MarkCompleted(u: Uuid, env: Env) returns (ok: bool)
      modifies store
      ensures (store.View(), ok) == Do(MARK_COMPLETED, old(store.View()), u, env)
    {
      ok := store.SetUploadStatus(u, Completed, None, env.statementFails);
    }

    /** A step under instrument: its error leaves scrubbed. */
    method RunStep(step: nat, u: Uuid, env: Env) returns (err: Option<string>)
      requires step <= 3 && AllKept(cfg.secrets)
      modifies store
      ensures var (db, ok) := Do(step, old(store.View()), u, env);
        store.View() == db && err == if ok then None else Some(Cleaned(cfg.secrets, env.errorText))
    {
      var ok;
      if step == MARK_PROCESSING {
        ok := MarkProcessing(u, env);
      } else if step == OCR {
        var writes;
        ok, writes := RunOCR(u, env);
      } else if step == ANALYZE {
        var handed;
        ok, handed := Analyze(u, env);
      } else {
        ok := MarkCompleted(u, env);
      }
      if ok {
        return None;
      }
      var clean := Clean(cfg.secrets, env.errorText);
      err := Some(clean);
    }

    method MarkFailed(u: Uuid, reason: string, lands: bool)
      modifies store
      ensures store.View() == Saga.MarkFailed(old(store.View()), u, Truncated(reason, MAX_FAILURE_REASON_BYTES), lands)
    {
      var cut := Truncate(reason, MAX_FAILURE_REASON_BYTES);
      var ok := store.SetUploadStatus(u, Failed, Some(cut), !lands);
    }

    method OnFailed(u: Uuid, step: nat, cause: Cause, lands: bool)
      requires step <= 3 && AllKept(cfg.secrets)
      modifies store
      ensures store.View() == Saga.MarkFailed(old(store.View()), u, FailureReason(cfg, step, cause), lands)
    {
      var message := Message(cfg.secrets, cause);
      MarkFailed(u, StepName(step) + ": " + message, lands);
    }

    method OnCompensationFailed(u: Uuid, step: nat, cause: Cause, lands: bool)
      requires step <= 3 && AllKept(cfg.secrets)
      modifies store
      ensures store.View() == Saga.MarkFailed(old(store.View()), u, RollbackReason(cfg, step, cause), lands)
    {
      var message := Message(cfg.secrets, cause);
      MarkFailed(u, StepName(step) + ": rollback failed: " + message, lands);
    }

    /** One delivery of a run's current hop: the handler, then whatever taskQ does with its outcome, hooks included. */
    method HandleDelivery(run: Run, d: Delivery) returns (next: Run)
      requires WellFormedRun(run) && AllKept(cfg.secrets)
      modifies store
      ensures (next, store.View()) == Deliver(cfg, run, old(store.View()), d)
      ensures run.phase.Forward? && d.acked && Do(run.phase.step, old(store.View()), run.upload, d.env).1 ==>
        var step := run.phase.step;
        && next == Run(run.upload, if step == MARK_COMPLETED then Finished else Forward(step + 1), 0)
        && store.View() == Do(step, old(store.View()), run.upload, d.env).0
    {
      match run.phase
      case Forward(step) =>
        var err := RunStep(step, run.upload, d.env);
        if err.None? && d.acked {
          return run.(phase := if step == MARK_COMPLETED then Finished else Forward(step + 1), attempts := 0);
        }
        if run.attempts < cfg.maxRetry {
          return run.(attempts := run.attempts + 1);
        }
        next := Unwinding(run, step, step, CauseOf(cfg, d), d.hookLands);
      case Rollback(failed, at, cause) =>
        var ok := DeleteAnalysis(run.upload, d.env);
        if ok && d.acked {
          next := Unwinding(run, at, failed, cause, d.hookLands);
          return;
        }
        if run.attempts < cfg.maxRetry {
          return run.(attempts := run.attempts + 1);
        }
        OnCompensationFailed(run.upload, at, CauseOf(cfg, d), d.hookLands);
        next := run.(phase := Stuck, attempts := 0);
      case _ => next := run;
    }

    /** Moves on to the next compensation in reverse order, or ends the run through onFailed. */
    method Unwinding(run: Run, below: nat, failed: nat, cause: Cause, lands: bool) returns (next: Run)
      requires below <= failed <= 3 && AllKept(cfg.secrets)
      modifies store
      ensures (next, store.View()) == Unwind(cfg, run, old(store.View()), below, failed, cause, lands)
    {
      var at := LastCompensable(below);
      if at >= 0 {
        return run.(phase := Rollback(failed, at, cause), attempts := 0);
      }
      OnFailed(run.upload, failed, cause, lands);
      next := run.(phase := Aborted(failed), attempts := 0);
    }
  }
}
