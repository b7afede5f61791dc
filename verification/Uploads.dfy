/**
 Accepting an upload (internal/http/uploads.go): the multipart stream is read part by part into the
 blob store, the upload is recorded, and its analysis is queued; what is not recorded is removed.

 Outside choices arrive in an Intake: the fresh uuids, which Puts and Deletes fail, and whether the
 rows, the queue and the status write go through.  A part's file name is the sanitised one.
 */
module Uploads {
  import opened Calendar
  import opened Groups
  import opened Tables
  import opened Store
  import opened StoreLaws
  import Keys

  const PDF_MAGIC := "%PDF-"
  const UNQUEUED_REASON := "enqueue: the upload could not be queued for analysis"

  /** Why a stream broke off: the request body limit, or anything else. */
  datatype ReadError = BodyLimit | OtherError

  /** A part delivers `data` and then ends, or breaks off. */
  datatype Part = Part(formName: string, filename: string, contentType: string, data: string, breaks: Option<ReadError>)

  datatype StreamEnd = Eof | Broken(error: ReadError)

  datatype Problem = NoFiles | TooManyFiles | NotAPdf | Unreadable | RequestTooLarge | FileTooLarge

  datatype Limits = Limits(maxFiles: int, maxFileBytes: nat)

  /**
   Uuids and Put failures are indexed by the position of the file they are for.  `keyFor` is
   storageKey (FreshDraws says so), kept as a value so that few proofs look inside it.
   */
  datatype Intake = Intake(
    keyFor: (Uuid, Uuid) -> string, uploadId: Uuid, fileId: nat -> Uuid,
    putFails: nat -> bool, deleteFails: string -> bool,
    createFault: CreateFault, enqueueFails: bool, statusFails: bool)

  datatype Response = Rejected(problem: Problem) | NotRecorded | NotQueued | Accepted

  function KeyAt(env: Intake, position: nat): string {
    env.keyFor(env.uploadId, env.fileId(position))
  }

  /** How many files a request draws a uuid for at most: reading stops at the limit. */
  function Draws(read: seq<Part>, limits: Limits): nat {
    if limits.maxFiles < 0 then 0 else if |read| <= limits.maxFiles then |read| else limits.maxFiles
  }

  /** The uuids of the first `n` positions are uuids, and no two of them are the same. */
  ghost predicate FreshDraws(env: Intake, n: nat) {
    && (forall u: Uuid, f: Uuid {:trigger Keys.StorageKey(u, f)} :: env.keyFor(u, f) == Keys.StorageKey(u, f))
    && Keys.UuidText(env.uploadId)
    && (forall i: nat | i < n :: Keys.UuidText(env.fileId(i)))
    && (forall i: nat, j: nat | i < n && j < n && env.fileId(i) == env.fileId(j) :: i == j)
  }

  /** No blob lies under a key of the first `n` positions. */
  ghost predicate KeysFree(env: Intake, n: nat, objects: map<string, string>) {
    forall i: nat | i < n :: KeyAt(env, i) !in objects
  }

  lemma KeysDiffer(env: Intake, n: nat, i: nat, j: nat)
    requires FreshDraws(env, n) && i < n && j < n && i != j
    ensures KeyAt(env, i) != KeyAt(env, j)
  {
    var u, f, g := env.uploadId, env.fileId(i), env.fileId(j);
    Keys.StorageKeysAreDistinct(u, f, u, g);
    assert env.keyFor(u, f) == Keys.StorageKey(u, f) && env.keyFor(u, g) == Keys.StorageKey(u, g);
  }

  /**
   Such draws exist for any number of files of at most 36 digits: for a new upload id, one under
   which no blob lies, the positions themselves spell distinct uuids, whatever fails elsewhere.
   */
  lemma DrawsExist(env: Intake, n: nat, objects: map<string, string>) returns (drawn: Intake)
    requires FitsWidth(n, 36) && Keys.UuidText(env.uploadId)
    requires forall k | k in objects :: !("uploads/" + env.uploadId + "/" <= k)
    ensures FreshDraws(drawn, n) && KeysFree(drawn, n, objects)
    ensures drawn == env.(keyFor := drawn.keyFor, fileId := drawn.fileId)
  {
    drawn := env.(keyFor := (u: Uuid, f: Uuid) => Keys.StorageKey(u, f), fileId := (i: nat) => Padded(i, 36));
    forall i: nat, j: nat | i < n && j < n && drawn.fileId(i) == drawn.fileId(j) ensures i == j {
      SmallerFits(i, n, 36);
      SmallerFits(j, n, 36);
      if i != j { PaddedDiffers(i, j, 36); }
    }
    forall i: nat | i < n ensures KeyAt(drawn, i) !in objects {
      Keys.StorageKeyPrefix(drawn.uploadId, drawn.fileId(i));
    }
  }

  predicate IsFilePart(p: Part) {
    p.formName == "files"
  }

  /** The uuids a request with these parts may draw are fresh, and no blob lies under their keys. */
  ghost predicate DrawsFor(env: Intake, parts: seq<Part>, limits: Limits, objects: map<string, string>) {
    var n := Draws(Filter(parts, IsFilePart), limits);
    FreshDraws(env, n) && KeysFree(env, n, objects)
  }

  function ProblemForReadError(e: ReadError): Problem {
    if e.BodyLimit? then RequestTooLarge else Unreadable
  }

  /** The blobs of the first files, each under its position's key. */
  function BlobsOf(env: Intake, files: seq<Part>): map<string, string> {
    if files == [] then map[]
    else BlobsOf(env, files[..|files|-1])[KeyAt(env, |files| - 1) := files[|files|-1].data]
  }

  function ContentType(part: Part): string {
    if part.contentType != "" then part.contentType else "application/pdf"
  }

  /** The row for a part stored whole at a position. */
  function RowFor(env: Intake, part: Part, i: nat): NewUploadFile {
    NewUploadFile(env.fileId(i), i, part.filename, ContentType(part), |part.data|, KeyAt(env, i))
  }

  function RowAt(env: Intake, files: seq<Part>, i: nat): NewUploadFile
    requires i < |files|
  {
    RowFor(env, files[i], i)
  }

  const NO_FILE := NewUploadFile("", 0, "", "", 0, "")

  /** A part that can be taken: named, a PDF, complete and within the limit. */
  predicate Acceptable(p: Part, limits: Limits) {
    p.filename != "" && PDF_MAGIC <= p.data && |p.data| <= limits.maxFileBytes && p.breaks.None?
  }

  predicate NotPdf(p: Part) {
    p.filename == "" || (!(PDF_MAGIC <= p.data) && (|p.data| >= |PDF_MAGIC| || p.breaks.None?))
  }

  /** The request body limit stops the part before it is decided or complete. */
  predicate StoppedByLimit(p: Part, limits: Limits) {
    && p.filename != "" && p.breaks == Some(BodyLimit)
    && (|p.data| < |PDF_MAGIC| || (PDF_MAGIC <= p.data && |p.data| <= limits.maxFileBytes))
  }

  predicate TooLarge(p: Part, limits: Limits) {
    p.filename != "" && PDF_MAGIC <= p.data && |p.data| > limits.maxFileBytes
  }

  /** Why a part is refused, if it is. */
  function Refusal(p: Part, limits: Limits, putFails: bool): Option<Problem> {
    if Acceptable(p, limits) && !putFails then None
    else if NotPdf(p) then Some(NotAPdf)
    else if StoppedByLimit(p, limits) then Some(RequestTooLarge)
    else if TooLarge(p, limits) && !putFails then Some(FileTooLarge)
    else Some(Unreadable)
  }

  lemma {:induction false} BlobsMeaning(env: Intake, files: seq<Part>)
    requires FreshDraws(env, |files|)
    ensures forall i | 0 <= i < |files| ::
      KeyAt(env, i) in BlobsOf(env, files) && BlobsOf(env, files)[KeyAt(env, i)] == files[i].data
    ensures forall k | k in BlobsOf(env, files) :: exists i: nat | i < |files| :: k == KeyAt(env, i)
  {
    if files != [] {
      var n, init := |files| - 1, files[..|files|-1];
      BlobsMeaning(env, init);
      forall i | 0 <= i < n ensures KeyAt(env, i) != KeyAt(env, n) {
        KeysDiffer(env, n + 1, i, n);
      }
      forall k | k in BlobsOf(env, files) ensures exists i: nat | i < |files| :: k == KeyAt(env, i) {
        if k != KeyAt(env, n) {
          assert k in BlobsOf(env, init);
          var i: nat :| i < |init| && k == KeyAt(env, i);
        }
      }
    }
  }

  class BlobStore {
    var objects: map<string, string>

    constructor ()
      ensures objects == map[]
    {
      objects := map[];
    }

    /** A failed Put stores nothing. */
    method Put(key: string, body: string, fails: bool) returns (ok: bool)
      modifies this
      ensures ok <==> !fails
      ensures objects == if ok then old(objects)[key := body] else old(objects)
    {
      ok := !fails;
      if ok {
        objects := objects[key := body];
      }
    }

    /** Deleting a key without a blob is an error too; the caller looks past both. */
    method Delete(key: string, fails: bool) returns (ok: bool)
      modifies this
      ensures objects == if fails then old(objects) else old(objects) - {key}
      ensures ok <==> !fails && key in old(objects)
    {
      ok := !fails && key in objects;
      if !fails {
        objects := objects - {key};
      }
    }
  }

  /** Every blob of `before` is untouched, and any other lies under a key of this upload whose delete failed. */
  ghost predicate NothingButStuck(env: Intake, before: map<string, string>, after: map<string, string>) {
    && (forall k | k in before :: k in after && after[k] == before[k])
    && (forall k | k in after && k !in before :: env.deleteFails(k) && exists i: nat :: k == KeyAt(env, i))
  }

  /** A blob under `key` was never stored, was deleted, or could not be. */
  ghost predicate PutBack(env: Intake, key: string, before: map<string, string>, after: map<string, string>) {
    after == before || (env.deleteFails(key) && key in after && after - {key} == before)
  }

  /** The blobs of the files read so far, and perhaps one that was refused for its size but could not be deleted. */
  ghost predicate StoredSoFar(env: Intake, before: map<string, string>, files: seq<Part>, after: map<string, string>) {
    PutBack(env, KeyAt(env, |files|), before + BlobsOf(env, files), after)
  }

  /** A part that is stored and kept. */
  ghost predicate Taken(env: Intake, limits: Limits, files: seq<Part>, i: nat)
    requires i < |files|
  {
    Acceptable(files[i], limits) && !env.putFails(i)
  }

  ghost predicate FirstTaken(env: Intake, limits: Limits, files: seq<Part>, n: nat) {
    n <= |files| && forall i | 0 <= i < n :: Taken(env, limits, files, i)
  }

  ghost predicate AllTaken(env: Intake, limits: Limits, files: seq<Part>) {
    FirstTaken(env, limits, files, |files|)
  }

  /** The problem is that of where reading stopped, after `n` file parts were taken. */
  ghost predicate Explains(env: Intake, limits: Limits, read: seq<Part>, end: StreamEnd, n: nat, problem: Problem) {
    && FirstTaken(env, limits, read, n) && (n <= limits.maxFiles || n == 0)
    && if n < |read| && n >= limits.maxFiles then problem == TooManyFiles
       else if n < |read| then Some(problem) == Refusal(read[n], limits, env.putFails(n))
       else if end.Broken? then problem == ProblemForReadError(end.error)
       else n == 0 && problem == NoFiles
  }

  ghost predicate Explained(env: Intake, limits: Limits, read: seq<Part>, end: StreamEnd, problem: Problem) {
    exists n: nat :: Explains(env, limits, read, end, n, problem)
  }

  /** Reading stops at one place only. */
  lemma ExplainedOnce(env: Intake, limits: Limits, read: seq<Part>, end: StreamEnd, n: nat, m: nat, p: Problem,
      q: Problem)
    requires Explains(env, limits, read, end, n, p) && Explains(env, limits, read, end, m, q)
    ensures n == m && p == q
  {
    assert n < m ==> Taken(env, limits, read, n);
    assert m < n ==> Taken(env, limits, read, m);
  }

  ghost predicate RowsFor(env: Intake, files: seq<Part>, rows: seq<NewUploadFile>) {
    |rows| <= |files| && forall i | 0 <= i < |rows| :: rows[i] == RowAt(env, files, i)
  }

  function KeysToDrop(env: Intake, rows: seq<NewUploadFile>): set<string> {
    set i | 0 <= i < |rows| && !env.deleteFails(rows[i].storageKey) :: rows[i].storageKey
  }

  lemma FreeKeyStaysFree(env: Intake, before: map<string, string>, files: seq<Part>)
    requires FreshDraws(env, |files| + 1) && KeysFree(env, |files| + 1, before)
    ensures KeyAt(env, |files|) !in before + BlobsOf(env, files)
  {
    BlobsMeaning(env, files);
    forall k | k in BlobsOf(env, files) ensures k != KeyAt(env, |files|) {
      var i: nat :| i < |files| && k == KeyAt(env, i);
      KeysDiffer(env, |files| + 1, i, |files|);
    }
  }

  lemma BlobsStep(env: Intake, before: map<string, string>, files: seq<Part>, n: nat)
    requires n < |files|
    ensures before + BlobsOf(env, files[..n+1]) == (before + BlobsOf(env, files[..n]))[KeyAt(env, n) := files[n].data]
  {
    assert files[..n+1][..n] == files[..n];
  }

  /** The loop's state: every row and blob of the parts taken so far, and nothing else. */
  ghost predicate Reading(env: Intake, limits: Limits, read: seq<Part>, rows: seq<NewUploadFile>,
      before: map<string, string>, objects: map<string, string>)
  {
    && RowsFor(env, read, rows)
    && FirstTaken(env, limits, read, |rows|)
    && objects == before + BlobsOf(env, read[..|rows|])
  }

  lemma ReadingStep(env: Intake, limits: Limits, read: seq<Part>, rows: seq<NewUploadFile>, before: map<string, string>,
      objects: map<string, string>)
    requires Reading(env, limits, read, rows, before, objects) && |rows| < |read| && Taken(env, limits, read, |rows|)
    ensures var n := |rows|;
      Reading(env, limits, read, rows + [RowAt(env, read, n)], before, objects[KeyAt(env, n) := read[n].data])
  {
    BlobsStep(env, before, read, |rows|);
  }

  /** The file parts that NextPart has not reached yet. */
  ghost predicate StillToRead(parts: seq<Part>, p: nat, read: seq<Part>, n: nat) {
    p <= |parts| && n <= |read| && read[n..] == Filter(parts[p..], IsFilePart)
  }

  lemma NextPart(parts: seq<Part>, p: nat, read: seq<Part>, n: nat)
    requires StillToRead(parts, p, read, n) && p < |parts|
    ensures !IsFilePart(parts[p]) ==> StillToRead(parts, p + 1, read, n)
    ensures IsFilePart(parts[p]) ==> n < |read| && read[n] == parts[p] && StillToRead(parts, p + 1, read, n + 1)
  {
    assert parts[p..][0] == parts[p] && parts[p..][1..] == parts[p+1..];
    if IsFilePart(parts[p]) {
      assert read[n..][0] == parts[p] && read[n..][1..] == read[n+1..];
    }
  }

  /** Deleting the blobs of the rows that were read leaves only what cannot be deleted. */
  lemma DiscardedIsClean(env: Intake, before: map<string, string>, files: seq<Part>, rows: seq<NewUploadFile>,
      stored: map<string, string>)
    requires FreshDraws(env, |files|) && KeysFree(env, |files|, before)
    requires RowsFor(env, files, rows) && |rows| == |files| && StoredSoFar(env, before, files, stored)
    ensures NothingButStuck(env, before, stored - KeysToDrop(env, rows))
  {
    var after, blobs, next := stored - KeysToDrop(env, rows), BlobsOf(env, files), KeyAt(env, |files|);
    var whole := before + blobs;
    BlobsMeaning(env, files);
    forall k | k in before ensures k in after && after[k] == before[k] {
      assert k !in blobs && k in whole && whole[k] == before[k];
      assert stored != whole ==> k in stored - {next} && (stored - {next})[k] == whole[k];
    }
    forall k | k in after && k !in before ensures env.deleteFails(k) && exists i: nat :: k == KeyAt(env, i) {
      if k in blobs {
        var i: nat :| i < |files| && k == KeyAt(env, i);
        assert rows[i].storageKey == k;
      } else {
        assert k !in whole;
        assert k !in stored - {next} || stored == whole;
      }
    }
  }

  class UploadHandler {
    const store: Store
    const blobs: BlobStore
    const limits: Limits

    constructor (store: Store, blobs: BlobStore, limits: Limits)
      ensures this.store == store && this.blobs == blobs && this.limits == limits
    {
      this.store, this.blobs, this.limits := store, blobs, limits;
    }

    /**
     Either the part's bytes are stored whole under its key, or nothing is left of it but what could
     not be deleted.  The three named problems are told apart; anything else is unreadable.
     */
    method ReadOneFile(part: Part, position: nat, env: Intake) returns (file: NewUploadFile, problem: Option<Problem>)
      requires KeyAt(env, position) !in blobs.objects
      modifies blobs
      ensures problem.None? <==> Acceptable(part, limits) && !env.putFails(position)
      ensures problem.None? ==>
        file == RowFor(env, part, position) && blobs.objects == old(blobs.objects)[KeyAt(env, position) := part.data]
      ensures problem.Some? ==> PutBack(env, KeyAt(env, position), old(blobs.objects), blobs.objects)
      ensures problem == Refusal(part, limits, env.putFails(position))
      ensures problem == Some(NotAPdf) <==> NotPdf(part)
      ensures problem == Some(RequestTooLarge) <==> StoppedByLimit(part, limits)
      ensures problem == Some(FileTooLarge) <==> TooLarge(part, limits) && !env.putFails(position)
      ensures problem != Some(NoFiles) && problem != Some(TooManyFiles)
    {
      if part.filename == "" {
        return NO_FILE, Some(NotAPdf);
      }
      var n := if |part.data| < |PDF_MAGIC| then |part.data| else |PDF_MAGIC|;
      if n < |PDF_MAGIC| && part.breaks.Some? {
        return NO_FILE, Some(ProblemForReadError(part.breaks.value));
      }
      if !(PDF_MAGIC <= part.data[..n]) {
        return NO_FILE, Some(NotAPdf);
      }
      assert PDF_MAGIC <= part.data;
      var key := KeyAt(env, position);
      // The reader stops one byte past the cap, so an oversized file shows without being read whole.
      var cap := limits.maxFileBytes + 1;
      var body := if |part.data| < cap then part.data else part.data[..cap];
      var breaks := |part.data| < cap && part.breaks.Some?;
      var ok := blobs.Put(key, body, breaks || env.putFails(position));
      if !ok {
        return NO_FILE, Some(if breaks then ProblemForReadError(part.breaks.value) else Unreadable);
      }
      var size := |body|;
      if size > limits.maxFileBytes {
        DeleteBlob(key, env);
        assert old(blobs.objects)[key := body] - {key} == old(blobs.objects);
        return NO_FILE, Some(FileTooLarge);
      }
      return NewUploadFile(env.fileId(position), position, part.filename, ContentType(part), size, key), None;
    }

    method DeleteBlob(key: string, env: Intake)
      modifies blobs
      ensures blobs.objects == if env.deleteFails(key) then old(blobs.objects) else old(blobs.objects) - {key}
    {
      var ok := blobs.Delete(key, env.deleteFails(key));
    }

    /**
     The rows of the file parts read, in order, each with its blob.  Reading succeeds exactly when the
     stream ends, holds between one and maxFiles file parts, and every one of them is taken; otherwise
     it stopped at the first part that is not.
     */
    method ReadFiles(parts: seq<Part>, end: StreamEnd, env: Intake)
      returns (files: seq<NewUploadFile>, problem: Option<Problem>)
      requires DrawsFor(env, parts, limits, blobs.objects)
      modifies blobs
      ensures var read := Filter(parts, IsFilePart);
        && RowsFor(env, read, files) && |files| <= Draws(read, limits)
        && FirstTaken(env, limits, read, |files|)
        && StoredSoFar(env, old(blobs.objects), read[..|files|], blobs.objects)
        && (problem.None? <==> end.Eof? && 1 <= |read| <= limits.maxFiles && AllTaken(env, limits, read))
        && (problem.None? ==> |files| == |read| && blobs.objects == old(blobs.objects) + BlobsOf(env, read))
        && (problem == Some(NoFiles) <==> end.Eof? && read == [])
        && (problem == Some(TooManyFiles) <==> |files| < |read| && |files| >= limits.maxFiles)
        && (problem.Some? ==> Explains(env, limits, read, end, |files|, problem.value))
    {
      files := [];
      ghost var read := Filter(parts, IsFilePart);
      ghost var before := blobs.objects;
      assert before + BlobsOf(env, read[..0]) == before;
      for p := 0 to |parts|
        invariant StillToRead(parts, p, read, |files|)
        invariant |files| <= limits.maxFiles || files == []
        invariant Reading(env, limits, read, files, before, blobs.objects)
      {
        ghost var n := |files|;
        NextPart(parts, p, read, n);
        if !IsFilePart(parts[p]) {
          continue;
        }
        if |files| >= limits.maxFiles {
          return files, Some(TooManyFiles);
        }
        FreeKeyStaysFree(env, before, read[..n]);
        ghost var stored := blobs.objects;
        var file, trouble := ReadOneFile(parts[p], |files|, env);
        if trouble.Some? {
          assert !Taken(env, limits, read, n) && |read[..n]| == n;
          return files, trouble;
        }
        ReadingStep(env, limits, read, files, before, stored);
        files := files + [file];
      }
      assert read[|files|..] == [];
      assert read[..|files|] == read;
      if end.Broken? {
        return files, Some(ProblemForReadError(end.error));
      }
      if |files| == 0 {
        return [], Some(NoFiles);
      }
      return files, None;
    }

    method Discard(files: seq<NewUploadFile>, env: Intake)
      modifies blobs
      ensures blobs.objects == old(blobs.objects) - KeysToDrop(env, files)
    {
      for i := 0 to |files|
        invariant blobs.objects == old(blobs.objects) - KeysToDrop(env, files[..i])
      {
        DeleteBlob(files[i].storageKey, env);
        var dropped := if env.deleteFails(files[i].storageKey) then {} else {files[i].storageKey};
        assert KeysToDrop(env, files[..i+1]) == KeysToDrop(env, files[..i]) + dropped by {
          assert forall k | 0 <= k < i :: files[..i+1][k] == files[..i][k];
        }
      }
      assert files[..|files|] == files;
    }

    method MarkUnqueued(env: Intake)
      modifies store
      ensures store.View() ==
        if env.statusFails then old(store.View())
        else WithStatus(old(store.View()), env.uploadId, Failed, Some(UNQUEUED_REASON))
    {
      var ok := store.SetUploadStatus(env.uploadId, Failed, Some(UNQUEUED_REASON), env.statusFails);
    }

    /**
     Recorded exactly when every part is read, the uuids are new and no statement fails.  What is not
     recorded leaves the database as it was and no blob but those whose delete failed; what is recorded
     has its rows and its blobs, and its status says so when it could not be queued.
     */
    method Create(parts: seq<Part>, end: StreamEnd, env: Intake) returns (r: Response)
      requires DrawsFor(env, parts, limits, blobs.objects)
      modifies store, blobs
      ensures var read := Filter(parts, IsFilePart);
        var made := CreateOutcome(old(store.View()), env.uploadId, AllRows(env, read), env.createFault);
        && (r.Rejected? <==> !(end.Eof? && 1 <= |read| <= limits.maxFiles && AllTaken(env, limits, read)))
        && (r.Rejected? ==> Explained(env, limits, read, end, r.problem))
        && (Recorded(r) <==> !r.Rejected? && CanRecord(old(store.View()), env, |read|))
        && (!Recorded(r) ==>
              store.View() == old(store.View()) && NothingButStuck(env, old(blobs.objects), blobs.objects))
        && (Recorded(r) ==> blobs.objects == old(blobs.objects) + BlobsOf(env, read))
        && (r.Accepted? <==> Recorded(r) && !env.enqueueFails)
        && (r.Accepted? ==> store.View() == made.0)
        && (r.NotQueued? ==>
              store.View() ==
                if env.statusFails then made.0 else WithStatus(made.0, env.uploadId, Failed, Some(UNQUEUED_REASON)))
    {
      ghost var read, before := Filter(parts, IsFilePart), blobs.objects;
      ghost var was := store.View();
      var files, problem := ReadFiles(parts, end, env);
      if problem.Some? {
        ghost var stored := blobs.objects;
        Discard(files, env);
        DiscardedIsClean(env, before, read[..|files|], files, stored);
        return Rejected(problem.value);
      }
      assert files == AllRows(env, read) && read[..|files|] == read;
      DrawnRowsFit(was, env, read);
      var ok := store.CreateUploadWithFiles(env.uploadId, files, env.createFault);
      if !ok {
        Discard(files, env);
        DiscardedIsClean(env, before, read, files, before + BlobsOf(env, read));
        return NotRecorded;
      }
      if env.enqueueFails {
        MarkUnqueued(env);
        return NotQueued;
      }
      return Accepted;
    }
  }

  /** No file row has an id the request draws, or stands at one of its positions. */
  ghost predicate NewToFiles(files: seq<UploadFile>, env: Intake, n: nat) {
    forall k, i | 0 <= k < |files| && 0 <= i < n :: NewAt(files[k], env, i)
  }

  predicate NewAt(f: UploadFile, env: Intake, i: nat) {
    f.id != env.fileId(i) && !(f.uploadId == env.uploadId && f.position == i)
  }

  /** The statements spare the rows, and the uuids the request draws are new to the database. */
  ghost predicate CanRecord(db: Database, env: Intake, n: nat) {
    && (env.createFault.NoCreateFault? || env.createFault.CreateAtFile?) && Spares(env.createFault, 0, n)
    && env.uploadId !in db.uploads && NewToFiles(db.files, env, n)
  }

  lemma NewRowsFit(files: seq<UploadFile>, env: Intake, rows: seq<NewUploadFile>)
    requires FreshDraws(env, |rows|)
    requires forall i | 0 <= i < |rows| :: rows[i].id == env.fileId(i) && rows[i].position == i
    ensures Fits(files, env.uploadId, rows, 0) <==> NewToFiles(files, env, |rows|)
  {
    if Fits(files, env.uploadId, rows, 0) {
      forall k, i | 0 <= k < |files| && 0 <= i < |rows| ensures NewAt(files[k], env, i) {
        assert rows[i].id == env.fileId(i);
      }
    } else if NewToFiles(files, env, |rows|) {
      forall k, i | 0 <= k < |files| && 0 <= i < |rows|
        ensures files[k].id != rows[i].id
        ensures !(files[k].uploadId == env.uploadId && files[k].position == rows[i].position)
      {
        assert NewAt(files[k], env, i);
      }
      assert false;
    }
  }

  lemma DrawnRowsFit(db: Database, env: Intake, read: seq<Part>)
    requires FreshDraws(env, |read|) && read != []
    ensures CreateOutcome(db, env.uploadId, AllRows(env, read), env.createFault).1 <==> CanRecord(db, env, |read|)
  {
    CreateSucceedsIff(db, env.uploadId, AllRows(env, read), env.createFault);
    NewRowsFit(db.files, env, AllRows(env, read));
  }

  predicate Recorded(r: Response) {
    r.NotQueued? || r.Accepted?
  }

  function AllRows(env: Intake, files: seq<Part>): (r: seq<NewUploadFile>)
    ensures |r| == |files| && RowsFor(env, files, r)
  {
    seq(|files|, i requires 0 <= i < |files| => RowAt(env, files, i))
  }

  /** When every Delete succeeds, a request that records nothing leaves the blobs as they were. */
  lemma NothingStuck(env: Intake, before: map<string, string>, after: map<string, string>)
    requires NothingButStuck(env, before, after) && forall i: nat :: !env.deleteFails(KeyAt(env, i))
    ensures after == before
  {
    forall k | k in after ensures k in before {
    }
  }

  /** The part's own content type, and that of a PDF when it states none. */
  function StatedType(part: Part): string {
    if part.contentType == "" then "application/pdf" else part.contentType
  }

  /** The rows `added` and the blobs that appeared match one to one, and hold the parts in order. */
  ghost predicate OneBlobEach(env: Intake, limits: Limits, read: seq<Part>, added: seq<UploadFile>,
      before: map<string, string>, after: map<string, string>)
  {
    && |added| == |read|
    && (forall i | 0 <= i < |added| ::
         && added[i].id == env.fileId(i) && added[i].uploadId == env.uploadId && added[i].position == i
         && added[i].filename == read[i].filename && added[i].contentType == StatedType(read[i])
         && added[i].ocrMarkdown.None? && added[i].pageCount.None?
         && added[i].storageKey in after && added[i].storageKey !in before
         && after[added[i].storageKey] == read[i].data && added[i].sizeBytes == |read[i].data| <= limits.maxFileBytes)
    && (forall i, j | 0 <= i < j < |added| :: added[i].storageKey != added[j].storageKey)
    && (forall k | k in after && k !in before :: exists i | 0 <= i < |added| :: added[i].storageKey == k)
    && (forall k | k in before :: k in after && after[k] == before[k])
  }

  lemma RowsMatchBlobs(env: Intake, limits: Limits, read: seq<Part>, added: seq<UploadFile>,
      before: map<string, string>)
    requires FreshDraws(env, |read|) && KeysFree(env, |read|, before) && AllTaken(env, limits, read)
    requires |added| == |read| && forall i | 0 <= i < |added| :: added[i] == FileRow(env.uploadId, RowAt(env, read, i))
    ensures OneBlobEach(env, limits, read, added, before, before + BlobsOf(env, read))
  {
    BlobsMeaning(env, read);
    forall i | 0 <= i < |added| ensures Taken(env, limits, read, i) && added[i].storageKey == KeyAt(env, i) {
    }
    forall i, j | 0 <= i < j < |added| ensures added[i].storageKey != added[j].storageKey {
      KeysDiffer(env, |read|, i, j);
    }
    forall k | k in BlobsOf(env, read) ensures k !in before && exists i | 0 <= i < |added| :: added[i].storageKey == k {
      var i: nat :| i < |read| && k == KeyAt(env, i);
      assert added[i].storageKey == k;
    }
  }

  /**
   A recorded upload has one row and one blob for each file part, at positions 0 to n-1 and under
   distinct keys; each blob holds its part's bytes, within the size limit, and no other blob appeared.
   */
  lemma RecordedUpload(db: Database, env: Intake, read: seq<Part>, limits: Limits, before: map<string, string>)
    requires FreshDraws(env, |read|) && KeysFree(env, |read|, before) && Consistent(db) && AllTaken(env, limits, read)
    requires CreateOutcome(db, env.uploadId, AllRows(env, read), env.createFault).1
    ensures var db' := CreateOutcome(db, env.uploadId, AllRows(env, read), env.createFault).0;
      && Consistent(db') && db'.uploads == db.uploads[env.uploadId := Upload(Pending, None, |read|)]
      && db.files <= db'.files && AnalysesOf(db', env.uploadId) == {}
      && OneBlobEach(env, limits, read, db'.files[|db.files|..], before, before + BlobsOf(env, read))
  {
    var rows := AllRows(env, read);
    var db' := CreateOutcome(db, env.uploadId, rows, env.createFault).0;
    CreateKeepsConsistent(db, env.uploadId, rows, env.createFault);
    var added := db'.files[|db.files|..];
    forall i | 0 <= i < |added| ensures added[i] == FileRow(env.uploadId, RowAt(env, read, i)) {
      assert added[i] == db'.files[|db.files|+i] && rows[i] == RowAt(env, read, i);
    }
    RowsMatchBlobs(env, limits, read, added, before);
  }

  lemma OnlyAddedAreListed(db: Database, added: seq<UploadFile>, u: Uuid)
    requires (forall f | f in db.files :: f.uploadId != u) && (forall f | f in added :: f.uploadId == u)
    requires Sorted(ByPosition, added)
    ensures FilesOf(db.(files := db.files + added), u) == added
  {
    var mine := OfUpload(u);
    FilterAppend(db.files, added, mine);
    FilterNone(db.files, mine);
    FilterAll(added, mine);
    assert [] + added == added;
    OrderBySorted(ByPosition, added);
  }

  /** The files of a recorded upload are listed, and so handed to the model, in the order their parts were sent. */
  lemma RecordedFilesListed(db: Database, env: Intake, read: seq<Part>)
    requires CreateOutcome(db, env.uploadId, AllRows(env, read), env.createFault).1 && Consistent(db)
    requires forall f | f in db.files :: f.uploadId != env.uploadId
    ensures var listed := FilesOf(CreateOutcome(db, env.uploadId, AllRows(env, read), env.createFault).0, env.uploadId);
      |listed| == |read| && forall i | 0 <= i < |read| :: listed[i] == FileRow(env.uploadId, RowAt(env, read, i))
  {
    var rows := AllRows(env, read);
    var db' := CreateOutcome(db, env.uploadId, rows, env.createFault).0;
    CreateKeepsConsistent(db, env.uploadId, rows, env.createFault);
    var added := db'.files[|db.files|..];
    forall i | 0 <= i < |added| ensures added[i] == FileRow(env.uploadId, RowAt(env, read, i)) {
      assert added[i] == db'.files[|db.files|+i] && rows[i] == RowAt(env, read, i);
    }
    OnlyAddedAreListed(db, added, env.uploadId);
    assert db'.files == db.files + added;
  }
}
