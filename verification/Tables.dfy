/**
 The rows of the database (db/migrations/00001_uploads.sql and 00002_analyses.sql).
 Money is an integer number of cents, as numeric(14, 2) holds it; a uuid is its text.
 */
module Tables {
  import opened Calendar

  datatype Option<+T> = None | Some(value: T)

  type Uuid = string

  const CREDIT := "credit"
  const DEBIT := "debit"

  datatype Status = Pending | Processing | Completed | Failed

  datatype Upload = Upload(status: Status, failureReason: Option<string>, fileCount: int)

  datatype UploadFile = UploadFile(
    id: Uuid, uploadId: Uuid, position: int, filename: string, contentType: string, sizeBytes: int,
    storageKey: string, ocrMarkdown: Option<string>, pageCount: Option<int>)

  /** One transaction as the pipeline hands it over, before it has an id. */
  datatype Entry = Entry(
    date: Day, description: string, counterparty: string, amount: int, direction: string,
    balanceAfter: Option<int>, category: string, essential: bool, recurring: bool)

  datatype Transaction = Transaction(id: nat, analysisId: Uuid, entry: Entry)

  /** The jsonb columns are opaque here and travel as one text per column. */
  datatype Analysis = Analysis(
    uploadId: Uuid, currency: string, periodStart: Option<Day>, periodEnd: Option<Day>, sections: seq<Option<string>>)

  /**
   Rows of a keyed table are a map or, where their order matters, a sequence; `nextId` is the
   bigserial behind transactions.id.
   */
  datatype Database = Database(
    uploads: map<Uuid, Upload>,
    files: seq<UploadFile>,
    analyses: map<Uuid, Analysis>,
    transactions: seq<Transaction>,
    nextId: nat)
}
