/** The `DataImport` entity: the status of one bulk file import and its record
    counters. Timestamps are passed in instead of read from the clock. */
module DataImportEntity {
  import opened Common

  datatype ImportStatus = Pending | Processing | Completed | Failed

  datatype ImportType = Students | Courses | Enrollments | Grades

  /** A nullable `Integer` counter read as a number: null counts as zero. */
  function CountOf(c: Option<int>): int
  {
    match c
    case None => 0
    case Some(n) => n
  }

  class DataImport {
    var importType: ImportType
    var status: ImportStatus
    var fileName: Option<string>
    var filePath: Option<string>
    var totalRecords: Option<int>
    var processedRecords: Option<int>
    var successfulRecords: Option<int>
    var failedRecords: Option<int>
    var errorMessage: Option<string>
    var startedAt: Option<Instant>
    var completedAt: Option<Instant>

    /** Every processed record was counted as exactly one success or one failure. */
    ghost predicate CountersBalanced()
      reads this
    {
      CountOf(processedRecords) == CountOf(successfulRecords) + CountOf(failedRecords)
    }

    constructor (importType: ImportType)
      ensures this.importType == importType && status == Pending
      ensures processedRecords == Some(0) && successfulRecords == Some(0) && failedRecords == Some(0)
      ensures fileName == None && filePath == None && totalRecords == None
      ensures errorMessage == None && startedAt == None && completedAt == None
      ensures CountersBalanced()
    {
      this.importType := importType;
      status := Pending;
      fileName := None;
      filePath := None;
      totalRecords := None;
      processedRecords := Some(0);
      successfulRecords := Some(0);
      failedRecords := Some(0);
      errorMessage := None;
      startedAt := None;
      completedAt := None;
    }

    /** Moves to PROCESSING from any status. */
    method StartProcessing(now: Instant)
      modifies this`status, this`startedAt
      ensures status == Processing && startedAt == Some(now)
    {
      status := Processing;
      startedAt := Some(now);
    }

    /** Moves to COMPLETED from any status; the error message is kept. */
    method Complete(now: Instant)
      modifies this`status, this`completedAt
      ensures status == Completed && completedAt == Some(now)
    {
      status := Completed;
      completedAt := Some(now);
    }

    /** Moves to FAILED from any status and records why and when. */
    method Fail(error: string, now: Instant)
      modifies this`status, this`errorMessage, this`completedAt
      ensures status == Failed && errorMessage == Some(error) && completedAt == Some(now)
    {
      status := Failed;
      errorMessage := Some(error);
      completedAt := Some(now);
    }

    /** Counts one more processed record, as a success or as a failure. */
    method IncrementProcessed(success: bool)
      modifies this`processedRecords, this`successfulRecords, this`failedRecords
      ensures processedRecords == Some(CountOf(old(processedRecords)) + 1)
      ensures success ==> successfulRecords == Some(CountOf(old(successfulRecords)) + 1)
                          && failedRecords == old(failedRecords)
      ensures !success ==> failedRecords == Some(CountOf(old(failedRecords)) + 1)
                           && successfulRecords == old(successfulRecords)
      ensures old(CountersBalanced()) ==> CountersBalanced()
    {
      if processedRecords == None {
        processedRecords := Some(0);
      }
      processedRecords := Some(processedRecords.value + 1);
      if success {
        if successfulRecords == None {
          successfulRecords := Some(0);
        }
        successfulRecords := Some(successfulRecords.value + 1);
      } else {
        if failedRecords == None {
          failedRecords := Some(0);
        }
        failedRecords := Some(failedRecords.value + 1);
      }
    }
  }
}
