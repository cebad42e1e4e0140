/**
 * The current image cache store (app/database/db.go): every statement runs
 * under the three-attempt retry loop, the cleanup runs in one transaction,
 * and one tick of the cleanup service is a single decision step.
 */
module ImageCache {
  import opened Wrappers
  import opened GoStrings
  import opened Retry
  import opened ImageTable

  const DefaultMaxDatabaseSizeMB: int := 1000

  /** MAX_DB_SIZE: any integer is taken as it is, even a negative one; anything else (or nothing) gives 1000. */
  function MaxDatabaseSizeMB(env: string): (mb: int)
    ensures Atoi(env).Some? ==> mb == Atoi(env).value
    ensures Atoi(env).None? ==> mb == DefaultMaxDatabaseSizeMB
  {
    if env != "" then
      var size := Atoi(env);
      if size.None? then DefaultMaxDatabaseSizeMB else size.value
    else DefaultMaxDatabaseSizeMB
  }

  /**
   * GetCachedImage: the blob column of the (url, width) row (original data
   * for width 0) with its content type and format.  A missing row is not
   * an error: it reads as (nil, "", "") and no error.  Three failed
   * attempts give a wrapped error and nothing else.
   */
  method GetCachedImage(db: Database, outcomes: seq<AttemptOutcome>, url: string, width: int)
    returns (data: Option<Blob>, contentType: string, format: string, err: Option<string>,
             ghost attempts: nat, ghost sleeps: nat)
    ensures FirstRun(outcomes).Some? && Select(db.rows, url, width).Found? ==>
              var found := Select(db.rows, url, width);
              data == found.data && contentType == found.contentType && format == found.format && err.None?
    ensures FirstRun(outcomes).Some? && Select(db.rows, url, width).NoRow? ==>
              data.None? && contentType == "" && format == "" && err.None?
    ensures FirstRun(outcomes).None? ==>
              data.None? && contentType == "" && format == ""
              && err == Some("database query failed after retries: " + FinalError(outcomes))
    ensures 1 <= attempts <= MaxAttempts && sleeps == attempts - 1
    ensures err.None? <==> attempts <= MaxAttempts && FirstRun(outcomes) == Some(attempts - 1)
  {
    var ranAt, lastError;
    ranAt, lastError, attempts, sleeps := Attempt(outcomes);
    data, contentType, format, err := None, "", "", None;
    if ranAt.None? {
      err := Some("database query failed after retries: " + lastError);
    } else {
      var lookup := Select(db.rows, url, width);
      if lookup.Found? {
        data, contentType, format := lookup.data, lookup.contentType, lookup.format;
      }
    }
  }

  /**
   * CacheImage: an INSERT OR REPLACE of every column at (url, width),
   * retried; the table is unchanged and the error wrapped after three
   * failed attempts.
   */
  method CacheImage(db: Database, outcomes: seq<AttemptOutcome>, url: string, width: int,
                    originalData: Option<Blob>, resizedData: Option<Blob>,
                    contentType: string, format: string)
    returns (err: Option<string>, ghost attempts: nat, ghost sleeps: nat)
    requires db.Valid()
    modifies db
    ensures db.Valid()
    ensures FirstRun(outcomes).Some? ==>
              && err.None?
              && db.rows == InsertOrReplace(old(db.rows), old(db.nextId), old(db.clock), url, width,
                                            originalData, resizedData, contentType, format)
              && db.nextId == old(db.nextId) + 1
    ensures FirstRun(outcomes).None? ==>
              && err == Some("failed to cache image after retries: " + FinalError(outcomes))
              && db.rows == old(db.rows) && db.nextId == old(db.nextId)
    ensures db.clock == old(db.clock)
    ensures 1 <= attempts <= MaxAttempts && sleeps == attempts - 1
  {
    var ranAt, lastError;
    ranAt, lastError, attempts, sleeps := Attempt(outcomes);
    if ranAt.None? {
      return Some("failed to cache image after retries: " + lastError), attempts, sleeps;
    }
    db.Upsert(url, width, originalData, resizedData, contentType, format);
    err := None;
  }

  /**
   * CacheOriginalImage: an INSERT OR REPLACE at (url, 0) of the original
   * data, content type and format; resized_data is not supplied and so
   * becomes NULL.
   */
  method CacheOriginalImage(db: Database, outcomes: seq<AttemptOutcome>, url: string,
                            data: Option<Blob>, contentType: string, format: string)
    returns (err: Option<string>, ghost attempts: nat, ghost sleeps: nat)
    requires db.Valid()
    modifies db
    ensures db.Valid()
    ensures FirstRun(outcomes).Some? ==>
              && err.None?
              && db.rows == InsertOrReplace(old(db.rows), old(db.nextId), old(db.clock), url, 0,
                                            data, None, contentType, format)
              && db.nextId == old(db.nextId) + 1
    ensures FirstRun(outcomes).None? ==>
              && err == Some("failed to cache original image after retries: " + FinalError(outcomes))
              && db.rows == old(db.rows) && db.nextId == old(db.nextId)
    ensures db.clock == old(db.clock)
    ensures 1 <= attempts <= MaxAttempts && sleeps == attempts - 1
  {
    var ranAt, lastError;
    ranAt, lastError, attempts, sleeps := Attempt(outcomes);
    if ranAt.None? {
      return Some("failed to cache original image after retries: " + lastError), attempts, sleeps;
    }
    db.Upsert(url, 0, data, None, contentType, format);
    err := None;
  }

  // ---------------------------------------------------------------------
  // Cleanup
  // ---------------------------------------------------------------------

  /** Which step of the cleanup transaction fails, and with what error. */
  datatype TransactionFaults = TransactionFaults(
    begin: Option<string>,
    count: Option<string>,
    delete: Option<string>,
    rowsAffected: Option<string>,
    commit: Option<string>)

  /** The table and the error a cleanup transaction leaves. */
  function Cleanup(rows: seq<Row>, faults: TransactionFaults): (r: (seq<Row>, Option<string>))
    ensures r.0 == rows || r.0 == EvictOldest(rows)
    ensures faults.begin.Some? || faults.count.Some? ==> r.0 == rows && r.1.Some?
  {
    if faults.begin.Some? then (rows, Some("failed to begin transaction: " + faults.begin.value))
    else if faults.count.Some? then (rows, Some("failed to count images: " + faults.count.value))
    else if |rows| == 0 then (rows, None)
    else if faults.delete.Some? then (rows, Some("failed to delete old images: " + faults.delete.value))
    else if faults.rowsAffected.Some? then (rows, Some("failed to get rows affected: " + faults.rowsAffected.value))
    else if faults.commit.Some? then (rows, Some("failed to commit cleanup transaction: " + faults.commit.value))
    else (EvictOldest(rows), None)
  }

  /**
   * The cleanup is all or nothing: an error leaves the table as it was,
   * and a cleanup without error has evicted the oldest rows, which changes
   * the table exactly when it was not empty.  It succeeds on a non-empty
   * table exactly when no step fails.
   */
  lemma CleanupAtomic(rows: seq<Row>, faults: TransactionFaults)
    ensures Cleanup(rows, faults).1.Some? ==> Cleanup(rows, faults).0 == rows
    ensures Cleanup(rows, faults).1.None? ==> Cleanup(rows, faults).0 == EvictOldest(rows)
    ensures Cleanup(rows, faults).0 != rows <==> Cleanup(rows, faults).1.None? && |rows| > 0
    ensures |rows| > 0 ==>
              (Cleanup(rows, faults).1.None?
               <==> faults == TransactionFaults(None, None, None, None, None))
  {
    if |rows| > 0 {
      assert |EvictOldest(rows)| < |rows|;
    }
  }

  /**
   * DeleteOldestImages: inside a transaction, counts the rows, deletes the
   * oldest half (at least one) and commits; a step that fails returns its
   * error and the deferred rollback discards the pending deletion.
   */
  method DeleteOldestImages(db: Database, faults: TransactionFaults) returns (err: Option<string>)
    requires db.Valid()
    modifies db
    ensures db.Valid()
    ensures (db.rows, err) == Cleanup(old(db.rows), faults)
    ensures db.nextId == old(db.nextId) && db.clock == old(db.clock)
  {
    if faults.begin.Some? {
      return Some("failed to begin transaction: " + faults.begin.value);
    }
    var pending := db.rows;
    if faults.count.Some? {
      return Some("failed to count images: " + faults.count.value);
    }
    var totalCount := |pending|;
    if totalCount == 0 {
      return None;
    }
    var deleteCount := totalCount / 2;
    if deleteCount == 0 {
      deleteCount := 1;
    }
    if faults.delete.Some? {
      return Some("failed to delete old images: " + faults.delete.value);
    }
    pending := pending[deleteCount..];
    if faults.rowsAffected.Some? {
      return Some("failed to get rows affected: " + faults.rowsAffected.value);
    }
    if faults.commit.Some? {
      return Some("failed to commit cleanup transaction: " + faults.commit.value);
    }
    EvictOldestSpec(db.rows, db.nextId, db.clock);
    db.rows := pending;
    err := None;
  }

  /** The size test: the size in MiB, as a real number, is above the limit. */
  predicate OverLimit(size: nat, maxMB: int)
  {
    size as real / 1048576.0 > maxMB as real
  }

  /** The size test on integers: more bytes than the limit times 2^20. */
  lemma OverLimitExact(size: nat, maxMB: int)
    ensures OverLimit(size, maxMB) <==> size > maxMB * 1048576
  {
    var mb := size as real / 1048576.0;
    assert mb * 1048576.0 == size as real;
    assert (maxMB * 1048576) as real == maxMB as real * 1048576.0;
  }

  /**
   * One tick of the cleanup service, with the result of reading the file
   * size as input: a failed read skips the tick, and a cleanup runs only
   * when the size is over the limit.  The cleanup's error is returned
   * (the service only logs it).
   */
  method CleanupTick(db: Database, sizeRead: Option<nat>, maxMB: int, faults: TransactionFaults)
    returns (cleaned: bool, err: Option<string>)
    requires db.Valid()
    modifies db
    ensures db.Valid()
    ensures cleaned <==> sizeRead.Some? && sizeRead.value > maxMB * 1048576
    ensures cleaned ==> (db.rows, err) == Cleanup(old(db.rows), faults)
    ensures !cleaned ==> db.rows == old(db.rows) && err.None?
    ensures db.nextId == old(db.nextId) && db.clock == old(db.clock)
  {
    cleaned, err := false, None;
    if sizeRead.None? {
      return;
    }
    OverLimitExact(sizeRead.value, maxMB);
    if OverLimit(sizeRead.value, maxMB) {
      cleaned := true;
      err := DeleteOldestImages(db, faults);
    }
  }
}
