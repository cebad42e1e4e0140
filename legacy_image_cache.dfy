/**
 * The older image cache store (database/db.go): the same table, but each
 * statement is tried once, a read error is returned unwrapped, and the
 * cleanup runs its count and its delete as separate statements with no
 * transaction.
 */
module LegacyImageCache {
  import opened Wrappers
  import opened Retry
  import opened ImageTable
  import ImageCache

  /** GetCachedImage: one attempt; a missing row is (nil, "", "") with no error, a failure is returned as is. */
  method GetCachedImage(db: Database, outcome: AttemptOutcome, url: string, width: int)
    returns (data: Option<Blob>, contentType: string, format: string, err: Option<string>)
    ensures outcome.Runs? && Select(db.rows, url, width).Found? ==>
              var found := Select(db.rows, url, width);
              data == found.data && contentType == found.contentType && format == found.format && err.None?
    ensures outcome.Runs? && Select(db.rows, url, width).NoRow? ==>
              data.None? && contentType == "" && format == "" && err.None?
    ensures outcome.FailsWith? ==>
              data.None? && contentType == "" && format == "" && err == Some(outcome.error)
  {
    data, contentType, format, err := None, "", "", None;
    if outcome.FailsWith? {
      err := Some(outcome.error);
    } else {
      var lookup := Select(db.rows, url, width);
      if lookup.Found? {
        data, contentType, format := lookup.data, lookup.contentType, lookup.format;
      }
    }
  }

  /** CacheImage: one INSERT OR REPLACE of every column at (url, width). */
  method CacheImage(db: Database, outcome: AttemptOutcome, url: string, width: int,
                    originalData: Option<Blob>, resizedData: Option<Blob>,
                    contentType: string, format: string)
    returns (err: Option<string>)
    requires db.Valid()
    modifies db
    ensures db.Valid()
    ensures outcome.Runs? ==>
              && err.None?
              && db.rows == InsertOrReplace(old(db.rows), old(db.nextId), old(db.clock), url, width,
                                            originalData, resizedData, contentType, format)
              && db.nextId == old(db.nextId) + 1
    ensures outcome.FailsWith? ==>
              && err == Some("failed to cache image: " + outcome.error)
              && db.rows == old(db.rows) && db.nextId == old(db.nextId)
    ensures db.clock == old(db.clock)
  {
    if outcome.FailsWith? {
      return Some("failed to cache image: " + outcome.error);
    }
    db.Upsert(url, width, originalData, resizedData, contentType, format);
    err := None;
  }

  /** CacheOriginalImage: one INSERT OR REPLACE at (url, 0), resized_data left NULL. */
  method CacheOriginalImage(db: Database, outcome: AttemptOutcome, url: string,
                            data: Option<Blob>, contentType: string, format: string)
    returns (err: Option<string>)
    requires db.Valid()
    modifies db
    ensures db.Valid()
    ensures outcome.Runs? ==>
              && err.None?
              && db.rows == InsertOrReplace(old(db.rows), old(db.nextId), old(db.clock), url, 0,
                                            data, None, contentType, format)
              && db.nextId == old(db.nextId) + 1
    ensures outcome.FailsWith? ==>
              && err == Some("failed to cache original image: " + outcome.error)
              && db.rows == old(db.rows) && db.nextId == old(db.nextId)
    ensures db.clock == old(db.clock)
  {
    if outcome.FailsWith? {
      return Some("failed to cache original image: " + outcome.error);
    }
    db.Upsert(url, 0, data, None, contentType, format);
    err := None;
  }

  /** Which statement of the cleanup fails, and with what error. */
  datatype StatementFaults = StatementFaults(count: Option<string>, delete: Option<string>, rowsAffected: Option<string>)

  /** The table and the error the two-statement cleanup leaves. */
  function Cleanup(rows: seq<Row>, faults: StatementFaults): (r: (seq<Row>, Option<string>))
    ensures r.0 == rows || r.0 == EvictOldest(rows)
    ensures faults.count.None? && faults.delete.None? ==> r.0 == EvictOldest(rows)
  {
    if faults.count.Some? then (rows, Some("failed to count images: " + faults.count.value))
    else if |rows| == 0 then (rows, None)
    else if faults.delete.Some? then (rows, Some("failed to delete old images: " + faults.delete.value))
    else if faults.rowsAffected.Some? then (EvictOldest(rows), Some("failed to get rows affected: " + faults.rowsAffected.value))
    else (EvictOldest(rows), None)
  }

  /**
   * Without a transaction the deletion stands once the DELETE has run: a
   * failure to read the affected-row count reports an error although the
   * oldest rows are gone, where the transactional cleanup reports the same
   * error and keeps them.  Every other outcome is the same in both.
   */
  lemma DeleteStandsWithoutTransaction(rows: seq<Row>, count: Option<string>, delete: Option<string>,
                                       rowsAffected: Option<string>)
    ensures var legacy := Cleanup(rows, StatementFaults(count, delete, rowsAffected));
            var current := ImageCache.Cleanup(rows, ImageCache.TransactionFaults(None, count, delete, rowsAffected, None));
            && legacy.1 == current.1
            && (count.None? && delete.None? && rowsAffected.Some? && |rows| > 0 ==>
                  legacy.0 == EvictOldest(rows) && legacy.0 != rows && current.0 == rows)
            && (!(count.None? && delete.None? && rowsAffected.Some?) ==> legacy.0 == current.0)
  {
    if |rows| > 0 {
      assert |EvictOldest(rows)| < |rows|;
    }
  }

  /** DeleteOldestImages: counts, then deletes the oldest half (at least one), each statement on its own. */
  method DeleteOldestImages(db: Database, faults: StatementFaults) returns (err: Option<string>)
    requires db.Valid()
    modifies db
    ensures db.Valid()
    ensures (db.rows, err) == Cleanup(old(db.rows), faults)
    ensures db.nextId == old(db.nextId) && db.clock == old(db.clock)
  {
    if faults.count.Some? {
      return Some("failed to count images: " + faults.count.value);
    }
    var totalCount := |db.rows|;
    if totalCount == 0 {
      return None;
    }
    var deleteCount := totalCount / 2;
    if deleteCount == 0 {
      deleteCount := 1;
    }
    if faults.delete.Some? {
      return Some("failed to delete old images: " + faults.delete.value);
    }
    assert deleteCount == DeleteCount(totalCount);
    db.DeleteOldest();
    if faults.rowsAffected.Some? {
      return Some("failed to get rows affected: " + faults.rowsAffected.value);
    }
    err := None;
  }

  /** One tick of the older cleanup service: the same size test, the two-statement cleanup. */
  method CleanupTick(db: Database, sizeRead: Option<nat>, maxMB: int, faults: StatementFaults)
    returns (cleaned: bool, err: Option<string>)
    requires db.Valid()
    modifies db
    ensures db.Valid()
    ensures cleaned <==> sizeRead.Some? && sizeRead.value > maxMB * 1048576
    ensures cleaned ==> (db.rows, err) == Cleanup(old(db.rows), faults)
    ensures !cleaned ==> db.rows == old(db.rows) && err.None?
    ensures db.nextId == old(db.nextId) && db.clock == old(db.clock)
  {
    cleaned, err := false, None;
    if sizeRead.None? {
      return;
    }
    ImageCache.OverLimitExact(sizeRead.value, maxMB);
    if ImageCache.OverLimit(sizeRead.value, maxMB) {
      cleaned := true;
      err := DeleteOldestImages(db, faults);
    }
  }
}
