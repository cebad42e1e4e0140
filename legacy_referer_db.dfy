/**
 * The older referer tracker (database/referer_db.go): the same table
 * without the disabled flag, "unknown" for a referer it cannot place, and
 * tracking as an UPDATE followed, when it touched no row, by an INSERT,
 * each statement tried once.
 */
module LegacyRefererDb {
  import opened Wrappers
  import opened RefererTable
  import opened RefererDb

  /** The name the older tracker gives a referer it cannot place. */
  const Unknown: string := "unknown"

  /** Which statement of the tracking fails, with its driver error, if any. */
  datatype TrackFaults = TrackFaults(update: Option<string>, rowsAffected: Option<string>, insert: Option<string>)

  /**
   * TrackReferer: with no failure the (domain, day) counter is created at
   * 1 or grows by exactly one, as the single upsert does.  A failed UPDATE
   * changes nothing; once the UPDATE has run, a failed RowsAffected or
   * INSERT leaves the UPDATE's effect in place and returns its wrapped
   * error.
   */
  method TrackReferer(store: Store, faults: TrackFaults, referer: string, parsed: UrlParse, today: string)
    returns (err: Option<string>)
    requires store.Valid()
    modifies store
    ensures store.Valid()
    ensures var domain := BaseDomain(referer, parsed, Unknown);
            && (faults.update.Some? ==>
                  err == Some("failed to update referer tracking: " + faults.update.value) && store.rows == old(store.rows))
            && (faults.update.None? && faults.rowsAffected.Some? ==>
                  err == Some("failed to get rows affected: " + faults.rowsAffected.value)
                  && store.rows == IncrementDay(old(store.rows), domain, today))
            && (faults.update.None? && faults.rowsAffected.None? && DayIndex(old(store.rows), domain, today).None? && faults.insert.Some? ==>
                  err == Some("failed to insert referer tracking: " + faults.insert.value) && store.rows == old(store.rows))
            && (err.None? <==> faults.update.None? && faults.rowsAffected.None? &&
                               (faults.insert.None? || DayIndex(old(store.rows), domain, today).Some?))
            && (err.None? ==> store.rows == Track(old(store.rows), domain, today))
  {
    var domain := BaseDomain(referer, parsed, Unknown);
    UpdateThenInsertIsTrack(store.rows, domain, today);
    MatchCountZero(store.rows, domain, today);
    IncrementDayKeepsInvariant(store.rows, domain, today);
    if faults.update.Some? {
      return Some("failed to update referer tracking: " + faults.update.value);
    }
    var affected := store.Increment(domain, today);
    if faults.rowsAffected.Some? {
      return Some("failed to get rows affected: " + faults.rowsAffected.value);
    }
    if affected == 0 {
      if faults.insert.Some? {
        return Some("failed to insert referer tracking: " + faults.insert.value);
      }
      store.Insert(domain, today);
    }
    err := None;
  }
}
