/**
 * The current referer tracker (app/database/referer_db.go) over the
 * referer_tracking table: the retried per-day upsert, the disabled-status
 * check and toggle, and the two statistics listings.  The day is a
 * parameter (the source formats time.Now()), url.Parse's outcome is an
 * input, and each statement's driver outcome is an oracle.
 */
module RefererDb {
  import opened Wrappers
  import opened Retry
  import opened RowScan
  import opened RefererTable
  import opened RefererQueries

  /** The name the current tracker gives a referer it cannot place. */
  const Hidden: string := "hidden"

  /** The prefix of a failed toggle's error. */
  const ToggleError: string := "failed to toggle domain status: "

  const StatsMessages: ReadMessages :=
    ReadMessages("failed to query referer stats: ", "failed to scan referer stat: ", "error iterating referer stats: ")

  const AggregateMessages: ReadMessages :=
    ReadMessages("failed to query aggregated referer stats: ", "failed to scan domain stat: ", "error iterating domain stats: ")

  /** The referer_tracking table of one database file. */
  class Store {
    var rows: seq<RefererRow>

    ghost predicate Valid()
      reads this
    {
      RefererInvariant(rows)
    }

    /** An empty table. */
    constructor ()
      ensures Valid() && rows == []
    {
      rows := [];
    }

    /** INSERT ... ON CONFLICT(base_domain, date_requested) DO UPDATE SET request_count = request_count + 1. */
    method Upsert(domain: string, date: string)
      requires Valid()
      modifies this
      ensures Valid()
      ensures rows == Track(old(rows), domain, date)
    {
      TrackSpec(rows, domain, date);
      var k := DayIndex(rows, domain, date);
      if k.None? {
        rows := rows + [RefererRow(domain, date, 1, false)];
      } else {
        rows := rows[k.value := rows[k.value].(count := rows[k.value].count + 1)];
      }
    }

    /** UPDATE ... SET request_count = request_count + 1 WHERE (domain, day); returns the rows affected. */
    method Increment(domain: string, date: string) returns (affected: nat)
      requires Valid()
      modifies this
      ensures Valid()
      ensures rows == IncrementDay(old(rows), domain, date)
      ensures affected == MatchCount(old(rows), domain, date)
    {
      IncrementDayKeepsInvariant(rows, domain, date);
      affected := MatchCount(rows, domain, date);
      rows := IncrementDay(rows, domain, date);
    }

    /** INSERT of a new (domain, day) row with count 1, as issued when no row of that day exists. */
    method Insert(domain: string, date: string)
      requires Valid() && DayIndex(rows, domain, date).None?
      modifies this
      ensures Valid()
      ensures rows == old(rows) + [RefererRow(domain, date, 1, false)]
    {
      TrackSpec(rows, domain, date);
      rows := rows + [RefererRow(domain, date, 1, false)];
    }

    /** UPDATE ... SET is_disabled = NOT is_disabled WHERE base_domain = domain. */
    method Flip(domain: string)
      requires Valid()
      modifies this
      ensures Valid()
      ensures rows == Toggle(old(rows), domain)
    {
      ToggleSpec(rows, domain);
      rows := Toggle(rows, domain);
    }
  }

  /**
   * TrackReferer: the base domain of the referer ("hidden" when it cannot
   * be placed) gets one more request on the day, under the three-attempt
   * retry; after three failures the table is unchanged and the last error
   * is wrapped.
   */
  method TrackReferer(store: Store, outcomes: seq<AttemptOutcome>, referer: string, parsed: UrlParse, today: string)
    returns (err: Option<string>, ghost attempts: nat, ghost sleeps: nat)
    requires store.Valid()
    modifies store
    ensures store.Valid()
    ensures FirstRun(outcomes).Some? ==>
              err.None? && store.rows == Track(old(store.rows), BaseDomain(referer, parsed, Hidden), today)
    ensures FirstRun(outcomes).None? ==>
              && err == Some("failed to track referer after retries: " + FinalError(outcomes))
              && store.rows == old(store.rows)
    ensures 1 <= attempts <= MaxAttempts && sleeps == attempts - 1
  {
    var domain := BaseDomain(referer, parsed, Hidden);
    var ranAt, lastError;
    ranAt, lastError, attempts, sleeps := Attempt(outcomes);
    if ranAt.None? {
      return Some("failed to track referer after retries: " + lastError), attempts, sleeps;
    }
    store.Upsert(domain, today);
    err := None;
  }

  /**
   * IsDomainDisabled: true exactly when some row of the domain is
   * disabled, so false for a domain with no rows; a failed query gives
   * false and the wrapped error.
   */
  method IsDomainDisabled(store: Store, outcome: AttemptOutcome, domain: string)
    returns (disabled: bool, err: Option<string>)
    ensures outcome.Runs? ==>
              && err.None?
              && (disabled <==> exists i :: 0 <= i < |store.rows| && store.rows[i].domain == domain && store.rows[i].disabled)
    ensures outcome.FailsWith? ==> !disabled && err == Some("failed to check domain status: " + outcome.error)
  {
    if outcome.FailsWith? {
      return false, Some("failed to check domain status: " + outcome.error);
    }
    var count := DisabledRows(store.rows, domain);
    disabled, err := count > 0, None;
  }

  /** ToggleDomainStatus: negates the flag of every row of the domain; a failed update changes nothing. */
  method ToggleDomainStatus(store: Store, outcome: AttemptOutcome, domain: string)
    returns (err: Option<string>)
    requires store.Valid()
    modifies store
    ensures store.Valid()
    ensures outcome.Runs? ==> err.None? && store.rows == Toggle(old(store.rows), domain)
    ensures outcome.FailsWith? ==>
              err == Some(ToggleError + outcome.error) && store.rows == old(store.rows)
  {
    if outcome.FailsWith? {
      return Some(ToggleError + outcome.error);
    }
    store.Flip(domain);
    err := None;
  }

  /**
   * GetRefererStats: the rows dated between start and end inclusive,
   * newest day first and, within a day, the largest count first; a read
   * failure gives no records and the wrapped error.
   */
  method GetRefererStats(store: Store, fault: ReadFault, start: string, end: string)
    returns (stats: seq<RefererStat>, err: Option<string>)
    ensures err.None? <==> fault.NoReadFault? || (fault.ScanFails? && fault.at >= |InRange(store.rows, start, end)|)
    ensures err.None? ==>
              && stats == StatsQuery(store.rows, start, end)
              && Ranked(stats)
              && multiset(stats) == multiset(InRange(store.rows, start, end))
    ensures err.None? ==> forall x :: x in stats <==>
              exists i :: 0 <= i < |store.rows| && InWindow(store.rows[i].date, start, end) && StatOf(store.rows[i]) == x
    ensures err.Some? ==> stats == []
    ensures fault.QueryFails? ==> err == Some(StatsMessages.query + fault.error)
    ensures fault.IterationFails? ==> err == Some(StatsMessages.iteration + fault.error)
  {
    StatsQuerySpec(store.rows, start, end);
    assert |multiset(StatsQuery(store.rows, start, end))| == |multiset(InRange(store.rows, start, end))|;
    stats, err := CollectRows(StatsQuery(store.rows, start, end), fault, StatsMessages);
  }

  /**
   * GetAggregatedRefererStats: one entry per domain with its summed count
   * and whether any of its rows is disabled, largest total first; a read
   * failure gives no records and the wrapped error.
   */
  method GetAggregatedRefererStats(store: Store, fault: ReadFault)
    returns (stats: seq<DomainStat>, err: Option<string>)
    ensures err.None? <==> fault.NoReadFault? || (fault.ScanFails? && fault.at >= |DomainsOf(store.rows)|)
    ensures err.None? ==>
              && stats == AggregateQuery(store.rows)
              && ByTotalDescending(stats)
              && DistinctDomains(stats)
              && (forall y :: y in stats ==>
                    y.totalCount == TotalCount(store.rows, y.domain) && y.isDisabled == AnyDisabled(store.rows, y.domain))
              && (forall d :: d in DomainsListed(stats) <==>
                    exists j :: 0 <= j < |store.rows| && store.rows[j].domain == d)
    ensures err.Some? ==> stats == []
    ensures fault.QueryFails? ==> err == Some(AggregateMessages.query + fault.error)
    ensures fault.IterationFails? ==> err == Some(AggregateMessages.iteration + fault.error)
  {
    AggregateQuerySpec(store.rows);
    stats, err := CollectRows(AggregateQuery(store.rows), fault, AggregateMessages);
  }
}
