/**
 * The referer_tracking table shared by both generations of the referer
 * tracker: a (domain, day) counter per row, with the current generation's
 * is_disabled flag (the older table has no such column; its rows keep the
 * flag false).  Also the extraction of a referer's base domain, which the
 * two generations share up to the name they give an unknown domain, and
 * the SQL queries over the table as functions.
 */
module RefererTable {
  import opened Wrappers
  import opened GoStrings

  // ---------------------------------------------------------------------
  // Base domain of a referer
  // ---------------------------------------------------------------------

  /** The outcome of url.Parse: a failure, or the parsed Host. */
  datatype UrlParse = ParseError | Parsed(host: string)

  /**
   * The base domain: "direct" for an empty referer.  When parsing fails,
   * the third '/'-separated segment without one leading "www.", or the
   * unknown name when there are at most two segments.  When it succeeds,
   * the host without one leading "www." and cut at its first ':', or the
   * unknown name for an empty host.
   */
  function BaseDomain(referer: string, parsed: UrlParse, unknown: string): (domain: string)
    ensures referer == "" ==> domain == "direct"
    ensures referer != "" && parsed.Parsed? && parsed.host == "" ==> domain == unknown
    ensures referer != "" && parsed.Parsed? && parsed.host != "" ==>
              var h := TrimPrefix(parsed.host, "www.");
              && ':' !in domain
              && |domain| <= |h| && h[..|domain|] == domain
              && (|domain| < |h| ==> h[|domain|] == ':')
    ensures referer != "" && parsed.ParseError? && '/' !in referer ==> domain == unknown
  {
    if referer == "" then "direct"
    else match parsed
      case ParseError =>
        var parts := Split(referer, '/');
        if |parts| > 2 then TrimPrefix(parts[2], "www.") else unknown
      case Parsed(host) =>
        if host == "" then unknown
        else
          var h := TrimPrefix(host, "www.");
          match IndexOf(h, ':')
          case None => h
          case Some(i) => h[..i]
  }

  /**
   * An unparsable referer "a/b/c..." gives its third segment c without a
   * leading "www." (and with any port it carries); with a single '/' it
   * gives the unknown name.
   */
  lemma {:induction false} UnparsableRefererSegment(a: string, b: string, c: string, rest: string, unknown: string)
    requires '/' !in a && '/' !in b && '/' !in c
    ensures a + "/" + b != "" && BaseDomain(a + "/" + b, ParseError, unknown) == unknown
    ensures BaseDomain(a + "/" + b + "/" + c, ParseError, unknown) == TrimPrefix(c, "www.")
    ensures BaseDomain(a + "/" + b + "/" + c + "/" + rest, ParseError, unknown) == TrimPrefix(c, "www.")
  {
    TwoSegments(a, b, unknown);
    ThreeSegments(a, b, c, unknown);
    MoreSegments(a, b, c, rest, unknown);
  }

  lemma {:induction false} TwoSegments(a: string, b: string, unknown: string)
    requires '/' !in a && '/' !in b
    ensures a + "/" + b != "" && BaseDomain(a + "/" + b, ParseError, unknown) == unknown
  {
    var s := a + ['/'] + b;
    assert a + "/" + b == s;
    assert s[|a|] == '/';
    SplitPair(a, b, '/');
  }

  lemma {:induction false} ThreeSegments(a: string, b: string, c: string, unknown: string)
    requires '/' !in a && '/' !in b && '/' !in c
    ensures BaseDomain(a + "/" + b + "/" + c, ParseError, unknown) == TrimPrefix(c, "www.")
  {
    var s := a + ['/'] + (b + ['/'] + c);
    assert a + "/" + b + "/" + c == s;
    assert s[|a|] == '/';
    assert Split(s, '/') == [a, b] + Split(c, '/') by {
      ThirdSegment(a, b, c, '/');
    }
    assert Split(c, '/')[0] == c by {
      var single := Split(c, '/');
      assert Join(single, '/') == single[0];
    }
  }

  lemma {:induction false} MoreSegments(a: string, b: string, c: string, rest: string, unknown: string)
    requires '/' !in a && '/' !in b && '/' !in c
    ensures BaseDomain(a + "/" + b + "/" + c + "/" + rest, ParseError, unknown) == TrimPrefix(c, "www.")
  {
    var tail := c + ['/'] + rest;
    var s := a + ['/'] + (b + ['/'] + tail);
    assert a + "/" + b + "/" + c + "/" + rest == s;
    assert s[|a|] == '/';
    assert Split(s, '/') == [a, b] + Split(tail, '/') by {
      ThirdSegment(a, b, tail, '/');
    }
    assert Split(tail, '/')[0] == c by {
      SplitFirst(c, rest, '/');
    }
  }

  /** The fields of "a/b/rest" are a, b and the fields of rest. */
  lemma {:induction false} ThirdSegment(a: string, b: string, rest: string, sep: char)
    requires sep !in a && sep !in b
    ensures Split(a + [sep] + (b + [sep] + rest), sep) == [a, b] + Split(rest, sep)
  {
    SplitFirst(a, b + [sep] + rest, sep);
    SplitFirst(b, rest, sep);
    assert [a] + ([b] + Split(rest, sep)) == [a, b] + Split(rest, sep);
  }

  /**
   * A parsed host made only of "www." and a port gives the empty domain,
   * which neither "direct" nor the unknown name stands for.
   */
  lemma EmptyDomainFromBarePort(referer: string, unknown: string)
    requires referer != ""
    ensures BaseDomain(referer, Parsed("www.:80"), unknown) == ""
  {
    assert HasPrefix("www.:80", "www.");
    assert TrimPrefix("www.:80", "www.") == ":80";
  }

  // ---------------------------------------------------------------------
  // Rows
  // ---------------------------------------------------------------------

  datatype RefererRow = RefererRow(domain: string, date: string, count: int, disabled: bool)

  predicate OnDay(r: RefererRow, domain: string, date: string)
  {
    r.domain == domain && r.date == date
  }

  /** UNIQUE(base_domain, date_requested), and every counter at least 1. */
  predicate RefererInvariant(rows: seq<RefererRow>)
  {
    && (forall i, j :: 0 <= i < j < |rows| ==> !OnDay(rows[j], rows[i].domain, rows[i].date))
    && (forall i :: 0 <= i < |rows| ==> rows[i].count >= 1)
  }

  /** The position of the (domain, day) row. */
  function DayIndex(rows: seq<RefererRow>, domain: string, date: string): (r: Option<nat>)
    ensures r.Some? ==> r.value < |rows| && OnDay(rows[r.value], domain, date)
    ensures r.Some? ==> forall j :: 0 <= j < r.value ==> !OnDay(rows[j], domain, date)
    ensures r.None? ==> forall j :: 0 <= j < |rows| ==> !OnDay(rows[j], domain, date)
  {
    if |rows| == 0 then None
    else if OnDay(rows[|rows| - 1], domain, date) && DayIndex(rows[..|rows| - 1], domain, date).None? then Some(|rows| - 1)
    else DayIndex(rows[..|rows| - 1], domain, date)
  }

  /** The counter of a (domain, day); 0 when it has no row. */
  function DayCount(rows: seq<RefererRow>, domain: string, date: string): int
  {
    match DayIndex(rows, domain, date)
    case None => 0
    case Some(k) => rows[k].count
  }

  /**
   * The upsert of one request: a new (domain, day) row with count 1 (and
   * the flag's default, false), or the existing row's count plus one.
   */
  function Track(rows: seq<RefererRow>, domain: string, date: string): (r: seq<RefererRow>)
    ensures |r| == if DayIndex(rows, domain, date).None? then |rows| + 1 else |rows|
    ensures DayIndex(rows, domain, date).None? ==> r[|rows|] == RefererRow(domain, date, 1, false)
    ensures forall i :: 0 <= i < |rows| ==>
              r[i].domain == rows[i].domain && r[i].date == rows[i].date && r[i].disabled == rows[i].disabled
  {
    match DayIndex(rows, domain, date)
    case None => rows + [RefererRow(domain, date, 1, false)]
    case Some(k) => rows[k := rows[k].(count := rows[k].count + 1)]
  }

  lemma DayIndexUnique(rows: seq<RefererRow>, domain: string, date: string, k: nat)
    requires RefererInvariant(rows) && k < |rows| && OnDay(rows[k], domain, date)
    ensures DayIndex(rows, domain, date) == Some(k)
  {
  }

  /**
   * Tracking a request adds exactly one to the (domain, day) counter,
   * creating it at 1, leaves every other row as it was, and keeps the
   * invariant.
   */
  lemma TrackSpec(rows: seq<RefererRow>, domain: string, date: string)
    requires RefererInvariant(rows)
    ensures RefererInvariant(Track(rows, domain, date))
    ensures DayCount(Track(rows, domain, date), domain, date) == DayCount(rows, domain, date) + 1
    ensures DayIndex(rows, domain, date).None? ==> Track(rows, domain, date) == rows + [RefererRow(domain, date, 1, false)]
    ensures |rows| <= |Track(rows, domain, date)| <= |rows| + 1
    ensures forall i :: 0 <= i < |rows| && !OnDay(rows[i], domain, date) ==> Track(rows, domain, date)[i] == rows[i]
  {
    var after := Track(rows, domain, date);
    match DayIndex(rows, domain, date)
    case None =>
      DayIndexUnique(after, domain, date, |rows|);
    case Some(k) =>
      DayIndexUnique(after, domain, date, k);
  }

  /** Tracking a request leaves the counter of every other (domain, day) as it was. */
  lemma TrackLeavesOtherCounts(rows: seq<RefererRow>, domain: string, date: string, domain': string, date': string)
    requires RefererInvariant(rows)
    requires domain' != domain || date' != date
    ensures DayCount(Track(rows, domain, date), domain', date') == DayCount(rows, domain', date')
  {
    TrackSpec(rows, domain, date);
    var after := Track(rows, domain, date);
    match DayIndex(rows, domain', date')
    case None =>
      forall j | 0 <= j < |after| ensures !OnDay(after[j], domain', date')
      {
        if j < |rows| {
          assert after[j].domain == rows[j].domain && after[j].date == rows[j].date;
        }
      }
    case Some(k') =>
      assert after[k'] == rows[k'];
      DayIndexUnique(after, domain', date', k');
  }

  /** UPDATE ... SET request_count = request_count + 1 on every (domain, day) row. */
  function IncrementDay(rows: seq<RefererRow>, domain: string, date: string): (r: seq<RefererRow>)
    ensures |r| == |rows|
    ensures forall i :: 0 <= i < |rows| ==>
              r[i] == (if OnDay(rows[i], domain, date) then rows[i].(count := rows[i].count + 1) else rows[i])
  {
    seq(|rows|, i requires 0 <= i < |rows| =>
      if OnDay(rows[i], domain, date) then rows[i].(count := rows[i].count + 1) else rows[i])
  }

  /** The UPDATE keeps every domain and day, so the invariant, and leaves an unmatched table as it was. */
  lemma IncrementDayKeepsInvariant(rows: seq<RefererRow>, domain: string, date: string)
    requires RefererInvariant(rows)
    ensures RefererInvariant(IncrementDay(rows, domain, date))
    ensures DayIndex(rows, domain, date).None? ==> IncrementDay(rows, domain, date) == rows
  {
    var r := IncrementDay(rows, domain, date);
    assert forall i :: 0 <= i < |rows| ==> r[i].domain == rows[i].domain && r[i].date == rows[i].date;
  }

  /** The rows an UPDATE on (domain, day) affects. */
  function MatchCount(rows: seq<RefererRow>, domain: string, date: string): nat
  {
    if |rows| == 0 then 0
    else MatchCount(rows[..|rows| - 1], domain, date) + (if OnDay(rows[|rows| - 1], domain, date) then 1 else 0)
  }

  lemma {:induction false} MatchCountZero(rows: seq<RefererRow>, domain: string, date: string)
    ensures MatchCount(rows, domain, date) == 0 <==> DayIndex(rows, domain, date).None?
  {
    if |rows| > 0 {
      MatchCountZero(rows[..|rows| - 1], domain, date);
      var init := rows[..|rows| - 1];
      if DayIndex(init, domain, date).Some? {
        var k := DayIndex(init, domain, date).value;
        assert rows[k] == init[k];
      }
    }
  }

  /**
   * Run on its own, the update-then-insert tracking of the older tracker
   * (increment every matching row; insert a count of 1 when none was
   * affected) has the same effect as the single upsert.
   */
  lemma UpdateThenInsertIsTrack(rows: seq<RefererRow>, domain: string, date: string)
    requires RefererInvariant(rows)
    ensures (if MatchCount(rows, domain, date) == 0
             then IncrementDay(rows, domain, date) + [RefererRow(domain, date, 1, false)]
             else IncrementDay(rows, domain, date)) == Track(rows, domain, date)
  {
    MatchCountZero(rows, domain, date);
    var updated := IncrementDay(rows, domain, date);
    match DayIndex(rows, domain, date)
    case None =>
      assert updated == rows;
    case Some(k) =>
      forall i | 0 <= i < |rows| && i != k ensures !OnDay(rows[i], domain, date)
      {
        if i < k {
        } else {
          assert !OnDay(rows[i], rows[k].domain, rows[k].date);
        }
      }
      assert updated == rows[k := rows[k].(count := rows[k].count + 1)];
  }

  /** SELECT COUNT(*) of the domain's disabled rows: positive exactly when some row of the domain is disabled. */
  function DisabledRows(rows: seq<RefererRow>, domain: string): (n: nat)
    ensures n <= |rows|
    ensures n > 0 <==> AnyDisabled(rows, domain)
  {
    if |rows| == 0 then 0
    else DisabledRows(rows[..|rows| - 1], domain) + (if rows[|rows| - 1].domain == domain && rows[|rows| - 1].disabled then 1 else 0)
  }

  /** MAX(is_disabled) over the domain's rows: some row of the domain is disabled. */
  function AnyDisabled(rows: seq<RefererRow>, domain: string): (b: bool)
    ensures b <==> exists i :: 0 <= i < |rows| && rows[i].domain == domain && rows[i].disabled
  {
    if |rows| == 0 then false
    else
      var init := rows[..|rows| - 1];
      var b := AnyDisabled(init, domain) || (rows[|rows| - 1].domain == domain && rows[|rows| - 1].disabled);
      assert (exists i :: 0 <= i < |init| && init[i].domain == domain && init[i].disabled)
             ==> exists i :: 0 <= i < |rows| && rows[i].domain == domain && rows[i].disabled;
      b
  }

  /** UPDATE ... SET is_disabled = NOT is_disabled WHERE base_domain = domain. */
  function Toggle(rows: seq<RefererRow>, domain: string): (r: seq<RefererRow>)
    ensures |r| == |rows|
    ensures forall i :: 0 <= i < |rows| ==> (r[i].disabled != rows[i].disabled <==> rows[i].domain == domain)
  {
    seq(|rows|, i requires 0 <= i < |rows| =>
      if rows[i].domain == domain then rows[i].(disabled := !rows[i].disabled) else rows[i])
  }

  /**
   * Toggling flips the flag of every row of the domain and of no other row,
   * keeps every domain, day and counter (so the invariant), and toggling
   * twice restores the table.
   */
  lemma ToggleSpec(rows: seq<RefererRow>, domain: string)
    ensures |Toggle(rows, domain)| == |rows|
    ensures forall i :: 0 <= i < |rows| ==>
              && Toggle(rows, domain)[i].domain == rows[i].domain
              && Toggle(rows, domain)[i].date == rows[i].date
              && Toggle(rows, domain)[i].count == rows[i].count
              && (Toggle(rows, domain)[i].disabled <==> (rows[i].domain == domain) != rows[i].disabled)
    ensures RefererInvariant(rows) ==> RefererInvariant(Toggle(rows, domain))
    ensures Toggle(Toggle(rows, domain), domain) == rows
  {
  }

  // ---------------------------------------------------------------------
  // The toggle quirk
  // ---------------------------------------------------------------------

  /**
   * New rows start enabled and the toggle negates each row on its own, so
   * once a domain has both kinds of rows every toggle keeps both kinds and
   * the domain stays disabled.
   */
  lemma MixedFlagsStayMixed(rows: seq<RefererRow>, domain: string, i: nat, j: nat)
    requires i < |rows| && j < |rows|
    requires rows[i].domain == domain && rows[i].disabled
    requires rows[j].domain == domain && !rows[j].disabled
    ensures AnyDisabled(rows, domain) && AnyDisabled(Toggle(rows, domain), domain)
    ensures Toggle(rows, domain)[j].disabled && !Toggle(rows, domain)[i].disabled
  {
    var after := Toggle(rows, domain);
    assert after[j].domain == domain && after[j].disabled;
  }

  /**
   * A domain disabled yesterday and requested again today cannot be
   * enabled again: after the second toggle it is still disabled.
   */
  lemma ToggleCannotReenable(domain: string, yesterday: string, today: string)
    requires yesterday != today
    ensures var disabledYesterday := Toggle(Track([], domain, yesterday), domain);
            var requestedToday := Track(disabledYesterday, domain, today);
            && AnyDisabled(disabledYesterday, domain)
            && AnyDisabled(requestedToday, domain)
            && AnyDisabled(Toggle(requestedToday, domain), domain)
  {
    var t0 := Track([], domain, yesterday);
    assert t0 == [RefererRow(domain, yesterday, 1, false)];
    var t1 := Toggle(t0, domain);
    assert t1 == [RefererRow(domain, yesterday, 1, true)];
    var t2 := Track(t1, domain, today);
    assert !OnDay(t1[0], domain, today);
    assert t2 == [RefererRow(domain, yesterday, 1, true), RefererRow(domain, today, 1, false)];
    MixedFlagsStayMixed(t2, domain, 0, 1);
  }

  /** The evidently intended toggle: every row of the domain takes the negation of the domain's status. */
  function ToggleStatus(rows: seq<RefererRow>, domain: string): (r: seq<RefererRow>)
    ensures |r| == |rows|
    ensures forall i :: 0 <= i < |rows| && rows[i].domain != domain ==> r[i] == rows[i]
    ensures forall i, j :: 0 <= i < |rows| && 0 <= j < |rows| && rows[i].domain == domain && rows[j].domain == domain ==>
              r[i].disabled == r[j].disabled
  {
    var status := !AnyDisabled(rows, domain);
    seq(|rows|, i requires 0 <= i < |rows| =>
      if rows[i].domain == domain then rows[i].(disabled := status) else rows[i])
  }

  /**
   * The corrected toggle flips the domain's status whenever the domain has
   * rows, leaves every other row as it was, and toggling twice restores
   * the status.
   */
  lemma ToggleStatusFlips(rows: seq<RefererRow>, domain: string, k: nat)
    requires k < |rows| && rows[k].domain == domain
    ensures AnyDisabled(ToggleStatus(rows, domain), domain) == !AnyDisabled(rows, domain)
    ensures AnyDisabled(ToggleStatus(ToggleStatus(rows, domain), domain), domain) == AnyDisabled(rows, domain)
    ensures forall i :: 0 <= i < |rows| && rows[i].domain != domain ==> ToggleStatus(rows, domain)[i] == rows[i]
  {
    var once := ToggleStatus(rows, domain);
    assert once[k].domain == domain && once[k].disabled == !AnyDisabled(rows, domain);
    var twice := ToggleStatus(once, domain);
    assert twice[k].domain == domain && twice[k].disabled == !AnyDisabled(once, domain);
  }

  /** With the corrected toggle the domain of the scenario above is enabled again. */
  lemma ToggleStatusReenables(domain: string, yesterday: string, today: string)
    requires yesterday != today
    ensures var disabledYesterday := ToggleStatus(Track([], domain, yesterday), domain);
            var requestedToday := Track(disabledYesterday, domain, today);
            && AnyDisabled(disabledYesterday, domain)
            && AnyDisabled(requestedToday, domain)
            && !AnyDisabled(ToggleStatus(requestedToday, domain), domain)
  {
    var t0 := Track([], domain, yesterday);
    assert t0 == [RefererRow(domain, yesterday, 1, false)];
    var t1 := ToggleStatus(t0, domain);
    assert t1 == [RefererRow(domain, yesterday, 1, true)];
    var t2 := Track(t1, domain, today);
    assert !OnDay(t1[0], domain, today);
    assert t2 == [RefererRow(domain, yesterday, 1, true), RefererRow(domain, today, 1, false)];
    var t3 := ToggleStatus(t2, domain);
    assert t3 == [RefererRow(domain, yesterday, 1, false), RefererRow(domain, today, 1, false)];
  }
}
