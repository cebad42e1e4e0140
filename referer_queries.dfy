/**
 * The two statistics queries over referer_tracking, as functions: the
 * date-range listing ordered by day and then count, both descending, and
 * the per-domain aggregation ordered by total count, descending.  SQL
 * leaves the order of equal keys open; the sorts below fix one, and every
 * property proved holds for any order of equal keys.  Dates are TEXT and
 * compare as SQLite's BINARY collation does.
 */
module RefererQueries {
  import opened RefererTable

  // ---------------------------------------------------------------------
  // Text order
  // ---------------------------------------------------------------------

  /** BINARY collation: code point by code point, a proper prefix first. */
  predicate TextLess(a: string, b: string)
  {
    if |a| == 0 then |b| > 0
    else if |b| == 0 then false
    else if a[0] != b[0] then a[0] < b[0]
    else TextLess(a[1..], b[1..])
  }

  predicate TextAtMost(a: string, b: string)
  {
    a == b || TextLess(a, b)
  }

  lemma {:induction false} TextLessIrreflexive(a: string)
    ensures !TextLess(a, a)
  {
    if |a| > 0 {
      TextLessIrreflexive(a[1..]);
    }
  }

  lemma {:induction false} TextLessTransitive(a: string, b: string, c: string)
    requires TextLess(a, b) && TextLess(b, c)
    ensures TextLess(a, c)
  {
    if |a| > 0 && a[0] == b[0] && b[0] == c[0] {
      TextLessTransitive(a[1..], b[1..], c[1..]);
    }
  }

  lemma {:induction false} TextLessTotal(a: string, b: string)
    ensures a == b || TextLess(a, b) || TextLess(b, a)
  {
    if |a| > 0 && |b| > 0 && a[0] == b[0] {
      TextLessTotal(a[1..], b[1..]);
      if a[1..] == b[1..] {
        assert a == [a[0]] + a[1..] && b == [b[0]] + b[1..];
      }
    }
  }

  /** Dates written as YYYY-MM-DD compare as the days they name: "2024-01-31" comes before "2024-02-01". */
  lemma DateOrderExample()
    ensures TextLess("2024-01-31", "2024-02-01")
  {
    assert "2024-01-31"[..5] == "2024-02-01"[..5];
    assert "2024-01-31"[6] < "2024-02-01"[6];
    assert TextLess("1-31", "2-01");
    assert TextLess("01-31", "02-01");
    assert TextLess("-01-31", "-02-01");
    assert TextLess("4-01-31", "4-02-01");
    assert TextLess("24-01-31", "24-02-01");
    assert TextLess("024-01-31", "024-02-01");
  }

  // ---------------------------------------------------------------------
  // Date-range listing
  // ---------------------------------------------------------------------

  datatype RefererStat = RefererStat(domain: string, date: string, count: int)

  function StatOf(r: RefererRow): RefererStat
  {
    RefererStat(r.domain, r.date, r.count)
  }

  /** date_requested BETWEEN start AND end. */
  predicate InWindow(date: string, start: string, end: string)
  {
    TextAtMost(start, date) && TextAtMost(date, end)
  }

  /** The rows in the window, in table order. */
  function InRange(rows: seq<RefererRow>, start: string, end: string): (r: seq<RefererStat>)
    ensures |r| <= |rows|
    ensures forall x :: x in r <==> exists i :: 0 <= i < |rows| && InWindow(rows[i].date, start, end) && StatOf(rows[i]) == x
  {
    if |rows| == 0 then []
    else
      var init := InRange(rows[..|rows| - 1], start, end);
      var last := rows[|rows| - 1];
      assert forall i :: 0 <= i < |rows| - 1 ==> rows[..|rows| - 1][i] == rows[i];
      if InWindow(last.date, start, end) then init + [StatOf(last)] else init
  }

  /** a may come before b: a later day, or the same day with a count at least as large. */
  predicate RankedBefore(a: RefererStat, b: RefererStat)
  {
    TextLess(b.date, a.date) || (a.date == b.date && a.count >= b.count)
  }

  predicate Ranked(s: seq<RefererStat>)
  {
    forall i, j :: 0 <= i < j < |s| ==> RankedBefore(s[i], s[j])
  }

  lemma RankedBeforeTransitive(a: RefererStat, b: RefererStat, c: RefererStat)
    requires RankedBefore(a, b) && RankedBefore(b, c)
    ensures RankedBefore(a, c)
  {
    if TextLess(c.date, b.date) && TextLess(b.date, a.date) {
      TextLessTransitive(c.date, b.date, a.date);
    }
  }

  lemma RankedBeforeTotal(a: RefererStat, b: RefererStat)
    ensures RankedBefore(a, b) || RankedBefore(b, a)
  {
    TextLessTotal(a.date, b.date);
  }

  function InsertRanked(x: RefererStat, s: seq<RefererStat>): (r: seq<RefererStat>)
    ensures |r| == |s| + 1
  {
    if |s| == 0 then [x]
    else if RankedBefore(x, s[0]) then [x] + s
    else [s[0]] + InsertRanked(x, s[1..])
  }

  /** ORDER BY date_requested DESC, request_count DESC. */
  function RankStats(s: seq<RefererStat>): (r: seq<RefererStat>)
    ensures |r| == |s|
  {
    if |s| == 0 then [] else InsertRanked(s[0], RankStats(s[1..]))
  }

  lemma {:induction false} InsertRankedMembers(x: RefererStat, s: seq<RefererStat>)
    ensures forall y :: y in InsertRanked(x, s) <==> y == x || y in s
    ensures multiset(InsertRanked(x, s)) == multiset(s) + multiset{x}
  {
    if |s| > 0 && !RankedBefore(x, s[0]) {
      InsertRankedMembers(x, s[1..]);
      assert s == [s[0]] + s[1..];
    }
  }

  /** An entry that may precede everything in t may head it. */
  lemma RankedCons(a: RefererStat, t: seq<RefererStat>)
    requires Ranked(t)
    requires forall y :: y in t ==> RankedBefore(a, y)
    ensures Ranked([a] + t)
  {
    var r := [a] + t;
    forall i, j | 0 <= i < j < |r| ensures RankedBefore(r[i], r[j])
    {
      assert r[j] == t[j - 1];
      if i > 0 {
        assert r[i] == t[i - 1];
      }
    }
  }

  lemma {:induction false} InsertRankedSpec(x: RefererStat, s: seq<RefererStat>)
    requires Ranked(s)
    ensures Ranked(InsertRanked(x, s))
    ensures multiset(InsertRanked(x, s)) == multiset(s) + multiset{x}
  {
    InsertRankedMembers(x, s);
    if |s| == 0 {
    } else if RankedBefore(x, s[0]) {
      forall y | y in s ensures RankedBefore(x, y)
      {
        var k :| 0 <= k < |s| && s[k] == y;
        if k > 0 {
          RankedBeforeTransitive(x, s[0], y);
        }
      }
      RankedCons(x, s);
    } else {
      RankedBeforeTotal(x, s[0]);
      var tail := s[1..];
      assert Ranked(tail) by {
        assert forall i :: 0 <= i < |tail| ==> tail[i] == s[i + 1];
      }
      InsertRankedSpec(x, tail);
      InsertRankedMembers(x, tail);
      forall y | y in InsertRanked(x, tail) ensures RankedBefore(s[0], y)
      {
        if y != x {
          var k :| 0 <= k < |tail| && tail[k] == y;
          assert s[k + 1] == y;
        }
      }
      RankedCons(s[0], InsertRanked(x, tail));
    }
  }

  /** The listing sort orders its input and keeps every entry: a sorted permutation. */
  lemma {:induction false} RankStatsSpec(s: seq<RefererStat>)
    ensures Ranked(RankStats(s))
    ensures multiset(RankStats(s)) == multiset(s)
  {
    if |s| > 0 {
      RankStatsSpec(s[1..]);
      InsertRankedSpec(s[0], RankStats(s[1..]));
      assert s == [s[0]] + s[1..];
    }
  }

  /** The date-range query: the rows in the window, ordered. */
  function StatsQuery(rows: seq<RefererRow>, start: string, end: string): (r: seq<RefererStat>)
    ensures |r| == |InRange(rows, start, end)| <= |rows|
  {
    RankStats(InRange(rows, start, end))
  }

  /**
   * The listing holds exactly the rows dated between start and end (each
   * as often as in the window), ordered by day and then count, both
   * descending.
   */
  lemma StatsQuerySpec(rows: seq<RefererRow>, start: string, end: string)
    ensures Ranked(StatsQuery(rows, start, end))
    ensures multiset(StatsQuery(rows, start, end)) == multiset(InRange(rows, start, end))
    ensures forall x :: x in StatsQuery(rows, start, end) <==>
              exists i :: 0 <= i < |rows| && InWindow(rows[i].date, start, end) && StatOf(rows[i]) == x
  {
    RankStatsSpec(InRange(rows, start, end));
    var q := StatsQuery(rows, start, end);
    forall x ensures x in q <==> x in InRange(rows, start, end)
    {
      assert x in q <==> x in multiset(q);
    }
  }

  // ---------------------------------------------------------------------
  // Per-domain aggregation
  // ---------------------------------------------------------------------

  datatype DomainStat = DomainStat(domain: string, totalCount: int, isDisabled: bool)

  /** SUM(request_count) over the domain's rows. */
  function TotalCount(rows: seq<RefererRow>, domain: string): int
  {
    if |rows| == 0 then 0
    else TotalCount(rows[..|rows| - 1], domain) + (if rows[|rows| - 1].domain == domain then rows[|rows| - 1].count else 0)
  }

  predicate Distinct(ds: seq<string>)
  {
    forall i, j :: 0 <= i < j < |ds| ==> ds[i] != ds[j]
  }

  /** The domains of the table, each once, in order of first appearance. */
  function DomainsOf(rows: seq<RefererRow>): (ds: seq<string>)
    ensures Distinct(ds)
    ensures forall d :: d in ds <==> exists i :: 0 <= i < |rows| && rows[i].domain == d
  {
    if |rows| == 0 then []
    else
      var init := rows[..|rows| - 1];
      var ds := DomainsOf(init);
      assert forall i :: 0 <= i < |init| ==> init[i] == rows[i];
      if rows[|rows| - 1].domain in ds then ds else ds + [rows[|rows| - 1].domain]
  }

  /** GROUP BY base_domain, in order of first appearance. */
  function Groups(rows: seq<RefererRow>): seq<DomainStat>
  {
    var ds := DomainsOf(rows);
    seq(|ds|, i requires 0 <= i < |ds| => DomainStat(ds[i], TotalCount(rows, ds[i]), AnyDisabled(rows, ds[i])))
  }

  predicate DistinctDomains(s: seq<DomainStat>)
  {
    forall i, j :: 0 <= i < j < |s| ==> s[i].domain != s[j].domain
  }

  predicate ByTotalDescending(s: seq<DomainStat>)
  {
    forall i, j :: 0 <= i < j < |s| ==> s[i].totalCount >= s[j].totalCount
  }

  function InsertByTotal(x: DomainStat, s: seq<DomainStat>): (r: seq<DomainStat>)
    ensures |r| == |s| + 1
  {
    if |s| == 0 then [x]
    else if x.totalCount >= s[0].totalCount then [x] + s
    else [s[0]] + InsertByTotal(x, s[1..])
  }

  /** ORDER BY total_count DESC. */
  function SortByTotal(s: seq<DomainStat>): (r: seq<DomainStat>)
    ensures |r| == |s|
  {
    if |s| == 0 then [] else InsertByTotal(s[0], SortByTotal(s[1..]))
  }

  lemma {:induction false} InsertByTotalMembers(x: DomainStat, s: seq<DomainStat>)
    ensures forall y :: y in InsertByTotal(x, s) <==> y == x || y in s
    ensures multiset(InsertByTotal(x, s)) == multiset(s) + multiset{x}
  {
    if |s| > 0 && x.totalCount < s[0].totalCount {
      InsertByTotalMembers(x, s[1..]);
      assert s == [s[0]] + s[1..];
    }
  }

  /** An entry with a total at least as large as everything in t, and a domain of its own, may head it. */
  lemma DescendingCons(a: DomainStat, t: seq<DomainStat>)
    requires ByTotalDescending(t) && DistinctDomains(t)
    requires forall y :: y in t ==> a.totalCount >= y.totalCount && a.domain != y.domain
    ensures ByTotalDescending([a] + t) && DistinctDomains([a] + t)
  {
    var r := [a] + t;
    forall i, j | 0 <= i < j < |r| ensures r[i].totalCount >= r[j].totalCount && r[i].domain != r[j].domain
    {
      assert r[j] == t[j - 1];
      if i > 0 {
        assert r[i] == t[i - 1];
      }
    }
  }

  /** Inserting keeps the order by total, and keeps the domains distinct when x brings a new one. */
  lemma {:induction false} InsertByTotalSpec(x: DomainStat, s: seq<DomainStat>)
    requires ByTotalDescending(s) && DistinctDomains(s)
    requires forall y :: y in s ==> y.domain != x.domain
    ensures ByTotalDescending(InsertByTotal(x, s)) && DistinctDomains(InsertByTotal(x, s))
  {
    InsertByTotalMembers(x, s);
    if |s| == 0 {
    } else if x.totalCount >= s[0].totalCount {
      forall y | y in s ensures x.totalCount >= y.totalCount
      {
        var k :| 0 <= k < |s| && s[k] == y;
        if k > 0 {
          assert s[0].totalCount >= s[k].totalCount;
        }
      }
      DescendingCons(x, s);
    } else {
      var tail := s[1..];
      assert ByTotalDescending(tail) && DistinctDomains(tail) by {
        assert forall i :: 0 <= i < |tail| ==> tail[i] == s[i + 1];
      }
      assert forall y :: y in tail ==> y in s;
      InsertByTotalSpec(x, tail);
      InsertByTotalMembers(x, tail);
      forall y | y in InsertByTotal(x, tail) ensures s[0].totalCount >= y.totalCount && s[0].domain != y.domain
      {
        if y != x {
          var k :| 0 <= k < |tail| && tail[k] == y;
          assert s[k + 1] == y;
        }
      }
      DescendingCons(s[0], InsertByTotal(x, tail));
    }
  }

  /** Sorting by total keeps the entries, each as often. */
  lemma {:induction false} SortByTotalMembers(s: seq<DomainStat>)
    ensures multiset(SortByTotal(s)) == multiset(s)
  {
    if |s| > 0 {
      SortByTotalMembers(s[1..]);
      InsertByTotalMembers(s[0], SortByTotal(s[1..]));
      assert s == [s[0]] + s[1..];
    }
  }

  /** Sorting by total keeps the entries and orders them by total, descending; distinct domains stay distinct. */
  lemma {:induction false} SortByTotalSpec(s: seq<DomainStat>)
    requires DistinctDomains(s)
    ensures ByTotalDescending(SortByTotal(s)) && DistinctDomains(SortByTotal(s))
    ensures multiset(SortByTotal(s)) == multiset(s)
  {
    SortByTotalMembers(s);
    if |s| > 0 {
      var tail := s[1..];
      assert DistinctDomains(tail) by {
        assert forall i :: 0 <= i < |tail| ==> tail[i] == s[i + 1];
      }
      SortByTotalSpec(tail);
      var sorted := SortByTotal(tail);
      forall y | y in sorted ensures y.domain != s[0].domain
      {
        assert y in multiset(tail);
        var k :| 0 <= k < |tail| && tail[k] == y;
        assert s[k + 1] == y;
      }
      InsertByTotalSpec(s[0], sorted);
    }
  }

  /** The aggregation query: one entry per domain, ordered by total. */
  function AggregateQuery(rows: seq<RefererRow>): (r: seq<DomainStat>)
    ensures |r| == |DomainsOf(rows)|
  {
    SortByTotal(Groups(rows))
  }

  /** The domains a statistics listing names. */
  function DomainsListed(s: seq<DomainStat>): (ds: seq<string>)
    ensures |ds| == |s| && forall i :: 0 <= i < |s| ==> ds[i] == s[i].domain
  {
    seq(|s|, i requires 0 <= i < |s| => s[i].domain)
  }

  lemma GroupsSpec(rows: seq<RefererRow>)
    ensures DistinctDomains(Groups(rows))
    ensures forall y :: y in Groups(rows) ==>
              y.totalCount == TotalCount(rows, y.domain) && y.isDisabled == AnyDisabled(rows, y.domain)
    ensures DomainsListed(Groups(rows)) == DomainsOf(rows)
  {
  }

  /**
   * The aggregated statistics: one entry per domain of the table and for
   * no other, each with the sum of the domain's counts and disabled
   * exactly when some row of the domain is, ordered by total count
   * descending.
   */
  lemma AggregateQuerySpec(rows: seq<RefererRow>)
    ensures ByTotalDescending(AggregateQuery(rows))
    ensures DistinctDomains(AggregateQuery(rows))
    ensures forall y :: y in AggregateQuery(rows) ==>
              y.totalCount == TotalCount(rows, y.domain) && y.isDisabled == AnyDisabled(rows, y.domain)
    ensures forall d :: d in DomainsListed(AggregateQuery(rows)) <==> exists j :: 0 <= j < |rows| && rows[j].domain == d
  {
    var g := Groups(rows);
    GroupsSpec(rows);
    SortByTotalSpec(g);
    SameDomainsListed(AggregateQuery(rows), g);
  }

  /** Two listings with the same entries name the same domains, and the first holds only entries of the second. */
  lemma SameDomainsListed(a: seq<DomainStat>, g: seq<DomainStat>)
    requires multiset(a) == multiset(g)
    ensures forall y :: y in a ==> y in g
    ensures forall d :: d in DomainsListed(a) <==> d in DomainsListed(g)
  {
    forall y | y in a ensures y in g
    {
      assert y in multiset(g);
    }
    forall d ensures d in DomainsListed(a) <==> d in DomainsListed(g)
    {
      if d in DomainsListed(a) {
        var i :| 0 <= i < |a| && DomainsListed(a)[i] == d;
        assert a[i] in multiset(g);
        var k :| 0 <= k < |g| && g[k] == a[i];
        assert DomainsListed(g)[k] == d;
      }
      if d in DomainsListed(g) {
        var k :| 0 <= k < |g| && DomainsListed(g)[k] == d;
        assert g[k] in multiset(a);
        var i :| 0 <= i < |a| && a[i] == g[k];
        assert DomainsListed(a)[i] == d;
      }
    }
  }
}
