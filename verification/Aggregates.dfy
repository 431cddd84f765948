/** The analytics queries as folds over the click rows of one filter: totals, time series, breakdowns.
    Buckets are those of date_trunc in UTC; percentages are exact. */
module Aggregates {
  import opened Common
  import opened Domain
  import opened Sequences
  import opened Store

  datatype AnalyticsFilter = AnalyticsFilter(linkId: int, start: Time, end: Time, limit: int)

  /** WHERE link_id = $1 AND clicked_at BETWEEN $2 AND $3. */
  function Matches(f: AnalyticsFilter): ClickRow -> bool {
    (c: ClickRow) => c.linkId == f.linkId && f.start <= c.clickedAt <= f.end
  }

  function Matching(clicks: seq<ClickRow>, f: AnalyticsFilter): seq<ClickRow> {
    Filter(clicks, Matches(f))
  }

  datatype Summary = Summary(totalClicks: nat, uniqueIps: nat)

  function GetSummary(clicks: seq<ClickRow>, f: AnalyticsFilter): Summary {
    var evs := Matching(clicks, f);
    Summary(|evs|, |set c | c in evs :: c.ipAddress|)
  }

  /** Exactly the clicks of the link between the two dates, both included, are counted, each as often as it is
      stored; and addresses among them once. */
  lemma {:induction false} CountedExactly(clicks: seq<ClickRow>, f: AnalyticsFilter, c: ClickRow)
    ensures multiset(Matching(clicks, f))[c] ==
      if c.linkId == f.linkId && f.start <= c.clickedAt <= f.end then multiset(clicks)[c] else 0
    ensures GetSummary(clicks, f).uniqueIps ==
      |set x | x in clicks && x.linkId == f.linkId && f.start <= x.clickedAt <= f.end :: x.ipAddress|
  {
    FilteredCount(clicks, Matches(f), c);
    assert (set x | x in Matching(clicks, f) :: x.ipAddress)
        == (set x | x in clicks && x.linkId == f.linkId && f.start <= x.clickedAt <= f.end :: x.ipAddress);
  }

  lemma {:induction false} FilteredCount(clicks: seq<ClickRow>, keep: ClickRow -> bool, c: ClickRow)
    ensures multiset(Filter(clicks, keep))[c] == if keep(c) then multiset(clicks)[c] else 0
  {
    if clicks != [] {
      var front, last := clicks[..|clicks| - 1], clicks[|clicks| - 1];
      assert clicks == front + [last];
      FilteredCount(front, keep, c);
    }
  }

  // ----- Time series -----

  datatype Granularity = Hourly | Daily

  /** date_trunc to the hour or to the day, in nanoseconds. */
  function Bucket(t: Time, g: Granularity): Time {
    match g
    case Hourly => t / 3_600_000_000_000 * 3_600_000_000_000
    case Daily => t / 86_400_000_000_000 * 86_400_000_000_000
  }

  /** The bucket of a time is the last full hour or the last midnight before or at it. */
  lemma {:induction false} BucketExact(t: Time)
    ensures Bucket(t, Hourly) <= t < Bucket(t, Hourly) + 60 * 60 * 1_000_000_000
    ensures Bucket(t, Hourly) % (60 * 60 * 1_000_000_000) == 0
    ensures Bucket(t, Daily) <= t < Bucket(t, Daily) + 24 * 60 * 60 * 1_000_000_000
    ensures Bucket(t, Daily) % (24 * 60 * 60 * 1_000_000_000) == 0
  {
  }

  lemma {:induction false} DayOfHour(t: Time)
    ensures Bucket(Bucket(t, Hourly), Daily) == Bucket(t, Daily)
  {
    var q, k := t / 86_400_000_000_000, t / 3_600_000_000_000;
    assert 24 * q <= k < 24 * (q + 1);
    var u := k * 3_600_000_000_000;
    assert q * 86_400_000_000_000 <= u < (q + 1) * 86_400_000_000_000;
    assert u / 86_400_000_000_000 == q;
  }

  datatype Point = Point(bucket: Time, clicks: int)

  /** Adds n clicks to bucket b of an ascending series. */
  function Add(ps: seq<Point>, b: Time, n: int): seq<Point> {
    if ps == [] then [Point(b, n)]
    else if ps[0].bucket < b then [ps[0]] + Add(ps[1..], b, n)
    else if ps[0].bucket == b then [Point(b, ps[0].clicks + n)] + ps[1..]
    else [Point(b, n)] + ps
  }

  /** SELECT date_trunc(...) AS bucket, COUNT(*) ... GROUP BY bucket ORDER BY bucket ASC. */
  function Series(evs: seq<ClickRow>, g: Granularity): seq<Point> {
    if evs == [] then []
    else Add(Series(evs[..|evs| - 1], g), Bucket(evs[|evs| - 1].clickedAt, g), 1)
  }

  function GetTimeSeries(clicks: seq<ClickRow>, f: AnalyticsFilter, g: Granularity): seq<Point> {
    Series(Matching(clicks, f), g)
  }

  /** How many of the events fall into bucket b. */
  function InBucket(evs: seq<ClickRow>, g: Granularity, b: Time): nat {
    if evs == [] then 0
    else InBucket(evs[..|evs| - 1], g, b) + if Bucket(evs[|evs| - 1].clickedAt, g) == b then 1 else 0
  }

  function ClicksAt(ps: seq<Point>, b: Time): int {
    if ps == [] then 0 else ClicksAt(ps[1..], b) + if ps[0].bucket == b then ps[0].clicks else 0
  }

  function SumClicks(ps: seq<Point>): int {
    if ps == [] then 0 else ps[0].clicks + SumClicks(ps[1..])
  }

  /** Strictly increasing buckets, each with at least one click. */
  ghost predicate Proper(ps: seq<Point>) {
    && (forall i :: 0 <= i < |ps| ==> ps[i].clicks > 0)
    && forall i, j :: 0 <= i < j < |ps| ==> ps[i].bucket < ps[j].bucket
  }

  lemma {:induction false} AddExact(ps: seq<Point>, b: Time, n: int, c: Time)
    ensures ClicksAt(Add(ps, b, n), c) == ClicksAt(ps, c) + if b == c then n else 0
    ensures SumClicks(Add(ps, b, n)) == SumClicks(ps) + n
  {
    if ps != [] {
      AddExact(ps[1..], b, n, c);
      if ps[0].bucket > b {
        assert ([Point(b, n)] + ps)[1..] == ps;
      }
    }
  }

  lemma {:induction false} ProperCons(p: Point, ps: seq<Point>)
    requires Proper(ps) && p.clicks > 0 && (ps != [] ==> p.bucket < ps[0].bucket)
    ensures Proper([p] + ps)
  {
    assert forall j :: 0 <= j < |ps| ==> ps[0].bucket <= ps[j].bucket;
  }

  lemma {:induction false} ProperTail(ps: seq<Point>)
    requires Proper(ps) && ps != []
    ensures Proper(ps[1..]) && (|ps| > 1 ==> ps[0].bucket < ps[1..][0].bucket)
  {
  }

  lemma {:induction false} AddProper(ps: seq<Point>, b: Time, n: int)
    requires Proper(ps) && n > 0
    ensures Proper(Add(ps, b, n))
    ensures Add(ps, b, n) != [] && Add(ps, b, n)[0].bucket == if ps != [] && ps[0].bucket < b then ps[0].bucket else b
  {
    if ps == [] {
    } else if ps[0].bucket < b {
      ProperTail(ps);
      AddProper(ps[1..], b, n);
      ProperCons(ps[0], Add(ps[1..], b, n));
    } else if ps[0].bucket == b {
      ProperTail(ps);
      ProperCons(Point(b, ps[0].clicks + n), ps[1..]);
    } else {
      ProperCons(Point(b, n), ps);
    }
  }

  lemma {:induction false} ProperBefore(ps: seq<Point>, b: Time)
    requires Proper(ps) && (ps != [] ==> b < ps[0].bucket)
    ensures ClicksAt(ps, b) == 0
  {
    if ps != [] {
      ProperBefore(ps[1..], b);
    }
  }

  lemma {:induction false} NoClicksIsEmpty(ps: seq<Point>)
    requires Proper(ps) && forall b :: ClicksAt(ps, b) == ClicksAt([], b)
    ensures ps == []
  {
    assert ps != [] ==> ClicksAt(ps, ps[0].bucket) == 0;
    if ps != [] {
      ProperBefore(ps[1..], ps[0].bucket);
    }
  }

  /** A proper series is determined by its clicks per bucket. */
  lemma {:induction false} ProperUnique(ps: seq<Point>, qs: seq<Point>)
    requires Proper(ps) && Proper(qs) && forall b :: ClicksAt(ps, b) == ClicksAt(qs, b)
    ensures ps == qs
  {
    if ps == [] {
      NoClicksIsEmpty(qs);
    } else if qs == [] {
      NoClicksIsEmpty(ps);
    } else {
      HeadsAgree(ps, qs);
      HeadsAgree(qs, ps);
      forall b ensures ClicksAt(ps[1..], b) == ClicksAt(qs[1..], b) {
        assert ClicksAt(ps, b) == ClicksAt(qs, b);
      }
      ProperUnique(ps[1..], qs[1..]);
      assert ps == [ps[0]] + ps[1..] && qs == [qs[0]] + qs[1..];
    }
  }

  lemma {:induction false} HeadsAgree(ps: seq<Point>, qs: seq<Point>)
    requires Proper(ps) && Proper(qs) && ps != [] && qs != []
    requires forall b :: ClicksAt(ps, b) == ClicksAt(qs, b)
    ensures ps[0].bucket >= qs[0].bucket
    ensures ps[0].bucket == qs[0].bucket ==> ps[0] == qs[0]
  {
    var b := ps[0].bucket;
    ProperBefore(ps[1..], b);
    assert ClicksAt(ps, b) == ClicksAt(qs, b);
    if b < qs[0].bucket {
      ProperBefore(qs, b);
    } else if b == qs[0].bucket {
      ProperBefore(qs[1..], b);
    }
  }

  /** The series is strictly increasing, counts every bucket exactly, and sums to the number of events. */
  lemma {:induction false} SeriesExact(evs: seq<ClickRow>, g: Granularity)
    ensures Proper(Series(evs, g))
    ensures forall b :: ClicksAt(Series(evs, g), b) == InBucket(evs, g, b)
    ensures SumClicks(Series(evs, g)) == |evs|
  {
    if evs != [] {
      var front, b := evs[..|evs| - 1], Bucket(evs[|evs| - 1].clickedAt, g);
      SeriesExact(front, g);
      AddProper(Series(front, g), b, 1);
      AddExact(Series(front, g), b, 1, b);
      forall c ensures ClicksAt(Series(evs, g), c) == InBucket(evs, g, c) {
        AddExact(Series(front, g), b, 1, c);
      }
    }
  }

  /** For one filter: the buckets of either granularity sum to the total of the summary. */
  lemma {:induction false} SeriesSumsToSummary(clicks: seq<ClickRow>, f: AnalyticsFilter, g: Granularity)
    ensures Proper(GetTimeSeries(clicks, f, g))
    ensures SumClicks(GetTimeSeries(clicks, f, g)) == GetSummary(clicks, f).totalClicks
  {
    SeriesExact(Matching(clicks, f), g);
  }

  /** Merges a series into days. */
  function Regroup(ps: seq<Point>): seq<Point> {
    if ps == [] then [] else Add(Regroup(ps[1..]), Bucket(ps[0].bucket, Daily), ps[0].clicks)
  }

  function DayClicks(ps: seq<Point>, d: Time): int {
    if ps == [] then 0 else DayClicks(ps[1..], d) + if Bucket(ps[0].bucket, Daily) == d then ps[0].clicks else 0
  }

  lemma {:induction false} RegroupExact(ps: seq<Point>)
    requires Proper(ps)
    ensures Proper(Regroup(ps))
    ensures forall d :: ClicksAt(Regroup(ps), d) == DayClicks(ps, d)
  {
    if ps != [] {
      RegroupExact(ps[1..]);
      var b := Bucket(ps[0].bucket, Daily);
      AddProper(Regroup(ps[1..]), b, ps[0].clicks);
      forall d ensures ClicksAt(Regroup(ps), d) == DayClicks(ps, d) {
        AddExact(Regroup(ps[1..]), b, ps[0].clicks, d);
      }
    }
  }

  lemma {:induction false} DayClicksAdd(ps: seq<Point>, b: Time, n: int, d: Time)
    ensures DayClicks(Add(ps, b, n), d) == DayClicks(ps, d) + if Bucket(b, Daily) == d then n else 0
  {
    if ps != [] {
      DayClicksAdd(ps[1..], b, n, d);
      if ps[0].bucket > b {
        assert ([Point(b, n)] + ps)[1..] == ps;
      }
    }
  }

  lemma {:induction false} DayClicksOfHours(evs: seq<ClickRow>, d: Time)
    ensures DayClicks(Series(evs, Hourly), d) == InBucket(evs, Daily, d)
  {
    if evs != [] {
      var front, t := evs[..|evs| - 1], evs[|evs| - 1].clickedAt;
      DayClicksOfHours(front, d);
      DayClicksAdd(Series(front, Hourly), Bucket(t, Hourly), 1, d);
      DayOfHour(t);
    }
  }

  /** Regrouping the hourly series by day gives exactly the daily series. */
  lemma {:induction false} HoursRegroupToDays(evs: seq<ClickRow>)
    ensures Regroup(Series(evs, Hourly)) == Series(evs, Daily)
  {
    SeriesExact(evs, Hourly);
    SeriesExact(evs, Daily);
    RegroupExact(Series(evs, Hourly));
    forall d ensures ClicksAt(Regroup(Series(evs, Hourly)), d) == ClicksAt(Series(evs, Daily), d) {
      DayClicksOfHours(evs, d);
    }
    ProperUnique(Regroup(Series(evs, Hourly)), Series(evs, Daily));
  }

  // ----- Breakdowns -----

  datatype Field = Country | Device | Os | Browser | ReferrerDomain

  /** COALESCE(NULLIF(field, ''), 'unknown'). */
  function LabelOf(c: ClickRow, field: Field): string {
    var value := match field
      case Country => c.countryCode
      case Device => c.device
      case Os => c.os
      case Browser => c.browser
      case ReferrerDomain => c.referrer;
    if value == "" then "unknown" else value
  }

  /** Each breakdown reads its own column; empty values count as unknown. */
  lemma {:induction false} LabelExact(c: ClickRow)
    ensures LabelOf(c, Country) == if c.countryCode == "" then "unknown" else c.countryCode
    ensures LabelOf(c, Device) == if c.device == "" then "unknown" else c.device
    ensures LabelOf(c, Os) == if c.os == "" then "unknown" else c.os
    ensures LabelOf(c, Browser) == if c.browser == "" then "unknown" else c.browser
    ensures LabelOf(c, ReferrerDomain) == if c.referrer == "" then "unknown" else c.referrer
  {
  }

  function LabelCount(evs: seq<ClickRow>, field: Field, name: string): nat {
    if evs == [] then 0
    else LabelCount(evs[..|evs| - 1], field, name) + if LabelOf(evs[|evs| - 1], field) == name then 1 else 0
  }

  function Labels(evs: seq<ClickRow>, field: Field): set<string> {
    set c | c in evs :: LabelOf(c, field)
  }

  datatype Group = Group(name: string, clicks: int)

  function Names(rows: seq<Group>): seq<string> {
    seq(|rows|, i requires 0 <= i < |rows| => rows[i].name)
  }

  ghost predicate Distinct(names: seq<string>) {
    forall i, j :: 0 <= i < j < |names| ==> names[i] != names[j]
  }

  /** rows is an answer to SELECT label, COUNT(*) ... GROUP BY label ORDER BY clicks DESC LIMIT limit, however
      ties are broken. */
  ghost predicate Answers(evs: seq<ClickRow>, field: Field, limit: nat, rows: seq<Group>) {
    && Distinct(Names(rows))
    && (forall i :: 0 <= i < |rows| ==>
          rows[i].name in Labels(evs, field) && rows[i].clicks == LabelCount(evs, field, rows[i].name))
    && (forall i, j :: 0 <= i < j < |rows| ==> rows[i].clicks >= rows[j].clicks)
    && |rows| == (if |Labels(evs, field)| <= limit then |Labels(evs, field)| else limit)
    && (forall i, l :: 0 <= i < |rows| && l in Labels(evs, field) && l !in Names(rows) ==>
          LabelCount(evs, field, l) <= rows[i].clicks)
  }

  // The query as a fold: tally the labels, order the groups, cut at the limit.

  /** Counts one more click for a name. */
  function Tally(rows: seq<Group>, name: string): seq<Group> {
    if rows == [] then [Group(name, 1)]
    else if rows[0].name == name then [Group(name, rows[0].clicks + 1)] + rows[1..]
    else [rows[0]] + Tally(rows[1..], name)
  }

  /** GROUP BY label with COUNT(*). */
  function Grouped(evs: seq<ClickRow>, field: Field): seq<Group> {
    if evs == [] then []
    else Tally(Grouped(evs[..|evs| - 1], field), LabelOf(evs[|evs| - 1], field))
  }

  function FewestLast(): Group -> int { (g: Group) => -g.clicks }

  /** ORDER BY clicks DESC LIMIT limit, ties in the order of first occurrence. */
  function Breakdown(evs: seq<ClickRow>, field: Field, limit: nat): seq<Group> {
    var rows := SortBy(Grouped(evs, field), FewestLast());
    if limit < |rows| then rows[..limit] else rows
  }

  /** Exactly the rows of GROUP BY, in some order. */
  ghost predicate Groups(evs: seq<ClickRow>, field: Field, rows: seq<Group>) {
    && Distinct(Names(rows))
    && (forall i :: 0 <= i < |rows| ==>
          rows[i].name in Labels(evs, field) && rows[i].clicks == LabelCount(evs, field, rows[i].name))
    && forall l :: l in Labels(evs, field) ==> l in Names(rows)
  }

  lemma {:induction false} DistinctNames(rows: seq<Group>)
    ensures Distinct(Names(rows)) <==> forall i, j :: 0 <= i < j < |rows| ==> rows[i].name != rows[j].name
  {
    assert forall i :: 0 <= i < |rows| ==> Names(rows)[i] == rows[i].name;
  }

  lemma {:induction false} TallyNew(rows: seq<Group>, name: string)
    requires forall i :: 0 <= i < |rows| ==> rows[i].name != name
    ensures Tally(rows, name) == rows + [Group(name, 1)]
  {
    if rows != [] {
      TallyNew(rows[1..], name);
      assert rows == [rows[0]] + rows[1..];
    }
  }

  lemma {:induction false} TallyAgain(rows: seq<Group>, name: string, k: nat)
    requires k < |rows| && rows[k].name == name && forall i :: 0 <= i < k ==> rows[i].name != name
    ensures Tally(rows, name) == rows[k := Group(name, rows[k].clicks + 1)]
  {
    if k > 0 {
      TallyAgain(rows[1..], name, k - 1);
      assert rows == [rows[0]] + rows[1..];
    }
  }

  lemma {:induction false} LabelsSnoc(front: seq<ClickRow>, e: ClickRow, field: Field, l: string)
    ensures Labels(front + [e], field) == Labels(front, field) + {LabelOf(e, field)}
    ensures LabelCount(front + [e], field, l) == LabelCount(front, field, l) + if LabelOf(e, field) == l then 1 else 0
  {
    assert (front + [e])[..|front|] == front;
  }

  lemma {:induction false} GroupedExact(evs: seq<ClickRow>, field: Field)
    ensures Groups(evs, field, Grouped(evs, field))
  {
    if evs != [] {
      var front, e := evs[..|evs| - 1], evs[|evs| - 1];
      assert evs == front + [e];
      GroupedExact(front, field);
      GroupedSnoc(front, e, field, Grouped(front, field));
    }
  }

  lemma {:induction false} GroupedSnoc(front: seq<ClickRow>, e: ClickRow, field: Field, rows: seq<Group>)
    requires Groups(front, field, rows)
    ensures Groups(front + [e], field, Tally(rows, LabelOf(e, field)))
  {
    var name := LabelOf(e, field);
    if k :| 0 <= k < |rows| && rows[k].name == name {
      DistinctNames(rows);
      TallyAgain(rows, name, k);
      GroupsAgain(front, e, field, rows, k);
    } else {
      assert name !in Names(rows);
      TallyNew(rows, name);
      GroupsNew(front, e, field, rows);
    }
  }

  lemma {:induction false} GroupsAgain(front: seq<ClickRow>, e: ClickRow, field: Field, rows: seq<Group>, k: nat)
    requires Groups(front, field, rows) && k < |rows| && rows[k].name == LabelOf(e, field)
    ensures Groups(front + [e], field, rows[k := Group(rows[k].name, rows[k].clicks + 1)])
  {
    var after := rows[k := Group(rows[k].name, rows[k].clicks + 1)];
    assert Names(after) == Names(rows);
    LabelsSnoc(front, e, field, rows[k].name);
    forall i | 0 <= i < |after| ensures after[i].clicks == LabelCount(front + [e], field, after[i].name) {
      LabelsSnoc(front, e, field, rows[i].name);
      assert Names(rows)[i] == Names(rows)[k] ==> i == k;
    }
  }

  lemma {:induction false} GroupsNew(front: seq<ClickRow>, e: ClickRow, field: Field, rows: seq<Group>)
    requires Groups(front, field, rows) && LabelOf(e, field) !in Names(rows)
    ensures Groups(front + [e], field, rows + [Group(LabelOf(e, field), 1)])
  {
    var name := LabelOf(e, field);
    var after := rows + [Group(name, 1)];
    assert Names(after) == Names(rows) + [name];
    LabelCountPositive(front, field, name);
    forall i | 0 <= i < |after|
      ensures after[i].name in Labels(front + [e], field)
      ensures after[i].clicks == LabelCount(front + [e], field, after[i].name)
    {
      LabelsSnoc(front, e, field, after[i].name);
    }
    LabelsSnoc(front, e, field, name);
  }

  function GroupName(): Group -> string { (g: Group) => g.name }

  lemma {:induction false} DistinctByName(rows: seq<Group>)
    requires DistinctBy(rows, GroupName())
    ensures Distinct(Names(rows))
  {
    DistinctNames(rows);
    forall i, j | 0 <= i < j < |rows| ensures rows[i].name != rows[j].name {
      assert GroupName()(rows[i]) != GroupName()(rows[j]);
    }
  }

  lemma {:induction false} GroupsPermuted(evs: seq<ClickRow>, field: Field, rows: seq<Group>, sorted: seq<Group>)
    requires Groups(evs, field, rows) && multiset(sorted) == multiset(rows)
    ensures Groups(evs, field, sorted)
  {
    DistinctNames(rows);
    DistinctPermuted(rows, sorted, GroupName());
    DistinctByName(sorted);
    forall i | 0 <= i < |sorted|
      ensures sorted[i].name in Labels(evs, field) && sorted[i].clicks == LabelCount(evs, field, sorted[i].name)
    {
      var p := Whereabouts(rows, sorted, i);
    }
    forall l | l in Labels(evs, field) ensures l in Names(sorted) {
      var p :| 0 <= p < |rows| && Names(rows)[p] == l;
      var i := Whereabouts(sorted, rows, p);
      assert Names(sorted)[i] == l;
    }
  }

  lemma {:induction false} GroupsSize(evs: seq<ClickRow>, field: Field, rows: seq<Group>)
    requires Groups(evs, field, rows)
    ensures |rows| == |Labels(evs, field)|
  {
    var names := Names(rows);
    DistinctSize(names);
    assert (set l | l in names) == Labels(evs, field);
  }

  ghost predicate Descending(rows: seq<Group>) {
    forall i, j :: 0 <= i <= j < |rows| ==> rows[i].clicks >= rows[j].clicks
  }

  lemma {:induction false} OrderedDescending(rows: seq<Group>)
    requires Ordered(rows, FewestLast())
    ensures Descending(rows)
  {
    forall i, j | 0 <= i < j < |rows| ensures rows[i].clicks >= rows[j].clicks {
      assert FewestLast()(rows[i]) <= FewestLast()(rows[j]);
    }
  }

  lemma {:induction false} LeftOutIsFewer(evs: seq<ClickRow>, field: Field, rows: seq<Group>, n: nat, i: nat, l: string)
    requires Groups(evs, field, rows) && Descending(rows) && i < n <= |rows|
    requires l in Labels(evs, field) && l !in Names(rows[..n])
    ensures LabelCount(evs, field, l) <= rows[i].clicks
  {
    var j :| 0 <= j < |rows| && Names(rows)[j] == l;
    assert forall q :: 0 <= q < n ==> Names(rows[..n])[q] == rows[q].name;
  }

  /** The first rows of any descending order of the groups answer the query. */
  lemma {:induction false} TopAnswers(evs: seq<ClickRow>, field: Field, limit: nat, rows: seq<Group>, n: nat)
    requires Groups(evs, field, rows) && Descending(rows) && n == if limit < |rows| then limit else |rows|
    ensures Answers(evs, field, limit, rows[..n])
  {
    var top := rows[..n];
    GroupsSize(evs, field, rows);
    assert forall i :: 0 <= i < n ==> Names(top)[i] == Names(rows)[i];
    forall i, l | 0 <= i < n && l in Labels(evs, field) && l !in Names(top)
      ensures LabelCount(evs, field, l) <= top[i].clicks
    {
      LeftOutIsFewer(evs, field, rows, n, i, l);
    }
  }

  /** Grouping, ordering and cutting answers the query, for every filter, field and limit. */
  lemma {:induction false} BreakdownAnswers(evs: seq<ClickRow>, field: Field, limit: nat)
    ensures Answers(evs, field, limit, Breakdown(evs, field, limit))
  {
    var rows := Grouped(evs, field);
    GroupedExact(evs, field);
    SortByExact(rows, FewestLast());
    GroupsPermuted(evs, field, rows, SortBy(rows, FewestLast()));
    var sorted := SortBy(rows, FewestLast());
    OrderedDescending(sorted);
    TopAnswers(evs, field, limit, sorted, if limit < |sorted| then limit else |sorted|);
    assert sorted[..|sorted|] == sorted;
  }

  /** A label with more clicks than a shown row is shown before it. */
  lemma {:induction false} MoreIsBefore(evs: seq<ClickRow>, field: Field, limit: nat, rows: seq<Group>, i: nat,
                                        l: string)
    requires Answers(evs, field, limit, rows) && i < |rows|
    requires l in Labels(evs, field) && LabelCount(evs, field, l) > rows[i].clicks
    ensures l in Names(rows)[..i]
  {
    assert l in Names(rows);
    var k: nat :| k < |rows| && Names(rows)[k] == l;
    assert rows[k].clicks > rows[i].clicks;
    if k < i {
      assert Names(rows)[..i][k] == l;
    }
  }

  lemma {:induction false} DistinctFits(more: seq<string>, fewer: seq<string>)
    requires Distinct(more) && Distinct(fewer) && forall l :: l in more ==> l in fewer
    ensures |more| <= |fewer|
  {
    DistinctSize(more);
    DistinctSize(fewer);
    SubsetSize(set l | l in more, set l | l in fewer);
  }

  lemma {:induction false} ShownBefore(evs: seq<ClickRow>, field: Field, limit: nat, xs: seq<Group>, ys: seq<Group>,
                                       i: nat, j: nat)
    requires Answers(evs, field, limit, xs) && Answers(evs, field, limit, ys) && j <= i < |xs|
    requires xs[i].clicks > ys[i].clicks
    ensures Names(xs)[j] in Names(ys)[..i]
  {
    assert xs[j].clicks >= xs[i].clicks;
    MoreIsBefore(evs, field, limit, ys, i, xs[j].name);
  }

  lemma {:induction false} AnswersAtMost(evs: seq<ClickRow>, field: Field, limit: nat, xs: seq<Group>,
                                         ys: seq<Group>, i: nat)
    requires Answers(evs, field, limit, xs) && Answers(evs, field, limit, ys) && i < |xs|
    ensures xs[i].clicks <= ys[i].clicks
  {
    if xs[i].clicks > ys[i].clicks {
      var more, fewer := Names(xs)[..i + 1], Names(ys)[..i];
      forall j | 0 <= j <= i ensures more[j] in fewer {
        ShownBefore(evs, field, limit, xs, ys, i, j);
      }
      DistinctFits(more, fewer);
    }
  }

  /** How ties are broken cannot be seen in the counts: any two answers list the same clicks. */
  lemma {:induction false} TiesKeepCounts(evs: seq<ClickRow>, field: Field, limit: nat, xs: seq<Group>, ys: seq<Group>)
    requires Answers(evs, field, limit, xs) && Answers(evs, field, limit, ys)
    ensures |xs| == |ys|
    ensures forall i :: 0 <= i < |xs| ==> xs[i].clicks == ys[i].clicks
  {
    forall i | 0 <= i < |xs| ensures xs[i].clicks == ys[i].clicks {
      AnswersAtMost(evs, field, limit, xs, ys, i);
      AnswersAtMost(evs, field, limit, ys, xs, i);
    }
  }

  function SumGroups(rows: seq<Group>): int {
    if rows == [] then 0 else SumGroups(rows[..|rows| - 1]) + rows[|rows| - 1].clicks
  }

  function SumCounts(evs: seq<ClickRow>, field: Field, names: seq<string>): nat {
    if names == [] then 0
    else SumCounts(evs, field, names[..|names| - 1]) + LabelCount(evs, field, names[|names| - 1])
  }

  /** How many events carry one of the names. */
  function CountIn(evs: seq<ClickRow>, field: Field, names: seq<string>): nat {
    if evs == [] then 0
    else CountIn(evs[..|evs| - 1], field, names) + if LabelOf(evs[|evs| - 1], field) in names then 1 else 0
  }

  lemma {:induction false} SumCountsSnoc(evs: seq<ClickRow>, e: ClickRow, field: Field, names: seq<string>)
    requires Distinct(names)
    ensures SumCounts(evs + [e], field, names) ==
      SumCounts(evs, field, names) + if LabelOf(e, field) in names then 1 else 0
  {
    if names != [] {
      var front, last := names[..|names| - 1], names[|names| - 1];
      SumCountsSnoc(evs, e, field, front);
      assert names == front + [last];
      assert (evs + [e])[..|evs|] == evs;
    }
  }

  lemma {:induction false} SumCountsIsCountIn(evs: seq<ClickRow>, field: Field, names: seq<string>)
    requires Distinct(names)
    ensures SumCounts(evs, field, names) == CountIn(evs, field, names)
  {
    if evs == [] {
      NoCounts(field, names);
    } else {
      var front, e := evs[..|evs| - 1], evs[|evs| - 1];
      assert evs == front + [e];
      SumCountsIsCountIn(front, field, names);
      SumCountsSnoc(front, e, field, names);
    }
  }

  lemma {:induction false} NoCounts(field: Field, names: seq<string>)
    ensures SumCounts([], field, names) == 0
  {
    if names != [] {
      NoCounts(field, names[..|names| - 1]);
    }
  }

  lemma {:induction false} CountInBound(evs: seq<ClickRow>, field: Field, names: seq<string>)
    ensures CountIn(evs, field, names) <= |evs|
    ensures CountIn(evs, field, names) == |evs| <==> forall c :: c in evs ==> LabelOf(c, field) in names
  {
    if evs != [] {
      var front, e := evs[..|evs| - 1], evs[|evs| - 1];
      assert evs == front + [e];
      CountInBound(front, field, names);
    }
  }

  lemma {:induction false} SumGroupsIsSumCounts(evs: seq<ClickRow>, field: Field, rows: seq<Group>)
    requires forall i :: 0 <= i < |rows| ==> rows[i].clicks == LabelCount(evs, field, rows[i].name)
    ensures SumGroups(rows) == SumCounts(evs, field, Names(rows))
  {
    if rows != [] {
      var n := |rows| - 1;
      SumGroupsIsSumCounts(evs, field, rows[..n]);
      assert Names(rows)[..n] == Names(rows[..n]);
    }
  }

  lemma {:induction false} DistinctSize(names: seq<string>)
    requires Distinct(names)
    ensures |set l | l in names| == |names|
  {
    if names != [] {
      var front, last := names[..|names| - 1], names[|names| - 1];
      DistinctSize(front);
      assert names == front + [last];
      assert (set l | l in names) == (set l | l in front) + {last};
    }
  }

  lemma {:induction false} SubsetSize(a: set<string>, b: set<string>)
    requires a <= b
    ensures |a| <= |b| && (|a| == |b| ==> a == b)
  {
    assert b == a + (b - a);
    assert |b| == |a| + |b - a|;
    if |a| == |b| {
      assert b - a == {};
    }
  }

  lemma {:induction false} ShownLabels(evs: seq<ClickRow>, field: Field, limit: nat, rows: seq<Group>)
    requires Answers(evs, field, limit, rows)
    ensures (forall c :: c in evs ==> LabelOf(c, field) in Names(rows)) <==> |Labels(evs, field)| <= limit
  {
    var names, all := Names(rows), Labels(evs, field);
    var shown := set l | l in names;
    DistinctSize(names);
    SubsetSize(shown, all);
    if |all| <= limit {
      forall c | c in evs ensures LabelOf(c, field) in names {
        assert LabelOf(c, field) in all;
      }
    } else {
      assert |shown| < |all| && !(all <= shown) by {
        assert shown <= all;
        assert all <= shown ==> all == shown;
      }
      var l :| l in all && l !in shown;
      var c :| c in evs && LabelOf(c, field) == l;
    }
  }

  /** However the query breaks ties, the clicks of a breakdown sum to at most the total of the filter, and to
      exactly the total if and only if the distinct labels fit the limit. */
  lemma {:induction false} BreakdownSum(evs: seq<ClickRow>, field: Field, limit: nat, rows: seq<Group>)
    requires Answers(evs, field, limit, rows)
    ensures SumGroups(rows) <= |evs|
    ensures SumGroups(rows) == |evs| <==> |Labels(evs, field)| <= limit
  {
    ShownLabels(evs, field, limit, rows);
    SumGroupsIsSumCounts(evs, field, rows);
    SumCountsIsCountIn(evs, field, Names(rows));
    CountInBound(evs, field, Names(rows));
  }

  datatype BreakdownItem = BreakdownItem(name: string, clicks: int, percentage: real)

  /** The share of the shown total, in percent; zero when nothing was counted. */
  function Percentage(clicks: int, total: int): real {
    if total > 0 then clicks as real / total as real * 100.0 else 0.0
  }

  function PercentageSum(items: seq<BreakdownItem>): real {
    if items == [] then 0.0 else PercentageSum(items[..|items| - 1]) + items[|items| - 1].percentage
  }

  /** Every group of an answer has a click, so a nonempty breakdown has a positive total. */
  lemma {:induction false} LabelCountPositive(evs: seq<ClickRow>, field: Field, name: string)
    ensures LabelCount(evs, field, name) > 0 <==> name in Labels(evs, field)
  {
    if evs != [] {
      var front, e := evs[..|evs| - 1], evs[|evs| - 1];
      assert evs == front + [e];
      LabelCountPositive(front, field, name);
      assert Labels(evs, field) == Labels(front, field) + {LabelOf(e, field)};
    }
  }

  lemma {:induction false} AnswersPositive(evs: seq<ClickRow>, field: Field, limit: nat, rows: seq<Group>)
    requires Answers(evs, field, limit, rows) && rows != []
    ensures SumGroups(rows) > 0
  {
    forall i | 0 <= i < |rows| ensures rows[i].clicks > 0 {
      LabelCountPositive(evs, field, rows[i].name);
    }
    SumPositive(rows);
  }

  lemma {:induction false} SumPositive(rows: seq<Group>)
    requires forall i :: 0 <= i < |rows| ==> rows[i].clicks > 0
    ensures SumGroups(rows) >= |rows|
  {
    if rows != [] {
      SumPositive(rows[..|rows| - 1]);
    }
  }

  /** The items of a result: each row with its share of the shown total. */
  function Itemized(rows: seq<Group>): (items: seq<BreakdownItem>)
    ensures |items| == |rows|
    ensures forall i :: 0 <= i < |rows| ==>
      items[i] == BreakdownItem(rows[i].name, rows[i].clicks, Percentage(rows[i].clicks, SumGroups(rows)))
  {
    seq(|rows|, i requires 0 <= i < |rows| =>
      BreakdownItem(rows[i].name, rows[i].clicks, Percentage(rows[i].clicks, SumGroups(rows))))
  }

  /** The loops of getBreakdownByField over the rows its query returned. */
  method BreakdownItems(rows: seq<Group>) returns (items: seq<BreakdownItem>)
    ensures items == Itemized(rows)
  {
    items := [];
    var total := 0;
    for k := 0 to |rows|
      invariant total == SumGroups(rows[..k]) && |items| == k
      invariant forall i :: 0 <= i < k ==> items[i] == BreakdownItem(rows[i].name, rows[i].clicks, 0.0)
    {
      assert rows[..k + 1][..k] == rows[..k];
      total := total + rows[k].clicks;
      items := items + [BreakdownItem(rows[k].name, rows[k].clicks, 0.0)];
    }
    assert rows[..|rows|] == rows;
    if total > 0 {
      for k := 0 to |items|
        invariant |items| == |rows|
        invariant forall i :: 0 <= i < k ==>
          items[i] == BreakdownItem(rows[i].name, rows[i].clicks, Percentage(rows[i].clicks, total))
        invariant forall i :: k <= i < |items| ==> items[i] == BreakdownItem(rows[i].name, rows[i].clicks, 0.0)
      {
        items := items[k := items[k].(percentage := items[k].clicks as real / total as real * 100.0)];
      }
    }
  }

  /** The percentages of a nonempty breakdown sum to exactly one hundred, however the query breaks ties. */
  lemma {:induction false} PercentagesSumToHundred(evs: seq<ClickRow>, field: Field, limit: nat, rows: seq<Group>)
    requires Answers(evs, field, limit, rows) && rows != []
    ensures PercentageSum(Itemized(rows)) == 100.0
  {
    AnswersPositive(evs, field, limit, rows);
    var items, total := Itemized(rows), SumGroups(rows);
    PercentagesSum(rows, items, total, |rows|);
    assert items[..|rows|] == items && rows[..|rows|] == rows;
    WholeShare(total);
  }

  lemma {:induction false} WholeShare(total: int)
    requires total > 0
    ensures Percentage(total, total) == 100.0
  {
    var t := total as real;
    assert t / t == 1.0;
  }

  lemma {:induction false} AddShares(x: int, y: int, total: int)
    requires total > 0
    ensures Percentage(x, total) + Percentage(y, total) == Percentage(x + y, total)
  {
    assert (x + y) as real == x as real + y as real;
  }

  lemma {:induction false} PercentagesSum(rows: seq<Group>, items: seq<BreakdownItem>, total: int, k: nat)
    requires total > 0 && k <= |rows| == |items|
    requires forall i :: 0 <= i < |items| ==> items[i].percentage == Percentage(rows[i].clicks, total)
    ensures PercentageSum(items[..k]) == Percentage(SumGroups(rows[..k]), total)
  {
    if k == 0 {
      assert Percentage(0, total) == 0.0;
    } else {
      PercentagesSum(rows, items, total, k - 1);
      assert items[..k][..k - 1] == items[..k - 1] && rows[..k][..k - 1] == rows[..k - 1];
      AddShares(SumGroups(rows[..k - 1]), rows[k - 1].clicks, total);
    }
  }

  const DEFAULT_LIMIT: nat := 10

  /** The limit of a filter, where zero means the default. */
  function Limit(f: AnalyticsFilter): int {
    if f.limit == 0 then DEFAULT_LIMIT else f.limit
  }

  /** getBreakdownByField: the query, then the loops. A negative limit is refused by the database. */
  method GetBreakdown(clicks: seq<ClickRow>, f: AnalyticsFilter, field: Field)
      returns (r: Result<seq<BreakdownItem>, Error>)
    ensures r.Err? <==> f.limit < 0
    ensures r.Ok? ==>
      var evs, items := Matching(clicks, f), r.value;
      && (exists rows :: Answers(evs, field, Limit(f), rows) && items == Itemized(rows))
      && (items == [] <==> evs == [])
      && |items| == (var shown := if f.limit == 0 then 10 else f.limit;
                     if |Labels(evs, field)| <= shown then |Labels(evs, field)| else shown)
      && (items != [] ==> PercentageSum(items) == 100.0)
  {
    if f.limit < 0 {
      return Err(Storage);
    }
    var evs := Matching(clicks, f);
    var rows := Breakdown(evs, field, Limit(f));
    BreakdownAnswers(evs, field, Limit(f));
    AnswerEmpty(evs, field, Limit(f), rows);
    if rows != [] {
      PercentagesSumToHundred(evs, field, Limit(f), rows);
    }
    var items := BreakdownItems(rows);
    return Ok(items);
  }

  lemma {:induction false} AnswerEmpty(evs: seq<ClickRow>, field: Field, limit: nat, rows: seq<Group>)
    requires Answers(evs, field, limit, rows) && limit > 0
    ensures rows == [] <==> evs == []
  {
    if evs != [] {
      assert LabelOf(evs[0], field) in Labels(evs, field);
    } else {
      assert Labels(evs, field) == {};
    }
  }
}
