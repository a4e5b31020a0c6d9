/**
  The team-progress report for a manager (`GET /api/team-progress`): per-member counts and averages,
  response totals, and month-by-month enrollment and completion counts sorted by month. The two
  database queries are inputs: the manager's team members with their enrollments, and the enrollment
  rows of those members, both already restricted to the requested date range.
*/
module TeamProgress {
  import opened Wrappers
  import opened JsNumber
  import opened Records
  import opened Buckets
  import opened Strings
  import opened Auth

  datatype Member = Member(id: int, firstName: string, lastName: string, email: string, enrollments: seq<Enrollment>)

  datatype MemberSummary = MemberSummary(
    id: int,
    firstName: string,
    lastName: string,
    email: string,
    completedCourses: nat,
    inProgressCourses: nat,
    averageProgress: int,
    lastActive: Date)

  datatype Report = Report(
    totalMembers: nat,
    totalAssignedCourses: nat,
    averageCompletion: Option<int>,   // None: the division by zero members gives NaN, sent as null
    memberProgress: seq<MemberSummary>,
    monthlyProgress: seq<Bucket>)

  datatype Outcome = Ok(report: Report) | Unauthorized | ServerError

  // ---------------------------------------------------------------------------------------------
  // Per member

  function CountInProgress(es: seq<Enrollment>): (n: nat)
    ensures n + CountCompleted(es) == |es|
    decreases |es|
  {
    if es == [] then 0
    else CountInProgress(es[..|es| - 1]) + (if es[|es| - 1].completionDate.None? then 1 else 0)
  }

  /** `progress?.progress_percentage || 0`. */
  function PercentageOf(e: Enrollment): int {
    if e.progress.Some? then e.progress.value.percentage else 0
  }

  function ProgressSum(es: seq<Enrollment>): int
    decreases |es|
  {
    if es == [] then 0 else ProgressSum(es[..|es| - 1]) + PercentageOf(es[|es| - 1])
  }

  /** `Math.round(sum / (n || 1))`. */
  function AverageProgress(es: seq<Enrollment>): (r: int)
    ensures es == [] ==> r == 0
  {
    RoundDiv(ProgressSum(es), if |es| == 0 then 1 else |es|)
  }

  /** `progress?.last_accessed || new Date(0)`. */
  function LastAccessedOf(e: Enrollment): Date {
    if e.progress.Some? then e.progress.value.lastAccessed else Epoch
  }

  /** Element 0 of the dates sorted newest first by a stable sort: the first latest date. */
  function Latest(es: seq<Enrollment>): (d: Date)
    requires es != []
    ensures exists i :: 0 <= i < |es| && d == LastAccessedOf(es[i])
    ensures forall i :: 0 <= i < |es| ==> LastAccessedOf(es[i]).time <= d.time
    decreases |es|
  {
    if |es| == 1 then LastAccessedOf(es[0])
    else
      var rest := Latest(es[1..]);
      assert forall i :: 1 <= i < |es| ==> es[i] == es[1..][i - 1];
      if LastAccessedOf(es[0]).time >= rest.time then LastAccessedOf(es[0]) else rest
  }

  /**
    The handler as written: with no enrollments the sorted list is empty, element 0 is `undefined`,
    and `toISOString()` on it throws (None).
  */
  function LastActiveAsWritten(es: seq<Enrollment>): (r: Option<Date>)
    ensures r.None? <==> es == []
  {
    if es == [] then None else Some(Latest(es))
  }

  /** Corrected: a member without enrollments was last active at the epoch, the same fallback used for an enrollment without progress. */
  function LastActive(es: seq<Enrollment>): (d: Date)
    ensures es == [] ==> d == Epoch
    ensures es != [] ==> forall i :: 0 <= i < |es| ==> LastAccessedOf(es[i]).time <= d.time
    ensures es != [] ==> exists i :: 0 <= i < |es| && d == LastAccessedOf(es[i])
  {
    if es == [] then Epoch else Latest(es)
  }

  function Summarize(m: Member): (s: MemberSummary)
    ensures s.id == m.id && s.completedCourses + s.inProgressCourses == |m.enrollments|
    ensures s.completedCourses == CountCompleted(m.enrollments)
    ensures s.averageProgress == AverageProgress(m.enrollments)
    ensures s.lastActive == LastActive(m.enrollments)
  {
    MemberSummary(m.id, m.firstName, m.lastName, m.email,
      CountCompleted(m.enrollments), CountInProgress(m.enrollments),
      AverageProgress(m.enrollments), LastActive(m.enrollments))
  }

  /** The member mapping as written: it throws for a member without enrollments. */
  function SummarizeAsWritten(m: Member): (r: Option<MemberSummary>)
    ensures r.None? <==> m.enrollments == []
  {
    match LastActiveAsWritten(m.enrollments)
    case None => None
    case Some(d) => Some(Summarize(m).(lastActive := d))
  }

  /** As written, a member without enrollments makes the whole report fail, although the average guards that case. */
  lemma AsWrittenFailsForIdleMember(m: Member)
    requires m.enrollments == []
    ensures SummarizeAsWritten(m).None?
    ensures AverageProgress(m.enrollments) == 0
  {
  }

  /** With at least one enrollment the as-written and corrected summaries agree. */
  lemma AsWrittenAgreesWhenActive(m: Member)
    requires m.enrollments != []
    ensures SummarizeAsWritten(m) == Some(Summarize(m))
  {
  }

  lemma {:induction false} ProgressSumBounds(es: seq<Enrollment>)
    requires forall i :: 0 <= i < |es| ==> es[i].progress.Some? ==> 0 <= es[i].progress.value.percentage <= 100
    ensures 0 <= ProgressSum(es) <= 100 * |es|
    decreases |es|
  {
    if es != [] {
      ProgressSumBounds(es[..|es| - 1]);
    }
  }

  /** With percentages in [0, 100] the average is in [0, 100]. */
  lemma AverageProgressInRange(es: seq<Enrollment>)
    requires forall i :: 0 <= i < |es| ==> es[i].progress.Some? ==> 0 <= es[i].progress.value.percentage <= 100
    ensures 0 <= AverageProgress(es) <= 100
  {
    ProgressSumBounds(es);
    var n := if |es| == 0 then 1 else |es|;
    RoundDivBounds(ProgressSum(es), n, 0, 100);
  }

  // ---------------------------------------------------------------------------------------------
  // Monthly progress

  /** Enrollments whose completion date falls in month `k`. */
  function CompletedDuring(es: seq<Enrollment>, k: string): nat
    decreases |es|
  {
    if es == [] then 0
    else
      var e := es[|es| - 1];
      CompletedDuring(es[..|es| - 1], k) + (if e.completionDate.Some? && MonthOf(e.completionDate.value) == k then 1 else 0)
  }

  /** The `forEach` filling the `Map`: one enrollment in its month, one completion in the completion's month. */
  function MonthlyTally(es: seq<Enrollment>): (bs: seq<Bucket>)
    ensures TotalEnrollments(bs) == |es|
    ensures TotalCompletions(bs) == CountCompleted(es)
    decreases |es|
  {
    if es == [] then []
    else
      var e := es[|es| - 1];
      var enrolled := Tally(MonthlyTally(es[..|es| - 1]), EnrollmentMonth(e), 1, 0);
      match e.completionDate
      case None => enrolled
      case Some(d) => Tally(enrolled, MonthOf(d), 0, 1)
  }

  /** `generateMonthlyProgress`: the tallies sorted by month key. */
  function MonthlyProgress(es: seq<Enrollment>): (bs: seq<Bucket>)
    ensures TotalEnrollments(bs) == |es|
    ensures TotalCompletions(bs) == CountCompleted(es)
  {
    Sort(MonthlyTally(es))
  }

  lemma MonthlyTallyCounts(es: seq<Enrollment>)
    ensures var bs := MonthlyTally(es);
      && UniqueMonths(bs)
      && NonEmptyBuckets(bs)
      && (forall k :: EnrollmentsAt(bs, k) == EnrolledIn(es, k) && CompletionsAt(bs, k) == CompletedDuring(es, k))
      && (forall k :: k in Months(bs) <==> EnrolledIn(es, k) + CompletedDuring(es, k) >= 1)
      && TotalEnrollments(bs) == |es|
      && TotalCompletions(bs) == CountCompleted(es)
  {
    MonthlyTallyShape(es);
    forall k ensures EnrollmentsAt(MonthlyTally(es), k) == EnrolledIn(es, k)
      && CompletionsAt(MonthlyTally(es), k) == CompletedDuring(es, k)
    {
      MonthlyTallyAt(es, k);
    }
    MonthsPresent(MonthlyTally(es), es);
  }

  /** The tally keeps months unique and buckets non-empty, and its totals are the rows and the completed rows. */
  lemma {:induction false} MonthlyTallyShape(es: seq<Enrollment>)
    ensures var bs := MonthlyTally(es);
      && UniqueMonths(bs)
      && NonEmptyBuckets(bs)
      && TotalEnrollments(bs) == |es|
      && TotalCompletions(bs) == CountCompleted(es)
    decreases |es|
  {
    if es != [] {
      var prefix := es[..|es| - 1];
      var e := es[|es| - 1];
      MonthlyTallyShape(prefix);
      var before := MonthlyTally(prefix);
      var key := EnrollmentMonth(e);
      var enrolled := Tally(before, key, 1, 0);
      TallyKeepsUnique(before, key, 1, 0);
      TallyKeepsNonEmpty(before, key, 1, 0);
      match e.completionDate
      case None =>
      case Some(d) =>
        TallyKeepsUnique(enrolled, MonthOf(d), 0, 1);
        TallyKeepsNonEmpty(enrolled, MonthOf(d), 0, 1);
    }
  }

  /** Month `k` of the tally counts the rows enrolled in `k` and the rows completed in `k`. */
  lemma {:induction false} MonthlyTallyAt(es: seq<Enrollment>, k: string)
    ensures EnrollmentsAt(MonthlyTally(es), k) == EnrolledIn(es, k)
    ensures CompletionsAt(MonthlyTally(es), k) == CompletedDuring(es, k)
    decreases |es|
  {
    if es != [] {
      var prefix := es[..|es| - 1];
      var e := es[|es| - 1];
      MonthlyTallyAt(prefix, k);
      var before := MonthlyTally(prefix);
      var key := EnrollmentMonth(e);
      var enrolled := Tally(before, key, 1, 0);
      TallyAt(before, key, 1, 0, k);
      match e.completionDate
      case None =>
      case Some(d) =>
        TallyAt(enrolled, MonthOf(d), 0, 1, k);
    }
  }

  /** In a non-empty tally a month is listed exactly when something was counted under it. */
  lemma MonthsPresent(bs: seq<Bucket>, es: seq<Enrollment>)
    requires NonEmptyBuckets(bs)
    ensures forall k :: k in Months(bs) <==> EnrollmentsAt(bs, k) + CompletionsAt(bs, k) >= 1
  {
    forall k ensures k in Months(bs) <==> EnrollmentsAt(bs, k) + CompletionsAt(bs, k) >= 1 {
      MonthPresent(bs, k);
    }
  }

  lemma {:induction false} MonthPresent(bs: seq<Bucket>, k: string)
    requires NonEmptyBuckets(bs)
    ensures k in Months(bs) <==> EnrollmentsAt(bs, k) + CompletionsAt(bs, k) >= 1
  {
    if bs != [] {
      MonthPresent(bs[1..], k);
      assert Months(bs) == [bs[0].month] + Months(bs[1..]);
    }
  }

  /**
    The monthly list is strictly ascending by month; each listed month carries the enrollments made in
    it and the completions dated in it, and has at least one of either; every such month is listed; the
    totals are the number of rows and the number of rows with a completion date.
  */
  lemma MonthlyProgressCounts(es: seq<Enrollment>)
    ensures var out := MonthlyProgress(es);
      && Ascending(out)
      && NonEmptyBuckets(out)
      && (forall i :: 0 <= i < |out| ==>
            out[i].enrollments == EnrolledIn(es, out[i].month)
            && out[i].completions == CompletedDuring(es, out[i].month))
      && (forall k :: EnrolledIn(es, k) + CompletedDuring(es, k) >= 1 ==> k in Months(out))
      && TotalEnrollments(out) == |es|
      && TotalCompletions(out) == CountCompleted(es)
  {
    MonthlyTallyCounts(es);
    SortAscending(MonthlyTally(es));
    SortedBucketCounts(es);
    SortedMonthsListed(es);
  }

  /** Each bucket of the sorted list is one of the tally's buckets, so it keeps that month's counts. */
  lemma SortedBucketCounts(es: seq<Enrollment>)
    ensures var out := MonthlyProgress(es);
      forall i :: 0 <= i < |out| ==>
        && out[i].enrollments + out[i].completions >= 1
        && out[i].enrollments == EnrolledIn(es, out[i].month)
        && out[i].completions == CompletedDuring(es, out[i].month)
  {
    var bs := MonthlyTally(es);
    MonthlyTallyCounts(es);
    var out := Sort(bs);
    forall i | 0 <= i < |out|
      ensures out[i].enrollments + out[i].completions >= 1
      ensures out[i].enrollments == EnrolledIn(es, out[i].month)
      ensures out[i].completions == CompletedDuring(es, out[i].month)
    {
      SortSameBuckets(bs, out[i]);
      var j :| 0 <= j < |bs| && bs[j] == out[i];
      BucketHoldsMonthTally(bs, j);
    }
  }

  /** Every month with an enrollment or a completion survives the sort. */
  lemma SortedMonthsListed(es: seq<Enrollment>)
    ensures forall k :: EnrolledIn(es, k) + CompletedDuring(es, k) >= 1 ==> k in Months(MonthlyProgress(es))
  {
    var bs := MonthlyTally(es);
    MonthlyTallyCounts(es);
    var out := Sort(bs);
    forall k | EnrolledIn(es, k) + CompletedDuring(es, k) >= 1 ensures k in Months(out) {
      assert k in Months(bs);
      var j :| 0 <= j < |bs| && Months(bs)[j] == k;
      SortSameBuckets(bs, bs[j]);
      var i :| 0 <= i < |out| && out[i] == bs[j];
      assert Months(out)[i] == k;
    }
  }

  // ---------------------------------------------------------------------------------------------
  // The handler

  function TotalAssigned(members: seq<Member>): nat
    decreases |members|
  {
    if members == [] then 0
    else TotalAssigned(members[..|members| - 1]) + |members[|members| - 1].enrollments|
  }

  function AverageSum(summaries: seq<MemberSummary>): int
    decreases |summaries|
  {
    if summaries == [] then 0
    else AverageSum(summaries[..|summaries| - 1]) + summaries[|summaries| - 1].averageProgress
  }

  /** `session?.user?.id` truthy and the role admin or manager. */
  predicate MayViewTeam(session: Session) {
    UserOf(session).Some? && Given(UserOf(session).value.id) && IsAdminOrManager(session)
  }

  /** `GET`: `rows` are the enrollment rows of the team members, for the monthly breakdown. */
  function GetTeamProgress(session: Session, members: seq<Member>, rows: seq<Enrollment>): (r: Outcome)
    ensures !MayViewTeam(session) <==> r == Unauthorized
    ensures r.Ok? ==> r.report.totalMembers == |members|
    ensures r.Ok? ==> r.report.totalAssignedCourses == TotalAssigned(members)
    ensures r.Ok? ==> |r.report.memberProgress| == |members|
    ensures r.Ok? ==> forall i :: 0 <= i < |members| ==> r.report.memberProgress[i] == Summarize(members[i])
    ensures r.Ok? ==> (r.report.averageCompletion.None? <==> members == [])
    ensures r.Ok? && members != [] ==>
      r.report.averageCompletion == Some(RoundDiv(AverageSum(r.report.memberProgress), |members|))
    ensures r.Ok? ==> r.report.monthlyProgress == MonthlyProgress(rows)
  {
    if !MayViewTeam(session) then Unauthorized
    else
      var summaries := seq(|members|, i requires 0 <= i < |members| => Summarize(members[i]));
      var average := if members == [] then None else Some(RoundDiv(AverageSum(summaries), |members|));
      Ok(Report(|members|, TotalAssigned(members), average, summaries, MonthlyProgress(rows)))
  }

  /** The handler as written: any member without enrollments throws inside the mapping, answered with status 500. */
  function GetTeamProgressAsWritten(session: Session, members: seq<Member>, rows: seq<Enrollment>): (r: Outcome)
    ensures !MayViewTeam(session) <==> r == Unauthorized
    ensures r == ServerError <==> MayViewTeam(session) && exists i :: 0 <= i < |members| && members[i].enrollments == []
    ensures r.Ok? ==> r == GetTeamProgress(session, members, rows)
  {
    if !MayViewTeam(session) then Unauthorized
    else if exists i :: 0 <= i < |members| && SummarizeAsWritten(members[i]).None? then ServerError
    else
      assert forall i :: 0 <= i < |members| ==> SummarizeAsWritten(members[i]) == Some(Summarize(members[i]));
      GetTeamProgress(session, members, rows)
  }

  function AllEnrollments(members: seq<Member>): seq<Enrollment>
    decreases |members|
  {
    if members == [] then []
    else AllEnrollments(members[..|members| - 1]) + members[|members| - 1].enrollments
  }

  lemma {:induction false} AllEnrollmentsLength(members: seq<Member>)
    ensures |AllEnrollments(members)| == TotalAssigned(members)
    decreases |members|
  {
    if members != [] {
      AllEnrollmentsLength(members[..|members| - 1]);
    }
  }

  /** When the rows are the members' enrollments, the monthly enrollments add up to the assigned total. */
  lemma MonthlyMatchesAssigned(session: Session, members: seq<Member>)
    requires MayViewTeam(session)
    ensures var r := GetTeamProgress(session, members, AllEnrollments(members));
      r.Ok? && TotalEnrollments(r.report.monthlyProgress) == r.report.totalAssignedCourses
  {
    AllEnrollmentsLength(members);
    MonthlyProgressCounts(AllEnrollments(members));
  }
}
