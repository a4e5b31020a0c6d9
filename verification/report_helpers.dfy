/**
  The pure helpers of the report export: `groupByMonth`, which buckets enrollments by the month they
  were enrolled in, and the framing `formatCSVReport` puts around the two CSV tables (the tables
  themselves come from the CSV library and are inputs here).
*/
module ReportHelpers {
  import opened Wrappers
  import opened Strings
  import opened Records
  import opened Buckets

  /** The enrollment months of `es`, in input order. */
  function EnrollmentMonths(es: seq<Enrollment>): (ms: seq<string>)
    ensures |ms| == |es| && forall j :: 0 <= j < |es| ==> ms[j] == EnrollmentMonth(es[j])
  {
    seq(|es|, j requires 0 <= j < |es| => EnrollmentMonth(es[j]))
  }

  lemma EnrollmentMonthsSnoc(es: seq<Enrollment>)
    requires es != []
    ensures EnrollmentMonths(es) == EnrollmentMonths(es[..|es| - 1]) + [EnrollmentMonth(es[|es| - 1])]
  {
    var prefix := es[..|es| - 1];
    assert forall j :: 0 <= j < |prefix| ==> prefix[j] == es[j];
  }

  /** Number of enrollments made in month `k` that have a completion date, whenever it falls. */
  function CompletedIn(es: seq<Enrollment>, k: string): nat
    decreases |es|
  {
    if es == [] then 0
    else
      var e := es[|es| - 1];
      CompletedIn(es[..|es| - 1], k) + (if EnrollmentMonth(e) == k && e.completionDate.Some? then 1 else 0)
  }

  /** `groupByMonth`: the `reduce` over the enrollments, then `Object.entries` in insertion order. */
  function GroupByMonth(es: seq<Enrollment>): (bs: seq<Bucket>)
    ensures TotalEnrollments(bs) == |es|
    ensures TotalCompletions(bs) == CountCompleted(es)
    decreases |es|
  {
    if es == [] then []
    else
      var e := es[|es| - 1];
      Tally(GroupByMonth(es[..|es| - 1]), EnrollmentMonth(e), 1, if e.completionDate.Some? then 1 else 0)
  }

  /**
    Every enrollment adds one to its enrollment month, and one completion to the same month when it has
    a completion date; months are unique, every bucket has at least one enrollment and no more
    completions than enrollments, and the totals are the input length and the completed count.
  */
  lemma {:induction false} GroupByMonthTallies(es: seq<Enrollment>)
    ensures var bs := GroupByMonth(es);
      && UniqueMonths(bs)
      && CompletionsBounded(bs)
      && (forall i :: 0 <= i < |bs| ==> bs[i].enrollments >= 1)
      && (forall k :: EnrollmentsAt(bs, k) == EnrolledIn(es, k) && CompletionsAt(bs, k) == CompletedIn(es, k))
      && TotalEnrollments(bs) == |es|
      && TotalCompletions(bs) == CountCompleted(es)
    decreases |es|
  {
    if es != [] {
      var prefix := es[..|es| - 1];
      var e := es[|es| - 1];
      var dc := if e.completionDate.Some? then 1 else 0;
      GroupByMonthTallies(prefix);
      var before := GroupByMonth(prefix);
      TallyKeepsUnique(before, EnrollmentMonth(e), 1, dc);
      TallyKeepsBounded(before, EnrollmentMonth(e), 1, dc);
      TallyKeepsNonEmpty(before, EnrollmentMonth(e), 1, dc);
      var bs := GroupByMonth(es);
      forall i | 0 <= i < |bs| ensures bs[i].enrollments >= 1 {
        assert bs[i].completions <= bs[i].enrollments;
      }
      forall k ensures EnrollmentsAt(bs, k) == EnrolledIn(es, k) && CompletionsAt(bs, k) == CompletedIn(es, k) {
        TallyAt(before, EnrollmentMonth(e), 1, dc, k);
      }
    }
  }

  /** Each bucket holds the counts of its own month. */
  lemma GroupByMonthBuckets(es: seq<Enrollment>)
    ensures var bs := GroupByMonth(es);
      forall i :: 0 <= i < |bs| ==>
        bs[i].enrollments == EnrolledIn(es, bs[i].month) && bs[i].completions == CompletedIn(es, bs[i].month)
  {
    GroupByMonthTallies(es);
    var bs := GroupByMonth(es);
    forall i | 0 <= i < |bs|
      ensures bs[i].enrollments == EnrolledIn(es, bs[i].month) && bs[i].completions == CompletedIn(es, bs[i].month)
    {
      BucketHoldsMonthTally(bs, i);
    }
  }

  /** Position of the first occurrence of `k` in `ms`. */
  function FirstIndex(ms: seq<string>, k: string): (r: nat)
    requires k in ms
    ensures r < |ms| && ms[r] == k && forall j :: 0 <= j < r ==> ms[j] != k
  {
    if ms[0] == k then 0 else 1 + FirstIndex(ms[1..], k)
  }

  lemma FirstIndexExtend(ms: seq<string>, x: string, k: string)
    requires k in ms
    ensures k in ms + [x] && FirstIndex(ms + [x], k) == FirstIndex(ms, k)
  {
    var i := FirstIndex(ms, k);
    assert (ms + [x])[i] == k;
    var j := FirstIndex(ms + [x], k);
    assert j <= i;
    assert (ms + [x])[j] == ms[j];
  }

  /** The buckets list exactly the months that occur in the input. */
  lemma {:induction false} GroupByMonthMonths(es: seq<Enrollment>)
    ensures forall k :: k in Months(GroupByMonth(es)) <==> k in EnrollmentMonths(es)
    decreases |es|
  {
    if es != [] {
      var prefix := es[..|es| - 1];
      GroupByMonthMonths(prefix);
      EnrollmentMonthsSnoc(es);
    }
  }

  /** Months listed in order of their first occurrence in `all`. */
  predicate FirstSeenOrder(ms: seq<string>, all: seq<string>) {
    forall i, j :: 0 <= i < j < |ms| ==>
      ms[i] in all && ms[j] in all && FirstIndex(all, ms[i]) < FirstIndex(all, ms[j])
  }

  /** Appending a month to the input keeps the order, with a new month going last. */
  lemma FirstSeenStep(before: seq<string>, earlier: seq<string>, key: string)
    requires forall k :: k in before <==> k in earlier
    requires FirstSeenOrder(before, earlier)
    ensures FirstSeenOrder(if key in before then before else before + [key], earlier + [key])
  {
    var all := earlier + [key];
    forall k | k in earlier ensures k in all && FirstIndex(all, k) == FirstIndex(earlier, k) {
      FirstIndexExtend(earlier, key, k);
    }
    if key !in before {
      var ms := before + [key];
      assert FirstIndex(all, key) == |earlier| by {
        forall j | 0 <= j < |earlier| ensures all[j] != key {
          assert all[j] == earlier[j];
        }
        assert all[|earlier|] == key;
      }
      forall i, j | 0 <= i < j < |ms|
        ensures ms[i] in all && ms[j] in all && FirstIndex(all, ms[i]) < FirstIndex(all, ms[j])
      {
        assert ms[i] == before[i];
        if j < |before| {
          assert ms[j] == before[j];
        }
      }
    }
  }

  /**
    The buckets list exactly the months that occur, each once, in the order in which each month first
    occurs in the input.
  */
  lemma {:induction false} GroupByMonthFirstSeen(es: seq<Enrollment>)
    ensures forall k :: k in Months(GroupByMonth(es)) <==> k in EnrollmentMonths(es)
    ensures FirstSeenOrder(Months(GroupByMonth(es)), EnrollmentMonths(es))
    decreases |es|
  {
    GroupByMonthMonths(es);
    if es != [] {
      var prefix := es[..|es| - 1];
      var key := EnrollmentMonth(es[|es| - 1]);
      GroupByMonthFirstSeen(prefix);
      var before := Months(GroupByMonth(prefix));
      EnrollmentMonthsSnoc(es);
      assert Months(GroupByMonth(es)) == if key in before then before else before + [key];
      FirstSeenStep(before, EnrollmentMonths(prefix), key);
    }
  }

  const CompletionHeading := "Completion Rates\n"
  const EnrollmentHeading := "\n\nMonthly Enrollments\n"

  /** `formatCSVReport`, given the two CSV tables the CSV library produced. */
  function FormatCsvReport(completionCsv: string, enrollmentCsv: string): (report: string)
    ensures |report| == |CompletionHeading| + |completionCsv| + |EnrollmentHeading| + |enrollmentCsv|
    ensures report[..|CompletionHeading|] == CompletionHeading
  {
    CompletionHeading + completionCsv + EnrollmentHeading + enrollmentCsv
  }

  /** Split a report at the first blank line after the first heading back into its two tables. */
  function SplitCsvReport(report: string): Option<(string, string)> {
    if |report| < |CompletionHeading| || report[..|CompletionHeading|] != CompletionHeading then None
    else
      var body := report[|CompletionHeading|..];
      match FirstOccurrence(body, EnrollmentHeading)
      case None => None
      case Some(i) => Some((body[..i], body[i + |EnrollmentHeading|..]))
  }

  /** A completion table without blank lines is recovered, with the enrollment table, from the report. */
  lemma SplitFormatted(completionCsv: string, enrollmentCsv: string)
    requires !Contains(completionCsv, "\n\n")
    ensures SplitCsvReport(FormatCsvReport(completionCsv, enrollmentCsv)) == Some((completionCsv, enrollmentCsv))
  {
    var report := FormatCsvReport(completionCsv, enrollmentCsv);
    var body := completionCsv + EnrollmentHeading + enrollmentCsv;
    assert report == CompletionHeading + body;
    assert report[..|CompletionHeading|] == CompletionHeading;
    assert report[|CompletionHeading|..] == body;
    var n := |completionCsv|;
    assert OccursAt(body, EnrollmentHeading, n) by {
      assert body[n..n + |EnrollmentHeading|] == EnrollmentHeading;
    }
    forall i | 0 <= i < n ensures !OccursAt(body, EnrollmentHeading, i) {
      if OccursAt(body, EnrollmentHeading, i) {
        var w := body[i..i + |EnrollmentHeading|];
        assert w == EnrollmentHeading;
        assert body[i] == w[0] && body[i + 1] == w[1] && body[i + 2] == w[2];
        if i + 1 < n {
          assert completionCsv[i..i + 2] == "\n\n";
          assert OccursAt(completionCsv, "\n\n", i);
        }
      }
    }
    assert body[..n] == completionCsv;
    assert body[n + |EnrollmentHeading|..] == enrollmentCsv;
  }
}
