/**
  Per-month tallies of enrollments and completions, as the report and team-progress handlers build
  them: a list of buckets keyed by month in first-seen order (a JavaScript object or `Map`, which
  both iterate in insertion order), and its sorted form.
*/
module Buckets {
  import opened Strings

  datatype Bucket = Bucket(month: string, enrollments: nat, completions: nat)

  function Months(bs: seq<Bucket>): (ms: seq<string>)
    ensures |ms| == |bs| && forall i :: 0 <= i < |bs| ==> ms[i] == bs[i].month
  {
    if bs == [] then [] else [bs[0].month] + Months(bs[1..])
  }

  predicate UniqueMonths(bs: seq<Bucket>) {
    forall i, j :: 0 <= i < j < |bs| ==> bs[i].month != bs[j].month
  }

  /** Months strictly ascending, which also makes them unique. */
  predicate Ascending(bs: seq<Bucket>) {
    forall i, j :: 0 <= i < j < |bs| ==> Less(bs[i].month, bs[j].month)
  }

  /** Enrollments recorded under month `k`, over all buckets carrying that month. */
  function EnrollmentsAt(bs: seq<Bucket>, k: string): nat {
    if bs == [] then 0 else (if bs[0].month == k then bs[0].enrollments else 0) + EnrollmentsAt(bs[1..], k)
  }

  function CompletionsAt(bs: seq<Bucket>, k: string): nat {
    if bs == [] then 0 else (if bs[0].month == k then bs[0].completions else 0) + CompletionsAt(bs[1..], k)
  }

  function TotalEnrollments(bs: seq<Bucket>): nat {
    if bs == [] then 0 else bs[0].enrollments + TotalEnrollments(bs[1..])
  }

  function TotalCompletions(bs: seq<Bucket>): nat {
    if bs == [] then 0 else bs[0].completions + TotalCompletions(bs[1..])
  }

  predicate NonEmptyBuckets(bs: seq<Bucket>) {
    forall i :: 0 <= i < |bs| ==> bs[i].enrollments + bs[i].completions >= 1
  }

  predicate CompletionsBounded(bs: seq<Bucket>) {
    forall i :: 0 <= i < |bs| ==> bs[i].completions <= bs[i].enrollments
  }

  /**
    Add `de` enrollments and `dc` completions under `key`: the bucket for `key` is updated in place,
    or a new one is appended when the month has not been seen yet.
  */
  function Tally(bs: seq<Bucket>, key: string, de: nat, dc: nat): (r: seq<Bucket>)
    ensures Months(r) == if key in Months(bs) then Months(bs) else Months(bs) + [key]
    ensures TotalEnrollments(r) == TotalEnrollments(bs) + de
    ensures TotalCompletions(r) == TotalCompletions(bs) + dc
  {
    if bs == [] then [Bucket(key, de, dc)]
    else if bs[0].month == key then
      var r := [bs[0].(enrollments := bs[0].enrollments + de, completions := bs[0].completions + dc)] + bs[1..];
      assert r[1..] == bs[1..];
      r
    else
      var rest := Tally(bs[1..], key, de, dc);
      var r := [bs[0]] + rest;
      assert r[1..] == rest;
      assert Months(bs) == [bs[0].month] + Months(bs[1..]);
      r
  }

  /** Tallying adds to the month it names and to no other. */
  lemma {:induction false} TallyAt(bs: seq<Bucket>, key: string, de: nat, dc: nat, k: string)
    ensures EnrollmentsAt(Tally(bs, key, de, dc), k) == EnrollmentsAt(bs, k) + (if k == key then de else 0)
    ensures CompletionsAt(Tally(bs, key, de, dc), k) == CompletionsAt(bs, k) + (if k == key then dc else 0)
  {
    if bs != [] {
      var r := Tally(bs, key, de, dc);
      if bs[0].month == key {
        assert r[1..] == bs[1..];
      } else {
        TallyAt(bs[1..], key, de, dc, k);
        assert r[1..] == Tally(bs[1..], key, de, dc);
      }
    }
  }

  /** Tallying keeps the months unique. */
  lemma TallyKeepsUnique(bs: seq<Bucket>, key: string, de: nat, dc: nat)
    requires UniqueMonths(bs)
    ensures UniqueMonths(Tally(bs, key, de, dc))
  {
    var r := Tally(bs, key, de, dc);
    forall i, j | 0 <= i < j < |r| ensures r[i].month != r[j].month {
      assert Months(r)[i] == r[i].month && Months(r)[j] == r[j].month;
      if key !in Months(bs) && j == |bs| {
        assert r[i].month == Months(bs)[i];
      } else {
        assert Months(r)[i] == Months(bs)[i] && Months(r)[j] == Months(bs)[j];
      }
    }
  }

  /** A tally of at least one event leaves no bucket empty. */
  lemma {:induction false} TallyKeepsNonEmpty(bs: seq<Bucket>, key: string, de: nat, dc: nat)
    requires NonEmptyBuckets(bs) && de + dc >= 1
    ensures NonEmptyBuckets(Tally(bs, key, de, dc))
  {
    if bs != [] && bs[0].month != key {
      TallyKeepsNonEmpty(bs[1..], key, de, dc);
      assert Tally(bs, key, de, dc) == [bs[0]] + Tally(bs[1..], key, de, dc);
    }
  }

  /** A tally adding no more completions than enrollments keeps completions within enrollments. */
  lemma {:induction false} TallyKeepsBounded(bs: seq<Bucket>, key: string, de: nat, dc: nat)
    requires CompletionsBounded(bs) && dc <= de
    ensures CompletionsBounded(Tally(bs, key, de, dc))
  {
    if bs != [] && bs[0].month != key {
      TallyKeepsBounded(bs[1..], key, de, dc);
      assert Tally(bs, key, de, dc) == [bs[0]] + Tally(bs[1..], key, de, dc);
    }
  }

  /** In a list with unique months each bucket holds the whole tally of its month. */
  lemma {:induction false} BucketHoldsMonthTally(bs: seq<Bucket>, i: int)
    requires UniqueMonths(bs) && 0 <= i < |bs|
    ensures bs[i].enrollments == EnrollmentsAt(bs, bs[i].month)
    ensures bs[i].completions == CompletionsAt(bs, bs[i].month)
  {
    if i == 0 {
      AbsentMonthTally(bs[1..], bs[0].month);
    } else {
      BucketHoldsMonthTally(bs[1..], i - 1);
    }
  }

  lemma {:induction false} AbsentMonthTally(bs: seq<Bucket>, k: string)
    requires forall i :: 0 <= i < |bs| ==> bs[i].month != k
    ensures EnrollmentsAt(bs, k) == 0 && CompletionsAt(bs, k) == 0
  {
    if bs != [] {
      AbsentMonthTally(bs[1..], k);
    }
  }

  // ---------------------------------------------------------------------------------------------
  // Sorting by month key

  /** Insert a bucket into a list ascending by month. */
  function Insert(b: Bucket, bs: seq<Bucket>): (r: seq<Bucket>)
    ensures multiset(r) == multiset(bs) + multiset{b}
    ensures TotalEnrollments(r) == TotalEnrollments(bs) + b.enrollments
    ensures TotalCompletions(r) == TotalCompletions(bs) + b.completions
  {
    if bs == [] || Less(b.month, bs[0].month) then [b] + bs
    else
      var rest := Insert(b, bs[1..]);
      assert bs == [bs[0]] + bs[1..];
      assert ([bs[0]] + rest)[1..] == rest;
      [bs[0]] + rest
  }

  /** A bound below the inserted bucket and below every bucket stays below everything after the insert. */
  lemma InsertAbove(x: string, b: Bucket, bs: seq<Bucket>)
    requires Less(x, b.month)
    requires forall i :: 0 <= i < |bs| ==> Less(x, bs[i].month)
    ensures forall i :: 0 <= i < |Insert(b, bs)| ==> Less(x, Insert(b, bs)[i].month)
  {
    var r := Insert(b, bs);
    forall i | 0 <= i < |r| ensures Less(x, r[i].month) {
      assert r[i] in multiset(r);
      if r[i] != b {
        assert r[i] in multiset(bs);
      }
    }
  }

  lemma {:induction false} InsertAscending(b: Bucket, bs: seq<Bucket>)
    requires Ascending(bs)
    requires forall i :: 0 <= i < |bs| ==> bs[i].month != b.month
    ensures Ascending(Insert(b, bs))
  {
    var r := Insert(b, bs);
    if bs == [] || Less(b.month, bs[0].month) {
      forall i, j | 0 <= i < j < |r| ensures Less(r[i].month, r[j].month) {
        if i == 0 && j > 1 {
          LessTransitive(b.month, bs[0].month, bs[j - 1].month);
        }
      }
    } else {
      LessTotal(b.month, bs[0].month);
      var tail := bs[1..];
      var rest := Insert(b, tail);
      InsertAscending(b, tail);
      assert forall i :: 0 <= i < |tail| ==> Less(bs[0].month, tail[i].month) by {
        forall i | 0 <= i < |tail| ensures Less(bs[0].month, tail[i].month) {
          assert tail[i] == bs[i + 1];
        }
      }
      InsertAbove(bs[0].month, b, tail);
      assert r == [bs[0]] + rest;
      forall i, j | 0 <= i < j < |r| ensures Less(r[i].month, r[j].month) {
        assert r[j] == rest[j - 1];
        if i > 0 {
          assert r[i] == rest[i - 1];
        }
      }
    }
  }

  /** Insertion sort by month: same buckets, ascending when the months are unique. */
  function Sort(bs: seq<Bucket>): (r: seq<Bucket>)
    ensures multiset(r) == multiset(bs)
    ensures TotalEnrollments(r) == TotalEnrollments(bs)
    ensures TotalCompletions(r) == TotalCompletions(bs)
  {
    if bs == [] then []
    else
      assert bs == [bs[0]] + bs[1..];
      Insert(bs[0], Sort(bs[1..]))
  }

  lemma {:induction false} SortAscending(bs: seq<Bucket>)
    requires UniqueMonths(bs)
    ensures Ascending(Sort(bs))
  {
    if bs != [] {
      var tail := bs[1..];
      SortAscending(tail);
      var sorted := Sort(tail);
      forall i | 0 <= i < |sorted| ensures sorted[i].month != bs[0].month {
        assert sorted[i] in multiset(tail);
        var k :| 0 <= k < |tail| && tail[k] == sorted[i];
        assert bs[k + 1] == sorted[i];
      }
      InsertAscending(bs[0], sorted);
    }
  }

  /** Sorting keeps exactly the buckets it was given. */
  lemma SortSameBuckets(bs: seq<Bucket>, b: Bucket)
    ensures b in Sort(bs) <==> b in bs
  {
    assert b in Sort(bs) <==> b in multiset(Sort(bs));
    assert b in bs <==> b in multiset(bs);
  }
}
