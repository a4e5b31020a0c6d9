/**
  Rows the route handlers read from the database, as plain records. A date is kept as its millisecond
  time value together with its `toISOString()` text; the calendar arithmetic relating the two is not
  modelled.
*/
module Records {
  import opened Wrappers
  import opened Strings

  datatype Date = Date(time: int, iso: string)

  /** `new Date(0)`. */
  const Epoch := Date(0, "1970-01-01T00:00:00.000Z")

  /** The `CourseProgress` row attached to an enrollment. */
  datatype Progress = Progress(percentage: int, lastAccessed: Date)

  datatype Enrollment = Enrollment(
    userId: int,
    courseId: int,
    enrollmentDate: Date,
    completionDate: Option<Date>,
    progress: Option<Progress>)

  /** `date.toISOString().slice(0, 7)`: the `YYYY-MM` month key. */
  function MonthOf(d: Date): (key: string)
    ensures key <= d.iso
    ensures |key| == if |d.iso| < 7 then |d.iso| else 7
  {
    Take(d.iso, 7)
  }

  function EnrollmentMonth(e: Enrollment): string {
    MonthOf(e.enrollmentDate)
  }

  function CountCompleted(es: seq<Enrollment>): (n: nat)
    ensures n <= |es|
    decreases |es|
  {
    if es == [] then 0
    else CountCompleted(es[..|es| - 1]) + (if es[|es| - 1].completionDate.Some? then 1 else 0)
  }

  /** Number of enrollments made in month `k`. */
  function EnrolledIn(es: seq<Enrollment>, k: string): nat
    decreases |es|
  {
    if es == [] then 0
    else EnrolledIn(es[..|es| - 1], k) + (if EnrollmentMonth(es[|es| - 1]) == k then 1 else 0)
  }
}
