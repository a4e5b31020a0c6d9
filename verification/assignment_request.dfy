/** The request body shared by the two course-assignment routes: `{ userIds, courseIds }`. */
module AssignmentRequest {
  import opened Wrappers
  import opened Json
  import opened Pairs

  datatype Parsed =
    | Ids(userIds: seq<Value>, courseIds: seq<Value>)
    | Missing   // `!body.userIds?.length || !body.courseIds?.length`: status 400
    | Throws    // not JSON, a null body, or a non-array list: caught, status 500

  /**
    The guard on the two lists and the `flatMap` / `map` that follow it. A list passes the guard when its
    `length` is truthy; only an array then has `flatMap` and `map`.
  */
  function ParseRequest(body: Option<Value>): (r: Parsed)
    ensures r == Missing <==> (body.Some? && !Nullish(body.value)
      && !(LengthTruthy(Member(body.value, "userIds")) && LengthTruthy(Member(body.value, "courseIds"))))
    ensures r.Ids? ==> (body.Some? && !Nullish(body.value)
      && Member(body.value, "userIds") == Arr(r.userIds) && r.userIds != []
      && Member(body.value, "courseIds") == Arr(r.courseIds) && r.courseIds != [])
  {
    match body
    case None => Throws
    case Some(b) =>
      if Nullish(b) then Throws
      else
        var us, cs := Member(b, "userIds"), Member(b, "courseIds");
        if !LengthTruthy(us) || !LengthTruthy(cs) then Missing
        else if us.Arr? && cs.Arr? then Ids(us.items, cs.items)
        else Throws
  }

  /** Any two non-empty id arrays pass, whatever their elements. */
  lemma NonEmptyArraysAccepted(us: seq<Value>, cs: seq<Value>)
    requires us != [] && cs != []
    ensures ParseRequest(Some(Obj(map["userIds" := Arr(us), "courseIds" := Arr(cs)]))) == Ids(us, cs)
  {
  }

  /** An enrollment create of an assignment: ids as sent, type `'assigned'`, and the assigner's parsed id. */
  datatype NewEnrollment = NewEnrollment(userId: Value, courseId: Value, enrollmentType: string, assignedById: Option<int>)

  function Enrollment(pair: (Value, Value), assignedById: Option<int>): NewEnrollment {
    NewEnrollment(pair.0, pair.1, "assigned", assignedById)
  }

  /** One create per (user, course) pair, user-major. */
  function Enrollments(userIds: seq<Value>, courseIds: seq<Value>, assignedById: Option<int>): (es: seq<NewEnrollment>)
    ensures |es| == |userIds| * |courseIds|
    ensures forall k :: 0 <= k < |es| ==> es[k].enrollmentType == "assigned" && es[k].assignedById == assignedById
  {
    var pairs := Cross(userIds, courseIds);
    seq(|pairs|, k requires 0 <= k < |pairs| => Enrollment(pairs[k], assignedById))
  }

  /** The pair of the `i`-th user and `j`-th course is enrolled, assigned by the session user. */
  lemma EnrollsEveryPair(userIds: seq<Value>, courseIds: seq<Value>, assignedById: Option<int>, i: nat, j: nat)
    requires i < |userIds| && j < |courseIds|
    ensures var es := Enrollments(userIds, courseIds, assignedById);
      i * |courseIds| + j < |es| && es[i * |courseIds| + j] == NewEnrollment(userIds[i], courseIds[j], "assigned", assignedById)
  {
    CrossAt(userIds, courseIds, i, j);
  }

  /** Every enrollment is for a listed user and a listed course. */
  lemma EnrollsOnlyListed(userIds: seq<Value>, courseIds: seq<Value>, assignedById: Option<int>, k: nat)
    requires k < |userIds| * |courseIds|
    ensures var e := Enrollments(userIds, courseIds, assignedById)[k];
      e.userId in userIds && e.courseId in courseIds
  {
    CrossMember(userIds, courseIds, k);
  }
}
