/**
  `POST /api/courses/enrollment-status`: the batch variant of course assignment. It builds the
  user-major enrollment list and one generic notification per (user, course) pair, then writes the
  notifications in one batch per listed user id, each batch selecting that id's notifications.
*/
module EnrollmentStatusRoute {
  import opened Wrappers
  import opened Json
  import opened JsNumber
  import opened Auth
  import opened Pairs
  import opened AssignmentRequest

  const AssignedNotice := "You have been assigned new course(s)"

  datatype NotificationData = NotificationData(userId: Value, kind: string, content: string, createdById: Option<int>)

  function Notice(userId: Value, createdById: Option<int>): NotificationData {
    NotificationData(userId, "course_assigned", AssignedNotice, createdById)
  }

  /** `notificationData` for a list of (user, course) pairs: the course only multiplies the entries. */
  function Notices(pairs: seq<(Value, Value)>, createdById: Option<int>): (ns: seq<NotificationData>)
    ensures |ns| == |pairs|
    ensures forall k :: 0 <= k < |ns| ==> ns[k] == Notice(pairs[k].0, createdById)
    decreases |pairs|
  {
    if pairs == [] then []
    else Notices(pairs[..|pairs| - 1], createdById) + [Notice(pairs[|pairs| - 1].0, createdById)]
  }

  /** `notificationData.filter(n => n.user_id === userId)`. */
  function Batch(ns: seq<NotificationData>, userId: Value): (b: seq<NotificationData>)
    ensures |b| <= |ns|
    ensures forall k :: 0 <= k < |b| ==> b[k].userId == userId
    decreases |ns|
  {
    if ns == [] then []
    else
      var rest := Batch(ns[..|ns| - 1], userId);
      if ns[|ns| - 1].userId == userId then rest + [ns[|ns| - 1]] else rest
  }

  /** One `createMany` per entry of `userIds`, in list order. */
  function Batches(userIds: seq<Value>, ns: seq<NotificationData>): (bs: seq<seq<NotificationData>>)
    ensures |bs| == |userIds|
    ensures forall i :: 0 <= i < |userIds| ==> bs[i] == Batch(ns, userIds[i])
  {
    seq(|userIds|, i requires 0 <= i < |userIds| => Batch(ns, userIds[i]))
  }

  datatype Status = Assigned | Unauthorized | MissingIds | Failed

  datatype Outcome = Outcome(status: Status, success: bool, assignedCount: nat,
                             enrollments: seq<NewEnrollment>, batches: seq<seq<NotificationData>>)

  function Reject(status: Status): Outcome {
    Outcome(status, false, 0, [], [])
  }

  /** `enrollOk` and `notifyOk`: whether the database accepts the enrollment creates and the batches. */
  function Post(session: Session, body: Option<Value>, enrollOk: bool, notifyOk: bool): (r: Outcome)
    ensures r.status == Unauthorized <==> !IsAdminOrManager(session)
    ensures r.status == MissingIds <==> IsAdminOrManager(session) && ParseRequest(body) == Missing
    ensures r.success <==> r.status == Assigned
    ensures r.status != Assigned ==> r.assignedCount == 0
    ensures r.status == Assigned <==> IsAdminOrManager(session) && ParseRequest(body).Ids? && enrollOk && notifyOk
    ensures r.status == Assigned ==> r.assignedCount == |r.enrollments| == |ParseRequest(body).userIds| * |ParseRequest(body).courseIds|
    ensures r.status == Assigned ==> |r.batches| == |ParseRequest(body).userIds|
    ensures IsAdminOrManager(session) && ParseRequest(body).Ids? ==>
      r.enrollments == Enrollments(ParseRequest(body).userIds, ParseRequest(body).courseIds,
                                   ParseInt(UserOf(session).value.id.GetOr("")))
    ensures IsAdminOrManager(session) && ParseRequest(body).Ids? && enrollOk ==>
      var us, cs := ParseRequest(body).userIds, ParseRequest(body).courseIds;
      r.batches == Batches(us, Notices(Cross(us, cs), ParseInt(UserOf(session).value.id.GetOr(""))))
    ensures IsAdminOrManager(session) && ParseRequest(body).Ids? && !enrollOk ==> r.batches == []
  {
    if !IsAdminOrManager(session) then Reject(Unauthorized)
    else
      var su := UserOf(session).value;
      match ParseRequest(body)
      case Missing => Reject(MissingIds)
      case Throws => Reject(Failed)
      case Ids(us, cs) =>
        var creator := ParseInt(su.id.GetOr(""));
        var es := Enrollments(us, cs, creator);
        if !enrollOk then Outcome(Failed, false, 0, es, [])
        else
          var bs := Batches(us, Notices(Cross(us, cs), creator));
          if !notifyOk then Outcome(Failed, false, 0, es, bs)
          else Outcome(Assigned, true, |es|, es, bs)
  }

  lemma {:induction false} BatchOfNotices(pairs: seq<(Value, Value)>, createdById: Option<int>, u: Value)
    ensures Batch(Notices(pairs, createdById), u) == Notices(WithFirst(pairs, u), createdById)
    decreases |pairs|
  {
    if pairs != [] {
      var prefix := pairs[..|pairs| - 1];
      BatchOfNotices(prefix, createdById, u);
      assert Notices(pairs, createdById)[..|pairs| - 1] == Notices(prefix, createdById);
      if pairs[|pairs| - 1].0 == u {
        var w := WithFirst(prefix, u) + [pairs[|pairs| - 1]];
        assert w[..|w| - 1] == WithFirst(prefix, u);
      }
    }
  }

  /**
    The batch for a user holds that user's notification once per course for every time the user is
    listed; in particular a user listed once gets one per course, and a user listed twice gets two
    batches of twice that size.
  */
  lemma BatchOfUser(us: seq<Value>, cs: seq<Value>, createdById: Option<int>, u: Value)
    ensures var b := Batch(Notices(Cross(us, cs), createdById), u);
      && |b| == |Only(us, u)| * |cs|
      && (forall k :: 0 <= k < |b| ==> b[k] == Notice(u, createdById))
  {
    BatchOfNotices(Cross(us, cs), createdById, u);
    WithFirstOfCross(us, cs, u);
  }

  /** Every pair of the cross product is enrolled and every listed user's batch is non-empty. */
  lemma EveryListedUserNotified(us: seq<Value>, cs: seq<Value>, createdById: Option<int>, i: nat)
    requires i < |us| && cs != []
    ensures |Batches(us, Notices(Cross(us, cs), createdById))[i]| >= |cs|
  {
    BatchOfUser(us, cs, createdById, us[i]);
    OnlyOfMember(us, us[i]);
    assert |Only(us, us[i])| * |cs| >= |cs| by {
      RowStart(0, |Only(us, us[i])|, |cs|);
    }
  }

  lemma {:induction false} OnlyOfMember<A>(xs: seq<A>, x: A)
    requires x in xs
    ensures |Only(xs, x)| >= 1
    decreases |xs|
  {
    if xs[|xs| - 1] != x {
      assert x in xs[..|xs| - 1];
      OnlyOfMember(xs[..|xs| - 1], x);
    }
  }

  /**
    As written, a user id listed twice with one course gives two enrollments and two batches of two
    notifications each: four notifications for one assignment.
  */
  lemma DuplicateUserExample(u: Value, c: Value, createdById: Option<int>)
    ensures var bs := Batches([u, u], Notices(Cross([u, u], [c]), createdById));
      |Enrollments([u, u], [c], createdById)| == 2 && |bs| == 2 && |bs[0]| == 2 && |bs[1]| == 2
  {
    var us := [u, u];
    BatchOfUser(us, [c], createdById, u);
    assert us[..1] == [u];
    assert [u][..0] == [];
    assert Only([u], u) == [u];
    assert Only(us, u) == [u, u];
  }

  /**
    On success the batch written for the `i`-th listed user holds only that user's notice, once per
    course for every time the user is listed.
  */
  lemma PostBatchOfListedUser(session: Session, body: Option<Value>, i: nat)
    requires Post(session, body, true, true).status == Assigned
    requires i < |ParseRequest(body).userIds|
    ensures var r := Post(session, body, true, true);
      var us, cs := ParseRequest(body).userIds, ParseRequest(body).courseIds;
      var creator := ParseInt(UserOf(session).value.id.GetOr(""));
      && |r.batches[i]| == |Only(us, us[i])| * |cs|
      && |r.batches[i]| >= |cs|
      && forall k :: 0 <= k < |r.batches[i]| ==> r.batches[i][k] == Notice(us[i], creator)
  {
    var us, cs := ParseRequest(body).userIds, ParseRequest(body).courseIds;
    var creator := ParseInt(UserOf(session).value.id.GetOr(""));
    BatchOfUser(us, cs, creator, us[i]);
    EveryListedUserNotified(us, cs, creator, i);
  }
}
