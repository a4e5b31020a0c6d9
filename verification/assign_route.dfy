/**
  `POST /api/courses/assign`: enrolls every listed user in every listed course, then notifies each
  user once per course title found. The database is represented by its answers: whether the enrollment
  creates all succeed, the titles the course lookup returns, and whether the notification writes succeed.
*/
module AssignRoute {
  import opened Wrappers
  import opened Json
  import opened JsNumber
  import opened Auth
  import opened Pairs
  import opened NotificationService
  import opened AssignmentRequest

  datatype Notification = Notification(userId: Value, kind: string, content: string)

  datatype Status = Assigned | Unauthorized | MissingIds | Failed

  /**
    The response and the writes the handler issued. `assignedCount` is 0 unless the status is Assigned;
    `success` is the response's `success` flag.
  */
  datatype Outcome = Outcome(status: Status, success: bool, assignedCount: nat,
                             enrollments: seq<NewEnrollment>, notifications: seq<Notification>)

  /** `session.user.name || 'An administrator'`. */
  function AssignerName(su: SessionUser): string {
    if Given(su.name) then su.name.value else "An administrator"
  }

  function Notice(pair: (Value, string), assignedBy: string): Notification {
    Notification(pair.0, "course_assigned", AssignmentContent(pair.1, assignedBy))
  }

  /** One notification per user and found title, user-major. */
  function Notifications(userIds: seq<Value>, titles: seq<string>, assignedBy: string): (ns: seq<Notification>)
    ensures |ns| == |userIds| * |titles|
  {
    var pairs := Cross(userIds, titles);
    seq(|pairs|, k requires 0 <= k < |pairs| => Notice(pairs[k], assignedBy))
  }

  function Reject(status: Status): Outcome {
    Outcome(status, false, 0, [], [])
  }

  function Assign(session: Session, body: Option<Value>, enrollOk: bool, titles: seq<string>, notifyOk: bool): (r: Outcome)
    ensures r.status == Unauthorized <==> !(UserOf(session).Some? && IsAdminOrManager(session))
    ensures r.status == MissingIds <==> UserOf(session).Some? && IsAdminOrManager(session) && ParseRequest(body) == Missing
    ensures r.success <==> r.status == Assigned
    ensures r.status != Assigned ==> r.assignedCount == 0
    ensures r.status == Assigned <==> UserOf(session).Some? && IsAdminOrManager(session) && ParseRequest(body).Ids? && enrollOk && notifyOk
    ensures r.status == Assigned ==> r.assignedCount == |ParseRequest(body).userIds| * |ParseRequest(body).courseIds|
    ensures r.status == Assigned ==> r.assignedCount == |r.enrollments| && r.assignedCount >= 1
    ensures UserOf(session).Some? && IsAdminOrManager(session) && ParseRequest(body).Ids? ==>
      r.enrollments == Enrollments(ParseRequest(body).userIds, ParseRequest(body).courseIds,
                                   ParseInt(UserOf(session).value.id.GetOr("")))
    ensures UserOf(session).Some? && IsAdminOrManager(session) && ParseRequest(body).Ids? && enrollOk ==>
      r.notifications == Notifications(ParseRequest(body).userIds, titles, AssignerName(UserOf(session).value))
    ensures UserOf(session).Some? && IsAdminOrManager(session) && ParseRequest(body).Ids? && !enrollOk ==>
      r.notifications == []
  {
    if !(UserOf(session).Some? && IsAdminOrManager(session)) then Reject(Unauthorized)
    else
      var su := UserOf(session).value;
      match ParseRequest(body)
      case Missing => Reject(MissingIds)
      case Throws => Reject(Failed)
      case Ids(us, cs) =>
        var es := Enrollments(us, cs, ParseInt(su.id.GetOr("")));
        if !enrollOk then Outcome(Failed, false, 0, es, [])
        else
          var ns := Notifications(us, titles, AssignerName(su));
          assert |es| >= 1 by {
            assert |us| * |cs| >= 1 by { RowStart(0, |us|, |cs|); }
          }
          if !notifyOk then Outcome(Failed, false, 0, es, ns)
          else Outcome(Assigned, true, |es|, es, ns)
  }

  /** The `i`-th user is told about the `j`-th title, naming the assigner. */
  lemma NotifiesEveryTitle(userIds: seq<Value>, titles: seq<string>, assignedBy: string, i: nat, j: nat)
    requires i < |userIds| && j < |titles|
    ensures var ns := Notifications(userIds, titles, assignedBy);
      i * |titles| + j < |ns| && ns[i * |titles| + j] == Notification(userIds[i], "course_assigned", AssignmentContent(titles[j], assignedBy))
  {
    CrossAt(userIds, titles, i, j);
  }

  /**
    A failed notification write still reports nothing assigned, although every enrollment create
    had already succeeded.
  */
  lemma NotificationFailureHidesEnrollments(session: Session, body: Option<Value>, titles: seq<string>)
    requires UserOf(session).Some? && IsAdminOrManager(session) && ParseRequest(body).Ids?
    ensures var r := Assign(session, body, true, titles, false);
      r.status == Failed && r.assignedCount == 0
      && |r.enrollments| == |ParseRequest(body).userIds| * |ParseRequest(body).courseIds| > 0
  {
    RowStart(0, |ParseRequest(body).userIds|, |ParseRequest(body).courseIds|);
  }

  /** On success the route wrote the enrollment of the `i`-th user in the `j`-th course, assigned by the session user. */
  lemma AssignedEnrollment(session: Session, body: Option<Value>, titles: seq<string>, i: nat, j: nat)
    requires Assign(session, body, true, titles, true).status == Assigned
    requires i < |ParseRequest(body).userIds| && j < |ParseRequest(body).courseIds|
    ensures var r := Assign(session, body, true, titles, true);
      var us, cs, su := ParseRequest(body).userIds, ParseRequest(body).courseIds, UserOf(session).value;
      && i * |cs| + j < |r.enrollments|
      && r.enrollments[i * |cs| + j] == NewEnrollment(us[i], cs[j], "assigned", ParseInt(su.id.GetOr("")))
  {
    var us, cs, su := ParseRequest(body).userIds, ParseRequest(body).courseIds, UserOf(session).value;
    var r := Assign(session, body, true, titles, true);
    assert r.enrollments == Enrollments(us, cs, ParseInt(su.id.GetOr("")));
    EnrollsEveryPair(us, cs, ParseInt(su.id.GetOr("")), i, j);
  }

  /** On success the `i`-th user was told about the `k`-th found title, by the session user's name. */
  lemma AssignedNotification(session: Session, body: Option<Value>, titles: seq<string>, i: nat, k: nat)
    requires Assign(session, body, true, titles, true).status == Assigned
    requires i < |ParseRequest(body).userIds| && k < |titles|
    ensures var r := Assign(session, body, true, titles, true);
      var us, su := ParseRequest(body).userIds, UserOf(session).value;
      && i * |titles| + k < |r.notifications|
      && r.notifications[i * |titles| + k]
         == Notification(us[i], "course_assigned", AssignmentContent(titles[k], AssignerName(su)))
  {
    var us, su := ParseRequest(body).userIds, UserOf(session).value;
    var r := Assign(session, body, true, titles, true);
    assert r.notifications == Notifications(us, titles, AssignerName(su));
    NotifiesEveryTitle(us, titles, AssignerName(su), i, k);
  }
}
