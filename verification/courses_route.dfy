/**
  `GET` and `POST /api/courses`: the course catalogue a user may see, one page at a time, and the
  creation of a course with its access rules. The course table is a sequence in the query's
  `created_at`-descending order; a course carries its access rules and its enrollment rows.
*/
module CoursesRoute {
  import opened Wrappers
  import opened Json
  import opened JsNumber
  import opened Strings
  import opened Auth
  import opened CourseAccess

  datatype CourseEnrollment = CourseEnrollment(userId: int, percentage: Option<int>)

  datatype Course = Course(
    id: int,
    title: string,
    description: string,
    durationMinutes: int,
    thumbnailUrl: string,
    departmentId: Option<int>,
    rules: seq<Rule>,
    enrollments: seq<CourseEnrollment>)

  /** The signed-in user's row; `roleName` is None when the role relation is missing. */
  datatype User = User(roleId: Option<int>, departmentId: Option<int>, locationId: Option<int>, roleName: Option<string>)

  // ---------------------------------------------------------------------------------------------
  // Query parameters and pagination

  /** `searchParams.get(name) || fallback`. */
  function ParamOr(param: Option<string>, fallback: string): string {
    if param.Some? && param.value != "" then param.value else fallback
  }

  /** The number of courses the query skips. */
  function Skip(page: int, limit: int): int {
    (page - 1) * limit
  }

  /** `Math.ceil(total / limit)`. */
  function PageCount(total: nat, limit: int): (pages: nat)
    requires limit > 0
    ensures limit * (pages - 1) < total <= limit * pages
  {
    CeilDiv(total, limit)
  }

  /** `skip` / `take` on the filtered list. */
  function PageOf<T>(listed: seq<T>, skip: nat, limit: nat): (page: seq<T>)
    ensures |page| == if skip >= |listed| then 0 else if limit <= |listed| - skip then limit else |listed| - skip
    ensures forall i :: 0 <= i < |page| ==> page[i] == listed[skip + i]
  {
    if skip >= |listed| then []
    else if limit <= |listed| - skip then listed[skip..skip + limit]
    else listed[skip..]
  }

  /** The page number whose window covers position `j` of the listing. */
  lemma PageOfPosition(j: nat, limit: nat, total: nat)
    requires limit > 0 && j < total
    ensures var p := j / limit + 1;
      1 <= p <= PageCount(total, limit) && Skip(p, limit) <= j < Skip(p, limit) + limit
  {
    var q := j / limit;
    var pages := PageCount(total, limit);
    assert Skip(q + 1, limit) == q * limit;
    assert q * limit + j % limit == j;
    assert limit * (q - pages + 1) < limit by {
      assert limit * (q - pages + 1) == q * limit - limit * pages + limit;
    }
    PositiveFactor(limit, q - pages + 1);
  }

  /** No position lies in the windows of two different pages. */
  lemma PagesDisjoint(j: nat, limit: nat, p: int, q: int)
    requires limit > 0
    requires Skip(p, limit) <= j < Skip(p, limit) + limit
    requires Skip(q, limit) <= j < Skip(q, limit) + limit
    ensures p == q
  {
    assert limit * (p - q) == Skip(p, limit) - Skip(q, limit);
    PositiveFactor(limit, p - q);
    PositiveFactor(limit, q - p);
  }

  // ---------------------------------------------------------------------------------------------
  // Visibility

  /** The access-rule part of the `where` filter: ROLE and LOCATION rules only; DEPARTMENT rules are not consulted. */
  predicate RuleAdmits(rule: Rule, user: User) {
    (rule.kind == Role && rule.roleId == user.roleId) || (rule.kind == Location && rule.locationId == user.locationId)
  }

  /** The `where` clause: the title filter, and for a non-admin the course's own department or an admitting rule. */
  predicate Visible(course: Course, user: User, search: string) {
    ContainsInsensitive(course.title, search)
    && (user.roleName == Some("admin")
        || course.departmentId == user.departmentId
        || exists i | 0 <= i < |course.rules| :: RuleAdmits(course.rules[i], user))
  }

  function VisibleCourses(catalog: seq<Course>, user: User, search: string): (listed: seq<Course>)
    ensures |listed| <= |catalog|
    ensures forall c :: c in listed <==> c in catalog && Visible(c, user, search)
    decreases |catalog|
  {
    if catalog == [] then []
    else
      var rest := VisibleCourses(catalog[..|catalog| - 1], user, search);
      var last := catalog[|catalog| - 1];
      assert catalog == catalog[..|catalog| - 1] + [last];
      if Visible(last, user, search) then rest + [last] else rest
  }

  /** The listing keeps the query's order: it is the catalogue with the invisible courses removed. */
  lemma {:induction false} VisibleCoursesAppend(a: seq<Course>, b: seq<Course>, user: User, search: string)
    ensures VisibleCourses(a + b, user, search) == VisibleCourses(a, user, search) + VisibleCourses(b, user, search)
    decreases |b|
  {
    if b == [] {
      assert a + b == a;
    } else {
      var b' := b[..|b| - 1];
      assert (a + b)[..|a + b| - 1] == a + b';
      VisibleCoursesAppend(a, b', user, search);
    }
  }

  /** An admin sees exactly the courses whose title matches. */
  lemma AdminSeesTitleMatches(course: Course, user: User, search: string)
    requires user.roleName == Some("admin")
    ensures Visible(course, user, search) <==> ContainsInsensitive(course.title, search)
  {
  }

  /** With no search term, a user sees exactly the courses the access filter lets through. */
  lemma EmptySearchVisibility(course: Course, user: User)
    ensures Visible(course, user, "") <==>
      || user.roleName == Some("admin")
      || course.departmentId == user.departmentId
      || exists i | 0 <= i < |course.rules| :: RuleAdmits(course.rules[i], user)
  {
    assert Lower("") == "";
    ContainsEmpty(Lower(course.title));
  }

  /** The order of a course's rules does not matter: the filter asks only whether some rule admits. */
  lemma VisibleOrderFree(course: Course, rules: seq<Rule>, user: User, search: string)
    requires multiset(rules) == multiset(course.rules)
    ensures Visible(course.(rules := rules), user, search) == Visible(course, user, search)
  {
    forall rule | rule in rules ensures rule in course.rules {
      assert rule in multiset(rules);
    }
    forall rule | rule in course.rules ensures rule in rules {
      assert rule in multiset(course.rules);
    }
    if exists i | 0 <= i < |rules| :: RuleAdmits(rules[i], user) {
      var i :| 0 <= i < |rules| && RuleAdmits(rules[i], user);
      assert rules[i] in course.rules;
    }
    if exists i | 0 <= i < |course.rules| :: RuleAdmits(course.rules[i], user) {
      var i :| 0 <= i < |course.rules| && RuleAdmits(course.rules[i], user);
      assert course.rules[i] in rules;
    }
  }

  /** A department-type rule never makes a course visible in the listing, whatever id it names. */
  lemma DepartmentRulesIgnored(course: Course, user: User, search: string, rule: Rule)
    requires rule.kind == Department
    ensures Visible(course.(rules := course.rules + [rule]), user, search) == Visible(course, user, search)
  {
    var extended := course.rules + [rule];
    assert forall i :: 0 <= i < |course.rules| ==> extended[i] == course.rules[i];
    assert !RuleAdmits(extended[|course.rules|], user);
  }

  // ---------------------------------------------------------------------------------------------
  // Formatting

  datatype CourseSummary = CourseSummary(
    id: int,
    title: string,
    description: string,
    durationMinutes: int,
    thumbnailUrl: string,
    enrolledCount: nat,
    isEnrolled: bool,
    progress: int)

  /** The included enrollments: those of the signed-in user. */
  function OwnEnrollments(es: seq<CourseEnrollment>, userId: int): (own: seq<CourseEnrollment>)
    ensures |own| <= |es|
    ensures forall e :: e in own <==> e in es && e.userId == userId
    decreases |es|
  {
    if es == [] then []
    else
      var rest := OwnEnrollments(es[..|es| - 1], userId);
      var last := es[|es| - 1];
      assert es == es[..|es| - 1] + [last];
      if last.userId == userId then rest + [last] else rest
  }

  function Summarize(course: Course, userId: int): (s: CourseSummary)
    ensures s.id == course.id && s.title == course.title
    ensures s.enrolledCount == |OwnEnrollments(course.enrollments, userId)|
    ensures s.isEnrolled <==> exists i :: 0 <= i < |course.enrollments| && course.enrollments[i].userId == userId
    ensures !s.isEnrolled ==> s.progress == 0
    ensures s.isEnrolled && OwnEnrollments(course.enrollments, userId)[0].percentage.Some? ==>
      s.progress == OwnEnrollments(course.enrollments, userId)[0].percentage.value
    ensures s.isEnrolled && OwnEnrollments(course.enrollments, userId)[0].percentage.None? ==> s.progress == 0
  {
    var own := OwnEnrollments(course.enrollments, userId);
    assert (exists i :: 0 <= i < |course.enrollments| && course.enrollments[i].userId == userId) ==> own != [] by {
      if exists i :: 0 <= i < |course.enrollments| && course.enrollments[i].userId == userId {
        var i :| 0 <= i < |course.enrollments| && course.enrollments[i].userId == userId;
        assert course.enrollments[i] in own;
      }
    }
    assert own != [] ==> own[0] in course.enrollments;
    CourseSummary(course.id, course.title, course.description, course.durationMinutes, course.thumbnailUrl,
      |own|, |own| > 0,
      if own != [] && own[0].percentage.Some? then own[0].percentage.value else 0)
  }

  datatype Pagination = Pagination(total: nat, pages: nat, currentPage: int, perPage: int)

  datatype Listing = Listing(courses: seq<CourseSummary>, pagination: Pagination)

  /** One page of the visible courses, summarised for user `uid`, with the pagination block. */
  function ListCourses(catalog: seq<Course>, user: User, uid: int, search: string, page: int, limit: int): (l: Listing)
    requires page >= 1 && limit >= 1
    ensures var listed := VisibleCourses(catalog, user, search);
      && l.pagination == Pagination(|listed|, PageCount(|listed|, limit), page, limit)
      && (Skip(page, limit) >= |listed| ==> l.courses == [])
      && (Skip(page, limit) < |listed| ==>
            |l.courses| == if limit <= |listed| - Skip(page, limit) then limit else |listed| - Skip(page, limit))
      && (forall i :: 0 <= i < |l.courses| ==> 0 <= Skip(page, limit) + i < |listed| && l.courses[i] == Summarize(listed[Skip(page, limit) + i], uid))
  {
    var listed := VisibleCourses(catalog, user, search);
    var skip: nat := Skip(page, limit);
    var window := PageOf(listed, skip, limit);
    var summaries := seq(|window|, i requires 0 <= i < |window| => Summarize(window[i], uid));
    Listing(summaries, Pagination(|listed|, PageCount(|listed|, limit), page, limit))
  }

  /**
    A visible course is shown on every page whose window covers its position; with `PageOfPosition`
    and `PagesDisjoint` that is exactly one page, within the page count.
  */
  lemma VisibleOnPage(catalog: seq<Course>, user: User, uid: int, search: string, limit: int, j: nat, p: int)
    requires limit >= 1 && p >= 1
    requires j < |VisibleCourses(catalog, user, search)|
    requires Skip(p, limit) <= j < Skip(p, limit) + limit
    ensures var l := ListCourses(catalog, user, uid, search, p, limit);
      && j - Skip(p, limit) < |l.courses|
      && l.courses[j - Skip(p, limit)] == Summarize(VisibleCourses(catalog, user, search)[j], uid)
  {
    var listed := VisibleCourses(catalog, user, search);
    var skip := Skip(p, limit);
    var l := ListCourses(catalog, user, uid, search, p, limit);
    assert j - skip < |l.courses|;
    assert l.courses[j - skip] == Summarize(listed[skip + (j - skip)], uid);
  }

  datatype GetOutcome =
    | Listed(listing: Listing)
    | GetUnauthorized
    | UserNotFound
    | GetFailed
    | OutsidePaging   // a page below 1 or a limit below 1: Prisma's handling of such a skip or take is not part of this model

  /** `parseInt(session.user.id)`. */
  function SessionUserId(su: SessionUser): Option<int> {
    ParseInt(su.id.GetOr(""))
  }

  /**
    `GET`. `users` is the user table; the session's id is `parseInt`-ed, and an unparsable id makes the
    user query fail.
  */
  function GetCourses(session: Session, pageParam: Option<string>, limitParam: Option<string>,
                      searchParam: Option<string>, users: map<int, User>, catalog: seq<Course>): (r: GetOutcome)
    ensures UserOf(session).None? <==> r == GetUnauthorized
    ensures r == UserNotFound <==> (UserOf(session).Some? && SessionUserId(UserOf(session).value).Some?
      && SessionUserId(UserOf(session).value).value !in users)
    ensures r.Listed? ==>
      && ParseInt(ParamOr(pageParam, "1")).Some? && ParseInt(ParamOr(pageParam, "1")).value >= 1
      && ParseInt(ParamOr(limitParam, "10")).Some? && ParseInt(ParamOr(limitParam, "10")).value >= 1
      && SessionUserId(UserOf(session).value).Some? && SessionUserId(UserOf(session).value).value in users
      && users[SessionUserId(UserOf(session).value).value].roleName.Some?
      && r.listing == ListCourses(catalog, users[SessionUserId(UserOf(session).value).value], SessionUserId(UserOf(session).value).value,
                                  ParamOr(searchParam, ""), ParseInt(ParamOr(pageParam, "1")).value, ParseInt(ParamOr(limitParam, "10")).value)
    ensures UserOf(session).Some? && SessionUserId(UserOf(session).value).Some?
      && SessionUserId(UserOf(session).value).value in users
      && users[SessionUserId(UserOf(session).value).value].roleName.Some?
      && ParseInt(ParamOr(pageParam, "1")).Some? && ParseInt(ParamOr(pageParam, "1")).value >= 1
      && ParseInt(ParamOr(limitParam, "10")).Some? && ParseInt(ParamOr(limitParam, "10")).value >= 1
      ==> r.Listed?
    ensures r == GetFailed <==> (UserOf(session).Some? && (SessionUserId(UserOf(session).value).None?
      || (SessionUserId(UserOf(session).value).value in users && users[SessionUserId(UserOf(session).value).value].roleName.None?)))
  {
    match UserOf(session)
    case None => GetUnauthorized
    case Some(su) =>
      var page, limit := ParseInt(ParamOr(pageParam, "1")), ParseInt(ParamOr(limitParam, "10"));
      match SessionUserId(su)
      case None => GetFailed
      case Some(uid) =>
        if uid !in users then UserNotFound
        else if users[uid].roleName.None? then GetFailed   // `user.role.name` on a missing role
        else if page.None? || limit.None? || page.value < 1 || limit.value < 1 then OutsidePaging
        else Listed(ListCourses(catalog, users[uid], uid, ParamOr(searchParam, ""), page.value, limit.value))
  }

  // ---------------------------------------------------------------------------------------------
  // POST

  datatype AccessEntry = AccessEntry(kind: AccessType, id: Value)

  datatype CreateData = CreateData(
    title: Value,
    description: Value,
    durationMinutes: Value,
    thumbnailUrl: Value,
    scormPackageUrl: Value,
    createdBy: Option<int>,
    status: string,
    accessControl: seq<AccessEntry>)

  datatype PostOutcome = Created(data: CreateData) | PostUnauthorized | MissingFields | UploadFailed | DatabaseError

  function Tagged(kind: AccessType, ids: seq<Value>): (entries: seq<AccessEntry>)
    ensures |entries| == |ids|
    ensures forall i :: 0 <= i < |ids| ==> entries[i] == AccessEntry(kind, ids[i])
  {
    seq(|ids|, i requires 0 <= i < |ids| => AccessEntry(kind, ids[i]))
  }

  /** `xs.map(...)` on a field: a TypeError unless the field is an array. */
  function MapField(v: Value, key: string, kind: AccessType): (r: Result<seq<AccessEntry>, Thrown>)
    requires !Nullish(v)
    ensures r.Success? <==> Member(v, key).Arr?
    ensures r.Success? ==> r.value == Tagged(kind, Member(v, key).items)
  {
    var xs := Member(v, key);
    if xs.Arr? then Success(Tagged(kind, xs.items)) else Failure(TypeError)
  }

  /** The `access_control.create` list: department entries, then role entries, then location entries. */
  function AccessCreateList(accessControl: Value): (r: Result<seq<AccessEntry>, Thrown>)
    ensures r.Success? <==> (!Nullish(accessControl)
      && Member(accessControl, "departments").Arr? && Member(accessControl, "roles").Arr? && Member(accessControl, "locations").Arr?)
    ensures r.Success? ==>
      r.value == Tagged(Department, Member(accessControl, "departments").items)
        + Tagged(Role, Member(accessControl, "roles").items)
        + Tagged(Location, Member(accessControl, "locations").items)
  {
    if Nullish(accessControl) then Failure(TypeError)
    else match (MapField(accessControl, "departments", Department), MapField(accessControl, "roles", Role), MapField(accessControl, "locations", Location))
      case (Success(ds), Success(rs), Success(ls)) => Success(ds + rs + ls)
      case _ => Failure(TypeError)
  }

  /** Field `key` of the body, or the fallback when it is falsy (`data.key || fallback`). */
  function FieldOr(data: Value, key: string, fallback: Value): Value
    requires !Nullish(data)
  {
    if Truthy(Member(data, key)) then Member(data, key) else fallback
  }

  predicate RequiredFieldsGiven(data: Value)
    requires !Nullish(data)
  {
    Truthy(Member(data, "title")) && Truthy(Member(data, "description")) && Truthy(Member(data, "scorm_package_url"))
  }

  /** An admin's request that passes the field check and whose three access lists are arrays. */
  predicate WellFormedCreate(session: Session, body: Option<Value>) {
    && HasRole(session, "admin") && body.Some? && !Nullish(body.value)
    && RequiredFieldsGiven(body.value)
    && AccessCreateList(Member(body.value, "access_control")).Success?
  }

  /**
    `POST`: `body` is the parsed request (None when it is not JSON); `created` says whether the database
    accepts the course.
  */
  function PostCourse(session: Session, body: Option<Value>, created: bool): (r: PostOutcome)
    ensures r == PostUnauthorized <==> !HasRole(session, "admin")
    ensures r == MissingFields <==> (HasRole(session, "admin") && body.Some? && !Nullish(body.value)
      && !(Truthy(Member(body.value, "title")) && Truthy(Member(body.value, "description")) && Truthy(Member(body.value, "scorm_package_url"))))
    ensures r.Created? ==> created && body.Some? && !Nullish(body.value)
    ensures r.Created? ==>
      var data := body.value;
      && r.data.title == Member(data, "title") && Truthy(r.data.title)
      && r.data.description == Member(data, "description")
      && r.data.durationMinutes == Member(data, "duration_minutes")
      && r.data.scormPackageUrl == Member(data, "scorm_package_url")
      && r.data.thumbnailUrl == (if Truthy(Member(data, "thumbnail_url")) then Member(data, "thumbnail_url") else Str(""))
      && r.data.status == "active"
      && r.data.createdBy == SessionUserId(UserOf(session).value)
      && AccessCreateList(Member(data, "access_control")).Success?
      && r.data.accessControl == AccessCreateList(Member(data, "access_control")).value
    ensures WellFormedCreate(session, body) ==> (r.Created? <==> created) && (r == DatabaseError <==> !created)
    ensures r == UploadFailed <==> (HasRole(session, "admin") && (body.None? || Nullish(body.value)
      || (RequiredFieldsGiven(body.value) && AccessCreateList(Member(body.value, "access_control")).Failure?)))
  {
    if !HasRole(session, "admin") then PostUnauthorized
    else if body.None? || Nullish(body.value) then UploadFailed   // `request.json()` rejected, or `data.title` on null
    else
      var data := body.value;
      if !Truthy(Member(data, "title")) || !Truthy(Member(data, "description")) || !Truthy(Member(data, "scorm_package_url")) then MissingFields
      else match AccessCreateList(Member(data, "access_control"))
        case Failure(_) => UploadFailed
        case Success(entries) =>
          var createData := CreateData(
            Member(data, "title"), Member(data, "description"), Member(data, "duration_minutes"),
            FieldOr(data, "thumbnail_url", Str("")), Member(data, "scorm_package_url"),
            SessionUserId(UserOf(session).value), "active", entries);
          if created then Created(createData) else DatabaseError
  }

  /** The create list has one entry per listed id, and each entry's tag says which list its id came from. */
  lemma AccessCreateListShape(accessControl: Value)
    requires AccessCreateList(accessControl).Success?
    ensures var entries := AccessCreateList(accessControl).value;
      var ds, rs, ls := Member(accessControl, "departments").items, Member(accessControl, "roles").items, Member(accessControl, "locations").items;
      && |entries| == |ds| + |rs| + |ls|
      && (forall i :: 0 <= i < |entries| ==>
            (entries[i].kind == Department <==> i < |ds|)
            && (entries[i].kind == Location <==> |ds| + |rs| <= i))
  {
  }
}
