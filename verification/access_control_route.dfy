/**
  `GET` and `POST /api/courses/access-control`: reading a course's access rules as three id lists, and
  replacing them. The course-access table is a sequence of rows in the order the database returns them.
*/
module AccessControlRoute {
  import opened Wrappers
  import opened Json
  import opened JsNumber
  import opened Auth
  import opened CourseAccess

  datatype Row = Row(courseId: int, rule: Rule)

  type Table = seq<Row>

  /** `SELECT * FROM "CourseAccess" WHERE course_id = ...`, in table order. */
  function RulesOf(table: Table, courseId: int): (rules: seq<Rule>)
    ensures |rules| <= |table|
    decreases |table|
  {
    if table == [] then []
    else
      var rest := RulesOf(table[..|table| - 1], courseId);
      var last := table[|table| - 1];
      if last.courseId == courseId then rest + [last.rule] else rest
  }

  /** The ids the rules of type `kind` carry, in rule order: one `filter` and `map` of the handler. */
  function IdsOfKind(rules: seq<Rule>, kind: AccessType): seq<Option<int>>
    decreases |rules|
  {
    if rules == [] then []
    else
      var rest := IdsOfKind(rules[..|rules| - 1], kind);
      var last := rules[|rules| - 1];
      if last.kind == kind then rest + [RuleId(last)] else rest
  }

  datatype AccessLists = AccessLists(departments: seq<Option<int>>, roles: seq<Option<int>>, locations: seq<Option<int>>)

  function Partition(rules: seq<Rule>): AccessLists {
    AccessLists(IdsOfKind(rules, Department), IdsOfKind(rules, Role), IdsOfKind(rules, Location))
  }

  /** Every rule lands in exactly one of the three lists. */
  lemma {:induction false} PartitionCovers(rules: seq<Rule>)
    ensures var lists := Partition(rules);
      |lists.departments| + |lists.roles| + |lists.locations| == |rules|
    decreases |rules|
  {
    if rules != [] {
      PartitionCovers(rules[..|rules| - 1]);
    }
  }

  datatype GetOutcome = Listed(lists: AccessLists) | GetUnauthorized | GetInvalidId

  /** `GET`: any signed-in user may read; the id is `parseInt` of the path parameter. */
  function GetAccess(session: Session, idParam: string, table: Table): (r: GetOutcome)
    ensures UserOf(session).None? <==> r == GetUnauthorized
    ensures r == GetInvalidId <==> UserOf(session).Some? && ParseInt(idParam).None?
    ensures r.Listed? ==> r.lists == Partition(RulesOf(table, ParseInt(idParam).value))
  {
    if UserOf(session).None? then GetUnauthorized
    else match ParseInt(idParam)
      case None => GetInvalidId
      case Some(id) => Listed(Partition(RulesOf(table, id)))
  }

  // ---------------------------------------------------------------------------------------------
  // POST

  datatype PostStatus = Updated | PostUnauthorized | PostInvalidId | InvalidFormat | PostFailed

  /** The response and the table after the request. */
  datatype PostResult = PostResult(status: PostStatus, table: Table)

  /** `DELETE FROM "CourseAccess" WHERE course_id = ...`. */
  function DeleteCourse(table: Table, courseId: int): (t: Table)
    ensures |t| <= |table|
    decreases |table|
  {
    if table == [] then []
    else
      var rest := DeleteCourse(table[..|table| - 1], courseId);
      var last := table[|table| - 1];
      if last.courseId == courseId then rest else rest + [last]
  }

  /** The query returns exactly the rules of the rows filed under the course. */
  lemma {:induction false} RulesOfMembers(table: Table, courseId: int, x: Rule)
    ensures x in RulesOf(table, courseId) <==> Row(courseId, x) in table
    decreases |table|
  {
    if table != [] {
      var prefix := table[..|table| - 1];
      RulesOfMembers(prefix, courseId, x);
      assert table == prefix + [table[|table| - 1]];
    }
  }

  /** The `DELETE` keeps exactly the rows of the other courses. */
  lemma {:induction false} DeleteCourseMembers(table: Table, courseId: int, row: Row)
    ensures row in DeleteCourse(table, courseId) <==> row in table && row.courseId != courseId
    decreases |table|
  {
    if table != [] {
      var prefix := table[..|table| - 1];
      DeleteCourseMembers(prefix, courseId, row);
      assert table == prefix + [table[|table| - 1]];
    }
  }

  /** The rule one `INSERT` writes: the id in the column of its type, the other columns null. */
  function NewRule(kind: AccessType, id: int): (rule: Rule)
    ensures rule.kind == kind && RuleId(rule) == Some(id)
  {
    match kind
    case Department => Rule(Department, Some(id), None, None)
    case Role => Rule(Role, None, Some(id), None)
    case Location => Rule(Location, None, None, Some(id))
  }

  function NewRows(courseId: int, kind: AccessType, ids: seq<int>): (rows: Table)
    ensures |rows| == |ids|
    ensures forall i :: 0 <= i < |ids| ==> rows[i] == Row(courseId, NewRule(kind, ids[i]))
  {
    seq(|ids|, i requires 0 <= i < |ids| => Row(courseId, NewRule(kind, ids[i])))
  }

  /** The inserts of the transaction: departments, then roles, then locations. */
  function Inserts(courseId: int, departments: seq<int>, roles: seq<int>, locations: seq<int>): Table {
    NewRows(courseId, Department, departments) + NewRows(courseId, Role, roles) + NewRows(courseId, Location, locations)
  }

  /** `Array.isArray` holds of all three fields of the body. */
  predicate ListsGiven(v: Value)
    requires !Nullish(v)
  {
    Member(v, "departments").Arr? && Member(v, "roles").Arr? && Member(v, "locations").Arr?
  }

  /** Every element of the three arrays is a number, so each insert gets an integer id. */
  predicate NumbersGiven(v: Value)
    requires !Nullish(v) && ListsGiven(v)
  {
    NumberItems(Member(v, "departments").items).Some?
    && NumberItems(Member(v, "roles").items).Some?
    && NumberItems(Member(v, "locations").items).Some?
  }

  /** The ids posted under `key`, once the body passed both checks. */
  function Ids(v: Value, key: string): seq<int>
    requires !Nullish(v) && ListsGiven(v) && NumbersGiven(v)
    requires key in {"departments", "roles", "locations"}
  {
    NumberItems(Member(v, key).items).value
  }

  /**
    `POST`: the body is the parsed JSON (None when `request.json()` rejects it) and `transactionOk` says
    whether the database commits the insert transaction. The delete runs before, and outside, that
    transaction.
  */
  function PostAccess(session: Session, idParam: string, body: Option<Value>, table: Table, transactionOk: bool): (r: PostResult)
    ensures r.status == PostUnauthorized <==> !HasRole(session, "admin")
    ensures r.status == PostInvalidId <==> HasRole(session, "admin") && ParseInt(idParam).None?
    ensures r.status in {PostUnauthorized, PostInvalidId, InvalidFormat} ==> r.table == table
    ensures r.status == PostFailed && body.Some? && !Nullish(body.value) ==>
      r.table == DeleteCourse(table, ParseInt(idParam).value)
    ensures r.status == PostFailed && (body.None? || Nullish(body.value)) ==> r.table == table
    ensures r.status == InvalidFormat <==>
      (HasRole(session, "admin") && ParseInt(idParam).Some? && body.Some? && !Nullish(body.value)
       && !ListsGiven(body.value))
    ensures r.status == Updated <==>
      (HasRole(session, "admin") && ParseInt(idParam).Some? && body.Some? && !Nullish(body.value)
       && ListsGiven(body.value) && NumbersGiven(body.value) && transactionOk)
    ensures r.status == Updated ==>
      var v := body.value;
      r.table == DeleteCourse(table, ParseInt(idParam).value)
                 + Inserts(ParseInt(idParam).value, Ids(v, "departments"), Ids(v, "roles"), Ids(v, "locations"))
  {
    if !HasRole(session, "admin") then PostResult(PostUnauthorized, table)
    else match ParseInt(idParam)
      case None => PostResult(PostInvalidId, table)
      case Some(id) =>
        if body.None? || Nullish(body.value) then PostResult(PostFailed, table)   // JSON error, or destructuring null
        else
          var ds := Member(body.value, "departments");
          var rs := Member(body.value, "roles");
          var ls := Member(body.value, "locations");
          if !ds.Arr? || !rs.Arr? || !ls.Arr? then PostResult(InvalidFormat, table)
          else
            var cleared := DeleteCourse(table, id);
            match (NumberItems(ds.items), NumberItems(rs.items), NumberItems(ls.items))
            case (Some(d), Some(ro), Some(lo)) =>
              if transactionOk then PostResult(Updated, cleared + Inserts(id, d, ro, lo))
              else PostResult(PostFailed, cleared)
            case _ => PostResult(PostFailed, cleared)
  }

  // ---------------------------------------------------------------------------------------------
  // Properties

  lemma {:induction false} RulesOfAppend(a: Table, b: Table, courseId: int)
    ensures RulesOf(a + b, courseId) == RulesOf(a, courseId) + RulesOf(b, courseId)
    decreases |b|
  {
    if b == [] {
      assert a + b == a;
    } else {
      var b' := b[..|b| - 1];
      assert (a + b)[..|a + b| - 1] == a + b';
      RulesOfAppend(a, b', courseId);
    }
  }

  lemma {:induction false} IdsOfKindAppend(a: seq<Rule>, b: seq<Rule>, kind: AccessType)
    ensures IdsOfKind(a + b, kind) == IdsOfKind(a, kind) + IdsOfKind(b, kind)
    decreases |b|
  {
    if b == [] {
      assert a + b == a;
    } else {
      var b' := b[..|b| - 1];
      assert (a + b)[..|a + b| - 1] == a + b';
      IdsOfKindAppend(a, b', kind);
    }
  }

  /** Deleting a course leaves none of its rules and every other course's rules as they were. */
  lemma {:induction false} DeleteCourseRules(table: Table, courseId: int, other: int)
    ensures RulesOf(DeleteCourse(table, courseId), courseId) == []
    ensures other != courseId ==> RulesOf(DeleteCourse(table, courseId), other) == RulesOf(table, other)
    decreases |table|
  {
    if table != [] {
      var prefix := table[..|table| - 1];
      var last := table[|table| - 1];
      DeleteCourseRules(prefix, courseId, other);
      if last.courseId != courseId {
        RulesOfAppend(DeleteCourse(prefix, courseId), [last], courseId);
        RulesOfAppend(DeleteCourse(prefix, courseId), [last], other);
      }
    }
  }

  lemma {:induction false} NewRowsRules(courseId: int, kind: AccessType, ids: seq<int>, other: int)
    ensures RulesOf(NewRows(courseId, kind, ids), courseId) == seq(|ids|, i requires 0 <= i < |ids| => NewRule(kind, ids[i]))
    ensures other != courseId ==> RulesOf(NewRows(courseId, kind, ids), other) == []
    decreases |ids|
  {
    if ids != [] {
      var ids' := ids[..|ids| - 1];
      assert NewRows(courseId, kind, ids)[..|ids| - 1] == NewRows(courseId, kind, ids');
      NewRowsRules(courseId, kind, ids', other);
    }
  }

  lemma {:induction false} IdsOfNewRules(kind: AccessType, ids: seq<int>, other: AccessType)
    ensures var rules := seq(|ids|, i requires 0 <= i < |ids| => NewRule(kind, ids[i]));
      IdsOfKind(rules, other) == if other == kind then seq(|ids|, i requires 0 <= i < |ids| => Some(ids[i])) else []
    decreases |ids|
  {
    if ids != [] {
      var ids' := ids[..|ids| - 1];
      var rules := seq(|ids|, i requires 0 <= i < |ids| => NewRule(kind, ids[i]));
      assert rules[..|ids| - 1] == seq(|ids'|, i requires 0 <= i < |ids'| => NewRule(kind, ids'[i]));
      IdsOfNewRules(kind, ids', other);
    }
  }

  function Wrapped(ids: seq<int>): (r: seq<Option<int>>)
    ensures |r| == |ids| && forall i :: 0 <= i < |ids| ==> r[i] == Some(ids[i])
  {
    seq(|ids|, i requires 0 <= i < |ids| => Some(ids[i]))
  }

  /** The ids of one kind that a batch of inserted rows carries: that kind's list, nothing of the others. */
  lemma InsertedIds(courseId: int, kind: AccessType, ids: seq<int>, of: AccessType)
    ensures IdsOfKind(RulesOf(NewRows(courseId, kind, ids), courseId), of) == if of == kind then Wrapped(ids) else []
  {
    NewRowsRules(courseId, kind, ids, courseId);
    IdsOfNewRules(kind, ids, of);
  }

  /** The rules of the course after its rows are cleared and the new rows appended, and of any other course. */
  lemma ReplacedRules(table: Table, id: int, ds: seq<int>, rs: seq<int>, ls: seq<int>, other: int)
    ensures var after := DeleteCourse(table, id) + Inserts(id, ds, rs, ls);
      && RulesOf(after, id) == RulesOf(NewRows(id, Department, ds), id) + RulesOf(NewRows(id, Role, rs), id) + RulesOf(NewRows(id, Location, ls), id)
      && (other != id ==> RulesOf(after, other) == RulesOf(table, other))
  {
    var cleared := DeleteCourse(table, id);
    var nd, nr, nl := NewRows(id, Department, ds), NewRows(id, Role, rs), NewRows(id, Location, ls);
    DeleteCourseRules(table, id, other);
    RulesOfAppend(cleared, nd + nr + nl, id);
    RulesOfAppend(nd + nr, nl, id);
    RulesOfAppend(nd, nr, id);
    RulesOfAppend(cleared, nd + nr + nl, other);
    RulesOfAppend(nd + nr, nl, other);
    RulesOfAppend(nd, nr, other);
    NewRowsRules(id, Department, ds, other);
    NewRowsRules(id, Role, rs, other);
    NewRowsRules(id, Location, ls, other);
  }

  /** The ids of one kind read back from the rules of a replacement are the posted list of that kind. */
  lemma ReplacedIds(id: int, ds: seq<int>, rs: seq<int>, ls: seq<int>, kind: AccessType)
    ensures IdsOfKind(RulesOf(NewRows(id, Department, ds), id) + RulesOf(NewRows(id, Role, rs), id) + RulesOf(NewRows(id, Location, ls), id), kind)
      == match kind case Department => Wrapped(ds) case Role => Wrapped(rs) case Location => Wrapped(ls)
  {
    var rd, rr, rl := RulesOf(NewRows(id, Department, ds), id), RulesOf(NewRows(id, Role, rs), id), RulesOf(NewRows(id, Location, ls), id);
    IdsOfKindAppend3(rd, rr, rl, kind);
    InsertedIds(id, Department, ds, kind);
    InsertedIds(id, Role, rs, kind);
    InsertedIds(id, Location, ls, kind);
    match kind
    case Department =>
      assert IdsOfKind(rr, kind) == [] && IdsOfKind(rl, kind) == [];
      assert Wrapped(ds) + [] + [] == Wrapped(ds);
    case Role =>
      assert IdsOfKind(rd, kind) == [] && IdsOfKind(rl, kind) == [];
      assert [] + Wrapped(rs) + [] == Wrapped(rs);
    case Location =>
      assert IdsOfKind(rd, kind) == [] && IdsOfKind(rr, kind) == [];
      assert [] + [] + Wrapped(ls) == Wrapped(ls);
  }

  lemma IdsOfKindAppend3(a: seq<Rule>, b: seq<Rule>, c: seq<Rule>, kind: AccessType)
    ensures IdsOfKind(a + b + c, kind) == IdsOfKind(a, kind) + IdsOfKind(b, kind) + IdsOfKind(c, kind)
  {
    IdsOfKindAppend(a + b, c, kind);
    IdsOfKindAppend(a, b, kind);
  }

  /** The three lists read back from the rules of a replacement are the posted lists. */
  lemma ReplacedLists(id: int, ds: seq<int>, rs: seq<int>, ls: seq<int>)
    ensures Partition(RulesOf(NewRows(id, Department, ds), id) + RulesOf(NewRows(id, Role, rs), id) + RulesOf(NewRows(id, Location, ls), id))
      == AccessLists(Wrapped(ds), Wrapped(rs), Wrapped(ls))
  {
    ReplacedIds(id, ds, rs, ls, Department);
    ReplacedIds(id, ds, rs, ls, Role);
    ReplacedIds(id, ds, rs, ls, Location);
  }

  /**
    A successful replacement is read back exactly: a later `GET` of the course lists the posted
    departments, roles and locations, and every other course is unchanged. `RulesOf` returns a course's
    rows in insertion order, so the lists come back in posted order here; `PostThenGetAnyOrder` drops
    that assumption.
  */
  lemma PostThenGet(session: Session, idParam: string, body: Option<Value>, table: Table, other: int)
    requires PostAccess(session, idParam, body, table, true).status == Updated
    ensures var id := ParseInt(idParam).value;
      var ds := NumberItems(Member(body.value, "departments").items).value;
      var rs := NumberItems(Member(body.value, "roles").items).value;
      var ls := NumberItems(Member(body.value, "locations").items).value;
      var after := PostAccess(session, idParam, body, table, true).table;
      && GetAccess(session, idParam, after) == Listed(AccessLists(Wrapped(ds), Wrapped(rs), Wrapped(ls)))
      && (other != id ==> RulesOf(after, other) == RulesOf(table, other))
  {
    var id := ParseInt(idParam).value;
    var ds := NumberItems(Member(body.value, "departments").items).value;
    var rs := NumberItems(Member(body.value, "roles").items).value;
    var ls := NumberItems(Member(body.value, "locations").items).value;
    assert PostAccess(session, idParam, body, table, true).table == DeleteCourse(table, id) + Inserts(id, ds, rs, ls);
    ReplacedRules(table, id, ds, rs, ls, other);
    ReplacedLists(id, ds, rs, ls);
  }

  /** Splitting the rows by type does not depend on their order, up to the order within each list. */
  lemma {:induction false} IdsOfKindPermutation(a: seq<Rule>, b: seq<Rule>, kind: AccessType)
    requires multiset(a) == multiset(b)
    ensures multiset(IdsOfKind(a, kind)) == multiset(IdsOfKind(b, kind))
    decreases |a|
  {
    if a == [] {
      assert |b| == |multiset(b)| == 0;
    } else {
      var x := a[|a| - 1];
      var a' := a[..|a| - 1];
      assert a == a' + [x];
      assert x in multiset(b);
      var i :| 0 <= i < |b| && b[i] == x;
      var b' := b[..i] + b[i + 1..];
      assert b == b[..i] + [x] + b[i + 1..];
      assert multiset(b) == multiset(b[..i]) + multiset{x} + multiset(b[i + 1..]);
      assert multiset(a) == multiset(a') + multiset{x};
      assert multiset(b') == multiset(b[..i]) + multiset(b[i + 1..]);
      forall y ensures multiset(a')[y] == multiset(b')[y] {
        assert multiset(a)[y] == multiset(a')[y] + multiset{x}[y];
        assert multiset(b)[y] == multiset(b[..i])[y] + multiset{x}[y] + multiset(b[i + 1..])[y];
        assert multiset(b')[y] == multiset(b[..i])[y] + multiset(b[i + 1..])[y];
      }
      assert multiset(a') == multiset(b');
      IdsOfKindPermutation(a', b', kind);
      IdsOfKindAppend(a', [x], kind);
      IdsOfKindAppend(b[..i] + [x], b[i + 1..], kind);
      IdsOfKindAppend(b[..i], [x], kind);
      IdsOfKindAppend(b[..i], b[i + 1..], kind);
    }
  }

  /**
    Whatever order the `SELECT` without `ORDER BY` returns the course's rows in, the lists it yields hold
    exactly the posted ids of each type, each as often as it was posted.
  */
  lemma PostThenGetAnyOrder(session: Session, idParam: string, body: Option<Value>, table: Table, returned: seq<Rule>)
    requires PostAccess(session, idParam, body, table, true).status == Updated
    requires multiset(returned) == multiset(RulesOf(PostAccess(session, idParam, body, table, true).table, ParseInt(idParam).value))
    ensures var lists := Partition(returned);
      var v := body.value;
      && multiset(lists.departments) == multiset(Wrapped(Ids(v, "departments")))
      && multiset(lists.roles) == multiset(Wrapped(Ids(v, "roles")))
      && multiset(lists.locations) == multiset(Wrapped(Ids(v, "locations")))
  {
    var id := ParseInt(idParam).value;
    var after := PostAccess(session, idParam, body, table, true).table;
    PostThenGet(session, idParam, body, table, id);
    IdsOfKindPermutation(returned, RulesOf(after, id), Department);
    IdsOfKindPermutation(returned, RulesOf(after, id), Role);
    IdsOfKindPermutation(returned, RulesOf(after, id), Location);
  }

  /** A failed transaction leaves the course with no rules at all, so no user has access to it. */
  lemma FailedPostRevokesAll(session: Session, idParam: string, body: Value, table: Table, user: Option<UserAttrs>)
    requires HasRole(session, "admin") && ParseInt(idParam).Some?
    requires !Nullish(body)
    requires Member(body, "departments").Arr? && Member(body, "roles").Arr? && Member(body, "locations").Arr?
    ensures var r := PostAccess(session, idParam, Some(body), table, false);
      r.status == PostFailed && RulesOf(r.table, ParseInt(idParam).value) == []
      && !HasAccess(user, RulesOf(r.table, ParseInt(idParam).value))
  {
    DeleteCourseRules(table, ParseInt(idParam).value, 0);
  }

  lemma {:induction false} IdsOfKindMember(rules: seq<Rule>, kind: AccessType, x: Option<int>)
    ensures x in IdsOfKind(rules, kind) <==> exists i :: 0 <= i < |rules| && rules[i].kind == kind && RuleId(rules[i]) == x
    decreases |rules|
  {
    if rules != [] {
      var prefix := rules[..|rules| - 1];
      IdsOfKindMember(prefix, kind, x);
      assert forall i :: 0 <= i < |prefix| ==> prefix[i] == rules[i];
    }
  }

  /**
    `hasAccess` agrees with the lists `GET` shows: a known user has access exactly when their
    department is among the departments, their role among the roles, or their location among the locations.
  */
  lemma HasAccessOfLists(user: UserAttrs, rules: seq<Rule>)
    ensures var lists := Partition(rules);
      HasAccess(Some(user), rules) <==>
        user.departmentId in lists.departments || user.roleId in lists.roles || user.locationId in lists.locations
  {
    IdsOfKindMember(rules, Department, user.departmentId);
    IdsOfKindMember(rules, Role, user.roleId);
    IdsOfKindMember(rules, Location, user.locationId);
    forall i | 0 <= i < |rules| ensures Grants(rules[i], user) <==> RuleId(rules[i]) == UserId(user, rules[i].kind) {
      GrantsByOwnField(rules[i], user);
    }
  }
}
