/**
  Course visibility by access rules (`hasAccess`): a course is open to a user when one of its rules
  names the user's department, role or location, each rule consulting only the attribute of its own type.
*/
module CourseAccess {
  import opened Wrappers

  datatype AccessType = Department | Role | Location

  /** A row of the course-access table; ids are nullable columns. */
  datatype Rule = Rule(kind: AccessType, departmentId: Option<int>, roleId: Option<int>, locationId: Option<int>)

  /** The user's role, department and location ids, each nullable. */
  datatype UserAttrs = UserAttrs(roleId: Option<int>, departmentId: Option<int>, locationId: Option<int>)

  /** The id a rule of this type compares (`null === null` holds, so two absent ids match). */
  function RuleId(rule: Rule): Option<int> {
    match rule.kind
    case Department => rule.departmentId
    case Role => rule.roleId
    case Location => rule.locationId
  }

  function UserId(user: UserAttrs, kind: AccessType): Option<int> {
    match kind
    case Department => user.departmentId
    case Role => user.roleId
    case Location => user.locationId
  }

  /** The callback given to `some`. */
  predicate Grants(rule: Rule, user: UserAttrs) {
    (rule.kind == Department && rule.departmentId == user.departmentId)
    || (rule.kind == Role && rule.roleId == user.roleId)
    || (rule.kind == Location && rule.locationId == user.locationId)
  }

  /** A rule grants exactly when the id of its own type equals the user's id of that type. */
  lemma GrantsByOwnField(rule: Rule, user: UserAttrs)
    ensures Grants(rule, user) <==> RuleId(rule) == UserId(user, rule.kind)
  {
  }

  /** `accessControl.some(...)`, scanning the rules from the front. */
  function AnyGrants(rules: seq<Rule>, user: UserAttrs): (r: bool)
    ensures r <==> exists i :: 0 <= i < |rules| && Grants(rules[i], user)
    decreases |rules|
  {
    if rules == [] then false
    else if Grants(rules[0], user) then true
    else
      assert forall i :: 1 <= i < |rules| ==> rules[i] == rules[1..][i - 1];
      AnyGrants(rules[1..], user)
  }

  /** `hasAccess`: an unknown user (`findUnique` gave null) has no access; otherwise some rule must grant it. */
  function HasAccess(user: Option<UserAttrs>, rules: seq<Rule>): (r: bool)
    ensures user.None? ==> !r
    ensures rules == [] ==> !r
    ensures user.Some? ==> (r <==> exists i :: 0 <= i < |rules| && Grants(rules[i], user.value))
  {
    user.Some? && AnyGrants(rules, user.value)
  }

  /** Adding rules never takes access away; access under `a + b` is access under `a` or under `b`. */
  lemma HasAccessAppend(user: Option<UserAttrs>, a: seq<Rule>, b: seq<Rule>)
    ensures HasAccess(user, a + b) <==> HasAccess(user, a) || HasAccess(user, b)
  {
    if user.Some? {
      var u := user.value;
      if HasAccess(user, a) {
        var i :| 0 <= i < |a| && Grants(a[i], u);
        assert (a + b)[i] == a[i];
      }
      if HasAccess(user, b) {
        var i :| 0 <= i < |b| && Grants(b[i], u);
        assert (a + b)[|a| + i] == b[i];
      }
      if HasAccess(user, a + b) {
        var i :| 0 <= i < |a + b| && Grants((a + b)[i], u);
        if i < |a| {
          assert (a + b)[i] == a[i];
        } else {
          assert (a + b)[i] == b[i - |a|];
        }
      }
    }
  }

  /** The answer depends only on which rules are stored, not on the order the query returns them in. */
  lemma HasAccessOrderFree(user: Option<UserAttrs>, a: seq<Rule>, b: seq<Rule>)
    requires multiset(a) == multiset(b)
    ensures HasAccess(user, a) == HasAccess(user, b)
  {
    if user.Some? {
      forall x: seq<Rule>, y: seq<Rule> | multiset(x) == multiset(y) && HasAccess(user, x)
        ensures HasAccess(user, y)
      {
        var i :| 0 <= i < |x| && Grants(x[i], user.value);
        assert x[i] in multiset(x);
        assert x[i] in multiset(y);
        var j :| 0 <= j < |y| && y[j] == x[i];
      }
    }
  }
}
