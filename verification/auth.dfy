/** The parts of the signed-in session the route handlers consult. */
module Auth {
  import opened Wrappers

  /** `session.user`; every field may be absent. */
  datatype SessionUser = SessionUser(id: Option<string>, name: Option<string>, role: Option<string>)

  /** `getServerSession()`: no session, or a session whose `user` may be absent. */
  type Session = Option<Option<SessionUser>>

  /** `session?.user` as a value. */
  function UserOf(session: Session): Option<SessionUser> {
    match session
    case None => None
    case Some(user) => user
  }

  /** A string field that is present and non-empty (truthy). */
  predicate Given(s: Option<string>) {
    s.Some? && s.value != ""
  }

  predicate HasRole(session: Session, role: string) {
    UserOf(session).Some? && UserOf(session).value.role == Some(role)
  }

  /** `['admin', 'manager'].includes(session.user.role)`. */
  predicate IsAdminOrManager(session: Session) {
    HasRole(session, "admin") || HasRole(session, "manager")
  }
}
