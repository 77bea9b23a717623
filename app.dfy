/**
 * The application factory's callbacks: `load_user` turns a session id back
 * into a principal, `unauthorized` picks the login page for an anonymous
 * caller, and `inject_globals` exposes the caller's role to the templates.
 */
module App {
  import opened Builtins
  import opened Models
  import opened Rbac

  /** The principal is a row of its own table, as `load_user` returns it. */
  predicate Stored(users: map<nat, User>, managers: map<nat, ClubManager>, p: Principal)
  {
    match p
    case UserPrincipal(id, u) => id in users && users[id] == u
    case ManagerPrincipal(id, m) => id in managers && managers[id] == m
  }

  /** The part of a session id after its first colon, for the two known prefixes. */
  function UserIdDigits(sid: string): string
    requires StartsWith(sid, "user:")
  {
    sid[5..]
  }

  function ManagerIdDigits(sid: string): string
    requires StartsWith(sid, "manager:")
  {
    sid[8..]
  }

  /**
   * `load_user`: an empty id, an unknown prefix, a suffix that is not all
   * digits, or an id missing from its table resolves to nobody.
   */
  function LoadUser(users: map<nat, User>, managers: map<nat, ClubManager>, sid: string): (r: Option<Principal>)
    ensures sid == [] ==> r.None?
    ensures r.Some? ==> Stored(users, managers, r.value)
    ensures r.Some? && r.value.UserPrincipal? ==>
      StartsWith(sid, "user:") && IsDigits(UserIdDigits(sid)) && DigitsValue(UserIdDigits(sid)) == r.value.id
    ensures r.Some? && r.value.ManagerPrincipal? ==>
      StartsWith(sid, "manager:") && IsDigits(ManagerIdDigits(sid)) && DigitsValue(ManagerIdDigits(sid)) == r.value.id
    ensures StartsWith(sid, "user:") && IsDigits(UserIdDigits(sid)) ==>
      (r.Some? <==> DigitsValue(UserIdDigits(sid)) in users)
    ensures StartsWith(sid, "manager:") && IsDigits(ManagerIdDigits(sid)) ==>
      (r.Some? <==> DigitsValue(ManagerIdDigits(sid)) in managers)
  {
    if sid == [] then None
    else if StartsWith(sid, "user:") && IsDigits(UserIdDigits(sid)) then
      var id := DigitsValue(UserIdDigits(sid));
      assert sid[0] == 'u';
      if id in users then Some(UserPrincipal(id, users[id])) else None
    else if StartsWith(sid, "manager:") && IsDigits(ManagerIdDigits(sid)) then
      var id := DigitsValue(ManagerIdDigits(sid));
      if id in managers then Some(ManagerPrincipal(id, managers[id])) else None
    else None
  }

  /** Resolving the session id a stored principal was logged in with gives that principal back. */
  lemma LoadUserRoundTrip(users: map<nat, User>, managers: map<nat, ClubManager>, p: Principal)
    requires Stored(users, managers, p)
    ensures LoadUser(users, managers, SessionId(p)) == Some(p)
  {
    var sid := SessionId(p);
    NatToStringRoundTrip(p.id);
    if p.UserPrincipal? {
      assert StartsWith(sid, "user:") && UserIdDigits(sid) == NatToString(p.id);
    } else {
      assert !StartsWith(sid, "user:") by { assert sid[0] == 'm'; }
      assert StartsWith(sid, "manager:") && ManagerIdDigits(sid) == NatToString(p.id);
    }
  }

  /** Only the two prefixes ever resolve: any other id is nobody, and never raises. */
  lemma LoadUserUnknownPrefix(users: map<nat, User>, managers: map<nat, ClubManager>, sid: string)
    requires !StartsWith(sid, "user:") && !StartsWith(sid, "manager:")
    ensures LoadUser(users, managers, sid) == None
  {
  }

  /** The login page `unauthorized` redirects to. */
  datatype LoginPage = AuthLogin | ManagerLogin

  /** `unauthorized`: the manager blueprint has its own login page, every other request uses the student one. */
  function UnauthorizedRedirect(blueprint: Option<string>): (page: LoginPage)
    ensures page == ManagerLogin <==> blueprint == Some("manager")
  {
    if blueprint == Some("manager") then ManagerLogin else AuthLogin
  }

  /** `current_role` of `inject_globals`: the role of a signed-in user, nothing for a manager or anonymous caller. */
  function CurrentRole(caller: Option<Principal>): (role: Option<Role>)
    ensures role.Some? <==> caller.Some? && caller.value.UserPrincipal?
    ensures role.Some? ==> role.value == caller.value.user.role
  {
    match caller
    case Some(UserPrincipal(_, u)) => Some(u.role)
    case _ => None
  }

  /** `is_manager` of `inject_globals`: exactly the callers `manager_required` admits. */
  function IsManager(caller: Option<Principal>): (b: bool)
    ensures b <==> ManagerRequired(caller) == Pass
  {
    caller.Some? && caller.value.ManagerPrincipal?
  }

  /** The template globals never show a role and the manager flag together. */
  lemma RoleAndManagerExclusive(caller: Option<Principal>)
    ensures !(CurrentRole(caller).Some? && IsManager(caller))
  {
  }
}
