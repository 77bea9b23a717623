/**
 * The access decorators: `login_required` sends an anonymous caller to a login
 * page, `roles_required` admits only users whose role is listed, and
 * `manager_required` admits only club managers.
 */
module Rbac {
  import opened Builtins
  import opened Models
  import opened Outcomes

  /** The decision of a decorator: call through, abort with 403, or redirect to a login page. */
  datatype Gate = Pass | Deny | Redirect

  /** `roles_required(*roles)`: a manager, a non-user or a user with an unlisted role gets 403. */
  function RolesRequired(caller: Option<Principal>, roles: set<Role>): (g: Gate)
    ensures g == Redirect <==> caller.None?
    ensures g == Pass <==> caller.Some? && caller.value.UserPrincipal? && caller.value.user.role in roles
    ensures caller.Some? && caller.value.ManagerPrincipal? ==> g == Deny
  {
    match caller
    case None => Redirect
    case Some(ManagerPrincipal(_, _)) => Deny
    case Some(UserPrincipal(_, u)) => if u.role in roles then Pass else Deny
  }

  /** `admin_required`: only SKS_ADMIN users. */
  function AdminRequired(caller: Option<Principal>): (g: Gate)
    ensures g == Pass <==> caller.Some? && caller.value.UserPrincipal? && IsAdmin(caller.value.user)
    ensures g == Redirect <==> caller.None?
  {
    RolesRequired(caller, {SksAdmin})
  }

  /** `student_required`: only STUDENT users. */
  function StudentRequired(caller: Option<Principal>): (g: Gate)
    ensures g == Pass <==> caller.Some? && caller.value.UserPrincipal? && caller.value.user.role == Student
    ensures g == Redirect <==> caller.None?
  {
    RolesRequired(caller, {Student})
  }

  /** `manager_required`: only club managers; every user, whatever the role, gets 403. */
  function ManagerRequired(caller: Option<Principal>): (g: Gate)
    ensures g == Pass <==> caller.Some? && caller.value.ManagerPrincipal?
    ensures g == Deny <==> caller.Some? && caller.value.UserPrincipal?
    ensures g == Redirect <==> caller.None?
  {
    match caller
    case None => Redirect
    case Some(p) => if p.ManagerPrincipal? then Pass else Deny
  }

  /** The response of a decorator that does not call through. */
  function GateOutcome(g: Gate): (r: Outcome)
    requires g != Pass
    ensures r == Unauthenticated <==> g == Redirect
    ensures r == Forbidden <==> g.Deny?
  {
    if g == Redirect then Unauthenticated else Forbidden
  }

  /** Every signed-in principal passes exactly one of the three decorators. */
  lemma ExactlyOneGatePasses(p: Principal)
    ensures var c := Some(p);
      (if AdminRequired(c) == Pass then 1 else 0) + (if StudentRequired(c) == Pass then 1 else 0)
        + (if ManagerRequired(c) == Pass then 1 else 0) == 1
  {
    if p.UserPrincipal? {
      assert p.user.role == Student || p.user.role == SksAdmin;
    }
  }
}
