/**
 * The tables of the club-management application: one datatype per row kind,
 * the status enumerations, the two principal kinds and their session ids,
 * the live registration count of an event, and the store `Db` whose
 * `Valid()` holds the schema's constraints (unique keys and references) and
 * the rules the routes keep by checking before they insert.
 */
module Models {
  import opened Builtins

  // ---------------------------------------------------------------- enumerations

  datatype Role = Student | SksAdmin

  datatype ClubStatus = ClubPending | ClubApproved | ClubRejected | ClubInactive

  datatype ClubApplicationStatus = AppPending | AppApproved | AppRejected

  datatype InvitationStatus = Invited | InviteAccepted | InviteRejected

  datatype MembershipApplicationStatus =
    | MembershipPending | MembershipApproved | MembershipRejected | MembershipCancelled

  datatype EventStatus = PendingApproval | EventApproved | EventRejected | EventCancelled

  datatype RegistrationStatus = Registered | RegistrationCancelled

  datatype NotificationType =
    | MembershipDecisionNotice | AnnouncementNotice | ClubAppDecisionNotice
    | EventStatusNotice | FounderInviteNotice | FounderResponseNotice

  datatype AuditActorType = UserAdmin | ClubManagerActor

  // ---------------------------------------------------------------- rows

  /** A student or platform-admin account; rows are keyed by their id in `Db.users`. */
  datatype User = User(
    role: Role, name: string, surname: string, universityId: Option<string>,
    email: string, passwordHash: string, isActive: bool, createdAt: int)

  datatype Club = Club(
    name: string, description: string, category: string, contactEmail: string,
    status: ClubStatus, createdAt: int, approvedAt: Option<int>, applicantUserId: Option<nat>)

  /** The login of one club; `clubId` is nullable in the schema. */
  datatype ClubManager = ClubManager(
    clubId: Option<nat>, email: string, passwordHash: string, isActive: bool, createdAt: int)

  datatype ClubApplication = ClubApplication(
    applicantUserId: nat, proposedName: string, proposedDescription: string,
    proposedCategory: string, foundersNote: string, status: ClubApplicationStatus,
    adminComment: Option<string>, createdAt: int, decidedAt: Option<int>, decidedByAdminId: Option<nat>)

  datatype FounderInvitation = FounderInvitation(
    applicationId: nat, invitedStudentId: nat, status: InvitationStatus, respondedAt: Option<int>)

  datatype Membership = Membership(clubId: nat, userId: nat, joinedAt: int, isActive: bool)

  datatype MembershipApplication = MembershipApplication(
    clubId: nat, userId: nat, status: MembershipApplicationStatus, message: string,
    createdAt: int, decidedAt: Option<int>, decidedByManagerId: Option<nat>, decisionReason: Option<string>)

  datatype Announcement = Announcement(
    clubId: nat, title: string, body: string, createdByManagerId: nat, createdAt: int)

  datatype Event = Event(
    clubId: nat, title: string, description: string, location: string,
    start: int, end: int, capacity: Option<int>, deadline: Option<int>,
    status: EventStatus, createdByManagerId: Option<nat>, adminComment: Option<string>,
    approvedByAdminId: Option<nat>, createdAt: int, decidedAt: Option<int>)

  datatype EventRegistration = EventRegistration(
    eventId: nat, userId: nat, status: RegistrationStatus, registeredAt: int, cancelledAt: Option<int>)

  /** A notice to one user; only `isRead` ever changes after it is written. */
  datatype Notification = Notification(
    userId: nat, kind: NotificationType, title: string, body: string, isRead: bool,
    createdAt: int, relatedType: Option<string>, relatedId: Option<nat>)

  datatype AuditEntry = AuditEntry(
    actorType: AuditActorType, actorId: nat, action: string, objectType: string,
    objectId: nat, details: Option<string>, createdAt: int)

  // ---------------------------------------------------------------- principals

  /** The signed-in principal: a row of one of the two identity tables, with its id. */
  datatype Principal =
    | UserPrincipal(id: nat, user: User)
    | ManagerPrincipal(id: nat, manager: ClubManager)

  /** `User.get_id`. */
  function UserSessionId(id: nat): string
  {
    "user:" + NatToString(id)
  }

  /** `ClubManager.get_id`. */
  function ManagerSessionId(id: nat): string
  {
    "manager:" + NatToString(id)
  }

  /** The session id `login_user` stores for a principal. */
  function SessionId(p: Principal): string
  {
    match p
    case UserPrincipal(id, _) => UserSessionId(id)
    case ManagerPrincipal(id, _) => ManagerSessionId(id)
  }

  /** The two id spaces never meet, and within each the id is recoverable. */
  lemma SessionIdsDistinct(p: Principal, q: Principal)
    ensures SessionId(p) == SessionId(q) <==> p.UserPrincipal? == q.UserPrincipal? && p.id == q.id
  {
    var s, t := SessionId(p), SessionId(q);
    assert s[0] == (if p.UserPrincipal? then 'u' else 'm');
    assert t[0] == (if q.UserPrincipal? then 'u' else 'm');
    if s == t && p.UserPrincipal? == q.UserPrincipal? {
      if p.UserPrincipal? {
        assert s[5..] == NatToString(p.id) && t[5..] == NatToString(q.id);
        NatToStringInjective(p.id, q.id);
      } else {
        assert s[8..] == NatToString(p.id) && t[8..] == NatToString(q.id);
        NatToStringInjective(p.id, q.id);
      }
    }
  }

  /** `User.is_admin`. */
  predicate IsAdmin(u: User)
  {
    u.role == SksAdmin
  }

  // ---------------------------------------------------------------- event registrations

  /** A registration row that `registration_count` counts for event `eventId`. */
  predicate CountsFor(r: EventRegistration, eventId: nat)
  {
    r.eventId == eventId && r.status == Registered
  }

  function RegisteredRows(regs: map<nat, EventRegistration>, eventId: nat): set<nat>
  {
    set k | k in regs && CountsFor(regs[k], eventId)
  }

  /** `Event.registration_count`: the live number of REGISTERED rows of the event. */
  function RegistrationCount(regs: map<nat, EventRegistration>, eventId: nat): nat
  {
    |RegisteredRows(regs, eventId)|
  }

  /** `Event.is_full`: never without a capacity, otherwise count at or above capacity. */
  predicate IsFull(e: Event, regs: map<nat, EventRegistration>, eventId: nat)
  {
    e.capacity.Some? && RegistrationCount(regs, eventId) >= e.capacity.value
  }

  /**
   * Writing one row changes an event's count by what the row stops and starts
   * contributing: a CANCELLED row never counts, and other events are untouched.
   */
  lemma CountAfterWrite(regs: map<nat, EventRegistration>, k: nat, row: EventRegistration, eventId: nat)
    ensures RegistrationCount(regs[k := row], eventId)
         == RegistrationCount(regs, eventId)
            - (if k in regs && CountsFor(regs[k], eventId) then 1 else 0)
            + (if CountsFor(row, eventId) then 1 else 0)
  {
    var before, after := RegisteredRows(regs, eventId), RegisteredRows(regs[k := row], eventId);
    var rest := before - {k};
    assert after == if CountsFor(row, eventId) then rest + {k} else rest;
    assert |rest| == |before| - (if k in before then 1 else 0);
  }

  /** A CANCELLED row is invisible to `registration_count`: dropping it leaves every event's count as it was. */
  lemma CancelledRowsNeverCount(regs: map<nat, EventRegistration>, k: nat, eventId: nat)
    requires k in regs && regs[k].status == RegistrationCancelled
    ensures RegistrationCount(regs - {k}, eventId) == RegistrationCount(regs, eventId)
  {
    assert RegisteredRows(regs - {k}, eventId) == RegisteredRows(regs, eventId);
  }

  /**
   * `is_full` holds exactly when the event has a capacity and one more
   * REGISTERED row, in a slot that does not count yet, would exceed it.
   */
  lemma FullMeansNoRoom(e: Event, regs: map<nat, EventRegistration>, eventId: nat, k: nat, row: EventRegistration)
    requires !(k in regs && CountsFor(regs[k], eventId)) && CountsFor(row, eventId)
    ensures IsFull(e, regs, eventId) <==> e.capacity.Some? && RegistrationCount(regs[k := row], eventId) > e.capacity.value
  {
    CountAfterWrite(regs, k, row, eventId);
  }

  // ---------------------------------------------------------------- table constraints

  predicate IdsBelow<T>(table: map<nat, T>, bound: nat)
  {
    forall k :: k in table ==> k < bound
  }

  /** `users.email` and `users.university_id` are unique columns. */
  predicate UniqueUserKeys(users: map<nat, User>)
  {
    forall i, j :: i in users && j in users && i != j ==>
      users[i].email != users[j].email &&
      (users[i].universityId.Some? ==> users[i].universityId != users[j].universityId)
  }

  /** `clubs.name` is unique. */
  predicate UniqueClubNames(clubs: map<nat, Club>)
  {
    forall i, j :: i in clubs && j in clubs && i != j ==> clubs[i].name != clubs[j].name
  }

  /** `club_managers.email` and `club_managers.club_id` are unique; a manager's club exists. */
  predicate ManagersWellFormed(managers: map<nat, ClubManager>, clubs: map<nat, Club>)
  {
    && (forall i, j :: i in managers && j in managers && i != j ==>
          managers[i].email != managers[j].email &&
          (managers[i].clubId.Some? ==> managers[i].clubId != managers[j].clubId))
    && (forall i :: i in managers && managers[i].clubId.Some? ==> managers[i].clubId.value in clubs)
  }

  /** `uniq_membership`: at most one row per (club, user). */
  predicate UniqueMemberships(m: map<nat, Membership>)
  {
    forall i, j :: i in m && j in m && m[i].clubId == m[j].clubId && m[i].userId == m[j].userId ==> i == j
  }

  /** `uniq_event_registration`: at most one row per (event, user), and its event exists. */
  predicate RegistrationsWellFormed(regs: map<nat, EventRegistration>, events: map<nat, Event>)
  {
    && (forall i, j :: i in regs && j in regs && regs[i].eventId == regs[j].eventId && regs[i].userId == regs[j].userId ==> i == j)
    && (forall i :: i in regs ==> regs[i].eventId in events)
  }

  /**
   * At most one invitation per (application, student), a rule `invite_founder`
   * keeps by its duplicate check, and its application exists.
   */
  predicate InvitationsWellFormed(inv: map<nat, FounderInvitation>, apps: map<nat, ClubApplication>)
  {
    && (forall i, j ::
          (i in inv && j in inv && inv[i].applicationId == inv[j].applicationId
           && inv[i].invitedStudentId == inv[j].invitedStudentId) ==> i == j)
    && (forall i :: i in inv ==> inv[i].applicationId in apps)
  }

  /** A student has at most one PENDING club application, a rule `new_club_application` keeps by its check. */
  predicate OnePendingClubApplication(apps: map<nat, ClubApplication>)
  {
    forall i, j ::
      (i in apps && j in apps && apps[i].status == AppPending && apps[j].status == AppPending
       && apps[i].applicantUserId == apps[j].applicantUserId) ==> i == j
  }

  predicate IsOpenApplication(a: MembershipApplication)
  {
    a.status == MembershipPending || a.status == MembershipApproved
  }

  /** At most one PENDING-or-APPROVED membership application per (club, user), a rule `apply_membership` keeps by its check. */
  predicate OneOpenMembershipApplication(apps: map<nat, MembershipApplication>)
  {
    forall i, j ::
      (i in apps && j in apps && IsOpenApplication(apps[i]) && IsOpenApplication(apps[j])
       && apps[i].clubId == apps[j].clubId && apps[i].userId == apps[j].userId) ==> i == j
  }

  /** Every event belongs to an existing club. */
  predicate EventsWellFormed(events: map<nat, Event>, clubs: map<nat, Club>)
  {
    forall e :: e in events ==> events[e].clubId in clubs
  }

  /** No event with a capacity has more REGISTERED rows than its capacity, a rule `register_event` keeps by its `is_full` check. */
  predicate WithinCapacity(events: map<nat, Event>, regs: map<nat, EventRegistration>)
  {
    forall e :: e in events && events[e].capacity.Some? ==> RegistrationCount(regs, e) <= events[e].capacity.value
  }

  // ---------------------------------------------------------------- the store

  /** The rows of every table, keyed by id, and the next unused id. */
  datatype Tables = Tables(
    users: map<nat, User>,
    clubs: map<nat, Club>,
    managers: map<nat, ClubManager>,
    clubApplications: map<nat, ClubApplication>,
    invitations: map<nat, FounderInvitation>,
    memberships: map<nat, Membership>,
    membershipApplications: map<nat, MembershipApplication>,
    announcements: map<nat, Announcement>,
    events: map<nat, Event>,
    registrations: map<nat, EventRegistration>,
    nextId: nat)

  /**
   * The schema's constraints (fresh ids, unique keys, references that
   * resolve), and the rules that only the routes keep: one pending club
   * application per student, one open membership application per pair, one
   * invitation per pair, and capacities kept.
   */
  ghost predicate TablesValid(t: Tables)
  {
    && IdsBelow(t.users, t.nextId) && IdsBelow(t.clubs, t.nextId) && IdsBelow(t.managers, t.nextId)
    && IdsBelow(t.clubApplications, t.nextId) && IdsBelow(t.invitations, t.nextId)
    && IdsBelow(t.memberships, t.nextId) && IdsBelow(t.membershipApplications, t.nextId)
    && IdsBelow(t.announcements, t.nextId) && IdsBelow(t.events, t.nextId) && IdsBelow(t.registrations, t.nextId)
    && UniqueUserKeys(t.users)
    && UniqueClubNames(t.clubs)
    && ManagersWellFormed(t.managers, t.clubs)
    && UniqueMemberships(t.memberships)
    && RegistrationsWellFormed(t.registrations, t.events)
    && InvitationsWellFormed(t.invitations, t.clubApplications)
    && OnePendingClubApplication(t.clubApplications)
    && OneOpenMembershipApplication(t.membershipApplications)
    && EventsWellFormed(t.events, t.clubs)
    && WithinCapacity(t.events, t.registrations)
  }

  /** No tables at all. */
  function EmptyTables(): (t: Tables)
    ensures TablesValid(t)
  {
    Tables(map[], map[], map[], map[], map[], map[], map[], map[], map[], map[], 0)
  }

  /**
   * The relational store. Each route changes it in one committed unit; the
   * notification and audit logs are append-only sequences whose positions are
   * their ids.
   */
  class Db {
    var tables: Tables
    var notifications: seq<Notification>
    var auditLog: seq<AuditEntry>

    ghost predicate Valid()
      reads this`tables
    {
      TablesValid(tables)
    }

    /** An empty database. */
    constructor ()
      ensures Valid()
      ensures tables == EmptyTables() && notifications == [] && auditLog == []
    {
      tables := EmptyTables();
      notifications, auditLog := [], [];
    }
  }

  // ---------------------------------------------------------------- lookups by unique key

  /** The row of `users` with this e-mail, if any (at most one, by `UniqueUserKeys`). */
  ghost function UserWithEmail(users: map<nat, User>, email: string): (r: Option<nat>)
    ensures r.Some? ==> r.value in users && users[r.value].email == email
    ensures r.None? ==> forall k :: k in users ==> users[k].email != email
  {
    if exists k :: k in users && users[k].email == email then
      var k :| k in users && users[k].email == email; Some(k)
    else None
  }

  /** The row of `managers` with this e-mail, if any. */
  ghost function ManagerWithEmail(managers: map<nat, ClubManager>, email: string): (r: Option<nat>)
    ensures r.Some? ==> r.value in managers && managers[r.value].email == email
    ensures r.None? ==> forall k :: k in managers ==> managers[k].email != email
  {
    if exists k :: k in managers && managers[k].email == email then
      var k :| k in managers && managers[k].email == email; Some(k)
    else None
  }

  /** The (club, user) row of `memberships`, if any. */
  ghost function MembershipOf(m: map<nat, Membership>, clubId: nat, userId: nat): (r: Option<nat>)
    ensures r.Some? ==> r.value in m && m[r.value].clubId == clubId && m[r.value].userId == userId
    ensures r.None? ==> forall k :: k in m ==> !(m[k].clubId == clubId && m[k].userId == userId)
  {
    if exists k :: k in m && m[k].clubId == clubId && m[k].userId == userId then
      var k :| k in m && m[k].clubId == clubId && m[k].userId == userId; Some(k)
    else None
  }

  /** The (event, user) row of `registrations`, if any. */
  ghost function RegistrationOf(regs: map<nat, EventRegistration>, eventId: nat, userId: nat): (r: Option<nat>)
    ensures r.Some? ==> r.value in regs && regs[r.value].eventId == eventId && regs[r.value].userId == userId
    ensures r.None? ==> forall k :: k in regs ==> !(regs[k].eventId == eventId && regs[k].userId == userId)
  {
    if exists k :: k in regs && regs[k].eventId == eventId && regs[k].userId == userId then
      var k :| k in regs && regs[k].eventId == eventId && regs[k].userId == userId; Some(k)
    else None
  }

  // ---------------------------------------------------------------- single-row writes that keep the constraints

  /** With unique manager e-mails, the lookup by a manager's own e-mail finds that manager. */
  lemma ManagerWithEmailUnique(managers: map<nat, ClubManager>, clubs: map<nat, Club>, k: nat)
    requires ManagersWellFormed(managers, clubs) && k in managers
    ensures ManagerWithEmail(managers, managers[k].email) == Some(k)
  {
  }

  /** With unique (club, user) pairs, the row a lookup finds is the only one. */
  lemma MembershipOfUnique(m: map<nat, Membership>, k: nat)
    requires UniqueMemberships(m) && k in m
    ensures MembershipOf(m, m[k].clubId, m[k].userId) == Some(k)
  {
  }

  /** Rewriting a membership row in place, or adding a first row for its pair, keeps the pairs unique. */
  lemma WriteMembership(m: map<nat, Membership>, k: nat, row: Membership)
    requires UniqueMemberships(m)
    requires if k in m then m[k].clubId == row.clubId && m[k].userId == row.userId
             else MembershipOf(m, row.clubId, row.userId).None?
    ensures UniqueMemberships(m[k := row])
    ensures MembershipOf(m[k := row], row.clubId, row.userId) == Some(k)
  {
    MembershipOfUnique(m[k := row], k);
  }

  /** With unique (event, user) pairs, the row a lookup finds is the only one. */
  lemma RegistrationOfUnique(regs: map<nat, EventRegistration>, events: map<nat, Event>, k: nat)
    requires RegistrationsWellFormed(regs, events) && k in regs
    ensures RegistrationOf(regs, regs[k].eventId, regs[k].userId) == Some(k)
  {
  }

  /** Rewriting a registration row in place, or adding a first row for its pair, keeps the pairs unique. */
  lemma WriteRegistration(regs: map<nat, EventRegistration>, events: map<nat, Event>, k: nat, row: EventRegistration)
    requires RegistrationsWellFormed(regs, events) && row.eventId in events
    requires if k in regs then regs[k].eventId == row.eventId && regs[k].userId == row.userId
             else RegistrationOf(regs, row.eventId, row.userId).None?
    ensures RegistrationsWellFormed(regs[k := row], events)
  {
  }

  /** Deciding a membership application in place keeps at most one open application per pair. */
  lemma DecideMembershipApplication(apps: map<nat, MembershipApplication>, k: nat, row: MembershipApplication)
    requires OneOpenMembershipApplication(apps) && k in apps
    requires row.clubId == apps[k].clubId && row.userId == apps[k].userId
    requires IsOpenApplication(row) ==> IsOpenApplication(apps[k])
    ensures OneOpenMembershipApplication(apps[k := row])
  {
  }

  /** Deciding a club application in place keeps at most one pending application per applicant. */
  lemma DecideClubApplicationRow(apps: map<nat, ClubApplication>, k: nat, row: ClubApplication)
    requires OnePendingClubApplication(apps) && k in apps
    requires row.applicantUserId == apps[k].applicantUserId && row.status != AppPending
    ensures OnePendingClubApplication(apps[k := row])
  {
  }
}
