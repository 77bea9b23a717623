/**
 * The platform admin's side: deciding club applications (approval creates
 * the club and its manager login) and deciding event proposals.
 */
module Admin {
  import opened Builtins
  import opened Models
  import opened Outcomes
  import opened Rbac
  import opened Forms
  import opened Utils

  // ---------------------------------------------------------------- the decision forms

  /**
   * A field the `Optional()` validator lets through without running the
   * validators after it: not submitted, empty, or only white space.
   */
  predicate Blank(field: Option<string>)
  {
    field.None? || Strip(field.value) == []
  }

  /** Python's `field.data or default`: an absent or empty value falls back. */
  function OrElse(field: Option<string>, default: string): string
  {
    if field.None? || field.value == [] then default else field.value
  }

  /**
   * The length checks of `ClubDecisionForm`: a non-blank club e-mail has at
   * most 255 characters and a non-blank initial password at least 8.
   */
  predicate ClubDecisionFieldsValid(clubEmail: Option<string>, initialPassword: Option<string>)
  {
    && (Blank(clubEmail) || |clubEmail.value| <= 255)
    && (Blank(initialPassword) || |initialPassword.value| >= 8)
  }

  // ---------------------------------------------------------------- the club login address

  /** The address made up from the proposed name: lower-cased, spaces as dots, at `clubs.edu`. */
  function DefaultClubEmail(name: string): (e: string)
    ensures Lower(e) == e
  {
    var local := ReplaceChar(Lower(name), ' ', '.');
    LowerHasNoUpper(name);
    LowerKeepsLowercase(local + "@clubs.edu");
    local + "@clubs.edu"
  }

  /** The club login address as the approval route stores it: the form's value, kept as typed, or the default. */
  function ClubEmailAsWritten(clubEmail: Option<string>, name: string): string
  {
    OrElse(clubEmail, DefaultClubEmail(name))
  }

  /**
   * The corrected club login address: lower-cased, as the manager sign-in
   * looks it up. The approval route stores `ClubEmailAsWritten` instead.
   */
  function ClubLoginEmail(clubEmail: Option<string>, name: string): (e: string)
    ensures Lower(e) == e
    ensures Lower(ClubEmailAsWritten(clubEmail, name)) == e
  {
    LowerIdempotent(ClubEmailAsWritten(clubEmail, name));
    Lower(ClubEmailAsWritten(clubEmail, name))
  }

  predicate HasUpper(s: string)
  {
    exists i :: 0 <= i < |s| && IsUpper(s[i])
  }

  /** Without a form value both addresses are the same default. */
  lemma DefaultEmailUnchanged(name: string)
    ensures ClubLoginEmail(None, name) == ClubEmailAsWritten(None, name) == DefaultClubEmail(name)
  {
  }

  /** A stored manager address with a capital letter is never what a lower-cased login address names. */
  lemma MixedCaseManagerNeverSignsIn(managers: map<nat, ClubManager>, k: nat, typed: string)
    requires k in managers && HasUpper(managers[k].email)
    ensures ManagerWithEmail(managers, Lower(typed)) != Some(k)
  {
    var i :| 0 <= i < |managers[k].email| && IsUpper(managers[k].email[i]);
    LowerHasNoUpper(typed);
    if |Lower(typed)| == |managers[k].email| {
      assert Lower(typed)[i] != managers[k].email[i];
    }
  }

  /** The as-written address `Chess@clubs.edu`, typed on the approval form, can never sign in. */
  lemma TypedMixedCaseEmailLocksOut(typed: string)
    ensures ClubEmailAsWritten(Some("Chess@clubs.edu"), "Chess") == "Chess@clubs.edu"
    ensures HasUpper(ClubEmailAsWritten(Some("Chess@clubs.edu"), "Chess"))
    ensures Lower(typed) != ClubEmailAsWritten(Some("Chess@clubs.edu"), "Chess")
  {
    var stored := ClubEmailAsWritten(Some("Chess@clubs.edu"), "Chess");
    assert IsUpper(stored[0]);
    var m := map[0 := ClubManager(Some(0), stored, "h", true, 0)];
    MixedCaseManagerNeverSignsIn(m, 0, typed);
  }

  /**
   * With the lower-cased address stored, the manager is found from the
   * address in any letter case, in particular exactly as the admin typed it.
   */
  lemma ApprovedManagerSignsIn(managers: map<nat, ClubManager>, clubs: map<nat, Club>, k: nat,
                               clubEmail: Option<string>, name: string, typed: string)
    requires ManagersWellFormed(managers, clubs)
    requires k in managers && managers[k].email == ClubLoginEmail(clubEmail, name)
    requires Lower(typed) == Lower(ClubEmailAsWritten(clubEmail, name))
    ensures ManagerWithEmail(managers, Lower(typed)) == Some(k)
  {
    var found := ManagerWithEmail(managers, Lower(typed));
    assert found.Some?;
  }

  // ---------------------------------------------------------------- club applications

  /** Whether a club already uses this name (compared exactly). */
  predicate ClubNameInUse(clubs: map<nat, Club>, name: string)
  {
    exists k :: k in clubs && clubs[k].name == name
  }

  /** Whether a manager already signs in with this address (compared exactly). */
  predicate ManagerEmailInUse(managers: map<nat, ClubManager>, email: string)
  {
    exists k :: k in managers && managers[k].email == email
  }

  /** The club an approval creates: the proposal's fields, APPROVED now, the applicant as its founder. */
  function ApprovedClub(app: ClubApplication, email: string, now: int): Club
  {
    Club(app.proposedName, app.proposedDescription, app.proposedCategory, email, ClubApproved, now,
      Some(now), Some(app.applicantUserId))
  }

  /** The application row once decided. */
  function DecidedClubApplication(app: ClubApplication, decision: Decision, comment: Option<string>,
                                  adminId: nat, now: int): ClubApplication
  {
    app.(status := if decision == Approve then AppApproved else AppRejected,
         adminComment := comment, decidedAt := Some(now), decidedByAdminId := Some(adminId))
  }

  /** The notice to the applicant on approval; it carries the club login and the initial password. */
  function ClubApprovalNote(app: ClubApplication, email: string, password: string, clubId: nat, now: int): Notification
  {
    Notification(app.applicantUserId, ClubAppDecisionNotice, "Club Application Approved",
      "Your club application '" + app.proposedName + "' was approved. Club login: " + email
        + " | Initial password: " + password,
      false, now, Some("Club"), Some(clubId))
  }

  /** The notice to the applicant on rejection. */
  function ClubRejectionNote(app: ClubApplication, applicationId: nat, now: int): Notification
  {
    Notification(app.applicantUserId, ClubAppDecisionNotice, "Club Application Rejected",
      "Your club application '" + app.proposedName + "' was rejected.",
      false, now, Some("ClubApplication"), Some(applicationId))
  }

  /** The approval notice is the only place the credentials reach the applicant: both are in its body. */
  lemma ApprovalNoteCarriesCredentials(app: ClubApplication, email: string, password: string, clubId: nat, now: int)
    ensures var n := ClubApprovalNote(app, email, password, clubId, now);
      n.userId == app.applicantUserId && Contains(n.body, email) && Contains(n.body, password)
  {
    var body := ClubApprovalNote(app, email, password, clubId, now).body;
    var head := "Your club application '" + app.proposedName + "' was approved. Club login: ";
    var tail := " | Initial password: " + password;
    assert body == head + email + tail;
    assert body == (head + email + " | Initial password: ") + password + [];
  }

  /** The tables after an approval: the club, its manager and the decided application. */
  function ApprovedTables(t: Tables, applicationId: nat, comment: Option<string>, email: string,
                                passwordHash: string, adminId: nat, now: int): Tables
    requires applicationId in t.clubApplications
  {
    var app := t.clubApplications[applicationId];
    t.(clubs := t.clubs[t.nextId := ApprovedClub(app, email, now)],
       managers := t.managers[t.nextId + 1 := ClubManager(Some(t.nextId), email, passwordHash, true, now)],
       clubApplications := t.clubApplications[applicationId := DecidedClubApplication(app, Approve, comment, adminId, now)],
       nextId := t.nextId + 2)
  }

  /** A new manager with an unused address, bound to a new club, keeps the managers table well formed. */
  lemma NewManagerKeepsManagersWellFormed(managers: map<nat, ClubManager>, clubs: map<nat, Club>, n: nat,
                                          club: Club, m: ClubManager)
    requires ManagersWellFormed(managers, clubs) && IdsBelow(managers, n) && IdsBelow(clubs, n)
    requires m.clubId == Some(n) && !ManagerEmailInUse(managers, m.email)
    ensures ManagersWellFormed(managers[n + 1 := m], clubs[n := club])
  {
    var managers', clubs' := managers[n + 1 := m], clubs[n := club];
    forall i | i in managers' && managers'[i].clubId.Some?
      ensures managers'[i].clubId.value in clubs'
    {
    }
    forall i, j | i in managers' && j in managers' && i != j
      ensures managers'[i].email != managers'[j].email
      ensures managers'[i].clubId.Some? ==> managers'[i].clubId != managers'[j].clubId
    {
      if i == n + 1 {
        assert j in managers;
      } else if j == n + 1 {
        assert i in managers;
      }
    }
  }

  /** A new club with an unused name keeps names unique and existing references resolving. */
  lemma NewClubKeepsClubsValid(t: Tables, club: Club)
    requires TablesValid(t) && !ClubNameInUse(t.clubs, club.name)
    ensures UniqueClubNames(t.clubs[t.nextId := club])
    ensures EventsWellFormed(t.events, t.clubs[t.nextId := club])
  {
  }

  /** An approval that passed the name and e-mail checks keeps every table constraint. */
  lemma ApprovalKeepsTablesValid(t: Tables, applicationId: nat, comment: Option<string>, email: string,
                                 passwordHash: string, adminId: nat, now: int)
    requires TablesValid(t) && applicationId in t.clubApplications
    requires !ClubNameInUse(t.clubs, t.clubApplications[applicationId].proposedName)
    requires !ManagerEmailInUse(t.managers, email)
    ensures TablesValid(ApprovedTables(t, applicationId, comment, email, passwordHash, adminId, now))
  {
    var t' := ApprovedTables(t, applicationId, comment, email, passwordHash, adminId, now);
    var n := t.nextId;
    DecideClubApplicationRow(t.clubApplications, applicationId, t'.clubApplications[applicationId]);
    NewClubKeepsClubsValid(t, t'.clubs[n]);
    NewManagerKeepsManagersWellFormed(t.managers, t.clubs, n, t'.clubs[n], t'.managers[n + 1]);
  }

  /** After an approval the new manager is bound to the new club, and the club to its founder. */
  lemma ApprovalBindsManager(t: Tables, applicationId: nat, comment: Option<string>, email: string,
                             passwordHash: string, adminId: nat, now: int)
    requires TablesValid(t) && applicationId in t.clubApplications
    ensures var t' := ApprovedTables(t, applicationId, comment, email, passwordHash, adminId, now);
      var app := t.clubApplications[applicationId];
      && t.nextId !in t.clubs && t'.clubs.Keys == t.clubs.Keys + {t.nextId}
      && t.nextId + 1 !in t.managers && t'.managers.Keys == t.managers.Keys + {t.nextId + 1}
      && t'.clubs[t.nextId].name == app.proposedName
      && t'.clubs[t.nextId].status == ClubApproved
      && t'.clubs[t.nextId].applicantUserId == Some(app.applicantUserId)
      && t'.managers[t.nextId + 1].clubId == Some(t.nextId)
      && t'.managers[t.nextId + 1].email == email
      && t'.managers[t.nextId + 1].isActive
      && t'.clubApplications[applicationId].status == AppApproved
  {
  }
  /**
   * The approval route as written, given a club address with a capital
   * letter, creates a manager that no login address can find.
   */
  lemma ApprovedMixedCaseManagerLockedOut(t: Tables, applicationId: nat, comment: Option<string>,
                                          clubEmail: Option<string>, passwordHash: string, adminId: nat,
                                          now: int, typed: string)
    requires TablesValid(t) && applicationId in t.clubApplications
    requires HasUpper(ClubEmailAsWritten(clubEmail, t.clubApplications[applicationId].proposedName))
    ensures var email := ClubEmailAsWritten(clubEmail, t.clubApplications[applicationId].proposedName);
      var t' := ApprovedTables(t, applicationId, comment, email, passwordHash, adminId, now);
      t.nextId + 1 in t'.managers && ManagerWithEmail(t'.managers, Lower(typed)) != Some(t.nextId + 1)
  {
    var email := ClubEmailAsWritten(clubEmail, t.clubApplications[applicationId].proposedName);
    var t' := ApprovedTables(t, applicationId, comment, email, passwordHash, adminId, now);
    ApprovalBindsManager(t, applicationId, comment, email, passwordHash, adminId, now);
    MixedCaseManagerNeverSignsIn(t'.managers, t.nextId + 1, typed);
  }


  /**
   * `club_application_detail` on a submitted form: 404 for an unknown
   * application, no change for an invalid form or an application already
   * decided; approval is refused while another club has the proposed name or
   * another manager the club address (as typed, or the default; compared
   * exactly), and otherwise creates the APPROVED
   * club and its manager, marks the application APPROVED and sends the
   * applicant the credentials; rejection marks it REJECTED and tells the
   * applicant. Either way the decision is audited. The random fallback
   * password and the hashing come in as `token` and `hashOf`.
   */
  method DecideClubApplication(db: Db, caller: Option<Principal>, applicationId: nat, choice: string,
                               comment: Option<string>, clubEmail: Option<string>, initialPassword: Option<string>,
                               token: string, hashOf: string -> string, now: int)
    returns (r: Outcome)
    requires db.Valid()
    modifies db
    ensures db.Valid()
    ensures r != Ok ==> unchanged(db)
    ensures AdminRequired(caller) != Pass ==> r == GateOutcome(AdminRequired(caller))
    ensures AdminRequired(caller) == Pass ==>
      var t := old(db.tables);
      var decision := ParseDecision(choice);
      if applicationId !in t.clubApplications then r == NotFound
      else if decision.None? || !ClubDecisionFieldsValid(clubEmail, initialPassword) then r == Refused(InvalidForm)
      else if t.clubApplications[applicationId].status != AppPending then r == Refused(AlreadyDecided)
      else if decision == Some(Approve) && ClubNameInUse(t.clubs, t.clubApplications[applicationId].proposedName) then
        r == Refused(ClubNameTaken)
      else if decision == Some(Approve)
        && ManagerEmailInUse(t.managers, ClubEmailAsWritten(clubEmail, t.clubApplications[applicationId].proposedName)) then
        r == Refused(ClubEmailTaken)
      else r == Ok
    ensures r == Ok && ParseDecision(choice) == Some(Approve) ==>
      var t := old(db.tables);
      var app := t.clubApplications[applicationId];
      var email := ClubEmailAsWritten(clubEmail, app.proposedName);
      var password := OrElse(initialPassword, token);
      && db.tables == ApprovedTables(t, applicationId, comment, email, hashOf(password), caller.value.id, now)
      && db.notifications == old(db.notifications) + [ClubApprovalNote(app, email, password, t.nextId, now)]
      && db.auditLog == old(db.auditLog) + [AuditEntry(UserAdmin, caller.value.id, "approve_club_application",
                                              "ClubApplication", applicationId, Some(app.proposedName), now)]
    ensures r == Ok && ParseDecision(choice) == Some(Reject) ==>
      var t := old(db.tables);
      var app := t.clubApplications[applicationId];
      && db.tables == t.(clubApplications := t.clubApplications[applicationId :=
                           DecidedClubApplication(app, Reject, comment, caller.value.id, now)])
      && db.notifications == old(db.notifications) + [ClubRejectionNote(app, applicationId, now)]
      && db.auditLog == old(db.auditLog) + [AuditEntry(UserAdmin, caller.value.id, "reject_club_application",
                                              "ClubApplication", applicationId, Some(OrElse(comment, "")), now)]
  {
    var gate := AdminRequired(caller);
    if gate != Pass {
      return GateOutcome(gate);
    }
    var me := caller.value;
    var t := db.tables;
    if applicationId !in t.clubApplications {
      return NotFound;
    }
    var app := t.clubApplications[applicationId];
    var decision := ParseDecision(choice);
    if decision.None? || !ClubDecisionFieldsValid(clubEmail, initialPassword) {
      return Refused(InvalidForm);
    }
    if app.status != AppPending {
      return Refused(AlreadyDecided);
    }
    if decision.value == Approve {
      if ClubNameInUse(t.clubs, app.proposedName) {
        return Refused(ClubNameTaken);
      }
      var email := ClubEmailAsWritten(clubEmail, app.proposedName);
      if ManagerEmailInUse(t.managers, email) {
        return Refused(ClubEmailTaken);
      }
      ApproveClubApplication(db, me.id, applicationId, comment, email, OrElse(initialPassword, token), hashOf, now);
    } else {
      RejectClubApplication(db, me.id, applicationId, comment, now);
    }
    r := Ok;
  }

  /** The approval branch of `club_application_detail`, once its checks have passed. */
  method ApproveClubApplication(db: Db, adminId: nat, applicationId: nat, comment: Option<string>, email: string,
                                password: string, hashOf: string -> string, now: int)
    requires db.Valid() && applicationId in db.tables.clubApplications
    requires !ClubNameInUse(db.tables.clubs, db.tables.clubApplications[applicationId].proposedName)
    requires !ManagerEmailInUse(db.tables.managers, email)
    modifies db
    ensures db.Valid()
    ensures var t := old(db.tables);
      var app := t.clubApplications[applicationId];
      && db.tables == ApprovedTables(t, applicationId, comment, email, hashOf(password), adminId, now)
      && db.notifications == old(db.notifications) + [ClubApprovalNote(app, email, password, t.nextId, now)]
      && db.auditLog == old(db.auditLog) + [AuditEntry(UserAdmin, adminId, "approve_club_application",
                                              "ClubApplication", applicationId, Some(app.proposedName), now)]
  {
    var t := db.tables;
    var app := t.clubApplications[applicationId];
    var clubId := t.nextId;
    ApprovalKeepsTablesValid(t, applicationId, comment, email, hashOf(password), adminId, now);
    db.tables := ApprovedTables(t, applicationId, comment, email, hashOf(password), adminId, now);
    var note := ClubApprovalNote(app, email, password, clubId, now);
    CreateNotification(db, note.userId, note.kind, note.title, note.body, note.relatedType, note.relatedId, now);
    LogAudit(db, UserAdmin, adminId, "approve_club_application", "ClubApplication", applicationId,
             Some(app.proposedName), now);
  }

  /** The rejection branch of `club_application_detail`. */
  method RejectClubApplication(db: Db, adminId: nat, applicationId: nat, comment: Option<string>, now: int)
    requires db.Valid() && applicationId in db.tables.clubApplications
    modifies db
    ensures db.Valid()
    ensures var t := old(db.tables);
      var app := t.clubApplications[applicationId];
      && db.tables == t.(clubApplications := t.clubApplications[applicationId :=
                           DecidedClubApplication(app, Reject, comment, adminId, now)])
      && db.notifications == old(db.notifications) + [ClubRejectionNote(app, applicationId, now)]
      && db.auditLog == old(db.auditLog) + [AuditEntry(UserAdmin, adminId, "reject_club_application",
                                              "ClubApplication", applicationId, Some(OrElse(comment, "")), now)]
  {
    var t := db.tables;
    var app := t.clubApplications[applicationId];
    var decided := DecidedClubApplication(app, Reject, comment, adminId, now);
    DecideClubApplicationRow(t.clubApplications, applicationId, decided);
    db.tables := t.(clubApplications := t.clubApplications[applicationId := decided]);
    var note := ClubRejectionNote(app, applicationId, now);
    CreateNotification(db, note.userId, note.kind, note.title, note.body, note.relatedType, note.relatedId, now);
    LogAudit(db, UserAdmin, adminId, "reject_club_application", "ClubApplication", applicationId,
             Some(OrElse(comment, "")), now);
  }

  // ---------------------------------------------------------------- event proposals

  /** The event row once decided; the deciding admin is recorded on either outcome. */
  function DecidedEvent(e: Event, decision: Decision, comment: Option<string>, adminId: nat, now: int): (d: Event)
    ensures d.clubId == e.clubId && d.capacity == e.capacity && d.start == e.start
    ensures d.status == (if decision == Approve then EventApproved else EventRejected)
  {
    e.(status := if decision == Approve then EventApproved else EventRejected,
       adminComment := comment, decidedAt := Some(now), approvedByAdminId := Some(adminId))
  }

  /** The notice to the club's founder. */
  function EventDecisionNote(founder: nat, e: Event, decision: Decision, eventId: nat, now: int): Notification
  {
    var verdict := if decision == Approve then "approved" else "rejected";
    Notification(founder, EventStatusNotice,
      if decision == Approve then "Event Approved" else "Event Rejected",
      "Your event '" + e.title + "' was " + verdict + ".",
      false, now, Some("Event"), Some(eventId))
  }

  /** Rewriting an event row with the same club and capacity keeps every table constraint. */
  lemma EventRewriteKeepsTablesValid(t: Tables, eventId: nat, e: Event)
    requires TablesValid(t) && eventId in t.events
    requires e.clubId == t.events[eventId].clubId && e.capacity == t.events[eventId].capacity
    ensures TablesValid(t.(events := t.events[eventId := e]))
  {
  }

  /**
   * `event_proposal_detail` on a submitted form: 404 for an unknown event, no
   * change for an invalid form or an event no longer pending; otherwise the
   * event is APPROVED or REJECTED with the comment, time and admin, the
   * club's founder is told and the decision audited. A club without a
   * founder leaves the notice without a recipient, which the schema refuses
   * at commit: the route fails and nothing changes.
   */
  method DecideEvent(db: Db, caller: Option<Principal>, eventId: nat, choice: string, comment: Option<string>, now: int)
    returns (r: Outcome)
    requires db.Valid()
    modifies db
    ensures db.Valid()
    ensures r != Ok ==> unchanged(db)
    ensures AdminRequired(caller) != Pass ==> r == GateOutcome(AdminRequired(caller))
    ensures AdminRequired(caller) == Pass ==>
      var t := old(db.tables);
      if eventId !in t.events then r == NotFound
      else if ParseDecision(choice).None? then r == Refused(InvalidForm)
      else if t.events[eventId].status != PendingApproval then r == Refused(AlreadyDecided)
      else if t.clubs[t.events[eventId].clubId].applicantUserId.None? then r == Failed
      else r == Ok
    ensures r == Ok ==>
      var t := old(db.tables);
      var e := t.events[eventId];
      var decision := ParseDecision(choice).value;
      && db.tables == t.(events := t.events[eventId := DecidedEvent(e, decision, comment, caller.value.id, now)])
      && db.notifications == old(db.notifications)
           + [EventDecisionNote(t.clubs[e.clubId].applicantUserId.value, e, decision, eventId, now)]
      && db.auditLog == old(db.auditLog)
           + [AuditEntry(UserAdmin, caller.value.id, if decision == Approve then "approve_event" else "reject_event",
                         "Event", eventId, Some(if decision == Approve then e.title else OrElse(comment, "")), now)]
  {
    var gate := AdminRequired(caller);
    if gate != Pass {
      return GateOutcome(gate);
    }
    var me := caller.value;
    var t := db.tables;
    if eventId !in t.events {
      return NotFound;
    }
    var e := t.events[eventId];
    var decision := ParseDecision(choice);
    if decision.None? {
      return Refused(InvalidForm);
    }
    if e.status != PendingApproval {
      return Refused(AlreadyDecided);
    }
    var founder := t.clubs[e.clubId].applicantUserId;
    if founder.None? {
      return Failed;
    }
    var decided := DecidedEvent(e, decision.value, comment, me.id, now);
    EventRewriteKeepsTablesValid(t, eventId, decided);
    db.tables := t.(events := t.events[eventId := decided]);
    var note := EventDecisionNote(founder.value, e, decision.value, eventId, now);
    CreateNotification(db, note.userId, note.kind, note.title, note.body, note.relatedType, note.relatedId, now);
    if decision.value == Approve {
      LogAudit(db, UserAdmin, me.id, "approve_event", "Event", eventId, Some(e.title), now);
    } else {
      LogAudit(db, UserAdmin, me.id, "reject_event", "Event", eventId, Some(OrElse(comment, "")), now);
    }
    r := Ok;
  }
}
