/**
 * The student's side: applying to a club, proposing a club and managing its
 * founders list, answering founder invitations, registering for and
 * cancelling event places, and marking notifications read.
 */
module Student {
  import opened Builtins
  import opened Models
  import opened Outcomes
  import opened Rbac
  import opened Utils

  // ---------------------------------------------------------------- membership applications

  /** Whether the user already has an active membership in the club. */
  predicate HasActiveMembership(m: map<nat, Membership>, clubId: nat, userId: nat)
  {
    exists k :: k in m && m[k].clubId == clubId && m[k].userId == userId && m[k].isActive
  }

  /** Whether the user already has a PENDING or APPROVED application to the club. */
  predicate HasOpenApplication(apps: map<nat, MembershipApplication>, clubId: nat, userId: nat)
  {
    exists k :: k in apps && apps[k].clubId == clubId && apps[k].userId == userId && IsOpenApplication(apps[k])
  }

  /** Adding an open application for a pair that has none keeps one open application per pair. */
  lemma AddOpenApplication(apps: map<nat, MembershipApplication>, k: nat, row: MembershipApplication)
    requires OneOpenMembershipApplication(apps) && k !in apps
    requires !HasOpenApplication(apps, row.clubId, row.userId)
    ensures OneOpenMembershipApplication(apps[k := row])
  {
    var apps' := apps[k := row];
    forall i, j | (i in apps' && j in apps' && IsOpenApplication(apps'[i]) && IsOpenApplication(apps'[j])
                   && apps'[i].clubId == apps'[j].clubId && apps'[i].userId == apps'[j].userId)
      ensures i == j
    {
      if i != k && j != k {
        assert i in apps && j in apps;
      }
    }
  }

  /**
   * `apply_membership`: 404 unless the club exists and is APPROVED; refused
   * for a student who is already an active member or has a PENDING or
   * APPROVED application; otherwise exactly one PENDING application is added.
   */
  method ApplyMembership(db: Db, caller: Option<Principal>, clubId: nat, message: string, now: int)
    returns (r: Outcome)
    requires db.Valid()
    modifies db
    ensures db.Valid()
    ensures r != Ok ==> unchanged(db)
    ensures StudentRequired(caller) != Pass ==> r == GateOutcome(StudentRequired(caller))
    ensures StudentRequired(caller) == Pass ==>
      var t := old(db.tables);
      if clubId !in t.clubs || t.clubs[clubId].status != ClubApproved then r == NotFound
      else if HasActiveMembership(t.memberships, clubId, caller.value.id) then r == Refused(AlreadyMember)
      else if HasOpenApplication(t.membershipApplications, clubId, caller.value.id) then r == Refused(OpenApplicationExists)
      else r == Ok
    ensures r == Ok ==>
      var t := old(db.tables);
      && db.tables == t.(membershipApplications := t.membershipApplications[t.nextId :=
                           MembershipApplication(clubId, caller.value.id, MembershipPending, message, now, None, None, None)],
                         nextId := t.nextId + 1)
      && unchanged(db`notifications, db`auditLog)
  {
    var gate := StudentRequired(caller);
    if gate != Pass {
      return GateOutcome(gate);
    }
    var me := caller.value.id;
    var t := db.tables;
    if clubId !in t.clubs || t.clubs[clubId].status != ClubApproved {
      return NotFound;
    }
    if HasActiveMembership(t.memberships, clubId, me) {
      return Refused(AlreadyMember);
    }
    if HasOpenApplication(t.membershipApplications, clubId, me) {
      return Refused(OpenApplicationExists);
    }
    var row := MembershipApplication(clubId, me, MembershipPending, message, now, None, None, None);
    AddOpenApplication(t.membershipApplications, t.nextId, row);
    db.tables := t.(membershipApplications := t.membershipApplications[t.nextId := row], nextId := t.nextId + 1);
    r := Ok;
  }

  // ---------------------------------------------------------------- club applications

  /** Whether the student already has a PENDING club application. */
  predicate HasPendingClubApplication(apps: map<nat, ClubApplication>, userId: nat)
  {
    exists k :: k in apps && apps[k].applicantUserId == userId && apps[k].status == AppPending
  }

  /**
   * The checks of `ClubApplicationForm`: a name and a description that are
   * not blank, a name of at most 200 characters and a category of at most 120.
   */
  predicate ClubApplicationFormValid(name: string, description: string, category: string)
  {
    Strip(name) != [] && |name| <= 200 && Strip(description) != [] && |category| <= 120
  }

  /** The row `new_club_application` adds: PENDING, undecided, without comment. */
  function NewClubApplicationRow(userId: nat, name: string, description: string, category: string,
                                 foundersNote: string, now: int): (a: ClubApplication)
    ensures a.status == AppPending && a.adminComment.None? && a.decidedAt.None? && a.decidedByAdminId.None?
    ensures a.applicantUserId == userId && a.proposedName == name
  {
    ClubApplication(userId, name, description, category, foundersNote, AppPending, None, now, None, None)
  }

  /** Adding a PENDING application for a student with none keeps one pending application per student. */
  lemma AddPendingClubApplication(apps: map<nat, ClubApplication>, k: nat, row: ClubApplication)
    requires OnePendingClubApplication(apps) && k !in apps
    requires !HasPendingClubApplication(apps, row.applicantUserId)
    ensures OnePendingClubApplication(apps[k := row])
  {
    var apps' := apps[k := row];
    forall i, j | (i in apps' && j in apps' && apps'[i].status == AppPending && apps'[j].status == AppPending
                   && apps'[i].applicantUserId == apps'[j].applicantUserId)
      ensures i == j
    {
      if i != k && j != k {
        assert i in apps && j in apps;
      }
    }
  }

  /**
   * `new_club_application`: a valid form from a student with no PENDING club
   * application adds exactly one PENDING application; a second one is refused.
   */
  method NewClubApplication(db: Db, caller: Option<Principal>, name: string, description: string, category: string,
                            foundersNote: string, now: int) returns (r: Outcome)
    requires db.Valid()
    modifies db
    ensures db.Valid()
    ensures r != Ok ==> unchanged(db)
    ensures StudentRequired(caller) != Pass ==> r == GateOutcome(StudentRequired(caller))
    ensures StudentRequired(caller) == Pass ==>
      if !ClubApplicationFormValid(name, description, category) then r == Refused(InvalidForm)
      else if HasPendingClubApplication(old(db.tables.clubApplications), caller.value.id) then
        r == Refused(PendingClubApplicationExists)
      else r == Ok
    ensures r == Ok ==>
      var t := old(db.tables);
      && db.tables == t.(clubApplications := t.clubApplications[t.nextId :=
                           NewClubApplicationRow(caller.value.id, name, description, category, foundersNote, now)],
                         nextId := t.nextId + 1)
      && unchanged(db`notifications, db`auditLog)
  {
    var gate := StudentRequired(caller);
    if gate != Pass {
      return GateOutcome(gate);
    }
    var me := caller.value.id;
    var t := db.tables;
    if !ClubApplicationFormValid(name, description, category) {
      return Refused(InvalidForm);
    }
    if HasPendingClubApplication(t.clubApplications, me) {
      return Refused(PendingClubApplicationExists);
    }
    var row := NewClubApplicationRow(me, name, description, category, foundersNote, now);
    AddPendingClubApplication(t.clubApplications, t.nextId, row);
    db.tables := t.(clubApplications := t.clubApplications[t.nextId := row], nextId := t.nextId + 1);
    r := Ok;
  }

  // ---------------------------------------------------------------- founders

  /** The application with this id, if the student is its applicant. */
  predicate OwnsApplication(apps: map<nat, ClubApplication>, appId: nat, userId: nat)
  {
    appId in apps && apps[appId].applicantUserId == userId
  }

  /** Whether the application already invited this student. */
  predicate AlreadyInvitedTo(inv: map<nat, FounderInvitation>, appId: nat, studentId: nat)
  {
    exists k :: k in inv && inv[k].applicationId == appId && inv[k].invitedStudentId == studentId
  }

  /** The notice to an invited student. */
  function InviteNote(studentId: nat, app: ClubApplication, appId: nat, now: int): Notification
  {
    Notification(studentId, FounderInviteNotice, "Founder Invitation",
      "You were invited to join the founders list for " + app.proposedName + ".",
      false, now, Some("ClubApplication"), Some(appId))
  }

  /** Adding a first invitation of a student to an existing application keeps every table constraint. */
  lemma InviteKeepsTablesValid(t: Tables, appId: nat, studentId: nat)
    requires TablesValid(t) && appId in t.clubApplications && !AlreadyInvitedTo(t.invitations, appId, studentId)
    ensures TablesValid(t.(invitations := t.invitations[t.nextId := FounderInvitation(appId, studentId, Invited, None)],
                           nextId := t.nextId + 1))
  {
  }

  /**
   * `manage_founders` on a submitted form: 404 unless the student owns the
   * application, locked once it is decided, refused unless the lower-cased
   * address names a STUDENT, refused for a second invitation of the same
   * student; otherwise one INVITED invitation and one notice to the invitee.
   */
  method InviteFounder(db: Db, caller: Option<Principal>, appId: nat, invitedEmail: string, now: int)
    returns (r: Outcome)
    requires db.Valid()
    modifies db
    ensures db.Valid()
    ensures r != Ok ==> unchanged(db)
    ensures StudentRequired(caller) != Pass ==> r == GateOutcome(StudentRequired(caller))
    ensures StudentRequired(caller) == Pass ==>
      var t := old(db.tables);
      var invited := UserWithEmail(t.users, Lower(invitedEmail));
      if !OwnsApplication(t.clubApplications, appId, caller.value.id) then r == NotFound
      else if t.clubApplications[appId].status != AppPending then r == Refused(FoundersLocked)
      else if Strip(invitedEmail) == [] then r == Refused(InvalidForm)
      else if invited.None? || t.users[invited.value].role != Student then r == Refused(StudentNotFound)
      else if AlreadyInvitedTo(t.invitations, appId, invited.value) then r == Refused(AlreadyInvited)
      else r == Ok
    ensures r == Ok ==>
      var t := old(db.tables);
      var invited := UserWithEmail(t.users, Lower(invitedEmail)).value;
      && db.tables == t.(invitations := t.invitations[t.nextId := FounderInvitation(appId, invited, Invited, None)],
                         nextId := t.nextId + 1)
      && db.notifications == old(db.notifications) + [InviteNote(invited, t.clubApplications[appId], appId, now)]
      && unchanged(db`auditLog)
  {
    var gate := StudentRequired(caller);
    if gate != Pass {
      return GateOutcome(gate);
    }
    var me := caller.value.id;
    var t := db.tables;
    if !OwnsApplication(t.clubApplications, appId, me) {
      return NotFound;
    }
    var app := t.clubApplications[appId];
    if app.status != AppPending {
      return Refused(FoundersLocked);
    }
    if Strip(invitedEmail) == [] {
      return Refused(InvalidForm);
    }
    var address := Lower(invitedEmail);
    if k :| k in t.users && t.users[k].email == address {
      assert UserWithEmail(t.users, address) == Some(k);
      if t.users[k].role != Student {
        return Refused(StudentNotFound);
      }
      if AlreadyInvitedTo(t.invitations, appId, k) {
        return Refused(AlreadyInvited);
      }
      var invite := FounderInvitation(appId, k, Invited, None);
      InviteKeepsTablesValid(t, appId, k);
      db.tables := t.(invitations := t.invitations[t.nextId := invite], nextId := t.nextId + 1);
      var note := InviteNote(k, app, appId, now);
      CreateNotification(db, note.userId, note.kind, note.title, note.body, note.relatedType, note.relatedId, now);
      r := Ok;
    } else {
      return Refused(StudentNotFound);
    }
  }

  /**
   * `remove_founder`: 404 unless the student owns the application and the
   * invitation belongs to it, 403 once the application is decided; otherwise
   * the invitation row is deleted.
   */
  method RemoveFounder(db: Db, caller: Option<Principal>, appId: nat, inviteId: nat) returns (r: Outcome)
    requires db.Valid()
    modifies db
    ensures db.Valid()
    ensures r != Ok ==> unchanged(db)
    ensures StudentRequired(caller) != Pass ==> r == GateOutcome(StudentRequired(caller))
    ensures StudentRequired(caller) == Pass ==>
      var t := old(db.tables);
      if !OwnsApplication(t.clubApplications, appId, caller.value.id) then r == NotFound
      else if inviteId !in t.invitations || t.invitations[inviteId].applicationId != appId then r == NotFound
      else if t.clubApplications[appId].status != AppPending then r == Forbidden
      else r == Ok
    ensures r == Ok ==>
      var t := old(db.tables);
      && db.tables == t.(invitations := t.invitations - {inviteId})
      && unchanged(db`notifications, db`auditLog)
  {
    var gate := StudentRequired(caller);
    if gate != Pass {
      return GateOutcome(gate);
    }
    var t := db.tables;
    if !OwnsApplication(t.clubApplications, appId, caller.value.id) {
      return NotFound;
    }
    if inviteId !in t.invitations || t.invitations[inviteId].applicationId != appId {
      return NotFound;
    }
    if t.clubApplications[appId].status != AppPending {
      return Forbidden;
    }
    db.tables := t.(invitations := t.invitations - {inviteId});
    r := Ok;
  }

  /** The notice to the applicant when an invitee answers. */
  function ResponseNote(applicantId: nat, responder: User, accept: bool, appId: nat, now: int): Notification
  {
    Notification(applicantId, FounderResponseNotice,
      if accept then "Founder Invitation Accepted" else "Founder Invitation Rejected",
      responder.name + " " + responder.surname + (if accept then " accepted" else " rejected") + " your founder invite.",
      false, now, Some("ClubApplication"), Some(appId))
  }

  /**
   * `accept_invite` (`accept`) and `reject_invite` (`!accept`): 404 unless the
   * invitation is addressed to this student, no change once it was answered;
   * otherwise the status and answer time are set and the applicant is told.
   */
  method RespondToInvite(db: Db, caller: Option<Principal>, inviteId: nat, accept: bool, now: int)
    returns (r: Outcome)
    requires db.Valid()
    modifies db
    ensures db.Valid()
    ensures r != Ok ==> unchanged(db)
    ensures StudentRequired(caller) != Pass ==> r == GateOutcome(StudentRequired(caller))
    ensures StudentRequired(caller) == Pass ==>
      var t := old(db.tables);
      if inviteId !in t.invitations || t.invitations[inviteId].invitedStudentId != caller.value.id then r == NotFound
      else if t.invitations[inviteId].status != Invited then r == Refused(AlreadyResponded)
      else r == Ok
    ensures r == Ok ==>
      var t := old(db.tables);
      var invite := t.invitations[inviteId];
      && db.tables == t.(invitations := t.invitations[inviteId :=
                           invite.(status := if accept then InviteAccepted else InviteRejected, respondedAt := Some(now))])
      && db.notifications == old(db.notifications)
           + [ResponseNote(t.clubApplications[invite.applicationId].applicantUserId, caller.value.user, accept,
                           invite.applicationId, now)]
      && unchanged(db`auditLog)
  {
    var gate := StudentRequired(caller);
    if gate != Pass {
      return GateOutcome(gate);
    }
    var me := caller.value;
    var t := db.tables;
    if inviteId !in t.invitations || t.invitations[inviteId].invitedStudentId != me.id {
      return NotFound;
    }
    var invite := t.invitations[inviteId];
    if invite.status != Invited {
      return Refused(AlreadyResponded);
    }
    db.tables := t.(invitations := t.invitations[inviteId :=
                      invite.(status := if accept then InviteAccepted else InviteRejected, respondedAt := Some(now))]);
    var note := ResponseNote(t.clubApplications[invite.applicationId].applicantUserId, me.user, accept,
                             invite.applicationId, now);
    CreateNotification(db, note.userId, note.kind, note.title, note.body, note.relatedType, note.relatedId, now);
    r := Ok;
  }

  // ---------------------------------------------------------------- event registration

  /**
   * Registering a place on an event that is not full keeps every event
   * within its capacity, and raises that event's count by exactly one.
   */
  lemma RegisterKeepsWithinCapacity(events: map<nat, Event>, regs: map<nat, EventRegistration>, k: nat,
                                    row: EventRegistration)
    requires WithinCapacity(events, regs) && row.eventId in events && CountsFor(row, row.eventId)
    requires k in regs ==> regs[k].eventId == row.eventId && !CountsFor(regs[k], row.eventId)
    requires !IsFull(events[row.eventId], regs, row.eventId)
    ensures WithinCapacity(events, regs[k := row])
    ensures RegistrationCount(regs[k := row], row.eventId) == RegistrationCount(regs, row.eventId) + 1
  {
    forall e | e in events && events[e].capacity.Some?
      ensures RegistrationCount(regs[k := row], e) <= events[e].capacity.value
    {
      CountAfterWrite(regs, k, row, e);
    }
    CountAfterWrite(regs, k, row, row.eventId);
  }

  /** Cancelling a place keeps every event within its capacity and frees exactly one place. */
  lemma CancelKeepsWithinCapacity(events: map<nat, Event>, regs: map<nat, EventRegistration>, k: nat,
                                  row: EventRegistration)
    requires WithinCapacity(events, regs) && k in regs && CountsFor(regs[k], regs[k].eventId)
    requires row.eventId == regs[k].eventId && row.status == RegistrationCancelled
    ensures WithinCapacity(events, regs[k := row])
    ensures RegistrationCount(regs[k := row], row.eventId) == RegistrationCount(regs, row.eventId) - 1
  {
    forall e | e in events && events[e].capacity.Some?
      ensures RegistrationCount(regs[k := row], e) <= events[e].capacity.value
    {
      CountAfterWrite(regs, k, row, e);
    }
    CountAfterWrite(regs, k, row, row.eventId);
  }

  /** The registration row after registering: an existing row revived in place, or a new row. */
  ghost function RegisteredTables(t: Tables, eventId: nat, userId: nat, now: int): Tables
  {
    var k := RegistrationOf(t.registrations, eventId, userId);
    if k.Some? then
      t.(registrations := t.registrations[k.value :=
           t.registrations[k.value].(status := Registered, registeredAt := now, cancelledAt := None)])
    else
      t.(registrations := t.registrations[t.nextId := EventRegistration(eventId, userId, Registered, now, None)],
         nextId := t.nextId + 1)
  }

  /**
   * Registering for an existing event that is not full, without a REGISTERED
   * row already, keeps every table constraint and takes exactly one place.
   */
  lemma RegisterKeepsTablesValid(t: Tables, eventId: nat, userId: nat, now: int)
    requires TablesValid(t) && eventId in t.events && !IsFull(t.events[eventId], t.registrations, eventId)
    requires var k := RegistrationOf(t.registrations, eventId, userId);
      k.Some? ==> t.registrations[k.value].status != Registered
    ensures TablesValid(RegisteredTables(t, eventId, userId, now))
    ensures RegistrationCount(RegisteredTables(t, eventId, userId, now).registrations, eventId)
         == RegistrationCount(t.registrations, eventId) + 1
  {
    var k := RegistrationOf(t.registrations, eventId, userId);
    if k.Some? {
      var row := t.registrations[k.value].(status := Registered, registeredAt := now, cancelledAt := None);
      WriteRegistration(t.registrations, t.events, k.value, row);
      RegisterKeepsWithinCapacity(t.events, t.registrations, k.value, row);
    } else {
      var row := EventRegistration(eventId, userId, Registered, now, None);
      WriteRegistration(t.registrations, t.events, t.nextId, row);
      RegisterKeepsWithinCapacity(t.events, t.registrations, t.nextId, row);
    }
  }

  /**
   * `register_event`, with its checks in this order: the event exists and is
   * APPROVED (404), the deadline if any has not passed, the event has not
   * started, it is not full, and the student is not already registered; a
   * time equal to the deadline or the start is still in time. A cancelled
   * row is revived rather than a second one added.
   */
  method RegisterEvent(db: Db, caller: Option<Principal>, eventId: nat, now: int) returns (r: Outcome)
    requires db.Valid()
    modifies db
    ensures db.Valid()
    ensures r != Ok ==> unchanged(db)
    ensures StudentRequired(caller) != Pass ==> r == GateOutcome(StudentRequired(caller))
    ensures StudentRequired(caller) == Pass ==>
      var t := old(db.tables);
      var k := RegistrationOf(t.registrations, eventId, caller.value.id);
      if eventId !in t.events || t.events[eventId].status != EventApproved then r == NotFound
      else if t.events[eventId].deadline.Some? && now > t.events[eventId].deadline.value then r == Refused(DeadlinePassed)
      else if now > t.events[eventId].start then r == Refused(EventStarted)
      else if IsFull(t.events[eventId], t.registrations, eventId) then r == Refused(EventFull)
      else if k.Some? && t.registrations[k.value].status == Registered then r == Refused(AlreadyRegistered)
      else r == Ok
    ensures r == Ok ==>
      && db.tables == RegisteredTables(old(db.tables), eventId, caller.value.id, now)
      && RegistrationCount(db.tables.registrations, eventId) == RegistrationCount(old(db.tables.registrations), eventId) + 1
      && unchanged(db`notifications, db`auditLog)
  {
    var gate := StudentRequired(caller);
    if gate != Pass {
      return GateOutcome(gate);
    }
    var me := caller.value.id;
    var t := db.tables;
    if eventId !in t.events || t.events[eventId].status != EventApproved {
      return NotFound;
    }
    var e := t.events[eventId];
    if e.deadline.Some? && now > e.deadline.value {
      return Refused(DeadlinePassed);
    }
    if now > e.start {
      return Refused(EventStarted);
    }
    if e.capacity.Some? && |RegisteredRows(t.registrations, eventId)| >= e.capacity.value {
      return Refused(EventFull);
    }
    if k :| k in t.registrations && t.registrations[k].eventId == eventId && t.registrations[k].userId == me {
      RegistrationOfUnique(t.registrations, t.events, k);
      if t.registrations[k].status == Registered {
        return Refused(AlreadyRegistered);
      }
      RegisterKeepsTablesValid(t, eventId, me, now);
      db.tables := t.(registrations := t.registrations[k :=
                        t.registrations[k].(status := Registered, registeredAt := now, cancelledAt := None)]);
    } else {
      RegisterKeepsTablesValid(t, eventId, me, now);
      db.tables := t.(registrations := t.registrations[t.nextId := EventRegistration(eventId, me, Registered, now, None)],
                      nextId := t.nextId + 1);
    }
    r := Ok;
  }

  /**
   * `cancel_event`: 404 unless the event is APPROVED and the student has a
   * row for it; no change for a row already cancelled; otherwise the row
   * becomes CANCELLED with the cancellation time, freeing one place.
   */
  method CancelEvent(db: Db, caller: Option<Principal>, eventId: nat, now: int) returns (r: Outcome)
    requires db.Valid()
    modifies db
    ensures db.Valid()
    ensures r != Ok ==> unchanged(db)
    ensures StudentRequired(caller) != Pass ==> r == GateOutcome(StudentRequired(caller))
    ensures StudentRequired(caller) == Pass ==>
      var t := old(db.tables);
      var k := RegistrationOf(t.registrations, eventId, caller.value.id);
      if eventId !in t.events || t.events[eventId].status != EventApproved || k.None? then r == NotFound
      else if t.registrations[k.value].status != Registered then r == Refused(AlreadyCancelled)
      else r == Ok
    ensures r == Ok ==>
      var t := old(db.tables);
      var k := RegistrationOf(t.registrations, eventId, caller.value.id).value;
      && db.tables == t.(registrations := t.registrations[k :=
                           t.registrations[k].(status := RegistrationCancelled, cancelledAt := Some(now))])
      && RegistrationCount(db.tables.registrations, eventId) == RegistrationCount(t.registrations, eventId) - 1
      && unchanged(db`notifications, db`auditLog)
  {
    var gate := StudentRequired(caller);
    if gate != Pass {
      return GateOutcome(gate);
    }
    var me := caller.value.id;
    var t := db.tables;
    if eventId !in t.events || t.events[eventId].status != EventApproved {
      return NotFound;
    }
    if k :| k in t.registrations && t.registrations[k].eventId == eventId && t.registrations[k].userId == me {
      RegistrationOfUnique(t.registrations, t.events, k);
      if t.registrations[k].status != Registered {
        return Refused(AlreadyCancelled);
      }
      var row := t.registrations[k].(status := RegistrationCancelled, cancelledAt := Some(now));
      WriteRegistration(t.registrations, t.events, k, row);
      CancelKeepsWithinCapacity(t.events, t.registrations, k, row);
      db.tables := t.(registrations := t.registrations[k := row]);
      r := Ok;
    } else {
      return NotFound;
    }
  }

  // ---------------------------------------------------------------- notifications

  /** The `notification_id` form value: a string of decimal digits names a notification, anything else none. */
  function NotificationIdArg(arg: Option<string>): (id: Option<nat>)
    ensures id.Some? <==> arg.Some? && IsDigits(arg.value)
  {
    if arg.Some? && IsDigits(arg.value) then Some(DigitsValue(arg.value)) else None
  }

  /** The id a page writes into the form is read back as the same id. */
  lemma NotificationIdRoundTrip(id: nat)
    ensures NotificationIdArg(Some(NatToString(id))) == Some(id)
  {
    NatToStringRoundTrip(id);
  }

  /** The notices after `notifications` marks one read: only a notice of this user, and only its flag. */
  function MarkRead(notes: seq<Notification>, userId: nat, id: Option<nat>): (r: seq<Notification>)
    ensures |r| == |notes|
    ensures forall i :: 0 <= i < |notes| ==> r[i] == notes[i] || (Some(i) == id && notes[i].userId == userId)
    ensures forall i :: 0 <= i < |notes| ==> r[i].(isRead := notes[i].isRead) == notes[i]
    ensures id.Some? && id.value < |notes| && notes[id.value].userId == userId ==> r[id.value].isRead
  {
    if id.Some? && id.value < |notes| && notes[id.value].userId == userId then
      notes[id.value := notes[id.value].(isRead := true)]
    else notes
  }

  /** Marking the same notice twice is the same as marking it once. */
  lemma MarkReadIdempotent(notes: seq<Notification>, userId: nat, id: Option<nat>)
    ensures MarkRead(MarkRead(notes, userId, id), userId, id) == MarkRead(notes, userId, id)
  {
  }

  /** Another user's notices are never touched. */
  lemma MarkReadOnlyOwnNotes(notes: seq<Notification>, userId: nat, id: Option<nat>, i: nat)
    requires i < |notes| && notes[i].userId != userId
    ensures MarkRead(notes, userId, id)[i] == notes[i]
  {
  }

  /**
   * `notifications` on a submitted form: a digit-string id that names one of
   * the student's own notices marks it read; nothing else changes, and the
   * route answers the same way whether or not a notice was marked.
   */
  method MarkNotificationRead(db: Db, caller: Option<Principal>, notificationId: Option<string>) returns (r: Outcome)
    modifies db`notifications
    ensures StudentRequired(caller) != Pass ==> r == GateOutcome(StudentRequired(caller)) && unchanged(db)
    ensures StudentRequired(caller) == Pass ==>
      r == Ok && db.notifications == MarkRead(old(db.notifications), caller.value.id, NotificationIdArg(notificationId))
  {
    var gate := StudentRequired(caller);
    if gate != Pass {
      return GateOutcome(gate);
    }
    var me := caller.value.id;
    var id := NotificationIdArg(notificationId);
    if id.Some? && id.value < |db.notifications| && db.notifications[id.value].userId == me {
      db.notifications := db.notifications[id.value := db.notifications[id.value].(isRead := true)];
    }
    r := Ok;
  }
}
