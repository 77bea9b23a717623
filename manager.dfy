/**
 * The club manager's side: sign-in with its own throttle, deciding
 * membership applications of the manager's club, posting an announcement to
 * every active member, and proposing an event.
 */
module Manager {
  import opened Builtins
  import opened Models
  import opened Outcomes
  import opened Rbac
  import opened Forms
  import opened Utils
  import opened Auth

  /** `_manager_club`: the club the manager is bound to, if it has one and it exists. */
  function ManagerClub(clubs: map<nat, Club>, m: ClubManager): (club: Option<nat>)
    ensures club.Some? ==> club.value in clubs && m.clubId == club
    ensures club.None? ==> m.clubId.None? || m.clubId.value !in clubs
  {
    if m.clubId.Some? && m.clubId.value in clubs then m.clubId else None
  }

  // ---------------------------------------------------------------- sign-in

  /** Whether the stored manager `k`, if any, accepts this password. */
  predicate ManagerAccepts(managers: map<nat, ClubManager>, k: Option<nat>, password: string,
                           checkPassword: (string, string) -> bool)
  {
    k.Some? && k.value in managers && managers[k.value].isActive && checkPassword(managers[k.value].passwordHash, password)
  }

  /**
   * The manager `login`: only a signed-in manager is sent on (a signed-in
   * student may still sign in as a manager); a form that fails validation is
   * shown again without touching the throttle; the throttle, which is the
   * manager blueprint's own, works as on the student login; the lower-cased
   * e-mail must name an active manager whose password matches.
   */
  method ManagerLogin(db: Db, throttle: LoginThrottle, caller: Option<Principal>, remoteAddr: Option<string>,
                      email: string, password: string, isEmail: string -> bool,
                      checkPassword: (string, string) -> bool, now: int)
    returns (r: LoginResult)
    requires db.Valid()
    modifies throttle
    ensures caller.Some? && caller.value.ManagerPrincipal? ==> r == SignedInAlready(ManagerDashboard) && unchanged(throttle)
    ensures !(caller.Some? && caller.value.ManagerPrincipal?) && !LoginFormValid(email, password, isEmail) ==>
      r == FormRejected && unchanged(throttle)
    ensures !(caller.Some? && caller.value.ManagerPrincipal?) && LoginFormValid(email, password, isEmail) ==>
      var ip := ClientAddress(remoteAddr);
      var kept := Recent(old(throttle.Attempts(ip)), now - WindowSeconds);
      var k := ManagerWithEmail(db.tables.managers, Lower(email));
      if |kept| >= MaxAttempts then
        r == Throttled && throttle.attempts == old(throttle.attempts)[ip := kept]
      else if ManagerAccepts(db.tables.managers, k, password, checkPassword) then
        r == SignedIn(k.value, ManagerDashboard) && throttle.attempts == old(throttle.attempts)[ip := kept]
      else
        r == InvalidCredentials && throttle.attempts == old(throttle.attempts)[ip := kept + [now]]
  {
    if caller.Some? && caller.value.ManagerPrincipal? {
      return SignedInAlready(ManagerDashboard);
    }
    var ip := ClientAddress(remoteAddr);
    if !LoginFormValid(email, password, isEmail) {
      return FormRejected;
    }
    ghost var before := throttle.attempts;
    ghost var kept := Recent(throttle.Attempts(ip), now - WindowSeconds);
    var limited := throttle.RateLimited(ip, now);
    if limited {
      return Throttled;
    }
    var address := Lower(email);
    ghost var found := ManagerWithEmail(db.tables.managers, address);
    if k :| k in db.tables.managers && db.tables.managers[k].email == address {
      ManagerWithEmailUnique(db.tables.managers, db.tables.clubs, k);
      assert found == Some(k);
      var m := db.tables.managers[k];
      if m.isActive && checkPassword(m.passwordHash, password) {
        return SignedIn(k, ManagerDashboard);
      }
    } else {
      assert found.None?;
    }
    assert !ManagerAccepts(db.tables.managers, found, password, checkPassword);
    throttle.RecordAttempt(ip, now);
    assert throttle.attempts == before[ip := kept][ip := kept + [now]];
    assert before[ip := kept][ip := kept + [now]] == before[ip := kept + [now]];
    return InvalidCredentials;
  }

  // ---------------------------------------------------------------- membership decisions

  /** The notice `decide_membership` sends the applicant. */
  function MembershipDecisionNote(userId: nat, clubName: string, decision: Decision, applicationId: nat, now: int): Notification
  {
    var verdict := if decision == Approve then "approved" else "rejected";
    Notification(userId, MembershipDecisionNotice,
      if decision == Approve then "Membership Approved" else "Membership Rejected",
      "Your membership application to " + clubName + " was " + verdict + ".",
      false, now, Some("MembershipApplication"), Some(applicationId))
  }

  /**
   * `decide_membership`: 403 without a club, 404 for an application of
   * another club, no change for an invalid form or an application already
   * decided; otherwise the decision, its time, decider and reason are
   * recorded, approval reactivates the (club, user) membership or creates it,
   * and the applicant gets one notice.
   */
  method DecideMembership(db: Db, caller: Option<Principal>, applicationId: nat, choice: string, reason: Option<string>, now: int)
    returns (r: Outcome)
    requires db.Valid()
    modifies db
    ensures db.Valid()
    ensures r != Ok ==> unchanged(db)
    ensures ManagerRequired(caller) != Pass ==> r == GateOutcome(ManagerRequired(caller))
    ensures ManagerRequired(caller) == Pass ==>
      var club := ManagerClub(old(db.tables.clubs), caller.value.manager);
      var apps := old(db.tables.membershipApplications);
      if club.None? then r == Forbidden
      else if applicationId !in apps || apps[applicationId].clubId != club.value then r == NotFound
      else if ParseDecision(choice).None? then r == Refused(InvalidForm)
      else if apps[applicationId].status != MembershipPending then r == Refused(AlreadyDecided)
      else r == Ok
    ensures r == Ok ==>
      var t := old(db.tables);
      var app := t.membershipApplications[applicationId];
      var decision := ParseDecision(choice).value;
      var k := MembershipOf(t.memberships, app.clubId, app.userId);
      var decided := app.(
        status := if decision == Approve then MembershipApproved else MembershipRejected,
        decidedAt := Some(now), decidedByManagerId := Some(caller.value.id), decisionReason := reason);
      && db.tables == t.(
           membershipApplications := t.membershipApplications[applicationId := decided],
           memberships :=
             if decision == Reject then t.memberships
             else if k.Some? then t.memberships[k.value := t.memberships[k.value].(isActive := true)]
             else t.memberships[t.nextId := Membership(app.clubId, app.userId, now, true)],
           nextId := if decision == Approve && k.None? then t.nextId + 1 else t.nextId)
      && db.notifications == old(db.notifications)
           + [MembershipDecisionNote(app.userId, t.clubs[app.clubId].name, decision, applicationId, now)]
      && unchanged(db`auditLog)
    ensures r == Ok && ParseDecision(choice) == Some(Approve) ==>
      var app := old(db.tables.membershipApplications)[applicationId];
      var k := MembershipOf(db.tables.memberships, app.clubId, app.userId);
      k.Some? && db.tables.memberships[k.value].isActive
  {
    var gate := ManagerRequired(caller);
    if gate != Pass {
      return GateOutcome(gate);
    }
    var me := caller.value;
    var t := db.tables;
    var clubId := ManagerClub(t.clubs, me.manager);
    if clubId.None? {
      return Forbidden;
    }
    var club := clubId.value;
    if applicationId !in t.membershipApplications || t.membershipApplications[applicationId].clubId != club {
      return NotFound;
    }
    var app := t.membershipApplications[applicationId];
    var decision := ParseDecision(choice);
    if decision.None? {
      return Refused(InvalidForm);
    }
    if app.status != MembershipPending {
      return Refused(AlreadyDecided);
    }
    var decided := app.(
      status := if decision.value == Approve then MembershipApproved else MembershipRejected,
      decidedAt := Some(now), decidedByManagerId := Some(me.id), decisionReason := reason);
    DecideMembershipApplication(t.membershipApplications, applicationId, decided);
    var memberships, nextId := t.memberships, t.nextId;
    if decision.value == Approve {
      if k :| k in memberships && memberships[k].clubId == club && memberships[k].userId == app.userId {
        MembershipOfUnique(memberships, k);
        WriteMembership(memberships, k, memberships[k].(isActive := true));
        memberships := memberships[k := memberships[k].(isActive := true)];
      } else {
        WriteMembership(memberships, nextId, Membership(club, app.userId, now, true));
        memberships := memberships[nextId := Membership(club, app.userId, now, true)];
        nextId := nextId + 1;
      }
    }
    db.tables := t.(membershipApplications := t.membershipApplications[applicationId := decided],
                    memberships := memberships, nextId := nextId);
    var note := MembershipDecisionNote(app.userId, t.clubs[club].name, decision.value, applicationId, now);
    CreateNotification(db, note.userId, note.kind, note.title, note.body, note.relatedType, note.relatedId, now);
    r := Ok;
  }

  // ---------------------------------------------------------------- announcements

  /** The membership rows that are active in this club. */
  function ActiveMemberRows(m: map<nat, Membership>, clubId: nat): set<nat>
  {
    set k | k in m && m[k].clubId == clubId && m[k].isActive
  }

  /** The users with an active membership in this club. */
  ghost function ActiveMembers(m: map<nat, Membership>, clubId: nat): set<nat>
  {
    set k | k in m && m[k].clubId == clubId && m[k].isActive :: m[k].userId
  }

  /** The users a sequence of notices goes to. */
  ghost function Recipients(notes: seq<Notification>): set<nat>
  {
    set i | 0 <= i < |notes| :: notes[i].userId
  }

  /** No user appears twice among the recipients. */
  ghost predicate DistinctRecipients(notes: seq<Notification>)
  {
    forall i, j :: 0 <= i < j < |notes| ==> notes[i].userId != notes[j].userId
  }

  /** The notice `new_announcement` sends each member. */
  function AnnouncementNote(userId: nat, clubName: string, title: string, announcementId: nat, now: int): Notification
  {
    Notification(userId, AnnouncementNotice, clubName + " Announcement", title, false, now,
      Some("Announcement"), Some(announcementId))
  }

  /**
   * `new_announcement`: 403 without a club, no change for a form that fails
   * its validators; otherwise the announcement is
   * stored and every active member of the club, and nobody else, gets exactly
   * one notice of it.
   */
  method NewAnnouncement(db: Db, caller: Option<Principal>, title: string, body: string, now: int)
    returns (r: Outcome)
    requires db.Valid()
    modifies db
    ensures db.Valid()
    ensures r != Ok ==> unchanged(db)
    ensures ManagerRequired(caller) != Pass ==> r == GateOutcome(ManagerRequired(caller))
    ensures ManagerRequired(caller) == Pass ==>
      if ManagerClub(old(db.tables.clubs), caller.value.manager).None? then r == Forbidden
      else if !AnnouncementFormValid(title, body) then r == Refused(InvalidForm)
      else r == Ok
    ensures r == Ok ==> |db.notifications| >= |old(db.notifications)|
    ensures r == Ok ==>
      var t := old(db.tables);
      var club := caller.value.manager.clubId.value;
      var sent := db.notifications[|old(db.notifications)|..];
      && db.tables == t.(announcements := t.announcements[t.nextId := Announcement(club, title, body, caller.value.id, now)],
                         nextId := t.nextId + 1)
      && db.notifications[..|old(db.notifications)|] == old(db.notifications)
      && (forall i :: 0 <= i < |sent| ==>
            sent[i] == AnnouncementNote(sent[i].userId, t.clubs[club].name, title, t.nextId, now))
      && Recipients(sent) == ActiveMembers(t.memberships, club)
      && DistinctRecipients(sent)
      && unchanged(db`auditLog)
  {
    var gate := ManagerRequired(caller);
    if gate != Pass {
      return GateOutcome(gate);
    }
    var me := caller.value;
    var t := db.tables;
    var clubId := ManagerClub(t.clubs, me.manager);
    if clubId.None? {
      return Forbidden;
    }
    if !AnnouncementFormValid(title, body) {
      return Refused(InvalidForm);
    }
    var club := clubId.value;
    var id := t.nextId;
    db.tables := t.(announcements := t.announcements[id := Announcement(club, title, body, me.id, now)], nextId := id + 1);
    ghost var before := db.notifications;
    var rows := ActiveMemberRows(t.memberships, club);
    ghost var sent := NotifyMembers(db, t.memberships, rows, t.clubs[club].name, title, id, now);
    assert db.notifications[|before|..] == sent;
    assert ActiveMembers(t.memberships, club) == UsersOf(t.memberships, rows);
    r := Ok;
  }

  /** The users behind a set of membership rows. */
  ghost function UsersOf(members: map<nat, Membership>, rows: set<nat>): set<nat>
    requires rows <= members.Keys
  {
    set k | k in rows :: members[k].userId
  }

  lemma RecipientsAppend(notes: seq<Notification>, n: Notification)
    ensures Recipients(notes + [n]) == Recipients(notes) + {n.userId}
  {
    var all := notes + [n];
    assert forall i :: 0 <= i < |notes| ==> all[i] == notes[i];
    assert all[|notes|] == n;
  }

  lemma UsersOfAdd(members: map<nat, Membership>, rows: set<nat>, k: nat)
    requires rows <= members.Keys && k in members
    ensures UsersOf(members, rows + {k}) == UsersOf(members, rows) + {members[k].userId}
  {
  }

  /** No two of the rows belong to the same user. */
  ghost predicate OneRowPerUser(members: map<nat, Membership>, rows: set<nat>)
    requires rows <= members.Keys
  {
    forall k, k' :: k in rows && k' in rows && members[k].userId == members[k'].userId ==> k == k'
  }

  /** Every notice is the announcement notice, each to its own user. */
  ghost predicate AllAnnouncementNotes(notes: seq<Notification>, clubName: string, title: string,
                                       announcementId: nat, now: int)
  {
    forall i :: 0 <= i < |notes| ==> notes[i] == AnnouncementNote(notes[i].userId, clubName, title, announcementId, now)
  }

  lemma AnnouncementNotesAppend(notes: seq<Notification>, u: nat, clubName: string, title: string,
                                announcementId: nat, now: int)
    requires AllAnnouncementNotes(notes, clubName, title, announcementId, now)
    ensures AllAnnouncementNotes(notes + [AnnouncementNote(u, clubName, title, announcementId, now)],
                                 clubName, title, announcementId, now)
  {
    var all := notes + [AnnouncementNote(u, clubName, title, announcementId, now)];
    assert forall i :: 0 <= i < |notes| ==> all[i] == notes[i];
  }

  /** A row not yet visited belongs to a user not yet notified. */
  lemma FreshUser(members: map<nat, Membership>, rows: set<nat>, done: set<nat>, k: nat)
    requires rows <= members.Keys && done <= rows && k in rows - done
    requires OneRowPerUser(members, rows)
    ensures members[k].userId !in UsersOf(members, done)
  {
    forall k' | k' in done
      ensures members[k'].userId != members[k].userId
    {
    }
  }

  lemma DistinctAppend(notes: seq<Notification>, n: Notification)
    requires DistinctRecipients(notes) && n.userId !in Recipients(notes)
    ensures DistinctRecipients(notes + [n])
  {
    var all := notes + [n];
    forall i, j | 0 <= i < j < |all|
      ensures all[i].userId != all[j].userId
    {
      if j == |notes| {
        assert all[i].userId == notes[i].userId;
      }
    }
  }

  /** Notifying the user of one more row keeps the loop's invariants. */
  lemma NotifyStep(members: map<nat, Membership>, rows: set<nat>, done: set<nat>, sent: seq<Notification>, k: nat,
                   clubName: string, title: string, announcementId: nat, now: int)
    requires rows <= members.Keys && done <= rows && k in rows - done
    requires OneRowPerUser(members, rows)
    requires AllAnnouncementNotes(sent, clubName, title, announcementId, now)
    requires Recipients(sent) == UsersOf(members, done)
    requires DistinctRecipients(sent)
    ensures var sent' := sent + [AnnouncementNote(members[k].userId, clubName, title, announcementId, now)];
      && AllAnnouncementNotes(sent', clubName, title, announcementId, now)
      && Recipients(sent') == UsersOf(members, done + {k})
      && DistinctRecipients(sent')
  {
    var note := AnnouncementNote(members[k].userId, clubName, title, announcementId, now);
    FreshUser(members, rows, done, k);
    DistinctAppend(sent, note);
    AnnouncementNotesAppend(sent, members[k].userId, clubName, title, announcementId, now);
    RecipientsAppend(sent, note);
    UsersOfAdd(members, done, k);
  }

  /**
   * The loop of `new_announcement`: one notice to the user of each given
   * membership row, in any order. Rows of one club never share a user.
   */
  method NotifyMembers(db: Db, members: map<nat, Membership>, rows: set<nat>, clubName: string, title: string,
                       announcementId: nat, now: int) returns (ghost sent: seq<Notification>)
    requires rows <= members.Keys
    requires OneRowPerUser(members, rows)
    modifies db`notifications
    ensures db.notifications == old(db.notifications) + sent
    ensures AllAnnouncementNotes(sent, clubName, title, announcementId, now)
    ensures Recipients(sent) == UsersOf(members, rows)
    ensures DistinctRecipients(sent)
  {
    var todo := rows;
    ghost var done: set<nat> := {};
    sent := [];
    while todo != {}
      invariant todo <= rows && done == rows - todo
      invariant db.notifications == old(db.notifications) + sent
      invariant AllAnnouncementNotes(sent, clubName, title, announcementId, now)
      invariant Recipients(sent) == UsersOf(members, done)
      invariant DistinctRecipients(sent)
      decreases |todo|
    {
      var k :| k in todo;
      var u := members[k].userId;
      var note := AnnouncementNote(u, clubName, title, announcementId, now);
      NotifyStep(members, rows, done, sent, k, clubName, title, announcementId, now);
      CreateNotification(db, u, note.kind, note.title, note.body, note.relatedType, note.relatedId, now);
      sent := sent + [note];
      done := done + {k};
      todo := todo - {k};
    }
    assert done == rows;
  }

  // ---------------------------------------------------------------- event proposals

  /** The event row `new_event` writes. */
  function ProposedEvent(clubId: nat, title: string, description: string, location: string,
                         times: EventTimes, managerId: nat, now: int): Event
    requires times.start.Some? && times.end.Some?
  {
    Event(clubId, title, description, location, times.start.value, times.end.value, times.capacity,
      times.deadline, PendingApproval, Some(managerId), None, None, now, None)
  }

  /**
   * `new_event`: 403 without a club, no change for a proposal that fails its
   * validators; otherwise one event awaiting approval is added for the club.
   */
  method NewEvent(db: Db, caller: Option<Principal>, title: string, description: string, location: string,
                  times: EventTimes, now: int) returns (r: Outcome)
    requires db.Valid()
    modifies db
    ensures db.Valid()
    ensures r != Ok ==> unchanged(db)
    ensures ManagerRequired(caller) != Pass ==> r == GateOutcome(ManagerRequired(caller))
    ensures ManagerRequired(caller) == Pass ==>
      if ManagerClub(old(db.tables.clubs), caller.value.manager).None? then r == Forbidden
      else if !EventTextValid(title, description, location) || !ValidEventTimes(times) then r == Refused(InvalidForm)
      else r == Ok
    ensures r == Ok ==>
      var t := old(db.tables);
      && db.tables == t.(events := t.events[t.nextId := ProposedEvent(caller.value.manager.clubId.value,
                           title, description, location, times, caller.value.id, now)],
                         nextId := t.nextId + 1)
      && unchanged(db`notifications, db`auditLog)
  {
    var gate := ManagerRequired(caller);
    if gate != Pass {
      return GateOutcome(gate);
    }
    var me := caller.value;
    var t := db.tables;
    var clubId := ManagerClub(t.clubs, me.manager);
    if clubId.None? {
      return Forbidden;
    }
    if !EventTextValid(title, description, location) || !ValidEventTimes(times) {
      return Refused(InvalidForm);
    }
    var id := t.nextId;
    assert RegisteredRows(t.registrations, id) == {};
    db.tables := t.(events := t.events[id := ProposedEvent(clubId.value, title, description, location, times, me.id, now)],
                    nextId := id + 1);
    r := Ok;
  }
}
