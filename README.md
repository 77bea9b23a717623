# Club management: a verified model of the decision rules

This project models the core of a Flask club-management application in Dafny.

**The application.**
- Students register, sign in, apply to join clubs and propose new clubs.
- They invite co-founders and register for events.
- Club managers sign in on their own login page. They decide membership applications, post announcements and propose events.
- An SKS administrator approves or rejects club applications and event proposals.

**How the model is built.**
- The relational store is the class `Models.Db`. It holds every table as a map from row id to record (`Models.Tables`), plus two append-only sequences: notifications and the audit log.
- The invariant `Db.Valid()` holds two kinds of facts:
  - the schema's uniqueness and reference constraints;
  - the rules the routes keep by checking before they insert: one pending club application per student (app/blueprints/student.py:151-156), one open membership application per (club, user) (student.py:112-121), one founder invitation per (application, student) (student.py:201-207), and event capacities (student.py:353-355).
- Each route is one method that either commits one atomic change to the store or returns an `Outcome` and leaves the store unchanged. This matches a redirect without commit.
- The login throttle is a class over a map from client address to attempt timestamps. The student/admin login and the manager login each use their own instance.
- Pure helpers are functions with lemmas:
  - session ids and `load_user`;
  - the role gates;
  - the form validators;
  - `registration_count` and `is_full`;
  - the derived club login e-mail;
  - `slugify`.

**Parameters instead of I/O.**
- The clock is an integer `now`, in seconds.
- Password hashing and checking are function parameters (`hashOf`, `checkPassword`).
- The random initial password of a new club manager is a parameter (`token`).
- The client address is a parameter (`remoteAddr`).
- WTForms' `Email()` validator, a library call, is a parameter (`isEmail`) of the login and registration routes.
- The signed-in principal is `caller: Option<Principal>`; `None` means anonymous.

Modules:

| Module | Models |
|---|---|
| `Builtins` | ASCII models of the Python `str`/`int` built-ins the code relies on: `lower`, `strip`, `int()`, `str()` |
| `Models` | records, enums, session ids, `registration_count`/`is_full`, the table constraints, the store |
| `Outcomes` | what a route answers: `Ok`, redirect to login, 403, 404, a refusal with its reason, or a failed commit |
| `Rbac` | the role gates |
| `App` | `load_user`, the unauthenticated redirect, the role exposed to templates |
| `Utils` | notifications, the audit log, the page argument |
| `Forms` | required text fields and the manager forms' validators |
| `Auth` | the throttle, the login and registration forms, login and registration |
| `Manager` | manager login, membership decisions, announcements and event proposals |
| `Admin` | club-application and event-proposal decisions |
| `Student` | membership and club applications, founders, event registration and notifications |
| `Seed` | `slugify` |

## Model

| member | source | states |
|---|---|---|
| Models.SessionIdsDistinct | app/models.py:96-97 | `"user:<id>"` and `"manager:<id>"` session ids are equal exactly when kind and id agree, so the two id spaces never collide |
| Models.CountAfterWrite | app/models.py:271-275 | writing one registration row changes an event's live count by what that row stops and starts contributing; only REGISTERED rows of that event count |
| Models.CancelledRowsNeverCount | app/models.py:271-275 | a CANCELLED registration row never contributes: removing it leaves every event's count unchanged |
| Models.FullMeansNoRoom | app/models.py:277-281 | `is_full` holds exactly when the event has a capacity and one more REGISTERED row would exceed it; with no capacity it never holds |
| Models.UserWithEmail | app/models.py:73-74 | the user row with a given e-mail, or none, and then no row has that e-mail |
| Models.ManagerWithEmail | app/models.py:137-138 | the manager row with a given e-mail, or none, and then no row has that e-mail |
| Models.ManagerWithEmailUnique | app/models.py:138 | under the unique e-mail column, each manager is the one found by its own e-mail |
| Models.MembershipOf | app/models.py:204-206 | the (club, user) membership row, or none, and then no row has that pair |
| Models.RegistrationOf | app/models.py:301-303 | the (event, user) registration row, or none, and then no row has that pair |
| Models.MembershipOfUnique | app/models.py:204-206 | under the unique (club, user) constraint, each membership row is the one found for its pair |
| Models.WriteMembership | app/models.py:204-206 | updating that pair's row in place, or inserting one when none exists, keeps (club, user) unique, and the row written is the one found |
| Models.RegistrationOfUnique | app/models.py:301-303 | under the unique (event, user) constraint, each registration row is the one found for its pair |
| Models.WriteRegistration | app/models.py:301-303 | reusing the pair's registration row, or inserting one when none exists, keeps (event, user) unique |
| Models.DecideMembershipApplication | app/blueprints/student.py:112-121 | rewriting an application so it is no longer open keeps at most one open application per (club, user) |
| Models.DecideClubApplicationRow | app/blueprints/student.py:151-156 | deciding a club application keeps at most one PENDING club application per student |
| Rbac.RolesRequired | app/rbac.py:13-28 | an anonymous caller is redirected to log in; a user whose role is listed passes; a club manager is always refused with 403; so is any user whose role is not listed |
| Rbac.AdminRequired | app/rbac.py:31-32 | only an SKS_ADMIN user passes; anonymous callers are redirected |
| Rbac.StudentRequired | app/rbac.py:35-36 | only a STUDENT user passes; anonymous callers are redirected |
| Rbac.ManagerRequired | app/rbac.py:39-47 | only a club manager passes; every user gets 403; anonymous callers are redirected |
| Rbac.GateOutcome | app/rbac.py:16-24 | a failed gate answers a redirect for anonymous callers and 403 otherwise |
| Rbac.ExactlyOneGatePasses | app/rbac.py:31-47 | every signed-in principal passes exactly one of the admin, student and manager gates |
| App.LoadUser | app/__init__.py:35-47 | an empty id loads nobody; `user:<digits>` looks up the user table only and `manager:<digits>` the manager table only; a hit is a stored principal with that id |
| App.LoadUserRoundTrip | app/__init__.py:39-46 | loading the session id of any stored principal gives back that principal |
| App.LoadUserUnknownPrefix | app/__init__.py:47 | an id with any other prefix loads nobody |
| App.UnauthorizedRedirect | app/__init__.py:49-53 | the manager blueprint sends anonymous callers to the manager login; every other blueprint uses the student/admin login |
| App.CurrentRole | app/__init__.py:57-62 | the role is exposed exactly for users and is their own role; managers get none |
| App.IsManager | app/__init__.py:55-64 | the manager flag holds exactly for the callers `manager_required` admits |
| App.RoleAndManagerExclusive | app/__init__.py:55-64 | no caller has both a role and the manager flag |
| Utils.CreateNotification | app/utils.py:9-19 | appends exactly one unread notification with the given user, type, title, body and related object; earlier notifications are unchanged |
| Utils.LogAudit | app/utils.py:22-33 | appends exactly one audit entry with the given actor, action, object and details, stamped with the time; earlier entries are unchanged |
| Utils.GetPage | app/utils.py:36-40 | the page is the integer value `int()` reads from the argument (white space, sign and `_` digit separators included, at most 4300 digits), or the default when it is absent or `int()` rejects it |
| Utils.GetPageReadsNumber | app/utils.py:36-40 | any integer of at most 4300 digits written out in decimal is read back as itself |
| Utils.GetPageReadsSeparatedDigits | app/utils.py:36-40 | a page argument such as `1_0` is read as the digits without the separator, when they number at most 4300 |
| Utils.GetPageTooManyDigits | app/utils.py:36-40 | a page argument of more than 4300 digits makes `int()` raise, so the default page is shown |
| Builtins.SeparatorKeepsValue | app/utils.py:38 | `int()` gives the same value with or without one `_` between two runs of digits; the separator does not count toward the 4300-digit limit |
| Builtins.TooManyDigitsRejected | app/utils.py:38 | `int()` rejects more than 4300 digits, signed or not |
| Builtins.NatToStringRoundTrip | app/__init__.py:39-46 | the decimal digits written for an id read back as that id |
| Builtins.ParseIntRoundTrip | app/utils.py:36-40 | `int()` of the decimal text of any integer of at most 4300 digits is that integer |
| Forms.DataRequired | app/forms/manager.py:33-34 | a required text field passes exactly when it holds a character other than whitespace |
| Forms.ParseDecision | app/forms/manager.py:23-27 | a decision is Approve exactly for `approve` and Reject exactly for `reject`; anything else fails validation |
| Forms.ValidEventTimes | app/forms/manager.py:42-66 | a proposal passes exactly when start and end are given, the end is after the start, any deadline is before the start and any capacity is at least one |
| Forms.ValidatorsSkipMissing | app/forms/manager.py:60-66 | the end and deadline validators accept whenever the start or their own field is missing |
| Forms.WithinDeadlineIsBeforeStart | app/forms/manager.py:64-66 | for a proposal that passed, any time within its registration deadline is before its start |
| Auth.Recent | app/blueprints/auth.py:19-24 | pruning keeps exactly the attempts later than the window start, with their multiplicities |
| Auth.RecentAppend | app/blueprints/auth.py:19-29 | pruning distributes over appending attempts |
| Auth.RecentLater | app/blueprints/auth.py:19-24 | pruning first with an earlier window and then a later one is the same as pruning once with the later one |
| Auth.RecentAllExpired | app/blueprints/auth.py:19-24 | when every attempt is older than the window, nothing remains |
| Auth.KeepsAllRecent | app/blueprints/auth.py:19-24 | when every attempt is inside the window, pruning keeps all of them |
| Auth.FiveRecentFailuresLock | app/blueprints/auth.py:14-25 | five failures inside the window lock the address, whatever came before |
| Auth.LoginThrottle.constructor | app/blueprints/auth.py:16 | the attempt map starts empty |
| Auth.LoginThrottle.RateLimited | app/blueprints/auth.py:19-25 | only this address's list is replaced, by its pruned list; the answer is true exactly when at least five attempts remain |
| Auth.LoginThrottle.RecordAttempt | app/blueprints/auth.py:28-29 | exactly one timestamp, now, is appended to this address's list (created if absent); other lists are unchanged |
| Auth.LoginRedirect | app/blueprints/auth.py:32-35 | admins land on the admin dashboard and every other user on the student dashboard |
| Auth.Login | app/blueprints/auth.py:65-88 | a signed-in caller is sent to their landing page without touching the throttle; a form that fails `LoginForm`'s validators is shown again without touching the throttle; a throttled address is refused before the user store is consulted and records nothing; an active user with a matching password signs in and records nothing; any other failure records exactly one attempt |
| Auth.RegistrationKeepsKeysUnique | app/blueprints/auth.py:44-58 | adding a student whose lowercased e-mail and stripped university id are both unused keeps both keys unique |
| Auth.ClashBreaksKeys | app/blueprints/auth.py:49-57 | when the lowercased e-mail or the stripped university id is taken, inserting the new student breaks a unique column, so the commit fails |
| Auth.PaddedUniversityIdSlipsThrough | app/blueprints/auth.py:44-58 | the check as written lets " S1" through while "S1" exists, and the stored row then breaks university-id uniqueness |
| Auth.Register | app/blueprints/auth.py:38-62 | in order: a signed-in caller is refused; a form that fails `RegisterForm`'s validators (required fields, lengths, password of at least 8, matching confirmation) writes nothing; an e-mail or university id already stored as typed is refused with no change; a university id that only clashes once stripped fails at commit with no change; otherwise exactly one active STUDENT user is added with the lowercased e-mail and the hashed password |
| Manager.ManagerClub | app/blueprints/manager.py:50-51 | the manager's club, when it is bound to one that exists |
| Manager.ManagerLogin | app/blueprints/manager.py:32-70 | a form that fails `ManagerLoginForm`'s validators is shown again without touching the throttle; otherwise the same throttle rules as the student login, on the manager's own throttle; only an existing, active manager with a matching password signs in; every other failure records one attempt |
| Manager.DecideMembership | app/blueprints/manager.py:153-202 | 403 without a club; 404 for an application of another club; no change when already decided or when the decision is invalid; approval sets APPROVED and reactivates or inserts the one (club, user) membership, which ends active; rejection sets REJECTED and leaves memberships alone; both record the decider, time and reason and notify the applicant exactly once |
| Manager.NotifyMembers | app/blueprints/manager.py:231-240 | the loop appends one announcement notice per given membership row, each to a different user, and nothing else |
| Manager.NewAnnouncement | app/blueprints/manager.py:215-244 | 403 without a club; no change for a form that fails validation; otherwise the announcement is stored and every active member of the club, and nobody else, gets exactly one notice |
| Manager.NewEvent | app/blueprints/manager.py:257-281 | 403 without a club; no change for a proposal that fails validation; otherwise exactly one PENDING_APPROVAL event of that club is added |
| Admin.DefaultClubEmail | app/blueprints/admin.py:86 | the default club e-mail is all lowercase |
| Admin.ClubLoginEmail | app/blueprints/admin.py:86-90 | the corrected club address (the route stores the address as typed): all lowercase, and the lowercased form of what the administrator submitted, or of the default |
| Admin.DefaultEmailUnchanged | app/blueprints/admin.py:86 | with no e-mail typed, the corrected address is the one the code stores |
| Admin.MixedCaseManagerNeverSignsIn | app/blueprints/manager.py:64 | a manager whose stored e-mail has an upper-case letter is never found by the lowercasing login lookup, whatever is typed |
| Admin.TypedMixedCaseEmailLocksOut | app/blueprints/admin.py:86-108 | the code as written stores `Chess@clubs.edu` verbatim, and no typed e-mail can match it at login |
| Admin.ApprovedManagerSignsIn | app/blueprints/manager.py:64 | with the corrected address, a manager is found by any typed e-mail that lowercases to the submitted one |
| Admin.ApprovedMixedCaseManagerLockedOut | app/blueprints/admin.py:86-108 | approving with a typed club address that has a capital letter creates a manager that no login address can find |
| Admin.ApprovalNoteCarriesCredentials | app/blueprints/admin.py:111-121 | the approval notice goes to the applicant and contains the club login e-mail and the initial password |
| Admin.NewManagerKeepsManagersWellFormed | app/models.py:137-138 | a new manager, with an unused e-mail and bound to a new club, keeps managers' e-mails and clubs unique |
| Admin.NewClubKeepsClubsValid | app/models.py:108 | a club with an unused name keeps club names unique |
| Admin.ApprovalKeepsTablesValid | app/blueprints/admin.py:92-109 | approval under the name and e-mail guards keeps every table constraint |
| Admin.ApprovalBindsManager | app/blueprints/admin.py:92-109 | approval creates exactly one APPROVED club with the proposed name, one active manager bound to it with the given e-mail, and sets the application APPROVED |
| Admin.DecideClubApplication | app/blueprints/admin.py:67-157 | 404 for an unknown application; no change for an invalid form, a decided application, a taken club name or a manager e-mail equal to the club address as typed (or the default); approval stores that address as typed and creates the club and manager and sends one notice and one `approve_club_application` audit entry; rejection sets REJECTED and sends one notice and one `reject_club_application` entry, creating nothing |
| Admin.ApproveClubApplication | app/blueprints/admin.py:92-129 | the approval branch: the approved tables, one notice to the applicant and one audit entry |
| Admin.RejectClubApplication | app/blueprints/admin.py:130-147 | the rejection branch: only the application changes; one notice and one audit entry |
| Admin.DecidedEvent | app/blueprints/admin.py:186-221 | deciding an event keeps its club, capacity and start and sets APPROVED or REJECTED |
| Admin.EventRewriteKeepsTablesValid | app/blueprints/admin.py:186-221 | rewriting an event in place with the same club and capacity keeps every table constraint |
| Admin.DecideEvent | app/blueprints/admin.py:172-227 | 404 for an unknown event; no change for an invalid form or an event no longer PENDING_APPROVAL; otherwise it moves to APPROVED or REJECTED, the club's applicant is notified once and one audit entry is appended |
| Student.AddOpenApplication | app/blueprints/student.py:112-121 | adding an application when none is open for the pair keeps at most one open application per (club, user) |
| Student.ApplyMembership | app/blueprints/student.py:97-131 | 404 unless the club is APPROVED; refused with an active membership; refused with a PENDING or APPROVED application; otherwise exactly one PENDING application is added |
| Student.NewClubApplicationRow | app/models.py:158-160 | a new club application starts PENDING and undecided |
| Student.AddPendingClubApplication | app/blueprints/student.py:151-156 | adding one for a student with none pending keeps at most one PENDING club application per student |
| Student.NewClubApplication | app/blueprints/student.py:146-170 | no change for an invalid form or when the student already has a PENDING application; otherwise exactly one PENDING application is added |
| Student.InviteKeepsTablesValid | app/blueprints/student.py:215-221 | a new INVITED invitation for a student not yet invited keeps every table constraint |
| Student.InviteFounder | app/blueprints/student.py:185-231 | 404 unless the caller owns the application; refused once it is no longer PENDING, for a blank e-mail, for an address that is not an existing STUDENT and for a student already invited; otherwise one INVITED invitation and one notice to the invited student are added |
| Student.RemoveFounder | app/blueprints/student.py:234-248 | 404 unless the caller owns the application and the invitation belongs to it; 403 unless the application is PENDING; otherwise exactly that invitation is deleted |
| Student.RespondToInvite | app/blueprints/student.py:261-308 | only the invited student, only from INVITED: the status and response time are set and the applicant is notified once |
| Student.RegisterKeepsWithinCapacity | app/blueprints/student.py:353-370 | registering into an event that is not full keeps every count within capacity and raises that event's count by one |
| Student.CancelKeepsWithinCapacity | app/blueprints/student.py:381-389 | cancelling a REGISTERED row keeps every count within capacity and lowers that event's count by one |
| Student.RegisterKeepsTablesValid | app/blueprints/student.py:364-370 | reusing the student's row or inserting one keeps every table constraint and adds one to the count |
| Student.RegisterEvent | app/blueprints/student.py:342-374 | in order: 404 unless APPROVED, refused after the deadline, refused after the start (a time equal to either is accepted), refused when full, refused when already registered; otherwise the student's row is reused (REGISTERED, new time, no cancellation) or inserted, and the count rises by one |
| Student.CancelEvent | app/blueprints/student.py:377-392 | 404 without a row; an already-cancelled row is unchanged; otherwise the row becomes CANCELLED with the time set and the count falls by one |
| Student.NotificationIdArg | app/blueprints/student.py:400-401 | an id is read exactly when the argument is all digits |
| Student.NotificationIdRoundTrip | app/blueprints/student.py:400-401 | the decimal text of an id reads back as that id |
| Student.MarkRead | app/blueprints/student.py:400-405 | the length is kept; only the named notification can change, and only when the caller owns it; only its read flag changes, and it ends read |
| Student.MarkReadIdempotent | app/blueprints/student.py:400-405 | marking the same notification twice is marking it once |
| Student.MarkReadOnlyOwnNotes | app/blueprints/student.py:400-405 | another user's notification is never changed |
| Student.MarkNotificationRead | app/blueprints/student.py:395-406 | for a student the notification log becomes the marked log and the answer is the same whether or not a notice changed; only the notification log can change |
| Seed.SlugifyIsSlug | scripts/seed.py:45-46 | the slug holds only `a-z`, `0-9` and `.`, is never empty, has no leading or trailing dot and no two dots in a row |
| Seed.SlugifyFallback | scripts/seed.py:47 | input without an ASCII letter or digit gives `club` |
| Seed.SlugifyKeepsSlug | scripts/seed.py:44-47 | a string that is already a slug is its own slug |
| Seed.SlugifyIdempotent | scripts/seed.py:44-47 | slugifying twice is slugifying once |

## Left out

- Templates, `flash` messages, `redirect`/`url_for` targets and error pages. A route answers an `Outcome` instead.
- Read-only routes: dashboards, lists, search, detail and profile pages, logout, and `paginate` and `ilike` queries. Only `get_page`'s parsing of the page argument is modelled.
- Password hashing and checking, and `secrets.token_urlsafe`. They are foreign library calls and randomness, so they are parameters.
- `datetime.utcnow()` and `DateTimeField` parsing. Times are integer seconds.
- Concurrency. The model is sequential, including the check-then-insert at the capacity boundary and the process-global attempt dictionaries.
- Unicode. `lower`, `strip` and `isdigit` are modelled on ASCII only.
- Row ids. They come from one counter shared by all tables; a notification's id is its position in the notification log.
- The database's 64-bit integer range for ids. Ids are unbounded here. In the application, an id beyond 2^63-1 from a URL (`<int:...>`) or from the `notification_id` field makes the database driver raise an error, so the request fails instead of answering 404 or marking nothing. The store is unchanged either way.
- Student.NotificationIdArg and App.LoadUser: do not model the 4300-digit limit of `int()`. An all-digit id longer than that raises in the application and the request fails; here it is read as the number it spells. The store is unchanged either way.
- The WTForms `Email()` format check on the club e-mail and on the founder's address. Only blankness and length are checked there; on the login and registration forms it is the parameter `isEmail`.
- CSRF tokens and the GET requests that only render a form.
- The manager's `club_profile` edit and the `event_registrations` list. Neither is part of this model.
- The configuration file, logging setup and the demo-data generators of scripts/seed.py. Only `slugify` is modelled.
- Admin.DecideEvent: a club whose applicant is unknown cannot receive the event notice, because the notification's user column is not nullable. The commit then fails, so this case is modelled as `Failed` with no change.

## Findings

The routes model the code as written. Each corrected member states the evidently intended behaviour beside it.

| source | as written | input that shows it | evidently intended | confidence | as-written member | corrected member |
|---|---|---|---|---|---|---|
| app/blueprints/auth.py:44-58 | the clash check compares the university id as typed; the stored id is stripped | university id `" S1"` while a user with `"S1"` exists: the check passes, and the insert breaks the unique constraint (a server error instead of the refusal) | compare the stripped id, so the registration is refused | not executed | Auth.Register | Auth.RegistrationKeepsKeysUnique |
| app/blueprints/admin.py:86-108 | a typed club e-mail is stored with its case; manager login lowercases what is typed before the lookup (app/blueprints/manager.py:64) | club e-mail `Chess@clubs.edu`: no typed e-mail ever finds that manager | store the club e-mail lowercased, as the default one already is | not executed | Admin.ApprovedMixedCaseManagerLockedOut | Admin.ApprovedManagerSignsIn |
