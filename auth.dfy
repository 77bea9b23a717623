/**
 * Student and admin sign-in: the per-address login throttle (at most five
 * failed attempts in a sliding five-minute window), sign-in itself, the
 * landing page by role, and account registration.
 */
module Auth {
  import opened Builtins
  import opened Models
  import opened Outcomes
  import opened Forms

  const MaxAttempts: nat := 5
  const WindowSeconds: int := 300

  // ---------------------------------------------------------------- the throttle

  /** `[ts for ts in attempts if ts > window_start]`: the attempts inside the window, in order. */
  function Recent(attempts: seq<int>, windowStart: int): (kept: seq<int>)
    ensures |kept| <= |attempts|
    ensures forall i :: 0 <= i < |kept| ==> kept[i] > windowStart
    ensures forall x :: multiset(kept)[x] == if x > windowStart then multiset(attempts)[x] else 0
  {
    if attempts == [] then []
    else
      assert attempts == [attempts[0]] + attempts[1..];
      (if attempts[0] > windowStart then [attempts[0]] else []) + Recent(attempts[1..], windowStart)
  }

  /** Pruning distributes over an appended attempt list. */
  lemma {:induction false} RecentAppend(a: seq<int>, b: seq<int>, windowStart: int)
    ensures Recent(a + b, windowStart) == Recent(a, windowStart) + Recent(b, windowStart)
    decreases |a|
  {
    if a != [] {
      assert (a + b)[1..] == a[1..] + b;
      RecentAppend(a[1..], b, windowStart);
    } else {
      assert a + b == b;
    }
  }

  /**
   * Pruning at an earlier time and then at a later one is pruning at the later
   * one: the stored, already-pruned list answers later checks exactly as the
   * full history of failures would.
   */
  lemma {:induction false} RecentLater(attempts: seq<int>, earlier: int, later: int)
    requires earlier <= later
    ensures Recent(Recent(attempts, earlier), later) == Recent(attempts, later)
    decreases |attempts|
  {
    if attempts != [] {
      RecentLater(attempts[1..], earlier, later);
      var head: seq<int> := if attempts[0] > earlier then [attempts[0]] else [];
      RecentAppend(head, Recent(attempts[1..], earlier), later);
    }
  }

  /** Once every stored attempt has left the window, nothing is kept and the address is free again. */
  lemma {:induction false} RecentAllExpired(attempts: seq<int>, windowStart: int)
    requires forall i :: 0 <= i < |attempts| ==> attempts[i] <= windowStart
    ensures Recent(attempts, windowStart) == []
    decreases |attempts|
  {
    if attempts != [] {
      RecentAllExpired(attempts[1..], windowStart);
    }
  }

  /**
   * The module-level `LOGIN_ATTEMPTS` dictionary: failed-attempt times by
   * client address. The student login and the manager login each own one.
   */
  class LoginThrottle {
    var attempts: map<string, seq<int>>

    constructor ()
      ensures attempts == map[]
    {
      attempts := map[];
    }

    /** `LOGIN_ATTEMPTS.get(ip, [])`. */
    function Attempts(ip: string): seq<int>
      reads this
    {
      if ip in attempts then attempts[ip] else []
    }

    /**
     * `_rate_limited`: keeps only this address's attempts later than five
     * minutes ago, leaves every other address alone, and reports whether five
     * or more remain.
     */
    method RateLimited(ip: string, now: int) returns (limited: bool)
      modifies this
      ensures attempts == old(attempts)[ip := Recent(old(Attempts(ip)), now - WindowSeconds)]
      ensures limited <==> |Attempts(ip)| >= MaxAttempts
    {
      var kept := Recent(Attempts(ip), now - WindowSeconds);
      attempts := attempts[ip := kept];
      limited := |kept| >= MaxAttempts;
    }

    /** `_record_attempt`: appends the current time to this address's list, creating it if absent. */
    method RecordAttempt(ip: string, now: int)
      modifies this
      ensures attempts == old(attempts)[ip := old(Attempts(ip)) + [now]]
    {
      attempts := attempts[ip := Attempts(ip) + [now]];
    }
  }

  /**
   * Five failures recorded at times still inside the window lock the address
   * whatever else is stored for it.
   */
  lemma FiveRecentFailuresLock(earlier: seq<int>, failures: seq<int>, now: int)
    requires |failures| == MaxAttempts
    requires forall i :: 0 <= i < |failures| ==> failures[i] > now - WindowSeconds
    ensures |Recent(earlier + failures, now - WindowSeconds)| >= MaxAttempts
  {
    RecentAppend(earlier, failures, now - WindowSeconds);
    KeepsAllRecent(failures, now - WindowSeconds);
  }

  lemma {:induction false} KeepsAllRecent(attempts: seq<int>, windowStart: int)
    requires forall i :: 0 <= i < |attempts| ==> attempts[i] > windowStart
    ensures Recent(attempts, windowStart) == attempts
    decreases |attempts|
  {
    if attempts != [] {
      KeepsAllRecent(attempts[1..], windowStart);
    }
  }

  // ---------------------------------------------------------------- sign-in

  /** Where a successful or repeated sign-in lands. */
  datatype Landing = AdminDashboard | StudentDashboard | ManagerDashboard

  /** `_login_redirect`: SKS admins to the admin dashboard, everyone else to the student one. */
  function LoginRedirect(u: User): (to: Landing)
    ensures to == AdminDashboard <==> IsAdmin(u)
    ensures to != ManagerDashboard
  {
    if u.role == SksAdmin then AdminDashboard else StudentDashboard
  }

  /** `request.remote_addr or "unknown"`. */
  function ClientAddress(remoteAddr: Option<string>): (ip: string)
    ensures remoteAddr.Some? && remoteAddr.value != [] ==> ip == remoteAddr.value
    ensures remoteAddr.None? || remoteAddr.value == [] ==> ip == "unknown"
  {
    if remoteAddr.Some? && remoteAddr.value != [] then remoteAddr.value else "unknown"
  }

  datatype LoginResult =
    | SignedInAlready(to: Landing)
    | FormRejected
    | Throttled
    | InvalidCredentials
    | SignedIn(id: nat, to: Landing)

  /**
   * `LoginForm` (and `ManagerLoginForm`, which has the same validators): a
   * required e-mail of at most 255 characters that `isEmail` accepts, and a
   * required password. `isEmail` stands for WTForms' `Email()` validator.
   */
  predicate LoginFormValid(email: string, password: string, isEmail: string -> bool)
  {
    DataRequired(email) && isEmail(email) && |email| <= 255 && DataRequired(password)
  }

  /** Whether the stored account `k`, if any, accepts this password. */
  predicate Accepts(users: map<nat, User>, k: Option<nat>, password: string, checkPassword: (string, string) -> bool)
  {
    k.Some? && k.value in users && users[k.value].isActive && checkPassword(users[k.value].passwordHash, password)
  }

  /**
   * `login`: a signed-in caller is sent on; a form that fails validation is
   * shown again without touching the throttle; a throttled address is refused
   * before the account is looked up and without recording anything; otherwise
   * the lower-cased e-mail must name an active account whose password matches,
   * and every other outcome records exactly one failed attempt.
   * `checkPassword(hash, password)` stands for `check_password_hash`.
   */
  method Login(db: Db, throttle: LoginThrottle, caller: Option<Principal>, remoteAddr: Option<string>,
               email: string, password: string, isEmail: string -> bool,
               checkPassword: (string, string) -> bool, now: int)
    returns (r: LoginResult)
    requires db.Valid()
    modifies throttle
    ensures caller.Some? || !LoginFormValid(email, password, isEmail) ==> unchanged(throttle)
    ensures caller.Some? ==> r == SignedInAlready(
      if caller.value.UserPrincipal? then LoginRedirect(caller.value.user) else ManagerDashboard)
    ensures caller.None? && !LoginFormValid(email, password, isEmail) ==> r == FormRejected
    ensures caller.None? && LoginFormValid(email, password, isEmail) ==>
      var ip := ClientAddress(remoteAddr);
      var kept := Recent(old(throttle.Attempts(ip)), now - WindowSeconds);
      var k := UserWithEmail(db.tables.users, Lower(email));
      if |kept| >= MaxAttempts then
        r == Throttled && throttle.attempts == old(throttle.attempts)[ip := kept]
      else if Accepts(db.tables.users, k, password, checkPassword) then
        r == SignedIn(k.value, LoginRedirect(db.tables.users[k.value])) && throttle.attempts == old(throttle.attempts)[ip := kept]
      else
        r == InvalidCredentials && throttle.attempts == old(throttle.attempts)[ip := kept + [now]]
  {
    if caller.Some? {
      return SignedInAlready(if caller.value.UserPrincipal? then LoginRedirect(caller.value.user) else ManagerDashboard);
    }
    var ip := ClientAddress(remoteAddr);
    if !LoginFormValid(email, password, isEmail) {
      return FormRejected;
    }
    var limited := throttle.RateLimited(ip, now);
    if limited {
      return Throttled;
    }
    var address := Lower(email);
    if k :| k in db.tables.users && db.tables.users[k].email == address {
      var u := db.tables.users[k];
      if u.isActive && checkPassword(u.passwordHash, password) {
        return SignedIn(k, LoginRedirect(u));
      }
    }
    throttle.RecordAttempt(ip, now);
    return InvalidCredentials;
  }

  // ---------------------------------------------------------------- registration

  /** A student number is stored stripped of surrounding white space. */
  function StoredUniversityId(universityId: string): string
  {
    Strip(universityId)
  }

  /** Registration is refused when an account already has this e-mail or this (stored) student number. */
  predicate RegistrationClash(users: map<nat, User>, email: string, universityId: string)
  {
    exists k :: k in users && (users[k].email == email || users[k].universityId == Some(StoredUniversityId(universityId)))
  }

  /** The check `register` actually makes: it compares the student number as typed, before stripping. */
  predicate RegistrationClashAsWritten(users: map<nat, User>, email: string, universityId: string)
  {
    exists k :: k in users && (users[k].email == email || users[k].universityId == Some(universityId))
  }

  /**
   * `RegisterForm`: required name and surname of at most 120 characters, a
   * required student number of at most 50, a required e-mail of at most 255
   * that `isEmail` accepts, a required password of at least 8 characters and
   * a required confirmation equal to it.
   */
  predicate RegisterFormValid(name: string, surname: string, universityId: string, email: string,
                              password: string, confirm: string, isEmail: string -> bool)
  {
    && DataRequired(name) && |name| <= 120
    && DataRequired(surname) && |surname| <= 120
    && DataRequired(universityId) && |universityId| <= 50
    && DataRequired(email) && isEmail(email) && |email| <= 255
    && DataRequired(password) && |password| >= 8
    && DataRequired(confirm) && confirm == password
  }

  /** The account `register` creates. */
  function NewStudent(name: string, surname: string, universityId: string, email: string, passwordHash: string, now: int): User
  {
    User(Student, Strip(name), Strip(surname), Some(StoredUniversityId(universityId)), email, passwordHash, true, now)
  }

  /** With the stored number checked, adding the new account keeps e-mails and student numbers unique. */
  lemma RegistrationKeepsKeysUnique(users: map<nat, User>, newId: nat, name: string, surname: string,
                                    universityId: string, email: string, passwordHash: string, now: int)
    requires UniqueUserKeys(users) && newId !in users
    requires !RegistrationClash(users, email, universityId)
    ensures UniqueUserKeys(users[newId := NewStudent(name, surname, universityId, email, passwordHash, now)])
  {
    var u := NewStudent(name, surname, universityId, email, passwordHash, now);
    var after := users[newId := u];
    forall i, j | i in after && j in after && i != j
      ensures after[i].email != after[j].email &&
              (after[i].universityId.Some? ==> after[i].universityId != after[j].universityId)
    {
      if i == newId {
        assert !(users[j].email == email || users[j].universityId == Some(StoredUniversityId(universityId)));
      } else if j == newId {
        assert !(users[i].email == email || users[i].universityId == Some(StoredUniversityId(universityId)));
      }
    }
  }

  /**
   * When the e-mail or the stored student number is taken, inserting the new
   * account breaks the unique columns: the commit fails.
   */
  lemma ClashBreaksKeys(users: map<nat, User>, newId: nat, name: string, surname: string,
                        universityId: string, email: string, passwordHash: string, now: int)
    requires newId !in users && RegistrationClash(users, email, universityId)
    ensures !UniqueUserKeys(users[newId := NewStudent(name, surname, universityId, email, passwordHash, now)])
  {
    var k :| k in users && (users[k].email == email || users[k].universityId == Some(StoredUniversityId(universityId)));
    var after := users[newId := NewStudent(name, surname, universityId, email, passwordHash, now)];
    assert after[k] == users[k] && k != newId && k in after && newId in after;
    assert !(after[k].email != after[newId].email &&
             (after[k].universityId.Some? ==> after[k].universityId != after[newId].universityId));
  }

  /**
   * The check as written lets a padded student number through although the
   * stored, stripped number is taken, so the insert breaks the unique column.
   */
  lemma PaddedUniversityIdSlipsThrough()
    ensures var users := map[1 := User(Student, "Ada", "Lovelace", Some("S1"), "ada@example.com", "h", true, 0)];
      && UniqueUserKeys(users)
      && !RegistrationClashAsWritten(users, "bob@example.com", " S1")
      && !UniqueUserKeys(users[2 := NewStudent("Bob", "Smith", " S1", "bob@example.com", "h", 0)])
  {
    var padded := " S1";
    assert StripLeading(padded, IsSpace) == StripLeading("S1", IsSpace) == "S1";
    assert StripTrailing("S1", IsSpace) == "S1";
    assert StoredUniversityId(padded) == "S1";
    var users := map[1 := User(Student, "Ada", "Lovelace", Some("S1"), "ada@example.com", "h", true, 0)];
    var after := users[2 := NewStudent("Bob", "Smith", padded, "bob@example.com", "h", 0)];
    assert after[1].universityId == after[2].universityId;
    assert Some("S1") != Some(padded) by { assert "S1"[0] != padded[0]; }
    assert "ada@example.com" != "bob@example.com" by { assert "ada@example.com"[0] != "bob@example.com"[0]; }
  }

  /**
   * `register`: a signed-in caller is sent on; a form that fails validation
   * writes nothing; an e-mail or a student number (as typed) already in use
   * is refused with nothing written. A typed number that only matches once
   * stripped passes that check, and the insert then fails at commit on the
   * unique column (`Failed`, nothing written). Otherwise exactly one active
   * STUDENT account is added. `hashOf` stands for `generate_password_hash`.
   */
  method Register(db: Db, caller: Option<Principal>, name: string, surname: string, universityId: string,
                  email: string, password: string, confirm: string, isEmail: string -> bool,
                  hashOf: string -> string, now: int) returns (r: Outcome)
    requires db.Valid()
    modifies db
    ensures db.Valid()
    ensures r != Ok ==> unchanged(db)
    ensures var users := old(db.tables.users);
      if caller.Some? then r == Refused(AlreadySignedIn)
      else if !RegisterFormValid(name, surname, universityId, email, password, confirm, isEmail) then r == Refused(InvalidForm)
      else if RegistrationClashAsWritten(users, Lower(email), universityId) then r == Refused(EmailOrUniversityIdTaken)
      else if RegistrationClash(users, Lower(email), universityId) then r == Failed
      else r == Ok
    ensures r == Failed ==>
      var t := old(db.tables);
      !UniqueUserKeys(t.users[t.nextId := NewStudent(name, surname, universityId, Lower(email), hashOf(password), now)])
    ensures r == Ok ==>
      && db.tables == old(db.tables).(
           users := old(db.tables.users)[old(db.tables.nextId) := NewStudent(name, surname, universityId, Lower(email), hashOf(password), now)],
           nextId := old(db.tables.nextId) + 1)
      && unchanged(db`notifications, db`auditLog)
  {
    if caller.Some? {
      return Refused(AlreadySignedIn);
    }
    if !RegisterFormValid(name, surname, universityId, email, password, confirm, isEmail) {
      return Refused(InvalidForm);
    }
    var address := Lower(email);
    if RegistrationClashAsWritten(db.tables.users, address, universityId) {
      return Refused(EmailOrUniversityIdTaken);
    }
    var t := db.tables;
    if RegistrationClash(t.users, address, universityId) {
      ClashBreaksKeys(t.users, t.nextId, name, surname, universityId, address, hashOf(password), now);
      return Failed;
    }
    RegistrationKeepsKeysUnique(t.users, t.nextId, name, surname, universityId, address, hashOf(password), now);
    db.tables := t.(users := t.users[t.nextId := NewStudent(name, surname, universityId, address, hashOf(password), now)],
                    nextId := t.nextId + 1);
    r := Ok;
  }
}
