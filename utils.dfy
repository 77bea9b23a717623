/**
 * The shared helpers: the two append-only logs every workflow writes to, and
 * the tolerant reading of the `page` query argument.
 */
module Utils {
  import opened Builtins
  import opened Models

  /** `create_notification`: adds one unread notice and touches nothing else. */
  method CreateNotification(db: Db, userId: nat, kind: NotificationType, title: string, body: string,
                            relatedType: Option<string>, relatedId: Option<nat>, now: int)
    modifies db`notifications
    ensures db.notifications == old(db.notifications) + [Notification(userId, kind, title, body, false, now, relatedType, relatedId)]
  {
    db.notifications := db.notifications + [Notification(userId, kind, title, body, false, now, relatedType, relatedId)];
  }

  /** `log_audit`: adds one entry stamped with the current time and touches nothing else. */
  method LogAudit(db: Db, actorType: AuditActorType, actorId: nat, action: string, objectType: string,
                  objectId: nat, details: Option<string>, now: int)
    modifies db`auditLog
    ensures db.auditLog == old(db.auditLog) + [AuditEntry(actorType, actorId, action, objectType, objectId, details, now)]
  {
    db.auditLog := db.auditLog + [AuditEntry(actorType, actorId, action, objectType, objectId, details, now)];
  }

  /**
   * `get_page`: the integer the `page` argument spells, or the default when the
   * argument is absent or `int` rejects it.
   */
  function GetPage(page: Option<string>, default: int): (r: int)
    ensures page.None? ==> r == default
    ensures page.Some? ==> ParseInt(page.value) == Some(r) || (ParseInt(page.value).None? && r == default)
  {
    match page
    case None => default
    case Some(text) =>
      match ParseInt(text)
      case Some(n) => n
      case None => default
  }

  /** Any page number written the way `str` writes it, within the digit limit, is read back exactly. */
  lemma GetPageReadsNumber(n: int, default: int)
    requires |NatToString(if n < 0 then -n else n)| <= MaxStrDigits
    ensures GetPage(Some(IntToString(n)), default) == n
  {
    ParseIntRoundTrip(n);
  }

  /** A page number with a `_` between its digits, such as `1_0`, is read as the number without it. */
  lemma GetPageReadsSeparatedDigits(a: string, b: string, default: int)
    requires IsDigits(a) && IsDigits(b) && |a| + |b| <= MaxStrDigits
    ensures GetPage(Some(a + "_" + b), default) == DigitsValue(a + b)
  {
    SeparatorKeepsValue(a, b);
  }

  /** A page number longer than the digit limit makes `int()` raise, so the default page is shown. */
  lemma GetPageTooManyDigits(d: string, default: int)
    requires IsDigits(d) && |d| > MaxStrDigits
    ensures GetPage(Some(d), default) == default
  {
    TooManyDigitsRejected(d);
  }
}
