/**
 * The logic of the club-manager forms: required text fields, the choice of
 * a membership decision and the event proposal's checks on its times and
 * capacity. Times are seconds; a missing field is `None`.
 */
module Forms {
  import opened Builtins

  /** A field holding at least one character that is not whitespace. */
  ghost predicate HasText(field: string)
  {
    exists i :: 0 <= i < |field| && !IsSpace(field[i])
  }

  /** `DataRequired()` on a text field: it fails when the field is empty or only whitespace. */
  function DataRequired(field: string): (ok: bool)
    ensures ok <==> HasText(field)
  {
    StripBlank(field);
    Strip(field) != []
  }

  /** `AnnouncementForm`: a required title of at most 200 characters and a required body. */
  predicate AnnouncementFormValid(title: string, body: string)
  {
    DataRequired(title) && |title| <= 200 && DataRequired(body)
  }

  /** The text fields of `EventProposalForm`: title and location required and at most 200 characters, description required. */
  predicate EventTextValid(title: string, description: string, location: string)
  {
    DataRequired(title) && |title| <= 200 && DataRequired(description)
    && DataRequired(location) && |location| <= 200
  }

  /** The two choices of a decision form. */
  datatype Decision = Approve | Reject

  /** The `decision` select field: exactly `approve` or `reject`, anything else fails validation. */
  function ParseDecision(choice: string): (d: Option<Decision>)
    ensures d == Some(Approve) <==> choice == "approve"
    ensures d == Some(Reject) <==> choice == "reject"
  {
    if choice == "approve" then Some(Approve)
    else if choice == "reject" then Some(Reject)
    else None
  }

  /** `validate_end_datetime`: fails only when both times are present and the end is not after the start. */
  predicate EndAfterStart(start: Option<int>, end: Option<int>)
  {
    !(start.Some? && end.Some? && end.value <= start.value)
  }

  /** `validate_registration_deadline`: fails only when both are present and the deadline is not before the start. */
  predicate DeadlineBeforeStart(start: Option<int>, deadline: Option<int>)
  {
    !(start.Some? && deadline.Some? && deadline.value >= start.value)
  }

  /** `Optional(), NumberRange(min=1)` on the capacity. */
  predicate CapacityInRange(capacity: Option<int>)
  {
    capacity.None? || capacity.value >= 1
  }

  /** The submitted times and capacity of an event proposal. */
  datatype EventTimes = EventTimes(start: Option<int>, end: Option<int>, capacity: Option<int>, deadline: Option<int>)

  /**
   * The proposal passes: start and end are required, the end comes strictly
   * after the start, a deadline comes strictly before the start, and a
   * capacity is at least one.
   */
  function ValidEventTimes(f: EventTimes): (ok: bool)
    ensures ok <==>
      && f.start.Some? && f.end.Some?
      && f.start.value < f.end.value
      && (f.deadline.Some? ==> f.deadline.value < f.start.value)
      && (f.capacity.Some? ==> f.capacity.value > 0)
  {
    f.start.Some? && f.end.Some?
    && EndAfterStart(f.start, f.end) && DeadlineBeforeStart(f.start, f.deadline) && CapacityInRange(f.capacity)
  }

  /** Each validator has nothing to say when the start or its own field is missing. */
  lemma ValidatorsSkipMissing(start: Option<int>, other: Option<int>)
    requires start.None? || other.None?
    ensures EndAfterStart(start, other) && DeadlineBeforeStart(start, other)
  {
  }

  /**
   * For a proposal that passed, anyone still within the registration deadline
   * is also before the start, so the registration route's start check never
   * refuses a caller its deadline check admitted.
   */
  lemma WithinDeadlineIsBeforeStart(f: EventTimes, now: int)
    requires ValidEventTimes(f) && f.deadline.Some? && now <= f.deadline.value
    ensures now < f.start.value
  {
  }
}
