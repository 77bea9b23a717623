/**
 * What a route does with a request, with the redirects, flashes and error
 * pages left out: it commits (`Ok`), sends an anonymous caller to a login page,
 * aborts with 403 or 404, refuses with a flashed reason and no commit, or its
 * commit is rejected by the database.
 */
module Outcomes {

  /** The flashed reason of a refusal; nothing is committed. */
  datatype Refusal =
    | InvalidForm
    | AlreadySignedIn
    | EmailOrUniversityIdTaken
    | AlreadyDecided
    | ClubNameTaken
    | ClubEmailTaken
    | AlreadyMember
    | OpenApplicationExists
    | PendingClubApplicationExists
    | FoundersLocked
    | StudentNotFound
    | AlreadyInvited
    | AlreadyResponded
    | DeadlinePassed
    | EventStarted
    | EventFull
    | AlreadyRegistered
    | AlreadyCancelled

  datatype Outcome =
    | Ok
    | Unauthenticated
    | Forbidden
    | NotFound
    | Refused(why: Refusal)
    | Failed
}
