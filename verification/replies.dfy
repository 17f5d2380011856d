/** The HTTP answers the handlers and middleware give: a status and either a result or an error kind. */
module Replies {
  import opened Accounts
  import Session
  import Validation

  datatype ErrorKind =
    | ValidationFailed(details: seq<Validation.FieldError>)
    | EmailTaken
    | BadCredentials
    | AccountDisabled
    | TokenRequired
    | TokenInvalidOrExpired
    | UserNotFound
    | AlreadyVerified
    | MailFailed
    | ServerError
    | NoToken
    | InvalidToken
    | VerificationRequired
    | AdminRequired
    | NothingToUpdate
    | PasswordsRequired
    | WrongCurrentPassword
    | CannotDeleteSelf

  datatype Notice =
    | Registered(user: Id, mailSent: bool)
    | LoggedIn(user: Id, token: Session.SignedToken)
    | EmailVerified(user: Id)
    | VerificationResent
    | ResetMailSent
    | ResetMailIfRegistered
    | PasswordReset
    | ProfileUpdated(user: Id)
    | PasswordChanged
    | AccountDeleted
    | UserList
    | StatusUpdated(user: Id)
    | UserDeleted

  datatype Reply = Ok(status: nat, notice: Notice) | Err(status: nat, error: ErrorKind)

  /** The catch-all `500 Server error` of every handler's `catch` block. */
  const ServerFault: Reply := Err(500, ServerError)

  /** A middleware's decision: call `next()`, or answer now. */
  datatype Gate = Next | Stop(status: nat, error: ErrorKind)
}
