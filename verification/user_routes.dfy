/**
 * The account routes behind `auth`: profile update, password change and
 * self-deletion for the signed-in account, and the admin-only list, status
 * update and delete behind `auth` and `requireAdmin`.
 *
 * A `:userId` path parameter arrives as text. The status route hands it to the
 * store's id cast (`IdSyntax.cast`), which yields `None` for text that is not
 * a well-formed id and makes the handler answer 500; the delete route first
 * compares the text with the admin's own id, and casts it afterwards.
 */
module UserRoutes {
  import opened Accounts
  import opened Replies
  import opened Guards
  import Session
  import Lifecycle
  import V = Validation

  /** A body field JavaScript treats as true in `if (x)`: present and not the empty string. */
  predicate Truthy(x: Option<string>) {
    x.Some? && x.value != ""
  }

  /** The new state of a single record: every other record, the key set and `nextId` stay. */
  ghost predicate OnlyRecordChanged(s: Store, s': Store, i: Id, b: Account) {
    && i in s.accounts
    && s'.nextId == s.nextId
    && s'.accounts == s.accounts[i := b]
  }

  // The signed-in account's own routes

  /**
   * `PUT /profile`: a truthy `name` is trimmed and stored, an `avatar` that is
   * present is stored as given; with neither the request is refused with 400.
   * Nothing else about the account can change through this route.
   */
  function UpdateProfile(s: Store, me: Id, name: Option<string>, avatar: Option<string>): (r: Step<Reply>)
    requires me in s.accounts
    ensures !Truthy(name) && avatar.None? <==> r.result.Err?
    ensures r.result.Err? ==> r == Step(s, Err(400, NothingToUpdate))
    ensures r.result.Ok? ==> me in r.store.accounts
    ensures r.result.Ok? ==>
      var a := s.accounts[me];
      var b := r.store.accounts[me];
      && r.result == Ok(200, ProfileUpdated(me))
      && OnlyRecordChanged(s, r.store, me, b)
      && b.name == (if Truthy(name) then V.Trim(name.value) else a.name)
      && b.avatar == (if avatar.Some? then avatar.value else a.avatar)
      && b == a.(name := b.name, avatar := b.avatar)
  {
    if !Truthy(name) && avatar.None? then Step(s, Err(400, NothingToUpdate))
    else
      var a := s.accounts[me];
      var named := if Truthy(name) then a.(name := V.Trim(name.value)) else a;
      var updated := if avatar.Some? then named.(avatar := avatar.value) else named;
      Step(Put(s, me, updated), Ok(200, ProfileUpdated(me)))
  }

  /**
   * `PUT /change-password`: both fields must be truthy, and the current one
   * must match the stored digest; the new password is stored hashed. The new
   * password is not checked against the password rules.
   */
  function ChangePassword(
    s: Store, me: Id, current: Option<string>, next: Option<string>, h: Hasher
  ): (r: Step<Reply>)
    requires me in s.accounts
    ensures r.result.Err? ==> r.store == s
    ensures !Truthy(current) || !Truthy(next) ==> r.result == Err(400, PasswordsRequired)
    ensures Truthy(current) && Truthy(next) && !PasswordMatches(h, current.value, s.accounts[me].password) ==>
      r.result == Err(400, WrongCurrentPassword)
    ensures r.result.Ok? <==>
      Truthy(current) && Truthy(next) && PasswordMatches(h, current.value, s.accounts[me].password)
    ensures r.result.Ok? ==>
      && r.result == Ok(200, PasswordChanged)
      && OnlyRecordChanged(s, r.store, me, s.accounts[me].(password := Some(h.hash(next.value))))
  {
    if !Truthy(current) || !Truthy(next) then Step(s, Err(400, PasswordsRequired))
    else
      var a := s.accounts[me];
      if !PasswordMatches(h, current.value, a.password) then Step(s, Err(400, WrongCurrentPassword))
      else Step(Put(s, me, a.(password := Some(h.hash(next.value)))), Ok(200, PasswordChanged))
  }

  /** `DELETE /account`: the signed-in account is removed and nothing else. */
  function DeleteAccount(s: Store, me: Id): (r: Step<Reply>)
    ensures r.result == Ok(200, AccountDeleted)
    ensures me !in r.store.accounts && r.store.nextId == s.nextId
    ensures forall j :: j in s.accounts && j != me ==> j in r.store.accounts && r.store.accounts[j] == s.accounts[j]
    ensures r.store.accounts.Keys <= s.accounts.Keys
  {
    Step(Remove(s, me), Ok(200, AccountDeleted))
  }

  // The admin routes

  /** `GET /all`: reads only. The listing's projection is not part of this model. */
  function ListUsers(s: Store): Step<Reply> {
    Step(s, Ok(200, UserList))
  }

  /**
   * `PUT /:userId/status`: `isActive` is applied when present and `role`
   * when truthy. An empty update still answers 200 for an existing account.
   */
  function UpdateStatus(s: Store, target: Option<Id>, isActive: Option<bool>, role: Option<string>): (r: Step<Reply>)
    ensures target.None? ==> r == Step(s, ServerFault)
    ensures target.Some? && target.value !in s.accounts ==> r == Step(s, Err(404, UserNotFound))
    ensures target.Some? && target.value in s.accounts ==> target.value in r.store.accounts
    ensures target.Some? && target.value in s.accounts ==>
      var a := s.accounts[target.value];
      var b := r.store.accounts[target.value];
      && r.result == Ok(200, StatusUpdated(target.value))
      && OnlyRecordChanged(s, r.store, target.value, b)
      && b.isActive == (if isActive.Some? then isActive.value else a.isActive)
      && b.role == (if Truthy(role) then role.value else a.role)
      && b == a.(isActive := b.isActive, role := b.role)
  {
    match target
    case None => Step(s, ServerFault)
    case Some(i) =>
      if i !in s.accounts then Step(s, Err(404, UserNotFound))
      else
        var a := s.accounts[i];
        var activated := if isActive.Some? then a.(isActive := isActive.value) else a;
        var updated := if Truthy(role) then activated.(role := role.value) else activated;
        Step(Put(s, i, updated), Ok(200, StatusUpdated(i)))
  }

  /**
   * `DELETE /:userId`: the path text is first compared with the admin's own
   * id as `toString()` spells it, and only then cast to an id. So the admin's
   * own account is protected from its canonical spelling only.
   */
  function DeleteUser(s: Store, me: Id, userId: string, ids: IdSyntax): (r: Step<Reply>)
    ensures userId == ids.spell(me) ==> r == Step(s, Err(400, CannotDeleteSelf))
    ensures userId != ids.spell(me) && ids.cast(userId).None? ==> r == Step(s, ServerFault)
    ensures userId != ids.spell(me) && ids.cast(userId).Some? && ids.cast(userId).value !in s.accounts ==>
      r == Step(s, Err(404, UserNotFound))
    ensures r.result.Ok? <==>
      userId != ids.spell(me) && ids.cast(userId).Some? && ids.cast(userId).value in s.accounts
    ensures r.result.Ok? ==>
      && r.result == Ok(200, UserDeleted)
      && r.store.accounts == s.accounts - {ids.cast(userId).value}
      && r.store.nextId == s.nextId
  {
    if userId == ids.spell(me) then Step(s, Err(400, CannotDeleteSelf))
    else match ids.cast(userId)
      case None => Step(s, ServerFault)
      case Some(i) =>
        if i !in s.accounts then Step(s, Err(404, UserNotFound))
        else Step(Remove(s, i), Ok(200, UserDeleted))
  }

  // The route chains

  datatype SelfAction =
    | EditProfile(name: Option<string>, avatar: Option<string>)
    | NewPassword(current: Option<string>, next: Option<string>)
    | CloseAccount

  datatype AdminAction =
    | ListAll
    | SetStatus(userId: string, isActive: Option<bool>, role: Option<string>)
    | DeleteOne(userId: string)

  /** `auth`, then the handler for the signed-in account. */
  function SelfRoute(
    s: Store, header: Option<string>, decode: string -> Option<Session.SignedToken>, secret: string, now: Time,
    h: Hasher, act: SelfAction
  ): (r: Step<Reply>)
    ensures Authenticate(s, header, decode, secret, now).Refused? ==>
      var d := Authenticate(s, header, decode, secret, now);
      r == Step(s, Err(d.status, d.error))
    ensures Authenticate(s, header, decode, secret, now).Admitted? ==>
      var me := Authenticate(s, header, decode, secret, now).user;
      r == match act
        case EditProfile(name, avatar) => UpdateProfile(s, me, name, avatar)
        case NewPassword(current, next) => ChangePassword(s, me, current, next, h)
        case CloseAccount => DeleteAccount(s, me)
  {
    match Authenticate(s, header, decode, secret, now)
    case Refused(status, error) => Step(s, Err(status, error))
    case Admitted(me) =>
      match act
      case EditProfile(name, avatar) => UpdateProfile(s, me, name, avatar)
      case NewPassword(current, next) => ChangePassword(s, me, current, next, h)
      case CloseAccount => DeleteAccount(s, me)
  }

  /** `auth`, `requireAdmin`, then the admin handler; `:userId` is read through `ids`. */
  function AdminRoute(
    s: Store, header: Option<string>, decode: string -> Option<Session.SignedToken>, secret: string, now: Time,
    ids: IdSyntax, act: AdminAction
  ): (r: Step<Reply>)
    ensures Authenticate(s, header, decode, secret, now).Refused? ==>
      var d := Authenticate(s, header, decode, secret, now);
      r == Step(s, Err(d.status, d.error))
    ensures var d := Authenticate(s, header, decode, secret, now);
      d.Admitted? && s.accounts[d.user].role != AdminRole ==> r == Step(s, Err(403, AdminRequired))
    ensures var d := Authenticate(s, header, decode, secret, now);
      d.Admitted? && s.accounts[d.user].role == AdminRole ==>
        r == match act
          case ListAll => ListUsers(s)
          case SetStatus(userId, isActive, role) => UpdateStatus(s, ids.cast(userId), isActive, role)
          case DeleteOne(userId) => DeleteUser(s, d.user, userId, ids)
  {
    match Authenticate(s, header, decode, secret, now)
    case Refused(status, error) => Step(s, Err(status, error))
    case Admitted(me) =>
      match RequireAdmin(s.accounts[me])
      case Stop(status, error) => Step(s, Err(status, error))
      case Next =>
        match act
        case ListAll => ListUsers(s)
        case SetStatus(userId, isActive, role) => UpdateStatus(s, ids.cast(userId), isActive, role)
        case DeleteOne(userId) => DeleteUser(s, me, userId, ids)
  }

  /**
   * Only a signed-in, active admin changes anything through the admin routes:
   * everybody else is answered with an error and leaves the store as it was.
   */
  lemma OnlyAdminsMutate(
    s: Store, header: Option<string>, decode: string -> Option<Session.SignedToken>, secret: string, now: Time,
    ids: IdSyntax, act: AdminAction)
    ensures var r := AdminRoute(s, header, decode, secret, now, ids, act);
      var d := Authenticate(s, header, decode, secret, now);
      !(d.Admitted? && s.accounts[d.user].role == AdminRole) ==> r.store == s && r.result.Err?
    ensures var r := AdminRoute(s, header, decode, secret, now, ids, act);
      var d := Authenticate(s, header, decode, secret, now);
      d.Admitted? && s.accounts[d.user].role != AdminRole ==> r.result == Err(403, AdminRequired)
  {
  }

  /**
   * An admin request never removes the admin's own account, provided a
   * `:userId` that names the admin is written the way `toString()` spells it.
   */
  lemma AdminKeepsOwnAccount(
    s: Store, header: Option<string>, decode: string -> Option<Session.SignedToken>, secret: string, now: Time,
    ids: IdSyntax, act: AdminAction)
    requires Authenticate(s, header, decode, secret, now).Admitted?
    requires var me := Authenticate(s, header, decode, secret, now).user;
      act.DeleteOne? && ids.cast(act.userId) == Some(me) ==> act.userId == ids.spell(me)
    ensures Authenticate(s, header, decode, secret, now).user in AdminRoute(s, header, decode, secret, now, ids, act).store.accounts
  {
  }

  /**
   * The self-deletion test compares text, not ids: an admin who writes their
   * own id in another spelling the cast accepts deletes their own account.
   */
  lemma AdminDeletesSelfByOtherSpelling(
    s: Store, header: Option<string>, decode: string -> Option<Session.SignedToken>, secret: string, now: Time,
    ids: IdSyntax, userId: string)
    requires Authenticate(s, header, decode, secret, now).Admitted?
    requires var me := Authenticate(s, header, decode, secret, now).user;
      s.accounts[me].role == AdminRole && ids.cast(userId) == Some(me) && userId != ids.spell(me)
    ensures var me := Authenticate(s, header, decode, secret, now).user;
      var r := AdminRoute(s, header, decode, secret, now, ids, DeleteOne(userId));
      r.result == Ok(200, UserDeleted) && me !in r.store.accounts
  {
  }

  // How the routes interact with later sign-ins

  /** Deactivating an account shuts out its still-valid sessions on the next request. */
  lemma DeactivationTakesEffect(
    s: Store, i: Id, role: Option<string>, header: Option<string>,
    decode: string -> Option<Session.SignedToken>, secret: string, now: Time)
    requires i in s.accounts
    requires var t := ExtractToken(header);
      t.Some? && t.value != "" && Session.Verify(decode(t.value), secret, now) == Some(i)
    ensures var s' := UpdateStatus(s, Some(i), Some(false), role).store;
      Authenticate(s', header, decode, secret, now) == Refused(401, AccountDisabled)
  {
  }

  /** After self-deletion a session that was valid is refused: its account is gone. */
  lemma DeletedAccountSessionRefused(
    s: Store, me: Id, header: Option<string>, decode: string -> Option<Session.SignedToken>, secret: string, now: Time)
    requires var t := ExtractToken(header);
      t.Some? && t.value != "" && Session.Verify(decode(t.value), secret, now) == Some(me)
    ensures Authenticate(DeleteAccount(s, me).store, header, decode, secret, now) == Refused(401, UserNotFound)
  {
  }

  /** After a password change, the new password signs in (for an active account). */
  lemma ChangedPasswordSignsIn(
    s: Store, me: Id, current: string, next: string, h: Hasher, secret: string, now: Time)
    requires Consistent(s) && Sound(h)
    requires me in s.accounts && s.accounts[me].isActive
    requires ChangePassword(s, me, Some(current), Some(next), h).result.Ok?
    ensures var s' := ChangePassword(s, me, Some(current), Some(next), h).store;
      Lifecycle.Login(s', s.accounts[me].email, next, h, secret, now).result ==
        Ok(200, LoggedIn(me, Session.Issue(me, now, secret)))
  {
    var s' := ChangePassword(s, me, Some(current), Some(next), h).store;
    ChangePasswordPreservesConsistency(s, me, Some(current), Some(next), h);
    FindOneUnique(s', ByEmail(Some(s.accounts[me].email)), me);
  }

  // Invariants

  lemma UpdateProfilePreservesConsistency(s: Store, me: Id, name: Option<string>, avatar: Option<string>)
    requires Consistent(s) && me in s.accounts
    ensures Consistent(UpdateProfile(s, me, name, avatar).store)
  {
    var r := UpdateProfile(s, me, name, avatar);
    if r.result.Ok? {
      PutPreservesConsistency(s, me, r.store.accounts[me]);
    }
  }

  lemma ChangePasswordPreservesConsistency(s: Store, me: Id, current: Option<string>, next: Option<string>, h: Hasher)
    requires Consistent(s) && me in s.accounts
    ensures Consistent(ChangePassword(s, me, current, next, h).store)
  {
    var r := ChangePassword(s, me, current, next, h);
    if r.result.Ok? {
      PutPreservesConsistency(s, me, r.store.accounts[me]);
    }
  }

  lemma UpdateStatusPreservesConsistency(s: Store, target: Option<Id>, isActive: Option<bool>, role: Option<string>)
    requires Consistent(s)
    ensures Consistent(UpdateStatus(s, target, isActive, role).store)
  {
    var r := UpdateStatus(s, target, isActive, role);
    if r.result.Ok? {
      PutPreservesConsistency(s, target.value, r.store.accounts[target.value]);
    }
  }

  lemma DeletionsPreserveConsistency(s: Store, me: Id, userId: string, ids: IdSyntax)
    requires Consistent(s)
    ensures Consistent(DeleteAccount(s, me).store)
    ensures Consistent(DeleteUser(s, me, userId, ids).store)
  {
    RemovePreservesConsistency(s, me);
    if ids.cast(userId).Some? {
      RemovePreservesConsistency(s, ids.cast(userId).value);
    }
  }

  /** No account route hands out a verification or reset token, so distinct tokens stay distinct. */
  lemma UpdateProfileKeepsTokensDistinct(s: Store, me: Id, name: Option<string>, avatar: Option<string>)
    requires TokensDistinct(s.accounts) && me in s.accounts
    ensures TokensDistinct(UpdateProfile(s, me, name, avatar).store.accounts)
  {
    var r := UpdateProfile(s, me, name, avatar);
    if r.result.Ok? {
      PutKeepsTokensDistinct(s, me, r.store.accounts[me]);
    }
  }

  lemma ChangePasswordKeepsTokensDistinct(s: Store, me: Id, current: Option<string>, next: Option<string>, h: Hasher)
    requires TokensDistinct(s.accounts) && me in s.accounts
    ensures TokensDistinct(ChangePassword(s, me, current, next, h).store.accounts)
  {
    var r := ChangePassword(s, me, current, next, h);
    if r.result.Ok? {
      PutKeepsTokensDistinct(s, me, r.store.accounts[me]);
    }
  }

  lemma UpdateStatusKeepsTokensDistinct(s: Store, target: Option<Id>, isActive: Option<bool>, role: Option<string>)
    requires TokensDistinct(s.accounts)
    ensures TokensDistinct(UpdateStatus(s, target, isActive, role).store.accounts)
  {
    var r := UpdateStatus(s, target, isActive, role);
    if r.result.Ok? {
      PutKeepsTokensDistinct(s, target.value, r.store.accounts[target.value]);
    }
  }

  lemma DeletionsKeepTokensDistinct(s: Store, me: Id, userId: string, ids: IdSyntax)
    requires TokensDistinct(s.accounts)
    ensures TokensDistinct(DeleteAccount(s, me).store.accounts)
    ensures TokensDistinct(DeleteUser(s, me, userId, ids).store.accounts)
  {
  }
}
