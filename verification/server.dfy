/**
 * The running server's account collection, updated in place by the route
 * handlers. Each handler is a method that reads and writes the collection
 * step by step, as the handler does through the store, and is proved to
 * leave exactly the state and answer the matching function of the model
 * describes, keeping the store consistent.
 */
module Server {
  import opened Accounts
  import opened Replies
  import Session
  import V = Validation
  import OAuth
  import Lifecycle
  import Guards
  import UserRoutes

  class AccountStore {
    var accounts: map<Id, Account>
    var nextId: Id

    ghost predicate WellFormed()
      reads this
    {
      forall i :: i in accounts ==> i < nextId
    }

    function View(): Store
      reads this
      requires WellFormed()
    {
      StoreState(accounts, nextId)
    }

    ghost predicate Valid()
      reads this
    {
      WellFormed() && Consistent(View())
    }

    /** An empty collection. */
    constructor()
      ensures Valid() && accounts == map[] && nextId == 0
    {
      accounts := map[];
      nextId := 0;
    }

    /** `new User(...).save()`: refused when the email is taken (the unique index). */
    method SaveNew(a: Account) returns (id: Option<Id>)
      requires WellFormed()
      modifies this
      ensures WellFormed()
      ensures Step(View(), id) == Insert(old(View()), a)
    {
      if FindOne(View(), ByEmail(Some(a.email))).Some? {
        return None;
      }
      id := Some(nextId);
      accounts := accounts[nextId := a];
      nextId := nextId + 1;
    }

    /** `user.save()` of a document already stored. */
    method SaveExisting(i: Id, a: Account)
      requires WellFormed() && i in accounts
      modifies this
      ensures WellFormed()
      ensures View() == Put(old(View()), i, a)
    {
      accounts := accounts[i := a];
    }

    // OAuth callbacks

    method ReconcileGoogle(p: OAuth.GoogleProfile, now: Time) returns (outcome: OAuth.Outcome)
      requires Valid()
      modifies this
      ensures Valid()
      ensures Step(View(), outcome) == OAuth.ReconcileGoogle(old(View()), p, now)
    {
      ghost var before := View();
      OAuth.GooglePreservesConsistency(before, p, now);
      var linked := FindOne(View(), ByGoogleId(p.id));
      if linked.Some? {
        var user := accounts[linked.value];
        user := user.(lastLogin := Some(now));
        SaveExisting(linked.value, user);
        return OAuth.Resolved(linked.value);
      }
      var email := OAuth.FirstEntry(p.emails);
      if !email.Entry? {
        return OAuth.Failed(OAuth.MissingProfileField);
      }
      var existing := FindOne(View(), ByEmail(Some(email.value)));
      if existing.Some? {
        var user := accounts[existing.value];
        user := user.(googleId := Some(p.id), isEmailVerified := true, lastLogin := Some(now));
        SaveExisting(existing.value, user);
        return OAuth.Resolved(existing.value);
      }
      var photo := OAuth.FirstEntry(p.photos);
      if photo.ArrayMissing? {
        return OAuth.Failed(OAuth.MissingProfileField);
      }
      var created := OAuth.NewProviderAccount(email.value, p.displayName, OAuth.AvatarOf(photo), Some(p.id), None, now);
      var id := SaveNew(created);
      if id.None? {
        return OAuth.Failed(OAuth.DuplicateEmail);
      }
      return OAuth.Resolved(id.value);
    }

    method ReconcileGitHub(p: OAuth.GitHubProfile, now: Time) returns (outcome: OAuth.Outcome)
      requires Valid()
      modifies this
      ensures Valid()
      ensures Step(View(), outcome) == OAuth.ReconcileGitHub(old(View()), p, now)
    {
      ghost var before := View();
      OAuth.GitHubPreservesConsistency(before, p, now);
      var linked := FindOne(View(), ByGitHubId(p.id));
      if linked.Some? {
        var user := accounts[linked.value];
        user := user.(lastLogin := Some(now));
        SaveExisting(linked.value, user);
        return OAuth.Resolved(linked.value);
      }
      var email := OAuth.FirstEntry(p.emails);
      if email.ArrayMissing? {
        return OAuth.Failed(OAuth.MissingProfileField);
      }
      var asserted := if email.Entry? then Some(email.value) else None;
      var existing := FindOne(View(), ByEmail(asserted));
      if existing.Some? {
        var user := accounts[existing.value];
        user := user.(githubId := Some(p.id), isEmailVerified := true, lastLogin := Some(now));
        SaveExisting(existing.value, user);
        return OAuth.Resolved(existing.value);
      }
      var photo := OAuth.FirstEntry(p.photos);
      if photo.ArrayMissing? {
        return OAuth.Failed(OAuth.MissingProfileField);
      }
      var address := if email.Entry? && email.value != "" then email.value else p.username + OAuth.GitHubMailDomain;
      var name := if p.displayName != "" then p.displayName else p.username;
      var created := OAuth.NewProviderAccount(address, name, OAuth.AvatarOf(photo), None, Some(p.id), now);
      var id := SaveNew(created);
      if id.None? {
        return OAuth.Failed(OAuth.DuplicateEmail);
      }
      return OAuth.Resolved(id.value);
    }

    // The email/password lifecycle

    method Register(b: V.RegisterBody, h: Hasher, token: string, ttl: nat, mailSent: bool, now: Time)
      returns (reply: Reply)
      requires Valid()
      modifies this
      ensures Valid()
      ensures Step(View(), reply) == Lifecycle.Register(old(View()), b, h, token, ttl, mailSent, now)
    {
      ghost var before := View();
      Lifecycle.RegisterPreservesConsistency(before, b, h, token, ttl, mailSent, now);
      var existing := FindOne(View(), ByEmail(Some(b.email)));
      if existing.Some? {
        return Err(400, EmailTaken);
      }
      var user := Lifecycle.NewLocalAccount(b.email, h.hash(b.password), b.name, token, now + ttl);
      var id := SaveNew(user);
      if id.None? {
        return ServerFault;
      }
      return Ok(201, Registered(id.value, mailSent));
    }

    method Login(email: string, password: string, h: Hasher, secret: string, now: Time) returns (reply: Reply)
      requires Valid()
      modifies this
      ensures Valid()
      ensures Step(View(), reply) == Lifecycle.Login(old(View()), email, password, h, secret, now)
    {
      ghost var before := View();
      Lifecycle.LoginPreservesConsistency(before, email, password, h, secret, now);
      var found := FindOne(View(), ByEmail(Some(email)));
      if found.None? {
        return Err(401, BadCredentials);
      }
      var user := accounts[found.value];
      if !user.isActive {
        return Err(401, AccountDisabled);
      }
      if !PasswordMatches(h, password, user.password) {
        return Err(401, BadCredentials);
      }
      user := user.(lastLogin := Some(now));
      SaveExisting(found.value, user);
      return Ok(200, LoggedIn(found.value, Session.Issue(found.value, now, secret)));
    }

    method VerifyEmail(token: Option<string>, now: Time) returns (reply: Reply)
      requires Valid()
      modifies this
      ensures Valid()
      ensures Step(View(), reply) == Lifecycle.VerifyEmail(old(View()), token, now)
    {
      ghost var before := View();
      Lifecycle.VerifyPreservesConsistency(before, token, now);
      if token.None? || token.value == "" {
        return Err(400, TokenRequired);
      }
      var found := FindOne(View(), ByVerificationToken(token.value, now));
      if found.None? {
        return Err(400, TokenInvalidOrExpired);
      }
      var user := accounts[found.value];
      user := user.(isEmailVerified := true, emailVerificationToken := None, emailVerificationExpires := None);
      SaveExisting(found.value, user);
      return Ok(200, EmailVerified(found.value));
    }

    method ResendVerification(email: Option<string>, token: string, ttl: nat, mailSent: bool, now: Time)
      returns (reply: Reply)
      requires Valid()
      modifies this
      ensures Valid()
      ensures Step(View(), reply) == Lifecycle.ResendVerification(old(View()), email, token, ttl, mailSent, now)
    {
      ghost var before := View();
      Lifecycle.ResendPreservesConsistency(before, email, token, ttl, mailSent, now);
      var found := FindOne(View(), ByEmail(email));
      if found.None? {
        return Err(404, UserNotFound);
      }
      var user := accounts[found.value];
      if user.isEmailVerified {
        return Err(400, AlreadyVerified);
      }
      user := user.(emailVerificationToken := Some(token), emailVerificationExpires := Some(now + ttl));
      SaveExisting(found.value, user);
      if !mailSent {
        return Err(500, MailFailed);
      }
      return Ok(200, VerificationResent);
    }

    method ForgotPassword(email: string, token: string, ttl: nat, mailSent: bool, now: Time) returns (reply: Reply)
      requires Valid()
      modifies this
      ensures Valid()
      ensures Step(View(), reply) == Lifecycle.ForgotPassword(old(View()), email, token, ttl, mailSent, now)
    {
      ghost var before := View();
      Lifecycle.ForgotPreservesConsistency(before, email, token, ttl, mailSent, now);
      var found := FindOne(View(), ByEmail(Some(email)));
      if found.None? {
        return Ok(200, ResetMailIfRegistered);
      }
      var user := accounts[found.value];
      user := user.(resetPasswordToken := Some(token), resetPasswordExpires := Some(now + ttl));
      SaveExisting(found.value, user);
      if !mailSent {
        return Err(500, MailFailed);
      }
      return Ok(200, ResetMailSent);
    }

    method ResetPassword(token: Option<string>, password: string, h: Hasher, now: Time) returns (reply: Reply)
      requires Valid()
      modifies this
      ensures Valid()
      ensures Step(View(), reply) == Lifecycle.ResetPassword(old(View()), token, password, h, now)
    {
      ghost var before := View();
      Lifecycle.ResetPreservesConsistency(before, token, password, h, now);
      if token.None? || token.value == "" {
        return Err(400, TokenRequired);
      }
      var found := FindOne(View(), ByResetToken(token.value, now));
      if found.None? {
        return Err(400, TokenInvalidOrExpired);
      }
      var user := accounts[found.value];
      user := user.(password := Some(h.hash(password)), resetPasswordToken := None, resetPasswordExpires := None);
      SaveExisting(found.value, user);
      return Ok(200, PasswordReset);
    }

    // The middleware

    /** `auth` reads the collection and changes nothing. */
    method Authenticate(
      header: Option<string>, decode: string -> Option<Session.SignedToken>, secret: string, now: Time
    ) returns (d: Guards.Admission)
      requires Valid()
      ensures d == Guards.Authenticate(View(), header, decode, secret, now)
    {
      var token := Guards.ExtractToken(header);
      if token.None? || token.value == "" {
        return Guards.Refused(401, NoToken);
      }
      var id := Session.Verify(decode(token.value), secret, now);
      if id.None? {
        return Guards.Refused(401, InvalidToken);
      }
      if id.value !in accounts {
        return Guards.Refused(401, UserNotFound);
      }
      if !accounts[id.value].isActive {
        return Guards.Refused(401, AccountDisabled);
      }
      return Guards.Admitted(id.value);
    }

    // The account routes

    method UpdateProfile(me: Id, name: Option<string>, avatar: Option<string>) returns (reply: Reply)
      requires Valid() && me in accounts
      modifies this
      ensures Valid()
      ensures Step(View(), reply) == UserRoutes.UpdateProfile(old(View()), me, name, avatar)
    {
      ghost var before := View();
      UserRoutes.UpdateProfilePreservesConsistency(before, me, name, avatar);
      if !UserRoutes.Truthy(name) && avatar.None? {
        return Err(400, NothingToUpdate);
      }
      var user := accounts[me];
      if UserRoutes.Truthy(name) {
        user := user.(name := V.Trim(name.value));
      }
      if avatar.Some? {
        user := user.(avatar := avatar.value);
      }
      SaveExisting(me, user);
      return Ok(200, ProfileUpdated(me));
    }

    method ChangePassword(me: Id, current: Option<string>, next: Option<string>, h: Hasher) returns (reply: Reply)
      requires Valid() && me in accounts
      modifies this
      ensures Valid()
      ensures Step(View(), reply) == UserRoutes.ChangePassword(old(View()), me, current, next, h)
    {
      ghost var before := View();
      UserRoutes.ChangePasswordPreservesConsistency(before, me, current, next, h);
      if !UserRoutes.Truthy(current) || !UserRoutes.Truthy(next) {
        return Err(400, PasswordsRequired);
      }
      var user := accounts[me];
      if !PasswordMatches(h, current.value, user.password) {
        return Err(400, WrongCurrentPassword);
      }
      user := user.(password := Some(h.hash(next.value)));
      SaveExisting(me, user);
      return Ok(200, PasswordChanged);
    }

    method DeleteAccount(me: Id) returns (reply: Reply)
      requires Valid()
      modifies this
      ensures Valid()
      ensures Step(View(), reply) == UserRoutes.DeleteAccount(old(View()), me)
    {
      ghost var before := View();
      RemovePreservesConsistency(before, me);
      accounts := accounts - {me};
      return Ok(200, AccountDeleted);
    }

    method UpdateStatus(target: Option<Id>, isActive: Option<bool>, role: Option<string>) returns (reply: Reply)
      requires Valid()
      modifies this
      ensures Valid()
      ensures Step(View(), reply) == UserRoutes.UpdateStatus(old(View()), target, isActive, role)
    {
      ghost var before := View();
      UserRoutes.UpdateStatusPreservesConsistency(before, target, isActive, role);
      if target.None? {
        return ServerFault;
      }
      var i := target.value;
      if i !in accounts {
        return Err(404, UserNotFound);
      }
      var user := accounts[i];
      if isActive.Some? {
        user := user.(isActive := isActive.value);
      }
      if UserRoutes.Truthy(role) {
        user := user.(role := role.value);
      }
      SaveExisting(i, user);
      return Ok(200, StatusUpdated(i));
    }

    method DeleteUser(me: Id, userId: string, ids: IdSyntax) returns (reply: Reply)
      requires Valid()
      modifies this
      ensures Valid()
      ensures Step(View(), reply) == UserRoutes.DeleteUser(old(View()), me, userId, ids)
    {
      ghost var before := View();
      UserRoutes.DeletionsPreserveConsistency(before, me, userId, ids);
      if userId == ids.spell(me) {
        return Err(400, CannotDeleteSelf);
      }
      var target := ids.cast(userId);
      if target.None? {
        return ServerFault;
      }
      if target.value !in accounts {
        return Err(404, UserNotFound);
      }
      accounts := accounts - {target.value};
      return Ok(200, UserDeleted);
    }

    /** `auth`, then one of the signed-in account's own routes. */
    method SelfRequest(
      header: Option<string>, decode: string -> Option<Session.SignedToken>, secret: string, now: Time,
      h: Hasher, act: UserRoutes.SelfAction
    ) returns (reply: Reply)
      requires Valid()
      modifies this
      ensures Valid()
      ensures Step(View(), reply) == UserRoutes.SelfRoute(old(View()), header, decode, secret, now, h, act)
    {
      var d := Authenticate(header, decode, secret, now);
      if d.Refused? {
        return Err(d.status, d.error);
      }
      match act
      case EditProfile(name, avatar) =>
        reply := UpdateProfile(d.user, name, avatar);
      case NewPassword(current, next) =>
        reply := ChangePassword(d.user, current, next, h);
      case CloseAccount =>
        reply := DeleteAccount(d.user);
    }

    /** `auth`, `requireAdmin`, then one of the admin routes. */
    method AdminRequest(
      header: Option<string>, decode: string -> Option<Session.SignedToken>, secret: string, now: Time,
      ids: IdSyntax, act: UserRoutes.AdminAction
    ) returns (reply: Reply)
      requires Valid()
      modifies this
      ensures Valid()
      ensures Step(View(), reply) == UserRoutes.AdminRoute(old(View()), header, decode, secret, now, ids, act)
    {
      var d := Authenticate(header, decode, secret, now);
      if d.Refused? {
        return Err(d.status, d.error);
      }
      var gate := Guards.RequireAdmin(accounts[d.user]);
      if gate.Stop? {
        return Err(gate.status, gate.error);
      }
      match act
      case ListAll =>
        reply := Ok(200, UserList);
      case SetStatus(userId, isActive, role) =>
        reply := UpdateStatus(ids.cast(userId), isActive, role);
      case DeleteOne(userId) =>
        reply := DeleteUser(d.user, userId, ids);
    }
  }
}
