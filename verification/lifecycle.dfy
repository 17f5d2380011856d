/**
 * The email/password lifecycle: register, login, verify-email,
 * resend-verification, forgot-password and reset-password. Each handler takes
 * its request body after validation, the clock, the freshly generated token,
 * and whether the email dispatch succeeded.
 */
module Lifecycle {
  import opened Accounts
  import opened Replies
  import Session
  import V = Validation

  /** The account `register` saves: unverified, active, role `user`, holding a verification token. */
  function NewLocalAccount(email: string, digest: string, name: string, token: string, expires: Time): Account {
    Account(email, Some(digest), name, "", None, None, false, true, UserRole, None, Some(token), Some(expires), None, None)
  }

  /** A token in the body is required: absent or empty is refused before any lookup. */
  predicate Blank(token: Option<string>) {
    token.None? || token == Some("")
  }

  // Register

  function Register(
    s: Store, b: V.RegisterBody, h: Hasher, token: string, ttl: nat, mailSent: bool, now: Time
  ): (r: Step<Reply>)
    ensures (exists j :: j in s.accounts && s.accounts[j].email == b.email) ==>
      r == Step(s, Err(400, EmailTaken))
    ensures (forall j :: j in s.accounts ==> s.accounts[j].email != b.email) ==>
      && r.result == Ok(201, Registered(s.nextId, mailSent))
      && r.store.accounts == s.accounts[s.nextId := NewLocalAccount(b.email, h.hash(b.password), b.name, token, now + ttl)]
  {
    if FindOne(s, ByEmail(Some(b.email))).Some? then
      Step(s, Err(400, EmailTaken))
    else
      var saved := Insert(s, NewLocalAccount(b.email, h.hash(b.password), b.name, token, now + ttl));
      if saved.result.None? then Step(s, ServerFault)
      else Step(saved.store, Ok(201, Registered(saved.result.value, mailSent)))
  }

  // Login

  function Login(s: Store, email: string, password: string, h: Hasher, secret: string, now: Time): (r: Step<Reply>)
    ensures r.result.Err? ==> r.store == s
    ensures FindOne(s, ByEmail(Some(email))).None? ==> r.result == Err(401, BadCredentials)
    ensures var f := FindOne(s, ByEmail(Some(email)));
      f.Some? && !s.accounts[f.value].isActive ==> r.result == Err(401, AccountDisabled)
    ensures var f := FindOne(s, ByEmail(Some(email)));
      f.Some? && s.accounts[f.value].isActive && !PasswordMatches(h, password, s.accounts[f.value].password) ==>
        r.result == Err(401, BadCredentials)
    ensures var f := FindOne(s, ByEmail(Some(email)));
      r.result.Ok? <==>
        f.Some? && s.accounts[f.value].isActive && PasswordMatches(h, password, s.accounts[f.value].password)
    ensures r.result.Ok? ==>
      var i := FindOne(s, ByEmail(Some(email))).value;
      && r.result == Ok(200, LoggedIn(i, Session.Issue(i, now, secret)))
      && r.store.accounts == s.accounts[i := s.accounts[i].(lastLogin := Some(now))]
  {
    var found := FindOne(s, ByEmail(Some(email)));
    if found.None? then Step(s, Err(401, BadCredentials))
    else
      var a := s.accounts[found.value];
      if !a.isActive then Step(s, Err(401, AccountDisabled))
      else if !PasswordMatches(h, password, a.password) then Step(s, Err(401, BadCredentials))
      else Step(Touch(s, found.value, now), Ok(200, LoggedIn(found.value, Session.Issue(found.value, now, secret))))
  }

  /** An unknown email and a wrong password get the same answer. */
  lemma LoginHidesWhichCredentialFailed(
    s: Store, h: Hasher, secret: string, now: Time, unknown: string, known: string, wrong: string)
    requires forall j :: j in s.accounts ==> s.accounts[j].email != unknown
    requires EmailsUnique(s.accounts)
    requires exists j :: (j in s.accounts && s.accounts[j].email == known && s.accounts[j].isActive &&
      !PasswordMatches(h, wrong, s.accounts[j].password))
    ensures Login(s, unknown, "", h, secret, now).result == Login(s, known, wrong, h, secret, now).result
  {
    var j :| j in s.accounts && s.accounts[j].email == known && s.accounts[j].isActive &&
      !PasswordMatches(h, wrong, s.accounts[j].password);
    FindOneUnique(s, ByEmail(Some(known)), j);
  }

  // Verify email

  function VerifyEmail(s: Store, token: Option<string>, now: Time): (r: Step<Reply>)
    ensures r.result.Err? ==> r.store == s
    ensures Blank(token) ==> r.result == Err(400, TokenRequired)
    ensures r.result.Ok? <==>
      !Blank(token) && exists j :: j in s.accounts && Satisfies(s.accounts[j], ByVerificationToken(token.value, now))
    ensures !Blank(token) && r.result.Err? ==> r.result == Err(400, TokenInvalidOrExpired)
    ensures r.result.Ok? ==>
      && r.result.notice.EmailVerified?
      && var i := r.result.notice.user;
      && i in s.accounts
      && s.accounts[i].emailVerificationToken == token
      && Live(s.accounts[i].emailVerificationExpires, now)
      && r.store.accounts == s.accounts[i := s.accounts[i].(
           isEmailVerified := true, emailVerificationToken := None, emailVerificationExpires := None)]
  {
    if Blank(token) then Step(s, Err(400, TokenRequired))
    else
      var found := FindOne(s, ByVerificationToken(token.value, now));
      if found.None? then Step(s, Err(400, TokenInvalidOrExpired))
      else
        var a := s.accounts[found.value];
        var verified := a.(isEmailVerified := true, emailVerificationToken := None, emailVerificationExpires := None);
        Step(Put(s, found.value, verified), Ok(200, EmailVerified(found.value)))
  }

  /** A verification token works once: the same token fails afterwards, at any time. */
  lemma {:induction false} VerifyEmailSingleUse(s: Store, t: string, now: Time, later: Time)
    requires VerificationTokensDistinct(s.accounts)
    requires VerifyEmail(s, Some(t), now).result.Ok?
    ensures var s' := VerifyEmail(s, Some(t), now).store;
      VerifyEmail(s', Some(t), later) == Step(s', Err(400, TokenInvalidOrExpired))
  {
    var r := VerifyEmail(s, Some(t), now);
    var i := r.result.notice.user;
    forall j | j in r.store.accounts ensures !Satisfies(r.store.accounts[j], ByVerificationToken(t, later)) {
      if j != i {
        assert r.store.accounts[j] == s.accounts[j];
      }
    }
  }

  /**
   * A fresh registration's token verifies the new account at any time before
   * its expiry, and is refused from the expiry instant on.
   */
  lemma RegisterThenVerify(
    s: Store, b: V.RegisterBody, h: Hasher, token: string, ttl: nat, mailSent: bool, now: Time, at: Time)
    requires TokenUnused(s, token) && token != ""
    requires forall j :: j in s.accounts ==> s.accounts[j].email != b.email
    ensures var s1 := Register(s, b, h, token, ttl, mailSent, now).store;
      VerifyEmail(s1, Some(token), at).result ==
        if at < now + ttl then Ok(200, EmailVerified(s.nextId)) else Err(400, TokenInvalidOrExpired)
  {
    var s1 := Register(s, b, h, token, ttl, mailSent, now).store;
    if at < now + ttl {
      FindOneUnique(s1, ByVerificationToken(token, at), s.nextId);
    }
  }

  /** Expiry is strict: a token whose expiry is exactly now is refused. */
  lemma VerifyEmailAtExpiryFails(s: Store, t: string, now: Time)
    requires VerificationTokensDistinct(s.accounts)
    requires t != ""
    requires exists i :: (i in s.accounts && s.accounts[i].emailVerificationToken == Some(t) &&
      s.accounts[i].emailVerificationExpires == Some(now))
    ensures VerifyEmail(s, Some(t), now) == Step(s, Err(400, TokenInvalidOrExpired))
  {
  }

  // Resend verification

  function ResendVerification(
    s: Store, email: Option<string>, token: string, ttl: nat, mailSent: bool, now: Time
  ): (r: Step<Reply>)
    ensures FindOne(s, ByEmail(email)).None? ==> r == Step(s, Err(404, UserNotFound))
    ensures var f := FindOne(s, ByEmail(email));
      f.Some? && s.accounts[f.value].isEmailVerified ==> r == Step(s, Err(400, AlreadyVerified))
    ensures var f := FindOne(s, ByEmail(email));
      f.Some? && !s.accounts[f.value].isEmailVerified ==>
        && r.store.accounts == s.accounts[f.value := s.accounts[f.value].(
             emailVerificationToken := Some(token), emailVerificationExpires := Some(now + ttl))]
        && r.result == (if mailSent then Ok(200, VerificationResent) else Err(500, MailFailed))
  {
    var found := FindOne(s, ByEmail(email));
    if found.None? then Step(s, Err(404, UserNotFound))
    else
      var a := s.accounts[found.value];
      if a.isEmailVerified then Step(s, Err(400, AlreadyVerified))
      else
        var reissued := a.(emailVerificationToken := Some(token), emailVerificationExpires := Some(now + ttl));
        var saved := Put(s, found.value, reissued);
        if mailSent then Step(saved, Ok(200, VerificationResent)) else Step(saved, Err(500, MailFailed))
  }

  /** Re-issuing replaces the earlier token: the token sent before no longer verifies. */
  lemma {:induction false} ResendInvalidatesEarlierToken(
    s: Store, email: string, token: string, ttl: nat, mailSent: bool, now: Time, earlier: string, later: Time)
    requires VerificationTokensDistinct(s.accounts)
    requires earlier != token && earlier != ""
    requires var f := FindOne(s, ByEmail(Some(email)));
      f.Some? && !s.accounts[f.value].isEmailVerified && s.accounts[f.value].emailVerificationToken == Some(earlier)
    ensures var s' := ResendVerification(s, Some(email), token, ttl, mailSent, now).store;
      VerifyEmail(s', Some(earlier), later) == Step(s', Err(400, TokenInvalidOrExpired))
  {
    var i := FindOne(s, ByEmail(Some(email))).value;
    var s' := ResendVerification(s, Some(email), token, ttl, mailSent, now).store;
    forall j | j in s'.accounts ensures !Satisfies(s'.accounts[j], ByVerificationToken(earlier, later)) {
      if j != i {
        assert s'.accounts[j] == s.accounts[j];
      }
    }
  }

  // Forgot password

  function ForgotPassword(
    s: Store, email: string, token: string, ttl: nat, mailSent: bool, now: Time
  ): (r: Step<Reply>)
    ensures FindOne(s, ByEmail(Some(email))).None? ==> r == Step(s, Ok(200, ResetMailIfRegistered))
    ensures var f := FindOne(s, ByEmail(Some(email)));
      f.Some? ==>
        && r.store.accounts == s.accounts[f.value := s.accounts[f.value].(
             resetPasswordToken := Some(token), resetPasswordExpires := Some(now + ttl))]
        && r.result == (if mailSent then Ok(200, ResetMailSent) else Err(500, MailFailed))
  {
    var found := FindOne(s, ByEmail(Some(email)));
    if found.None? then Step(s, Ok(200, ResetMailIfRegistered))
    else
      var a := s.accounts[found.value];
      var saved := Put(s, found.value, a.(resetPasswordToken := Some(token), resetPasswordExpires := Some(now + ttl)));
      if mailSent then Step(saved, Ok(200, ResetMailSent)) else Step(saved, Err(500, MailFailed))
  }

  // Reset password

  function ResetPassword(s: Store, token: Option<string>, password: string, h: Hasher, now: Time): (r: Step<Reply>)
    ensures r.result.Err? ==> r.store == s
    ensures Blank(token) ==> r.result == Err(400, TokenRequired)
    ensures r.result.Ok? <==>
      !Blank(token) && exists j :: j in s.accounts && Satisfies(s.accounts[j], ByResetToken(token.value, now))
    ensures !Blank(token) && r.result.Err? ==> r.result == Err(400, TokenInvalidOrExpired)
    ensures r.result.Ok? ==>
      && r.result == Ok(200, PasswordReset)
      && var i := FindOne(s, ByResetToken(token.value, now)).value;
      && s.accounts[i].resetPasswordToken == token
      && r.store.accounts == s.accounts[i := s.accounts[i].(
           password := Some(h.hash(password)), resetPasswordToken := None, resetPasswordExpires := None)]
  {
    if Blank(token) then Step(s, Err(400, TokenRequired))
    else
      var found := FindOne(s, ByResetToken(token.value, now));
      if found.None? then Step(s, Err(400, TokenInvalidOrExpired))
      else
        var a := s.accounts[found.value];
        var reset := a.(password := Some(h.hash(password)), resetPasswordToken := None, resetPasswordExpires := None);
        Step(Put(s, found.value, reset), Ok(200, PasswordReset))
  }

  /** A reset token works once. */
  lemma {:induction false} ResetPasswordSingleUse(
    s: Store, t: string, password: string, again: string, h: Hasher, now: Time, later: Time)
    requires ResetTokensDistinct(s.accounts)
    requires ResetPassword(s, Some(t), password, h, now).result.Ok?
    ensures var s' := ResetPassword(s, Some(t), password, h, now).store;
      ResetPassword(s', Some(t), again, h, later) == Step(s', Err(400, TokenInvalidOrExpired))
  {
    var i := FindOne(s, ByResetToken(t, now)).value;
    var s' := ResetPassword(s, Some(t), password, h, now).store;
    forall j | j in s'.accounts ensures !Satisfies(s'.accounts[j], ByResetToken(t, later)) {
      if j != i {
        assert s'.accounts[j] == s.accounts[j];
      }
    }
  }

  /**
   * A reset token handed out for a registered email resets that account's
   * password at any time before its expiry, and is refused from the expiry
   * instant on.
   */
  lemma ForgotThenReset(
    s: Store, email: string, token: string, ttl: nat, mailSent: bool, now: Time, password: string, h: Hasher, at: Time)
    requires TokenUnused(s, token) && token != ""
    requires FindOne(s, ByEmail(Some(email))).Some?
    ensures var i := FindOne(s, ByEmail(Some(email))).value;
      var s1 := ForgotPassword(s, email, token, ttl, mailSent, now).store;
      var r := ResetPassword(s1, Some(token), password, h, at);
      && r.result == (if at < now + ttl then Ok(200, PasswordReset) else Err(400, TokenInvalidOrExpired))
      && (at < now + ttl ==> r.store.accounts[i].password == Some(h.hash(password)))
  {
    var i := FindOne(s, ByEmail(Some(email))).value;
    var s1 := ForgotPassword(s, email, token, ttl, mailSent, now).store;
    if at < now + ttl {
      FindOneUnique(s1, ByResetToken(token, at), i);
    } else {
      assert !Satisfies(s1.accounts[i], ByResetToken(token, at));
    }
  }

  /** A second forgot-password request replaces the reset token: the one sent before no longer works. */
  lemma {:induction false} ForgotInvalidatesEarlierToken(
    s: Store, email: string, token: string, ttl: nat, mailSent: bool, now: Time,
    earlier: string, password: string, h: Hasher, later: Time)
    requires ResetTokensDistinct(s.accounts)
    requires earlier != token && earlier != ""
    requires var f := FindOne(s, ByEmail(Some(email)));
      f.Some? && s.accounts[f.value].resetPasswordToken == Some(earlier)
    ensures var s' := ForgotPassword(s, email, token, ttl, mailSent, now).store;
      ResetPassword(s', Some(earlier), password, h, later) == Step(s', Err(400, TokenInvalidOrExpired))
  {
    var i := FindOne(s, ByEmail(Some(email))).value;
    var s' := ForgotPassword(s, email, token, ttl, mailSent, now).store;
    forall j | j in s'.accounts ensures !Satisfies(s'.accounts[j], ByResetToken(earlier, later)) {
      if j != i {
        assert s'.accounts[j] == s.accounts[j];
      }
    }
  }

  /** After a reset, the new password signs the account in (if it is active). */
  lemma ResetThenLogin(
    s: Store, t: string, password: string, h: Hasher, now: Time, secret: string, later: Time)
    requires Consistent(s) && Sound(h)
    requires ResetPassword(s, Some(t), password, h, now).result.Ok?
    requires s.accounts[FindOne(s, ByResetToken(t, now)).value].isActive
    ensures var i := FindOne(s, ByResetToken(t, now)).value;
      var s' := ResetPassword(s, Some(t), password, h, now).store;
      Login(s', s.accounts[i].email, password, h, secret, later).result ==
        Ok(200, LoggedIn(i, Session.Issue(i, later, secret)))
  {
    var i := FindOne(s, ByResetToken(t, now)).value;
    var s' := ResetPassword(s, Some(t), password, h, now).store;
    ResetPreservesConsistency(s, Some(t), password, h, now);
    FindOneUnique(s', ByEmail(Some(s.accounts[i].email)), i);
  }

  // The routes: validation chain, then handler

  function RegisterRoute(
    s: Store, raw: V.RegisterBody, rules: V.EmailRules, h: Hasher, token: string, ttl: nat, mailSent: bool, now: Time
  ): (r: Step<Reply>)
    ensures V.RegisterErrors(raw, rules) != [] ==>
      r == Step(s, Err(400, ValidationFailed(V.RegisterErrors(raw, rules))))
    ensures V.RegisterErrors(raw, rules) == [] ==>
      r == Register(s, V.SanitizeRegister(raw, rules), h, token, ttl, mailSent, now)
  {
    match V.HandleValidationErrors(V.RegisterErrors(raw, rules))
    case Reject(status, details) => Step(s, Err(status, ValidationFailed(details)))
    case Next => Register(s, V.SanitizeRegister(raw, rules), h, token, ttl, mailSent, now)
  }

  function LoginRoute(
    s: Store, raw: V.LoginBody, rules: V.EmailRules, h: Hasher, secret: string, now: Time
  ): (r: Step<Reply>)
    ensures V.LoginErrors(raw, rules) != [] ==>
      r == Step(s, Err(400, ValidationFailed(V.LoginErrors(raw, rules))))
    ensures V.LoginErrors(raw, rules) == [] ==>
      r == Login(s, rules.normalize(raw.email), raw.password, h, secret, now)
  {
    match V.HandleValidationErrors(V.LoginErrors(raw, rules))
    case Reject(status, details) => Step(s, Err(status, ValidationFailed(details)))
    case Next =>
      var b := V.SanitizeLogin(raw, rules);
      Login(s, b.email, b.password, h, secret, now)
  }

  function ForgotPasswordRoute(
    s: Store, email: string, rules: V.EmailRules, token: string, ttl: nat, mailSent: bool, now: Time
  ): (r: Step<Reply>)
    ensures !rules.isEmail(email) ==> r == Step(s, Err(400, ValidationFailed([V.FieldError(V.EmailField, V.NotAnEmail)])))
    ensures rules.isEmail(email) ==> r == ForgotPassword(s, rules.normalize(email), token, ttl, mailSent, now)
  {
    match V.HandleValidationErrors(V.ForgotPasswordErrors(email, rules))
    case Reject(status, details) => Step(s, Err(status, ValidationFailed(details)))
    case Next => ForgotPassword(s, rules.normalize(email), token, ttl, mailSent, now)
  }

  /** The password rules run first; a missing token is the handler's own 400. */
  function ResetPasswordRoute(
    s: Store, token: Option<string>, password: string, h: Hasher, now: Time
  ): (r: Step<Reply>)
    ensures !V.PasswordAccepted(password) ==>
      r == Step(s, Err(400, ValidationFailed(V.NewPasswordErrors(password))))
    ensures V.PasswordAccepted(password) ==> r == ResetPassword(s, token, password, h, now)
  {
    match V.HandleValidationErrors(V.NewPasswordErrors(password))
    case Reject(status, details) => Step(s, Err(status, ValidationFailed(details)))
    case Next => ResetPassword(s, token, password, h, now)
  }

  // Invariants

  lemma RegisterPreservesConsistency(
    s: Store, b: V.RegisterBody, h: Hasher, token: string, ttl: nat, mailSent: bool, now: Time)
    requires Consistent(s)
    ensures Consistent(Register(s, b, h, token, ttl, mailSent, now).store)
  {
    InsertPreservesConsistency(s, NewLocalAccount(b.email, h.hash(b.password), b.name, token, now + ttl));
  }

  lemma LoginPreservesConsistency(s: Store, email: string, password: string, h: Hasher, secret: string, now: Time)
    requires Consistent(s)
    ensures Consistent(Login(s, email, password, h, secret, now).store)
  {
    var found := FindOne(s, ByEmail(Some(email)));
    if found.Some? {
      TouchPreservesConsistency(s, found.value, now);
    }
  }

  lemma VerifyPreservesConsistency(s: Store, token: Option<string>, now: Time)
    requires Consistent(s)
    ensures Consistent(VerifyEmail(s, token, now).store)
  {
    if !Blank(token) {
      var found := FindOne(s, ByVerificationToken(token.value, now));
      if found.Some? {
        var a := s.accounts[found.value];
        PutPreservesConsistency(s, found.value,
          a.(isEmailVerified := true, emailVerificationToken := None, emailVerificationExpires := None));
      }
    }
  }

  lemma ResendPreservesConsistency(
    s: Store, email: Option<string>, token: string, ttl: nat, mailSent: bool, now: Time)
    requires Consistent(s)
    ensures Consistent(ResendVerification(s, email, token, ttl, mailSent, now).store)
  {
    var found := FindOne(s, ByEmail(email));
    if found.Some? {
      var a := s.accounts[found.value];
      PutPreservesConsistency(s, found.value,
        a.(emailVerificationToken := Some(token), emailVerificationExpires := Some(now + ttl)));
    }
  }

  lemma ForgotPreservesConsistency(s: Store, email: string, token: string, ttl: nat, mailSent: bool, now: Time)
    requires Consistent(s)
    ensures Consistent(ForgotPassword(s, email, token, ttl, mailSent, now).store)
  {
    var found := FindOne(s, ByEmail(Some(email)));
    if found.Some? {
      var a := s.accounts[found.value];
      PutPreservesConsistency(s, found.value,
        a.(resetPasswordToken := Some(token), resetPasswordExpires := Some(now + ttl)));
    }
  }

  lemma ResetPreservesConsistency(s: Store, token: Option<string>, password: string, h: Hasher, now: Time)
    requires Consistent(s)
    ensures Consistent(ResetPassword(s, token, password, h, now).store)
  {
    if !Blank(token) {
      var found := FindOne(s, ByResetToken(token.value, now));
      if found.Some? {
        var a := s.accounts[found.value];
        PutPreservesConsistency(s, found.value,
          a.(password := Some(h.hash(password)), resetPasswordToken := None, resetPasswordExpires := None));
      }
    }
  }

  /** Each handler that hands out a token no account holds keeps tokens distinct. */
  lemma RegisterKeepsTokensDistinct(
    s: Store, b: V.RegisterBody, h: Hasher, token: string, ttl: nat, mailSent: bool, now: Time)
    requires TokensDistinct(s.accounts) && TokenUnused(s, token)
    ensures TokensDistinct(Register(s, b, h, token, ttl, mailSent, now).store.accounts)
  {
    InsertKeepsTokensDistinct(s, NewLocalAccount(b.email, h.hash(b.password), b.name, token, now + ttl));
  }

  lemma ResendKeepsTokensDistinct(
    s: Store, email: Option<string>, token: string, ttl: nat, mailSent: bool, now: Time)
    requires TokensDistinct(s.accounts) && TokenUnused(s, token)
    ensures TokensDistinct(ResendVerification(s, email, token, ttl, mailSent, now).store.accounts)
  {
    var found := FindOne(s, ByEmail(email));
    if found.Some? {
      var a := s.accounts[found.value];
      PutKeepsTokensDistinct(s, found.value,
        a.(emailVerificationToken := Some(token), emailVerificationExpires := Some(now + ttl)));
    }
  }

  lemma ForgotKeepsTokensDistinct(s: Store, email: string, token: string, ttl: nat, mailSent: bool, now: Time)
    requires TokensDistinct(s.accounts) && TokenUnused(s, token)
    ensures TokensDistinct(ForgotPassword(s, email, token, ttl, mailSent, now).store.accounts)
  {
    var found := FindOne(s, ByEmail(Some(email)));
    if found.Some? {
      var a := s.accounts[found.value];
      PutKeepsTokensDistinct(s, found.value,
        a.(resetPasswordToken := Some(token), resetPasswordExpires := Some(now + ttl)));
    }
  }

  /** Consuming a token, and signing in, keep tokens distinct. */
  lemma VerifyKeepsTokensDistinct(s: Store, token: Option<string>, now: Time)
    requires TokensDistinct(s.accounts)
    ensures TokensDistinct(VerifyEmail(s, token, now).store.accounts)
  {
    if !Blank(token) {
      var found := FindOne(s, ByVerificationToken(token.value, now));
      if found.Some? {
        var a := s.accounts[found.value];
        PutKeepsTokensDistinct(s, found.value,
          a.(isEmailVerified := true, emailVerificationToken := None, emailVerificationExpires := None));
      }
    }
  }

  lemma ResetKeepsTokensDistinct(s: Store, token: Option<string>, password: string, h: Hasher, now: Time)
    requires TokensDistinct(s.accounts)
    ensures TokensDistinct(ResetPassword(s, token, password, h, now).store.accounts)
  {
    if !Blank(token) {
      var found := FindOne(s, ByResetToken(token.value, now));
      if found.Some? {
        var a := s.accounts[found.value];
        PutKeepsTokensDistinct(s, found.value,
          a.(password := Some(h.hash(password)), resetPasswordToken := None, resetPasswordExpires := None));
      }
    }
  }

  lemma LoginKeepsTokensDistinct(s: Store, email: string, password: string, h: Hasher, secret: string, now: Time)
    requires TokensDistinct(s.accounts)
    ensures TokensDistinct(Login(s, email, password, h, secret, now).store.accounts)
  {
    var found := FindOne(s, ByEmail(Some(email)));
    if found.Some? {
      PutKeepsTokensDistinct(s, found.value, s.accounts[found.value].(lastLogin := Some(now)));
    }
  }
}
