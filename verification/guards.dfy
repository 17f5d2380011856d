/**
 * The middleware in front of the protected routes: `auth` turns the
 * `Authorization` header into a signed-in, active account or a 401, and
 * `requireEmailVerification` and `requireAdmin` stop the request with 403.
 */
module Guards {
  import opened Accounts
  import opened Replies
  import Session

  const BearerPrefix: string := "Bearer "

  /** Whether `pat` occurs in `s` at position k. */
  predicate OccursAt(s: string, pat: string, k: nat) {
    k + |pat| <= |s| && s[k..k + |pat|] == pat
  }

  /** The first occurrence of `pat` in `s` at or after `from`. */
  function IndexFrom(s: string, pat: string, from: nat): (r: Option<nat>)
    decreases |s| - from
    ensures r.Some? ==> from <= r.value && OccursAt(s, pat, r.value)
    ensures r.Some? ==> forall k :: from <= k < r.value ==> !OccursAt(s, pat, k)
    ensures r.None? ==> forall k :: from <= k ==> !OccursAt(s, pat, k)
  {
    if from + |pat| > |s| then None
    else if OccursAt(s, pat, from) then Some(from)
    else IndexFrom(s, pat, from + 1)
  }

  /** `s.replace(pat, replacement)` with a string pattern: only the first occurrence, case-sensitive, anywhere in `s`. */
  function ReplaceFirst(s: string, pat: string, replacement: string): (r: string)
    ensures IndexFrom(s, pat, 0).None? ==> r == s
    ensures IndexFrom(s, pat, 0).Some? ==>
      var k := IndexFrom(s, pat, 0).value;
      r == s[..k] + replacement + s[k + |pat|..]
  {
    match IndexFrom(s, pat, 0)
    case None => s
    case Some(k) => s[..k] + replacement + s[k + |pat|..]
  }

  /** `req.header('Authorization')?.replace('Bearer ', '')`. */
  function ExtractToken(header: Option<string>): (r: Option<string>)
    ensures header.None? <==> r.None?
  {
    match header
    case None => None
    case Some(h) => Some(ReplaceFirst(h, BearerPrefix, ""))
  }

  /** The standard header form gives back exactly the token that follows the prefix. */
  lemma {:induction false} BearerHeaderYieldsToken(t: string)
    ensures ExtractToken(Some(BearerPrefix + t)) == Some(t)
  {
    var h := BearerPrefix + t;
    assert OccursAt(h, BearerPrefix, 0) by {
      assert h[..|BearerPrefix|] == BearerPrefix;
    }
    assert IndexFrom(h, BearerPrefix, 0) == Some(0);
    assert h[..0] + "" + h[|BearerPrefix|..] == t;
  }

  /** A header without the exact prefix anywhere is used whole as the token. */
  lemma HeaderWithoutPrefixIsKept(h: string)
    requires forall k :: !OccursAt(h, BearerPrefix, k)
    ensures ExtractToken(Some(h)) == Some(h)
  {
  }

  /** The prefix is matched case-sensitively: a lower-case scheme is not stripped. */
  lemma {:induction false} LowerCaseSchemeIsKept()
    ensures ExtractToken(Some("bearer abc")) == Some("bearer abc")
  {
    var h := "bearer abc";
    forall k: nat ensures !OccursAt(h, BearerPrefix, k) {
      if k + |BearerPrefix| <= |h| {
        assert h[k..k + |BearerPrefix|][0] == h[k] != BearerPrefix[0];
      }
    }
    HeaderWithoutPrefixIsKept(h);
  }

  /** The decision of `auth`: the signed-in account, or the answer it sends. */
  datatype Admission = Admitted(user: Id) | Refused(status: nat, error: ErrorKind)

  /**
   * `auth`. The header text is decoded by `decode` (a `None` is any text that
   * does not parse as a token); the decoded token is then checked against
   * the secret and the clock, and its account must exist and be active.
   */
  function Authenticate(
    s: Store, header: Option<string>, decode: string -> Option<Session.SignedToken>, secret: string, now: Time
  ): (r: Admission)
    ensures r.Admitted? <==>
      var t := ExtractToken(header);
      && t.Some? && t.value != ""
      && var id := Session.Verify(decode(t.value), secret, now);
      && id.Some? && id.value in s.accounts && s.accounts[id.value].isActive
    ensures r.Admitted? ==>
      r.user in s.accounts && s.accounts[r.user].isActive &&
      Session.Verify(decode(ExtractToken(header).value), secret, now) == Some(r.user)
    ensures r.Refused? ==> r.status == 401
    ensures ExtractToken(header).None? || ExtractToken(header) == Some("") ==> r == Refused(401, NoToken)
  {
    var token := ExtractToken(header);
    if token.None? || token.value == "" then Refused(401, NoToken)
    else
      match Session.Verify(decode(token.value), secret, now)
      case None => Refused(401, InvalidToken)
      case Some(id) =>
        if id !in s.accounts then Refused(401, UserNotFound)
        else if !s.accounts[id].isActive then Refused(401, AccountDisabled)
        else Admitted(id)
  }

  /** `requireEmailVerification`. */
  function RequireEmailVerification(a: Account): (g: Gate)
    ensures g.Next? <==> a.isEmailVerified
    ensures g.Stop? ==> g == Stop(403, VerificationRequired)
  {
    if !a.isEmailVerified then Stop(403, VerificationRequired) else Next
  }

  /** `requireAdmin`: the role must be exactly `admin`. */
  function RequireAdmin(a: Account): (g: Gate)
    ensures g.Next? <==> a.role == AdminRole
    ensures g.Stop? ==> g == Stop(403, AdminRequired)
  {
    if a.role != AdminRole then Stop(403, AdminRequired) else Next
  }

  /**
   * A token issued at `iat` and presented in the standard header form admits
   * its account until seven days have passed, as long as the account is
   * there and active; afterwards it is refused as invalid.
   */
  lemma SessionRoundTrip(
    s: Store, text: string, decode: string -> Option<Session.SignedToken>, secret: string, i: Id, iat: Time, now: Time)
    requires text != "" && decode(text) == Some(Session.Issue(i, iat, secret))
    requires i in s.accounts && s.accounts[i].isActive
    ensures now < iat + Session.SevenDays ==> Authenticate(s, Some(BearerPrefix + text), decode, secret, now) == Admitted(i)
    ensures now >= iat + Session.SevenDays ==>
      Authenticate(s, Some(BearerPrefix + text), decode, secret, now) == Refused(401, InvalidToken)
  {
    BearerHeaderYieldsToken(text);
  }

  /** After the secret changes, no token signed under the old one admits anybody. */
  lemma RotatedSecretRefuses(
    s: Store, text: string, decode: string -> Option<Session.SignedToken>,
    oldSecret: string, newSecret: string, i: Id, iat: Time, now: Time)
    requires oldSecret != newSecret
    requires text != "" && decode(text) == Some(Session.Issue(i, iat, oldSecret))
    ensures Authenticate(s, Some(BearerPrefix + text), decode, newSecret, now) == Refused(401, InvalidToken)
  {
    BearerHeaderYieldsToken(text);
  }
}
