/**
 * Identity reconciliation: the Google and GitHub strategy callbacks, which map
 * a provider profile to exactly one account by provider id, then by email,
 * then by creating one.
 */
module OAuth {
  import opened Accounts

  /** The fields of a Google profile the callback reads; an array the provider left out is `None`. */
  datatype GoogleProfile = GoogleProfile(
    id: string, emails: Option<seq<string>>, displayName: string, photos: Option<seq<string>>)

  /** The fields of a GitHub profile the callback reads; an empty `displayName` stands for a missing one. */
  datatype GitHubProfile = GitHubProfile(
    id: string, username: string, displayName: string, emails: Option<seq<string>>, photos: Option<seq<string>>)

  /** What the callback passes to `done`: an account, or an error (a TypeError or a refused save). */
  datatype Failure = MissingProfileField | DuplicateEmail
  datatype Outcome = Resolved(user: Id) | Failed(cause: Failure)

  /** Reading element 0 of a profile array: the array may be undefined (reading it throws) or empty. */
  datatype Entry = ArrayMissing | NoEntry | Entry(value: string)

  function FirstEntry(xs: Option<seq<string>>): (e: Entry)
    ensures e.ArrayMissing? <==> xs.None?
    ensures e.NoEntry? <==> xs == Some([])
    ensures e.Entry? ==> e.value == xs.value[0]
  {
    match xs
    case None => ArrayMissing
    case Some(a) => if a == [] then NoEntry else Entry(a[0])
  }

  /** `profile.photos[0]?.value || ''`, once the array is known to exist. */
  function AvatarOf(photo: Entry): string {
    if photo.Entry? then photo.value else ""
  }

  /** A new account for a provider identity: verified, active, signed in now, with no password. */
  function NewProviderAccount(
    email: string, name: string, avatar: string, googleId: Option<string>, githubId: Option<string>, now: Time
  ): Account {
    Account(email, None, name, avatar, googleId, githubId, true, true, UserRole, Some(now), None, None, None, None)
  }

  /** The suffix of the address a GitHub account gets when the profile discloses no email. */
  const GitHubMailDomain: string := "@github.com"

  // Google

  function ReconcileGoogle(s: Store, p: GoogleProfile, now: Time): (r: Step<Outcome>)
    ensures r.result.Failed? ==> r.store == s
    ensures r.result != Failed(DuplicateEmail)
    ensures r.result.Resolved? ==>
      && r.result.user in r.store.accounts
      && r.store.accounts[r.result.user].googleId == Some(p.id)
      && r.store.accounts[r.result.user].lastLogin == Some(now)
    ensures s.accounts.Keys <= r.store.accounts.Keys <= s.accounts.Keys + {s.nextId}
    ensures forall j :: j in s.accounts && r.result != Resolved(j) ==> r.store.accounts[j] == s.accounts[j]
  {
    var linked := FindOne(s, ByGoogleId(p.id));
    if linked.Some? then
      Step(Touch(s, linked.value, now), Resolved(linked.value))
    else
      var email := FirstEntry(p.emails);
      if !email.Entry? then
        Step(s, Failed(MissingProfileField))
      else
        var existing := FindOne(s, ByEmail(Some(email.value)));
        if existing.Some? then
          var a := s.accounts[existing.value];
          var merged := a.(googleId := Some(p.id), isEmailVerified := true, lastLogin := Some(now));
          Step(Put(s, existing.value, merged), Resolved(existing.value))
        else
          var photo := FirstEntry(p.photos);
          if photo.ArrayMissing? then
            Step(s, Failed(MissingProfileField))
          else
            var created := NewProviderAccount(email.value, p.displayName, AvatarOf(photo), Some(p.id), None, now);
            var saved := Insert(s, created);
            if saved.result.Some? then Step(saved.store, Resolved(saved.result.value))
            else Step(s, Failed(DuplicateEmail))
  }

  /**
   * An account already linked to the Google id is returned and only its
   * `lastLogin` changes, whichever account owns the asserted email.
   */
  lemma GoogleLinkedAccountWins(s: Store, p: GoogleProfile, now: Time, i: Id)
    requires GoogleIdsUnique(s.accounts)
    requires i in s.accounts && s.accounts[i].googleId == Some(p.id)
    ensures ReconcileGoogle(s, p, now).result == Resolved(i)
    ensures ReconcileGoogle(s, p, now).store.accounts == s.accounts[i := s.accounts[i].(lastLogin := Some(now))]
  {
    FindOneUnique(s, ByGoogleId(p.id), i);
  }

  /**
   * With no account linked to the Google id but one owning the asserted email,
   * that account is returned with the Google id attached (replacing any earlier
   * one), marked verified and signed in; name, avatar and password stay, and no
   * account is created.
   */
  lemma GoogleMergesByEmail(s: Store, p: GoogleProfile, now: Time, i: Id)
    requires EmailsUnique(s.accounts)
    requires forall j :: j in s.accounts ==> s.accounts[j].googleId != Some(p.id)
    requires FirstEntry(p.emails).Entry? && i in s.accounts && s.accounts[i].email == FirstEntry(p.emails).value
    ensures ReconcileGoogle(s, p, now).result == Resolved(i)
    ensures var a := ReconcileGoogle(s, p, now).store.accounts;
      && a.Keys == s.accounts.Keys
      && a[i] == s.accounts[i].(googleId := Some(p.id), isEmailVerified := true, lastLogin := Some(now))
  {
    FindOneUnique(s, ByEmail(Some(s.accounts[i].email)), i);
  }

  /**
   * Only when neither lookup matches is an account created: linked to the
   * Google id, with the asserted email and display name, the first photo or
   * '' as avatar, verified and without a password.
   */
  lemma GoogleCreatesAccount(s: Store, p: GoogleProfile, now: Time)
    requires forall j :: j in s.accounts ==> s.accounts[j].googleId != Some(p.id)
    requires FirstEntry(p.emails).Entry?
    requires forall j :: j in s.accounts ==> s.accounts[j].email != FirstEntry(p.emails).value
    requires p.photos.Some?
    ensures ReconcileGoogle(s, p, now).result == Resolved(s.nextId)
    ensures ReconcileGoogle(s, p, now).store.accounts == s.accounts[s.nextId :=
      Account(p.emails.value[0], None, p.displayName, if p.photos.value == [] then "" else p.photos.value[0],
              Some(p.id), None, true, true, UserRole, Some(now), None, None, None, None)]
  {
  }

  lemma {:induction false} GooglePreservesConsistency(s: Store, p: GoogleProfile, now: Time)
    requires Consistent(s)
    ensures Consistent(ReconcileGoogle(s, p, now).store)
  {
    var linked := FindOne(s, ByGoogleId(p.id));
    var email := FirstEntry(p.emails);
    if linked.Some? {
      TouchPreservesConsistency(s, linked.value, now);
    } else if email.Entry? {
      var existing := FindOne(s, ByEmail(Some(email.value)));
      if existing.Some? {
        var i := existing.value;
        PutPreservesConsistency(s, i, s.accounts[i].(googleId := Some(p.id), isEmailVerified := true, lastLogin := Some(now)));
      } else if p.photos.Some? {
        var photo := FirstEntry(p.photos);
        InsertPreservesConsistency(s, NewProviderAccount(email.value, p.displayName, AvatarOf(photo), Some(p.id), None, now));
      }
    }
  }


  /** Reconciling the same Google id again returns the same account. */
  lemma {:induction false} GoogleIdempotent(s: Store, p: GoogleProfile, q: GoogleProfile, now: Time, later: Time)
    requires Consistent(s)
    requires q.id == p.id
    requires ReconcileGoogle(s, p, now).result.Resolved?
    ensures ReconcileGoogle(ReconcileGoogle(s, p, now).store, q, later).result == ReconcileGoogle(s, p, now).result
  {
    var r := ReconcileGoogle(s, p, now);
    GooglePreservesConsistency(s, p, now);
    GoogleLinkedAccountWins(r.store, q, later, r.result.user);
  }

  // GitHub

  function ReconcileGitHub(s: Store, p: GitHubProfile, now: Time): (r: Step<Outcome>)
    ensures r.result.Failed? ==> r.store == s
    ensures r.result.Resolved? ==>
      && r.result.user in r.store.accounts
      && r.store.accounts[r.result.user].githubId == Some(p.id)
      && r.store.accounts[r.result.user].lastLogin == Some(now)
    ensures s.accounts.Keys <= r.store.accounts.Keys <= s.accounts.Keys + {s.nextId}
    ensures forall j :: j in s.accounts && r.result != Resolved(j) ==> r.store.accounts[j] == s.accounts[j]
  {
    var linked := FindOne(s, ByGitHubId(p.id));
    if linked.Some? then
      Step(Touch(s, linked.value, now), Resolved(linked.value))
    else
      var email := FirstEntry(p.emails);
      if email.ArrayMissing? then
        Step(s, Failed(MissingProfileField))
      else
        var asserted := if email.Entry? then Some(email.value) else None;
        var existing := FindOne(s, ByEmail(asserted));
        if existing.Some? then
          var a := s.accounts[existing.value];
          var merged := a.(githubId := Some(p.id), isEmailVerified := true, lastLogin := Some(now));
          Step(Put(s, existing.value, merged), Resolved(existing.value))
        else
          var photo := FirstEntry(p.photos);
          if photo.ArrayMissing? then
            Step(s, Failed(MissingProfileField))
          else
            var address := if email.Entry? && email.value != "" then email.value else p.username + GitHubMailDomain;
            var name := if p.displayName != "" then p.displayName else p.username;
            var created := NewProviderAccount(address, name, AvatarOf(photo), None, Some(p.id), now);
            var saved := Insert(s, created);
            if saved.result.Some? then Step(saved.store, Resolved(saved.result.value))
            else Step(s, Failed(DuplicateEmail))
  }

  lemma GitHubLinkedAccountWins(s: Store, p: GitHubProfile, now: Time, i: Id)
    requires GitHubIdsUnique(s.accounts)
    requires i in s.accounts && s.accounts[i].githubId == Some(p.id)
    ensures ReconcileGitHub(s, p, now).result == Resolved(i)
    ensures ReconcileGitHub(s, p, now).store.accounts == s.accounts[i := s.accounts[i].(lastLogin := Some(now))]
  {
    FindOneUnique(s, ByGitHubId(p.id), i);
  }

  /** The GitHub merge sets only `githubId`, `isEmailVerified` and `lastLogin`: an existing Google link survives. */
  lemma GitHubMergeKeepsGoogleLink(s: Store, p: GitHubProfile, now: Time, i: Id)
    requires EmailsUnique(s.accounts)
    requires forall j :: j in s.accounts ==> s.accounts[j].githubId != Some(p.id)
    requires FirstEntry(p.emails).Entry? && i in s.accounts && s.accounts[i].email == FirstEntry(p.emails).value
    ensures ReconcileGitHub(s, p, now).result == Resolved(i)
    ensures var a := ReconcileGitHub(s, p, now).store.accounts;
      && a.Keys == s.accounts.Keys
      && a[i] == s.accounts[i].(githubId := Some(p.id), isEmailVerified := true, lastLogin := Some(now))
      && a[i].googleId == s.accounts[i].googleId
  {
    FindOneUnique(s, ByEmail(Some(s.accounts[i].email)), i);
  }

  /**
   * With no GitHub link and a disclosed email that no account holds, an
   * account is created: linked to the GitHub id, with that email, the display
   * name or else the username, the first photo or '' as avatar, verified and
   * without a password.
   */
  lemma GitHubCreatesAccount(s: Store, p: GitHubProfile, now: Time)
    requires forall j :: j in s.accounts ==> s.accounts[j].githubId != Some(p.id)
    requires FirstEntry(p.emails).Entry? && FirstEntry(p.emails).value != ""
    requires forall j :: j in s.accounts ==> s.accounts[j].email != FirstEntry(p.emails).value
    requires p.photos.Some?
    ensures ReconcileGitHub(s, p, now).result == Resolved(s.nextId)
    ensures ReconcileGitHub(s, p, now).store.accounts == s.accounts[s.nextId :=
      Account(p.emails.value[0], None, if p.displayName != "" then p.displayName else p.username,
              if p.photos.value == [] then "" else p.photos.value[0],
              None, Some(p.id), true, true, UserRole, Some(now), None, None, None, None)]
  {
  }

  /**
   * A profile without an email (or with an empty one) creates an account at
   * `<username>@github.com`, named after the username when the display name is
   * missing, provided that address is free.
   */
  lemma GitHubFallbackIdentity(s: Store, p: GitHubProfile, now: Time)
    requires forall j :: j in s.accounts ==> s.accounts[j].githubId != Some(p.id)
    requires p.emails == Some([]) && p.photos.Some?
    requires forall j :: j in s.accounts ==> s.accounts[j].email != p.username + GitHubMailDomain
    ensures ReconcileGitHub(s, p, now).result == Resolved(s.nextId)
    ensures var a := ReconcileGitHub(s, p, now).store.accounts[s.nextId];
      && a.email == p.username + "@github.com"
      && a.name == (if p.displayName == "" then p.username else p.displayName)
      && a.githubId == Some(p.id) && a.password == None && a.isEmailVerified
  {
  }

  /**
   * The synthetic address is never looked up before the save: when another
   * account already owns it, the save is refused and the sign-in fails, with
   * the store unchanged.
   */
  lemma GitHubFallbackAddressTaken(s: Store, p: GitHubProfile, now: Time, owner: Id)
    requires forall j :: j in s.accounts ==> s.accounts[j].githubId != Some(p.id)
    requires p.emails == Some([]) && p.photos.Some?
    requires owner in s.accounts && s.accounts[owner].email == p.username + GitHubMailDomain
    ensures ReconcileGitHub(s, p, now) == Step(s, Failed(DuplicateEmail))
  {
  }

  lemma {:induction false} GitHubPreservesConsistency(s: Store, p: GitHubProfile, now: Time)
    requires Consistent(s)
    ensures Consistent(ReconcileGitHub(s, p, now).store)
  {
    var linked := FindOne(s, ByGitHubId(p.id));
    var email := FirstEntry(p.emails);
    if linked.Some? {
      TouchPreservesConsistency(s, linked.value, now);
    } else if !email.ArrayMissing? {
      var asserted := if email.Entry? then Some(email.value) else None;
      var existing := FindOne(s, ByEmail(asserted));
      if existing.Some? {
        var i := existing.value;
        PutPreservesConsistency(s, i, s.accounts[i].(githubId := Some(p.id), isEmailVerified := true, lastLogin := Some(now)));
      } else if p.photos.Some? {
        var photo := FirstEntry(p.photos);
        var address := if email.Entry? && email.value != "" then email.value else p.username + GitHubMailDomain;
        var name := if p.displayName != "" then p.displayName else p.username;
        InsertPreservesConsistency(s, NewProviderAccount(address, name, AvatarOf(photo), None, Some(p.id), now));
      }
    }
  }


  lemma {:induction false} GitHubIdempotent(s: Store, p: GitHubProfile, q: GitHubProfile, now: Time, later: Time)
    requires Consistent(s)
    requires q.id == p.id
    requires ReconcileGitHub(s, p, now).result.Resolved?
    ensures ReconcileGitHub(ReconcileGitHub(s, p, now).store, q, later).result == ReconcileGitHub(s, p, now).result
  {
    var r := ReconcileGitHub(s, p, now);
    GitHubPreservesConsistency(s, p, now);
    GitHubLinkedAccountWins(r.store, q, later, r.result.user);
  }

  /** Neither callback hands out a verification or reset token, so distinct tokens stay distinct. */
  lemma {:induction false} GoogleKeepsTokensDistinct(s: Store, p: GoogleProfile, now: Time)
    requires TokensDistinct(s.accounts)
    ensures TokensDistinct(ReconcileGoogle(s, p, now).store.accounts)
  {
    var linked := FindOne(s, ByGoogleId(p.id));
    var email := FirstEntry(p.emails);
    if linked.Some? {
      PutKeepsTokensDistinct(s, linked.value, s.accounts[linked.value].(lastLogin := Some(now)));
    } else if email.Entry? {
      var existing := FindOne(s, ByEmail(Some(email.value)));
      if existing.Some? {
        var i := existing.value;
        PutKeepsTokensDistinct(s, i, s.accounts[i].(googleId := Some(p.id), isEmailVerified := true, lastLogin := Some(now)));
      } else if p.photos.Some? {
        var photo := FirstEntry(p.photos);
        InsertKeepsTokensDistinct(s, NewProviderAccount(email.value, p.displayName, AvatarOf(photo), Some(p.id), None, now));
      }
    }
  }

  lemma {:induction false} GitHubKeepsTokensDistinct(s: Store, p: GitHubProfile, now: Time)
    requires TokensDistinct(s.accounts)
    ensures TokensDistinct(ReconcileGitHub(s, p, now).store.accounts)
  {
    var linked := FindOne(s, ByGitHubId(p.id));
    var email := FirstEntry(p.emails);
    if linked.Some? {
      PutKeepsTokensDistinct(s, linked.value, s.accounts[linked.value].(lastLogin := Some(now)));
    } else if !email.ArrayMissing? {
      var asserted := if email.Entry? then Some(email.value) else None;
      var existing := FindOne(s, ByEmail(asserted));
      if existing.Some? {
        var i := existing.value;
        PutKeepsTokensDistinct(s, i, s.accounts[i].(githubId := Some(p.id), isEmailVerified := true, lastLogin := Some(now)));
      } else if p.photos.Some? {
        var photo := FirstEntry(p.photos);
        var address := if email.Entry? && email.value != "" then email.value else p.username + GitHubMailDomain;
        var name := if p.displayName != "" then p.displayName else p.username;
        InsertKeepsTokensDistinct(s, NewProviderAccount(address, name, AvatarOf(photo), None, Some(p.id), now));
      }
    }
  }
}
