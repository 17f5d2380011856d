/** Account records, the account store, and the store queries the route handlers run. */
module Accounts {

  datatype Option<+T> = None | Some(value: T)

  /** Document ids, allocated in increasing order. */
  type Id = nat

  /** One abstract clock for every timestamp and expiry. */
  type Time = int

  /** The role a new account gets by default, and the one the admin guard asks for. */
  const UserRole: string := "user"
  const AdminRole: string := "admin"

  /** The account document. `password` holds the stored digest, never the plain text. */
  datatype Account = Account(
    email: string,
    password: Option<string>,
    name: string,
    avatar: string,
    googleId: Option<string>,
    githubId: Option<string>,
    isEmailVerified: bool,
    isActive: bool,
    role: string,
    lastLogin: Option<Time>,
    emailVerificationToken: Option<string>,
    emailVerificationExpires: Option<Time>,
    resetPasswordToken: Option<string>,
    resetPasswordExpires: Option<Time>)

  datatype StoreState = StoreState(accounts: map<Id, Account>, nextId: Id)

  /** The account collection: documents by id; `nextId` is the id the next insert gets. */
  type Store = s: StoreState | forall i :: i in s.accounts ==> i < s.nextId
    witness StoreState(map[], 0)

  /** What a handler leaves behind: the new store and its answer. */
  datatype Step<+R> = Step(store: Store, result: R)

  /** The query documents the handlers pass to `findOne`. */
  datatype Query =
    | ByEmail(email: Option<string>)
    | ByGoogleId(googleId: string)
    | ByGitHubId(githubId: string)
    | ByVerificationToken(token: string, now: Time)
    | ByResetToken(token: string, now: Time)

  /** `{ $gt: now }` on an expiry field: present and strictly later than now. */
  predicate Live(expires: Option<Time>, now: Time) {
    expires.Some? && expires.value > now
  }

  /**
   * Whether a document matches a query. An email query whose value is absent
   * (`{ email: undefined }`) matches no document: every stored account has an
   * email, and this is the store assumption the model makes about such a query.
   */
  predicate Satisfies(a: Account, q: Query) {
    match q
    case ByEmail(e) => e == Some(a.email)
    case ByGoogleId(g) => a.googleId == Some(g)
    case ByGitHubId(g) => a.githubId == Some(g)
    case ByVerificationToken(t, now) =>
      a.emailVerificationToken == Some(t) && Live(a.emailVerificationExpires, now)
    case ByResetToken(t, now) =>
      a.resetPasswordToken == Some(t) && Live(a.resetPasswordExpires, now)
  }

  /** The least id below `n` whose document matches `q`. */
  function FindBelow(m: map<Id, Account>, q: Query, n: nat): (r: Option<Id>)
    ensures r.Some? ==> r.value < n && r.value in m && Satisfies(m[r.value], q)
    ensures r.Some? ==> forall j :: j in m && j < r.value ==> !Satisfies(m[j], q)
    ensures r.None? ==> forall j :: j in m && j < n ==> !Satisfies(m[j], q)
  {
    if n == 0 then None
    else
      var earlier := FindBelow(m, q, n - 1);
      if earlier.Some? then earlier
      else if n - 1 in m && Satisfies(m[n - 1], q) then Some(n - 1)
      else None
  }

  /**
   * `findOne(q)`: the first matching document in insertion order, or none.
   * It finds a document exactly when one matches.
   */
  function FindOne(s: Store, q: Query): (r: Option<Id>)
    ensures r.Some? ==> r.value in s.accounts && Satisfies(s.accounts[r.value], q)
    ensures r.Some? ==> forall j :: j in s.accounts && j < r.value ==> !Satisfies(s.accounts[j], q)
    ensures r.None? <==> forall j :: j in s.accounts ==> !Satisfies(s.accounts[j], q)
  {
    FindBelow(s.accounts, q, s.nextId)
  }

  /** When exactly one document matches, `findOne` returns it. */
  lemma FindOneUnique(s: Store, q: Query, i: Id)
    requires i in s.accounts && Satisfies(s.accounts[i], q)
    requires forall j :: j in s.accounts && Satisfies(s.accounts[j], q) ==> j == i
    ensures FindOne(s, q) == Some(i)
  {
  }

  /**
   * `save()` of a new document. The store keeps a unique index on email, so a
   * second document with an email already present is refused (a duplicate-key
   * error) and the store is left as it was.
   */
  function Insert(s: Store, a: Account): (r: Step<Option<Id>>)
    ensures r.result.None? <==> exists j :: j in s.accounts && s.accounts[j].email == a.email
    ensures r.result.None? ==> r.store == s
    ensures r.result.Some? ==>
      && r.result.value == s.nextId
      && r.result.value !in s.accounts
      && r.store.accounts == s.accounts[r.result.value := a]
  {
    if FindOne(s, ByEmail(Some(a.email))).Some? then Step(s, None)
    else Step(StoreState(s.accounts[s.nextId := a], s.nextId + 1), Some(s.nextId))
  }

  /** `save()` of a document already in the store. */
  function Put(s: Store, id: Id, a: Account): Store
    requires id in s.accounts
  {
    StoreState(s.accounts[id := a], s.nextId)
  }

  /** `findByIdAndDelete(id)`. */
  function Remove(s: Store, id: Id): Store {
    StoreState(s.accounts - {id}, s.nextId)
  }

  /** The account was just signed in: only `lastLogin` changes. */
  function Touch(s: Store, id: Id, now: Time): Store
    requires id in s.accounts
  {
    Put(s, id, s.accounts[id].(lastLogin := Some(now)))
  }

  // Store invariants

  ghost predicate EmailsUnique(m: map<Id, Account>) {
    forall i, j :: i in m && j in m && m[i].email == m[j].email ==> i == j
  }

  ghost predicate GoogleIdsUnique(m: map<Id, Account>) {
    forall i, j :: i in m && j in m && m[i].googleId.Some? && m[i].googleId == m[j].googleId ==> i == j
  }

  ghost predicate GitHubIdsUnique(m: map<Id, Account>) {
    forall i, j :: i in m && j in m && m[i].githubId.Some? && m[i].githubId == m[j].githubId ==> i == j
  }

  /** Every account can authenticate somehow: a password, or a linked provider identity. */
  predicate HasCredential(a: Account) {
    a.password.Some? || a.googleId.Some? || a.githubId.Some?
  }

  /** A provider identity vouches for the email, so a linked account is verified. */
  predicate LinkedIsVerified(a: Account) {
    (a.googleId.Some? || a.githubId.Some?) ==> a.isEmailVerified
  }

  /** What every handler keeps true of the store. */
  ghost predicate Consistent(s: Store) {
    && EmailsUnique(s.accounts)
    && GoogleIdsUnique(s.accounts)
    && GitHubIdsUnique(s.accounts)
    && (forall i :: i in s.accounts ==> HasCredential(s.accounts[i]) && LinkedIsVerified(s.accounts[i]))
  }

  /**
   * Writing a record back keeps the store consistent when the email stays, a
   * provider id it gains is held by no other account, and the record still
   * has a credential and is verified if linked.
   */
  lemma {:induction false} PutPreservesConsistency(s: Store, i: Id, b: Account)
    requires Consistent(s) && i in s.accounts
    requires b.email == s.accounts[i].email
    requires b.googleId.Some? && b.googleId != s.accounts[i].googleId ==>
      forall j :: j in s.accounts && j != i ==> s.accounts[j].googleId != b.googleId
    requires b.githubId.Some? && b.githubId != s.accounts[i].githubId ==>
      forall j :: j in s.accounts && j != i ==> s.accounts[j].githubId != b.githubId
    requires HasCredential(b) && LinkedIsVerified(b)
    ensures Consistent(Put(s, i, b))
  {
    var m := Put(s, i, b).accounts;
    forall j, k | j in m && k in m && m[j].email == m[k].email ensures j == k {
      assert m[j].email == s.accounts[j].email && m[k].email == s.accounts[k].email;
    }
  }

  /** Signing in changes only `lastLogin`, which no invariant mentions. */
  lemma TouchPreservesConsistency(s: Store, i: Id, now: Time)
    requires Consistent(s) && i in s.accounts
    ensures Consistent(Touch(s, i, now))
  {
    PutPreservesConsistency(s, i, s.accounts[i].(lastLogin := Some(now)));
  }

  /** Inserting a record whose provider ids are new keeps the store consistent (the index guards the email). */
  lemma {:induction false} InsertPreservesConsistency(s: Store, a: Account)
    requires Consistent(s)
    requires a.googleId.Some? ==> forall j :: j in s.accounts ==> s.accounts[j].googleId != a.googleId
    requires a.githubId.Some? ==> forall j :: j in s.accounts ==> s.accounts[j].githubId != a.githubId
    requires HasCredential(a) && LinkedIsVerified(a)
    ensures Consistent(Insert(s, a).store)
  {
    var r := Insert(s, a);
    if r.result.Some? {
      var m := r.store.accounts;
      forall j, k | j in m && k in m && m[j].email == m[k].email ensures j == k {
        if j != s.nextId && k != s.nextId {
          assert m[j] == s.accounts[j] && m[k] == s.accounts[k];
        }
      }
      forall j, k | j in m && k in m && m[j].googleId.Some? && m[j].googleId == m[k].googleId ensures j == k {
        if j != s.nextId && k != s.nextId {
          assert m[j] == s.accounts[j] && m[k] == s.accounts[k];
        }
      }
      forall j, k | j in m && k in m && m[j].githubId.Some? && m[j].githubId == m[k].githubId ensures j == k {
        if j != s.nextId && k != s.nextId {
          assert m[j] == s.accounts[j] && m[k] == s.accounts[k];
        }
      }
    }
  }

  lemma RemovePreservesConsistency(s: Store, i: Id)
    requires Consistent(s)
    ensures Consistent(Remove(s, i))
  {
  }

  /**
   * No two accounts hold the same live verification token, nor the same reset
   * token. The generators draw random values, so the model takes this as a
   * property of the token values it is handed (see `TokenUnused`).
   */
  ghost predicate TokensDistinct(m: map<Id, Account>) {
    VerificationTokensDistinct(m) && ResetTokensDistinct(m)
  }

  ghost predicate VerificationTokensDistinct(m: map<Id, Account>) {
    forall i, j :: i in m && j in m && m[i].emailVerificationToken.Some? && m[i].emailVerificationToken == m[j].emailVerificationToken ==> i == j
  }

  ghost predicate ResetTokensDistinct(m: map<Id, Account>) {
    forall i, j :: i in m && j in m && m[i].resetPasswordToken.Some? && m[i].resetPasswordToken == m[j].resetPasswordToken ==> i == j
  }

  /** A freshly generated token value that no account holds yet. */
  ghost predicate TokenUnused(s: Store, t: string) {
    forall i :: i in s.accounts ==>
      s.accounts[i].emailVerificationToken != Some(t) && s.accounts[i].resetPasswordToken != Some(t)
  }

  /** A token a record gains is either one it already held, none, or one no account holds. */
  ghost predicate TokenKeptOrFresh(s: Store, before: Option<string>, after: Option<string>) {
    after == before || after.None? || TokenUnused(s, after.value)
  }

  /** Writing a record back keeps tokens distinct when each token it gains is fresh. */
  lemma {:induction false} PutKeepsTokensDistinct(s: Store, i: Id, b: Account)
    requires TokensDistinct(s.accounts) && i in s.accounts
    requires TokenKeptOrFresh(s, s.accounts[i].emailVerificationToken, b.emailVerificationToken)
    requires TokenKeptOrFresh(s, s.accounts[i].resetPasswordToken, b.resetPasswordToken)
    ensures TokensDistinct(Put(s, i, b).accounts)
  {
    var m := Put(s, i, b).accounts;
    forall j, k | j in m && k in m && m[j].emailVerificationToken.Some? &&
        m[j].emailVerificationToken == m[k].emailVerificationToken
      ensures j == k
    {
      if j != i && k != i {
        assert m[j] == s.accounts[j] && m[k] == s.accounts[k];
      }
    }
    forall j, k | j in m && k in m && m[j].resetPasswordToken.Some? &&
        m[j].resetPasswordToken == m[k].resetPasswordToken
      ensures j == k
    {
      if j != i && k != i {
        assert m[j] == s.accounts[j] && m[k] == s.accounts[k];
      }
    }
  }

  /** Inserting a record whose tokens are absent or fresh keeps tokens distinct. */
  lemma {:induction false} InsertKeepsTokensDistinct(s: Store, a: Account)
    requires TokensDistinct(s.accounts)
    requires a.emailVerificationToken.None? || TokenUnused(s, a.emailVerificationToken.value)
    requires a.resetPasswordToken.None? || TokenUnused(s, a.resetPasswordToken.value)
    ensures TokensDistinct(Insert(s, a).store.accounts)
  {
    var r := Insert(s, a);
    if r.result.Some? {
      var m := r.store.accounts;
      forall j, k | j in m && k in m && m[j].emailVerificationToken.Some? &&
          m[j].emailVerificationToken == m[k].emailVerificationToken
        ensures j == k
      {
        if j != s.nextId && k != s.nextId {
          assert m[j] == s.accounts[j] && m[k] == s.accounts[k];
        }
      }
      forall j, k | j in m && k in m && m[j].resetPasswordToken.Some? &&
          m[j].resetPasswordToken == m[k].resetPasswordToken
        ensures j == k
      {
        if j != s.nextId && k != s.nextId {
          assert m[j] == s.accounts[j] && m[k] == s.accounts[k];
        }
      }
    }
  }

  /**
   * The password hasher: `hash` is the pre-save hook, `matches` is
   * `comparePassword`. Both are parameters of the model.
   */
  datatype Hasher = Hasher(hash: string -> string, matches: (string, string) -> bool)

  /** A hasher whose digest of a password matches that password. */
  ghost predicate Sound(h: Hasher) {
    forall p :: h.matches(p, h.hash(p))
  }

  /**
   * How a document id appears in a request path: `spell` is `_id.toString()`,
   * and `cast` is the store's cast of path text to an id, `None` when the text
   * is not a well-formed id. The cast may accept several spellings of one id
   * (the 24-digit hex form is read in either letter case); `spell` gives one.
   */
  datatype IdSyntax = IdSyntax(spell: Id -> string, cast: string -> Option<Id>)

  /** `comparePassword`: an account without a stored digest matches no password. */
  predicate PasswordMatches(h: Hasher, plain: string, stored: Option<string>) {
    stored.Some? && h.matches(plain, stored.value)
  }
}
