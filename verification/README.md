# Account lifecycle of the user backend, in Dafny

This project models the account records of an Express user-management
backend and every route handler that changes them:
- the Google and GitHub sign-in callbacks, which reconcile a provider identity with one account;
- local registration, login, email verification and its resend, and the forgotten-password and reset-password pair;
- the `auth` middleware, which turns a bearer token into a signed-in account, and the two guards behind it;
- the profile, password and self-delete routes of a signed-in account, and the admin status and delete routes;
- the request-body validation chains.

The model has two layers.
- **Specification functions** over an immutable `Store`, a map from document id to `Account`. Each handler is a function returning the new store and its reply; the lemmas relate the handlers to each other.
  - `Accounts` holds the record, the store and its queries, and the store invariants.
  - `Session` holds the session token; `Validation` holds the validation chains.
  - `OAuth`, `Lifecycle`, `Guards` and `UserRoutes` hold the handlers; `Replies` holds the answers.
- **An imperative store** (`Server.AccountStore`), a class whose `accounts` and `nextId` fields the handler methods update step by step. Each method is proved to end in the state and reply the matching function describes, and to keep the store consistent.

Conventions:
- `findOne` returns the first matching document in insertion order, modelled as the least matching id.
- A consistent store has unique emails and at most one account per Google id and per GitHub id. Every account can authenticate, with a password or a provider link, and every linked account is verified.
- Everything outside the handlers is a parameter:
  - the password hasher and `comparePassword` (`Hasher`);
  - the clock (`now`) and the token lifetimes (`ttl`);
  - each freshly generated token value;
  - whether an email was dispatched (`mailSent`);
  - the JWT text decoder (`decode`);
  - `isEmail` and `normalizeEmail` (`EmailRules`).

Behaviour of the code worth knowing, which the model keeps:
- Login answers a disabled account with its own 401 before the password is checked (routes/auth.js:72-74). Only an unknown email and a wrong password share one answer (routes/auth.js:67-69, 78-80).
- Forgot-password does not answer the same whether or not the email is registered, although the comment at routes/auth.js:184 says it should. An unknown email gets one 200 message (routes/auth.js:185). A known one gets another (routes/auth.js:195), or a 500 when the reset mail fails (routes/auth.js:198).
- The admin delete route compares the raw `:userId` text with the admin's own id as `toString()` writes it (routes/user.js:139), and only then casts the text to an id (routes/user.js:141). An id written in another spelling the cast accepts, such as upper-case hex, gets past the test, and the admin's own account is deleted (`UserRoutes.AdminDeletesSelfByOtherSpelling`).

## Model

| member | source | states |
|---|---|---|
| `Accounts.FindBelow` | routes/auth.js:21 | the least id below the bound whose document matches, or none below it matches |
| `Accounts.FindOne` | routes/auth.js:66 | `findOne` finds a matching document exactly when one exists, and no earlier document matches |
| `Accounts.FindOneUnique` | routes/oauth.js:32 | when exactly one document matches, `findOne` returns it |
| `Accounts.Insert` | routes/oauth.js:53-62 | saving a new document is refused, leaving the store as it was, exactly when its email is taken; otherwise it gets the next id and nothing else changes |
| `Accounts.PutPreservesConsistency` | routes/oauth.js:45-48 | writing a record back keeps the store consistent when the email stays and any provider id it gains is free |
| `Accounts.TouchPreservesConsistency` | routes/auth.js:83-84 | setting `lastLogin` keeps the store consistent |
| `Accounts.InsertPreservesConsistency` | routes/oauth.js:53-62 | a new record with free provider ids, a credential, and verified if linked, keeps the store consistent |
| `Accounts.RemovePreservesConsistency` | routes/user.js:84 | deleting a document keeps the store consistent |
| `Accounts.PutKeepsTokensDistinct` | routes/auth.js:159-160 | writing a record back whose tokens are kept, cleared or fresh keeps tokens distinct |
| `Accounts.InsertKeepsTokensDistinct` | routes/auth.js:27-35 | a new record whose tokens are absent or fresh keeps tokens distinct |
| `Session.Issue` | utils/jwt.js:3-9 | a token for the user id under the server secret, expiring seven days after issue |
| `Session.Verify` | utils/jwt.js:11-17 | a token yields its user id exactly when it decoded, carries the server signature and `now < exp`; every failure is the same |
| `Session.IssuedTokenLifetime` | utils/jwt.js:7 | an issued token verifies for exactly seven days |
| `Session.RotatedSecretRejects` | utils/jwt.js:13-15 | a token signed under another secret never verifies |
| `Validation.ScanMatchesLookahead` | middleware/validation.js:22 | scanning the first line for a class agrees with the lookahead `(?=.*[k])`: a member of the class before any line terminator |
| `Validation.PasswordErrors` | middleware/validation.js:19-23 | no error exactly when the password is long enough and matches the pattern; the length error exactly when it is under 6 characters |
| `Validation.PasswordAcceptedMeaning` | middleware/validation.js:20-22 | a password is accepted iff it has at least 6 characters and a lowercase letter, an uppercase letter and a digit, each before the first line terminator |
| `Validation.StrongPasswordExample` | middleware/validation.js:22 | `Passw0rd` is accepted |
| `Validation.LineBreakHidesClasses` | middleware/validation.js:22 | `abcdef\nA1` is refused although it contains every class |
| `Validation.TrimStart` | middleware/validation.js:25 | drops exactly the leading white space |
| `Validation.TrimEnd` | middleware/validation.js:25 | drops exactly the trailing white space |
| `Validation.TrimSlice` | middleware/validation.js:25 | `trim()` keeps a middle slice that neither starts nor ends with white space and drops only white space |
| `Validation.EmailErrors` | middleware/validation.js:15-17 | no error exactly when `isEmail` holds |
| `Validation.NameErrors` | middleware/validation.js:24-27 | no error exactly when the trimmed name has 2 to 50 characters |
| `Validation.RegisterErrors` | middleware/validation.js:14-29 | no error exactly when email, password and name rules all hold; every password error is one of the password rules |
| `Validation.SanitizeRegister` | middleware/validation.js:18-25 | the handler sees the email normalised, the password unchanged and the name as `trim()` leaves it (see `Validation.TrimSlice`), which is 2 to 50 characters long for an accepted name |
| `Validation.LoginErrors` | middleware/validation.js:31-40 | no error exactly when the email is valid and the password is non-empty; no strength rule |
| `Validation.ForgotPasswordErrors` | middleware/validation.js:42-48 | only the email is checked |
| `Validation.NewPasswordErrors` | middleware/validation.js:50-57 | only the password is checked, by the register password rules |
| `Validation.HandleValidationErrors` | middleware/validation.js:3-12 | any error answers 400 with exactly those details; none calls `next` |
| `OAuth.FirstEntry` | routes/oauth.js:42 | reading element 0 of a profile array distinguishes a missing array (which throws), an empty one, and its first entry |
| `OAuth.ReconcileGoogle` | routes/oauth.js:29-67 | a failure leaves the store unchanged and is never a refused save; a resolved account holds the Google id and was signed in now; at most the new id is added; no other account changes |
| `OAuth.GoogleLinkedAccountWins` | routes/oauth.js:32-38 | the account already linked to the Google id is returned and only its `lastLogin` changes, whoever owns the asserted email |
| `OAuth.GoogleMergesByEmail` | routes/oauth.js:42-50 | with no linked account, the owner of the asserted email gets the Google id, is verified and signed in; nothing else changes and no account is created |
| `OAuth.GoogleCreatesAccount` | routes/oauth.js:53-63 | with neither match, a new verified, password-less account with the Google id, email, display name and first photo or `''` is created |
| `OAuth.GooglePreservesConsistency` | routes/oauth.js:29-67 | Google sign-in keeps emails and provider ids unique |
| `OAuth.GoogleIdempotent` | routes/oauth.js:32-38 | signing in with the same Google id again returns the same account |
| `OAuth.GoogleKeepsTokensDistinct` | routes/oauth.js:29-67 | Google sign-in keeps tokens distinct |
| `OAuth.ReconcileGitHub` | routes/oauth.js:74-112 | a failure leaves the store unchanged; a failure may be a refused save, when the `<username>@github.com` fallback or a disclosed address already belongs to an account without a GitHub link; a resolved account holds the GitHub id and was signed in now; at most the new id is added; no other account changes |
| `OAuth.GitHubCreatesAccount` | routes/oauth.js:98-108 | with neither match and a non-empty disclosed email, a new verified, password-less account with the GitHub id, that email, the display name or else the username, and the first photo or `''` is created |
| `OAuth.GitHubLinkedAccountWins` | routes/oauth.js:77-84 | the account already linked to the GitHub id is returned and only its `lastLogin` changes |
| `OAuth.GitHubMergeKeepsGoogleLink` | routes/oauth.js:87-95 | the email merge sets only `githubId`, `isEmailVerified` and `lastLogin`, so an existing Google link survives |
| `OAuth.GitHubFallbackIdentity` | routes/oauth.js:98-105 | without an email the new account gets `<username>@github.com`, and the username as name when the display name is missing |
| `OAuth.GitHubFallbackAddressTaken` | routes/oauth.js:87-108 | the synthetic address is never looked up: when another account owns it the save is refused and the store is unchanged |
| `OAuth.GitHubPreservesConsistency` | routes/oauth.js:74-112 | GitHub sign-in keeps emails and provider ids unique |
| `OAuth.GitHubIdempotent` | routes/oauth.js:77-84 | signing in with the same GitHub id again returns the same account |
| `OAuth.GitHubKeepsTokensDistinct` | routes/oauth.js:74-112 | GitHub sign-in keeps tokens distinct |
| `Lifecycle.Register` | routes/auth.js:16-58 | a taken email answers 400 and changes nothing; otherwise a new unverified account with the hashed password and the token is stored, and the answer is 201 whether or not the mail went out |
| `Lifecycle.Login` | routes/auth.js:61-99 | an unknown email and a wrong password answer 401 bad credentials, a disabled account a distinct 401 before the password is checked; success only sets `lastLogin` and issues a token for that id |
| `Lifecycle.LoginHidesWhichCredentialFailed` | routes/auth.js:67-80 | an unknown email and a wrong password get the same answer |
| `Lifecycle.VerifyEmail` | routes/auth.js:102-142 | a missing token answers 400; it succeeds exactly when some account holds the token with expiry after now, and then only sets verified and clears the token and its expiry |
| `Lifecycle.VerifyEmailSingleUse` | routes/auth.js:111-124 | a verification token that worked is refused on every later use |
| `Lifecycle.RegisterThenVerify` | routes/auth.js:34-35 | a fresh registration's token verifies the new account before its expiry and is refused from the expiry on |
| `Lifecycle.VerifyEmailAtExpiryFails` | routes/auth.js:113 | the expiry comparison is strict |
| `Lifecycle.ResendVerification` | routes/auth.js:145-175 | unknown email 404, verified account 400, both changing nothing; otherwise the new token is stored before the mail, and stays when the mail fails with 500 |
| `Lifecycle.ResendInvalidatesEarlierToken` | routes/auth.js:159-160 | after a resend the earlier token no longer verifies |
| `Lifecycle.ForgotPassword` | routes/auth.js:178-205 | an unknown email answers 200 and changes nothing; a known one stores the reset token, then answers by the mail outcome |
| `Lifecycle.ResetPassword` | routes/auth.js:208-238 | a missing token answers 400; it succeeds exactly when some account holds the live reset token, and then replaces only its password and clears the reset fields |
| `Lifecycle.ResetPasswordSingleUse` | routes/auth.js:217-230 | a reset token that worked is refused on every later use |
| `Lifecycle.ForgotThenReset` | routes/auth.js:188-189 | the reset token just handed out for a registered email resets that account's password strictly before `now + ttl` and is refused from then on |
| `Lifecycle.ForgotInvalidatesEarlierToken` | routes/auth.js:188-189 | after a second forgot-password request the earlier reset token no longer works |
| `Lifecycle.ResetThenLogin` | routes/auth.js:227-230 | after a reset the new password signs the active account in |
| `Lifecycle.RegisterRoute` | routes/auth.js:16 | a body failing the register rules answers 400 with the details before the handler; otherwise the handler sees the sanitised body |
| `Lifecycle.LoginRoute` | routes/auth.js:61 | the login rules run first; the handler sees the normalised email |
| `Lifecycle.ForgotPasswordRoute` | routes/auth.js:178 | an invalid email answers 400; otherwise the handler sees it normalised |
| `Lifecycle.ResetPasswordRoute` | routes/auth.js:208 | a password failing the rules answers 400 before the token is looked at |
| `Lifecycle.RegisterPreservesConsistency` | routes/auth.js:21-35 | registration keeps the store consistent |
| `Lifecycle.LoginPreservesConsistency` | routes/auth.js:83-84 | login keeps the store consistent |
| `Lifecycle.VerifyPreservesConsistency` | routes/auth.js:121-124 | verification keeps the store consistent |
| `Lifecycle.ResendPreservesConsistency` | routes/auth.js:159-160 | resending keeps the store consistent |
| `Lifecycle.ForgotPreservesConsistency` | routes/auth.js:189-190 | issuing a reset token keeps the store consistent |
| `Lifecycle.ResetPreservesConsistency` | routes/auth.js:227-230 | resetting keeps the store consistent |
| `Lifecycle.RegisterKeepsTokensDistinct` | routes/auth.js:34-35 | a fresh verification token keeps tokens distinct |
| `Lifecycle.ResendKeepsTokensDistinct` | routes/auth.js:159-160 | a fresh re-issued token keeps tokens distinct |
| `Lifecycle.ForgotKeepsTokensDistinct` | routes/auth.js:189-190 | a fresh reset token keeps tokens distinct |
| `Lifecycle.VerifyKeepsTokensDistinct` | routes/auth.js:121-124 | consuming a verification token keeps tokens distinct |
| `Lifecycle.ResetKeepsTokensDistinct` | routes/auth.js:227-230 | consuming a reset token keeps tokens distinct |
| `Lifecycle.LoginKeepsTokensDistinct` | routes/auth.js:83-84 | login keeps tokens distinct |
| `Guards.IndexFrom` | middleware/auth.js:6 | the first occurrence of the pattern at or after the start, or none at all |
| `Guards.ReplaceFirst` | middleware/auth.js:6 | only the first occurrence is replaced; without one the text is unchanged |
| `Guards.ExtractToken` | middleware/auth.js:6 | a token exactly when a header was sent |
| `Guards.BearerHeaderYieldsToken` | middleware/auth.js:6 | `Bearer <t>` yields exactly `t` |
| `Guards.HeaderWithoutPrefixIsKept` | middleware/auth.js:6 | a header without `Bearer ` anywhere is used whole as the token |
| `Guards.LowerCaseSchemeIsKept` | middleware/auth.js:6 | the prefix is case-sensitive: `bearer abc` is not stripped |
| `Guards.Authenticate` | middleware/auth.js:4-28 | admits exactly when a non-empty token verifies and names an existing, active account, which it returns; every refusal is 401, a missing or empty token the no-token 401 |
| `Guards.RequireEmailVerification` | middleware/auth.js:30-38 | passes exactly a verified account; otherwise 403 verification required |
| `Guards.RequireAdmin` | middleware/auth.js:40-45 | passes exactly the role `admin`; otherwise 403 |
| `Guards.SessionRoundTrip` | middleware/auth.js:6-24 | a token issued for an active account, sent as `Bearer <token>`, admits that account for seven days and is refused as invalid afterwards |
| `Guards.RotatedSecretRefuses` | middleware/auth.js:12-27 | after a secret change every old token is refused as invalid |
| `UserRoutes.UpdateProfile` | routes/user.js:20-52 | a truthy name is stored trimmed and a present avatar as given, even `''`; with neither 400 and no change; no other field or account changes |
| `UserRoutes.ChangePassword` | routes/user.js:55-79 | a missing field answers 400; a wrong current password 400; both change nothing; otherwise only the password is replaced, with no strength rule |
| `UserRoutes.DeleteAccount` | routes/user.js:82-90 | removes exactly the signed-in account |
| `UserRoutes.UpdateStatus` | routes/user.js:104-132 | a malformed id 500, an unknown id 404, both changing nothing; otherwise `isActive` is applied when present, even `false`, and `role` when truthy, nothing else changes, and an empty update still answers 200 |
| `UserRoutes.DeleteUser` | routes/user.js:135-154 | path text equal to the caller's own id as `toString()` spells it answers 400; otherwise text that does not cast to an id answers 500 and an unknown id 404, all changing nothing; otherwise exactly the account the text casts to is removed |
| `UserRoutes.SelfRoute` | routes/user.js:20 | a request `auth` refuses gets its 401 and changes nothing; otherwise the handler runs for the admitted account |
| `UserRoutes.AdminRoute` | routes/user.js:93-154 | a request `auth` refuses gets its 401, a signed-in non-admin 403, both changing nothing; only an admin reaches the handler |
| `UserRoutes.OnlyAdminsMutate` | routes/user.js:93-135 | unless `auth` admits an admin, an admin route answers an error and changes nothing; a signed-in non-admin gets 403 |
| `UserRoutes.AdminKeepsOwnAccount` | routes/user.js:139-141 | no admin request removes the admin's own account when a `:userId` naming the admin is written in the canonical spelling |
| `UserRoutes.AdminDeletesSelfByOtherSpelling` | routes/user.js:139-141 | an admin whose `:userId` is another accepted spelling of their own id deletes their own account with 200 |
| `UserRoutes.DeactivationTakesEffect` | middleware/auth.js:19-21 | once an admin sets `isActive` to false, a still-valid session of that account is refused on its next request |
| `UserRoutes.DeletedAccountSessionRefused` | middleware/auth.js:13-17 | after self-deletion a still-valid session is refused: the account is gone |
| `UserRoutes.ChangedPasswordSignsIn` | routes/user.js:70-71 | after a password change the new password signs the active account in |
| `UserRoutes.UpdateProfilePreservesConsistency` | routes/user.js:37-41 | a profile update keeps the store consistent |
| `UserRoutes.ChangePasswordPreservesConsistency` | routes/user.js:70-71 | a password change keeps the store consistent |
| `UserRoutes.UpdateStatusPreservesConsistency` | routes/user.js:113-117 | a status update keeps the store consistent |
| `UserRoutes.DeletionsPreserveConsistency` | routes/user.js:84 | both deletions keep the store consistent |
| `UserRoutes.UpdateProfileKeepsTokensDistinct` | routes/user.js:37-41 | a profile update keeps tokens distinct |
| `UserRoutes.ChangePasswordKeepsTokensDistinct` | routes/user.js:70-71 | a password change keeps tokens distinct |
| `UserRoutes.UpdateStatusKeepsTokensDistinct` | routes/user.js:113-117 | a status update keeps tokens distinct |
| `UserRoutes.DeletionsKeepTokensDistinct` | routes/user.js:84 | both deletions keep tokens distinct |
| `Server.AccountStore.SaveNew` | routes/oauth.js:62 | saving a new document does what `Insert` describes |
| `Server.AccountStore.SaveExisting` | routes/oauth.js:37 | saving a stored document replaces exactly that document |
| `Server.AccountStore.ReconcileGoogle` | routes/oauth.js:29-67 | the Google callback, step by step, ends as `OAuth.ReconcileGoogle` says and keeps the store consistent |
| `Server.AccountStore.ReconcileGitHub` | routes/oauth.js:74-112 | the GitHub callback ends as `OAuth.ReconcileGitHub` says and keeps the store consistent |
| `Server.AccountStore.Register` | routes/auth.js:16-58 | ends as `Lifecycle.Register` says, keeping the store consistent |
| `Server.AccountStore.Login` | routes/auth.js:61-99 | ends as `Lifecycle.Login` says, keeping the store consistent |
| `Server.AccountStore.VerifyEmail` | routes/auth.js:102-142 | ends as `Lifecycle.VerifyEmail` says, keeping the store consistent |
| `Server.AccountStore.ResendVerification` | routes/auth.js:145-175 | ends as `Lifecycle.ResendVerification` says, keeping the store consistent |
| `Server.AccountStore.ForgotPassword` | routes/auth.js:178-205 | ends as `Lifecycle.ForgotPassword` says, keeping the store consistent |
| `Server.AccountStore.ResetPassword` | routes/auth.js:208-238 | ends as `Lifecycle.ResetPassword` says, keeping the store consistent |
| `Server.AccountStore.Authenticate` | middleware/auth.js:4-28 | decides as `Guards.Authenticate` says, reading the collection only |
| `Server.AccountStore.UpdateProfile` | routes/user.js:20-52 | ends as `UserRoutes.UpdateProfile` says, keeping the store consistent |
| `Server.AccountStore.ChangePassword` | routes/user.js:55-79 | ends as `UserRoutes.ChangePassword` says, keeping the store consistent |
| `Server.AccountStore.DeleteAccount` | routes/user.js:82-90 | ends as `UserRoutes.DeleteAccount` says, keeping the store consistent |
| `Server.AccountStore.UpdateStatus` | routes/user.js:104-132 | ends as `UserRoutes.UpdateStatus` says, keeping the store consistent |
| `Server.AccountStore.DeleteUser` | routes/user.js:135-154 | ends as `UserRoutes.DeleteUser` says, keeping the store consistent |
| `Server.AccountStore.SelfRequest` | routes/user.js:20-90 | `auth`, then the account's own route, ends as `UserRoutes.SelfRoute` says |
| `Server.AccountStore.AdminRequest` | routes/user.js:93-154 | `auth`, `requireAdmin`, then the admin route, ends as `UserRoutes.AdminRoute` says |

## Left out

- Signing: JWT encoding, decoding and cryptography are abstract. A token records the secret it was signed with, and the header text is turned into a token by the `decode` parameter.
- models/User.js is not part of this model. Its parts become parameters:
  - the pre-save hash and `comparePassword` are the `Hasher` parameter; an account without a stored digest matches no password;
  - the token generators become a token value and a lifetime `ttl` handed to each handler;
  - the field defaults are taken as active, role `user`, avatar `''`.
- The unique index on email is an assumption about models/User.js: a second document with a taken email is refused at save.
- Schema validators run by `runValidators` (routes/user.js:40, 116) are not modelled, since the schema is not part of this model. A whitespace-only name or an unknown role is stored as given.
- Store failures are not modelled. Every route handler answers them with its 500, and the `auth` middleware with its 401 (middleware/auth.js:25-27). The one exception is a malformed `:userId` on the admin routes, answered 500.
- An email query whose value is absent (`{ email: undefined }`) matches no account. This is an assumption about the store. Mongoose drops a filter key whose value is `undefined`, so the query may instead match every document and return the first account. Under that reading:
  - resend-verification without an `email` (routes/auth.js:147-149) re-issues the token of the first account, or answers 400 when that account is verified;
  - a GitHub profile with an empty `emails` list (routes/oauth.js:87) signs in as the first account and links it;
  - `OAuth.GitHubFallbackIdentity` and `OAuth.GitHubFallbackAddressTaken` hold only under the assumption.
- Request body values are strings, booleans or absent. `express.json` also accepts objects, and neither verify-email (routes/auth.js:104-114) nor reset-password (routes/auth.js:210-219) checks that `token` is a string. An object token such as `{"$ne": null}` becomes a query operator and matches any account holding a live token. `Lifecycle.VerifyEmail`, `Lifecycle.ResetPassword`, `Lifecycle.VerifyEmailSingleUse` and `Lifecycle.ResetPasswordSingleUse` describe string tokens only.
- Email dispatch (services/emailService.js) is reduced to a success flag. The welcome mail after verification (routes/auth.js:127-131) does not affect the answer, so it is not a parameter.
- Timestamps: one abstract clock is used throughout. `Date.now()` milliseconds and the JWT's seconds are not distinguished.
- The reply bodies are simplified:
  - messages are an error kind;
  - the serialised user is the account id;
  - the admin list's projection (routes/user.js:95) is not modelled, and `UserRoutes.ListUsers` only answers 200.
- JavaScript values other than strings, booleans and an absent field are not modelled, for example a numeric `name` whose `trim()` throws.
- Concurrency: handlers run one at a time. Interleaved read-then-write is not modelled.
- `isEmail` and `normalizeEmail` are parameters; their internals are library code.
- String lengths, in `isLength` (middleware/validation.js:20, 26, 52) and elsewhere, are counted in Unicode scalar values, since a Dafny `char` is one. Recent versions of the validator library do not count the variation selectors U+FE0E and U+FE0F, and that discount is not modelled: a password such as `Ab1cd` followed by U+FE0F is 6 characters long here but 5 for such a version, which rejects it as too short. The library version is not part of this model.
- Express wiring, rate limiting, the OAuth handshake and redirects, `/me`, `GET /profile` and logout are not modelled. Neither are Passport serialisation, the frontend script and the mail templates.
