/**
 * The request-body validation chains and `handleValidationErrors`. A missing
 * body field reaches the validators as the empty string.
 */
module Validation {

  datatype Field = EmailField | PasswordField | NameField

  datatype Rule =
    | NotAnEmail             // isEmail()
    | TooShort               // isLength({ min: 6 })
    | MissingCharacterClass  // matches(/^(?=.*[a-z])(?=.*[A-Z])(?=.*\d)/)
    | NameLength             // isLength({ min: 2, max: 50 }) after trim()
    | Required               // notEmpty()

  datatype FieldError = FieldError(field: Field, rule: Rule)

  /** Either the request goes on to its handler, or it is answered 400 with the details. */
  datatype Verdict = Next | Reject(status: nat, details: seq<FieldError>)

  const MinPasswordLength: nat := 6
  const MinNameLength: nat := 2
  const MaxNameLength: nat := 50

  /** `isEmail` and `normalizeEmail` are library code and parameters of the model. */
  datatype EmailRules = EmailRules(isEmail: string -> bool, normalize: string -> string)

  // The password pattern

  /** The characters `.` does not match in a JavaScript regular expression without the `s` flag. */
  predicate IsLineTerminator(c: char) {
    c == '\n' || c == '\r' || c == '\U{2028}' || c == '\U{2029}'
  }

  datatype CharClass = Lower | Upper | Digit

  /** `[a-z]`, `[A-Z]` and `\d`: ASCII only. */
  predicate InClass(c: char, k: CharClass) {
    match k
    case Lower => 'a' <= c <= 'z'
    case Upper => 'A' <= c <= 'Z'
    case Digit => '0' <= c <= '9'
  }

  /**
   * What the lookahead `(?=.*[k])` at the start of the string means: some
   * character of class k occurs with no line terminator before it.
   */
  ghost predicate LookaheadHolds(s: string, k: CharClass) {
    exists i :: 0 <= i < |s| && InClass(s[i], k) && forall j :: 0 <= j < i ==> !IsLineTerminator(s[j])
  }

  /** Scans the first line of `s` for a character of class k. */
  function ScanFirstLine(s: string, k: CharClass): bool {
    if s == [] then false
    else if IsLineTerminator(s[0]) then false
    else if InClass(s[0], k) then true
    else ScanFirstLine(s[1..], k)
  }

  lemma {:induction false} ScanMatchesLookahead(s: string, k: CharClass)
    ensures ScanFirstLine(s, k) <==> LookaheadHolds(s, k)
  {
    if s == [] {
    } else if IsLineTerminator(s[0]) {
    } else if InClass(s[0], k) {
      assert LookaheadHolds(s, k);
    } else {
      ScanMatchesLookahead(s[1..], k);
      if ScanFirstLine(s[1..], k) {
        var i :| 0 <= i < |s[1..]| && InClass(s[1..][i], k) && forall j :: 0 <= j < i ==> !IsLineTerminator(s[1..][j]);
        assert InClass(s[i + 1], k) && forall j :: 0 <= j < i + 1 ==> !IsLineTerminator(s[j]);
      }
      if LookaheadHolds(s, k) {
        var i :| 0 <= i < |s| && InClass(s[i], k) && forall j :: 0 <= j < i ==> !IsLineTerminator(s[j]);
        assert i != 0;
        assert InClass(s[1..][i - 1], k) && forall j :: 0 <= j < i - 1 ==> !IsLineTerminator(s[1..][j]);
      }
    }
  }

  /** `/^(?=.*[a-z])(?=.*[A-Z])(?=.*\d)/.test(p)`. */
  function PasswordPattern(p: string): bool {
    ScanFirstLine(p, Lower) && ScanFirstLine(p, Upper) && ScanFirstLine(p, Digit)
  }

  /** The register and new-password rules for a password. */
  predicate PasswordAccepted(p: string) {
    |p| >= MinPasswordLength && PasswordPattern(p)
  }

  function PasswordErrors(p: string): (errs: seq<FieldError>)
    ensures errs == [] <==> PasswordAccepted(p)
    ensures |p| < MinPasswordLength <==> FieldError(PasswordField, TooShort) in errs
    ensures forall e :: e in errs ==> e.field == PasswordField
  {
    (if |p| < MinPasswordLength then [FieldError(PasswordField, TooShort)] else []) +
    (if PasswordPattern(p) then [] else [FieldError(PasswordField, MissingCharacterClass)])
  }

  /** The password rule, stated as the regular expression means it. */
  lemma {:induction false} PasswordAcceptedMeaning(p: string)
    ensures PasswordAccepted(p) <==>
      |p| >= 6 && LookaheadHolds(p, Lower) && LookaheadHolds(p, Upper) && LookaheadHolds(p, Digit)
  {
    ScanMatchesLookahead(p, Lower);
    ScanMatchesLookahead(p, Upper);
    ScanMatchesLookahead(p, Digit);
  }

  // Trimming

  /** The characters `trim()` removes: ECMAScript white space and line terminators. */
  predicate IsWhitespace(c: char) {
    || c == '\t' || c == '\n' || c == '\U{000B}' || c == '\U{000C}' || c == '\r' || c == ' '
    || c == '\U{00A0}' || c == '\U{1680}' || ('\U{2000}' <= c <= '\U{200A}')
    || c == '\U{2028}' || c == '\U{2029}' || c == '\U{202F}' || c == '\U{205F}'
    || c == '\U{3000}' || c == '\U{FEFF}'
  }

  function TrimStart(s: string): (r: string)
    ensures |r| <= |s| && r == s[|s| - |r|..]
    ensures r != [] ==> !IsWhitespace(r[0])
    ensures forall k :: 0 <= k < |s| - |r| ==> IsWhitespace(s[k])
  {
    if s != [] && IsWhitespace(s[0]) then TrimStart(s[1..]) else s
  }

  function TrimEnd(s: string): (r: string)
    ensures |r| <= |s| && r == s[..|r|]
    ensures r != [] ==> !IsWhitespace(r[|r| - 1])
    ensures forall k :: |r| <= k < |s| ==> IsWhitespace(s[k])
  {
    if s != [] && IsWhitespace(s[|s| - 1]) then TrimEnd(s[..|s| - 1]) else s
  }

  function Trim(s: string): string {
    TrimEnd(TrimStart(s))
  }

  /** The slice `trim()` keeps, starting where `TrimStart` stopped. */
  lemma {:induction false} TrimIsSlice(s: string)
    ensures |s| - |TrimStart(s)| + |Trim(s)| <= |s|
    ensures Trim(s) == s[|s| - |TrimStart(s)|..|s| - |TrimStart(s)| + |Trim(s)|]
  {
    var t := TrimStart(s);
    var u := TrimEnd(t);
    var i := |s| - |t|;
    calc {
      u;
      t[..|u|];
      s[i..][..|u|];
      s[i..i + |u|];
    }
  }

  /** What `trim()` drops at the end is white space. */
  lemma {:induction false} TrimDropsTrailingWhitespace(s: string, k: int)
    requires |s| - |TrimStart(s)| + |Trim(s)| <= k < |s|
    ensures IsWhitespace(s[k])
  {
    var t := TrimStart(s);
    var i := |s| - |t|;
    var u := TrimEnd(t);
    assert |u| <= k - i < |t|;
    assert IsWhitespace(t[k - i]);
    assert s[k] == t[k - i];
  }

  /**
   * `trim()` keeps a middle slice of the string that neither starts nor ends
   * in white space, and drops only white space.
   */
  lemma TrimSlice(s: string)
    ensures var i := |s| - |TrimStart(s)|;
      var j := i + |Trim(s)|;
      && 0 <= i <= j <= |s| && Trim(s) == s[i..j]
      && (forall k :: 0 <= k < i ==> IsWhitespace(s[k]))
      && (forall k :: j <= k < |s| ==> IsWhitespace(s[k]))
    ensures Trim(s) != [] ==> !IsWhitespace(Trim(s)[0]) && !IsWhitespace(Trim(s)[|Trim(s)| - 1])
  {
    TrimIsSlice(s);
    forall k | |s| - |TrimStart(s)| + |Trim(s)| <= k < |s| ensures IsWhitespace(s[k]) {
      TrimDropsTrailingWhitespace(s, k);
    }
    var t := TrimStart(s);
    var u := TrimEnd(t);
    if u != [] {
      assert u[0] == t[0];
    }
  }

  // The chains

  /** `trim()` then `isLength({ min: 2, max: 50 })`. */
  predicate NameAccepted(n: string) {
    MinNameLength <= |Trim(n)| <= MaxNameLength
  }

  function EmailErrors(e: string, rules: EmailRules): (errs: seq<FieldError>)
    ensures errs == [] <==> rules.isEmail(e)
  {
    if rules.isEmail(e) then [] else [FieldError(EmailField, NotAnEmail)]
  }

  function NameErrors(n: string): (errs: seq<FieldError>)
    ensures errs == [] <==> NameAccepted(n)
  {
    if NameAccepted(n) then [] else [FieldError(NameField, NameLength)]
  }

  datatype RegisterBody = RegisterBody(email: string, password: string, name: string)
  datatype LoginBody = LoginBody(email: string, password: string)

  /** `registerValidation`: email, password strength and name length, in that order. */
  function RegisterErrors(b: RegisterBody, rules: EmailRules): (errs: seq<FieldError>)
    ensures errs == [] <==> rules.isEmail(b.email) && PasswordAccepted(b.password) && NameAccepted(b.name)
    ensures forall e :: e in errs && e.field == PasswordField ==> e in PasswordErrors(b.password)
  {
    EmailErrors(b.email, rules) + PasswordErrors(b.password) + NameErrors(b.name)
  }

  /** The body the register handler sees: the email normalised and the name trimmed. */
  function SanitizeRegister(b: RegisterBody, rules: EmailRules): (r: RegisterBody)
    ensures r.email == rules.normalize(b.email) && r.password == b.password
    ensures r.name == Trim(b.name)
    ensures NameAccepted(b.name) ==> MinNameLength <= |r.name| <= MaxNameLength
  {
    RegisterBody(rules.normalize(b.email), b.password, Trim(b.name))
  }

  /** `loginValidation`: a valid email and any non-empty password; no strength rule. */
  function LoginErrors(b: LoginBody, rules: EmailRules): (errs: seq<FieldError>)
    ensures errs == [] <==> rules.isEmail(b.email) && b.password != ""
  {
    EmailErrors(b.email, rules) + (if b.password == "" then [FieldError(PasswordField, Required)] else [])
  }

  function SanitizeLogin(b: LoginBody, rules: EmailRules): LoginBody {
    LoginBody(rules.normalize(b.email), b.password)
  }

  /** `resetPasswordValidation` (the forgot-password route): the email alone. */
  function ForgotPasswordErrors(email: string, rules: EmailRules): (errs: seq<FieldError>)
    ensures errs == [] <==> rules.isEmail(email)
  {
    EmailErrors(email, rules)
  }

  /** `newPasswordValidation` (the reset-password route): the password alone; the token is left to the handler. */
  function NewPasswordErrors(password: string): (errs: seq<FieldError>)
    ensures errs == [] <==> PasswordAccepted(password)
  {
    PasswordErrors(password)
  }

  /** `handleValidationErrors`: any error stops the request with 400 and the details. */
  function HandleValidationErrors(errs: seq<FieldError>): (v: Verdict)
    ensures v.Next? <==> errs == []
    ensures v.Reject? ==> v.status == 400 && v.details == errs
  {
    if errs == [] then Next else Reject(400, errs)
  }

  // Examples

  /** A password that meets every rule. */
  lemma StrongPasswordExample()
    ensures PasswordAccepted("Passw0rd")
  {
    assert ScanFirstLine("Passw0rd", Lower) by {
      assert "Passw0rd"[1..] == "assw0rd";
    }
    assert ScanFirstLine("Passw0rd", Digit) by {
      assert "Passw0rd"[1..] == "assw0rd";
      assert "assw0rd"[1..] == "ssw0rd";
      assert "ssw0rd"[1..] == "sw0rd";
      assert "sw0rd"[1..] == "w0rd";
      assert "w0rd"[1..] == "0rd";
    }
  }

  /** The classes must all appear before the first line break: this password is refused although it holds all three. */
  lemma LineBreakHidesClasses()
    ensures !PasswordAccepted("abcdef\nA1")
  {
    assert !ScanFirstLine("abcdef\nA1", Upper) by {
      assert "abcdef\nA1"[1..] == "bcdef\nA1";
      assert "bcdef\nA1"[1..] == "cdef\nA1";
      assert "cdef\nA1"[1..] == "def\nA1";
      assert "def\nA1"[1..] == "ef\nA1";
      assert "ef\nA1"[1..] == "f\nA1";
      assert "f\nA1"[1..] == "\nA1";
    }
  }
}
