/**
 * RegisterViewModel: the registration form's input rules, the email pattern
 * and the synchronous part of the Register command.
 */
module Registration {
  import opened Wrappers
  import Hashing
  import Auth

  /**
   * .NET char.IsWhiteSpace, which is also the set the regex class \s matches:
   * U+0009..U+000D, U+0085 and the Unicode separators (Zs, Zl, Zp).
   */
  predicate IsWhiteSpace(c: char) {
    || c == ' '
    || '\t' <= c <= '\r'
    || c == '\U{0085}'
    || c == '\U{00A0}'
    || c == '\U{1680}'
    || '\U{2000}' <= c <= '\U{200A}'
    || c == '\U{2028}'
    || c == '\U{2029}'
    || c == '\U{202F}'
    || c == '\U{205F}'
    || c == '\U{3000}'
  }

  /** string.IsNullOrWhiteSpace for a non-null string: empty or all whitespace. */
  predicate IsBlank(s: string) {
    forall i :: 0 <= i < |s| ==> IsWhiteSpace(s[i])
  }

  /**
   * String.Length in C#: the number of UTF-16 code units, two for a
   * character outside the Basic Multilingual Plane.
   */
  function Utf16Length(s: string): (n: nat)
    ensures |s| <= n <= 2 * |s|
  {
    if s == [] then 0
    else Utf16Length(s[..|s| - 1]) + (if s[|s| - 1] as int < 0x1_0000 then 1 else 2)
  }

  /** The regex class [^@\s]. */
  predicate IsPatternChar(c: char) {
    c != '@' && !IsWhiteSpace(c)
  }

  /** The regex [^@\s]+ matching all of `s`. */
  predicate IsPatternRun(s: string) {
    |s| > 0 && forall i :: 0 <= i < |s| ==> IsPatternChar(s[i])
  }

  /** `s` is [^@\s]+ "@" [^@\s]+ "." [^@\s]+, taken as a concatenation of its parts. */
  ghost predicate MatchesEmailBody(s: string) {
    exists at, dot ::
      && 0 <= at < dot < |s|
      && s[at] == '@'
      && s[dot] == '.'
      && IsPatternRun(s[..at])
      && IsPatternRun(s[at + 1..dot])
      && IsPatternRun(s[dot + 1..])
  }

  /**
   * Regex.IsMatch(s, @"^[^@\s]+@[^@\s]+\.[^@\s]+$"): the `$` of .NET also
   * matches just before one final line feed.
   */
  ghost predicate MatchesEmailRegex(s: string) {
    || MatchesEmailBody(s)
    || (|s| > 0 && s[|s| - 1] == '\n' && MatchesEmailBody(s[..|s| - 1]))
  }

  /**
   * Exactly one '@', not first; no whitespace; after the '@' a '.' with at
   * least one character on each side of it.
   */
  predicate HasEmailShape(s: string) {
    exists at | 0 < at < |s| ::
      && s[at] == '@'
      && (forall i | 0 <= i < |s| && i != at :: IsPatternChar(s[i]))
      && (exists dot | at + 1 < dot < |s| - 1 :: s[dot] == '.')
  }

  /** The shape test answers exactly the pattern. */
  lemma EmailShapeIsPattern(s: string)
    ensures HasEmailShape(s) <==> MatchesEmailBody(s)
  {
  }

  /** RegisterViewModel.IsValidEmail: total, answers exactly the regex match. */
  function IsValidEmail(email: string): (valid: bool)
    ensures valid <==> MatchesEmailRegex(email)
  {
    EmailShapeIsPattern(email);
    if |email| > 0 && email[|email| - 1] == '\n' then
      EmailShapeIsPattern(email[..|email| - 1]);
      HasEmailShape(email) || HasEmailShape(email[..|email| - 1])
    else
      HasEmailShape(email)
  }

  /** The eight input rules of ValidateInput, named by what fails. */
  datatype Rule =
    | NameRequired
    | NameTooShort
    | EmailRequired
    | EmailInvalid
    | PasswordRequired
    | PasswordTooShort
    | ConfirmationRequired
    | PasswordMismatch

  /** The order in which ValidateInput checks the rules. */
  function Rank(r: Rule): nat {
    match r
    case NameRequired => 1
    case NameTooShort => 2
    case EmailRequired => 3
    case EmailInvalid => 4
    case PasswordRequired => 5
    case PasswordTooShort => 6
    case ConfirmationRequired => 7
    case PasswordMismatch => 8
  }

  /** The four input fields of the form. */
  datatype Form = Form(name: string, email: string, password: string, confirmPassword: string)

  /** Whether `f` breaks rule `r`, taken on its own. */
  predicate Violates(f: Form, r: Rule) {
    match r
    case NameRequired => IsBlank(f.name)
    case NameTooShort => Utf16Length(f.name) < 2
    case EmailRequired => IsBlank(f.email)
    case EmailInvalid => !IsValidEmail(f.email)
    case PasswordRequired => IsBlank(f.password)
    case PasswordTooShort => Utf16Length(f.password) < 6
    case ConfirmationRequired => IsBlank(f.confirmPassword)
    case PasswordMismatch => f.password != f.confirmPassword
  }

  /** The rule ValidateInput reports for `f`, if any. */
  function FirstViolation(f: Form): (r: Option<Rule>)
    ensures r.Some? ==> Violates(f, r.value)
  {
    if IsBlank(f.name) then Some(NameRequired)
    else if Utf16Length(f.name) < 2 then Some(NameTooShort)
    else if IsBlank(f.email) then Some(EmailRequired)
    else if !IsValidEmail(f.email) then Some(EmailInvalid)
    else if IsBlank(f.password) then Some(PasswordRequired)
    else if Utf16Length(f.password) < 6 then Some(PasswordTooShort)
    else if IsBlank(f.confirmPassword) then Some(ConfirmationRequired)
    else if f.password != f.confirmPassword then Some(PasswordMismatch)
    else None
  }

  /** The reported rule is the broken rule that comes first in the order. */
  lemma FirstViolationIsEarliest(f: Form, r: Rule)
    ensures FirstViolation(f) == Some(r) <==>
      Violates(f, r) && forall earlier :: Rank(earlier) < Rank(r) ==> !Violates(f, earlier)
  {
  }

  /** A form passes exactly when it breaks none of the eight rules. */
  lemma NoViolationMeansAllRulesPass(f: Form)
    ensures FirstViolation(f).None? <==> forall r :: !Violates(f, r)
  {
  }

  /**
   * The length rule counts the untrimmed name: " A" has one visible
   * character but passes both name rules, and this form passes all eight.
   */
  lemma UntrimmedNameLengthCounts()
    ensures FirstViolation(Form(" A", "a@b.co", "secret", "secret")) == None
  {
    var e := "a@b.co";
    assert !IsWhiteSpace(" A"[1]) && !IsWhiteSpace(e[0]);
    assert e[1] == '@' && e[3] == '.';
    assert HasEmailShape(e);
    assert !IsWhiteSpace("secret"[0]);
  }

  /**
   * The length rules count UTF-16 code units: a name made of one character
   * outside the Basic Multilingual Plane has length 2 and is accepted.
   */
  lemma AstralNameIsLongEnough()
    ensures FirstViolation(Form("\U{1F34E}", "a@b.co", "secret", "secret")) == None
  {
    var name := "\U{1F34E}";
    assert name[..0] == [];
    assert Utf16Length(name) == 2;
    assert !IsWhiteSpace(name[0]);
    var e := "a@b.co";
    assert !IsWhiteSpace(e[0]);
    assert e[1] == '@' && e[3] == '.';
    assert HasEmailShape(e);
    assert !IsWhiteSpace("secret"[0]);
  }

  /** A password of six spaces is long enough but is reported as missing. */
  lemma BlankPasswordIsRequired()
    ensures FirstViolation(Form("Ann", "ann@x.com", "      ", "      ")) == Some(PasswordRequired)
  {
    var e := "ann@x.com";
    assert !IsWhiteSpace("Ann"[0]) && !IsWhiteSpace(e[0]);
    forall i | 0 <= i < |e| && i != 3
      ensures IsPatternChar(e[i])
    {
    }
    assert e[3] == '@' && e[5] == '.';
    assert HasEmailShape(e);
    assert IsValidEmail(e);
    var blank := "      ";
    assert IsBlank(blank);
  }

  /**
   * Because `$` also matches before a final line feed, an address followed
   * by "\n" is accepted although it contains whitespace.
   */
  lemma TrailingLineFeedAccepted()
    ensures IsValidEmail("a@b.c\n")
    ensures !HasEmailShape("a@b.c\n")
  {
    var e := "a@b.c";
    assert "a@b.c\n"[..5] == e;
    assert e[1] == '@' && e[3] == '.';
    assert HasEmailShape(e);
    assert IsWhiteSpace("a@b.c\n"[5]);
  }

  /**
   * AuthService.Register itself checks nothing but the email: it accepts an
   * empty name that the form rejects before AuthService is reached.
   */
  lemma OnlyTheFormRejectsAnEmptyName(salt: nat)
    ensures Auth.RegisterResult(map[], "", "test@example.com", "password", salt).accepted
    ensures FirstViolation(Form("", "test@example.com", "password", "password")) == Some(NameRequired)
  {
  }

  /** The error text ValidateInput shows for each rule. */
  function Message(r: Rule): (text: string)
    ensures text != "" && text != SuccessText && text != EmailInUseText
  {
    match r
    case NameRequired => "Naam is verplicht."
    case NameTooShort => "Naam moet minimaal 2 karakters bevatten."
    case EmailRequired => "Email adres is verplicht."
    case EmailInvalid => "Voer een geldig email adres in."
    case PasswordRequired => "Wachtwoord is verplicht."
    case PasswordTooShort => "Wachtwoord moet minimaal 6 karakters bevatten."
    case ConfirmationRequired => "Wachtwoord bevestiging is verplicht."
    case PasswordMismatch => "Wachtwoorden komen niet overeen."
  }

  /** Different rules show different texts, so the text shown names the rule that failed. */
  lemma MessagesDistinct(r1: Rule, r2: Rule)
    requires r1 != r2
    ensures Message(r1) != Message(r2)
  {
  }

  const SuccessText: string := "Account succesvol aangemaakt! U kunt nu inloggen."
  const EmailInUseText: string := "Dit email adres is al in gebruik. Probeer een ander email adres."

  class RegisterViewModel {
    var name: string
    var email: string
    var password: string
    var confirmPassword: string
    var errorMessage: string
    var successMessage: string
    var hasError: bool
    var hasSuccess: bool
    const authService: Auth.AuthService

    constructor (authService: Auth.AuthService)
      ensures name == "" && email == "" && password == "" && confirmPassword == ""
      ensures errorMessage == "" && successMessage == "" && !hasError && !hasSuccess
      ensures this.authService == authService
    {
      name, email, password, confirmPassword := "", "", "", "";
      errorMessage, successMessage := "", "";
      hasError, hasSuccess := false, false;
      this.authService := authService;
    }

    /** The form as the four bound fields hold it now. */
    function Input(): Form
      reads this
    {
      Form(name, email, password, confirmPassword)
    }

    /**
     * ValidateInput: on the first broken rule, show its message, set the
     * error flag and answer false; when all rules pass, answer true and
     * leave the message and flag as they were.
     */
    method ValidateInput() returns (valid: bool)
      modifies this`errorMessage, this`hasError
      ensures valid <==> FirstViolation(Input()).None?
      ensures valid ==> errorMessage == old(errorMessage) && hasError == old(hasError)
      ensures !valid ==> errorMessage == Message(FirstViolation(Input()).value) && hasError
    {
      if IsBlank(name) {
        errorMessage := Message(NameRequired);
        hasError := true;
        return false;
      }
      if Utf16Length(name) < 2 {
        errorMessage := Message(NameTooShort);
        hasError := true;
        return false;
      }
      if IsBlank(email) {
        errorMessage := Message(EmailRequired);
        hasError := true;
        return false;
      }
      if !IsValidEmail(email) {
        errorMessage := Message(EmailInvalid);
        hasError := true;
        return false;
      }
      if IsBlank(password) {
        errorMessage := Message(PasswordRequired);
        hasError := true;
        return false;
      }
      if Utf16Length(password) < 6 {
        errorMessage := Message(PasswordTooShort);
        hasError := true;
        return false;
      }
      if IsBlank(confirmPassword) {
        errorMessage := Message(ConfirmationRequired);
        hasError := true;
        return false;
      }
      if password != confirmPassword {
        errorMessage := Message(PasswordMismatch);
        hasError := true;
        return false;
      }
      return true;
    }

    /**
     * The Register command up to the point where it waits and navigates:
     * reset both messages, validate, and only for a valid form pass name,
     * email and password (not the confirmation) to AuthService.Register.
     * Afterwards exactly one of the two flags is set.
     */
    method Register()
      modifies this`errorMessage, this`hasError, this`successMessage, this`hasSuccess
      modifies authService, authService.hasher
      ensures hasError != hasSuccess
      ensures FirstViolation(Input()).Some? ==>
        && errorMessage == Message(FirstViolation(Input()).value)
        && successMessage == ""
        && hasError && !hasSuccess
        && authService.clients == old(authService.clients)
        && authService.hasher.issued == old(authService.hasher.issued)
      ensures FirstViolation(Input()).None? ==>
        var r := Auth.RegisterResult(old(authService.clients), name, email, password, old(authService.hasher.issued));
        && authService.clients == r.store
        && authService.hasher.issued == old(authService.hasher.issued) + (if r.accepted then 1 else 0)
        && hasSuccess == r.accepted
        && successMessage == (if r.accepted then SuccessText else "")
        && errorMessage == (if r.accepted then "" else EmailInUseText)
    {
      hasError := false;
      hasSuccess := false;
      errorMessage := "";
      successMessage := "";

      var valid := ValidateInput();
      if !valid {
        return;
      }

      var registrationSuccess := authService.Register(name, email, password);
      if registrationSuccess {
        successMessage := SuccessText;
        hasSuccess := true;
      } else {
        errorMessage := EmailInUseText;
        hasError := true;
      }
    }
  }
}
