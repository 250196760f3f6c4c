/**
 * The four field validators of the sign-up form. Each one checks its field's
 * value against an ordered list of rules; the first rule that fails decides
 * the error message, and a value that passes every rule is valid. The page
 * shows the message under the field (or hides it when the value is valid);
 * here the verdict is returned instead.
 */
module Validation {
  import opened Text
  import opened Numbers

  datatype Verdict = Valid | Invalid(message: string)

  const NameRequired := "Name is required"
  const NameTooShort := "Name must be at least 2 characters"
  const NameBadChars := "Name can only contain letters and spaces"

  const EmailRequired := "Email is required"
  const EmailMalformed := "Please enter a valid email address"

  const PasswordRequired := "Password is required"
  const PasswordTooShort := "Password must be at least 8 characters"
  const PasswordNoUpper := "Password must contain at least one uppercase letter"
  const PasswordNoDigit := "Password must contain at least one number"

  const AgeRequired := "Age is required"
  const AgeNotNumber := "Age must be a number"
  const AgeTooYoung := "You must be at least 13 years old"
  const AgeOutOfRange := "Please enter a valid age"

  // ---------------------------------------------------------------- name

  /** The regex class `[a-zA-Z\s]`. */
  predicate NameChar(c: char)
  {
    IsLetter(c) || IsSpace(c)
  }

  /** A trimmed name the page accepts: two or more letters and spaces. */
  ghost predicate AcceptableName(name: string)
  {
    |name| >= 2 && forall k :: 0 <= k < |name| ==> NameChar(name[k])
  }

  /**
   * validateName: trims the value, then checks "present", "at least two
   * characters" and "only letters and spaces", in that order.
   */
  function ValidateName(value: string): (v: Verdict)
    ensures v == Invalid(NameRequired) <==> Trim(value) == []
    ensures v == Invalid(NameTooShort) <==> |Trim(value)| == 1
    ensures v == Invalid(NameBadChars) <==>
              |Trim(value)| >= 2 && exists k :: 0 <= k < |Trim(value)| && !NameChar(Trim(value)[k])
    ensures v == Valid <==> AcceptableName(Trim(value))
  {
    var name := Trim(value);
    if name == [] then Invalid(NameRequired)
    else if |name| < 2 then Invalid(NameTooShort)
    else if !AllChars(name, NameChar) then Invalid(NameBadChars)
    else Valid
  }

  // ---------------------------------------------------------------- email

  /** The regex class `[^\s@]`. */
  predicate NotSpaceOrAt(c: char)
  {
    !IsSpace(c) && c != '@'
  }

  /**
   * The regex `^[^\s@]+@[^\s@]+\.[^\s@]+$`, written as the split it demands:
   * an '@' at `i` and a '.' at `j`, with a non-empty run of `[^\s@]` before
   * the '@', between the two, and after the '.'.
   */
  ghost predicate EmailRegex(s: string)
  {
    exists i, j ::
      && 0 < i && i + 1 < j && j + 1 < |s|
      && s[i] == '@' && s[j] == '.'
      && (forall k :: 0 <= k < i ==> NotSpaceOrAt(s[k]))
      && (forall k :: i < k < j ==> NotSpaceOrAt(s[k]))
      && (forall k :: j < k < |s| ==> NotSpaceOrAt(s[k]))
  }

  /**
   * The regex's test decided directly: the first '@' is not at the start,
   * there is no whitespace and no second '@', and the part after the '@' has
   * a '.' that is neither its first nor its last character.
   */
  predicate SplitAtFirstAt(s: string)
  {
    var at := IndexOf(s, '@');
    if 0 < at < |s| then
      var domain := s[at + 1..];
      && |domain| >= 3
      && AllChars(s[..at], NotSpaceOrAt)
      && AllChars(domain, NotSpaceOrAt)
      && '.' in domain[1..|domain| - 1]
    else false
  }

  /** The direct test accepts a value exactly when it matches the regex. */
  lemma SplitAtFirstAtIsRegex(s: string)
    ensures SplitAtFirstAt(s) <==> EmailRegex(s)
  {
  }

  /**
   * `emailRegex.test`, decided directly by splitting at the first '@'. It
   * accepts exactly the values that match the regex.
   */
  predicate EmailShape(s: string): (r: bool)
    ensures r <==> EmailRegex(s)
  {
    SplitAtFirstAtIsRegex(s);
    SplitAtFirstAt(s)
  }

  /**
   * validateEmail: trims the value, then checks "present" and "matches the
   * address pattern", in that order.
   */
  function ValidateEmail(value: string): (v: Verdict)
    ensures v == Invalid(EmailRequired) <==> Trim(value) == []
    ensures v == Invalid(EmailMalformed) <==> Trim(value) != [] && !EmailRegex(Trim(value))
    ensures v == Valid <==> EmailRegex(Trim(value))
  {
    var email := Trim(value);
    if email == [] then Invalid(EmailRequired)
    else if !EmailShape(email) then Invalid(EmailMalformed)
    else Valid
  }

  // ---------------------------------------------------------------- password

  /** A password the page accepts: eight or more characters, an uppercase letter and a digit. */
  ghost predicate StrongPassword(p: string)
  {
    && |p| >= 8
    && (exists k :: 0 <= k < |p| && IsUpper(p[k]))
    && (exists k :: 0 <= k < |p| && IsDigit(p[k]))
  }

  /**
   * validatePassword: takes the value untrimmed and checks "present", "at
   * least eight characters", "has an uppercase letter" and "has a digit", in
   * that order.
   */
  function ValidatePassword(value: string): (v: Verdict)
    ensures v == Invalid(PasswordRequired) <==> value == []
    ensures v == Invalid(PasswordTooShort) <==> 0 < |value| < 8
    ensures v == Invalid(PasswordNoUpper) <==>
              |value| >= 8 && forall k :: 0 <= k < |value| ==> !IsUpper(value[k])
    ensures v == Invalid(PasswordNoDigit) <==>
              && |value| >= 8
              && (exists k :: 0 <= k < |value| && IsUpper(value[k]))
              && (forall k :: 0 <= k < |value| ==> !IsDigit(value[k]))
    ensures v == Valid <==> StrongPassword(value)
  {
    if value == [] then Invalid(PasswordRequired)
    else if |value| < 8 then Invalid(PasswordTooShort)
    else if !AnyChar(value, IsUpper) then Invalid(PasswordNoUpper)
    else if !AnyChar(value, IsDigit) then Invalid(PasswordNoDigit)
    else Valid
  }

  // ---------------------------------------------------------------- age

  /** An age the page accepts: present, numeric, and between 13 and 120 inclusive. */
  predicate AcceptableAge(value: string)
  {
    value != [] && ToNumber(value).Num? && 13 <= ToNumber(value).value <= 120
  }

  /**
   * validateAge: takes the value untrimmed and checks "present", "is a
   * number", "at least 13" and "at most 120", in that order.
   */
  function ValidateAge(value: string): (v: Verdict)
    ensures v == Invalid(AgeRequired) <==> value == []
    ensures v == Invalid(AgeNotNumber) <==> value != [] && ToNumber(value).NaN?
    ensures v == Invalid(AgeTooYoung) <==>
              value != [] && ToNumber(value).Num? && ToNumber(value).value < 13
    ensures v == Invalid(AgeOutOfRange) <==>
              value != [] && ToNumber(value).Num? && ToNumber(value).value > 120
    ensures v == Valid <==> AcceptableAge(value)
  {
    if value == [] then Invalid(AgeRequired)
    else match ToNumber(value)
      case NaN => Invalid(AgeNotNumber)
      case Num(n) =>
        if n < 13 then Invalid(AgeTooYoung)
        else if n > 120 then Invalid(AgeOutOfRange)
        else Valid
  }

  /** For an age written in decimal, the verdict depends only on where the number lies. */
  lemma DecimalAgeVerdict(n: int)
    ensures ValidateAge(DecimalString(n)) ==
              if n < 13 then Invalid(AgeTooYoung)
              else if n > 120 then Invalid(AgeOutOfRange)
              else Valid
  {
    ToNumberDecimalString(n);
  }

  /**
   * The age is not trimmed before the "required" check, but the conversion to
   * a number ignores whitespace: a value of spaces alone converts to 0 and is
   * refused as too young rather than as missing.
   */
  lemma BlankAgeTooYoung(value: string)
    requires value != []
    requires forall k :: 0 <= k < |value| ==> IsSpace(value[k])
    ensures ValidateAge(value) == Invalid(AgeTooYoung)
  {
  }

  // ---------------------------------------------------------------- per field

  datatype Field = Name | Email | Password | Age

  /** The message each field shows when it is left empty. */
  function RequiredMessage(field: Field): string
  {
    match field
    case Name => NameRequired
    case Email => EmailRequired
    case Password => PasswordRequired
    case Age => AgeRequired
  }

  /**
   * The validator that the field's input listener runs on every keystroke:
   * an empty value gets the field's "required" message, and a value is valid
   * exactly when it meets that field's rules.
   */
  function Validate(field: Field, value: string): (v: Verdict)
    ensures value == [] ==> v == Invalid(RequiredMessage(field))
    ensures v == Valid <==>
              match field
              case Name => AcceptableName(Trim(value))
              case Email => EmailRegex(Trim(value))
              case Password => StrongPassword(value)
              case Age => AcceptableAge(value)
  {
    match field
    case Name => ValidateName(value)
    case Email => ValidateEmail(value)
    case Password => ValidatePassword(value)
    case Age => ValidateAge(value)
  }

  /** Sample passwords: a strong one, and one that lacks only an uppercase letter. */
  lemma SamplePasswords()
    ensures ValidatePassword("Abc12345") == Valid
    ensures ValidatePassword("abcdefgh") == Invalid(PasswordNoUpper)
  {
  }

  /** A sample value with no '@' is not an address. */
  lemma SampleEmail()
    ensures ValidateEmail("not-an-email") == Invalid(EmailMalformed)
  {
    var e := "not-an-email";
    TrimUnpadded(e);
    assert forall k :: 0 <= k < |e| ==> e[k] != '@';
  }

  /** Sample names: two letters pass, digits are refused. */
  lemma SampleNames()
    ensures ValidateName("Jo") == Valid
    ensures ValidateName("John123") == Invalid(NameBadChars)
  {
  }

  /**
   * Whitespace around the age, a '+' and leading zeros leave the verdict as
   * the plain decimal age gets it.
   */
  lemma PaddedAgeVerdict(value: string, pre: string, sign: string, z: string, n: nat, post: string)
    requires forall k :: 0 <= k < |pre| ==> IsSpace(pre[k])
    requires forall k :: 0 <= k < |post| ==> IsSpace(post[k])
    requires sign == "" || sign == "+"
    requires forall k :: 0 <= k < |z| ==> z[k] == '0'
    requires value == pre + sign + z + NatString(n) + post
    ensures ValidateAge(value) ==
              if n < 13 then Invalid(AgeTooYoung)
              else if n > 120 then Invalid(AgeOutOfRange)
              else Valid
  {
    PaddedLiteral(value, pre, sign, z, n, post);
  }

  /** The sample ages below, spelled as padding, sign, zeros and decimal notation. */
  lemma PaddedAgeSpellings()
    ensures " 120 " == " " + "" + "" + NatString(120) + " "
    ensures "+013" == "" + "+" + "0" + NatString(13) + ""
    ensures "\t012" == "\t" + "" + "0" + NatString(12) + ""
  {
    assert NatString(120) == "120" && NatString(13) == "13" && NatString(12) == "12";
  }

  /** Sample ages with padding, a sign or leading zeros. */
  lemma SamplePaddedAges()
    ensures ValidateAge(" 120 ") == Valid
    ensures ValidateAge("+013") == Valid
    ensures ValidateAge("\t012") == Invalid(AgeTooYoung)
  {
    PaddedAgeSpellings();
    PaddedAgeVerdict(" 120 ", " ", "", "", 120, " ");
    PaddedAgeVerdict("+013", "", "+", "0", 13, "");
    PaddedAgeVerdict("\t012", "\t", "", "0", 12, "");
  }

  /** Sample ages on either side of both bounds. */
  lemma SampleAges()
    ensures ValidateAge("12") == Invalid(AgeTooYoung)
    ensures ValidateAge("13") == Valid
    ensures ValidateAge("121") == Invalid(AgeOutOfRange)
  {
    DecimalAgeVerdict(12);
    DecimalAgeVerdict(13);
    DecimalAgeVerdict(121);
    assert DecimalString(12) == "12";
    assert DecimalString(13) == "13";
    assert DecimalString(121) == "121";
  }
}
