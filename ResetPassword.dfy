/**
 * The checks the reset-password form runs before it sends its request
 * (my-app/src/components/auth/ResetPassword.js): the password strength rules of
 * `validatePassword` and the guard chain at the start of `handleSubmit`.
 */
module ResetPassword {
  import opened Wrappers

  // ---------------------------------------------------------------------------
  // Password strength (validatePassword)
  // ---------------------------------------------------------------------------

  /** `[A-Z]`, `[a-z]` and `\d` match ASCII letters and digits only. */
  predicate IsUpper(c: char) { 'A' <= c <= 'Z' }
  predicate IsLower(c: char) { 'a' <= c <= 'z' }
  predicate IsDigit(c: char) { '0' <= c <= '9' }

  /** The members of the class `[!@#$%^&*(),.?":{}|<>]`. */
  const SpecialChars: string := "!@#$%^&*(),.?\":{}|<>"

  predicate IsSpecial(c: char) { c in SpecialChars }

  predicate HasUpper(p: string) { exists i :: 0 <= i < |p| && IsUpper(p[i]) }
  predicate HasLower(p: string) { exists i :: 0 <= i < |p| && IsLower(p[i]) }
  predicate HasDigit(p: string) { exists i :: 0 <= i < |p| && IsDigit(p[i]) }
  predicate HasSpecial(p: string) { exists i :: 0 <= i < |p| && IsSpecial(p[i]) }

  const MinLength: nat := 8

  const TooShort := "Password must be at least 8 characters long"
  const NoUpper := "Password must contain at least one uppercase letter"
  const NoLower := "Password must contain at least one lowercase letter"
  const NoDigit := "Password must contain at least one number"
  const NoSpecial := "Password must contain at least one special character"

  /** A strong password: long enough, with an upper-case letter, a lower-case letter,
      a digit and a special character. */
  predicate Strong(p: string) {
    |p| >= MinLength && HasUpper(p) && HasLower(p) && HasDigit(p) && HasSpecial(p)
  }

  /**
   * validatePassword: `None` (the source's `null`) for a strong password; otherwise
   * the message of the first rule broken, in the order length, upper case, lower case,
   * digit, special character.
   */
  function ValidatePassword(p: string): (error: Option<string>)
    ensures error == None <==> Strong(p)
    ensures error == Some(TooShort) <==> |p| < MinLength
    ensures error == Some(NoUpper) <==> |p| >= MinLength && !HasUpper(p)
    ensures error == Some(NoLower) <==> |p| >= MinLength && HasUpper(p) && !HasLower(p)
    ensures error == Some(NoDigit) <==> |p| >= MinLength && HasUpper(p) && HasLower(p) && !HasDigit(p)
    ensures error == Some(NoSpecial) <==>
      |p| >= MinLength && HasUpper(p) && HasLower(p) && HasDigit(p) && !HasSpecial(p)
  {
    if |p| < MinLength then Some(TooShort)
    else if !HasUpper(p) then Some(NoUpper)
    else if !HasLower(p) then Some(NoLower)
    else if !HasDigit(p) then Some(NoDigit)
    else if !HasSpecial(p) then Some(NoSpecial)
    else None
  }

  /** Example: "Abcdefg1!" is strong; "abcdefg1!" lacks an upper-case letter. */
  lemma ValidateExamples()
    ensures ValidatePassword("Abcdefg1!") == None
    ensures ValidatePassword("abcdefg1!") == Some(NoUpper)
  {
    var good := "Abcdefg1!";
    assert IsUpper(good[0]) && IsLower(good[1]) && IsDigit(good[7]) && IsSpecial(good[8]);
    var bad := "abcdefg1!";
    assert forall i :: 0 <= i < |bad| ==> !IsUpper(bad[i]);
  }

  // ---------------------------------------------------------------------------
  // String.prototype.trim
  // ---------------------------------------------------------------------------

  /** The characters `trim` removes: the JavaScript WhiteSpace and LineTerminator
      characters (tab, vertical tab, form feed, space, no-break space, the byte order
      mark, the Unicode space separators, line feed, carriage return and the line and
      paragraph separators). */
  predicate IsTrimmed(c: char) {
    || c == '\t' || c == '\n' || c == '\U{000B}' || c == '\U{000C}' || c == '\r' || c == ' '
    || c == '\U{00A0}' || c == '\U{1680}' || ('\U{2000}' <= c <= '\U{200A}')
    || c == '\U{2028}' || c == '\U{2029}' || c == '\U{202F}' || c == '\U{205F}'
    || c == '\U{3000}' || c == '\U{FEFF}'
  }

  /** `s` without its leading white space. */
  function TrimStart(s: string): (r: string)
    ensures |r| <= |s| && r == s[|s| - |r|..]
    ensures forall k :: 0 <= k < |s| - |r| ==> IsTrimmed(s[k])
    ensures r != [] ==> !IsTrimmed(r[0])
  {
    if s != [] && IsTrimmed(s[0]) then TrimStart(s[1..]) else s
  }

  /** `s` without its trailing white space. */
  function TrimEnd(s: string): (r: string)
    ensures |r| <= |s| && r == s[..|r|]
    ensures forall k :: |r| <= k < |s| ==> IsTrimmed(s[k])
    ensures r != [] ==> !IsTrimmed(r[|r| - 1])
  {
    if s != [] && IsTrimmed(s[|s| - 1]) then TrimEnd(s[..|s| - 1]) else s
  }

  /** `trim()`: the part of `s` between its leading and its trailing white space. */
  function Trim(s: string): (r: string)
    ensures r != [] ==> !IsTrimmed(r[0]) && !IsTrimmed(r[|r| - 1])
  {
    TrimEnd(TrimStart(s))
  }

  /** The trimmed string is a slice of `s` with only white space cut off on either side. */
  lemma TrimIsSlice(s: string)
    ensures exists i, j ::
              && 0 <= i <= j <= |s| && Trim(s) == s[i..j]
              && (forall k :: 0 <= k < i ==> IsTrimmed(s[k]))
              && (forall k :: j <= k < |s| ==> IsTrimmed(s[k]))
  {
    var t := TrimStart(s);
    var i := |s| - |t|;
    var j := i + |Trim(s)|;
    assert Trim(s) == t[..|Trim(s)|] == s[i..j];
    forall k | j <= k < |s| ensures IsTrimmed(s[k]) {
      assert s[k] == t[k - i];
    }
  }

  /** Trimming twice changes nothing more. */
  lemma TrimIdempotent(s: string)
    ensures Trim(Trim(s)) == Trim(s)
  {
    var r := Trim(s);
    if r != [] {
      assert TrimStart(r) == r;
      assert TrimEnd(r) == r;
    }
  }

  // ---------------------------------------------------------------------------
  // The guard chain of handleSubmit
  // ---------------------------------------------------------------------------

  datatype ResetForm = ResetForm(email: string, verificationCode: string, newPassword: string, confirmPassword: string)

  /** The body of the reset request; `resetPassword` is always true. */
  datatype ResetRequest = ResetRequest(email: string, verificationCode: string, newPassword: string, resetPassword: bool)

  const AllFieldsRequired := "All fields are required"
  const PasswordsDoNotMatch := "Passwords do not match"

  /**
   * handleSubmit up to its request: the error it shows, or the request it sends. Missing
   * fields are reported first, then a confirmation that differs, then a weak password;
   * the request carries the trimmed email.
   */
  function CheckSubmission(form: ResetForm): (r: Result<ResetRequest, string>)
    ensures r == Err(AllFieldsRequired) <==>
      form.email == "" || form.verificationCode == "" || form.newPassword == ""
    ensures r == Err(PasswordsDoNotMatch) <==>
      form.email != "" && form.verificationCode != "" && form.newPassword != "" &&
      form.newPassword != form.confirmPassword
    ensures r.Err? && r.error != AllFieldsRequired && r.error != PasswordsDoNotMatch <==>
      form.email != "" && form.verificationCode != "" && form.newPassword != "" &&
      form.newPassword == form.confirmPassword && !Strong(form.newPassword)
    ensures r.Err? && r.error != AllFieldsRequired && r.error != PasswordsDoNotMatch ==>
      Some(r.error) == ValidatePassword(form.newPassword)
    ensures r.Ok? <==>
      form.email != "" && form.verificationCode != "" && form.newPassword != "" &&
      form.newPassword == form.confirmPassword && Strong(form.newPassword)
    ensures r.Ok? ==>
      r.value == ResetRequest(Trim(form.email), form.verificationCode, form.newPassword, true)
  {
    if form.email == "" || form.verificationCode == "" || form.newPassword == "" then
      Err(AllFieldsRequired)
    else if form.newPassword != form.confirmPassword then
      Err(PasswordsDoNotMatch)
    else
      match ValidatePassword(form.newPassword)
      case Some(message) => Err(message)
      case None => Ok(ResetRequest(Trim(form.email), form.verificationCode, form.newPassword, true))
  }
}
