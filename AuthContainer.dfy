/**
 * The navigation state of the authentication screens
 * (my-app/src/components/auth/AuthContainer.js): which form is shown, the stack of
 * forms visited that back-navigation pops, the shared form data that `switchForm`
 * rewrites, and the checks `signUp` makes before it registers anyone.
 */
module AuthContainer {
  import opened Wrappers
  import ResetPassword

  /** The five forms the container shows. */
  datatype FormKind = SignInForm | SignUpForm | VerifyForm | ForgotPasswordForm | ResetPasswordForm

  /** The form data that all five forms share. */
  datatype FormData = FormData(
    username: string,
    password: string,
    email: string,
    confirmPassword: string,
    verificationCode: string,
    newPassword: string)

  /** The names of the form-data fields, so that a partial update can be a map. */
  datatype Field = Username | Password | Email | ConfirmPassword | VerificationCode | NewPassword

  const EmptyForm := FormData("", "", "", "", "", "")

  /** `formData[f]`. */
  function Get(fd: FormData, f: Field): string {
    match f
    case Username => fd.username
    case Password => fd.password
    case Email => fd.email
    case ConfirmPassword => fd.confirmPassword
    case VerificationCode => fd.verificationCode
    case NewPassword => fd.newPassword
  }

  /** Two form records that agree on every field are the same record. */
  lemma FieldsDetermine(a: FormData, b: FormData)
    requires forall f :: Get(a, f) == Get(b, f)
    ensures a == b
  {
    assert Get(a, Username) == Get(b, Username) && Get(a, Password) == Get(b, Password);
    assert Get(a, Email) == Get(b, Email) && Get(a, ConfirmPassword) == Get(b, ConfirmPassword);
    assert Get(a, VerificationCode) == Get(b, VerificationCode) && Get(a, NewPassword) == Get(b, NewPassword);
  }

  function Pick(data: map<Field, string>, f: Field, current: string): string {
    if f in data then data[f] else current
  }

  /** `{...fd, ...data}`: the fields `data` names take its values, the others keep theirs. */
  function Merge(fd: FormData, data: map<Field, string>): (r: FormData)
    ensures forall f :: Get(r, f) == (if f in data then data[f] else Get(fd, f))
  {
    FormData(
      Pick(data, Username, fd.username),
      Pick(data, Password, fd.password),
      Pick(data, Email, fd.email),
      Pick(data, ConfirmPassword, fd.confirmPassword),
      Pick(data, VerificationCode, fd.verificationCode),
      Pick(data, NewPassword, fd.newPassword))
  }

  /** Merging the same update twice is merging it once. */
  lemma MergeIdempotent(fd: FormData, data: map<Field, string>)
    ensures Merge(Merge(fd, data), data) == Merge(fd, data)
  {
    FieldsDetermine(Merge(Merge(fd, data), data), Merge(fd, data));
  }

  /** The signIn to signUp hand-over: the name typed on the sign-in form (usually an
      email address) moves to the email field and the credentials are cleared. */
  function HandOverToSignUp(fd: FormData): (r: FormData)
    ensures Get(r, Email) == Get(fd, Username)
    ensures Get(r, Username) == "" && Get(r, Password) == "" && Get(r, ConfirmPassword) == ""
    ensures forall f :: f !in {Email, Username, Password, ConfirmPassword} ==> Get(r, f) == Get(fd, f)
  {
    fd.(email := fd.username, username := "", password := "", confirmPassword := "")
  }

  /**
   * The form data after `switchForm(formType, data)` on the form `current`: the
   * signIn to signUp hand-over when the username is filled in, otherwise `data`
   * merged over the old data (an empty `data` changes nothing).
   */
  function SwitchFormData(formType: FormKind, current: FormKind, fd: FormData, data: map<Field, string>): (r: FormData)
    ensures formType == SignUpForm && current == SignInForm && fd.username != "" ==>
      Get(r, Email) == fd.username &&
      Get(r, Username) == "" && Get(r, Password) == "" && Get(r, ConfirmPassword) == "" &&
      Get(r, VerificationCode) == fd.verificationCode && Get(r, NewPassword) == fd.newPassword
    ensures !(formType == SignUpForm && current == SignInForm && fd.username != "") ==>
      forall f :: Get(r, f) == (if f in data then data[f] else Get(fd, f))
  {
    if formType == SignUpForm && current == SignInForm && fd.username != "" then
      HandOverToSignUp(fd)
    else if |data| > 0 then
      Merge(fd, data)
    else
      fd
  }

  /** The hand-over takes precedence: `data` is ignored when it applies. */
  lemma HandOverIgnoresData(fd: FormData, data1: map<Field, string>, data2: map<Field, string>)
    requires fd.username != ""
    ensures SwitchFormData(SignUpForm, SignInForm, fd, data1) == SwitchFormData(SignUpForm, SignInForm, fd, data2)
  {
  }

  /** The checks `signUp` makes before any request: matching confirmation first, then
      a minimum length of 8. `None` means the registration request is sent. Its two
      messages are the same texts the reset form uses. */
  function SignUpPrecheck(fd: FormData): (error: Option<string>)
    ensures error == Some(ResetPassword.PasswordsDoNotMatch) <==> fd.password != fd.confirmPassword
    ensures error == Some(ResetPassword.TooShort) <==> fd.password == fd.confirmPassword && |fd.password| < 8
    ensures error == None <==> fd.password == fd.confirmPassword && |fd.password| >= 8
  {
    if fd.password != fd.confirmPassword then Some(ResetPassword.PasswordsDoNotMatch)
    else if |fd.password| < 8 then Some(ResetPassword.TooShort)
    else None
  }

  /** A password the reset form accepts as strong also passes the sign-up pre-checks
      once it is confirmed: the sign-up rules are the weaker ones. */
  lemma StrongPasswordPassesSignUp(fd: FormData)
    requires fd.password == fd.confirmPassword && ResetPassword.ValidatePassword(fd.password).None?
    ensures SignUpPrecheck(fd) == None
  {
  }

  /** The converse fails: the sign-up pre-checks accept a password of eight lower-case
      letters that the reset form rejects. */
  lemma SignUpWeakerThanReset()
    ensures SignUpPrecheck(FormData("", "abcdefgh", "", "abcdefgh", "", "")) == None
    ensures ResetPassword.ValidatePassword("abcdefgh") == Some(ResetPassword.NoUpper)
  {
    var p := "abcdefgh";
    assert forall i :: 0 <= i < |p| ==> !ResetPassword.IsUpper(p[i]);
  }

  /** The state the container keeps between renders. */
  class Container {
    var formState: FormKind
    var formData: FormData
    var error: string
    var successMessage: string
    var autoSendVerification: bool
    var verificationCodeJustSent: bool
    var formHistory: seq<FormKind>
    var blockHistoryListener: bool

    /** The history is never empty and its last entry is the form shown. */
    ghost predicate Valid()
      reads this
    {
      |formHistory| >= 1 && formState == formHistory[|formHistory| - 1]
    }

    /** The first render: the sign-in form, empty data, a one-entry history. */
    constructor ()
      ensures Valid()
      ensures formState == SignInForm && formHistory == [SignInForm]
      ensures formData == EmptyForm && error == "" && successMessage == ""
      ensures !autoSendVerification && !verificationCodeJustSent && !blockHistoryListener
    {
      formState := SignInForm;
      formData := EmptyForm;
      error := "";
      successMessage := "";
      autoSendVerification := false;
      verificationCodeJustSent := false;
      formHistory := [SignInForm];
      blockHistoryListener := false;
    }

    /** updateFormState: show `s`, push it on the history and block the back listener
        until `ReleaseHistoryBlock`. */
    method UpdateFormState(s: FormKind)
      modifies this
      ensures Valid()
      ensures formState == s && formHistory == old(formHistory) + [s] && blockHistoryListener
      ensures formData == old(formData) && error == old(error) && successMessage == old(successMessage)
      ensures autoSendVerification == old(autoSendVerification)
      ensures verificationCodeJustSent == old(verificationCodeJustSent)
    {
      blockHistoryListener := true;
      formState := s;
      formHistory := formHistory + [s];
    }

    /** The delayed callback of updateFormState that lifts the block again. */
    method ReleaseHistoryBlock()
      modifies `blockHistoryListener
      ensures !blockHistoryListener
    {
      blockHistoryListener := false;
    }

    /** The popstate handler: unless blocked, and when there is an earlier form, drop the
        last history entry and show the entry before it; otherwise nothing changes. */
    method PopState()
      requires Valid()
      modifies `formState, `formHistory
      ensures Valid()
      ensures !old(blockHistoryListener) && |old(formHistory)| > 1 ==>
        formHistory == old(formHistory)[..|old(formHistory)| - 1]
      ensures old(blockHistoryListener) || |old(formHistory)| <= 1 ==>
        formHistory == old(formHistory) && formState == old(formState)
    {
      if !blockHistoryListener && |formHistory| > 1 {
        var newHistory := formHistory;
        newHistory := newHistory[..|newHistory| - 1];
        formState := newHistory[|newHistory| - 1];
        formHistory := newHistory;
      }
    }

    /** switchForm: clear both messages, rewrite the form data, arm the automatic code
        sending when going to the verify form with an email known and no code just sent,
        then updateFormState. */
    method SwitchForm(formType: FormKind, data: map<Field, string>)
      modifies this
      ensures Valid()
      ensures error == "" && successMessage == ""
      ensures formData == SwitchFormData(formType, old(formState), old(formData), data)
      ensures autoSendVerification ==
        (old(autoSendVerification) ||
         (formType == VerifyForm && old(formData).email != "" && !old(verificationCodeJustSent)))
      ensures verificationCodeJustSent == old(verificationCodeJustSent)
      ensures formState == formType && formHistory == old(formHistory) + [formType] && blockHistoryListener
    {
      var oldEmail := formData.email;
      error := "";
      successMessage := "";
      formData := SwitchFormData(formType, formState, formData, data);
      if formType == VerifyForm && oldEmail != "" && !verificationCodeJustSent {
        autoSendVerification := true;
      }
      UpdateFormState(formType);
    }

    /** The start of signUp: on a failed pre-check the error is shown and `proceed` is
        false; otherwise the state is untouched and the request would be sent. */
    method SignUp() returns (proceed: bool)
      modifies `error
      ensures proceed <==> SignUpPrecheck(formData) == None
      ensures !proceed ==> Some(error) == SignUpPrecheck(formData)
      ensures proceed ==> error == old(error)
    {
      var check := SignUpPrecheck(formData);
      match check {
        case Some(message) =>
          error := message;
          proceed := false;
        case None =>
          proceed := true;
      }
    }
  }

  /** Going forward to a new form and then back, once the block is lifted, returns to
      the form and the history as they were. */
  method ForwardThenBack(c: Container, s: FormKind)
    requires c.Valid()
    modifies c
    ensures c.Valid()
    ensures c.formState == old(c.formState) && c.formHistory == old(c.formHistory)
  {
    c.UpdateFormState(s);
    c.ReleaseHistoryBlock();
    c.PopState();
  }

  /** Back-navigation right after a switch does nothing while the block is on. */
  method BackWhileBlocked(c: Container, s: FormKind)
    requires c.Valid()
    modifies c
    ensures c.Valid()
    ensures c.formState == s && c.formHistory == old(c.formHistory) + [s]
  {
    c.UpdateFormState(s);
    c.PopState();
  }
}
