/**
 * The address the verification form says the code goes to
 * (`getEmailDisplay`, my-app/src/components/auth/Verify.js).
 */
module Verify {
  import opened AuthContainer

  const Fallback := "your registered email"

  /** The email when one is known; otherwise a username that looks like an address
      (it contains `@`); otherwise a fixed phrase. Never empty. */
  function EmailDisplay(fd: FormData): (shown: string)
    ensures shown != ""
    ensures fd.email != "" ==> shown == fd.email
    ensures fd.email == "" && '@' in fd.username ==> shown == fd.username
    ensures fd.email == "" && '@' !in fd.username ==> shown == Fallback
  {
    if fd.email != "" then fd.email
    else if fd.username != "" && '@' in fd.username then fd.username
    else Fallback
  }

  /** After the signIn to signUp hand-over the verify form names what was typed as the
      sign-in name. */
  lemma HandOverShownOnVerify(fd: FormData, data: map<Field, string>)
    requires fd.username != ""
    ensures EmailDisplay(SwitchFormData(SignUpForm, SignInForm, fd, data)) == fd.username
  {
  }
}
