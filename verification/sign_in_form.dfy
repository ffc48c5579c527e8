/** The log-in form of the web client (app/src/components/SignIn.tsx): the
    email step, the code step, and the filter on what can be typed into the
    code field. Each handler takes the form's state and, when it sends a
    request, the server's answer to it, and gives back the request it sent
    (if any) and the form's next state. The loading flag is left out: every
    handler clears it when it finishes. */
module SignInForm {
  import opened Options
  import opened Text
  import opened Seqs
  import opened EmailFormat
  import opened UserStore

  /** What the client keeps after a successful log-in (the token and the
      user it stores before leaving the page). */
  datatype Session = Session(token: string, user: User)

  datatype Form = Form(email: string, otp: string, showOtp: bool, error: string, signedIn: Option<Session>)

  /** The requests the form sends. */
  datatype Request =
    | SendOtpLogin(email: string)
    | VerifyOtpLogin(email: string, otp: string)

  /** The server's answer: success with its payload, or a failure with the
      `error` and `message` fields of the response body, each possibly absent
      (both absent when there was no response at all). */
  datatype Answer<T> = Ok(value: T) | Fail(error: Option<string>, message: Option<string>)

  /** `err.response?.data?.error || err.response?.data?.message || fallback`:
      the first non-empty of the three. */
  function ErrorText<T>(a: Answer<T>, fallback: string): (r: string)
    requires a.Fail?
    ensures Truthy(a.error) ==> r == a.error.value
    ensures !Truthy(a.error) && Truthy(a.message) ==> r == a.message.value
    ensures !Truthy(a.error) && !Truthy(a.message) ==> r == fallback
    ensures fallback != "" ==> r != ""
  {
    if Truthy(a.error) then a.error.value
    else if Truthy(a.message) then a.message.value
    else fallback
  }

  // ---------------------------------------------------------------------
  // The code field
  // ---------------------------------------------------------------------

  function DigitTest(): char -> bool
  {
    (c: char) => IsDigit(c)
  }

  /** `value.replace(/\D/g, "").slice(0, 6)`: the digits of the typed text,
      in order, at most six. */
  function SanitizeOtp(input: string): (r: string)
    ensures |r| <= 6
    ensures forall i :: 0 <= i < |r| ==> IsDigit(r[i])
    ensures |r| <= |Filter(input, DigitTest())| && r == Filter(input, DigitTest())[..|r|]
    ensures |r| == 6 || r == Filter(input, DigitTest())
  {
    var digits := Filter(input, DigitTest());
    if |digits| <= 6 then digits else digits[..6]
  }

  /** The field leaves a value alone exactly when it is at most six digits. */
  lemma SanitizeFixedPoints(s: string)
    ensures SanitizeOtp(s) == s <==> |s| <= 6 && forall i :: 0 <= i < |s| ==> IsDigit(s[i])
  {
    if |s| <= 6 && forall i :: 0 <= i < |s| ==> IsDigit(s[i]) {
      FilterKeepsAll(s, DigitTest());
    }
  }

  /** Filtering what the field already holds changes nothing. */
  lemma SanitizeIdempotent(input: string)
    ensures SanitizeOtp(SanitizeOtp(input)) == SanitizeOtp(input)
  {
    SanitizeFixedPoints(SanitizeOtp(input));
  }

  // ---------------------------------------------------------------------
  // The handlers
  // ---------------------------------------------------------------------

  /** `handleGetOtp`: check the email, then ask for a log-in code. */
  function HandleGetOtp(f: Form, answer: Answer<()>): (r: (Option<Request>, Form))
    ensures IsBlank(f.email) ==> r == (None, f.(error := "Email is required"))
    ensures !IsBlank(f.email) && !ValidateEmail(f.email) ==>
      r == (None, f.(error := "Please enter a valid email address"))
    ensures r.0.Some? <==> ClientForm(f.email)
    ensures r.0.Some? ==> r.0.value == SendOtpLogin(f.email)
    ensures r.1.email == f.email && r.1.otp == f.otp && r.1.signedIn == f.signedIn
    ensures r.1.showOtp <==> f.showOtp || (r.0.Some? && answer.Ok?)
    ensures r.1.error == "" <==> r.0.Some? && answer.Ok?
    ensures r.0.Some? && answer.Fail? ==> r.1.error == ErrorText(answer, "Failed to send OTP. Please try again.")
  {
    ValidateEmailIff(f.email);
    ValidEmailHasNoWhitespace(f.email);
    if IsBlank(f.email) then
      (None, f.(error := "Email is required"))
    else if !ValidateEmail(f.email) then
      (None, f.(error := "Please enter a valid email address"))
    else
      var req := SendOtpLogin(Trim(f.email));
      match answer
      case Ok(_) => (Some(req), f.(showOtp := true, error := ""))
      case Fail(_, _) => (Some(req), f.(error := ErrorText(answer, "Failed to send OTP. Please try again.")))
  }

  /** `handleSignIn`: check the code, then redeem it. */
  function HandleSignIn(f: Form, answer: Answer<Session>): (r: (Option<Request>, Form))
    ensures IsBlank(f.otp) ==> r == (None, f.(error := "OTP is required"))
    ensures !IsBlank(f.otp) && |f.otp| != 6 ==> r == (None, f.(error := "OTP must be 6 digits"))
    ensures r.0.Some? <==> !IsBlank(f.otp) && |f.otp| == 6
    ensures r.0.Some? ==> r.0.value == VerifyOtpLogin(Trim(f.email), Trim(f.otp))
    ensures r.1.email == f.email && r.1.otp == f.otp && r.1.showOtp == f.showOtp
    ensures r.1.signedIn != f.signedIn ==> r.0.Some? && answer.Ok? && r.1.signedIn == Some(answer.value)
    ensures r.0.Some? && answer.Ok? ==> r.1.signedIn == Some(answer.value)
    ensures r.1.error == "" <==> r.0.Some? && answer.Ok?
    ensures r.0.Some? && answer.Fail? ==> r.1.error == ErrorText(answer, "Verification failed. Please check your OTP.")
  {
    if IsBlank(f.otp) then
      (None, f.(error := "OTP is required"))
    else if |f.otp| != 6 then
      (None, f.(error := "OTP must be 6 digits"))
    else
      var req := VerifyOtpLogin(Trim(f.email), Trim(f.otp));
      match answer
      case Ok(session) => (Some(req), f.(error := "", signedIn := Some(session)))
      case Fail(_, _) => (Some(req), f.(error := ErrorText(answer, "Verification failed. Please check your OTP.")))
  }

  /** `handleResendOtp`: ask for a fresh code, without checking the email again. */
  function HandleResendOtp(f: Form, answer: Answer<()>): (r: (Request, Form))
    ensures r.0 == SendOtpLogin(Trim(f.email))
    ensures r.1 == f.(error := r.1.error)
    ensures r.1.error == "" <==> answer.Ok?
    ensures answer.Fail? ==> r.1.error == ErrorText(answer, "Failed to resend OTP. Please try again.")
  {
    match answer
    case Ok(_) => (SendOtpLogin(Trim(f.email)), f.(error := ""))
    case Fail(_, _) => (SendOtpLogin(Trim(f.email)), f.(error := ErrorText(answer, "Failed to resend OTP. Please try again.")))
  }

  /** `handleSubmit`: the email step until a code has been sent, the code step after. */
  function HandleSubmit(f: Form, sent: Answer<()>, verified: Answer<Session>): (r: (Option<Request>, Form))
    ensures !f.showOtp ==> r == HandleGetOtp(f, sent)
    ensures f.showOtp ==> r == HandleSignIn(f, verified)
    ensures r.0.Some? && r.0.value.SendOtpLogin? ==> !f.showOtp
    ensures r.0.Some? && r.0.value.VerifyOtpLogin? ==> f.showOtp
  {
    if !f.showOtp then HandleGetOtp(f, sent) else HandleSignIn(f, verified)
  }

  /** `handleBackToEmail`: back to the email step, the code and the error cleared. */
  function HandleBackToEmail(f: Form): (r: Form)
    ensures !r.showOtp && r.otp == "" && r.error == ""
    ensures r.email == f.email && r.signedIn == f.signedIn
  {
    f.(showOtp := false, otp := "", error := "")
  }

  /** Going back and submitting again starts over at the email step: the
      code that was typed is gone and a new one is requested. */
  lemma BackThenSubmitRequestsNewCode(f: Form, sent: Answer<()>, verified: Answer<Session>)
    requires ClientForm(f.email)
    ensures HandleSubmit(HandleBackToEmail(f), sent, verified).0 == Some(SendOtpLogin(f.email))
  {
  }

  /** The field holds only digits, by its filter; such a code, once past the
      length check, is sent exactly as held: six digits, nothing trimmed. */
  lemma SignInSendsTypedCode(f: Form, answer: Answer<Session>)
    requires forall i :: 0 <= i < |f.otp| ==> IsDigit(f.otp[i])
    ensures var r := HandleSignIn(f, answer);
      r.0.Some? ==> r.0.value.otp == f.otp && |f.otp| == 6
  {
    DigitsTrimToThemselves(f.otp);
  }

  /** A six-digit code typed into the field on a form holding an address the
      page accepts is sent, as typed, with that address. */
  lemma SignInSendsCode(f: Form, code: string, answer: Answer<Session>)
    requires ValidateEmail(f.email)
    requires |code| == 6 && forall i :: 0 <= i < 6 ==> IsDigit(code[i])
    requires f.otp == SanitizeOtp(code)
    ensures HandleSignIn(f, answer).0 == Some(VerifyOtpLogin(f.email, code))
  {
    SanitizeFixedPoints(code);
    assert f.otp == code;
    DigitsTrimToThemselves(code);
    assert !IsBlank(f.otp) && Trim(f.otp) == code;
    ValidEmailHasNoWhitespace(f.email);
    assert Trim(f.email) == f.email;
  }
}
