/** Properties that join the web client to the server: what the sign-in page
    sends is what the server's handlers accept, a code read from the mail and
    typed into the form logs the user in, the session token then passes the
    bearer gate, and what the notes page shows for a Google account. */
module Scenarios {
  import opened Options
  import opened Text
  import opened UserStore
  import opened EmailFormat
  import opened TokenGate
  import OtpAuth
  import GoogleLogin
  import HomePage
  import SignInForm

  /** An address the sign-in page sends for a code is never refused by the
      server's format checks: the server answers 404, 500 or 200, never 400. */
  lemma EmailStepPassesServerChecks(f: SignInForm.Form, answer: SignInForm.Answer<()>,
                                    st: OtpAuth.State, now: int, code: string, delivered: bool)
    ensures var r := SignInForm.HandleGetOtp(f, answer).0;
      r.Some? ==> OtpAuth.SendOtpForLogin(st, Some(r.value.email), now, code, delivered).reply.status != 400
  {
    if SignInForm.HandleGetOtp(f, answer).0.Some? {
      ValidateEmailIff(f.email);
      ClientValidImpliesServerValid(f.email);
      ValidEmailHasNoWhitespace(f.email);
    }
  }

  /** Resending does not check the address again, and need not: after the
      email step has sent a code, a resend asks for one for the same address,
      which the server's format check passes. */
  lemma ResendRepeatsEmailStep(f: SignInForm.Form, sent: SignInForm.Answer<()>, again: SignInForm.Answer<()>,
                               st: OtpAuth.State, now: int, code: string, delivered: bool)
    ensures var g := SignInForm.HandleGetOtp(f, sent);
      g.0.Some? ==>
        && SignInForm.HandleResendOtp(g.1, again).0 == g.0.value
        && OtpAuth.SendOtpForLogin(st, Some(g.0.value.email), now, code, delivered).reply.status != 400
  {
    if SignInForm.HandleGetOtp(f, sent).0.Some? {
      ValidateEmailIff(f.email);
      ClientValidImpliesServerValid(f.email);
      ValidEmailHasNoWhitespace(f.email);
    }
  }

  /** Logging in with a code, end to end: the server stores the code it
      mails; the user types it into the code field, which keeps it as it is;
      the form sends it with the address; and the server, asked before the
      code expires, answers with the user and a token signed for the user's
      id. */
  lemma CodeLogsIn(users: seq<User>, u: User, pending: map<string, OtpAuth.Pending>,
                   t: int, code: string, now: int, sign: UserId -> string,
                   f: SignInForm.Form, answer: SignInForm.Answer<SignInForm.Session>)
    requires Valid(users) && u in users && ValidateEmail(u.email)
    requires |code| == 6 && forall i :: 0 <= i < 6 ==> IsDigit(code[i])
    requires t <= now <= t + OtpAuth.OtpLifetime
    requires f.email == u.email && f.otp == SignInForm.SanitizeOtp(code)
    ensures var o1 := OtpAuth.SendOtpForLogin(OtpAuth.State(pending, users), Some(u.email), t, code, true);
      var r := SignInForm.HandleSignIn(f, answer);
      var o2 := OtpAuth.VerifyOtpAndLogin(o1.state, Some(u.email), Some(code), now, sign);
      && o1.reply.status == 200
      && r.0 == Some(SignInForm.VerifyOtpLogin(u.email, code))
      && o2.reply == OtpAuth.Reply(200, OtpAuth.Session(sign(u.id), u))
      && o2.state == OtpAuth.State(pending - {u.email}, users)
  {
    var st := OtpAuth.State(pending, users);
    assert u.email != "" && MatchesServerPattern(u.email) by {
      ValidEmailHasNoWhitespace(u.email);
      ClientValidImpliesServerValid(u.email);
    }
    OtpAuth.LoginRoundTrip(st, u, t, code, now, sign);
    SignInForm.SignInSendsCode(f, code, answer);
  }

  /** The token a log-in hands out opens the notes routes for the same user,
      when it is sent as `Bearer <token>`, as long as the token verifies to
      the id it was signed for and contains no space. */
  lemma SessionTokenPassesGate(users: seq<User>, e: string, otp: Option<string>, now: int,
                               pending: map<string, OtpAuth.Pending>,
                               sign: UserId -> string, verify: string -> Option<UserId>)
    requires Valid(users)
    requires forall id: UserId :: verify(sign(id)) == Some(id)
    requires forall id: UserId :: sign(id) != "" && ' ' !in sign(id)
    ensures var o := OtpAuth.VerifyOtpAndLogin(OtpAuth.State(pending, users), Some(e), otp, now, sign);
      o.reply.status == 200 ==>
        Gate(users, Some("Bearer " + o.reply.body.token), verify) == Allow(o.reply.body.user)
  {
    var o := OtpAuth.VerifyOtpAndLogin(OtpAuth.State(pending, users), Some(e), otp, now, sign);
    if o.reply.status == 200 {
      var u := o.reply.body.user;
      GateAdmitsValidToken(users, u, sign(u.id), verify);
    }
  }

  /** A Google account without an email is stored with the empty email, and
      the notes page cannot mask that: `maskEmail` throws on it. With the
      domain defaulting to empty, the page shows "xxxxx@" instead. */
  lemma EmaillessGoogleUserBreaksHome(users: seq<User>, p: GoogleLogin.Profile)
    requires |p.emails| == 0
    requires FindByGoogleId(users, p.id).None? && FindByEmail(users, "").None?
    ensures var r := GoogleLogin.FindOrCreate(users, p);
      && r.0.Done? && r.0.user.email == ""
      && HomePage.MaskEmail(r.0.user.email).None?
      && HomePage.MaskEmailTotal(r.0.user.email) == "xxxxx@"
  {
  }
}
