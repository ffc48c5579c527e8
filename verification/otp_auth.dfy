/** The one-time-passcode sign-up and log-in handlers of
    backend/src/controllers/authController.ts.

    Each handler is a function from the current state (the in-memory map of
    pending codes, keyed by email, and the user table) and the request to the
    reply and the next state. What the handlers obtain from outside is a
    parameter: the current time `now` in milliseconds, the freshly generated
    `code`, whether the mail with the code was `delivered`, how the server
    parses a birth date (`parseDate`, `None` for an invalid date) and how it
    signs a session token for a user id (`sign`). Request-body fields are
    optional strings: `None` for a missing field. */
module OtpAuth {
  import opened Options
  import opened Text
  import opened UserStore
  import opened EmailFormat
  import opened TokenGate

  /** How long a code stays valid: five minutes, in milliseconds. */
  const OtpLifetime: int := 5 * 60 * 1000

  /** An entry of the pending-code map. Log-in entries carry no name or birth date. */
  datatype Pending = Pending(otp: string, expires: int, name: Option<string>, dob: Option<string>)

  datatype State = State(pending: map<string, Pending>, users: seq<User>)

  datatype Body =
    | Message(text: string)
    | Failure(error: string)
    | Session(token: string, user: User)
    | Profile(found: Option<User>)

  datatype Reply = Reply(status: int, body: Body)

  datatype Outcome = Outcome(reply: Reply, state: State)

  /** The stored entry for `email` holds `otp` and has not expired at `now`. */
  predicate CodeAccepted(pending: map<string, Pending>, email: Option<string>, otp: Option<string>, now: int)
  {
    && email.Some? && email.value in pending
    && otp == Some(pending[email.value].otp)
    && !(pending[email.value].expires < now)
  }

  /** `sendOtp`: request a sign-up code. */
  function SendOtp(st: State, email: Option<string>, name: Option<string>, dob: Option<string>,
                   now: int, code: string, delivered: bool): (o: Outcome)
    ensures o.state.users == st.users
    ensures o.reply == Reply(400, Failure("Missing required fields")) <==>
              !Truthy(email) || !Truthy(name) || !Truthy(dob)
    ensures o.reply == Reply(400, Failure("Invalid email format")) <==>
              Truthy(email) && Truthy(name) && Truthy(dob) && !MatchesServerPattern(email.value)
    ensures o.reply.status == 400 ==> o.state == st
    ensures o.reply.status != 400 ==>
              && MatchesServerPattern(email.value)
              && o.state.pending == st.pending[email.value := Pending(code, now + 300000, name, dob)]
    ensures o.reply == Reply(500, Failure("Failed to send OTP")) <==> o.reply.status != 400 && !delivered
    ensures Truthy(email) && Truthy(name) && Truthy(dob) && MatchesServerPattern(email.value) ==>
              o.reply == if delivered then Reply(200, Message("OTP sent successfully"))
                         else Reply(500, Failure("Failed to send OTP"))
  {
    if !Truthy(email) || !Truthy(name) || !Truthy(dob) then
      Outcome(Reply(400, Failure("Missing required fields")), st)
    else if !ServerEmailCheck(email.value) then
      Outcome(Reply(400, Failure("Invalid email format")), st)
    else
      var st' := st.(pending := st.pending[email.value := Pending(code, now + OtpLifetime, name, dob)]);
      if delivered then Outcome(Reply(200, Message("OTP sent successfully")), st')
      else Outcome(Reply(500, Failure("Failed to send OTP")), st')
  }

  /** `verifyOtpAndSignup`: redeem a sign-up code and create the user. */
  function VerifyOtpAndSignup(st: State, email: Option<string>, otp: Option<string>, now: int,
                              parseDate: string -> Option<int>, sign: UserId -> string): (o: Outcome)
    ensures o.reply == Reply(400, Failure("Invalid or expired OTP")) <==>
              !(email.Some? && email.value in st.pending
                && otp == Some(st.pending[email.value].otp) && now <= st.pending[email.value].expires)
    ensures o.reply.status != 200 ==> o.state == st
    ensures o.reply == Reply(400, Failure("User already exists")) <==>
              CodeAccepted(st.pending, email, otp, now) && FindByEmail(st.users, email.value).Some?
    ensures o.reply.status == 200 ==>
              var e := email.value;
              var stored := st.pending[e];
              && CodeAccepted(st.pending, email, otp, now)
              && FindByEmail(st.users, e).None?
              && o.state.pending == st.pending - {e}
              && o.reply.body.Session?
              && !(Truthy(stored.dob) && parseDate(stored.dob.value).None?)
              && o.reply.body.user == User(|st.users|, e, stored.name,
                   if Truthy(stored.dob) then parseDate(stored.dob.value) else None, None)
              && o.state.users == st.users + [o.reply.body.user]
              && o.reply.body.token == sign(|st.users|)
    ensures o.reply == Reply(400, Failure("Invalid date format")) <==>
              && CodeAccepted(st.pending, email, otp, now) && FindByEmail(st.users, email.value).None?
              && Truthy(st.pending[email.value].dob) && parseDate(st.pending[email.value].dob.value).None?
    ensures Valid(st.users) ==> Valid(o.state.users)
    ensures CodeAccepted(st.pending, email, otp, now) && FindByEmail(st.users, email.value).None?
              && !(Truthy(st.pending[email.value].dob) && parseDate(st.pending[email.value].dob.value).None?) ==>
              o.reply.status == 200
  {
    if !CodeAccepted(st.pending, email, otp, now) then
      Outcome(Reply(400, Failure("Invalid or expired OTP")), st)
    else
      var e := email.value;
      var stored := st.pending[e];
      if FindByEmail(st.users, e).Some? then
        Outcome(Reply(400, Failure("User already exists")), st)
      else if Truthy(stored.dob) && parseDate(stored.dob.value).None? then
        Outcome(Reply(400, Failure("Invalid date format")), st)
      else
        var dob := if Truthy(stored.dob) then parseDate(stored.dob.value) else None;
        var (user, users') := Insert(st.users, e, stored.name, dob, None);
        Outcome(Reply(200, Session(sign(user.id), user)), State(st.pending - {e}, users'))
  }

  /** `sendOtpForLogin`: request a log-in code for an existing user. */
  function SendOtpForLogin(st: State, email: Option<string>, now: int, code: string, delivered: bool): (o: Outcome)
    ensures o.state.users == st.users
    ensures o.reply == Reply(400, Failure("Email required")) <==> !Truthy(email)
    ensures o.reply == Reply(400, Failure("Invalid email format")) <==>
              Truthy(email) && !MatchesServerPattern(email.value)
    ensures o.reply == Reply(404, Failure("User not found")) <==>
              Truthy(email) && MatchesServerPattern(email.value) && FindByEmail(st.users, email.value).None?
    ensures o.reply.status in {400, 404} ==> o.state == st
    ensures o.reply.status !in {400, 404} ==>
              && FindByEmail(st.users, email.value).Some?
              && o.state.pending == st.pending[email.value := Pending(code, now + 300000, None, None)]
    ensures o.reply == Reply(500, Failure("Failed to send OTP")) <==> o.reply.status !in {400, 404} && !delivered
    ensures Truthy(email) && MatchesServerPattern(email.value) && FindByEmail(st.users, email.value).Some? ==>
              o.reply == if delivered then Reply(200, Message("OTP sent successfully"))
                         else Reply(500, Failure("Failed to send OTP"))
  {
    if !Truthy(email) then
      Outcome(Reply(400, Failure("Email required")), st)
    else if !ServerEmailCheck(email.value) then
      Outcome(Reply(400, Failure("Invalid email format")), st)
    else if FindByEmail(st.users, email.value).None? then
      Outcome(Reply(404, Failure("User not found")), st)
    else
      var st' := st.(pending := st.pending[email.value := Pending(code, now + OtpLifetime, None, None)]);
      if delivered then Outcome(Reply(200, Message("OTP sent successfully")), st')
      else Outcome(Reply(500, Failure("Failed to send OTP")), st')
  }

  /** `verifyOtpAndLogin`: redeem a log-in code. */
  function VerifyOtpAndLogin(st: State, email: Option<string>, otp: Option<string>, now: int,
                             sign: UserId -> string): (o: Outcome)
    ensures o.state.users == st.users
    ensures o.reply == Reply(400, Failure("Invalid or expired OTP")) <==>
              !(email.Some? && email.value in st.pending
                && otp == Some(st.pending[email.value].otp) && now <= st.pending[email.value].expires)
    ensures o.reply == Reply(404, Failure("User not found")) <==>
              CodeAccepted(st.pending, email, otp, now) && FindByEmail(st.users, email.value).None?
    ensures o.reply.status != 200 ==> o.state == st
    ensures o.reply.status == 200 ==>
              && CodeAccepted(st.pending, email, otp, now)
              && o.state.pending == st.pending - {email.value}
              && o.reply.body.Session?
              && Some(o.reply.body.user) == FindByEmail(st.users, email.value)
              && o.reply.body.token == sign(o.reply.body.user.id)
    ensures CodeAccepted(st.pending, email, otp, now) && FindByEmail(st.users, email.value).Some? ==>
              o.reply.status == 200
  {
    if !CodeAccepted(st.pending, email, otp, now) then
      Outcome(Reply(400, Failure("Invalid or expired OTP")), st)
    else
      match FindByEmail(st.users, email.value)
      case None => Outcome(Reply(404, Failure("User not found")), st)
      case Some(user) =>
        Outcome(Reply(200, Session(sign(user.id), user)), st.(pending := st.pending - {email.value}))
  }

  /** `getUserInfo`: the user a bearer token names; a verified token whose
      user is gone yields an empty profile, not an error. */
  function GetUserInfo(users: seq<User>, header: Option<string>, verify: string -> Option<UserId>): (r: Reply)
    ensures r == Reply(401, Failure("No token provided")) <==> BearerToken(header) in {None, Some("")}
    ensures r == Reply(401, Failure("Token verification failed")) <==>
              BearerToken(header).Some? && BearerToken(header).value != "" && verify(BearerToken(header).value).None?
    ensures r.status == 200 ==>
              && r.body.Profile?
              && BearerToken(header).Some?
              && verify(BearerToken(header).value).Some?
              && r.body.found == FindById(users, verify(BearerToken(header).value).value)
    ensures BearerToken(header).Some? && BearerToken(header).value != "" && verify(BearerToken(header).value).Some? ==>
              r == Reply(200, Profile(FindById(users, verify(BearerToken(header).value).value)))
  {
    match BearerToken(header)
    case None => Reply(401, Failure("No token provided"))
    case Some(token) =>
      if token == "" then Reply(401, Failure("No token provided"))
      else match verify(token)
        case None => Reply(401, Failure("Token verification failed"))
        case Some(id) => Reply(200, Profile(FindById(users, id)))
  }

  // ---------------------------------------------------------------------
  // Properties of the code lifecycle
  // ---------------------------------------------------------------------

  /** `getUserInfo` and the gate read the header the same way: the profile
      is a stored user exactly when the gate lets the request through as that
      user, and it is empty exactly when the gate answers "Invalid token". */
  lemma UserInfoAgreesWithGate(users: seq<User>, header: Option<string>, verify: string -> Option<UserId>)
    ensures var d := Gate(users, header, verify);
      d.Allow? ==> GetUserInfo(users, header, verify) == Reply(200, Profile(Some(d.user)))
    ensures var r := GetUserInfo(users, header, verify);
      r.status == 200 && r.body.found.Some? ==> Gate(users, header, verify) == Allow(r.body.found.value)
    ensures GetUserInfo(users, header, verify) == Reply(200, Profile(None)) <==>
            Gate(users, header, verify) == Deny(401, "Invalid token")
    ensures var d := Gate(users, header, verify);
      GetUserInfo(users, header, verify).status == 401 <==> d.Deny? && d.error != "Invalid token"
  {
  }

  /** A code is still good at the very millisecond it expires, and not one
      millisecond later, for both verification handlers. */
  lemma ExpiryBoundary(st: State, e: string, otp: string, parseDate: string -> Option<int>, sign: UserId -> string)
    requires e in st.pending && st.pending[e].otp == otp
    ensures var x := st.pending[e].expires;
      && VerifyOtpAndSignup(st, Some(e), Some(otp), x, parseDate, sign).reply != Reply(400, Failure("Invalid or expired OTP"))
      && VerifyOtpAndSignup(st, Some(e), Some(otp), x + 1, parseDate, sign).reply == Reply(400, Failure("Invalid or expired OTP"))
      && VerifyOtpAndLogin(st, Some(e), Some(otp), x, sign).reply != Reply(400, Failure("Invalid or expired OTP"))
      && VerifyOtpAndLogin(st, Some(e), Some(otp), x + 1, sign).reply == Reply(400, Failure("Invalid or expired OTP"))
  {
  }

  /** Once a sign-up verification succeeds, the code is gone: no later
      verification of that email, sign-up or log-in, with any code at any
      time, succeeds until a new code is requested. */
  lemma {:induction false} SignupCodeWorksOnce(st: State, e: string, otp: Option<string>, now: int,
                               parseDate: string -> Option<int>, sign: UserId -> string,
                               otp': Option<string>, now': int)
    requires VerifyOtpAndSignup(st, Some(e), otp, now, parseDate, sign).reply.status == 200
    ensures var st' := VerifyOtpAndSignup(st, Some(e), otp, now, parseDate, sign).state;
      && e !in st'.pending
      && VerifyOtpAndSignup(st', Some(e), otp', now', parseDate, sign).reply == Reply(400, Failure("Invalid or expired OTP"))
      && VerifyOtpAndLogin(st', Some(e), otp', now', sign).reply == Reply(400, Failure("Invalid or expired OTP"))
  {
    var st' := VerifyOtpAndSignup(st, Some(e), otp, now, parseDate, sign).state;
    assert st'.pending == st.pending - {e};
  }

  /** The same for a log-in verification. */
  lemma {:induction false} LoginCodeWorksOnce(st: State, e: string, otp: Option<string>, now: int,
                              sign: UserId -> string, otp': Option<string>, now': int)
    requires VerifyOtpAndLogin(st, Some(e), otp, now, sign).reply.status == 200
    ensures var st' := VerifyOtpAndLogin(st, Some(e), otp, now, sign).state;
      && e !in st'.pending
      && VerifyOtpAndLogin(st', Some(e), otp', now', sign).reply == Reply(400, Failure("Invalid or expired OTP"))
  {
    var st' := VerifyOtpAndLogin(st, Some(e), otp, now, sign).state;
    assert st'.pending == st.pending - {e};
  }

  /** Requesting a new code, for sign-up or log-in, replaces the old one: the
      old code no longer verifies, whatever the delivery outcome. */
  lemma ResendInvalidatesOldCode(st: State, e: string, name: Option<string>, dob: Option<string>,
                                 t: int, earlier: string, later: string, delivered: bool,
                                 now: int, parseDate: string -> Option<int>, sign: UserId -> string)
    requires earlier != later
    ensures var o := SendOtp(st, Some(e), name, dob, t, later, delivered);
      o.reply.status != 400 ==>
        && VerifyOtpAndSignup(o.state, Some(e), Some(earlier), now, parseDate, sign).reply == Reply(400, Failure("Invalid or expired OTP"))
        && VerifyOtpAndLogin(o.state, Some(e), Some(earlier), now, sign).reply == Reply(400, Failure("Invalid or expired OTP"))
    ensures var o := SendOtpForLogin(st, Some(e), t, later, delivered);
      o.reply.status !in {400, 404} ==>
        && VerifyOtpAndSignup(o.state, Some(e), Some(earlier), now, parseDate, sign).reply == Reply(400, Failure("Invalid or expired OTP"))
        && VerifyOtpAndLogin(o.state, Some(e), Some(earlier), now, sign).reply == Reply(400, Failure("Invalid or expired OTP"))
  {
  }

  /** A failed delivery still leaves the new code in place, so it can be
      redeemed like a delivered one. */
  lemma DeliveryFailureKeepsCode(st: State, e: string, name: Option<string>, dob: Option<string>,
                                 t: int, code: string)
    ensures SendOtp(st, Some(e), name, dob, t, code, false).state
         == SendOtp(st, Some(e), name, dob, t, code, true).state
    ensures SendOtpForLogin(st, Some(e), t, code, false).state
         == SendOtpForLogin(st, Some(e), t, code, true).state
  {
  }

  /** A wrong guess consumes nothing: verifying with the right code afterwards
      gives exactly what it would have given without the guess. */
  lemma WrongCodeKeepsEntry(st: State, e: string, guess: string, now: int, otp: Option<string>, now': int,
                            parseDate: string -> Option<int>, sign: UserId -> string)
    requires e in st.pending && guess != st.pending[e].otp
    ensures var st' := VerifyOtpAndSignup(st, Some(e), Some(guess), now, parseDate, sign).state;
      && st' == st
      && VerifyOtpAndSignup(st', Some(e), otp, now', parseDate, sign) == VerifyOtpAndSignup(st, Some(e), otp, now', parseDate, sign)
    ensures var st' := VerifyOtpAndLogin(st, Some(e), Some(guess), now, sign).state;
      && st' == st
      && VerifyOtpAndLogin(st', Some(e), otp, now', sign) == VerifyOtpAndLogin(st, Some(e), otp, now', sign)
  {
  }

  /** The sign-up round trip: request a code for a new address, redeem it
      within five minutes, and the user exists with a session token; a second
      redemption fails. Redeeming after the five minutes fails. */
  lemma {:induction false} SignupRoundTrip(st: State, e: string, name: string, dob: string, t: int, code: string,
                           delivered: bool, now: int, born: int,
                           parseDate: string -> Option<int>, sign: UserId -> string)
    requires e != "" && name != "" && dob != "" && MatchesServerPattern(e)
    requires FindByEmail(st.users, e).None?
    requires parseDate(dob) == Some(born)
    ensures var o1 := SendOtp(st, Some(e), Some(name), Some(dob), t, code, delivered);
      var o2 := VerifyOtpAndSignup(o1.state, Some(e), Some(code), now, parseDate, sign);
      var u := User(|st.users|, e, Some(name), Some(born), None);
      && (now <= t + OtpLifetime ==>
            && o2.reply == Reply(200, Session(sign(|st.users|), u))
            && o2.state == State(st.pending - {e}, st.users + [u])
            && VerifyOtpAndSignup(o2.state, Some(e), Some(code), now, parseDate, sign).reply
               == Reply(400, Failure("Invalid or expired OTP")))
      && (now > t + OtpLifetime ==>
            o2.reply == Reply(400, Failure("Invalid or expired OTP")))
  {
    var o1 := SendOtp(st, Some(e), Some(name), Some(dob), t, code, delivered);
    assert o1.state.pending == st.pending[e := Pending(code, t + OtpLifetime, Some(name), Some(dob))];
    assert o1.state.pending - {e} == st.pending - {e};
    if now <= t + OtpLifetime {
      var o2 := VerifyOtpAndSignup(o1.state, Some(e), Some(code), now, parseDate, sign);
      SignupCodeWorksOnce(o1.state, e, Some(code), now, parseDate, sign, Some(code), now);
    }
  }

  /** A log-in code, redeemed before it expires, logs in the user it was
      requested for and is gone afterwards; redeemed later, it is refused. */
  lemma LoginRoundTrip(st: State, u: User, t: int, code: string, now: int, sign: UserId -> string)
    requires Valid(st.users) && u in st.users
    requires u.email != "" && MatchesServerPattern(u.email)
    ensures var o1 := SendOtpForLogin(st, Some(u.email), t, code, true);
      var o2 := VerifyOtpAndLogin(o1.state, Some(u.email), Some(code), now, sign);
      && o1.reply.status == 200
      && (now <= t + OtpLifetime ==>
            && o2.reply == Reply(200, Session(sign(u.id), u))
            && o2.state == State(st.pending - {u.email}, st.users))
      && (now > t + OtpLifetime ==> o2.reply == Reply(400, Failure("Invalid or expired OTP")))
  {
    FindByEmailInValid(st.users, u);
    var o1 := SendOtpForLogin(st, Some(u.email), t, code, true);
    assert o1.state.pending == st.pending[u.email := Pending(code, t + OtpLifetime, None, None)];
    assert o1.state.pending - {u.email} == st.pending - {u.email};
  }
}
