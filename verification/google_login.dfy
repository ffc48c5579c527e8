/** The Google sign-in callback and the session (de)serialisers of
    backend/src/passport.ts. The OAuth exchange itself belongs to the
    authentication library; what reaches this code is the provider's
    profile. */
module GoogleLogin {
  import opened Options
  import opened UserStore

  /** The parts of the provider's profile the callback reads: its id, its
      display name and the values of its email list, in order. */
  datatype Profile = Profile(id: string, displayName: string, emails: seq<string>)

  /** What the callback passes to `done`: a user, or an error and no user. */
  datatype Done = Done(user: User) | DoneError

  /** The first profile email, or the empty string when there is none. */
  function ProfileEmail(p: Profile): string
  {
    if |p.emails| > 0 then p.emails[0] else ""
  }

  /** The verify callback: find the user by Google id, else create one. The
      creation fails, and the error goes to `done`, when the store refuses
      the row because its email is taken. */
  function FindOrCreate(users: seq<User>, p: Profile): (r: (Done, seq<User>))
    ensures FindByGoogleId(users, p.id).Some? ==> r == (Done(FindByGoogleId(users, p.id).value), users)
    ensures FindByGoogleId(users, p.id).None? && FindByEmail(users, ProfileEmail(p)).None? ==>
      && r.0 == Done(User(|users|, ProfileEmail(p), Some(p.displayName), None, Some(p.id)))
      && r.1 == users + [r.0.user]
    ensures FindByGoogleId(users, p.id).None? && FindByEmail(users, ProfileEmail(p)).Some? ==>
      r == (DoneError, users)
    ensures r.0.Done? ==> r.0.user.googleId == Some(p.id) && r.0.user in r.1
    ensures Valid(users) ==> Valid(r.1)
  {
    match FindByGoogleId(users, p.id)
    case Some(user) => (Done(user), users)
    case None =>
      match Create(users, ProfileEmail(p), Some(p.displayName), None, Some(p.id))
      case None => (DoneError, users)
      case Some(created) => (Done(created.0), created.1)
  }

  /** Signing in twice with the same Google account returns the same user and
      adds nothing the second time. */
  lemma FindOrCreateIdempotent(users: seq<User>, p: Profile)
    requires Valid(users)
    ensures var r := FindOrCreate(users, p);
      r.0.Done? ==> FindOrCreate(r.1, p) == (r.0, r.1)
  {
    var r := FindOrCreate(users, p);
    if r.0.Done? {
      var u := r.0.user;
      var f := FindByGoogleId(r.1, p.id);
      assert f.Some?;
      var i :| 0 <= i < |r.1| && r.1[i] == f.value;
      var k :| 0 <= k < |r.1| && r.1[k] == u;
    }
  }

  /** Two new Google accounts without an email cannot both sign in: the
      first takes the empty email, and the store refuses the second. */
  lemma SecondEmaillessAccountFails(users: seq<User>, p: Profile, q: Profile)
    requires |p.emails| == 0 && |q.emails| == 0 && p.id != q.id
    requires FindByGoogleId(users, p.id).None? && FindByGoogleId(users, q.id).None?
    ensures var r := FindOrCreate(users, p);
      r.0.Done? ==> FindOrCreate(r.1, q) == (DoneError, r.1)
  {
    var r := FindOrCreate(users, p);
    if r.0.Done? {
      assert r.1[|users|] == r.0.user;
      assert FindByEmail(r.1, "").Some?;
    }
  }

  /** `serializeUser`: the session keeps the user's id. */
  function SerializeUser(u: User): (id: UserId)
  {
    u.id
  }

  /** `deserializeUser`: the user with that id, or none. */
  function DeserializeUser(users: seq<User>, id: UserId): (r: Option<User>)
    ensures r.Some? ==> r.value in users && r.value.id == id
  {
    FindById(users, id)
  }

  /** A stored user survives the round trip through the session. */
  lemma SessionRoundTrip(users: seq<User>, u: User)
    requires Valid(users) && u in users
    ensures DeserializeUser(users, SerializeUser(u)) == Some(u)
  {
    FindByIdInValid(users, u);
  }
}
