/** The user table as the backend uses it through its database client: rows
    found by `email`, by `id` or by `googleId` (each a unique key), and new
    rows inserted with a fresh id. The database itself is not part of this
    model; the table is a sequence whose row `i` carries the id `i`, which is
    how this model stands for "the database assigns an unused id". */
module UserStore {
  import opened Options

  type UserId = nat

  datatype User = User(
    id: UserId,
    email: string,
    name: Option<string>,
    dob: Option<int>,          // birth date as milliseconds since the epoch
    googleId: Option<string>)

  /** The table's constraints: ids are positions, emails are unique, and a
      Google id appears at most once. */
  predicate Valid(users: seq<User>)
  {
    && (forall i :: 0 <= i < |users| ==> users[i].id == i)
    && (forall i, j :: 0 <= i < j < |users| ==> users[i].email != users[j].email)
    && (forall i, j :: 0 <= i < j < |users| && users[i].googleId.Some? ==> users[i].googleId != users[j].googleId)
  }

  /** `findUnique({ where: { email } })`. */
  function FindByEmail(users: seq<User>, email: string): (r: Option<User>)
    ensures r.Some? ==> r.value in users && r.value.email == email
    ensures r.None? <==> forall i :: 0 <= i < |users| ==> users[i].email != email
    decreases |users|
  {
    if users == [] then None
    else if users[0].email == email then Some(users[0])
    else
      var r := FindByEmail(users[1..], email);
      assert forall i :: 1 <= i < |users| ==> users[i] == users[1..][i - 1];
      r
  }

  /** `findUnique({ where: { id } })`. */
  function FindById(users: seq<User>, id: UserId): (r: Option<User>)
    ensures r.Some? ==> r.value in users && r.value.id == id
    ensures r.None? <==> forall i :: 0 <= i < |users| ==> users[i].id != id
    decreases |users|
  {
    if users == [] then None
    else if users[0].id == id then Some(users[0])
    else
      var r := FindById(users[1..], id);
      assert forall i :: 1 <= i < |users| ==> users[i] == users[1..][i - 1];
      r
  }

  /** `findUnique({ where: { googleId } })`. */
  function FindByGoogleId(users: seq<User>, googleId: string): (r: Option<User>)
    ensures r.Some? ==> r.value in users && r.value.googleId == Some(googleId)
    ensures r.None? <==> forall i :: 0 <= i < |users| ==> users[i].googleId != Some(googleId)
    decreases |users|
  {
    if users == [] then None
    else if users[0].googleId == Some(googleId) then Some(users[0])
    else
      var r := FindByGoogleId(users[1..], googleId);
      assert forall i :: 1 <= i < |users| ==> users[i] == users[1..][i - 1];
      r
  }

  /** A row with these keys would break no unique constraint. */
  predicate CanInsert(users: seq<User>, email: string, googleId: Option<string>)
  {
    && FindByEmail(users, email).None?
    && (googleId.None? || FindByGoogleId(users, googleId.value).None?)
  }

  /** `create({ data })` when no constraint is broken: the new row gets the
      next id and goes at the end; the existing rows are untouched, and the
      table's constraints still hold. */
  function Insert(users: seq<User>, email: string, name: Option<string>, dob: Option<int>,
                  googleId: Option<string>): (r: (User, seq<User>))
    requires CanInsert(users, email, googleId)
    ensures r.0 == User(|users|, email, name, dob, googleId)
    ensures r.1 == users + [r.0]
    ensures Valid(users) ==> Valid(r.1)
  {
    var u := User(|users|, email, name, dob, googleId);
    var users' := users + [u];
    assert forall i :: 0 <= i < |users| ==> users'[i] == users[i];
    (u, users')
  }

  /** `create({ data })`: `None` when the store rejects the row because the
      email or the Google id is taken. */
  function Create(users: seq<User>, email: string, name: Option<string>, dob: Option<int>,
                  googleId: Option<string>): (r: Option<(User, seq<User>)>)
    ensures r.Some? <==> CanInsert(users, email, googleId)
    ensures r.Some? ==> r.value == Insert(users, email, name, dob, googleId)
  {
    if CanInsert(users, email, googleId) then Some(Insert(users, email, name, dob, googleId)) else None
  }

  /** In a valid table, looking up a row's id finds that row. */
  lemma FindByIdInValid(users: seq<User>, u: User)
    requires Valid(users) && u in users
    ensures FindById(users, u.id) == Some(u)
  {
    var i :| 0 <= i < |users| && users[i] == u;
    var r := FindById(users, u.id);
    assert r.Some?;
    var k :| 0 <= k < |users| && users[k] == r.value;
    assert k == i;
  }

  /** In a valid table, looking up a row's email finds that row. */
  lemma FindByEmailInValid(users: seq<User>, u: User)
    requires Valid(users) && u in users
    ensures FindByEmail(users, u.email) == Some(u)
  {
    var i :| 0 <= i < |users| && users[i] == u;
    var r := FindByEmail(users, u.email);
    assert r.Some?;
    var k :| 0 <= k < |users| && users[k] == r.value;
    if k < i {
      assert users[k].email != users[i].email;
    } else if i < k {
      assert users[i].email != users[k].email;
    }
  }
}
