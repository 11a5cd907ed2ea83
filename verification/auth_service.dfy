/**
  The authentication service: signing up and logging in. Password hashing
  and token signing are outside the model: the hash a signup stores is
  handed in as the outcome of the hasher (it is salted, so not a function
  of the password), the password check is a given predicate, and token
  issuance a given function of the user id and role that may fail.
 */
module AuthService {
  import opened Model
  import opened Database

  /** The first user with the given email, if any. */
  function FindByEmail(users: seq<User>, email: string): (r: Option<User>)
    ensures r.Some? ==> r.value in users && r.value.email == email
    ensures r.None? ==> forall i :: 0 <= i < |users| ==> users[i].email != email
    decreases |users|
  {
    if users == [] then None
    else if users[0].email == email then Some(users[0])
    else FindByEmail(users[1..], email)
  }

  /** Appending a user changes the lookup only for its email, and only when that email was free. */
  lemma {:induction false} FindByEmailAfterAppend(users: seq<User>, u: User, email: string)
    ensures FindByEmail(users + [u], email) ==
      if FindByEmail(users, email).Some? then FindByEmail(users, email)
      else if u.email == email then Some(u)
      else None
    decreases |users|
  {
    if users != [] {
      assert (users + [u])[1..] == users[1..] + [u];
      FindByEmailAfterAppend(users[1..], u, email);
    }
  }

  /** The role a signup stores: the given one, or USER when none is given. */
  function EffectiveRole(role: string): (r: string)
    ensures r != ""
    ensures role != "" ==> r == role
    ensures role == "" ==> r == RoleUser
  {
    if role == "" then RoleUser else role
  }

  /**
    Registers a user. An email already in use fails with UserAlreadyExists,
    a failed hash (`hashed` is None) with HashFailure; neither changes
    anything. Otherwise one user is appended under the next user id with the
    hash as its password and the role defaulted to USER.
   */
  method Signup(db: Store, name: string, email: string, password: string, role: string,
                hashed: Option<string>)
    returns (r: Outcome)
    requires db.Valid()
    modifies db
    ensures db.Valid()
    ensures FindByEmail(old(db.users), email).Some? ==> r == Fail(UserAlreadyExists) && unchanged(db)
    ensures FindByEmail(old(db.users), email).None? && hashed.None? ==> r == Fail(HashFailure) && unchanged(db)
    ensures FindByEmail(old(db.users), email).None? && hashed.Some? ==>
      && r == Pass
      && db.users == old(db.users) + [User(old(db.nextUserId), name, email, hashed.value, EffectiveRole(role))]
      && db.nextUserId == old(db.nextUserId) + 1
      && db.books == old(db.books) && db.carts == old(db.carts) && db.orders == old(db.orders)
      && db.nextBookId == old(db.nextBookId) && db.nextCartId == old(db.nextCartId)
      && db.nextItemId == old(db.nextItemId) && db.nextOrderId == old(db.nextOrderId)
    ensures r == Pass ==> FindByEmail(db.users, email) == Some(db.users[|db.users| - 1])
  {
    var existing := FindByEmail(db.users, email);
    if existing.Some? {
      return Fail(UserAlreadyExists);
    }
    if hashed.None? {
      return Fail(HashFailure);
    }
    var stored := role;
    if stored == "" {
      stored := RoleUser;
    }
    var user := User(db.nextUserId, name, email, hashed.value, stored);
    FindByEmailAfterAppend(db.users, user, email);
    db.users := db.users + [user];
    db.nextUserId := db.nextUserId + 1;
    r := Pass;
  }

  /**
    Logs a user in. An unknown email and a wrong password fail with the same
    InvalidCredentials error. Otherwise the result is the token issued for
    the user's id and role, or TokenFailure when issuing fails.
   */
  function Login(db: Store, email: string, password: string,
                 matches: (string, string) -> bool, issue: (nat, string) -> Option<string>)
    : (r: Result<string>)
    reads db
    ensures FindByEmail(db.users, email).None? ==> r == Failure(InvalidCredentials)
    ensures FindByEmail(db.users, email).Some? && !matches(password, FindByEmail(db.users, email).value.password) ==>
      r == Failure(InvalidCredentials)
    ensures r.Success? ==>
      && FindByEmail(db.users, email).Some?
      && var user := FindByEmail(db.users, email).value;
         && user.email == email
         && matches(password, user.password)
         && issue(user.id, user.role) == Some(r.value)
    ensures r.Failure? ==> r.error == InvalidCredentials || r.error == TokenFailure
    ensures FindByEmail(db.users, email).Some? && matches(password, FindByEmail(db.users, email).value.password) ==>
      var user := FindByEmail(db.users, email).value;
      r == (if issue(user.id, user.role).Some? then Success(issue(user.id, user.role).value) else Failure(TokenFailure))
  {
    match FindByEmail(db.users, email)
    case None => Failure(InvalidCredentials)
    case Some(user) =>
      if !matches(password, user.password) then Failure(InvalidCredentials)
      else
        match issue(user.id, user.role)
        case None => Failure(TokenFailure)
        case Some(token) => Success(token)
  }

  /**
    Right after a signup stored user `u`, logging in with its email
    succeeds exactly when the password matches the stored hash and a token
    can be issued for the new user's id and role.
   */
  lemma LoginAfterSignup(db: Store, before: seq<User>, u: User, password: string,
                         matches: (string, string) -> bool, issue: (nat, string) -> Option<string>)
    requires FindByEmail(before, u.email).None?
    requires db.users == before + [u]
    ensures Login(db, u.email, password, matches, issue).Success? <==>
      matches(password, u.password) && issue(u.id, u.role).Some?
    ensures Login(db, u.email, password, matches, issue).Success? ==>
      Some(Login(db, u.email, password, matches, issue).value) == issue(u.id, u.role)
  {
    FindByEmailAfterAppend(before, u, u.email);
  }
}
