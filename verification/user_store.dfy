/**
 * The account endpoints over the `user_login` table: registration, login, the reset-password
 * security question and answer check, and reading or updating one's own profile behind a
 * bearer token. Passwords are stored only as salted bcrypt hashes. The hashing and the check
 * are parameters: the hash text `pwd_context.hash` returned for a request, and the function
 * `pwd_context.verify(password, hash)`. No property of bcrypt is assumed beyond what a
 * statement names in its own `requires`.
 */
module UserStore {
  import opened Wrappers
  import opened Text

  /** The text `pwd_context.hash(p)` returns; it is salted, so it is passed in, not computed. */
  type Secret = string

  /** `pwd_context.verify(password, hash)`. */
  type Verifier = (string, Secret) -> bool

  /** One `user_login` row. */
  datatype User = User(id: nat, name: string, email: string, password: Secret,
                       question: string, answer: string)

  /** The table, in insertion order, and the next primary key the database assigns. */
  datatype Accounts = Accounts(users: seq<User>, nextId: nat)

  /** Emails are unique (the column's constraint) and ids are distinct and already issued. */
  predicate Valid(a: Accounts) {
    && (forall i, j :: 0 <= i < j < |a.users| ==> a.users[i].email != a.users[j].email)
    && (forall i :: 0 <= i < |a.users| ==> a.users[i].id < a.nextId)
    && (forall i, j :: 0 <= i < j < |a.users| ==> a.users[i].id != a.users[j].id)
  }

  /** `filter(User_Login.email == email).first()`: the position of the first row with that email. */
  function FindEmail(users: seq<User>, email: string): (r: Option<nat>)
    ensures r.None? <==> forall i :: 0 <= i < |users| ==> users[i].email != email
    ensures r.Some? ==> r.value < |users| && users[r.value].email == email
    ensures r.Some? ==> forall i :: 0 <= i < r.value ==> users[i].email != email
  {
    if users == [] then None
    else if users[0].email == email then Some(0)
    else match FindEmail(users[1..], email)
      case None => None
      case Some(i) => Some(i + 1)
  }

  /** A registration request. */
  datatype Signup = Signup(name: string, email: string, password: string, question: string, answer: string)

  /**
   * `register_user`: 400 when the email is taken, the table untouched; otherwise one row is
   * appended with `hashed` (the hash of the request's password) and the security answer
   * lower-cased.
   */
  function Register(a: Accounts, req: Signup, hashed: Secret): (r: Result<Accounts, HttpError>)
    ensures r.Err? <==> exists i :: 0 <= i < |a.users| && a.users[i].email == req.email
    ensures r.Err? ==> r.error == BadRequest
    ensures r.Ok? ==> r.value.users == a.users + [User(a.nextId, req.name, req.email, hashed, req.question, Lower(req.answer))]
  {
    match FindEmail(a.users, req.email)
    case Some(_) => Err(BadRequest)
    case None =>
      var added := User(a.nextId, req.name, req.email, hashed, req.question, Lower(req.answer));
      Ok(Accounts(a.users + [added], a.nextId + 1))
  }

  /** Registration keeps emails unique and ids distinct. */
  lemma RegisterValid(a: Accounts, req: Signup, hashed: Secret)
    requires Valid(a)
    ensures Register(a, req, hashed).Ok? ==> Valid(Register(a, req, hashed).value)
  {
  }

  /** What a successful login answers: the token carries the email. */
  datatype Session = Session(token: string, userId: nat, email: string, name: string)

  /** `login_user`: one and the same 401 whether the email is unknown or the password wrong. */
  function Login(a: Accounts, email: string, password: string, verify: Verifier): (r: Result<Session, HttpError>)
    ensures r.Err? ==> r.error == Unauthorized
    ensures r.Err? <==> match FindEmail(a.users, email)
      case None => true
      case Some(i) => !verify(password, a.users[i].password)
    ensures r.Ok? ==> exists i :: 0 <= i < |a.users| && a.users[i].email == email && r.value.userId == a.users[i].id
  {
    match FindEmail(a.users, email)
    case None => Err(Unauthorized)
    case Some(i) =>
      var user := a.users[i];
      if !verify(password, user.password) then Err(Unauthorized)
      else Ok(Session(email, user.id, user.email, user.name))
  }

  /**
   * A new account logs in with exactly the passwords the verifier accepts against the hash
   * stored at registration; so, when the verifier accepts the registered password against its
   * own hash, with that password.
   */
  lemma RegisterThenLogin(a: Accounts, req: Signup, hashed: Secret, verify: Verifier, password: string)
    requires Valid(a) && Register(a, req, hashed).Ok?
    ensures var b := Register(a, req, hashed).value;
      Login(b, req.email, password, verify).Ok? <==> verify(password, hashed)
    ensures var b := Register(a, req, hashed).value;
      verify(req.password, hashed) ==>
      Login(b, req.email, req.password, verify) == Ok(Session(req.email, a.nextId, req.email, req.name))
  {
    var b := Register(a, req, hashed).value;
    assert b.users[|a.users|].email == req.email;
    assert FindEmail(b.users, req.email) == Some(|a.users|);
  }

  /**
   * `get_current_user`: the token's payload is its email (`None` when the token does not
   * decode); 401 when it does not decode, names no email, or names no account.
   */
  function CurrentUser(a: Accounts, payload: Option<string>): (r: Result<User, HttpError>)
    ensures r.Err? ==> r.error == Unauthorized
    ensures r.Err? <==> payload.None? || payload.value == [] || FindEmail(a.users, payload.value).None?
    ensures r.Ok? ==> r.value in a.users && r.value.email == payload.value
  {
    match payload
    case None => Err(Unauthorized)
    case Some(email) =>
      if email == [] then Err(Unauthorized)
      else match FindEmail(a.users, email)
        case None => Err(Unauthorized)
        case Some(i) => Ok(a.users[i])
  }

  /** The token issued at login authenticates the user who logged in. */
  lemma LoginTokenAuthenticates(a: Accounts, email: string, password: string, verify: Verifier)
    requires Valid(a) && Login(a, email, password, verify).Ok? && email != []
    ensures var s := Login(a, email, password, verify).value;
      CurrentUser(a, Some(s.token)).Ok? && CurrentUser(a, Some(s.token)).value.id == s.userId
  {
  }

  datatype Profile = Profile(id: nat, name: string, email: string)

  /** `get_user(user_id)`: 401 from authentication, 403 unless the token's user is `userId`. */
  function GetUser(a: Accounts, payload: Option<string>, userId: int): (r: Result<Profile, HttpError>)
    ensures CurrentUser(a, payload).Err? ==> r == Err(Unauthorized)
    ensures CurrentUser(a, payload).Ok? ==>
      (r.Err? <==> CurrentUser(a, payload).value.id != userId) && (r.Err? ==> r.error == Forbidden)
    ensures r.Ok? ==> exists i :: 0 <= i < |a.users| && a.users[i].id == userId && r.value == Profile(userId, a.users[i].name, a.users[i].email)
  {
    match CurrentUser(a, payload)
    case Err(e) => Err(e)
    case Ok(user) =>
      if user.id != userId then Err(Forbidden)
      else Ok(Profile(user.id, user.name, user.email))
  }

  /** `get_security_question(email)`: 404 for an unknown email. */
  function SecurityQuestion(a: Accounts, email: string): (r: Result<string, HttpError>)
    ensures r.Err? <==> forall i :: 0 <= i < |a.users| ==> a.users[i].email != email
    ensures r.Err? ==> r.error == NotFound
    ensures r.Ok? ==> exists i :: 0 <= i < |a.users| && a.users[i].email == email && r.value == a.users[i].question
  {
    match FindEmail(a.users, email)
    case None => Err(NotFound)
    case Some(i) => Ok(a.users[i].question)
  }

  /** `verify_security_answer`: 404 for an unknown email, 401 unless the answers agree ignoring case. */
  function VerifyAnswer(a: Accounts, email: string, answer: string): (r: Result<(), HttpError>)
    ensures FindEmail(a.users, email).None? ==> r == Err(NotFound)
    ensures FindEmail(a.users, email).Some? ==>
      (r.Ok? <==> Lower(a.users[FindEmail(a.users, email).value].answer) == Lower(answer))
      && (r.Err? ==> r.error == Unauthorized)
  {
    match FindEmail(a.users, email)
    case None => Err(NotFound)
    case Some(i) =>
      if Lower(a.users[i].answer) != Lower(answer) then Err(Unauthorized) else Ok(())
  }

  /** After registering, the answer check passes exactly for answers equal to the registered one ignoring case. */
  lemma RegisterThenVerify(a: Accounts, req: Signup, hashed: Secret, answer: string)
    requires Register(a, req, hashed).Ok?
    ensures var b := Register(a, req, hashed).value;
      VerifyAnswer(b, req.email, answer).Ok? <==> Lower(answer) == Lower(req.answer)
  {
    var b := Register(a, req, hashed).value;
    assert b.users[|a.users|].email == req.email;
    assert FindEmail(b.users, req.email) == Some(|a.users|);
    LowerIdempotent(req.answer);
  }

  /** A profile update; an absent or empty field is left as it was. */
  datatype Update = Update(name: Option<string>, newPassword: Option<string>)

  /** A field is replaced only by a present, non-empty value (Python truthiness). */
  function Truthy(v: Option<string>): bool {
    v.Some? && v.value != []
  }

  /** The user's row after the update; `hashed` is the hash of the new password, when one is given. */
  function Apply(user: User, req: Update, hashed: Secret): (r: User)
    ensures r.id == user.id && r.email == user.email
    ensures r.question == user.question && r.answer == user.answer
    ensures r.name == if Truthy(req.name) then req.name.value else user.name
    ensures r.password == if Truthy(req.newPassword) then hashed else user.password
  {
    var named := if Truthy(req.name) then user.(name := req.name.value) else user;
    if Truthy(req.newPassword) then named.(password := hashed) else named
  }

  /** `update_user(user_id, request)`: 401 from authentication, 403 unless the token's user is `userId`. */
  function UpdateUser(a: Accounts, payload: Option<string>, userId: int, req: Update, hashed: Secret)
    : (r: Result<Accounts, HttpError>)
    ensures CurrentUser(a, payload).Err? ==> r == Err(Unauthorized)
    ensures CurrentUser(a, payload).Ok? ==>
      (r.Err? <==> CurrentUser(a, payload).value.id != userId) && (r.Err? ==> r.error == Forbidden)
    ensures r.Ok? ==> |r.value.users| == |a.users| && r.value.nextId == a.nextId
  {
    match CurrentUser(a, payload)
    case Err(e) => Err(e)
    case Ok(user) =>
      if user.id != userId then Err(Forbidden)
      else
        var i := FindEmail(a.users, payload.value).value;
        Ok(a.(users := a.users[i := Apply(a.users[i], req, hashed)]))
  }

  /**
   * A successful update changes only the caller's row, and in it only the name and the
   * password, each only when the request gives a non-empty value.
   */
  lemma UpdateTouchesOne(a: Accounts, payload: Option<string>, userId: int, req: Update, hashed: Secret, j: nat)
    requires Valid(a) && UpdateUser(a, payload, userId, req, hashed).Ok? && j < |a.users|
    ensures var b := UpdateUser(a, payload, userId, req, hashed).value;
      b.users[j] == if a.users[j].email == payload.value then Apply(a.users[j], req, hashed) else a.users[j]
    ensures a.users[j].email == payload.value ==> a.users[j].id == userId
    ensures Valid(UpdateUser(a, payload, userId, req, hashed).value)
  {
  }

  /**
   * After changing one's password, login succeeds with exactly the passwords the verifier
   * accepts against the new hash; the old hash no longer takes part.
   */
  lemma UpdateThenLogin(a: Accounts, payload: Option<string>, userId: int, req: Update, hashed: Secret,
                        verify: Verifier, password: string)
    requires Valid(a) && UpdateUser(a, payload, userId, req, hashed).Ok? && Truthy(req.newPassword)
    ensures var b := UpdateUser(a, payload, userId, req, hashed).value;
      Login(b, payload.value, password, verify).Ok? <==> verify(password, hashed)
  {
    var b := UpdateUser(a, payload, userId, req, hashed).value;
    var i := FindEmail(a.users, payload.value).value;
    assert b.users[i] == Apply(a.users[i], req, hashed);
    assert FindEmail(b.users, payload.value) == Some(i) by {
      forall k | 0 <= k < i ensures b.users[k].email != payload.value {
        assert b.users[k] == a.users[k];
      }
    }
  }
}
