/**
 * `signUp` and `login`: the guard sequence in front of the insert into the user store, and
 * the read-only login decision. Hashing and comparing passwords are bcrypt's business and
 * come in as parameters; tokens and cookies are not part of this model.
 */
module AuthController {
  import opened Common
  import opened Models
  import opened Collections
  import opened Store

  /** The shortest password `signUp` accepts. */
  const MinPasswordLength := 6

  const UserNameExists := "userName already exist"
  const EmailExists := "email already exist"
  const PasswordTooShort := "password must be at least 6 characters"
  /** The 500 reply; the source appends the error's own text, which is not modelled. */
  const SignUpError := "signup error"
  const UnknownUser := "user does not exist"
  const WrongPassword := "incorrect password"

  /** Some stored user has this `userName`. */
  predicate UserNameTaken(users: seq<User>, userName: string) {
    exists i | 0 <= i < |users| :: users[i].userName == userName
  }

  /** Some stored user has this email. */
  predicate EmailTaken(users: seq<User>, email: string) {
    exists i | 0 <= i < |users| :: users[i].email == email
  }

  /** `User.findOne({ userName })`. */
  function FindByUserName(users: seq<User>, userName: string): (r: Option<nat>)
    ensures r.Some? <==> UserNameTaken(users, userName)
    ensures r.Some? ==> r.value < |users| && users[r.value].userName == userName
  {
    var r := FindFirst(users, (u: User) => u.userName == userName);
    assert r.None? <==> forall j | 0 <= j < |users| :: users[j].userName != userName;
    r
  }

  /** `User.findOne({ email })`. */
  function FindByEmail(users: seq<User>, email: string): (r: Option<nat>)
    ensures r.Some? <==> EmailTaken(users, email)
    ensures r.Some? ==> r.value < |users| && users[r.value].email == email
    ensures r.Some? ==> forall j | 0 <= j < r.value :: users[j].email != email
  {
    var r := FindFirst(users, (u: User) => u.email == email);
    assert r.None? <==> forall j | 0 <= j < |users| :: users[j].email != email;
    r
  }

  /**
   * What `signUp` answers for a store snapshot, given the hash bcrypt produced for the password:
   * the userName check, then the email check, then the length check, then the insert, whose
   * schema validation can still fail.
   */
  function SignUpResult(users: seq<User>, userName: string, email: string, password: string,
                        hashed: string, now: Time): (r: Response<User>)
    ensures UserNameTaken(users, userName) ==> r == Fail(400, UserNameExists)
    ensures r.Ok? ==> r.status == 201 && r.body.id == |users| && r.body.password == hashed
    ensures r.Fail? ==> r.status == 400 || r.status == 500
  {
    if FindByUserName(users, userName).Some? then Fail(400, UserNameExists)
    else if FindByEmail(users, email).Some? then Fail(400, EmailExists)
    else if |password| < MinPasswordLength then Fail(400, PasswordTooShort)
    else
      match CreateUser(|users|, userName, email, hashed, now)
      case None => Fail(500, SignUpError)
      case Some(u) => Ok(201, u)
  }

  /**
   * The guards run in a fixed order and the first that fires decides the reply; a user is
   * created exactly when none fires and the record passes validation, and it then holds the
   * given `userName` and email, the hash (not the plain password), no name and the default image.
   */
  lemma {:induction false} SignUpOutcomes(users: seq<User>, userName: string, email: string, password: string,
                                          hashed: string, now: Time)
    ensures var r := SignUpResult(users, userName, email, password, hashed, now);
      && (UserNameTaken(users, userName) ==> r == Fail(400, UserNameExists))
      && (!UserNameTaken(users, userName) && EmailTaken(users, email) ==> r == Fail(400, EmailExists))
      && (!UserNameTaken(users, userName) && !EmailTaken(users, email) && |password| < 6 ==>
            r == Fail(400, PasswordTooShort))
      && (r.Ok? <==>
            && !UserNameTaken(users, userName) && !EmailTaken(users, email) && |password| >= 6
            && userName != "" && email != "" && hashed != "")
      && (r.Ok? ==> r.status == 201 && r.body == User(|users|, None, userName, email, hashed, "", now, now))
      && (r.Fail? ==> r.status == 400 || r.status == 500)
  {
  }

  /** A successful sign-up keeps ids as positions and `userName` and email unique. */
  lemma {:induction false} SignUpKeepsUsersValid(users: seq<User>, userName: string, email: string,
                                                 password: string, hashed: string, now: Time)
    requires UsersValid(users)
    requires SignUpResult(users, userName, email, password, hashed, now).Ok?
    ensures UsersValid(users + [SignUpResult(users, userName, email, password, hashed, now).body])
  {
    var u := SignUpResult(users, userName, email, password, hashed, now).body;
    SignUpOutcomes(users, userName, email, password, hashed, now);
    var after := users + [u];
    forall i, j | 0 <= i < j < |after|
      ensures after[i].userName != after[j].userName && after[i].email != after[j].email
    {
      if j == |users| {
        assert after[i] == users[i];
      }
    }
  }

  /**
   * `signUp`: reject a taken `userName`, then a taken email, then a short password; otherwise
   * hash the password and insert the user, answering 201 with it, or 500 if validation fails.
   */
  method SignUp(db: Database, userName: string, email: string, password: string,
                hash: string -> string, now: Time)
    returns (res: Response<User>)
    requires db.Valid()
    modifies db`users
    ensures db.Valid()
    ensures res == SignUpResult(old(db.users), userName, email, password, hash(password), now)
    ensures db.users == if res.Ok? then old(db.users) + [res.body] else old(db.users)
  {
    var checkUserByUserName := FindByUserName(db.users, userName);
    if checkUserByUserName.Some? {
      return Fail(400, UserNameExists);
    }
    var checkUserByEmail := FindByEmail(db.users, email);
    if checkUserByEmail.Some? {
      return Fail(400, EmailExists);
    }
    if |password| < MinPasswordLength {
      return Fail(400, PasswordTooShort);
    }
    var hashedPassword := hash(password);
    var user := CreateUser(|db.users|, userName, email, hashedPassword, now);
    if user.None? {
      return Fail(500, SignUpError);
    }
    SignUpKeepsUsersValid(db.users, userName, email, password, hashedPassword, now);
    db.users := db.users + [user.value];
    res := Ok(201, user.value);
  }

  /**
   * `login`: the user stored under the email, if the password matches its hash. `compare`
   * stands for `bcrypt.compare(plain, hash)`. The store is only read.
   */
  function Login(users: seq<User>, email: string, password: string,
                 compare: (string, string) -> bool): (r: Response<User>)
    ensures r == Fail(400, UnknownUser) <==> !EmailTaken(users, email)
    ensures r.Fail? ==> r == Fail(400, UnknownUser) || r == Fail(400, WrongPassword)
  {
    match FindByEmail(users, email)
    case None => Fail(400, UnknownUser)
    case Some(i) =>
      if !compare(password, users[i].password) then Fail(400, WrongPassword)
      else Ok(200, users[i])
  }

  /**
   * An unknown email is reported as such; a known one with a password that does not match
   * its hash as an incorrect password; a success returns a stored user with that email whose
   * hash matches.
   */
  lemma {:induction false} LoginOutcomes(users: seq<User>, email: string, password: string,
                                         compare: (string, string) -> bool)
    ensures var r := Login(users, email, password, compare);
      && (r == Fail(400, UnknownUser) <==> !EmailTaken(users, email))
      && (r.Fail? ==> r == Fail(400, UnknownUser) || r == Fail(400, WrongPassword))
      && (r.Ok? ==> r.status == 200 && r.body in users && r.body.email == email
                    && compare(password, r.body.password))
  {
    var r := Login(users, email, password, compare);
    if r.Ok? {
      assert r.body == users[FindByEmail(users, email).value];
    }
  }

  /**
   * With unique emails, login succeeds exactly when the user stored under the email has a
   * hash the password matches, and then returns that user.
   */
  lemma {:induction false} LoginWithUniqueEmails(users: seq<User>, email: string, password: string,
                                                 compare: (string, string) -> bool, i: nat)
    requires UsersValid(users)
    requires i < |users| && users[i].email == email
    ensures Login(users, email, password, compare)
            == if compare(password, users[i].password) then Ok(200, users[i]) else Fail(400, WrongPassword)
  {
  }

  /**
   * Signing up and then logging in with the same email and password returns the new user,
   * as long as `compare` accepts a password against its own hash.
   */
  lemma {:induction false} SignUpThenLogin(users: seq<User>, userName: string, email: string, password: string,
                                           hashed: string, now: Time, compare: (string, string) -> bool)
    requires UsersValid(users)
    requires SignUpResult(users, userName, email, password, hashed, now).Ok?
    requires compare(password, hashed)
    ensures Login(users + [SignUpResult(users, userName, email, password, hashed, now).body], email, password, compare)
            == Ok(200, SignUpResult(users, userName, email, password, hashed, now).body)
  {
    var u := SignUpResult(users, userName, email, password, hashed, now).body;
    SignUpOutcomes(users, userName, email, password, hashed, now);
    SignUpKeepsUsersValid(users, userName, email, password, hashed, now);
    LoginWithUniqueEmails(users + [u], email, password, compare, |users|);
  }

  /** A taken `userName` is reported even when the password is also too short. */
  lemma {:induction false} NameCheckComesFirst(users: seq<User>, userName: string, email: string, password: string,
                                               hashed: string, now: Time)
    requires UserNameTaken(users, userName) && |password| < MinPasswordLength
    ensures SignUpResult(users, userName, email, password, hashed, now) == Fail(400, UserNameExists)
  {
  }
}
