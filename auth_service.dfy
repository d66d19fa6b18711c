/** AuthService (service/AuthService.java): registration and login over the
    users table. The password encoder, the JWT service and the authentication
    manager are injected collaborators whose internals are not modelled: the
    service holds them as functions fixed at construction. */
module AuthService {
  import opened Wrappers
  import opened Exceptions
  import opened Text
  import opened UserEntity

  /** The body of POST /auth/register. */
  datatype RegisterRequest = RegisterRequest(username: string, email: string, password: string, fullName: string)

  /** What @Valid enforces on a RegisterRequest (the @Email format check is
      not modelled): non-blank fields, a username of 3 to 50 characters and a
      password of at least 6. */
  predicate ValidRegisterRequest(req: RegisterRequest) {
    && !IsBlank(req.username) && 3 <= |req.username| <= 50
    && !IsBlank(req.email)
    && !IsBlank(req.password) && |req.password| >= 6
    && !IsBlank(req.fullName)
  }

  /** The body of POST /auth/login. */
  datatype AuthRequest = AuthRequest(username: string, password: string)

  predicate ValidAuthRequest(req: AuthRequest) {
    !IsBlank(req.username) && !IsBlank(req.password)
  }

  datatype UserInfo = UserInfo(id: int, username: string, email: string, fullName: string, role: string)

  datatype AuthResponse = AuthResponse(accessToken: string, refreshToken: string, tokenType: string, userInfo: UserInfo)

  // ---- the users table (UserRepository) --------------------------------------

  /** Users in insertion order. The model numbers them 1, 2, 3, ... without
      gaps; the IDENTITY column itself may skip values (a rolled-back insert
      uses one up), which the model does not represent. */
  ghost predicate UsersWellFormed(users: seq<User>) {
    forall i | 0 <= i < |users| :: users[i].id == i + 1
  }

  /** The unique constraints on username and email. */
  ghost predicate UniqueAccounts(users: seq<User>) {
    forall i, j | 0 <= i < j < |users| ::
      users[i].username != users[j].username && users[i].email != users[j].email
  }

  /** Under the unique constraints, a username or an email identifies one
      account: two stored users that share either are the same user. */
  lemma {:induction false} AccountIdentifiedByUsernameOrEmail(users: seq<User>, u: User, v: User)
    requires UniqueAccounts(users) && u in users && v in users
    requires u.username == v.username || u.email == v.email
    ensures u == v
  {
    var i :| 0 <= i < |users| && users[i] == u;
    var j :| 0 <= j < |users| && users[j] == v;
    assert i == j;
  }

  /** existsByUsername */
  predicate ExistsByUsername(users: seq<User>, username: string) {
    exists i | 0 <= i < |users| :: users[i].username == username
  }

  /** existsByEmail */
  predicate ExistsByEmail(users: seq<User>, email: string) {
    exists i | 0 <= i < |users| :: users[i].email == email
  }

  /** findByUsername */
  function FindByUsername(users: seq<User>, username: string): (r: Option<User>)
    ensures r.Some? <==> ExistsByUsername(users, username)
    ensures r.Some? ==> r.value in users && r.value.username == username
  {
    if users == [] then None
    else if users[0].username == username then Some(users[0])
    else
      var r := FindByUsername(users[1..], username);
      assert ExistsByUsername(users, username) ==> ExistsByUsername(users[1..], username) by {
        if ExistsByUsername(users, username) {
          var i :| 0 <= i < |users| && users[i].username == username;
          assert users[1..][i - 1] == users[i];
        }
      }
      assert r.Some? ==> ExistsByUsername(users, username) by {
        if r.Some? {
          var i :| 0 <= i < |users[1..]| && users[1..][i].username == username;
          assert users[i + 1].username == username;
        }
      }
      r
  }

  /** With unique usernames, findByUsername finds the one user of that name. */
  lemma {:induction false} FindByUsernameFindsTheUser(users: seq<User>, u: User)
    requires UniqueAccounts(users) && u in users
    ensures FindByUsername(users, u.username) == Some(u)
  {
    if users[0] != u {
      var k :| 0 <= k < |users| && users[k] == u;
      assert k > 0;
      assert users[0].username != u.username;
      assert UniqueAccounts(users[1..]) by {
        forall i, j | 0 <= i < j < |users[1..]|
          ensures users[1..][i].username != users[1..][j].username && users[1..][i].email != users[1..][j].email
        {
          assert users[1..][i] == users[i + 1] && users[1..][j] == users[j + 1];
        }
      }
      assert users[1..][k - 1] == u;
      FindByUsernameFindsTheUser(users[1..], u);
    }
  }

  // ---- register ----------------------------------------------------------------

  /** The decision register makes before saving: the username check first,
      then the email check, and only then a new USER account holding the
      encoder's output. */
  function Registration(users: seq<User>, req: RegisterRequest, encodedPassword: string): (r: Result<User, Error>)
    ensures ExistsByUsername(users, req.username) ==> r == Failure(Validation("Username already exists"))
    ensures !ExistsByUsername(users, req.username) && ExistsByEmail(users, req.email) ==>
              r == Failure(Validation("Email already exists"))
    ensures r.Success? <==> !ExistsByUsername(users, req.username) && !ExistsByEmail(users, req.email)
    ensures r.Success? ==>
              && r.value.id == |users| + 1
              && r.value.username == req.username && r.value.email == req.email
              && r.value.password == encodedPassword && r.value.fullName == req.fullName
              && r.value.role == USER && r.value.IsEnabled() && r.value.IsAccountNonLocked()
              && r.value.IsAccountNonExpired() && r.value.IsCredentialsNonExpired()
  {
    if ExistsByUsername(users, req.username) then
      Failure(Validation("Username already exists"))
    else if ExistsByEmail(users, req.email) then
      Failure(Validation("Email already exists"))
    else
      var user := NewUser(req.username, req.email, encodedPassword, req.fullName).(role := USER);
      Success(user.(id := |users| + 1))
  }

  /** A successful registration keeps usernames and emails unique and keeps
      the model's gap-free id numbering. */
  lemma RegistrationKeepsAccountsUnique(users: seq<User>, req: RegisterRequest, encodedPassword: string)
    requires UsersWellFormed(users) && UniqueAccounts(users)
    requires Registration(users, req, encodedPassword).Success?
    ensures var users' := users + [Registration(users, req, encodedPassword).value];
            UsersWellFormed(users') && UniqueAccounts(users')
  {
    var u := Registration(users, req, encodedPassword).value;
    var users' := users + [u];
    forall i, j | 0 <= i < j < |users'|
      ensures users'[i].username != users'[j].username && users'[i].email != users'[j].email
    {
      if j == |users| {
        assert users'[i] == users[i];
        assert users[i].username == u.username ==> ExistsByUsername(users, req.username);
        assert users[i].email == u.email ==> ExistsByEmail(users, req.email);
      }
    }
  }

  /** After a successful registration, logging in by that username finds the
      new account. */
  lemma RegisteredUserIsFound(users: seq<User>, req: RegisterRequest, encodedPassword: string)
    requires UsersWellFormed(users) && UniqueAccounts(users)
    requires Registration(users, req, encodedPassword).Success?
    ensures var u := Registration(users, req, encodedPassword).value;
            FindByUsername(users + [u], req.username) == Some(u)
  {
    var u := Registration(users, req, encodedPassword).value;
    RegistrationKeepsAccountsUnique(users, req, encodedPassword);
    assert (users + [u])[|users|] == u;
    FindByUsernameFindsTheUser(users + [u], u);
  }

  /** Registering "alice" twice: the second request fails on the username,
      whatever its email, and nothing is added. */
  lemma SecondRegistrationOfAUsernameFails(users: seq<User>, first: RegisterRequest, second: RegisterRequest,
                                           enc1: string, enc2: string)
    requires Registration(users, first, enc1).Success?
    requires second.username == first.username
    ensures Registration(users + [Registration(users, first, enc1).value], second, enc2)
         == Failure(Validation("Username already exists"))
  {
    var users' := users + [Registration(users, first, enc1).value];
    assert users'[|users|].username == second.username;
  }

  // ---- the auth response -------------------------------------------------------

  /** generateAuthResponse: a Bearer response whose user info mirrors the user. */
  function GenerateAuthResponse(u: User, accessToken: string, refreshToken: string): (r: AuthResponse)
    ensures r.tokenType == "Bearer"
    ensures r.accessToken == accessToken && r.refreshToken == refreshToken
    ensures r.userInfo.id == u.id && r.userInfo.username == u.username && r.userInfo.email == u.email
    ensures r.userInfo.fullName == u.fullName && RoleValueOf(r.userInfo.role) == Some(u.role)
  {
    AuthResponse(accessToken, refreshToken, "Bearer",
                 UserInfo(u.id, u.username, u.email, u.fullName, RoleName(u.role)))
  }

  class AuthService {
    /** The users table behind UserRepository. */
    var users: seq<User>
    /** PasswordEncoder.encode */
    const encode: string -> string
    /** JwtService.generateToken / generateRefreshToken */
    const generateToken: User -> string
    const generateRefreshToken: User -> string
    /** Whether AuthenticationManager.authenticate accepts the login. The
        manager loads the account from the users table, so its verdict is a
        function of the current table as well as of the credentials, and a
        registration can change it. Every rejection is modelled as
        BadCredentials; the manager's distinct exceptions for disabled, locked
        or expired accounts are not. */
    const credentialsAccepted: (seq<User>, string, string) -> bool

    ghost predicate Valid()
      reads this
    {
      UsersWellFormed(users) && UniqueAccounts(users)
    }

    constructor (initial: seq<User>, encode: string -> string, generateToken: User -> string,
                 generateRefreshToken: User -> string, credentialsAccepted: (seq<User>, string, string) -> bool)
      requires UsersWellFormed(initial) && UniqueAccounts(initial)
      ensures Valid() && users == initial
      ensures this.encode == encode && this.generateToken == generateToken
      ensures this.generateRefreshToken == generateRefreshToken && this.credentialsAccepted == credentialsAccepted
    {
      users := initial;
      this.encode := encode;
      this.generateToken := generateToken;
      this.generateRefreshToken := generateRefreshToken;
      this.credentialsAccepted := credentialsAccepted;
    }

    /** register: a duplicate username, then a duplicate email, throws a
        ValidationException with nothing saved; otherwise exactly one USER
        account holding the encoded password is saved and the tokens for it
        are returned. Usernames and emails stay unique. */
    method Register(req: RegisterRequest) returns (r: Result<AuthResponse, Error>)
      requires Valid() && ValidRegisterRequest(req)
      modifies this
      ensures Valid()
      ensures Registration(old(users), req, encode(req.password)).Failure? ==>
                r == Failure(Registration(old(users), req, encode(req.password)).error) && users == old(users)
      ensures Registration(old(users), req, encode(req.password)).Success? ==>
                var u := Registration(old(users), req, encode(req.password)).value;
                users == old(users) + [u]
                && r == Success(GenerateAuthResponse(u, generateToken(u), generateRefreshToken(u)))
    {
      if ExistsByUsername(users, req.username) {
        r := Failure(Validation("Username already exists"));
        return;
      }
      if ExistsByEmail(users, req.email) {
        r := Failure(Validation("Email already exists"));
        return;
      }
      var user := NewUser(req.username, req.email, encode(req.password), req.fullName).(role := USER);
      RegistrationKeepsAccountsUnique(users, req, encode(req.password));
      var saved := user.(id := |users| + 1);
      users := users + [saved];
      r := Success(GenerateAuthResponse(saved, generateToken(saved), generateRefreshToken(saved)));
    }

    /** authenticate: credentials the manager rejects throw BadCredentials; an
        accepted login whose username has no account throws "Invalid
        credentials"; otherwise the tokens for that account are returned. */
    method Authenticate(req: AuthRequest) returns (r: Result<AuthResponse, Error>)
      requires Valid() && ValidAuthRequest(req)
      ensures !credentialsAccepted(users, req.username, req.password) ==> r == Failure(BadCredentials)
      ensures credentialsAccepted(users, req.username, req.password) && !ExistsByUsername(users, req.username) ==>
                r == Failure(Validation("Invalid credentials"))
      ensures credentialsAccepted(users, req.username, req.password) ==>
                forall u | u in users && u.username == req.username ::
                  r == Success(GenerateAuthResponse(u, generateToken(u), generateRefreshToken(u)))
    {
      if !credentialsAccepted(users, req.username, req.password) {
        r := Failure(BadCredentials);
        return;
      }
      forall u | u in users && u.username == req.username
        ensures FindByUsername(users, req.username) == Some(u)
      {
        FindByUsernameFindsTheUser(users, u);
      }
      match FindByUsername(users, req.username)
      case None =>
        r := Failure(Validation("Invalid credentials"));
      case Some(u) =>
        r := Success(GenerateAuthResponse(u, generateToken(u), generateRefreshToken(u)));
    }
  }
}
