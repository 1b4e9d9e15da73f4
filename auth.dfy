/// The authentication service (src/auth/services/auth.service.ts). bcrypt's
/// `compare` and `hash` and the JWT signer are foreign code; they enter as
/// function parameters of which no property is used.
module Auth {
  import opened Common
  import opened IdentityStore
  import opened Identity

  datatype LoginDto = LoginDto(email: string, password: string)

  datatype RegisterDto = RegisterDto(email: string, password: string, confirmPassword: string,
                                     firstName: string, lastName: string)

  /** The claims signed into the access token: `{ email, sub: id }`. */
  datatype TokenPayload = TokenPayload(sub: Id, email: string)

  datatype LoginResponse = LoginResponse(accessToken: string, user: PublicUser)

  datatype RegisterResponse = RegisterResponse(accessToken: string, user: User)

  /** `validateUser(email, password)`: the password-free user when the email is
      known and `compare` accepts the password against the stored hash; otherwise
      nothing. */
  function ValidateUser(users: seq<User>, email: string, password: string,
                        compare: (string, string) -> bool): (r: Option<PublicUser>)
    ensures r.Some? ==> exists u :: u in users && u.email == email && compare(password, u.password) && r.value == Project(u)
    ensures r.None? ==> FindByEmail(users, email).None? || !compare(password, FindByEmail(users, email).value.password)
    ensures UniqueEmails(users) ==>
      (r.Some? <==> exists u :: u in users && u.email == email && compare(password, u.password))
  {
    match FindByEmail(users, email)
    case Some(u) =>
      if compare(password, u.password) then Some(Project(u)) else None
    case None => None
  }

  /** `login(dto)`: Unauthorized exactly when `validateUser` finds nothing, for an
      unknown email and a wrong password alike; otherwise the validated user and a
      token signed over its id and email. */
  function Login(users: seq<User>, dto: LoginDto, compare: (string, string) -> bool,
                 sign: TokenPayload -> string): (r: Result<LoginResponse>)
    ensures r.Err? <==> ValidateUser(users, dto.email, dto.password, compare).None?
    ensures r.Err? ==> r.failure == Unauthorized
    ensures r.Ok? ==> Some(r.value.user) == ValidateUser(users, dto.email, dto.password, compare)
    ensures r.Ok? ==> r.value.accessToken == sign(TokenPayload(r.value.user.id, r.value.user.email))
  {
    match ValidateUser(users, dto.email, dto.password, compare)
    case None => Err(Unauthorized)
    case Some(user) => Ok(LoginResponse(sign(TokenPayload(user.id, user.email)), user))
  }

  /** A stored user logs in with any password that `compare` accepts against the
      stored hash, and with no other. */
  lemma {:induction false} StoredUserLogsIn(users: seq<User>, u: User, password: string,
                                            compare: (string, string) -> bool, sign: TokenPayload -> string)
    requires UniqueIds(users) && UniqueEmails(users) && u in users
    ensures Login(users, LoginDto(u.email, password), compare, sign).Ok? <==> compare(password, u.password)
    ensures compare(password, u.password) ==>
      Login(users, LoginDto(u.email, password), compare, sign) ==
        Ok(LoginResponse(sign(TokenPayload(u.id, u.email)), Project(u)))
  {
    LookupPathsAgree(users, u);
  }

  /** The fields of a registration that reach the user table (`confirmPassword` is no column). */
  function CreateUserDtoOf(dto: RegisterDto): CreateUserDto {
    CreateUserDto(dto.email, dto.password, dto.firstName, dto.lastName)
  }

  class AuthService {
    const userService: UserService

    constructor (userService: UserService)
      requires userService.Valid()
      ensures this.userService == userService
      ensures Valid()
    {
      this.userService := userService;
    }

    ghost predicate Valid()
      reads this, userService, userService.repository
    {
      userService.Valid()
    }

    /** `register(dto)`: Conflict from `create` when the email is taken, with no
        token; otherwise the created user and a token signed over its id and email.
        The new user can then log in with the registered password whenever `compare`
        accepts it against its hash. */
    method Register(dto: RegisterDto, hash: string -> string, sign: TokenPayload -> string)
      returns (r: Result<RegisterResponse>)
      requires Valid()
      modifies userService.repository
      ensures Valid()
      ensures r.Err? <==> old(FindByEmail(userService.repository.users, dto.email)).Some?
      ensures r.Err? ==> r.failure == Conflict && userService.repository.users == old(userService.repository.users)
      ensures r.Ok? ==> userService.repository.users == old(userService.repository.users) + [r.value.user]
      ensures r.Ok? ==> r.value.user.email == dto.email && r.value.user.password == hash(dto.password)
      ensures r.Ok? ==> r.value.user.firstName == dto.firstName && r.value.user.lastName == dto.lastName
      ensures r.Ok? ==> r.value.accessToken == sign(TokenPayload(r.value.user.id, r.value.user.email))
      ensures r.Ok? ==> forall compare: (string, string) -> bool ::
        compare(dto.password, hash(dto.password)) ==>
          Login(userService.repository.users, LoginDto(dto.email, dto.password), compare, sign).Ok?
    {
      var created := userService.Create(CreateUserDtoOf(dto), hash);
      if created.Err? {
        return Err(created.failure);
      }
      var user := created.value;
      r := Ok(RegisterResponse(sign(TokenPayload(user.id, user.email)), user));
      forall compare: (string, string) -> bool | compare(dto.password, hash(dto.password))
        ensures Login(userService.repository.users, LoginDto(dto.email, dto.password), compare, sign).Ok?
      {
        StoredUserLogsIn(userService.repository.users, user, dto.password, compare, sign);
      }
    }
  }
}
