/** AuthService: login and registration decisions, and the claims a token carries. */
module AuthService {
  import opened Wrappers
  import opened Exceptions
  import opened Entities
  import opened Schema
  import UserRepository

  /**
   * The claims GenerateJwtToken writes into the token: the user id under `sub` and
   * NameIdentifier, the user name under `unique_name`, `name` and ClaimTypes.Name, and the role
   * under `role`. Signing, issuer, audience and expiry are not part of the model.
   */
  function GenerateJwtToken(user: User, p: Platform): (claims: seq<Claim>)
    ensures FindFirst(claims, SubClaim) == Some(p.formatGuid(user.id))
    ensures FindFirst(claims, NameIdentifierClaim) == Some(p.formatGuid(user.id))
    ensures FindFirst(claims, UniqueNameClaim) == Some(user.userName)
    ensures FindFirst(claims, ShortNameClaim) == Some(user.userName)
    ensures FindFirst(claims, NameClaim) == Some(user.userName)
    ensures FindFirst(claims, RoleClaim) == Some(user.role)
    ensures forall c :: c in claims ==> c.value == p.formatGuid(user.id) || c.value == user.userName || c.value == user.role
  {
    var claims := TokenClaims(p.formatGuid(user.id), user.userName, user.role);
    TokenClaimsFound(p.formatGuid(user.id), user.userName, user.role);
    TokenClaimValues(p.formatGuid(user.id), user.userName, user.role);
    claims
  }

  /** The claims of the token, in the order the descriptor lists them. */
  function TokenClaims(id: string, name: string, role: string): seq<Claim> {
    [ Claim(SubClaim, id),
      Claim(UniqueNameClaim, name),
      Claim(ShortNameClaim, name),
      Claim(NameIdentifierClaim, id),
      Claim(NameClaim, name),
      Claim(RoleClaim, role) ]
  }

  /** Each claim type of the token is found with its own value, since no earlier claim shares it. */
  lemma TokenClaimsFound(id: string, name: string, role: string)
    ensures FindFirst(TokenClaims(id, name, role), SubClaim) == Some(id)
    ensures FindFirst(TokenClaims(id, name, role), NameIdentifierClaim) == Some(id)
    ensures FindFirst(TokenClaims(id, name, role), UniqueNameClaim) == Some(name)
    ensures FindFirst(TokenClaims(id, name, role), ShortNameClaim) == Some(name)
    ensures FindFirst(TokenClaims(id, name, role), NameClaim) == Some(name)
    ensures FindFirst(TokenClaims(id, name, role), RoleClaim) == Some(role)
  {
    TokenClaimAt(id, name, role, 0);
    TokenClaimAt(id, name, role, 1);
    TokenClaimAt(id, name, role, 2);
    TokenClaimAt(id, name, role, 3);
    TokenClaimAt(id, name, role, 4);
    TokenClaimAt(id, name, role, 5);
  }

  /** The claim at index `k` is the first of its type. */
  lemma TokenClaimAt(id: string, name: string, role: string, k: nat)
    requires k < |TokenClaims(id, name, role)|
    ensures FindFirst(TokenClaims(id, name, role), TokenClaims(id, name, role)[k].claimType) == Some(TokenClaims(id, name, role)[k].value)
  {
    var claims := TokenClaims(id, name, role);
    ClaimTypesDistinct();
    FindFirstAt(claims, claims[k].claimType, k);
  }

  /** Every claim of the token carries the id, the name or the role. */
  lemma TokenClaimValues(id: string, name: string, role: string)
    ensures forall c :: c in TokenClaims(id, name, role) ==> c.value == id || c.value == name || c.value == role
  {
    var claims := TokenClaims(id, name, role);
    assert forall k :: 0 <= k < |claims| ==> claims[k].value in {id, name, role};
  }

  /**
   * LoginAsync: None for an unknown user name or a password that PasswordHasher.Verify rejects;
   * otherwise the user's token and the refresh token `refreshToken` (Guid.NewGuid().ToString()).
   * It only reads the user table.
   */
  function Login(users: seq<User>, req: LoginRequest, p: Platform, refreshToken: Guid): (r: Result<Option<AuthResponse>, Exception>)
    ensures UserKeysUnique(users) ==> r.Ok?
    ensures (forall u :: u in users ==> u.userName != req.userName) ==> r == Ok(None)
    ensures r.Ok? && r.value.Some? ==>
      exists u :: u in users && u.userName == req.userName && p.verify(req.password, u.passwordHash) &&
        r.value.value == AuthResponse(GenerateJwtToken(u, p), p.formatGuid(refreshToken))
  {
    match UserRepository.GetByUsername(users, req.userName)
    case Err(e) => Err(e)
    case Ok(None) => Ok(None)
    case Ok(Some(user)) =>
      if !p.verify(req.password, user.passwordHash) then Ok(None)
      else Ok(Some(AuthResponse(GenerateJwtToken(user, p), p.formatGuid(refreshToken))))
  }

  /** Logging in as a stored user succeeds exactly when Verify accepts the password against the
      stored hash, and then yields that user's token. */
  lemma LoginOfStoredUser(users: seq<User>, u: User, password: string, p: Platform, refreshToken: Guid)
    requires UserKeysUnique(users) && u in users
    ensures Login(users, LoginRequest(u.userName, password), p, refreshToken) ==
      if p.verify(password, u.passwordHash) then Ok(Some(AuthResponse(GenerateJwtToken(u, p), p.formatGuid(refreshToken))))
      else Ok(None)
  {
    UserRepository.GetByUsernameFindsStored(users, u);
  }

  /**
   * RegisterAsync: a taken user name throws "Username taken" and adds nothing. Otherwise one user
   * with a fresh id, the requested name, role "student" and the stored hash Hash(password) is
   * saved as its columns keep it, and the response carries the token of the user object as built.
   * A save the database refuses throws DbUpdateException and adds nothing. A name padded with
   * spaces past the column's length is stored cut, so the account is found under the cut name and
   * not under the name the caller registered with.
   */
  method Register(db: ChatDbContext, req: RegisterRequest, p: Platform, refreshToken: Guid) returns (r: Result<AuthResponse, Exception>)
    requires db.Valid()
    modifies db
    ensures db.Valid()
    ensures db.rooms == old(db.rooms) && db.members == old(db.members) && db.messages == old(db.messages)
    ensures (exists u :: u in old(db.users) && u.userName == req.userName) ==>
      r == Err(InvalidOperation("Username taken")) && db.users == old(db.users)
    ensures r.Err? && (forall u :: u in old(db.users) ==> u.userName != req.userName) ==> r.error == DbUpdate
    ensures r.Ok? <==>
      (forall u :: u in old(db.users) ==> u.userName != req.userName) && UserAccepted(old(db.users), req.userName, StudentRole)
    ensures r.Ok? ==>
      exists id :: id !in UserRepository.UserIds(old(db.users)) &&
        var user := User(id, req.userName, p.hash(req.password), StudentRole);
        db.users == old(db.users) + [StoredUser(user).value] && r.value == AuthResponse(GenerateJwtToken(user, p), p.formatGuid(refreshToken))
    ensures r.Err? ==> db.users == old(db.users)
    ensures r.Ok? && HashVerifies(p) && |req.userName| <= UserNameMaxLength ==>
      Login(db.users, LoginRequest(req.userName, req.password), p, refreshToken) == Ok(Some(r.value))
    ensures r.Ok? && |req.userName| > UserNameMaxLength ==>
      Login(db.users, LoginRequest(req.userName, req.password), p, refreshToken) == Ok(None)
    ensures r.Ok? && HashVerifies(p) ==>
      exists u :: u in db.users && Varchar(req.userName, UserNameMaxLength) == Some(u.userName) &&
        var login := Login(db.users, LoginRequest(u.userName, req.password), p, refreshToken);
        login.Ok? && login.value.Some?
  {
    var taken := UserRepository.GetByUsername(db.users, req.userName);
    match taken {
      case Err(e) =>
        return Err(e);
      case Ok(Some(_)) =>
        return Err(InvalidOperation("Username taken"));
      case Ok(None) =>
    }
    var id := NewGuid(UserRepository.UserIds(db.users));
    var user := User(id, req.userName, p.hash(req.password), StudentRole);
    assert CanInsertUser(db.users, user) <==> UserAccepted(db.users, req.userName, StudentRole) by {
      assert forall u :: u in db.users ==> u.id in UserRepository.UserIds(db.users);
    }
    var added := UserRepository.Add(db, user);
    if added.Fail? {
      return Err(added.error);
    }
    r := Ok(AuthResponse(GenerateJwtToken(user, p), p.formatGuid(refreshToken)));
    assert StoredUser(user).value in db.users;
    LoginAfterStore(db.users, user, req.password, p, refreshToken);
  }

  /** Once `user` is stored, logging in under its own name succeeds exactly when that name needed
      no cutting (and Verify accepts the hash), and logging in under the name as stored succeeds. */
  lemma LoginAfterStore(users: seq<User>, user: User, password: string, p: Platform, refreshToken: Guid)
    requires UsersValid(users) && StoredUser(user).Some? && StoredUser(user).value in users
    requires user.passwordHash == p.hash(password) && |user.role| <= RoleMaxLength
    ensures HashVerifies(p) && |user.userName| <= UserNameMaxLength ==>
      Login(users, LoginRequest(user.userName, password), p, refreshToken) ==
        Ok(Some(AuthResponse(GenerateJwtToken(user, p), p.formatGuid(refreshToken))))
    ensures |user.userName| > UserNameMaxLength ==> Login(users, LoginRequest(user.userName, password), p, refreshToken) == Ok(None)
    ensures HashVerifies(p) ==>
      var login := Login(users, LoginRequest(StoredUser(user).value.userName, password), p, refreshToken);
      login.Ok? && login.value.Some?
  {
    var row := StoredUser(user).value;
    LoginOfStoredUser(users, row, password, p, refreshToken);
    if |user.userName| <= UserNameMaxLength {
      assert row == user;
    } else {
      forall u | u in users ensures u.userName != user.userName {
        assert UserFits(u);
      }
    }
  }
}
