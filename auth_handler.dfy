/** The auth handler (internal/delivery/http/handlers/auth_handler.go), in
    the same style as the resource handlers: a function of the request's
    parts (the bound body, the "userID" context value RequireAuth left, the
    Authorization header, the query values) and of the use-case operation. */
module AuthHandler {
  import opened Common
  import opened Uuids
  import opened Entities
  import opened Handlers
  import opened AuthMiddleware
  import opened UserDto
  import opened RoleUseCase
  import opened Store
  import Jwt

  const ErrInvalidUserIdFormat: string := "invalid userID format"
  const ErrModelQueryRequired: string := "model_type and model_id are required"
  const ErrInvalidModelId: string := "invalid model_id format"
  const LoginSuccess: string := "Login Success"
  const CreateMetaSuccess: string := "Create Meta Success"

  /** A {"data": …, "message": …} body. */
  datatype Envelope<T> = Envelope(message: string, data: T)

  /** The user-id guard of GetUserPermissions, GetUser and CreateMeta: the
      context must hold a uuid under "userID"; every refusal is a 401. */
  function UserGuard(v: Option<CtxUser>): (r: Result<Uuid>)
    ensures r.Ok? <==> v.Some? && v.value.UuidValue?
    ensures r.Ok? ==> r.value == v.value.id
    ensures v.None? ==> r == Err(ErrUnauthorized)
    ensures v.Some? && v.value.UserValue? ==> r == Err(ErrInvalidUserIdFormat)
  {
    match v
    case None => Err(ErrUnauthorized)
    case Some(UserValue(_)) => Err(ErrInvalidUserIdFormat)
    case Some(UuidValue(id)) => Ok(id)
  }

  /** The token GetUser hands on: what follows "Bearer " in a header longer
      than seven characters, otherwise the empty text. */
  function StripBearer(header: string): (token: string)
    ensures token == "" || header == "Bearer " + token
    ensures token != "" <==> |header| > 7 && header[..7] == "Bearer "
  {
    if header != "" && |header| > 7 && header[..7] == "Bearer " then header[7..] else ""
  }

  /** "Bearer " followed by a token yields that token, and a header with no
      token after the prefix yields nothing. */
  lemma StripBearerOfToken(token: string)
    ensures StripBearer("Bearer " + token) == token
  {
    var h := "Bearer " + token;
    assert h[..7] == "Bearer ";
    assert h[7..] == token;
  }

  /** Where the middleware takes a token from the header, GetUser takes the
      same one; GetUser also accepts tokens with spaces, which the
      middleware refuses. */
  lemma StripBearerAgrees(header: string, token: string)
    requires BearerToken(header) == Some(token)
    ensures StripBearer(header) == token
  {
    BearerTokenShape(header, token);
    StripBearerOfToken(token);
  }

  lemma StripBearerKeepsSpaces(token: string)
    requires ' ' in token
    ensures BearerToken("Bearer " + token).None? && StripBearer("Bearer " + token) == token
  {
    var h := "Bearer " + token;
    StripBearerOfToken(token);
    forall t ensures BearerToken(h) != Some(t) {
      BearerTokenShape(h, t);
      if h == "Bearer " + t {
        assert t == h[7..] == token;
      }
    }
  }

  /** A request RequireAuth let through gets past the user-id guard with the
      authenticated user's id, and GetUser sees the token RequireAuth
      checked. */
  lemma AuthenticatedRequestPassesGuard(header: string, env: Jwt.Env, now: int, t: AuthTables, faults: AuthFaults)
    requires Authenticate(header, env, now, t, faults).Next?
    ensures var ctx := Authenticate(header, env, now, t, faults).ctx;
            && UserGuard(ctx.userId).Ok?
            && ActiveUser(t.users, UserGuard(ctx.userId).value)
            && StripBearer(header) == ctx.accessToken.value
  {
    var ctx := Authenticate(header, env, now, t, faults).ctx;
    StripBearerOfToken(ctx.accessToken.value);
  }

  /** Login: 400 for a body that does not bind and for every use-case error
      (wrong password, unknown or deactivated user); otherwise 200. */
  function Login<Q, T>(bound: Result<Q>, login: Q -> Result<T>): (r: Reply<Envelope<T>>)
    ensures bound.Err? ==> r == Failure(StatusBadRequest, bound.error)
    ensures bound.Ok? && login(bound.value).Err? ==> r == Failure(StatusBadRequest, login(bound.value).error)
    ensures r.Json? <==> bound.Ok? && login(bound.value).Ok?
    ensures r.Json? ==> r == Json(StatusOK, Envelope(LoginSuccess, login(bound.value).value))
  {
    match bound
    case Err(e) => Failure(StatusBadRequest, e)
    case Ok(req) =>
      match login(req)
      case Err(e) => Failure(StatusBadRequest, e)
      case Ok(resp) => Json(StatusOK, Envelope(LoginSuccess, resp))
  }

  /** Register: 201 with the new user, 400 with any error. The handler has
      the shape of the generic Handlers.Create, and is that function. */
  function Register<Q, T>(bound: Result<Q>, register: Q -> Result<T>): (r: Reply<T>)
    ensures r.status == StatusCreated <==> bound.Ok? && register(bound.value).Ok?
    ensures r.status != StatusCreated ==> r.Failure? && r.status == StatusBadRequest
  {
    Handlers.Create(bound, register)
  }

  /** CreateModelPermission: 201 with the grant, 400 with any error. It
      shares Register's shape, so both are Handlers.Create and are stated
      once for the two endpoints. */
  function CreateModelPermission<Q, T>(bound: Result<Q>, create: Q -> Result<T>): (r: Reply<T>)
    ensures r.status == StatusCreated <==> bound.Ok? && create(bound.value).Ok?
    ensures r.status != StatusCreated ==> r.Failure? && r.status == StatusBadRequest
  {
    Handlers.Create(bound, create)
  }

  /** The answer of GetUserPermissions: one (id, name) entry per
      permission, in order; no permissions is a nil slice, JSON null. */
  function SimpleList(ps: seq<Permission>): (r: Option<seq<PermissionSimple>>)
    ensures r.None? <==> ps == []
    ensures r.Some? ==> |r.value| == |ps| && forall i :: 0 <= i < |ps| ==> r.value[i] == PermissionSimpleOf(ps[i])
  {
    if ps == [] then None
    else Some(seq(|ps|, i requires 0 <= i < |ps| => PermissionSimpleOf(ps[i])))
  }

  /** The handler's loop, appending to a slice that starts out nil. */
  method AppendSimples(ps: seq<Permission>) returns (r: Option<seq<PermissionSimple>>)
    ensures r == SimpleList(ps)
  {
    r := None;
    for i := 0 to |ps|
      invariant r == SimpleList(ps[..i])
    {
      var acc := if r.None? then [] else r.value;
      r := Some(acc + [PermissionSimpleOf(ps[i])]);
      assert r.value == SimpleList(ps[..i + 1]).value;
    }
    assert ps[..|ps|] == ps;
  }

  /** GetUserPermissions: the user-id guard (401), then the use case (500
      on error). */
  function GetUserPermissions(userId: Option<CtxUser>, permissions: Uuid -> Result<seq<Permission>>)
    : (r: Reply<Option<seq<PermissionSimple>>>)
    ensures UserGuard(userId).Err? ==> r == Failure(StatusUnauthorized, UserGuard(userId).error)
    ensures UserGuard(userId).Ok? ==>
              match permissions(UserGuard(userId).value)
              case Err(e) => r == Failure(StatusInternalServerError, e)
              case Ok(ps) => r == Json(StatusOK, SimpleList(ps))
  {
    match UserGuard(userId)
    case Err(e) => Failure(StatusUnauthorized, e)
    case Ok(id) =>
      match permissions(id)
      case Err(e) => Failure(StatusInternalServerError, e)
      case Ok(ps) => Json(StatusOK, SimpleList(ps))
  }

  /** GetModelPermissions: both query values must be present (400), the
      model id must be a UUID (400), then the use case answers (500 on
      error). */
  function GetModelPermissions<T>(modelType: string, modelIdText: string, list: (string, Uuid) -> Result<T>)
    : (r: Reply<T>)
    ensures modelType == "" || modelIdText == "" ==> r == Failure(StatusBadRequest, ErrModelQueryRequired)
    ensures modelType != "" && modelIdText != "" && ParseUuid(modelIdText).None?
            ==> r == Failure(StatusBadRequest, ErrInvalidModelId)
    ensures r.Json? <==> modelType != "" && ParseUuid(modelIdText).Some? && list(modelType, ParseUuid(modelIdText).value).Ok?
    ensures r.Json? ==> r == Json(StatusOK, list(modelType, ParseUuid(modelIdText).value).value)
    ensures r.Failure? && r.status != StatusBadRequest ==> r.status == StatusInternalServerError
  {
    if modelType == "" || modelIdText == "" then Failure(StatusBadRequest, ErrModelQueryRequired)
    else
      match ParseUuid(modelIdText)
      case None => Failure(StatusBadRequest, ErrInvalidModelId)
      case Some(id) =>
        match list(modelType, id)
        case Err(e) => Failure(StatusInternalServerError, e)
        case Ok(resp) => Json(StatusOK, resp)
  }

  /** GetUser: the user-id guard, then the use case with the bearer token;
      the answer is the user with the message "Get User <first name>". */
  function GetUser(userId: Option<CtxUser>, header: string, get: (Uuid, string) -> Result<AuthInfoResponse>)
    : (r: Reply<Envelope<UserResponse>>)
    ensures UserGuard(userId).Err? ==> r == Failure(StatusUnauthorized, UserGuard(userId).error)
    ensures UserGuard(userId).Ok? ==>
              match get(UserGuard(userId).value, StripBearer(header))
              case Err(e) => r == Failure(StatusInternalServerError, e)
              case Ok(a) => r == Json(StatusOK, Envelope("Get User " + a.user.firstName, a.user))
  {
    match UserGuard(userId)
    case Err(e) => Failure(StatusUnauthorized, e)
    case Ok(id) =>
      match get(id, StripBearer(header))
      case Err(e) => Failure(StatusInternalServerError, e)
      case Ok(a) => Json(StatusOK, Envelope("Get User " + a.user.firstName, a.user))
  }

  /** CreateMeta: the user-id guard comes before the body is bound; the use
      case's errors answer 400. */
  function CreateMeta<Q, T>(userId: Option<CtxUser>, bound: Result<Q>, create: (Uuid, Q) -> Result<T>)
    : (r: Reply<Envelope<T>>)
    ensures UserGuard(userId).Err? ==> r == Failure(StatusUnauthorized, UserGuard(userId).error)
    ensures UserGuard(userId).Ok? && bound.Err? ==> r == Failure(StatusBadRequest, bound.error)
    ensures r.Json? <==> UserGuard(userId).Ok? && bound.Ok? && create(UserGuard(userId).value, bound.value).Ok?
    ensures r.Json? ==> r == Json(StatusOK, Envelope(CreateMetaSuccess, create(UserGuard(userId).value, bound.value).value))
    ensures r.Failure? && r.status != StatusUnauthorized ==> r.status == StatusBadRequest
  {
    match UserGuard(userId)
    case Err(e) => Failure(StatusUnauthorized, e)
    case Ok(id) =>
      match bound
      case Err(e) => Failure(StatusBadRequest, e)
      case Ok(req) =>
        match create(id, req)
        case Err(e) => Failure(StatusBadRequest, e)
        case Ok(resp) => Json(StatusOK, Envelope(CreateMetaSuccess, resp))
  }

  /** A request without a user id is refused with 401 by every handler that
      needs one, before any use case or body is looked at. */
  lemma MissingUserRefused<Q, T>(header: string, permissions: Uuid -> Result<seq<Permission>>,
                                 get: (Uuid, string) -> Result<AuthInfoResponse>,
                                 bound: Result<Q>, create: (Uuid, Q) -> Result<T>)
    ensures GetUserPermissions(None, permissions) == Failure(StatusUnauthorized, ErrUnauthorized)
    ensures GetUser(None, header, get) == Failure(StatusUnauthorized, ErrUnauthorized)
    ensures CreateMeta(None, bound, create) == Failure(StatusUnauthorized, ErrUnauthorized)
  {
  }

  /** After RequireAuth, GetUser calls the use case with the authenticated
      user's id and the very token that was checked. */
  lemma AuthenticatedGetUser(header: string, env: Jwt.Env, now: int, t: AuthTables, faults: AuthFaults,
                             get: (Uuid, string) -> Result<AuthInfoResponse>)
    requires Authenticate(header, env, now, t, faults).Next?
    ensures var ctx := Authenticate(header, env, now, t, faults).ctx;
            GetUser(ctx.userId, header, get).status
            == (if get(ctx.userId.value.id, ctx.accessToken.value).Ok? then StatusOK else StatusInternalServerError)
  {
    AuthenticatedRequestPassesGuard(header, env, now, t, faults);
  }
}
