/** The request guards of internal/delivery/http/middleware/auth_middleware.go.
    A guard either passes the request on with its context (Next), answers it
    with a status and an error message (Abort), or panics, which gin's
    default recovery turns into a 500 answer (Panic). Each guard is a
    specification function, and a method with the source's loops is proved
    to compute it. */
module AuthMiddleware {
  import opened Common
  import opened Uuids
  import opened Entities
  import opened Store
  import opened TokenCodec
  import opened Jwt
  import UserRepository
  import RoleRepository
  import PermissionRepository
  import ModelPermissionRepository

  /** What the "userID" context key can hold: the uuid RequireAuth stores,
      or a user value, which is what RequireSuperuser expects to find. */
  datatype CtxUser = UuidValue(id: Uuid) | UserValue(user: User)

  /** The context keys the guards write and read; None is an unset key. */
  datatype Context = Context(
    accessToken: Option<string>,
    userId: Option<CtxUser>,
    roles: Option<seq<RoleView>>,
    permissions: Option<seq<Permission>>)

  datatype Outcome = Next(ctx: Context) | Abort(status: int, error: string) | Panic

  const ErrRolesLookup: string := "failed to retrieve user roles"
  const ErrPermissionsLookup: string := "failed to retrieve user permissions"
  const ErrSuperuserRequired: string := "superuser access required"

  /** Which of RequireAuth's two role queries fails, if any. */
  datatype AuthFaults = AuthFaults(rolesFail: bool, permissionsFail: bool)

  const NoFaults: AuthFaults := AuthFaults(false, false)

  /** Whether a stored user with that id is active. */
  predicate ActiveUser(users: seq<User>, id: Uuid) {
    exists u :: u in users && u.id == id && u.isActive
  }

  // ---------------------------------------------------------------------------
  // The Authorization header

  /** The token of an Authorization header: the header split on ' ' must
      give exactly "Bearer" and one more part. */
  function BearerToken(header: string): Option<string> {
    var parts := Split(header, ' ');
    if |parts| != 2 || parts[0] != "Bearer" then None else Some(parts[1])
  }

  /** A header yields a token exactly when it is "Bearer ", then the token,
      and the token has no space in it. */
  lemma BearerTokenShape(header: string, token: string)
    ensures BearerToken(header) == Some(token) <==> header == "Bearer " + token && ' ' !in token
  {
    var parts := Split(header, ' ');
    if BearerToken(header) == Some(token) {
      assert Join(parts, ' ') == "Bearer" + [' '] + token;
      assert "Bearer" + [' '] + token == "Bearer " + token;
      assert ' ' !in parts[1];
    }
    if header == "Bearer " + token && ' ' !in token {
      var ps := ["Bearer", token];
      assert Join(ps, ' ') == "Bearer" + [' '] + token;
      assert "Bearer" + [' '] + token == "Bearer " + token;
      SplitJoin(ps, ' ');
    }
  }

  // ---------------------------------------------------------------------------
  // RequireAuth

  /** The part of RequireAuth after the token validated: the claimed user
      must be stored and active, and the guard then stores the token, the
      user's id, roles and permissions in the context. */
  function Admit(token: string, claims: Claims, t: AuthTables, faults: AuthFaults): (o: Outcome)
    ensures !o.Panic?
    ensures o.Abort? ==> o.error != ErrTokenExpired
    ensures o.Next? ==> o.ctx.accessToken == Some(token)
    ensures o.Next? ==> o.ctx.userId == Some(UuidValue(claims.userId)) && ActiveUser(t.users, claims.userId)
    ensures o.Next? ==> o.ctx.roles.Some? && o.ctx.permissions.Some?
    ensures o.Next? ==> forall r :: r in o.ctx.roles.value ==> r.permissions == []
    ensures o.Next? ==> forall x :: x in RolesOf(o.ctx.roles.value) <==> x in t.roles && Link(claims.userId, x.id) in t.userRoles
  {
    match UserRepository.FindByID(t.users, t.userRoles, t.roles, claims.userId)
    case None => Abort(StatusUnauthorized, ErrUnauthorized)
    case Some(v) =>
      if !v.user.isActive then Abort(StatusForbidden, ErrForbidden)
      else LoadContext(token, v.user.id, t, faults)
  }

  /** The context RequireAuth stores for an admitted user: the token, the
      user's id, the user's roles and the permissions of those roles; each
      of the two role queries may fail. */
  function LoadContext(token: string, userId: Uuid, t: AuthTables, faults: AuthFaults): (o: Outcome)
    ensures !o.Panic?
    ensures o.Abort? ==> o.status == StatusInternalServerError && (o.error == ErrRolesLookup || o.error == ErrPermissionsLookup)
    ensures o.Next? <==> !faults.rolesFail && !faults.permissionsFail
    ensures o.Next? ==> o.ctx.accessToken == Some(token) && o.ctx.userId == Some(UuidValue(userId))
    ensures o.Next? ==> o.ctx.roles.Some? && o.ctx.permissions.Some?
    ensures o.Next? ==> forall r :: r in o.ctx.roles.value ==> r.permissions == []
    ensures o.Next? ==> forall x :: x in RolesOf(o.ctx.roles.value) <==> x in t.roles && Link(userId, x.id) in t.userRoles
  {
    if faults.rolesFail then Abort(StatusInternalServerError, ErrRolesLookup)
    else
      var roles := RoleRepository.FindRolesByUserID(t.userRoles, t.roles, userId);
      if faults.permissionsFail then Abort(StatusInternalServerError, ErrPermissionsLookup)
      else
        var perms := RoleRepository.FindPermissionsByRoleIDs(t.rolePermissions, t.permissions, RoleIdsOf(roles));
        assert forall r :: r in roles ==> r.permissions == [] by {
          forall r | r in roles ensures r.permissions == [] {
            var i :| 0 <= i < |roles| && roles[i] == r;
          }
        }
        Next(Context(Some(token), Some(UuidValue(userId)), Some(roles), Some(perms)))
  }

  /** RequireAuth: the header must carry a valid access token of an active
      stored user. Every token failure, the expired one included, answers
      "invalid token". */
  function Authenticate(header: string, env: Env, now: int, t: AuthTables, faults: AuthFaults): (o: Outcome)
    ensures !o.Panic?
    ensures o.Abort? ==> o.error != ErrTokenExpired
    ensures o.Next? ==> o.ctx.accessToken.Some? && header == "Bearer " + o.ctx.accessToken.value
    ensures o.Next? ==> o.ctx.userId.Some? && o.ctx.userId.value.UuidValue?
                        && ActiveUser(t.users, o.ctx.userId.value.id)
    ensures o.Next? ==> o.ctx.roles.Some? && o.ctx.permissions.Some?
    ensures o.Next? ==> forall r :: r in o.ctx.roles.value ==> r.permissions == []
    ensures o.Next? ==> forall x :: x in RolesOf(o.ctx.roles.value)
                          <==> x in t.roles && Link(o.ctx.userId.value.id, x.id) in t.userRoles
  {
    if header == "" then Abort(StatusUnauthorized, ErrTokenMissing)
    else
      match BearerToken(header)
      case None => Abort(StatusUnauthorized, ErrTokenInvalid)
      case Some(token) =>
        BearerTokenShape(header, token);
        match ValidateAccessToken(token, env, now)
        case Err(_) => Abort(StatusUnauthorized, ErrTokenInvalid)
        case Ok(claims) => Admit(token, claims, t, faults)
  }

  /** RequireAuth as the handler runs it. */
  method RequireAuth(header: string, env: Env, now: int, db: Database, faults: AuthFaults) returns (o: Outcome)
    ensures o == Authenticate(header, env, now, db.AuthSnapshot(), faults)
  {
    if header == "" {
      return Abort(StatusUnauthorized, ErrTokenMissing);
    }
    var parts := Split(header, ' ');
    if |parts| != 2 || parts[0] != "Bearer" {
      return Abort(StatusUnauthorized, ErrTokenInvalid);
    }
    var token := parts[1];
    var claims := ValidateAccessToken(token, env, now);
    if claims.Err? {
      return Abort(StatusUnauthorized, ErrTokenInvalid);
    }
    o := AdmitUser(token, claims.value, db, faults);
  }

  /** Admit with the loop that collects the role ids. */
  method AdmitUser(token: string, claims: Claims, db: Database, faults: AuthFaults) returns (o: Outcome)
    ensures o == Admit(token, claims, db.AuthSnapshot(), faults)
  {
    var user := UserRepository.FindByID(db.users, db.userRoles, db.roles, claims.userId);
    if user.None? {
      return Abort(StatusUnauthorized, ErrUnauthorized);
    }
    if !user.value.user.isActive {
      return Abort(StatusForbidden, ErrForbidden);
    }
    o := LoadUserContext(token, user.value.user.id, db, faults);
  }

  /** The role and permission queries of RequireAuth, with the loop that
      collects the role ids. */
  method LoadUserContext(token: string, userId: Uuid, db: Database, faults: AuthFaults) returns (o: Outcome)
    ensures o == LoadContext(token, userId, db.AuthSnapshot(), faults)
  {
    if faults.rolesFail {
      return Abort(StatusInternalServerError, ErrRolesLookup);
    }
    var roles := RoleRepository.FindRolesByUserID(db.userRoles, db.roles, userId);
    var roleIds: seq<Uuid> := [];
    for i := 0 to |roles|
      invariant roleIds == RoleIdsOf(roles[..i])
    {
      roleIds := roleIds + [roles[i].role.id];
    }
    assert roles[..|roles|] == roles;
    if faults.permissionsFail {
      return Abort(StatusInternalServerError, ErrPermissionsLookup);
    }
    var perms := RoleRepository.FindPermissionsByRoleIDs(db.rolePermissions, db.permissions, roleIds);
    return Next(Context(Some(token), Some(UuidValue(userId)), Some(roles), Some(perms)));
  }

  /** A header that is not "Bearer " and one space-free token is refused with
      401: "token missing" when empty, "invalid token" otherwise. */
  lemma MalformedHeaderRefused(header: string, env: Env, now: int, t: AuthTables, faults: AuthFaults)
    requires forall token :: !(header == "Bearer " + token && ' ' !in token)
    ensures Authenticate(header, env, now, t, faults)
            == Abort(StatusUnauthorized, if header == "" then ErrTokenMissing else ErrTokenInvalid)
  {
    if header != "" && BearerToken(header).Some? {
      BearerTokenShape(header, BearerToken(header).value);
    }
  }

  /** The access token of a freshly issued pair, sent as a bearer token before
      it expires by an active stored user, passes RequireAuth with that user's
      id, roles and role permissions in the context. */
  lemma IssuedTokenPasses(u: User, env: Env, now: int, at: int, t: AuthTables,
                          accessId: string, refreshId: string)
    requires DistinctBy(t.users, UserId) && u in t.users && u.isActive
    requires at < AccessClaims(u.id, u.email, env, now, accessId).expiresAt
    ensures var token := GenerateTokenPair(u.id, u.email, env, now, accessId, refreshId).accessToken;
            var roles := RoleRepository.FindRolesByUserID(t.userRoles, t.roles, u.id);
            Authenticate("Bearer " + token, env, at, t, NoFaults)
              == Next(Context(Some(token), Some(UuidValue(u.id)), Some(roles),
                              Some(RoleRepository.FindPermissionsByRoleIDs(t.rolePermissions, t.permissions, RoleIdsOf(roles)))))
  {
    var token := GenerateTokenPair(u.id, u.email, env, now, accessId, refreshId).accessToken;
    EncodeShape(Token(HS256, AccessClaims(u.id, u.email, env, now, accessId), env.jwtSecret));
    BearerTokenShape("Bearer " + token, token);
    AccessTokenRoundTrip(u.id, u.email, env, now, accessId, refreshId, at);
    var claims := AccessClaims(u.id, u.email, env, now, accessId);
    assert Authenticate("Bearer " + token, env, at, t, NoFaults) == Admit(token, claims, t, NoFaults);
    UserRepository.FindByIDStored(t.users, t.userRoles, t.roles, u);
  }

  /** The same token at or after its exp is refused as "invalid token", not
      with the declared "token expired" message. */
  lemma ExpiredTokenInvalid(u: User, env: Env, now: int, at: int, t: AuthTables,
                            accessId: string, refreshId: string, faults: AuthFaults)
    requires at >= AccessClaims(u.id, u.email, env, now, accessId).expiresAt
    ensures var token := GenerateTokenPair(u.id, u.email, env, now, accessId, refreshId).accessToken;
            Authenticate("Bearer " + token, env, at, t, faults) == Abort(StatusUnauthorized, ErrTokenInvalid)
  {
    var token := GenerateTokenPair(u.id, u.email, env, now, accessId, refreshId).accessToken;
    EncodeShape(Token(HS256, AccessClaims(u.id, u.email, env, now, accessId), env.jwtSecret));
    BearerTokenShape("Bearer " + token, token);
    AccessTokenRoundTrip(u.id, u.email, env, now, accessId, refreshId, at);
  }

  /** A refresh token is not accepted as a bearer token when the two secrets differ. */
  lemma RefreshTokenRefused(u: User, env: Env, now: int, at: int, t: AuthTables,
                            accessId: string, refreshId: string, faults: AuthFaults)
    requires env.jwtSecret != env.refreshTokenSecret
    ensures var token := GenerateTokenPair(u.id, u.email, env, now, accessId, refreshId).refreshToken;
            Authenticate("Bearer " + token, env, at, t, faults) == Abort(StatusUnauthorized, ErrTokenInvalid)
  {
    var token := GenerateTokenPair(u.id, u.email, env, now, accessId, refreshId).refreshToken;
    EncodeShape(Token(HS256, RefreshClaims(u.id, u.email, env, now, refreshId), env.refreshTokenSecret));
    BearerTokenShape("Bearer " + token, token);
    SecretsSeparateKinds(u.id, u.email, env, now, accessId, refreshId, at);
  }

  /** A valid token of an inactive user is forbidden. */
  lemma InactiveUserForbidden(u: User, env: Env, now: int, at: int, t: AuthTables,
                              accessId: string, refreshId: string, faults: AuthFaults)
    requires DistinctBy(t.users, UserId) && u in t.users && !u.isActive
    requires at < AccessClaims(u.id, u.email, env, now, accessId).expiresAt
    ensures var token := GenerateTokenPair(u.id, u.email, env, now, accessId, refreshId).accessToken;
            Authenticate("Bearer " + token, env, at, t, faults) == Abort(StatusForbidden, ErrForbidden)
  {
    var token := GenerateTokenPair(u.id, u.email, env, now, accessId, refreshId).accessToken;
    EncodeShape(Token(HS256, AccessClaims(u.id, u.email, env, now, accessId), env.jwtSecret));
    BearerTokenShape("Bearer " + token, token);
    AccessTokenRoundTrip(u.id, u.email, env, now, accessId, refreshId, at);
    var claims := AccessClaims(u.id, u.email, env, now, accessId);
    assert Authenticate("Bearer " + token, env, at, t, faults) == Admit(token, claims, t, faults);
    UserRepository.FindByIDStored(t.users, t.userRoles, t.roles, u);
  }

  // ---------------------------------------------------------------------------
  // RequirePermission

  /** Option 1 of RequirePermission: the model-permission query, asked once
      per role in the context, succeeds on some call. `checkFails(i)` says
      whether the i-th call fails; a failed call counts as no access. */
  predicate ModelGrant(roleCount: nat, granted: bool, checkFails: nat -> bool) {
    granted && exists i :: 0 <= i < roleCount && !checkFails(i)
  }

  /** Option 2: some role in the context carries the permission in its
      loaded permissions. */
  predicate DirectGrant(roles: seq<RoleView>, permissionId: Uuid) {
    exists i, j :: 0 <= i < |roles| && 0 <= j < |roles[i].permissions| && roles[i].permissions[j].id == permissionId
  }

  /** The guard's check on the user stored under "userID": the value must be
      a uuid of a stored user. */
  function ContextUser(ctx: Context, t: AuthTables): (r: Option<User>)
    ensures r.Some? ==> ctx.userId.Some? && ctx.userId.value.UuidValue?
                        && r.value in t.users && r.value.id == ctx.userId.value.id
  {
    match ctx.userId
    case None => None
    case Some(UserValue(_)) => None
    case Some(UuidValue(id)) =>
      match UserRepository.FindByID(t.users, t.userRoles, t.roles, id)
      case None => None
      case Some(v) => Some(v.user)
  }

  /** RequirePermission(modelType, modelId, permissionName): superusers
      pass; any other user passes when the named permission exists and either
      option grants it. */
  function Authorize(ctx: Context, t: AuthTables, modelType: string, modelId: Uuid,
                     permissionName: string, checkFails: nat -> bool): (o: Outcome)
    ensures !o.Panic?
    ensures o.Next? ==> o.ctx == ctx
    ensures o.Abort? ==> o == Abort(StatusUnauthorized, ErrUnauthorized) || o == Abort(StatusForbidden, ErrForbidden)
    ensures ContextUser(ctx, t).None? ==> o == Abort(StatusUnauthorized, ErrUnauthorized)
    ensures ContextUser(ctx, t).Some? && ContextUser(ctx, t).value.isSuperuser ==> o == Next(ctx)
    ensures ContextUser(ctx, t).Some? && !ContextUser(ctx, t).value.isSuperuser && ctx.roles.None?
            ==> o == Abort(StatusUnauthorized, ErrUnauthorized)
    ensures ContextUser(ctx, t).Some? && !ContextUser(ctx, t).value.isSuperuser && ctx.roles.Some?
            && PermissionRepository.FindByName(t.permissions, permissionName).None?
            ==> o == Abort(StatusForbidden, ErrForbidden)
  {
    match ContextUser(ctx, t)
    case None => Abort(StatusUnauthorized, ErrUnauthorized)
    case Some(user) =>
      if user.isSuperuser then Next(ctx)
      else
        match ctx.roles
        case None => Abort(StatusUnauthorized, ErrUnauthorized)
        case Some(roles) =>
          match PermissionRepository.FindByName(t.permissions, permissionName)
          case None => Abort(StatusForbidden, ErrForbidden)
          case Some(p) =>
            var granted := ModelPermissionRepository.CheckPermission(t.modelPermissions, modelType, modelId, p.id);
            if ModelGrant(|roles|, granted, checkFails) || DirectGrant(roles, p.id) then Next(ctx)
            else Abort(StatusForbidden, ErrForbidden)
  }

  /** RequirePermission as the handler runs it, with its two loops. */
  method RequirePermission(ctx: Context, db: Database, modelType: string, modelId: Uuid,
                           permissionName: string, checkFails: nat -> bool) returns (o: Outcome)
    ensures o == Authorize(ctx, db.AuthSnapshot(), modelType, modelId, permissionName, checkFails)
  {
    var user := ContextUser(ctx, db.AuthSnapshot());
    if user.None? {
      return Abort(StatusUnauthorized, ErrUnauthorized);
    }
    if user.value.isSuperuser {
      return Next(ctx);
    }
    if ctx.roles.None? {
      return Abort(StatusUnauthorized, ErrUnauthorized);
    }
    var roles := ctx.roles.value;
    var permission := PermissionRepository.FindByName(db.permissions, permissionName);
    if permission.None? {
      return Abort(StatusForbidden, ErrForbidden);
    }
    var pid := permission.value.id;
    var hasPermission := CheckEachRole(|roles|, db.modelPermissions, modelType, modelId, pid, checkFails);
    if !hasPermission {
      hasPermission := HasDirectGrant(roles, pid);
    }
    if !hasPermission {
      return Abort(StatusForbidden, ErrForbidden);
    }
    return Next(ctx);
  }
  /** Option 1's loop: the model-permission query once per role, stopping at
      the first call that succeeds with access. */
  method CheckEachRole(roleCount: nat, grants: seq<ModelPermission>, modelType: string, modelId: Uuid,
                       pid: Uuid, checkFails: nat -> bool) returns (hasPermission: bool)
    ensures hasPermission == ModelGrant(roleCount, ModelPermissionRepository.CheckPermission(grants, modelType, modelId, pid), checkFails)
  {
    var granted := ModelPermissionRepository.CheckPermission(grants, modelType, modelId, pid);
    hasPermission := false;
    var i := 0;
    while i < roleCount && !hasPermission
      invariant 0 <= i <= roleCount
      invariant hasPermission ==> ModelGrant(roleCount, granted, checkFails)
      invariant !hasPermission ==> forall k :: 0 <= k < i ==> checkFails(k) || !granted
    {
      var hasAccess := ModelPermissionRepository.CheckPermission(grants, modelType, modelId, pid);
      if !checkFails(i) && hasAccess {
        hasPermission := true;
      }
      i := i + 1;
    }
  }

  /** Option 2's nested loop over the roles' loaded permissions. */
  method HasDirectGrant(roles: seq<RoleView>, pid: Uuid) returns (hasPermission: bool)
    ensures hasPermission == DirectGrant(roles, pid)
  {
    hasPermission := false;
    var a := 0;
    while a < |roles| && !hasPermission
      invariant 0 <= a <= |roles|
      invariant hasPermission ==> DirectGrant(roles, pid)
      invariant !hasPermission ==> forall x, y :: 0 <= x < a && 0 <= y < |roles[x].permissions| ==> roles[x].permissions[y].id != pid
    {
      var b := 0;
      while b < |roles[a].permissions| && !hasPermission
        invariant 0 <= b <= |roles[a].permissions|
        invariant hasPermission ==> DirectGrant(roles, pid)
        invariant !hasPermission ==> forall y :: 0 <= y < b ==> roles[a].permissions[y].id != pid
      {
        if roles[a].permissions[b].id == pid {
          hasPermission := true;
        }
        b := b + 1;
      }
      a := a + 1;
    }
  }


  /** After RequireAuth the context's roles carry no permissions, so option 2
      never grants: a non-superuser passes exactly when the permission exists,
      a grant on the model instance exists, the user has at least one role and
      one of the repeated queries succeeds. */
  lemma DirectGrantUnusedAfterAuth(header: string, env: Env, now: int, t: AuthTables, faults: AuthFaults,
                                   modelType: string, modelId: Uuid, permissionName: string,
                                   checkFails: nat -> bool)
    requires Authenticate(header, env, now, t, faults).Next?
    ensures var ctx := Authenticate(header, env, now, t, faults).ctx;
            var user := ContextUser(ctx, t);
            var p := PermissionRepository.FindByName(t.permissions, permissionName);
            user.Some?
            && (Authorize(ctx, t, modelType, modelId, permissionName, checkFails).Next?
                <==> (|| user.value.isSuperuser
                      || (&& p.Some?
                          && ModelPermissionRepository.CheckPermission(t.modelPermissions, modelType, modelId, p.value.id)
                          && exists i :: 0 <= i < |ctx.roles.value| && !checkFails(i))))
  {
    var ctx := Authenticate(header, env, now, t, faults).ctx;
    var w :| w in t.users && w.id == ctx.userId.value.id && w.isActive;
    assert UserRepository.FindByID(t.users, t.userRoles, t.roles, ctx.userId.value.id).Some?;
    AuthorizeWithoutLoadedPermissions(ctx, t, modelType, modelId, permissionName, checkFails);
  }

  /** With roles that carry no loaded permissions, only option 1 can grant. */
  lemma AuthorizeWithoutLoadedPermissions(ctx: Context, t: AuthTables, modelType: string, modelId: Uuid,
                                          permissionName: string, checkFails: nat -> bool)
    requires ContextUser(ctx, t).Some? && ctx.roles.Some?
    requires forall r :: r in ctx.roles.value ==> r.permissions == []
    ensures var p := PermissionRepository.FindByName(t.permissions, permissionName);
            Authorize(ctx, t, modelType, modelId, permissionName, checkFails).Next?
            <==> (|| ContextUser(ctx, t).value.isSuperuser
                  || (&& p.Some?
                      && ModelPermissionRepository.CheckPermission(t.modelPermissions, modelType, modelId, p.value.id)
                      && exists i :: 0 <= i < |ctx.roles.value| && !checkFails(i)))
  {
    var roles := ctx.roles.value;
    forall i | 0 <= i < |roles| ensures roles[i].permissions == [] {
      assert roles[i] in roles;
    }
  }

  /** Model-scoped grants are not tied to the user or to the role: two
      non-superusers with any non-empty role lists that carry no permissions
      get the same answer. */
  lemma GrantIgnoresWhichRoles(ctx: Context, t: AuthTables, roles1: seq<RoleView>, roles2: seq<RoleView>,
                               modelType: string, modelId: Uuid, permissionName: string)
    requires ContextUser(ctx, t).Some? && !ContextUser(ctx, t).value.isSuperuser
    requires |roles1| > 0 && |roles2| > 0
    requires forall i :: 0 <= i < |roles1| ==> roles1[i].permissions == []
    requires forall i :: 0 <= i < |roles2| ==> roles2[i].permissions == []
    ensures var never := (i: nat) => false;
            Authorize(ctx.(roles := Some(roles1)), t, modelType, modelId, permissionName, never).Next?
            == Authorize(ctx.(roles := Some(roles2)), t, modelType, modelId, permissionName, never).Next?
  {
    var never := (i: nat) => false;
    var c1, c2 := ctx.(roles := Some(roles1)), ctx.(roles := Some(roles2));
    assert ContextUser(c1, t) == ContextUser(ctx, t);
    assert ContextUser(c2, t) == ContextUser(ctx, t);
    forall r | r in roles1 ensures r.permissions == [] {
      var i :| 0 <= i < |roles1| && roles1[i] == r;
    }
    forall r | r in roles2 ensures r.permissions == [] {
      var i :| 0 <= i < |roles2| && roles2[i] == r;
    }
    AuthorizeWithoutLoadedPermissions(c1, t, modelType, modelId, permissionName, never);
    AuthorizeWithoutLoadedPermissions(c2, t, modelType, modelId, permissionName, never);
    assert !never(0);
  }

  // ---------------------------------------------------------------------------
  // RequireRole

  /** Some role in the context has a name equal, up to case, to one of the
      required names. */
  predicate HasAnyRole(roles: seq<RoleView>, required: seq<string>) {
    exists i, j :: 0 <= i < |roles| && 0 <= j < |required| && EqualFold(roles[i].role.name, required[j])
  }

  /** RequireRole(required...): superusers pass; any other user passes when
      one of the context's roles matches a required name. */
  function AuthorizeRole(ctx: Context, t: AuthTables, required: seq<string>): (o: Outcome)
    ensures !o.Panic?
    ensures o.Next? ==> o.ctx == ctx
    ensures o.Abort? ==> o == Abort(StatusUnauthorized, ErrUnauthorized) || o == Abort(StatusForbidden, ErrForbidden)
    ensures ContextUser(ctx, t).None? ==> o == Abort(StatusUnauthorized, ErrUnauthorized)
    ensures ContextUser(ctx, t).Some? && ContextUser(ctx, t).value.isSuperuser ==> o == Next(ctx)
    ensures ContextUser(ctx, t).Some? && !ContextUser(ctx, t).value.isSuperuser && ctx.roles.Some? ==>
              (o.Next? <==> HasAnyRole(ctx.roles.value, required))
  {
    match ContextUser(ctx, t)
    case None => Abort(StatusUnauthorized, ErrUnauthorized)
    case Some(user) =>
      if user.isSuperuser then Next(ctx)
      else
        match ctx.roles
        case None => Abort(StatusUnauthorized, ErrUnauthorized)
        case Some(roles) =>
          if HasAnyRole(roles, required) then Next(ctx) else Abort(StatusForbidden, ErrForbidden)
  }

  /** RequireRole as the handler runs it, with its nested loops. */
  method RequireRole(ctx: Context, db: Database, required: seq<string>) returns (o: Outcome)
    ensures o == AuthorizeRole(ctx, db.AuthSnapshot(), required)
  {
    var user := ContextUser(ctx, db.AuthSnapshot());
    if user.None? {
      return Abort(StatusUnauthorized, ErrUnauthorized);
    }
    if user.value.isSuperuser {
      return Next(ctx);
    }
    if ctx.roles.None? {
      return Abort(StatusUnauthorized, ErrUnauthorized);
    }
    var roles := ctx.roles.value;
    var hasRequiredRole := false;
    var i := 0;
    while i < |roles| && !hasRequiredRole
      invariant 0 <= i <= |roles|
      invariant hasRequiredRole ==> HasAnyRole(roles, required)
      invariant !hasRequiredRole ==> forall x, y :: 0 <= x < i && 0 <= y < |required| ==> !EqualFold(roles[x].role.name, required[y])
    {
      var j := 0;
      while j < |required| && !hasRequiredRole
        invariant 0 <= j <= |required|
        invariant hasRequiredRole ==> HasAnyRole(roles, required)
        invariant !hasRequiredRole ==> forall y :: 0 <= y < j ==> !EqualFold(roles[i].role.name, required[y])
      {
        if EqualFold(roles[i].role.name, required[j]) {
          hasRequiredRole := true;
        }
        j := j + 1;
      }
      i := i + 1;
    }
    if !hasRequiredRole {
      return Abort(StatusForbidden, ErrForbidden);
    }
    return Next(ctx);
  }

  /** Behind RequireAuth, RequireRole passes exactly the superusers and the
      users joined to a stored role whose name matches a required one up to case. */
  lemma RoleGuardAfterAuth(header: string, env: Env, now: int, t: AuthTables, faults: AuthFaults,
                           required: seq<string>)
    requires Authenticate(header, env, now, t, faults).Next?
    ensures var ctx := Authenticate(header, env, now, t, faults).ctx;
            var uid := ctx.userId.value.id;
            ContextUser(ctx, t).Some?
            && (AuthorizeRole(ctx, t, required).Next?
                <==> (|| ContextUser(ctx, t).value.isSuperuser
                      || exists r, n :: r in t.roles && Link(uid, r.id) in t.userRoles && n in required && EqualFold(r.name, n)))
  {
    var ctx := Authenticate(header, env, now, t, faults).ctx;
    var uid := ctx.userId.value.id;
    var w :| w in t.users && w.id == uid && w.isActive;
    assert UserRepository.FindByID(t.users, t.userRoles, t.roles, uid).Some?;
    LinkedRoleMatches(ctx.roles.value, t, uid, required);
  }

  /** A role list holding exactly the user's linked roles matches a required
      name exactly when one of those stored roles does. */
  lemma LinkedRoleMatches(roles: seq<RoleView>, t: AuthTables, uid: Uuid, required: seq<string>)
    requires forall x :: x in RolesOf(roles) <==> x in t.roles && Link(uid, x.id) in t.userRoles
    ensures HasAnyRole(roles, required)
            <==> exists r, n :: r in t.roles && Link(uid, r.id) in t.userRoles && n in required && EqualFold(r.name, n)
  {
    if HasAnyRole(roles, required) {
      var i, j :| 0 <= i < |roles| && 0 <= j < |required| && EqualFold(roles[i].role.name, required[j]);
      assert RolesOf(roles)[i] == roles[i].role;
      assert roles[i].role in RolesOf(roles);
      assert required[j] in required;
    }
    if exists r, n :: r in t.roles && Link(uid, r.id) in t.userRoles && n in required && EqualFold(r.name, n) {
      var r, n :| r in t.roles && Link(uid, r.id) in t.userRoles && n in required && EqualFold(r.name, n);
      assert r in RolesOf(roles);
      var i :| 0 <= i < |roles| && RolesOf(roles)[i] == r;
      var j :| 0 <= j < |required| && required[j] == n;
      assert EqualFold(roles[i].role.name, required[j]);
    }
  }

  /** Required names are matched up to case: lower-casing them changes nothing. */
  lemma RoleGuardIgnoresCase(ctx: Context, t: AuthTables, required: seq<string>)
    ensures AuthorizeRole(ctx, t, required)
            == AuthorizeRole(ctx, t, seq(|required|, j requires 0 <= j < |required| => LowerAscii(required[j])))
  {
    var lowered := seq(|required|, j requires 0 <= j < |required| => LowerAscii(required[j]));
    forall a: string, j | 0 <= j < |required| ensures EqualFold(a, required[j]) == EqualFold(a, lowered[j]) {
      LowerAsciiIdempotent(required[j]);
      EqualFoldIsLowerEquality(a, required[j]);
      EqualFoldIsLowerEquality(a, lowered[j]);
    }
    if ctx.roles.Some? {
      var roles := ctx.roles.value;
      if HasAnyRole(roles, required) {
        var i, j :| 0 <= i < |roles| && 0 <= j < |required| && EqualFold(roles[i].role.name, required[j]);
        assert EqualFold(roles[i].role.name, lowered[j]);
      }
      if HasAnyRole(roles, lowered) {
        var i, j :| 0 <= i < |roles| && 0 <= j < |lowered| && EqualFold(roles[i].role.name, lowered[j]);
        assert EqualFold(roles[i].role.name, required[j]);
      }
    }
  }

  lemma LowerAsciiIdempotent(s: string)
    ensures LowerAscii(LowerAscii(s)) == LowerAscii(s)
  {
  }

  // ---------------------------------------------------------------------------
  // RequireSuperuser

  /** RequireSuperuser as written: it type-asserts the "userID" value to a
      user, so the uuid RequireAuth stores there makes it panic. */
  function RequireSuperuserAsWritten(ctx: Context): (o: Outcome)
    ensures ctx.userId.None? ==> o == Abort(StatusUnauthorized, ErrUnauthorized)
    ensures ctx.userId.Some? && ctx.userId.value.UuidValue? ==> o == Panic
    ensures ctx.userId.Some? && ctx.userId.value.UserValue? ==>
              o == (if ctx.userId.value.user.isSuperuser then Next(ctx) else Abort(StatusForbidden, ErrSuperuserRequired))
  {
    match ctx.userId
    case None => Abort(StatusUnauthorized, ErrUnauthorized)
    case Some(UuidValue(_)) => Panic
    case Some(UserValue(u)) =>
      if !u.isSuperuser then Abort(StatusForbidden, ErrSuperuserRequired) else Next(ctx)
  }

  /** RequireSuperuser corrected: it reads the user id as the other guards
      do and looks the user up. */
  function RequireSuperuser(ctx: Context, t: AuthTables): (o: Outcome)
    ensures !o.Panic?
    ensures o == Next(ctx) <==> ContextUser(ctx, t).Some? && ContextUser(ctx, t).value.isSuperuser
    ensures ContextUser(ctx, t).None? ==> o == Abort(StatusUnauthorized, ErrUnauthorized)
    ensures ContextUser(ctx, t).Some? && !ContextUser(ctx, t).value.isSuperuser ==>
              o == Abort(StatusForbidden, ErrSuperuserRequired)
  {
    match ContextUser(ctx, t)
    case None => Abort(StatusUnauthorized, ErrUnauthorized)
    case Some(user) =>
      if !user.isSuperuser then Abort(StatusForbidden, ErrSuperuserRequired) else Next(ctx)
  }

  /** Behind RequireAuth the guard as written always panics. */
  lemma SuperuserGuardPanicsAfterAuth(header: string, env: Env, now: int, t: AuthTables, faults: AuthFaults)
    requires Authenticate(header, env, now, t, faults).Next?
    ensures RequireSuperuserAsWritten(Authenticate(header, env, now, t, faults).ctx) == Panic
  {
  }

  /** Behind RequireAuth the corrected guard passes exactly the stored
      superusers. */
  lemma SuperuserGuardAfterAuth(header: string, env: Env, now: int, t: AuthTables, faults: AuthFaults, u: User)
    requires DistinctBy(t.users, UserId)
    requires Authenticate(header, env, now, t, faults).Next?
    requires u in t.users && u.id == Authenticate(header, env, now, t, faults).ctx.userId.value.id
    ensures var ctx := Authenticate(header, env, now, t, faults).ctx;
            RequireSuperuser(ctx, t) == (if u.isSuperuser then Next(ctx) else Abort(StatusForbidden, ErrSuperuserRequired))
  {
    UserRepository.FindByIDStored(t.users, t.userRoles, t.roles, u);
  }
}
