/** The auth use case (internal/usecase/auth_usecase.go): login and
    registration with their check order, the permission and grant queries,
    the privilege list of a user, the profile answer and the metadata
    upsert. The password hash and its check, the issuing instant and the
    token ids are parameters. */
module AuthUseCase {
  import opened Common
  import opened Uuids
  import opened Entities
  import opened Store
  import opened Jwt
  import opened UserDto
  import UserRepository
  import RoleRepository
  import MenuRepository
  import ModelPermissionRepository
  import UserMetaRepository
  import AuthMiddleware
  import RoleUseCase

  const ErrAccountDeactivated: string := "account is deactivated"
  const ErrEmailExists: string := "email already exists"
  const ErrUsernameExists: string := "username already exists"
  /** The token type every auth answer carries. */
  const BearerType: string := "Bearer"

  datatype LoginRequest = LoginRequest(username: string, password: string)

  datatype RegisterRequest = RegisterRequest(
    username: string, email: string, password: string, firstName: string, lastName: string)

  datatype ModelPermissionRequest = ModelPermissionRequest(modelId: Uuid, modelType: string, permissionId: Uuid)

  datatype ModelPermissionResponse = ModelPermissionResponse(
    id: Uuid, modelId: Uuid, modelType: string, permissionId: Uuid,
    permission: RoleUseCase.PermissionSimple)

  datatype CreateMetaDataRequest = CreateMetaDataRequest(key: string, value: string)

  /** What token issuing depends on besides the user: the environment, the
      instant, and the two fresh token ids. */
  datatype Issue = Issue(env: Env, now: int, accessId: string, refreshId: string)

  /** The roles of a login or profile answer: appended one by one when the
      user has some, so a user without roles gets a nil list. */
  function RoleList(rs: seq<Role>): (r: Option<seq<RoleSimple>>)
    ensures r.None? <==> rs == []
    ensures r.Some? ==> r.value == RoleSimples(rs)
  {
    if |rs| > 0 then Some(RoleSimples(rs)) else None
  }

  // ---------------------------------------------------------------------------
  // Login

  /** The user part of a login answer: the row's own fields and its roles;
      name, avatar and privileges are left empty, and the superuser flag is
      never copied. */
  function LoginUser(v: UserView): (r: UserResponse)
    ensures r.id == v.user.id && r.username == v.user.username && r.email == v.user.email
    ensures r.firstName == v.user.firstName && r.lastName == v.user.lastName
    ensures r.isActive == v.user.isActive && !r.isSuperuser
    ensures r.roles == RoleList(v.roles)
    ensures r.name == "" && r.avatarUrl == "" && r.privileges == [] && r.metaData == map[]
  {
    UserResponse(v.user.id, v.user.username, v.user.email, v.user.firstName, v.user.lastName, "",
                 v.user.isActive, false, RoleList(v.roles), [], map[], "")
  }

  /** Login: the user of that username, refused as unknown, then as
      deactivated (before the password is looked at), then for a wrong
      password; otherwise a fresh token pair. */
  function Login(t: AuthTables, req: LoginRequest, checkPassword: (string, string) -> bool, issue: Issue)
    : (r: Result<AuthInfoResponse>)
    ensures UserRepository.FindByUsername(t.users, t.userRoles, t.roles, req.username).None?
            ==> r == Err(ErrInvalidCredentials)
    ensures forall v :: UserRepository.FindByUsername(t.users, t.userRoles, t.roles, req.username) == Some(v) ==>
              && (!v.user.isActive ==> r == Err(ErrAccountDeactivated))
              && (v.user.isActive && !checkPassword(req.password, v.user.password) ==> r == Err(ErrInvalidCredentials))
              && (v.user.isActive && checkPassword(req.password, v.user.password) ==>
                    var pair := GenerateTokenPair(v.user.id, v.user.email, issue.env, issue.now, issue.accessId, issue.refreshId);
                    r == Ok(AuthInfoResponse(AuthResponse(pair.accessToken, pair.refreshToken, BearerType), LoginUser(v))))
  {
    match UserRepository.FindByUsername(t.users, t.userRoles, t.roles, req.username)
    case None => Err(ErrInvalidCredentials)
    case Some(v) =>
      if !v.user.isActive then Err(ErrAccountDeactivated)
      else if !checkPassword(req.password, v.user.password) then Err(ErrInvalidCredentials)
      else
        var pair := GenerateTokenPair(v.user.id, v.user.email, issue.env, issue.now, issue.accessId, issue.refreshId);
        Ok(AuthInfoResponse(AuthResponse(pair.accessToken, pair.refreshToken, BearerType), LoginUser(v)))
  }

  /** With unique usernames, a login succeeds exactly when an active user
      of that username has a password the check accepts. */
  lemma LoginSucceedsExactly(t: AuthTables, req: LoginRequest, checkPassword: (string, string) -> bool, issue: Issue)
    requires DistinctBy(t.users, Username)
    ensures Login(t, req, checkPassword, issue).Ok?
            <==> exists u :: u in t.users && u.username == req.username && u.isActive && checkPassword(req.password, u.password)
  {
    var found := UserRepository.FindByUsername(t.users, t.userRoles, t.roles, req.username);
    if found.Some? {
      forall u | u in t.users && u.username == req.username ensures u == found.value.user {
        KeyedUnique(t.users, Username, u, found.value.user);
      }
    }
  }

  /** The access token of a successful login, sent back as a bearer token
      before it expires, passes RequireAuth as the user who logged in, and
      the refresh token of the answer validates under the refresh secret
      exactly until its own exp. */
  lemma LoginTokenAuthenticates(t: AuthTables, req: LoginRequest, checkPassword: (string, string) -> bool,
                                issue: Issue, v: UserView, at: int)
    requires DistinctBy(t.users, UserId)
    requires UserRepository.FindByUsername(t.users, t.userRoles, t.roles, req.username) == Some(v)
    requires v.user.isActive && checkPassword(req.password, v.user.password)
    requires at < AccessClaims(v.user.id, v.user.email, issue.env, issue.now, issue.accessId).expiresAt
    ensures Login(t, req, checkPassword, issue).Ok?
    ensures var answer := Login(t, req, checkPassword, issue).value;
            var o := AuthMiddleware.Authenticate("Bearer " + answer.auth.accessToken, issue.env, at, t,
                                                 AuthMiddleware.NoFaults);
            o.Next? && o.ctx.userId == Some(AuthMiddleware.UuidValue(v.user.id))
    ensures var answer := Login(t, req, checkPassword, issue).value;
            var exp := RefreshClaims(v.user.id, v.user.email, issue.env, issue.now, issue.refreshId).expiresAt;
            (ValidateRefreshToken(answer.auth.refreshToken, issue.env, at).Ok? <==> at < exp)
  {
    var pair := GenerateTokenPair(v.user.id, v.user.email, issue.env, issue.now, issue.accessId, issue.refreshId);
    var answer := Login(t, req, checkPassword, issue);
    assert answer == Ok(AuthInfoResponse(AuthResponse(pair.accessToken, pair.refreshToken, BearerType), LoginUser(v)));
    AuthMiddleware.IssuedTokenPasses(v.user, issue.env, issue.now, at, t, issue.accessId, issue.refreshId);
    RefreshTokenRoundTrip(v.user.id, v.user.email, issue.env, issue.now, issue.accessId, issue.refreshId, at);
  }

  // ---------------------------------------------------------------------------
  // Register

  /** The user Register creates: active, not a superuser, with the hash. */
  function NewUser(req: RegisterRequest, hashed: string, id: Uuid): (u: User)
    ensures u.id == id && u.username == req.username && u.email == req.email && u.password == hashed
    ensures u.firstName == req.firstName && u.lastName == req.lastName && u.isActive && !u.isSuperuser
  {
    User(id, req.username, req.email, hashed, req.firstName, req.lastName, true, false)
  }

  /** The answer Register gives: the new row's fields, with no roles list
      and no name or avatar. */
  function RegisteredResponse(u: User): (r: UserResponse)
    ensures r.id == u.id && r.username == u.username && r.email == u.email
    ensures r.firstName == u.firstName && r.lastName == u.lastName && r.isActive == u.isActive
    ensures !r.isSuperuser && r.roles.None? && r.name == "" && r.avatarUrl == ""
    ensures r.privileges == [] && r.metaData == map[]
  {
    UserResponse(u.id, u.username, u.email, u.firstName, u.lastName, "", u.isActive, false, None, [], map[], "")
  }

  /** Register: a taken email is refused before a taken username, then the
      hash may fail, then the insert. `hash` stands for the password hash
      and `freshId` for the id the new row receives. */
  method Register(db: Database, req: RegisterRequest, hash: string -> Result<string>, freshId: Uuid)
    returns (r: Result<UserResponse>)
    requires db.Valid()
    modifies db`users, db`roles, db`userRoles
    ensures db.Valid()
    ensures db.roles == old(db.roles) && db.userRoles == old(db.userRoles)
    ensures r.Err? ==> db.users == old(db.users)
    ensures (exists u :: u in old(db.users) && u.email == req.email) ==> r == Err(ErrEmailExists)
    ensures (forall u :: u in old(db.users) ==> u.email != req.email)
            && (exists u :: u in old(db.users) && u.username == req.username)
            ==> r == Err(ErrUsernameExists)
    ensures (forall u :: u in old(db.users) ==> u.email != req.email && u.username != req.username)
            ==> match hash(req.password)
                case Err(e) => r == Err(e)
                case Ok(hashed) =>
                  if HasKey(old(db.users), freshId, UserId) then r == Err(ErrDuplicateKey)
                  else r == Ok(RegisteredResponse(NewUser(req, hashed, freshId)))
                       && db.users == old(db.users) + [NewUser(req, hashed, freshId)]
    ensures UniqueLogins(old(db.users)) ==> UniqueLogins(db.users)
  {
    if UserRepository.FindByEmail(db.users, db.userRoles, db.roles, req.email).Some? {
      return Err(ErrEmailExists);
    }
    if UserRepository.FindByUsername(db.users, db.userRoles, db.roles, req.username).Some? {
      return Err(ErrUsernameExists);
    }
    var hashed := hash(req.password);
    if hashed.Err? {
      return Err(hashed.error);
    }
    var u := NewUser(req, hashed.value, freshId);
    ghost var before := db.users;
    assert NewLinks(db.userRoles, u.id, []) == [];
    assert UserRepository.RolesLinkable(db.roles, true, []);
    var err := UserRepository.Create(db, u, []);
    if err.Some? {
      return Err(err.value);
    }
    if UniqueLogins(before) {
      AppendNewLogin(before, u);
    }
    return Ok(RegisteredResponse(u));
  }

  // ---------------------------------------------------------------------------
  // Permissions of a user

  /** GetUserPermissions: the ids of the user's roles, collected in order,
      then the permissions joined to any of them, each once. */
  method GetUserPermissions(db: Database, userId: Uuid) returns (r: seq<Permission>)
    ensures r == RoleRepository.FindPermissionsByRoleIDs(db.rolePermissions, db.permissions,
                   RoleIdsOf(RoleRepository.FindRolesByUserID(db.userRoles, db.roles, userId)))
    ensures forall p :: p in r <==>
              p in db.permissions
              && exists role :: role in db.roles && Link(userId, role.id) in db.userRoles
                                && Link(role.id, p.id) in db.rolePermissions
    ensures DistinctBy(db.permissions, PermissionId) ==> DistinctBy(r, PermissionId)
  {
    var roles := RoleRepository.FindRolesByUserID(db.userRoles, db.roles, userId);
    var roleIds: seq<Uuid> := [];
    for i := 0 to |roles|
      invariant roleIds == RoleIdsOf(roles[..i])
    {
      roleIds := roleIds + [roles[i].role.id];
    }
    assert roles[..|roles|] == roles;
    r := RoleRepository.FindPermissionsByRoleIDs(db.rolePermissions, db.permissions, roleIds);
    forall p ensures p in r <==>
        p in db.permissions
        && exists role :: role in db.roles && Link(userId, role.id) in db.userRoles
                          && Link(role.id, p.id) in db.rolePermissions
    {
      RoleIdsReach(roles, db.roles, db.userRoles, db.rolePermissions, userId, p);
    }
  }

  /** A permission is granted to one of the user's role ids exactly when one
      of the user's roles links to it. */
  lemma RoleIdsReach(roles: seq<RoleView>, allRoles: seq<Role>, userRoles: seq<Link>,
                     rolePermissions: seq<Link>, userId: Uuid, p: Permission)
    requires forall x :: x in RolesOf(roles) <==> x in allRoles && Link(userId, x.id) in userRoles
    ensures GrantedToAny(rolePermissions, RoleIdsOf(roles), p)
            <==> exists role :: role in allRoles && Link(userId, role.id) in userRoles
                                && Link(role.id, p.id) in rolePermissions
  {
    var ids := RoleIdsOf(roles);
    if GrantedToAny(rolePermissions, ids, p) {
      var rid :| rid in ids && Link(rid, p.id) in rolePermissions;
      var k :| 0 <= k < |ids| && ids[k] == rid;
      assert RolesOf(roles)[k] in RolesOf(roles);
    }
    if exists role :: role in allRoles && Link(userId, role.id) in userRoles && Link(role.id, p.id) in rolePermissions {
      var role :| role in allRoles && Link(userId, role.id) in userRoles && Link(role.id, p.id) in rolePermissions;
      assert role in RolesOf(roles);
      var k :| 0 <= k < |roles| && RolesOf(roles)[k] == role;
      assert ids[k] == role.id;
    }
  }

  // ---------------------------------------------------------------------------
  // Model permissions

  function GrantOf(req: ModelPermissionRequest, id: Uuid): (mp: ModelPermission)
    ensures mp.id == id && mp.modelId == req.modelId && mp.modelType == req.modelType
    ensures mp.permissionId == req.permissionId
  {
    ModelPermission(id, req.modelId, req.modelType, req.permissionId)
  }

  /** The answer for a grant with its preloaded permission. */
  function GrantResponse(v: ModelPermissionRepository.ModelPermissionView): (r: ModelPermissionResponse)
    ensures r.id == v.row.id && r.modelId == v.row.modelId && r.modelType == v.row.modelType
    ensures r.permissionId == v.row.permissionId
    ensures r.permission == RoleUseCase.PermissionSimpleOf(v.permission)
  {
    ModelPermissionResponse(v.row.id, v.row.modelId, v.row.modelType, v.row.permissionId,
                            RoleUseCase.PermissionSimpleOf(v.permission))
  }

  /** Insert a grant row, read it back with its permission and answer it. */
  method InsertGrant(db: Database, mp: ModelPermission) returns (r: Result<ModelPermissionResponse>)
    requires db.Valid()
    modifies db`modelPermissions
    ensures db.Valid()
    ensures HasKey(old(db.modelPermissions), mp.id, ModelPermissionId) ==>
              r == Err(ErrDuplicateKey) && db.modelPermissions == old(db.modelPermissions)
    ensures !HasKey(old(db.modelPermissions), mp.id, ModelPermissionId) && !ModelPermissionRepository.PermissionStored(db.permissions, mp) ==>
              r == Err(ErrForeignKey) && db.modelPermissions == old(db.modelPermissions)
    ensures !HasKey(old(db.modelPermissions), mp.id, ModelPermissionId) && ModelPermissionRepository.PermissionStored(db.permissions, mp) ==>
              && db.modelPermissions == old(db.modelPermissions) + [mp]
              && r == Ok(GrantResponse(ModelPermissionRepository.WithPermission(db.permissions, mp)))
  {
    var err := ModelPermissionRepository.Create(db, mp);
    if err.Some? {
      return Err(err.value);
    }
    var found := ModelPermissionRepository.FindByID(db.modelPermissions, db.permissions, mp.id);
    assert mp in db.modelPermissions;
    if found.None? {
      assert false;
      return Err(ErrRecordNotFound);
    }
    assert found.value.row == mp by {
      assert mp in db.modelPermissions;
      KeyedUnique(db.modelPermissions, ModelPermissionId, found.value.row, mp);
    }
    return Ok(GrantResponse(found.value));
  }

  /** CreateModelPermission as written: the new row's ID is never set, so it
      is inserted with the zero uuid (the struct's zero value; the column has
      no default). */
  method CreateModelPermissionAsWritten(db: Database, req: ModelPermissionRequest)
    returns (r: Result<ModelPermissionResponse>)
    requires db.Valid()
    modifies db`modelPermissions
    ensures db.Valid()
    ensures HasKey(old(db.modelPermissions), Nil, ModelPermissionId) ==>
              r == Err(ErrDuplicateKey) && db.modelPermissions == old(db.modelPermissions)
    ensures !HasKey(old(db.modelPermissions), Nil, ModelPermissionId) && !HasKey(db.permissions, req.permissionId, PermissionId) ==>
              r == Err(ErrForeignKey) && db.modelPermissions == old(db.modelPermissions)
    ensures !HasKey(old(db.modelPermissions), Nil, ModelPermissionId) && HasKey(db.permissions, req.permissionId, PermissionId) ==>
              r.Ok? && db.modelPermissions == old(db.modelPermissions) + [GrantOf(req, Nil)]
    ensures r.Ok? ==> HasKey(db.modelPermissions, Nil, ModelPermissionId)
  {
    r := InsertGrant(db, GrantOf(req, Nil));
    assert GrantOf(req, Nil) in db.modelPermissions ==> ModelPermissionId(GrantOf(req, Nil)) == Nil;
    if r.Ok? {
      assert db.modelPermissions[|db.modelPermissions| - 1] == GrantOf(req, Nil);
    }
  }

  /** Of two grants created one after the other as written, the second is
      refused once the first is stored, or once any grant holds the zero id,
      whatever the permissions named. */
  method TwoGrantsAsWritten(db: Database, first: ModelPermissionRequest, second: ModelPermissionRequest)
    returns (r1: Result<ModelPermissionResponse>, r2: Result<ModelPermissionResponse>)
    requires db.Valid()
    modifies db`modelPermissions
    ensures r1.Ok? || HasKey(old(db.modelPermissions), Nil, ModelPermissionId) ==> r2 == Err(ErrDuplicateKey)
  {
    r1 := CreateModelPermissionAsWritten(db, first);
    r2 := CreateModelPermissionAsWritten(db, second);
  }

  /** CreateModelPermission with the row given a fresh id, as evidently
      intended: the grant is stored, its answer names the request's model
      and permission, and the grant is then found by CheckPermission. */
  method CreateModelPermission(db: Database, req: ModelPermissionRequest, freshId: Uuid)
    returns (r: Result<ModelPermissionResponse>)
    requires db.Valid()
    modifies db`modelPermissions
    ensures db.Valid()
    ensures HasKey(old(db.modelPermissions), freshId, ModelPermissionId) ==>
              r == Err(ErrDuplicateKey) && db.modelPermissions == old(db.modelPermissions)
    ensures !HasKey(old(db.modelPermissions), freshId, ModelPermissionId) && !HasKey(db.permissions, req.permissionId, PermissionId) ==>
              r == Err(ErrForeignKey) && db.modelPermissions == old(db.modelPermissions)
    ensures !HasKey(old(db.modelPermissions), freshId, ModelPermissionId) && HasKey(db.permissions, req.permissionId, PermissionId) ==>
              && db.modelPermissions == old(db.modelPermissions) + [GrantOf(req, freshId)]
              && r.Ok? && r.value.id == freshId && r.value.modelId == req.modelId
              && r.value.modelType == req.modelType && r.value.permissionId == req.permissionId
              && ModelPermissionRepository.CheckPermission(db.modelPermissions, req.modelType, req.modelId, req.permissionId)
  {
    r := InsertGrant(db, GrantOf(req, freshId));
    if r.Ok? {
      assert GrantOf(req, freshId) in db.modelPermissions;
    }
  }

  /** Two grants of stored permissions created one after the other, with
      distinct fresh ids that the table does not hold, are both stored and
      both found. */
  method TwoGrants(db: Database, first: ModelPermissionRequest, second: ModelPermissionRequest, id1: Uuid, id2: Uuid)
    returns (r1: Result<ModelPermissionResponse>, r2: Result<ModelPermissionResponse>)
    requires db.Valid() && id1 != id2
    requires !HasKey(db.modelPermissions, id1, ModelPermissionId) && !HasKey(db.modelPermissions, id2, ModelPermissionId)
    requires HasKey(db.permissions, first.permissionId, PermissionId) && HasKey(db.permissions, second.permissionId, PermissionId)
    modifies db`modelPermissions
    ensures r1.Ok? && r2.Ok?
    ensures ModelPermissionRepository.CheckPermission(db.modelPermissions, first.modelType, first.modelId, first.permissionId)
    ensures ModelPermissionRepository.CheckPermission(db.modelPermissions, second.modelType, second.modelId, second.permissionId)
  {
    r1 := CreateModelPermission(db, first, id1);
    ghost var mid := db.modelPermissions;
    assert !HasKey(db.modelPermissions, id2, ModelPermissionId) by {
      forall i | 0 <= i < |db.modelPermissions| ensures db.modelPermissions[i].id != id2 {
        if i < |old(db.modelPermissions)| {
          assert db.modelPermissions[i] == old(db.modelPermissions)[i];
        }
      }
    }
    r2 := CreateModelPermission(db, second, id2);
    ModelPermissionRepository.CheckAfterCreate(mid, GrantOf(second, id2), first.modelType, first.modelId, first.permissionId);
  }

  /** GetModelPermissions: one answer per grant of the model, in table order. */
  method GetModelPermissions(db: Database, modelType: string, modelId: Uuid) returns (r: seq<ModelPermissionResponse>)
    ensures var found := ModelPermissionRepository.FindByModelTypeAndModelID(db.modelPermissions, db.permissions, modelType, modelId);
            |r| == |found| && forall i :: 0 <= i < |found| ==> r[i] == GrantResponse(found[i])
    ensures forall x :: x in r ==> x.modelType == modelType && x.modelId == modelId
    ensures forall mp :: mp in db.modelPermissions && mp.modelType == modelType && mp.modelId == modelId
              ==> exists x :: x in r && x.id == mp.id && x.permissionId == mp.permissionId
  {
    var found := ModelPermissionRepository.FindByModelTypeAndModelID(db.modelPermissions, db.permissions, modelType, modelId);
    r := [];
    for i := 0 to |found|
      invariant |r| == i && forall k :: 0 <= k < i ==> r[k] == GrantResponse(found[k])
    {
      r := r + [GrantResponse(found[i])];
    }
    GrantResponsesCover(db.modelPermissions, db.permissions, modelType, modelId, r);
  }

  /** The answers for a model's grants are about that model and cover
      every one of its grants. */
  lemma GrantResponsesCover(grants: seq<ModelPermission>, permissions: seq<Permission>, modelType: string, modelId: Uuid,
                            r: seq<ModelPermissionResponse>)
    requires var found := ModelPermissionRepository.FindByModelTypeAndModelID(grants, permissions, modelType, modelId);
             |r| == |found| && forall i :: 0 <= i < |found| ==> r[i] == GrantResponse(found[i])
    ensures forall x :: x in r ==> x.modelType == modelType && x.modelId == modelId
    ensures forall mp :: mp in grants && mp.modelType == modelType && mp.modelId == modelId
              ==> exists x :: x in r && x.id == mp.id && x.permissionId == mp.permissionId
  {
    var found := ModelPermissionRepository.FindByModelTypeAndModelID(grants, permissions, modelType, modelId);
    var rows := ModelPermissionRepository.RowsOf(found);
    forall x | x in r ensures x.modelType == modelType && x.modelId == modelId {
      var k :| 0 <= k < |r| && r[k] == x;
      assert rows[k] in rows;
    }
    forall mp | mp in grants && mp.modelType == modelType && mp.modelId == modelId
      ensures exists x :: x in r && x.id == mp.id && x.permissionId == mp.permissionId
    {
      var k :| 0 <= k < |rows| && rows[k] == mp;
      assert r[k] in r;
    }
  }

  // ---------------------------------------------------------------------------
  // Privileges

  /** Query failures getPrivilegesForUser meets: `query` for the role or
      superuser menu query, `roleMenus` for roles whose menu query fails and
      `menus` for menu ids whose lookup fails; each of the last two is
      skipped. */
  datatype PrivilegeFaults = PrivilegeFaults(query: bool, roleMenus: set<Uuid>, menus: set<Uuid>)

  /** The ids of a sequence of menus, in order. */
  function MenuIdsOf(ms: seq<Menu>): (ids: seq<Uuid>)
    ensures |ids| == |ms| && forall i :: 0 <= i < |ms| ==> ids[i] == ms[i].id
  {
    seq(|ms|, i requires 0 <= i < |ms| => ms[i].id)
  }

  /** The ids of one role's menus, in the order the role's menu query returns them. */
  function RoleMenuIds(menus: seq<Menu>, grants: seq<ModelPermission>, rolePermissions: seq<Link>, roleId: Uuid): seq<Uuid> {
    MenuIdsOf(MenuRepository.FindMenusByRoleID(menus, grants, rolePermissions, roleId))
  }

  /** Each role's menu ids, as a function of the role. */
  function MenuIdsOfRole(menus: seq<Menu>, grants: seq<ModelPermission>, rolePermissions: seq<Link>): RoleView -> seq<Uuid> {
    (v: RoleView) => RoleMenuIds(menus, grants, rolePermissions, v.role.id)
  }

  /** Whether a role's menu query succeeds. */
  function QueryHolds(skip: set<Uuid>): RoleView -> bool {
    (v: RoleView) => v.role.id !in skip
  }

  /** The menu ids collected role by role: the ids of each role's menus, in
      order, skipping a role whose menu query fails. */
  function ReachedIds(menus: seq<Menu>, grants: seq<ModelPermission>, rolePermissions: seq<Link>,
                      roles: seq<RoleView>, skip: set<Uuid>): seq<Uuid>
  {
    Gather(roles, MenuIdsOfRole(menus, grants, rolePermissions), QueryHolds(skip))
  }

  /** Whether the id is one of the menu ids of the k-th role, whose query does not fail. */
  predicate ReachedThrough(menus: seq<Menu>, grants: seq<ModelPermission>, rolePermissions: seq<Link>,
                           roles: seq<RoleView>, skip: set<Uuid>, id: Uuid, k: int) {
    0 <= k < |roles| && roles[k].role.id !in skip && id in RoleMenuIds(menus, grants, rolePermissions, roles[k].role.id)
  }

  /** An id is collected exactly when it is the id of a menu of one of the
      roles whose query does not fail. */
  lemma ReachedIdsMembers(menus: seq<Menu>, grants: seq<ModelPermission>, rolePermissions: seq<Link>,
                          roles: seq<RoleView>, skip: set<Uuid>, id: Uuid)
    ensures id in ReachedIds(menus, grants, rolePermissions, roles, skip)
            <==> exists k :: ReachedThrough(menus, grants, rolePermissions, roles, skip, id, k)
  {
    var f, keep := MenuIdsOfRole(menus, grants, rolePermissions), QueryHolds(skip);
    GatherMembers(roles, f, keep, id);
    forall k | 0 <= k < |roles|
      ensures (keep(roles[k]) && id in f(roles[k])) == ReachedThrough(menus, grants, rolePermissions, roles, skip, id, k)
    {
    }
  }

  /** The menu ids a user reaches, when the role queries named by `skip` fail. */
  ghost function ReachedMenuIds(db: Database, userId: Uuid, skip: set<Uuid>): set<Uuid>
    reads db
  {
    var ids := ReachedIds(db.menus, db.modelPermissions, db.rolePermissions,
                          RoleRepository.FindRolesByUserID(db.userRoles, db.roles, userId), skip);
    set id | id in ids
  }

  /** Whether some "menu" grant of one of the role's permissions names the menu id. */
  predicate RoleHasMenuGrant(rolePermissions: seq<Link>, grants: seq<ModelPermission>, roleId: Uuid, menuId: Uuid) {
    exists g :: g in grants && g.modelId == menuId && MenuRepository.MenuGrantOf(rolePermissions, roleId, g)
  }

  /** Whether the menu is listed and granted to one of the user's roles. */
  predicate GrantedMenu(userRoles: seq<Link>, roles: seq<Role>, rolePermissions: seq<Link>, grants: seq<ModelPermission>,
                        userId: Uuid, m: Menu) {
    MenuRepository.Listed(m)
    && exists role :: role in roles && Link(userId, role.id) in userRoles
                      && RoleHasMenuGrant(rolePermissions, grants, role.id, m.id)
  }

  /** When no role query fails, a user reaches a menu id exactly when a
      listed menu with that id has a "menu" grant of a permission of one of
      the user's roles. */
  lemma ReachedMenuIdsExactly(db: Database, userId: Uuid, id: Uuid)
    requires db.Valid()
    ensures id in ReachedMenuIds(db, userId, {}) <==>
              exists m :: m in db.menus && m.id == id
                          && GrantedMenu(db.userRoles, db.roles, db.rolePermissions, db.modelPermissions, userId, m)
  {
    if id in ReachedMenuIds(db, userId, {}) {
      ReachedSound(db.menus, db.modelPermissions, db.rolePermissions, db.userRoles, db.roles, userId, id);
    }
    if exists m :: m in db.menus && m.id == id
                   && GrantedMenu(db.userRoles, db.roles, db.rolePermissions, db.modelPermissions, userId, m) {
      var m :| m in db.menus && m.id == id
               && GrantedMenu(db.userRoles, db.roles, db.rolePermissions, db.modelPermissions, userId, m);
      ReachedComplete(db.menus, db.modelPermissions, db.rolePermissions, db.userRoles, db.roles, userId, m);
    }
  }

  /** An id of a role's menus is that of a listed menu granted to the role. */
  lemma RoleMenuIdSound(menus: seq<Menu>, grants: seq<ModelPermission>, rp: seq<Link>, roleId: Uuid, id: Uuid)
    requires id in RoleMenuIds(menus, grants, rp, roleId)
    ensures exists m :: m in menus && m.id == id && MenuRepository.Listed(m) && RoleHasMenuGrant(rp, grants, roleId, m.id)
  {
    var ms := MenuRepository.FindMenusByRoleID(menus, grants, rp, roleId);
    var j :| 0 <= j < |ms| && MenuIdsOf(ms)[j] == id;
    assert ms[j] in ms;
  }

  /** A listed menu granted to a role has its id among the role's menu ids. */
  lemma RoleMenuIdComplete(menus: seq<Menu>, grants: seq<ModelPermission>, rp: seq<Link>, roleId: Uuid, m: Menu)
    requires DistinctBy(menus, MenuId) && m in menus && MenuRepository.Listed(m)
    requires RoleHasMenuGrant(rp, grants, roleId, m.id)
    ensures m.id in RoleMenuIds(menus, grants, rp, roleId)
  {
    var ms := MenuRepository.FindMenusByRoleID(menus, grants, rp, roleId);
    assert m in ms;
    var j :| 0 <= j < |ms| && ms[j] == m;
    assert MenuIdsOf(ms)[j] == m.id;
  }

  /** Every collected id is that of a listed menu granted to one of the user's roles. */
  lemma ReachedSound(menus: seq<Menu>, grants: seq<ModelPermission>, rp: seq<Link>,
                     userRoles: seq<Link>, roles: seq<Role>, userId: Uuid, id: Uuid)
    requires id in ReachedIds(menus, grants, rp, RoleRepository.FindRolesByUserID(userRoles, roles, userId), {})
    ensures exists m :: m in menus && m.id == id && GrantedMenu(userRoles, roles, rp, grants, userId, m)
  {
    var views := RoleRepository.FindRolesByUserID(userRoles, roles, userId);
    ReachedIdsMembers(menus, grants, rp, views, {}, id);
    var k :| ReachedThrough(menus, grants, rp, views, {}, id, k);
    var role := views[k].role;
    assert RolesOf(views)[k] == role;
    assert role in roles && Link(userId, role.id) in userRoles;
    RoleMenuIdSound(menus, grants, rp, role.id, id);
    var m :| m in menus && m.id == id && MenuRepository.Listed(m) && RoleHasMenuGrant(rp, grants, role.id, m.id);
    assert GrantedMenu(userRoles, roles, rp, grants, userId, m);
  }

  /** Every listed menu granted to one of the user's roles has its id collected. */
  lemma ReachedComplete(menus: seq<Menu>, grants: seq<ModelPermission>, rp: seq<Link>,
                        userRoles: seq<Link>, roles: seq<Role>, userId: Uuid, m: Menu)
    requires DistinctBy(menus, MenuId) && m in menus && GrantedMenu(userRoles, roles, rp, grants, userId, m)
    ensures m.id in ReachedIds(menus, grants, rp, RoleRepository.FindRolesByUserID(userRoles, roles, userId), {})
  {
    var views := RoleRepository.FindRolesByUserID(userRoles, roles, userId);
    var role :| role in roles && Link(userId, role.id) in userRoles && RoleHasMenuGrant(rp, grants, role.id, m.id);
    assert role in RolesOf(views);
    var k :| 0 <= k < |views| && RolesOf(views)[k] == role;
    RoleMenuIdComplete(menus, grants, rp, role.id, m);
    assert ReachedThrough(menus, grants, rp, views, {}, m.id, k);
    ReachedIdsMembers(menus, grants, rp, views, {}, m.id);
  }

  /** Whether `p` is the privilege of a stored menu whose id is in `ids`. */
  ghost predicate PrivilegeFrom(menus: seq<Menu>, ids: set<Uuid>, p: Privilege) {
    exists m :: m in menus && m.id in ids && p == PrivilegeOf(m)
  }

  /** A privilege list for a set of menu ids: one entry per stored menu
      whose id is in the set, each id once, in any order. */
  ghost predicate PrivilegeListOf(privs: seq<Privilege>, menus: seq<Menu>, ids: set<Uuid>) {
    && DistinctBy(privs, PrivilegeId)
    && forall p :: p in privs <==> PrivilegeFrom(menus, ids, p)
  }

  /** getPrivilegesForUser: a superuser gets every menu the superuser query
      returns; any other user gets one entry per menu reached through the
      menus of their roles, taking the distinct ids in the order a Go map
      happens to yield them. */
  method GetPrivilegesForUser(db: Database, userId: Uuid, faults: PrivilegeFaults) returns (r: Result<seq<Privilege>>)
    requires db.Valid()
    ensures UserRepository.FindByID(db.users, db.userRoles, db.roles, userId).None? ==> r == Err(ErrRecordNotFound)
    ensures UserRepository.FindByID(db.users, db.userRoles, db.roles, userId).Some? && faults.query ==> r == Err(ErrQueryFailed)
    ensures forall v :: UserRepository.FindByID(db.users, db.userRoles, db.roles, userId) == Some(v) && !faults.query ==>
              if v.user.isSuperuser
              then r == Ok(PrivilegesOf(MenuRepository.MenuBySuperUser(db.menus, db.modelPermissions)))
              else r.Ok? && PrivilegeListOf(r.value, db.menus, ReachedMenuIds(db, userId, faults.roleMenus) - faults.menus)
  {
    var found := UserRepository.FindByID(db.users, db.userRoles, db.roles, userId);
    if found.None? {
      return Err(ErrRecordNotFound);
    }
    if faults.query {
      return Err(ErrQueryFailed);
    }
    if found.value.user.isSuperuser {
      var menus := MenuRepository.MenuBySuperUser(db.menus, db.modelPermissions);
      var privs := PrivilegesOfMenus(menus);
      return Ok(privs);
    }
    var roles := RoleRepository.FindRolesByUserID(db.userRoles, db.roles, userId);
    var menuIds := CollectMenuIds(db.menus, db.modelPermissions, db.rolePermissions, roles, faults.roleMenus);
    var unique: set<Uuid> := {};
    for i := 0 to |menuIds|
      invariant forall id :: id in unique <==> id in menuIds[..i]
    {
      assert forall id :: id in menuIds[..i + 1] <==> id in menuIds[..i] || id == menuIds[i];
      unique := unique + {menuIds[i]};
    }
    assert menuIds[..|menuIds|] == menuIds;
    assert unique == ReachedMenuIds(db, userId, faults.roleMenus);
    var privs := PrivilegesOfIds(db.menus, unique, faults.menus);
    return Ok(privs);
  }

  /** The superuser loop of getPrivilegesForUser: one entry per menu, in order. */
  method PrivilegesOfMenus(menus: seq<Menu>) returns (privs: seq<Privilege>)
    ensures privs == PrivilegesOf(menus)
  {
    privs := [];
    for i := 0 to |menus|
      invariant |privs| == i && forall k :: 0 <= k < i ==> privs[k] == PrivilegeOf(menus[k])
    {
      privs := privs + [PrivilegeOf(menus[i])];
    }
  }

  /** The per-role loop of getPrivilegesForUser: every menu id of every role
      whose menu query succeeds, duplicates included. */
  method CollectMenuIds(menus: seq<Menu>, grants: seq<ModelPermission>, rolePermissions: seq<Link>,
                        roles: seq<RoleView>, skip: set<Uuid>) returns (menuIds: seq<Uuid>)
    ensures menuIds == ReachedIds(menus, grants, rolePermissions, roles, skip)
  {
    menuIds := [];
    for i := 0 to |roles|
      invariant menuIds == ReachedIds(menus, grants, rolePermissions, roles[..i], skip)
    {
      assert roles[..i + 1][..i] == roles[..i];
      if roles[i].role.id !in skip {
        var roleMenus := MenuRepository.FindMenusByRoleID(menus, grants, rolePermissions, roles[i].role.id);
        menuIds := AppendMenuIds(menuIds, roleMenus);
        assert MenuIdsOfRole(menus, grants, rolePermissions)(roles[i]) == MenuIdsOf(roleMenus);
      }
    }
    assert roles[..|roles|] == roles;
  }

  /** The inner loop of the per-role loop: the menus' ids appended in order. */
  method AppendMenuIds(acc: seq<Uuid>, ms: seq<Menu>) returns (r: seq<Uuid>)
    ensures r == acc + MenuIdsOf(ms)
  {
    r := acc;
    for j := 0 to |ms|
      invariant r == acc + MenuIdsOf(ms[..j])
    {
      assert MenuIdsOf(ms[..j + 1]) == MenuIdsOf(ms[..j]) + [ms[j].id];
      r := r + [ms[j].id];
    }
    assert ms[..|ms|] == ms;
  }

  /** A looked-up menu id with no stored menu adds nothing to the list. */
  lemma PrivilegeListSkip(privs: seq<Privilege>, menus: seq<Menu>, ids: set<Uuid>, id: Uuid)
    requires PrivilegeListOf(privs, menus, ids)
    requires forall m :: m in menus ==> m.id != id
    ensures PrivilegeListOf(privs, menus, ids + {id})
  {
    forall p ensures PrivilegeFrom(menus, ids + {id}, p) <==> PrivilegeFrom(menus, ids, p) {
      if PrivilegeFrom(menus, ids + {id}, p) {
        var m :| m in menus && m.id in ids + {id} && p == PrivilegeOf(m);
        assert m.id in ids;
      }
    }
  }

  /** A found menu adds its privilege, which no entry had yet. */
  lemma PrivilegeListAdd(privs: seq<Privilege>, menus: seq<Menu>, ids: set<Uuid>, m0: Menu)
    requires DistinctBy(menus, MenuId) && m0 in menus && m0.id !in ids
    requires PrivilegeListOf(privs, menus, ids)
    requires forall k :: 0 <= k < |privs| ==> privs[k].id in ids
    ensures PrivilegeListOf(privs + [PrivilegeOf(m0)], menus, ids + {m0.id})
  {
    var p0 := PrivilegeOf(m0);
    assert !HasKey(privs, p0.id, PrivilegeId);
    AppendFresh(privs, p0, PrivilegeId);
    forall p ensures p in privs + [p0] <==> PrivilegeFrom(menus, ids + {m0.id}, p) {
      if PrivilegeFrom(menus, ids + {m0.id}, p) {
        var m :| m in menus && m.id in ids + {m0.id} && p == PrivilegeOf(m);
        if m.id == m0.id {
          KeyedUnique(menus, MenuId, m, m0);
        } else {
          assert PrivilegeFrom(menus, ids, p);
        }
      }
    }
  }

  /** The map loop of getPrivilegesForUser: each id taken once, in an order
      the model leaves open, its menu looked up and skipped when the lookup
      fails. */
  method PrivilegesOfIds(menus: seq<Menu>, ids: set<Uuid>, failing: set<Uuid>) returns (privs: seq<Privilege>)
    requires DistinctBy(menus, MenuId)
    ensures PrivilegeListOf(privs, menus, ids - failing)
  {
    var remaining := ids;
    ghost var done: set<Uuid> := {};
    privs := [];
    while remaining != {}
      invariant remaining + done == ids && remaining !! done
      invariant forall k :: 0 <= k < |privs| ==> privs[k].id in done - failing
      invariant PrivilegeListOf(privs, menus, done - failing)
      decreases |remaining|
    {
      var id :| id in remaining;
      privs := TakeId(menus, privs, done, failing, id);
      remaining := remaining - {id};
      done := done + {id};
    }
    assert done == ids;
  }

  /** One turn of the map loop: a failing lookup or a missing menu adds
      nothing, a found menu adds its privilege. */
  method TakeId(menus: seq<Menu>, privs: seq<Privilege>, ghost done: set<Uuid>, failing: set<Uuid>, id: Uuid)
    returns (next: seq<Privilege>)
    requires DistinctBy(menus, MenuId) && id !in done
    requires forall k :: 0 <= k < |privs| ==> privs[k].id in done - failing
    requires PrivilegeListOf(privs, menus, done - failing)
    ensures forall k :: 0 <= k < |next| ==> next[k].id in (done + {id}) - failing
    ensures PrivilegeListOf(next, menus, (done + {id}) - failing)
  {
    if id in failing {
      assert (done + {id}) - failing == done - failing;
      return privs;
    }
    assert (done + {id}) - failing == (done - failing) + {id};
    var found := MenuRepository.FindByID(menus, id);
    if found.Some? {
      PrivilegeListAdd(privs, menus, done - failing, found.value.menu);
      next := privs + [PrivilegeOf(found.value.menu)];
    } else {
      PrivilegeListSkip(privs, menus, done - failing, id);
      next := privs;
    }
  }


  // ---------------------------------------------------------------------------
  // Profile and metadata

  /** The user part of a profile answer: as for a login, with the display
      name and the gravatar address filled in. */
  function ProfileOf(v: UserView): (r: UserResponse)
    ensures r == LoginUser(v).(name := v.user.firstName + " " + v.user.lastName,
                               avatarUrl := AvatarPrefix + v.user.email)
  {
    UserResponse(v.user.id, v.user.username, v.user.email, v.user.firstName, v.user.lastName,
                 v.user.firstName + " " + v.user.lastName, v.user.isActive, false, RoleList(v.roles), [], map[],
                 AvatarPrefix + v.user.email)
  }

  /** GetUser: the profile of the user of the token's subject, with the
      privileges when their lookup succeeds and finds some, and the given
      token sent back with an empty refresh token. */
  method GetUser(db: Database, userId: Uuid, token: string, faults: PrivilegeFaults) returns (r: Result<AuthInfoResponse>)
    requires db.Valid()
    ensures UserRepository.FindByID(db.users, db.userRoles, db.roles, userId).None? ==> r == Err(ErrInvalidCredentials)
    ensures forall v :: UserRepository.FindByID(db.users, db.userRoles, db.roles, userId) == Some(v) ==>
              && r.Ok? && r.value.auth == AuthResponse(token, "", BearerType)
              && r.value.user.(privileges := []) == ProfileOf(v)
              && (faults.query ==> r.value.user.privileges == [])
              && (!faults.query && v.user.isSuperuser ==>
                    r.value.user.privileges == PrivilegesOf(MenuRepository.MenuBySuperUser(db.menus, db.modelPermissions)))
              && (!faults.query && !v.user.isSuperuser ==>
                    PrivilegeListOf(r.value.user.privileges, db.menus, ReachedMenuIds(db, userId, faults.roleMenus) - faults.menus))
  {
    var found := UserRepository.FindByID(db.users, db.userRoles, db.roles, userId);
    if found.None? {
      return Err(ErrInvalidCredentials);
    }
    var user := ProfileOf(found.value);
    var privileges := GetPrivilegesForUser(db, found.value.user.id, faults);
    if privileges.Ok? && |privileges.value| > 0 {
      user := user.(privileges := privileges.value);
    }
    if privileges.Ok? && |privileges.value| == 0 && !found.value.user.isSuperuser {
      assert PrivilegeListOf([], db.menus, ReachedMenuIds(db, userId, faults.roleMenus) - faults.menus);
    }
    return Ok(AuthInfoResponse(AuthResponse(token, "", BearerType), user));
  }

  /** CreateMetaData: the user's first row with that key takes the value in
      place, or a new row is created; the answer is the updated row, or
      nothing when a row was created. `lookupFails` stands for a failing
      lookup other than "not found" and `writeFails` for a failing write. */
  method CreateMetaData(db: Database, userId: Uuid, req: CreateMetaDataRequest, lookupFails: bool, writeFails: bool)
    returns (r: Result<Option<UserMeta>>)
    requires db.Valid()
    modifies db`userMetas, db`nextMetaId
    ensures db.Valid()
    ensures r.Err? <==> lookupFails || writeFails
    ensures r.Err? ==> db.userMetas == old(db.userMetas)
    ensures r.Ok? ==> db.userMetas == UserMetaRepository.SaveValue(old(db.userMetas), old(db.nextMetaId), userId, req.key, req.value)
    ensures r.Ok? ==> match UserMetaRepository.FindByUserIDAndKey(old(db.userMetas), userId, req.key)
                      case None => r.value.None?
                      case Some(m) => r.value == Some(m.(value := req.value))
  {
    if lookupFails {
      return Err(ErrQueryFailed);
    }
    var existing := UserMetaRepository.FindByUserIDAndKey(db.userMetas, userId, req.key);
    if existing.Some? {
      var m := existing.value.(value := req.value);
      var err := UserMetaRepository.Update(db, m, writeFails);
      if err.Some? {
        return Err(err.value);
      }
      return Ok(Some(m));
    } else {
      var created := UserMetaRepository.Create(db, req.key, req.value, userId, writeFails);
      if created.Err? {
        return Err(created.error);
      }
      return Ok(None);
    }
  }

  /** A successful CreateMetaData leaves the user's map with the key bound to
      the value when the pair had at most one row. */
  lemma CreateMetaDataReadsBack(metas: seq<UserMeta>, nextId: nat, userId: Uuid, req: CreateMetaDataRequest)
    requires DistinctBy(metas, MetaId) && UserMetaRepository.OneRowFor(metas, userId, req.key)
    ensures var after := UserMetaRepository.SaveValue(metas, nextId, userId, req.key, req.value);
            var byUser := UserMetaRepository.MetaMap(UserMetaRepository.FindByUserID(after, userId));
            req.key in byUser && byUser[req.key] == req.value
  {
    UserMetaRepository.SaveValueReadsBack(metas, nextId, userId, req.key, req.value);
  }

  /** GetMetaData: one answer per row of the user, in table order. */
  method GetMetaData(db: Database, userId: Uuid, fails: bool) returns (r: Result<seq<UserMetaResponse>>)
    ensures fails ==> r.Err?
    ensures !fails ==>
              var rows := UserMetaRepository.FindByUserID(db.userMetas, userId);
              r.Ok? && |r.value| == |rows| && forall i :: 0 <= i < |rows| ==> r.value[i] == MetaResponse(rows[i])
    ensures !fails ==> forall x :: x in r.value ==> x.userId == userId
  {
    if fails {
      return Err(ErrQueryFailed);
    }
    var rows := UserMetaRepository.FindByUserID(db.userMetas, userId);
    var response: seq<UserMetaResponse> := [];
    for i := 0 to |rows|
      invariant |response| == i && forall k :: 0 <= k < i ==> response[k] == MetaResponse(rows[k])
    {
      response := response + [MetaResponse(rows[i])];
    }
    forall x | x in response ensures x.userId == userId {
      var k :| 0 <= k < |response| && response[k] == x;
      assert rows[k] in rows;
    }
    return Ok(response);
  }
}
