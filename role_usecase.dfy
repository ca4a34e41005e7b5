/** The role use case (internal/usecase/role_usecase.go): creation under a
    unique name, partial updates, the existence guard of AssignPermissions,
    and the response mapping of a role and its loaded associations. */
module RoleUseCase {
  import opened Common
  import opened Uuids
  import opened Entities
  import opened Pagination
  import opened Store
  import RoleRepository

  const ErrRoleNameExists: string := "role name already exists"

  datatype CreateRoleRequest = CreateRoleRequest(name: string, description: string)

  /** An update request: "" means "leave this field unchanged". */
  datatype UpdateRoleRequest = UpdateRoleRequest(name: string, description: string)

  datatype UserSimple = UserSimple(id: Uuid, username: string, email: string)

  datatype PermissionSimple = PermissionSimple(id: Uuid, name: string)

  /** RoleResponse; an empty `users` or `permissions` is one the response omits. */
  datatype RoleResponse = RoleResponse(
    id: Uuid, name: string, description: string,
    users: seq<UserSimple>, permissions: seq<PermissionSimple>)

  function UserSimpleOf(u: User): UserSimple {
    UserSimple(u.id, u.username, u.email)
  }

  function PermissionSimpleOf(p: Permission): PermissionSimple {
    PermissionSimple(p.id, p.name)
  }

  /** The response of mapToRoleResponse: the role's fields and one entry per
      loaded user and per loaded permission, in order. */
  function ResponseOf(v: RoleView): (r: RoleResponse)
    ensures r.id == v.role.id && r.name == v.role.name && r.description == v.role.description
    ensures |r.users| == |v.users| && |r.permissions| == |v.permissions|
    ensures forall i :: 0 <= i < |v.users| ==>
              r.users[i] == UserSimple(v.users[i].id, v.users[i].username, v.users[i].email)
    ensures forall i :: 0 <= i < |v.permissions| ==>
              r.permissions[i] == PermissionSimple(v.permissions[i].id, v.permissions[i].name)
  {
    RoleResponse(v.role.id, v.role.name, v.role.description,
      seq(|v.users|, i requires 0 <= i < |v.users| => UserSimpleOf(v.users[i])),
      seq(|v.permissions|, i requires 0 <= i < |v.permissions| => PermissionSimpleOf(v.permissions[i])))
  }

  /** mapToRoleResponse, appending users, then permissions. */
  method MapToRoleResponse(v: RoleView) returns (r: RoleResponse)
    ensures r == ResponseOf(v)
  {
    var users: seq<UserSimple> := [];
    for i := 0 to |v.users|
      invariant |users| == i
      invariant forall k :: 0 <= k < i ==> users[k] == UserSimpleOf(v.users[k])
    {
      users := users + [UserSimpleOf(v.users[i])];
    }
    var permissions: seq<PermissionSimple> := [];
    for i := 0 to |v.permissions|
      invariant |permissions| == i
      invariant forall k :: 0 <= k < i ==> permissions[k] == PermissionSimpleOf(v.permissions[k])
    {
      permissions := permissions + [PermissionSimpleOf(v.permissions[i])];
    }
    r := RoleResponse(v.role.id, v.role.name, v.role.description, users, permissions);
  }

  /** The responses of a sequence of role views, in order. */
  function ResponsesOf(vs: seq<RoleView>): (rs: seq<RoleResponse>)
    ensures |rs| == |vs| && forall i :: 0 <= i < |vs| ==> rs[i] == ResponseOf(vs[i])
  {
    seq(|vs|, i requires 0 <= i < |vs| => ResponseOf(vs[i]))
  }

  method MapAll(vs: seq<RoleView>) returns (rs: seq<RoleResponse>)
    ensures rs == ResponsesOf(vs)
  {
    rs := [];
    for i := 0 to |vs|
      invariant rs == ResponsesOf(vs[..i])
    {
      var r := MapToRoleResponse(vs[i]);
      rs := rs + [r];
    }
    assert vs[..|vs|] == vs;
  }

  /** Role names are unique across the table (the column is unique). */
  predicate UniqueNames(roles: seq<Role>) {
    DistinctBy(roles, RoleName)
  }

  /** Create. `freshId` is the id the database default assigns; the response
      is of the new role, which has no loaded associations. */
  method Create(db: Database, req: CreateRoleRequest, freshId: Uuid) returns (r: Result<RoleResponse>)
    requires db.Valid()
    modifies db`roles
    ensures db.Valid()
    ensures HasKey(old(db.roles), req.name, RoleName) ==> r == Err(ErrRoleNameExists) && db.roles == old(db.roles)
    ensures !HasKey(old(db.roles), req.name, RoleName) && HasKey(old(db.roles), freshId, RoleId)
            ==> r == Err(ErrDuplicateKey) && db.roles == old(db.roles)
    ensures !HasKey(old(db.roles), req.name, RoleName) && !HasKey(old(db.roles), freshId, RoleId)
            ==> db.roles == old(db.roles) + [Role(freshId, req.name, req.description)]
                && r == Ok(RoleResponse(freshId, req.name, req.description, [], []))
    ensures UniqueNames(old(db.roles)) ==> UniqueNames(db.roles)
  {
    var existing := RoleRepository.FindByName(db.roles, req.name);
    if existing.Some? {
      return Err(ErrRoleNameExists);
    }
    var role := Role(freshId, req.name, req.description);
    assert !HasKey(db.roles, req.name, RoleName) by {
      assert forall i :: 0 <= i < |db.roles| ==> db.roles[i] in db.roles;
    }
    ghost var before := db.roles;
    var err := RoleRepository.Create(db, role);
    if err.Some? {
      return Err(err.value);
    }
    if UniqueNames(before) {
      AppendFresh(before, role, RoleName);
    }
    var resp := MapToRoleResponse(RoleView(role, [], []));
    return Ok(resp);
  }

  /** GetByID: the role with its preloaded permissions, or the lookup error. */
  /** Whether the response lists exactly the stored permissions linked to
      its role: each of them appears, and every entry is one of them. */
  predicate AnswersLinked(permissions: seq<Permission>, rolePermissions: seq<Link>, resp: RoleResponse) {
    && (forall p :: p in permissions && Link(resp.id, p.id) in rolePermissions ==> PermissionSimpleOf(p) in resp.permissions)
    && (forall q :: q in resp.permissions ==>
          exists p :: p in permissions && Link(resp.id, p.id) in rolePermissions && q == PermissionSimpleOf(p))
  }

  /** The response of a role loaded with exactly its linked permissions
      answers exactly those. */
  lemma ResponseAnswersLinked(permissions: seq<Permission>, rolePermissions: seq<Link>, v: RoleView)
    requires forall p :: p in v.permissions <==> p in permissions && Link(v.role.id, p.id) in rolePermissions
    ensures AnswersLinked(permissions, rolePermissions, ResponseOf(v))
  {
    var r := ResponseOf(v);
    forall p | p in v.permissions ensures PermissionSimpleOf(p) in r.permissions {
      var k :| 0 <= k < |v.permissions| && v.permissions[k] == p;
      assert r.permissions[k] == PermissionSimpleOf(p);
    }
    forall q | q in r.permissions ensures exists p :: p in v.permissions && q == PermissionSimpleOf(p) {
      var k :| 0 <= k < |r.permissions| && r.permissions[k] == q;
      assert v.permissions[k] in v.permissions;
    }
  }

  function RoleById(db: AuthTables, id: Uuid): (r: Result<RoleResponse>)
    ensures r.Err? <==> !HasKey(db.roles, id, RoleId)
    ensures r.Err? ==> r.error == ErrRecordNotFound
    ensures r.Ok? ==> r.value.id == id && r.value.users == []
    ensures r.Ok? ==> Role(id, r.value.name, r.value.description) in db.roles
    ensures r.Ok? ==> forall p :: p in db.permissions && Link(id, p.id) in db.rolePermissions
                                  ==> PermissionSimpleOf(p) in r.value.permissions
    ensures r.Ok? ==> forall q :: q in r.value.permissions ==>
                        exists p :: p in db.permissions && Link(id, p.id) in db.rolePermissions && q == PermissionSimpleOf(p)
  {
    match RoleRepository.FindByID(db.roles, db.rolePermissions, db.permissions, id)
    case None => Err(ErrRecordNotFound)
    case Some(v) =>
      var r := ResponseOf(v);
      ResponseAnswersLinked(db.permissions, db.rolePermissions, v);
      assert v.role == Role(id, r.name, r.description);
      Ok(r)
  }

  method GetByID(db: Database, id: Uuid) returns (r: Result<RoleResponse>)
    ensures r == RoleById(db.AuthSnapshot(), id)
  {
    var loaded := RoleRepository.FindByID(db.roles, db.rolePermissions, db.permissions, id);
    if loaded.None? {
      return Err(ErrRecordNotFound);
    }
    var resp := MapToRoleResponse(loaded.value);
    return Ok(resp);
  }

  /** GetAll: one page of roles with their permissions, and the row count. */
  method GetAll(db: Database, page: int, pageSize: int) returns (items: seq<RoleResponse>, total: nat)
    ensures total == |db.roles|
    ensures items == ResponsesOf(RoleRepository.FindAll(db.roles, db.rolePermissions, db.permissions, page, pageSize).items)
    ensures |items| == |PageOf(db.roles, page, pageSize)|
    ensures forall i :: 0 <= i < |items| ==>
              var row := PageOf(db.roles, page, pageSize)[i];
              && items[i].id == row.id && items[i].name == row.name && items[i].description == row.description
              && items[i].users == []
              && AnswersLinked(db.permissions, db.rolePermissions, items[i])
  {
    var found := RoleRepository.FindAll(db.roles, db.rolePermissions, db.permissions, page, pageSize);
    items := MapAll(found.items);
    total := found.total;
    assert RolesOf(found.items) == PageOf(db.roles, page, pageSize);
    forall i | 0 <= i < |items| ensures AnswersLinked(db.permissions, db.rolePermissions, items[i]) {
      ResponseAnswersLinked(db.permissions, db.rolePermissions, found.items[i]);
    }
  }

  /** GetUserRoles: the user's roles, with no associations loaded. */
  method GetUserRoles(db: Database, userId: Uuid) returns (items: seq<RoleResponse>)
    ensures items == ResponsesOf(RoleRepository.FindRolesByUserID(db.userRoles, db.roles, userId))
    ensures forall i :: 0 <= i < |items| ==> items[i].users == [] && items[i].permissions == []
  {
    var roles := RoleRepository.FindRolesByUserID(db.userRoles, db.roles, userId);
    items := MapAll(roles);
  }

  /** The row an update request makes of `role`. */
  function Merge(role: Role, req: UpdateRoleRequest): (r: Role)
    ensures r.id == role.id
    ensures r.name == (if req.name != "" then req.name else role.name)
    ensures r.description == (if req.description != "" then req.description else role.description)
  {
    Role(role.id, if req.name != "" then req.name else role.name,
         if req.description != "" then req.description else role.description)
  }

  /** An empty request leaves the role as it was, and a request applied twice
      changes nothing more. */
  lemma MergeLaws(role: Role, req: UpdateRoleRequest)
    ensures Merge(role, UpdateRoleRequest("", "")) == role
    ensures Merge(Merge(role, req), req) == Merge(role, req)
  {
  }

  /** An update to `role` is refused for its name exactly when the name is
      new, non-empty and held by some role, which is never `role` itself. */
  predicate NameRefused(roles: seq<Role>, role: Role, req: UpdateRoleRequest) {
    req.name != "" && req.name != role.name && HasKey(roles, req.name, RoleName)
  }

  /** Update: unknown id, then name clash, are errors that write nothing;
      otherwise the merged row is saved (a name another role holds makes
      the save fail) and returned with the permissions loaded before the
      update. While names are unique, the save never fails. */
  method Update(db: Database, id: Uuid, req: UpdateRoleRequest) returns (r: Result<RoleResponse>)
    requires db.Valid()
    modifies db`roles
    ensures db.Valid()
    ensures !HasKey(old(db.roles), id, RoleId) ==> r == Err(ErrRecordNotFound) && db.roles == old(db.roles)
    ensures HasKey(old(db.roles), id, RoleId) ==>
              var v := RoleRepository.FindByID(old(db.roles), db.rolePermissions, db.permissions, id).value;
              if NameRefused(old(db.roles), v.role, req) then
                r == Err(ErrRoleNameExists) && db.roles == old(db.roles)
              else if HeldByOther(old(db.roles), Merge(v.role, req), RoleId, RoleName) then
                r == Err(ErrDuplicateKey) && db.roles == old(db.roles)
              else
                db.roles == Upsert(old(db.roles), Merge(v.role, req), RoleId)
                && r == Ok(ResponseOf(v.(role := Merge(v.role, req))))
    ensures UniqueNames(old(db.roles)) ==> UniqueNames(db.roles)
    ensures UniqueNames(old(db.roles)) && HasKey(old(db.roles), id, RoleId)
            && !NameRefused(old(db.roles), RoleRepository.FindByID(old(db.roles), db.rolePermissions, db.permissions, id).value.role, req)
            ==> r.Ok?
  {
    var loaded := RoleRepository.FindByID(db.roles, db.rolePermissions, db.permissions, id);
    if loaded.None? {
      return Err(ErrRecordNotFound);
    }
    var role := loaded.value.role;
    if req.name != "" && req.name != role.name {
      var existing := RoleRepository.FindByName(db.roles, req.name);
      HolderIsOther(db.roles, RoleId, RoleName, role, req.name);
      if existing.Some? && existing.value.id != id {
        return Err(ErrRoleNameExists);
      }
      assert !HasKey(db.roles, req.name, RoleName) by {
        assert forall i :: 0 <= i < |db.roles| ==> db.roles[i] in db.roles;
      }
      role := role.(name := req.name);
    }
    if req.description != "" {
      role := role.(description := req.description);
    }
    if UniqueNames(db.roles) {
      NotHeldByOther(db.roles, role, RoleId, RoleName, loaded.value.role);
    }
    var err := RoleRepository.Update(db, role);
    if err.Some? {
      return Err(err.value);
    }
    var resp := MapToRoleResponse(loaded.value.(role := role));
    return Ok(resp);
  }

  /** Delete: removes the role; a missing id is not an error. */
  method Delete(db: Database, id: Uuid) returns (err: Option<string>)
    requires db.Valid()
    modifies db`roles
    ensures db.Valid()
    ensures err.None? && db.roles == RemoveKey(old(db.roles), id, RoleId)
  {
    RoleRepository.Delete(db, id);
    return None;
  }

  /** AssignPermissions: a missing role is an error before anything is
      written; otherwise the role's permissions are replaced (an unknown id
      by a blank-named stub, or the foreign-key error) and the role is
      returned reloaded. */
  method AssignPermissions(db: Database, roleId: Uuid, permissionIds: seq<Uuid>, fault: RoleRepository.TxFault)
    returns (r: Result<RoleResponse>)
    requires db.Valid()
    modifies db`rolePermissions, db`permissions
    ensures db.Valid()
    ensures !HasKey(db.roles, roleId, RoleId) ==>
              r == Err(ErrRecordNotFound) && db.rolePermissions == old(db.rolePermissions) && db.permissions == old(db.permissions)
    ensures HasKey(db.roles, roleId, RoleId) && (fault != RoleRepository.NoFault || !old(RoleRepository.PermissionsLinkable(db, roleId, permissionIds)))
            ==> r.Err? && db.rolePermissions == old(db.rolePermissions) && db.permissions == old(db.permissions)
    ensures HasKey(db.roles, roleId, RoleId) && fault == RoleRepository.NoFault && !old(RoleRepository.PermissionsLinkable(db, roleId, permissionIds))
            ==> r == Err(ErrForeignKey)
    ensures HasKey(db.roles, roleId, RoleId) && fault == RoleRepository.NoFault && old(RoleRepository.PermissionsLinkable(db, roleId, permissionIds))
            ==> db.permissions == RoleRepository.StubbedPermissions(old(db.permissions), permissionIds)
                && db.rolePermissions == ReplaceTargets(old(db.rolePermissions), roleId, permissionIds)
                && r == RoleById(db.AuthSnapshot(), roleId)
                && r.Ok?
                && (forall p :: p in db.permissions && p.id in permissionIds
                                ==> PermissionSimpleOf(p) in r.value.permissions)
                && (forall id :: id in permissionIds ==> exists q :: q in r.value.permissions && q.id == id)
  {
    var found := RoleRepository.FindByID(db.roles, db.rolePermissions, db.permissions, roleId);
    if found.None? {
      return Err(ErrRecordNotFound);
    }
    var err := RoleRepository.AssignPermissions(db, roleId, permissionIds, fault);
    if err.Some? {
      return Err(err.value);
    }
    r := GetByID(db, roleId);
    forall id | id in permissionIds ensures exists q :: q in r.value.permissions && q.id == id {
      var p :| p in db.permissions && p.id == id;
      assert PermissionSimpleOf(p) in r.value.permissions;
    }
  }
}
