/** The role repository (domain/repositories/role_repository.go): queries as
    functions of the tables, writes as methods on the database. */
module RoleRepository {
  import opened Common
  import opened Uuids
  import opened Entities
  import opened Pagination
  import opened Store

  /** A role with its permissions preloaded. */
  function WithPermissions(rolePermissions: seq<Link>, permissions: seq<Permission>, role: Role): RoleView {
    RoleView(role, [], PermissionsOfRoles(rolePermissions, permissions, [role.id]))
  }

  /** The preloaded permissions are exactly the stored ones the role links to. */
  lemma WithPermissionsExact(rolePermissions: seq<Link>, permissions: seq<Permission>, role: Role)
    ensures forall p :: p in WithPermissions(rolePermissions, permissions, role).permissions
                        <==> p in permissions && Link(role.id, p.id) in rolePermissions
  {
    forall p ensures GrantedToAny(rolePermissions, [role.id], p) <==> Link(role.id, p.id) in rolePermissions {
      if Link(role.id, p.id) in rolePermissions { assert role.id in [role.id]; }
    }
  }

  /** FindByID: the role with that id, with Permissions preloaded. */
  function FindByID(roles: seq<Role>, rolePermissions: seq<Link>, permissions: seq<Permission>, id: Uuid): (r: Option<RoleView>)
    ensures r.Some? <==> HasKey(roles, id, RoleId)
    ensures r.Some? ==> r.value.role in roles && r.value.role.id == id && r.value.users == []
    ensures r.Some? ==> forall p :: p in r.value.permissions <==> p in permissions && Link(id, p.id) in rolePermissions
  {
    match FindFirst(roles, (x: Role) => x.id == id)
    case None =>
      assert forall i :: 0 <= i < |roles| ==> roles[i] in roles;
      None
    case Some(role) =>
      WithPermissionsExact(rolePermissions, permissions, role);
      Some(WithPermissions(rolePermissions, permissions, role))
  }

  /** FindByName: the first role with that name. */
  function FindByName(roles: seq<Role>, name: string): (r: Option<Role>)
    ensures r.Some? ==> r.value in roles && r.value.name == name
    ensures r.Some? ==> exists k :: 0 <= k < |roles| && roles[k] == r.value && forall j :: 0 <= j < k ==> roles[j].name != name
    ensures r.None? <==> forall x :: x in roles ==> x.name != name
  {
    FindFirst(roles, (x: Role) => x.name == name)
  }

  /** FindAll: one page of roles with their permissions, and the row count. */
  function FindAll(roles: seq<Role>, rolePermissions: seq<Link>, permissions: seq<Permission>,
                   page: int, pageSize: int): (r: Paged<RoleView>)
    ensures r.total == |roles|
    ensures RolesOf(r.items) == PageOf(roles, page, pageSize)
    ensures forall i :: 0 <= i < |r.items| ==>
              && r.items[i].users == []
              && forall p :: p in r.items[i].permissions <==> p in permissions && Link(r.items[i].role.id, p.id) in rolePermissions
  {
    var rows := PageOf(roles, page, pageSize);
    var items := seq(|rows|, i requires 0 <= i < |rows| => WithPermissions(rolePermissions, permissions, rows[i]));
    assert RolesOf(items) == rows;
    forall i | 0 <= i < |items|
      ensures forall p :: p in items[i].permissions <==> p in permissions && Link(items[i].role.id, p.id) in rolePermissions
    {
      WithPermissionsExact(rolePermissions, permissions, rows[i]);
    }
    Paged(items, |roles|)
  }

  /** FindRolesByUserID: the user's roles through the association, which
      preloads nothing, so every returned role has empty users and permissions. */
  function FindRolesByUserID(userRoles: seq<Link>, roles: seq<Role>, userId: Uuid): (r: seq<RoleView>)
    ensures forall x :: x in RolesOf(r) <==> x in roles && Link(userId, x.id) in userRoles
    ensures forall i :: 0 <= i < |r| ==> r[i].users == [] && r[i].permissions == []
  {
    var rs := RolesOfUser(userRoles, roles, userId);
    var r := seq(|rs|, i requires 0 <= i < |rs| => RoleView(rs[i], [], []));
    assert RolesOf(r) == rs;
    r
  }

  /** FindPermissionsByRoleIDs: every permission joined to one of the roles, once. */
  function FindPermissionsByRoleIDs(rolePermissions: seq<Link>, permissions: seq<Permission>, roleIds: seq<Uuid>): (r: seq<Permission>)
    ensures forall p :: p in r <==> p in permissions && GrantedToAny(rolePermissions, roleIds, p)
    ensures DistinctBy(permissions, PermissionId) ==> DistinctBy(r, PermissionId)
    ensures roleIds == [] ==> r == []
  {
    var linked := (p: Permission) => GrantedToAny(rolePermissions, roleIds, p);
    if roleIds == [] then FilterNone(permissions, linked); PermissionsOfRoles(rolePermissions, permissions, roleIds)
    else PermissionsOfRoles(rolePermissions, permissions, roleIds)
  }

  /** Create: inserts the role; an id or a name already in the table (both
      columns are unique) is an error that writes nothing. */
  method Create(db: Database, role: Role) returns (err: Option<string>)
    requires db.Valid()
    modifies db`roles
    ensures db.Valid()
    ensures err.Some? <==> HasKey(old(db.roles), role.id, RoleId) || HasKey(old(db.roles), role.name, RoleName)
    ensures err.Some? ==> err == Some(ErrDuplicateKey) && db.roles == old(db.roles)
    ensures err.None? ==> db.roles == old(db.roles) + [role]
    ensures DistinctBy(old(db.roles), RoleName) ==> DistinctBy(db.roles, RoleName)
  {
    if HasKey(db.roles, role.id, RoleId) || HasKey(db.roles, role.name, RoleName) {
      return Some(ErrDuplicateKey);
    }
    AppendFresh(db.roles, role, RoleId);
    if DistinctBy(db.roles, RoleName) {
      AppendFresh(db.roles, role, RoleName);
    }
    db.roles := db.roles + [role];
    return None;
  }

  /** Update: Save by primary key; a name another role holds violates the
      unique column and writes nothing. */
  method Update(db: Database, role: Role) returns (err: Option<string>)
    requires db.Valid()
    modifies db`roles
    ensures db.Valid()
    ensures err.Some? <==> HeldByOther(old(db.roles), role, RoleId, RoleName)
    ensures err.Some? ==> err == Some(ErrDuplicateKey) && db.roles == old(db.roles)
    ensures err.None? ==> db.roles == Upsert(old(db.roles), role, RoleId)
    ensures DistinctBy(old(db.roles), RoleName) ==> DistinctBy(db.roles, RoleName)
  {
    if exists i :: 0 <= i < |db.roles| && RoleName(db.roles[i]) == RoleName(role) && RoleId(db.roles[i]) != RoleId(role) {
      return Some(ErrDuplicateKey);
    }
    if DistinctBy(db.roles, RoleName) {
      UpsertUnique(db.roles, role, RoleId, RoleName);
    }
    db.roles := Upsert(db.roles, role, RoleId);
    return None;
  }

  /** Delete: removes the role with that id; a missing id is not an error. */
  method Delete(db: Database, id: Uuid)
    requires db.Valid()
    modifies db`roles
    ensures db.Valid()
    ensures db.roles == RemoveKey(old(db.roles), id, RoleId)
  {
    db.roles := RemoveKey(db.roles, id, RoleId);
  }

  /** Where the AssignPermissions / AssignRoles transaction fails, if it does. */
  datatype TxFault = NoFault | ClearFails | AppendFails

  /** The row gorm saves for a permission given by its id alone. */
  function PermissionStub(id: Uuid): Permission {
    Permission(id, "", "")
  }

  /** The permissions table once Append has saved the stubs of `ids`: the
      stub of the first unknown id is added, blank-named, unless a
      permission already has the blank name. */
  function StubbedPermissions(permissions: seq<Permission>, ids: seq<Uuid>): (r: seq<Permission>)
    ensures var f := FirstUnknown(permissions, ids, PermissionId);
            r == if f.Some? && !HasKey(permissions, "", PermissionName)
                 then permissions + [PermissionStub(f.value)] else permissions
    ensures DistinctBy(permissions, PermissionId) ==> DistinctBy(r, PermissionId)
    ensures DistinctBy(permissions, PermissionName) ==> DistinctBy(r, PermissionName)
  {
    assert StubShape(PermissionId, PermissionName, PermissionStub);
    StubInsertOnce(permissions, ids, PermissionId, PermissionName, PermissionStub);
    StubInsertDistinct(permissions, ids, PermissionId, PermissionName, PermissionStub);
    StubInsert(permissions, ids, PermissionId, PermissionName, PermissionStub)
  }

  /** Whether Append's role_permissions rows meet both foreign keys: the
      role is stored when any row is inserted, and every id names a
      permission once the stubs are saved. */
  predicate PermissionsLinkable(db: Database, roleId: Uuid, ids: seq<Uuid>)
    reads db
  {
    Linkable(HasKey(db.roles, roleId, RoleId), StubbedPermissions(db.permissions, ids), ids, PermissionId)
  }

  /** AssignPermissions: in one transaction, clear the role's permissions and
      append the given ones, saving a stub for each; a failing step, or a
      join row that names no role or no permission, rolls everything back. */
  method AssignPermissions(db: Database, roleId: Uuid, permissionIds: seq<Uuid>, fault: TxFault)
    returns (err: Option<string>)
    requires db.Valid()
    modifies db`rolePermissions, db`permissions
    ensures db.Valid()
    ensures err.None? <==> fault == NoFault && old(PermissionsLinkable(db, roleId, permissionIds))
    ensures fault == NoFault && err.Some? ==> err == Some(ErrForeignKey)
    ensures err.None? ==> && db.permissions == StubbedPermissions(old(db.permissions), permissionIds)
                          && db.rolePermissions == ReplaceTargets(old(db.rolePermissions), roleId, permissionIds)
    ensures err.Some? ==> db.permissions == old(db.permissions) && db.rolePermissions == old(db.rolePermissions)
    ensures DistinctBy(old(db.permissions), PermissionName) ==> DistinctBy(db.permissions, PermissionName)
  {
    var before := db.rolePermissions;
    var table := db.permissions;
    var linkable := PermissionsLinkable(db, roleId, permissionIds);
    if fault == ClearFails {
      return Some("association clear failed");
    }
    var kept := Filter(db.rolePermissions, (l: Link) => l.owner != roleId);
    db.rolePermissions := kept;
    var stubs: seq<Uuid> := [];
    for i := 0 to |permissionIds|
      invariant stubs == permissionIds[..i]
    {
      stubs := stubs + [permissionIds[i]];
    }
    assert stubs == permissionIds;
    if fault == AppendFails || !linkable {
      db.rolePermissions := before;
      return Some(if fault == AppendFails then "association append failed" else ErrForeignKey);
    }
    db.permissions := StubbedPermissions(table, stubs);
    ReplaceTargetsNoRepeats(before, roleId, permissionIds);
    db.rolePermissions := kept + NewLinks(kept, roleId, stubs);
    return None;
  }

  /** Append succeeds on its foreign keys exactly when the role is stored
      (if any id is given), at most one distinct id names no permission,
      and, if one does, no permission already has the blank name. */
  lemma PermissionsLinkableIff(db: Database, roleId: Uuid, ids: seq<Uuid>)
    ensures PermissionsLinkable(db, roleId, ids) <==>
            && (|ids| == 0 || HasKey(db.roles, roleId, RoleId))
            && (forall a, b ::
                  a in ids && b in ids && !HasKey(db.permissions, a, PermissionId) && !HasKey(db.permissions, b, PermissionId)
                  ==> a == b)
            && ((exists a :: a in ids && !HasKey(db.permissions, a, PermissionId)) ==> !HasKey(db.permissions, "", PermissionName))
  {
    assert StubShape(PermissionId, PermissionName, PermissionStub);
    StubsResolve(db.permissions, ids, PermissionId, PermissionName, PermissionStub);
  }

  /** An id that names no permission is granted anyway: Append saves its
      stub, so the role gains a permission with that id and a blank name. */
  lemma UnknownPermissionGranted(db: Database, roleId: Uuid, ids: seq<Uuid>, id: Uuid)
    requires PermissionsLinkable(db, roleId, ids)
    requires id in ids && !HasKey(db.permissions, id, PermissionId)
    ensures var table := StubbedPermissions(db.permissions, ids);
            PermissionStub(id) in table
            && PermissionStub(id) in FindPermissionsByRoleIDs(ReplaceTargets(db.rolePermissions, roleId, ids), table, [roleId])
  {
    var table := StubbedPermissions(db.permissions, ids);
    var f := FirstUnknown(db.permissions, ids, PermissionId);
    PermissionsLinkableIff(db, roleId, ids);
    assert f.Some?;
    assert f.value == id;
    assert table[|db.permissions|] == PermissionStub(id);
    AssignedPermissionsExact(db.rolePermissions, table, roleId, ids, roleId);
  }

  /** After AssignPermissions succeeds, the role has exactly the given
      permissions among those in the table (the table with the stubs saved),
      and no other role changed. */
  lemma AssignedPermissionsExact(rolePermissions: seq<Link>, permissions: seq<Permission>,
                                 roleId: Uuid, permissionIds: seq<Uuid>, other: Uuid)
    ensures var after := ReplaceTargets(rolePermissions, roleId, permissionIds);
            (forall p :: (p in FindPermissionsByRoleIDs(after, permissions, [roleId]))
                         <==> (p in permissions && p.id in permissionIds))
            && (other != roleId ==> FindPermissionsByRoleIDs(after, permissions, [other])
                                    == FindPermissionsByRoleIDs(rolePermissions, permissions, [other]))
  {
    var after := ReplaceTargets(rolePermissions, roleId, permissionIds);
    forall p ensures GrantedToAny(after, [roleId], p) <==> p.id in permissionIds {
      if p.id in permissionIds { assert roleId in [roleId] && Link(roleId, p.id) in after; }
    }
    if other != roleId {
      forall p ensures GrantedToAny(after, [other], p) <==> GrantedToAny(rolePermissions, [other], p) {
        if Link(other, p.id) in after { assert other in [other]; }
        if Link(other, p.id) in rolePermissions { assert other in [other]; }
      }
      FilterSame(permissions, (p: Permission) => GrantedToAny(after, [other], p),
                 (p: Permission) => GrantedToAny(rolePermissions, [other], p));
    }
  }

  /** Filtering by two predicates that agree gives the same rows. */
  lemma {:induction false} FilterSame<T(!new)>(s: seq<T>, f: T -> bool, g: T -> bool)
    requires forall x :: f(x) == g(x)
    ensures Filter(s, f) == Filter(s, g)
  {
    if |s| > 0 {
      FilterSame(s[1..], f, g);
    }
  }
}
