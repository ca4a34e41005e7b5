/** The permission repository (domain/repositories/permission_repository.go),
    which the middleware and the permission use case call. */
module PermissionRepository {
  import opened Common
  import opened Uuids
  import opened Entities
  import opened Pagination
  import opened Store

  /** FindByID. */
  function FindByID(permissions: seq<Permission>, id: Uuid): (r: Option<Permission>)
    ensures r.Some? ==> r.value in permissions && r.value.id == id
    ensures r.None? <==> forall p :: p in permissions ==> p.id != id
  {
    FindFirst(permissions, (p: Permission) => p.id == id)
  }

  /** FindByName: the first permission with that name. */
  function FindByName(permissions: seq<Permission>, name: string): (r: Option<Permission>)
    ensures r.Some? ==> r.value in permissions && r.value.name == name
    ensures r.Some? ==> exists k :: 0 <= k < |permissions| && permissions[k] == r.value
                                    && forall j :: 0 <= j < k ==> permissions[j].name != name
    ensures r.None? <==> forall p :: p in permissions ==> p.name != name
  {
    FindFirst(permissions, (p: Permission) => p.name == name)
  }

  /** FindAll: one page of permissions and the row count. */
  function FindAll(permissions: seq<Permission>, page: int, pageSize: int): (r: Paged<Permission>)
    ensures r.total == |permissions|
    ensures r.items == PageOf(permissions, page, pageSize)
    ensures pageSize >= 0 ==> |r.items| <= pageSize
    ensures forall p :: p in r.items ==> p in permissions
  {
    var w := PageOf(permissions, page, pageSize);
    assert forall p :: p in w ==> p in permissions;
    Paged(w, |permissions|)
  }

  /** Create: inserts the permission; an id or a name already in the table
      (both columns are unique) is an error that writes nothing. */
  method Create(db: Database, p: Permission) returns (err: Option<string>)
    requires db.Valid()
    modifies db`permissions
    ensures db.Valid()
    ensures err.Some? <==> HasKey(old(db.permissions), p.id, PermissionId) || HasKey(old(db.permissions), p.name, PermissionName)
    ensures err.Some? ==> err == Some(ErrDuplicateKey) && db.permissions == old(db.permissions)
    ensures err.None? ==> db.permissions == old(db.permissions) + [p]
    ensures DistinctBy(old(db.permissions), PermissionName) ==> DistinctBy(db.permissions, PermissionName)
  {
    if HasKey(db.permissions, p.id, PermissionId) || HasKey(db.permissions, p.name, PermissionName) {
      return Some(ErrDuplicateKey);
    }
    AppendFresh(db.permissions, p, PermissionId);
    if DistinctBy(db.permissions, PermissionName) {
      AppendFresh(db.permissions, p, PermissionName);
    }
    db.permissions := db.permissions + [p];
    return None;
  }

  /** Update: Save by primary key; a name another permission holds violates
      the unique column and writes nothing. */
  method Update(db: Database, p: Permission) returns (err: Option<string>)
    requires db.Valid()
    modifies db`permissions
    ensures db.Valid()
    ensures err.Some? <==> HeldByOther(old(db.permissions), p, PermissionId, PermissionName)
    ensures err.Some? ==> err == Some(ErrDuplicateKey) && db.permissions == old(db.permissions)
    ensures err.None? ==> db.permissions == Upsert(old(db.permissions), p, PermissionId)
    ensures DistinctBy(old(db.permissions), PermissionName) ==> DistinctBy(db.permissions, PermissionName)
  {
    if exists i :: 0 <= i < |db.permissions| && PermissionName(db.permissions[i]) == PermissionName(p)
                   && PermissionId(db.permissions[i]) != PermissionId(p) {
      return Some(ErrDuplicateKey);
    }
    if DistinctBy(db.permissions, PermissionName) {
      UpsertUnique(db.permissions, p, PermissionId, PermissionName);
    }
    db.permissions := Upsert(db.permissions, p, PermissionId);
    return None;
  }

  /** Delete: removes the permission with that id. */
  method Delete(db: Database, id: Uuid)
    requires db.Valid()
    modifies db`permissions
    ensures db.Valid()
    ensures db.permissions == RemoveKey(old(db.permissions), id, PermissionId)
  {
    db.permissions := RemoveKey(db.permissions, id, PermissionId);
  }
}
