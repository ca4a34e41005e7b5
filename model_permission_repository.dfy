/** The model-permission repository
    (domain/repositories/model_permission_repository.go): grants of one
    permission on one model instance, identified by model type and model id. */
module ModelPermissionRepository {
  import opened Common
  import opened Uuids
  import opened Entities
  import opened Pagination
  import opened Store

  /** A grant with its Permission preloaded; a grant whose permission row is
      missing carries the zero Permission, as a non-pointer struct field does. */
  datatype ModelPermissionView = ModelPermissionView(row: ModelPermission, permission: Permission)

  const ZeroPermission: Permission := Permission(Nil, "", "")

  function WithPermission(permissions: seq<Permission>, mp: ModelPermission): (v: ModelPermissionView)
    ensures v.row == mp
    ensures (v.permission in permissions && v.permission.id == mp.permissionId)
            || (v.permission == ZeroPermission && forall p :: p in permissions ==> p.id != mp.permissionId)
  {
    match FindFirst(permissions, (p: Permission) => p.id == mp.permissionId)
    case Some(p) => ModelPermissionView(mp, p)
    case None => ModelPermissionView(mp, ZeroPermission)
  }

  function RowsOf(vs: seq<ModelPermissionView>): (rs: seq<ModelPermission>)
    ensures |rs| == |vs| && forall i :: 0 <= i < |vs| ==> rs[i] == vs[i].row
  {
    seq(|vs|, i requires 0 <= i < |vs| => vs[i].row)
  }

  /** FindByID. */
  function FindByID(rows: seq<ModelPermission>, permissions: seq<Permission>, id: Uuid): (r: Option<ModelPermissionView>)
    ensures r.Some? ==> r.value.row in rows && r.value.row.id == id
    ensures r.None? <==> forall x :: x in rows ==> x.id != id
  {
    match FindFirst(rows, (x: ModelPermission) => x.id == id)
    case None => None
    case Some(x) => Some(WithPermission(permissions, x))
  }

  /** FindByModelTypeAndModelID: every grant on that model instance. */
  function FindByModelTypeAndModelID(rows: seq<ModelPermission>, permissions: seq<Permission>,
                                     modelType: string, modelId: Uuid): (r: seq<ModelPermissionView>)
    ensures forall x :: x in RowsOf(r) <==> x in rows && x.modelType == modelType && x.modelId == modelId
  {
    var found := Filter(rows, (x: ModelPermission) => x.modelType == modelType && x.modelId == modelId);
    var r := seq(|found|, i requires 0 <= i < |found| => WithPermission(permissions, found[i]));
    assert RowsOf(r) == found;
    r
  }

  /** FindAll: one page of grants and the row count. */
  function FindAll(rows: seq<ModelPermission>, permissions: seq<Permission>, page: int, pageSize: int): (r: Paged<ModelPermissionView>)
    ensures r.total == |rows|
    ensures RowsOf(r.items) == PageOf(rows, page, pageSize)
  {
    var pageRows := PageOf(rows, page, pageSize);
    var items := seq(|pageRows|, i requires 0 <= i < |pageRows| => WithPermission(permissions, pageRows[i]));
    assert RowsOf(items) == pageRows;
    Paged(items, |rows|)
  }

  /** Whether a grant is for `permissionId` on the model instance. */
  predicate Grants(x: ModelPermission, modelType: string, modelId: Uuid, permissionId: Uuid) {
    x.modelType == modelType && x.modelId == modelId && x.permissionId == permissionId
  }

  /** The COUNT(*) of the grants that match. */
  function CountGrants(rows: seq<ModelPermission>, modelType: string, modelId: Uuid, permissionId: Uuid): (n: nat)
    ensures n <= |rows|
    ensures n > 0 <==> exists x :: x in rows && Grants(x, modelType, modelId, permissionId)
  {
    if |rows| == 0 then 0
    else
      var rest := CountGrants(rows[1..], modelType, modelId, permissionId);
      assert forall x :: x in rows <==> x == rows[0] || x in rows[1..];
      if Grants(rows[0], modelType, modelId, permissionId) then rest + 1 else rest
  }

  /** CheckPermission: true when some grant matches type, id and permission. */
  function CheckPermission(rows: seq<ModelPermission>, modelType: string, modelId: Uuid, permissionId: Uuid): (has: bool)
    ensures has <==> exists x :: x in rows && Grants(x, modelType, modelId, permissionId)
  {
    CountGrants(rows, modelType, modelId, permissionId) > 0
  }

  /** A created grant is found by CheckPermission, and nothing else changes. */
  lemma CheckAfterCreate(rows: seq<ModelPermission>, mp: ModelPermission, modelType: string, modelId: Uuid, permissionId: Uuid)
    ensures CheckPermission(rows + [mp], modelType, modelId, permissionId)
            == (CheckPermission(rows, modelType, modelId, permissionId) || Grants(mp, modelType, modelId, permissionId))
  {
    assert forall x :: x in rows + [mp] <==> x in rows || x == mp;
  }

  /** After a delete by id, a grant holds exactly when a grant with another id matched. */
  lemma CheckAfterDelete(rows: seq<ModelPermission>, id: Uuid, modelType: string, modelId: Uuid, permissionId: Uuid)
    ensures CheckPermission(RemoveKey(rows, id, ModelPermissionId), modelType, modelId, permissionId)
            <==> exists x :: x in rows && x.id != id && Grants(x, modelType, modelId, permissionId)
  {
  }

  /** Whether the grant's permission is stored: the foreign key that
      permission_id carries as the key of the Permission association. */
  predicate PermissionStored(permissions: seq<Permission>, mp: ModelPermission) {
    HasKey(permissions, mp.permissionId, PermissionId)
  }

  /** Create: inserts the grant. An id already in the table is a
      duplicate-key error, a permission id that names no permission a
      foreign-key error; neither writes anything. */
  method Create(db: Database, mp: ModelPermission) returns (err: Option<string>)
    requires db.Valid()
    modifies db`modelPermissions
    ensures db.Valid()
    ensures err.Some? <==> HasKey(old(db.modelPermissions), mp.id, ModelPermissionId) || !PermissionStored(db.permissions, mp)
    ensures HasKey(old(db.modelPermissions), mp.id, ModelPermissionId) ==> err == Some(ErrDuplicateKey)
    ensures !HasKey(old(db.modelPermissions), mp.id, ModelPermissionId) && err.Some? ==> err == Some(ErrForeignKey)
    ensures err.Some? ==> db.modelPermissions == old(db.modelPermissions)
    ensures err.None? ==> db.modelPermissions == old(db.modelPermissions) + [mp]
  {
    if HasKey(db.modelPermissions, mp.id, ModelPermissionId) {
      return Some(ErrDuplicateKey);
    }
    if !PermissionStored(db.permissions, mp) {
      return Some(ErrForeignKey);
    }
    AppendFresh(db.modelPermissions, mp, ModelPermissionId);
    db.modelPermissions := db.modelPermissions + [mp];
    return None;
  }

  /** Update: Save by primary key; a permission id that names no permission
      is a foreign-key error that writes nothing. */
  method Update(db: Database, mp: ModelPermission) returns (err: Option<string>)
    requires db.Valid()
    modifies db`modelPermissions
    ensures db.Valid()
    ensures err.Some? <==> !PermissionStored(db.permissions, mp)
    ensures err.Some? ==> err == Some(ErrForeignKey) && db.modelPermissions == old(db.modelPermissions)
    ensures err.None? ==> db.modelPermissions == Upsert(old(db.modelPermissions), mp, ModelPermissionId)
  {
    if !PermissionStored(db.permissions, mp) {
      return Some(ErrForeignKey);
    }
    db.modelPermissions := Upsert(db.modelPermissions, mp, ModelPermissionId);
    return None;
  }

  /** Delete: removes the grant with that id; a missing id is not an error. */
  method Delete(db: Database, id: Uuid)
    requires db.Valid()
    modifies db`modelPermissions
    ensures db.Valid()
    ensures db.modelPermissions == RemoveKey(old(db.modelPermissions), id, ModelPermissionId)
  {
    db.modelPermissions := RemoveKey(db.modelPermissions, id, ModelPermissionId);
  }
}
