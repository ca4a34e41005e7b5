/** The permission use case (internal/usecase/permission_usecase.go):
    creation under a unique name, partial updates and the response mapping. */
module PermissionUseCase {
  import opened Common
  import opened Uuids
  import opened Entities
  import opened Pagination
  import opened Store
  import PermissionRepository

  const ErrPermissionNameExists: string := "permission name already exists"

  datatype CreatePermissionRequest = CreatePermissionRequest(name: string, description: string)

  /** An update request: "" means "leave this field unchanged". */
  datatype UpdatePermissionRequest = UpdatePermissionRequest(name: string, description: string)

  /** PermissionResponse; the roles of a permission are never loaded, so the
      response always omits them. */
  datatype PermissionResponse = PermissionResponse(id: Uuid, name: string, description: string)

  /** mapToPermissionResponse keeps the id, name and description. */
  function ResponseOf(p: Permission): (r: PermissionResponse)
    ensures r.id == p.id && r.name == p.name && r.description == p.description
  {
    PermissionResponse(p.id, p.name, p.description)
  }

  /** The mapping loses nothing: a permission is recovered from its response. */
  lemma ResponseOfInjective(p: Permission, q: Permission)
    ensures ResponseOf(p) == ResponseOf(q) ==> p == q
  {
  }

  function ResponsesOf(ps: seq<Permission>): (rs: seq<PermissionResponse>)
    ensures |rs| == |ps| && forall i :: 0 <= i < |ps| ==> rs[i] == ResponseOf(ps[i])
  {
    seq(|ps|, i requires 0 <= i < |ps| => ResponseOf(ps[i]))
  }

  method MapAll(ps: seq<Permission>) returns (rs: seq<PermissionResponse>)
    ensures rs == ResponsesOf(ps)
  {
    rs := [];
    for i := 0 to |ps|
      invariant rs == ResponsesOf(ps[..i])
    {
      rs := rs + [ResponseOf(ps[i])];
    }
    assert ps[..|ps|] == ps;
  }

  /** Permission names are unique across the table (the column is unique). */
  predicate UniqueNames(permissions: seq<Permission>) {
    DistinctBy(permissions, PermissionName)
  }

  /** Create. `freshId` is the id the database default assigns. */
  method Create(db: Database, req: CreatePermissionRequest, freshId: Uuid) returns (r: Result<PermissionResponse>)
    requires db.Valid()
    modifies db`permissions
    ensures db.Valid()
    ensures HasKey(old(db.permissions), req.name, PermissionName)
            ==> r == Err(ErrPermissionNameExists) && db.permissions == old(db.permissions)
    ensures !HasKey(old(db.permissions), req.name, PermissionName) && HasKey(old(db.permissions), freshId, PermissionId)
            ==> r == Err(ErrDuplicateKey) && db.permissions == old(db.permissions)
    ensures !HasKey(old(db.permissions), req.name, PermissionName) && !HasKey(old(db.permissions), freshId, PermissionId)
            ==> db.permissions == old(db.permissions) + [Permission(freshId, req.name, req.description)]
                && r == Ok(PermissionResponse(freshId, req.name, req.description))
    ensures UniqueNames(old(db.permissions)) ==> UniqueNames(db.permissions)
  {
    var existing := PermissionRepository.FindByName(db.permissions, req.name);
    if existing.Some? {
      return Err(ErrPermissionNameExists);
    }
    var p := Permission(freshId, req.name, req.description);
    assert !HasKey(db.permissions, req.name, PermissionName) by {
      assert forall i :: 0 <= i < |db.permissions| ==> db.permissions[i] in db.permissions;
    }
    ghost var before := db.permissions;
    var err := PermissionRepository.Create(db, p);
    if err.Some? {
      return Err(err.value);
    }
    if UniqueNames(before) {
      AppendFresh(before, p, PermissionName);
    }
    return Ok(ResponseOf(p));
  }

  /** GetByID: the permission with that id, or the lookup error. */
  function PermissionById(permissions: seq<Permission>, id: Uuid): (r: Result<PermissionResponse>)
    ensures r.Err? <==> !HasKey(permissions, id, PermissionId)
    ensures r.Err? ==> r.error == ErrRecordNotFound
    ensures r.Ok? ==> exists p :: p in permissions && p.id == id && r.value == ResponseOf(p)
  {
    match PermissionRepository.FindByID(permissions, id)
    case None =>
      assert forall i :: 0 <= i < |permissions| ==> permissions[i] in permissions;
      Err(ErrRecordNotFound)
    case Some(p) => Ok(ResponseOf(p))
  }

  /** GetAll: one page of permissions and the row count. */
  method GetAll(db: Database, page: int, pageSize: int) returns (items: seq<PermissionResponse>, total: nat)
    ensures total == |db.permissions|
    ensures items == ResponsesOf(PageOf(db.permissions, page, pageSize))
    ensures pageSize >= 0 ==> |items| <= pageSize
  {
    var found := PermissionRepository.FindAll(db.permissions, page, pageSize);
    items := MapAll(found.items);
    total := found.total;
  }

  /** The row an update request makes of `p`. */
  function Merge(p: Permission, req: UpdatePermissionRequest): (r: Permission)
    ensures r.id == p.id
    ensures r.name == (if req.name != "" then req.name else p.name)
    ensures r.description == (if req.description != "" then req.description else p.description)
  {
    Permission(p.id, if req.name != "" then req.name else p.name,
               if req.description != "" then req.description else p.description)
  }

  /** An empty request leaves the permission as it was, and a request applied
      twice changes nothing more. */
  lemma MergeLaws(p: Permission, req: UpdatePermissionRequest)
    ensures Merge(p, UpdatePermissionRequest("", "")) == p
    ensures Merge(Merge(p, req), req) == Merge(p, req)
  {
  }

  /** An update is refused for its name exactly when the name is new,
      non-empty and held by some permission, which is never `p` itself. */
  predicate NameRefused(permissions: seq<Permission>, p: Permission, req: UpdatePermissionRequest) {
    req.name != "" && req.name != p.name && HasKey(permissions, req.name, PermissionName)
  }

  /** Update: unknown id, then name clash, are errors that write nothing;
      otherwise the merged row is saved (a name another permission holds
      makes the save fail) and returned. While names are unique, the save
      never fails. */
  method Update(db: Database, id: Uuid, req: UpdatePermissionRequest) returns (r: Result<PermissionResponse>)
    requires db.Valid()
    modifies db`permissions
    ensures db.Valid()
    ensures !HasKey(old(db.permissions), id, PermissionId)
            ==> r == Err(ErrRecordNotFound) && db.permissions == old(db.permissions)
    ensures HasKey(old(db.permissions), id, PermissionId) ==>
              var p := PermissionRepository.FindByID(old(db.permissions), id).value;
              if NameRefused(old(db.permissions), p, req) then
                r == Err(ErrPermissionNameExists) && db.permissions == old(db.permissions)
              else if HeldByOther(old(db.permissions), Merge(p, req), PermissionId, PermissionName) then
                r == Err(ErrDuplicateKey) && db.permissions == old(db.permissions)
              else
                db.permissions == Upsert(old(db.permissions), Merge(p, req), PermissionId)
                && r == Ok(ResponseOf(Merge(p, req)))
    ensures UniqueNames(old(db.permissions)) ==> UniqueNames(db.permissions)
    ensures UniqueNames(old(db.permissions)) && HasKey(old(db.permissions), id, PermissionId)
            && !NameRefused(old(db.permissions), PermissionRepository.FindByID(old(db.permissions), id).value, req)
            ==> r.Ok?
  {
    var found := PermissionRepository.FindByID(db.permissions, id);
    if found.None? {
      assert forall i :: 0 <= i < |db.permissions| ==> db.permissions[i] in db.permissions;
      return Err(ErrRecordNotFound);
    }
    var p := found.value;
    if req.name != "" && req.name != p.name {
      var existing := PermissionRepository.FindByName(db.permissions, req.name);
      HolderIsOther(db.permissions, PermissionId, PermissionName, p, req.name);
      if existing.Some? && existing.value.id != id {
        return Err(ErrPermissionNameExists);
      }
      assert !HasKey(db.permissions, req.name, PermissionName) by {
        assert forall i :: 0 <= i < |db.permissions| ==> db.permissions[i] in db.permissions;
      }
      p := p.(name := req.name);
    }
    if req.description != "" {
      p := p.(description := req.description);
    }
    if UniqueNames(db.permissions) {
      NotHeldByOther(db.permissions, p, PermissionId, PermissionName, found.value);
    }
    var err := PermissionRepository.Update(db, p);
    if err.Some? {
      return Err(err.value);
    }
    return Ok(ResponseOf(p));
  }

  /** Delete: removes the permission; a missing id is not an error. */
  method Delete(db: Database, id: Uuid) returns (err: Option<string>)
    requires db.Valid()
    modifies db`permissions
    ensures db.Valid()
    ensures err.None? && db.permissions == RemoveKey(old(db.permissions), id, PermissionId)
  {
    PermissionRepository.Delete(db, id);
    return None;
  }
}
