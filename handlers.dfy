/** The resource handlers of internal/delivery/http/handlers: role_handler.go,
    menu_handler.go and permission_handler.go are the same code over three
    resources, so each handler is written once here, with the resource's
    name ("role", "menu", "permission") as a parameter.

    A handler is a function of what gin hands it (the path id as text, the
    JSON body already bound, or the binding's error, and the query values)
    and of the use-case operation it calls, passed in as a function. Its
    value is the answer it writes. */
module Handlers {
  import opened Common
  import opened Uuids
  import opened Numbers
  import opened Pagination

  /** An answer: a JSON body, an {"error": …} body, or a status alone. */
  datatype Reply<T> = Json(status: int, data: T) | Failure(status: int, error: string) | Bare(status: int)

  const RoleResource: string := "role"
  const MenuResource: string := "menu"
  const PermissionResource: string := "permission"

  /** The answer to a path id that is not a UUID, e.g. "invalid role id". */
  function InvalidId(what: string): string {
    "invalid " + what + " id"
  }

  /** The answer of a lookup that failed, e.g. "role not found". */
  function NotFound(what: string): string {
    what + " not found"
  }

  /** CreateRole, CreateMenu and CreatePermission: a body that does not bind
      and a use-case error both answer 400 with the error's text; otherwise
      the created resource is answered with 201. */
  function Create<Q, T>(bound: Result<Q>, create: Q -> Result<T>): (r: Reply<T>)
    ensures bound.Err? ==> r == Failure(StatusBadRequest, bound.error)
    ensures bound.Ok? && create(bound.value).Err? ==> r == Failure(StatusBadRequest, create(bound.value).error)
    ensures r.Json? <==> bound.Ok? && create(bound.value).Ok?
    ensures r.Json? ==> r == Json(StatusCreated, create(bound.value).value)
  {
    match bound
    case Err(e) => Failure(StatusBadRequest, e)
    case Ok(req) =>
      match create(req)
      case Err(e) => Failure(StatusBadRequest, e)
      case Ok(resp) => Json(StatusCreated, resp)
  }

  /** GetRole, GetMenu and GetPermission: a path id that does not parse
      answers 400 before the use case is consulted; a failed lookup answers
      404 "<resource> not found", whatever the error was. */
  function Get<T>(what: string, idText: string, get: Uuid -> Result<T>): (r: Reply<T>)
    ensures ParseUuid(idText).None? ==> r == Failure(StatusBadRequest, InvalidId(what))
    ensures ParseUuid(idText).Some? && get(ParseUuid(idText).value).Err? ==> r == Failure(StatusNotFound, NotFound(what))
    ensures r.Json? <==> ParseUuid(idText).Some? && get(ParseUuid(idText).value).Ok?
    ensures r.Json? ==> r == Json(StatusOK, get(ParseUuid(idText).value).value)
  {
    match ParseUuid(idText)
    case None => Failure(StatusBadRequest, InvalidId(what))
    case Some(id) =>
      match get(id)
      case Err(_) => Failure(StatusNotFound, NotFound(what))
      case Ok(resp) => Json(StatusOK, resp)
  }

  /** The body of a list answer: the page of items and its "meta" object. */
  datatype Listing<T> = Listing(items: seq<T>, meta: ListMeta)

  /** GetAllRoles, GetAllMenus and GetAllPermissions: the page and page size
      are normalised, the use case lists that page, and the answer carries
      the page, the size, the total and the number of pages. total_page is
      the ceiling of total / size, which is what the handlers' int64
      expression gives whenever it does not overflow. */
  function GetAll<T>(pageQuery: Option<string>, sizeQuery: Option<string>, list: (int, int) -> Result<Paged<T>>)
    : (r: Reply<Listing<T>>)
    ensures var page, size := PageParam(pageQuery), PageSizeParam(sizeQuery);
            match list(page, size)
            case Err(e) => r == Failure(StatusInternalServerError, e)
            case Ok(p) =>
              && r.Json? && r.status == StatusOK
              && r.data.items == p.items
              && r.data.meta.page == page && r.data.meta.pageSize == size && r.data.meta.total == p.total
              && p.total <= r.data.meta.totalPage * size
              && (r.data.meta.totalPage == 0 || (r.data.meta.totalPage - 1) * size < p.total)
              && (p.total + size - 1 <= MaxInt64 ==> r.data.meta.totalPage == TotalPageAsWritten(p.total, size))
  {
    var page, size := PageParam(pageQuery), PageSizeParam(sizeQuery);
    match list(page, size)
    case Err(e) => Failure(StatusInternalServerError, e)
    case Ok(p) =>
      assert p.total + size - 1 <= MaxInt64 ==> TotalPage(p.total, size) == TotalPageAsWritten(p.total, size) by {
        if p.total + size - 1 <= MaxInt64 {
          TotalPageAgrees(p.total, size);
        }
      }
      Json(StatusOK, Listing(p.items, ListMetaOf(page, size, p.total)))
  }

  /** GetActiveMenus: the active menus, or 500 with the error. */
  function GetActive<T>(listed: Result<seq<T>>): (r: Reply<seq<T>>)
    ensures listed.Err? ==> r == Failure(StatusInternalServerError, listed.error)
    ensures listed.Ok? ==> r == Json(StatusOK, listed.value)
  {
    match listed
    case Err(e) => Failure(StatusInternalServerError, e)
    case Ok(ms) => Json(StatusOK, ms)
  }

  /** UpdateRole, UpdateMenu and UpdatePermission: the path id is checked
      first, then the body; a use-case error answers 400 with its text. */
  function Update<Q, T>(what: string, idText: string, bound: Result<Q>, update: (Uuid, Q) -> Result<T>): (r: Reply<T>)
    ensures ParseUuid(idText).None? ==> r == Failure(StatusBadRequest, InvalidId(what))
    ensures ParseUuid(idText).Some? && bound.Err? ==> r == Failure(StatusBadRequest, bound.error)
    ensures r.Failure? ==> r.status == StatusBadRequest
    ensures r.Json? <==> ParseUuid(idText).Some? && bound.Ok? && update(ParseUuid(idText).value, bound.value).Ok?
    ensures r.Json? ==> r == Json(StatusOK, update(ParseUuid(idText).value, bound.value).value)
  {
    match ParseUuid(idText)
    case None => Failure(StatusBadRequest, InvalidId(what))
    case Some(id) =>
      match bound
      case Err(e) => Failure(StatusBadRequest, e)
      case Ok(req) =>
        match update(id, req)
        case Err(e) => Failure(StatusBadRequest, e)
        case Ok(resp) => Json(StatusOK, resp)
  }

  /** AssignPermissions (role handler): the role's id, then the body's
      permission ids; the use case's answer is the updated role. */
  function AssignPermissions<T>(idText: string, bound: Result<seq<Uuid>>, assign: (Uuid, seq<Uuid>) -> Result<T>)
    : (r: Reply<T>)
    ensures ParseUuid(idText).None? ==> r == Failure(StatusBadRequest, "invalid role id")
    ensures r.Failure? ==> r.status == StatusBadRequest
    ensures r.Json? <==> ParseUuid(idText).Some? && bound.Ok? && assign(ParseUuid(idText).value, bound.value).Ok?
  {
    Update(RoleResource, idText, bound, assign)
  }

  /** DeleteRole, DeleteMenu and DeletePermission: 204 with no body once the
      use case succeeds, 400 otherwise. */
  function Delete(what: string, idText: string, delete: Uuid -> Option<string>): (r: Reply<()>)
    ensures ParseUuid(idText).None? ==> r == Failure(StatusBadRequest, InvalidId(what))
    ensures ParseUuid(idText).Some? && delete(ParseUuid(idText).value).Some?
            ==> r == Failure(StatusBadRequest, delete(ParseUuid(idText).value).value)
    ensures r == Bare(StatusNoContent) <==> ParseUuid(idText).Some? && delete(ParseUuid(idText).value).None?
  {
    match ParseUuid(idText)
    case None => Failure(StatusBadRequest, InvalidId(what))
    case Some(id) =>
      match delete(id)
      case Some(e) => Failure(StatusBadRequest, e)
      case None => Bare(StatusNoContent)
  }

  /** A path id written as a UUID's canonical text gets past the id check,
      and the use case is asked about exactly that UUID. */
  lemma CanonicalIdReachesUseCase<Q, T>(what: string, u: Uuid, get: Uuid -> Result<T>,
                                        bound: Result<Q>, update: (Uuid, Q) -> Result<T>,
                                        delete: Uuid -> Option<string>)
    ensures Get(what, UuidString(u), get).status == (if get(u).Ok? then StatusOK else StatusNotFound)
    ensures bound.Ok? ==>
              Update(what, UuidString(u), bound, update).status
              == (if update(u, bound.value).Ok? then StatusOK else StatusBadRequest)
    ensures Delete(what, UuidString(u), delete).status == (if delete(u).None? then StatusNoContent else StatusBadRequest)
  {
    ParseUuidString(u);
  }

  /** The id checks of the role handler answer "invalid role id". */
  lemma RoleIdGuards<Q, T>(idText: string, get: Uuid -> Result<T>, bound: Result<Q>,
                           update: (Uuid, Q) -> Result<T>, delete: Uuid -> Option<string>)
    requires ParseUuid(idText).None?
    ensures Get(RoleResource, idText, get) == Failure(StatusBadRequest, "invalid role id")
    ensures Update(RoleResource, idText, bound, update) == Failure(StatusBadRequest, "invalid role id")
    ensures Delete(RoleResource, idText, delete) == Failure(StatusBadRequest, "invalid role id")
  {
  }

  /** The id checks of the menu handler answer "invalid menu id". */
  lemma MenuIdGuards<Q, T>(idText: string, get: Uuid -> Result<T>, bound: Result<Q>,
                           update: (Uuid, Q) -> Result<T>, delete: Uuid -> Option<string>)
    requires ParseUuid(idText).None?
    ensures Get(MenuResource, idText, get) == Failure(StatusBadRequest, "invalid menu id")
    ensures Update(MenuResource, idText, bound, update) == Failure(StatusBadRequest, "invalid menu id")
    ensures Delete(MenuResource, idText, delete) == Failure(StatusBadRequest, "invalid menu id")
  {
  }

  /** The id checks of the permission handler answer "invalid permission id". */
  lemma PermissionIdGuards<Q, T>(idText: string, get: Uuid -> Result<T>, bound: Result<Q>,
                                 update: (Uuid, Q) -> Result<T>, delete: Uuid -> Option<string>)
    requires ParseUuid(idText).None?
    ensures Get(PermissionResource, idText, get) == Failure(StatusBadRequest, "invalid permission id")
    ensures Update(PermissionResource, idText, bound, update) == Failure(StatusBadRequest, "invalid permission id")
    ensures Delete(PermissionResource, idText, delete) == Failure(StatusBadRequest, "invalid permission id")
  {
  }

  /** Without query parameters a list is page 1 of 10 rows. */
  lemma DefaultListing<T>(list: (int, int) -> Result<Paged<T>>)
    requires list(1, 10).Ok?
    ensures GetAll(None, None, list).Json?
    ensures GetAll(None, None, list).data.meta.page == 1 && GetAll(None, None, list).data.meta.pageSize == 10
  {
    PageParamDefaults();
  }
}
