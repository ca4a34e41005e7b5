/** The menu use case (internal/usecase/menu_usecase.go): creation under a
    unique name, partial updates where an empty field means "unchanged",
    deletion guarded by the children check, and the response mapping. */
module MenuUseCase {
  import opened Common
  import opened Uuids
  import opened Entities
  import opened Pagination
  import opened Store
  import MenuRepository

  const ErrMenuNameExists: string := "menu name already exists"
  const ErrMenuHasChildren: string := "cannot delete menu with children"

  datatype CreateMenuRequest = CreateMenuRequest(
    name: string, url: string, icon: string, description: string,
    parentId: Option<Uuid>, sequence: int)

  /** An update request: "", None and 0 mean "leave this field unchanged". */
  datatype UpdateMenuRequest = UpdateMenuRequest(
    name: string, url: string, icon: string, description: string,
    parentId: Option<Uuid>, sequence: int, isActive: Option<bool>)

  /** What a response shows of a related menu. */
  datatype MenuSimple = MenuSimple(id: Uuid, name: string, url: string)

  /** MenuResponse; `children` is empty where the response omits it. */
  datatype MenuResponse = MenuResponse(
    id: Uuid, name: string, url: string, icon: string, description: string,
    parentId: Option<Uuid>, sequence: int, isActive: bool,
    parent: Option<MenuSimple>, children: seq<MenuSimple>)

  function Simple(m: Menu): MenuSimple {
    MenuSimple(m.id, m.name, m.url)
  }

  /** mapToMenuSimpleResponse: the row's own fields, with no relatives. */
  function SimpleResponse(m: Menu): (r: MenuResponse)
    ensures r.id == m.id && r.name == m.name && r.url == m.url && r.icon == m.icon
    ensures r.description == m.description && r.parentId == m.parentId
    ensures r.sequence == m.sequence && r.isActive == m.isActive
    ensures r.parent.None? && r.children == []
  {
    MenuResponse(m.id, m.name, m.url, m.icon, m.description, m.parentId, m.sequence, m.isActive, None, [])
  }

  /** The response mapToMenuResponse builds for a loaded menu: the row's
      fields, the parent only when one was loaded, and one entry per child
      in order. */
  function ResponseOf(v: MenuView): (r: MenuResponse)
    ensures r.id == v.menu.id && r.name == v.menu.name && r.url == v.menu.url
    ensures r.icon == v.menu.icon && r.description == v.menu.description
    ensures r.parentId == v.menu.parentId && r.sequence == v.menu.sequence
    ensures r.isActive == v.menu.isActive
    ensures r.parent.Some? <==> v.parent.Some?
    ensures v.parent.Some? ==> r.parent.value == MenuSimple(v.parent.value.id, v.parent.value.name, v.parent.value.url)
    ensures |r.children| == |v.children|
    ensures forall i :: 0 <= i < |v.children| ==>
              r.children[i] == MenuSimple(v.children[i].id, v.children[i].name, v.children[i].url)
  {
    var parent := match v.parent
      case None => None
      case Some(p) => Some(Simple(p));
    var children := seq(|v.children|, i requires 0 <= i < |v.children| => Simple(v.children[i]));
    SimpleResponse(v.menu).(parent := parent, children := children)
  }

  /** mapToMenuResponse, appending one entry per child. */
  method MapToMenuResponse(v: MenuView) returns (r: MenuResponse)
    ensures r == ResponseOf(v)
  {
    r := SimpleResponse(v.menu);
    if v.parent.Some? {
      r := r.(parent := Some(Simple(v.parent.value)));
    }
    var children: seq<MenuSimple> := [];
    for i := 0 to |v.children|
      invariant |children| == i
      invariant forall k :: 0 <= k < i ==> children[k] == Simple(v.children[k])
    {
      children := children + [Simple(v.children[i])];
    }
    r := r.(children := children);
  }

  /** Menu names are unique across the table (the column is unique). */
  predicate UniqueNames(menus: seq<Menu>) {
    DistinctBy(menus, MenuName)
  }

  /** Whether some menu has that name. */
  predicate NameTaken(menus: seq<Menu>, name: string) {
    exists m :: m in menus && m.name == name
  }

  /** Every parent reference names a menu of the table. */
  predicate ParentsExist(menus: seq<Menu>) {
    forall m :: m in menus && m.parentId.Some? ==> exists p :: p in menus && p.id == m.parentId.value
  }

  /** Inserting a menu whose parent is stored keeps every parent reference
      resolving: the foreign key on parent_id maintains ParentsExist. */
  lemma InsertKeepsParents(menus: seq<Menu>, m: Menu)
    requires ParentsExist(menus) && MenuRepository.ParentStored(menus + [m], m)
    ensures ParentsExist(menus + [m])
  {
    forall x | x in menus + [m] && x.parentId.Some? ensures exists p :: p in menus + [m] && p.id == x.parentId.value {
      if x == m {
        var i :| 0 <= i < |menus + [m]| && (menus + [m])[i].id == m.parentId.value;
        assert (menus + [m])[i] in menus + [m];
      } else {
        var p :| p in menus && p.id == x.parentId.value;
        assert p in menus + [m];
      }
    }
  }

  /** Saving a menu whose parent is stored keeps every parent reference
      resolving: a menu whose parent was the replaced row now has the saved
      row, of the same id, as its parent. */
  lemma SaveKeepsParents(menus: seq<Menu>, m: Menu)
    requires ParentsExist(menus) && MenuRepository.ParentStored(Upsert(menus, m, MenuId), m)
    ensures ParentsExist(Upsert(menus, m, MenuId))
  {
    var after := Upsert(menus, m, MenuId);
    forall x | x in after && x.parentId.Some? ensures exists p :: p in after && p.id == x.parentId.value {
      if x == m {
        var i :| 0 <= i < |after| && MenuId(after[i]) == m.parentId.value;
        assert after[i] in after;
      } else {
        var p :| p in menus && p.id == x.parentId.value;
        if p.id != m.id {
          assert p in after;
        } else {
          assert m in after;
        }
      }
    }
  }

  /** A new row for a create request: active, and not visible. */
  function NewMenu(req: CreateMenuRequest, id: Uuid): (m: Menu)
    ensures m.id == id && m.name == req.name && m.url == req.url && m.icon == req.icon
    ensures m.description == req.description && m.parentId == req.parentId
    ensures m.sequence == req.sequence && m.isActive && !m.isVisible
  {
    Menu(id, req.name, req.url, req.icon, req.description, req.parentId, req.sequence, true, false)
  }

  /** Create, over the corrected FindByID: the reload sees the new menu's
      parent and children. `freshId` is the id the database default assigns. */
  method Create(db: Database, req: CreateMenuRequest, freshId: Uuid) returns (r: Result<MenuResponse>)
    requires db.Valid()
    modifies db`menus
    ensures db.Valid()
    ensures NameTaken(old(db.menus), req.name) ==> r == Err(ErrMenuNameExists) && db.menus == old(db.menus)
    ensures !NameTaken(old(db.menus), req.name) && HasKey(old(db.menus), freshId, MenuId)
            ==> r == Err(ErrDuplicateKey) && db.menus == old(db.menus)
    ensures !NameTaken(old(db.menus), req.name) && !HasKey(old(db.menus), freshId, MenuId)
            && !MenuRepository.ParentStored(old(db.menus) + [NewMenu(req, freshId)], NewMenu(req, freshId))
            ==> r == Err(ErrForeignKey) && db.menus == old(db.menus)
    ensures !NameTaken(old(db.menus), req.name) && !HasKey(old(db.menus), freshId, MenuId)
            && MenuRepository.ParentStored(old(db.menus) + [NewMenu(req, freshId)], NewMenu(req, freshId))
            ==> db.menus == old(db.menus) + [NewMenu(req, freshId)]
                && r == Ok(ResponseOf(MenuRepository.Load(db.menus, NewMenu(req, freshId))))
    ensures UniqueNames(old(db.menus)) ==> UniqueNames(db.menus)
    ensures ParentsExist(old(db.menus)) ==> ParentsExist(db.menus)
  {
    if MenuRepository.FindByName(db.menus, req.name).Some? {
      return Err(ErrMenuNameExists);
    }
    var menu := NewMenu(req, freshId);
    assert !HasKey(db.menus, req.name, MenuName) by {
      assert forall i :: 0 <= i < |db.menus| ==> db.menus[i] in db.menus;
    }
    ghost var before := db.menus;
    if ParentsExist(before) && MenuRepository.ParentStored(before + [menu], menu) {
      InsertKeepsParents(before, menu);
    }
    var err := MenuRepository.Create(db, menu);
    if err.Some? {
      return Err(err.value);
    }
    var loaded := MenuRepository.FindByID(db.menus, menu.id);
    if loaded.None? {
      return Err(ErrRecordNotFound);
    }
    KeyedUnique(db.menus, MenuId, loaded.value.menu, menu);
    var resp := MapToMenuResponse(loaded.value);
    r := Ok(resp);
    if UniqueNames(old(db.menus)) {
      AppendFresh(old(db.menus), menu, MenuName);
    }
  }

  /** GetByID, over the corrected FindByID: the response of the menu with its
      parent and children loaded, or the lookup error. */
  function MenuById(menus: seq<Menu>, id: Uuid): (r: Result<MenuResponse>)
    ensures r.Err? <==> !HasKey(menus, id, MenuId)
    ensures r.Err? ==> r.error == ErrRecordNotFound
    ensures r.Ok? ==> r.value.id == id && exists m :: m in menus && m.id == id && r.value == ResponseOf(MenuRepository.Load(menus, m))
  {
    match MenuRepository.FindByID(menus, id)
    case None => Err(ErrRecordNotFound)
    case Some(v) => Ok(ResponseOf(v))
  }

  method GetByID(db: Database, id: Uuid) returns (r: Result<MenuResponse>)
    ensures r == MenuById(db.menus, id)
  {
    var loaded := MenuRepository.FindByID(db.menus, id);
    if loaded.None? {
      return Err(ErrRecordNotFound);
    }
    var resp := MapToMenuResponse(loaded.value);
    return Ok(resp);
  }

  /** The simple responses of a sequence of menus, in order. */
  function SimpleResponses(ms: seq<Menu>): (rs: seq<MenuResponse>)
    ensures |rs| == |ms| && forall i :: 0 <= i < |ms| ==> rs[i] == SimpleResponse(ms[i])
  {
    seq(|ms|, i requires 0 <= i < |ms| => SimpleResponse(ms[i]))
  }

  method MapAll(ms: seq<Menu>) returns (rs: seq<MenuResponse>)
    ensures rs == SimpleResponses(ms)
  {
    rs := [];
    for i := 0 to |ms|
      invariant rs == SimpleResponses(ms[..i])
    {
      rs := rs + [SimpleResponse(ms[i])];
    }
    assert ms[..|ms|] == ms;
  }

  /** GetAll: one page of simple responses and the total row count. */
  method GetAll(db: Database, page: int, pageSize: int) returns (items: seq<MenuResponse>, total: nat)
    ensures total == |db.menus|
    ensures items == SimpleResponses(PageOf(db.menus, page, pageSize))
    ensures pageSize >= 0 ==> |items| <= pageSize
  {
    var found := MenuRepository.FindAll(db.menus, page, pageSize);
    items := MapAll(found.items);
    total := found.total;
  }

  /** GetAllActive: every active menu once per row, ordered by sequence. */
  method GetAllActive(db: Database) returns (items: seq<MenuResponse>)
    ensures items == SimpleResponses(MenuRepository.FindAllActive(db.menus))
    ensures forall i :: 0 <= i < |items| ==> items[i].isActive
    ensures forall i, j :: 0 <= i < j < |items| ==> items[i].sequence <= items[j].sequence
    ensures forall m :: m in db.menus && m.isActive ==> SimpleResponse(m) in items
  {
    var active := MenuRepository.FindAllActive(db.menus);
    items := MapAll(active);
    forall i | 0 <= i < |items| ensures items[i].isActive {
      assert active[i] in active;
    }
    forall m | m in db.menus && m.isActive ensures SimpleResponse(m) in items {
      var k :| 0 <= k < |active| && active[k] == m;
      assert items[k] == SimpleResponse(m);
    }
  }

  /** A provided text replaces the stored one; an empty one keeps it. */
  function Prefer(given: string, current: string): string {
    if given != "" then given else current
  }

  /** The row an update request makes of `menu`, its name already settled. */
  function Merge(menu: Menu, req: UpdateMenuRequest): (m: Menu)
    ensures m.id == menu.id && m.isVisible == menu.isVisible
    ensures m.name == Prefer(req.name, menu.name) && m.url == Prefer(req.url, menu.url)
    ensures m.icon == Prefer(req.icon, menu.icon) && m.description == Prefer(req.description, menu.description)
    ensures m.parentId == (if req.parentId.Some? then req.parentId else menu.parentId)
    ensures m.sequence == (if req.sequence != 0 then req.sequence else menu.sequence)
    ensures m.isActive == (if req.isActive.Some? then req.isActive.value else menu.isActive)
  {
    var parentId := if req.parentId.Some? then req.parentId else menu.parentId;
    var sequence := if req.sequence != 0 then req.sequence else menu.sequence;
    var isActive := if req.isActive.Some? then req.isActive.value else menu.isActive;
    Menu(menu.id, Prefer(req.name, menu.name), Prefer(req.url, menu.url), Prefer(req.icon, menu.icon),
         Prefer(req.description, menu.description), parentId, sequence, isActive, menu.isVisible)
  }

  /** A request with every field empty leaves the row as it was. */
  lemma EmptyRequestKeepsMenu(menu: Menu)
    ensures Merge(menu, UpdateMenuRequest("", "", "", "", None, 0, None)) == menu
  {
  }

  /** Applying the same request twice changes nothing more. */
  lemma MergeIdempotent(menu: Menu, req: UpdateMenuRequest)
    ensures Merge(Merge(menu, req), req) == Merge(menu, req)
  {
  }

  /** The field-by-field update of the source: each provided field overwrites
      the loaded one. */
  method ApplyRequest(menu: Menu, req: UpdateMenuRequest) returns (m: Menu)
    ensures m == Merge(menu, req)
  {
    m := ApplyTexts(menu, req);
    m := ApplyChoices(m, req);
  }

  /** The first four assignments of the update: the text fields. */
  method ApplyTexts(menu: Menu, req: UpdateMenuRequest) returns (m: Menu)
    ensures m == menu.(name := Prefer(req.name, menu.name), url := Prefer(req.url, menu.url),
                       icon := Prefer(req.icon, menu.icon), description := Prefer(req.description, menu.description))
  {
    m := menu;
    if req.name != "" && req.name != m.name {
      m := m.(name := req.name);
    }
    if req.url != "" {
      m := m.(url := req.url);
    }
    if req.icon != "" {
      m := m.(icon := req.icon);
    }
    if req.description != "" {
      m := m.(description := req.description);
    }
  }

  /** The last three assignments of the update: parent, sequence, activity. */
  method ApplyChoices(menu: Menu, req: UpdateMenuRequest) returns (m: Menu)
    ensures m == menu.(parentId := if req.parentId.Some? then req.parentId else menu.parentId,
                       sequence := if req.sequence != 0 then req.sequence else menu.sequence,
                       isActive := if req.isActive.Some? then req.isActive.value else menu.isActive)
  {
    m := menu;
    if req.parentId.Some? {
      m := m.(parentId := req.parentId);
    }
    if req.sequence != 0 {
      m := m.(sequence := req.sequence);
    }
    if req.isActive.Some? {
      m := m.(isActive := req.isActive.value);
    }
  }



  /** Whether an update to `menu` is refused for its name: a new, non-empty
      name that some menu already holds. That menu is never `menu` itself,
      so the self-exclusion of the source needs no separate check. */
  predicate NameRefused(menus: seq<Menu>, menu: Menu, req: UpdateMenuRequest) {
    req.name != "" && req.name != menu.name && NameTaken(menus, req.name)
  }

  /** Update, over the corrected FindByID: unknown id, then name clash, then
      the save's unique and foreign keys, are errors that write nothing;
      otherwise the merged row is saved and returned reloaded. */
  method Update(db: Database, id: Uuid, req: UpdateMenuRequest) returns (r: Result<MenuResponse>)
    requires db.Valid()
    modifies db`menus
    ensures db.Valid()
    ensures !HasKey(old(db.menus), id, MenuId) ==> r == Err(ErrRecordNotFound) && db.menus == old(db.menus)
    ensures HasKey(old(db.menus), id, MenuId) ==>
              var menu := MenuRepository.FindByID(old(db.menus), id).value.menu;
              if NameRefused(old(db.menus), menu, req) then
                r == Err(ErrMenuNameExists) && db.menus == old(db.menus)
              else if HeldByOther(old(db.menus), Merge(menu, req), MenuId, MenuName) then
                r == Err(ErrDuplicateKey) && db.menus == old(db.menus)
              else if !MenuRepository.ParentStored(Upsert(old(db.menus), Merge(menu, req), MenuId), Merge(menu, req)) then
                r == Err(ErrForeignKey) && db.menus == old(db.menus)
              else
                db.menus == Upsert(old(db.menus), Merge(menu, req), MenuId)
                && r.Ok? && r == MenuById(db.menus, id)
    ensures UniqueNames(old(db.menus)) ==> UniqueNames(db.menus)
    ensures UniqueNames(old(db.menus)) && HasKey(old(db.menus), id, MenuId)
            && !NameRefused(old(db.menus), MenuRepository.FindByID(old(db.menus), id).value.menu, req)
            ==> r != Err(ErrDuplicateKey)
    ensures ParentsExist(old(db.menus)) ==> ParentsExist(db.menus)
  {
    var loaded := MenuRepository.FindByID(db.menus, id);
    if loaded.None? {
      return Err(ErrRecordNotFound);
    }
    var menu := loaded.value.menu;
    if req.name != "" && req.name != menu.name {
      var existing := MenuRepository.FindByName(db.menus, req.name);
      HolderIsOther(db.menus, MenuId, MenuName, menu, req.name);
      if existing.Some? && existing.value.id != id {
        return Err(ErrMenuNameExists);
      }
    }
    if req.name != "" && req.name != menu.name {
      assert !HasKey(db.menus, req.name, MenuName) by {
        assert forall i :: 0 <= i < |db.menus| ==> db.menus[i] in db.menus;
      }
    }
    menu := ApplyRequest(menu, req);
    r := SaveAndReload(db, loaded.value.menu, menu);
  }

  /** The end of Update: save the merged row `menu` of the stored `prev`
      and reload it; a failing save writes nothing. */
  method SaveAndReload(db: Database, prev: Menu, menu: Menu) returns (r: Result<MenuResponse>)
    requires db.Valid() && prev in db.menus && prev.id == menu.id
    requires menu.name == prev.name || !HasKey(db.menus, menu.name, MenuName)
    modifies db`menus
    ensures db.Valid()
    ensures if HeldByOther(old(db.menus), menu, MenuId, MenuName) then
              r == Err(ErrDuplicateKey) && db.menus == old(db.menus)
            else if !MenuRepository.ParentStored(Upsert(old(db.menus), menu, MenuId), menu) then
              r == Err(ErrForeignKey) && db.menus == old(db.menus)
            else
              db.menus == Upsert(old(db.menus), menu, MenuId) && r.Ok? && r == MenuById(db.menus, menu.id)
    ensures UniqueNames(old(db.menus)) ==> UniqueNames(db.menus) && r != Err(ErrDuplicateKey)
    ensures ParentsExist(old(db.menus)) ==> ParentsExist(db.menus)
  {
    ghost var before := db.menus;
    if UniqueNames(before) {
      NotHeldByOther(before, menu, MenuId, MenuName, prev);
    }
    if ParentsExist(before) && MenuRepository.ParentStored(Upsert(before, menu, MenuId), menu) {
      SaveKeepsParents(before, menu);
    }
    var err := MenuRepository.Update(db, menu);
    if err.Some? {
      return Err(err.value);
    }
    assert db.menus[IndexIn(db.menus, menu)].id == menu.id;
    r := GetByID(db, menu.id);
  }

  /** The position of a member of a sequence. */
  function IndexIn(ms: seq<Menu>, m: Menu): (i: nat)
    requires m in ms
    ensures i < |ms| && ms[i] == m
  {
    if ms[0] == m then 0 else 1 + IndexIn(ms[1..], m)
  }

  /** Delete: a missing menu and a menu with children are refused and
      nothing is deleted; otherwise the row is removed. */
  method Delete(db: Database, id: Uuid) returns (err: Option<string>)
    requires db.Valid()
    modifies db`menus
    ensures db.Valid()
    ensures !HasKey(old(db.menus), id, MenuId) ==> err == Some(ErrRecordNotFound) && db.menus == old(db.menus)
    ensures HasKey(old(db.menus), id, MenuId) && MenuRepository.ChildrenOf(old(db.menus), id) != []
            ==> err == Some(ErrMenuHasChildren) && db.menus == old(db.menus)
    ensures HasKey(old(db.menus), id, MenuId) && MenuRepository.ChildrenOf(old(db.menus), id) == []
            ==> err.None? && db.menus == RemoveKey(old(db.menus), id, MenuId)
    ensures ParentsExist(old(db.menus)) ==> ParentsExist(db.menus)
  {
    var loaded := MenuRepository.FindByID(db.menus, id);
    if loaded.None? {
      return Some(ErrRecordNotFound);
    }
    if |loaded.value.children| > 0 {
      return Some(ErrMenuHasChildren);
    }
    ghost var before := db.menus;
    MenuRepository.Delete(db, id);
    forall m | m in db.menus && m.parentId.Some? && ParentsExist(before)
      ensures exists p :: p in db.menus && p.id == m.parentId.value
    {
      var p :| p in before && p.id == m.parentId.value;
      assert m !in MenuRepository.ChildrenOf(before, id);
      assert p in db.menus;
    }
    return None;
  }

  /** Delete as written: the lookup loads no children, so the check for
      children never refuses and any stored menu is removed. */
  method DeleteAsWritten(db: Database, id: Uuid) returns (err: Option<string>)
    requires db.Valid()
    modifies db`menus
    ensures db.Valid()
    ensures !HasKey(old(db.menus), id, MenuId) ==> err == Some(ErrRecordNotFound) && db.menus == old(db.menus)
    ensures HasKey(old(db.menus), id, MenuId) ==> err.None? && db.menus == RemoveKey(old(db.menus), id, MenuId)
  {
    var loaded := MenuRepository.FindByIDAsWritten(db.menus, id);
    if loaded.None? {
      return Some(ErrRecordNotFound);
    }
    // The check for children sees the empty list the lookup returns.
    assert loaded.value.children == [];
    MenuRepository.Delete(db, id);
    return None;
  }

  /** As written, a menu with a child passes the check for children, and
      deleting it leaves the child naming a parent that is gone; the
      corrected lookup sees the child and refuses. */
  lemma DeleteOrphansAsWritten(menus: seq<Menu>, parent: Menu, child: Menu)
    requires parent in menus && child in menus
    requires child.parentId == Some(parent.id) && child.id != parent.id
    ensures MenuRepository.FindByIDAsWritten(menus, parent.id).Some?
    ensures MenuRepository.FindByIDAsWritten(menus, parent.id).value.children == []
    ensures !ParentsExist(RemoveKey(menus, parent.id, MenuId))
    ensures MenuRepository.FindByID(menus, parent.id).value.children != []
  {
    var after := RemoveKey(menus, parent.id, MenuId);
    assert child in after;
    assert child in MenuRepository.ChildrenOf(menus, parent.id);
  }
}
