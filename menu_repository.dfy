/** The menu store the menu use case reads and writes
    (domain/repositories/menu_repository.go), on the menus table. A loaded
    menu comes with its parent and its children, as the use case expects. */
module MenuRepository {
  import opened Common
  import opened Uuids
  import opened Entities
  import opened Pagination
  import opened Store

  /** The menus whose parent is `id`, in table order. */
  function ChildrenOf(menus: seq<Menu>, id: Uuid): (r: seq<Menu>)
    ensures forall m :: m in r <==> m in menus && m.parentId == Some(id)
  {
    Filter(menus, (m: Menu) => m.parentId == Some(id))
  }

  /** A menu with its parent and children loaded. */
  function Load(menus: seq<Menu>, m: Menu): (v: MenuView)
    ensures v.menu == m
    ensures v.children == ChildrenOf(menus, m.id)
    ensures m.parentId.None? ==> v.parent.None?
    ensures v.parent.Some? ==> v.parent.value in menus && Some(v.parent.value.id) == m.parentId
  {
    var parent := match m.parentId
      case None => None
      case Some(pid) => FindFirst(menus, (x: Menu) => x.id == pid);
    MenuView(m, parent, ChildrenOf(menus, m.id))
  }

  /** FindByID. */
  function FindByID(menus: seq<Menu>, id: Uuid): (r: Option<MenuView>)
    ensures r.Some? ==> r.value.menu in menus && r.value.menu.id == id
    ensures r.Some? ==> r.value == Load(menus, r.value.menu)
    ensures r.None? <==> forall m :: m in menus ==> m.id != id
  {
    match FindFirst(menus, (m: Menu) => m.id == id)
    case None => None
    case Some(m) => Some(Load(menus, m))
  }

  /** FindByID as written: `First` with no Preload, so the menu comes back
      without its parent and with no children, whatever the table holds. */
  function FindByIDAsWritten(menus: seq<Menu>, id: Uuid): (r: Option<MenuView>)
    ensures r.Some? ==> r.value.menu in menus && r.value.menu.id == id
    ensures r.Some? ==> r.value.parent.None? && r.value.children == []
    ensures r.None? <==> forall m :: m in menus ==> m.id != id
  {
    match FindFirst(menus, (m: Menu) => m.id == id)
    case None => None
    case Some(m) => Some(MenuView(m, None, []))
  }

  /** FindByName: the first menu with that name. */
  function FindByName(menus: seq<Menu>, name: string): (r: Option<Menu>)
    ensures r.Some? ==> r.value in menus && r.value.name == name
    ensures r.Some? ==> exists k :: 0 <= k < |menus| && menus[k] == r.value && forall j :: 0 <= j < k ==> menus[j].name != name
    ensures r.None? <==> forall m :: m in menus ==> m.name != name
  {
    FindFirst(menus, (m: Menu) => m.name == name)
  }

  /** FindAll: one page of menus and the row count. */
  function FindAll(menus: seq<Menu>, page: int, pageSize: int): (r: Paged<Menu>)
    ensures r.total == |menus| && r.items == PageOf(menus, page, pageSize)
    ensures pageSize >= 0 ==> |r.items| <= pageSize
  {
    Paged(PageOf(menus, page, pageSize), |menus|)
  }

  /** Whether a menu sequence is in ascending `sequence` order. */
  predicate BySequence(ms: seq<Menu>) {
    forall i, j :: 0 <= i < j < |ms| ==> ms[i].sequence <= ms[j].sequence
  }

  /** `m` put in front of the first entry of larger sequence. */
  function InsertBySequence(m: Menu, ms: seq<Menu>): (r: seq<Menu>)
    ensures multiset(r) == multiset(ms) + multiset{m}
    ensures |r| == |ms| + 1
    ensures forall x :: x in r <==> x == m || x in ms
  {
    if |ms| == 0 then [m]
    else if m.sequence <= ms[0].sequence then [m] + ms
    else
      assert ms == [ms[0]] + ms[1..];
      [ms[0]] + InsertBySequence(m, ms[1..])
  }

  /** A sorted sequence stays sorted behind an entry no larger than any of it. */
  lemma PrependSorted(a: Menu, rest: seq<Menu>)
    requires BySequence(rest)
    requires forall x :: x in rest ==> a.sequence <= x.sequence
    ensures BySequence([a] + rest)
  {
    var r := [a] + rest;
    forall i, j | 0 <= i < j < |r| ensures r[i].sequence <= r[j].sequence {
      assert r[j] == rest[j - 1];
      if i > 0 {
        assert r[i] == rest[i - 1];
      }
    }
  }

  /** Inserting into a sorted sequence keeps it sorted. */
  lemma {:induction false} InsertSorted(m: Menu, ms: seq<Menu>)
    requires BySequence(ms)
    ensures BySequence(InsertBySequence(m, ms))
  {
    if |ms| == 0 {
    } else if m.sequence <= ms[0].sequence {
      PrependSorted(m, ms);
    } else {
      var tail := ms[1..];
      var rest := InsertBySequence(m, tail);
      assert BySequence(tail);
      InsertSorted(m, tail);
      forall x | x in rest ensures ms[0].sequence <= x.sequence {
        if x != m {
          var k :| 0 <= k < |tail| && tail[k] == x;
          assert x == ms[k + 1];
        }
      }
      PrependSorted(ms[0], rest);
    }
  }

  /** The rows sorted by `sequence`, equal sequences in table order. */
  function SortBySequence(ms: seq<Menu>): (r: seq<Menu>)
    ensures multiset(r) == multiset(ms)
  {
    if |ms| == 0 then []
    else
      assert ms == [ms[0]] + ms[1..];
      InsertBySequence(ms[0], SortBySequence(ms[1..]))
  }

  /** Sorting keeps exactly the rows it was given. */
  lemma SortKeepsRows(ms: seq<Menu>)
    ensures forall m :: m in SortBySequence(ms) <==> m in ms
  {
    var r := SortBySequence(ms);
    forall m ensures m in r <==> m in ms {
      assert m in r <==> m in multiset(r);
      assert m in ms <==> m in multiset(ms);
    }
  }

  lemma {:induction false} SortSorted(ms: seq<Menu>)
    ensures BySequence(SortBySequence(ms))
  {
    if |ms| > 0 {
      SortSorted(ms[1..]);
      InsertSorted(ms[0], SortBySequence(ms[1..]));
    }
  }

  /** FindAllActive: the active menus ordered by `sequence`. */
  function FindAllActive(menus: seq<Menu>): (r: seq<Menu>)
    ensures BySequence(r)
    ensures multiset(r) == multiset(Filter(menus, (m: Menu) => m.isActive))
    ensures forall m :: m in r <==> m in menus && m.isActive
  {
    var active := Filter(menus, (m: Menu) => m.isActive);
    var r := SortBySequence(active);
    SortSorted(active);
    SortKeepsRows(active);
    r
  }

  /** Whether the parent reference of `m` names a menu of `menus`: the
      foreign key parent_id carries as the key of the Children association. */
  predicate ParentStored(menus: seq<Menu>, m: Menu) {
    m.parentId.None? || HasKey(menus, m.parentId.value, MenuId)
  }

  /** Create: inserts the menu. An id or a name already in the table (both
      columns are unique) is a duplicate-key error; a parent that is not a
      stored menu, nor the new menu itself, is a foreign-key error. Neither
      writes anything. */
  method Create(db: Database, m: Menu) returns (err: Option<string>)
    requires db.Valid()
    modifies db`menus
    ensures db.Valid()
    ensures err.Some? <==> HasKey(old(db.menus), m.id, MenuId) || HasKey(old(db.menus), m.name, MenuName)
                           || !ParentStored(old(db.menus) + [m], m)
    ensures HasKey(old(db.menus), m.id, MenuId) || HasKey(old(db.menus), m.name, MenuName) ==> err == Some(ErrDuplicateKey)
    ensures !HasKey(old(db.menus), m.id, MenuId) && !HasKey(old(db.menus), m.name, MenuName) && err.Some?
            ==> err == Some(ErrForeignKey)
    ensures err.Some? ==> db.menus == old(db.menus)
    ensures err.None? ==> db.menus == old(db.menus) + [m]
    ensures DistinctBy(old(db.menus), MenuName) ==> DistinctBy(db.menus, MenuName)
  {
    if HasKey(db.menus, m.id, MenuId) || HasKey(db.menus, m.name, MenuName) {
      return Some(ErrDuplicateKey);
    }
    if !ParentStored(db.menus + [m], m) {
      return Some(ErrForeignKey);
    }
    AppendFresh(db.menus, m, MenuId);
    if DistinctBy(db.menus, MenuName) {
      AppendFresh(db.menus, m, MenuName);
    }
    db.menus := db.menus + [m];
    return None;
  }

  /** Update: Save by primary key. A name another menu holds is a
      duplicate-key error, a parent that is not a stored menu a
      foreign-key error; neither writes anything. */
  method Update(db: Database, m: Menu) returns (err: Option<string>)
    requires db.Valid()
    modifies db`menus
    ensures db.Valid()
    ensures err.Some? <==> HeldByOther(old(db.menus), m, MenuId, MenuName) || !ParentStored(Upsert(old(db.menus), m, MenuId), m)
    ensures HeldByOther(old(db.menus), m, MenuId, MenuName) ==> err == Some(ErrDuplicateKey)
    ensures !HeldByOther(old(db.menus), m, MenuId, MenuName) && err.Some? ==> err == Some(ErrForeignKey)
    ensures err.Some? ==> db.menus == old(db.menus)
    ensures err.None? ==> db.menus == Upsert(old(db.menus), m, MenuId)
    ensures DistinctBy(old(db.menus), MenuName) ==> DistinctBy(db.menus, MenuName)
  {
    if exists i :: 0 <= i < |db.menus| && MenuName(db.menus[i]) == MenuName(m) && MenuId(db.menus[i]) != MenuId(m) {
      return Some(ErrDuplicateKey);
    }
    if !ParentStored(Upsert(db.menus, m, MenuId), m) {
      return Some(ErrForeignKey);
    }
    if DistinctBy(db.menus, MenuName) {
      UpsertUnique(db.menus, m, MenuId, MenuName);
    }
    db.menus := Upsert(db.menus, m, MenuId);
    return None;
  }

  /** Delete: removes the menu with that id. */
  method Delete(db: Database, id: Uuid)
    requires db.Valid()
    modifies db`menus
    ensures db.Valid()
    ensures db.menus == RemoveKey(old(db.menus), id, MenuId)
  {
    db.menus := RemoveKey(db.menus, id, MenuId);
  }

  // ---------------------------------------------------------------------------
  // The menu joins behind the privilege lists

  /** Whether a menu is listed in navigation: active and visible. */
  predicate Listed(m: Menu) {
    m.isActive && m.isVisible
  }

  /** menus INNER JOIN model_permissions ON menus.id = model_id, restricted
      to grants that satisfy `keep` and to listed menus: one menu per
      matching grant, in grant order, so a menu with several grants comes
      back several times. */
  function JoinedMenus(menus: seq<Menu>, grants: seq<ModelPermission>, keep: ModelPermission -> bool): (r: seq<Menu>)
    ensures forall m :: m in r ==> m in menus && Listed(m) && exists g :: g in grants && keep(g) && g.modelId == m.id
    ensures DistinctBy(menus, MenuId) ==>
              forall m :: m in menus && Listed(m) && (exists g :: g in grants && keep(g) && g.modelId == m.id) ==> m in r
  {
    if |grants| == 0 then []
    else
      var rest := JoinedMenus(menus, grants[1..], keep);
      var g := grants[0];
      assert forall x :: x in grants <==> x == g || x in grants[1..];
      var hit := FindFirst(menus, (m: Menu) => m.id == g.modelId);
      if hit.None? then rest
      else
        SameIdSameMenu(menus, hit.value);
        if keep(g) && Listed(hit.value) then [hit.value] + rest else rest
  }

  /** Among menus with distinct ids, an id names one menu. */
  lemma SameIdSameMenu(menus: seq<Menu>, x: Menu)
    requires x in menus
    ensures DistinctBy(menus, MenuId) ==> forall m :: m in menus && m.id == x.id ==> m == x
  {
    if DistinctBy(menus, MenuId) {
      forall m | m in menus && m.id == x.id ensures m == x {
        KeyedUnique(menus, MenuId, m, x);
      }
    }
  }

  /** MenuBySuperUser: every listed menu that some grant names, once per
      such grant, ordered by sequence. */
  function MenuBySuperUser(menus: seq<Menu>, grants: seq<ModelPermission>): (r: seq<Menu>)
    ensures BySequence(r)
    ensures forall m :: m in r ==> m in menus && Listed(m) && exists g :: g in grants && g.modelId == m.id
    ensures DistinctBy(menus, MenuId) ==>
              forall m :: m in menus && Listed(m) && (exists g :: g in grants && g.modelId == m.id) ==> m in r
  {
    var joined := JoinedMenus(menus, grants, (g: ModelPermission) => true);
    var r := SortBySequence(joined);
    SortSorted(joined);
    SortKeepsRows(joined);
    r
  }

  /** Whether a grant makes a menu visible to a role: a "menu" grant of one
      of the role's permissions. */
  predicate MenuGrantOf(rolePermissions: seq<Link>, roleId: Uuid, g: ModelPermission) {
    g.modelType == ModelTypeMenu && Link(roleId, g.permissionId) in rolePermissions
  }

  /** FindMenusByRoleID: the listed menus granted to one of the role's
      permissions, once per grant, ordered by sequence. */
  function FindMenusByRoleID(menus: seq<Menu>, grants: seq<ModelPermission>, rolePermissions: seq<Link>, roleId: Uuid): (r: seq<Menu>)
    ensures BySequence(r)
    ensures forall m :: m in r ==>
              m in menus && Listed(m) && exists g :: g in grants && MenuGrantOf(rolePermissions, roleId, g) && g.modelId == m.id
    ensures DistinctBy(menus, MenuId) ==>
              forall m :: (m in menus && Listed(m) &&
                           exists g :: g in grants && MenuGrantOf(rolePermissions, roleId, g) && g.modelId == m.id) ==> m in r
  {
    var keep := (g: ModelPermission) => MenuGrantOf(rolePermissions, roleId, g);
    var joined := JoinedMenus(menus, grants, keep);
    var r := SortBySequence(joined);
    SortSorted(joined);
    SortKeepsRows(joined);
    r
  }
}
