/** The relational store behind the repositories: one table per entity and
    the two many-to-many join tables. Each table keeps its rows in insertion
    order. Gorm's First orders by primary key; the model approximates it by
    the first matching row in insertion order. */
module Store {
  import opened Common
  import opened Uuids
  import opened Entities

  /** The tables the authentication middleware reads, as one value. */
  datatype AuthTables = AuthTables(
    users: seq<User>,
    userRoles: seq<Link>,
    roles: seq<Role>,
    rolePermissions: seq<Link>,
    permissions: seq<Permission>,
    modelPermissions: seq<ModelPermission>)

  class Database {
    var users: seq<User>
    var userRoles: seq<Link>
    var roles: seq<Role>
    var rolePermissions: seq<Link>
    var permissions: seq<Permission>
    var modelPermissions: seq<ModelPermission>
    var userMetas: seq<UserMeta>
    /** The next value of the user_metas.id sequence. */
    var nextMetaId: nat
    var menus: seq<Menu>
    var settings: seq<Setting>

    /** Primary keys are unique in every table, a join row occurs at most
        once (the join tables' composite keys), and the user_metas sequence
        is past every id it has handed out. */
    ghost predicate Valid()
      reads this
    {
      && DistinctBy(users, UserId)
      && DistinctBy(roles, RoleId)
      && DistinctBy(permissions, PermissionId)
      && DistinctBy(modelPermissions, ModelPermissionId)
      && DistinctBy(userMetas, MetaId)
      && DistinctBy(menus, MenuId)
      && DistinctBy(settings, SettingKey)
      && NoRepeats(userRoles)
      && NoRepeats(rolePermissions)
      && (forall m :: m in userMetas ==> m.id < nextMetaId)
    }

    /** An empty schema. The first user_metas id is 1. */
    constructor ()
      ensures Valid()
      ensures users == [] && userRoles == [] && roles == [] && rolePermissions == []
      ensures permissions == [] && modelPermissions == [] && userMetas == []
      ensures menus == [] && settings == [] && nextMetaId == 1
    {
      users, userRoles, roles, rolePermissions := [], [], [], [];
      permissions, modelPermissions, userMetas := [], [], [];
      menus, settings, nextMetaId := [], [], 1;
    }

    function AuthSnapshot(): (t: AuthTables)
      reads this
      ensures t.users == users && t.userRoles == userRoles && t.roles == roles
      ensures t.rolePermissions == rolePermissions && t.permissions == permissions
      ensures t.modelPermissions == modelPermissions
    {
      AuthTables(users, userRoles, roles, rolePermissions, permissions, modelPermissions)
    }
  }

  /** gorm.ErrRecordNotFound: what First reports when no row matches. */
  const ErrRecordNotFound: string := "record not found"

  /** The error of a query that the database rejects or cannot run; which
      queries fail is a parameter of the operations. */
  const ErrQueryFailed: string := "query failed"

  /** The error a write reports when its primary key is already taken. */
  const ErrDuplicateKey: string := "duplicate key value violates unique constraint"

  /** Whether a row of `rows` has key `k`. */
  predicate HasKey<T, K(==)>(rows: seq<T>, k: K, key: T -> K) {
    exists i :: 0 <= i < |rows| && key(rows[i]) == k
  }

  /** Appending a row with a fresh key keeps keys distinct. */
  lemma AppendFresh<T, K>(rows: seq<T>, row: T, key: T -> K)
    requires DistinctBy(rows, key) && !HasKey(rows, key(row), key)
    ensures DistinctBy(rows + [row], key)
  {
    var r := rows + [row];
    forall i, j | 0 <= i < j < |r| ensures key(r[i]) != key(r[j]) {
      if j < |rows| {
        assert r[i] == rows[i] && r[j] == rows[j];
      } else {
        assert r[i] == rows[i];
      }
    }
  }

  /** Saving a row in place of `prev` keeps a second key (a unique column)
      distinct when the row keeps prev's value or takes a value no row has. */
  lemma UpsertKeepsUnique<T(!new), K, F>(rows: seq<T>, row: T, key: T -> K, field: T -> F, prev: T)
    requires DistinctBy(rows, key) && prev in rows && key(prev) == key(row)
    requires field(row) == field(prev) || !HasKey(rows, field(row), field)
    requires DistinctBy(rows, field)
    ensures DistinctBy(Upsert(rows, row, key), field)
  {
    var r := Upsert(rows, row, key);
    forall i, j | 0 <= i < j < |r| ensures field(r[i]) != field(r[j]) {
      assert key(r[i]) != key(r[j]);
      assert r[i] in r && r[j] in r;
      if r[i] != row && r[j] != row {
        OtherRowOtherKey(rows, field, r[i], r[j]);
      } else if r[i] == row {
        assert r[j] != prev;
        if field(row) != field(prev) {
          var k :| 0 <= k < |rows| && rows[k] == r[j];
        } else {
          OtherRowOtherKey(rows, field, prev, r[j]);
        }
      } else {
        assert r[i] != prev;
        if field(row) != field(prev) {
          var k :| 0 <= k < |rows| && rows[k] == r[i];
        } else {
          OtherRowOtherKey(rows, field, prev, r[i]);
        }
      }
    }
  }

  /** No two users share an email or a username (the unique indexes of the
      users table). */
  predicate UniqueLogins(users: seq<User>) {
    DistinctBy(users, Email) && DistinctBy(users, Username)
  }

  /** Inserting a user whose email and username nobody has keeps them unique. */
  lemma AppendNewLogin(users: seq<User>, u: User)
    requires UniqueLogins(users)
    requires forall x :: x in users ==> x.email != u.email && x.username != u.username
    ensures UniqueLogins(users + [u])
  {
    assert !HasKey(users, u.email, Email) && !HasKey(users, u.username, Username) by {
      forall i | 0 <= i < |users| ensures users[i].email != u.email && users[i].username != u.username {
        assert users[i] in users;
      }
    }
    AppendFresh(users, u, Email);
    AppendFresh(users, u, Username);
  }

  /** Among rows with distinct keys, a row with a different value in another
      column has a different key: a name `row` does not have is held, if at
      all, by another row. */
  lemma HolderIsOther<T, K, F>(rows: seq<T>, key: T -> K, field: T -> F, row: T, v: F)
    requires DistinctBy(rows, key) && row in rows && v != field(row)
    ensures forall x :: x in rows && field(x) == v ==> key(x) != key(row)
  {
    forall x | x in rows && field(x) == v ensures key(x) != key(row) {
      if key(x) == key(row) {
        KeyedUnique(rows, key, x, row);
      }
    }
  }

  /** Among rows with distinct keys, two different rows have different keys. */
  lemma OtherRowOtherKey<T, F>(rows: seq<T>, field: T -> F, x: T, y: T)
    requires DistinctBy(rows, field) && x in rows && y in rows && x != y
    ensures field(x) != field(y)
  {
    var i :| 0 <= i < |rows| && rows[i] == x;
    var j :| 0 <= j < |rows| && rows[j] == y;
    if i < j {
      assert field(rows[i]) != field(rows[j]);
    } else {
      assert field(rows[j]) != field(rows[i]);
    }
  }

  // ---------------------------------------------------------------------------
  // Many-to-many association rows

  /** The roles joined to `userId` through user_roles, in table order. */
  function RolesOfUser(userRoles: seq<Link>, roles: seq<Role>, userId: Uuid): (r: seq<Role>)
    ensures forall x :: x in r <==> x in roles && Link(userId, x.id) in userRoles
    ensures DistinctBy(roles, RoleId) ==> DistinctBy(r, RoleId)
  {
    var linked := (x: Role) => Link(userId, x.id) in userRoles;
    var r := Filter(roles, linked);
    if DistinctBy(roles, RoleId) then FilterDistinct(roles, linked, RoleId); r else r
  }

  /** Whether some role of `roleIds` is joined to the permission `p`. */
  predicate GrantedToAny(rolePermissions: seq<Link>, roleIds: seq<Uuid>, p: Permission) {
    exists rid :: rid in roleIds && Link(rid, p.id) in rolePermissions
  }

  /** The permissions joined to any of `roleIds` through role_permissions:
      each permission once (the query groups by permissions.id), in table order. */
  function PermissionsOfRoles(rolePermissions: seq<Link>, permissions: seq<Permission>, roleIds: seq<Uuid>): (r: seq<Permission>)
    ensures forall p :: p in r <==> p in permissions && GrantedToAny(rolePermissions, roleIds, p)
    ensures DistinctBy(permissions, PermissionId) ==> DistinctBy(r, PermissionId)
  {
    var linked := (p: Permission) => GrantedToAny(rolePermissions, roleIds, p);
    var r := Filter(permissions, linked);
    if DistinctBy(permissions, PermissionId) then FilterDistinct(permissions, linked, PermissionId); r else r
  }

  /** The join rows gorm's Append adds for `owner`: one per distinct target,
      in the order given; rows already present are left alone. */
  function NewLinks(existing: seq<Link>, owner: Uuid, targets: seq<Uuid>): (r: seq<Link>)
    ensures forall l :: l in r <==> l.owner == owner && l.target in targets && l !in existing
    ensures NoRepeats(r)
    decreases |targets|
  {
    if |targets| == 0 then []
    else
      var front := NewLinks(existing, owner, targets[..|targets| - 1]);
      var l := Link(owner, targets[|targets| - 1]);
      assert forall t :: t in targets <==> t in targets[..|targets| - 1] || t == targets[|targets| - 1];
      if l in existing || l in front then front else front + [l]
  }

  // ---------------------------------------------------------------------------
  // Association rows given by id alone

  /** The error of a join row that names no stored row, which the join
      tables' foreign keys (created by AutoMigrate) refuse. */
  const ErrForeignKey: string := "insert or update violates foreign key constraint"

  /** Whether `stub` builds the row gorm saves for an associated entity given
      by its id alone: the id set and every other column zero, so the unique
      name blank. */
  predicate StubShape<T>(key: T -> Uuid, name: T -> string, stub: Uuid -> T) {
    forall id :: key(stub(id)) == id && name(stub(id)) == ""
  }

  /** The table after gorm saves the stubs of `ids`, one after the other,
      with INSERT ... ON CONFLICT DO NOTHING: a stub whose id is stored is
      skipped, and so is one whose name is already held, the name column
      being unique. */
  function StubInsert<T>(rows: seq<T>, ids: seq<Uuid>, key: T -> Uuid, name: T -> string, stub: Uuid -> T): seq<T>
    decreases |ids|
  {
    if |ids| == 0 then rows
    else
      var t := StubInsert(rows, ids[..|ids| - 1], key, name, stub);
      var id := ids[|ids| - 1];
      if HasKey(t, id, key) || HasKey(t, name(stub(id)), name) then t else t + [stub(id)]
  }

  /** The first of `ids` that names no row of `rows`. */
  function FirstUnknown<T>(rows: seq<T>, ids: seq<Uuid>, key: T -> Uuid): (r: Option<Uuid>)
    ensures r.None? <==> forall id :: id in ids ==> HasKey(rows, id, key)
    ensures r.Some? ==> exists i :: 0 <= i < |ids| && ids[i] == r.value && !HasKey(rows, ids[i], key)
                                    && forall j :: 0 <= j < i ==> HasKey(rows, ids[j], key)
    decreases |ids|
  {
    if |ids| == 0 then None
    else
      var front := ids[..|ids| - 1];
      assert forall id :: id in ids <==> id in front || id == ids[|ids| - 1];
      var f := FirstUnknown(rows, front, key);
      if f.Some? then
        assert forall i :: 0 <= i < |front| ==> front[i] == ids[i];
        f
      else if HasKey(rows, ids[|ids| - 1], key) then None
      else
        assert forall j :: 0 <= j < |ids| - 1 ==> ids[j] in front;
        Some(ids[|ids| - 1])
  }

  /** Saving the stubs adds at most one row: the stub of the first unknown
      id, and only when no row holds the blank name; every later stub is
      skipped, on its id or on the blank name the first one took. */
  lemma {:induction false} StubInsertOnce<T>(rows: seq<T>, ids: seq<Uuid>, key: T -> Uuid, name: T -> string, stub: Uuid -> T)
    requires StubShape(key, name, stub)
    ensures StubInsert(rows, ids, key, name, stub)
            == if FirstUnknown(rows, ids, key).Some? && !HasKey(rows, "", name)
               then rows + [stub(FirstUnknown(rows, ids, key).value)] else rows
    decreases |ids|
  {
    if |ids| > 0 {
      var front := ids[..|ids| - 1];
      var id := ids[|ids| - 1];
      StubInsertOnce(rows, front, key, name, stub);
      var f := FirstUnknown(rows, front, key);
      if f.Some? && !HasKey(rows, "", name) {
        var t := rows + [stub(f.value)];
        assert name(t[|rows|]) == name(stub(id));
      } else if HasKey(rows, "", name) {
        assert name(stub(id)) == "";
      }
    }
  }

  /** A row of `rows + [x]` has key `k` exactly when one of `rows` has or `x` has. */
  lemma HasKeyAppend<T, K>(rows: seq<T>, x: T, k: K, key: T -> K)
    ensures HasKey(rows + [x], k, key) <==> HasKey(rows, k, key) || key(x) == k
  {
    var r := rows + [x];
    if HasKey(rows, k, key) {
      var i :| 0 <= i < |rows| && key(rows[i]) == k;
      assert r[i] == rows[i];
    }
    if HasKey(r, k, key) {
      var i :| 0 <= i < |r| && key(r[i]) == k;
      if i < |rows| { assert r[i] == rows[i]; }
    }
    if key(x) == k { assert r[|rows|] == x; }
  }

  /** Once the stubs are saved, every id names a row exactly when at most
      one distinct id was unknown, and, if one was, no row held the blank
      name its stub needs: two distinct unknown ids, or one while a row has
      the blank name, leave a join row that names no row. */
  lemma StubsResolve<T>(rows: seq<T>, ids: seq<Uuid>, key: T -> Uuid, name: T -> string, stub: Uuid -> T)
    requires StubShape(key, name, stub)
    ensures (forall id :: id in ids ==> HasKey(StubInsert(rows, ids, key, name, stub), id, key))
            <==> (&& (forall a, b :: a in ids && b in ids && !HasKey(rows, a, key) && !HasKey(rows, b, key) ==> a == b)
                  && ((exists a :: a in ids && !HasKey(rows, a, key)) ==> !HasKey(rows, "", name)))
  {
    StubInsertOnce(rows, ids, key, name, stub);
    var f := FirstUnknown(rows, ids, key);
    if f.Some? {
      var u := f.value;
      assert u in ids && !HasKey(rows, u, key);
      forall id | id in ids ensures HasKey(rows + [stub(u)], id, key) <==> HasKey(rows, id, key) || id == u {
        HasKeyAppend(rows, stub(u), id, key);
      }
      if HasKey(rows, "", name) {
        assert !HasKey(rows, u, key);
      }
    }
  }

  /** Saving the stubs keeps the primary keys and the names unique. */
  lemma StubInsertDistinct<T>(rows: seq<T>, ids: seq<Uuid>, key: T -> Uuid, name: T -> string, stub: Uuid -> T)
    requires StubShape(key, name, stub)
    ensures DistinctBy(rows, key) ==> DistinctBy(StubInsert(rows, ids, key, name, stub), key)
    ensures DistinctBy(rows, name) ==> DistinctBy(StubInsert(rows, ids, key, name, stub), name)
  {
    StubInsertOnce(rows, ids, key, name, stub);
    var f := FirstUnknown(rows, ids, key);
    if f.Some? && !HasKey(rows, "", name) {
      var s := stub(f.value);
      assert key(s) == f.value && name(s) == "";
      if DistinctBy(rows, key) { AppendFresh(rows, s, key); }
      if DistinctBy(rows, name) { AppendFresh(rows, s, name); }
    }
  }

  /** Whether the join rows Append inserts for `ids` satisfy the join
      table's foreign keys: the owner is stored, when there is a row to
      insert, and every id names a row of `targets`, the table once the
      stubs are saved. */
  predicate Linkable<T>(ownerStored: bool, targets: seq<T>, ids: seq<Uuid>, key: T -> Uuid) {
    (|ids| == 0 || ownerStored) && forall id :: id in ids ==> HasKey(targets, id, key)
  }

  /** Whether a row other than `row` (one of another key) holds row's value
      of the unique column `field`: the conflict that makes Save fail. */
  predicate HeldByOther<T, K(==), F(==)>(rows: seq<T>, row: T, key: T -> K, field: T -> F) {
    exists i :: 0 <= i < |rows| && field(rows[i]) == field(row) && key(rows[i]) != key(row)
  }

  /** A Save that meets no conflict on the unique column keeps it unique. */
  lemma UpsertUnique<T(!new), K, F>(rows: seq<T>, row: T, key: T -> K, field: T -> F)
    requires DistinctBy(rows, key) && DistinctBy(rows, field) && !HeldByOther(rows, row, key, field)
    ensures DistinctBy(Upsert(rows, row, key), field)
  {
    if exists i :: 0 <= i < |rows| && key(rows[i]) == key(row) {
      var i :| 0 <= i < |rows| && key(rows[i]) == key(row);
      var prev := rows[i];
      UpsertKeepsUnique(rows, row, key, field, prev);
    } else {
      assert !HasKey(rows, field(row), field);
      AppendFresh(rows, row, field);
    }
  }

  /** While a column is unique, a Save of a stored row that keeps its value
      of the column, or moves to a value no row holds, meets no conflict. */
  lemma NotHeldByOther<T, K, F>(rows: seq<T>, row: T, key: T -> K, field: T -> F, prev: T)
    requires DistinctBy(rows, key) && DistinctBy(rows, field)
    requires prev in rows && key(prev) == key(row)
    requires field(row) == field(prev) || !HasKey(rows, field(row), field)
    ensures !HeldByOther(rows, row, key, field)
  {
    if field(row) == field(prev) {
      forall i | 0 <= i < |rows| && field(rows[i]) == field(row) ensures key(rows[i]) == key(row) {
        KeyedUnique(rows, field, rows[i], prev);
      }
    }
  }

  /** Removing rows keeps a unique column unique. */
  lemma RemoveKeyUnique<T(!new), K, F>(rows: seq<T>, k: K, key: T -> K, field: T -> F)
    requires DistinctBy(rows, field)
    ensures DistinctBy(RemoveKey(rows, k, key), field)
  {
    FilterDistinct(rows, KeyIsNot(key, k), field);
  }

  /** The association of `owner` replaced by `targets`: Clear removes every
      join row of the owner, then Append adds one per distinct target. */
  function ReplaceTargets(links: seq<Link>, owner: Uuid, targets: seq<Uuid>): (r: seq<Link>)
    ensures forall t :: Link(owner, t) in r <==> t in targets
    ensures forall o, t :: o != owner ==> (Link(o, t) in r <==> Link(o, t) in links)
  {
    var kept := Filter(links, (l: Link) => l.owner != owner);
    kept + NewLinks(kept, owner, targets)
  }

  /** Replacing keeps every join row unique. */
  lemma ReplaceTargetsNoRepeats(links: seq<Link>, owner: Uuid, targets: seq<Uuid>)
    requires NoRepeats(links)
    ensures NoRepeats(ReplaceTargets(links, owner, targets))
  {
    var keep := (l: Link) => l.owner != owner;
    var kept := Filter(links, keep);
    var added := NewLinks(kept, owner, targets);
    var id := (l: Link) => l;
    assert DistinctBy(links, id);
    FilterDistinct(links, keep, id);
    var r := kept + added;
    forall i, j | 0 <= i < j < |r| ensures r[i] != r[j] {
      if j < |kept| {
        assert id(kept[i]) != id(kept[j]);
      } else if i >= |kept| {
        assert r[i] == added[i - |kept|] && r[j] == added[j - |kept|];
      } else {
        assert r[i] in kept && r[j] in added;
      }
    }
  }
}
