/** The user repository (domain/repositories/user_repository.go). Every
    lookup preloads the user's roles. */
module UserRepository {
  import opened Common
  import opened Uuids
  import opened Entities
  import opened Pagination
  import opened Store
  import RoleRepository

  /** A user with Roles preloaded. */
  function WithRoles(userRoles: seq<Link>, roles: seq<Role>, u: User): (v: UserView)
    ensures v.user == u
    ensures forall r :: r in v.roles <==> r in roles && Link(u.id, r.id) in userRoles
  {
    UserView(u, RolesOfUser(userRoles, roles, u.id))
  }

  /** The first user satisfying `p`, with its roles. */
  function FindUser(users: seq<User>, userRoles: seq<Link>, roles: seq<Role>, p: User -> bool): (r: Option<UserView>)
    ensures r.Some? ==> r.value.user in users && p(r.value.user)
    ensures r.Some? ==> r.value == WithRoles(userRoles, roles, r.value.user)
    ensures r.Some? ==> exists k :: 0 <= k < |users| && users[k] == r.value.user && forall j :: 0 <= j < k ==> !p(users[j])
    ensures r.None? <==> forall u :: u in users ==> !p(u)
  {
    match FindFirst(users, p)
    case None => None
    case Some(u) => Some(WithRoles(userRoles, roles, u))
  }

  /** FindByID. */
  function FindByID(users: seq<User>, userRoles: seq<Link>, roles: seq<Role>, id: Uuid): (r: Option<UserView>)
    ensures r.Some? ==> r.value.user in users && r.value.user.id == id
    ensures r.Some? ==> r.value == WithRoles(userRoles, roles, r.value.user)
    ensures r.None? <==> forall u :: u in users ==> u.id != id
  {
    FindUser(users, userRoles, roles, (u: User) => u.id == id)
  }

  /** FindByEmail: the first user with that email. */
  function FindByEmail(users: seq<User>, userRoles: seq<Link>, roles: seq<Role>, email: string): (r: Option<UserView>)
    ensures r.Some? ==> r.value.user in users && r.value.user.email == email
    ensures r.Some? ==> r.value == WithRoles(userRoles, roles, r.value.user)
    ensures r.Some? ==> exists k :: 0 <= k < |users| && users[k] == r.value.user
                                    && forall j :: 0 <= j < k ==> users[j].email != email
    ensures r.None? <==> forall u :: u in users ==> u.email != email
  {
    FindUser(users, userRoles, roles, (u: User) => u.email == email)
  }

  /** FindByUsername: the first user with that username. */
  function FindByUsername(users: seq<User>, userRoles: seq<Link>, roles: seq<Role>, username: string): (r: Option<UserView>)
    ensures r.Some? ==> r.value.user in users && r.value.user.username == username
    ensures r.Some? ==> r.value == WithRoles(userRoles, roles, r.value.user)
    ensures r.Some? ==> exists k :: 0 <= k < |users| && users[k] == r.value.user
                                    && forall j :: 0 <= j < k ==> users[j].username != username
    ensures r.None? <==> forall u :: u in users ==> u.username != username
  {
    FindUser(users, userRoles, roles, (u: User) => u.username == username)
  }

  /** In a table with unique ids, FindByID finds exactly the stored user. */
  lemma FindByIDStored(users: seq<User>, userRoles: seq<Link>, roles: seq<Role>, u: User)
    requires DistinctBy(users, UserId) && u in users
    ensures FindByID(users, userRoles, roles, u.id) == Some(WithRoles(userRoles, roles, u))
  {
    var r := FindByID(users, userRoles, roles, u.id);
    var i :| 0 <= i < |users| && users[i] == u;
    var j :| 0 <= j < |users| && users[j] == r.value.user;
    assert UserId(users[i]) == UserId(users[j]);
  }

  /** FindAll: one page of users with their roles, and the row count. */
  function FindAll(users: seq<User>, userRoles: seq<Link>, roles: seq<Role>, page: int, pageSize: int): (r: Paged<UserView>)
    ensures r.total == |users|
    ensures |r.items| == |PageOf(users, page, pageSize)|
    ensures forall i :: 0 <= i < |r.items| ==> r.items[i] == WithRoles(userRoles, roles, PageOf(users, page, pageSize)[i])
  {
    var rows := PageOf(users, page, pageSize);
    Paged(seq(|rows|, i requires 0 <= i < |rows| => WithRoles(userRoles, roles, rows[i])), |users|)
  }

  /** The row gorm saves for a role given by its id alone. */
  function RoleStub(id: Uuid): Role {
    Role(id, "", "")
  }

  /** The roles table once the stubs of `ids` are saved: the stub of the
      first unknown id is added, blank-named, unless a role already has the
      blank name. */
  function StubbedRoles(roles: seq<Role>, ids: seq<Uuid>): (r: seq<Role>)
    ensures var f := FirstUnknown(roles, ids, RoleId);
            r == if f.Some? && !HasKey(roles, "", RoleName) then roles + [RoleStub(f.value)] else roles
    ensures DistinctBy(roles, RoleId) ==> DistinctBy(r, RoleId)
    ensures DistinctBy(roles, RoleName) ==> DistinctBy(r, RoleName)
  {
    assert StubShape(RoleId, RoleName, RoleStub);
    StubInsertOnce(roles, ids, RoleId, RoleName, RoleStub);
    StubInsertDistinct(roles, ids, RoleId, RoleName, RoleStub);
    StubInsert(roles, ids, RoleId, RoleName, RoleStub)
  }

  /** Whether user_roles rows for `ids` meet both foreign keys: the user is
      stored (`userStored`) when any row is inserted, and every id names a
      role once the stubs are saved. */
  predicate RolesLinkable(roles: seq<Role>, userStored: bool, ids: seq<Uuid>) {
    Linkable(userStored, StubbedRoles(roles, ids), ids, RoleId)
  }

  /** The foreign keys hold exactly when the user is stored (if any id is
      given), at most one distinct id names no role, and, if one does, no
      role already has the blank name. */
  lemma RolesLinkableIff(roles: seq<Role>, userStored: bool, ids: seq<Uuid>)
    ensures RolesLinkable(roles, userStored, ids) <==>
            && (|ids| == 0 || userStored)
            && (forall a, b ::
                  a in ids && b in ids && !HasKey(roles, a, RoleId) && !HasKey(roles, b, RoleId)
                  ==> a == b)
            && ((exists a :: a in ids && !HasKey(roles, a, RoleId)) ==> !HasKey(roles, "", RoleName))
  {
    assert StubShape(RoleId, RoleName, RoleStub);
    StubsResolve(roles, ids, RoleId, RoleName, RoleStub);
  }

  /** Create: in one transaction, inserts the user, saves a stub for each
      role it carries and inserts the user_roles rows. An id already in the
      table is a duplicate-key error, a role id that names no role once the
      stubs are saved a foreign-key error; either writes nothing. */
  method Create(db: Database, u: User, roleIds: seq<Uuid>) returns (err: Option<string>)
    requires db.Valid()
    modifies db`users, db`roles, db`userRoles
    ensures db.Valid()
    ensures err.Some? <==> HasKey(old(db.users), u.id, UserId) || !RolesLinkable(old(db.roles), true, roleIds)
    ensures HasKey(old(db.users), u.id, UserId) ==> err == Some(ErrDuplicateKey)
    ensures !HasKey(old(db.users), u.id, UserId) && err.Some? ==> err == Some(ErrForeignKey)
    ensures err.Some? ==> db.users == old(db.users) && db.roles == old(db.roles) && db.userRoles == old(db.userRoles)
    ensures err.None? ==>
              && db.users == old(db.users) + [u]
              && db.roles == StubbedRoles(old(db.roles), roleIds)
              && db.userRoles == old(db.userRoles) + NewLinks(old(db.userRoles), u.id, roleIds)
    ensures DistinctBy(old(db.roles), RoleName) ==> DistinctBy(db.roles, RoleName)
  {
    if HasKey(db.users, u.id, UserId) {
      return Some(ErrDuplicateKey);
    }
    if !RolesLinkable(db.roles, true, roleIds) {
      return Some(ErrForeignKey);
    }
    AppendFresh(db.users, u, UserId);
    LinksAppendNoRepeats(db.userRoles, u.id, roleIds);
    db.users := db.users + [u];
    db.roles := StubbedRoles(db.roles, roleIds);
    db.userRoles := db.userRoles + NewLinks(db.userRoles, u.id, roleIds);
    return None;
  }

  lemma LinksAppendNoRepeats(links: seq<Link>, owner: Uuid, targets: seq<Uuid>)
    requires NoRepeats(links)
    ensures NoRepeats(links + NewLinks(links, owner, targets))
  {
    var added := NewLinks(links, owner, targets);
    var r := links + added;
    forall i, j | 0 <= i < j < |r| ensures r[i] != r[j] {
      if j < |links| {
        assert r[i] == links[i] && r[j] == links[j];
      } else if i >= |links| {
        assert r[i] == added[i - |links|] && r[j] == added[j - |links|];
      } else {
        assert r[i] in links && r[j] in added;
      }
    }
  }

  /** Update: Save by primary key. */
  method Update(db: Database, u: User)
    requires db.Valid()
    modifies db`users
    ensures db.Valid()
    ensures db.users == Upsert(old(db.users), u, UserId)
  {
    db.users := Upsert(db.users, u, UserId);
  }

  /** Delete: removes the user with that id; a missing id is not an error. */
  method Delete(db: Database, id: Uuid)
    requires db.Valid()
    modifies db`users
    ensures db.Valid()
    ensures db.users == RemoveKey(old(db.users), id, UserId)
  {
    db.users := RemoveKey(db.users, id, UserId);
  }

  /** AssignRoles: in one transaction, clear the user's roles and append the
      given ones, saving a stub for each; a failing step, or a user_roles row
      that names no user or no role, rolls everything back. */
  method AssignRoles(db: Database, userId: Uuid, roleIds: seq<Uuid>, fault: RoleRepository.TxFault)
    returns (err: Option<string>)
    requires db.Valid()
    modifies db`userRoles, db`roles
    ensures db.Valid()
    ensures err.None? <==> fault == RoleRepository.NoFault
                           && RolesLinkable(old(db.roles), HasKey(db.users, userId, UserId), roleIds)
    ensures fault == RoleRepository.NoFault && err.Some? ==> err == Some(ErrForeignKey)
    ensures err.None? ==> && db.roles == StubbedRoles(old(db.roles), roleIds)
                          && db.userRoles == ReplaceTargets(old(db.userRoles), userId, roleIds)
    ensures err.Some? ==> db.roles == old(db.roles) && db.userRoles == old(db.userRoles)
    ensures DistinctBy(old(db.roles), RoleName) ==> DistinctBy(db.roles, RoleName)
  {
    var before := db.userRoles;
    var linkable := RolesLinkable(db.roles, HasKey(db.users, userId, UserId), roleIds);
    if fault == RoleRepository.ClearFails {
      return Some("association clear failed");
    }
    var kept := Filter(db.userRoles, (l: Link) => l.owner != userId);
    db.userRoles := kept;
    var stubs: seq<Uuid> := [];
    for i := 0 to |roleIds|
      invariant stubs == roleIds[..i]
    {
      stubs := stubs + [roleIds[i]];
    }
    assert stubs == roleIds;
    if fault == RoleRepository.AppendFails || !linkable {
      db.userRoles := before;
      return Some(if fault == RoleRepository.AppendFails then "association append failed" else ErrForeignKey);
    }
    db.roles := StubbedRoles(db.roles, stubs);
    ReplaceTargetsNoRepeats(before, userId, roleIds);
    db.userRoles := kept + NewLinks(kept, userId, stubs);
    return None;
  }

  /** A role id that names no role is assigned anyway: the stub is saved,
      so the user gains a role with that id and a blank name. */
  lemma UnknownRoleAssigned(userRoles: seq<Link>, roles: seq<Role>, userId: Uuid, roleIds: seq<Uuid>, id: Uuid)
    requires RolesLinkable(roles, true, roleIds)
    requires id in roleIds && !HasKey(roles, id, RoleId)
    ensures var table := StubbedRoles(roles, roleIds);
            RoleStub(id) in table && RoleStub(id) in RolesOfUser(ReplaceTargets(userRoles, userId, roleIds), table, userId)
  {
    var table := StubbedRoles(roles, roleIds);
    RolesLinkableIff(roles, true, roleIds);
    var f := FirstUnknown(roles, roleIds, RoleId);
    assert f.Some? && f.value == id;
    assert table[|roles|] == RoleStub(id);
    var after := ReplaceTargets(userRoles, userId, roleIds);
    assert Link(userId, id) in after;
  }

  /** After AssignRoles succeeds, the user holds exactly the listed roles
      that exist, and every other user keeps the roles it had. */
  lemma AssignedRolesExact(userRoles: seq<Link>, roles: seq<Role>, userId: Uuid, roleIds: seq<Uuid>, other: Uuid)
    requires other != userId
    ensures var after := ReplaceTargets(userRoles, userId, roleIds);
            (forall r :: (r in RolesOfUser(after, roles, userId)) <==> (r in roles && r.id in roleIds))
            && RolesOfUser(after, roles, other) == RolesOfUser(userRoles, roles, other)
  {
    var after := ReplaceTargets(userRoles, userId, roleIds);
    RoleRepository.FilterSame(roles, (x: Role) => Link(other, x.id) in after,
                              (x: Role) => Link(other, x.id) in userRoles);
  }
}
