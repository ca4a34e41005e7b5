/** The persistent entities of the service (domain/entities), as values.
    Associations that gorm loads on demand appear in "view" values that pair
    a row with what a query preloaded for it. Timestamps and soft-delete
    markers are not modelled. */
module Entities {
  import opened Common
  import opened Uuids

  /** A user account. `password` holds the bcrypt hash. */
  datatype User = User(
    id: Uuid,
    username: string,
    email: string,
    password: string,
    firstName: string,
    lastName: string,
    isActive: bool,
    isSuperuser: bool)

  datatype Role = Role(id: Uuid, name: string, description: string)

  datatype Permission = Permission(id: Uuid, name: string, description: string)

  /** A row of a many-to-many join table (user_roles, role_permissions):
      `owner` is the user or role, `target` the role or permission. */
  datatype Link = Link(owner: Uuid, target: Uuid)

  /** A permission granted on one model instance (model_permissions). */
  datatype ModelPermission = ModelPermission(id: Uuid, modelId: Uuid, modelType: string, permissionId: Uuid)

  /** A key/value attribute of a user (user_metas); `id` is auto-incremented. */
  datatype UserMeta = UserMeta(id: nat, key: string, value: string, userId: Uuid)

  /** A global key/value setting; the key is the primary key. */
  datatype Setting = Setting(key: string, value: string)

  /** A navigation menu row, with the field names the menu use case uses. */
  datatype Menu = Menu(
    id: Uuid,
    name: string,
    url: string,
    icon: string,
    description: string,
    parentId: Option<Uuid>,
    sequence: int,
    isActive: bool,
    isVisible: bool)

  /** A menu with its loaded parent and children. */
  datatype MenuView = MenuView(menu: Menu, parent: Option<Menu>, children: seq<Menu>)

  /** A role with its loaded associations; one that was not preloaded is empty. */
  datatype RoleView = RoleView(role: Role, users: seq<User>, permissions: seq<Permission>)

  /** A user with its preloaded roles. */
  datatype UserView = UserView(user: User, roles: seq<Role>)

  /** The roles of a sequence of role views, in order. */
  function RolesOf(vs: seq<RoleView>): (rs: seq<Role>)
    ensures |rs| == |vs| && forall i :: 0 <= i < |vs| ==> rs[i] == vs[i].role
  {
    seq(|vs|, i requires 0 <= i < |vs| => vs[i].role)
  }

  /** The ids of a sequence of role views, in order. */
  function RoleIdsOf(vs: seq<RoleView>): (ids: seq<Uuid>)
    ensures |ids| == |vs| && forall i :: 0 <= i < |vs| ==> ids[i] == vs[i].role.id
  {
    seq(|vs|, i requires 0 <= i < |vs| => vs[i].role.id)
  }

  function RoleId(r: Role): Uuid { r.id }
  function PermissionId(p: Permission): Uuid { p.id }
  function UserId(u: User): Uuid { u.id }
  function Username(u: User): string { u.username }
  function Email(u: User): string { u.email }
  function ModelPermissionId(m: ModelPermission): Uuid { m.id }
  function MetaId(m: UserMeta): nat { m.id }
  function MenuId(m: Menu): Uuid { m.id }
  function SettingKey(s: Setting): string { s.key }
  function RoleName(r: Role): string { r.name }
  function PermissionName(p: Permission): string { p.name }
  function MenuName(m: Menu): string { m.name }
}
