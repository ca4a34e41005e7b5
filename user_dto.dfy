/** The user-facing answers of the auth and user use cases
    (internal/dto/user_dto.go, internal/dto/auth_dto.go,
    internal/dto/user_meta_dto.go), with the mappings from stored rows that
    both use cases share. Timestamps are not modelled. */
module UserDto {
  import opened Common
  import opened Uuids
  import opened Entities

  /** The prefix of every avatar URL; the email is appended as is. */
  const AvatarPrefix: string := "https://gravatar.com/avatar/"

  datatype RoleSimple = RoleSimple(id: Uuid, name: string)

  /** An entry of a user's privilege list: the navigation fields of a menu. */
  datatype Privilege = Privilege(
    id: Uuid,
    name: string,
    url: string,
    icon: string,
    parentId: Option<Uuid>,
    isActive: bool,
    isVisible: bool,
    sequence: int)

  /** UserResponse. `roles` is None where the answer holds a nil list (JSON
      null) and Some where it holds a list, even an empty one. Privileges and
      metadata are omitted from the JSON when empty, so an empty value stands
      for both nil and empty there. */
  datatype UserResponse = UserResponse(
    id: Uuid,
    username: string,
    email: string,
    firstName: string,
    lastName: string,
    name: string,
    isActive: bool,
    isSuperuser: bool,
    roles: Option<seq<RoleSimple>>,
    privileges: seq<Privilege>,
    metaData: map<string, string>,
    avatarUrl: string)

  /** The token part of an auth answer; `tokenType` is the JSON "type". */
  datatype AuthResponse = AuthResponse(accessToken: string, refreshToken: string, tokenType: string)

  datatype AuthInfoResponse = AuthInfoResponse(auth: AuthResponse, user: UserResponse)

  datatype UserMetaResponse = UserMetaResponse(id: nat, key: string, value: string, userId: Uuid)

  function PrivilegeId(p: Privilege): Uuid { p.id }

  /** The roles of a user as id/name pairs, one per role and in order. */
  function RoleSimples(rs: seq<Role>): (r: seq<RoleSimple>)
    ensures |r| == |rs|
    ensures forall i :: 0 <= i < |rs| ==> r[i].id == rs[i].id && r[i].name == rs[i].name
  {
    seq(|rs|, i requires 0 <= i < |rs| => RoleSimple(rs[i].id, rs[i].name))
  }

  /** The privilege entry of a menu: its own navigation fields. */
  function PrivilegeOf(m: Menu): (p: Privilege)
    ensures p.id == m.id && p.name == m.name && p.url == m.url && p.icon == m.icon
    ensures p.parentId == m.parentId && p.isActive == m.isActive
    ensures p.isVisible == m.isVisible && p.sequence == m.sequence
  {
    Privilege(m.id, m.name, m.url, m.icon, m.parentId, m.isActive, m.isVisible, m.sequence)
  }

  /** One privilege entry per menu, in order. */
  function PrivilegesOf(ms: seq<Menu>): (r: seq<Privilege>)
    ensures |r| == |ms| && forall i :: 0 <= i < |ms| ==> r[i] == PrivilegeOf(ms[i])
  {
    seq(|ms|, i requires 0 <= i < |ms| => PrivilegeOf(ms[i]))
  }

  /** The answer for a stored metadata row. */
  function MetaResponse(m: UserMeta): (r: UserMetaResponse)
    ensures r.id == m.id && r.key == m.key && r.value == m.value && r.userId == m.userId
  {
    UserMetaResponse(m.id, m.key, m.value, m.userId)
  }
}
