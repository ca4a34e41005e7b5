/** The user use case (internal/usecase/user_usecase.go): create and update
    with their conflict checks and merge rules, role assignment, the
    metadata loops, and the mapping of a user to its answer. The password
    hash is a parameter; so are the fresh id, the query failures the code
    logs and skips, and the order in which a Go map yields its keys. */
module UserUseCase {
  import opened Common
  import opened Uuids
  import opened Entities
  import opened Store
  import opened Pagination
  import opened UserDto
  import UserRepository
  import RoleRepository
  import opened UserMetaRepository

  datatype CreateUserRequest = CreateUserRequest(
    username: string, email: string, password: string, firstName: string, lastName: string,
    roleIds: seq<Uuid>, metaData: map<string, string>)

  /** An update: empty strings and a missing `active` mean "leave as is";
      `metaData` is None when the request has no meta_data object. */
  datatype UpdateUserRequest = UpdateUserRequest(
    username: string, email: string, password: string, firstName: string, lastName: string,
    active: Option<bool>, roleIds: seq<Uuid>, metaData: Option<map<string, string>>)

  const ErrEmailExists: string := "email already exists"
  const ErrUsernameExists: string := "username already exists"

  // ---------------------------------------------------------------------------
  // The metadata loops

  /** The user_metas table with its id sequence. */
  datatype MetaTable = MetaTable(rows: seq<UserMeta>, nextId: nat)

  /** Row ids are distinct and below the sequence. */
  predicate Sound(t: MetaTable) {
    DistinctBy(t.rows, MetaId) && forall m :: m in t.rows ==> m.id < t.nextId
  }

  /** Whether the user has a row with that key. */
  predicate HasRow(rows: seq<UserMeta>, userId: Uuid, key: string) {
    exists m :: m in rows && m.userId == userId && m.key == key
  }

  /** One key of a metadata loop. A key whose write fails is logged and
      skipped. A key `existing` maps to a non-empty value has the user's
      first row with that key updated in place; any other key gets a new
      row. Create runs it with no existing map, so every key gets a row. */
  function MetaStep(t: MetaTable, existing: map<string, string>, userId: Uuid, k: string, v: string,
                    fails: set<string>): MetaTable
  {
    if k in fails then t
    else if k in existing && existing[k] != "" then
      match FindByUserIDAndKey(t.rows, userId, k)
      case Some(m) => MetaTable(Upsert(t.rows, m.(value := v), MetaId), t.nextId)
      case None => t
    else MetaTable(t.rows + [UserMeta(t.nextId, k, v, userId)], t.nextId + 1)
  }

  /** The loop over the request's keys, in the order `order` gives them. */
  function MetaSteps(t: MetaTable, existing: map<string, string>, userId: Uuid, md: map<string, string>,
                     fails: set<string>, order: seq<string>): MetaTable
    requires forall i :: 0 <= i < |order| ==> order[i] in md
    decreases |order|
  {
    if |order| == 0 then t
    else
      var k := order[|order| - 1];
      MetaStep(MetaSteps(t, existing, userId, md, fails, order[..|order| - 1]), existing, userId, k, md[k], fails)
  }

  /** The values of the keys of `order` whose writes succeed. */
  function Written(md: map<string, string>, fails: set<string>, order: seq<string>): (w: map<string, string>)
    requires forall i :: 0 <= i < |order| ==> order[i] in md
    ensures forall k :: k in w <==> k in order && k !in fails
    ensures forall k :: k in w ==> w[k] == md[k]
  {
    map k | k in order && k !in fails :: md[k]
  }

  /** Whether the user's rows for `key` are a single one, if any, and
      whether there is one. */
  predicate KeyFacts(rows: seq<UserMeta>, userId: Uuid, key: string, single: bool, held: bool) {
    (single ==> OneRowFor(rows, userId, key)) && (held ==> HasRow(rows, userId, key))
  }

  /** One step: the key takes its value in the user's map unless its write
      fails, and other users' rows do not change. */
  lemma MetaStepProps(t: MetaTable, existing: map<string, string>, userId: Uuid, k: string, v: string, fails: set<string>)
    requires Sound(t)
    requires k in existing ==> OneRowFor(t.rows, userId, k) && HasRow(t.rows, userId, k)
    ensures var r := MetaStep(t, existing, userId, k, v, fails);
            && Sound(r)
            && (k in fails ==> r == t)
            && (k !in fails ==> MetaMap(FindByUserID(r.rows, userId)) == MetaMap(FindByUserID(t.rows, userId))[k := v])
            && (forall other :: other != userId ==> FindByUserID(r.rows, other) == FindByUserID(t.rows, other))
  {
    if k !in fails {
      if k in existing && existing[k] != "" {
        var m := FindByUserIDAndKey(t.rows, userId, k).value;
        var row := m.(value := v);
        ReplaceReadsBack(t.rows, m, v);
        var after := Upsert(t.rows, row, MetaId);
        forall x | x in after ensures x.id < t.nextId {
          if x == row { assert m in t.rows; }
        }
      } else {
        var row := UserMeta(t.nextId, k, v, userId);
        AppendReadsBack(t.rows, row);
        assert !HasKey(t.rows, row.id, MetaId) by {
          forall i | 0 <= i < |t.rows| ensures t.rows[i].id != row.id {
            assert t.rows[i] in t.rows;
          }
        }
        AppendFresh(t.rows, row, MetaId);
      }
    }
  }

  /** One step keeps ids sound and leaves other users' rows alone, whatever
      the user's rows for that key are. */
  lemma MetaStepFrame(t: MetaTable, existing: map<string, string>, userId: Uuid, k: string, v: string, fails: set<string>)
    requires Sound(t)
    ensures var r := MetaStep(t, existing, userId, k, v, fails);
            && Sound(r)
            && (forall other :: other != userId ==> FindByUserID(r.rows, other) == FindByUserID(t.rows, other))
  {
    if k !in fails {
      if k in existing && existing[k] != "" {
        match FindByUserIDAndKey(t.rows, userId, k)
        case None =>
        case Some(m) =>
          var row := m.(value := v);
          var after := Upsert(t.rows, row, MetaId);
          forall x | x in after ensures x.id < t.nextId {
            if x == row { assert m in t.rows; }
          }
          forall other | other != userId
            ensures FindByUserID(after, other) == FindByUserID(t.rows, other)
          {
            UpsertKeepsOtherUsers(t.rows, row, m, other);
          }
      } else {
        var row := UserMeta(t.nextId, k, v, userId);
        AppendReadsBack(t.rows, row);
        assert !HasKey(t.rows, row.id, MetaId) by {
          forall i | 0 <= i < |t.rows| ensures t.rows[i].id != row.id {
            assert t.rows[i] in t.rows;
          }
        }
        AppendFresh(t.rows, row, MetaId);
      }
    }
  }

  /** One step leaves the rows of every other key of the user as they were
      in the two respects the loop relies on. */
  lemma MetaStepKeeps(t: MetaTable, existing: map<string, string>, userId: Uuid, k: string, v: string,
                      fails: set<string>, k2: string, single: bool, held: bool)
    requires Sound(t) && k2 != k && KeyFacts(t.rows, userId, k2, single, held)
    ensures KeyFacts(MetaStep(t, existing, userId, k, v, fails).rows, userId, k2, single, held)
  {
    if k !in fails {
      if k in existing && existing[k] != "" {
        match FindByUserIDAndKey(t.rows, userId, k)
        case None =>
        case Some(m) =>
          var row := m.(value := v);
          ReplaceKeepsOneRow(t.rows, m, v);
          var after := Upsert(t.rows, row, MetaId);
          if held {
            var x :| x in t.rows && x.userId == userId && x.key == k2;
            if x.id == row.id {
              KeyedUnique(t.rows, MetaId, x, m);
            }
            assert x in after;
          }
      } else {
        AppendKeepsOneRow(t.rows, UserMeta(t.nextId, k, v, userId));
        if held {
          var x :| x in t.rows && x.userId == userId && x.key == k2;
          assert x in t.rows + [UserMeta(t.nextId, k, v, userId)];
        }
      }
    }
  }

  /** A key the loop does not visit keeps its facts through the loop. */
  lemma {:induction false} MetaStepsKeep(t: MetaTable, existing: map<string, string>, userId: Uuid,
                                         md: map<string, string>, fails: set<string>, order: seq<string>,
                                         k2: string, single: bool, held: bool)
    requires Sound(t) && NoRepeats(order)
    requires forall i :: 0 <= i < |order| ==> order[i] in md
    requires forall i :: 0 <= i < |order| && order[i] in existing ==>
               OneRowFor(t.rows, userId, order[i]) && HasRow(t.rows, userId, order[i])
    requires k2 !in order && KeyFacts(t.rows, userId, k2, single, held)
    ensures KeyFacts(MetaSteps(t, existing, userId, md, fails, order).rows, userId, k2, single, held)
    decreases |order|
  {
    if |order| > 0 {
      var n := |order|;
      var front, k := order[..n - 1], order[n - 1];
      assert forall i :: 0 <= i < |front| ==> front[i] == order[i];
      assert NoRepeats(front);
      assert k2 !in front;
      MetaStepsKeep(t, existing, userId, md, fails, front, k2, single, held);
      MetaStepsSound(t, existing, userId, md, fails, front);
      var mid := MetaSteps(t, existing, userId, md, fails, front);
      MetaStepKeeps(mid, existing, userId, k, md[k], fails, k2, single, held);
    }
  }

  /** The loop keeps ids sound and never touches another user's rows. */
  lemma {:induction false} MetaStepsSound(t: MetaTable, existing: map<string, string>, userId: Uuid,
                                          md: map<string, string>, fails: set<string>, order: seq<string>)
    requires Sound(t)
    requires forall i :: 0 <= i < |order| ==> order[i] in md
    ensures var r := MetaSteps(t, existing, userId, md, fails, order);
            && Sound(r)
            && (forall other :: other != userId ==> FindByUserID(r.rows, other) == FindByUserID(t.rows, other))
    decreases |order|
  {
    if |order| > 0 {
      var n := |order|;
      var front, k := order[..n - 1], order[n - 1];
      MetaStepsSound(t, existing, userId, md, fails, front);
      var mid := MetaSteps(t, existing, userId, md, fails, front);
      MetaStepFrame(mid, existing, userId, k, md[k], fails);
    }
  }

  /** Before the last key is visited, its rows still have the facts the
      step needs. */
  lemma LastSteps(t: MetaTable, existing: map<string, string>, userId: Uuid,
                  md: map<string, string>, fails: set<string>, order: seq<string>)
    requires Sound(t) && NoRepeats(order) && |order| > 0
    requires forall i :: 0 <= i < |order| ==> order[i] in md
    requires forall i :: 0 <= i < |order| && order[i] in existing ==>
               OneRowFor(t.rows, userId, order[i]) && HasRow(t.rows, userId, order[i])
    ensures var k := order[|order| - 1];
            var mid := MetaSteps(t, existing, userId, md, fails, order[..|order| - 1]);
            k in existing ==> OneRowFor(mid.rows, userId, k) && HasRow(mid.rows, userId, k)
    decreases |order|, 0
  {
    var n := |order|;
    var front, k := order[..n - 1], order[n - 1];
    assert forall i :: 0 <= i < |front| ==> front[i] == order[i];
    assert NoRepeats(front);
    LastNotInFront(order);
    var facts := k in existing;
    assert KeyFacts(t.rows, userId, k, facts, facts);
    MetaStepsKeep(t, existing, userId, md, fails, front, k, facts, facts);
  }

  /** The whole loop: the user's map gains the values of every key whose
      write succeeds, provided each visited key the existing map has is held
      by a single row of the user. */
  lemma {:induction false} MetaStepsReadBack(t: MetaTable, existing: map<string, string>, userId: Uuid,
                                             md: map<string, string>, fails: set<string>, order: seq<string>)
    requires Sound(t) && NoRepeats(order)
    requires forall i :: 0 <= i < |order| ==> order[i] in md
    requires forall i :: 0 <= i < |order| && order[i] in existing ==>
               OneRowFor(t.rows, userId, order[i]) && HasRow(t.rows, userId, order[i])
    ensures var r := MetaSteps(t, existing, userId, md, fails, order);
            MetaMap(FindByUserID(r.rows, userId)) == MetaMap(FindByUserID(t.rows, userId)) + Written(md, fails, order)
  {
    if |order| > 0 {
      var n := |order|;
      var front, k := order[..n - 1], order[n - 1];
      assert forall i :: 0 <= i < |front| ==> front[i] == order[i];
      assert NoRepeats(front);
      var mid := MetaSteps(t, existing, userId, md, fails, front);
      var before := MetaMap(FindByUserID(t.rows, userId));
      var w := Written(md, fails, front);
      MetaStepsReadBack(t, existing, userId, md, fails, front);
      MetaStepsSound(t, existing, userId, md, fails, front);
      LastSteps(t, existing, userId, md, fails, order);
      MetaStepProps(mid, existing, userId, k, md[k], fails);
      WrittenStep(md, fails, order);
      assert MetaSteps(t, existing, userId, md, fails, order) == MetaStep(mid, existing, userId, k, md[k], fails);
      if k !in fails {
        MergeThenUpdate(before, w, k, md[k]);
      }
    }
  }

  /** The written values grow by the last key unless its write fails. */
  lemma WrittenStep(md: map<string, string>, fails: set<string>, order: seq<string>)
    requires |order| > 0
    requires forall i :: 0 <= i < |order| ==> order[i] in md
    ensures var front, k := order[..|order| - 1], order[|order| - 1];
            Written(md, fails, order)
              == if k in fails then Written(md, fails, front) else Written(md, fails, front)[k := md[k]]
  {
    var front, k := order[..|order| - 1], order[|order| - 1];
    assert forall x :: x in order <==> x in front || x == k;
  }

  lemma LastNotInFront<T>(s: seq<T>)
    requires NoRepeats(s) && |s| > 0
    ensures s[|s| - 1] !in s[..|s| - 1]
  {
  }

  lemma MergeThenUpdate<K, V>(a: map<K, V>, b: map<K, V>, k: K, v: V)
    ensures (a + b)[k := v] == a + b[k := v]
  {
  }

  /** A key whose stored value is the empty string counts as absent, so the
      loop appends a second row for it: the (user, key) pair is no longer
      held by a single row. */
  lemma EmptyValueDuplicates(t: MetaTable, existing: map<string, string>, userId: Uuid, k: string, v: string,
                             fails: set<string>, m: UserMeta)
    requires Sound(t) && m in t.rows && m.userId == userId && m.key == k
    requires k in existing && existing[k] == "" && k !in fails
    ensures !OneRowFor(MetaStep(t, existing, userId, k, v, fails).rows, userId, k)
  {
    var row := UserMeta(t.nextId, k, v, userId);
    var after := MetaStep(t, existing, userId, k, v, fails).rows;
    assert after == t.rows + [row];
    assert m in after && row in after && m != row;
  }

  /** One more key at the end of the loop is one more step. */
  lemma MetaStepsSnoc(t: MetaTable, existing: map<string, string>, userId: Uuid, md: map<string, string>,
                      fails: set<string>, order: seq<string>, k: string)
    requires forall i :: 0 <= i < |order| ==> order[i] in md
    requires k in md
    ensures MetaSteps(t, existing, userId, md, fails, order + [k])
            == MetaStep(MetaSteps(t, existing, userId, md, fails, order), existing, userId, k, md[k], fails)
  {
    assert (order + [k])[..|order|] == order;
  }

  /** The values of the request's keys whose writes succeed. */
  function KeptValues(md: map<string, string>, fails: set<string>): (w: map<string, string>)
    ensures forall k :: k in w <==> k in md && k !in fails
    ensures forall k :: k in w ==> w[k] == md[k]
  {
    map k | k in md && k !in fails :: md[k]
  }

  /** What a metadata loop over all of `md`'s keys, in the order `order`,
      leaves in the table. The user's map gains every value whose write
      succeeds when each key the loop updates in place has a single row;
      other users' rows never change. */
  ghost predicate MetaOutcome(before: MetaTable, after: MetaTable, existing: map<string, string>, userId: Uuid,
                              md: map<string, string>, fails: set<string>, order: seq<string>) {
    && NoRepeats(order)
    && (forall i :: 0 <= i < |order| ==> order[i] in md)
    && (forall k :: k in md ==> k in order)
    && after == MetaSteps(before, existing, userId, md, fails, order)
    && ((forall k :: k in md && k in existing ==> OneRowFor(before.rows, userId, k)) ==>
          MetaMap(FindByUserID(after.rows, userId)) == MetaMap(FindByUserID(before.rows, userId)) + KeptValues(md, fails))
    && (forall other :: other != userId ==> FindByUserID(after.rows, other) == FindByUserID(before.rows, other))
  }

  /** The metadata loop of Create and Update: every key of `md` once, in
      the order the map yields them (left open, and returned as `order`). */
  method SaveMetaData(db: Database, existing: map<string, string>, userId: Uuid, md: map<string, string>,
                      fails: set<string>) returns (ghost order: seq<string>)
    requires db.Valid()
    requires forall k :: k in existing ==> HasRow(db.userMetas, userId, k)
    modifies db`userMetas, db`nextMetaId
    ensures db.Valid()
    ensures MetaOutcome(MetaTable(old(db.userMetas), old(db.nextMetaId)), MetaTable(db.userMetas, db.nextMetaId),
                        existing, userId, md, fails, order)
  {
    ghost var t0 := MetaTable(db.userMetas, db.nextMetaId);
    var remaining := md.Keys;
    order := [];
    while remaining != {}
      invariant db.Valid()
      invariant remaining <= md.Keys
      invariant forall k :: k in md ==> k in remaining || k in order
      invariant forall i :: 0 <= i < |order| ==> order[i] in md && order[i] !in remaining
      invariant NoRepeats(order)
      invariant MetaTable(db.userMetas, db.nextMetaId) == MetaSteps(t0, existing, userId, md, fails, order)
      decreases |remaining|
    {
      var k :| k in remaining;
      SaveMetaKey(db, existing, userId, k, md[k], fails);
      MetaStepsSnoc(t0, existing, userId, md, fails, order, k);
      order := order + [k];
      remaining := remaining - {k};
    }
    LoopOutcome(t0, existing, userId, md, fails, order);
  }

  /** The body of the metadata loop, for one key. */
  method SaveMetaKey(db: Database, existing: map<string, string>, userId: Uuid, k: string, v: string,
                     fails: set<string>)
    requires db.Valid()
    modifies db`userMetas, db`nextMetaId
    ensures db.Valid()
    ensures MetaTable(db.userMetas, db.nextMetaId)
            == MetaStep(MetaTable(old(db.userMetas), old(db.nextMetaId)), existing, userId, k, v, fails)
  {
    if k in existing && existing[k] != "" {
      var found := FindByUserIDAndKey(db.userMetas, userId, k);
      if found.Some? {
        assert found.value in db.userMetas;
        var err := UserMetaRepository.Update(db, found.value.(value := v), k in fails);
      }
    } else {
      var created := UserMetaRepository.Create(db, k, v, userId, k in fails);
    }
  }

  /** A loop that has visited every key of `md` once ends in MetaOutcome. */
  lemma LoopOutcome(t0: MetaTable, existing: map<string, string>, userId: Uuid, md: map<string, string>,
                    fails: set<string>, order: seq<string>)
    requires Sound(t0) && NoRepeats(order)
    requires forall k :: k in existing ==> HasRow(t0.rows, userId, k)
    requires forall i :: 0 <= i < |order| ==> order[i] in md
    requires forall k :: k in md ==> k in order
    ensures MetaOutcome(t0, MetaSteps(t0, existing, userId, md, fails, order), existing, userId, md, fails, order)
  {
    MetaStepsSound(t0, existing, userId, md, fails, order);
    if forall k :: k in md && k in existing ==> OneRowFor(t0.rows, userId, k) {
      assert forall i :: 0 <= i < |order| && order[i] in existing ==>
               OneRowFor(t0.rows, userId, order[i]) && HasRow(t0.rows, userId, order[i]);
      MetaStepsReadBack(t0, existing, userId, md, fails, order);
      WrittenAll(md, fails, order);
    }
  }

  /** Once every key has been visited, the written values are the kept ones. */
  lemma WrittenAll(md: map<string, string>, fails: set<string>, order: seq<string>)
    requires forall i :: 0 <= i < |order| ==> order[i] in md
    requires forall k :: k in md ==> k in order
    ensures Written(md, fails, order) == KeptValues(md, fails)
  {
  }

  /** A loop over no keys changes nothing. */
  lemma EmptyMetaOutcome(t: MetaTable, existing: map<string, string>, userId: Uuid, fails: set<string>)
    ensures MetaOutcome(t, t, existing, userId, map[], fails, [])
  {
    assert KeptValues(map[], fails) == map[];
    assert MetaMap(FindByUserID(t.rows, userId)) + map[] == MetaMap(FindByUserID(t.rows, userId));
  }

  // ---------------------------------------------------------------------------
  // Responses

  /** The answer mapToUserResponse gives: the user's fields, a roles list
      that is present even when empty, no privileges, the gravatar address
      and no display name. */
  function UserResponseOf(v: UserView): (r: UserResponse)
    ensures r.id == v.user.id && r.username == v.user.username && r.email == v.user.email
    ensures r.firstName == v.user.firstName && r.lastName == v.user.lastName && r.isActive == v.user.isActive
    ensures r.roles.Some? && |r.roles.value| == |v.roles|
    ensures forall i :: 0 <= i < |v.roles| ==> r.roles.value[i] == RoleSimple(v.roles[i].id, v.roles[i].name)
    ensures r.privileges == [] && !r.isSuperuser && r.avatarUrl == AvatarPrefix + v.user.email
  {
    UserResponse(v.user.id, v.user.username, v.user.email, v.user.firstName, v.user.lastName, "",
                 v.user.isActive, false, Some(RoleSimples(v.roles)), [], map[], AvatarPrefix + v.user.email)
  }

  /** mapToUserResponse, with its loop over the roles. */
  method MapToUserResponse(v: UserView) returns (r: UserResponse)
    ensures r == UserResponseOf(v)
  {
    var roles: seq<RoleSimple> := [];
    for i := 0 to |v.roles|
      invariant |roles| == i && forall k :: 0 <= k < i ==> roles[k] == RoleSimple(v.roles[k].id, v.roles[k].name)
    {
      roles := roles + [RoleSimple(v.roles[i].id, v.roles[i].name)];
    }
    assert roles == RoleSimples(v.roles);
    r := UserResponse(v.user.id, v.user.username, v.user.email, v.user.firstName, v.user.lastName, "",
                      v.user.isActive, false, Some(roles), [], map[], AvatarPrefix + v.user.email);
  }

  // ---------------------------------------------------------------------------
  // Create

  /** The metadata step of Create: the loop runs only for a non-empty map,
      and every key is new for the user. */
  method CreateMetaData(db: Database, userId: Uuid, md: map<string, string>, fails: set<string>)
    returns (ghost order: seq<string>)
    requires db.Valid()
    modifies db`userMetas, db`nextMetaId
    ensures db.Valid()
    ensures MetaOutcome(MetaTable(old(db.userMetas), old(db.nextMetaId)), MetaTable(db.userMetas, db.nextMetaId),
                        map[], userId, md, fails, order)
  {
    if |md| > 0 {
      order := SaveMetaData(db, map[], userId, md, fails);
    } else {
      assert md == map[];
      EmptyMetaOutcome(MetaTable(db.userMetas, db.nextMetaId), map[], userId, fails);
      order := [];
    }
  }

  /** The user Create inserts: active, not a superuser, with the hash. */
  function NewUser(req: CreateUserRequest, hashed: string, id: Uuid): (u: User)
    ensures u.id == id && u.username == req.username && u.email == req.email && u.password == hashed
    ensures u.firstName == req.firstName && u.lastName == req.lastName && u.isActive && !u.isSuperuser
  {
    User(id, req.username, req.email, hashed, req.firstName, req.lastName, true, false)
  }

  /** Create: a taken email is refused before a taken username, then the
      hash may fail, then the user is inserted with its role links; every
      metadata entry is then created, a failing one (`metaFails`) being
      logged and skipped; the answer is the stored user with its roles. */
  method Create(db: Database, req: CreateUserRequest, hash: string -> Result<string>, freshId: Uuid,
                metaFails: set<string>) returns (r: Result<UserResponse>, ghost order: seq<string>)
    requires db.Valid()
    modifies db`users, db`roles, db`userRoles, db`userMetas, db`nextMetaId
    ensures db.Valid()
    ensures (exists u :: u in old(db.users) && u.email == req.email) ==> r == Err(ErrEmailExists) && unchanged(db)
    ensures (forall u :: u in old(db.users) ==> u.email != req.email)
            && (exists u :: u in old(db.users) && u.username == req.username)
            ==> r == Err(ErrUsernameExists) && unchanged(db)
    ensures (forall u :: u in old(db.users) ==> u.email != req.email && u.username != req.username)
            ==> match hash(req.password)
                case Err(e) => r == Err(e) && unchanged(db)
                case Ok(hashed) =>
                  if HasKey(old(db.users), freshId, UserId) then r == Err(ErrDuplicateKey) && unchanged(db)
                  else if !UserRepository.RolesLinkable(old(db.roles), true, req.roleIds) then
                    r == Err(ErrForeignKey) && unchanged(db)
                  else
                    var u := NewUser(req, hashed, freshId);
                    && db.users == old(db.users) + [u]
                    && db.roles == UserRepository.StubbedRoles(old(db.roles), req.roleIds)
                    && db.userRoles == old(db.userRoles) + NewLinks(old(db.userRoles), freshId, req.roleIds)
                    && MetaOutcome(MetaTable(old(db.userMetas), old(db.nextMetaId)), MetaTable(db.userMetas, db.nextMetaId),
                                   map[], freshId, req.metaData, metaFails, order)
                    && r == Ok(UserResponseOf(UserRepository.WithRoles(db.userRoles, db.roles, u)))
    ensures UniqueLogins(old(db.users)) ==> UniqueLogins(db.users)
  {
    order := [];
    if UserRepository.FindByEmail(db.users, db.userRoles, db.roles, req.email).Some? {
      return Err(ErrEmailExists), order;
    }
    if UserRepository.FindByUsername(db.users, db.userRoles, db.roles, req.username).Some? {
      return Err(ErrUsernameExists), order;
    }
    var hashed := hash(req.password);
    if hashed.Err? {
      return Err(hashed.error), order;
    }
    var u := NewUser(req, hashed.value, freshId);
    ghost var before := db.users;
    var err := UserRepository.Create(db, u, req.roleIds);
    if err.Some? {
      return Err(err.value), order;
    }
    if UniqueLogins(before) {
      AppendNewLogin(before, u);
    }
    order := CreateMetaData(db, u.id, req.metaData, metaFails);
    assert u in db.users;
    UserRepository.FindByIDStored(db.users, db.userRoles, db.roles, u);
    var stored := UserRepository.FindByID(db.users, db.userRoles, db.roles, u.id);
    var resp := MapToUserResponse(stored.value);
    r := Ok(resp);
  }

  // ---------------------------------------------------------------------------
  // Update

  /** The user after Update's field rules: a non-empty username, email,
      first or last name replaces the stored one, a password gives the new
      hash `hashed`, and `active` is applied when present. */
  function Merge(u: User, req: UpdateUserRequest, hashed: string): (m: User)
    ensures m.id == u.id && m.isSuperuser == u.isSuperuser
    ensures m.username == (if req.username == "" then u.username else req.username)
    ensures m.email == (if req.email == "" then u.email else req.email)
    ensures m.password == (if req.password == "" then u.password else hashed)
    ensures m.firstName == (if req.firstName == "" then u.firstName else req.firstName)
    ensures m.lastName == (if req.lastName == "" then u.lastName else req.lastName)
    ensures m.isActive == (if req.active.None? then u.isActive else req.active.value)
  {
    u.(username := if req.username != "" && req.username != u.username then req.username else u.username,
       email := if req.email != "" && req.email != u.email then req.email else u.email,
       password := if req.password != "" then hashed else u.password,
       firstName := if req.firstName != "" then req.firstName else u.firstName,
       lastName := if req.lastName != "" then req.lastName else u.lastName,
       isActive := if req.active.Some? then req.active.value else u.isActive)
  }

  /** Applying the same request twice changes nothing more. */
  lemma MergeIdempotent(u: User, req: UpdateUserRequest, hashed: string)
    ensures Merge(Merge(u, req, hashed), req, hashed) == Merge(u, req, hashed)
  {
  }

  /** A request with every field empty leaves the user as stored. */
  lemma MergeEmpty(u: User, hashed: string)
    ensures Merge(u, UpdateUserRequest("", "", "", "", "", None, [], None), hashed) == u
  {
  }

  /** The new username is held by another user. */
  predicate UsernameClash(users: seq<User>, u: User, req: UpdateUserRequest) {
    && req.username != "" && req.username != u.username
    && exists x :: x in users && x.username == req.username && x.id != u.id
  }

  /** The new email is held by another user. */
  predicate EmailClash(users: seq<User>, u: User, req: UpdateUserRequest) {
    && req.email != "" && req.email != u.email
    && exists x :: x in users && x.email == req.email && x.id != u.id
  }

  /** What the meta loop of Update is given as the existing values: the
      user's map, or nothing when that query fails. */
  function ExistingMeta(metas: seq<UserMeta>, userId: Uuid, lookupFails: bool): (e: map<string, string>)
    ensures lookupFails ==> e == map[]
    ensures !lookupFails ==> e == MetaMap(FindByUserID(metas, userId))
  {
    if lookupFails then map[] else MetaMap(FindByUserID(metas, userId))
  }

  /** Every key of the user's map is held by a row of the user. */
  lemma ExistingMetaHeld(metas: seq<UserMeta>, userId: Uuid, lookupFails: bool)
    ensures forall k :: k in ExistingMeta(metas, userId, lookupFails) ==> HasRow(metas, userId, k)
  {
    var rows := FindByUserID(metas, userId);
    forall k | k in ExistingMeta(metas, userId, lookupFails) ensures HasRow(metas, userId, k) {
      MetaMapKeys(rows, k);
      var i :| 0 <= i < |rows| && rows[i].key == k;
      assert rows[i] in rows;
    }
  }

  /** The checks and field rules of Update, before anything is written:
      a new username held by another user is refused first, then a new
      email, then a failing hash; otherwise the merged user. The source
      assigns the fields one by one between the checks; no check reads a
      field set before it, so merging after the checks is the same. */
  method MergeRequest(db: Database, v: UserView, req: UpdateUserRequest, hash: string -> Result<string>)
    returns (r: Result<User>)
    requires db.Valid() && v.user in db.users
    ensures UsernameClash(db.users, v.user, req) ==> r == Err(ErrUsernameExists)
    ensures !UsernameClash(db.users, v.user, req) && EmailClash(db.users, v.user, req) ==> r == Err(ErrEmailExists)
    ensures !UsernameClash(db.users, v.user, req) && !EmailClash(db.users, v.user, req) ==>
              if req.password != "" && hash(req.password).Err? then r == Err(hash(req.password).error)
              else r == Ok(Merge(v.user, req, if req.password != "" then hash(req.password).value else ""))
  {
    var user := v.user;
    if req.username != "" && req.username != user.username {
      var holder := UserRepository.FindByUsername(db.users, db.userRoles, db.roles, req.username);
      if holder.Some? && holder.value.user.id != user.id {
        return Err(ErrUsernameExists);
      }
      HolderIsOther(db.users, UserId, Username, user, req.username);
    }
    if req.email != "" && req.email != user.email {
      var holder := UserRepository.FindByEmail(db.users, db.userRoles, db.roles, req.email);
      if holder.Some? && holder.value.user.id != user.id {
        return Err(ErrEmailExists);
      }
      HolderIsOther(db.users, UserId, Email, user, req.email);
    }
    var hashed := "";
    if req.password != "" {
      var h := hash(req.password);
      if h.Err? {
        return Err(h.error);
      }
      hashed := h.value;
    }
    return Ok(Merge(user, req, hashed));
  }

  /** Whether the role step of Update fails for a stored user: role ids are
      given, and the transaction fails or a role id names no role even once
      the stubs are saved. */
  predicate RolesRefused(roles: seq<Role>, roleIds: seq<Uuid>, roleFault: RoleRepository.TxFault) {
    |roleIds| > 0 && (roleFault != RoleRepository.NoFault || !UserRepository.RolesLinkable(roles, true, roleIds))
  }

  /** The role step of Update: with role ids, the user's links are
      replaced (the role stubs saved) and the user is loaded again;
      without, the loaded roles are kept. */
  method ReplaceRoles(db: Database, v: UserView, user: User, roleIds: seq<Uuid>, roleFault: RoleRepository.TxFault)
    returns (err: Option<string>, view: UserView)
    requires db.Valid() && user.id == v.user.id && user in db.users
    requires v == UserRepository.WithRoles(db.userRoles, db.roles, v.user)
    modifies db`userRoles, db`roles
    ensures db.Valid()
    ensures err.Some? <==> RolesRefused(old(db.roles), roleIds, roleFault)
    ensures err.Some? ==> db.userRoles == old(db.userRoles) && db.roles == old(db.roles)
    ensures err.None? ==>
              && db.roles == (if |roleIds| > 0 then UserRepository.StubbedRoles(old(db.roles), roleIds) else old(db.roles))
              && db.userRoles == (if |roleIds| > 0 then ReplaceTargets(old(db.userRoles), user.id, roleIds)
                                  else old(db.userRoles))
              && view == UserRepository.WithRoles(db.userRoles, db.roles, user)
  {
    if |roleIds| > 0 {
      assert HasKey(db.users, user.id, UserId) by {
        var i :| 0 <= i < |db.users| && db.users[i] == user;
      }
      err := UserRepository.AssignRoles(db, user.id, roleIds, roleFault);
      if err.Some? {
        return err, v;
      }
      UserRepository.FindByIDStored(db.users, db.userRoles, db.roles, user);
      var refetched := UserRepository.FindByID(db.users, db.userRoles, db.roles, user.id);
      view := refetched.value;
    } else {
      err := None;
      view := v.(user := user);
    }
  }

  /** The writes of Update for the merged user `user`: the row, then the
      roles when the request lists any (a failure there is reported after
      the row has been saved), then the metadata loop when the request has
      a meta_data object. */
  method SaveUpdate(db: Database, v: UserView, user: User, req: UpdateUserRequest,
                    roleFault: RoleRepository.TxFault, metaLookupFails: bool, metaFails: set<string>)
    returns (r: Result<UserResponse>, ghost order: seq<string>)
    requires db.Valid() && user.id == v.user.id
    requires v == UserRepository.WithRoles(db.userRoles, db.roles, v.user)
    modifies db`users, db`roles, db`userRoles, db`userMetas, db`nextMetaId
    ensures db.Valid()
    ensures db.users == Upsert(old(db.users), user, UserId)
    ensures if RolesRefused(old(db.roles), req.roleIds, roleFault) then
              && r.Err? && db.roles == old(db.roles) && db.userRoles == old(db.userRoles)
              && db.userMetas == old(db.userMetas) && db.nextMetaId == old(db.nextMetaId)
            else
              && db.roles == (if |req.roleIds| > 0 then UserRepository.StubbedRoles(old(db.roles), req.roleIds)
                              else old(db.roles))
              && db.userRoles == (if |req.roleIds| > 0 then ReplaceTargets(old(db.userRoles), user.id, req.roleIds)
                                  else old(db.userRoles))
              && (match req.metaData
                  case None => db.userMetas == old(db.userMetas) && db.nextMetaId == old(db.nextMetaId)
                  case Some(md) =>
                    MetaOutcome(MetaTable(old(db.userMetas), old(db.nextMetaId)), MetaTable(db.userMetas, db.nextMetaId),
                                ExistingMeta(old(db.userMetas), user.id, metaLookupFails), user.id, md, metaFails, order))
              && r == Ok(UserResponseOf(UserRepository.WithRoles(db.userRoles, db.roles, user)))
  {
    order := [];
    var id := user.id;
    UserRepository.Update(db, user);
    var err, view := ReplaceRoles(db, v, user, req.roleIds, roleFault);
    if err.Some? {
      return Err(err.value), order;
    }
    if req.metaData.Some? {
      ExistingMetaHeld(db.userMetas, id, metaLookupFails);
      var existing := UserMetaRepository.GetAllByUserID(db, id, metaLookupFails);
      var values := if existing.Ok? then existing.value else map[];
      order := SaveMetaData(db, values, id, req.metaData.value, metaFails);
    }
    var resp := MapToUserResponse(view);
    r := Ok(resp);
  }

  /** Update: the user must exist; then the checks and field rules of
      MergeRequest, and the writes of SaveUpdate. Nothing is written when
      a check fails. */
  method Update(db: Database, id: Uuid, req: UpdateUserRequest, hash: string -> Result<string>,
                roleFault: RoleRepository.TxFault, metaLookupFails: bool, metaFails: set<string>)
    returns (r: Result<UserResponse>, ghost order: seq<string>)
    requires db.Valid()
    modifies db`users, db`roles, db`userRoles, db`userMetas, db`nextMetaId
    ensures db.Valid()
    ensures UniqueLogins(old(db.users)) ==> UniqueLogins(db.users)
    ensures match UserRepository.FindByID(old(db.users), old(db.userRoles), old(db.roles), id)
      case None => r == Err(ErrRecordNotFound) && unchanged(db)
      case Some(v) =>
        if UsernameClash(old(db.users), v.user, req) then r == Err(ErrUsernameExists) && unchanged(db)
        else if EmailClash(old(db.users), v.user, req) then r == Err(ErrEmailExists) && unchanged(db)
        else if req.password != "" && hash(req.password).Err? then r == Err(hash(req.password).error) && unchanged(db)
        else
          var merged := Merge(v.user, req, if req.password != "" then hash(req.password).value else "");
          && db.users == Upsert(old(db.users), merged, UserId)
          && if RolesRefused(old(db.roles), req.roleIds, roleFault) then
               && r.Err? && db.roles == old(db.roles) && db.userRoles == old(db.userRoles)
               && db.userMetas == old(db.userMetas) && db.nextMetaId == old(db.nextMetaId)
             else
               && db.roles == (if |req.roleIds| > 0 then UserRepository.StubbedRoles(old(db.roles), req.roleIds)
                               else old(db.roles))
               && db.userRoles == (if |req.roleIds| > 0 then ReplaceTargets(old(db.userRoles), id, req.roleIds)
                                   else old(db.userRoles))
               && (match req.metaData
                   case None => db.userMetas == old(db.userMetas) && db.nextMetaId == old(db.nextMetaId)
                   case Some(md) =>
                     MetaOutcome(MetaTable(old(db.userMetas), old(db.nextMetaId)), MetaTable(db.userMetas, db.nextMetaId),
                                 ExistingMeta(old(db.userMetas), id, metaLookupFails), id, md, metaFails, order))
               && r == Ok(UserResponseOf(UserRepository.WithRoles(db.userRoles, db.roles, merged)))
  {
    order := [];
    var found := UserRepository.FindByID(db.users, db.userRoles, db.roles, id);
    if found.None? {
      return Err(ErrRecordNotFound), order;
    }
    var merged := MergeRequest(db, found.value, req, hash);
    if merged.Err? {
      return Err(merged.error), order;
    }
    SavedLoginsUnique(db.users, found.value.user, merged.value, req);
    r, order := SaveUpdate(db, found.value, merged.value, req, roleFault, metaLookupFails, metaFails);
  }

  /** Saving the merged row keeps usernames and emails unique when neither
      new value is held by another user. */
  lemma SavedLoginsUnique(users: seq<User>, u: User, merged: User, req: UpdateUserRequest)
    requires DistinctBy(users, UserId) && u in users && merged.id == u.id
    requires merged.username == (if req.username == "" then u.username else req.username)
    requires merged.email == (if req.email == "" then u.email else req.email)
    requires !UsernameClash(users, u, req) && !EmailClash(users, u, req)
    ensures UniqueLogins(users) ==> UniqueLogins(Upsert(users, merged, UserId))
  {
    if UniqueLogins(users) {
      if merged.username != u.username {
        assert !HasKey(users, merged.username, Username) by {
          forall i | 0 <= i < |users| ensures users[i].username != merged.username {
            assert users[i] in users;
            if users[i].id == u.id { KeyedUnique(users, UserId, users[i], u); }
          }
        }
      }
      if merged.email != u.email {
        assert !HasKey(users, merged.email, Email) by {
          forall i | 0 <= i < |users| ensures users[i].email != merged.email {
            assert users[i] in users;
            if users[i].id == u.id { KeyedUnique(users, UserId, users[i], u); }
          }
        }
      }
      UpsertKeepsUnique(users, merged, UserId, Username, u);
      UpsertKeepsUnique(users, merged, UserId, Email, u);
    }
  }

  // ---------------------------------------------------------------------------
  // Delete, role assignment and the read operations

  /** Delete removes the user's row. */
  method Delete(db: Database, id: Uuid)
    requires db.Valid()
    modifies db`users
    ensures db.Valid()
    ensures db.users == RemoveKey(old(db.users), id, UserId)
  {
    UserRepository.Delete(db, id);
  }

  /** After a delete the user is not found and every other user is found as
      before. */
  lemma DeleteForgets(users: seq<User>, userRoles: seq<Link>, roles: seq<Role>, id: Uuid, other: Uuid)
    requires DistinctBy(users, UserId) && other != id
    ensures UserRepository.FindByID(RemoveKey(users, id, UserId), userRoles, roles, id).None?
    ensures UserRepository.FindByID(RemoveKey(users, id, UserId), userRoles, roles, other)
            == UserRepository.FindByID(users, userRoles, roles, other)
  {
    var after := RemoveKey(users, id, UserId);
    if exists u :: u in users && u.id == other {
      var u :| u in users && u.id == other;
      UserRepository.FindByIDStored(users, userRoles, roles, u);
      UserRepository.FindByIDStored(after, userRoles, roles, u);
    }
  }

  /** AssignRoles: the user must exist; its roles are then replaced by
      `roleIds`, a stub saved for each, and the answer carries exactly the
      roles of the table, stubs included, among them: one per listed id. */
  method AssignRoles(db: Database, userId: Uuid, roleIds: seq<Uuid>, fault: RoleRepository.TxFault)
    returns (r: Result<UserResponse>)
    requires db.Valid()
    modifies db`userRoles, db`roles
    ensures db.Valid()
    ensures match UserRepository.FindByID(db.users, old(db.userRoles), old(db.roles), userId)
      case None => r == Err(ErrRecordNotFound) && db.userRoles == old(db.userRoles) && db.roles == old(db.roles)
      case Some(v) =>
        if fault != RoleRepository.NoFault || !UserRepository.RolesLinkable(old(db.roles), true, roleIds) then
          && r.Err? && db.userRoles == old(db.userRoles) && db.roles == old(db.roles)
          && (fault == RoleRepository.NoFault ==> r == Err(ErrForeignKey))
        else
          var after := UserRepository.WithRoles(db.userRoles, db.roles, v.user);
          && db.roles == UserRepository.StubbedRoles(old(db.roles), roleIds)
          && db.userRoles == ReplaceTargets(old(db.userRoles), userId, roleIds)
          && r == Ok(UserResponseOf(after))
          && (forall role :: role in after.roles <==> role in db.roles && role.id in roleIds)
          && (forall id :: id in roleIds ==> exists role :: role in after.roles && role.id == id)
  {
    var found := UserRepository.FindByID(db.users, db.userRoles, db.roles, userId);
    if found.None? {
      return Err(ErrRecordNotFound);
    }
    assert HasKey(db.users, userId, UserId) by {
      var i :| 0 <= i < |db.users| && db.users[i] == found.value.user;
    }
    var err := UserRepository.AssignRoles(db, userId, roleIds, fault);
    if err.Some? {
      return Err(err.value);
    }
    UserRepository.FindByIDStored(db.users, db.userRoles, db.roles, found.value.user);
    var updated := UserRepository.FindByID(db.users, db.userRoles, db.roles, userId);
    var resp := MapToUserResponse(updated.value);
    r := Ok(resp);
    forall id | id in roleIds ensures exists role :: role in updated.value.roles && role.id == id {
      var role :| role in db.roles && role.id == id;
      assert role in updated.value.roles;
    }
  }

  /** GetByID: the stored user with its roles, or gorm's not-found error. */
  method GetByID(db: Database, id: Uuid) returns (r: Result<UserResponse>)
    ensures match UserRepository.FindByID(db.users, db.userRoles, db.roles, id)
      case None => r == Err(ErrRecordNotFound)
      case Some(v) => r == Ok(UserResponseOf(v))
    ensures r.Ok? <==> exists u :: u in db.users && u.id == id
  {
    var found := UserRepository.FindByID(db.users, db.userRoles, db.roles, id);
    if found.None? {
      return Err(ErrRecordNotFound);
    }
    var resp := MapToUserResponse(found.value);
    r := Ok(resp);
  }

  /** GetAll: the answers for one page of users, in table order, and the
      number of users. */
  method GetAll(db: Database, page: int, pageSize: int) returns (items: seq<UserResponse>, total: nat)
    ensures total == |db.users|
    ensures |items| == |PageOf(db.users, page, pageSize)|
    ensures forall i :: 0 <= i < |items| ==>
              items[i] == UserResponseOf(UserRepository.WithRoles(db.userRoles, db.roles, PageOf(db.users, page, pageSize)[i]))
  {
    var found := UserRepository.FindAll(db.users, db.userRoles, db.roles, page, pageSize);
    items := ResponsesOf(found.items);
    total := found.total;
  }

  /** The loop of GetAll: one answer per loaded user, in order. */
  method ResponsesOf(views: seq<UserView>) returns (items: seq<UserResponse>)
    ensures |items| == |views| && forall i :: 0 <= i < |views| ==> items[i] == UserResponseOf(views[i])
  {
    items := [];
    for i := 0 to |views|
      invariant |items| == i
      invariant forall k :: 0 <= k < i ==> items[k] == UserResponseOf(views[k])
    {
      var resp := MapToUserResponse(views[i]);
      items := items + [resp];
    }
  }

  /** GetUserWithMeta: the user's answer with its metadata map; a failing
      metadata query gives an empty map rather than an error. */
  method GetUserWithMeta(db: Database, id: Uuid, metaFails: bool) returns (r: Result<UserResponse>)
    ensures match UserRepository.FindByID(db.users, db.userRoles, db.roles, id)
      case None => r == Err(ErrRecordNotFound)
      case Some(v) =>
        r == Ok(UserResponseOf(v).(metaData := ExistingMeta(db.userMetas, id, metaFails)))
  {
    var found := UserRepository.FindByID(db.users, db.userRoles, db.roles, id);
    if found.None? {
      return Err(ErrRecordNotFound);
    }
    var meta := UserMetaRepository.GetAllByUserID(db, found.value.user.id, metaFails);
    var values := if meta.Ok? then meta.value else map[];
    var resp := MapToUserResponse(found.value);
    r := Ok(resp.(metaData := values));
  }
}
