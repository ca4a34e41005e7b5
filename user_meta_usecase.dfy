/** The user-metadata use case (internal/usecase/user_meta_usecase.go): the
    user_metas rows with a cache-aside copy of each user's key/value map,
    under a key of its own per user. Writes go to the table and then remove
    that user's copy; a read that misses fills it from the table.

    A user's copy is coherent when it is absent or equals the user's map.
    Every operation keeps every user's copy coherent under sequential
    execution as long as the cache calls that remove a copy succeed. The
    authentication and user use cases also write user_metas, without
    touching the cache; UnflushedWriteIsStale states what that does to a
    cached copy. */
module UserMetaUseCase {
  import opened Common
  import opened Uuids
  import opened Entities
  import opened Store
  import opened Caching
  import opened UserDto
  import opened UserMetaRepository
  import SettingUseCase

  const MetaCacheKeyPrefix: string := "user_meta:"

  /** getUserMetaCacheKey: "user_meta:" followed by the UUID's text. */
  function MetaCacheKey(userId: Uuid): (k: string)
    ensures |k| == |MetaCacheKeyPrefix| + 36 && k[..|MetaCacheKeyPrefix|] == MetaCacheKeyPrefix
  {
    MetaCacheKeyPrefix + UuidString(userId)
  }

  /** Distinct users get distinct cache keys. */
  lemma MetaCacheKeyInjective(a: Uuid, b: Uuid)
    ensures MetaCacheKey(a) == MetaCacheKey(b) ==> a == b
  {
    var n := |MetaCacheKeyPrefix|;
    if MetaCacheKey(a) == MetaCacheKey(b) {
      assert MetaCacheKey(a)[n..] == UuidString(a);
      assert MetaCacheKey(b)[n..] == UuidString(b);
      UuidStringInjective(a, b);
    }
  }

  /** No user's cache key is the settings cache key. */
  lemma MetaCacheKeyNotSettings(u: Uuid)
    ensures MetaCacheKey(u) != SettingUseCase.SettingsCacheKey
  {
  }

  /** The user's cached copy, if any, is the user's map. */
  predicate MetaCoherent(metas: seq<UserMeta>, entries: map<string, map<string, string>>, userId: Uuid) {
    MetaCacheKey(userId) in entries ==> entries[MetaCacheKey(userId)] == MetaMap(FindByUserID(metas, userId))
  }

  /** Every user's cached copy is coherent. */
  predicate AllCoherent(metas: seq<UserMeta>, entries: map<string, map<string, string>>) {
    forall u :: MetaCoherent(metas, entries, u)
  }

  /** A write for `userId` followed by the removal of that user's copy keeps
      every copy coherent: the user's is gone, and no other user's rows or
      copy changed. */
  lemma FlushedWriteCoherent(before: seq<UserMeta>, after: seq<UserMeta>, entries: map<string, map<string, string>>,
                             userId: Uuid)
    requires AllCoherent(before, entries)
    requires forall other :: other != userId ==> FindByUserID(after, other) == FindByUserID(before, other)
    ensures AllCoherent(after, entries - {MetaCacheKey(userId)})
  {
    var e := entries - {MetaCacheKey(userId)};
    forall u ensures MetaCoherent(after, e, u) {
      if u != userId {
        MetaCacheKeyInjective(u, userId);
        assert MetaCoherent(before, entries, u);
      }
    }
  }

  /** CreateOrUpdate: the user's first row with the key takes the value, or
      a row is created; a failing lookup other than not-found is reported
      with nothing written; after the write the user's copy is removed. */
  method CreateOrUpdate(db: Database, cache: Cache, userId: Uuid, key: string, value: string,
                        lookupFails: bool, writeFails: bool, cacheFails: bool)
    returns (err: Option<string>)
    requires db.Valid()
    modifies db`userMetas, db`nextMetaId, cache
    ensures db.Valid()
    ensures lookupFails || writeFails ==>
              && err.Some? && db.userMetas == old(db.userMetas) && db.nextMetaId == old(db.nextMetaId)
              && cache.entries == old(cache.entries)
    ensures !lookupFails && !writeFails ==>
              && err.None?
              && db.userMetas == SaveValue(old(db.userMetas), old(db.nextMetaId), userId, key, value)
              && cache.entries == (if cacheFails then old(cache.entries) else old(cache.entries) - {MetaCacheKey(userId)})
    ensures AllCoherent(old(db.userMetas), old(cache.entries)) && (lookupFails || writeFails || !cacheFails)
            ==> AllCoherent(db.userMetas, cache.entries)
  {
    if lookupFails {
      return Some(ErrQueryFailed);
    }
    ghost var before := db.userMetas;
    var existing := FindByUserIDAndKey(db.userMetas, userId, key);
    if existing.Some? {
      assert existing.value in db.userMetas;
      err := UserMetaRepository.Update(db, existing.value.(value := value), writeFails);
      if err.Some? {
        return err;
      }
    } else {
      var created := UserMetaRepository.Create(db, key, value, userId, writeFails);
      if created.Err? {
        return Some(created.error);
      }
    }
    forall other | other != userId
      ensures FindByUserID(db.userMetas, other) == FindByUserID(before, other)
    {
      SaveValueKeepsOthers(before, old(db.nextMetaId), userId, key, value, other);
    }
    if AllCoherent(before, cache.entries) {
      FlushedWriteCoherent(before, db.userMetas, cache.entries, userId);
    }
    cache.Delete(MetaCacheKey(userId), cacheFails);
    return None;
  }

  /** updateUserMetaCache: the user's map is read and cached, unless the
      read or the cache call fails. */
  method UpdateUserMetaCache(db: Database, cache: Cache, userId: Uuid, findFails: bool, setFails: bool)
    modifies cache
    ensures cache.entries == if findFails || setFails then old(cache.entries)
                             else old(cache.entries)[MetaCacheKey(userId) := MetaMap(FindByUserID(db.userMetas, userId))]
    ensures AllCoherent(db.userMetas, old(cache.entries)) ==> AllCoherent(db.userMetas, cache.entries)
  {
    var m := UserMetaRepository.GetAllByUserID(db, userId, findFails);
    if m.Ok? {
      cache.Set(MetaCacheKey(userId), m.value, setFails);
      CachedCopyCoherent(db.userMetas, old(cache.entries), userId);
    }
  }

  /** Caching a user's map keeps every copy coherent. */
  lemma CachedCopyCoherent(metas: seq<UserMeta>, entries: map<string, map<string, string>>, userId: Uuid)
    ensures AllCoherent(metas, entries) ==>
              AllCoherent(metas, entries[MetaCacheKey(userId) := MetaMap(FindByUserID(metas, userId))])
  {
    var e := entries[MetaCacheKey(userId) := MetaMap(FindByUserID(metas, userId))];
    if AllCoherent(metas, entries) {
      forall u ensures MetaCoherent(metas, e, u) {
        if u != userId {
          MetaCacheKeyInjective(u, userId);
          assert MetaCoherent(metas, entries, u);
        }
      }
    }
  }

  /** GetByKey: a cached copy that has the key answers, with id 0 and the
      nil user id since the copy holds only values; otherwise the user's
      first row with the key answers in full and refreshes the copy, and no
      such row is gorm's not-found error. The refresh runs in a goroutine
      in the source; here it runs before the answer is returned. */
  method GetByKey(db: Database, cache: Cache, userId: Uuid, key: string, getFails: bool, refreshFails: bool)
    returns (r: Result<UserMetaResponse>)
    modifies cache
    ensures var ck := MetaCacheKey(userId);
            var hit := !getFails && ck in old(cache.entries) && key in old(cache.entries)[ck];
            if hit then r == Ok(UserMetaResponse(0, key, old(cache.entries)[ck][key], Nil)) && cache.entries == old(cache.entries)
            else match FindByUserIDAndKey(db.userMetas, userId, key)
              case None => r == Err(ErrRecordNotFound) && cache.entries == old(cache.entries)
              case Some(m) =>
                && r == Ok(MetaResponse(m))
                && cache.entries == (if refreshFails then old(cache.entries)
                                     else old(cache.entries)[ck := MetaMap(FindByUserID(db.userMetas, userId))])
    ensures AllCoherent(db.userMetas, old(cache.entries)) ==> AllCoherent(db.userMetas, cache.entries)
    ensures db.Valid() && MetaCoherent(db.userMetas, old(cache.entries), userId) && OneRowFor(db.userMetas, userId, key) ==>
              var values := MetaMap(FindByUserID(db.userMetas, userId));
              && (r.Ok? <==> key in values)
              && (r.Ok? ==> r.value.key == key && r.value.value == values[key])
  {
    MetaMapKeys(FindByUserID(db.userMetas, userId), key);
    var cached := cache.Get(MetaCacheKey(userId), getFails);
    if cached.Some? && key in cached.value {
      return Ok(UserMetaResponse(0, key, cached.value[key], Nil));
    }
    var found := FindByUserIDAndKey(db.userMetas, userId, key);
    if found.None? {
      assert forall i :: 0 <= i < |FindByUserID(db.userMetas, userId)| ==>
               FindByUserID(db.userMetas, userId)[i] in FindByUserID(db.userMetas, userId);
      return Err(ErrRecordNotFound);
    }
    UpdateUserMetaCache(db, cache, userId, refreshFails, refreshFails);
    if db.Valid() && OneRowFor(db.userMetas, userId, key) {
      OneRowValue(db.userMetas, found.value);
    }
    return Ok(MetaResponse(found.value));
  }

  /** GetAllByUserID: the user's cached copy if there is one; otherwise the
      user's map, which is then cached. */
  method GetAllByUserID(db: Database, cache: Cache, userId: Uuid, getFails: bool, findFails: bool, setFails: bool)
    returns (r: Result<map<string, string>>)
    modifies cache
    ensures var ck := MetaCacheKey(userId);
            if !getFails && ck in old(cache.entries) then r == Ok(old(cache.entries)[ck]) && cache.entries == old(cache.entries)
            else if findFails then r.Err? && cache.entries == old(cache.entries)
            else
              && r == Ok(MetaMap(FindByUserID(db.userMetas, userId)))
              && cache.entries == (if setFails then old(cache.entries)
                                   else old(cache.entries)[ck := MetaMap(FindByUserID(db.userMetas, userId))])
    ensures AllCoherent(db.userMetas, old(cache.entries)) ==> AllCoherent(db.userMetas, cache.entries)
    ensures MetaCoherent(db.userMetas, old(cache.entries), userId) && r.Ok? ==>
              r.value == MetaMap(FindByUserID(db.userMetas, userId))
  {
    var cached := cache.Get(MetaCacheKey(userId), getFails);
    if cached.Some? {
      return Ok(cached.value);
    }
    var m := UserMetaRepository.GetAllByUserID(db, userId, findFails);
    if m.Err? {
      return Err(m.error);
    }
    cache.Set(MetaCacheKey(userId), m.value, setFails);
    CachedCopyCoherent(db.userMetas, old(cache.entries), userId);
    return Ok(m.value);
  }

  /** Delete: the user's first row with the key is removed, then the user's
      copy; no such row is gorm's not-found error with nothing changed. */
  method Delete(db: Database, cache: Cache, userId: Uuid, key: string, lookupFails: bool, deleteFails: bool,
                cacheFails: bool)
    returns (err: Option<string>)
    requires db.Valid()
    modifies db`userMetas, cache
    ensures db.Valid()
    ensures lookupFails || deleteFails || FindByUserIDAndKey(old(db.userMetas), userId, key).None? ==>
              err.Some? && db.userMetas == old(db.userMetas) && cache.entries == old(cache.entries)
    ensures !lookupFails && FindByUserIDAndKey(old(db.userMetas), userId, key).None? ==> err == Some(ErrRecordNotFound)
    ensures !lookupFails && !deleteFails && FindByUserIDAndKey(old(db.userMetas), userId, key).Some? ==>
              && err.None?
              && db.userMetas == RemoveKey(old(db.userMetas), FindByUserIDAndKey(old(db.userMetas), userId, key).value.id, MetaId)
              && cache.entries == (if cacheFails then old(cache.entries) else old(cache.entries) - {MetaCacheKey(userId)})
              && (OneRowFor(old(db.userMetas), userId, key) ==>
                    MetaMap(FindByUserID(db.userMetas, userId)) == MetaMap(FindByUserID(old(db.userMetas), userId)) - {key})
    ensures AllCoherent(old(db.userMetas), old(cache.entries)) && (err.Some? || !cacheFails)
            ==> AllCoherent(db.userMetas, cache.entries)
  {
    if lookupFails {
      return Some(ErrQueryFailed);
    }
    var found := FindByUserIDAndKey(db.userMetas, userId, key);
    if found.None? {
      return Some(ErrRecordNotFound);
    }
    var m := found.value;
    ghost var before := db.userMetas;
    err := UserMetaRepository.Delete(db, m.id, deleteFails);
    if err.Some? {
      return err;
    }
    forall other | other != userId
      ensures FindByUserID(db.userMetas, other) == FindByUserID(before, other)
    {
      RemoveRowKeepsOthers(before, m, other);
    }
    if OneRowFor(before, userId, key) {
      RemoveRowReadsBack(before, m);
    }
    if AllCoherent(before, cache.entries) {
      FlushedWriteCoherent(before, db.userMetas, cache.entries, userId);
    }
    cache.Delete(MetaCacheKey(userId), cacheFails);
  }

  /** Removing a row never touches another user's rows. */
  lemma RemoveRowKeepsOthers(metas: seq<UserMeta>, m: UserMeta, other: Uuid)
    requires DistinctBy(metas, MetaId) && m in metas && other != m.userId
    ensures FindByUserID(RemoveKey(metas, m.id, MetaId), other) == FindByUserID(metas, other)
  {
    var notId := KeyIsNot(MetaId, m.id);
    var theirs := (x: UserMeta) => x.userId == other;
    FilterCommute(metas, notId, theirs);
    forall x | x in FindByUserID(metas, other) ensures notId(x) {
      if x.id == m.id {
        KeyedUnique(metas, MetaId, x, m);
      }
    }
    FilterAll(FindByUserID(metas, other), notId);
  }

  /** An expiring entry keeps every copy coherent. */
  method Expire(db: Database, cache: Cache, userId: Uuid)
    modifies cache
    ensures cache.entries == old(cache.entries) - {MetaCacheKey(userId)}
    ensures AllCoherent(db.userMetas, old(cache.entries)) ==> AllCoherent(db.userMetas, cache.entries)
  {
    cache.Expire(MetaCacheKey(userId));
    ghost var e := old(cache.entries);
    if AllCoherent(db.userMetas, e) {
      forall u ensures MetaCoherent(db.userMetas, cache.entries, u) {
        assert MetaCoherent(db.userMetas, e, u);
      }
    }
  }

  /** A save that changes a user's value without removing the user's copy,
      as the authentication and user use cases do, leaves a coherent copy
      stale. */
  lemma UnflushedWriteIsStale(metas: seq<UserMeta>, nextId: nat, entries: map<string, map<string, string>>,
                              userId: Uuid, key: string, value: string)
    requires DistinctBy(metas, MetaId) && OneRowFor(metas, userId, key)
    requires MetaCoherent(metas, entries, userId) && MetaCacheKey(userId) in entries
    requires var values := MetaMap(FindByUserID(metas, userId)); key !in values || values[key] != value
    ensures !MetaCoherent(SaveValue(metas, nextId, userId, key, value), entries, userId)
  {
    SaveValueReadsBack(metas, nextId, userId, key, value);
    var after := MetaMap(FindByUserID(metas, userId))[key := value];
    assert after[key] == value;
  }

  /** When a user has two rows for a key, a cached copy and the table answer
      GetByKey differently: the copy holds the later row's value, the table
      lookup returns the first row. */
  lemma DuplicateRowsDisagree(userId: Uuid)
    ensures var metas := [UserMeta(1, "k", "a", userId), UserMeta(2, "k", "b", userId)];
            && FindByUserIDAndKey(metas, userId, "k") == Some(UserMeta(1, "k", "a", userId))
            && MetaMap(FindByUserID(metas, userId)) == map["k" := "b"]
  {
    var metas := [UserMeta(1, "k", "a", userId), UserMeta(2, "k", "b", userId)];
    assert FindByUserID(metas, userId) == metas;
    assert metas[..1] == [UserMeta(1, "k", "a", userId)];
    assert metas[..1][..0] == [];
    assert MetaMap(metas[..1]) == map["k" := "a"];
    assert MetaMap(metas) == map["k" := "a"]["k" := "b"];
  }
}
