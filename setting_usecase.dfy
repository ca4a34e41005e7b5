/** The settings use case (internal/usecase/setting_usecase.go): the
    settings table with a cache-aside copy of the whole table, as one map,
    under a single cache key. Writes go to the table and then remove the
    cached copy; a read that misses fills it from the table.

    The cache is coherent when it holds no copy or holds exactly the
    table's map. Every operation keeps coherence under sequential execution
    as long as the cache calls that remove the copy succeed; the source
    ignores their errors, and a failed removal leaves a stale copy. */
module SettingUseCase {
  import opened Common
  import opened Entities
  import opened Store
  import opened Caching
  import opened SettingRepository

  /** The cache key of the settings map. It is declared outside the
      repository's sources; any text not of the form "user_meta:…" will do. */
  const SettingsCacheKey: string := "settings"

  datatype SettingResponse = SettingResponse(key: string, value: string)

  /** The cached copy, if any, is the table's map. */
  predicate Coherent(settings: seq<Setting>, entries: map<string, map<string, string>>) {
    SettingsCacheKey in entries ==> entries[SettingsCacheKey] == SettingsMap(settings)
  }

  /** CreateOrUpdate: the setting is saved, then the cached copy removed. */
  method CreateOrUpdate(db: Database, cache: Cache, key: string, value: string, storeFails: bool, cacheFails: bool)
    returns (err: Option<string>)
    requires db.Valid()
    modifies db`settings, cache
    ensures db.Valid()
    ensures storeFails ==> err.Some? && db.settings == old(db.settings) && cache.entries == old(cache.entries)
    ensures !storeFails ==>
              && err.None?
              && db.settings == Common.Upsert(old(db.settings), Setting(key, value), SettingKey)
              && cache.entries == (if cacheFails then old(cache.entries) else old(cache.entries) - {SettingsCacheKey})
              && SettingsMap(db.settings) == SettingsMap(old(db.settings))[key := value]
    ensures Coherent(old(db.settings), old(cache.entries)) && (storeFails || !cacheFails)
            ==> Coherent(db.settings, cache.entries)
  {
    UpsertSettingsMap(db.settings, Setting(key, value));
    err := SettingRepository.Upsert(db, Setting(key, value), storeFails);
    if err.Some? {
      return err;
    }
    cache.Delete(SettingsCacheKey, cacheFails);
  }

  /** updateSettingsCache: the whole table is read and cached, unless the
      read or the cache call fails. */
  method UpdateSettingsCache(db: Database, cache: Cache, findFails: bool, setFails: bool)
    modifies cache
    ensures cache.entries == if findFails || setFails then old(cache.entries)
                             else old(cache.entries)[SettingsCacheKey := SettingsMap(db.settings)]
    ensures Coherent(db.settings, old(cache.entries)) ==> Coherent(db.settings, cache.entries)
  {
    var settings := SettingRepository.FindAll(db, findFails);
    if settings.Ok? {
      var m := MapOfSettings(settings.value);
      cache.Set(SettingsCacheKey, m, setFails);
    }
  }

  /** The loop that turns the rows into a map. */
  method MapOfSettings(rows: seq<Setting>) returns (m: map<string, string>)
    ensures m == SettingsMap(rows)
  {
    m := map[];
    for i := 0 to |rows|
      invariant m == SettingsMap(rows[..i])
    {
      assert rows[..i + 1][..i] == rows[..i];
      m := m[rows[i].key := rows[i].value];
    }
    assert rows[..|rows|] == rows;
  }

  /** GetByKey: a cached copy that has the key answers; otherwise the table
      does, a missing key being gorm's not-found error, and a found key
      refreshes the cached copy. The refresh runs in a goroutine in the
      source; here it runs before the answer is returned (`refreshFails`
      covers both of its calls). */
  method GetByKey(db: Database, cache: Cache, key: string, getFails: bool, refreshFails: bool)
    returns (r: Result<SettingResponse>)
    modifies cache
    ensures var hit := !getFails && SettingsCacheKey in old(cache.entries) && key in old(cache.entries)[SettingsCacheKey];
            if hit then r == Ok(SettingResponse(key, old(cache.entries)[SettingsCacheKey][key])) && cache.entries == old(cache.entries)
            else match FindByKey(db.settings, key)
              case None => r == Err(ErrRecordNotFound) && cache.entries == old(cache.entries)
              case Some(s) =>
                && r == Ok(SettingResponse(s.key, s.value))
                && cache.entries == (if refreshFails then old(cache.entries)
                                     else old(cache.entries)[SettingsCacheKey := SettingsMap(db.settings)])
    ensures Coherent(db.settings, old(cache.entries)) ==> Coherent(db.settings, cache.entries)
    ensures Coherent(db.settings, old(cache.entries)) && DistinctBy(db.settings, SettingKey) ==>
              (r.Ok? <==> key in SettingsMap(db.settings))
              && (r.Ok? ==> r.value == SettingResponse(key, SettingsMap(db.settings)[key]))
  {
    SettingsMapKeys(db.settings, key);
    var cached := cache.Get(SettingsCacheKey, getFails);
    if cached.Some? && key in cached.value {
      return Ok(SettingResponse(key, cached.value[key]));
    }
    var found := FindByKey(db.settings, key);
    if found.None? {
      return Err(ErrRecordNotFound);
    }
    UpdateSettingsCache(db, cache, refreshFails, refreshFails);
    if DistinctBy(db.settings, SettingKey) {
      SettingsMapValues(db.settings, found.value);
    }
    return Ok(SettingResponse(found.value.key, found.value.value));
  }

  /** GetAll: the cached copy if there is one; otherwise the table's map,
      which is then cached. */
  method GetAll(db: Database, cache: Cache, getFails: bool, findFails: bool, setFails: bool)
    returns (r: Result<map<string, string>>)
    modifies cache
    ensures !getFails && SettingsCacheKey in old(cache.entries) ==>
              r == Ok(old(cache.entries)[SettingsCacheKey]) && cache.entries == old(cache.entries)
    ensures (getFails || SettingsCacheKey !in old(cache.entries)) && findFails ==>
              r.Err? && cache.entries == old(cache.entries)
    ensures (getFails || SettingsCacheKey !in old(cache.entries)) && !findFails ==>
              && r == Ok(SettingsMap(db.settings))
              && cache.entries == (if setFails then old(cache.entries)
                                   else old(cache.entries)[SettingsCacheKey := SettingsMap(db.settings)])
    ensures Coherent(db.settings, old(cache.entries)) ==>
              Coherent(db.settings, cache.entries) && (r.Ok? ==> r.value == SettingsMap(db.settings))
  {
    var cached := cache.Get(SettingsCacheKey, getFails);
    if cached.Some? {
      return Ok(cached.value);
    }
    var settings := SettingRepository.FindAll(db, findFails);
    if settings.Err? {
      return Err(settings.error);
    }
    var m := MapOfSettings(settings.value);
    cache.Set(SettingsCacheKey, m, setFails);
    return Ok(m);
  }

  /** Delete: the row is removed, then the cached copy. */
  method Delete(db: Database, cache: Cache, key: string, storeFails: bool, cacheFails: bool)
    returns (err: Option<string>)
    requires db.Valid()
    modifies db`settings, cache
    ensures db.Valid()
    ensures storeFails ==> err.Some? && db.settings == old(db.settings) && cache.entries == old(cache.entries)
    ensures !storeFails ==>
              && err.None?
              && db.settings == RemoveKey(old(db.settings), key, SettingKey)
              && cache.entries == (if cacheFails then old(cache.entries) else old(cache.entries) - {SettingsCacheKey})
              && SettingsMap(db.settings) == SettingsMap(old(db.settings)) - {key}
    ensures Coherent(old(db.settings), old(cache.entries)) && (storeFails || !cacheFails)
            ==> Coherent(db.settings, cache.entries)
  {
    RemoveSettingsMap(db.settings, key);
    err := SettingRepository.Delete(db, key, storeFails);
    if err.Some? {
      return err;
    }
    cache.Delete(SettingsCacheKey, cacheFails);
  }

  /** An expiring entry keeps the cache coherent. */
  method Expire(db: Database, cache: Cache)
    modifies cache
    ensures cache.entries == old(cache.entries) - {SettingsCacheKey}
    ensures Coherent(db.settings, cache.entries)
  {
    cache.Expire(SettingsCacheKey);
  }

  /** A cached copy that was coherent is stale after a save that changes a
      value and whose cache removal fails: readers then get the old value. */
  lemma StaleAfterFailedRemoval(settings: seq<Setting>, entries: map<string, map<string, string>>, key: string, value: string)
    requires DistinctBy(settings, SettingKey) && Coherent(settings, entries) && SettingsCacheKey in entries
    requires key !in SettingsMap(settings) || SettingsMap(settings)[key] != value
    ensures !Coherent(Common.Upsert(settings, Setting(key, value), SettingKey), entries)
  {
    UpsertSettingsMap(settings, Setting(key, value));
    var after := SettingsMap(settings)[key := value];
    assert after[key] == value;
  }
}
