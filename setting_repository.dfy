/** The settings table (domain/repositories/setting_repository.go): rows
    keyed by their `key` column, read whole or by key, saved by primary key
    and deleted by key. A failing query is a `fails` flag. */
module SettingRepository {
  import opened Common
  import opened Entities
  import opened Store

  /** FindByKey: the row with that key, if any. */
  function FindByKey(settings: seq<Setting>, key: string): (r: Option<Setting>)
    ensures r.Some? ==> r.value in settings && r.value.key == key
    ensures r.None? <==> forall s :: s in settings ==> s.key != key
  {
    FindFirst(settings, (s: Setting) => s.key == key)
  }

  /** FindAll: every row, in table order. */
  method FindAll(db: Database, fails: bool) returns (r: Result<seq<Setting>>)
    ensures fails ==> r.Err?
    ensures !fails ==> r == Ok(db.settings)
  {
    if fails {
      return Err(ErrQueryFailed);
    }
    return Ok(db.settings);
  }

  /** Upsert (gorm Save): the row with the setting's key takes its value, or
      the setting is added. */
  method Upsert(db: Database, s: Setting, fails: bool) returns (err: Option<string>)
    requires db.Valid()
    modifies db`settings
    ensures db.Valid()
    ensures fails ==> err.Some? && db.settings == old(db.settings)
    ensures !fails ==> err.None? && db.settings == Common.Upsert(old(db.settings), s, SettingKey)
  {
    if fails {
      return Some(ErrQueryFailed);
    }
    db.settings := Common.Upsert(db.settings, s, SettingKey);
    return None;
  }

  /** Delete: the row with that key is removed; deleting a key that no row
      has is not an error. */
  method Delete(db: Database, key: string, fails: bool) returns (err: Option<string>)
    requires db.Valid()
    modifies db`settings
    ensures db.Valid()
    ensures fails ==> err.Some? && db.settings == old(db.settings)
    ensures !fails ==> err.None? && db.settings == RemoveKey(old(db.settings), key, SettingKey)
  {
    if fails {
      return Some(ErrQueryFailed);
    }
    db.settings := RemoveKey(db.settings, key, SettingKey);
    return None;
  }

  /** The settings as a map, as the use case's loop builds it: key to value,
      a later row overriding an earlier one. */
  function SettingsMap(rows: seq<Setting>): map<string, string>
    decreases |rows|
  {
    if |rows| == 0 then map[]
    else
      var last := rows[|rows| - 1];
      SettingsMap(rows[..|rows| - 1])[last.key := last.value]
  }

  /** The map's keys are the rows' keys. */
  lemma {:induction false} SettingsMapKeys(rows: seq<Setting>, k: string)
    ensures k in SettingsMap(rows) <==> exists s :: s in rows && s.key == k
    decreases |rows|
  {
    if |rows| > 0 {
      var front := rows[..|rows| - 1];
      SettingsMapKeys(front, k);
      assert forall s :: s in rows <==> s in front || s == rows[|rows| - 1];
    }
  }

  /** With distinct keys, every row's value is what the map gives for its key. */
  lemma {:induction false} SettingsMapValues(rows: seq<Setting>, s: Setting)
    requires DistinctBy(rows, SettingKey) && s in rows
    ensures s.key in SettingsMap(rows) && SettingsMap(rows)[s.key] == s.value
    decreases |rows|
  {
    var n := |rows|;
    var front, last := rows[..n - 1], rows[n - 1];
    if s != last {
      assert s in front by {
        var i :| 0 <= i < n && rows[i] == s;
        assert i != n - 1;
        assert front[i] == s;
      }
      assert DistinctBy(front, SettingKey) by {
        forall i, j | 0 <= i < j < |front| ensures front[i].key != front[j].key {
          assert front[i] == rows[i] && front[j] == rows[j];
        }
      }
      var i :| 0 <= i < n - 1 && front[i] == s;
      assert rows[i] == s;
      assert s.key != last.key;
      SettingsMapValues(front, s);
    }
  }

  /** Saving a setting binds its key to its value and leaves the other keys. */
  lemma UpsertSettingsMap(rows: seq<Setting>, s: Setting)
    requires DistinctBy(rows, SettingKey)
    ensures SettingsMap(Common.Upsert(rows, s, SettingKey)) == SettingsMap(rows)[s.key := s.value]
  {
    var after := Common.Upsert(rows, s, SettingKey);
    var a, b := SettingsMap(after), SettingsMap(rows)[s.key := s.value];
    forall k ensures k in a <==> k in b {
      UpsertSettingsKey(rows, s, k);
    }
    UpsertSettingsValue(rows, s);
    forall k | k in a && k != s.key ensures a[k] == b[k] {
      UpsertSettingsOther(rows, s, k);
    }
  }

  /** After saving, the keys are the old keys and the saved one. */
  lemma UpsertSettingsKey(rows: seq<Setting>, s: Setting, k: string)
    ensures k in SettingsMap(Common.Upsert(rows, s, SettingKey)) <==> k in SettingsMap(rows) || k == s.key
  {
    var after := Common.Upsert(rows, s, SettingKey);
    SettingsMapKeys(after, k);
    SettingsMapKeys(rows, k);
    if k in SettingsMap(rows) && k != s.key {
      var x :| x in rows && x.key == k;
      assert x in after;
    }
    if k == s.key {
      assert s in after;
    }
  }

  /** After saving, the saved key holds the saved value. */
  lemma UpsertSettingsValue(rows: seq<Setting>, s: Setting)
    requires DistinctBy(rows, SettingKey)
    ensures s.key in SettingsMap(Common.Upsert(rows, s, SettingKey))
    ensures SettingsMap(Common.Upsert(rows, s, SettingKey))[s.key] == s.value
  {
    var after := Common.Upsert(rows, s, SettingKey);
    assert s in after;
    SettingsMapValues(after, s);
  }

  /** After saving, every other key holds its old value. */
  lemma UpsertSettingsOther(rows: seq<Setting>, s: Setting, k: string)
    requires DistinctBy(rows, SettingKey)
    requires k in SettingsMap(Common.Upsert(rows, s, SettingKey)) && k != s.key
    ensures k in SettingsMap(rows) && SettingsMap(Common.Upsert(rows, s, SettingKey))[k] == SettingsMap(rows)[k]
  {
    var after := Common.Upsert(rows, s, SettingKey);
    SettingsMapKeys(after, k);
    var x :| x in after && x.key == k;
    SettingsMapValues(after, x);
    assert x in rows;
    SettingsMapValues(rows, x);
  }



  /** Deleting a key removes it from the map and leaves the other keys. */
  lemma RemoveSettingsMap(rows: seq<Setting>, key: string)
    requires DistinctBy(rows, SettingKey)
    ensures SettingsMap(RemoveKey(rows, key, SettingKey)) == SettingsMap(rows) - {key}
  {
    var after := RemoveKey(rows, key, SettingKey);
    var a, b := SettingsMap(after), SettingsMap(rows) - {key};
    forall k ensures k in a <==> k in b {
      SettingsMapKeys(after, k);
      SettingsMapKeys(rows, k);
    }
    forall k | k in a ensures a[k] == b[k] {
      SettingsMapKeys(after, k);
      var x :| x in after && x.key == k;
      SettingsMapValues(after, x);
      SettingsMapValues(rows, x);
    }
  }
}
