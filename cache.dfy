/** The key/value cache (pkg/cache/cache.go) that the settings and user-meta
    use cases put in front of the database. Both only ever store a
    string-to-string map under a key, so an entry is held here as the map
    itself: the JSON encoding on Set and the decoding the use cases apply
    after Get are taken to round-trip. A Redis error is a `fails` flag. */
module Caching {
  import opened Common

  class Cache {
    var entries: map<string, map<string, string>>

    /** An empty cache. */
    constructor ()
      ensures entries == map[]
    {
      entries := map[];
    }

    /** Get: the entry under `key`; a missing key and a failing call are both
        a miss. */
    method Get(key: string, fails: bool) returns (r: Option<map<string, string>>)
      ensures fails ==> r.None?
      ensures !fails ==> (r.Some? <==> key in entries)
      ensures r.Some? ==> key in entries && r.value == entries[key]
    {
      if fails || key !in entries {
        return None;
      }
      return Some(entries[key]);
    }

    /** Set: the entry under `key` becomes `value`, unless the call fails. */
    method Set(key: string, value: map<string, string>, fails: bool)
      modifies this
      ensures entries == if fails then old(entries) else old(entries)[key := value]
    {
      if !fails {
        entries := entries[key := value];
      }
    }

    /** Delete: the entry under `key` is gone, unless the call fails. */
    method Delete(key: string, fails: bool)
      modifies this
      ensures entries == if fails then old(entries) else old(entries) - {key}
    {
      if !fails {
        entries := entries - {key};
      }
    }

    /** The end of an entry's time to live. */
    method Expire(key: string)
      modifies this
      ensures entries == old(entries) - {key}
    {
      entries := entries - {key};
    }
  }
}
