/** The user-metadata repository (domain/repositories/user_meta_repository.go):
    key/value rows per user, with an auto-incremented id. */
module UserMetaRepository {
  import opened Common
  import opened Uuids
  import opened Entities
  import opened Store

  /** FindByUserID: the user's rows in table order. */
  function FindByUserID(metas: seq<UserMeta>, userId: Uuid): (r: seq<UserMeta>)
    ensures forall m :: m in r <==> m in metas && m.userId == userId
  {
    Filter(metas, (m: UserMeta) => m.userId == userId)
  }

  /** FindByUserIDAndKey: the user's first row with that key. */
  function FindByUserIDAndKey(metas: seq<UserMeta>, userId: Uuid, key: string): (r: Option<UserMeta>)
    ensures r.Some? ==> r.value in metas && r.value.userId == userId && r.value.key == key
    ensures r.None? <==> forall m :: m in metas ==> !(m.userId == userId && m.key == key)
  {
    FindFirst(metas, (m: UserMeta) => m.userId == userId && m.key == key)
  }

  /** Rows folded into a map in order: a later row replaces an earlier value
      of the same key. */
  function MetaMap(rows: seq<UserMeta>): map<string, string> {
    if |rows| == 0 then map[]
    else MetaMap(rows[..|rows| - 1])[rows[|rows| - 1].key := rows[|rows| - 1].value]
  }

  /** The map has a key exactly when some row has it. */
  lemma {:induction false} MetaMapKeys(rows: seq<UserMeta>, k: string)
    ensures k in MetaMap(rows) <==> exists i :: 0 <= i < |rows| && rows[i].key == k
  {
    if |rows| > 0 {
      var front := rows[..|rows| - 1];
      MetaMapKeys(front, k);
      if k in MetaMap(front) {
        var i :| 0 <= i < |front| && front[i].key == k;
        assert rows[i].key == k;
      }
      if exists i :: 0 <= i < |rows| && rows[i].key == k {
        var i :| 0 <= i < |rows| && rows[i].key == k;
        if i < |rows| - 1 { assert front[i].key == k; }
      }
    }
  }

  /** The value of a key is that of the last row with the key. */
  lemma {:induction false} MetaMapLastWins(rows: seq<UserMeta>, i: nat)
    requires i < |rows|
    requires forall j :: i < j < |rows| ==> rows[j].key != rows[i].key
    ensures rows[i].key in MetaMap(rows) && MetaMap(rows)[rows[i].key] == rows[i].value
  {
    if i < |rows| - 1 {
      var front := rows[..|rows| - 1];
      assert front[i] == rows[i];
      MetaMapLastWins(front, i);
    }
  }

  /** GetAllByUserID: the user's rows folded into a key/value map. `fails`
      stands for a failing query. */
  method GetAllByUserID(db: Database, userId: Uuid, fails: bool) returns (r: Result<map<string, string>>)
    ensures fails ==> r.Err?
    ensures !fails ==> r == Ok(MetaMap(FindByUserID(db.userMetas, userId)))
  {
    if fails {
      return Err("query failed");
    }
    var rows := FindByUserID(db.userMetas, userId);
    var result: map<string, string> := map[];
    for i := 0 to |rows|
      invariant result == MetaMap(rows[..i])
    {
      assert rows[..i + 1][..i] == rows[..i];
      result := result[rows[i].key := rows[i].value];
    }
    assert rows[..|rows|] == rows;
    return Ok(result);
  }

  /** Create: inserts a row with the next id. `fails` stands for a failing insert. */
  method Create(db: Database, key: string, value: string, userId: Uuid, fails: bool)
    returns (r: Result<UserMeta>)
    requires db.Valid()
    modifies db`userMetas, db`nextMetaId
    ensures db.Valid()
    ensures fails ==> r.Err? && db.userMetas == old(db.userMetas) && db.nextMetaId == old(db.nextMetaId)
    ensures !fails ==>
              && r == Ok(UserMeta(old(db.nextMetaId), key, value, userId))
              && db.userMetas == old(db.userMetas) + [r.value]
              && db.nextMetaId == old(db.nextMetaId) + 1
  {
    if fails {
      return Err("insert failed");
    }
    var m := UserMeta(db.nextMetaId, key, value, userId);
    assert !HasKey(db.userMetas, m.id, MetaId) by {
      forall i | 0 <= i < |db.userMetas| ensures db.userMetas[i].id != m.id {
        assert db.userMetas[i] in db.userMetas;
      }
    }
    AppendFresh(db.userMetas, m, MetaId);
    db.userMetas := db.userMetas + [m];
    db.nextMetaId := db.nextMetaId + 1;
    return Ok(m);
  }

  /** Update: Save by id. `fails` stands for a failing write. */
  method Update(db: Database, m: UserMeta, fails: bool) returns (err: Option<string>)
    requires db.Valid()
    requires m.id < db.nextMetaId
    modifies db`userMetas
    ensures db.Valid()
    ensures fails ==> err.Some? && db.userMetas == old(db.userMetas)
    ensures !fails ==> err.None? && db.userMetas == Upsert(old(db.userMetas), m, MetaId)
  {
    if fails {
      return Some("update failed");
    }
    db.userMetas := Upsert(db.userMetas, m, MetaId);
    return None;
  }

  /** Delete: removes the row with that id; a missing id is not an error.
      `fails` stands for a failing delete. */
  method Delete(db: Database, id: nat, fails: bool) returns (err: Option<string>)
    requires db.Valid()
    modifies db`userMetas
    ensures db.Valid()
    ensures fails ==> err.Some? && db.userMetas == old(db.userMetas)
    ensures !fails ==> err.None? && db.userMetas == RemoveKey(old(db.userMetas), id, MetaId)
  {
    if fails {
      return Some("delete failed");
    }
    db.userMetas := RemoveKey(db.userMetas, id, MetaId);
    return None;
  }

  /** Replacing a row of one user leaves every other user's rows as they were. */
  lemma UpsertKeepsOtherUsers(metas: seq<UserMeta>, m: UserMeta, old_m: UserMeta, other: Uuid)
    requires DistinctBy(metas, MetaId)
    requires old_m in metas && old_m.id == m.id && old_m.userId == m.userId && other != m.userId
    ensures FindByUserID(Upsert(metas, m, MetaId), other) == FindByUserID(metas, other)
  {
    UpsertFilter(metas, m, other);
  }

  lemma {:induction false} UpsertFilter(metas: seq<UserMeta>, m: UserMeta, other: Uuid)
    requires other != m.userId
    requires forall x :: x in metas && x.id == m.id ==> x.userId == m.userId
    ensures FindByUserID(Upsert(metas, m, MetaId), other) == FindByUserID(metas, other)
  {
    var keep := (x: UserMeta) => x.userId == other;
    var up := Upsert(metas, m, MetaId);
    if exists i :: 0 <= i < |metas| && MetaId(metas[i]) == MetaId(m) {
      assert |up| == |metas|;
      assert forall i :: 0 <= i < |metas| ==> up[i] == (if metas[i].id == m.id then m else metas[i]);
      FilterPointwise(metas, up, keep);
    } else {
      FilterAppend(metas, m, keep);
    }
  }

  /** Filtering two sequences that agree on every kept position. */
  lemma {:induction false} FilterPointwise(a: seq<UserMeta>, b: seq<UserMeta>, keep: UserMeta -> bool)
    requires |a| == |b|
    requires forall i :: 0 <= i < |a| ==> keep(a[i]) == keep(b[i]) && (keep(a[i]) ==> a[i] == b[i])
    ensures Filter(a, keep) == Filter(b, keep)
  {
    if |a| > 0 {
      FilterPointwise(a[1..], b[1..], keep);
    }
  }

  lemma {:induction false} FilterAppend(a: seq<UserMeta>, x: UserMeta, keep: UserMeta -> bool)
    requires !keep(x)
    ensures Filter(a + [x], keep) == Filter(a, keep)
  {
    if |a| > 0 {
      assert (a + [x])[1..] == a[1..] + [x];
      FilterAppend(a[1..], x, keep);
    }
  }

  // ---------------------------------------------------------------------------
  // Saving a value under a (user, key) pair

  /** Whether at most one row holds `key` for `userId`. The table has no
      unique constraint on the pair, so this is not a table invariant. */
  predicate OneRowFor(metas: seq<UserMeta>, userId: Uuid, key: string) {
    forall x, y ::
      (x in metas && y in metas && x.userId == userId && x.key == key && y.userId == userId && y.key == key)
      ==> x == y
  }

  /** The table after the find-then-save that the use cases perform: the
      user's first row with that key takes the value in place, and when there
      is none a row with id `nextId` is appended. */
  function SaveValue(metas: seq<UserMeta>, nextId: nat, userId: Uuid, key: string, value: string): (r: seq<UserMeta>)
    ensures FindByUserIDAndKey(metas, userId, key).None? ==> r == metas + [UserMeta(nextId, key, value, userId)]
  {
    match FindByUserIDAndKey(metas, userId, key)
    case Some(m) => Upsert(metas, m.(value := value), MetaId)
    case None => metas + [UserMeta(nextId, key, value, userId)]
  }

  /** Saving reads back: the user's map is the old one with `key` bound to
      `value`, the pair keeps a single row, and no other user's rows change. */
  lemma SaveValueReadsBack(metas: seq<UserMeta>, nextId: nat, userId: Uuid, key: string, value: string)
    requires DistinctBy(metas, MetaId) && OneRowFor(metas, userId, key)
    ensures var after := SaveValue(metas, nextId, userId, key, value);
            && MetaMap(FindByUserID(after, userId)) == MetaMap(FindByUserID(metas, userId))[key := value]
            && OneRowFor(after, userId, key)
            && forall other :: other != userId ==> FindByUserID(after, other) == FindByUserID(metas, other)
  {
    match FindByUserIDAndKey(metas, userId, key)
    case Some(m) =>
      ReplaceReadsBack(metas, m, value);
      ReplaceKeepsOneRow(metas, m, value);
    case None =>
      AppendReadsBack(metas, UserMeta(nextId, key, value, userId));
      AppendKeepsOneRow(metas, UserMeta(nextId, key, value, userId));
  }

  /** Appending a row adds its key and value to its user's map, last. */
  lemma AppendReadsBack(metas: seq<UserMeta>, row: UserMeta)
    ensures MetaMap(FindByUserID(metas + [row], row.userId)) == MetaMap(FindByUserID(metas, row.userId))[row.key := row.value]
    ensures forall other :: other != row.userId ==> FindByUserID(metas + [row], other) == FindByUserID(metas, other)
  {
    var keep := (m: UserMeta) => m.userId == row.userId;
    FilterAppendKept(metas, row, keep);
    var front := FindByUserID(metas, row.userId);
    assert (front + [row])[..|front|] == front;
    forall other | other != row.userId
      ensures FindByUserID(metas + [row], other) == FindByUserID(metas, other)
    {
      FilterAppend(metas, row, (m: UserMeta) => m.userId == other);
    }
  }

  /** Appending keeps a single row for every other pair, and gives one to a
      pair that had none. */
  lemma AppendKeepsOneRow(metas: seq<UserMeta>, row: UserMeta)
    ensures forall u, k :: OneRowFor(metas, u, k) && (u != row.userId || k != row.key) ==> OneRowFor(metas + [row], u, k)
    ensures (forall x :: x in metas ==> !(x.userId == row.userId && x.key == row.key))
            ==> OneRowFor(metas + [row], row.userId, row.key)
  {
    assert forall x :: x in metas + [row] <==> x in metas || x == row;
  }

  lemma {:induction false} FilterAppendKept<T(!new)>(a: seq<T>, x: T, keep: T -> bool)
    requires keep(x)
    ensures Filter(a + [x], keep) == Filter(a, keep) + [x]
  {
    if |a| > 0 {
      assert (a + [x])[1..] == a[1..] + [x];
      FilterAppendKept(a[1..], x, keep);
    }
  }

  /** Overwriting the value of the single row of a (user, key) pair binds
      the key to the new value in the user's map. */
  lemma ReplaceReadsBack(metas: seq<UserMeta>, prev: UserMeta, value: string)
    requires DistinctBy(metas, MetaId) && prev in metas && OneRowFor(metas, prev.userId, prev.key)
    ensures var after := Upsert(metas, prev.(value := value), MetaId);
            && MetaMap(FindByUserID(after, prev.userId)) == MetaMap(FindByUserID(metas, prev.userId))[prev.key := value]
            && forall other :: other != prev.userId ==> FindByUserID(after, other) == FindByUserID(metas, other)
  {
    var row := prev.(value := value);
    var after := Upsert(metas, row, MetaId);
    var g := (x: UserMeta) => if x.id == prev.id then row else x;
    var i :| 0 <= i < |metas| && metas[i] == prev;
    assert MetaId(metas[i]) == MetaId(row);
    assert after == Mapped(metas, g);
    var keep := (m: UserMeta) => m.userId == prev.userId;
    forall x | x in metas ensures keep(g(x)) == keep(x) {
      if x.id == prev.id {
        KeyedUnique(metas, MetaId, x, prev);
      }
    }
    FilterMapped(metas, g, keep);
    var rows := FindByUserID(metas, prev.userId);
    forall x | x in rows && x.key == prev.key ensures g(x) == x.(value := value) {
      assert x == prev;
    }
    forall x | x in rows && x.key != prev.key ensures g(x) == x {
      if x.id == prev.id {
        KeyedUnique(metas, MetaId, x, prev);
      }
    }
    MetaMapMapped(rows, g, prev.key, value);
    forall other | other != prev.userId
      ensures FindByUserID(after, other) == FindByUserID(metas, other)
    {
      UpsertKeepsOtherUsers(metas, row, prev, other);
    }
  }

  /** Overwriting a value keeps a single row for every pair that had one. */
  lemma ReplaceKeepsOneRow(metas: seq<UserMeta>, prev: UserMeta, value: string)
    requires DistinctBy(metas, MetaId) && prev in metas
    ensures forall u, k :: OneRowFor(metas, u, k) ==> OneRowFor(Upsert(metas, prev.(value := value), MetaId), u, k)
  {
    var row := prev.(value := value);
    var after := Upsert(metas, row, MetaId);
    forall u, k | OneRowFor(metas, u, k) ensures OneRowFor(after, u, k) {
      forall x, y | x in after && y in after && x.userId == u && x.key == k && y.userId == u && y.key == k
        ensures x == y
      {
        if x == row || y == row {
          assert prev in metas && prev.userId == u && prev.key == k;
        }
      }
    }
  }

  /** Each row of `rows` passed through `g`. */
  function Mapped(rows: seq<UserMeta>, g: UserMeta -> UserMeta): (r: seq<UserMeta>)
    ensures |r| == |rows| && forall i :: 0 <= i < |rows| ==> r[i] == g(rows[i])
  {
    seq(|rows|, i requires 0 <= i < |rows| => g(rows[i]))
  }

  /** Filtering commutes with a map that keeps the filter's verdict. */
  lemma {:induction false} FilterMapped(a: seq<UserMeta>, g: UserMeta -> UserMeta, keep: UserMeta -> bool)
    requires forall x :: x in a ==> keep(g(x)) == keep(x)
    ensures Filter(Mapped(a, g), keep) == Mapped(Filter(a, keep), g)
  {
    if |a| > 0 {
      assert Mapped(a, g)[1..] == Mapped(a[1..], g);
      FilterMapped(a[1..], g, keep);
      if keep(a[0]) {
        assert Mapped([a[0]] + Filter(a[1..], keep), g) == [g(a[0])] + Mapped(Filter(a[1..], keep), g);
      }
    }
  }

  /** Giving every row of key `k` the value `v`, and leaving the others,
      binds `k` to `v` in the map when some row has that key. */
  lemma {:induction false} MetaMapMapped(rows: seq<UserMeta>, g: UserMeta -> UserMeta, k: string, v: string)
    requires forall x :: x in rows && x.key == k ==> g(x) == x.(value := v)
    requires forall x :: x in rows && x.key != k ==> g(x) == x
    ensures MetaMap(Mapped(rows, g))
              == if exists x :: x in rows && x.key == k then MetaMap(rows)[k := v] else MetaMap(rows)
  {
    if |rows| > 0 {
      var n := |rows|;
      var front, last := rows[..n - 1], rows[n - 1];
      assert rows == front + [last];
      assert Mapped(rows, g) == Mapped(front, g) + [g(last)];
      MetaMapMapped(front, g, k, v);
      MetaMapSnoc(front, last);
      MetaMapSnoc(Mapped(front, g), g(last));
      var hitFront := exists x :: x in front && x.key == k;
      var hit := exists x :: x in rows && x.key == k;
      var before := MetaMap(front);
      if last.key == k {
        assert hit by { assert last in rows; }
        MapOverwrite(before, k, last.value, v);
        if hitFront {
          MapOverwrite(before, k, v, v);
        }
      } else {
        assert hit == hitFront by {
          if hit {
            var x :| x in rows && x.key == k;
            assert x in front;
          }
        }
        if hitFront {
          MapCommute(before, k, v, last.key, last.value);
        }
      }
    }
  }

  lemma MapOverwrite(a: map<string, string>, k: string, w: string, v: string)
    ensures a[k := w][k := v] == a[k := v]
  {
  }

  lemma MapCommute(a: map<string, string>, k: string, v: string, j: string, w: string)
    requires j != k
    ensures a[k := v][j := w] == a[j := w][k := v]
  {
  }



  // ---------------------------------------------------------------------------
  // Reading one value, and removing a row

  /** Saving never touches another user's rows, whatever the user's rows
      for that key are. */
  lemma SaveValueKeepsOthers(metas: seq<UserMeta>, nextId: nat, userId: Uuid, key: string, value: string, other: Uuid)
    requires DistinctBy(metas, MetaId) && other != userId
    ensures FindByUserID(SaveValue(metas, nextId, userId, key, value), other) == FindByUserID(metas, other)
  {
    match FindByUserIDAndKey(metas, userId, key)
    case Some(m) =>
      UpsertKeepsOtherUsers(metas, m.(value := value), m, other);
    case None =>
      AppendReadsBack(metas, UserMeta(nextId, key, value, userId));
  }

  /** The value a pair's single row holds is what the user's map gives. */
  lemma OneRowValue(metas: seq<UserMeta>, m: UserMeta)
    requires DistinctBy(metas, MetaId) && m in metas && OneRowFor(metas, m.userId, m.key)
    ensures var map_ := MetaMap(FindByUserID(metas, m.userId));
            m.key in map_ && map_[m.key] == m.value
  {
    var keep := (x: UserMeta) => x.userId == m.userId;
    var rows := FindByUserID(metas, m.userId);
    FilterDistinct(metas, keep, MetaId);
    var i :| 0 <= i < |rows| && rows[i] == m;
    forall j | i < j < |rows| ensures rows[j].key != m.key {
      assert rows[j] in rows;
      assert MetaId(rows[i]) != MetaId(rows[j]);
    }
    MetaMapLastWins(rows, i);
  }

  /** Filters on two conditions can be applied in either order. */
  lemma {:induction false} FilterCommute(a: seq<UserMeta>, p: UserMeta -> bool, q: UserMeta -> bool)
    ensures Filter(Filter(a, p), q) == Filter(Filter(a, q), p)
  {
    if |a| > 0 {
      FilterCommute(a[1..], p, q);
    }
  }

  /** A filter every element passes keeps the sequence. */
  lemma {:induction false} FilterAll(a: seq<UserMeta>, p: UserMeta -> bool)
    requires forall x :: x in a ==> p(x)
    ensures Filter(a, p) == a
  {
    if |a| > 0 {
      assert forall x :: x in a[1..] ==> x in a;
      FilterAll(a[1..], p);
    }
  }

  /** Dropping exactly the rows of key `k` drops `k` from the map. */
  lemma {:induction false} MetaMapDropKey(rows: seq<UserMeta>, p: UserMeta -> bool, k: string)
    requires forall x :: x in rows ==> (p(x) <==> x.key != k)
    ensures MetaMap(Filter(rows, p)) == MetaMap(rows) - {k}
    decreases |rows|
  {
    if |rows| > 0 {
      var n := |rows|;
      var front, last := rows[..n - 1], rows[n - 1];
      assert rows == front + [last];
      assert forall x :: x in front ==> x in rows;
      MetaMapDropKey(front, p, k);
      var f := Filter(front, p);
      MetaMapSnoc(front, last);
      if p(last) {
        FilterAppendKept(front, last, p);
        MetaMapSnoc(f, last);
        MapRemoveThenUpdate(MetaMap(front), k, last.key, last.value);
      } else {
        FilterAppend(front, last, p);
        MapUpdateThenRemove(MetaMap(front), k, last.value);
      }
    }
  }

  /** A row put last binds its key to its value. */
  lemma MetaMapSnoc(rows: seq<UserMeta>, x: UserMeta)
    ensures MetaMap(rows + [x]) == MetaMap(rows)[x.key := x.value]
  {
    assert (rows + [x])[..|rows|] == rows;
  }


  lemma MapRemoveThenUpdate(a: map<string, string>, k: string, j: string, v: string)
    requires j != k
    ensures (a - {k})[j := v] == a[j := v] - {k}
  {
  }

  lemma MapUpdateThenRemove(a: map<string, string>, k: string, v: string)
    ensures a[k := v] - {k} == a - {k}
  {
  }

  /** Removing the single row of a pair drops its key from the user's map
      and leaves every other user's rows as they were. */
  lemma RemoveRowReadsBack(metas: seq<UserMeta>, m: UserMeta)
    requires DistinctBy(metas, MetaId) && m in metas && OneRowFor(metas, m.userId, m.key)
    ensures var after := RemoveKey(metas, m.id, MetaId);
            && MetaMap(FindByUserID(after, m.userId)) == MetaMap(FindByUserID(metas, m.userId)) - {m.key}
            && forall other :: other != m.userId ==> FindByUserID(after, other) == FindByUserID(metas, other)
  {
    var notId := KeyIsNot(MetaId, m.id);
    var after := RemoveKey(metas, m.id, MetaId);
    var mine := (x: UserMeta) => x.userId == m.userId;
    FilterCommute(metas, notId, mine);
    var rows := FindByUserID(metas, m.userId);
    forall x | x in rows ensures notId(x) <==> x.key != m.key {
      if x.key != m.key && x.id == m.id {
        KeyedUnique(metas, MetaId, x, m);
      }
    }
    MetaMapDropKey(rows, notId, m.key);
    forall other | other != m.userId
      ensures FindByUserID(after, other) == FindByUserID(metas, other)
    {
      var theirs := (x: UserMeta) => x.userId == other;
      FilterCommute(metas, notId, theirs);
      forall x | x in FindByUserID(metas, other) ensures notId(x) {
        if x.id == m.id {
          KeyedUnique(metas, MetaId, x, m);
        }
      }
      FilterAll(FindByUserID(metas, other), notId);
    }
  }
}
