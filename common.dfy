/** Values shared by every part of the model: optional values, Go-style results,
    the error strings and HTTP statuses of the service, and the few Go string
    functions (strings.Split, strings.HasPrefix, strings.EqualFold) that the
    request pipeline relies on. */
module Common {

  datatype Option<T> = None | Some(value: T)

  /** A Go `(value, error)` pair: either a value or an error message. */
  datatype Result<T> = Ok(value: T) | Err(error: string)

  // Error strings declared by the service's constants.
  const ErrInvalidCredentials: string := "invalid credentials"
  const ErrTokenExpired: string := "token expired"
  const ErrTokenInvalid: string := "invalid token"
  const ErrTokenMissing: string := "token missing"
  const ErrUnauthorized: string := "unauthorized"
  const ErrForbidden: string := "forbidden"

  // The context keys the authentication middleware writes.
  const AccessTokenKey: string := "access_token"
  const UserIdKey: string := "userID"
  const UserRolesKey: string := "userRoles"
  const PermissionsKey: string := "permissions"

  // Model types for model-scoped permissions.
  const ModelTypeRole: string := "role"
  const ModelTypeMenu: string := "menu"

  // HTTP statuses the handlers and middleware answer with.
  const StatusOK: int := 200
  const StatusCreated: int := 201
  const StatusNoContent: int := 204
  const StatusBadRequest: int := 400
  const StatusUnauthorized: int := 401
  const StatusForbidden: int := 403
  const StatusNotFound: int := 404
  const StatusInternalServerError: int := 500

  /** The elements of `s` that satisfy `keep`, in their original order. */
  function Filter<T(!new)>(s: seq<T>, keep: T -> bool): (r: seq<T>)
    ensures |r| <= |s|
    ensures forall x :: x in r <==> x in s && keep(x)
  {
    if |s| == 0 then []
    else if keep(s[0]) then [s[0]] + Filter(s[1..], keep)
    else Filter(s[1..], keep)
  }

  /** The sequences `f` gives for the elements of `s` that satisfy `keep`,
      concatenated in order. */
  function Gather<T, U>(s: seq<T>, f: T -> seq<U>, keep: T -> bool): seq<U>
  {
    if |s| == 0 then []
    else
      var before := Gather(s[..|s| - 1], f, keep);
      var last := s[|s| - 1];
      if keep(last) then before + f(last) else before
  }

  /** What Gather collects: an element of some kept element's sequence. */
  lemma {:induction false} GatherMembers<T, U>(s: seq<T>, f: T -> seq<U>, keep: T -> bool, u: U)
    ensures u in Gather(s, f, keep) <==> exists k :: 0 <= k < |s| && keep(s[k]) && u in f(s[k])
  {
    if |s| > 0 {
      var n := |s| - 1;
      var front := s[..n];
      GatherMembers(front, f, keep, u);
      if u in Gather(s, f, keep) && u !in Gather(front, f, keep) {
        assert keep(s[n]) && u in f(s[n]);
      }
      if exists k :: 0 <= k < |s| && keep(s[k]) && u in f(s[k]) {
        var k :| 0 <= k < |s| && keep(s[k]) && u in f(s[k]);
        if k < n {
          assert front[k] == s[k];
        }
      }
    }
  }

  /** Nothing passes a filter that no element satisfies. */
  lemma {:induction false} FilterNone<T(!new)>(s: seq<T>, keep: T -> bool)
    requires forall x :: x in s ==> !keep(x)
    ensures Filter(s, keep) == []
  {
    if |s| > 0 {
      FilterNone(s[1..], keep);
    }
  }

  /** No two elements of `s` share a key. */
  predicate DistinctBy<T, K(==)>(s: seq<T>, key: T -> K) {
    forall i, j :: 0 <= i < j < |s| ==> key(s[i]) != key(s[j])
  }

  /** Among rows with distinct keys, a key determines its row. */
  lemma KeyedUnique<T, K>(s: seq<T>, key: T -> K, x: T, y: T)
    requires DistinctBy(s, key) && x in s && y in s && key(x) == key(y)
    ensures x == y
  {
    var i :| 0 <= i < |s| && s[i] == x;
    var j :| 0 <= j < |s| && s[j] == y;
    assert i == j;
  }

  /** Filtering keeps keys distinct: the result is a subsequence. */
  lemma {:induction false} FilterDistinct<T(!new), K>(s: seq<T>, keep: T -> bool, key: T -> K)
    requires DistinctBy(s, key)
    ensures DistinctBy(Filter(s, keep), key)
  {
    if |s| > 0 {
      assert DistinctBy(s[1..], key) by {
        forall i, j | 0 <= i < j < |s| - 1 ensures key(s[1..][i]) != key(s[1..][j]) {
          assert s[1..][i] == s[i + 1] && s[1..][j] == s[j + 1];
        }
      }
      FilterDistinct(s[1..], keep, key);
      var rest := Filter(s[1..], keep);
      if keep(s[0]) {
        forall x | x in rest ensures key(x) != key(s[0]) {
          var j :| 0 <= j < |s[1..]| && s[1..][j] == x;
          assert s[j + 1] == x;
        }
        var r := [s[0]] + rest;
        forall i, j | 0 <= i < j < |r| ensures key(r[i]) != key(r[j]) {
          if i == 0 {
            assert r[j] in rest;
          } else {
            assert r[i] == rest[i - 1] && r[j] == rest[j - 1];
          }
        }
      }
    }
  }

  /** No element occurs twice. */
  predicate NoRepeats<T(==)>(s: seq<T>) {
    forall i, j :: 0 <= i < j < |s| ==> s[i] != s[j]
  }

  /** The first element of `s` that satisfies `p`. */
  function FindFirst<T(!new)>(s: seq<T>, p: T -> bool): (r: Option<T>)
    ensures r.Some? ==> r.value in s && p(r.value)
    ensures r.None? <==> forall x :: x in s ==> !p(x)
    ensures r.Some? && |s| > 0 && p(s[0]) ==> r.value == s[0]
    ensures r.Some? ==> exists k :: 0 <= k < |s| && s[k] == r.value && forall j :: 0 <= j < k ==> !p(s[j])
  {
    if |s| == 0 then None
    else if p(s[0]) then Some(s[0])
    else
      var t := FindFirst(s[1..], p);
      assert t.Some? ==> exists k :: 0 <= k < |s| && s[k] == t.value && forall j :: 0 <= j < k ==> !p(s[j]) by {
        if t.Some? {
          var k :| 0 <= k < |s[1..]| && s[1..][k] == t.value && forall j :: 0 <= j < k ==> !p(s[1..][j]);
          assert s[k + 1] == t.value && forall j :: 0 <= j < k + 1 ==> !p(s[j]);
        }
      }
      t
  }

  /** Among rows with distinct keys, the first row with key `k` is the only one. */
  lemma FindFirstByKey<T(!new), K>(s: seq<T>, key: T -> K, k: K, x: T)
    requires DistinctBy(s, key)
    requires x in s && key(x) == k
    ensures FindFirst(s, (y: T) => key(y) == k) == Some(x)
  {
    var r := FindFirst(s, (y: T) => key(y) == k);
    var i :| 0 <= i < |s| && s[i] == x;
    var j :| 0 <= j < |s| && s[j] == r.value;
    assert i == j;
  }

  /** `rows` with the row of key `key(row)` replaced by `row`, or `row` added
      when there is none: an upsert by primary key, as gorm's Save does. */
  function Upsert<T(!new), K(==)>(rows: seq<T>, row: T, key: T -> K): (r: seq<T>)
    ensures forall x :: x in r <==> x == row || (x in rows && key(x) != key(row))
    ensures DistinctBy(rows, key) ==> DistinctBy(r, key)
  {
    if exists i :: 0 <= i < |rows| && key(rows[i]) == key(row) then
      var r := seq(|rows|, i requires 0 <= i < |rows| => if key(rows[i]) == key(row) then row else rows[i]);
      assert forall i :: 0 <= i < |rows| ==> key(r[i]) == key(rows[i]);
      assert forall x :: x in rows && key(x) != key(row) ==> x in r by {
        forall x | x in rows && key(x) != key(row) ensures x in r {
          var i :| 0 <= i < |rows| && rows[i] == x;
          assert r[i] == x;
        }
      }
      var i :| 0 <= i < |rows| && key(rows[i]) == key(row);
      assert r[i] == row;
      r
    else
      rows + [row]
  }

  /** `rows` without the rows of key `k`: a delete by primary key, which is
      not an error when no row has the key. */
  function RemoveKey<T(!new), K(==)>(rows: seq<T>, k: K, key: T -> K): (r: seq<T>)
    ensures forall x :: x in r <==> x in rows && key(x) != k
    ensures DistinctBy(rows, key) ==> DistinctBy(r, key)
  {
    var r := Filter(rows, KeyIsNot(key, k));
    if DistinctBy(rows, key) then FilterDistinct(rows, KeyIsNot(key, k), key); r else r
  }

  /** The test RemoveKey filters with: the row's key is not `k`. */
  function KeyIsNot<T(!new), K(==)>(key: T -> K, k: K): (p: T -> bool)
    ensures forall x :: p(x) == (key(x) != k)
  {
    (x: T) => key(x) != k
  }

  /** The elements of `s` with every repeat after its first occurrence removed. */
  function Dedup<T(==,!new)>(s: seq<T>): (r: seq<T>)
    ensures forall x :: x in r <==> x in s
    ensures NoRepeats(r)
  {
    if |s| == 0 then []
    else
      var rest := Dedup(s[..|s| - 1]);
      if s[|s| - 1] in rest then rest else rest + [s[|s| - 1]]
  }

  // ---------------------------------------------------------------------------
  // strings.Split with a one-character separator

  /** The index of the first occurrence of `c` in `s`. */
  function IndexOf(s: string, c: char): (i: nat)
    requires c in s
    ensures i < |s| && s[i] == c
    ensures c !in s[..i]
  {
    if s[0] == c then 0
    else
      var j := IndexOf(s[1..], c);
      assert s[..j + 1] == [s[0]] + s[1..][..j];
      j + 1
  }

  /** The first separator of `head + [c] + tail` is the one after `head`. */
  lemma {:induction false} IndexOfAfter(head: string, c: char, tail: string)
    requires c !in head
    ensures IndexOf(head + [c] + tail, c) == |head|
  {
    if |head| > 0 {
      assert (head + [c] + tail)[1..] == head[1..] + [c] + tail;
      IndexOfAfter(head[1..], c, tail);
    }
  }

  /** Parts joined with the separator between them; the inverse of Split. */
  function Join(parts: seq<string>, sep: char): string {
    if |parts| == 0 then ""
    else if |parts| == 1 then parts[0]
    else parts[0] + [sep] + Join(parts[1..], sep)
  }

  /** strings.Split(s, sep) for a one-character sep: the maximal pieces of `s`
      between separators, so n separators give n + 1 parts and "" gives [""]. */
  function Split(s: string, sep: char): (parts: seq<string>)
    ensures |parts| >= 1
    ensures forall i :: 0 <= i < |parts| ==> sep !in parts[i]
    ensures Join(parts, sep) == s
    decreases |s|
  {
    if sep !in s then [s]
    else
      var i := IndexOf(s, sep);
      assert s == s[..i] + [sep] + s[i + 1..];
      [s[..i]] + Split(s[i + 1..], sep)
  }

  /** Splitting undoes joining: the parts of a joined text are the original
      parts whenever none of them contains the separator. */
  lemma {:induction false} SplitJoin(parts: seq<string>, sep: char)
    requires |parts| >= 1
    requires forall i :: 0 <= i < |parts| ==> sep !in parts[i]
    ensures Split(Join(parts, sep), sep) == parts
  {
    if |parts| > 1 {
      var head, rest := parts[0], parts[1..];
      var tail := Join(rest, sep);
      var s := Join(parts, sep);
      assert s == head + [sep] + tail;
      IndexOfAfter(head, sep, tail);
      var i := IndexOf(s, sep);
      assert s[..i] == head && s[i + 1..] == tail;
      SplitJoin(rest, sep);
      assert Split(s, sep) == [head] + Split(tail, sep);
    }
  }

  /** A character that is neither in any part nor the separator is not in the join. */
  lemma {:induction false} JoinAvoids(parts: seq<string>, sep: char, c: char)
    requires c != sep
    requires forall i :: 0 <= i < |parts| ==> c !in parts[i]
    ensures c !in Join(parts, sep)
  {
    if |parts| > 1 {
      JoinAvoids(parts[1..], sep, c);
      assert Join(parts, sep) == parts[0] + [sep] + Join(parts[1..], sep);
    }
  }

  /** strings.HasPrefix. */
  predicate HasPrefix(s: string, prefix: string) {
    |prefix| <= |s| && s[..|prefix|] == prefix
  }

  // ---------------------------------------------------------------------------
  // strings.EqualFold, restricted to ASCII letters

  function ToLowerAscii(c: char): (d: char)
    ensures 'A' <= c <= 'Z' ==> 'a' <= d <= 'z' && d as int == c as int + 32
    ensures !('A' <= c <= 'Z') ==> d == c
  {
    if 'A' <= c <= 'Z' then (c as int + 32) as char else c
  }

  /** strings.EqualFold for texts whose letters fold within ASCII: the two
      strings agree character by character once upper-case letters are lowered. */
  predicate EqualFold(a: string, b: string) {
    |a| == |b| && forall i :: 0 <= i < |a| ==> ToLowerAscii(a[i]) == ToLowerAscii(b[i])
  }

  /** Lower-casing every ASCII letter. */
  function LowerAscii(s: string): (r: string)
    ensures |r| == |s|
    ensures forall i :: 0 <= i < |s| ==> r[i] == ToLowerAscii(s[i])
  {
    seq(|s|, i requires 0 <= i < |s| => ToLowerAscii(s[i]))
  }

  /** EqualFold is equality of the lower-cased texts, hence an equivalence. */
  lemma EqualFoldIsLowerEquality(a: string, b: string)
    ensures EqualFold(a, b) <==> LowerAscii(a) == LowerAscii(b)
  {
    if LowerAscii(a) == LowerAscii(b) {
      assert |a| == |b|;
      forall i | 0 <= i < |a| ensures ToLowerAscii(a[i]) == ToLowerAscii(b[i]) {
        assert LowerAscii(a)[i] == LowerAscii(b)[i];
      }
    }
  }

  /** Changing the case of a text does not change what it folds to. */
  lemma EqualFoldIgnoresCase(a: string)
    ensures EqualFold(a, LowerAscii(a))
    ensures EqualFold(LowerAscii(a), a)
  {
  }
}
