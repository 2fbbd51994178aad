/** What the storage engine decides on its own: which id a new row gets,
    the order in which a table's rows are visited, and the order of a query
    result sorted on one column. */
module Ordering {

  lemma {:induction false} LeastOf(s: set<nat>) returns (m: nat)
    requires s != {}
    ensures m in s && forall x :: x in s ==> m <= x
    decreases |s|
  {
    var y :| y in s;
    if s == {y} {
      m := y;
    } else {
      var r := LeastOf(s - {y});
      m := if y < r then y else r;
      assert forall x :: x in s ==> x == y || x in s - {y};
    }
  }

  lemma {:induction false} GreatestOf(s: set<nat>) returns (m: nat)
    requires s != {}
    ensures m in s && forall x :: x in s ==> x <= m
    decreases |s|
  {
    var y :| y in s;
    if s == {y} {
      m := y;
    } else {
      var r := GreatestOf(s - {y});
      m := if y > r then y else r;
      assert forall x :: x in s ==> x == y || x in s - {y};
    }
  }

  lemma HasLeast(s: set<nat>)
    requires s != {}
    ensures exists m :: m in s && forall x :: x in s ==> m <= x
  {
    var m := LeastOf(s);
  }

  lemma HasGreatest(s: set<nat>)
    requires s != {}
    ensures exists m :: m in s && forall x :: x in s ==> x <= m
  {
    var m := GreatestOf(s);
  }

  function Least(s: set<nat>): (m: nat)
    requires s != {}
    ensures m in s && forall x :: x in s ==> m <= x
  {
    HasLeast(s);
    var m :| m in s && forall x :: x in s ==> m <= x;
    m
  }

  function Greatest(s: set<nat>): (m: nat)
    requires s != {}
    ensures m in s && forall x :: x in s ==> x <= m
  {
    HasGreatest(s);
    var m :| m in s && forall x :: x in s ==> x <= m;
    m
  }

  lemma LeastIsUnique(s: set<nat>, m: nat)
    requires m in s && forall x :: x in s ==> m <= x
    ensures Least(s) == m
  {
    var l := Least(s);
    assert l <= m && m <= l;
  }

  /** The id SQLite gives a new row of a table whose key is an INTEGER PRIMARY
      KEY without AUTOINCREMENT: one more than the largest id in use, or 1 in
      an empty table. */
  function NextRowId(used: set<nat>): (r: nat)
    ensures r >= 1 && r !in used
    ensures forall x :: x in used ==> x < r
    ensures used == {} ==> r == 1
    ensures used != {} ==> r - 1 in used
  {
    if used == {} then 1 else Greatest(used) + 1
  }

  /** The ids of a table in ascending order: each exactly once. */
  function Ascending(s: set<nat>): (r: seq<nat>)
    ensures |r| == |s|
    ensures forall x :: x in r ==> x in s
    decreases |s|
  {
    if s == {} then []
    else
      var m := Least(s);
      [m] + Ascending(s - {m})
  }

  /** The enumeration holds every id of `s`, in strictly increasing order. */
  lemma AscendingSpec(s: set<nat>)
    ensures forall x :: x in s ==> x in Ascending(s)
    ensures Increasing(Ascending(s))
  {
    AscendingHasAll(s);
    AscendingIncreasing(s);
  }

  lemma {:induction false} AscendingHasAll(s: set<nat>)
    ensures forall x :: x in s ==> x in Ascending(s)
    decreases |s|
  {
    if s != {} {
      var m := Least(s);
      AscendingHasAll(s - {m});
      assert Ascending(s) == [m] + Ascending(s - {m});
      forall x | x in s ensures x in Ascending(s) {
        if x != m { assert x in s - {m}; }
      }
    }
  }

  lemma {:induction false} AscendingIncreasing(s: set<nat>)
    ensures Increasing(Ascending(s))
    decreases |s|
  {
    if s != {} {
      var m := Least(s);
      var rest := Ascending(s - {m});
      AscendingIncreasing(s - {m});
      var r := [m] + rest;
      assert Ascending(s) == r;
      forall i, j | 0 <= i < j < |r| ensures r[i] < r[j] {
        assert r[j] == rest[j - 1] && rest[j - 1] in rest;
        if i > 0 { assert r[i] == rest[i - 1]; }
      }
    }
  }

  lemma ConcatAssoc<T>(a: seq<T>, b: seq<T>, c: seq<T>)
    ensures a + (b + c) == (a + b) + c
  {
  }

  /** A new id above every id in use goes to the end of the enumeration. */
  lemma {:induction false} AscendingWithGreater(s: set<nat>, n: nat)
    requires forall x :: x in s ==> x < n
    ensures Ascending(s + {n}) == Ascending(s) + [n]
    decreases |s|
  {
    var grown := s + {n};
    if s == {} {
      assert grown == {n};
      LeastIsUnique(grown, n);
      assert grown - {n} == {};
      assert Ascending(grown) == [n] + Ascending({});
    } else {
      var m := Least(s);
      var tail := Ascending(s - {m});
      calc {
        Ascending(grown);
        { assert forall x :: x in grown ==> x in s || x == n;
          AscendingFromLeast(grown, m); }
        [m] + Ascending(grown - {m});
        { assert grown - {m} == (s - {m}) + {n}; }
        [m] + Ascending((s - {m}) + {n});
        { AscendingWithGreater(s - {m}, n); }
        [m] + (tail + [n]);
        { ConcatAssoc([m], tail, [n]); }
        ([m] + tail) + [n];
        Ascending(s) + [n];
      }
    }
  }

  // ----- selecting rows -----

  /** The rows with the given ids, in the order of `ids`, whose owner is `owner_id`
      (a `WHERE project_id = :owner_id` filter). */
  function Owned<T>(ids: seq<nat>, m: map<nat, T>, owner: T -> nat, ownerId: nat): seq<T>
    requires forall k :: k in ids ==> k in m
  {
    if ids == [] then []
    else (if owner(m[ids[0]]) == ownerId then [m[ids[0]]] else []) + Owned(ids[1..], m, owner, ownerId)
  }

  /** `Owned` yields rows of `m` owned by `ownerId`, and every such row among `ids`. */
  lemma {:induction false} OwnedMembers<T>(ids: seq<nat>, m: map<nat, T>, owner: T -> nat, ownerId: nat)
    requires forall k :: k in ids ==> k in m
    ensures forall x :: x in Owned(ids, m, owner, ownerId) ==> x in m.Values && owner(x) == ownerId
    ensures forall k :: k in ids && owner(m[k]) == ownerId ==> m[k] in Owned(ids, m, owner, ownerId)
  {
    if ids != [] {
      OwnedMembers(ids[1..], m, owner, ownerId);
      var head := if owner(m[ids[0]]) == ownerId then [m[ids[0]]] else [];
      var tail := Owned(ids[1..], m, owner, ownerId);
      assert Owned(ids, m, owner, ownerId) == head + tail;
      assert forall k :: k in ids ==> k == ids[0] || k in ids[1..];
    }
  }

  /** All rows with the given ids, in the order of `ids`. */
  function Rows<T>(ids: seq<nat>, m: map<nat, T>): (r: seq<T>)
    requires forall k :: k in ids ==> k in m
    ensures |r| == |ids|
  {
    if ids == [] then [] else [m[ids[0]]] + Rows(ids[1..], m)
  }

  /** `Rows` yields rows of `m`, and the row of every id in `ids`. */
  lemma {:induction false} RowsMembers<T>(ids: seq<nat>, m: map<nat, T>)
    requires forall k :: k in ids ==> k in m
    ensures forall x :: x in Rows(ids, m) ==> x in m.Values
    ensures forall k :: k in ids ==> m[k] in Rows(ids, m)
  {
    if ids != [] {
      RowsMembers(ids[1..], m);
      assert Rows(ids, m) == [m[ids[0]]] + Rows(ids[1..], m);
      assert forall k :: k in ids ==> k == ids[0] || k in ids[1..];
    }
  }

  lemma DistinctTail(ids: seq<nat>)
    requires ids != []
    requires forall i, j :: 0 <= i < j < |ids| ==> ids[i] != ids[j]
    ensures forall i, j :: 0 <= i < j < |ids[1..]| ==> ids[1..][i] != ids[1..][j]
    ensures ids[0] !in ids[1..]
  {
    forall i | 0 <= i < |ids[1..]| ensures ids[1..][i] != ids[0] {
      assert ids[1..][i] == ids[i + 1];
    }
  }

  /** The ids among `ids` of rows owned by `ownerId`. */
  ghost function OwnedIds<T>(ids: seq<nat>, m: map<nat, T>, owner: T -> nat, ownerId: nat): set<nat> {
    set k | k in ids && k in m && owner(m[k]) == ownerId
  }

  lemma OwnedIdsStep<T>(ids: seq<nat>, m: map<nat, T>, owner: T -> nat, ownerId: nat)
    requires ids != [] && ids[0] in m
    ensures OwnedIds(ids, m, owner, ownerId)
         == OwnedIds(ids[1..], m, owner, ownerId) + (if owner(m[ids[0]]) == ownerId then {ids[0]} else {})
  {
    assert ids == [ids[0]] + ids[1..];
  }

  /** Over distinct ids, `Owned` yields one row per matching id. */
  lemma {:induction false} OwnedCount<T>(ids: seq<nat>, m: map<nat, T>, owner: T -> nat, ownerId: nat)
    requires forall k :: k in ids ==> k in m
    requires forall i, j :: 0 <= i < j < |ids| ==> ids[i] != ids[j]
    ensures |Owned(ids, m, owner, ownerId)| == |OwnedIds(ids, m, owner, ownerId)|
  {
    if ids != [] {
      DistinctTail(ids);
      OwnedCount(ids[1..], m, owner, ownerId);
      OwnedIdsStep(ids, m, owner, ownerId);
    }
  }

  /** Changing the map outside `ids` does not change the selection. */
  lemma {:induction false} OwnedAgree<T>(ids: seq<nat>, m: map<nat, T>, m': map<nat, T>, owner: T -> nat, ownerId: nat)
    requires forall k :: k in ids ==> k in m && k in m' && m[k] == m'[k]
    ensures Owned(ids, m, owner, ownerId) == Owned(ids, m', owner, ownerId)
  {
    if ids != [] {
      OwnedAgree(ids[1..], m, m', owner, ownerId);
    }
  }

  lemma {:induction false} OwnedAppend<T>(ids: seq<nat>, n: nat, m: map<nat, T>, owner: T -> nat, ownerId: nat)
    requires forall k :: k in ids ==> k in m
    requires n in m
    ensures Owned(ids + [n], m, owner, ownerId)
         == Owned(ids, m, owner, ownerId) + (if owner(m[n]) == ownerId then [m[n]] else [])
  {
    var last: seq<T> := if owner(m[n]) == ownerId then [m[n]] else [];
    var grown := ids + [n];
    if ids == [] {
      assert grown == [n] && grown[1..] == [];
      assert Owned(grown, m, owner, ownerId) == last + [];
    } else {
      assert grown[0] == ids[0];
      assert grown[1..] == ids[1..] + [n];
      OwnedAppend(ids[1..], n, m, owner, ownerId);
      var head: seq<T> := if owner(m[ids[0]]) == ownerId then [m[ids[0]]] else [];
      var tail := Owned(ids[1..], m, owner, ownerId);
      assert Owned(grown, m, owner, ownerId) == head + (tail + last);
      assert Owned(ids, m, owner, ownerId) == head + tail;
      ConcatAssoc(head, tail, last);
    }
  }

  lemma {:induction false} RowsAgree<T>(ids: seq<nat>, m: map<nat, T>, m': map<nat, T>)
    requires forall k :: k in ids ==> k in m && k in m' && m[k] == m'[k]
    ensures Rows(ids, m) == Rows(ids, m')
  {
    if ids != [] {
      RowsAgree(ids[1..], m, m');
    }
  }

  lemma {:induction false} RowsAppend<T>(ids: seq<nat>, n: nat, m: map<nat, T>)
    requires forall k :: k in ids ==> k in m
    requires n in m
    ensures Rows(ids + [n], m) == Rows(ids, m) + [m[n]]
  {
    if ids == [] {
      assert [n][1..] == [];
    } else {
      assert (ids + [n])[1..] == ids[1..] + [n];
      RowsAppend(ids[1..], n, m);
    }
  }

  // ----- ORDER BY -----

  ghost predicate SortedBy<T>(s: seq<T>, key: T -> int) {
    forall i, j :: 0 <= i < j < |s| ==> key(s[i]) <= key(s[j])
  }

  lemma HeadBelowInsert<T>(x: T, s: seq<T>, rest: seq<T>, key: T -> int)
    requires SortedBy(s, key) && s != [] && key(s[0]) < key(x)
    requires SortedBy(rest, key) && multiset(rest) == multiset(s[1..]) + multiset{x}
    ensures SortedBy([s[0]] + rest, key)
  {
    forall e | e in rest ensures key(s[0]) <= key(e) {
      assert e in multiset(rest);
      if e != x {
        assert e in multiset(s[1..]);
        var k :| 0 <= k < |s[1..]| && s[1..][k] == e;
        assert s[k + 1] == e;
      }
    }
    var r := [s[0]] + rest;
    forall i, j | 0 <= i < j < |r| ensures key(r[i]) <= key(r[j]) {
      if i == 0 { assert r[j] in rest; } else { assert r[i] == rest[i - 1] && r[j] == rest[j - 1]; }
    }
  }

  /** Inserts `x` before the first row whose key is above `key(x)`. */
  function InsertBy<T>(x: T, s: seq<T>, key: T -> int): seq<T> {
    if s == [] || key(x) <= key(s[0]) then [x] + s
    else [s[0]] + InsertBy(x, s[1..], key)
  }

  /** Inserting into a sorted sequence keeps it sorted and adds exactly `x`. */
  lemma {:induction false} InsertBySpec<T>(x: T, s: seq<T>, key: T -> int)
    requires SortedBy(s, key)
    ensures SortedBy(InsertBy(x, s, key), key)
    ensures multiset(InsertBy(x, s, key)) == multiset(s) + multiset{x}
  {
    if s == [] || key(x) <= key(s[0]) {
      var r := [x] + s;
      forall i, j | 0 <= i < j < |r| ensures key(r[i]) <= key(r[j]) {
        if i == 0 {
          assert r[j] == s[j - 1];
          if j > 1 { assert key(s[0]) <= key(s[j - 1]); }
        } else {
          assert r[i] == s[i - 1] && r[j] == s[j - 1];
        }
      }
    } else {
      SortedTail(s, key);
      InsertBySpec(x, s[1..], key);
      var rest := InsertBy(x, s[1..], key);
      HeadBelowInsert(x, s, rest, key);
      assert s == [s[0]] + s[1..];
    }
  }

  /** An insertion sort on `key`. What is proved of it is that it sorts and
      permutes (`SortBySpec`); the relative order of rows with equal keys
      is a choice of the model and is not stated. */
  function SortBy<T>(s: seq<T>, key: T -> int): seq<T> {
    if s == [] then [] else InsertBy(s[0], SortBy(s[1..], key), key)
  }

  /** The sort is ascending in `key` and a permutation of `s`. */
  lemma {:induction false} SortBySpec<T>(s: seq<T>, key: T -> int)
    ensures SortedBy(SortBy(s, key), key)
    ensures multiset(SortBy(s, key)) == multiset(s)
  {
    if s != [] {
      SortBySpec(s[1..], key);
      InsertBySpec(s[0], SortBy(s[1..], key), key);
      assert s == [s[0]] + s[1..];
    }
  }

  lemma SortedTail<T>(s: seq<T>, key: T -> int)
    requires SortedBy(s, key) && s != []
    ensures SortedBy(s[1..], key)
  {
    forall i, j | 0 <= i < j < |s[1..]| ensures key(s[1..][i]) <= key(s[1..][j]) {
      assert s[1..][i] == s[i + 1] && s[1..][j] == s[j + 1];
    }
  }

  /** Inserting a row whose key is at most that of the last row never goes
      past that last row. */
  lemma {:induction false} InsertBeforeLast<T>(x: T, s: seq<T>, y: T, key: T -> int)
    requires key(x) <= key(y)
    ensures InsertBy(x, s + [y], key) == InsertBy(x, s, key) + [y]
  {
    var sy := s + [y];
    if s == [] {
      assert sy == [y];
      assert InsertBy(x, sy, key) == [x] + [y];
    } else if key(x) <= key(s[0]) {
      assert sy[0] == s[0];
      assert InsertBy(x, sy, key) == [x] + sy;
      ConcatAssoc([x], s, [y]);
    } else {
      assert sy[0] == s[0];
      assert sy[1..] == s[1..] + [y];
      InsertBeforeLast(x, s[1..], y, key);
      var inner := InsertBy(x, s[1..], key);
      assert InsertBy(x, sy, key) == [s[0]] + (inner + [y]);
      assert InsertBy(x, s, key) == [s[0]] + inner;
      ConcatAssoc([s[0]], inner, [y]);
    }
  }

  /** Appending a row whose key is at least every other key puts it last. */
  lemma {:induction false} SortAppendGreatest<T>(s: seq<T>, y: T, key: T -> int)
    requires forall e :: e in s ==> key(e) <= key(y)
    ensures SortBy(s + [y], key) == SortBy(s, key) + [y]
  {
    if s == [] {
    } else {
      assert (s + [y])[1..] == s[1..] + [y];
      SortAppendGreatest(s[1..], y, key);
      var u := SortBy(s[1..], key);
      assert s[0] in s;
      InsertBeforeLast(s[0], u, y, key);
    }
  }

  /** Appending a row whose key is below every other key puts it first. */
  lemma {:induction false} SortAppendLeast<T>(s: seq<T>, y: T, key: T -> int)
    requires forall e :: e in s ==> key(y) < key(e)
    ensures SortBy(s + [y], key) == [y] + SortBy(s, key)
  {
    if s == [] {
    } else {
      assert (s + [y])[1..] == s[1..] + [y];
      SortAppendLeast(s[1..], y, key);
      var u := SortBy(s[1..], key);
      assert ([y] + u)[1..] == u;
    }
  }

  // ----- WHERE ... ORDER BY -----

  ghost function KeysOwnedBy<T>(m: map<nat, T>, owner: T -> nat, ownerId: nat): set<nat> {
    set k | k in m && owner(m[k]) == ownerId
  }

  /** Sorting keeps every row, each as often as before. */
  lemma SortKeepsRows<T>(s: seq<T>, key: T -> int)
    ensures SortedBy(SortBy(s, key), key)
    ensures |SortBy(s, key)| == |s|
    ensures forall x :: x in SortBy(s, key) ==> x in s
    ensures forall x :: x in s ==> x in SortBy(s, key)
  {
    var r := SortBy(s, key);
    SortBySpec(s, key);
    forall x | x in r ensures x in s {
      assert x in multiset(r);
    }
    forall x | x in s ensures x in r {
      assert x in multiset(s);
    }
    assert |r| == |multiset(r)| == |multiset(s)| == |s|;
  }

  /** `SELECT ... WHERE owner = ownerId ORDER BY key`: the rows of `m` owned
      by `ownerId`, read in ascending id order and then stably sorted by
      `key`. */
  function Select<T(==)>(m: map<nat, T>, owner: T -> nat, ownerId: nat, key: T -> int): (r: seq<T>)
    ensures SortedBy(r, key)
    ensures forall x :: x in r ==> x in m.Values && owner(x) == ownerId
    ensures forall k :: k in m && owner(m[k]) == ownerId ==> m[k] in r
    ensures |r| == |KeysOwnedBy(m, owner, ownerId)|
  {
    SelectRows(m, owner, ownerId, key);
    SortBy(Owned(Ascending(m.Keys), m, owner, ownerId), key)
  }

  lemma SelectRows<T>(m: map<nat, T>, owner: T -> nat, ownerId: nat, key: T -> int)
    ensures var r := SortBy(Owned(Ascending(m.Keys), m, owner, ownerId), key);
      && SortedBy(r, key)
      && (forall x :: x in r ==> x in m.Values && owner(x) == ownerId)
      && (forall k :: k in m && owner(m[k]) == ownerId ==> m[k] in r)
      && |r| == |KeysOwnedBy(m, owner, ownerId)|
  {
    var ids := Ascending(m.Keys);
    AscendingSpec(m.Keys);
    var rows := Owned(ids, m, owner, ownerId);
    var r := SortBy(rows, key);
    SortKeepsRows(rows, key);
    OwnedMembers(ids, m, owner, ownerId);
    OwnedCount(ids, m, owner, ownerId);
    OwnedIdsOfAll(m, owner, ownerId);
    forall k | k in m && owner(m[k]) == ownerId ensures m[k] in r {
      assert k in ids;
      assert m[k] in rows;
    }
    forall x | x in r ensures x in m.Values && owner(x) == ownerId {
      assert x in rows;
    }
  }

  lemma OwnedIdsOfAll<T>(m: map<nat, T>, owner: T -> nat, ownerId: nat)
    ensures OwnedIds(Ascending(m.Keys), m, owner, ownerId) == KeysOwnedBy(m, owner, ownerId)
  {
    var ids := Ascending(m.Keys);
    AscendingSpec(m.Keys);
    forall k ensures k in OwnedIds(ids, m, owner, ownerId) <==> k in KeysOwnedBy(m, owner, ownerId) {
      assert k in ids <==> k in m.Keys;
    }
  }

  /** A row stored under an id above every id in use, owned by `ownerId`
      and with a key no smaller than any other, comes last. */
  lemma SelectAppend<T>(m: map<nat, T>, n: nat, x: T, owner: T -> nat, ownerId: nat, key: T -> int)
    requires forall k :: k in m ==> k < n
    requires owner(x) == ownerId
    requires forall k :: k in m ==> key(m[k]) <= key(x)
    ensures Select(m[n := x], owner, ownerId, key) == Select(m, owner, ownerId, key) + [x]
  {
    var m' := m[n := x];
    assert m'.Keys == m.Keys + {n};
    AscendingWithGreater(m.Keys, n);
    var ids := Ascending(m.Keys);
    OwnedAgree(ids, m, m', owner, ownerId);
    OwnedAppend(ids, n, m', owner, ownerId);
    var rows := Owned(ids, m, owner, ownerId);
    OwnedMembers(ids, m, owner, ownerId);
    SortAppendGreatest(rows, x, key);
  }

  /** A row owned by someone else leaves the selection as it was. */
  lemma SelectOtherOwner<T>(m: map<nat, T>, n: nat, x: T, owner: T -> nat, ownerId: nat, key: T -> int)
    requires forall k :: k in m ==> k < n
    requires owner(x) != ownerId
    ensures Select(m[n := x], owner, ownerId, key) == Select(m, owner, ownerId, key)
  {
    var m' := m[n := x];
    assert m'.Keys == m.Keys + {n};
    AscendingWithGreater(m.Keys, n);
    var ids := Ascending(m.Keys);
    OwnedAgree(ids, m, m', owner, ownerId);
    OwnedAppend(ids, n, m', owner, ownerId);
    var rows := Owned(ids, m, owner, ownerId);
    assert Owned(ids + [n], m', owner, ownerId) == rows + [] == rows;
  }

  /** A new row for `ownerId` is selected, and the selection grows by one. */
  lemma SelectInsert<T>(m: map<nat, T>, n: nat, x: T, owner: T -> nat, ownerId: nat, key: T -> int)
    requires n !in m && owner(x) == ownerId
    ensures x in Select(m[n := x], owner, ownerId, key)
    ensures |Select(m[n := x], owner, ownerId, key)| == |Select(m, owner, ownerId, key)| + 1
  {
    var m' := m[n := x];
    var before := KeysOwnedBy(m, owner, ownerId);
    assert KeysOwnedBy(m', owner, ownerId) == before + {n} by {
      forall k ensures k in KeysOwnedBy(m', owner, ownerId) <==> k in before + {n} {
        if k != n && k in m {
          assert m'[k] == m[k];
        }
      }
    }
    assert n !in before;
    assert |before + {n}| == |before| + 1;
    assert n in m' && m'[n] == x;
  }

  /** `SELECT ... ORDER BY key` over a whole table: every row once, read in
      ascending id order and then stably sorted by `key`. */
  function SelectAll<T(==)>(m: map<nat, T>, key: T -> int): (r: seq<T>)
    ensures SortedBy(r, key)
    ensures |r| == |m|
    ensures forall x :: x in r ==> x in m.Values
    ensures forall k :: k in m ==> m[k] in r
  {
    SelectAllRows(m, key);
    SortBy(Rows(Ascending(m.Keys), m), key)
  }

  lemma SelectAllRows<T>(m: map<nat, T>, key: T -> int)
    ensures var r := SortBy(Rows(Ascending(m.Keys), m), key);
      && SortedBy(r, key)
      && |r| == |m|
      && (forall x :: x in r ==> x in m.Values)
      && (forall k :: k in m ==> m[k] in r)
  {
    var ids := Ascending(m.Keys);
    AscendingSpec(m.Keys);
    var rows := Rows(ids, m);
    var r := SortBy(rows, key);
    SortKeepsRows(rows, key);
    RowsMembers(ids, m);
    assert |m.Keys| == |m|;
    forall k | k in m ensures m[k] in r {
      assert k in ids;
      assert m[k] in rows;
    }
    forall x | x in r ensures x in m.Values {
      assert x in rows;
    }
  }

  /** A row stored under an id above every id in use, with a key below
      every other key, comes first. */
  lemma SelectAllPrepend<T>(m: map<nat, T>, n: nat, x: T, key: T -> int)
    requires forall k :: k in m ==> k < n
    requires forall k :: k in m ==> key(x) < key(m[k])
    ensures SelectAll(m[n := x], key) == [x] + SelectAll(m, key)
  {
    var m' := m[n := x];
    assert m'.Keys == m.Keys + {n};
    AscendingWithGreater(m.Keys, n);
    var ids := Ascending(m.Keys);
    RowsAgree(ids, m, m');
    RowsAppend(ids, n, m');
    var rows := Rows(ids, m);
    RowsMembers(ids, m);
    forall e | e in rows ensures key(x) < key(e) {
      var k :| k in m && m[k] == e;
    }
    SortAppendLeast(rows, x, key);
  }

  // ----- a selection depends only on the rows it selects -----

  ghost predicate Increasing(s: seq<nat>) {
    forall i, j :: 0 <= i < j < |s| ==> s[i] < s[j]
  }

  /** The ids in `ids` whose row is owned by `ownerId`, in the order of `ids`. */
  function FilterIds<T>(ids: seq<nat>, m: map<nat, T>, owner: T -> nat, ownerId: nat): (r: seq<nat>)
    requires forall k :: k in ids ==> k in m
    ensures forall k :: k in r <==> k in ids && owner(m[k]) == ownerId
  {
    if ids == [] then []
    else (if owner(m[ids[0]]) == ownerId then [ids[0]] else []) + FilterIds(ids[1..], m, owner, ownerId)
  }

  lemma {:induction false} FilterIncreasing<T>(ids: seq<nat>, m: map<nat, T>, owner: T -> nat, ownerId: nat)
    requires forall k :: k in ids ==> k in m
    requires Increasing(ids)
    ensures Increasing(FilterIds(ids, m, owner, ownerId))
  {
    if ids != [] {
      var tail := FilterIds(ids[1..], m, owner, ownerId);
      FilterIncreasing(ids[1..], m, owner, ownerId);
      if owner(m[ids[0]]) == ownerId {
        var r := [ids[0]] + tail;
        forall i, j | 0 <= i < j < |r| ensures r[i] < r[j] {
          assert r[j] == tail[j - 1] && tail[j - 1] in tail;
          var n :| 0 <= n < |ids[1..]| && ids[1..][n] == r[j];
          assert ids[n + 1] == r[j];
          if i > 0 {
            assert r[i] == tail[i - 1];
          }
        }
      } else {
        assert [] + tail == tail;
      }
    }
  }

  lemma {:induction false} OwnedIsRowsOfFiltered<T>(ids: seq<nat>, m: map<nat, T>, owner: T -> nat, ownerId: nat)
    requires forall k :: k in ids ==> k in m
    ensures Owned(ids, m, owner, ownerId) == Rows(FilterIds(ids, m, owner, ownerId), m)
  {
    if ids != [] {
      OwnedIsRowsOfFiltered(ids[1..], m, owner, ownerId);
      var tail := FilterIds(ids[1..], m, owner, ownerId);
      if owner(m[ids[0]]) == ownerId {
        assert ([ids[0]] + tail)[1..] == tail;
      } else {
        assert [] + tail == tail;
      }
    }
  }

  ghost function Elements(s: seq<nat>): set<nat> {
    set x | x in s
  }

  lemma ElementsOfTail(s: seq<nat>)
    requires Increasing(s) && s != []
    ensures Elements(s[1..]) == Elements(s) - {s[0]}
    ensures forall x :: x in Elements(s) ==> s[0] <= x
  {
    forall x | x in Elements(s) ensures s[0] <= x && (x in Elements(s[1..]) <==> x != s[0]) {
      var i :| 0 <= i < |s| && s[i] == x;
      if i > 0 {
        assert s[1..][i - 1] == x;
      }
    }
    forall x | x in Elements(s[1..]) ensures x in Elements(s) {
      var i :| 0 <= i < |s[1..]| && s[1..][i] == x;
      assert s[i + 1] == x;
    }
  }

  /** The enumeration starts with the least element. */
  lemma AscendingFromLeast(elems: set<nat>, m: nat)
    requires m in elems && forall x :: x in elems ==> m <= x
    ensures Ascending(elems) == [m] + Ascending(elems - {m})
  {
    LeastIsUnique(elems, m);
  }

  /** An increasing sequence is the ascending enumeration of its elements. */
  lemma {:induction false} AscendingUnique(s: seq<nat>)
    requires Increasing(s)
    ensures s == Ascending(Elements(s))
    decreases |s|
  {
    if s == [] {
      assert Elements(s) == {};
    } else {
      assert s[0] in Elements(s);
      ElementsOfTail(s);
      AscendingFromLeast(Elements(s), s[0]);
      assert Increasing(s[1..]);
      AscendingUnique(s[1..]);
      assert s == [s[0]] + s[1..];
    }
  }

  /** A selection reads exactly the owned rows in ascending id order. */
  lemma SelectByOwnedKeys<T>(m: map<nat, T>, owner: T -> nat, ownerId: nat, key: T -> int)
    ensures Select(m, owner, ownerId, key) == SortBy(Rows(Ascending(KeysOwnedBy(m, owner, ownerId)), m), key)
  {
    var ids := Ascending(m.Keys);
    var picked := FilterIds(ids, m, owner, ownerId);
    AscendingSpec(m.Keys);
    FilterIncreasing(ids, m, owner, ownerId);
    AscendingUnique(picked);
    PickedAreOwnedKeys(m, owner, ownerId);
    OwnedIsRowsOfFiltered(ids, m, owner, ownerId);
  }

  lemma PickedAreOwnedKeys<T>(m: map<nat, T>, owner: T -> nat, ownerId: nat)
    ensures Elements(FilterIds(Ascending(m.Keys), m, owner, ownerId)) == KeysOwnedBy(m, owner, ownerId)
  {
    var picked := FilterIds(Ascending(m.Keys), m, owner, ownerId);
    AscendingSpec(m.Keys);
    forall k ensures k in Elements(picked) <==> k in KeysOwnedBy(m, owner, ownerId) {
      assert k in Elements(picked) <==> k in picked;
    }
  }

  /** Two tables whose rows owned by `ownerId` are the same give the same
      selection, whatever else they hold. */
  lemma SelectAgree<T>(m: map<nat, T>, m': map<nat, T>, owner: T -> nat, ownerId: nat, key: T -> int)
    requires KeysOwnedBy(m, owner, ownerId) == KeysOwnedBy(m', owner, ownerId)
    requires forall k :: k in KeysOwnedBy(m, owner, ownerId) ==> m[k] == m'[k]
    ensures Select(m, owner, ownerId, key) == Select(m', owner, ownerId, key)
  {
    SelectByOwnedKeys(m, owner, ownerId, key);
    SelectByOwnedKeys(m', owner, ownerId, key);
    RowsAgree(Ascending(KeysOwnedBy(m, owner, ownerId)), m, m');
  }
}
