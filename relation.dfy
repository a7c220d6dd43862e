/** The table algebra every store function is built from: selecting the rows
    that satisfy a WHERE condition, deleting the rows that match a key, and
    the "at most one row per key" property of a relation table.  Like,
    Bookmark, Follow and FollowRequest tables are all instances of it. */
module Rel {
  import opened Wrappers

  /** The identity pair that keys a relation row, e.g. (liker, post). */
  type Pair = (int, int)

  /** The rows of `rows` that satisfy `p`, in table order. */
  function Filter<T(!new)>(rows: seq<T>, p: T -> bool): (r: seq<T>)
    ensures |r| <= |rows|
    ensures forall x :: x in r <==> x in rows && p(x)
    decreases |rows|
  {
    if rows == [] then []
    else (if p(rows[0]) then [rows[0]] else []) + Filter(rows[1..], p)
  }

  /** The first row of a result set, as a single-row query returns it. */
  function First<T(!new)>(rows: seq<T>): (r: Option<T>)
    ensures r.None? <==> rows == []
    ensures r.Some? ==> r.value == rows[0]
  {
    if rows == [] then None else Some(rows[0])
  }

  /** `key(x) == k`, as a WHERE condition over a key column pair. */
  function KeyIs<T(!new), K(==)>(key: T -> K, k: K): T -> bool
  {
    x => key(x) == k
  }

  /** `key(x) != k`: the rows a DELETE on key `k` leaves in place. */
  function KeyIsNot<T(!new), K(==)>(key: T -> K, k: K): T -> bool
  {
    x => key(x) != k
  }

  /** No two rows of the table share a key. */
  ghost predicate UniqueBy<T(!new), K>(rows: seq<T>, key: T -> K)
  {
    forall i, j :: 0 <= i < |rows| && 0 <= j < |rows| && i != j ==> key(rows[i]) != key(rows[j])
  }

  /** Some row of the table has key `k`. */
  ghost predicate HasKey<T(!new), K>(rows: seq<T>, key: T -> K, k: K)
  {
    exists x :: x in rows && key(x) == k
  }

  /** Collects the rows that satisfy `p` by scanning the table, as the store's
      row loops do. */
  method Select<T(!new)>(rows: seq<T>, p: T -> bool) returns (r: seq<T>)
    ensures r == Filter(rows, p)
  {
    r := [];
    var i := 0;
    while i < |rows|
      invariant 0 <= i <= |rows|
      invariant r == Filter(rows[..i], p)
    {
      assert rows[..i + 1] == rows[..i] + [rows[i]];
      FilterAppend(rows[..i], [rows[i]], p);
      FilterSingle(rows[i], p);
      if p(rows[i]) {
        r := r + [rows[i]];
      }
      i := i + 1;
    }
    assert rows[..i] == rows;
  }

  lemma FilterSingle<T(!new)>(x: T, p: T -> bool)
    ensures Filter([x], p) == if p(x) then [x] else []
  {
    assert [x][1..] == [];
  }

  lemma {:induction false} FilterAppend<T(!new)>(a: seq<T>, b: seq<T>, p: T -> bool)
    ensures Filter(a + b, p) == Filter(a, p) + Filter(b, p)
    decreases |a|
  {
    if a == [] {
      assert a + b == b;
    } else {
      assert (a + b)[0] == a[0];
      assert (a + b)[1..] == a[1..] + b;
      FilterAppend(a[1..], b, p);
    }
  }

  lemma {:induction false} FilterNoneMatch<T(!new)>(rows: seq<T>, p: T -> bool)
    requires forall y :: y in rows ==> !p(y)
    ensures Filter(rows, p) == []
    decreases |rows|
  {
    if rows != [] {
      assert rows[0] in rows;
      FilterNoneMatch(rows[1..], p);
    }
  }

  /** Rows selected by key `k` and rows left by deleting `k` together make up
      the table: the number of rows a DELETE affects is the number selected. */
  lemma {:induction false} FilterSplit<T(!new), K>(rows: seq<T>, key: T -> K, k: K)
    ensures |Filter(rows, KeyIs(key, k))| + |Filter(rows, KeyIsNot(key, k))| == |rows|
    decreases |rows|
  {
    if rows != [] {
      FilterSplit(rows[1..], key, k);
    }
  }

  lemma UniqueTail<T(!new), K>(rows: seq<T>, key: T -> K)
    requires rows != [] && UniqueBy(rows, key)
    ensures UniqueBy(rows[1..], key)
    ensures forall y :: y in rows[1..] ==> key(y) != key(rows[0])
  {
    var t := rows[1..];
    forall i, j | 0 <= i < |t| && 0 <= j < |t| && i != j
      ensures key(t[i]) != key(t[j])
    {
      assert t[i] == rows[i + 1] && t[j] == rows[j + 1];
    }
    forall y | y in t
      ensures key(y) != key(rows[0])
    {
      var j :| 0 <= j < |t| && t[j] == y;
      assert rows[j + 1] == y;
    }
  }

  lemma UniqueCons<T(!new), K>(x: T, rows: seq<T>, key: T -> K)
    requires UniqueBy(rows, key)
    requires forall y :: y in rows ==> key(y) != key(x)
    ensures UniqueBy([x] + rows, key)
  {
    var s := [x] + rows;
    forall i, j | 0 <= i < |s| && 0 <= j < |s| && i != j
      ensures key(s[i]) != key(s[j])
    {
      if i == 0 {
        assert s[j] == rows[j - 1] && s[j] in rows;
      } else if j == 0 {
        assert s[i] == rows[i - 1] && s[i] in rows;
      } else {
        assert s[i] == rows[i - 1] && s[j] == rows[j - 1];
      }
    }
  }

  /** In a table with unique keys a key selects at most one row. */
  lemma {:induction false} UniqueAtMostOne<T(!new), K>(rows: seq<T>, key: T -> K, k: K)
    requires UniqueBy(rows, key)
    ensures |Filter(rows, KeyIs(key, k))| <= 1
    decreases |rows|
  {
    if rows != [] {
      UniqueTail(rows, key);
      UniqueAtMostOne(rows[1..], key, k);
      if key(rows[0]) == k {
        FilterNoneMatch(rows[1..], KeyIs(key, k));
      }
    }
  }

  /** ... and exactly one when the key is present. */
  lemma UniquePresentExactlyOne<T(!new), K>(rows: seq<T>, key: T -> K, k: K)
    requires UniqueBy(rows, key)
    requires HasKey(rows, key, k)
    ensures |Filter(rows, KeyIs(key, k))| == 1
  {
    UniqueAtMostOne(rows, key, k);
    var x :| x in rows && key(x) == k;
    assert x in Filter(rows, KeyIs(key, k));
  }

  /** Any selection of a table with unique keys has unique keys. */
  lemma {:induction false} FilterKeepsUnique<T(!new), K>(rows: seq<T>, key: T -> K, p: T -> bool)
    requires UniqueBy(rows, key)
    ensures UniqueBy(Filter(rows, p), key)
    decreases |rows|
  {
    if rows != [] {
      UniqueTail(rows, key);
      FilterKeepsUnique(rows[1..], key, p);
      if p(rows[0]) {
        UniqueCons(rows[0], Filter(rows[1..], p), key);
      }
    }
  }

  /** Inserting a row whose key is absent keeps the keys unique. */
  lemma AppendKeepsUnique<T(!new), K>(rows: seq<T>, key: T -> K, x: T)
    requires UniqueBy(rows, key)
    requires !HasKey(rows, key, key(x))
    ensures UniqueBy(rows + [x], key)
  {
    var s := rows + [x];
    forall i, j | 0 <= i < |s| && 0 <= j < |s| && i != j
      ensures key(s[i]) != key(s[j])
    {
      if i == |rows| {
        assert s[j] == rows[j] && rows[j] in rows;
      } else if j == |rows| {
        assert s[i] == rows[i] && rows[i] in rows;
      } else {
        assert s[i] == rows[i] && s[j] == rows[j];
      }
    }
  }

  lemma {:induction false} FilterAllMatch<T(!new)>(rows: seq<T>, p: T -> bool)
    requires forall y :: y in rows ==> p(y)
    ensures Filter(rows, p) == rows
    decreases |rows|
  {
    if rows != [] {
      assert rows[0] in rows;
      FilterAllMatch(rows[1..], p);
      assert rows == [rows[0]] + rows[1..];
    }
  }

  /** A weaker condition selects at least as many rows. */
  lemma {:induction false} FilterMonotone<T(!new)>(rows: seq<T>, p: T -> bool, q: T -> bool)
    requires forall y :: y in rows && p(y) ==> q(y)
    ensures |Filter(rows, p)| <= |Filter(rows, q)|
    decreases |rows|
  {
    if rows != [] {
      assert rows[0] in rows;
      FilterMonotone(rows[1..], p, q);
    }
  }

  /** `left JOIN right ON fk(a) = pk(b)`: every matching pair, left row by
      left row, right rows in table order. */
  function JoinOn<A(!new), B(!new)>(left: seq<A>, right: seq<B>, fk: A -> int, pk: B -> int): (r: seq<(A, B)>)
    ensures forall row :: row in r <==> row.0 in left && row.1 in right && pk(row.1) == fk(row.0)
    decreases |left|
  {
    if left == [] then []
    else
      var a := left[0];
      var matches := Filter(right, KeyIs(pk, fk(a)));
      var mine := Pairs(a, matches);
      var rest := JoinOn(left[1..], right, fk, pk);
      assert left == [a] + left[1..];
      mine + rest
  }

  /** `a` paired with each of `bs`. */
  function Pairs<A(!new), B(!new)>(a: A, bs: seq<B>): (r: seq<(A, B)>)
    ensures |r| == |bs|
    ensures forall k :: 0 <= k < |r| ==> r[k] == (a, bs[k])
    ensures forall row :: row in r <==> row.0 == a && row.1 in bs
  {
    var r := seq(|bs|, k requires 0 <= k < |bs| => (a, bs[k]));
    assert forall row :: row in r <==> row.0 == a && row.1 in bs by {
      forall row ensures row in r <==> row.0 == a && row.1 in bs {
        if row.0 == a && row.1 in bs {
          var k :| 0 <= k < |bs| && bs[k] == row.1;
          assert r[k] == row;
        }
      }
    }
    r
  }

  /** A condition on the left row of a joined pair. */
  function OnLeft<A, B>(q: A -> bool): ((A, B)) -> bool
  {
    (row: (A, B)) => q(row.0)
  }

  /** Joining against a table with unique keys never multiplies left rows ... */
  lemma {:induction false} JoinOnAtMost<A(!new), B(!new)>(left: seq<A>, right: seq<B>, fk: A -> int, pk: B -> int, q: A -> bool)
    requires UniqueBy(right, pk)
    ensures |Filter(JoinOn(left, right, fk, pk), OnLeft(q))| <= |Filter(left, q)|
    decreases |left|
  {
    if left != [] {
      var a := left[0];
      var matches := Filter(right, KeyIs(pk, fk(a)));
      var mine := Pairs(a, matches);
      var rest := JoinOn(left[1..], right, fk, pk);
      FilterAppend(mine, rest, OnLeft(q));
      JoinOnAtMost(left[1..], right, fk, pk, q);
      UniqueAtMostOne(right, pk, fk(a));
      if q(a) {
        FilterAllMatch(mine, OnLeft(q));
      } else {
        FilterNoneMatch(mine, OnLeft(q));
      }
    }
  }

  /** ... and keeps every left row whose key is present. */
  lemma {:induction false} JoinOnExact<A(!new), B(!new)>(left: seq<A>, right: seq<B>, fk: A -> int, pk: B -> int, q: A -> bool)
    requires UniqueBy(right, pk)
    requires forall a :: a in left && q(a) ==> HasKey(right, pk, fk(a))
    ensures |Filter(JoinOn(left, right, fk, pk), OnLeft(q))| == |Filter(left, q)|
    decreases |left|
  {
    if left != [] {
      var a := left[0];
      var matches := Filter(right, KeyIs(pk, fk(a)));
      var mine := Pairs(a, matches);
      var rest := JoinOn(left[1..], right, fk, pk);
      FilterAppend(mine, rest, OnLeft(q));
      assert left == [a] + left[1..];
      JoinOnExact(left[1..], right, fk, pk, q);
      if q(a) {
        assert a in left;
        UniquePresentExactlyOne(right, pk, fk(a));
        FilterAllMatch(mine, OnLeft(q));
      } else {
        FilterNoneMatch(mine, OnLeft(q));
      }
    }
  }

  /** The values of `f` over the selected rows. */
  function Values<T(==, !new)>(rows: seq<T>, p: T -> bool, f: T -> int): set<int>
  {
    set x | x in rows && p(x) :: f(x)
  }

  lemma ValuesCons<T(!new)>(rows: seq<T>, p: T -> bool, f: T -> int)
    requires rows != []
    ensures Values(rows, p, f) == (if p(rows[0]) then {f(rows[0])} else {}) + Values(rows[1..], p, f)
  {
    assert rows == [rows[0]] + rows[1..];
    var t := rows[1..];
    forall v ensures v in Values(rows, p, f) <==> v in (if p(rows[0]) then {f(rows[0])} else {}) + Values(t, p, f) {
      if v in Values(rows, p, f) {
        var x :| x in rows && p(x) && f(x) == v;
        if x != rows[0] {
          assert x in t;
        }
      }
    }
  }

  /** When `f` tells the selected rows apart, the number of distinct values
      of `f` over them is the number of rows (a `COUNT(DISTINCT f)`). */
  lemma {:induction false} DistinctCount<T(!new)>(rows: seq<T>, p: T -> bool, f: T -> int)
    requires forall i, j :: 0 <= i < |rows| && 0 <= j < |rows| && i != j && p(rows[i]) && p(rows[j]) ==> f(rows[i]) != f(rows[j])
    ensures |Values(rows, p, f)| == |Filter(rows, p)|
    decreases |rows|
  {
    if rows != [] {
      var t := rows[1..];
      forall i, j | 0 <= i < |t| && 0 <= j < |t| && i != j && p(t[i]) && p(t[j])
        ensures f(t[i]) != f(t[j])
      {
        assert t[i] == rows[i + 1] && t[j] == rows[j + 1];
      }
      DistinctCount(t, p, f);
      ValuesCons(rows, p, f);
      if p(rows[0]) {
        assert f(rows[0]) !in Values(t, p, f) by {
          forall x | x in t && p(x) ensures f(x) != f(rows[0]) {
            var j :| 0 <= j < |t| && t[j] == x;
            assert rows[j + 1] == x;
          }
        }
      }
    }
  }

  /** The row with key `k`, as a single-row `WHERE key = k` query finds it. */
  function Lookup<T(!new), K(==)>(rows: seq<T>, key: T -> K, k: K): (r: Option<T>)
    ensures r.Some? ==> r.value in rows && key(r.value) == k
    ensures r.None? <==> !HasKey(rows, key, k)
  {
    var s := Filter(rows, KeyIs(key, k));
    assert HasKey(rows, key, k) ==> s != [] by {
      if HasKey(rows, key, k) {
        var x :| x in rows && key(x) == k;
        assert x in s;
      }
    }
    First(s)
  }

  /** In a table with unique keys, two rows with one key are the same row. */
  lemma UniqueSameKey<T(!new), K>(rows: seq<T>, key: T -> K, x: T, y: T)
    requires UniqueBy(rows, key)
    requires x in rows && y in rows && key(x) == key(y)
    ensures x == y
  {
    var i :| 0 <= i < |rows| && rows[i] == x;
    var j :| 0 <= j < |rows| && rows[j] == y;
  }

  /** `DELETE ... WHERE key = k` on a table with unique keys affects one row
      exactly when the key is present; afterwards the key is absent, the
      keys are still unique, and an absent key leaves the table as it was. */
  lemma DeleteKey<T(!new), K>(rows: seq<T>, key: T -> K, k: K)
    requires UniqueBy(rows, key)
    ensures |Filter(rows, KeyIs(key, k))| == if HasKey(rows, key, k) then 1 else 0
    ensures !HasKey(Filter(rows, KeyIsNot(key, k)), key, k)
    ensures UniqueBy(Filter(rows, KeyIsNot(key, k)), key)
    ensures !HasKey(rows, key, k) ==> Filter(rows, KeyIsNot(key, k)) == rows
  {
    if HasKey(rows, key, k) {
      UniquePresentExactlyOne(rows, key, k);
    } else {
      FilterNoneMatch(rows, KeyIs(key, k));
      FilterAllMatch(rows, KeyIsNot(key, k));
    }
    FilterKeepsUnique(rows, key, KeyIsNot(key, k));
  }

  /** `UPDATE ... SET f WHERE p`: each row that satisfies `p` is replaced in
      place by `f` of it; the other rows are kept. */
  function Update<T>(rows: seq<T>, p: T -> bool, f: T -> T): (r: seq<T>)
    ensures |r| == |rows|
    ensures forall k :: 0 <= k < |rows| ==> r[k] == if p(rows[k]) then f(rows[k]) else rows[k]
    decreases |rows|
  {
    if rows == [] then []
    else [if p(rows[0]) then f(rows[0]) else rows[0]] + Update(rows[1..], p, f)
  }

  /** Every row after an update is a row of the table, updated or not. */
  lemma UpdateRows<T(!new)>(rows: seq<T>, p: T -> bool, f: T -> T, y: T)
    requires y in Update(rows, p, f)
    ensures exists x :: x in rows && y == if p(x) then f(x) else x
  {
    var r := Update(rows, p, f);
    var k :| 0 <= k < |r| && r[k] == y;
    assert rows[k] in rows;
  }

  /** A row that satisfies `p` comes out of the update as `f` of it. */
  lemma UpdateHits<T(!new)>(rows: seq<T>, p: T -> bool, f: T -> T, x: T)
    requires x in rows && p(x)
    ensures f(x) in Update(rows, p, f)
  {
    var k :| 0 <= k < |rows| && rows[k] == x;
    assert Update(rows, p, f)[k] == f(x);
  }

  /** An update that matches no row leaves the table as it was. */
  lemma UpdateNoMatch<T(!new)>(rows: seq<T>, p: T -> bool, f: T -> T)
    requires forall x :: x in rows ==> !p(x)
    ensures Update(rows, p, f) == rows
  {
    var r := Update(rows, p, f);
    forall k | 0 <= k < |rows| ensures r[k] == rows[k] {
      assert rows[k] in rows;
    }
  }

  /** An update that keeps every key keeps the keys of the table unique. */
  lemma UpdateKeepsUnique<T(!new), K>(rows: seq<T>, p: T -> bool, f: T -> T, key: T -> K)
    requires UniqueBy(rows, key)
    requires forall x :: key(f(x)) == key(x)
    ensures UniqueBy(Update(rows, p, f), key)
  {
    var r := Update(rows, p, f);
    forall i, j | 0 <= i < |r| && 0 <= j < |r| && i != j ensures key(r[i]) != key(r[j]) {
      assert key(r[i]) == key(rows[i]) && key(r[j]) == key(rows[j]);
    }
  }

  /** The first row that satisfies `p`, as a single-row query returns it. */
  function FirstWhere<T(!new)>(rows: seq<T>, p: T -> bool): (r: Option<T>)
    ensures r.Some? ==> r.value in rows && p(r.value)
    ensures r.None? <==> forall x :: x in rows ==> !p(x)
  {
    var s := Filter(rows, p);
    assert s != [] ==> s[0] in s;
    First(s)
  }

  /** Inserting a row with an absent key and then deleting that key gives
      the table back: a toggle called twice leaves the table as it was. */
  lemma DeleteUndoesInsert<T(!new), K>(rows: seq<T>, key: T -> K, x: T)
    requires !HasKey(rows, key, key(x))
    ensures HasKey(rows + [x], key, key(x))
    ensures Filter(rows + [x], KeyIsNot(key, key(x))) == rows
  {
    assert x in rows + [x];
    FilterAppend(rows, [x], KeyIsNot(key, key(x)));
    FilterSingle(x, KeyIsNot(key, key(x)));
    FilterAllMatch(rows, KeyIsNot(key, key(x)));
    assert rows + [] == rows;
  }
}
