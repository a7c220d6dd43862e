/** `ORDER BY a DESC, b DESC` and `LIMIT/OFFSET` over in-memory result sets,
    and the page arithmetic the handlers do around them. */
module Ordering {
  import opened Rel

  /** Sort key `ka` comes at or before `kb` when ordering by the first
      component descending, then by the second descending. */
  predicate RanksBefore(ka: Pair, kb: Pair)
  {
    ka.0 > kb.0 || (ka.0 == kb.0 && ka.1 >= kb.1)
  }

  /** `s` is in `ORDER BY key.0 DESC, key.1 DESC` order. */
  ghost predicate SortedDesc<T(!new)>(s: seq<T>, key: T -> Pair)
  {
    forall i, j :: 0 <= i < j < |s| ==> RanksBefore(key(s[i]), key(s[j]))
  }

  /** Places `x` before the first row it ranks at or before. */
  function Insert<T(!new)>(x: T, s: seq<T>, key: T -> Pair): seq<T>
    decreases |s|
  {
    if s == [] then [x]
    else if RanksBefore(key(x), key(s[0])) then [x] + s
    else [s[0]] + Insert(x, s[1..], key)
  }

  /** The result set in `ORDER BY key DESC` order.  Rows whose keys tie keep
      their table order: this is one of the orders the database may return. */
  function SortDesc<T(!new)>(s: seq<T>, key: T -> Pair): seq<T>
    decreases |s|
  {
    if s == [] then [] else Insert(s[0], SortDesc(s[1..], key), key)
  }

  lemma {:induction false} InsertPermutes<T(!new)>(x: T, s: seq<T>, key: T -> Pair)
    ensures multiset(Insert(x, s, key)) == multiset{x} + multiset(s)
    decreases |s|
  {
    if s != [] && !RanksBefore(key(x), key(s[0])) {
      InsertPermutes(x, s[1..], key);
      assert s == [s[0]] + s[1..];
    }
  }

  lemma {:induction false} InsertSorted<T(!new)>(x: T, s: seq<T>, key: T -> Pair)
    requires SortedDesc(s, key)
    ensures SortedDesc(Insert(x, s, key), key)
    decreases |s|
  {
    if s == [] {
    } else if RanksBefore(key(x), key(s[0])) {
      var r := [x] + s;
      forall i, j | 0 <= i < j < |r| ensures RanksBefore(key(r[i]), key(r[j])) {
        if i > 0 {
          assert r[i] == s[i - 1] && r[j] == s[j - 1];
        } else if j > 1 {
          assert r[j] == s[j - 1];
          assert RanksBefore(key(s[0]), key(s[j - 1]));
        }
      }
    } else {
      var t := s[1..];
      assert SortedDesc(t, key) by {
        forall i, j | 0 <= i < j < |t| ensures RanksBefore(key(t[i]), key(t[j])) {
          assert t[i] == s[i + 1] && t[j] == s[j + 1];
        }
      }
      InsertSorted(x, t, key);
      InsertPermutes(x, t, key);
      var u := Insert(x, t, key);
      var r := [s[0]] + u;
      forall i, j | 0 <= i < j < |r| ensures RanksBefore(key(r[i]), key(r[j])) {
        if i > 0 {
          assert r[i] == u[i - 1] && r[j] == u[j - 1];
        } else {
          assert r[j] == u[j - 1];
          assert u[j - 1] in multiset(u);
          if u[j - 1] != x {
            assert u[j - 1] in multiset(t);
            var m :| 0 <= m < |t| && t[m] == u[j - 1];
            assert s[m + 1] == t[m];
          }
        }
      }
    }
  }

  /** The sort returns every row of the input exactly once, in key order. */
  lemma {:induction false} SortDescCorrect<T(!new)>(s: seq<T>, key: T -> Pair)
    ensures SortedDesc(SortDesc(s, key), key)
    ensures multiset(SortDesc(s, key)) == multiset(s)
    ensures |SortDesc(s, key)| == |s|
    decreases |s|
  {
    if s != [] {
      SortDescCorrect(s[1..], key);
      InsertSorted(s[0], SortDesc(s[1..], key), key);
      InsertPermutes(s[0], SortDesc(s[1..], key), key);
      assert s == [s[0]] + s[1..];
    }
    assert |SortDesc(s, key)| == |multiset(SortDesc(s, key))|;
  }

  /** Two sort keys that rank every pair of rows of `s` alike. */
  ghost predicate SameOrder<T(!new)>(s: seq<T>, k1: T -> Pair, k2: T -> Pair)
  {
    forall x, y :: x in s && y in s ==> (RanksBefore(k1(x), k1(y)) <==> RanksBefore(k2(x), k2(y)))
  }

  lemma {:induction false} InsertSameOrder<T(!new)>(x: T, s: seq<T>, k1: T -> Pair, k2: T -> Pair)
    requires forall y :: y in s ==> (RanksBefore(k1(x), k1(y)) <==> RanksBefore(k2(x), k2(y)))
    ensures Insert(x, s, k1) == Insert(x, s, k2)
    decreases |s|
  {
    if s != [] {
      assert s[0] in s;
      InsertSameOrder(x, s[1..], k1, k2);
    }
  }

  /** Keys that rank rows alike give the same result order, so replacing a
      score by a positive multiple of it changes nothing. */
  lemma {:induction false} SortDescSameOrder<T(!new)>(s: seq<T>, k1: T -> Pair, k2: T -> Pair)
    requires SameOrder(s, k1, k2)
    ensures SortDesc(s, k1) == SortDesc(s, k2)
    decreases |s|
  {
    if s != [] {
      assert s == [s[0]] + s[1..];
      SortDescSameOrder(s[1..], k1, k2);
      var rest := SortDesc(s[1..], k1);
      SortDescCorrect(s[1..], k1);
      forall y | y in rest
        ensures RanksBefore(k1(s[0]), k1(y)) <==> RanksBefore(k2(s[0]), k2(y))
      {
        assert y in multiset(s[1..]);
        assert y in s;
      }
      InsertSameOrder(s[0], rest, k1, k2);
    }
  }

  function Min(a: int, b: int): int
  {
    if a <= b then a else b
  }

  /** `OFFSET skip LIMIT limit`: the rows at positions [skip, skip + limit). */
  function Page<T>(s: seq<T>, skip: nat, limit: nat): (r: seq<T>)
    ensures |r| == if skip >= |s| then 0 else Min(limit, |s| - skip)
    ensures forall k :: 0 <= k < |r| ==> r[k] == s[skip + k]
  {
    if skip >= |s| then [] else s[skip..Min(skip + limit, |s|)]
  }

  /** A page of a sorted result is sorted. */
  lemma PageOfSortedIsSorted<T(!new)>(s: seq<T>, key: T -> Pair, skip: nat, limit: nat)
    requires SortedDesc(s, key)
    ensures SortedDesc(Page(s, skip, limit), key)
  {
    var r := Page(s, skip, limit);
    forall i, j | 0 <= i < j < |r| ensures RanksBefore(key(r[i]), key(r[j])) {
      assert r[i] == s[skip + i] && r[j] == s[skip + j];
    }
  }

  /** Rows before page `page` when pages hold `limit` rows: the handlers'
      `page*limit - limit`. */
  function Skip(page: int, limit: int): (skip: int)
    ensures skip == (page - 1) * limit
    ensures page == 1 ==> skip == 0
    ensures page >= 1 && limit >= 0 ==> skip >= 0
  {
    page * limit - limit
  }

  /** A page number below 1 skips a negative number of rows. */
  lemma SkipBeforeFirstPage(page: int, limit: int)
    requires page < 1 && limit > 0
    ensures Skip(page, limit) < 0
  {
    MulMonotone(page - 1, -1, limit);
  }

  /** Go's 64-bit `int`: the range below, and arithmetic that wraps
      modulo 2^64 in two's complement. */
  const Int64Min: int := -0x8000_0000_0000_0000
  const Int64Max: int := 0x7FFF_FFFF_FFFF_FFFF
  const Modulus64: int := 0x1_0000_0000_0000_0000

  predicate IsInt64(x: int)
  {
    Int64Min <= x <= Int64Max
  }

  /** The 64-bit value an exact result `x` wraps to. */
  function Wrap64(x: int): (r: int)
    ensures IsInt64(r)
    ensures (x - r) % Modulus64 == 0
    ensures IsInt64(x) ==> r == x
  {
    var q := (x - Int64Min) / Modulus64;
    var m := (x - Int64Min) % Modulus64;
    assert x - Int64Min == q * Modulus64 + m;
    assert x - (m + Int64Min) == q * Modulus64;
    m + Int64Min
  }

  /** The handlers' `skip := page*limit - limit` as Go evaluates it: the
      product wraps to 64 bits, then the difference does.  Without
      overflow it is the exact `Skip`. */
  function GoSkip(page: int, limit: int): (skip: int)
    ensures IsInt64(skip)
    ensures IsInt64(page * limit) && IsInt64(page * limit - limit) ==> skip == Skip(page, limit)
  {
    Wrap64(Wrap64(page * limit) - limit)
  }

  /** While `page*limit - limit` fits in 64 bits, the handlers' skip is
      negative exactly for a page below 1, and for any other page it is
      the exact number of rows before the page. */
  lemma GoSkipWithoutOverflow(page: int, limit: int)
    requires limit > 0 && IsInt64(page * limit) && IsInt64(page * limit - limit)
    ensures GoSkip(page, limit) < 0 <==> page < 1
    ensures page >= 1 ==> GoSkip(page, limit) == (page - 1) * limit
  {
    if page < 1 {
      SkipBeforeFirstPage(page, limit);
    }
  }

  /** A page number near 2^61 wraps the skip to the least 64-bit value,
      which the SQL `OFFSET` refuses. */
  lemma GoSkipWrapsNegative()
    ensures GoSkip(0x2000_0000_0000_0001, 4) == Int64Min
  {
    assert Wrap64(0x8000_0000_0000_0004) == Int64Min + 4 by {
      assert 0x8000_0000_0000_0004 - (Int64Min + 4) == Modulus64;
    }
  }

  /** A page number near 2^62 wraps the skip back to zero, so it lists
      the first page. */
  lemma GoSkipWrapsToZero()
    ensures GoSkip(0x4000_0000_0000_0001, 4) == 0
  {
    assert Wrap64(0x1_0000_0000_0000_0004) == 4 by {
      assert 0x1_0000_0000_0000_0004 - 4 == Modulus64;
    }
  }

  /** The number of pages, `ceil(total / limit)`, in integer arithmetic. */
  function NoOfPages(total: nat, limit: int): (n: nat)
    requires limit > 0
    ensures (n - 1) * limit < total <= n * limit
    ensures n == 0 <==> total == 0
  {
    var q := (total + limit - 1) / limit;
    assert q * limit + (total + limit - 1) % limit == total + limit - 1;
    q
  }

  lemma {:induction false} MulMonotone(a: int, b: int, c: nat)
    requires a <= b
    ensures a * c <= b * c
    decreases c
  {
    if c > 0 {
      MulMonotone(a, b, c - 1);
      assert a * c == a * (c - 1) + a;
      assert b * c == b * (c - 1) + b;
    }
  }

  /** Pages 1 to NoOfPages hold rows; every later page is empty. */
  lemma PageEmptyIffBeyondLast<T>(s: seq<T>, page: int, limit: int)
    requires limit > 0 && page >= 1
    ensures Page(s, Skip(page, limit), limit) == [] <==> page > NoOfPages(|s|, limit)
  {
    var n := NoOfPages(|s|, limit);
    if page > n {
      MulMonotone(n, page - 1, limit);
    } else {
      MulMonotone(page - 1, n - 1, limit);
    }
  }

  /** Paging is complete: the row at position `k` of the ordered result is
      on page `k / limit + 1`, at offset `k % limit`, and that page is
      within the page count. */
  lemma PageCovers<T>(s: seq<T>, k: int, limit: int)
    requires limit > 0 && 0 <= k < |s|
    ensures var page := k / limit + 1;
      var r := Page(s, Skip(page, limit), limit);
      page <= NoOfPages(|s|, limit) && k % limit < |r| && r[k % limit] == s[k]
  {
    var page := k / limit + 1;
    assert Skip(page, limit) == (k / limit) * limit;
    assert (k / limit) * limit + k % limit == k;
    var n := NoOfPages(|s|, limit);
    if page > n {
      MulMonotone(n, page - 1, limit);
    }
  }

  /** Every row of a result is on one of pages 1 .. NoOfPages. */
  lemma PageCoversRow<T>(s: seq<T>, x: T, limit: int) returns (page: int)
    requires limit > 0 && x in s
    ensures 1 <= page <= NoOfPages(|s|, limit)
    ensures x in Page(s, Skip(page, limit), limit)
  {
    var k :| 0 <= k < |s| && s[k] == x;
    PageCovers(s, k, limit);
    page := k / limit + 1;
    var r := Page(s, Skip(page, limit), limit);
    assert r[k % limit] == x;
  }
}
