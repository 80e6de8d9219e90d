/** Sequence helpers shared by the tables: the filter a query runs, the
    first-match lookup behind `find`, and the repetition an inner join makes. */
module Seqs {
  import opened Wrappers

  /** The rows of `s` that satisfy `p`, in table order (a `WHERE` clause). */
  function Filter<T(!new)>(s: seq<T>, p: T -> bool): (r: seq<T>)
    ensures |r| <= |s|
    ensures forall x {:trigger x in r} :: x in r <==> x in s && p(x)
  {
    if s == [] then []
    else
      var rest := Filter(s[1..], p);
      assert s == [s[0]] + s[1..];
      if p(s[0]) then [s[0]] + rest else rest
  }

  /** Filtering distributes over concatenation: appending a row to a table
      appends it to every query result it satisfies. */
  lemma {:induction false} FilterAppend<T(!new)>(s: seq<T>, t: seq<T>, p: T -> bool)
    ensures Filter(s + t, p) == Filter(s, p) + Filter(t, p)
  {
    if s == [] {
      assert s + t == t;
    } else {
      var head := if p(s[0]) then [s[0]] else [];
      var fs, ft := Filter(s[1..], p), Filter(t, p);
      assert Filter(s + t, p) == head + Filter(s[1..] + t, p) by {
        assert (s + t)[0] == s[0] && (s + t)[1..] == s[1..] + t;
      }
      assert Filter(s[1..] + t, p) == fs + ft by {
        FilterAppend(s[1..], t, p);
      }
      assert head + (fs + ft) == (head + fs) + ft;
      assert Filter(s, p) == head + fs;
    }
  }

  /** How many times `x` occurs in `s`. */
  function Count<T(==)>(s: seq<T>, x: T): (n: nat)
    ensures n <= |s|
    ensures n > 0 <==> x in s
  {
    if s == [] then 0
    else
      assert s == [s[0]] + s[1..];
      (if s[0] == x then 1 else 0) + Count(s[1..], x)
  }

  lemma {:induction false} CountAppend<T>(s: seq<T>, t: seq<T>, x: T)
    ensures Count(s + t, x) == Count(s, x) + Count(t, x)
  {
    if s == [] {
      assert s + t == t;
    } else {
      assert (s + t)[1..] == s[1..] + t;
      CountAppend(s[1..], t, x);
    }
  }

  /** A query returns each satisfying row as often as the table holds it,
      and no other row. */
  lemma {:induction false} FilterCount<T(!new)>(s: seq<T>, p: T -> bool, x: T)
    ensures Count(Filter(s, p), x) == if p(x) then Count(s, x) else 0
  {
    if s != [] {
      FilterCount(s[1..], p, x);
      if p(s[0]) {
        assert ([s[0]] + Filter(s[1..], p))[1..] == Filter(s[1..], p);
      }
    }
  }

  /** `n` copies of `x`. */
  function Repeat<T(==,!new)>(x: T, n: nat): (r: seq<T>)
    ensures |r| == n
    ensures forall y :: y in r ==> y == x
    ensures forall y :: Count(r, y) == if y == x then n else 0
  {
    if n == 0 then [] else [x] + Repeat(x, n - 1)
  }

  /** Every row of `rows`, each repeated `mult(row)` times, in table order:
      the shape of an inner join seen from one side. */
  function Join<T(==,!new)>(rows: seq<T>, mult: T -> nat): (r: seq<T>)
    ensures forall x :: x in r <==> x in rows && mult(x) > 0
  {
    if rows == [] then []
    else
      assert rows == [rows[0]] + rows[1..];
      Repeat(rows[0], mult(rows[0])) + Join(rows[1..], mult)
  }

  /** A row occurs in the join as often as in the table times its multiplicity. */
  lemma {:induction false} JoinCount<T(!new)>(rows: seq<T>, mult: T -> nat, x: T)
    ensures Count(Join(rows, mult), x) == Count(rows, x) * mult(x)
  {
    if rows != [] {
      var head := Repeat(rows[0], mult(rows[0]));
      var rest := Join(rows[1..], mult);
      assert Join(rows, mult) == head + rest;
      JoinCount(rows[1..], mult, x);
      CountAppend(head, rest, x);
      var k := Count(rows[1..], x);
      var m := mult(x);
      var h := if rows[0] == x then 1 else 0;
      assert Count(rows, x) == h + k;
      assert Count(head, x) == h * m;
      Distribute(h, k, m);
    }
  }

  /** Under distinct keys a stored row occurs in the join exactly its
      multiplicity many times. */
  lemma JoinCountKeyed<T(!new), K>(rows: seq<T>, key: T -> K, mult: T -> nat, x: T)
    requires DistinctKeys(rows, key) && x in rows
    ensures Count(Join(rows, mult), x) == mult(x)
  {
    KeyedRowOnce(rows, key, x);
    OnceInJoin(rows, mult, x);
  }

  lemma OnceInJoin<T(!new)>(rows: seq<T>, mult: T -> nat, x: T)
    requires x in rows && Count(rows, x) <= 1
    ensures Count(Join(rows, mult), x) == mult(x)
  {
    assert Count(rows, x) == 1;
    JoinCount(rows, mult, x);
  }

  lemma Distribute(h: nat, k: nat, m: nat)
    ensures (h + k) * m == h * m + k * m
  {
  }

  /** The first row whose key is `k`, if any (`find` by primary key). */
  function Find<T, K(==)>(s: seq<T>, key: T -> K, k: K): (r: Option<T>)
    ensures r.Some? ==> r.value in s && key(r.value) == k
    ensures r.None? <==> forall x :: x in s ==> key(x) != k
  {
    if s == [] then None
    else if key(s[0]) == k then Some(s[0])
    else
      assert s == [s[0]] + s[1..];
      Find(s[1..], key, k)
  }

  /** The rows whose key is not `k`, in table order (`DELETE ... WHERE key = k`). */
  function RemoveKey<T(!new), K(==)>(s: seq<T>, key: T -> K, k: K): (r: seq<T>)
    ensures forall x :: x in r <==> x in s && key(x) != k
  {
    Filter(s, (x: T) => key(x) != k)
  }

  /** Every row whose key is that of `row` replaced by `row` (`UPDATE ... WHERE key = k`). */
  function ReplaceKey<T, K(==)>(s: seq<T>, key: T -> K, row: T): (r: seq<T>)
    ensures |r| == |s|
    ensures forall i :: 0 <= i < |s| ==> r[i] == if key(s[i]) == key(row) then row else s[i]
  {
    if s == [] then []
    else [if key(s[0]) == key(row) then row else s[0]] + ReplaceKey(s[1..], key, row)
  }

  /** No two rows share a key: the primary-key constraint of a table. */
  ghost predicate DistinctKeys<T, K>(s: seq<T>, key: T -> K) {
    forall i, j :: 0 <= i < |s| && 0 <= j < |s| && key(s[i]) == key(s[j]) ==> i == j
  }

  /** Under distinct keys, looking a stored row up by its key finds that row. */
  lemma FindKeyed<T, K>(s: seq<T>, key: T -> K, x: T)
    requires DistinctKeys(s, key)
    requires x in s
    ensures Find(s, key, key(x)) == Some(x)
  {
    var y := Find(s, key, key(x)).value;
    var i :| 0 <= i < |s| && s[i] == x;
    var j :| 0 <= j < |s| && s[j] == y;
  }

  /** Under distinct keys, deleting a present key removes exactly one row. */
  lemma {:induction false} RemoveKeyLength<T(!new), K>(s: seq<T>, key: T -> K, k: K)
    requires DistinctKeys(s, key)
    ensures |RemoveKey(s, key, k)| == if Find(s, key, k).Some? then |s| - 1 else |s|
  {
    if s != [] {
      DistinctKeysTail(s, key);
      RemoveKeyLength(s[1..], key, k);
      assert RemoveKey(s, key, k) == Filter(s, (x: T) => key(x) != k);
      if key(s[0]) == k {
        assert Find(s[1..], key, k).None? by {
          forall x | x in s[1..] ensures key(x) != k {
            var j :| 0 <= j < |s| - 1 && s[1..][j] == x;
            assert s[j + 1] == x;
          }
        }
      }
    }
  }

  /** Deleting rows keeps the remaining keys distinct. */
  lemma {:induction false} RemoveKeyDistinct<T(!new), K>(s: seq<T>, key: T -> K, k: K)
    requires DistinctKeys(s, key)
    ensures DistinctKeys(RemoveKey(s, key, k), key)
  {
    FilterDistinct(s, key, (x: T) => key(x) != k);
  }

  lemma {:induction false} FilterDistinct<T(!new), K>(s: seq<T>, key: T -> K, p: T -> bool)
    requires DistinctKeys(s, key)
    ensures DistinctKeys(Filter(s, p), key)
  {
    if s != [] {
      DistinctKeysTail(s, key);
      FilterDistinct(s[1..], key, p);
      var rest := Filter(s[1..], p);
      if p(s[0]) {
        forall k | 0 <= k < |rest|
          ensures key(rest[k]) != key(s[0])
        {
          assert rest[k] in rest;
          HeadKeyNotInTail(s, key, rest[k]);
        }
        var r := [s[0]] + rest;
        forall i, j | 0 <= i < |r| && 0 <= j < |r| && key(r[i]) == key(r[j])
          ensures i == j
        {
          if i != 0 && j != 0 {
            assert r[i] == rest[i - 1] && r[j] == rest[j - 1];
          }
        }
      }
    }
  }

  lemma HeadKeyNotInTail<T, K>(s: seq<T>, key: T -> K, x: T)
    requires s != [] && DistinctKeys(s, key)
    requires x in s[1..]
    ensures key(x) != key(s[0])
  {
    var j :| 0 <= j < |s| - 1 && s[1..][j] == x;
    assert s[j + 1] == x;
  }

  lemma DistinctKeysTail<T, K>(s: seq<T>, key: T -> K)
    requires s != [] && DistinctKeys(s, key)
    ensures DistinctKeys(s[1..], key)
  {
    forall i, j | 0 <= i < |s| - 1 && 0 <= j < |s| - 1 && key(s[1..][i]) == key(s[1..][j])
      ensures i == j
    {
      assert s[1..][i] == s[i + 1] && s[1..][j] == s[j + 1];
    }
  }

  /** Under distinct keys a table holds each row at most once. */
  lemma {:induction false} KeyedRowOnce<T, K>(s: seq<T>, key: T -> K, x: T)
    requires DistinctKeys(s, key)
    ensures Count(s, x) <= 1
  {
    if s != [] {
      DistinctKeysTail(s, key);
      KeyedRowOnce(s[1..], key, x);
    }
  }
}
