/** Generic queries over a table held as a map from serial id to row: the row a
    single-row SELECT returns, the rows a WHERE clause selects, ORDER BY ... DESC,
    and LIMIT/OFFSET. */
module Tables {
  import opened Wrappers

  /** The lowest key in [1, hi) whose row satisfies `p`. A SELECT without ORDER BY
      that reads only its first row may return any matching row; the model fixes
      that choice to the oldest row. */
  function FirstKey<R>(rows: map<int, R>, p: R -> bool, hi: int): (r: Option<int>)
    decreases hi
    ensures r.Some? ==> 1 <= r.value < hi && r.value in rows && p(rows[r.value])
    ensures r.Some? ==> forall k :: 1 <= k < r.value && k in rows ==> !p(rows[k])
    ensures r.None? ==> forall k :: 1 <= k < hi && k in rows ==> !p(rows[k])
  {
    if hi <= 1 then None
    else
      match FirstKey(rows, p, hi - 1)
      case Some(k) => Some(k)
      case None => if hi - 1 in rows && p(rows[hi - 1]) then Some(hi - 1) else None
  }

  /** Two tables whose rows match `p` at the same keys have the same first match. */
  lemma FirstKeySameMatches<R>(rows: map<int, R>, rows': map<int, R>, p: R -> bool, hi: int)
    requires forall k :: 1 <= k < hi ==> (k in rows && p(rows[k])) == (k in rows' && p(rows'[k]))
    ensures FirstKey(rows, p, hi) == FirstKey(rows', p, hi)
  {
    var a, b := FirstKey(rows, p, hi), FirstKey(rows', p, hi);
    if a.Some? && b.Some? {
      assert !(a.value < b.value) && !(b.value < a.value);
    }
  }

  /** The keys in [1, hi) whose rows satisfy `p`, in ascending order, each once. */
  function SelectKeys<R>(rows: map<int, R>, p: R -> bool, hi: int): (ks: seq<int>)
    decreases hi
    ensures forall i, j :: 0 <= i < j < |ks| ==> ks[i] < ks[j]
    ensures forall k :: k in ks <==> 1 <= k < hi && k in rows && p(rows[k])
  {
    if hi <= 1 then []
    else
      var prev := SelectKeys(rows, p, hi - 1);
      assert forall i :: 0 <= i < |prev| ==> prev[i] in prev && prev[i] < hi - 1;
      if hi - 1 in rows && p(rows[hi - 1]) then prev + [hi - 1] else prev
  }

  /** The rows stored at the keys `ks`, in the order of `ks`. */
  function RowsAt<R>(rows: map<int, R>, ks: seq<int>): (s: seq<R>)
    requires forall i :: 0 <= i < |ks| ==> ks[i] in rows
    ensures |s| == |ks|
    ensures forall i :: 0 <= i < |ks| ==> s[i] == rows[ks[i]]
  {
    if ks == [] then [] else [rows[ks[0]]] + RowsAt(rows, ks[1..])
  }

  /** No element occurs twice. */
  ghost predicate Distinct<R>(s: seq<R>)
  {
    forall i, j :: 0 <= i < j < |s| ==> s[i] != s[j]
  }

  /** Different keys hold different rows (as when every row carries its own key). */
  ghost predicate Injective<R>(rows: map<int, R>)
  {
    forall j, k :: j in rows && k in rows && j != k ==> rows[j] != rows[k]
  }

  /** The rows of `rows` (keys in [1, hi)) that satisfy `p`, oldest key first, each
      stored row once. */
  function Select<R(==)>(rows: map<int, R>, p: R -> bool, hi: int): (s: seq<R>)
    ensures forall x :: x in s ==> p(x) && x in rows.Values
    ensures forall k :: 1 <= k < hi && k in rows && p(rows[k]) ==> rows[k] in s
    ensures Injective(rows) ==> Distinct(s)
  {
    var ks := SelectKeys(rows, p, hi);
    var s := RowsAt(rows, ks);
    assert forall x :: x in s ==> exists i :: 0 <= i < |ks| && x == rows[ks[i]];
    forall k | 1 <= k < hi && k in rows && p(rows[k])
      ensures rows[k] in s
    {
      var i :| 0 <= i < |ks| && ks[i] == k;
      assert s[i] == rows[k];
    }
    s
  }

  /** `ORDER BY date DESC`: every row is at least as recent as the rows after it. */
  ghost predicate NewestFirst<R>(s: seq<R>, date: R -> int)
  {
    forall i, j :: 0 <= i < j < |s| ==> date(s[i]) >= date(s[j])
  }

  /** Insert `x` into a newest-first sequence, before every row no more recent than it. */
  function InsertNewestFirst<R(==)>(x: R, s: seq<R>, date: R -> int): (r: seq<R>)
    requires NewestFirst(s, date)
    ensures NewestFirst(r, date)
    ensures multiset(r) == multiset(s) + multiset{x}
  {
    if s == [] || date(x) >= date(s[0]) then
      [x] + s
    else
      var rest := InsertNewestFirst(x, s[1..], date);
      assert s == [s[0]] + s[1..];
      InsertedBelowHead(x, s, rest, date);
      [s[0]] + rest
  }

  /** Putting in front of a newest-first sequence a row at least as new as all of
      it keeps the sequence newest first. */
  lemma ConsNewestFirst<R>(y: R, rest: seq<R>, date: R -> int)
    requires NewestFirst(rest, date)
    requires forall i :: 0 <= i < |rest| ==> date(y) >= date(rest[i])
    ensures NewestFirst([y] + rest, date)
  {
    var r := [y] + rest;
    forall i, j | 0 <= i < j < |r|
      ensures date(r[i]) >= date(r[j])
    {
      assert r[j] == rest[j - 1];
      if i > 0 {
        assert r[i] == rest[i - 1];
      }
    }
  }

  /** The step of insertion below the head: the head is newer than the inserted
      row and than the rest of `s`, so it may stay in front. */
  lemma InsertedBelowHead<R>(x: R, s: seq<R>, rest: seq<R>, date: R -> int)
    requires NewestFirst(s, date) && s != [] && date(x) < date(s[0])
    requires NewestFirst(rest, date) && multiset(rest) == multiset(s[1..]) + multiset{x}
    ensures NewestFirst([s[0]] + rest, date)
  {
    forall i | 0 <= i < |rest|
      ensures date(s[0]) >= date(rest[i])
    {
      var y := rest[i];
      assert y in multiset(rest);
      if y != x {
        assert y in multiset(s[1..]);
        var k :| 0 <= k < |s[1..]| && s[1..][k] == y;
        assert s[k + 1] == y;
      }
    }
    ConsNewestFirst(s[0], rest, date);
  }

  /** The rows of `s` reordered newest first (ties keep no particular order in SQL;
      here the earlier row in `s` comes first). */
  function SortNewestFirst<R(==)>(s: seq<R>, date: R -> int): (r: seq<R>)
    ensures NewestFirst(r, date)
    ensures multiset(r) == multiset(s)
  {
    if s == [] then []
    else
      assert s == [s[0]] + s[1..];
      InsertNewestFirst(s[0], SortNewestFirst(s[1..], date), date)
  }

  /** `LIMIT limit OFFSET offset`: skip the first `offset` rows, then keep at most `limit`. */
  function Window<R>(s: seq<R>, offset: nat, limit: nat): (r: seq<R>)
    ensures |r| == if offset >= |s| then 0 else if |s| - offset < limit then |s| - offset else limit
    ensures forall i :: 0 <= i < |r| ==> r[i] == s[offset + i]
  {
    var lo := if offset < |s| then offset else |s|;
    var hi := if lo + limit < |s| then lo + limit else |s|;
    s[lo..hi]
  }

  /** A window of a newest-first sequence is newest first. */
  lemma WindowNewestFirst<R>(s: seq<R>, offset: nat, limit: nat, date: R -> int)
    requires NewestFirst(s, date)
    ensures NewestFirst(Window(s, offset, limit), date)
  {
    var w := Window(s, offset, limit);
    forall i, j | 0 <= i < j < |w|
      ensures date(w[i]) >= date(w[j])
    {
      assert w[i] == s[offset + i] && w[j] == s[offset + j];
    }
  }

  /** Consecutive pages of the same size tile the sequence: page `p + 1` starts
      exactly where page `p` ends. */
  lemma {:induction false} WindowsTile<R>(s: seq<R>, offset: nat, limit: nat)
    ensures Window(s, offset, limit) + Window(s, offset + limit, limit) == Window(s, offset, 2 * limit)
  {
    var a, b, c := Window(s, offset, limit), Window(s, offset + limit, limit), Window(s, offset, 2 * limit);
    assert |a + b| == |c|;
    forall i | 0 <= i < |c|
      ensures (a + b)[i] == c[i]
    {
      if i < |a| {
        assert (a + b)[i] == s[offset + i];
      } else {
        assert (a + b)[i] == b[i - |a|] == s[offset + limit + (i - |a|)];
        assert |a| == limit;
      }
    }
  }

  /** A reordering keeps exactly the same elements. */
  lemma PermutationSameElements<R>(a: seq<R>, b: seq<R>)
    requires multiset(a) == multiset(b)
    ensures forall x :: x in a ==> x in b
    ensures forall x :: x in b ==> x in a
  {
    forall x | x in a ensures x in b { assert x in multiset(a); }
    forall x | x in b ensures x in a { assert x in multiset(b); }
  }

  /** A sequence without repeats holds each value at most once. */
  lemma {:induction false} DistinctAtMostOnce<R>(s: seq<R>, x: R)
    requires Distinct(s)
    ensures multiset(s)[x] <= 1
    decreases |s|
  {
    if s != [] {
      assert s == [s[0]] + s[1..];
      assert Distinct(s[1..]) by {
        forall i, j | 0 <= i < j < |s[1..]| ensures s[1..][i] != s[1..][j] {
          assert s[1..][i] == s[i + 1] && s[1..][j] == s[j + 1];
        }
      }
      DistinctAtMostOnce(s[1..], x);
      if x == s[0] {
        assert x !in s[1..] by {
          forall i | 0 <= i < |s[1..]| ensures s[1..][i] != x {
            assert s[1..][i] == s[i + 1];
          }
        }
      }
    }
  }

  /** A value at two positions occurs at least twice. */
  lemma AtTwoPlaces<R>(t: seq<R>, i: int, j: int)
    requires 0 <= i < j < |t| && t[i] == t[j]
    ensures multiset(t)[t[j]] >= 2
  {
    assert t == t[..j] + [t[j]] + t[j + 1..];
    assert t[..j][i] == t[j];
    assert t[j] in multiset(t[..j]);
  }

  /** A reordering of a sequence without repeats has none either. */
  lemma DistinctPermutation<R>(a: seq<R>, b: seq<R>)
    requires Distinct(a) && multiset(a) == multiset(b)
    ensures Distinct(b)
  {
    forall i, j | 0 <= i < j < |b| ensures b[i] != b[j] {
      if b[i] == b[j] {
        AtTwoPlaces(b, i, j);
        DistinctAtMostOnce(a, b[j]);
        assert false;
      }
    }
  }

  /** The same, under a condition that makes `a` free of repeats. */
  lemma DistinctPermutationIf<R>(c: bool, a: seq<R>, b: seq<R>)
    requires (c ==> Distinct(a)) && multiset(a) == multiset(b)
    ensures c ==> Distinct(b)
  {
    if c {
      DistinctPermutation(a, b);
    }
  }

  /** `SELECT ... WHERE p ORDER BY date DESC`: exactly the rows satisfying `p`,
      newest first, each stored row once. */
  function SelectNewestFirst<R(==)>(rows: map<int, R>, p: R -> bool, hi: int, date: R -> int): (r: seq<R>)
    ensures forall x :: x in r ==> p(x) && x in rows.Values
    ensures forall k :: 1 <= k < hi && k in rows && p(rows[k]) ==> rows[k] in r
    ensures NewestFirst(r, date)
    ensures multiset(r) == multiset(Select(rows, p, hi))
    ensures Injective(rows) ==> Distinct(r)
  {
    var s := Select(rows, p, hi);
    var r := SortNewestFirst(s, date);
    PermutationSameElements(s, r);
    DistinctPermutationIf(Injective(rows), s, r);
    r
  }

  /** No two elements share a date. */
  ghost predicate DistinctDates<R>(s: seq<R>, date: R -> int)
  {
    forall i, j :: 0 <= i < j < |s| ==> date(s[i]) != date(s[j])
  }

  /** Dropping the first element keeps a sequence newest first and its dates distinct. */
  lemma TailOrdered<R>(a: seq<R>, date: R -> int)
    requires a != [] && NewestFirst(a, date)
    ensures NewestFirst(a[1..], date)
    ensures DistinctDates(a, date) ==> DistinctDates(a[1..], date)
  {
    forall i, j | 0 <= i < j < |a[1..]|
      ensures date(a[1..][i]) >= date(a[1..][j])
      ensures DistinctDates(a, date) ==> date(a[1..][i]) != date(a[1..][j])
    {
      assert a[1..][i] == a[i + 1] && a[1..][j] == a[j + 1];
    }
  }

  /** Two sequences with the same elements and the same first element have the same
      remaining elements. */
  lemma TailMultiset<R>(a: seq<R>, b: seq<R>)
    requires a != [] && b != [] && a[0] == b[0] && multiset(a) == multiset(b)
    ensures multiset(a[1..]) == multiset(b[1..])
  {
    assert a == [a[0]] + a[1..] && b == [b[0]] + b[1..];
    assert multiset(a[1..]) == multiset(a) - multiset{a[0]};
    assert multiset(b[1..]) == multiset(b) - multiset{b[0]};
  }

  /** Newest-first orderings of the same rows begin with the same row when no two
      rows share a date. */
  lemma SameNewest<R>(a: seq<R>, b: seq<R>, date: R -> int)
    requires NewestFirst(a, date) && NewestFirst(b, date) && multiset(a) == multiset(b)
    requires DistinctDates(a, date) && a != []
    ensures b != [] && b[0] == a[0]
  {
    assert |b| == |multiset(b)| == |a|;
    assert a[0] in multiset(b) && b[0] in multiset(a);
    var m :| 0 <= m < |b| && b[m] == a[0];
    var n :| 0 <= n < |a| && a[n] == b[0];
    assert date(a[0]) >= date(a[n]) && date(b[0]) >= date(b[m]);
  }

  /** Two different rows with the same date can be ordered newest first either way,
      so with ties `ORDER BY date DESC` does not fix the order. */
  lemma TieHasTwoOrders<R>(x: R, y: R, date: R -> int)
    requires x != y && date(x) == date(y)
    ensures NewestFirst([x, y], date) && NewestFirst([y, x], date)
    ensures multiset([x, y]) == multiset([y, x]) && [x, y] != [y, x]
  {
    assert [x, y][0] != [y, x][0];
  }

  /** When no two rows share a date there is only one newest-first order: any two
      newest-first orderings of the same rows are equal. */
  lemma {:induction false} NewestFirstUnique<R>(a: seq<R>, b: seq<R>, date: R -> int)
    requires NewestFirst(a, date) && NewestFirst(b, date) && multiset(a) == multiset(b)
    requires DistinctDates(a, date)
    ensures a == b
    decreases |a|
  {
    if a == [] {
      assert |b| == |multiset(b)| == 0;
    } else {
      SameNewest(a, b, date);
      TailMultiset(a, b);
      TailOrdered(a, date);
      TailOrdered(b, date);
      NewestFirstUnique(a[1..], b[1..], date);
      assert a == [a[0]] + a[1..] && b == [b[0]] + b[1..];
    }
  }
}
