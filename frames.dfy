/** The pandas DataFrame operations the ETL composes, on sequences of rows:
    column-wise map (and its in-place form, for `df[col] = ...` on a frame the
    caller owns), left merge, sort and `drop_duplicates(keep='last')`. */
module Frames {
  import opened Wrappers

  /** Apply `f` to every row. */
  function MapSeq<T, U>(s: seq<T>, f: T -> U): (r: seq<U>)
    ensures |r| == |s| && forall i :: 0 <= i < |s| ==> r[i] == f(s[i])
  {
    seq(|s|, i requires 0 <= i < |s| => f(s[i]))
  }

  /** Overwrite every row of a caller's frame with `f` of itself. */
  method MapInPlace<T>(a: array<T>, f: T -> T)
    modifies a
    ensures a[..] == MapSeq(old(a[..]), f)
  {
    for i := 0 to a.Length
      invariant forall j :: 0 <= j < i ==> a[j] == f(old(a[j]))
      invariant forall j :: i <= j < a.Length ==> a[j] == old(a[j])
    {
      a[i] := f(a[i]);
    }
  }

  /** One row of a left merge: the left row and its matching right row, or
      `None` in every right-hand column when nothing matched. */
  datatype Joined<L, R> = Joined(left: L, right: Option<R>)

  /** The right rows whose key equals that of `l`, in right-hand order. */
  function Matches<L, R, K(==)>(l: L, right: seq<R>, lk: L -> K, rk: R -> K): (ms: seq<R>)
    ensures |ms| <= |right|
    ensures forall i :: 0 <= i < |ms| ==> ms[i] in right && rk(ms[i]) == lk(l)
    ensures forall i :: 0 <= i < |right| && rk(right[i]) == lk(l) ==> right[i] in ms
    ensures (forall i :: 0 <= i < |right| ==> rk(right[i]) != lk(l)) ==> ms == []
  {
    if right == [] then []
    else (if rk(right[0]) == lk(l) then [right[0]] else []) + Matches(l, right[1..], lk, rk)
  }

  /** The rows a left merge produces for one left row. */
  function JoinOne<L, R, K(==)>(l: L, right: seq<R>, lk: L -> K, rk: R -> K): (js: seq<Joined<L, R>>)
    ensures |js| == if Matches(l, right, lk, rk) == [] then 1 else |Matches(l, right, lk, rk)|
  {
    var ms := Matches(l, right, lk, rk);
    if ms == [] then [Joined(l, None)] else MapSeq(ms, r => Joined(l, Some(r)))
  }

  /** `left.merge(right, left_on=..., right_on=..., how='left')`: for each
      left row in order, one row per matching right row, or one row with no
      right-hand values when none matches. */
  function LeftJoin<L, R, K(==)>(left: seq<L>, right: seq<R>, lk: L -> K, rk: R -> K): seq<Joined<L, R>> {
    if left == [] then []
    else JoinOne(left[0], right, lk, rk) + LeftJoin(left[1..], right, lk, rk)
  }

  lemma JoinOneMember<L, R, K>(l: L, right: seq<R>, lk: L -> K, rk: R -> K, j: Joined<L, R>)
    ensures j in JoinOne(l, right, lk, rk) <==>
      && j.left == l
      && (j.right.Some? ==> j.right.value in right && rk(j.right.value) == lk(l))
      && (j.right.None? ==> forall r :: r in right ==> rk(r) != lk(l))
  {
    var ms := Matches(l, right, lk, rk);
    if ms != [] {
      var out := MapSeq(ms, r => Joined(l, Some(r)));
      if j.left == l && j.right.Some? && j.right.value in right && rk(j.right.value) == lk(l) {
        var k :| 0 <= k < |ms| && ms[k] == j.right.value;
        assert out[k] == j;
      }
      if j.right.None? {
        assert ms[0] in right;
      }
    }
  }

  /** What a left merge contains: exactly the pairs of a left row with a
      right row of the same key, and the left rows that match nothing, alone. */
  lemma {:induction false} LeftJoinMember<L, R, K>(left: seq<L>, right: seq<R>, lk: L -> K, rk: R -> K, j: Joined<L, R>)
    ensures j in LeftJoin(left, right, lk, rk) <==>
      && j.left in left
      && (j.right.Some? ==> j.right.value in right && rk(j.right.value) == lk(j.left))
      && (j.right.None? ==> forall r :: r in right ==> rk(r) != lk(j.left))
  {
    if left != [] {
      JoinOneMember(left[0], right, lk, rk, j);
      LeftJoinMember(left[1..], right, lk, rk, j);
      assert left == [left[0]] + left[1..];
    }
  }

  /** No left row is lost by the merge. */
  lemma LeftJoinKeepsLeft<L, R, K>(left: seq<L>, right: seq<R>, lk: L -> K, rk: R -> K, l: L)
    requires l in left
    ensures exists j :: j in LeftJoin(left, right, lk, rk) && j.left == l
  {
    if r :| r in right && rk(r) == lk(l) {
      LeftJoinMember(left, right, lk, rk, Joined(l, Some(r)));
    } else {
      LeftJoinMember(left, right, lk, rk, Joined(l, None));
    }
  }

  /** No two rows share a key. */
  predicate UniqueKeys<R, K(==)>(s: seq<R>, key: R -> K) {
    forall i, j :: 0 <= i < j < |s| ==> key(s[i]) != key(s[j])
  }

  lemma {:induction false} MatchesOfUniqueKeys<L, R, K>(l: L, right: seq<R>, lk: L -> K, rk: R -> K)
    requires UniqueKeys(right, rk)
    ensures |Matches(l, right, lk, rk)| <= 1
  {
    if right != [] {
      assert UniqueKeys(right[1..], rk) by {
        forall i, j | 0 <= i < j < |right| - 1 ensures rk(right[1..][i]) != rk(right[1..][j]) {
          assert right[1..][i] == right[i + 1] && right[1..][j] == right[j + 1];
        }
      }
      MatchesOfUniqueKeys(l, right[1..], lk, rk);
      if rk(right[0]) == lk(l) {
        forall i | 0 <= i < |right[1..]| ensures rk(right[1..][i]) != lk(l) {
          assert right[1..][i] == right[i + 1];
        }
        assert Matches(l, right[1..], lk, rk) == [];
      }
    }
  }

  /** When the right-hand keys are unique the merge is row for row: the i-th
      output row belongs to the i-th left row and carries its match, if any. */
  lemma LeftJoinOneToOne<L, R, K>(left: seq<L>, right: seq<R>, lk: L -> K, rk: R -> K)
    requires UniqueKeys(right, rk)
    ensures var out := LeftJoin(left, right, lk, rk);
      && |out| == |left|
      && forall i :: 0 <= i < |left| ==>
           && out[i].left == left[i]
           && (out[i].right.Some? ==> out[i].right.value in right && rk(out[i].right.value) == lk(left[i]))
           && (out[i].right.None? ==> forall r :: r in right ==> rk(r) != lk(left[i]))
  {
    forall i | 0 <= i < |left| ensures |Matches(left[i], right, lk, rk)| <= 1 {
      MatchesOfUniqueKeys(left[i], right, lk, rk);
    }
    LeftJoinSingles(left, right, lk, rk);
    forall i | 0 <= i < |left|
      ensures var j := JoinOne(left[i], right, lk, rk)[0];
        && j.left == left[i]
        && (j.right.Some? ==> j.right.value in right && rk(j.right.value) == lk(left[i]))
        && (j.right.None? ==> forall r :: r in right ==> rk(r) != lk(left[i]))
    {
      var one := JoinOne(left[i], right, lk, rk);
      MatchesOfUniqueKeys(left[i], right, lk, rk);
      assert one[0] in one;
      JoinOneMember(left[i], right, lk, rk, one[0]);
    }
  }

  /** When every left row has at most one match, every left row gives
      exactly one merged row. */
  lemma {:induction false} LeftJoinSingles<L, R, K>(left: seq<L>, right: seq<R>, lk: L -> K, rk: R -> K)
    requires forall i :: 0 <= i < |left| ==> |Matches(left[i], right, lk, rk)| <= 1
    ensures var out := LeftJoin(left, right, lk, rk);
      |out| == |left| && forall i :: 0 <= i < |left| ==> out[i] == JoinOne(left[i], right, lk, rk)[0]
  {
    if left != [] {
      assert forall i :: 0 <= i < |left| - 1 ==> left[1..][i] == left[i + 1];
      LeftJoinSingles(left[1..], right, lk, rk);
      var rest := LeftJoin(left[1..], right, lk, rk);
      var one := JoinOne(left[0], right, lk, rk);
      assert |one| == 1;
      var out := one + rest;
      assert LeftJoin(left, right, lk, rk) == out;
      forall i | 1 <= i < |left| ensures out[i] == JoinOne(left[i], right, lk, rk)[0] {
        assert out[i] == rest[i - 1] && left[i] == left[1..][i - 1];
      }
    }
  }

  /** A stable insertion: `x` goes before the first row it does not follow. */
  function Insert<T>(x: T, s: seq<T>, le: (T, T) -> bool): (r: seq<T>)
    ensures |r| == |s| + 1 && multiset(r) == multiset(s) + multiset{x}
  {
    if s == [] || le(x, s[0]) then [x] + s
    else
      assert s == [s[0]] + s[1..];
      [s[0]] + Insert(x, s[1..], le)
  }

  /** `sort_values` by the order `le`, as a stable insertion sort. */
  function SortBy<T>(s: seq<T>, le: (T, T) -> bool): (r: seq<T>)
    ensures |r| == |s| && multiset(r) == multiset(s)
  {
    if s == [] then []
    else
      assert s == [s[0]] + s[1..];
      Insert(s[0], SortBy(s[1..], le), le)
  }

  /** A row inserted under a key no row has keeps the keys distinct. */
  lemma {:induction false} InsertUnique<T, K>(x: T, s: seq<T>, le: (T, T) -> bool, key: T -> K)
    requires UniqueKeys(s, key)
    requires forall i :: 0 <= i < |s| ==> key(s[i]) != key(x)
    ensures UniqueKeys(Insert(x, s, le), key)
  {
    if s != [] && !le(x, s[0]) {
      var tail := Insert(x, s[1..], le);
      assert UniqueKeys(s[1..], key) by {
        forall i, j | 0 <= i < j < |s| - 1 ensures key(s[1..][i]) != key(s[1..][j]) {
          assert s[1..][i] == s[i + 1] && s[1..][j] == s[j + 1];
        }
      }
      InsertUnique(x, s[1..], le, key);
      forall p | 0 <= p < |tail| ensures key(tail[p]) != key(s[0]) {
        assert tail[p] in multiset(s[1..]) + multiset{x};
        if tail[p] != x {
          assert tail[p] in s[1..];
          var q :| 0 <= q < |s| - 1 && s[1..][q] == tail[p];
          assert s[q + 1] == tail[p];
        }
      }
      var r := [s[0]] + tail;
      forall i, j | 0 <= i < j < |r| ensures key(r[i]) != key(r[j]) {
        if i > 0 {
          assert r[i] == tail[i - 1] && r[j] == tail[j - 1];
        } else {
          assert r[j] == tail[j - 1];
        }
      }
    }
  }

  /** Sorting keeps distinct keys distinct. */
  lemma {:induction false} SortByUnique<T, K>(s: seq<T>, le: (T, T) -> bool, key: T -> K)
    requires UniqueKeys(s, key)
    ensures UniqueKeys(SortBy(s, le), key)
  {
    if s != [] {
      assert UniqueKeys(s[1..], key) by {
        forall i, j | 0 <= i < j < |s| - 1 ensures key(s[1..][i]) != key(s[1..][j]) {
          assert s[1..][i] == s[i + 1] && s[1..][j] == s[j + 1];
        }
      }
      SortByUnique(s[1..], le, key);
      var t := SortBy(s[1..], le);
      forall i | 0 <= i < |t| ensures key(t[i]) != key(s[0]) {
        assert t[i] in multiset(s[1..]);
        var q :| 0 <= q < |s| - 1 && s[1..][q] == t[i];
        assert s[q + 1] == t[i];
      }
      InsertUnique(s[0], t, le, key);
    }
  }

  ghost predicate TotalPreorder<T(!new)>(le: (T, T) -> bool) {
    && (forall x, y :: le(x, y) || le(y, x))
    && (forall x, y, z :: le(x, y) && le(y, z) ==> le(x, z))
  }

  predicate SortedBy<T>(s: seq<T>, le: (T, T) -> bool) {
    forall i, j :: 0 <= i < j < |s| ==> le(s[i], s[j])
  }

  lemma {:induction false} InsertSorted<T(!new)>(x: T, s: seq<T>, le: (T, T) -> bool)
    requires TotalPreorder(le) && SortedBy(s, le)
    ensures SortedBy(Insert(x, s, le), le)
  {
    if s != [] && !le(x, s[0]) {
      var tail := s[1..];
      assert SortedBy(tail, le) by {
        forall i, j | 0 <= i < j < |tail| ensures le(tail[i], tail[j]) {
          assert tail[i] == s[i + 1] && tail[j] == s[j + 1];
        }
      }
      InsertSorted(x, tail, le);
      var r := Insert(x, tail, le);
      assert le(s[0], x);
      forall y | y in r ensures le(s[0], y) {
        assert y in multiset(r);
        if y != x {
          assert y in multiset(tail);
          var k :| 0 <= k < |tail| && tail[k] == y;
          assert s[k + 1] == y;
        }
      }
      SortedCons(s[0], r, le);
    }
  }

  lemma SortedCons<T>(h: T, r: seq<T>, le: (T, T) -> bool)
    requires SortedBy(r, le) && forall y :: y in r ==> le(h, y)
    ensures SortedBy([h] + r, le)
  {
    var s := [h] + r;
    forall i, j | 0 <= i < j < |s| ensures le(s[i], s[j]) {
      assert s[j] == r[j - 1];
      if i == 0 {
        assert r[j - 1] in r;
      } else {
        assert s[i] == r[i - 1];
      }
    }
  }

  /** The sort orders its input by `le` and only reorders it. */
  lemma {:induction false} SortBySorted<T(!new)>(s: seq<T>, le: (T, T) -> bool)
    requires TotalPreorder(le)
    ensures SortedBy(SortBy(s, le), le)
  {
    if s != [] {
      SortBySorted(s[1..], le);
      InsertSorted(s[0], SortBy(s[1..], le), le);
    }
  }

  /** `key` occurs among the rows of `s`. */
  predicate HasKey<T, K(==)>(s: seq<T>, key: T -> K, k: K) {
    exists i :: 0 <= i < |s| && key(s[i]) == k
  }

  /** `drop_duplicates(subset=[key], keep='last')`: a row survives when no
      later row has its key; survivors keep their relative order. */
  function DedupLast<T, K(==)>(s: seq<T>, key: T -> K): seq<T> {
    if s == [] then []
    else (if HasKey(s[1..], key, key(s[0])) then [] else [s[0]]) + DedupLast(s[1..], key)
  }

  lemma {:induction false} DedupLastKeys<T, K>(s: seq<T>, key: T -> K, k: K)
    ensures HasKey(DedupLast(s, key), key, k) <==> HasKey(s, key, k)
  {
    if s != [] {
      DedupLastKeys(s[1..], key, k);
      var head := if HasKey(s[1..], key, key(s[0])) then [] else [s[0]];
      var d := DedupLast(s[1..], key);
      if HasKey(s, key, k) {
        var i :| 0 <= i < |s| && key(s[i]) == k;
        if i > 0 {
          assert key(s[1..][i - 1]) == k;
          var m :| 0 <= m < |d| && key(d[m]) == k;
          assert (head + d)[|head| + m] == d[m];
        } else if head == [] {
          var m :| 0 <= m < |s[1..]| && key(s[1..][m]) == k;
          var m' :| 0 <= m' < |d| && key(d[m']) == k;
          assert (head + d)[m'] == d[m'];
        } else {
          assert (head + d)[0] == s[0];
        }
      }
      if HasKey(head + d, key, k) {
        var m :| 0 <= m < |head + d| && key((head + d)[m]) == k;
        if m < |head| {
          assert key(s[0]) == k;
        } else {
          assert (head + d)[m] == d[m - |head|];
          var i :| 0 <= i < |s[1..]| && key(s[1..][i]) == k;
          assert key(s[i + 1]) == k;
        }
      }
    }
  }

  /** Every key of the input survives deduplication exactly once. */
  lemma {:induction false} DedupLastUnique<T, K>(s: seq<T>, key: T -> K)
    ensures UniqueKeys(DedupLast(s, key), key)
  {
    if s != [] {
      DedupLastUnique(s[1..], key);
      var d := DedupLast(s[1..], key);
      if !HasKey(s[1..], key, key(s[0])) {
        forall j | 0 < j < |[s[0]] + d| ensures key(([s[0]] + d)[0]) != key(([s[0]] + d)[j]) {
          assert ([s[0]] + d)[j] == d[j - 1];
          if key(d[j - 1]) == key(s[0]) {
            assert HasKey(d, key, key(s[0]));
            DedupLastKeys(s[1..], key, key(s[0]));
          }
        }
        forall i, j | 0 < i < j < |[s[0]] + d| ensures key(([s[0]] + d)[i]) != key(([s[0]] + d)[j]) {
          assert ([s[0]] + d)[i] == d[i - 1] && ([s[0]] + d)[j] == d[j - 1];
        }
      }
    }
  }

  /** Each survivor is the last input row with its key. */
  lemma {:induction false} DedupLastIsLast<T, K>(s: seq<T>, key: T -> K, o: T)
    requires o in DedupLast(s, key)
    ensures exists i :: 0 <= i < |s| && s[i] == o && !HasKey(s[i + 1..], key, key(o))
  {
    var d := DedupLast(s[1..], key);
    if o in d {
      DedupLastIsLast(s[1..], key, o);
      var i :| 0 <= i < |s[1..]| && s[1..][i] == o && !HasKey(s[1..][i + 1..], key, key(o));
      assert s[1..][i + 1..] == s[i + 2..];
      assert s[i + 1] == o;
    } else {
      assert o == s[0] && !HasKey(s[1..], key, key(s[0]));
    }
  }

  /** The largest element of a non-empty sequence, as `Series.max()`. */
  function MaxOf(s: seq<int>): (m: int)
    requires |s| > 0
    ensures m in s && forall x :: x in s ==> x <= m
  {
    if |s| == 1 then s[0]
    else
      var rest := MaxOf(s[1..]);
      assert forall x :: x in s ==> x == s[0] || x in s[1..];
      if s[0] >= rest then s[0] else rest
  }
}
