/** The SQL the controllers issue, reduced to what it does to a table's rows:
    `WHERE` (Filter), `ORDER BY` (SortBy with a total preorder on the sort key)
    and `LIMIT` (Take). */
module Query {
  import opened Common

  /** `WHERE keep(row)`: the rows that pass, in table order. */
  function Filter<T(!new)>(s: seq<T>, keep: T -> bool): (r: seq<T>)
    ensures |r| <= |s|
    ensures forall k :: 0 <= k < |r| ==> keep(r[k])
    ensures forall x :: multiset(r)[x] == if keep(x) then multiset(s)[x] else 0
  {
    if |s| == 0 then []
    else
      var rest := Filter(s[1..], keep);
      assert s == [s[0]] + s[1..];
      if keep(s[0]) then [s[0]] + rest else rest
  }

  /** A comparison usable by ORDER BY: total and transitive. */
  ghost predicate TotalPreorder<K(!new)>(le: (K, K) -> bool) {
    && (forall a, b :: le(a, b) || le(b, a))
    && (forall a, b, c :: le(a, b) && le(b, c) ==> le(a, c))
  }

  predicate SortedBy<T>(s: seq<T>, le: (T, T) -> bool) {
    forall i, j :: 0 <= i < j < |s| ==> le(s[i], s[j])
  }

  /** `ORDER BY col ASC` on an integer or date column. */
  function Ascending(): (le: (int, int) -> bool)
    ensures TotalPreorder(le)
    ensures forall a, b :: le(a, b) <==> a <= b
  {
    (a: int, b: int) => a <= b
  }

  /** `ORDER BY col DESC` on an integer or date column. */
  function Descending(): (le: (int, int) -> bool)
    ensures TotalPreorder(le)
    ensures forall a, b :: le(a, b) <==> a >= b
  {
    (a: int, b: int) => a >= b
  }

  /** Byte-wise comparison of two strings (`a` sorts no later than `b`). */
  function LexLe(a: string, b: string): bool {
    if |a| == 0 then true
    else if |b| == 0 then false
    else if a[0] != b[0] then a[0] < b[0]
    else LexLe(a[1..], b[1..])
  }

  lemma {:induction false} LexLeTotal(a: string, b: string)
    ensures LexLe(a, b) || LexLe(b, a)
  {
    if |a| > 0 && |b| > 0 && a[0] == b[0] {
      LexLeTotal(a[1..], b[1..]);
    }
  }

  lemma {:induction false} LexLeTransitive(a: string, b: string, c: string)
    requires LexLe(a, b) && LexLe(b, c)
    ensures LexLe(a, c)
  {
    if |a| > 0 && |b| > 0 && |c| > 0 && a[0] == b[0] && b[0] == c[0] {
      LexLeTransitive(a[1..], b[1..], c[1..]);
    }
  }

  /** `ORDER BY name ASC` on a text column. */
  function Lexicographic(): (le: (string, string) -> bool)
    ensures TotalPreorder(le)
    ensures forall a, b :: le(a, b) == LexLe(a, b)
  {
    assert forall a, b :: LexLe(a, b) || LexLe(b, a) by {
      forall a, b ensures LexLe(a, b) || LexLe(b, a) { LexLeTotal(a, b); }
    }
    assert forall a, b, c :: LexLe(a, b) && LexLe(b, c) ==> LexLe(a, c) by {
      forall a, b, c | LexLe(a, b) && LexLe(b, c) ensures LexLe(a, c) { LexLeTransitive(a, b, c); }
    }
    (a: string, b: string) => LexLe(a, b)
  }

  /** Orders rows by one column compared with `le`. */
  function ByColumn<T(!new), K(!new)>(column: T -> K, le: (K, K) -> bool): (rowLe: (T, T) -> bool)
    requires TotalPreorder(le)
    ensures TotalPreorder(rowLe)
    ensures forall x, y :: rowLe(x, y) == le(column(x), column(y))
  {
    (x: T, y: T) => le(column(x), column(y))
  }

  /** Inserts `x` before the first element it may precede. */
  function Insert<T(!new)>(x: T, s: seq<T>, le: (T, T) -> bool): (r: seq<T>)
    requires TotalPreorder(le)
    requires SortedBy(s, le)
    ensures SortedBy(r, le)
    ensures multiset(r) == multiset(s) + multiset{x}
  {
    if |s| == 0 then [x]
    else if le(x, s[0]) then
      assert forall j :: 0 < j < |s| + 1 ==> le(x, ([x] + s)[j]) by {
        forall j | 0 < j < |s| + 1 ensures le(x, ([x] + s)[j]) {
          if j > 1 { assert le(s[0], s[j - 1]); }
        }
      }
      [x] + s
    else
      var rest := Insert(x, s[1..], le);
      assert s == [s[0]] + s[1..];
      assert le(s[0], x);
      assert forall k :: 0 <= k < |rest| ==> le(s[0], rest[k]) by {
        forall k | 0 <= k < |rest| ensures le(s[0], rest[k]) {
          assert rest[k] in multiset(rest);
          if rest[k] != x {
            assert rest[k] in multiset(s[1..]);
            var j :| 0 <= j < |s[1..]| && s[1..][j] == rest[k];
            assert le(s[0], s[j + 1]);
          }
        }
      }
      [s[0]] + rest
  }

  /** `ORDER BY`: a sorted permutation of the rows (insertion sort; SQL leaves
      the order of equal keys open, and so does this contract). */
  function SortBy<T(!new)>(s: seq<T>, le: (T, T) -> bool): (r: seq<T>)
    requires TotalPreorder(le)
    ensures SortedBy(r, le)
    ensures multiset(r) == multiset(s)
  {
    if |s| == 0 then []
    else
      assert s == [s[0]] + s[1..];
      Insert(s[0], SortBy(s[1..], le), le)
  }

  /** `LIMIT n`. */
  function Take<T>(s: seq<T>, n: nat): (r: seq<T>)
    ensures |r| <= n
    ensures |s| <= n ==> r == s
    ensures |s| > n ==> |r| == n
    ensures r == s[..|r|]
  {
    if |s| <= n then s else s[..n]
  }

  /** `SELECT expr FROM ...`: one output row per input row. */
  function Map<T, U>(s: seq<T>, f: T -> U): (r: seq<U>)
    ensures |r| == |s|
    ensures forall k :: 0 <= k < |s| ==> r[k] == f(s[k])
  {
    seq(|s|, i requires 0 <= i < |s| => f(s[i]))
  }

  /** `fetch()`: the first row that passes, if any. */
  function Find<T>(s: seq<T>, hit: T -> bool): (r: Option<T>)
    ensures r.None? <==> forall k :: 0 <= k < |s| ==> !hit(s[k])
    ensures r.Some? ==> exists k :: 0 <= k < |s| && s[k] == r.value && hit(s[k]) &&
                                   forall j :: 0 <= j < k ==> !hit(s[j])
  {
    if |s| == 0 then None
    else if hit(s[0]) then Some(s[0])
    else
      var r := Find(s[1..], hit);
      assert forall j :: 1 <= j < |s| ==> s[j] == s[1..][j - 1];
      r
  }

  /** `UPDATE ... SET change WHERE hit`: matching rows change in place, the
      others stay as they are. */
  function UpdateWhere<T>(s: seq<T>, hit: T -> bool, change: T -> T): (r: seq<T>)
    ensures |r| == |s|
    ensures forall k :: 0 <= k < |s| ==> r[k] == if hit(s[k]) then change(s[k]) else s[k]
  {
    seq(|s|, i requires 0 <= i < |s| => if hit(s[i]) then change(s[i]) else s[i])
  }

  /** Every earlier row stands in `rel` to every later one. */
  predicate Pairwise<T>(s: seq<T>, rel: (T, T) -> bool) {
    forall i, j :: 0 <= i < j < |s| ==> rel(s[i], s[j])
  }

  /** Deleting rows keeps a pairwise relation among those left. */
  lemma {:induction false} FilterPairwise<T(!new)>(s: seq<T>, keep: T -> bool, rel: (T, T) -> bool)
    requires Pairwise(s, rel)
    ensures Pairwise(Filter(s, keep), rel)
  {
    if |s| > 0 {
      var tail := s[1..];
      var rest := Filter(tail, keep);
      assert Pairwise(tail, rel) by {
        forall i, j | 0 <= i < j < |tail| ensures rel(tail[i], tail[j]) {
          assert tail[i] == s[i + 1] && tail[j] == s[j + 1];
        }
      }
      FilterPairwise(tail, keep, rel);
      if keep(s[0]) {
        forall k | 0 <= k < |rest| ensures rel(s[0], rest[k]) {
          FilterMembership(tail, keep, rest[k]);
          var j :| 0 <= j < |tail| && tail[j] == rest[k];
          assert s[j + 1] == rest[k];
        }
        PairwiseCons(s[0], rest, rel);
      }
    }
  }

  lemma PairwiseCons<T>(x: T, s: seq<T>, rel: (T, T) -> bool)
    requires Pairwise(s, rel)
    requires forall k :: 0 <= k < |s| ==> rel(x, s[k])
    ensures Pairwise([x] + s, rel)
  {
    var r := [x] + s;
    forall i, j | 0 <= i < j < |r| ensures rel(r[i], r[j]) {
      assert r[j] == s[j - 1];
      if i > 0 { assert r[i] == s[i - 1]; }
    }
  }

  /** A row that stands in `rel` to none earlier extends a pairwise sequence. */
  lemma PairwiseAppend<T>(s: seq<T>, x: T, rel: (T, T) -> bool)
    requires Pairwise(s, rel)
    requires forall k :: 0 <= k < |s| ==> rel(s[k], x)
    ensures Pairwise(s + [x], rel)
  {
    var r := s + [x];
    forall i, j | 0 <= i < j < |r| ensures rel(r[i], r[j]) {
      assert r[i] == s[i];
      if j < |s| { assert r[j] == s[j]; }
    }
  }

  /** A test every row passes keeps the table as it is. */
  lemma {:induction false} FilterEverything<T(!new)>(s: seq<T>, keep: T -> bool)
    requires forall k :: 0 <= k < |s| ==> keep(s[k])
    ensures Filter(s, keep) == s
  {
    if |s| > 0 {
      FilterEverything(s[1..], keep);
      assert [s[0]] + s[1..] == s;
    }
  }

  /** A row is in the filtered table exactly when it is in the table and passes. */
  lemma FilterMembership<T(!new)>(s: seq<T>, keep: T -> bool, x: T)
    ensures x in Filter(s, keep) <==> x in s && keep(x)
  {
    assert x in Filter(s, keep) <==> x in multiset(Filter(s, keep));
    assert x in s <==> x in multiset(s);
  }

  /** Looking a row up among the rows that pass some test gives the same answer as
      looking it up in the whole table, when only passing rows can be hit. */
  lemma {:induction false} FindFilter<T(!new)>(s: seq<T>, keep: T -> bool, hit: T -> bool)
    requires forall x :: hit(x) ==> keep(x)
    ensures Find(Filter(s, keep), hit) == Find(s, hit)
  {
    if |s| > 0 {
      FindFilter(s[1..], keep, hit);
      if keep(s[0]) {
        assert Filter(s, keep) == [s[0]] + Filter(s[1..], keep);
        assert ([s[0]] + Filter(s[1..], keep))[1..] == Filter(s[1..], keep);
      }
    }
  }

  /** A row appended after rows none of which is hit is found when it is hit itself. */
  lemma {:induction false} FindAppend<T>(s: seq<T>, x: T, hit: T -> bool)
    requires forall k :: 0 <= k < |s| ==> !hit(s[k])
    ensures Find(s + [x], hit) == if hit(x) then Some(x) else None
  {
    if |s| > 0 {
      assert (s + [x])[1..] == s[1..] + [x];
      FindAppend(s[1..], x, hit);
    } else {
      assert s + [x] == [x];
    }
  }

  /** `LIMIT n` after `ORDER BY` leaves out only rows sorting after all it keeps,
      and leaves out none while fewer than `n` rows are kept. */
  lemma TakeLeavesLater<T>(s: seq<T>, n: nat, le: (T, T) -> bool, x: T)
    requires SortedBy(s, le)
    requires x in s && x !in Take(s, n)
    ensures |Take(s, n)| == n
    ensures forall k :: 0 <= k < |Take(s, n)| ==> le(Take(s, n)[k], x)
  {
    var t := Take(s, n);
    var j :| 0 <= j < |s| && s[j] == x;
    assert forall i :: 0 <= i < |t| ==> t[i] == s[i];
    assert forall i :: 0 <= i < |t| ==> s[i] != x;
    assert j >= |t|;
  }

  /** A prefix of a sorted sequence is sorted. */
  lemma TakeSorted<T>(s: seq<T>, n: nat, le: (T, T) -> bool)
    requires SortedBy(s, le)
    ensures SortedBy(Take(s, n), le)
  {
  }
}
