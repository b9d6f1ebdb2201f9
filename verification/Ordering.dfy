/** What `ORDER BY ... LIMIT n` may answer: ties in any order, nothing smaller left out. */
module Ordering {
  import opened Text

  ghost predicate StrictOrder<T(!new)>(before: (T, T) -> bool) {
    && (forall x :: !before(x, x))
    && (forall x, y, z :: before(x, y) && before(y, z) ==> before(x, z))
  }

  ghost predicate Total<T(!new)>(before: (T, T) -> bool, pool: set<T>) {
    forall x, y :: x in pool && y in pool && x != y ==> before(x, y) || before(y, x)
  }

  predicate Distinct<T(==)>(s: seq<T>) { forall i, j :: 0 <= i < j < |s| ==> s[i] != s[j] }

  function Elements<T>(s: seq<T>): set<T> { set x | x in s }

  /** `out` is the first `limit` elements of `pool` in the order `before`. */
  ghost predicate IsFirst<T(!new)>(pool: set<T>, before: (T, T) -> bool, limit: nat, out: seq<T>) {
    && |out| == Min(limit, |pool|)
    && Distinct(out)
    && Elements(out) <= pool
    && (forall i, j :: 0 <= i < j < |out| ==> !before(out[j], out[i]))
    && (forall x, i :: x in pool && x !in out && 0 <= i < |out| ==> !before(x, out[i]))
  }

  lemma {:induction false} DistinctSize<T>(s: seq<T>)
    requires Distinct(s)
    ensures |Elements(s)| == |s|
  {
    if s == [] {
      assert Elements(s) == {};
    } else {
      DistinctSize(s[1..]);
      assert Elements(s) == {s[0]} + Elements(s[1..]);
      assert s[0] !in s[1..];
    }
  }

  lemma SubsetSize<T>(a: set<T>, b: set<T>)
    requires a <= b
    ensures |a| <= |b|
    ensures |a| == |b| ==> a == b
  {
    assert b == a + (b - a);
    if |a| == |b| { assert b - a == {}; }
  }

  /** A limit that covers the pool answers all of it. */
  lemma WholePool<T(!new)>(pool: set<T>, before: (T, T) -> bool, limit: nat, out: seq<T>)
    requires IsFirst(pool, before, limit, out)
    ensures |pool| <= limit <==> Elements(out) == pool
  {
    DistinctSize(out);
    SubsetSize(Elements(out), pool);
  }

  lemma {:induction false} MinimumExists<T(!new)>(pool: set<T>, before: (T, T) -> bool) returns (m: T)
    requires pool != {} && StrictOrder(before)
    ensures m in pool && forall x :: x in pool ==> !before(x, m)
    decreases |pool|
  {
    var a :| a in pool;
    var rest := pool - {a};
    m := a;
    if rest != {} {
      var b := MinimumExists(rest, before);
      m := if before(a, b) then a else b;
      forall x | x in pool ensures !before(x, m) {
        assert x == a || x in rest;
      }
    }
  }

  /** Every query has an answer. */
  lemma {:induction false} FirstExists<T(!new)>(pool: set<T>, before: (T, T) -> bool, limit: nat) returns (out: seq<T>)
    requires StrictOrder(before)
    ensures IsFirst(pool, before, limit, out)
    decreases limit
  {
    out := [];
    if limit > 0 && pool != {} {
      var m := MinimumExists(pool, before);
      var rest := FirstExists(pool - {m}, before, limit - 1);
      out := [m] + rest;
      assert Elements(out) == {m} + Elements(rest);
      assert m !in Elements(rest);
      forall x, i | x in pool && x !in out && 0 <= i < |out| ensures !before(x, out[i]) {
        assert x in pool - {m} && x !in rest;
      }
    }
  }

  /** On a total order there is only one answer. */
  lemma {:induction false} FirstUnique<T(!new)>(pool: set<T>, before: (T, T) -> bool, limit: nat, u: seq<T>, v: seq<T>)
    requires Total(before, pool)
    requires IsFirst(pool, before, limit, u) && IsFirst(pool, before, limit, v)
    ensures u == v
    decreases limit
  {
    if u != [] {
      assert u[0] in Elements(u) && v[0] in Elements(v);
      if u[0] != v[0] {
        HeadIsFirst(pool, before, limit, u, v[0]);
        HeadIsFirst(pool, before, limit, v, u[0]);
      }
      var m := u[0];
      TailIsFirst(pool, before, limit, u);
      TailIsFirst(pool, before, limit, v);
      FirstUnique(pool - {m}, before, limit - 1, u[1..], v[1..]);
      assert u == [m] + u[1..] && v == [m] + v[1..];
    }
  }

  lemma HeadIsFirst<T(!new)>(pool: set<T>, before: (T, T) -> bool, limit: nat, u: seq<T>, x: T)
    requires IsFirst(pool, before, limit, u) && u != [] && x in pool && x != u[0]
    ensures !before(x, u[0])
  {
    if x in u {
      var j :| 0 <= j < |u| && u[j] == x;
    }
  }

  /** `top` comes before all others of the pool. */
  ghost predicate Heads<T(!new)>(pool: set<T>, before: (T, T) -> bool, top: T) {
    top in pool && forall x :: x in pool && x != top ==> before(top, x)
  }

  /** Every answer that is not empty starts with it. */
  lemma AnswerStarts<T(!new)>(pool: set<T>, before: (T, T) -> bool, limit: nat, out: seq<T>, top: T)
    requires IsFirst(pool, before, limit, out) && Heads(pool, before, top) && out != []
    ensures out[0] == top
  {
    assert out[0] in Elements(out);
    if out[0] != top { HeadIsFirst(pool, before, limit, out, top); }
  }

  lemma FirstOfTwo<T(!new)>(pool: set<T>, before: (T, T) -> bool, top: T, other: T)
    requires pool == {top, other} && before(top, other)
    ensures Heads(pool, before, top)
  {
  }

  lemma TailIsFirst<T(!new)>(pool: set<T>, before: (T, T) -> bool, limit: nat, u: seq<T>)
    requires IsFirst(pool, before, limit, u) && u != []
    ensures IsFirst(pool - {u[0]}, before, limit - 1, u[1..])
  {
    assert u[0] in Elements(u);
    forall x | x in Elements(u[1..]) ensures x in pool - {u[0]} {
      assert x in Elements(u);
    }
    forall x, i | x in pool - {u[0]} && x !in u[1..] && 0 <= i < |u[1..]| ensures !before(x, u[1..][i]) {
      assert u == [u[0]] + u[1..];
    }
  }

  /** `out` is what is kept of `s`, in order: `at` are the places of the elements kept. */
  ghost predicate Picks<T(!new)>(s: seq<T>, keep: T -> bool, at: seq<int>, out: seq<T>) {
    && |at| == |out| && (forall i :: 0 <= i < |at| ==> 0 <= at[i] < |s| && out[i] == s[at[i]])
    && (forall i, j :: 0 <= i < j < |at| ==> at[i] < at[j])
    && (forall p :: 0 <= p < |s| ==> (keep(s[p]) <==> p in at))
  }

  lemma PicksSnoc<T(!new)>(s: seq<T>, keep: T -> bool, at: seq<int>, out: seq<T>, x: T)
    requires Picks(s, keep, at, out)
    ensures keep(x) ==> Picks(s + [x], keep, at + [|s|], out + [x])
    ensures !keep(x) ==> Picks(s + [x], keep, at, out)
  {
    assert forall p :: p in at ==> p < |s|;
  }

  ghost predicate SortedBy<T(!new)>(before: (T, T) -> bool, s: seq<T>) {
    forall i, j :: 0 <= i < j < |s| ==> !before(s[j], s[i])
  }

  lemma SortedHead<T(!new)>(before: (T, T) -> bool, u: seq<T>, x: T)
    requires SortedBy(before, u) && x in u && x != u[0]
    ensures !before(x, u[0])
  {
    var j :| 0 <= j < |u| && u[j] == x;
  }

  lemma TailBag<T>(u: seq<T>)
    requires u != []
    ensures multiset(u[1..]) == multiset(u) - multiset{u[0]}
  {
    assert u == [u[0]] + u[1..];
    assert multiset(u) == multiset{u[0]} + multiset(u[1..]);
  }

  lemma SameHead<T(!new)>(before: (T, T) -> bool, u: seq<T>, v: seq<T>)
    requires forall x, y :: x != y ==> before(x, y) || before(y, x)
    requires SortedBy(before, u) && SortedBy(before, v) && multiset(u) == multiset(v) && u != []
    ensures v != [] && u[0] == v[0]
  {
    assert |u| == |multiset(u)| == |multiset(v)| == |v|;
    var x, y := u[0], v[0];
    assert x in multiset(v) && y in multiset(u);
    if x != y {
      SortedHead(before, u, y);
      SortedHead(before, v, x);
    }
  }

  /** On a total order a collection has only one sorted listing. */
  lemma {:induction false} SortedUnique<T(!new)>(before: (T, T) -> bool, u: seq<T>, v: seq<T>)
    requires forall x, y :: x != y ==> before(x, y) || before(y, x)
    requires SortedBy(before, u) && SortedBy(before, v) && multiset(u) == multiset(v)
    ensures u == v
  {
    if u == [] {
      assert |v| == |multiset(v)| == 0;
    } else {
      SameHead(before, u, v);
      TailBag(u);
      TailBag(v);
      SortedUnique(before, u[1..], v[1..]);
      assert u == [u[0]] + u[1..] && v == [v[0]] + v[1..];
    }
  }
}
