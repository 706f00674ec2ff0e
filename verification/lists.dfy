/** Generic facts about sequences used by the template and controller
    models: duplicate-freedom, first-occurrence order, subsequences and the
    order-preserving filter that `Array.prototype.filter` performs. */
module Lists {

  predicate NoDuplicates<T(==)>(xs: seq<T>) {
    forall i, j :: 0 <= i < j < |xs| ==> xs[i] != xs[j]
  }

  /** Position of the first `x` in `xs`, or `|xs|` when there is none. */
  function FirstIndex<T(==)>(xs: seq<T>, x: T): (k: nat)
    ensures k <= |xs|
    ensures k < |xs| <==> x in xs
    ensures k < |xs| ==> xs[k] == x
    ensures x !in xs[..k]
  {
    if xs == [] then 0
    else if xs[0] == x then 0
    else
      var k' := FirstIndex(xs[1..], x);
      assert xs[..1 + k'] == [xs[0]] + xs[1..][..k'];
      1 + k'
  }

  /** The first occurrence is the only position holding `x` with no `x`
      before it. */
  lemma FirstIndexUnique<T>(xs: seq<T>, x: T, k: nat)
    requires k < |xs| && xs[k] == x && x !in xs[..k]
    ensures FirstIndex(xs, x) == k
  {
    PrefixMembers(xs, k);
    PrefixMembers(xs, FirstIndex(xs, x));
  }

  /** A non-empty sequence is its initial part followed by its last
      element. */
  lemma InitLast<T>(xs: seq<T>)
    requires xs != []
    ensures xs == xs[..|xs| - 1] + [xs[|xs| - 1]]
    ensures forall x :: x in xs <==> x in xs[..|xs| - 1] || x == xs[|xs| - 1]
  {
  }

  /** Every element before position `k` is in the prefix of length `k`. */
  lemma PrefixMembers<T>(xs: seq<T>, k: nat)
    requires k <= |xs|
    ensures forall i :: 0 <= i < k ==> xs[i] in xs[..k]
  {
    forall i | 0 <= i < k ensures xs[i] in xs[..k] {
      assert xs[..k][i] == xs[i];
    }
  }

  /** Equal prefixes agree position by position. */
  lemma PrefixAgrees<T>(a: seq<T>, b: seq<T>, n: nat)
    requires n <= |a| && n <= |b| && a[..n] == b[..n]
    ensures forall i :: 0 <= i < n ==> a[i] == b[i]
  {
    forall i | 0 <= i < n ensures a[i] == b[i] {
      assert a[i] == a[..n][i] && b[i] == b[..n][i];
    }
  }

  /** Appending an element does not move the first occurrence of anything
      already present. */
  lemma FirstIndexAppend<T>(xs: seq<T>, y: T, x: T)
    requires x in xs
    ensures FirstIndex(xs + [y], x) == FirstIndex(xs, x)
  {
    var k := FirstIndex(xs, x);
    assert (xs + [y])[..k] == xs[..k];
    FirstIndexUnique(xs + [y], x, k);
  }

  /** `r` lists the distinct elements of `xs` in order of their first
      occurrence in `xs`: no repeats, the same elements, and ordered by
      where each first appears. */
  ghost predicate IsDedupOf<T(!new)>(xs: seq<T>, r: seq<T>) {
    && NoDuplicates(r)
    && (forall x :: x in r <==> x in xs)
    && (forall i, j :: 0 <= i < j < |r| ==> FirstIndex(xs, r[i]) < FirstIndex(xs, r[j]))
  }

  /** One step of the "push if not already included" loop keeps the
      first-occurrence description. */
  lemma DedupStep<T(!new)>(xs: seq<T>, r: seq<T>, x: T)
    requires IsDedupOf(xs, r)
    ensures IsDedupOf(xs + [x], if x in r then r else r + [x])
  {
    forall y | y in xs
      ensures FirstIndex(xs + [x], y) == FirstIndex(xs, y)
    {
      FirstIndexAppend(xs, x, y);
    }
    if x in r {
      DedupStepSeen(xs, r, x);
    } else {
      DedupStepNew(xs, r, x);
    }
  }

  lemma DedupStepSeen<T(!new)>(xs: seq<T>, r: seq<T>, x: T)
    requires IsDedupOf(xs, r) && x in r
    requires forall y :: y in xs ==> FirstIndex(xs + [x], y) == FirstIndex(xs, y)
    ensures IsDedupOf(xs + [x], r)
  {
    assert forall y :: y in xs + [x] <==> y in xs;
    forall i, j | 0 <= i < j < |r|
      ensures FirstIndex(xs + [x], r[i]) < FirstIndex(xs + [x], r[j])
    {
      assert r[i] in xs && r[j] in xs;
    }
  }

  lemma DedupStepNew<T(!new)>(xs: seq<T>, r: seq<T>, x: T)
    requires IsDedupOf(xs, r) && x !in r
    requires forall y :: y in xs ==> FirstIndex(xs + [x], y) == FirstIndex(xs, y)
    ensures IsDedupOf(xs + [x], r + [x])
  {
    var xs', r' := xs + [x], r + [x];
    assert x !in xs;
    assert xs'[..|xs|] == xs;
    FirstIndexUnique(xs', x, |xs|);
    forall i, j | 0 <= i < j < |r'|
      ensures FirstIndex(xs', r'[i]) < FirstIndex(xs', r'[j])
    {
      assert r'[i] == r[i] && r[i] in xs;
      if j < |r| {
        assert r'[j] == r[j] && r[j] in xs;
      }
    }
    assert NoDuplicates(r') by {
      forall i, j | 0 <= i < j < |r'| ensures r'[i] != r'[j] {
        assert r'[i] == r[i];
        if j < |r| {
          assert r'[j] == r[j];
        }
      }
    }
  }

  /** The first-occurrence description pins the result down completely. */
  lemma {:induction false} DedupUnique<T(!new)>(xs: seq<T>, r1: seq<T>, r2: seq<T>)
    requires IsDedupOf(xs, r1) && IsDedupOf(xs, r2)
    ensures r1 == r2
  {
    DistinctCardinality(r1);
    DistinctCardinality(r2);
    assert (set x | x in r1) == (set x | x in r2);
    DedupUniqueFrom(xs, r1, r2, 0);
  }

  lemma {:induction false} DedupUniqueFrom<T(!new)>(xs: seq<T>, r1: seq<T>, r2: seq<T>, n: nat)
    requires IsDedupOf(xs, r1) && IsDedupOf(xs, r2)
    requires |r1| == |r2| && n <= |r1| && r1[..n] == r2[..n]
    ensures r1 == r2
    decreases |r1| - n
  {
    if n == |r1| {
      assert r1 == r1[..n] && r2 == r2[..n];
    } else {
      NextAgrees(xs, r1, r2, n);
      assert r1[..n + 1] == r1[..n] + [r1[n]];
      assert r2[..n + 1] == r2[..n] + [r2[n]];
      DedupUniqueFrom(xs, r1, r2, n + 1);
    }
  }

  /** Two first-occurrence listings that agree on a prefix agree on the
      next element: it is the one occurring first among the rest. */
  lemma NextAgrees<T(!new)>(xs: seq<T>, r1: seq<T>, r2: seq<T>, n: nat)
    requires IsDedupOf(xs, r1) && IsDedupOf(xs, r2)
    requires n < |r1| && n < |r2| && r1[..n] == r2[..n]
    ensures r1[n] == r2[n]
  {
    var a, b := r1[n], r2[n];
    assert a in r2 && b in r1;
    var ia :| 0 <= ia < |r2| && r2[ia] == a;
    var ib :| 0 <= ib < |r1| && r1[ib] == b;
    PrefixAgrees(r1, r2, n);
    assert ia > n ==> FirstIndex(xs, b) < FirstIndex(xs, a);
    assert ib > n ==> FirstIndex(xs, a) < FirstIndex(xs, b);
  }

  /** A duplicate-free sequence has as many distinct elements as entries. */
  lemma {:induction false} DistinctCardinality<T(!new)>(s: seq<T>)
    requires NoDuplicates(s)
    ensures |set x | x in s| == |s|
  {
    if s != [] {
      var t := s[1..];
      assert NoDuplicates(t) by {
        forall i, j | 0 <= i < j < |t| ensures t[i] != t[j] {
          assert t[i] == s[i + 1] && t[j] == s[j + 1];
        }
      }
      DistinctCardinality(t);
      assert (set x | x in s) == (set x | x in t) + {s[0]};
      assert s[0] !in t by {
        forall i | 0 <= i < |t| ensures t[i] != s[0] {
          assert t[i] == s[i + 1];
        }
      }
    }
  }

  /** `a` can be obtained from `b` by deleting elements. */
  predicate Subsequence<T(==)>(a: seq<T>, b: seq<T>)
    decreases |b|
  {
    if a == [] then true
    else if b == [] then false
    else if a[0] == b[0] then Subsequence(a[1..], b[1..])
    else Subsequence(a, b[1..])
  }

  /** `xs.filter(keep)`: the kept elements, in order, each as often as
      it occurs in `xs`. */
  function Filter<T(==,!new)>(xs: seq<T>, keep: T -> bool): (r: seq<T>)
    ensures |r| <= |xs|
    ensures forall x :: x in r <==> x in xs && keep(x)
    ensures forall x :: multiset(r)[x] == if keep(x) then multiset(xs)[x] else 0
    ensures Subsequence(r, xs)
  {
    if xs == [] then []
    else
      var rest := Filter(xs[1..], keep);
      assert xs == [xs[0]] + xs[1..];
      assert multiset(xs) == multiset{xs[0]} + multiset(xs[1..]);
      if keep(xs[0]) then
        assert ([xs[0]] + rest)[1..] == rest;
        assert multiset([xs[0]] + rest) == multiset{xs[0]} + multiset(rest);
        [xs[0]] + rest
      else
        assert rest != [] ==> rest[0] in rest;
        rest
  }

  /** A duplicate-free sequence has duplicate-free subsequences. */
  lemma {:induction false} SubsequenceNoDuplicates<T>(a: seq<T>, b: seq<T>)
    requires Subsequence(a, b) && NoDuplicates(b)
    ensures NoDuplicates(a)
    decreases |b|
  {
    if a != [] && b != [] {
      assert NoDuplicates(b[1..]) by {
        forall i, j | 0 <= i < j < |b[1..]| ensures b[1..][i] != b[1..][j] {
          assert b[1..][i] == b[i + 1] && b[1..][j] == b[j + 1];
        }
      }
      if a[0] == b[0] {
        SubsequenceNoDuplicates(a[1..], b[1..]);
        SubsequenceMembers(a[1..], b[1..]);
        forall i, j | 0 <= i < j < |a| ensures a[i] != a[j] {
          if i == 0 {
            assert a[j] == a[1..][j - 1];
            assert a[j] in b[1..];
            var k :| 0 <= k < |b[1..]| && b[1..][k] == a[j];
            assert b[k + 1] == a[j];
          } else {
            assert a[i] == a[1..][i - 1] && a[j] == a[1..][j - 1];
          }
        }
      } else {
        SubsequenceNoDuplicates(a, b[1..]);
      }
    }
  }

  /** Every element of a subsequence occurs in the whole. */
  lemma {:induction false} SubsequenceMembers<T>(a: seq<T>, b: seq<T>)
    requires Subsequence(a, b)
    ensures forall x :: x in a ==> x in b
    decreases |b|
  {
    if a != [] && b != [] {
      if a[0] == b[0] {
        SubsequenceMembers(a[1..], b[1..]);
        forall x | x in a ensures x in b {
          if x != a[0] {
            assert x in a[1..];
          }
        }
      } else {
        SubsequenceMembers(a, b[1..]);
      }
    }
  }

  /** The list `[f(0), …, f(n - 1)]`, built one element at a time. */
  method Tabulate<T>(n: nat, f: nat -> T) returns (r: seq<T>)
    ensures |r| == n
    ensures forall i :: 0 <= i < n ==> r[i] == f(i)
  {
    r := [];
    var i := 0;
    while i < n
      invariant i <= n
      invariant |r| == i
      invariant forall k :: 0 <= k < i ==> r[k] == f(k)
    {
      r := r + [f(i)];
      i := i + 1;
    }
  }
}
