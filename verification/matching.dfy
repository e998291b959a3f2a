/**
 * The pairing discipline the differ applies to tables, columns, indexes,
 * foreign keys and enums alike: walk the previous elements in order, pair
 * each with the FIRST next element that matches it, and call the unmatched
 * next elements "created" and the unmatched previous ones "dropped".
 * Elements are referred to by their position (their id).
 */
module Matching {
  import opened Wrappers

  predicate StrictlyIncreasing(r: seq<nat>) {
    forall i, j :: 0 <= i < j < |r| ==> r[i] < r[j]
  }

  /** The positions below `n` that satisfy `p`, in increasing order. */
  function IndicesWhere(n: nat, p: nat -> bool): (r: seq<nat>)
    ensures forall k :: 0 <= k < |r| ==> r[k] < n && p(r[k])
    ensures forall i: nat :: i < n && p(i) ==> i in r
    ensures StrictlyIncreasing(r)
  {
    if n == 0 then []
    else IndicesWhere(n - 1, p) + (if p(n - 1) then [n - 1] else [])
  }

  /** The first position below `n` that satisfies `p`, if any. */
  function FirstWhere(n: nat, p: nat -> bool): (r: Option<nat>)
    ensures r.Some? ==> r.value < n && p(r.value) && forall j: nat :: j < r.value ==> !p(j)
    ensures r.None? ==> forall j: nat :: j < n ==> !p(j)
  {
    if n == 0 then None
    else
      match FirstWhere(n - 1, p)
      case Some(j) => Some(j)
      case None => if p(n - 1) then Some(n - 1) else None
  }

  /** The first next position below `n` that previous position `i` matches, if any. */
  function FirstMatch(i: nat, n: nat, matches: (nat, nat) -> bool): (r: Option<nat>)
    ensures r.Some? ==> r.value < n && matches(i, r.value) && forall j: nat :: j < r.value ==> !matches(i, j)
    ensures r.None? ==> forall j: nat :: j < n ==> !matches(i, j)
  {
    if n == 0 then None
    else
      match FirstMatch(i, n - 1, matches)
      case Some(j) => Some(j)
      case None => if matches(i, n - 1) then Some(n - 1) else None
  }

  /** Each previous position below `m` with a match, paired with its first match below `n`. */
  function PairFirstMatches(m: nat, n: nat, matches: (nat, nat) -> bool): (r: seq<Pair<nat>>)
    ensures forall k :: 0 <= k < |r| ==>
      && r[k].previous < m && r[k].next < n && matches(r[k].previous, r[k].next)
      && forall j: nat :: j < r[k].next ==> !matches(r[k].previous, j)
    ensures forall k1, k2 :: 0 <= k1 < k2 < |r| ==> r[k1].previous < r[k2].previous
    ensures forall i: nat, j: nat :: i < m && j < n && matches(i, j) ==>
      exists k :: 0 <= k < |r| && r[k].previous == i
  {
    if m == 0 then []
    else
      var rest := PairFirstMatches(m - 1, n, matches);
      match FirstMatch(m - 1, n, matches)
      case None => rest
      case Some(j) =>
        var r := rest + [Pair(m - 1, j)];
        assert r[|r| - 1].previous == m - 1;
        assert forall k :: 0 <= k < |rest| ==> r[k] == rest[k];
        r
  }

  /** Next positions below `n` that no previous position below `m` matches. */
  function UnmatchedNext(m: nat, n: nat, matches: (nat, nat) -> bool): (r: seq<nat>)
    ensures forall j: nat :: j in r <==> j < n && forall i: nat :: i < m ==> !matches(i, j)
    ensures StrictlyIncreasing(r)
  {
    IndicesWhere(n, (j: nat) => forall i: nat :: i < m ==> !matches(i, j))
  }

  /** Previous positions below `m` that match no next position below `n`. */
  function UnmatchedPrevious(m: nat, n: nat, matches: (nat, nat) -> bool): (r: seq<nat>)
    ensures forall i: nat :: i in r <==> i < m && forall j: nat :: j < n ==> !matches(i, j)
    ensures StrictlyIncreasing(r)
  {
    IndicesWhere(m, (i: nat) => forall j: nat :: j < n ==> !matches(i, j))
  }

  /** Every previous position is either paired or unmatched, never both. */
  lemma PreviousPartition(m: nat, n: nat, matches: (nat, nat) -> bool, i: nat)
    requires i < m
    ensures (exists k :: 0 <= k < |PairFirstMatches(m, n, matches)| && PairFirstMatches(m, n, matches)[k].previous == i)
        != (i in UnmatchedPrevious(m, n, matches))
  {
    var r := PairFirstMatches(m, n, matches);
    if i !in UnmatchedPrevious(m, n, matches) {
      var j: nat :| j < n && matches(i, j);
    }
  }

  /**
   * Every next position is either the partner of some pair or unmatched, never
   * both, provided no previous position matches two next positions.
   */
  lemma NextPartition(m: nat, n: nat, matches: (nat, nat) -> bool, j: nat)
    requires j < n
    requires forall i: nat, j1: nat, j2: nat :: i < m && j1 < j2 < n && matches(i, j1) ==> !matches(i, j2)
    ensures (exists k :: 0 <= k < |PairFirstMatches(m, n, matches)| && PairFirstMatches(m, n, matches)[k].next == j)
        != (j in UnmatchedNext(m, n, matches))
  {
    var r := PairFirstMatches(m, n, matches);
    if j in UnmatchedNext(m, n, matches) {
      PairedNextMatched(m, n, matches, j);
    } else {
      var i: nat :| i < m && matches(i, j);
      var k := PairedAt(m, n, matches, i, j);
      FirstMatchUnique(m, n, matches, i, r[k].next, j);
    }
  }

  /** A next position that is some pair's partner is matched. */
  lemma PairedNextMatched(m: nat, n: nat, matches: (nat, nat) -> bool, j: nat)
    requires j in UnmatchedNext(m, n, matches)
    ensures forall k :: 0 <= k < |PairFirstMatches(m, n, matches)| ==> PairFirstMatches(m, n, matches)[k].next != j
  {
    var r := PairFirstMatches(m, n, matches);
    forall k | 0 <= k < |r|
      ensures r[k].next != j
    {
      assert r[k].previous < m && matches(r[k].previous, r[k].next);
    }
  }

  /** The position of the pair of a matched previous position, whose partner is a first match. */
  lemma PairedAt(m: nat, n: nat, matches: (nat, nat) -> bool, i: nat, j: nat) returns (k: nat)
    requires i < m && j < n && matches(i, j)
    ensures k < |PairFirstMatches(m, n, matches)| && PairFirstMatches(m, n, matches)[k].previous == i
    ensures PairFirstMatches(m, n, matches)[k].next <= j
  {
    var r := PairFirstMatches(m, n, matches);
    k :| 0 <= k < |r| && r[k].previous == i;
  }

  /** Without a previous position matching two next positions, a first match is the only match. */
  lemma FirstMatchUnique(m: nat, n: nat, matches: (nat, nat) -> bool, i: nat, j1: nat, j2: nat)
    requires forall i: nat, j1: nat, j2: nat :: i < m && j1 < j2 < n && matches(i, j1) ==> !matches(i, j2)
    requires i < m && j1 <= j2 < n && matches(i, j1) && matches(i, j2)
    ensures j1 == j2
  {
  }

  // ---- concatenation of per-element blocks ----

  /** The next sides of the pairs, in order. */
  function NextsOf(ps: seq<Pair<nat>>): (r: seq<nat>)
    ensures |r| == |ps| && forall k :: 0 <= k < |ps| ==> r[k] == ps[k].next
    ensures forall j: nat :: j in r <==> exists p :: p in ps && p.next == j
  {
    seq(|ps|, k requires 0 <= k < |ps| => ps[k].next)
  }

  function Flatten<T>(xss: seq<seq<T>>): seq<T> {
    if |xss| == 0 then [] else xss[0] + Flatten(xss[1..])
  }

  lemma {:induction false} FlattenMember<T>(xss: seq<seq<T>>, y: T)
    ensures y in Flatten(xss) <==> exists k :: 0 <= k < |xss| && y in xss[k]
  {
    if |xss| != 0 {
      FlattenMember(xss[1..], y);
      if y in Flatten(xss[1..]) {
        var k :| 0 <= k < |xss[1..]| && y in xss[1..][k];
        assert y in xss[k + 1];
      }
      if exists k :: 0 <= k < |xss| && y in xss[k] {
        var k :| 0 <= k < |xss| && y in xss[k];
        if k > 0 { assert y in xss[1..][k - 1]; }
      }
    }
  }

  /** An element of the concatenation of one block per element of `xs` is in the block of some element. */
  lemma FlattenMapMember<A, B>(xs: seq<A>, blocks: seq<seq<B>>, f: A -> seq<B>, y: B)
    requires |blocks| == |xs| && forall k :: 0 <= k < |xs| ==> blocks[k] == f(xs[k])
    ensures y in Flatten(blocks) <==> exists x :: x in xs && y in f(x)
  {
    FlattenMember(blocks, y);
    if y in Flatten(blocks) {
      var k :| 0 <= k < |blocks| && y in blocks[k];
      assert xs[k] in xs;
    }
    if exists x :: x in xs && y in f(x) {
      var x :| x in xs && y in f(x);
      var k :| 0 <= k < |xs| && xs[k] == x;
      assert y in blocks[k];
    }
  }

  /** Occurrences of `y` in a concatenation add up block by block. */
  lemma {:induction false} FlattenCount<T>(xss: seq<seq<T>>, y: T, counts: seq<nat>)
    requires |counts| == |xss|
    requires forall k :: 0 <= k < |xss| ==> multiset(xss[k])[y] == counts[k]
    ensures multiset(Flatten(xss))[y] == Sum(counts)
  {
    if |xss| != 0 {
      FlattenCount(xss[1..], y, counts[1..]);
    }
  }

  function Sum(xs: seq<nat>): nat {
    if |xs| == 0 then 0 else xs[0] + Sum(xs[1..])
  }

  /** A sum of 0/1 indicators over distinct keys counts at most one hit. */
  lemma {:induction false} SumOfIndicators(keys: seq<nat>, key: nat, counts: seq<nat>)
    requires |counts| == |keys|
    requires StrictlyIncreasing(keys)
    requires forall k :: 0 <= k < |keys| ==> counts[k] == (if keys[k] == key then 1 else 0)
    ensures Sum(counts) == (if key in keys then 1 else 0)
  {
    if |keys| != 0 {
      SumOfIndicators(keys[1..], key, counts[1..]);
      if keys[0] == key {
        assert key !in keys[1..] by {
          forall k | 0 <= k < |keys[1..]| ensures keys[1..][k] != key {
            assert keys[k + 1] > keys[0];
          }
        }
      }
    }
  }

  // ---- de-duplication (a HashSet built by repeated insertion) ----

  predicate NoDuplicates<T(==)>(xs: seq<T>) {
    forall i, j :: 0 <= i < j < |xs| ==> xs[i] != xs[j]
  }

  /** The distinct elements of `xs`, each at its first occurrence. */
  function Dedup<T(==,!new)>(xs: seq<T>): (r: seq<T>)
    ensures NoDuplicates(r)
    ensures forall x :: x in r <==> x in xs
  {
    if |xs| == 0 then []
    else
      var r := Dedup(xs[..|xs| - 1]);
      assert forall x :: x in xs <==> x in xs[..|xs| - 1] || x == xs[|xs| - 1] by {
        assert xs == xs[..|xs| - 1] + [xs[|xs| - 1]];
      }
      if xs[|xs| - 1] in r then r else r + [xs[|xs| - 1]]
  }

  /** Two duplicate-free sequences with the same elements are permutations of each other. */
  lemma {:induction false} SameElementsSameMultiset<T(!new)>(a: seq<T>, b: seq<T>)
    requires NoDuplicates(a) && NoDuplicates(b)
    requires forall x :: x in a <==> x in b
    ensures multiset(a) == multiset(b)
  {
    forall x ensures multiset(a)[x] == multiset(b)[x] {
      NoDuplicatesCount(a, x);
      NoDuplicatesCount(b, x);
    }
  }

  lemma {:induction false} NoDuplicatesCount<T>(a: seq<T>, x: T)
    requires NoDuplicates(a)
    ensures multiset(a)[x] == if x in a then 1 else 0
  {
    if |a| != 0 {
      assert a == [a[0]] + a[1..];
      NoDuplicatesCount(a[1..], x);
      if x == a[0] {
        assert x !in a[1..] by {
          forall k | 0 <= k < |a[1..]| ensures a[1..][k] != x {
            assert a[k + 1] != a[0];
          }
        }
      }
    }
  }

  // ---- filtering and flattening ----

  /** The elements of `xs` satisfying `p`, in their original order. */
  function Filter<T(!new)>(xs: seq<T>, p: T -> bool): (r: seq<T>)
    ensures forall x :: x in r <==> x in xs && p(x)
  {
    if |xs| == 0 then []
    else
      assert xs == [xs[0]] + xs[1..];
      (if p(xs[0]) then [xs[0]] else []) + Filter(xs[1..], p)
  }

  /** Filtering keeps the relative order of what it keeps. */
  lemma {:induction false} FilterKeepsOrder<T(!new)>(xs: seq<T>, p: T -> bool, before: (T, T) -> bool)
    requires forall i, j :: 0 <= i < j < |xs| ==> before(xs[i], xs[j])
    ensures forall i, j :: 0 <= i < j < |Filter(xs, p)| ==> before(Filter(xs, p)[i], Filter(xs, p)[j])
  {
    if |xs| != 0 {
      FilterKeepsOrder(xs[1..], p, before);
      var rest := Filter(xs[1..], p);
      forall k | 0 <= k < |rest| ensures before(xs[0], rest[k]) {
        assert rest[k] in rest;
        assert rest[k] in xs[1..];
        var i :| 0 <= i < |xs[1..]| && xs[1..][i] == rest[k];
        assert xs[i + 1] == rest[k];
      }
    }
  }

  /** The positions `0 .. n - 1`, in order. */
  function Range(n: nat): (r: seq<nat>)
    ensures |r| == n
    ensures forall k :: 0 <= k < n ==> r[k] == k
    ensures forall i: nat :: i in r <==> i < n
  {
    if n == 0 then [] else Range(n - 1) + [n - 1]
  }

  lemma {:induction false} FlattenForall<T>(xss: seq<seq<T>>, p: T -> bool)
    requires forall k, y :: 0 <= k < |xss| && y in xss[k] ==> p(y)
    ensures forall y :: y in Flatten(xss) ==> p(y)
  {
    forall y | y in Flatten(xss) ensures p(y) {
      FlattenMember(xss, y);
    }
  }
}
