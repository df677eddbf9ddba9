/** Sequence helpers: the minimum and maximum that `Math.min(...xs)` and `Math.max(...xs)`
    compute, duplicate-freedom, and the flattening of a sequence of clusters. */
module Seqs {

  /** `Math.min(...xs)` on a non-empty array: a lower bound that is attained. */
  function Min(xs: seq<int>): (m: int)
    requires |xs| > 0
    ensures forall k :: 0 <= k < |xs| ==> m <= xs[k]
    ensures exists k :: 0 <= k < |xs| && m == xs[k]
  {
    if |xs| == 1 then xs[0]
    else
      var rest := Min(xs[1..]);
      assert forall k :: 1 <= k < |xs| ==> xs[k] == xs[1..][k - 1];
      if xs[0] <= rest then xs[0] else rest
  }

  /** `Math.max(...xs)` on a non-empty array: an upper bound that is attained. */
  function Max(xs: seq<int>): (m: int)
    requires |xs| > 0
    ensures forall k :: 0 <= k < |xs| ==> xs[k] <= m
    ensures exists k :: 0 <= k < |xs| && m == xs[k]
  {
    if |xs| == 1 then xs[0]
    else
      var rest := Max(xs[1..]);
      assert forall k :: 1 <= k < |xs| ==> xs[k] == xs[1..][k - 1];
      if rest <= xs[0] then xs[0] else rest
  }

  /** The minimum only depends on which values occur: every value of `xs` occurring in `ys`
      makes the minimum of `ys` at most that of `xs`. */
  lemma MinOfSubset(xs: seq<int>, ys: seq<int>)
    requires |xs| > 0 && |ys| > 0
    requires forall k :: 0 <= k < |xs| ==> xs[k] in ys
    ensures Min(ys) <= Min(xs)
  {
    var k :| 0 <= k < |xs| && Min(xs) == xs[k];
    var j :| 0 <= j < |ys| && ys[j] == xs[k];
  }

  /** Dually for the maximum. */
  lemma MaxOfSubset(xs: seq<int>, ys: seq<int>)
    requires |xs| > 0 && |ys| > 0
    requires forall k :: 0 <= k < |xs| ==> xs[k] in ys
    ensures Max(xs) <= Max(ys)
  {
    var k :| 0 <= k < |xs| && Max(xs) == xs[k];
    var j :| 0 <= j < |ys| && ys[j] == xs[k];
  }

  /** No element occurs twice. */
  ghost predicate NoDups<T>(s: seq<T>)
  {
    forall i, j :: 0 <= i < j < |s| ==> s[i] != s[j]
  }

  /** Every element is an index below `n`. */
  ghost predicate IndicesBelow(s: seq<nat>, n: nat)
  {
    forall k :: 0 <= k < |s| ==> s[k] < n
  }

  /** The concatenation of the clusters, in order. */
  function Flatten(css: seq<seq<nat>>): seq<nat>
  {
    if css == [] then [] else Flatten(css[..|css| - 1]) + css[|css| - 1]
  }

  lemma FlattenAppend(css: seq<seq<nat>>, c: seq<nat>)
    ensures Flatten(css + [c]) == Flatten(css) + c
  {
    assert (css + [c])[..|css|] == css;
  }

  /** An element lies in the flattening exactly when it lies in one of the clusters. */
  lemma {:induction false} FlattenMembership(css: seq<seq<nat>>, x: nat)
    ensures x in Flatten(css) <==> exists a :: 0 <= a < |css| && x in css[a]
  {
    if css != [] {
      var init := css[..|css| - 1];
      FlattenMembership(init, x);
      assert forall a :: 0 <= a < |init| ==> init[a] == css[a];
    }
  }

  /** In a duplicate-free flattening, no element lies in two clusters or twice in one. */
  lemma {:induction false} FlattenNoDupsDisjoint(css: seq<seq<nat>>, a: nat, b: nat, x: nat)
    requires NoDups(Flatten(css))
    requires a < b < |css| && x in css[a]
    ensures x !in css[b]
  {
    var init := css[..|css| - 1];
    assert Flatten(css) == Flatten(init) + css[|css| - 1];
    if b == |css| - 1 {
      FlattenMembership(init, x);
      assert init[a] == css[a] && x in init[a];
      NoDupsSplit(Flatten(init), css[b]);
    } else {
      assert init[a] == css[a] && init[b] == css[b];
      NoDupsSplit(Flatten(init), css[|css| - 1]);
      FlattenNoDupsDisjoint(init, a, b, x);
    }
  }

  /** Duplicate-freedom of a concatenation makes its two parts disjoint. */
  lemma NoDupsSplit<T>(s: seq<T>, t: seq<T>)
    requires NoDups(s + t)
    ensures NoDups(s) && NoDups(t)
    ensures forall x :: x in s ==> x !in t
  {
    forall i, j | 0 <= i < j < |s| ensures s[i] != s[j] {
      assert (s + t)[i] == s[i] && (s + t)[j] == s[j];
    }
    forall x | x in s ensures x !in t {
      var i :| 0 <= i < |s| && s[i] == x;
      forall j | 0 <= j < |t| ensures t[j] != x {
        assert (s + t)[i] == x && (s + t)[|s| + j] == t[j];
      }
    }
    forall i, j | 0 <= i < j < |t| ensures t[i] != t[j] {
      assert (s + t)[|s| + i] == t[i] && (s + t)[|s| + j] == t[j];
    }
  }

  /** Pigeonhole: a duplicate-free sequence of indices below `n` has at most `n` elements. */
  lemma {:induction false} DistinctIndicesBound(s: seq<nat>, n: nat)
    requires NoDups(s) && IndicesBelow(s, n)
    ensures |s| <= n
  {
    if |s| > 0 {
      if n - 1 in s {
        var p :| 0 <= p < |s| && s[p] == n - 1;
        var rest := s[..p] + s[p + 1..];
        RemoveLargest(s, n, p);
        DistinctIndicesBound(rest, n - 1);
      } else {
        assert s[0] in s;
        forall k | 0 <= k < |s| ensures s[k] < n - 1 {
          assert s[k] in s;
        }
        DistinctIndicesBound(s, n - 1);
      }
    }
  }

  /** Removing the one occurrence of `n - 1` leaves distinct indices below `n - 1`. */
  lemma RemoveLargest(s: seq<nat>, n: nat, p: nat)
    requires NoDups(s) && IndicesBelow(s, n) && p < |s| && s[p] == n - 1
    ensures var rest := s[..p] + s[p + 1..]; NoDups(rest) && IndicesBelow(rest, n - 1)
  {
    var rest := s[..p] + s[p + 1..];
    assert forall i :: 0 <= i < |rest| ==> rest[i] == s[if i < p then i else i + 1];
  }
}
