/** Reduction of one cluster of rectangles to one text block: members in reading order,
    texts joined by a space, box the union of the member boxes. */
module Finalizer {
  import opened Seqs
  import opened Strings
  import opened Geometry

  datatype Box = Box(x: int, y: int, w: int, h: int)

  /** A finalised block before translation. */
  datatype TextBlock = TextBlock(originalText: string, box: Box)

  function BoxOf(r: Rect): Box { Box(r.l, r.t, r.w, r.h) }

  function Abs(x: int): int { if x < 0 then -x else x }

  /** The sort comparator: tops less than 15 apart count as the same row and order by left
      edge; otherwise the higher rectangle comes first. Negative means `a` goes first. */
  function ReadingCompare(a: Rect, b: Rect): (c: int)
    ensures a.t + 15 <= b.t ==> c < 0
    ensures Abs(a.t - b.t) < 15 ==> (c < 0 <==> a.l < b.l)
    ensures c == 0 <==> Abs(a.t - b.t) < 15 && a.l == b.l
  {
    if Abs(a.t - b.t) < 15 then a.l - b.l else a.t - b.t
  }

  /** The comparator is antisymmetric ... */
  lemma ReadingCompareAntisymmetric(a: Rect, b: Rect)
    ensures ReadingCompare(a, b) == -ReadingCompare(b, a)
  {
  }

  /** ... but not transitive: three rectangles each of which sorts before the next, and the
      last before the first. The order `Array.prototype.sort` produces is therefore left to
      the engine, and the model fixes one algorithm. */
  lemma ReadingCompareCycle()
    ensures var a, b, c := Rect(0, "a", 0, 20, 10, 10), Rect(1, "b", 5, 10, 10, 10), Rect(2, "c", 10, 0, 10, 10);
      ReadingCompare(a, b) < 0 && ReadingCompare(b, c) < 0 && ReadingCompare(c, a) < 0
  {
  }

  /** Every member sorts no later than its successor. */
  ghost predicate ReadingOrdered(s: seq<Rect>)
  {
    AdjacentOrdered(s, 0, |s|)
  }

  /** Within `s[lo..hi]` every element sorts no later than its successor. */
  ghost predicate AdjacentOrdered(s: seq<Rect>, lo: int, hi: int)
  {
    0 <= lo && hi <= |s| && forall k :: lo <= k < hi - 1 ==> ReadingCompare(s[k], s[k + 1]) <= 0
  }

  /** `order` holds the members of `members` in reading order. */
  ghost predicate InReadingOrder(order: seq<Rect>, members: seq<Rect>)
  {
    multiset(order) == multiset(members) && ReadingOrdered(order)
  }

  method Swap(a: array<Rect>, i: nat, j: nat)
    requires i < j < a.Length
    modifies a
    ensures a[..] == old(a[..])[i := old(a[j])][j := old(a[i])]
    ensures multiset(a[..]) == multiset(old(a[..]))
  {
    a[i], a[j] := a[j], a[i];
  }

  /** The state of one insertion pass moving the element from position `i` down to `j`: the
      elements before `j` and those from `j` to `i` are each in order, the moving element
      sorts strictly before its right neighbour, and its left neighbour sorts no later than
      that right neighbour. */
  ghost predicate Inserting(s: seq<Rect>, j: nat, i: nat)
  {
    && j <= i < |s|
    && AdjacentOrdered(s, 0, j)
    && AdjacentOrdered(s, j + 1, i + 1)
    && (0 < j < i ==> ReadingCompare(s[j - 1], s[j + 1]) <= 0)
    && (j < i ==> ReadingCompare(s[j], s[j + 1]) < 0)
  }

  lemma InsertStep(s: seq<Rect>, j: nat, i: nat)
    requires Inserting(s, j, i) && 0 < j && ReadingCompare(s[j - 1], s[j]) > 0
    ensures Inserting(s[j - 1 := s[j]][j := s[j - 1]], j - 1, i)
  {
    ReadingCompareAntisymmetric(s[j - 1], s[j]);
  }

  lemma InsertDone(s: seq<Rect>, j: nat, i: nat)
    requires Inserting(s, j, i) && (j == 0 || ReadingCompare(s[j - 1], s[j]) <= 0)
    ensures AdjacentOrdered(s, 0, i + 1)
  {
  }

  /** One pass of insertion sort: `a[i]` moves left past every neighbour that sorts after
      it, so the ordered prefix grows by one. */
  method InsertAt(a: array<Rect>, i: nat)
    requires i < a.Length && AdjacentOrdered(a[..], 0, i)
    modifies a
    ensures AdjacentOrdered(a[..], 0, i + 1)
    ensures multiset(a[..]) == multiset(old(a[..]))
    ensures multiset(a[..i + 1]) == multiset(old(a[..i + 1]))
    ensures a[i + 1..] == old(a[i + 1..])
  {
    var j: nat := i;
    while j > 0 && ReadingCompare(a[j - 1], a[j]) > 0
      invariant Inserting(a[..], j, i)
      invariant multiset(a[..]) == multiset(old(a[..]))
      invariant multiset(a[..i + 1]) == multiset(old(a[..i + 1]))
      invariant a[i + 1..] == old(a[i + 1..])
    {
      InsertStep(a[..], j, i);
      Swap(a, j - 1, j);
      j := j - 1;
    }
    InsertDone(a[..], j, i);
  }

  /** `cluster.sort(comparator)`, modelled as an in-place insertion sort. */
  method SortReadingOrder(a: array<Rect>)
    modifies a
    ensures InReadingOrder(a[..], old(a[..]))
  {
    for i := 0 to a.Length
      invariant AdjacentOrdered(a[..], 0, i)
      invariant multiset(a[..]) == multiset(old(a[..]))
    {
      InsertAt(a, i);
    }
  }

  function LeftEdges(s: seq<Rect>): seq<int> { seq(|s|, k requires 0 <= k < |s| => s[k].l) }
  function TopEdges(s: seq<Rect>): seq<int> { seq(|s|, k requires 0 <= k < |s| => s[k].t) }
  function RightEdges(s: seq<Rect>): seq<int> { seq(|s|, k requires 0 <= k < |s| => s[k].R()) }
  function BottomEdges(s: seq<Rect>): seq<int> { seq(|s|, k requires 0 <= k < |s| => s[k].B()) }

  /** The union box of the members: the smallest box holding every one of them. */
  function UnionBox(s: seq<Rect>): (box: Box)
    requires |s| > 0
    ensures forall k :: 0 <= k < |s| ==>
      box.x <= s[k].l && s[k].R() <= box.x + box.w && box.y <= s[k].t && s[k].B() <= box.y + box.h
    ensures exists k :: 0 <= k < |s| && box.x == s[k].l
    ensures exists k :: 0 <= k < |s| && box.y == s[k].t
    ensures exists k :: 0 <= k < |s| && box.x + box.w == s[k].R()
    ensures exists k :: 0 <= k < |s| && box.y + box.h == s[k].B()
  {
    var l, t := Min(LeftEdges(s)), Min(TopEdges(s));
    var r, b := Max(RightEdges(s)), Max(BottomEdges(s));
    assert forall k :: 0 <= k < |s| ==>
      LeftEdges(s)[k] == s[k].l && TopEdges(s)[k] == s[k].t
      && RightEdges(s)[k] == s[k].R() && BottomEdges(s)[k] == s[k].B();
    Box(l, t, r - l, b - t)
  }

  /** Every member of `s1` is a member of `s2`, so every edge value of `s1` is one of `s2`. */
  lemma EdgesOfSubset(s1: seq<Rect>, s2: seq<Rect>)
    requires forall k :: 0 <= k < |s1| ==> s1[k] in s2
    ensures forall k :: 0 <= k < |s1| ==> LeftEdges(s1)[k] in LeftEdges(s2) && TopEdges(s1)[k] in TopEdges(s2)
    ensures forall k :: 0 <= k < |s1| ==> RightEdges(s1)[k] in RightEdges(s2) && BottomEdges(s1)[k] in BottomEdges(s2)
  {
    forall k | 0 <= k < |s1|
      ensures LeftEdges(s1)[k] in LeftEdges(s2) && TopEdges(s1)[k] in TopEdges(s2)
      ensures RightEdges(s1)[k] in RightEdges(s2) && BottomEdges(s1)[k] in BottomEdges(s2)
    {
      var j :| 0 <= j < |s2| && s2[j] == s1[k];
      assert LeftEdges(s2)[j] == s1[k].l && TopEdges(s2)[j] == s1[k].t;
      assert RightEdges(s2)[j] == s1[k].R() && BottomEdges(s2)[j] == s1[k].B();
    }
  }

  /** The union box does not depend on the order of the members. */
  lemma UnionBoxOfPermutation(s1: seq<Rect>, s2: seq<Rect>)
    requires |s1| > 0 && multiset(s1) == multiset(s2)
    ensures |s2| > 0 && UnionBox(s1) == UnionBox(s2)
  {
    assert |s2| == |multiset(s2)| == |multiset(s1)| == |s1|;
    forall k | 0 <= k < |s1| ensures s1[k] in s2 { assert s1[k] in multiset(s1); }
    forall k | 0 <= k < |s2| ensures s2[k] in s1 { assert s2[k] in multiset(s2); }
    EdgesOfSubset(s1, s2);
    EdgesOfSubset(s2, s1);
    MinOfSubset(LeftEdges(s1), LeftEdges(s2));
    MinOfSubset(LeftEdges(s2), LeftEdges(s1));
    MinOfSubset(TopEdges(s1), TopEdges(s2));
    MinOfSubset(TopEdges(s2), TopEdges(s1));
    MaxOfSubset(RightEdges(s1), RightEdges(s2));
    MaxOfSubset(RightEdges(s2), RightEdges(s1));
    MaxOfSubset(BottomEdges(s1), BottomEdges(s2));
    MaxOfSubset(BottomEdges(s2), BottomEdges(s1));
  }

  /** For one member the union box is that member's own box, so the source's special case
      for single-line clusters agrees with the general one on the box. */
  lemma UnionBoxSingleton(r: Rect)
    ensures UnionBox([r]) == BoxOf(r)
  {
  }

  function Texts(s: seq<Rect>): seq<string> { seq(|s|, k requires 0 <= k < |s| => s[k].text) }

  /** `block` is what finalising the cluster `members` yields: a single member passes through
      unchanged; otherwise the text is the members' texts, in some reading order, joined by a
      space, and the box is the union box. */
  ghost predicate Finalizes(members: seq<Rect>, block: TextBlock)
  {
    if |members| == 1 then block == TextBlock(members[0].text, BoxOf(members[0]))
    else
      && |members| > 1
      && block.box == UnionBox(members)
      && exists order :: InReadingOrder(order, members) && block.originalText == Join(Texts(order), " ")
  }

  /** `finalizeCluster`. */
  method FinalizeCluster(cluster: seq<Rect>) returns (block: TextBlock)
    requires |cluster| > 0
    ensures Finalizes(cluster, block)
  {
    if |cluster| == 1 {
      return TextBlock(cluster[0].text, BoxOf(cluster[0]));
    }
    var a := new Rect[|cluster|](k requires 0 <= k < |cluster| => cluster[k]);
    assert a[..] == cluster;
    SortReadingOrder(a);
    var sorted := a[..];
    UnionBoxOfPermutation(sorted, cluster);
    block := TextBlock(Join(Texts(sorted), " "), UnionBox(sorted));
  }
}
