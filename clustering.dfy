/** `performSuperSmartClustering`: rectangles from the OCR lines, breadth-first connected
    components under `AreVisualNeighbors`, one finalised block per component. */
module Clustering {
  import opened Seqs
  import opened Geometry
  import opened Finalizer

  /** The rectangles a cluster of indices stands for, in cluster order. */
  function Members(rects: seq<Rect>, c: seq<nat>): (ms: seq<Rect>)
    requires IndicesBelow(c, |rects|)
    ensures |ms| == |c| && forall k :: 0 <= k < |c| ==> ms[k] == rects[c[k]]
  {
    seq(|c|, k requires 0 <= k < |c| => rects[c[k]])
  }

  /** Every member after the first is a neighbour of an earlier member, so the whole cluster
      is connected to its first member. */
  ghost predicate Chained(rects: seq<Rect>, c: seq<nat>)
  {
    forall p :: 0 < p < |c| ==> HasLink(rects, c, p)
  }

  /** The member at position `p` neighbours some earlier member. */
  ghost predicate HasLink(rects: seq<Rect>, c: seq<nat>, p: int)
  {
    exists m :: Linked(rects, c, m, p)
  }

  /** The member at position `p` neighbours the earlier member at position `m`. */
  ghost predicate Linked(rects: seq<Rect>, c: seq<nat>, m: int, p: int)
  {
    0 <= m < p < |c| && c[m] < |rects| && c[p] < |rects| && AreVisualNeighbors(rects[c[m]], rects[c[p]])
  }

  /** No member has a neighbour outside the cluster. */
  ghost predicate Closed(rects: seq<Rect>, c: seq<nat>)
  {
    forall x: nat, y: nat :: x in c && x < |rects| && y < |rects| && AreVisualNeighbors(rects[x], rects[y]) ==> y in c
  }

  /** The clusters are non-empty and together hold every index below `n` exactly once. */
  ghost predicate Partition(css: seq<seq<nat>>, n: nat)
  {
    && (forall a :: 0 <= a < |css| ==> |css[a]| > 0)
    && NoDups(Flatten(css))
    && (forall x: nat :: x in Flatten(css) <==> x < n)
  }

  /** In a partition every index lies in exactly one cluster. */
  lemma PartitionUnique(css: seq<seq<nat>>, n: nat, x: nat)
    requires Partition(css, n) && x < n
    ensures exists a :: 0 <= a < |css| && x in css[a]
    ensures forall a, b :: 0 <= a < |css| && 0 <= b < |css| && x in css[a] && x in css[b] ==> a == b
  {
    FlattenMembership(css, x);
    assert x in Flatten(css);
    forall a, b | 0 <= a < |css| && 0 <= b < |css| && x in css[a] && x in css[b] ensures a == b {
      if a < b {
        FlattenNoDupsDisjoint(css, a, b, x);
      } else if b < a {
        FlattenNoDupsDisjoint(css, b, a, x);
      }
    }
  }

  lemma ChainedExtend(rects: seq<Rect>, c: seq<nat>, m: nat, y: nat)
    requires Chained(rects, c)
    requires m < |c| && c[m] < |rects| && y < |rects| && AreVisualNeighbors(rects[c[m]], rects[y])
    ensures Chained(rects, c + [y])
  {
    var d := c + [y];
    forall p | 0 < p < |d| ensures HasLink(rects, d, p)
    {
      if p < |c| {
        assert HasLink(rects, c, p);
        var m' :| Linked(rects, c, m', p);
        assert d[m'] == c[m'] && d[p] == c[p];
        assert Linked(rects, d, m', p);
      } else {
        assert d[m] == c[m] && d[p] == y;
        assert Linked(rects, d, m, p);
      }
    }
  }

  /** The flags in `visited` are set exactly at the indices listed in `s`. */
  ghost predicate MarksExactly(visited: seq<bool>, s: seq<nat>)
  {
    && IndicesBelow(s, |visited|)
    && NoDups(s)
    && forall k :: 0 <= k < |visited| ==> (visited[k] <==> k in s)
  }

  /** The inner `for j` loop: every rectangle not yet visited that neighbours `current` is
      marked and appended to the queue, in index order; nothing else changes. */
  method EnqueueNeighbors(rects: seq<Rect>, visited: array<bool>, current: nat, queue: seq<nat>, ghost seen: seq<nat>)
    returns (queue': seq<nat>)
    requires visited.Length == |rects| && current < |rects|
    requires MarksExactly(visited[..], seen)
    modifies visited
    ensures |queue| <= |queue'| && queue'[..|queue|] == queue
    ensures MarksExactly(visited[..], seen + queue'[|queue|..])
    ensures forall k :: |queue| <= k < |queue'| ==> queue'[k] < |rects| && AreVisualNeighbors(rects[current], rects[queue'[k]])
    ensures IncreasingBelow(queue'[|queue|..], |rects|)
    ensures forall y :: 0 <= y < |rects| && AreVisualNeighbors(rects[current], rects[y]) ==> visited[y]
    ensures Grows(old(visited[..]), visited[..])
  {
    var n := |rects|;
    queue' := queue;
    assert queue'[|queue|..] == [] && seen + [] == seen;
    for j := 0 to n
      invariant Enqueued(rects, visited[..], current, queue, queue', seen, j)
      invariant Grows(old(visited[..]), visited[..])
    {
      ghost var marks := visited[..];
      if !visited[j] && AreVisualNeighbors(rects[current], rects[j]) {
        visited[j] := true;
        assert visited[..] == marks[j := true];
        EnqueueAdd(rects, marks, current, queue, queue', seen, j);
        queue' := queue' + [j];
      } else {
        EnqueueSkip(rects, marks, current, queue, queue', seen, j);
      }
    }
  }

  /** The state of the inner loop before index `j`: the appended indices follow the queue,
      are marked in addition to `seen`, neighbour `current`, increase and stay below `j`; every
      neighbour of `current` below `j` is marked. */
  ghost predicate Enqueued(rects: seq<Rect>, visited: seq<bool>, current: nat, queue: seq<nat>, queue': seq<nat>,
                           seen: seq<nat>, j: nat)
  {
    && |visited| == |rects| && current < |rects| && j <= |rects|
    && |queue| <= |queue'| && queue'[..|queue|] == queue
    && MarksExactly(visited, seen + queue'[|queue|..])
    && (forall k :: |queue| <= k < |queue'| ==> queue'[k] < |rects| && AreVisualNeighbors(rects[current], rects[queue'[k]]))
    && IncreasingBelow(queue'[|queue|..], j)
    && (forall y :: 0 <= y < j && AreVisualNeighbors(rects[current], rects[y]) ==> visited[y])
  }

  lemma EnqueueAdd(rects: seq<Rect>, visited: seq<bool>, current: nat, queue: seq<nat>, queue': seq<nat>,
                   seen: seq<nat>, j: nat)
    requires Enqueued(rects, visited, current, queue, queue', seen, j) && j < |rects|
    requires !visited[j] && AreVisualNeighbors(rects[current], rects[j])
    ensures Enqueued(rects, visited[j := true], current, queue, queue' + [j], seen, j + 1)
  {
    var added := queue'[|queue|..];
    assert j !in seen + added;
    NoDupsAppend(seen + added, j);
    assert (queue' + [j])[|queue|..] == added + [j];
    assert seen + (added + [j]) == seen + added + [j];
    IncreasingAppend(added, j);
  }

  lemma EnqueueSkip(rects: seq<Rect>, visited: seq<bool>, current: nat, queue: seq<nat>, queue': seq<nat>,
                    seen: seq<nat>, j: nat)
    requires Enqueued(rects, visited, current, queue, queue', seen, j) && j < |rects|
    requires visited[j] || !AreVisualNeighbors(rects[current], rects[j])
    ensures Enqueued(rects, visited, current, queue, queue', seen, j + 1)
  {
  }

  /** `s` is strictly increasing and every element is below `n`. */
  ghost predicate IncreasingBelow(s: seq<nat>, n: nat)
  {
    && (forall k, k' :: 0 <= k < k' < |s| ==> s[k] < s[k'])
    && (forall k :: 0 <= k < |s| ==> s[k] < n)
  }

  lemma IncreasingAppend(s: seq<nat>, j: nat)
    requires IncreasingBelow(s, j)
    ensures IncreasingBelow(s + [j], j + 1)
  {
  }

  /** Indices that all neighbour one member keep the cluster chained. */
  lemma {:induction false} ChainedAppendAll(rects: seq<Rect>, c: seq<nat>, m: nat, added: seq<nat>)
    requires Chained(rects, c)
    requires m < |c| && c[m] < |rects|
    requires forall k :: 0 <= k < |added| ==> added[k] < |rects| && AreVisualNeighbors(rects[c[m]], rects[added[k]])
    ensures Chained(rects, c + added)
    decreases |added|
  {
    if |added| > 0 {
      var last := added[|added| - 1];
      var init := added[..|added| - 1];
      ChainedAppendAll(rects, c, m, init);
      assert (c + init)[m] == c[m];
      ChainedExtend(rects, c + init, m, last);
      assert c + init + [last] == c + added;
    } else {
      assert c + added == c;
    }
  }

  lemma NoDupsAppend(s: seq<nat>, x: nat)
    requires NoDups(s) && x !in s
    ensures NoDups(s + [x])
  {
  }

  /** Every neighbour of a member of `c` is marked in `visited`. */
  ghost predicate NeighborsMarked(rects: seq<Rect>, visited: seq<bool>, c: seq<nat>)
  {
    |visited| == |rects|
    && forall x: nat, y: nat :: x in c && x < |rects| && y < |rects| && AreVisualNeighbors(rects[x], rects[y]) ==> visited[y]
  }

  /** Flags only ever go from unset to set. */
  ghost predicate Grows(visited: seq<bool>, visited': seq<bool>)
  {
    |visited'| == |visited| && forall y :: 0 <= y < |visited| && visited[y] ==> visited'[y]
  }

  /** The state of the `while (queue.length > 0)` loop: the flags mark exactly the earlier
      clusters, the members popped so far and the queue; popped members and queue together
      start at the seed and are chained; every neighbour of a popped member is marked. */
  ghost predicate Expanding(rects: seq<Rect>, visited: seq<bool>, done: seq<nat>, cluster: seq<nat>, queue: seq<nat>, seed: nat)
  {
    && |visited| == |rects|
    && MarksExactly(visited, done + cluster + queue)
    && |cluster + queue| > 0 && (cluster + queue)[0] == seed
    && Chained(rects, cluster + queue)
    && NeighborsMarked(rects, visited, cluster)
  }

  lemma ExpandingStart(rects: seq<Rect>, visited: seq<bool>, visited': seq<bool>, done: seq<nat>, seed: nat)
    requires |visited| == |rects| && seed < |rects|
    requires MarksExactly(visited, done) && !visited[seed] && visited' == visited[seed := true]
    ensures Expanding(rects, visited', done, [], [seed], seed)
  {
    NoDupsAppend(done, seed);
    assert done + [] + [seed] == done + [seed];
    assert Chained(rects, [] + [seed]);
  }

  lemma ExpandingBound(rects: seq<Rect>, visited: seq<bool>, done: seq<nat>, cluster: seq<nat>, queue: seq<nat>, seed: nat)
    requires Expanding(rects, visited, done, cluster, queue, seed)
    ensures |done| + |cluster| + |queue| <= |rects|
    ensures |queue| > 0 ==> queue[0] < |rects|
  {
    DistinctIndicesBound(done + cluster + queue, |rects|);
    if |queue| > 0 {
      assert (done + cluster + queue)[|done| + |cluster|] == queue[0];
    }
  }

  /** One iteration: the head of the queue is popped and its unvisited neighbours enqueued. */
  lemma ExpandingStep(rects: seq<Rect>, visited: seq<bool>, visited': seq<bool>, done: seq<nat>, cluster: seq<nat>,
                      queue: seq<nat>, queue': seq<nat>, seed: nat)
    requires Expanding(rects, visited, done, cluster, queue, seed) && |queue| > 0 && queue[0] < |rects|
    requires Grows(visited, visited')
    requires |queue| - 1 <= |queue'| && queue'[..|queue| - 1] == queue[1..]
    requires MarksExactly(visited', done + cluster + queue + queue'[|queue| - 1..])
    requires forall k :: |queue| - 1 <= k < |queue'| ==> queue'[k] < |rects| && AreVisualNeighbors(rects[queue[0]], rects[queue'[k]])
    requires forall y :: 0 <= y < |rects| && AreVisualNeighbors(rects[queue[0]], rects[y]) ==> visited'[y]
    ensures Expanding(rects, visited', done, cluster + [queue[0]], queue', seed)
  {
    PopPush(done, cluster, queue, queue');
    ChainedStep(rects, cluster, queue, queue');
    NeighborsMarkedStep(rects, visited, visited', cluster, queue[0]);
  }

  /** Moving the head of the queue to the cluster and appending to the queue keeps the order
      of cluster and queue together. */
  lemma PopPush(done: seq<nat>, cluster: seq<nat>, queue: seq<nat>, queue': seq<nat>)
    requires |queue| > 0 && |queue| - 1 <= |queue'| && queue'[..|queue| - 1] == queue[1..]
    ensures cluster + [queue[0]] + queue' == cluster + queue + queue'[|queue| - 1..]
    ensures done + (cluster + [queue[0]]) + queue' == done + cluster + queue + queue'[|queue| - 1..]
  {
    assert queue' == queue[1..] + queue'[|queue| - 1..];
    assert queue == [queue[0]] + queue[1..];
  }

  lemma ChainedStep(rects: seq<Rect>, cluster: seq<nat>, queue: seq<nat>, queue': seq<nat>)
    requires Chained(rects, cluster + queue) && |queue| > 0 && queue[0] < |rects|
    requires |queue| - 1 <= |queue'| && queue'[..|queue| - 1] == queue[1..]
    requires forall k :: |queue| - 1 <= k < |queue'| ==> queue'[k] < |rects| && AreVisualNeighbors(rects[queue[0]], rects[queue'[k]])
    ensures Chained(rects, cluster + [queue[0]] + queue')
  {
    var added := queue'[|queue| - 1..];
    var order := cluster + queue;
    PopPush([], cluster, queue, queue');
    assert order[|cluster|] == queue[0];
    assert forall k :: 0 <= k < |added| ==> added[k] == queue'[|queue| - 1 + k];
    ChainedAppendAll(rects, order, |cluster|, added);
  }

  lemma NeighborsMarkedStep(rects: seq<Rect>, visited: seq<bool>, visited': seq<bool>, c: seq<nat>, current: nat)
    requires NeighborsMarked(rects, visited, c) && Grows(visited, visited')
    requires forall y :: 0 <= y < |rects| && current < |rects| && AreVisualNeighbors(rects[current], rects[y]) ==> visited'[y]
    ensures NeighborsMarked(rects, visited', c + [current])
  {
  }

  /** When the queue is empty the popped members are the whole cluster. */
  lemma ExpandingDone(rects: seq<Rect>, visited: seq<bool>, done: seq<nat>, cluster: seq<nat>, seed: nat)
    requires Expanding(rects, visited, done, cluster, [], seed)
    ensures |cluster| > 0 && cluster[0] == seed && IndicesBelow(cluster, |rects|)
    ensures MarksExactly(visited, done + cluster)
    ensures Chained(rects, cluster) && NeighborsMarked(rects, visited, cluster)
  {
    assert cluster + [] == cluster && done + cluster + [] == done + cluster;
    assert forall k :: 0 <= k < |cluster| ==> cluster[k] == (done + cluster)[|done| + k];
  }

  /** The `while (queue.length > 0)` loop from one unvisited seed: the members in the order
      they leave the queue. Exactly the members become visited in addition to `done`; the
      cluster is chained from the seed, and every neighbour of a member ends up visited. */
  method ExpandCluster(rects: seq<Rect>, visited: array<bool>, seed: nat, ghost done: seq<nat>)
    returns (cluster: seq<nat>)
    requires visited.Length == |rects| && seed < |rects|
    requires MarksExactly(visited[..], done) && !visited[seed]
    modifies visited
    ensures |cluster| > 0 && cluster[0] == seed && IndicesBelow(cluster, |rects|)
    ensures MarksExactly(visited[..], done + cluster)
    ensures Chained(rects, cluster)
    ensures NeighborsMarked(rects, visited[..], cluster)
  {
    cluster := [];
    var queue: seq<nat> := [seed];
    ghost var marks := visited[..];
    visited[seed] := true;
    assert visited[..] == marks[seed := true];
    ExpandingStart(rects, marks, visited[..], done, seed);
    while |queue| > 0
      invariant Expanding(rects, visited[..], done, cluster, queue, seed)
      decreases |rects| - |done| - |cluster|
    {
      ExpandingBound(rects, visited[..], done, cluster, queue, seed);
      var current := queue[0];
      marks := visited[..];
      var queue' := EnqueueNeighbors(rects, visited, current, queue[1..], done + cluster + queue);
      ExpandingStep(rects, marks, visited[..], done, cluster, queue, queue', seed);
      cluster := cluster + [current];
      queue := queue';
    }
    ExpandingDone(rects, visited[..], done, cluster, seed);
  }

  /** A connected component: non-empty, of valid indices, chained and closed. */
  ghost predicate Component(rects: seq<Rect>, c: seq<nat>)
  {
    |c| > 0 && IndicesBelow(c, |rects|) && Chained(rects, c) && Closed(rects, c)
  }

  /** A new cluster grown from a neighbour-closed set of visited indices is closed itself,
      and so is the union: a neighbour already visited before would, by symmetry, have
      pulled the member into an earlier cluster. */
  lemma CloseComponent(rects: seq<Rect>, visited: seq<bool>, done: seq<nat>, cluster: seq<nat>)
    requires MarksExactly(visited, done + cluster)
    requires Closed(rects, done)
    requires NeighborsMarked(rects, visited, cluster)
    ensures Closed(rects, cluster) && Closed(rects, done + cluster)
  {
    NoDupsSplit(done, cluster);
    forall x: nat, y: nat | x in cluster && x < |rects| && y < |rects| && AreVisualNeighbors(rects[x], rects[y])
      ensures y in cluster
    {
      if y in done {
        NeighborsSymmetric(rects[x], rects[y]);
      }
    }
  }

  /** Every cluster is a component and every block finalises its cluster. */
  ghost predicate Finalized(rects: seq<Rect>, clusters: seq<seq<nat>>, blocks: seq<TextBlock>)
  {
    && |blocks| == |clusters|
    && forall a :: 0 <= a < |clusters| ==>
         Component(rects, clusters[a]) && Finalizes(Members(rects, clusters[a]), blocks[a])
  }

  lemma FinalizedAppend(rects: seq<Rect>, clusters: seq<seq<nat>>, blocks: seq<TextBlock>, c: seq<nat>, b: TextBlock)
    requires Finalized(rects, clusters, blocks)
    requires Component(rects, c) && Finalizes(Members(rects, c), b)
    ensures Finalized(rects, clusters + [c], blocks + [b])
  {
  }

  /** The clusters in the order the outer loop opens them: each cluster starts at its seed,
      its smallest index, and the seeds increase from one cluster to the next and stay below
      `i`, the next line the loop looks at. */
  ghost predicate SeedOrdered(clusters: seq<seq<nat>>, i: nat)
  {
    && (forall a :: 0 <= a < |clusters| ==> |clusters[a]| > 0 && clusters[a][0] < i)
    && (forall a, k :: 0 <= a < |clusters| && 0 <= k < |clusters[a]| ==> clusters[a][0] <= clusters[a][k])
    && (forall a, b :: 0 <= a < b < |clusters| ==> clusters[a][0] < clusters[b][0])
  }

  /** A cluster grown from the unvisited line `i` after every earlier line was visited holds
      no index below `i`: those all belong to earlier clusters. */
  lemma ClusterAboveSeed(visited: seq<bool>, visited': seq<bool>, done: seq<nat>, cluster: seq<nat>, i: nat)
    requires MarksExactly(visited, done) && MarksExactly(visited', done + cluster) && |visited'| == |visited|
    requires forall k :: 0 <= k < i && k < |visited| ==> visited[k]
    ensures forall k :: 0 <= k < |cluster| ==> i <= cluster[k]
  {
    NoDupsSplit(done, cluster);
    forall k | 0 <= k < |cluster| ensures i <= cluster[k] {
      assert cluster[k] in done + cluster;
    }
  }

  lemma SeedOrderedStep(clusters: seq<seq<nat>>, cluster: seq<nat>, i: nat)
    requires SeedOrdered(clusters, i)
    requires |cluster| > 0 && cluster[0] == i && forall k :: 0 <= k < |cluster| ==> i <= cluster[k]
    ensures SeedOrdered(clusters + [cluster], i + 1)
  {
  }

  /** The state of the outer `for` loop after the lines below `i`: the flags mark exactly the
      clusters found so far, which are closed components finalised into `blocks`, and every
      line below `i` is visited. */
  ghost predicate Scanned(rects: seq<Rect>, visited: seq<bool>, done: seq<nat>, clusters: seq<seq<nat>>,
                          blocks: seq<TextBlock>, i: nat)
  {
    && |visited| == |rects| && i <= |rects|
    && MarksExactly(visited, done)
    && done == Flatten(clusters)
    && Closed(rects, done)
    && (forall a :: 0 <= a < |clusters| ==> |clusters[a]| > 0)
    && (forall k :: 0 <= k < i ==> visited[k])
    && |clusters| <= i && (i > 0 ==> |clusters| > 0)
    && SeedOrdered(clusters, i)
    && Finalized(rects, clusters, blocks)
  }

  lemma ScannedStart(rects: seq<Rect>, visited: seq<bool>)
    requires |visited| == |rects| && forall k :: 0 <= k < |visited| ==> !visited[k]
    ensures Scanned(rects, visited, [], [], [], 0)
  {
  }

  /** A line already visited opens no cluster. */
  lemma ScannedSkip(rects: seq<Rect>, visited: seq<bool>, done: seq<nat>, clusters: seq<seq<nat>>,
                    blocks: seq<TextBlock>, i: nat)
    requires Scanned(rects, visited, done, clusters, blocks, i) && i < |rects| && visited[i]
    ensures Scanned(rects, visited, done, clusters, blocks, i + 1)
  {
    SeedOrderedSkip(clusters, i);
  }

  lemma SeedOrderedSkip(clusters: seq<seq<nat>>, i: nat)
    requires SeedOrdered(clusters, i)
    ensures SeedOrdered(clusters, i + 1)
  {
  }

  /** An unvisited line opens a cluster: its component, finalised into one more block. */
  lemma ScannedStep(rects: seq<Rect>, visited: seq<bool>, visited': seq<bool>, done: seq<nat>,
                    clusters: seq<seq<nat>>, blocks: seq<TextBlock>, i: nat, cluster: seq<nat>, block: TextBlock)
    requires Scanned(rects, visited, done, clusters, blocks, i) && i < |rects| && !visited[i]
    requires |visited'| == |rects|
    requires |cluster| > 0 && cluster[0] == i && IndicesBelow(cluster, |rects|)
    requires MarksExactly(visited', done + cluster)
    requires Chained(rects, cluster) && NeighborsMarked(rects, visited', cluster)
    requires Finalizes(Members(rects, cluster), block)
    ensures Scanned(rects, visited', done + cluster, clusters + [cluster], blocks + [block], i + 1)
  {
    CloseComponent(rects, visited', done, cluster);
    FinalizedAppend(rects, clusters, blocks, cluster, block);
    FlattenAppend(clusters, cluster);
    MarkedBelowStep(visited, visited', done, cluster, i);
    ClusterAboveSeed(visited, visited', done, cluster, i);
    SeedOrderedStep(clusters, cluster, i);
  }

  lemma MarkedBelowStep(visited: seq<bool>, visited': seq<bool>, done: seq<nat>, cluster: seq<nat>, i: nat)
    requires MarksExactly(visited, done) && MarksExactly(visited', done + cluster) && |visited'| == |visited|
    requires i < |visited| && (forall k :: 0 <= k < i ==> visited[k]) && |cluster| > 0 && cluster[0] == i
    ensures forall k :: 0 <= k < i + 1 ==> visited'[k]
  {
    forall k | 0 <= k < i + 1 ensures visited'[k] {
      if k < i {
        assert k in done;
      }
      assert k in done + cluster;
    }
  }

  /** After the last line the clusters partition all line indices. */
  lemma ScannedComplete(rects: seq<Rect>, visited: seq<bool>, done: seq<nat>, clusters: seq<seq<nat>>, blocks: seq<TextBlock>)
    requires Scanned(rects, visited, done, clusters, blocks, |rects|)
    ensures Partition(clusters, |rects|) && SeedOrdered(clusters, |rects|)
  {
  }

  /** What `performSuperSmartClustering` promises about its `clusters` and `blocks` for
      `lines`: the clusters partition the line indices, at most one per line and at least one
      when there is a line; each is a connected component finalised into the block at the same
      position; each starts at its smallest index and the clusters come in increasing order of
      that index, the order the outer loop meets their seeds. */
  ghost predicate Clustered(lines: seq<RecognizedLine>, blocks: seq<TextBlock>, clusters: seq<seq<nat>>)
  {
    && Partition(clusters, |lines|)
    && |clusters| <= |lines|
    && (|lines| > 0 ==> |clusters| > 0)
    && (|lines| == 0 ==> clusters == [] && blocks == [])
    && Finalized(ExtractRects(lines), clusters, blocks)
    && (forall a, k :: 0 <= a < |clusters| && 0 <= k < |clusters[a]| ==> clusters[a][0] <= clusters[a][k])
    && (forall a, b :: 0 <= a < b < |clusters| ==> clusters[a][0] < clusters[b][0])
  }

  /** `performSuperSmartClustering`. `clusters[a]` lists the line indices of the `a`-th block
      in the order the breadth-first search reached them; the `visited` flags of the source
      live in a local array. The clusters partition the lines, each is a connected component
      of the neighbour relation, at most one is opened per line, and each block is the
      finalisation of its cluster. */
  method PerformSuperSmartClustering(lines: seq<RecognizedLine>) returns (blocks: seq<TextBlock>, clusters: seq<seq<nat>>)
    ensures Clustered(lines, blocks, clusters)
  {
    var rects := ExtractRects(lines);
    var n := |rects|;
    blocks, clusters := [], [];
    if n == 0 {
      return;
    }
    var visited := new bool[n](_ => false);
    ghost var done: seq<nat> := [];
    ScannedStart(rects, visited[..]);
    for i := 0 to n
      invariant Scanned(rects, visited[..], done, clusters, blocks, i)
    {
      if visited[i] {
        ScannedSkip(rects, visited[..], done, clusters, blocks, i);
        continue;
      }
      ghost var marks := visited[..];
      var cluster := ExpandCluster(rects, visited, i, done);
      var block := FinalizeCluster(Members(rects, cluster));
      ScannedStep(rects, marks, visited[..], done, clusters, blocks, i, cluster, block);
      clusters := clusters + [cluster];
      blocks := blocks + [block];
      done := done + cluster;
    }
    ScannedComplete(rects, visited[..], done, clusters, blocks);
  }
}
