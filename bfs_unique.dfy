/**
 * The answer of `bfs_shortest_path` (social_graph/bfs.py) is fixed by the graph
 * and the two users: two results that keep every promise of
 * `Bfs.BfsShortestPath` are the same result. The visit order is pinned down one
 * user at a time, each being the next user the FIFO queue hands out; the tree,
 * the distances and the path then follow from the visit order.
 */
module BfsUnique {
  import opened Wrappers
  import opened Order
  import opened SocialGraph
  import opened Reach
  import opened Bfs

  /** Everything `BfsShortestPath` promises about its result for two known
      users. */
  ghost predicate Promised(s: Store, startUser: string, targetUser: string, r: BfsResult)
  {
    && Answered(s, startUser, targetUser, r)
    && Complete(s, startUser, r)
    && BreadthFirst(s, r)
    && LeftInQueue(s, targetUser, r)
  }

  /** No node occurs twice in `order`, one pair of positions at a time. */
  ghost predicate Distinct<K>(order: seq<K>)
  {
    forall i, j {:trigger DistinctAt(order, i, j)} :: DistinctAt(order, i, j)
  }

  ghost predicate DistinctAt<K>(order: seq<K>, i: int, j: int)
  {
    0 <= i < j < |order| ==> order[i] != order[j]
  }

  /** Every discovered node but the start hangs below a neighbour one level
      closer to the start. */
  ghost predicate Hangs<K(!new)>(adjacent: (K, K) -> bool, start: K, parent: map<K, Option<K>>, dist: map<K, nat>)
  {
    && dist.Keys == parent.Keys && start in parent && parent[start] == None && dist[start] == 0
    && forall v {:trigger HangsAt(adjacent, start, parent, dist, v)} :: HangsAt(adjacent, start, parent, dist, v)
  }

  ghost predicate HangsAt<K>(adjacent: (K, K) -> bool, start: K, parent: map<K, Option<K>>, dist: map<K, nat>, v: K)
  {
    v in parent && v != start ==>
      && v in dist && parent[v].Some? && parent[v].value in dist && adjacent(parent[v].value, v)
      && dist[v] == dist[parent[v].value] + 1
  }

  /** `Discovered`, `Ranked`, `FirstFound`, `Closes` and `FromExpanded` of one
      search, with `expanded` the visit order, one instance at a time. */
  ghost predicate Ordered<K(!new)>(adjacent: (K, K) -> bool, less: (K, K) -> bool,
                                  order: seq<K>, m: nat, parent: map<K, Option<K>>, dist: map<K, nat>)
  {
    && (forall i {:trigger DiscoveredAt(order, parent, i)} :: DiscoveredAt(order, parent, i))
    && (forall i, j, l {:trigger RankedAt(less, order, parent, i, j, l)} :: RankedAt(less, order, parent, i, j, l))
    && (forall v, i {:trigger FirstFoundAt(adjacent, order, parent, v, i)} :: FirstFoundAt(adjacent, order, parent, v, i))
    && (forall i, y {:trigger ClosesAt(adjacent, order, m, dist, i, y)} :: ClosesAt(adjacent, order, m, dist, i, y))
    && (forall v {:trigger FromExpandedAt(order, m, parent, v)} :: FromExpandedAt(order, m, parent, v))
  }

  ghost predicate DiscoveredAt<K>(order: seq<K>, parent: map<K, Option<K>>, i: int)
  {
    0 < i < |order| ==> order[i] in parent && parent[order[i]].Some? && parent[order[i]].value in order[..i]
  }

  ghost predicate RankedAt<K>(less: (K, K) -> bool, order: seq<K>, parent: map<K, Option<K>>, i: int, j: int, l: int)
  {
    && 0 < i < j < |order| && 0 <= l < |order|
    && order[i] in parent && order[j] in parent && parent[order[i]].Some? && parent[order[j]] == Some(order[l])
    ==> parent[order[i]].value in order[..l + 1] && (parent[order[i]] == parent[order[j]] ==> less(order[i], order[j]))
  }

  ghost predicate FirstFoundAt<K>(adjacent: (K, K) -> bool, order: seq<K>, parent: map<K, Option<K>>, v: K, i: int)
  {
    v in parent && parent[v].Some? && 0 <= i < |order| && adjacent(order[i], v) ==> parent[v].value in order[..i + 1]
  }

  ghost predicate ClosesAt<K>(adjacent: (K, K) -> bool, order: seq<K>, m: nat, dist: map<K, nat>, i: int, y: K)
  {
    0 <= i < m && i < |order| && adjacent(order[i], y) ==> y in dist
  }

  ghost predicate FromExpandedAt<K>(order: seq<K>, m: nat, parent: map<K, Option<K>>, v: K)
  {
    m <= |order| && (v in parent && v !in order ==> parent[v].Some? && parent[v].value in order[..m])
  }

  /** The facts of a finished search that fix its outcome, on any kind of node:
      the visit order starts at the start without repeats, its first `m`
      entries were expanded, and it follows the FIFO queue. */
  ghost predicate Shaped<K(!new)>(adjacent: (K, K) -> bool, less: (K, K) -> bool, start: K,
                                 order: seq<K>, m: nat, parent: map<K, Option<K>>, dist: map<K, nat>)
  {
    && order != [] && order[0] == start && |order| - 1 <= m <= |order|
    && Distinct(order)
    && Hangs(adjacent, start, parent, dist)
    && Ordered(adjacent, less, order, m, parent, dist)
    && QueuedAfter(less, order, m, parent)
  }

  /** `x` is the node the queue hands out after the nodes `prefix` were
      visited: an unvisited neighbour of `prefix[l]`, where every neighbour of
      an earlier `prefix[j]` has been visited, and the first by `less` among
      the unvisited neighbours of `prefix[l]`. */
  ghost predicate NextOf<K(!new)>(adjacent: (K, K) -> bool, less: (K, K) -> bool, prefix: seq<K>, x: K, l: nat)
  {
    && l < |prefix| && adjacent(prefix[l], x) && x !in prefix
    && (forall j, y :: 0 <= j < l && adjacent(prefix[j], y) ==> y in prefix)
    && (forall y :: adjacent(prefix[l], y) && y !in prefix && y != x ==> less(x, y))
  }

  /** At most one node is next. */
  lemma NextUnique<K(!new)>(adjacent: (K, K) -> bool, less: (K, K) -> bool, prefix: seq<K>,
                            x: K, l: nat, x': K, l': nat)
    requires NextOf(adjacent, less, prefix, x, l) && NextOf(adjacent, less, prefix, x', l')
    requires less(x, x') ==> !less(x', x)
    ensures x == x' && l == l'
  {
    assert adjacent(prefix[l], x) && adjacent(prefix[l'], x');
  }

  /** A node listed among the first `j + 1` of a list without repeats sits at
      an index up to `j`. */
  lemma IndexWithin<K>(order: seq<K>, l: nat, j: nat)
    requires Distinct(order) && l < |order| && j < |order| && order[l] in order[..j + 1]
    ensures l <= j
  {
    var k :| 0 <= k < j + 1 && order[..j + 1][k] == order[l];
    assert DistinctAt(order, k, l);
  }

  /** The entry at `k` of a list without repeats is not among those before
      it. */
  lemma NotBefore<K>(order: seq<K>, k: nat)
    requires Distinct(order) && k < |order|
    ensures order[k] !in order[..k]
  {
    forall i | 0 <= i < k ensures order[..k][i] != order[k] {
      assert DistinctAt(order, i, k);
    }
  }

  /** The parent of a discovered node other than the start is one of the
      expanded nodes. */
  lemma ParentAt<K(!new)>(adjacent: (K, K) -> bool, less: (K, K) -> bool, start: K,
                          order: seq<K>, m: nat, parent: map<K, Option<K>>, dist: map<K, nat>, v: K)
    returns (j: nat)
    requires Shaped(adjacent, less, start, order, m, parent, dist)
    requires v in parent && v != start
    ensures j < m && j < |order| && parent[v] == Some(order[j]) && adjacent(order[j], v)
  {
    assert HangsAt(adjacent, start, parent, dist, v);
    var p := parent[v].value;
    if v in order {
      var i :| 0 <= i < |order| && order[i] == v;
      assert DiscoveredAt(order, parent, i);
      j :| 0 <= j < i && order[..i][j] == p;
    } else {
      assert FromExpandedAt(order, m, parent, v);
      j :| 0 <= j < m && order[..m][j] == p;
    }
  }

  /** The queue hands out nothing while an earlier visited node still has an
      unvisited neighbour. */
  lemma EarlierExhausted<K(!new)>(adjacent: (K, K) -> bool, less: (K, K) -> bool, start: K,
                                  order: seq<K>, m: nat, parent: map<K, Option<K>>, dist: map<K, nat>,
                                  k: nat, l: nat, j: nat, y: K)
    requires Shaped(adjacent, less, start, order, m, parent, dist)
    requires 0 < k < |order| && l < k && order[k] in parent && parent[order[k]] == Some(order[l])
    requires j < l && adjacent(order[j], y)
    ensures y in order[..k]
  {
    assert ClosesAt(adjacent, order, m, dist, j, y);
    if y == start {
      assert order[..k][0] == y;
    } else if y !in order[..k] {
      var l' := ParentAt(adjacent, less, start, order, m, parent, dist, y);
      assert FirstFoundAt(adjacent, order, parent, y, j);
      IndexWithin(order, l', j);
      if y in order {
        var k' :| 0 <= k' < |order| && order[k'] == y;
        if k' == k {
          assert order[..l' + 1][l'] == order[l];
        } else {
          assert k < k';
          assert RankedAt(less, order, parent, k, k', l');
        }
      } else {
        assert QueuedBehind(less, order, parent, y, k, l');
      }
      IndexWithin(order, l, l');
      assert false;
    }
  }

  /** Among the unvisited neighbours of its parent, the node handed out is the
      first by `less`. */
  lemma FirstAmongSiblings<K(!new)>(adjacent: (K, K) -> bool, less: (K, K) -> bool, start: K,
                                    order: seq<K>, m: nat, parent: map<K, Option<K>>, dist: map<K, nat>,
                                    k: nat, l: nat, y: K)
    requires Shaped(adjacent, less, start, order, m, parent, dist)
    requires 0 < k < |order| && l < k && order[k] in parent && parent[order[k]] == Some(order[l])
    requires adjacent(order[l], y) && y !in order[..k] && y != order[k]
    ensures less(order[k], y)
  {
    assert ClosesAt(adjacent, order, m, dist, l, y);
    assert order[..k][0] == start;
    var l' := ParentAt(adjacent, less, start, order, m, parent, dist, y);
    assert FirstFoundAt(adjacent, order, parent, y, l);
    IndexWithin(order, l', l);
    if y in order {
      var k' :| 0 <= k' < |order| && order[k'] == y;
      assert k < k';
      assert RankedAt(less, order, parent, k, k', l');
    } else {
      assert QueuedBehind(less, order, parent, y, k, l');
    }
    IndexWithin(order, l, l');
  }

  /** Each visited node after the start is the node the queue hands out after
      the ones before it. */
  lemma NextAt<K(!new)>(adjacent: (K, K) -> bool, less: (K, K) -> bool, start: K,
                        order: seq<K>, m: nat, parent: map<K, Option<K>>, dist: map<K, nat>, k: nat)
    returns (l: nat)
    requires Shaped(adjacent, less, start, order, m, parent, dist)
    requires 0 < k < |order|
    ensures NextOf(adjacent, less, order[..k], order[k], l)
  {
    NotBefore(order, k);
    assert order[..k][0] == start;
    assert DiscoveredAt(order, parent, k);
    l := ParentAt(adjacent, less, start, order, m, parent, dist, order[k]);
    assert l < k by {
      var p := parent[order[k]].value;
      var i :| 0 <= i < k && order[..k][i] == p;
      assert DistinctAt(order, i, l) && DistinctAt(order, l, i);
    }
    forall j, y | 0 <= j < l && adjacent(order[..k][j], y)
      ensures y in order[..k]
    {
      EarlierExhausted(adjacent, less, start, order, m, parent, dist, k, l, j, y);
    }
    forall y | adjacent(order[..k][l], y) && y !in order[..k] && y != order[k]
      ensures less(order[k], y)
    {
      FirstAmongSiblings(adjacent, less, start, order, m, parent, dist, k, l, y);
    }
  }

  /** Two searches of one graph from one start, whose `less` is asymmetric,
      visit the same nodes in the same order, up to the shorter of the two. */
  lemma {:induction false} SameOrder<K(!new)>(adjacent: (K, K) -> bool, less: (K, K) -> bool, start: K,
                                             o1: seq<K>, m1: nat, p1: map<K, Option<K>>, d1: map<K, nat>,
                                             o2: seq<K>, m2: nat, p2: map<K, Option<K>>, d2: map<K, nat>, k: nat)
    requires Shaped(adjacent, less, start, o1, m1, p1, d1) && Shaped(adjacent, less, start, o2, m2, p2, d2)
    requires forall a, b :: less(a, b) ==> !less(b, a)
    requires 1 <= k <= |o1| && k <= |o2|
    ensures o1[..k] == o2[..k]
    decreases k
  {
    if k > 1 {
      SameOrder(adjacent, less, start, o1, m1, p1, d1, o2, m2, p2, d2, k - 1);
      var l1 := NextAt(adjacent, less, start, o1, m1, p1, d1, k - 1);
      var l2 := NextAt(adjacent, less, start, o2, m2, p2, d2, k - 1);
      NextUnique(adjacent, less, o1[..k - 1], o1[k - 1], l1, o2[k - 1], l2);
      assert o1[..k] == o1[..k - 1] + [o1[k - 1]];
      assert o2[..k] == o2[..k - 1] + [o2[k - 1]];
    }
  }

  /** Two searches with the same visit order and the same expanded count
      discover the same nodes. */
  lemma KeyShared<K(!new)>(adjacent: (K, K) -> bool, less: (K, K) -> bool, start: K,
                           order: seq<K>, m: nat, p1: map<K, Option<K>>, d1: map<K, nat>,
                           p2: map<K, Option<K>>, d2: map<K, nat>, v: K)
    requires Shaped(adjacent, less, start, order, m, p1, d1) && Shaped(adjacent, less, start, order, m, p2, d2)
    requires v in p1
    ensures v in p2
  {
    if v != start {
      var j := ParentAt(adjacent, less, start, order, m, p1, d1, v);
      assert ClosesAt(adjacent, order, m, d2, j, v);
    }
  }

  /** ... and give each the same parent: the first expanded node it
      neighbours. */
  lemma SameParent<K(!new)>(adjacent: (K, K) -> bool, less: (K, K) -> bool, start: K,
                            order: seq<K>, m: nat, p1: map<K, Option<K>>, d1: map<K, nat>,
                            p2: map<K, Option<K>>, d2: map<K, nat>, v: K)
    requires Shaped(adjacent, less, start, order, m, p1, d1) && Shaped(adjacent, less, start, order, m, p2, d2)
    requires v in p1 && v in p2
    ensures p1[v] == p2[v]
  {
    if v != start {
      var j1 := ParentAt(adjacent, less, start, order, m, p1, d1, v);
      var j2 := ParentAt(adjacent, less, start, order, m, p2, d2, v);
      assert FirstFoundAt(adjacent, order, p1, v, j2);
      IndexWithin(order, j1, j2);
      assert FirstFoundAt(adjacent, order, p2, v, j1);
      IndexWithin(order, j2, j1);
    }
  }

  /** Two searches with the same visit order and the same expanded count build
      the same tree. */
  lemma SameTree<K(!new)>(adjacent: (K, K) -> bool, less: (K, K) -> bool, start: K,
                          order: seq<K>, m: nat, p1: map<K, Option<K>>, d1: map<K, nat>,
                          p2: map<K, Option<K>>, d2: map<K, nat>)
    requires Shaped(adjacent, less, start, order, m, p1, d1) && Shaped(adjacent, less, start, order, m, p2, d2)
    ensures p1 == p2
  {
    forall v | v in p1 ensures v in p2 {
      KeyShared(adjacent, less, start, order, m, p1, d1, p2, d2, v);
    }
    forall v | v in p2 ensures v in p1 {
      KeyShared(adjacent, less, start, order, m, p2, d2, p1, d1, v);
    }
    forall v | v in p1 ensures p1[v] == p2[v] {
      SameParent(adjacent, less, start, order, m, p1, d1, p2, d2, v);
    }
  }

  /** One tree fixes the distances, level by level. */
  lemma {:induction false} SameDistanceAt<K(!new)>(adjacent: (K, K) -> bool, start: K, parent: map<K, Option<K>>,
                                            d1: map<K, nat>, d2: map<K, nat>, v: K)
    requires Hangs(adjacent, start, parent, d1) && Hangs(adjacent, start, parent, d2)
    requires v in parent
    ensures d1[v] == d2[v]
    decreases d1[v]
  {
    if v != start {
      assert HangsAt(adjacent, start, parent, d1, v) && HangsAt(adjacent, start, parent, d2, v);
      SameDistanceAt(adjacent, start, parent, d1, d2, parent[v].value);
    }
  }

  /** Two paths down one tree to the same node, of the same length, are the
      same path. */
  lemma {:induction false} SameFollowing<K>(tree: map<K, Option<K>>, p1: seq<K>, p2: seq<K>, i: nat)
    requires FollowsTree(p1, tree) && FollowsTree(p2, tree)
    requires |p1| == |p2| && i < |p1| && p1[|p1| - 1] == p2[|p2| - 1]
    ensures p1[i] == p2[i]
    decreases |p1| - i
  {
    if i < |p1| - 1 {
      SameFollowing(tree, p1, p2, i + 1);
      assert tree[p1[i + 1]] == Some(p1[i]) && tree[p2[i + 1]] == Some(p2[i]);
    }
  }

  /** The facts of a result that fix it, each used one instance at a time. */
  ghost predicate Settled(s: Store, startUser: string, targetUser: string, r: BfsResult)
  {
    && Shaped(FriendOf(s), LexLess, startUser, r.visitedOrder, ExpandedCount(r.visitedOrder, targetUser),
              r.explorationTree, r.distances)
    && (r.reachable <==> Reachable(s, startUser, targetUser))
    && (r.reachable <==> r.path != [])
    && (r.reachable ==>
          && r.visitedOrder[|r.visitedOrder| - 1] == targetUser && r.path[|r.path| - 1] == targetUser
          && targetUser in r.distances && r.distances[targetUser] == |r.path| - 1
          && FollowsTree(r.path, r.explorationTree))
    && (!r.reachable ==>
          forall x {:trigger CompleteAt(s, startUser, r.visitedOrder, x)} :: CompleteAt(s, startUser, r.visitedOrder, x))
  }

  /** `x` was visited exactly when it is a user reachable from the start. */
  ghost predicate CompleteAt(s: Store, startUser: string, order: seq<string>, x: string)
  {
    x in order <==> x in s.ids && Reachable(s, startUser, x)
  }

  /** A result that keeps the promises of `BfsShortestPath` has the shape of
      a finished search, on names. */
  lemma ResultSettled(s: Store, startUser: string, targetUser: string, r: BfsResult)
    requires s.Valid() && startUser in s.ids && targetUser in s.ids
    requires Promised(s, startUser, targetUser, r)
    ensures Settled(s, startUser, targetUser, r)
  {
    var order := r.visitedOrder;
    var m := ExpandedCount(order, targetUser);
    DistinctFrom(order);
    HangsFrom(s, startUser, r.distances, r.explorationTree);
    OrderedFrom(FriendOf(s), LexLess, order, m, r.explorationTree, r.distances);
    if !r.reachable {
      forall x ensures CompleteAt(s, startUser, order, x) {
      }
    }
  }

  lemma DistinctFrom<K>(order: seq<K>)
    requires NoDuplicates(order)
    ensures Distinct(order)
  {
    forall i, j ensures DistinctAt(order, i, j) {
    }
  }

  lemma HangsFrom(s: Store, start: string, depth: map<string, nat>, tree: map<string, Option<string>>)
    requires IsNamedTree(s, start, depth, tree)
    ensures Hangs(FriendOf(s), start, tree, depth)
  {
    forall v ensures HangsAt(FriendOf(s), start, tree, depth, v) {
    }
  }

  lemma OrderedFrom<K(!new)>(adjacent: (K, K) -> bool, less: (K, K) -> bool,
                             order: seq<K>, m: nat, parent: map<K, Option<K>>, dist: map<K, nat>)
    requires Discovered(order, order, parent) && Ranked(less, order, order, parent)
    requires FirstFound(adjacent, order, parent) && Closes(adjacent, order, m, dist) && FromExpanded(order, m, parent)
    ensures Ordered(adjacent, less, order, m, parent, dist)
  {
    forall i ensures DiscoveredAt(order, parent, i) {
    }
    forall i, j, l ensures RankedAt(less, order, parent, i, j, l) {
    }
    forall v, i ensures FirstFoundAt(adjacent, order, parent, v, i) {
    }
    forall i, y ensures ClosesAt(adjacent, order, m, dist, i, y) {
    }
    forall v ensures FromExpandedAt(order, m, parent, v) {
    }
  }

  /** The visit orders of two settled results agree on their common length,
      and neither is longer. */
  lemma SameVisits(s: Store, startUser: string, targetUser: string, r1: BfsResult, r2: BfsResult)
    requires Settled(s, startUser, targetUser, r1) && Settled(s, startUser, targetUser, r2)
    requires |r1.visitedOrder| <= |r2.visitedOrder|
    ensures r1.visitedOrder == r2.visitedOrder
  {
    var o1, o2 := r1.visitedOrder, r2.visitedOrder;
    forall a, b | LexLess(a, b) ensures !LexLess(b, a) {
      LexAsymmetric(a, b);
    }
    SameOrder(FriendOf(s), LexLess, startUser, o1, ExpandedCount(o1, targetUser), r1.explorationTree, r1.distances,
              o2, ExpandedCount(o2, targetUser), r2.explorationTree, r2.distances, |o1|);
    assert o1 == o2[..|o1|];
    if r1.reachable {
      assert DistinctAt(o2, |o1| - 1, |o2| - 1);
    } else if |o1| < |o2| {
      var x := o2[|o1|];
      assert CompleteAt(s, startUser, o2, x) && CompleteAt(s, startUser, o1, x);
      NotBefore(o2, |o1|);
      assert false;
    }
  }

  /** Two settled results for the same graph and users are equal. */
  lemma SettledUnique(s: Store, startUser: string, targetUser: string, r1: BfsResult, r2: BfsResult)
    requires Settled(s, startUser, targetUser, r1) && Settled(s, startUser, targetUser, r2)
    ensures r1 == r2
  {
    if |r1.visitedOrder| <= |r2.visitedOrder| {
      SameVisits(s, startUser, targetUser, r1, r2);
    } else {
      SameVisits(s, startUser, targetUser, r2, r1);
    }
    var order := r1.visitedOrder;
    var m := ExpandedCount(order, targetUser);
    SameTree(FriendOf(s), LexLess, startUser, order, m, r1.explorationTree, r1.distances,
             r2.explorationTree, r2.distances);
    var tree := r1.explorationTree;
    forall v | v in tree ensures r1.distances[v] == r2.distances[v] {
      SameDistanceAt(FriendOf(s), startUser, tree, r1.distances, r2.distances, v);
    }
    assert r1.distances == r2.distances;
    if r1.reachable {
      forall i | 0 <= i < |r1.path| ensures r1.path[i] == r2.path[i] {
        SameFollowing(tree, r1.path, r2.path, i);
      }
    }
    assert r1.path == r2.path;
  }

  /** `bfs_shortest_path` is deterministic: two results that keep every
      promise of `BfsShortestPath` for the same graph and users are equal. */
  lemma BfsDeterministic(s: Store, startUser: string, targetUser: string, r1: BfsResult, r2: BfsResult)
    requires s.Valid() && startUser in s.ids && targetUser in s.ids
    requires Promised(s, startUser, targetUser, r1) && Promised(s, startUser, targetUser, r2)
    ensures r1 == r2
  {
    ResultSettled(s, startUser, targetUser, r1);
    ResultSettled(s, startUser, targetUser, r2);
    SettledUnique(s, startUser, targetUser, r1, r2);
  }
}
