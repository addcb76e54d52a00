/**
 * Breadth-first shortest path of social_graph/bfs.py over a snapshot of the
 * graph store. The search runs on ids with a FIFO queue, expands the neighbours
 * of each dequeued id in ascending name order, stops once the target has been
 * dequeued, and rebuilds the path from the parent pointers; the result reports
 * names.
 */
module Bfs {
  import opened Wrappers
  import opened Order
  import opened SocialGraph
  import opened Reach

  /** `BFSResult`, without its `time_ms`. */
  datatype BfsResult = BfsResult(
    path: seq<string>,
    visitedOrder: seq<string>,
    distances: map<string, nat>,
    explorationTree: map<string, Option<string>>,
    reachable: bool)

  /** No walk from `start` to a discovered id is shorter than its distance. */
  ghost predicate ExactDistances(adj: seq<set<nat>>, start: nat, dist: map<nat, nat>)
  {
    forall w :: IsWalk(adj, w) && w[0] == start && w[|w| - 1] in dist ==> dist[w[|w| - 1]] <= |w| - 1
  }

  /** The named tree of the result, with every distance the length of a
      shortest path. */
  ghost predicate IsNamedBfsTree(s: Store, start: string, distances: map<string, nat>, tree: map<string, Option<string>>)
  {
    && IsNamedTree(s, start, distances, tree)
    && (forall v, p :: v in distances && IsPath(s, p, start, v) ==> distances[v] <= |p| - 1)
  }

  /** The shape of `visited_order`: starts at the start, no repeats, every entry
      was discovered. */
  ghost predicate IsVisitOrder(order: seq<string>, start: string, distances: map<string, nat>)
  {
    order != [] && order[0] == start && NoDuplicates(order) && forall x :: x in order ==> x in distances
  }

  /** The order facts of the search, in names: users are visited level by
      level; each after the start was discovered from an earlier one, the first
      visited friend it has; and the visit order follows the order of the
      parents, ties broken by name. */
  ghost predicate BreadthFirst(s: Store, r: BfsResult)
  {
    && Levelled(r.visitedOrder, r.distances)
    && Discovered(r.visitedOrder, r.visitedOrder, r.explorationTree)
    && Ranked(LexLess, r.visitedOrder, r.visitedOrder, r.explorationTree)
    && FirstFound(FriendOf(s), r.visitedOrder, r.explorationTree)
  }

  /** A search that does not reach the target has visited, and discovered,
      exactly the users reachable from the start. */
  ghost predicate Complete(s: Store, start: string, r: BfsResult)
  {
    !r.reachable ==>
      && (forall x :: x in r.distances <==> x in r.visitedOrder)
      && (forall x :: x in r.visitedOrder <==> x in s.ids && Reachable(s, start, x))
  }

  /** The users left discovered but not visited, in names: every friend of an
      expanded user is discovered, and the users discovered but never visited
      were discovered by expanded users and queued behind the visited ones. */
  ghost predicate LeftInQueue(s: Store, target: string, r: BfsResult)
  {
    && Closes(FriendOf(s), r.visitedOrder, ExpandedCount(r.visitedOrder, target), r.distances)
    && QueuedAfter(LexLess, r.visitedOrder, ExpandedCount(r.visitedOrder, target), r.explorationTree)
    && FromExpanded(r.visitedOrder, ExpandedCount(r.visitedOrder, target), r.explorationTree)
  }

  /** The BFS distance argument. If every discovered id closer than `bound` is
      among the expanded ids `closed`, and each expanded id's neighbours were
      discovered at most one step further, then a walk from the start either has
      at least `bound` steps or ends at a discovered id no further than its
      length. */
  lemma {:induction false} WalkBound(adj: seq<set<nat>>, start: nat, dist: map<nat, nat>, closed: seq<nat>, bound: nat, w: seq<nat>)
    requires start in dist && dist[start] == 0
    requires forall x :: x in closed ==> x in dist
    requires forall x, y {:trigger y in adj[x], x in closed} ::
      x in closed && x < |adj| && y in adj[x] ==> y in dist && dist[y] <= dist[x] + 1
    requires forall v :: v in dist && dist[v] < bound ==> v in closed
    requires IsWalk(adj, w) && w[0] == start
    ensures |w| - 1 >= bound || (w[|w| - 1] in dist && dist[w[|w| - 1]] <= |w| - 1)
  {
    if |w| > 1 {
      var w' := w[..|w| - 1];
      assert IsWalk(adj, w');
      WalkBound(adj, start, dist, closed, bound, w');
      assert w[|w| - 1] in adj[w'[|w'| - 1]];
    }
  }

  /** When no discovered id is more than one step beyond `bound`, the distances
      are exact. */
  lemma ExactWithin(adj: seq<set<nat>>, start: nat, dist: map<nat, nat>, closed: seq<nat>, bound: nat)
    requires start in dist && dist[start] == 0
    requires forall x :: x in closed ==> x in dist
    requires forall x, y {:trigger y in adj[x], x in closed} ::
      x in closed && x < |adj| && y in adj[x] ==> y in dist && dist[y] <= dist[x] + 1
    requires forall v :: v in dist && dist[v] < bound ==> v in closed
    requires forall v :: v in dist ==> dist[v] <= bound + 1
    ensures ExactDistances(adj, start, dist)
  {
    forall w | IsWalk(adj, w) && w[0] == start && w[|w| - 1] in dist
      ensures dist[w[|w| - 1]] <= |w| - 1
    {
      WalkBound(adj, start, dist, closed, bound, w);
      if |w| > 1 {
        var w' := w[..|w| - 1];
        assert IsWalk(adj, w');
        WalkBound(adj, start, dist, closed, bound, w');
        assert w[|w| - 1] in adj[w'[|w'| - 1]];
      }
    }
  }

  /** One expansion keeps the tree: old entries are unchanged, and every id added
      hangs off `current`, one step further than it. */
  lemma ExpandKeepsTree(adj: seq<set<nat>>, start: nat, current: nat,
                        parent: map<nat, Option<nat>>, dist: map<nat, nat>,
                        parent': map<nat, Option<nat>>, dist': map<nat, nat>, added: seq<nat>)
    requires IsTree(adj, start, parent, dist) && current in dist
    requires parent'.Keys == dist'.Keys
    requires forall v :: v in dist' <==> v in dist || v in added
    requires forall v :: v in dist ==> parent'[v] == parent[v] && dist'[v] == dist[v]
    requires forall v :: v in added ==>
      v !in dist && parent'[v] == Some(current) && dist'[v] == dist[current] + 1 && v in adj[current] && v < |adj|
    ensures IsTree(adj, start, parent', dist')
  {
    forall v | v in parent' && v != start
      ensures parent'[v].Some? && parent'[v].value in dist'
      ensures v in adj[parent'[v].value] && dist'[v] == dist'[parent'[v].value] + 1
    {
      if v in dist {
        assert parent[v].Some? && parent[v].value in dist;
      }
    }
  }

  /** Expanding the head of the queue keeps the visited ids split between the
      expanded ids and the queue. */
  lemma PartitionStep(start: nat, target: nat, order: seq<nat>, queue: seq<nat>, added: seq<nat>,
                      visited: set<nat>, visited': set<nat>, dist: map<nat, nat>, dist': map<nat, nat>)
    requires Partition(start, target, order, queue, visited, dist)
    requires queue != [] && queue[0] != target
    requires visited' == dist'.Keys && visited <= visited' && NoDuplicates(added)
    requires forall v :: v in added <==> v in visited' && v !in visited
    ensures Partition(start, target, order + [queue[0]], queue[1..] + added, visited', dist')
  {
    var q := queue[1..];
    assert queue == [queue[0]] + q;
    NoDuplicatesAppend(order, [queue[0]]);
    NoDuplicatesAppend(q, added);
    forall x | x in q
      ensures x in queue && x != queue[0]
    {
      var j :| 0 <= j < |q| && q[j] == x;
      assert queue[j + 1] == x;
    }
  }

  /** Expanding the head of the queue, which is at `level`, and queueing new ids
      at `level + 1` keeps the two-level shape of the queue. */
  lemma LevelsStep(order: seq<nat>, queue: seq<nat>, added: seq<nat>, dist: map<nat, nat>, dist': map<nat, nat>,
                   level: nat, m: nat)
    requires Levels(order, queue, dist, level, m) && queue != [] && 0 < m
    requires forall v :: v in dist ==> v in dist' && dist'[v] == dist[v]
    requires forall v :: v in dist' ==> v in dist || v in added
    requires forall v :: v in added ==> v in dist' && dist'[v] == level + 1
    ensures Levels(order + [queue[0]], queue[1..] + added, dist', level, m - 1)
  {
    var q := queue[1..] + added;
    forall i | 0 <= i < |q|
      ensures q[i] in dist' && dist'[q[i]] == if i < m - 1 then level else level + 1
    {
      if i < |queue| - 1 {
        assert q[i] == queue[i + 1];
      } else {
        assert q[i] == added[i - (|queue| - 1)] && added[i - (|queue| - 1)] in added;
      }
    }
    assert dist[queue[0]] == level;
  }

  /** Expanding `current`, whose neighbours are now all discovered at most one
      step further, keeps the expanded ids closed. */
  lemma ClosedStep(adj: seq<set<nat>>, order: seq<nat>, current: nat, added: seq<nat>, dist: map<nat, nat>, dist': map<nat, nat>)
    requires Closed(adj, order, dist)
    requires forall v :: v in dist ==> v in dist' && dist'[v] == dist[v]
    requires current in dist && current < |adj|
    requires forall v :: v in dist ==> dist[v] <= dist[current] + 1
    requires forall v :: v in added ==> v in dist' && dist'[v] == dist[current] + 1
    requires forall y :: y in adj[current] ==> y in dist || y in added
    ensures Closed(adj, order + [current], dist')
  {
    forall x, y | x in order + [current] && x < |adj| && y in adj[x]
      ensures y in dist' && x in dist' && dist'[y] <= dist'[x] + 1
    {
      if x != current {
        assert x in order;
      }
    }
  }

  /** Discovering an id shrinks the set of undiscovered ids. */
  lemma Shrinks(all: set<nat>, visited0: set<nat>, visited: set<nat>)
    requires visited0 < visited <= all
    ensures all - visited < all - visited0
  {
    var v :| v in visited && v !in visited0;
    assert v in all - visited0;
  }

  /** The state of the `while queue` loop of `bfs_shortest_path` between
      iterations. The visited ids are split between the expanded ids `order` and
      the queue; the queue holds at most two consecutive distances, its first `m`
      ids at `level` and the rest at `level + 1`; every expanded id is at most at
      `level` and its neighbours have been discovered at most one step further. */
  ghost predicate Frontier(adj: seq<set<nat>>, start: nat, target: nat, order: seq<nat>, queue: seq<nat>,
                           visited: set<nat>, parent: map<nat, Option<nat>>, dist: map<nat, nat>, level: nat, m: nat)
  {
    && IsTree(adj, start, parent, dist)
    && Partition(start, target, order, queue, visited, dist)
    && Levels(order, queue, dist, level, m)
    && Closed(adj, order, dist)
  }

  /** Every visited id is either expanded or queued, never both, and none twice;
      the start is expanded first and the target is not yet expanded. */
  ghost predicate Partition(start: nat, target: nat, order: seq<nat>, queue: seq<nat>, visited: set<nat>, dist: map<nat, nat>)
  {
    && visited == dist.Keys
    && (forall v :: v in visited <==> v in order || v in queue)
    && NoDuplicates(order) && NoDuplicates(queue)
    && (forall x :: x in order ==> x !in queue)
    && (order != [] ==> order[0] == start)
    && (order == [] ==> queue == [start])
    && target !in order
  }

  /** The first `m` queued ids are at `level`, the rest at `level + 1`; expanded
      ids are at most at `level`, discovered ones at most at `level + 1`. */
  ghost predicate Levels(order: seq<nat>, queue: seq<nat>, dist: map<nat, nat>, level: nat, m: nat)
  {
    && m <= |queue|
    && (forall i :: 0 <= i < |queue| ==> queue[i] in dist && dist[queue[i]] == if i < m then level else level + 1)
    && (forall x :: x in order ==> x in dist && dist[x] <= level)
    && (forall v :: v in dist ==> dist[v] <= level + 1)
  }

  /** Every neighbour of an expanded id is discovered, at most one step further. */
  ghost predicate Closed(adj: seq<set<nat>>, order: seq<nat>, dist: map<nat, nat>)
  {
    forall x, y {:trigger y in adj[x], x in order} ::
      x in order && x < |adj| && y in adj[x] ==> y in dist && x in dist && dist[y] <= dist[x] + 1
  }

  /** Ids are expanded in order of distance. */
  ghost predicate Levelled<K>(order: seq<K>, dist: map<K, nat>)
  {
    forall i, j :: 0 <= i <= j < |order| ==> order[i] in dist && order[j] in dist && dist[order[i]] <= dist[order[j]]
  }

  /** Ids are listed in the order of their parents among the `expanded` ids,
      and the children of one parent in `less` order: whenever the parent of a
      later id is `expanded[l]`, the parent of an earlier id is among
      `expanded[..l + 1]`, and when the two parents are the same the earlier id
      comes first by `less`. */
  ghost predicate Ranked<K>(less: (K, K) -> bool, disc: seq<K>, expanded: seq<K>, parent: map<K, Option<K>>)
  {
    forall i, j, l {:trigger disc[i], disc[j], expanded[l]} ::
      && 0 < i < j < |disc| && 0 <= l < |expanded|
      && disc[i] in parent && disc[j] in parent && parent[disc[i]].Some? && parent[disc[j]] == Some(expanded[l])
      ==> parent[disc[i]].value in expanded[..l + 1] && (parent[disc[i]] == parent[disc[j]] ==> less(disc[i], disc[j]))
  }

  /** The parent of every id is the first of the `expanded` ids it neighbours. */
  ghost predicate FirstFound<K>(adjacent: (K, K) -> bool, expanded: seq<K>, parent: map<K, Option<K>>)
  {
    forall v, i :: v in parent && parent[v].Some? && 0 <= i < |expanded| && adjacent(expanded[i], v) ==>
      parent[v].value in expanded[..i + 1]
  }

  /** Each entry of `path` after the first has the entry before it as its
      parent in `tree`. */
  ghost predicate FollowsTree<K>(path: seq<K>, tree: map<K, Option<K>>)
  {
    forall i :: 0 < i < |path| ==> path[i] in tree && tree[path[i]] == Some(path[i - 1])
  }

  /** How many of the visited ids were expanded: all of them, except the target
      when it ends the visit order, since reaching it stops the search before
      its friends are examined. */
  function ExpandedCount<K(==)>(order: seq<K>, target: K): nat
  {
    if order != [] && order[|order| - 1] == target then |order| - 1 else |order|
  }

  /** Every neighbour of the first `m` visited ids has been discovered. */
  ghost predicate Closes<K(!new)>(adjacent: (K, K) -> bool, order: seq<K>, m: nat, dist: map<K, nat>)
  {
    forall i, y :: 0 <= i < m && i < |order| && adjacent(order[i], y) ==> y in dist
  }

  /** Every id discovered but never visited was discovered by one of the first
      `m` visited ids. */
  ghost predicate FromExpanded<K>(order: seq<K>, m: nat, parent: map<K, Option<K>>)
  {
    m <= |order| && forall v :: v in parent && v !in order ==> parent[v].Some? && parent[v].value in order[..m]
  }

  /** Ids discovered but never visited were still queued behind every visited
      id (`QueuedBehind`), for every parent among the first `m` visited ids. */
  ghost predicate QueuedAfter<K>(less: (K, K) -> bool, order: seq<K>, m: nat, parent: map<K, Option<K>>)
  {
    forall v, i, l {:trigger QueuedBehind(less, order, parent, v, i, l)} ::
      v in parent && 0 <= i < |order| && 0 <= l < m ==> QueuedBehind(less, order, parent, v, i, l)
  }

  /** If `v` was never visited and its parent is `order[l]`, the parent of
      `order[i]` is among `order[..l + 1]`, and when the two parents are the
      same `order[i]` comes before `v` by `less`. */
  ghost predicate QueuedBehind<K>(less: (K, K) -> bool, order: seq<K>, parent: map<K, Option<K>>, v: K, i: nat, l: nat)
  {
    && v in parent && v !in order && i < |order| && l < |order|
    && order[i] in parent && parent[order[i]].Some? && parent[v] == Some(order[l])
    ==> parent[order[i]].value in order[..l + 1] && (parent[order[i]] == parent[v] ==> less(order[i], v))
  }

  /** The order facts of the `while queue` loop: the expanded ids come level by
      level; the discovered ids, expanded or queued, were discovered by earlier
      expanded ids, in the order of those and then by name; and each parent is
      the first expanded neighbour. */
  ghost predicate Fair(s: Store, order: seq<nat>, queue: seq<nat>, parent: map<nat, Option<nat>>, dist: map<nat, nat>)
  {
    && Levelled(order, dist)
    && Discovered(order + queue, order, parent)
    && Ranked(IdLess(s), order + queue, order, parent)
    && FirstFound(Adjacent(s.adj), order, parent)
  }

  /** The state before the first iteration: only the start is discovered. */
  lemma FrontierInit(adj: seq<set<nat>>, start: nat, target: nat)
    requires start < |adj| && start != target
    ensures Frontier(adj, start, target, [], [start], {start}, map[start := None], map[start := 0], 0, 1)
  {
  }

  /** Once every id at `level` has been expanded, the queue holds only ids at
      `level + 1`. */
  lemma NextLevel(adj: seq<set<nat>>, start: nat, target: nat, order: seq<nat>, queue: seq<nat>, visited: set<nat>,
                  parent: map<nat, Option<nat>>, dist: map<nat, nat>, level: nat)
    requires Frontier(adj, start, target, order, queue, visited, parent, dist, level, 0)
    ensures Frontier(adj, start, target, order, queue, visited, parent, dist, level + 1, |queue|)
  {
    forall v | v in dist
      ensures dist[v] <= level + 2
    {
    }
  }

  /** Dequeuing the target: no discovered id lies beyond the next level, so the
      distances are exact. */
  lemma FoundTarget(adj: seq<set<nat>>, start: nat, target: nat, order: seq<nat>, queue: seq<nat>, visited: set<nat>,
                    parent: map<nat, Option<nat>>, dist: map<nat, nat>, level: nat, m: nat)
    requires Frontier(adj, start, target, order, queue, visited, parent, dist, level, m)
    requires queue != [] && queue[0] == target
    ensures ExactDistances(adj, start, dist)
    ensures order + [target] != [] && (order + [target])[0] == start && NoDuplicates(order + [target])
    ensures forall x :: x in order + [target] ==> x in dist
  {
    assert start in dist;
    ExactWithin(adj, start, dist, order, level);
    NoDuplicatesAppend(order, [target]);
  }

  /** An empty queue ends the search without the target. */
  lemma Exhausted(s: Store, start: nat, target: nat, order: seq<nat>, visited: set<nat>,
                  parent: map<nat, Option<nat>>, dist: map<nat, nat>, level: nat, m: nat)
    requires Frontier(s.adj, start, target, order, [], visited, parent, dist, level, m)
    requires Fair(s, order, [], parent, dist)
    ensures Searched(s, start, target, order, parent, dist)
  {
    Unreached(s.adj, start, target, order, visited, parent, dist, level, m);
    assert order + [] == order;
    ExhaustedQueued(s, target, order, parent, dist);
  }

  /** An empty queue leaves no id discovered but not visited. */
  lemma ExhaustedQueued(s: Store, target: nat, order: seq<nat>, parent: map<nat, Option<nat>>, dist: map<nat, nat>)
    requires Closed(s.adj, order, dist) && parent.Keys == dist.Keys
    requires (forall x :: x in dist <==> x in order) && target !in order
    ensures LeftQueued(s, target, order, parent, dist)
  {
    assert order[..|order|] == order;
    forall i, y | 0 <= i < |order| && Adjacent(s.adj)(order[i], y)
      ensures y in dist
    {
      assert order[i] in order;
    }
    forall v, i: nat, l: nat | v in parent && i < |order| && l < |order|
      ensures QueuedBehind(IdLess(s), order, parent, v, i, l)
    {
      assert v in dist;
    }
  }

  /** An empty queue leaves every walk from the start inside the expanded ids,
      and the target is not among them. */
  lemma Unreached(adj: seq<set<nat>>, start: nat, target: nat, order: seq<nat>, visited: set<nat>,
                  parent: map<nat, Option<nat>>, dist: map<nat, nat>, level: nat, m: nat)
    requires Frontier(adj, start, target, order, [], visited, parent, dist, level, m)
    ensures ExactDistances(adj, start, dist)
    ensures target !in dist && order != [] && order[0] == start
    ensures forall w :: IsWalk(adj, w) && w[0] == start ==> w[|w| - 1] != target
    ensures forall x :: x in dist <==> x in order
    ensures forall x :: x in order <==> Reaches(adj, start, x)
  {
    forall w | IsWalk(adj, w) && w[0] == start
      ensures w[|w| - 1] in dist && dist[w[|w| - 1]] <= |w| - 1
    {
      WalkBound(adj, start, dist, order, |w|, w);
    }
    forall x | x in order
      ensures Reaches(adj, start, x)
    {
      var w := TreeWalk(adj, start, parent, dist, x);
    }
  }

  /** Dequeuing the target: the search ends with the target last in the visit
      order. */
  lemma Found(s: Store, start: nat, target: nat, order: seq<nat>, queue: seq<nat>, visited: set<nat>,
              parent: map<nat, Option<nat>>, dist: map<nat, nat>, level: nat, m: nat)
    requires Frontier(s.adj, start, target, order, queue, visited, parent, dist, level, m)
    requires Fair(s, order, queue, parent, dist)
    requires queue != [] && queue[0] == target && 0 < m
    ensures Searched(s, start, target, order + [target], parent, dist)
  {
    FoundTarget(s.adj, start, target, order, queue, visited, parent, dist, level, m);
    FairStop(s, start, target, order, queue, visited, parent, dist, level, m);
    assert target in order + [target];
    FoundQueued(s, target, order, queue, parent, dist);
  }

  /** Dequeuing the target: the ids left in the queue behind it were discovered
      by the expanded ids and queued after the visited ones. */
  lemma FoundQueued(s: Store, target: nat, order: seq<nat>, queue: seq<nat>,
                    parent: map<nat, Option<nat>>, dist: map<nat, nat>)
    requires Closed(s.adj, order, dist) && parent.Keys == dist.Keys
    requires forall v :: v in dist <==> v in order || v in queue
    requires queue != [] && queue[0] == target && (order + queue)[0] in parent && parent[(order + queue)[0]] == None
    requires Discovered(order + queue, order, parent) && Ranked(IdLess(s), order + queue, order, parent)
    ensures LeftQueued(s, target, order + [target], parent, dist)
  {
    var fin := order + [target];
    assert ExpandedCount(fin, target) == |order|;
    FoundCloses(s, target, order, dist);
    FoundFromExpanded(order, queue, parent);
    FoundQueuedAfter(s, order, queue, parent);
  }

  /** Every neighbour of an expanded id has been discovered. */
  lemma FoundCloses(s: Store, target: nat, order: seq<nat>, dist: map<nat, nat>)
    requires Closed(s.adj, order, dist)
    ensures Closes(Adjacent(s.adj), order + [target], |order|, dist)
  {
    var fin := order + [target];
    forall i, y | 0 <= i < |order| && i < |fin| && Adjacent(s.adj)(fin[i], y)
      ensures y in dist
    {
      assert fin[i] == order[i] && order[i] in order;
    }
  }

  /** The ids left in the queue were discovered by expanded ids. */
  lemma FoundFromExpanded(order: seq<nat>, queue: seq<nat>, parent: map<nat, Option<nat>>)
    requires queue != [] && (order + queue)[0] in parent && parent[(order + queue)[0]] == None
    requires forall v :: v in parent <==> v in order || v in queue
    requires Discovered(order + queue, order, parent)
    ensures FromExpanded(order + [queue[0]], |order|, parent)
  {
    var fin, disc := order + [queue[0]], order + queue;
    ParentsExpanded(disc[0], order, queue, parent);
    assert fin[..|order|] == order;
    forall v | v in parent && v !in fin
      ensures parent[v].Some? && parent[v].value in fin[..|order|]
    {
      assert v in queue;
      var t :| 0 <= t < |queue| && queue[t] == v;
      assert disc[|order| + t] == v;
    }
  }

  /** The ids left in the queue were queued behind every visited id. */
  lemma FoundQueuedAfter(s: Store, order: seq<nat>, queue: seq<nat>, parent: map<nat, Option<nat>>)
    requires queue != [] && (order + queue)[0] in parent && parent[(order + queue)[0]] == None
    requires forall v :: v in parent <==> v in order || v in queue
    requires Ranked(IdLess(s), order + queue, order, parent)
    ensures QueuedAfter(IdLess(s), order + [queue[0]], |order|, parent)
  {
    var fin := order + [queue[0]];
    forall v, i: nat, l: nat | v in parent && i < |fin| && l < |order|
      ensures QueuedBehind(IdLess(s), fin, parent, v, i, l)
    {
      QueuedBehindTarget(s, order, queue, parent, v, i, l);
    }
  }

  /** One case of `FoundQueued`. */
  lemma QueuedBehindTarget(s: Store, order: seq<nat>, queue: seq<nat>, parent: map<nat, Option<nat>>, v: nat, i: nat, l: nat)
    requires queue != [] && order + queue != [] && (order + queue)[0] in parent && parent[(order + queue)[0]] == None
    requires forall v :: v in parent <==> v in order || v in queue
    requires Ranked(IdLess(s), order + queue, order, parent)
    requires i <= |order| && l < |order|
    ensures QueuedBehind(IdLess(s), order + [queue[0]], parent, v, i, l)
  {
    var fin, disc := order + [queue[0]], order + queue;
    if v in parent && v !in fin && fin[i] in parent && parent[fin[i]].Some? && parent[v] == Some(fin[l]) {
      assert v in queue;
      var t :| 0 <= t < |queue| && queue[t] == v;
      assert t != 0;
      assert disc[|order| + t] == v && disc[i] == fin[i] && fin[l] == order[l];
      assert i != 0;
      assert fin[..l + 1] == order[..l + 1];
    }
  }

  /** What the search on ids promises: the parents and distances form a tree
      from the start with exact distances (`Reached`), the visit order goes
      breadth first (`VisitsInOrder`) and the ids left discovered but not
      visited were queued behind it (`LeftQueued`). */
  ghost predicate Searched(s: Store, start: nat, target: nat, order: seq<nat>, parent: map<nat, Option<nat>>, dist: map<nat, nat>)
  {
    && IsTree(s.adj, start, parent, dist)
    && Reached(s.adj, start, target, order, dist)
    && VisitsInOrder(s, order, parent, dist)
    && LeftQueued(s, target, order, parent, dist)
  }

  /** The visit order starts at the start and has no repeats; the target is
      discovered exactly when it is visited, and is then last. Otherwise no
      walk reaches it, and the visit order holds exactly the discovered ids,
      which are those reachable from the start. */
  ghost predicate Reached(adj: seq<set<nat>>, start: nat, target: nat, order: seq<nat>, dist: map<nat, nat>)
  {
    && order != [] && order[0] == start && NoDuplicates(order)
    && (forall x :: x in order ==> x in dist)
    && (target in dist <==> target in order)
    && (target in order ==> order[|order| - 1] == target)
    && ExactDistances(adj, start, dist)
    && (target !in dist ==> forall w :: IsWalk(adj, w) && w[0] == start ==> w[|w| - 1] != target)
    && (target !in dist ==> forall x :: x in dist <==> x in order)
    && (target !in dist ==> forall x :: x in order <==> Reaches(adj, start, x))
  }

  /** Ids are visited level by level; each after the start was discovered from
      an earlier one, its first visited neighbour, and the visit order follows
      the order of the parents, ties broken by name. */
  ghost predicate VisitsInOrder(s: Store, order: seq<nat>, parent: map<nat, Option<nat>>, dist: map<nat, nat>)
  {
    && Levelled(order, dist)
    && Discovered(order, order, parent)
    && Ranked(IdLess(s), order, order, parent)
    && FirstFound(Adjacent(s.adj), order, parent)
  }

  /** Every neighbour of an expanded id is discovered; the ids discovered but
      not visited were discovered by expanded ids and queued behind the visited
      ones. */
  ghost predicate LeftQueued(s: Store, target: nat, order: seq<nat>, parent: map<nat, Option<nat>>, dist: map<nat, nat>)
  {
    && Closes(Adjacent(s.adj), order, ExpandedCount(order, target), dist)
    && QueuedAfter(IdLess(s), order, ExpandedCount(order, target), parent)
    && FromExpanded(order, ExpandedCount(order, target), parent)
  }

  /** Appending to a list keeps what its first `n` entries hold. */
  lemma InPrefix<T>(a: seq<T>, b: seq<T>, x: T, n: nat)
    requires n <= |a| && x in a[..n]
    ensures x in (a + b)[..n]
  {
    assert (a + b)[..n] == a[..n];
  }

  lemma SamePrefix<T>(a: seq<T>, b: seq<T>, c: seq<T>, x: T, n: nat)
    requires n <= |a| && x in (a + b)[..n]
    ensures x in (a + c)[..n]
  {
    assert (a + b)[..n] == a[..n] == (a + c)[..n];
  }

  /** The start has no parent, so the parent of every discovered id is an
      expanded id. */
  lemma ParentsExpanded(start: nat, order: seq<nat>, queue: seq<nat>, parent: map<nat, Option<nat>>)
    requires order + queue != [] && (order + queue)[0] == start && start in parent && parent[start] == None
    requires forall v :: v in parent <==> v in order || v in queue
    requires Discovered(order + queue, order, parent)
    ensures forall v :: v in order + queue ==> v in parent
    ensures forall v :: v in parent && parent[v].Some? ==> parent[v].value in order
  {
    var disc := order + queue;
    forall v | v in parent && parent[v].Some?
      ensures parent[v].value in order
    {
      assert v in disc;
      var i :| 0 <= i < |disc| && disc[i] == v;
      assert i != 0;
    }
  }

  /** Expanding `current` appends it to a list still in distance order. */
  lemma LevelledStep(order: seq<nat>, current: nat, dist: map<nat, nat>, dist': map<nat, nat>)
    requires Levelled(order, dist) && current in dist
    requires forall x :: x in order ==> x in dist && dist[x] <= dist[current]
    requires forall v :: v in dist ==> v in dist' && dist'[v] == dist[v]
    ensures Levelled(order + [current], dist')
  {
    var order' := order + [current];
    forall i, j | 0 <= i <= j < |order'|
      ensures order'[i] in dist' && order'[j] in dist' && dist'[order'[i]] <= dist'[order'[j]]
    {
      if j < |order| {
        assert order'[i] == order[i] && order'[j] == order[j];
      } else {
        assert order'[i] in order || order'[i] == current;
      }
    }
  }

  /** The ids discovered from `current` hang off it. */
  lemma DiscoveredStep(order: seq<nat>, queue: seq<nat>, added: seq<nat>,
                       parent: map<nat, Option<nat>>, parent': map<nat, Option<nat>>)
    requires Discovered(order + queue, order, parent) && queue != []
    requires forall v :: v in order + queue ==> v in parent
    requires forall v :: v in parent ==> v in parent' && parent'[v] == parent[v]
    requires forall v :: v in added ==> v in parent' && parent'[v] == Some(queue[0])
    ensures Discovered(order + queue + added, order + [queue[0]], parent')
  {
    var disc, disc' := order + queue, order + queue + added;
    forall i | 0 < i < |disc'|
      ensures disc'[i] in parent' && parent'[disc'[i]].Some?
      ensures parent'[disc'[i]].value in disc'[..i] && parent'[disc'[i]].value in order + [queue[0]]
    {
      if i < |disc| {
        assert disc'[i] == disc[i];
        InPrefix(disc, added, parent[disc[i]].value, i);
      } else {
        assert disc'[i] in added;
        assert disc'[|order|] == queue[0];
      }
    }
  }

  /** The ids discovered from `current` come after every earlier discovery,
      since `current` is expanded after the parents of those, and among
      themselves in name order. */
  lemma RankedStep(s: Store, order: seq<nat>, queue: seq<nat>, added: seq<nat>,
                   parent: map<nat, Option<nat>>, parent': map<nat, Option<nat>>)
    requires Ranked(IdLess(s), order + queue, order, parent) && Discovered(order + queue, order, parent)
    requires queue != [] && queue[0] !in order && NoDuplicates(order)
    requires forall v :: v in order + queue ==> v in parent
    requires forall v :: v in parent ==> v in parent' && parent'[v] == parent[v]
    requires forall v :: v in added ==> v !in parent && v in parent' && parent'[v] == Some(queue[0])
    requires SortedBy(IdLess(s), added)
    ensures Ranked(IdLess(s), order + queue + added, order + [queue[0]], parent')
  {
    var disc, disc', exp' := order + queue, order + queue + added, order + [queue[0]];
    forall i, j, l | 0 < i < j < |disc'| && 0 <= l < |exp'|
      && disc'[i] in parent' && disc'[j] in parent' && parent'[disc'[i]].Some? && parent'[disc'[j]] == Some(exp'[l])
      ensures parent'[disc'[i]].value in exp'[..l + 1]
      ensures parent'[disc'[i]] == parent'[disc'[j]] ==> IdLess(s)(disc'[i], disc'[j])
    {
      if j < |disc| {
        RankedEarlier(s, order, queue, added, parent, parent', i, j, l);
      } else {
        RankedAdded(s, order, queue, added, parent, parent', i, j, l);
      }
    }
  }

  /** `RankedStep` for two ids discovered before `current` was expanded. */
  lemma RankedEarlier(s: Store, order: seq<nat>, queue: seq<nat>, added: seq<nat>,
                      parent: map<nat, Option<nat>>, parent': map<nat, Option<nat>>, i: nat, j: nat, l: nat)
    requires Ranked(IdLess(s), order + queue, order, parent) && Discovered(order + queue, order, parent)
    requires queue != [] && queue[0] !in order
    requires forall v :: v in parent ==> v in parent' && parent'[v] == parent[v]
    requires 0 < i < j < |order + queue| && l < |order| + 1
    requires parent'[(order + queue + added)[j]] == Some((order + [queue[0]])[l])
    ensures (order + queue + added)[i] in parent' && parent'[(order + queue + added)[i]].Some?
    ensures parent'[(order + queue + added)[i]].value in (order + [queue[0]])[..l + 1]
    ensures parent'[(order + queue + added)[i]] == parent'[(order + queue + added)[j]] ==>
      IdLess(s)((order + queue + added)[i], (order + queue + added)[j])
  {
    var disc, disc', exp' := order + queue, order + queue + added, order + [queue[0]];
    assert disc'[i] == disc[i] && disc'[j] == disc[j];
    assert parent[disc[j]].value in order;
    assert exp'[l] in order && exp'[|order|] == queue[0];
    assert exp'[l] == order[l];
    InPrefix(order, [queue[0]], parent[disc[i]].value, l + 1);
  }

  /** `RankedStep` for an id discovered from `current` and any earlier one. */
  lemma RankedAdded(s: Store, order: seq<nat>, queue: seq<nat>, added: seq<nat>,
                    parent: map<nat, Option<nat>>, parent': map<nat, Option<nat>>, i: nat, j: nat, l: nat)
    requires Discovered(order + queue, order, parent)
    requires queue != [] && queue[0] !in order && NoDuplicates(order)
    requires forall v :: v in parent ==> v in parent' && parent'[v] == parent[v]
    requires forall v :: v in added ==> v !in parent && v in parent' && parent'[v] == Some(queue[0])
    requires SortedBy(IdLess(s), added)
    requires 0 < i < j < |order + queue + added| && |order + queue| <= j && l < |order| + 1
    requires parent'[(order + queue + added)[j]] == Some((order + [queue[0]])[l])
    ensures (order + queue + added)[i] in parent' && parent'[(order + queue + added)[i]].Some?
    ensures parent'[(order + queue + added)[i]].value in (order + [queue[0]])[..l + 1]
    ensures parent'[(order + queue + added)[i]] == parent'[(order + queue + added)[j]] ==>
      IdLess(s)((order + queue + added)[i], (order + queue + added)[j])
  {
    var disc, disc', exp' := order + queue, order + queue + added, order + [queue[0]];
    var current := queue[0];
    assert disc'[j] == added[j - |disc|] && disc'[j] in added;
    assert exp'[l] == current && exp'[|order|] == current && current !in order;
    assert exp'[..l + 1] == exp';
    if i < |disc| {
      assert disc'[i] == disc[i];
      assert parent[disc[i]].value in order;
    } else {
      assert disc'[i] == added[i - |disc|];
    }
  }

  /** An id discovered from `current` neighbours no id expanded before it,
      which had all their neighbours discovered already. */
  lemma FirstFoundStep(adj: seq<set<nat>>, order: seq<nat>, current: nat, added: seq<nat>,
                       parent: map<nat, Option<nat>>, parent': map<nat, Option<nat>>, dist: map<nat, nat>)
    requires FirstFound(Adjacent(adj), order, parent) && Closed(adj, order, dist) && parent.Keys == dist.Keys
    requires forall v :: v in parent && parent[v].Some? ==> parent[v].value in order
    requires forall v :: v in parent ==> v in parent' && parent'[v] == parent[v]
    requires forall v :: v in parent' ==> v in parent || v in added
    requires forall v :: v in added ==> v !in parent && v in parent' && parent'[v] == Some(current)
    ensures FirstFound(Adjacent(adj), order + [current], parent')
  {
    var exp' := order + [current];
    forall v, i | v in parent' && parent'[v].Some? && 0 <= i < |exp'| && Adjacent(adj)(exp'[i], v)
      ensures parent'[v].value in exp'[..i + 1]
    {
      if i < |order| {
        assert exp'[i] == order[i];
        assert order[i] in order && v in adj[order[i]];
        assert v in parent;
        InPrefix(order, [current], parent'[v].value, i + 1);
      } else {
        assert exp'[..i + 1] == exp';
      }
    }
  }

  /** Dequeuing the target ends the visit order with it: the order facts carry
      over to that list. */
  lemma FairStop(s: Store, start: nat, target: nat, order: seq<nat>, queue: seq<nat>, visited: set<nat>,
                 parent: map<nat, Option<nat>>, dist: map<nat, nat>, level: nat, m: nat)
    requires Frontier(s.adj, start, target, order, queue, visited, parent, dist, level, m)
    requires Fair(s, order, queue, parent, dist)
    requires queue != [] && queue[0] == target && 0 < m
    ensures Levelled(order + [target], dist)
    ensures Discovered(order + [target], order + [target], parent)
    ensures Ranked(IdLess(s), order + [target], order + [target], parent)
    ensures FirstFound(Adjacent(s.adj), order + [target], parent)
  {
    assert (order + queue)[0] == start;
    ParentsExpanded(start, order, queue, parent);
    assert dist[queue[0]] == level;
    LevelledStep(order, target, dist, dist);
    StopDiscovered(order, queue, parent);
    StopRanked(s, order, queue, parent);
    FirstFoundStep(s.adj, order, target, [], parent, parent, dist);
  }

  /** The visit order ending at the head of the queue is a prefix of the
      discovered ids. */
  lemma StopDiscovered(order: seq<nat>, queue: seq<nat>, parent: map<nat, Option<nat>>)
    requires Discovered(order + queue, order, parent) && queue != []
    ensures Discovered(order + [queue[0]], order + [queue[0]], parent)
  {
    var disc, fin := order + queue, order + [queue[0]];
    forall i | 0 < i < |fin|
      ensures fin[i] in parent && parent[fin[i]].Some?
      ensures parent[fin[i]].value in fin[..i] && parent[fin[i]].value in fin
    {
      assert fin[i] == disc[i];
      SamePrefix(order, queue, [queue[0]], parent[fin[i]].value, i);
    }
  }

  /** No discovered id has the head of the queue as its parent, so the ranking
      carries over to the visit order ending at it. */
  lemma StopRanked(s: Store, order: seq<nat>, queue: seq<nat>, parent: map<nat, Option<nat>>)
    requires Ranked(IdLess(s), order + queue, order, parent) && queue != [] && queue[0] !in order
    requires forall v :: v in parent && parent[v].Some? ==> parent[v].value in order
    ensures Ranked(IdLess(s), order + [queue[0]], order + [queue[0]], parent)
  {
    var disc, fin := order + queue, order + [queue[0]];
    forall i, j, l | 0 < i < j < |fin| && 0 <= l < |fin|
      && fin[i] in parent && fin[j] in parent && parent[fin[i]].Some? && parent[fin[j]] == Some(fin[l])
      ensures parent[fin[i]].value in fin[..l + 1]
      ensures parent[fin[i]] == parent[fin[j]] ==> IdLess(s)(fin[i], fin[j])
    {
      assert fin[i] == disc[i] && fin[j] == disc[j];
      assert fin[l] in order && fin[|order|] == queue[0];
      assert fin[l] == order[l];
      InPrefix(order, [queue[0]], parent[fin[i]].value, l + 1);
    }
  }

  /** `bfs_shortest_path` on ids: the `while queue` loop, stopping once the target
      has been dequeued. */
  method Search(s: Store, start: nat, target: nat) returns (order: seq<nat>, parent: map<nat, Option<nat>>, dist: map<nat, nat>)
    requires Searchable(s) && start < |s.adj| && target < |s.adj| && start != target
    ensures Searched(s, start, target, order, parent, dist)
  {
    var queue := [start];
    var visited := {start};
    parent := map[start := None];
    dist := map[start := 0];
    order := [];
    ghost var adj := s.adj;
    ghost var all := Ids(|adj|);
    ghost var level: nat := 0;
    ghost var m: nat := 1;
    FrontierInit(adj, start, target);

    while queue != []
      invariant Frontier(adj, start, target, order, queue, visited, parent, dist, level, m)
      invariant Fair(s, order, queue, parent, dist)
      invariant visited <= all
      decreases all - visited, |queue|
    {
      if m == 0 {
        NextLevel(adj, start, target, order, queue, visited, parent, dist, level);
        level, m := level + 1, |queue|;
      }
      var current := queue[0];
      if current == target {
        Found(s, start, target, order, queue, visited, parent, dist, level, m);
        order := order + [current];
        return;
      }
      ghost var visited0 := visited;
      order, queue, visited, parent, dist := Visit(s, start, target, order, queue, visited, parent, dist, level, m);
      m := m - 1;
      if visited != visited0 {
        Shrinks(all, visited0, visited);
      }
    }
    Exhausted(s, start, target, order, visited, parent, dist, level, m);
  }

  /** One iteration of the `while queue` loop that does not reach the target:
      dequeue, record the visit, and expand the neighbours in name order. */
  method Visit(s: Store, start: nat, target: nat, order: seq<nat>, queue: seq<nat>, visited: set<nat>,
               parent: map<nat, Option<nat>>, dist: map<nat, nat>, ghost level: nat, ghost m: nat)
    returns (order': seq<nat>, queue': seq<nat>, visited': set<nat>, parent': map<nat, Option<nat>>, dist': map<nat, nat>)
    requires Searchable(s) && start < |s.adj|
    requires Frontier(s.adj, start, target, order, queue, visited, parent, dist, level, m)
    requires Fair(s, order, queue, parent, dist)
    requires queue != [] && 0 < m && queue[0] != target
    ensures Frontier(s.adj, start, target, order', queue', visited', parent', dist', level, m - 1)
    ensures Fair(s, order', queue', parent', dist')
    ensures visited <= visited' && (visited' == visited ==> |queue'| < |queue|)
  {
    ghost var adj := s.adj;
    var current := queue[0];
    var rest := queue[1..];
    order' := order + [current];
    var neighbors := NeighborsByName(s, current);
    ghost var added;
    visited', parent', dist', queue', added := Expand(s.adj, current, neighbors, visited, parent, dist, rest);
    ExpandKeepsTree(adj, start, current, parent, dist, parent', dist', added);
    PartitionStep(start, target, order, queue, added, visited, visited', dist, dist');
    assert dist[current] == level;
    LevelsStep(order, queue, added, dist, dist', level, m);
    ClosedStep(adj, order, current, added, dist, dist');
    if added != [] {
      assert added[0] in added && added[0] !in visited;
    }
    UnvisitedSorted(IdLess(s), neighbors, visited);
    FairStep(s, start, target, order, queue, visited, parent, dist, level, m, added, parent', dist');
  }

  lemma Regroup(order: seq<nat>, queue: seq<nat>, added: seq<nat>)
    requires queue != []
    ensures (order + [queue[0]]) + (queue[1..] + added) == order + queue + added
  {
    assert queue == [queue[0]] + queue[1..];
  }

  /** Expanding the head of the queue keeps the order facts. */
  lemma FairStep(s: Store, start: nat, target: nat, order: seq<nat>, queue: seq<nat>, visited: set<nat>,
                 parent: map<nat, Option<nat>>, dist: map<nat, nat>, level: nat, m: nat,
                 added: seq<nat>, parent': map<nat, Option<nat>>, dist': map<nat, nat>)
    requires Frontier(s.adj, start, target, order, queue, visited, parent, dist, level, m)
    requires Fair(s, order, queue, parent, dist)
    requires queue != [] && 0 < m
    requires parent'.Keys == dist'.Keys && SortedBy(IdLess(s), added)
    requires forall v :: v in dist' <==> v in dist || v in added
    requires forall v :: v in dist ==> parent'[v] == parent[v] && dist'[v] == dist[v]
    requires forall v :: v in added ==> v !in dist && parent'[v] == Some(queue[0])
    ensures Fair(s, order + [queue[0]], queue[1..] + added, parent', dist')
  {
    Regroup(order, queue, added);
    assert (order + queue)[0] == start;
    ParentsExpanded(start, order, queue, parent);
    assert dist[queue[0]] == level;
    LevelledStep(order, queue[0], dist, dist');
    DiscoveredStep(order, queue, added, parent, parent');
    RankedStep(s, order, queue, added, parent, parent');
    FirstFoundStep(s.adj, order, queue[0], added, parent, parent', dist);
  }

  /** The `for neighbor in neighbors` loop of `bfs_shortest_path`: every
      undiscovered neighbour of `current` is discovered one step further than
      `current`, with `current` as its parent, and queued. */
  method Expand(adj: seq<set<nat>>, current: nat, neighbors: seq<nat>,
                visited: set<nat>, parent: map<nat, Option<nat>>, dist: map<nat, nat>, queue: seq<nat>)
    returns (visited': set<nat>, parent': map<nat, Option<nat>>, dist': map<nat, nat>, queue': seq<nat>, ghost added: seq<nat>)
    requires Bounded(adj) && current < |adj|
    requires visited == dist.Keys && parent.Keys == dist.Keys && current in dist
    requires NoDuplicates(neighbors) && forall y :: y in neighbors <==> y in adj[current]
    ensures visited' == dist'.Keys && parent'.Keys == dist'.Keys && visited <= visited'
    ensures added == Unvisited(neighbors, visited)
    ensures queue' == queue + added && NoDuplicates(added)
    ensures forall v :: v in added <==> v in visited' && v !in visited
    ensures forall v :: v in dist ==> parent'[v] == parent[v] && dist'[v] == dist[v]
    ensures forall v :: v in added ==>
      v !in dist && parent'[v] == Some(current) && dist'[v] == dist[current] + 1 && v in adj[current] && v < |adj|
    ensures forall y :: y in adj[current] ==> y in dist || y in added
  {
    visited', parent', dist', queue', added := visited, parent, dist, queue, [];
    for k := 0 to |neighbors|
      invariant Expanding(adj, current, neighbors, k, visited, parent, dist, queue, visited', parent', dist', queue', added)
    {
      var neighbor := neighbors[k];
      if neighbor !in visited' {
        ExpandAdd(adj, current, neighbors, k, visited, parent, dist, queue, visited', parent', dist', queue', added);
        visited' := visited' + {neighbor};
        parent' := parent'[neighbor := Some(current)];
        dist' := dist'[neighbor := dist'[current] + 1];
        queue' := queue' + [neighbor];
        added := added + [neighbor];
      } else {
        ExpandSkip(adj, current, neighbors, k, visited, parent, dist, queue, visited', parent', dist', queue', added);
      }
    }
    ExpandDone(adj, current, neighbors, visited, parent, dist, queue, visited', parent', dist', queue', added);
  }

  /** The state of the `for neighbor in neighbors` loop after `k` neighbours:
      the neighbours discovered so far, in order, are the first `k` not visited
      before the loop; each was given `current` as parent and the next distance,
      and was queued; nothing recorded before the loop has changed. */
  ghost predicate Expanding(adj: seq<set<nat>>, current: nat, neighbors: seq<nat>, k: nat,
                            visited: set<nat>, parent: map<nat, Option<nat>>, dist: map<nat, nat>, queue: seq<nat>,
                            visited': set<nat>, parent': map<nat, Option<nat>>, dist': map<nat, nat>, queue': seq<nat>,
                            added: seq<nat>)
  {
    && k <= |neighbors| && current in dist && parent.Keys == dist.Keys
    && visited' == dist'.Keys && parent'.Keys == dist'.Keys
    && (forall v :: v in visited' <==> v in visited || v in added)
    && added == Unvisited(neighbors[..k], visited) && NoDuplicates(added)
    && queue' == queue + added
    && (forall v :: v in dist ==> v in dist' && parent'[v] == parent[v] && dist'[v] == dist[v])
    && (forall v :: v in added ==> parent'[v] == Some(current) && dist'[v] == dist[current] + 1)
  }

  /** Discovering the next neighbour, not yet visited. */
  lemma ExpandAdd(adj: seq<set<nat>>, current: nat, neighbors: seq<nat>, k: nat,
                  visited: set<nat>, parent: map<nat, Option<nat>>, dist: map<nat, nat>, queue: seq<nat>,
                  visited': set<nat>, parent': map<nat, Option<nat>>, dist': map<nat, nat>, queue': seq<nat>,
                  added: seq<nat>)
    requires visited == dist.Keys && NoDuplicates(neighbors)
    requires Expanding(adj, current, neighbors, k, visited, parent, dist, queue, visited', parent', dist', queue', added)
    requires k < |neighbors| && neighbors[k] !in visited'
    ensures Expanding(adj, current, neighbors, k + 1, visited, parent, dist, queue,
                      visited' + {neighbors[k]}, parent'[neighbors[k] := Some(current)],
                      dist'[neighbors[k] := dist'[current] + 1], queue' + [neighbors[k]], added + [neighbors[k]])
  {
    var n := neighbors[k];
    UnvisitedStep(neighbors, k, visited);
    assert n !in added;
    NoDuplicatesAppend(added, [n]);
  }

  /** Passing over a neighbour already visited. */
  lemma ExpandSkip(adj: seq<set<nat>>, current: nat, neighbors: seq<nat>, k: nat,
                   visited: set<nat>, parent: map<nat, Option<nat>>, dist: map<nat, nat>, queue: seq<nat>,
                   visited': set<nat>, parent': map<nat, Option<nat>>, dist': map<nat, nat>, queue': seq<nat>,
                   added: seq<nat>)
    requires NoDuplicates(neighbors)
    requires Expanding(adj, current, neighbors, k, visited, parent, dist, queue, visited', parent', dist', queue', added)
    requires k < |neighbors| && neighbors[k] in visited'
    ensures Expanding(adj, current, neighbors, k + 1, visited, parent, dist, queue, visited', parent', dist', queue', added)
  {
    var n := neighbors[k];
    UnvisitedStep(neighbors, k, visited);
    assert n !in neighbors[..k] by {
      forall j | 0 <= j < k
        ensures neighbors[..k][j] != n
      {
      }
    }
    assert n !in added;
  }

  /** After the last neighbour, the promises of `Expand`. */
  lemma ExpandDone(adj: seq<set<nat>>, current: nat, neighbors: seq<nat>,
                   visited: set<nat>, parent: map<nat, Option<nat>>, dist: map<nat, nat>, queue: seq<nat>,
                   visited': set<nat>, parent': map<nat, Option<nat>>, dist': map<nat, nat>, queue': seq<nat>,
                   added: seq<nat>)
    requires Bounded(adj) && current < |adj| && visited == dist.Keys
    requires forall y :: y in neighbors <==> y in adj[current]
    requires Expanding(adj, current, neighbors, |neighbors|, visited, parent, dist, queue, visited', parent', dist', queue', added)
    ensures visited <= visited' && added == Unvisited(neighbors, visited)
    ensures forall v :: v in added <==> v in visited' && v !in visited
    ensures forall v :: v in added ==> v !in dist && v in adj[current] && v < |adj|
    ensures forall y :: y in adj[current] ==> y in dist || y in added
  {
    assert neighbors[..|neighbors|] == neighbors;
  }

  /** `_reconstruct_path`: follow the parent pointers back from the target, then
      reverse and turn ids into names. */
  method ReconstructPath(s: Store, start: nat, parent: map<nat, Option<nat>>, dist: map<nat, nat>, target: nat)
    returns (path: seq<string>)
    requires s.Valid() && IsTree(s.adj, start, parent, dist)
    ensures target !in parent ==> path == []
    ensures target in parent ==> IsPath(s, path, s.users[start], s.users[target]) && |path| == dist[target] + 1
    ensures forall x :: x in parent && parent[x].Some? ==> parent[x].value < |s.users|
    ensures target in parent ==> FollowsTree(path, NamedParents(s, parent))
  {
    ValidSearchable(s);
    if target !in parent {
      return [];
    }
    var walk := ParentChain(s.adj, start, parent, dist, target);
    WalkIsPath(s, walk);
    path := NamesOf(s, walk);
    NamedFollows(s, start, parent, dist, walk);
  }

  /** The exploration tree keyed by name. */
  function NamedParents(s: Store, parent: map<nat, Option<nat>>): (tree: map<string, Option<string>>)
    requires s.Valid() && forall x :: x in parent && parent[x].Some? ==> parent[x].value < |s.users|
    ensures forall name :: name in tree <==> name in s.ids && s.ids[name] in parent
    ensures forall name :: name in tree ==> tree[name] == NameOf(s, parent[s.ids[name]])
  {
    map name | name in s.ids && s.ids[name] in parent :: NameOf(s, parent[s.ids[name]])
  }

  /** A walk that follows the tree on ids follows it in names. */
  lemma NamedFollows(s: Store, start: nat, parent: map<nat, Option<nat>>, dist: map<nat, nat>, walk: seq<nat>)
    requires s.Valid() && IsTree(s.adj, start, parent, dist)
    requires forall i :: 0 <= i < |walk| ==> walk[i] < |s.users|
    requires FollowsTree(walk, parent)
    ensures forall x :: x in parent && parent[x].Some? ==> parent[x].value < |s.users|
    ensures FollowsTree(NamesOf(s, walk), NamedParents(s, parent))
  {
    ValidSearchable(s);
    var path, tree := NamesOf(s, walk), NamedParents(s, parent);
    forall i | 0 < i < |path|
      ensures path[i] in tree && tree[path[i]] == Some(path[i - 1])
    {
      assert s.ids[path[i]] == walk[i] && s.ids[path[i - 1]] == walk[i - 1];
    }
  }

  /** The ids of `_reconstruct_path`: the parent chain from the target back to
      the start, reversed, is a walk from the start with one step per unit of
      distance. */
  method ParentChain(adj: seq<set<nat>>, start: nat, parent: map<nat, Option<nat>>, dist: map<nat, nat>, target: nat)
    returns (walk: seq<nat>)
    requires IsTree(adj, start, parent, dist) && target in parent
    ensures IsWalk(adj, walk) && walk[0] == start && walk[|walk| - 1] == target
    ensures |walk| == dist[target] + 1 && FollowsTree(walk, parent)
  {
    var chain := ChainBack(adj, start, parent, dist, target);
    walk := Reverse(chain);
    ChainReversed(adj, start, parent, dist, chain);
  }

  /** The `while current is not None` loop of `_reconstruct_path`: the parent
      chain from the target back to the start, one id per unit of distance. */
  method ChainBack(adj: seq<set<nat>>, start: nat, parent: map<nat, Option<nat>>, dist: map<nat, nat>, target: nat)
    returns (chain: seq<nat>)
    requires IsTree(adj, start, parent, dist) && target in parent
    ensures |chain| == dist[target] + 1 && chain[0] == target && chain[|chain| - 1] == start
    ensures forall i :: 0 <= i < |chain| ==> chain[i] in dist
    ensures forall i :: 0 <= i < |chain| - 1 ==> chain[i] in parent && parent[chain[i]] == Some(chain[i + 1])
  {
    chain := [];
    var cur: Option<nat> := Some(target);
    while cur != None
      invariant ChainSoFar(start, parent, dist, target, chain, cur)
      decreases if cur.Some? then dist[cur.value] + 1 else 0
    {
      var v := cur.value;
      ChainStep(adj, start, parent, dist, target, chain, v);
      chain := chain + [v];
      cur := parent[v];
    }
  }

  /** The loop invariant of `ChainBack`: `chain` holds the ids from the target
      back to the one whose parent is `cur`, one level apart, and ends at the
      start once `cur` is `None`. */
  ghost predicate ChainSoFar(start: nat, parent: map<nat, Option<nat>>, dist: map<nat, nat>, target: nat,
                             chain: seq<nat>, cur: Option<nat>)
  {
    && (forall i :: 0 <= i < |chain| ==> chain[i] in dist)
    && (forall i :: 0 <= i < |chain| - 1 ==> chain[i] in parent && parent[chain[i]] == Some(chain[i + 1]))
    && (chain == [] ==> cur == Some(target))
    && (chain != [] ==> chain[0] == target && chain[|chain| - 1] in parent && parent[chain[|chain| - 1]] == cur)
    && (cur.Some? ==> cur.value in dist && target in dist && |chain| + dist[cur.value] == dist[target])
    && (cur.None? ==> target in dist && |chain| == dist[target] + 1 && chain[|chain| - 1] == start)
  }

  /** One turn of the loop of `ChainBack` keeps its invariant. */
  lemma ChainStep(adj: seq<set<nat>>, start: nat, parent: map<nat, Option<nat>>, dist: map<nat, nat>, target: nat,
                  chain: seq<nat>, v: nat)
    requires IsTree(adj, start, parent, dist)
    requires ChainSoFar(start, parent, dist, target, chain, Some(v))
    ensures v in parent
    ensures ChainSoFar(start, parent, dist, target, chain + [v], parent[v])
    ensures parent[v].Some? ==> dist[parent[v].value] < dist[v]
  {
    var chain' := chain + [v];
    assert forall i :: 0 <= i < |chain| ==> chain'[i] == chain[i];
  }

  /** A chain of parents read backwards is a walk that follows the tree. */
  lemma ChainReversed(adj: seq<set<nat>>, start: nat, parent: map<nat, Option<nat>>, dist: map<nat, nat>, chain: seq<nat>)
    requires IsTree(adj, start, parent, dist)
    requires chain != [] && forall i :: 0 <= i < |chain| ==> chain[i] in dist
    requires forall i :: 0 <= i < |chain| - 1 ==> chain[i] in parent && parent[chain[i]] == Some(chain[i + 1])
    ensures IsWalk(adj, Reverse(chain)) && FollowsTree(Reverse(chain), parent)
  {
    var walk := Reverse(chain);
    forall i | 0 <= i < |walk| - 1
      ensures walk[i + 1] in adj[walk[i]]
    {
      ChainEdge(adj, start, parent, dist, chain, |chain| - 2 - i);
    }
    ReversedFollows(parent, chain);
  }

  /** Each link of a chain of parents is an edge, from the parent to the
      child. */
  lemma ChainEdge(adj: seq<set<nat>>, start: nat, parent: map<nat, Option<nat>>, dist: map<nat, nat>, chain: seq<nat>, j: nat)
    requires IsTree(adj, start, parent, dist)
    requires j + 1 < |chain| && chain[j] in parent && parent[chain[j]] == Some(chain[j + 1])
    ensures chain[j + 1] < |adj| && chain[j] in adj[chain[j + 1]]
  {
    assert chain[j] != start;
  }

  /** A chain of parents read backwards follows the tree. */
  lemma ReversedFollows(parent: map<nat, Option<nat>>, chain: seq<nat>)
    requires forall i :: 0 <= i < |chain| - 1 ==> chain[i] in parent && parent[chain[i]] == Some(chain[i + 1])
    ensures FollowsTree(Reverse(chain), parent)
  {
    var walk := Reverse(chain);
    forall i | 0 < i < |walk|
      ensures walk[i] in parent && parent[walk[i]] == Some(walk[i - 1])
    {
      var j := |chain| - 1 - i;
      assert walk[i] == chain[j] && walk[i - 1] == chain[j + 1];
    }
  }

  /** `bfs_shortest_path(graph, start_user, target_user)`. */
  method BfsShortestPath(s: Store, startUser: string, targetUser: string) returns (res: BfsResult)
    requires s.Valid()
    ensures startUser !in s.ids || targetUser !in s.ids ==> res == BfsResult([], [], map[], map[], false)
    ensures startUser in s.ids && startUser == targetUser ==>
      res == BfsResult([startUser], [startUser], map[startUser := 0], map[startUser := None], true)
    ensures startUser in s.ids && targetUser in s.ids ==> Answered(s, startUser, targetUser, res)
    ensures startUser in s.ids && targetUser in s.ids ==> Complete(s, startUser, res)
    ensures startUser in s.ids && targetUser in s.ids ==> LeftInQueue(s, targetUser, res)
    ensures BreadthFirst(s, res)
  {
    if startUser !in s.ids || targetUser !in s.ids {
      res := BfsResult([], [], map[], map[], false);
      NothingFound(s, res);
      return;
    }
    if startUser == targetUser {
      res := BfsResult([startUser], [startUser], map[startUser := 0], map[startUser := None], true);
      FoundAtStart(s, startUser, res);
      return;
    }

    res := SearchByName(s, startUser, targetUser);
  }

  /** The empty result of an unknown user lists nothing, so its order facts
      hold vacuously. */
  lemma NothingFound(s: Store, res: BfsResult)
    requires res == BfsResult([], [], map[], map[], false)
    ensures BreadthFirst(s, res)
  {
  }

  /** A search from a user to itself answers with that user alone. */
  lemma FoundAtStart(s: Store, user: string, res: BfsResult)
    requires s.Valid() && user in s.ids
    requires res == BfsResult([user], [user], map[user := 0], map[user := None], true)
    ensures Answered(s, user, user, res) && Complete(s, user, res) && BreadthFirst(s, res)
    ensures LeftInQueue(s, user, res)
  {
    assert IsPath(s, res.path, user, user);
  }

  /** The search proper of `bfs_shortest_path`, for two distinct users: run the
      search on ids, rebuild the path, and translate the results to names. */
  method SearchByName(s: Store, startUser: string, targetUser: string) returns (res: BfsResult)
    requires s.Valid() && startUser in s.ids && targetUser in s.ids && startUser != targetUser
    ensures Answered(s, startUser, targetUser, res)
    ensures BreadthFirst(s, res) && Complete(s, startUser, res) && LeftInQueue(s, targetUser, res)
  {
    var startId := s.ids[startUser];
    var targetId := s.ids[targetUser];
    ValidSearchable(s);
    var order, parent, dist := Search(s, startId, targetId);
    var path := ReconstructPath(s, startId, parent, dist, targetId);
    NamedSearch(s, startUser, targetUser, order, parent, dist, path);
    res := Named(s, order, parent, dist, path);
    NamedOrderFacts(s, order, parent, dist, res);
    NamedLeftQueued(s, targetUser, order, parent, dist, res);
  }

  /** What the search promises about the path, the tree and the visit order,
      in names, for two distinct known users. `reachable` holds exactly when
      the path is non-empty and exactly when a path of friends leads from the
      start to the target; the path is then a shortest one, its length minus
      one is the target's distance, and the target ends the visit order.
      Distances and tree form a BFS tree and the visit order starts at the
      start. */
  ghost predicate Answered(s: Store, startUser: string, targetUser: string, res: BfsResult)
  {
    && (res.reachable <==> res.path != [])
    && (res.reachable <==> Reachable(s, startUser, targetUser))
    && (res.reachable ==> IsPath(s, res.path, startUser, targetUser))
    && (res.reachable ==> forall p :: IsPath(s, p, startUser, targetUser) ==> |res.path| <= |p|)
    && (res.reachable ==> targetUser in res.distances && res.distances[targetUser] == |res.path| - 1)
    && IsNamedBfsTree(s, startUser, res.distances, res.explorationTree)
    && IsVisitOrder(res.visitedOrder, startUser, res.distances)
    && (res.reachable ==> res.visitedOrder[|res.visitedOrder| - 1] == targetUser)
    && (res.reachable ==> FollowsTree(res.path, res.explorationTree))
  }

  /** The search on ids, read through names, answers the query and, when the
      target is not reached, lists what it reached. */
  lemma NamedSearch(s: Store, startUser: string, targetUser: string, order: seq<nat>,
                    parent: map<nat, Option<nat>>, dist: map<nat, nat>, path: seq<string>)
    requires s.Valid() && startUser in s.ids && targetUser in s.ids
    requires IsTree(s.adj, s.ids[startUser], parent, dist) && ExactDistances(s.adj, s.ids[startUser], dist)
    requires order != [] && order[0] == s.ids[startUser] && NoDuplicates(order)
    requires forall x :: x in order ==> x in dist
    requires s.ids[targetUser] in dist ==> order[|order| - 1] == s.ids[targetUser]
    requires s.ids[targetUser] !in dist ==> forall w :: IsWalk(s.adj, w) && w[0] == s.ids[startUser] ==> w[|w| - 1] != s.ids[targetUser]
    requires s.ids[targetUser] !in dist ==> forall x :: x in dist <==> x in order
    requires s.ids[targetUser] !in dist ==> forall x :: x in order <==> Reaches(s.adj, s.ids[startUser], x)
    requires s.ids[targetUser] !in parent ==> path == []
    requires s.ids[targetUser] in parent ==>
      IsPath(s, path, s.users[s.ids[startUser]], s.users[s.ids[targetUser]]) && |path| == dist[s.ids[targetUser]] + 1
    requires forall x :: x in parent && parent[x].Some? ==> parent[x].value < |s.users|
    requires s.ids[targetUser] in parent ==> FollowsTree(path, NamedParents(s, parent))
    ensures forall i :: 0 <= i < |order| ==> order[i] < |s.users|
    ensures Answered(s, startUser, targetUser, Named(s, order, parent, dist, path))
    ensures Complete(s, startUser, Named(s, order, parent, dist, path))
    ensures var res := Named(s, order, parent, dist, path);
      Renamed(s, order, parent, dist, res.visitedOrder, res.distances, res.explorationTree)
  {
    ValidSearchable(s);
    assert forall i :: 0 <= i < |order| ==> order[i] in order;
    var res := Named(s, order, parent, dist, path);
    NamedRenamed(s, order, parent, dist, path, res);
    NamedPath(s, startUser, targetUser, order, parent, dist, path, res);
    assert res.reachable ==> FollowsTree(res.path, res.explorationTree);
    NamedComplete(s, startUser, s.ids[targetUser], order, parent, dist, res);
  }

  /** The order facts of the search on ids, read through names. */
  lemma NamedOrderFacts(s: Store, order: seq<nat>, parent: map<nat, Option<nat>>, dist: map<nat, nat>, res: BfsResult)
    requires s.Valid() && Renamed(s, order, parent, dist, res.visitedOrder, res.distances, res.explorationTree)
    requires Levelled(order, dist) && Discovered(order, order, parent)
    requires Ranked(IdLess(s), order, order, parent) && FirstFound(Adjacent(s.adj), order, parent)
    ensures BreadthFirst(s, res)
  {
    var names, distNamed, treeNamed := res.visitedOrder, res.distances, res.explorationTree;
    NamedLevelled(s, order, parent, dist, names, distNamed, treeNamed);
    NamedDiscovered(s, order, parent, names, treeNamed);
    NamedRanked(s, order, parent, dist, names, distNamed, treeNamed);
    NamedFirstFound(s, order, parent, dist, names, distNamed, treeNamed);
  }

  /** `Named` relates names to ids as `Renamed` says. */
  lemma NamedRenamed(s: Store, order: seq<nat>, parent: map<nat, Option<nat>>, dist: map<nat, nat>,
                     path: seq<string>, res: BfsResult)
    requires s.Valid() && (forall v :: v in dist ==> v < |s.users|) && parent.Keys == dist.Keys
    requires forall i :: 0 <= i < |order| ==> order[i] in dist
    requires forall x :: x in parent && parent[x].Some? ==> parent[x].value in dist
    requires forall i :: 0 <= i < |order| ==> order[i] < |s.users|
    requires forall x :: x in parent && parent[x].Some? ==> parent[x].value < |s.users|
    requires res == Named(s, order, parent, dist, path)
    ensures Renamed(s, order, parent, dist, res.visitedOrder, res.distances, res.explorationTree)
    ensures res.path == path && (res.reachable <==> path != [])
  {
  }

  /** The path, the tree and the visit order of the search, read through names. */
  lemma NamedPath(s: Store, startUser: string, targetUser: string, order: seq<nat>,
                  parent: map<nat, Option<nat>>, dist: map<nat, nat>, path: seq<string>, res: BfsResult)
    requires s.Valid() && startUser in s.ids && targetUser in s.ids
    requires IsTree(s.adj, s.ids[startUser], parent, dist) && ExactDistances(s.adj, s.ids[startUser], dist)
    requires order != [] && order[0] == s.ids[startUser] && NoDuplicates(order)
    requires forall x :: x in order ==> x in dist
    requires s.ids[targetUser] in dist ==> order[|order| - 1] == s.ids[targetUser]
    requires s.ids[targetUser] !in dist ==>
      path == [] && forall w :: IsWalk(s.adj, w) && w[0] == s.ids[startUser] ==> w[|w| - 1] != s.ids[targetUser]
    requires s.ids[targetUser] in dist ==>
      IsPath(s, path, s.users[s.ids[startUser]], s.users[s.ids[targetUser]]) && |path| == dist[s.ids[targetUser]] + 1
    requires Renamed(s, order, parent, dist, res.visitedOrder, res.distances, res.explorationTree)
    requires res.path == path && (res.reachable <==> path != [])
    ensures res.reachable <==> s.ids[targetUser] in dist
    ensures res.reachable <==> Reachable(s, startUser, targetUser)
    ensures res.reachable ==> IsPath(s, res.path, startUser, targetUser)
    ensures res.reachable ==> forall p :: IsPath(s, p, startUser, targetUser) ==> |res.path| <= |p|
    ensures res.reachable ==> targetUser in res.distances && res.distances[targetUser] == |res.path| - 1
    ensures IsNamedBfsTree(s, startUser, res.distances, res.explorationTree)
    ensures IsVisitOrder(res.visitedOrder, startUser, res.distances)
    ensures res.reachable ==> res.visitedOrder[|res.visitedOrder| - 1] == targetUser
  {
    var startId, targetId := s.ids[startUser], s.ids[targetUser];
    assert s.users[startId] == startUser && s.users[targetId] == targetUser;
    NamedResult(s, startUser, startId, parent, dist, res.distances, res.explorationTree);
    NamedOrder(s, startUser, order, dist, res.visitedOrder, res.distances);
    NamedReach(s, startUser, targetUser, order, dist, path, res.visitedOrder, res.distances);
  }

  /** The result of the search, in names: the visit order, the distances and the
      exploration tree keyed by name. */
  function Named(s: Store, order: seq<nat>, parent: map<nat, Option<nat>>, dist: map<nat, nat>, path: seq<string>): (r: BfsResult)
    requires s.Valid()
    requires forall i :: 0 <= i < |order| ==> order[i] < |s.users|
    requires forall x :: x in parent && parent[x].Some? ==> parent[x].value < |s.users|
    ensures r.path == path && (r.reachable <==> path != [])
    ensures |r.visitedOrder| == |order| && forall i :: 0 <= i < |order| ==> r.visitedOrder[i] == s.users[order[i]]
    ensures forall name :: name in r.distances <==> name in s.ids && s.ids[name] in dist
    ensures forall name :: name in r.distances ==> r.distances[name] == dist[s.ids[name]]
    ensures forall name :: name in r.explorationTree <==> name in s.ids && s.ids[name] in parent
    ensures forall name :: name in r.explorationTree ==> r.explorationTree[name] == NameOf(s, parent[s.ids[name]])
  {
    BfsResult(
      path,
      NamesOf(s, order),
      map name | name in s.ids && s.ids[name] in dist :: dist[s.ids[name]],
      NamedParents(s, parent),
      |path| > 0)
  }

  /** The path, its length and the last visited name: reachable exactly when a
      path exists, and then the path found is a shortest one. */
  lemma NamedReach(s: Store, startUser: string, targetUser: string, order: seq<nat>,
                   dist: map<nat, nat>, path: seq<string>, names: seq<string>, distNamed: map<string, nat>)
    requires s.Valid() && startUser in s.ids && targetUser in s.ids
    requires ExactDistances(s.adj, s.ids[startUser], dist)
    requires s.ids[targetUser] in dist ==> order != [] && order[|order| - 1] == s.ids[targetUser]
    requires s.ids[targetUser] !in dist ==>
      path == [] && forall w :: IsWalk(s.adj, w) && w[0] == s.ids[startUser] ==> w[|w| - 1] != s.ids[targetUser]
    requires s.ids[targetUser] in dist ==>
      IsPath(s, path, startUser, targetUser) && |path| == dist[s.ids[targetUser]] + 1
    requires forall i :: 0 <= i < |order| ==> order[i] < |s.users|
    requires |names| == |order| && forall i :: 0 <= i < |order| ==> names[i] == s.users[order[i]]
    requires forall name :: name in distNamed <==> name in s.ids && s.ids[name] in dist
    requires forall name :: name in distNamed ==> distNamed[name] == dist[s.ids[name]]
    ensures path != [] <==> Reachable(s, startUser, targetUser)
    ensures path != [] ==> IsPath(s, path, startUser, targetUser)
    ensures path != [] ==> forall p :: IsPath(s, p, startUser, targetUser) ==> |path| <= |p|
    ensures path != [] ==> targetUser in distNamed && distNamed[targetUser] == |path| - 1
    ensures path != [] ==> names != [] && names[|names| - 1] == targetUser
  {
    var targetId := s.ids[targetUser];
    if targetId !in dist {
      ReachableIffWalk(s, startUser, targetUser);
    } else {
      assert names[|order| - 1] == s.users[targetId] == targetUser;
      Shortest(s, startUser, targetUser, dist, |path| - 1);
    }
  }

  /** Exact distances bound every path of names from below. */
  lemma Shortest(s: Store, startUser: string, targetUser: string, dist: map<nat, nat>, d: nat)
    requires s.Valid() && startUser in s.ids && targetUser in s.ids
    requires ExactDistances(s.adj, s.ids[startUser], dist)
    requires s.ids[targetUser] in dist && dist[s.ids[targetUser]] == d
    ensures forall p :: IsPath(s, p, startUser, targetUser) ==> d + 1 <= |p|
  {
    forall p | IsPath(s, p, startUser, targetUser)
      ensures d + 1 <= |p|
    {
      PathIsWalk(s, p, startUser, targetUser);
    }
  }

  /** The named distances and tree carry over the facts of the id-level tree. */
  lemma NamedResult(s: Store, startUser: string, startId: nat, parent: map<nat, Option<nat>>, dist: map<nat, nat>,
                    distNamed: map<string, nat>, treeNamed: map<string, Option<string>>)
    requires s.Valid() && startUser in s.ids && startId == s.ids[startUser]
    requires IsTree(s.adj, startId, parent, dist) && ExactDistances(s.adj, startId, dist)
    requires forall name :: name in distNamed <==> name in s.ids && s.ids[name] in dist
    requires forall name :: name in distNamed ==> distNamed[name] == dist[s.ids[name]]
    requires forall name :: name in treeNamed <==> name in s.ids && s.ids[name] in parent
    requires forall name :: name in treeNamed ==> treeNamed[name] == NameOf(s, parent[s.ids[name]])
    ensures IsNamedBfsTree(s, startUser, distNamed, treeNamed)
  {
    NamedTree(s, startUser, startId, parent, dist, distNamed, treeNamed);
    forall v, p | v in distNamed && IsPath(s, p, startUser, v)
      ensures distNamed[v] <= |p| - 1
    {
      PathIsWalk(s, p, startUser, v);
      assert IsWalk(s.adj, IdsOf(s, p));
    }
  }

  /** The named visit order keeps the shape of the id-level one. */
  lemma NamedOrder(s: Store, startUser: string, order: seq<nat>, dist: map<nat, nat>,
                   names: seq<string>, distNamed: map<string, nat>)
    requires s.Valid() && startUser in s.ids
    requires order != [] && order[0] == s.ids[startUser] && NoDuplicates(order)
    requires forall i :: 0 <= i < |order| ==> order[i] in dist && order[i] < |s.users|
    requires |names| == |order| && forall i :: 0 <= i < |order| ==> names[i] == s.users[order[i]]
    requires forall name :: name in distNamed <==> name in s.ids && s.ids[name] in dist
    ensures IsVisitOrder(names, startUser, distNamed)
  {
    forall i, j | 0 <= i < j < |names|
      ensures names[i] != names[j]
    {
      NamesDistinct(s, order[i], order[j]);
    }
    forall x | x in names
      ensures x in distNamed
    {
      var i :| 0 <= i < |names| && names[i] == x;
      assert s.ids[x] == order[i];
    }
  }
  /** The names of the ids in `order`, with the names of their parents and
      distances: the relation `Named` sets up. */
  ghost predicate Renamed(s: Store, order: seq<nat>, parent: map<nat, Option<nat>>, dist: map<nat, nat>,
                          names: seq<string>, distNamed: map<string, nat>, treeNamed: map<string, Option<string>>)
    requires s.Valid()
  {
    && (forall i :: 0 <= i < |order| ==> order[i] < |s.users|)
    && (forall x :: x in parent ==> x < |s.users| && (parent[x].Some? ==> parent[x].value < |s.users|))
    && |names| == |order| && (forall i :: 0 <= i < |order| ==> names[i] == s.users[order[i]])
    && (forall name :: name in distNamed <==> name in s.ids && s.ids[name] in dist)
    && (forall name :: name in distNamed ==> distNamed[name] == dist[s.ids[name]])
    && (forall name :: name in treeNamed <==> name in s.ids && s.ids[name] in parent)
    && (forall name :: name in treeNamed ==> treeNamed[name] == NameOf(s, parent[s.ids[name]]))
  }

  /** Visiting level by level survives renaming. */
  lemma NamedLevelled(s: Store, order: seq<nat>, parent: map<nat, Option<nat>>, dist: map<nat, nat>,
                      names: seq<string>, distNamed: map<string, nat>, treeNamed: map<string, Option<string>>)
    requires s.Valid() && Renamed(s, order, parent, dist, names, distNamed, treeNamed)
    requires Levelled(order, dist)
    ensures Levelled(names, distNamed)
  {
    forall i | 0 <= i < |names|
      ensures names[i] in distNamed && distNamed[names[i]] == dist[order[i]]
    {
      assert s.ids[names[i]] == order[i];
    }
  }

  /** The ranking by parent and name survives renaming, since names are
      unique. */
  lemma NamedRanked(s: Store, order: seq<nat>, parent: map<nat, Option<nat>>, dist: map<nat, nat>,
                    names: seq<string>, distNamed: map<string, nat>, treeNamed: map<string, Option<string>>)
    requires s.Valid() && Renamed(s, order, parent, dist, names, distNamed, treeNamed)
    requires Ranked(IdLess(s), order, order, parent)
    ensures Ranked(LexLess, names, names, treeNamed)
  {
    forall i, j, l | 0 < i < j < |names| && 0 <= l < |names|
      && names[i] in treeNamed && names[j] in treeNamed && treeNamed[names[i]].Some? && treeNamed[names[j]] == Some(names[l])
      ensures treeNamed[names[i]].value in names[..l + 1]
      ensures treeNamed[names[i]] == treeNamed[names[j]] ==> LexLess(names[i], names[j])
    {
      assert s.ids[names[i]] == order[i] && s.ids[names[j]] == order[j];
      var pi, pj := parent[order[i]].value, parent[order[j]].value;
      assert s.ids[s.users[pj]] == pj && s.ids[s.users[order[l]]] == order[l];
      assert parent[order[j]] == Some(order[l]);
      var k :| 0 <= k < l + 1 && order[..l + 1][k] == pi;
      assert names[..l + 1][k] == names[k] == s.users[pi];
      if treeNamed[names[i]] == treeNamed[names[j]] {
        assert s.ids[s.users[pi]] == pi;
        assert IdLess(s)(order[i], order[j]);
      }
    }
  }

  /** Parents being the first visited neighbour survives renaming. */
  lemma NamedFirstFound(s: Store, order: seq<nat>, parent: map<nat, Option<nat>>, dist: map<nat, nat>,
                        names: seq<string>, distNamed: map<string, nat>, treeNamed: map<string, Option<string>>)
    requires s.Valid() && Renamed(s, order, parent, dist, names, distNamed, treeNamed)
    requires FirstFound(Adjacent(s.adj), order, parent)
    ensures FirstFound(FriendOf(s), names, treeNamed)
  {
    forall v, i | v in treeNamed && treeNamed[v].Some? && 0 <= i < |names| && FriendOf(s)(names[i], v)
      ensures treeNamed[v].value in names[..i + 1]
    {
      var n := s.ids[v];
      assert s.ids[names[i]] == order[i];
      assert Adjacent(s.adj)(order[i], n);
      var p := parent[n].value;
      var k :| 0 <= k < i + 1 && order[..i + 1][k] == p;
      assert names[..i + 1][k] == names[k] == s.users[p];
    }
  }

  /** An unreached target leaves the visit order, in names, holding exactly the
      discovered users and the users reachable from the start. */
  lemma NamedComplete(s: Store, startUser: string, target: nat, order: seq<nat>, parent: map<nat, Option<nat>>,
                      dist: map<nat, nat>, res: BfsResult)
    requires s.Valid() && startUser in s.ids
    requires Renamed(s, order, parent, dist, res.visitedOrder, res.distances, res.explorationTree)
    requires res.reachable <==> target in dist
    requires order != [] && order[0] == s.ids[startUser] && NoDuplicates(order)
    requires target !in dist ==> forall x :: x in dist <==> x in order
    requires target !in dist ==> forall x :: x in order <==> Reaches(s.adj, s.ids[startUser], x)
    ensures Complete(s, startUser, res)
  {
    var names, distNamed := res.visitedOrder, res.distances;
    if target !in dist {
      NamedReachable(s, startUser, order, names);
      forall x | x in distNamed
        ensures x in names
      {
        var i :| 0 <= i < |order| && order[i] == s.ids[x];
        assert names[i] == x;
      }
      forall x | x in names
        ensures x in distNamed
      {
        var i :| 0 <= i < |names| && names[i] == x;
        assert s.ids[x] == order[i];
      }
    }
  }

  /** The ids left in the queue, read through names. */
  lemma NamedLeftQueued(s: Store, targetUser: string, order: seq<nat>, parent: map<nat, Option<nat>>,
                        dist: map<nat, nat>, res: BfsResult)
    requires s.Valid() && targetUser in s.ids
    requires Renamed(s, order, parent, dist, res.visitedOrder, res.distances, res.explorationTree)
    requires LeftQueued(s, s.ids[targetUser], order, parent, dist)
    ensures LeftInQueue(s, targetUser, res)
  {
    var names, distNamed, treeNamed := res.visitedOrder, res.distances, res.explorationTree;
    var m := ExpandedCount(order, s.ids[targetUser]);
    if order != [] {
      assert s.ids[names[|order| - 1]] == order[|order| - 1];
    }
    assert ExpandedCount(names, targetUser) == m;
    forall i, y | 0 <= i < m && i < |names| && FriendOf(s)(names[i], y)
      ensures y in distNamed
    {
      assert s.ids[names[i]] == order[i];
      assert Adjacent(s.adj)(order[i], s.ids[y]);
    }
    forall v | v in treeNamed && v !in names
      ensures treeNamed[v].Some? && treeNamed[v].value in names[..m]
    {
      NamedFromExpanded(s, m, order, parent, dist, names, distNamed, treeNamed, v);
    }
    forall v, i: nat, l: nat | v in treeNamed && i < |names| && l < m
      ensures QueuedBehind(LexLess, names, treeNamed, v, i, l)
    {
      NamedQueuedBehind(s, m, order, parent, dist, names, distNamed, treeNamed, v, i, l);
    }
  }

  /** One user of `NamedLeftQueued` discovered but never visited. */
  lemma NamedFromExpanded(s: Store, m: nat, order: seq<nat>, parent: map<nat, Option<nat>>, dist: map<nat, nat>,
                          names: seq<string>, distNamed: map<string, nat>, treeNamed: map<string, Option<string>>, v: string)
    requires s.Valid() && Renamed(s, order, parent, dist, names, distNamed, treeNamed)
    requires FromExpanded(order, m, parent) && v in treeNamed && v !in names
    ensures treeNamed[v].Some? && treeNamed[v].value in names[..m]
  {
    var x := s.ids[v];
    var k :| 0 <= k < m && order[..m][k] == parent[x].value;
    assert names[..m][k] == s.users[parent[x].value];
  }

  /** One instance of `QueuedBehind` for `NamedLeftQueued`. */
  lemma NamedQueuedBehind(s: Store, m: nat, order: seq<nat>, parent: map<nat, Option<nat>>, dist: map<nat, nat>,
                          names: seq<string>, distNamed: map<string, nat>, treeNamed: map<string, Option<string>>,
                          v: string, i: nat, l: nat)
    requires s.Valid() && Renamed(s, order, parent, dist, names, distNamed, treeNamed)
    requires QueuedAfter(IdLess(s), order, m, parent) && v in treeNamed && i < |names| && l < m
    ensures QueuedBehind(LexLess, names, treeNamed, v, i, l)
  {
    if v !in names && l < |names| && names[i] in treeNamed && treeNamed[names[i]].Some? && treeNamed[v] == Some(names[l]) {
      var x := s.ids[v];
      assert s.ids[names[i]] == order[i] && s.ids[names[l]] == order[l];
      assert s.ids[s.users[parent[x].value]] == parent[x].value;
      assert parent[x] == Some(order[l]);
      assert QueuedBehind(IdLess(s), order, parent, x, i, l);
      var p := parent[order[i]].value;
      var k :| 0 <= k < l + 1 && order[..l + 1][k] == p;
      assert names[..l + 1][k] == names[k] == s.users[p];
      if treeNamed[names[i]] == treeNamed[v] {
        assert s.ids[s.users[p]] == p;
        assert IdLess(s)(order[i], x);
      }
    }
  }
}
