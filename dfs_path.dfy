/**
 * The path finder `dfs_shortest_path` of social_graph/dfs.py over a snapshot of
 * the graph store: a backtracking depth-first search that extends one path at a
 * time, records a copy of every path that reaches the target, undoes each step
 * on the way back, and reports the first shortest recorded path in names.
 */
module DfsPath {
  import opened Order
  import opened SocialGraph
  import opened Reach

  /** `DFSPathResult`. */
  datatype DfsPathResult = DfsPathResult(path: seq<string>, visitedOrder: seq<string>, distances: map<string, nat>)

  /** The variables of `dfs_shortest_path` that its inner `dfs` updates:
      `visited`, the current `path` and `all_paths`. */
  datatype Trail = Trail(visited: set<nat>, path: seq<nat>, found: seq<seq<nat>>)

  /** A walk without repeats from `start` to `target`. */
  ghost predicate Simple(adj: seq<set<nat>>, start: nat, target: nat, w: seq<nat>)
  {
    IsWalk(adj, w) && NoDuplicates(w) && w[0] == start && w[|w| - 1] == target
  }

  /** Every recorded path is a walk without repeats from `start` to `target`. */
  ghost predicate Sound(adj: seq<set<nat>>, start: nat, target: nat, found: seq<seq<nat>>)
  {
    forall q :: q in found ==> Simple(adj, start, target, q)
  }

  /** Every walk without repeats from `start` to `target` that begins with
      `prefix` has been recorded. */
  ghost predicate Covers(adj: seq<set<nat>>, start: nat, target: nat, prefix: seq<nat>, found: seq<seq<nat>>)
  {
    forall w :: Simple(adj, start, target, w) && prefix <= w ==> w in found
  }

  /** What a call `dfs(u)` may assume: the current path is a walk without
      repeats from the start, its ids are exactly the visited ones, and `u` is
      an unvisited neighbour of its last id, or the start on an empty path. */
  ghost predicate CallOk(adj: seq<set<nat>>, start: nat, t: Trail, u: nat)
  {
    && u < |adj| && u !in t.visited
    && (forall x :: x in t.visited <==> x in t.path)
    && NoDuplicates(t.path)
    && (t.path == [] ==> u == start)
    && (t.path != [] ==> IsWalk(adj, t.path) && t.path[0] == start && u in adj[t.path[|t.path| - 1]])
  }

  /** The inner `dfs(u)` of `dfs_shortest_path`: it records `path + [u]` when
      `u` is the target and otherwise recurses into every unvisited neighbour,
      in the order of the neighbour set; on return `visited` and `path` are as
      they were, nothing recorded was dropped, and every walk without repeats to
      the target through `path + [u]` has been recorded. */
  method Visit(s: Store, start: nat, target: nat, u: nat, t: Trail) returns (t': Trail)
    requires Searchable(s) && CallOk(s.adj, start, t, u) && Sound(s.adj, start, target, t.found)
    ensures t'.visited == t.visited && t'.path == t.path
    ensures t.found <= t'.found && Sound(s.adj, start, target, t'.found)
    ensures Covers(s.adj, start, target, t.path + [u], t'.found)
    decreases Ids(|s.adj|) - t.visited
  {
    var cur := Trail(t.visited + {u}, t.path + [u], t.found);
    Entered(s.adj, start, t, u);
    if u == target {
      cur := Trail(cur.visited, cur.path, cur.found + [cur.path]);
      AtTarget(s.adj, start, target, cur.path, t.found);
    } else {
      var neighbors := ListOf(s.adj[u]);
      var i := 0;
      while i < |neighbors|
        invariant i <= |neighbors|
        invariant cur.visited == t.visited + {u} && cur.path == t.path + [u]
        invariant t.found <= cur.found && Sound(s.adj, start, target, cur.found)
        invariant forall j :: 0 <= j < i ==> Covers(s.adj, start, target, cur.path + [neighbors[j]], cur.found)
      {
        var v := neighbors[i];
        if v !in cur.visited {
          Descend(s.adj, start, t, u, cur, v);
          var next := Visit(s, start, target, v, cur);
          Grown(s.adj, start, target, cur.path, neighbors, i, cur.found, next.found);
          cur := next;
        } else {
          Revisit(s.adj, start, target, cur.path, v, cur.found);
        }
        i := i + 1;
      }
      Branches(s.adj, start, target, cur.path, neighbors, cur.found);
    }
    AddRemove(t.visited, u);
    assert cur.path[..|cur.path| - 1] == t.path;
    t' := Trail(cur.visited - {u}, cur.path[..|cur.path| - 1], cur.found);
  }

  /** Entering `u` extends the path to a walk without repeats from the start. */
  lemma Entered(adj: seq<set<nat>>, start: nat, t: Trail, u: nat)
    requires CallOk(adj, start, t, u)
    ensures Simple(adj, start, u, t.path + [u])
  {
    var p := t.path + [u];
    forall i, j | 0 <= i < j < |p|
      ensures p[i] != p[j]
    {
      if j == |t.path| {
        assert p[i] in t.path;
      }
    }
  }

  /** The visited ids of the call on `u` are those of the longer path, and a
      neighbour outside them may be called. */
  lemma Descend(adj: seq<set<nat>>, start: nat, t: Trail, u: nat, cur: Trail, v: nat)
    requires Bounded(adj) && CallOk(adj, start, t, u) && Simple(adj, start, u, t.path + [u])
    requires cur.visited == t.visited + {u} && cur.path == t.path + [u]
    requires v in adj[u] && v !in cur.visited
    ensures CallOk(adj, start, cur, v)
    ensures Ids(|adj|) - cur.visited < Ids(|adj|) - t.visited
  {
    assert u in Ids(|adj|) - t.visited;
  }

  lemma AddRemove(a: set<nat>, u: nat)
    requires u !in a
    ensures (a + {u}) - {u} == a
  {
  }

  /** At the target, the only walk without repeats through `path` is `path`
      itself, and it has just been recorded. */
  lemma AtTarget(adj: seq<set<nat>>, start: nat, target: nat, path: seq<nat>, found: seq<seq<nat>>)
    requires Simple(adj, start, target, path) && Sound(adj, start, target, found)
    ensures Sound(adj, start, target, found + [path])
    ensures Covers(adj, start, target, path, found + [path])
  {
    forall w | Simple(adj, start, target, w) && path <= w
      ensures w in found + [path]
    {
      if |w| > |path| {
        assert false;
      }
      assert w == path;
    }
  }

  /** Recording more keeps what was covered. */
  lemma Grown(adj: seq<set<nat>>, start: nat, target: nat, path: seq<nat>, neighbors: seq<nat>, i: nat,
              found: seq<seq<nat>>, found': seq<seq<nat>>)
    requires i < |neighbors| && found <= found'
    requires forall j :: 0 <= j < i ==> Covers(adj, start, target, path + [neighbors[j]], found)
    ensures forall j :: 0 <= j < i ==> Covers(adj, start, target, path + [neighbors[j]], found')
  {
    forall j, w | 0 <= j < i && Simple(adj, start, target, w) && path + [neighbors[j]] <= w
      ensures w in found'
    {
      var k :| 0 <= k < |found| && found[k] == w;
      assert found'[k] == w;
    }
  }

  /** A walk through a path that returns to one of its ids has a repeat. */
  lemma Revisit(adj: seq<set<nat>>, start: nat, target: nat, path: seq<nat>, v: nat, found: seq<seq<nat>>)
    requires v in path
    ensures Covers(adj, start, target, path + [v], found)
  {
    forall w | path + [v] <= w
      ensures !NoDuplicates(w)
    {
      var k :| 0 <= k < |path| && path[k] == v;
      assert w[k] == w[|path|];
    }
  }

  /** Short of the target, a walk without repeats through `path` goes on to a
      neighbour of its last id; covering every neighbour covers `path`. */
  lemma Branches(adj: seq<set<nat>>, start: nat, target: nat, path: seq<nat>, neighbors: seq<nat>, found: seq<seq<nat>>)
    requires path != [] && path[|path| - 1] != target && path[|path| - 1] < |adj|
    requires forall y :: y in neighbors <==> y in adj[path[|path| - 1]]
    requires forall j :: 0 <= j < |neighbors| ==> Covers(adj, start, target, path + [neighbors[j]], found)
    ensures Covers(adj, start, target, path, found)
  {
    forall w | Simple(adj, start, target, w) && path <= w
      ensures w in found
    {
      assert |w| > |path| by {
        assert w[|path| - 1] == path[|path| - 1];
      }
      var v := w[|path|];
      assert w[|path| - 1] == path[|path| - 1];
      assert v in neighbors;
      var j :| 0 <= j < |neighbors| && neighbors[j] == v;
      assert path + [v] <= w;
    }
  }

  /** `min(all_paths, key=len)`: the index of the first shortest recorded path. */
  function ShortestIndex(paths: seq<seq<nat>>): (k: nat)
    requires paths != []
    ensures k < |paths|
    ensures forall j :: 0 <= j < |paths| ==> |paths[k]| <= |paths[j]|
    ensures forall j :: 0 <= j < k ==> |paths[k]| < |paths[j]|
  {
    if |paths| == 1 then 0
    else
      var k := ShortestIndex(paths[..|paths| - 1]);
      assert forall j :: 0 <= j < |paths| - 1 ==> paths[..|paths| - 1][j] == paths[j];
      if |paths[|paths| - 1]| < |paths[k]| then |paths| - 1 else k
  }

  /** `dfs_shortest_path(graph, start_user, target_user)`: an empty result for
      an unknown endpoint or when no path exists; otherwise a shortest path, as
      both `path` and `visited_order`, with no distances. */
  method DfsShortestPath(s: Store, startUser: string, targetUser: string) returns (res: DfsPathResult)
    requires s.Valid()
    ensures startUser !in s.ids || targetUser !in s.ids ==> res == DfsPathResult([], [], map[])
    ensures res.visitedOrder == res.path && res.distances == map[]
    ensures startUser in s.ids && targetUser in s.ids ==> (res.path != [] <==> Reachable(s, startUser, targetUser))
    ensures res.path != [] ==> IsSimplePath(s, res.path, startUser, targetUser)
    ensures res.path != [] ==> forall p :: IsPath(s, p, startUser, targetUser) ==> |res.path| <= |p|
  {
    if startUser !in s.ids || targetUser !in s.ids {
      return DfsPathResult([], [], map[]);
    }
    var start := s.ids[startUser];
    var target := s.ids[targetUser];
    ValidSearchable(s);
    var t := Visit(s, start, target, start, Trail({}, [], []));
    assert [] + [start] == [start];
    if t.found == [] {
      NoneFound(s, startUser, targetUser, t.found);
      return DfsPathResult([], [], map[]);
    }
    var k := ShortestIndex(t.found);
    Shortest(s, startUser, targetUser, t.found, k);
    var named := NamesOf(s, t.found[k]);
    res := DfsPathResult(named, named, map[]);
  }

  /** A reachable target is reached by a walk without repeats from the start. */
  lemma SimpleWitness(s: Store, startUser: string, targetUser: string) returns (w: seq<nat>)
    requires s.Valid() && startUser in s.ids && targetUser in s.ids && Reachable(s, startUser, targetUser)
    ensures Simple(s.adj, s.ids[startUser], s.ids[targetUser], w) && [s.ids[startUser]] <= w
  {
    ReachableIffWalk(s, startUser, targetUser);
    var walk :| IsWalk(s.adj, walk) && walk[0] == s.ids[startUser] && walk[|walk| - 1] == s.ids[targetUser];
    w := SimpleWithin(s.adj, walk);
  }

  /** With nothing recorded and every walk without repeats from the start
      covered, the target is unreachable. */
  lemma NoneFound(s: Store, startUser: string, targetUser: string, found: seq<seq<nat>>)
    requires s.Valid() && startUser in s.ids && targetUser in s.ids
    requires Covers(s.adj, s.ids[startUser], s.ids[targetUser], [s.ids[startUser]], found) && found == []
    ensures !Reachable(s, startUser, targetUser)
  {
    if Reachable(s, startUser, targetUser) {
      var w := SimpleWitness(s, startUser, targetUser);
      assert false;
    }
  }

  /** The first shortest recorded path, in names, is a path without repeats and
      no longer than any path between the two users. */
  lemma Shortest(s: Store, startUser: string, targetUser: string, found: seq<seq<nat>>, k: nat)
    requires s.Valid() && startUser in s.ids && targetUser in s.ids
    requires Sound(s.adj, s.ids[startUser], s.ids[targetUser], found)
    requires Covers(s.adj, s.ids[startUser], s.ids[targetUser], [s.ids[startUser]], found)
    requires k < |found| && forall j :: 0 <= j < |found| ==> |found[k]| <= |found[j]|
    ensures forall i :: 0 <= i < |found[k]| ==> found[k][i] < |s.users|
    ensures Reachable(s, startUser, targetUser)
    ensures IsSimplePath(s, NamesOf(s, found[k]), startUser, targetUser)
    ensures forall p :: IsPath(s, p, startUser, targetUser) ==> |found[k]| <= |p|
  {
    var w := found[k];
    assert Simple(s.adj, s.ids[startUser], s.ids[targetUser], w);
    var p := NamesOf(s, w);
    WalkIsPath(s, w);
    assert IsPath(s, p, startUser, targetUser);
    forall i, j | 0 <= i < j < |p|
      ensures p[i] != p[j]
    {
      NamesDistinct(s, w[i], w[j]);
    }
    forall q | IsPath(s, q, startUser, targetUser)
      ensures |w| <= |q|
    {
      PathIsWalk(s, q, startUser, targetUser);
      var w' := SimpleWithin(s.adj, IdsOf(s, q));
      assert [s.ids[startUser]] <= w';
      assert w' in found;
    }
  }
}
