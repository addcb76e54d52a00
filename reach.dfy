/**
 * Walks and paths over a graph snapshot, shared by the search algorithms of
 * social_graph/bfs.py, social_graph/dfs.py and social_graph/dfs_iterative.py.
 * The algorithms work on ids and report names; a walk is a sequence of ids, a
 * path the matching sequence of names.
 */
module Reach {
  import opened Wrappers
  import opened SocialGraph
  import opened Order

  /** Every neighbour id is an id. */
  ghost predicate Bounded(adj: seq<set<nat>>)
  {
    forall i, j {:trigger j in adj[i]} :: 0 <= i < |adj| && j in adj[i] ==> j < |adj|
  }

  /** What the searches need of the store: neighbour ids are ids and names are
      unique. */
  ghost predicate Searchable(s: Store)
  {
    Bounded(s.adj) && |s.users| == |s.adj| && NoDuplicates(s.users)
  }

  lemma ValidSearchable(s: Store)
    requires s.Valid()
    ensures Searchable(s)
  {
    forall i, j | 0 <= i < j < |s.users|
      ensures s.users[i] != s.users[j]
    {
      NamesDistinct(s, i, j);
    }
  }

  /** Consecutive ids of `w` are neighbours. */
  ghost predicate IsWalk(adj: seq<set<nat>>, w: seq<nat>)
  {
    && |w| >= 1
    && (forall i :: 0 <= i < |w| ==> w[i] < |adj|)
    && (forall i :: 0 <= i < |w| - 1 ==> w[i + 1] in adj[w[i]])
  }

  /** `p` goes from `a` to `b` and consecutive names are friends. */
  ghost predicate IsPath(s: Store, p: seq<string>, a: string, b: string)
  {
    && |p| >= 1 && p[0] == a && p[|p| - 1] == b
    && (forall i :: 0 <= i < |p| - 1 ==> s.Friends(p[i], p[i + 1]))
  }

  /** No name occurs twice on `p`. */
  ghost predicate IsSimplePath(s: Store, p: seq<string>, a: string, b: string)
  {
    IsPath(s, p, a, b) && NoDuplicates(p)
  }

  ghost predicate Reachable(s: Store, a: string, b: string)
  {
    exists p :: IsPath(s, p, a, b)
  }

  /** The names of the ids of `w` (`[get_name(n) for n in w]`). */
  function NamesOf(s: Store, w: seq<nat>): (p: seq<string>)
    requires forall i :: 0 <= i < |w| ==> w[i] < |s.users|
    ensures |p| == |w|
  {
    seq(|w|, i requires 0 <= i < |w| => s.users[w[i]])
  }

  /** The ids of the names of `p`. */
  function IdsOf(s: Store, p: seq<string>): (w: seq<nat>)
    requires forall i :: 0 <= i < |p| ==> p[i] in s.ids
    ensures |w| == |p|
  {
    seq(|p|, i requires 0 <= i < |p| => s.ids[p[i]])
  }

  /** A walk read as names is a path between the names of its ends. */
  lemma WalkIsPath(s: Store, w: seq<nat>)
    requires s.Valid() && IsWalk(s.adj, w)
    ensures IsPath(s, NamesOf(s, w), s.users[w[0]], s.users[w[|w| - 1]])
  {
    var p := NamesOf(s, w);
    forall i | 0 <= i < |p| - 1
      ensures s.Friends(p[i], p[i + 1])
    {
      assert s.ids[p[i]] == w[i] && s.ids[p[i + 1]] == w[i + 1];
    }
  }

  /** A path from a user read as ids is a walk between the ids of its ends. */
  lemma PathIsWalk(s: Store, p: seq<string>, a: string, b: string)
    requires s.Valid() && IsPath(s, p, a, b) && a in s.ids
    ensures forall i :: 0 <= i < |p| ==> p[i] in s.ids
    ensures IsWalk(s.adj, IdsOf(s, p))
    ensures IdsOf(s, p)[0] == s.ids[a] && IdsOf(s, p)[|p| - 1] == s.ids[b]
    ensures NoDuplicates(p) ==> NoDuplicates(IdsOf(s, p))
  {
    forall i | 0 <= i < |p|
      ensures p[i] in s.ids
    {
      if i < |p| - 1 {
        assert s.Friends(p[i], p[i + 1]);
      } else if i > 0 {
        assert s.Friends(p[i - 1], p[i]);
      }
    }
    var w := IdsOf(s, p);
    forall i | 0 <= i < |w|
      ensures w[i] < |s.adj|
    {
      assert p[i] in s.ids;
    }
    forall i | 0 <= i < |w| - 1
      ensures w[i + 1] in s.adj[w[i]]
    {
      assert s.Friends(p[i], p[i + 1]);
    }
    if NoDuplicates(p) {
      forall i, j | 0 <= i < j < |w|
        ensures w[i] != w[j]
      {
        assert s.users[w[i]] == p[i] && s.users[w[j]] == p[j];
      }
    }
  }

  /** Two users are connected by a path of names exactly when a walk of ids joins
      their ids. */
  lemma ReachableIffWalk(s: Store, a: string, b: string)
    requires s.Valid() && a in s.ids && b in s.ids
    ensures Reachable(s, a, b) <==> exists w :: IsWalk(s.adj, w) && w[0] == s.ids[a] && w[|w| - 1] == s.ids[b]
  {
    if Reachable(s, a, b) {
      var p :| IsPath(s, p, a, b);
      PathIsWalk(s, p, a, b);
      var w := IdsOf(s, p);
      assert IsWalk(s.adj, w) && w[0] == s.ids[a] && w[|w| - 1] == s.ids[b];
    }
    if exists w :: IsWalk(s.adj, w) && w[0] == s.ids[a] && w[|w| - 1] == s.ids[b] {
      var w :| IsWalk(s.adj, w) && w[0] == s.ids[a] && w[|w| - 1] == s.ids[b];
      WalkIsPath(s, w);
      assert s.users[w[0]] == a && s.users[w[|w| - 1]] == b;
    }
  }

  /** Cutting out the loop between two visits of the same id leaves a walk
      between the same ends that is shorter. Repeating this ends in a walk
      without repeats. */
  lemma {:induction false} SimpleWithin(adj: seq<set<nat>>, w: seq<nat>) returns (w': seq<nat>)
    requires IsWalk(adj, w)
    ensures IsWalk(adj, w') && NoDuplicates(w')
    ensures w'[0] == w[0] && w'[|w'| - 1] == w[|w| - 1] && |w'| <= |w|
    decreases |w|
  {
    if NoDuplicates(w) {
      return w;
    }
    var i, j :| 0 <= i < j < |w| && w[i] == w[j];
    var cut := w[..i] + w[j..];
    assert |cut| == |w| - (j - i);
    forall k | 0 <= k < |cut|
      ensures cut[k] < |adj|
    {
      if k >= i {
        assert cut[k] == w[k + j - i];
      }
    }
    forall k | 0 <= k < |cut| - 1
      ensures cut[k + 1] in adj[cut[k]]
    {
      if k + 1 < i {
        assert cut[k] == w[k] && cut[k + 1] == w[k + 1];
      } else if k + 1 == i {
        assert cut[k] == w[k] && cut[k + 1] == w[j] == w[i];
      } else {
        assert cut[k] == w[k + j - i] && cut[k + 1] == w[k + 1 + j - i];
      }
    }
    assert cut[0] == w[0] by {
      if i == 0 {
        assert cut[0] == w[j] == w[0];
      }
    }
    assert cut[|cut| - 1] == w[|w| - 1];
    w' := SimpleWithin(adj, cut);
  }

  /** A set that holds the first id of a walk and every neighbour of its members
      holds the whole walk. */
  lemma {:induction false} ClosedHoldsWalk(adj: seq<set<nat>>, c: set<nat>, w: seq<nat>)
    requires IsWalk(adj, w) && w[0] in c
    requires forall x, y {:trigger y in adj[x], x in c} :: x in c && x < |adj| && y in adj[x] ==> y in c
    ensures forall i :: 0 <= i < |w| ==> w[i] in c
  {
    if |w| > 1 {
      var w' := w[..|w| - 1];
      assert IsWalk(adj, w');
      ClosedHoldsWalk(adj, c, w');
      assert w[|w| - 2] in c && w[|w| - 1] in adj[w[|w| - 2]];
    }
  }

  /** Parent pointers and depths of a search from `start`: the start has depth 0
      and no parent; every other discovered id has a discovered neighbour as
      parent, one level closer to the start. */
  ghost predicate IsTree(adj: seq<set<nat>>, start: nat, parent: map<nat, Option<nat>>, dist: map<nat, nat>)
  {
    && parent.Keys == dist.Keys
    && (forall v :: v in dist ==> v < |adj|)
    && start in dist && dist[start] == 0 && parent[start] == None
    && (forall v {:trigger parent[v]} :: v in parent && v != start ==>
          && parent[v].Some? && parent[v].value in dist
          && v in adj[parent[v].value]
          && dist[v] == dist[parent[v].value] + 1)
  }

  /** Following parent pointers back from a discovered id gives a walk from the
      start with one step per level. */
  lemma {:induction false} TreeWalk(adj: seq<set<nat>>, start: nat, parent: map<nat, Option<nat>>, dist: map<nat, nat>, v: nat)
    returns (w: seq<nat>)
    requires IsTree(adj, start, parent, dist) && v in dist
    ensures IsWalk(adj, w) && w[0] == start && w[|w| - 1] == v && |w| == dist[v] + 1
    decreases dist[v]
  {
    if v == start {
      w := [start];
    } else {
      var p := parent[v].value;
      var w' := TreeWalk(adj, start, parent, dist, p);
      w := w' + [v];
      assert w[|w'| - 1] == p;
    }
  }

  /** The named form of `IsTree`: parent and depth keyed by name. */
  ghost predicate IsNamedTree(s: Store, start: string, depth: map<string, nat>, tree: map<string, Option<string>>)
  {
    && depth.Keys == tree.Keys
    && start in depth && depth[start] == 0 && tree[start] == None
    && (forall v {:trigger tree[v]} :: v in tree && v != start ==>
          && tree[v].Some? && tree[v].value in depth
          && s.Friends(tree[v].value, v)
          && depth[v] == depth[tree[v].value] + 1)
  }

  /** The name of an optional parent id (`None if parent[n] is None else get_name(parent[n])`). */
  function NameOf(s: Store, p: Option<nat>): (r: Option<string>)
    requires p.Some? ==> p.value < |s.users|
    ensures r.Some? <==> p.Some?
    ensures p.Some? ==> r.value == s.users[p.value]
  {
    if p.Some? then Some(s.users[p.value]) else None
  }

  /** An id-level tree read through names is a named tree. */
  lemma NamedTree(s: Store, startUser: string, startId: nat, parent: map<nat, Option<nat>>, dist: map<nat, nat>,
                  distNamed: map<string, nat>, treeNamed: map<string, Option<string>>)
    requires s.Valid() && startUser in s.ids && startId == s.ids[startUser]
    requires IsTree(s.adj, startId, parent, dist)
    requires forall name :: name in distNamed <==> name in s.ids && s.ids[name] in dist
    requires forall name :: name in distNamed ==> distNamed[name] == dist[s.ids[name]]
    requires forall name :: name in treeNamed <==> name in s.ids && s.ids[name] in parent
    requires forall name :: name in treeNamed ==> treeNamed[name] == NameOf(s, parent[s.ids[name]])
    ensures IsNamedTree(s, startUser, distNamed, treeNamed)
  {
    forall v | v in treeNamed && v != startUser
      ensures treeNamed[v].Some? && treeNamed[v].value in distNamed
      ensures s.Friends(treeNamed[v].value, v)
      ensures distNamed[v] == distNamed[treeNamed[v].value] + 1
    {
      var n := s.ids[v];
      assert n != startId by {
        assert s.users[n] == v && s.users[startId] == startUser;
      }
      var pid := parent[n].value;
      assert s.ids[s.users[pid]] == pid;
    }
  }

  /** Some walk leads from `start` to `x`. */
  ghost predicate Reaches(adj: seq<set<nat>>, start: nat, x: nat)
  {
    exists w :: IsWalk(adj, w) && w[0] == start && w[|w| - 1] == x
  }

  /** The names of a list of ids that holds each id reachable from the start
      once, the start first, hold each user reachable from the start user
      once, the start user first. */
  lemma NamedReachable(s: Store, startUser: string, order: seq<nat>, names: seq<string>)
    requires s.Valid() && startUser in s.ids
    requires order != [] && order[0] == s.ids[startUser] && NoDuplicates(order)
    requires forall x :: x in order <==> Reaches(s.adj, s.ids[startUser], x)
    requires forall i :: 0 <= i < |order| ==> order[i] < |s.users|
    requires |names| == |order| && forall i :: 0 <= i < |order| ==> names[i] == s.users[order[i]]
    ensures names != [] && names[0] == startUser && NoDuplicates(names)
    ensures forall x :: x in names <==> x in s.ids && Reachable(s, startUser, x)
  {
    forall i, j | 0 <= i < j < |names|
      ensures names[i] != names[j]
    {
      NamesDistinct(s, order[i], order[j]);
    }
    forall x | x in names
      ensures x in s.ids && Reachable(s, startUser, x)
    {
      var i :| 0 <= i < |names| && names[i] == x;
      assert s.ids[x] == order[i];
      assert Reaches(s.adj, s.ids[startUser], s.ids[x]);
      ReachableIffWalk(s, startUser, x);
    }
    forall x | x in s.ids && Reachable(s, startUser, x)
      ensures x in names
    {
      ReachableIffWalk(s, startUser, x);
      assert Reaches(s.adj, s.ids[startUser], s.ids[x]);
      var i :| 0 <= i < |order| && order[i] == s.ids[x];
      assert names[i] == x;
    }
  }

  /** `sorted(get_neighbors(current), key=get_name)`. */
  method NeighborsByName(s: Store, current: nat) returns (neighbors: seq<nat>)
    requires Searchable(s) && current < |s.adj|
    ensures SortedBy(IdLess(s), neighbors) && NoDuplicates(neighbors)
    ensures forall y :: y in neighbors <==> y in s.adj[current]
  {
    IdLessTotal(s, s.adj[current]);
    neighbors := SortBy(s.adj[current], IdLess(s));
  }

  /** Python's ordering of ids by name, `key=get_name`. */
  function IdLess(s: Store): (nat, nat) -> bool
  {
    (a: nat, b: nat) => a < |s.users| && b < |s.users| && LexLess(s.users[a], s.users[b])
  }

  /** Names are unique, so ordering ids by name is a strict total order. */
  lemma IdLessTotal(s: Store, xs: set<nat>)
    requires NoDuplicates(s.users)
    requires forall x :: x in xs ==> x < |s.users|
    ensures StrictTotalOn(IdLess(s), xs)
  {
    var less := IdLess(s);
    forall a | a in xs ensures !less(a, a) {
      LexIrreflexive(s.users[a]);
    }
    forall a, b, c | a in xs && b in xs && c in xs && less(a, b) && less(b, c)
      ensures less(a, c)
    {
      LexTransitive(s.users[a], s.users[b], s.users[c]);
    }
    forall a, b | a in xs && b in xs && a != b
      ensures less(a, b) || less(b, a)
    {
      LexTotal(s.users[a], s.users[b]);
    }
  }

  /** The ids `0..n-1`, as a set. */
  ghost function Ids(n: nat): (r: set<nat>)
    ensures forall x: nat :: x in r <==> x < n
  {
    if n == 0 then {} else Ids(n - 1) + {n - 1}
  }

  /** The reverse of `xs` (Python's `list.reverse()`). */
  function Reverse<T>(xs: seq<T>): (r: seq<T>)
    ensures |r| == |xs|
    ensures forall i :: 0 <= i < |xs| ==> r[i] == xs[|xs| - 1 - i]
  {
    if xs == [] then [] else Reverse(xs[1..]) + [xs[0]]
  }

  /** The ids of `xs` outside `visited`, in the order of `xs`: what a loop
      over `xs` appends when it appends each id not visited (the pushes of
      `dfs_iterative`, the discoveries of `bfs_shortest_path`). */
  function Unvisited(xs: seq<nat>, visited: set<nat>): (r: seq<nat>)
    ensures forall y :: y in r <==> y in xs && y !in visited
  {
    if xs == [] then []
    else Unvisited(xs[..|xs| - 1], visited) + (if xs[|xs| - 1] in visited then [] else [xs[|xs| - 1]])
  }

  lemma UnvisitedStep(xs: seq<nat>, i: nat, visited: set<nat>)
    requires i < |xs|
    ensures Unvisited(xs[..i + 1], visited) == Unvisited(xs[..i], visited) + (if xs[i] in visited then [] else [xs[i]])
  {
    assert xs[..i + 1][..i] == xs[..i];
  }

  /** Filtering keeps a sorted list sorted. */
  lemma {:induction false} UnvisitedSorted(less: (nat, nat) -> bool, xs: seq<nat>, visited: set<nat>)
    requires SortedBy(less, xs)
    ensures SortedBy(less, Unvisited(xs, visited))
    decreases |xs|
  {
    if xs != [] {
      var init := xs[..|xs| - 1];
      var r0 := Unvisited(init, visited);
      UnvisitedSorted(less, init, visited);
      forall i | 0 <= i < |r0|
        ensures less(r0[i], xs[|xs| - 1])
      {
        assert r0[i] in init;
        var k :| 0 <= k < |init| && init[k] == r0[i];
      }
    }
  }

  /** Every id listed after the first was discovered from an id listed before
      it, one of the ids `expanded`. */
  ghost predicate Discovered<K>(order: seq<K>, expanded: seq<K>, parent: map<K, Option<K>>)
  {
    forall i :: 0 < i < |order| ==>
      order[i] in parent && parent[order[i]].Some? && parent[order[i]].value in order[..i] && parent[order[i]].value in expanded
  }

  /** Adjacency in `adj`, as a relation on ids. */
  function Adjacent(adj: seq<set<nat>>): (nat, nat) -> bool
  {
    (x: nat, y: nat) => x < |adj| && y in adj[x]
  }

  /** `are_friends`, as a relation on names. */
  function FriendOf(s: Store): (string, string) -> bool
  {
    (a: string, b: string) => s.Friends(a, b)
  }

  /** Being discovered from an earlier entry survives renaming. */
  lemma NamedDiscovered(s: Store, order: seq<nat>, parent: map<nat, Option<nat>>,
                        names: seq<string>, parentNamed: map<string, Option<string>>)
    requires s.Valid() && forall i :: 0 <= i < |order| ==> order[i] < |s.users|
    requires forall x :: x in parent && parent[x].Some? ==> parent[x].value < |s.users|
    requires |names| == |order| && forall i :: 0 <= i < |order| ==> names[i] == s.users[order[i]]
    requires forall name :: name in parentNamed <==> name in s.ids && s.ids[name] in parent
    requires forall name :: name in parentNamed ==> parentNamed[name] == NameOf(s, parent[s.ids[name]])
    requires Discovered(order, order, parent)
    ensures Discovered(names, names, parentNamed)
  {
    forall i | 0 < i < |names|
      ensures names[i] in parentNamed && parentNamed[names[i]].Some?
      ensures parentNamed[names[i]].value in names[..i] && parentNamed[names[i]].value in names
    {
      assert s.ids[names[i]] == order[i];
      var p := parent[order[i]].value;
      var k :| 0 <= k < i && order[..i][k] == p;
      assert names[..i][k] == names[k] == s.users[p];
    }
  }
}
