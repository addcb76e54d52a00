/**
 * Depth-first search of social_graph/dfs.py over a snapshot of the graph store:
 * the recursive traversal that records parents, depths and entry/exit
 * timestamps, and the backtracking search that enumerates simple paths and keeps
 * a shortest one.
 */
module Dfs {
  import opened Wrappers
  import opened Order
  import opened SocialGraph
  import opened Reach

  /** `DFSResult`, without its `time_ms`. */
  datatype DfsResult = DfsResult(
    order: seq<string>,
    parent: map<string, Option<string>>,
    depth: map<string, nat>,
    tin: map<string, nat>,
    tout: map<string, nat>)

  /** The variables of `dfs_traversal` that its inner `dfs` updates; the
      one-cell list `timer` is an integer here. */
  datatype Scope = Scope(
    visited: set<nat>,
    parent: map<nat, Option<nat>>,
    depth: map<nat, nat>,
    order: seq<nat>,
    tin: map<nat, nat>,
    tout: map<nat, nat>,
    timer: nat)

  // ---------------------------------------------------------------------------
  // Properties of a finished traversal, stated for any kind of key

  /** `k` nodes stamped from one counter starting at 1: each entry stamp is
      below the exit stamp of the same node and all 2k stamps are distinct
      values in `1..2k`. */
  ghost predicate Stamped<K>(tin: map<K, nat>, tout: map<K, nat>, k: nat)
  {
    && tin.Keys == tout.Keys
    && (forall v :: v in tin ==> 1 <= tin[v] < tout[v] <= 2 * k)
    && (forall v, w {:trigger tin[v], tin[w]} :: v in tin && w in tin && v != w ==> tin[v] != tin[w])
    && (forall v, w {:trigger tout[v], tout[w]} :: v in tout && w in tout && v != w ==> tout[v] != tout[w])
    && (forall v, w {:trigger tin[v], tout[w]} :: v in tin && w in tout ==> tin[v] != tout[w])
  }

  /** The `[tin, tout]` intervals of two finished nodes are disjoint, or the one
      entered later lies inside the other. */
  ghost predicate Nested<K>(tin: map<K, nat>, tout: map<K, nat>)
  {
    forall v, w {:trigger tin[v], tin[w]} :: v in tin && w in tin && v in tout && w in tout && tin[v] < tin[w] ==>
      tout[v] < tin[w] || tout[w] < tout[v]
  }

  /** Each child's interval lies strictly inside its parent's. */
  ghost predicate ChildrenInside<K>(parent: map<K, Option<K>>, tin: map<K, nat>, tout: map<K, nat>)
  {
    forall v {:trigger parent[v]} :: v in parent && parent[v].Some? ==>
      && v in tin && v in tout && parent[v].value in tin && parent[v].value in tout
      && tin[parent[v].value] < tin[v] && tout[v] < tout[parent[v].value]
  }

  /** Only descendants are entered inside a user's interval: any user entered
      after `v` and before `v` is finished has its parent entered at or after
      `v`. Following parents from such a user therefore leads back to `v`
      (`InsideDescends`). */
  ghost predicate Enclosing<K>(parent: map<K, Option<K>>, tin: map<K, nat>, tout: map<K, nat>)
  {
    forall v, w {:trigger InsideHasParentInside(parent, tin, tout, v, w)} :: v in tin && w in tin
      ==> InsideHasParentInside(parent, tin, tout, v, w)
  }

  /** If `w` is entered while `v` is open, the parent of `w` is entered at or
      after `v`. */
  ghost predicate InsideHasParentInside<K>(parent: map<K, Option<K>>, tin: map<K, nat>, tout: map<K, nat>, v: K, w: K)
  {
    v in tin && v in tout && w in tin && w in parent && tin[v] < tin[w] < tout[v]
    ==> parent[w].Some? && parent[w].value in tin && tin[v] <= tin[parent[w].value]
  }

  /** Following `parent` `n` times from `w` reaches `v`. */
  ghost predicate DescendsIn<K>(parent: map<K, Option<K>>, v: K, w: K, n: nat)
    decreases n
  {
    if n == 0 then w == v else w in parent && parent[w].Some? && DescendsIn(parent, v, parent[w].value, n - 1)
  }

  /** Users are listed in the order of their entry stamps. */
  ghost predicate Preorder<K>(order: seq<K>, tin: map<K, nat>)
  {
    forall i, j :: 0 <= i < j < |order| ==> order[i] in tin && order[j] in tin && tin[order[i]] < tin[order[j]]
  }

  /** How depth-first search picks the next user to enter: each listed user
      after the first is the least friend of its parent not listed before it,
      and every user listed after that parent had no friend left unlisted by
      then. So the search resumes from the most recently entered user that
      still has an unlisted friend, and enters the least such friend. */
  ghost predicate Backtracks<K(!new)>(adjacent: (K, K) -> bool, less: (K, K) -> bool, order: seq<K>, parent: map<K, Option<K>>)
  {
    LeastNext(adjacent, less, order, parent) && DoneBefore(adjacent, order, parent)
  }

  /** Each listed user with a parent is the least friend of that parent not
      listed before it. */
  ghost predicate LeastNext<K(!new)>(adjacent: (K, K) -> bool, less: (K, K) -> bool, order: seq<K>, parent: map<K, Option<K>>)
  {
    forall i, y :: 0 <= i < |order| && order[i] in parent && parent[order[i]].Some?
      && adjacent(parent[order[i]].value, y) && y !in order[..i]
      ==> y == order[i] || less(order[i], y)
  }

  /** Every user listed after the parent of `order[i]` and before `order[i]`
      had no friend left unlisted when `order[i]` was entered. */
  ghost predicate DoneBefore<K(!new)>(adjacent: (K, K) -> bool, order: seq<K>, parent: map<K, Option<K>>)
  {
    forall i, k, y :: 0 <= k < i < |order| && order[i] in parent && parent[order[i]].Some?
      && parent[order[i]].value in order[..k] && adjacent(order[k], y)
      ==> y in order[..i]
  }

  /** The order of `dfs_traversal`, in names: users are listed as they are
      entered, each after its parent, and each next user is chosen as
      `Backtracks` says, friends being tried in ascending name order. */
  ghost predicate EntersInOrder(s: Store, r: DfsResult)
  {
    Preorder(r.order, r.tin) && Discovered(r.order, r.order, r.parent) && Backtracks(FriendOf(s), LexLess, r.order, r.parent)
  }

  /** Everything `dfs_traversal` promises for a known start user, in names. */
  ghost predicate IsDfsResult(s: Store, start: string, r: DfsResult)
  {
    ListsReachable(s, start, r) && StampsNest(r)
  }

  /** The order lists exactly the users reachable from the start, each once and
      the start first; they are the users with a parent, a depth and an entry
      stamp; parents and depths form a tree of friendships rooted at the start. */
  ghost predicate ListsReachable(s: Store, start: string, r: DfsResult)
  {
    && r.order != [] && r.order[0] == start && NoDuplicates(r.order)
    && (forall x :: x in r.order <==> x in s.ids && Reachable(s, start, x))
    && (forall x :: x in r.tin <==> x in r.order)
    && r.parent.Keys == r.tin.Keys && IsNamedTree(s, start, r.depth, r.parent)
  }

  /** The stamps of the `k` listed users are distinct, in `1..2k` and properly
      nested, each child's inside its parent's. */
  ghost predicate StampsNest(r: DfsResult)
  {
    && Stamped(r.tin, r.tout, |r.order|)
    && Nested(r.tin, r.tout)
    && ChildrenInside(r.parent, r.tin, r.tout)
    && Enclosing(r.parent, r.tin, r.tout)
  }

  /** The same promises on ids, with walks for paths. */
  ghost predicate Traversed(adj: seq<set<nat>>, start: nat, st: Scope)
  {
    && st.order != [] && st.order[0] == start && NoDuplicates(st.order)
    && (forall x :: x in st.order <==> Reaches(adj, start, x))
    && (forall x :: x in st.tin <==> x in st.order)
    && st.parent.Keys == st.tin.Keys && IsTree(adj, start, st.parent, st.depth)
    && Stamped(st.tin, st.tout, |st.order|)
    && Nested(st.tin, st.tout)
    && ChildrenInside(st.parent, st.tin, st.tout)
  }

  // ---------------------------------------------------------------------------
  // The state of `dfs_traversal` between two steps

  /** Visited ids are exactly the keys of `tin`, `depth` and `parent`;
      finished ids, the keys of `tout`, are among them. */
  ghost predicate Keyed(st: Scope)
  {
    && st.visited == st.tin.Keys == st.depth.Keys == st.parent.Keys
    && st.tout.Keys <= st.visited
  }

  /** `order` lists the visited ids once each. */
  ghost predicate Listed(st: Scope)
  {
    NoDuplicates(st.order) && (forall x :: x in st.order <==> x in st.visited)
  }

  /** The counter has handed out one stamp per entry and per exit. */
  ghost predicate Sized(st: Scope)
  {
    |st.tin| == |st.order| && st.timer == 1 + |st.tin| + |st.tout|
  }

  /** Every stamp handed out is below the counter, and each exit follows its
      entry. */
  ghost predicate Bounds(st: Scope)
  {
    && (forall v :: v in st.tin ==> 1 <= st.tin[v] < st.timer)
    && (forall v :: v in st.tout && v in st.tin ==> st.tin[v] < st.tout[v] < st.timer)
  }

  /** No stamp was handed out twice. */
  ghost predicate Distinct(st: Scope)
  {
    Injective(st.tin) && Injective(st.tout) && Apart(st.tin, st.tout)
  }

  ghost predicate Injective(m: map<nat, nat>)
  {
    forall v, w {:trigger m[v], m[w]} :: v in m && w in m && v != w ==> m[v] != m[w]
  }

  ghost predicate Apart(a: map<nat, nat>, b: map<nat, nat>)
  {
    forall v, w {:trigger a[v], b[w]} :: v in a && w in b ==> a[v] != b[w]
  }

  ghost predicate Below(m: map<nat, nat>, t: nat)
  {
    forall v :: v in m ==> m[v] < t
  }

  /** Handing out a stamp above every earlier one keeps all stamps distinct. */
  lemma StampInjective(m: map<nat, nat>, u: nat, t: nat)
    requires Injective(m) && Below(m, t) && u !in m
    ensures Injective(m[u := t])
  {
  }

  lemma StampApart(a: map<nat, nat>, b: map<nat, nat>, u: nat, t: nat)
    requires Apart(a, b) && Below(a, t) && Below(b, t)
    ensures Apart(a[u := t], b) && Apart(a, b[u := t])
  {
  }

  /** Parents and depths form a tree from the start. */
  ghost predicate Treed(adj: seq<set<nat>>, start: nat, st: Scope)
  {
    st.visited == {} || IsTree(adj, start, st.parent, st.depth)
  }

  /** A child is entered after its parent and, once the parent is finished,
      was finished inside it. */
  ghost predicate Inside(st: Scope)
  {
    forall v {:trigger st.parent[v]} :: v in st.parent && st.parent[v].Some? ==>
      && v in st.tin && st.parent[v].value in st.tin
      && st.tin[st.parent[v].value] < st.tin[v]
      && (st.parent[v].value in st.tout ==> v in st.tout && st.tout[v] < st.tout[st.parent[v].value])
  }

  /** Every neighbour of a finished id has been visited. */
  ghost predicate Explored(adj: seq<set<nat>>, st: Scope)
  {
    forall x, y {:trigger y in adj[x], x in st.tout} :: x in st.tout && x < |adj| && y in adj[x] ==> y in st.visited
  }

  /** The state of `dfs_traversal` between two steps of its inner `dfs`. */
  ghost predicate Inv(adj: seq<set<nat>>, start: nat, st: Scope)
  {
    && Keyed(st) && Listed(st) && Sized(st) && Bounds(st) && Distinct(st)
    && Nested(st.tin, st.tout) && Treed(adj, start, st) && Inside(st) && Explored(adj, st)
  }

  /** `b` is a later state of the same traversal than `a`: nothing recorded
      about an id visited in `a` has changed, and an id unfinished in `a` is
      still unfinished. */
  ghost predicate Extends(a: Scope, b: Scope)
  {
    && a.visited <= b.visited
    && (forall v :: v in a.tin ==> v in b.tin && b.tin[v] == a.tin[v])
    && (forall v :: v in a.visited ==> (v in b.tout <==> v in a.tout))
    && (forall v :: v in a.tout ==> v in b.tout && b.tout[v] == a.tout[v])
    && (forall v :: v in a.parent ==> v in b.parent && b.parent[v] == a.parent[v])
    && (forall v :: v in a.depth ==> v in b.depth && b.depth[v] == a.depth[v])
    && a.order <= b.order
    && a.timer <= b.timer
  }

  /** Every id visited after `a` is already finished in `b`, and was entered at
      or after stamp `lo`. */
  ghost predicate Fresh(a: Scope, b: Scope, lo: nat)
  {
    forall v :: v in b.visited && v !in a.visited ==> v in b.tin && v in b.tout && lo <= b.tin[v]
  }

  // ---------------------------------------------------------------------------
  // Steps of the inner `dfs`

  /** The state once `dfs(u, d)` has recorded its entry, the caller's
      `parent[u] = from` included. */
  function Entered(st: Scope, u: nat, from: Option<nat>, d: nat): (e: Scope)
    ensures e.visited == st.visited + {u} && e.order == st.order + [u]
    ensures e.tin == st.tin[u := st.timer] && e.timer == st.timer + 1
    ensures e.parent == st.parent[u := from] && e.depth == st.depth[u := d] && e.tout == st.tout
  {
    Scope(st.visited + {u}, st.parent[u := from], st.depth[u := d], st.order + [u],
          st.tin[u := st.timer], st.tout, st.timer + 1)
  }

  /** The state once `dfs(u, d)` has recorded its exit. */
  function Left(st: Scope, u: nat): (l: Scope)
    ensures l.tout == st.tout[u := st.timer] && l.timer == st.timer + 1
    ensures l.visited == st.visited && l.parent == st.parent && l.depth == st.depth
    ensures l.order == st.order && l.tin == st.tin
  {
    Scope(st.visited, st.parent, st.depth, st.order, st.tin, st.tout[u := st.timer], st.timer + 1)
  }

  /** What a call `dfs(u, d)` may assume: `u` is unvisited; the start is
      visited first with depth 0 and no parent; any other id comes from an
      unfinished visited neighbour one level up. */
  ghost predicate CallOk(adj: seq<set<nat>>, start: nat, st: Scope, u: nat, from: Option<nat>, d: nat)
  {
    && u < |adj| && u !in st.visited
    && (from.None? <==> u == start)
    && (u == start ==> st.visited == {} && d == 0)
    && (u != start ==> start in st.visited)
    && (from.Some? ==>
          && from.value in st.visited && from.value !in st.tout && from.value < |adj|
          && u in adj[from.value] && from.value in st.depth && d == st.depth[from.value] + 1)
  }

  lemma EnterKeyed(st: Scope, u: nat, from: Option<nat>, d: nat)
    requires Keyed(st)
    ensures Keyed(Entered(st, u, from, d))
  {
  }

  lemma EnterListed(st: Scope, u: nat, from: Option<nat>, d: nat)
    requires Listed(st) && u !in st.visited
    ensures Listed(Entered(st, u, from, d))
  {
    NoDuplicatesAppend(st.order, [u]);
  }

  lemma EnterSized(st: Scope, u: nat, from: Option<nat>, d: nat)
    requires Keyed(st) && Sized(st) && u !in st.visited
    ensures Sized(Entered(st, u, from, d))
  {
  }

  lemma EnterBounds(st: Scope, u: nat, from: Option<nat>, d: nat)
    requires Keyed(st) && Sized(st) && Bounds(st) && u !in st.visited
    ensures Bounds(Entered(st, u, from, d))
  {
  }

  lemma EnterDistinct(st: Scope, u: nat, from: Option<nat>, d: nat)
    requires Keyed(st) && Bounds(st) && Distinct(st) && u !in st.visited
    ensures Distinct(Entered(st, u, from, d))
  {
    StampInjective(st.tin, u, st.timer);
    StampApart(st.tin, st.tout, u, st.timer);
  }

  lemma EnterNested(st: Scope, u: nat, from: Option<nat>, d: nat)
    requires Keyed(st) && Nested(st.tin, st.tout) && u !in st.visited
    ensures Nested(Entered(st, u, from, d).tin, Entered(st, u, from, d).tout)
  {
  }

  lemma EnterTreed(adj: seq<set<nat>>, start: nat, st: Scope, u: nat, from: Option<nat>, d: nat)
    requires Keyed(st) && Treed(adj, start, st) && CallOk(adj, start, st, u, from, d)
    ensures Treed(adj, start, Entered(st, u, from, d))
  {
    var e := Entered(st, u, from, d);
    if u == start {
      assert st.parent == map[] && st.depth == map[];
      assert e.parent == map[start := None] && e.depth == map[start := 0];
    } else {
      forall v | v in e.parent && v != start
        ensures e.parent[v].Some? && e.parent[v].value in e.depth
        ensures v in adj[e.parent[v].value] && e.depth[v] == e.depth[e.parent[v].value] + 1
      {
        if v != u {
          assert st.parent[v].value in st.depth;
        }
      }
    }
  }

  lemma EnterInside(st: Scope, u: nat, from: Option<nat>, d: nat)
    requires Keyed(st) && Bounds(st) && Inside(st) && u !in st.visited
    requires from.Some? ==> from.value in st.tin && from.value !in st.tout
    ensures Inside(Entered(st, u, from, d))
  {
    var e := Entered(st, u, from, d);
    forall v | v in e.parent && e.parent[v].Some?
      ensures v in e.tin && e.parent[v].value in e.tin && e.tin[e.parent[v].value] < e.tin[v]
      ensures e.parent[v].value in e.tout ==> v in e.tout && e.tout[v] < e.tout[e.parent[v].value]
    {
      if v != u {
        assert st.parent[v].value != u;
      }
    }
  }

  /** Entering `u` keeps the invariant and records `u` as visited, unfinished. */
  lemma EnterStep(adj: seq<set<nat>>, start: nat, st: Scope, u: nat, from: Option<nat>, d: nat)
    requires Inv(adj, start, st) && CallOk(adj, start, st, u, from, d)
    ensures Inv(adj, start, Entered(st, u, from, d))
  {
    EnterKeyed(st, u, from, d);
    EnterListed(st, u, from, d);
    EnterSized(st, u, from, d);
    EnterBounds(st, u, from, d);
    EnterDistinct(st, u, from, d);
    EnterNested(st, u, from, d);
    EnterTreed(adj, start, st, u, from, d);
    EnterInside(st, u, from, d);
  }

  lemma EnterExtends(st: Scope, u: nat, from: Option<nat>, d: nat)
    requires Keyed(st) && u !in st.visited
    ensures Extends(st, Entered(st, u, from, d))
  {
  }

  /** The order facts of a state, on ids: `EntersInOrder` before renaming. */
  ghost predicate Sequenced(s: Store, st: Scope)
  {
    && Preorder(st.order, st.tin)
    && Discovered(st.order, st.order, st.parent)
    && Backtracks(Adjacent(s.adj), IdLess(s), st.order, st.parent)
    && Enclosed(st)
  }

  /** `Enclosing` while the search runs: an id entered after `v`, while `v`
      is unfinished or before `v` finished, has its parent entered at or
      after `v`. */
  ghost predicate Enclosed(st: Scope)
  {
    forall v, w {:trigger st.tin[v], st.parent[w]} :: v in st.tin && w in st.tin && w in st.parent
      && st.tin[v] < st.tin[w] && (v in st.tout ==> st.tin[w] < st.tout[v])
      ==> st.parent[w].Some? && st.parent[w].value in st.tin && st.tin[v] <= st.tin[st.parent[w].value]
  }

  /** What entering `u` from `from` needs for the order facts: the start is
      entered first; any other id is the least unvisited neighbour of its
      parent, and every id entered after the parent has no unvisited
      neighbour. */
  ghost predicate NextOk(s: Store, st: Scope, u: nat, from: Option<nat>)
  {
    && (from.None? ==> st.order == [])
    && (from.Some? ==>
          && from.value in st.tin
          && (forall y :: Adjacent(s.adj)(from.value, y) && y !in st.visited ==> y == u || IdLess(s)(u, y))
          && (forall x, y :: x in st.tin && st.tin[from.value] < st.tin[x] && Adjacent(s.adj)(x, y) ==> y in st.visited)
          && (forall x :: x in st.tin && st.tin[from.value] < st.tin[x] ==> x in st.tout))
  }

  /** Entering `u` keeps `Enclosed`: the ids still open when `u` is entered
      were entered no later than its parent. */
  lemma EnterEnclosed(s: Store, st: Scope, u: nat, from: Option<nat>, d: nat)
    requires Keyed(st) && Listed(st) && Bounds(st) && u !in st.visited
    requires Enclosed(st) && NextOk(s, st, u, from)
    ensures Enclosed(Entered(st, u, from, d))
  {
    var e := Entered(st, u, from, d);
    forall v, w | v in e.tin && w in e.tin && w in e.parent
      && e.tin[v] < e.tin[w] && (v in e.tout ==> e.tin[w] < e.tout[v])
      ensures e.parent[w].Some? && e.parent[w].value in e.tin && e.tin[v] <= e.tin[e.parent[w].value]
    {
      if w == u {
        assert v in st.tin && v !in st.tout;
      } else {
        assert v != u && w in st.tin && st.parent[w].value in st.tin;
      }
    }
  }

  /** Finishing the open id `u` keeps `Enclosed`. */
  lemma LeaveEnclosed(st: Scope, u: nat)
    requires Enclosed(st) && u !in st.tout
    ensures Enclosed(Left(st, u))
  {
  }

  lemma EnterPreorder(order: seq<nat>, tin: map<nat, nat>, u: nat, t: nat)
    requires Preorder(order, tin) && u !in order
    requires forall i :: 0 <= i < |order| ==> order[i] in tin && tin[order[i]] < t
    ensures Preorder(order + [u], tin[u := t])
  {
    var o := order + [u];
    forall i, j | 0 <= i < j < |o|
      ensures o[i] in tin[u := t] && o[j] in tin[u := t] && tin[u := t][o[i]] < tin[u := t][o[j]]
    {
      assert o[i] == order[i] && o[i] != u;
      if j < |order| {
        assert o[j] == order[j] && o[j] != u;
      }
    }
  }

  lemma EnterDiscovered(order: seq<nat>, parent: map<nat, Option<nat>>, u: nat, from: Option<nat>)
    requires Discovered(order, order, parent) && u !in order
    requires from.None? ==> order == []
    requires from.Some? ==> from.value in order
    ensures Discovered(order + [u], order + [u], parent[u := from])
  {
    var o, par := order + [u], parent[u := from];
    forall i | 0 < i < |o|
      ensures o[i] in par && par[o[i]].Some? && par[o[i]].value in o[..i] && par[o[i]].value in o
    {
      assert o[..i] == if i < |order| then order[..i] else order;
      if i < |order| {
        assert o[i] == order[i] && o[i] != u;
      }
    }
  }

  /** Entering `u` from its parent keeps `Backtracks`: the entries before `u`
      keep their prefixes, and `u` is chosen as `NextOk` says. */
  lemma EnterBacktracks(s: Store, st: Scope, u: nat, from: Option<nat>)
    requires Keyed(st) && Listed(st) && u !in st.visited
    requires Preorder(st.order, st.tin) && Backtracks(Adjacent(s.adj), IdLess(s), st.order, st.parent)
    requires NextOk(s, st, u, from)
    ensures Backtracks(Adjacent(s.adj), IdLess(s), st.order + [u], st.parent[u := from])
  {
    EnterLeast(s, st, u, from);
    EnterDone(s, st, u, from);
  }

  lemma EnterLeast(s: Store, st: Scope, u: nat, from: Option<nat>)
    requires Listed(st) && u !in st.visited
    requires LeastNext(Adjacent(s.adj), IdLess(s), st.order, st.parent) && NextOk(s, st, u, from)
    ensures LeastNext(Adjacent(s.adj), IdLess(s), st.order + [u], st.parent[u := from])
  {
    var o, par, adj := st.order + [u], st.parent[u := from], Adjacent(s.adj);
    forall i, y | 0 <= i < |o| && o[i] in par && par[o[i]].Some? && adj(par[o[i]].value, y) && y !in o[..i]
      ensures y == o[i] || IdLess(s)(o[i], y)
    {
      if i < |st.order| {
        KeptLeast(adj, IdLess(s), st.order, st.parent, u, from, i, y);
      } else {
        assert o[..i] == st.order && o[i] == u;
      }
    }
  }

  lemma EnterDone(s: Store, st: Scope, u: nat, from: Option<nat>)
    requires Keyed(st) && Listed(st) && u !in st.visited
    requires Preorder(st.order, st.tin) && DoneBefore(Adjacent(s.adj), st.order, st.parent) && NextOk(s, st, u, from)
    ensures DoneBefore(Adjacent(s.adj), st.order + [u], st.parent[u := from])
  {
    var o, par, adj := st.order + [u], st.parent[u := from], Adjacent(s.adj);
    forall i, k, y | 0 <= k < i < |o| && o[i] in par && par[o[i]].Some? && par[o[i]].value in o[..k] && adj(o[k], y)
      ensures y in o[..i]
    {
      if i < |st.order| {
        KeptDone(adj, st.order, st.parent, u, from, i, k, y);
      } else {
        assert o[i] == u && o[k] == st.order[k];
        NewDone(s, st, u, from, k, y);
      }
    }
  }

  /** An entry before `u` keeps its choice of next user. */
  lemma KeptLeast<K(!new)>(adjacent: (K, K) -> bool, less: (K, K) -> bool, order: seq<K>, parent: map<K, Option<K>>,
                           u: K, from: Option<K>, i: nat, y: K)
    requires LeastNext(adjacent, less, order, parent) && u !in order && i < |order|
    requires (order + [u])[i] in parent[u := from] && parent[u := from][(order + [u])[i]].Some?
    requires adjacent(parent[u := from][(order + [u])[i]].value, y) && y !in (order + [u])[..i]
    ensures y == (order + [u])[i] || less((order + [u])[i], y)
  {
    var o := order + [u];
    assert o[..i] == order[..i];
    assert o[i] == order[i] && order[i] != u;
  }

  lemma KeptDone<K(!new)>(adjacent: (K, K) -> bool, order: seq<K>, parent: map<K, Option<K>>,
                          u: K, from: Option<K>, i: nat, k: nat, y: K)
    requires DoneBefore(adjacent, order, parent) && u !in order && k < i < |order|
    requires (order + [u])[i] in parent[u := from] && parent[u := from][(order + [u])[i]].Some?
    requires parent[u := from][(order + [u])[i]].value in (order + [u])[..k] && adjacent((order + [u])[k], y)
    ensures y in (order + [u])[..i]
  {
    var o := order + [u];
    assert o[..i] == order[..i] && o[..k] == order[..k];
    assert o[i] == order[i] && o[k] == order[k] && order[i] != u;
  }

  /** Every id entered after the parent of `u` had its neighbours visited. */
  lemma NewDone(s: Store, st: Scope, u: nat, from: Option<nat>, k: nat, y: nat)
    requires Keyed(st) && Listed(st) && Preorder(st.order, st.tin) && NextOk(s, st, u, from)
    requires k < |st.order| && from.Some? && from.value in (st.order + [u])[..k] && Adjacent(s.adj)(st.order[k], y)
    ensures y in (st.order + [u])[..|st.order|]
  {
    var j :| 0 <= j < k && (st.order + [u])[..k][j] == from.value;
    assert st.order[j] == from.value;
    assert st.order[k] in st.tin && st.tin[st.order[j]] < st.tin[st.order[k]];
    assert (st.order + [u])[..|st.order|] == st.order;
  }

  lemma EnterSequenced(s: Store, st: Scope, u: nat, from: Option<nat>, d: nat)
    requires Keyed(st) && Listed(st) && Bounds(st) && u !in st.visited
    requires Sequenced(s, st) && NextOk(s, st, u, from)
    ensures Sequenced(s, Entered(st, u, from, d)) && LastEntered(Entered(st, u, from, d), u)
  {
    var e := Entered(st, u, from, d);
    EnterPreorder(st.order, st.tin, u, st.timer);
    EnterDiscovered(st.order, st.parent, u, from);
    EnterBacktracks(s, st, u, from);
    EnterEnclosed(s, st, u, from, d);
    assert e.order == st.order + [u] && e.parent == st.parent[u := from];
  }

  /** What `u` may assume when it records its exit: it is visited and
      unfinished, every id entered after it is finished, every id finished
      before it was entered, and its neighbours have all been visited. */
  ghost predicate LeaveOk(adj: seq<set<nat>>, st: Scope, u: nat)
  {
    && u in st.visited && u in st.tin && u !in st.tout && u < |adj|
    && (forall v :: v in st.tin && v != u && st.tin[v] >= st.tin[u] ==> v in st.tout)
    && (forall v :: v in st.tout && v in st.tin && st.tin[v] < st.tin[u] ==> st.tout[v] < st.tin[u])
    && (forall y :: y in adj[u] ==> y in st.visited)
  }

  lemma LeaveSized(st: Scope, u: nat)
    requires Sized(st) && u !in st.tout
    ensures Sized(Left(st, u))
  {
  }

  lemma LeaveBounds(st: Scope, u: nat)
    requires Bounds(st) && u in st.tin
    ensures Bounds(Left(st, u))
  {
  }

  lemma LeaveDistinct(st: Scope, u: nat)
    requires Keyed(st) && Bounds(st) && Distinct(st) && u !in st.tout
    ensures Distinct(Left(st, u))
  {
    StampInjective(st.tout, u, st.timer);
    StampApart(st.tin, st.tout, u, st.timer);
  }

  lemma LeaveNested(adj: seq<set<nat>>, st: Scope, u: nat)
    requires Keyed(st) && Bounds(st) && Nested(st.tin, st.tout) && LeaveOk(adj, st, u)
    ensures Nested(Left(st, u).tin, Left(st, u).tout)
  {
    var l := Left(st, u);
    forall v, w | v in l.tin && w in l.tin && v in l.tout && w in l.tout && l.tin[v] < l.tin[w]
      ensures l.tout[v] < l.tin[w] || l.tout[w] < l.tout[v]
    {
      if v == u {
        assert w in st.tout;
      } else if w == u {
        assert v in st.tout;
      }
    }
  }

  lemma LeaveInside(adj: seq<set<nat>>, st: Scope, u: nat)
    requires Keyed(st) && Bounds(st) && Inside(st) && LeaveOk(adj, st, u)
    ensures Inside(Left(st, u))
  {
    var l := Left(st, u);
    forall v | v in l.parent && l.parent[v].Some? && l.parent[v].value in l.tout
      ensures v in l.tout && l.tout[v] < l.tout[l.parent[v].value]
    {
      if l.parent[v].value == u {
        assert v in st.tout;
      }
    }
  }

  lemma LeaveExplored(adj: seq<set<nat>>, st: Scope, u: nat)
    requires Explored(adj, st) && LeaveOk(adj, st, u)
    ensures Explored(adj, Left(st, u))
  {
  }

  /** Leaving `u` keeps the invariant and finishes `u`. */
  lemma LeaveStep(adj: seq<set<nat>>, start: nat, st: Scope, u: nat)
    requires Inv(adj, start, st) && LeaveOk(adj, st, u)
    ensures Inv(adj, start, Left(st, u))
  {
    LeaveSized(st, u);
    LeaveBounds(st, u);
    LeaveDistinct(st, u);
    LeaveNested(adj, st, u);
    LeaveInside(adj, st, u);
    LeaveExplored(adj, st, u);
  }

  /** The loop of `dfs(u, d)`, entered in state `e`, after it has tried the
      first `i` ids of `neighbors`: the invariant holds, nothing recorded in `e`
      has changed, every id visited since is finished, and the ids tried have
      been visited. */
  ghost predicate Progress(adj: seq<set<nat>>, start: nat, e: Scope, cur: Scope, neighbors: seq<nat>, i: nat)
  {
    && Inv(adj, start, cur) && Extends(e, cur) && Fresh(e, cur, e.timer)
    && i <= |neighbors|
    && (forall j :: 0 <= j < i ==> neighbors[j] in cur.visited)
  }

  /** What the loop of `dfs(u, d)` may assume of the state `e` it starts from:
      `u` is entered at depth `d` and not finished. */
  ghost predicate Looping(adj: seq<set<nat>>, start: nat, e: Scope, u: nat, d: nat)
  {
    && Inv(adj, start, e) && u < |adj| && start in e.visited
    && u in e.visited && u !in e.tout && u in e.depth && e.depth[u] == d
  }

  /** Entering `u` starts the loop. */
  lemma Started(adj: seq<set<nat>>, start: nat, st: Scope, u: nat, from: Option<nat>, d: nat)
    requires Inv(adj, start, st) && CallOk(adj, start, st, u, from, d)
    ensures Looping(adj, start, Entered(st, u, from, d), u, d)
    ensures Ids(|adj|) - (Entered(st, u, from, d).visited - {u}) == Ids(|adj|) - st.visited
  {
    EnterStep(adj, start, st, u, from, d);
    AddRemove(st.visited, u);
  }

  lemma AddRemove(a: set<nat>, u: nat)
    requires u !in a
    ensures (a + {u}) - {u} == a
  {
  }

  /** An unvisited neighbour `v` of `u` may be entered from `u`, and the
      visited set has grown since `u` was entered. */
  lemma DescendCall(adj: seq<set<nat>>, start: nat, e: Scope, u: nat, d: nat,
                cur: Scope, neighbors: seq<nat>, i: nat, v: nat)
    requires Looping(adj, start, e, u, d) && Progress(adj, start, e, cur, neighbors, i)
    requires Bounded(adj) && v in adj[u] && v !in cur.visited
    ensures CallOk(adj, start, cur, v, Some(u), d + 1)
    ensures Ids(|adj|) - cur.visited < Ids(|adj|) - (e.visited - {u})
  {
    assert u in Ids(|adj|) - (e.visited - {u});
  }

  /** `u` is the id entered last in state `e`. */
  ghost predicate LastEntered(e: Scope, u: nat)
  {
    u in e.tin && forall x :: x in e.tin ==> e.tin[x] <= e.tin[u]
  }

  /** The neighbour tried next, when unvisited, may be entered from `u`: it is
      the least unvisited neighbour of `u`, and every id entered since `u` is
      finished with all its neighbours visited. */
  lemma Descend(s: Store, start: nat, e: Scope, u: nat, d: nat, cur: Scope, neighbors: seq<nat>, i: nat)
    requires Looping(s.adj, start, e, u, d) && Progress(s.adj, start, e, cur, neighbors, i) && i < |neighbors|
    requires Bounded(s.adj) && LastEntered(e, u)
    requires SortedBy(IdLess(s), neighbors) && forall y :: y in neighbors <==> y in s.adj[u]
    requires neighbors[i] !in cur.visited
    ensures CallOk(s.adj, start, cur, neighbors[i], Some(u), d + 1) && NextOk(s, cur, neighbors[i], Some(u))
    ensures Ids(|s.adj|) - cur.visited < Ids(|s.adj|) - (e.visited - {u})
  {
    DescendCall(s.adj, start, e, u, d, cur, neighbors, i, neighbors[i]);
    DescendNext(s, start, e, u, d, cur, neighbors, i);
  }

  lemma DescendNext(s: Store, start: nat, e: Scope, u: nat, d: nat, cur: Scope, neighbors: seq<nat>, i: nat)
    requires Looping(s.adj, start, e, u, d) && Progress(s.adj, start, e, cur, neighbors, i) && i < |neighbors|
    requires LastEntered(e, u)
    requires SortedBy(IdLess(s), neighbors) && forall y :: y in neighbors <==> y in s.adj[u]
    requires neighbors[i] !in cur.visited
    ensures NextOk(s, cur, neighbors[i], Some(u))
  {
    DescendLeast(s, cur, u, neighbors, i);
    DescendDone(s, e, cur, u);
  }

  /** The neighbours before `neighbors[i]` are visited, so it is the least
      unvisited one. */
  lemma DescendLeast(s: Store, cur: Scope, u: nat, neighbors: seq<nat>, i: nat)
    requires i < |neighbors| && (forall j :: 0 <= j < i ==> neighbors[j] in cur.visited)
    requires SortedBy(IdLess(s), neighbors) && u < |s.adj| && forall y :: y in neighbors <==> y in s.adj[u]
    requires neighbors[i] !in cur.visited
    ensures forall y :: Adjacent(s.adj)(u, y) && y !in cur.visited ==> y == neighbors[i] || IdLess(s)(neighbors[i], y)
  {
    forall y | Adjacent(s.adj)(u, y) && y !in cur.visited
      ensures y == neighbors[i] || IdLess(s)(neighbors[i], y)
    {
      var m :| 0 <= m < |neighbors| && neighbors[m] == y;
      assert m >= i;
    }
  }

  /** Every id entered after `u` was entered after `e`, so it is finished and
      its neighbours are visited. */
  lemma DescendDone(s: Store, e: Scope, cur: Scope, u: nat)
    requires Keyed(e) && Keyed(cur) && LastEntered(e, u) && Extends(e, cur)
    requires Fresh(e, cur, e.timer) && Explored(s.adj, cur)
    ensures u in cur.tin
    ensures forall x, y :: x in cur.tin && cur.tin[u] < cur.tin[x] && Adjacent(s.adj)(x, y) ==> y in cur.visited
    ensures forall x :: x in cur.tin && cur.tin[u] < cur.tin[x] ==> x in cur.tout
  {
    forall x | x in cur.tin && cur.tin[u] < cur.tin[x]
      ensures x in cur.tout
    {
      assert x !in e.visited;
    }
    forall x, y | x in cur.tin && cur.tin[u] < cur.tin[x] && Adjacent(s.adj)(x, y)
      ensures y in cur.visited
    {
      assert x !in e.visited;
    }
  }

  /** A finished recursive call on a neighbour moves the loop on by one
      neighbour. */
  lemma Stepped(adj: seq<set<nat>>, start: nat, e: Scope, cur: Scope, neighbors: seq<nat>, i: nat, next: Scope)
    requires Progress(adj, start, e, cur, neighbors, i) && i < |neighbors|
    requires Inv(adj, start, next) && Extends(cur, next) && Fresh(cur, next, cur.timer)
    requires neighbors[i] in next.visited
    ensures Progress(adj, start, e, next, neighbors, i + 1)
  {
    Chain(e, cur, next);
  }

  /** So does a neighbour already visited. */
  lemma Skipped(adj: seq<set<nat>>, start: nat, e: Scope, cur: Scope, neighbors: seq<nat>, i: nat)
    requires Progress(adj, start, e, cur, neighbors, i) && i < |neighbors|
    requires neighbors[i] in cur.visited
    ensures Progress(adj, start, e, cur, neighbors, i + 1)
  {
  }

  /** `cur` is a state inside the call `dfs(u, d)` made in state `st`: nothing
      recorded in `st` has changed, `u` is entered with its parent, depth, order
      position and entry stamp, not finished, and every other id visited since
      was entered later and is finished. */
  ghost predicate Within(st: Scope, u: nat, from: Option<nat>, d: nat, cur: Scope)
  {
    && Extends(st, cur) && u !in st.visited
    && u in cur.visited && u in cur.tin && cur.tin[u] == st.timer && u !in cur.tout
    && u in cur.parent && cur.parent[u] == from && u in cur.depth && cur.depth[u] == d
    && |st.order| < |cur.order| && cur.order[|st.order|] == u
    && (forall v :: v in cur.visited && v !in st.visited && v != u ==>
          v in cur.tin && v in cur.tout && st.timer < cur.tin[v])
  }

  lemma Unentered(st: Scope, u: nat, from: Option<nat>, d: nat, cur: Scope)
    requires Keyed(st) && u !in st.visited
    requires Extends(Entered(st, u, from, d), cur)
    requires Fresh(Entered(st, u, from, d), cur, Entered(st, u, from, d).timer)
    ensures Within(st, u, from, d, cur)
  {
    var e := Entered(st, u, from, d);
    EnterExtends(st, u, from, d);
    ExtendsTrans(st, e, cur);
    assert e.order[|st.order|] == u;
  }

  lemma ExtendsTrans(a: Scope, b: Scope, c: Scope)
    requires Extends(a, b) && Extends(b, c)
    ensures Extends(a, c)
  {
  }

  /** Leaving `u` once the loop is over ends `dfs(u, d)` with everything it
      promises. */
  lemma Finished(adj: seq<set<nat>>, start: nat, st: Scope, u: nat, from: Option<nat>, d: nat, cur: Scope)
    requires Inv(adj, start, st) && CallOk(adj, start, st, u, from, d)
    requires Inv(adj, start, cur) && Extends(Entered(st, u, from, d), cur)
    requires Fresh(Entered(st, u, from, d), cur, Entered(st, u, from, d).timer)
    requires forall y :: y in adj[u] ==> y in cur.visited
    ensures Inv(adj, start, Left(cur, u))
    ensures Extends(st, Left(cur, u)) && Fresh(st, Left(cur, u), st.timer)
    ensures u in Left(cur, u).visited && u in Left(cur, u).tout
    ensures Left(cur, u).parent[u] == from && Left(cur, u).depth[u] == d
    ensures |st.order| < |Left(cur, u).order| && Left(cur, u).order[|st.order|] == u
  {
    Unentered(st, u, from, d, cur);
    ReadyToLeave(adj, st, u, from, d, cur);
    LeaveStep(adj, start, cur, u);
    LeaveExtends(st, u, from, d, cur);
  }

  /** What leaving `u` keeps of the state before the call. */
  lemma LeaveExtends(st: Scope, u: nat, from: Option<nat>, d: nat, cur: Scope)
    requires Keyed(st) && Within(st, u, from, d, cur)
    ensures Extends(st, Left(cur, u)) && Fresh(st, Left(cur, u), st.timer)
  {
    var l := Left(cur, u);
    forall v | v in st.visited
      ensures v in l.tout <==> v in st.tout
    {
      assert v != u;
    }
    forall v | v in st.tout
      ensures v in l.tout && l.tout[v] == st.tout[v]
    {
      assert v != u;
    }
    forall v | v in l.visited && v !in st.visited
      ensures v in l.tin && v in l.tout && st.timer <= l.tin[v]
    {
    }
  }

  /** Later states compose. */
  lemma Chain(a: Scope, b: Scope, c: Scope)
    requires Extends(a, b) && Extends(b, c) && Fresh(a, b, a.timer) && Fresh(b, c, b.timer)
    ensures Extends(a, c) && Fresh(a, c, a.timer)
  {
  }

  /** Inside `dfs(u, d)`, after its loop: the facts `LeaveOk` asks for. */
  lemma ReadyToLeave(adj: seq<set<nat>>, st: Scope, u: nat, from: Option<nat>, d: nat, cur: Scope)
    requires Keyed(st) && Bounds(st) && u < |adj| && Keyed(cur) && Within(st, u, from, d, cur)
    requires forall y :: y in adj[u] ==> y in cur.visited
    ensures LeaveOk(adj, cur, u)
  {
    forall v | v in cur.tin && v != u && cur.tin[v] >= cur.tin[u]
      ensures v in cur.tout
    {
    }
    forall v | v in cur.tout && v in cur.tin && cur.tin[v] < cur.tin[u]
      ensures cur.tout[v] < cur.tin[u]
    {
      assert v in st.visited;
      assert v in st.tout && cur.tout[v] == st.tout[v];
    }
  }

  /** The inner `dfs(u, d)` of `dfs_traversal`, with the caller's
      `parent[u] = from` done first: enter `u` and recurse into its neighbours
      (`Expand`), then leave `u`. Every id it visits is finished when it
      returns, inside the stamps of `u`. */
  method Visit(s: Store, start: nat, u: nat, from: Option<nat>, d: nat, st: Scope) returns (st': Scope)
    requires Searchable(s) && Inv(s.adj, start, st) && CallOk(s.adj, start, st, u, from, d)
    requires Sequenced(s, st) && NextOk(s, st, u, from)
    ensures Inv(s.adj, start, st') && Sequenced(s, st')
    ensures Extends(st, st') && Fresh(st, st', st.timer)
    ensures u in st'.visited && u in st'.tout && st'.parent[u] == from && st'.depth[u] == d
    ensures |st.order| < |st'.order| && st'.order[|st.order|] == u
    decreases Ids(|s.adj|) - st.visited, 3
  {
    var cur := Expand(s, start, u, from, d, st);
    Finished(s.adj, start, st, u, from, d, cur);
    LeaveSequenced(s, st, u, from, d, cur);
    st' := Left(cur, u);
  }

  /** Leaving `u` changes only exit stamps, and `u` was still open. */
  lemma LeaveSequenced(s: Store, st: Scope, u: nat, from: Option<nat>, d: nat, cur: Scope)
    requires Keyed(st) && u !in st.visited && Extends(Entered(st, u, from, d), cur) && Sequenced(s, cur)
    ensures Sequenced(s, Left(cur, u))
  {
    assert u in Entered(st, u, from, d).visited && u !in cur.tout;
    LeaveEnclosed(cur, u);
  }

  /** The first part of `dfs(u, d)`: record the entry of `u`, then run the
      loop over its neighbours. */
  method Expand(s: Store, start: nat, u: nat, from: Option<nat>, d: nat, st: Scope) returns (cur: Scope)
    requires Searchable(s) && Inv(s.adj, start, st) && CallOk(s.adj, start, st, u, from, d)
    requires Sequenced(s, st) && NextOk(s, st, u, from)
    ensures Inv(s.adj, start, cur) && Sequenced(s, cur) && Extends(Entered(st, u, from, d), cur)
    ensures Fresh(Entered(st, u, from, d), cur, Entered(st, u, from, d).timer)
    ensures forall y :: y in s.adj[u] ==> y in cur.visited
    decreases Ids(|s.adj|) - st.visited, 2
  {
    Started(s.adj, start, st, u, from, d);
    EnterSequenced(s, st, u, from, d);
    cur := Explore(s, start, Entered(st, u, from, d), u, d);
  }

  /** The loop of `dfs(u, d)`, from the state `e` that has recorded the entry
      of `u`: recurse into each neighbour of `u` not yet visited, in ascending
      name order. */
  method Explore(s: Store, start: nat, e: Scope, u: nat, d: nat) returns (cur: Scope)
    requires Searchable(s) && Looping(s.adj, start, e, u, d) && LastEntered(e, u) && Sequenced(s, e)
    ensures Inv(s.adj, start, cur) && Sequenced(s, cur) && Extends(e, cur) && Fresh(e, cur, e.timer)
    ensures forall y :: y in s.adj[u] ==> y in cur.visited
    decreases Ids(|s.adj|) - (e.visited - {u}), 1
  {
    var neighbors := NeighborsByName(s, u);
    cur := e;
    var i := 0;
    while i < |neighbors|
      invariant Progress(s.adj, start, e, cur, neighbors, i) && Sequenced(s, cur)
    {
      cur := Try(s, start, e, u, d, cur, neighbors, i);
      i := i + 1;
    }
  }

  /** One turn of the loop of `dfs(u, d)`: recurse into `neighbors[i]` when
      it is unvisited. */
  method Try(s: Store, start: nat, e: Scope, u: nat, d: nat, cur: Scope, neighbors: seq<nat>, i: nat)
      returns (next: Scope)
    requires Searchable(s) && Looping(s.adj, start, e, u, d) && LastEntered(e, u)
    requires SortedBy(IdLess(s), neighbors) && forall y :: y in neighbors <==> y in s.adj[u]
    requires Progress(s.adj, start, e, cur, neighbors, i) && i < |neighbors| && Sequenced(s, cur)
    ensures Progress(s.adj, start, e, next, neighbors, i + 1) && Sequenced(s, next)
    decreases Ids(|s.adj|) - (e.visited - {u}), 0
  {
    var v := neighbors[i];
    if v !in cur.visited {
      Descend(s, start, e, u, d, cur, neighbors, i);
      next := Visit(s, start, v, Some(u), d + 1, cur);
      Stepped(s.adj, start, e, cur, neighbors, i, next);
    } else {
      Skipped(s.adj, start, e, cur, neighbors, i);
      next := cur;
    }
  }

  // ---------------------------------------------------------------------------
  // `dfs_traversal`

  /** The state before the first call: nothing visited, the timer at 1. */
  function Initial(): (st: Scope)
    ensures st.visited == {} && st.order == [] && st.timer == 1
    ensures st.tin == map[] && st.tout == map[] && st.parent == map[] && st.depth == map[]
  {
    Scope({}, map[], map[], [], map[], map[], 1)
  }

  lemma InitialInv(adj: seq<set<nat>>, start: nat)
    ensures Inv(adj, start, Initial())
  {
  }

  /** `dfs_traversal(graph, start_user)`, the full result without `time_ms`. */
  method DfsTraversal(s: Store, startUser: string) returns (res: DfsResult)
    requires s.Valid()
    ensures startUser !in s.ids ==> res == DfsResult([], map[], map[], map[], map[])
    ensures startUser in s.ids ==> IsDfsResult(s, startUser, res)
    ensures startUser in s.ids ==> EntersInOrder(s, res)
  {
    if startUser !in s.ids {
      return DfsResult([], map[], map[], map[], map[]);
    }
    var start := s.ids[startUser];
    ValidSearchable(s);
    InitialInv(s.adj, start);
    var st := Visit(s, start, start, None, 0, Initial());
    Completed(s.adj, start, st);
    InRange(s, start, st);
    res := Named(s, st);
    PublishedShape(s, startUser, st);
    NamedEnclosing(s, st);
    PublishedOrder(s, st);
  }

  /** The traversal's promises on ids give the shape of the result on names. */
  lemma PublishedShape(s: Store, startUser: string, st: Scope)
    requires s.Valid() && startUser in s.ids && Traversed(s.adj, s.ids[startUser], st)
    requires forall i :: 0 <= i < |st.order| ==> st.order[i] < |s.users|
    requires forall x :: x in st.parent && st.parent[x].Some? ==> st.parent[x].value < |s.users|
    ensures var r := Named(s, st);
      ListsReachable(s, startUser, r) && Stamped(r.tin, r.tout, |r.order|) && Nested(r.tin, r.tout)
      && ChildrenInside(r.parent, r.tin, r.tout)
  {
    NamedResult(s, startUser, st, Named(s, st));
  }

  /** Users entered inside a named user's stamps have their named parents
      entered inside them too. */
  lemma NamedEnclosing(s: Store, st: Scope)
    requires s.Valid() && Enclosing(st.parent, st.tin, st.tout)
    requires forall i :: 0 <= i < |st.order| ==> st.order[i] < |s.users|
    requires forall x :: x in st.parent && st.parent[x].Some? ==> st.parent[x].value < |s.users|
    ensures var r := Named(s, st); Enclosing(r.parent, r.tin, r.tout)
  {
    var r := Named(s, st);
    forall v, w | v in r.tin && w in r.tin
      ensures InsideHasParentInside(r.parent, r.tin, r.tout, v, w)
    {
      NamedEnclosingAt(s, st, v, w);
    }
  }

  /** One pair of `NamedEnclosing`. */
  lemma NamedEnclosingAt(s: Store, st: Scope, v: string, w: string)
    requires s.Valid() && Enclosing(st.parent, st.tin, st.tout)
    requires forall i :: 0 <= i < |st.order| ==> st.order[i] < |s.users|
    requires forall x :: x in st.parent && st.parent[x].Some? ==> st.parent[x].value < |s.users|
    ensures var r := Named(s, st); InsideHasParentInside(r.parent, r.tin, r.tout, v, w)
  {
    var r := Named(s, st);
    if v in r.tin && v in r.tout && w in r.tin && w in r.parent && r.tin[v] < r.tin[w] < r.tout[v] {
      assert InsideHasParentInside(st.parent, st.tin, st.tout, s.ids[v], s.ids[w]);
      var p := st.parent[s.ids[w]].value;
      assert s.ids[s.users[p]] == p;
    }
  }

  /** The order of entry on ids gives that on names. */
  lemma PublishedOrder(s: Store, st: Scope)
    requires s.Valid() && Sequenced(s, st)
    requires forall i :: 0 <= i < |st.order| ==> st.order[i] < |s.users|
    requires forall x :: x in st.parent && st.parent[x].Some? ==> st.parent[x].value < |s.users|
    ensures EntersInOrder(s, Named(s, st))
  {
    NamedSequenced(s, st, Named(s, st));
  }

  /** Once the call on the start returns, every visited id is finished, and the
      invariant gives the promises of the traversal. */
  lemma Completed(adj: seq<set<nat>>, start: nat, st: Scope)
    requires Bounded(adj) && start < |adj|
    requires Inv(adj, start, st) && Fresh(Initial(), st, 1) && Enclosed(st)
    requires start in st.visited && st.order != [] && st.order[0] == start
    ensures Traversed(adj, start, st) && Enclosing(st.parent, st.tin, st.tout)
  {
    AllFinished(st);
    CompletedEnclosing(st);
    CompletedStamps(adj, start, st);
    CompletedReach(adj, start, st);
  }

  /** Once every id is finished, `Enclosed` is `Enclosing`. */
  lemma CompletedEnclosing(st: Scope)
    requires Keyed(st) && Enclosed(st) && st.tout.Keys == st.visited
    ensures Enclosing(st.parent, st.tin, st.tout)
  {
    forall v, w | v in st.tin && w in st.tin
      ensures InsideHasParentInside(st.parent, st.tin, st.tout, v, w)
    {
    }
  }

  lemma AllFinished(st: Scope)
    requires Keyed(st) && Fresh(Initial(), st, 1)
    ensures st.tout.Keys == st.visited
  {
  }

  lemma CompletedStamps(adj: seq<set<nat>>, start: nat, st: Scope)
    requires Keyed(st) && Sized(st) && Bounds(st) && Distinct(st) && Inside(st)
    requires st.tout.Keys == st.visited
    ensures Stamped(st.tin, st.tout, |st.order|)
    ensures ChildrenInside(st.parent, st.tin, st.tout)
  {
    assert |st.tout| == |st.tout.Keys| == |st.tin.Keys| == |st.tin|;
  }

  lemma CompletedReach(adj: seq<set<nat>>, start: nat, st: Scope)
    requires Bounded(adj) && start < |adj| && start in st.visited
    requires Keyed(st) && Listed(st) && Treed(adj, start, st) && Explored(adj, st)
    requires st.tout.Keys == st.visited
    ensures forall x :: x in st.order <==> Reaches(adj, start, x)
  {
    forall x | x in st.order
      ensures Reaches(adj, start, x)
    {
      var w := TreeWalk(adj, start, st.parent, st.depth, x);
    }
    forall x, y | x in st.visited && x < |adj| && y in adj[x]
      ensures y in st.visited
    {
      assert x in st.tout;
    }
    forall w | IsWalk(adj, w) && w[0] == start
      ensures w[|w| - 1] in st.order
    {
      ClosedHoldsWalk(adj, st.visited, w);
    }
  }

  lemma InRange(s: Store, start: nat, st: Scope)
    requires |s.adj| == |s.users| && IsTree(s.adj, start, st.parent, st.depth)
    requires st.parent.Keys == st.tin.Keys && forall x :: x in st.order ==> x in st.tin
    ensures forall i :: 0 <= i < |st.order| ==> st.order[i] < |s.users|
    ensures forall x :: x in st.parent && st.parent[x].Some? ==> st.parent[x].value < |s.users|
  {
    forall i | 0 <= i < |st.order|
      ensures st.order[i] < |s.users|
    {
      assert st.order[i] in st.tin;
    }
  }

  /** The result of the traversal, keyed by name (`get_name` applied to every
      id of `order_ids`, every key of `parent`, `depth`, `tin`, `tout` and every
      parent). */
  function Named(s: Store, st: Scope): (r: DfsResult)
    requires s.Valid()
    requires forall i :: 0 <= i < |st.order| ==> st.order[i] < |s.users|
    requires forall x :: x in st.parent && st.parent[x].Some? ==> st.parent[x].value < |s.users|
    ensures |r.order| == |st.order| && forall i :: 0 <= i < |st.order| ==> r.order[i] == s.users[st.order[i]]
    ensures forall name :: name in r.parent <==> name in s.ids && s.ids[name] in st.parent
    ensures forall name :: name in r.parent ==> r.parent[name] == NameOf(s, st.parent[s.ids[name]])
    ensures Renaming(s, st.depth, r.depth) && Renaming(s, st.tin, r.tin) && Renaming(s, st.tout, r.tout)
  {
    DfsResult(
      NamesOf(s, st.order),
      map name | name in s.ids && s.ids[name] in st.parent :: NameOf(s, st.parent[s.ids[name]]),
      map name | name in s.ids && s.ids[name] in st.depth :: st.depth[s.ids[name]],
      map name | name in s.ids && s.ids[name] in st.tin :: st.tin[s.ids[name]],
      map name | name in s.ids && s.ids[name] in st.tout :: st.tout[s.ids[name]])
  }

  /** `named` holds the entries of `m` under the names of their ids. */
  ghost predicate Renaming<V>(s: Store, m: map<nat, V>, named: map<string, V>)
  {
    && (forall name :: name in named <==> name in s.ids && s.ids[name] in m)
    && (forall name :: name in named ==> named[name] == m[s.ids[name]])
  }

  /** The promises on ids carry over to names. */
  lemma NamedResult(s: Store, startUser: string, st: Scope, r: DfsResult)
    requires s.Valid() && startUser in s.ids
    requires Traversed(s.adj, s.ids[startUser], st)
    requires forall i :: 0 <= i < |st.order| ==> st.order[i] < |s.users|
    requires forall x :: x in st.parent && st.parent[x].Some? ==> st.parent[x].value < |s.users|
    requires |r.order| == |st.order| && forall i :: 0 <= i < |st.order| ==> r.order[i] == s.users[st.order[i]]
    requires forall name :: name in r.parent <==> name in s.ids && s.ids[name] in st.parent
    requires forall name :: name in r.parent ==> r.parent[name] == NameOf(s, st.parent[s.ids[name]])
    requires Renaming(s, st.depth, r.depth) && Renaming(s, st.tin, r.tin) && Renaming(s, st.tout, r.tout)
    ensures ListsReachable(s, startUser, r)
    ensures Stamped(r.tin, r.tout, |r.order|) && Nested(r.tin, r.tout) && ChildrenInside(r.parent, r.tin, r.tout)
  {
    NamedShape(s, startUser, st, r);
    NamedStamps(s, st.tin, st.tout, |st.order|, r.tin, r.tout);
    NamedChildren(s, st.parent, st.tin, st.tout, r.parent, r.tin, r.tout);
  }

  lemma NamedShape(s: Store, startUser: string, st: Scope, r: DfsResult)
    requires s.Valid() && startUser in s.ids
    requires st.order != [] && st.order[0] == s.ids[startUser] && NoDuplicates(st.order)
    requires forall x :: x in st.order <==> Reaches(s.adj, s.ids[startUser], x)
    requires forall x :: x in st.tin <==> x in st.order
    requires st.parent.Keys == st.tin.Keys && IsTree(s.adj, s.ids[startUser], st.parent, st.depth)
    requires forall i :: 0 <= i < |st.order| ==> st.order[i] < |s.users|
    requires forall x :: x in st.parent && st.parent[x].Some? ==> st.parent[x].value < |s.users|
    requires |r.order| == |st.order| && forall i :: 0 <= i < |st.order| ==> r.order[i] == s.users[st.order[i]]
    requires forall name :: name in r.parent <==> name in s.ids && s.ids[name] in st.parent
    requires forall name :: name in r.parent ==> r.parent[name] == NameOf(s, st.parent[s.ids[name]])
    requires Renaming(s, st.depth, r.depth) && Renaming(s, st.tin, r.tin)
    ensures ListsReachable(s, startUser, r)
  {
    NamedTree(s, startUser, s.ids[startUser], st.parent, st.depth, r.depth, r.parent);
    NamedOrder(s, startUser, st.order, st.tin, r.order, r.tin);
    SameKeys(s, st.tin.Keys, r.parent.Keys, r.tin.Keys);
  }

  /** The named order lists the reachable users once each, the start first, and
      they are the users with an entry stamp. */
  lemma NamedOrder(s: Store, startUser: string, order: seq<nat>, tin: map<nat, nat>,
                   names: seq<string>, tinNamed: map<string, nat>)
    requires s.Valid() && startUser in s.ids
    requires order != [] && order[0] == s.ids[startUser] && NoDuplicates(order)
    requires forall x :: x in order <==> Reaches(s.adj, s.ids[startUser], x)
    requires forall x :: x in tin <==> x in order
    requires forall i :: 0 <= i < |order| ==> order[i] < |s.users|
    requires |names| == |order| && forall i :: 0 <= i < |order| ==> names[i] == s.users[order[i]]
    requires Renaming(s, tin, tinNamed)
    ensures names != [] && names[0] == startUser && NoDuplicates(names)
    ensures forall x :: x in names <==> x in s.ids && Reachable(s, startUser, x)
    ensures forall x :: x in tinNamed <==> x in names
  {
    NamedReachable(s, startUser, order, names);
    forall x | x in s.ids && s.ids[x] in order
      ensures x in names
    {
      var i :| 0 <= i < |order| && order[i] == s.ids[x];
      assert names[i] == x;
    }
  }

  /** Distinct users have distinct ids, so the named stamps keep their
      properties. */
  lemma NamedStamps(s: Store, tin: map<nat, nat>, tout: map<nat, nat>, k: nat,
                    tinNamed: map<string, nat>, toutNamed: map<string, nat>)
    requires s.Valid() && Stamped(tin, tout, k) && Nested(tin, tout)
    requires Renaming(s, tin, tinNamed) && Renaming(s, tout, toutNamed)
    ensures Stamped(tinNamed, toutNamed, k) && Nested(tinNamed, toutNamed)
  {
    IdsDistinct(s);
    NamedStamped(s, tin, tout, k, tinNamed, toutNamed);
    NamedNested(s, tin, tout, tinNamed, toutNamed);
  }

  lemma IdsDistinct(s: Store)
    requires s.Valid()
    ensures forall a, b :: a in s.ids && b in s.ids && a != b ==> s.ids[a] != s.ids[b]
  {
    forall a, b | a in s.ids && b in s.ids && a != b
      ensures s.ids[a] != s.ids[b]
    {
      assert s.users[s.ids[a]] == a && s.users[s.ids[b]] == b;
    }
  }

  lemma NamedStamped(s: Store, tin: map<nat, nat>, tout: map<nat, nat>, k: nat,
                     tinNamed: map<string, nat>, toutNamed: map<string, nat>)
    requires Stamped(tin, tout, k) && forall a, b :: a in s.ids && b in s.ids && a != b ==> s.ids[a] != s.ids[b]
    requires Renaming(s, tin, tinNamed) && Renaming(s, tout, toutNamed)
    ensures Stamped(tinNamed, toutNamed, k)
  {
  }

  lemma NamedNested(s: Store, tin: map<nat, nat>, tout: map<nat, nat>,
                    tinNamed: map<string, nat>, toutNamed: map<string, nat>)
    requires Nested(tin, tout) && Renaming(s, tin, tinNamed) && Renaming(s, tout, toutNamed)
    ensures Nested(tinNamed, toutNamed)
  {
  }

  /** A named child's stamps lie inside those of its named parent. */
  lemma NamedChildren(s: Store, parent: map<nat, Option<nat>>, tin: map<nat, nat>, tout: map<nat, nat>,
                      parentNamed: map<string, Option<string>>, tinNamed: map<string, nat>, toutNamed: map<string, nat>)
    requires s.Valid() && ChildrenInside(parent, tin, tout)
    requires forall x :: x in parent && parent[x].Some? ==> parent[x].value < |s.users|
    requires forall name :: name in parentNamed <==> name in s.ids && s.ids[name] in parent
    requires forall name :: name in parentNamed ==> parentNamed[name] == NameOf(s, parent[s.ids[name]])
    requires Renaming(s, tin, tinNamed) && Renaming(s, tout, toutNamed)
    ensures ChildrenInside(parentNamed, tinNamed, toutNamed)
  {
    forall v | v in parentNamed && parentNamed[v].Some?
      ensures v in tinNamed && v in toutNamed
      ensures parentNamed[v].value in tinNamed && parentNamed[v].value in toutNamed
      ensures tinNamed[parentNamed[v].value] < tinNamed[v] && toutNamed[v] < toutNamed[parentNamed[v].value]
    {
      var p := parent[s.ids[v]].value;
      assert s.ids[s.users[p]] == p;
    }
  }

  /** The order facts on ids carry over to names: ids and names are ordered
      alike by `IdLess` and `LexLess`, and friendship is adjacency. */
  lemma NamedSequenced(s: Store, st: Scope, r: DfsResult)
    requires s.Valid() && Sequenced(s, st)
    requires forall i :: 0 <= i < |st.order| ==> st.order[i] < |s.users|
    requires forall x :: x in st.parent && st.parent[x].Some? ==> st.parent[x].value < |s.users|
    requires |r.order| == |st.order| && forall i :: 0 <= i < |st.order| ==> r.order[i] == s.users[st.order[i]]
    requires forall name :: name in r.parent <==> name in s.ids && s.ids[name] in st.parent
    requires forall name :: name in r.parent ==> r.parent[name] == NameOf(s, st.parent[s.ids[name]])
    requires Renaming(s, st.tin, r.tin)
    ensures EntersInOrder(s, r)
  {
    NamedPreorder(s, st.order, st.tin, r.order, r.tin);
    NamedDiscovered(s, st.order, st.parent, r.order, r.parent);
    NamedLeastNext(s, st.order, st.parent, r.order, r.parent);
    NamedDoneBefore(s, st.order, st.parent, r.order, r.parent);
  }

  lemma NamedPreorder(s: Store, order: seq<nat>, tin: map<nat, nat>, names: seq<string>, tinNamed: map<string, nat>)
    requires s.Valid() && forall i :: 0 <= i < |order| ==> order[i] < |s.users|
    requires |names| == |order| && forall i :: 0 <= i < |order| ==> names[i] == s.users[order[i]]
    requires Renaming(s, tin, tinNamed) && Preorder(order, tin)
    ensures Preorder(names, tinNamed)
  {
    forall i, j | 0 <= i < j < |names|
      ensures names[i] in tinNamed && names[j] in tinNamed && tinNamed[names[i]] < tinNamed[names[j]]
    {
      assert s.ids[names[i]] == order[i] && s.ids[names[j]] == order[j];
    }
  }

  lemma NamedLeastNext(s: Store, order: seq<nat>, parent: map<nat, Option<nat>>,
                       names: seq<string>, parentNamed: map<string, Option<string>>)
    requires s.Valid() && forall i :: 0 <= i < |order| ==> order[i] < |s.users|
    requires forall x :: x in parent && parent[x].Some? ==> parent[x].value < |s.users|
    requires |names| == |order| && forall i :: 0 <= i < |order| ==> names[i] == s.users[order[i]]
    requires forall name :: name in parentNamed <==> name in s.ids && s.ids[name] in parent
    requires forall name :: name in parentNamed ==> parentNamed[name] == NameOf(s, parent[s.ids[name]])
    requires LeastNext(Adjacent(s.adj), IdLess(s), order, parent)
    ensures LeastNext(FriendOf(s), LexLess, names, parentNamed)
  {
    forall i, y | 0 <= i < |names| && names[i] in parentNamed && parentNamed[names[i]].Some?
      && FriendOf(s)(parentNamed[names[i]].value, y) && y !in names[..i]
      ensures y == names[i] || LexLess(names[i], y)
    {
      assert s.ids[names[i]] == order[i];
      var p, m := parent[order[i]].value, s.ids[y];
      assert s.ids[s.users[p]] == p && s.users[m] == y;
      assert Adjacent(s.adj)(parent[order[i]].value, m);
      NamedPrefix(s, order, names, i, m);
    }
  }

  lemma NamedDoneBefore(s: Store, order: seq<nat>, parent: map<nat, Option<nat>>,
                        names: seq<string>, parentNamed: map<string, Option<string>>)
    requires s.Valid() && forall i :: 0 <= i < |order| ==> order[i] < |s.users|
    requires forall x :: x in parent && parent[x].Some? ==> parent[x].value < |s.users|
    requires |names| == |order| && forall i :: 0 <= i < |order| ==> names[i] == s.users[order[i]]
    requires forall name :: name in parentNamed <==> name in s.ids && s.ids[name] in parent
    requires forall name :: name in parentNamed ==> parentNamed[name] == NameOf(s, parent[s.ids[name]])
    requires DoneBefore(Adjacent(s.adj), order, parent)
    ensures DoneBefore(FriendOf(s), names, parentNamed)
  {
    forall i, k, y | 0 <= k < i < |names| && names[i] in parentNamed && parentNamed[names[i]].Some?
      && parentNamed[names[i]].value in names[..k] && FriendOf(s)(names[k], y)
      ensures y in names[..i]
    {
      assert s.ids[names[i]] == order[i] && s.ids[names[k]] == order[k];
      var p, m := parent[order[i]].value, s.ids[y];
      assert s.users[m] == y;
      NamedPrefix(s, order, names, k, p);
      assert Adjacent(s.adj)(order[k], m);
      NamedPrefix(s, order, names, i, m);
    }
  }

  /** An id is among the first `i` entries exactly when its name is. */
  lemma NamedPrefix(s: Store, order: seq<nat>, names: seq<string>, i: nat, x: nat)
    requires s.Valid() && forall i :: 0 <= i < |order| ==> order[i] < |s.users|
    requires |names| == |order| && forall i :: 0 <= i < |order| ==> names[i] == s.users[order[i]]
    requires i <= |order| && x < |s.users|
    ensures x in order[..i] <==> s.users[x] in names[..i]
  {
    if x in order[..i] {
      var m :| 0 <= m < i && order[..i][m] == x;
      assert names[..i][m] == s.users[x];
    }
    if s.users[x] in names[..i] {
      var m :| 0 <= m < i && names[..i][m] == s.users[x];
      assert s.ids[s.users[order[m]]] == order[m] && s.ids[s.users[x]] == x;
    }
  }

  /** Maps with the same ids as keys have the same names as keys. */
  lemma SameKeys(s: Store, ids: set<nat>, names: set<string>, names': set<string>)
    requires forall name :: name in names <==> name in s.ids && s.ids[name] in ids
    requires forall name :: name in names' <==> name in s.ids && s.ids[name] in ids
    ensures names == names'
  {
  }

  // ---------------------------------------------------------------------------
  // What the stamps say about the tree

  /** A user entered between the entry and exit of `v`, or `v` itself,
      descends from `v`. */
  lemma InsideDescends<K>(parent: map<K, Option<K>>, tin: map<K, nat>, tout: map<K, nat>, k: nat, v: K, w: K)
      returns (n: nat)
    requires Stamped(tin, tout, k) && ChildrenInside(parent, tin, tout) && Enclosing(parent, tin, tout)
    requires parent.Keys == tin.Keys && v in tin && w in tin && tin[v] <= tin[w] < tout[v]
    ensures DescendsIn(parent, v, w, n)
  {
    forall x | x in tin && x != v && tin[v] <= tin[x] < tout[v]
      ensures x in parent && parent[x].Some? && parent[x].value in tin && tin[v] <= tin[parent[x].value] < tin[x]
    {
      assert InsideHasParentInside(parent, tin, tout, v, x);
    }
    n := Climb(parent, tin, tout[v], v, w);
  }

  /** Climbing from `w` to `v` by parents, each entered no earlier than `v`
      and before the child, takes finitely many steps. */
  lemma {:induction false} Climb<K>(parent: map<K, Option<K>>, tin: map<K, nat>, end: nat, v: K, w: K)
      returns (n: nat)
    requires v in tin && w in tin && tin[v] <= tin[w] < end
    requires forall x :: x in tin && x != v && tin[v] <= tin[x] < end ==>
      x in parent && parent[x].Some? && parent[x].value in tin && tin[v] <= tin[parent[x].value] < tin[x]
    ensures DescendsIn(parent, v, w, n)
    decreases tin[w] - tin[v]
  {
    if w == v {
      n := 0;
    } else {
      var m := Climb(parent, tin, end, v, parent[w].value);
      n := m + 1;
    }
  }

  /** Conversely, a descendant of `v` is entered and finished within the
      stamps of `v`. */
  lemma {:induction false} DescendsInside<K>(parent: map<K, Option<K>>, tin: map<K, nat>, tout: map<K, nat>, v: K, w: K, n: nat)
    requires ChildrenInside(parent, tin, tout) && parent.Keys == tin.Keys && tin.Keys == tout.Keys
    requires v in parent && DescendsIn(parent, v, w, n)
    ensures w in tin && w in tout && tin[v] <= tin[w] && tout[w] <= tout[v]
  {
    if n > 0 {
      DescendsInside(parent, tin, tout, v, parent[w].value, n - 1);
    }
  }

  /** In a traversal's result (see `IsDfsResult`), `v`'s stamps enclose `w`'s
      entry exactly when `w` is `v` or a descendant of `v` in the exploration
      tree. */
  lemma StampsAreSubtrees(r: DfsResult, v: string, w: string)
    requires StampsNest(r) && r.parent.Keys == r.tin.Keys && v in r.tin && w in r.tin
    ensures r.tin[v] <= r.tin[w] < r.tout[v] ==> exists n: nat :: DescendsIn(r.parent, v, w, n)
    ensures (exists n: nat :: DescendsIn(r.parent, v, w, n)) ==> r.tin[v] <= r.tin[w] < r.tout[v]
  {
    if r.tin[v] <= r.tin[w] < r.tout[v] {
      var n := InsideDescends(r.parent, r.tin, r.tout, |r.order|, v, w);
      assert DescendsIn(r.parent, v, w, n);
    }
    if exists n: nat :: DescendsIn(r.parent, v, w, n) {
      var n: nat :| DescendsIn(r.parent, v, w, n);
      DescendsEnclosed(r, v, w, n);
    }
  }

  /** The backward half of `StampsAreSubtrees`. */
  lemma DescendsEnclosed(r: DfsResult, v: string, w: string, n: nat)
    requires StampsNest(r) && r.parent.Keys == r.tin.Keys && v in r.tin && DescendsIn(r.parent, v, w, n)
    ensures r.tin[v] <= r.tin[w] < r.tout[v]
  {
    DescendsInside(r.parent, r.tin, r.tout, v, w, n);
    assert r.tin[w] < r.tout[w];
  }
}
