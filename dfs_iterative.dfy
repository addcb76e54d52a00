/**
 * `dfs_iterative` of social_graph/dfs_iterative.py over a snapshot of the graph
 * store: a pre-order depth-first traversal with an explicit stack. Popping an
 * unvisited id visits it and pushes its unvisited neighbours in descending name
 * order, so the least of them by name is on top; ids visited since they were
 * pushed are skipped when popped.
 */
module DfsIterative {
  import opened Order
  import opened SocialGraph
  import opened Reach

  /** Whenever the id at position `i` still has a neighbour not visited up to
      `i`, the next id visited is such a neighbour and the least of them by name. */
  ghost predicate Deeper(s: Store, ids: seq<nat>)
  {
    forall i, y {:trigger y in s.adj[ids[i]]} :: 0 <= i < |ids| - 1 && ids[i] < |s.adj| && y in s.adj[ids[i]] && y !in ids[..i + 1] ==>
      ids[i + 1] in s.adj[ids[i]] && (ids[i + 1] == y || IdLess(s)(ids[i + 1], y))
  }

  /** The same on names: the user after `order[i]` is its friend with the least
      name among those not yet listed, whenever one is left. */
  ghost predicate LeastFriendNext(s: Store, order: seq<string>)
  {
    forall i, y {:trigger s.Friends(order[i], y)} :: 0 <= i < |order| - 1 && s.Friends(order[i], y) && y !in order[..i + 1] ==>
      s.Friends(order[i], order[i + 1]) && (order[i + 1] == y || LexLess(order[i + 1], y))
  }

  /** `dfs_iterative(graph, start_user)`: `[]` for an unknown user; otherwise
      every user reachable from the start once, the start first, each next user
      being the least-named friend of the previous one that is not yet listed
      whenever there is one. */
  method DfsIterative(s: Store, startUser: string) returns (order: seq<string>)
    requires s.Valid()
    ensures startUser !in s.ids ==> order == []
    ensures startUser in s.ids ==> order != [] && order[0] == startUser && NoDuplicates(order)
    ensures startUser in s.ids ==> forall x :: x in order <==> x in s.ids && Reachable(s, startUser, x)
    ensures LeastFriendNext(s, order)
  {
    if startUser !in s.ids {
      return [];
    }
    ValidSearchable(s);
    var start := s.ids[startUser];
    var stack: seq<nat> := [start];
    var visited: set<nat> := {};
    var ids: seq<nat> := [];
    while stack != []
      invariant Inv(s, start, ids, visited, stack)
      decreases Ids(|s.adj|) - visited, |stack|
    {
      var u := stack[|stack| - 1];
      ghost var popped := stack;
      stack := stack[..|stack| - 1];
      if u !in visited {
        assert u in Ids(|s.adj|) - visited;
        var pushed := PushUnvisited(s, u, visited + {u}, stack);
        Visited(s, start, ids, visited, popped, pushed);
        visited := visited + {u};
        ids := ids + [u];
        stack := pushed;
      } else {
        Skipped(s, start, ids, visited, popped);
      }
    }
    ReachedAll(s.adj, start, visited, ids);
    order := NamesOf(s, ids);
    NamedReachable(s, startUser, ids, order);
    NamedDeeper(s, ids, order);
  }

  /** What holds each time `while stack` is tested: before the first visit the
      stack holds the start alone; afterwards the start was visited first; the
      visited set and the visit order agree and have no repeats; every id on the
      stack or visited is reachable from the start; every neighbour of a visited
      id is visited or on the stack; the top of the stack is the least
      unvisited neighbour of the last visit, if there is one; and `Deeper`. */
  ghost predicate Inv(s: Store, start: nat, ids: seq<nat>, visited: set<nat>, stack: seq<nat>)
  {
    && (ids == [] ==> stack == [start] && visited == {})
    && (ids != [] ==> ids[0] == start)
    && (forall x :: x in visited <==> x in ids)
    && NoDuplicates(ids)
    && (forall k :: 0 <= k < |stack| ==> stack[k] < |s.adj| && Reaches(s.adj, start, stack[k]))
    && (forall k :: 0 <= k < |ids| ==> ids[k] < |s.adj| && Reaches(s.adj, start, ids[k]))
    && Closed(s.adj, visited, stack)
    && (ids != [] ==> Pending(s, ids[|ids| - 1], visited, stack))
    && Deeper(s, ids)
  }

  /** Every neighbour of a visited id is visited or waits on the stack. */
  ghost predicate Closed(adj: seq<set<nat>>, visited: set<nat>, stack: seq<nat>)
  {
    forall x, y {:trigger y in adj[x], x in visited} :: x in visited && x < |adj| && y in adj[x] ==> y in visited || y in stack
  }

  /** Popping an id that was visited since it was pushed keeps `Inv`. */
  lemma Skipped(s: Store, start: nat, ids: seq<nat>, visited: set<nat>, stack: seq<nat>)
    requires Inv(s, start, ids, visited, stack) && stack != [] && stack[|stack| - 1] in visited
    ensures Inv(s, start, ids, visited, stack[..|stack| - 1])
  {
    var rest := stack[..|stack| - 1];
    forall x, y | x in visited && x < |s.adj| && y in s.adj[x] && y !in visited
      ensures y in rest
    {
      var k :| 0 <= k < |stack| && stack[k] == y;
      assert k < |stack| - 1;
      assert rest[k] == y;
    }
    assert ids != [];
  }

  /** Popping an unvisited id, visiting it and pushing its unvisited
      neighbours keeps `Inv`. */
  lemma Visited(s: Store, start: nat, ids: seq<nat>, visited: set<nat>, stack: seq<nat>, pushed: seq<nat>)
    requires Searchable(s) && Inv(s, start, ids, visited, stack) && stack != []
    requires stack[|stack| - 1] !in visited
    requires |pushed| >= |stack| - 1 && pushed[..|stack| - 1] == stack[..|stack| - 1]
    requires forall k :: |stack| - 1 <= k < |pushed| ==>
      pushed[k] in s.adj[stack[|stack| - 1]] && pushed[k] !in visited + {stack[|stack| - 1]}
    requires forall y :: y in s.adj[stack[|stack| - 1]] && y !in visited + {stack[|stack| - 1]} ==> y in pushed
    requires Pending(s, stack[|stack| - 1], visited + {stack[|stack| - 1]}, pushed)
    ensures Inv(s, start, ids + [stack[|stack| - 1]], visited + {stack[|stack| - 1]}, pushed)
  {
    var u := stack[|stack| - 1];
    var rest := stack[..|stack| - 1];
    DeeperStep(s, ids, visited, u, stack);
    ReachesStepAll(s, start, u, rest, pushed);
    forall x, y | x in visited + {u} && x < |s.adj| && y in s.adj[x] && y !in visited + {u}
      ensures y in pushed
    {
      if x != u {
        var k :| 0 <= k < |stack| && stack[k] == y;
        assert k < |stack| - 1;
        assert rest[k] == y && pushed[k] == y;
      }
    }
    var ids' := ids + [u];
    forall i, j | 0 <= i < j < |ids'|
      ensures ids'[i] != ids'[j]
    {
      if j == |ids| {
        assert ids'[i] in visited;
      }
    }
  }

  /** After visiting `u`, if it has an unvisited neighbour then the top of the
      stack is one, and the least of them by name. */
  ghost predicate Pending(s: Store, u: nat, visited: set<nat>, stack: seq<nat>)
  {
    u < |s.adj| &&
    forall y :: y in s.adj[u] && y !in visited ==>
      stack != [] && stack[|stack| - 1] in s.adj[u] && stack[|stack| - 1] !in visited &&
      (stack[|stack| - 1] == y || IdLess(s)(stack[|stack| - 1], y))
  }

  /** `neighbors = sorted(get_neighbors(u), key=get_name, reverse=True)` and the
      loop that pushes those not visited: the stack grows by unvisited
      neighbours of `u` only, every unvisited neighbour is pushed, and the last
      one pushed is the least by name. */
  method PushUnvisited(s: Store, u: nat, visited: set<nat>, stack: seq<nat>) returns (stack': seq<nat>)
    requires Searchable(s) && u < |s.adj|
    ensures |stack'| >= |stack| && stack'[..|stack|] == stack
    ensures forall k :: |stack| <= k < |stack'| ==> stack'[k] in s.adj[u] && stack'[k] !in visited
    ensures forall y :: y in s.adj[u] && y !in visited ==> y in stack'
    ensures Pending(s, u, visited, stack')
  {
    var ascending := NeighborsByName(s, u);
    var neighbors := Reverse(ascending);
    ReverseMembers(ascending);
    stack' := PushAll(stack, neighbors, visited);
    Descending(s, ascending, neighbors);
    Pushed(s, u, visited, stack, neighbors, stack');
  }

  /** Pushing the unvisited ids of the neighbours of `u`, listed in descending
      name order, meets the promises of `PushUnvisited`. */
  lemma Pushed(s: Store, u: nat, visited: set<nat>, stack: seq<nat>, neighbors: seq<nat>, stack': seq<nat>)
    requires u < |s.adj| && DescendingBy(s, neighbors) && forall y :: y in neighbors <==> y in s.adj[u]
    requires stack' == stack + Unvisited(neighbors, visited)
    ensures |stack'| >= |stack| && stack'[..|stack|] == stack
    ensures forall k :: |stack| <= k < |stack'| ==> stack'[k] in s.adj[u] && stack'[k] !in visited
    ensures forall y :: y in s.adj[u] && y !in visited ==> y in stack'
    ensures Pending(s, u, visited, stack')
  {
    var pushed := Unvisited(neighbors, visited);
    LastIsLeast(s, neighbors, visited);
    assert stack'[..|stack|] == stack;
    forall k | |stack| <= k < |stack'|
      ensures stack'[k] in s.adj[u] && stack'[k] !in visited
    {
      assert stack'[k] == pushed[k - |stack|];
    }
    forall y | y in s.adj[u] && y !in visited
      ensures y in stack' && pushed != []
    {
      assert y in pushed;
    }
    if pushed != [] {
      assert stack'[|stack'| - 1] == pushed[|pushed| - 1];
    }
  }

  /** `for v in neighbors: if v not in visited: stack.append(v)`. */
  method PushAll(stack: seq<nat>, neighbors: seq<nat>, visited: set<nat>) returns (stack': seq<nat>)
    ensures stack' == stack + Unvisited(neighbors, visited)
  {
    stack' := stack;
    var i := 0;
    while i < |neighbors|
      invariant i <= |neighbors|
      invariant stack' == stack + Unvisited(neighbors[..i], visited)
    {
      var v := neighbors[i];
      UnvisitedStep(neighbors, i, visited);
      if v !in visited {
        stack' := stack' + [v];
      }
      i := i + 1;
    }
    assert neighbors[..i] == neighbors;
  }

  /** `top` is named before, or is, every id of `xs` outside `visited`. */
  ghost predicate Least(s: Store, top: nat, xs: seq<nat>, visited: set<nat>)
  {
    forall y :: y in xs && y !in visited ==> y == top || IdLess(s)(top, y)
  }

  /** Each id is named before every earlier one. */
  ghost predicate DescendingBy(s: Store, xs: seq<nat>)
  {
    forall i, j :: 0 <= i < j < |xs| ==> IdLess(s)(xs[j], xs[i])
  }

  /** Pushing a list in descending name order leaves the least on top. */
  lemma {:induction false} LastIsLeast(s: Store, xs: seq<nat>, visited: set<nat>)
    requires DescendingBy(s, xs)
    ensures Unvisited(xs, visited) != [] ==> Least(s, Unvisited(xs, visited)[|Unvisited(xs, visited)| - 1], xs, visited)
    decreases |xs|
  {
    if xs != [] {
      var init, last := xs[..|xs| - 1], xs[|xs| - 1];
      var r, r0 := Unvisited(xs, visited), Unvisited(init, visited);
      assert DescendingBy(s, init);
      LastIsLeast(s, init, visited);
      if last !in visited {
        assert r == r0 + [last];
        forall y | y in xs && y !in visited && y != last
          ensures IdLess(s)(last, y)
        {
          var i :| 0 <= i < |xs| && xs[i] == y;
        }
      } else {
        assert r == r0;
        forall y | y in xs && y !in visited
          ensures y in init
        {
          var i :| 0 <= i < |xs| && xs[i] == y;
          assert init[i] == y;
        }
      }
    }
  }

  lemma ReverseMembers<T>(xs: seq<T>)
    ensures forall y :: y in Reverse(xs) <==> y in xs
  {
    forall y | y in xs
      ensures y in Reverse(xs)
    {
      var k :| 0 <= k < |xs| && xs[k] == y;
      assert Reverse(xs)[|xs| - 1 - k] == y;
    }
  }

  /** Reversing a list sorted by name gives descending name order. */
  lemma Descending(s: Store, ascending: seq<nat>, neighbors: seq<nat>)
    requires SortedBy(IdLess(s), ascending) && neighbors == Reverse(ascending)
    ensures DescendingBy(s, neighbors)
  {
    forall i, j | 0 <= i < j < |neighbors|
      ensures IdLess(s)(neighbors[j], neighbors[i])
    {
      assert neighbors[i] == ascending[|ascending| - 1 - i];
      assert neighbors[j] == ascending[|ascending| - 1 - j];
    }
  }

  /** Visiting the top of the stack keeps `Deeper`: it is the least unvisited
      neighbour of the last id visited, if that has one. */
  lemma DeeperStep(s: Store, ids: seq<nat>, visited: set<nat>, u: nat, stack: seq<nat>)
    requires Deeper(s, ids) && (forall x :: x in visited <==> x in ids)
    requires u !in visited && stack != [] && stack[|stack| - 1] == u
    requires ids != [] ==> Pending(s, ids[|ids| - 1], visited, stack)
    ensures Deeper(s, ids + [u])
  {
    var ids' := ids + [u];
    forall i, y {:trigger y in s.adj[ids'[i]]} | 0 <= i < |ids'| - 1 && ids'[i] < |s.adj| && y in s.adj[ids'[i]] && y !in ids'[..i + 1]
      ensures ids'[i + 1] in s.adj[ids'[i]] && (ids'[i + 1] == y || IdLess(s)(ids'[i + 1], y))
    {
      assert ids'[..i + 1] == ids[..i + 1];
      if i == |ids| - 1 {
        assert ids[..i + 1] == ids;
        assert y !in visited;
      } else {
        assert ids'[i] == ids[i] && ids'[i + 1] == ids[i + 1];
      }
    }
  }

  /** A neighbour of an id reachable from the start is reachable from it. */
  lemma ReachesStep(adj: seq<set<nat>>, start: nat, u: nat, v: nat)
    requires Reaches(adj, start, u) && u < |adj| && v in adj[u] && v < |adj|
    ensures Reaches(adj, start, v)
  {
    var w :| IsWalk(adj, w) && w[0] == start && w[|w| - 1] == u;
    var w' := w + [v];
    assert IsWalk(adj, w') && w'[0] == start && w'[|w'| - 1] == v;
  }

  /** The ids pushed for `u` are reachable from the start, like `u`. */
  lemma ReachesStepAll(s: Store, start: nat, u: nat, stack: seq<nat>, stack': seq<nat>)
    requires Bounded(s.adj) && u < |s.adj| && Reaches(s.adj, start, u)
    requires forall k :: 0 <= k < |stack| ==> stack[k] < |s.adj| && Reaches(s.adj, start, stack[k])
    requires |stack'| >= |stack| && stack'[..|stack|] == stack
    requires forall k :: |stack| <= k < |stack'| ==> stack'[k] in s.adj[u]
    ensures forall k :: 0 <= k < |stack'| ==> stack'[k] < |s.adj| && Reaches(s.adj, start, stack'[k])
  {
    forall k | 0 <= k < |stack'|
      ensures stack'[k] < |s.adj| && Reaches(s.adj, start, stack'[k])
    {
      if k < |stack| {
        assert stack'[k] == stack[k];
      } else {
        ReachesStep(s.adj, start, u, stack'[k]);
      }
    }
  }

  /** With the stack empty, the visited ids are closed under adjacency, so
      every id reachable from the start was visited. */
  lemma ReachedAll(adj: seq<set<nat>>, start: nat, visited: set<nat>, ids: seq<nat>)
    requires ids != [] && ids[0] == start && (forall x :: x in visited <==> x in ids)
    requires forall k :: 0 <= k < |ids| ==> Reaches(adj, start, ids[k])
    requires forall x, y {:trigger y in adj[x], x in visited} :: x in visited && x < |adj| && y in adj[x] ==> y in visited
    ensures forall x :: x in ids <==> Reaches(adj, start, x)
  {
    forall x | Reaches(adj, start, x)
      ensures x in ids
    {
      var w :| IsWalk(adj, w) && w[0] == start && w[|w| - 1] == x;
      ClosedHoldsWalk(adj, visited, w);
    }
  }

  /** `[get_name(n) for n in order_ids]` keeps `Deeper` as `LeastFriendNext`. */
  lemma NamedDeeper(s: Store, ids: seq<nat>, order: seq<string>)
    requires s.Valid() && Deeper(s, ids)
    requires forall k :: 0 <= k < |ids| ==> ids[k] < |s.users|
    requires |order| == |ids| && forall k :: 0 <= k < |ids| ==> order[k] == s.users[ids[k]]
    ensures LeastFriendNext(s, order)
  {
    forall i, y {:trigger s.Friends(order[i], y)} | 0 <= i < |order| - 1 && s.Friends(order[i], y) && y !in order[..i + 1]
      ensures s.Friends(order[i], order[i + 1]) && (order[i + 1] == y || LexLess(order[i + 1], y))
    {
      var a, b, c := ids[i], ids[i + 1], s.ids[y];
      assert s.ids[order[i]] == a && s.ids[order[i + 1]] == b && s.users[c] == y;
      forall k | 0 <= k < i + 1
        ensures ids[k] != c
      {
        assert order[..i + 1][k] == order[k];
      }
      assert c !in ids[..i + 1];
    }
  }
}
