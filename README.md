# social_graph in Dafny

A model of the `social_graph` package: an undirected friendship graph kept in
three parallel structures, plus the four algorithms that run over it. The
structures are a name-to-id map, the id-ordered list of names, and one set of
neighbour ids per id.

- `graph.dfy` (module `SocialGraph`) holds two things.
  - The value `Store` with the store's invariant `Valid()`: name and id are a
    bijection onto `0..n-1`, there is one neighbour set per id, every
    neighbour is an id, adjacency is symmetric and nothing is its own
    neighbour. Its member functions are the reference definitions of
    `add_user`, `add_friendship`, `remove_friendship` and `delete_user`; the
    lemmas about them state what the source promises.
  - The class `Graph`, whose fields are updated in place by methods that are
    proved equal to those functions. The save/load record is modelled
    without the file.
- `reach.dfy` (module `Reach`) holds what the searches share:
  - walks of ids and paths of names, and the bridge between them;
  - reachability;
  - parent/depth trees;
  - neighbour ids sorted by name.
- `bfs.dfy` (module `Bfs`) models `bfs_shortest_path` and `_reconstruct_path`,
  including the order in which users are visited: level by level, in the order
  of their parents, and children of one parent by name. It also states what is
  left in the queue when the search stops.
- `bfs_unique.dfy` (module `BfsUnique`) shows that these promises fix the
  answer. Two results that both keep them, for the same graph and users, are
  equal: the same path, visit order, distances, tree and `reachable` flag.
- `dfs.dfy` (module `Dfs`) models `dfs_traversal`, with its recursive inner `dfs`
  writing parent, depth and entry/exit stamps. The contract pins down the
  visit order: each user entered is the least-named unvisited friend of the
  most recently entered user that still has one. The entry/exit stamps of a
  user enclose exactly the entries of its descendants in the tree.
- `dfs_path.dfy` (module `DfsPath`) models `dfs_shortest_path`, the
  backtracking enumeration of simple paths that keeps a shortest one.
- `dfs_iterative.dfy` (module `DfsIterative`) models `dfs_iterative`, the
  stack-based pre-order traversal.
- `recommendation.dfy` (module `Recommendation`) models `recommend_friends`:
  mutual-friend counting, then ranking.
- `scenario.dfy` (module `Scenario`) models the script
  tests/test_recommendation_manual.py.
- `order.dfy` (module `Order`) holds the shared orderings:
  - Python's string comparison, as lexicographic order on code points;
  - `sorted` over a set under a strict total order;
  - "no duplicates";
  - a listing of a set in unspecified order, which stands for Python's set
    and dict iteration order.
- `wrappers.dfy` holds `Option`.

The algorithms are stateless functions of a graph snapshot in the source. Here
they take a `Store` value. Their loops and recursions are Dafny methods with
invariants, and each is proved against a specification of its result.

## Model

| member | source | states |
|---|---|---|
| SocialGraph.TrimStartSpec | social_graph/graph.py:21 | stripping the front removes exactly the leading whitespace and leaves a suffix that is empty or starts with a non-space |
| SocialGraph.TrimEndSpec | social_graph/graph.py:21 | stripping the back removes exactly the trailing whitespace and leaves a prefix |
| SocialGraph.TrimIdempotent | social_graph/graph.py:21 | a stripped name has no whitespace at either end, so stripping again changes nothing |
| SocialGraph.Empty | social_graph/graph.py:12-15 | a new graph has no users and satisfies the invariant |
| SocialGraph.NamesDistinct | social_graph/graph.py:28-30 | under the invariant, distinct ids carry distinct names |
| SocialGraph.FriendsSymmetric | social_graph/graph.py:65-68 | `are_friends(u, v) == are_friends(v, u)` while adjacency is symmetric |
| SocialGraph.FriendNamesAreFriends | social_graph/graph.py:58-68 | a name is among `get_friends(u)` exactly when `are_friends(u, name)` |
| SocialGraph.WithUserValid | social_graph/graph.py:20-31 | `add_user` keeps the invariant. An empty or present stripped name changes nothing; otherwise the stripped name gets id `n` and an empty neighbour set, and old ids stay |
| SocialGraph.EnsuredValid | social_graph/graph.py:46-50 | `if not has_user(x): add_user(x)` keeps the invariant, makes a stored-form name a user and keeps old ids and neighbour sets |
| SocialGraph.LinkedValid | social_graph/graph.py:55-56 | adding both directed entries between two distinct ids keeps the invariant |
| SocialGraph.BefriendedValid | social_graph/graph.py:42-56 | `add_friendship` keeps the invariant, changes nothing for `u == v` and keeps every old user's id |
| SocialGraph.BefriendedLinks | social_graph/graph.py:42-56 | after `add_friendship(u, v)` with `u != v`, each is a friend of the other |
| SocialGraph.BefriendedFrame | social_graph/graph.py:52-56 | `add_friendship(u, v)` leaves every other pair of old users as it was |
| SocialGraph.BefriendedIdempotent | social_graph/graph.py:42-56 | calling `add_friendship(u, v)` twice equals calling it once |
| SocialGraph.UnfriendedEffect | social_graph/graph.py:70-76 | `remove_friendship` keeps the invariant, names and ids; afterwards neither is the other's friend, and every other pair is unchanged |
| SocialGraph.DeletedValid | social_graph/graph.py:77-105 | `delete_user` keeps the invariant, so ids are dense `0..n-2` |
| SocialGraph.DeletedBijection | social_graph/graph.py:84-92 | after the pop and the re-enumeration, name and id are a bijection onto `0..n-2` |
| SocialGraph.DeletedSymmetric | social_graph/graph.py:95-105 | the renumbered neighbour sets are symmetric, in range and free of self-loops |
| SocialGraph.DeletedEffect | social_graph/graph.py:77-105 | an absent name changes nothing. Otherwise the name goes, ids above the deleted one move down by one and the others stay, and every friendship between survivors is kept |
| SocialGraph.LastIndex | social_graph/graph.py:179 | the dict comprehension keeps, for a repeated name, its last position |
| SocialGraph.SaveLoadRoundTrip | social_graph/graph.py:162-182 | loading the record that `save` emits rebuilds the same three structures |
| SocialGraph.IndexOf | social_graph/graph.py:89-92 | the `enumerate` loop maps each name to its position and holds nothing else |
| SocialGraph.RenumberRows | social_graph/graph.py:95-105 | the rebuild loops give each neighbour set without the deleted id and with higher ids moved down by one |
| SocialGraph.Graph.constructor | social_graph/graph.py:12-15 | `Graph()` is the empty store |
| SocialGraph.Graph.AddUser | social_graph/graph.py:20-31 | the new state is `WithUser` of the old one, which keeps the invariant |
| SocialGraph.Graph.HasUser | social_graph/graph.py:33-34 | true exactly when some id carries the name |
| SocialGraph.Graph.GetAllUsers | social_graph/graph.py:36-37 | every user once, the user with id `i` at position `i` |
| SocialGraph.Graph.AddFriendship | social_graph/graph.py:42-56 | the new state is `Befriended` of the old one, which keeps the invariant |
| SocialGraph.Graph.EnsureUser | social_graph/graph.py:46-50 | the new state is `Ensured` of the old one, which keeps the invariant |
| SocialGraph.Graph.SortedNames | social_graph/graph.py:63 | `sorted(names of ns)`: ascending, holding exactly the names of the ids |
| SocialGraph.Graph.GetFriends | social_graph/graph.py:58-63 | ascending and holding exactly the user's friends; `[]` for an unknown name |
| SocialGraph.Graph.AreFriends | social_graph/graph.py:65-68 | equals `Friends(u, v)`; when true both are users and they differ |
| SocialGraph.Graph.RemoveFriendship | social_graph/graph.py:70-76 | the new state is `Unfriended` of the old one, which keeps the invariant |
| SocialGraph.Graph.GetUserId | social_graph/graph.py:110-111 | the id whose name is the argument |
| SocialGraph.Graph.GetUserName | social_graph/graph.py:113-114 | the name whose id is the argument |
| SocialGraph.Graph.GetNeighbors | social_graph/graph.py:116-117 | each neighbour id once, all in range, not the id itself |
| SocialGraph.Graph.DeleteUser | social_graph/graph.py:77-105 | the new state is `Deleted` of the old one, which keeps the invariant |
| SocialGraph.Graph.AdjacencyList | social_graph/graph.py:122-126 | keys are exactly the users; each maps to its friends' names, ascending |
| SocialGraph.Graph.AdjacencyMatrix | social_graph/graph.py:128-135 | an n×n matrix of 0/1 that is symmetric, with 1 exactly where the column id is a neighbour of the row id |
| SocialGraph.Graph.Save | social_graph/graph.py:162-166 | the record holds the id-ordered names and, per id, each neighbour once |
| SocialGraph.Graph.Load | social_graph/graph.py:170-182 | a missing file leaves the graph unchanged; otherwise the state is the store the record describes |
| Reach.ValidSearchable | social_graph/graph.py:28-31 | under the invariant, neighbour ids are ids and names are unique |
| Reach.WalkIsPath | social_graph/bfs.py:168 | a walk of ids read through `get_name` is a path of friends between the names of its ends |
| Reach.PathIsWalk | social_graph/bfs.py:89-90 | a path of friends read through the ids is a walk; a path without repeats gives a walk without repeats |
| Reach.ReachableIffWalk | social_graph/bfs.py:89-90 | two users are joined by a path of friends exactly when a walk joins their ids |
| Reach.SimpleWithin | social_graph/dfs.py:105-118 | every walk contains a walk without repeats between the same ends that is no longer |
| Reach.ClosedHoldsWalk | social_graph/bfs.py:115-120 | a set that holds a walk's start and is closed under neighbours holds the whole walk |
| Reach.TreeWalk | social_graph/bfs.py:160-167 | following parent pointers back from a discovered id gives a walk from the start with one step per unit of depth |
| Reach.NameOf | social_graph/bfs.py:129 | the name of an optional parent id, `None` staying `None` |
| Reach.NamedTree | social_graph/bfs.py:127-131 | parents and depths keyed by name form a tree of friendships rooted at the start |
| Reach.NamedReachable | social_graph/dfs.py:65 | the names of the ids reachable from the start are the users reachable from the start user, each once, the start first |
| Reach.NeighborsByName | social_graph/bfs.py:113 | `sorted(get_neighbors(u), key=get_name)`: exactly the neighbours, ascending by name |
| Reach.IdLessTotal | social_graph/bfs.py:113 | with unique names, ordering ids by name is a strict total order |
| Reach.Reverse | social_graph/bfs.py:167 | the reversed list, element `i` from position `n-1-i` |
| Reach.Unvisited | social_graph/bfs.py:115-120 | the ids of a list outside `visited`, in list order: exactly the listed ids not visited |
| Reach.UnvisitedSorted | social_graph/bfs.py:113-120 | dropping visited ids keeps the sorted neighbours in ascending name order |
| Reach.NamedDiscovered | social_graph/bfs.py:126-131 | each listed id discovered by an earlier one stays so in names |
| Bfs.WalkBound | social_graph/bfs.py:115-120 | the BFS distance argument: a walk shorter than the current level ends at a discovered id no further than its length |
| Bfs.Search | social_graph/bfs.py:92-120 | the `while queue` loop yields a parent/depth tree with exact distances and a visit order from the start without repeats. The target is discovered exactly when visited, and then it is last; otherwise no walk reaches it and the visit order holds exactly the discovered ids, which are those reachable from the start. Ids are visited level by level; each after the start was discovered by an earlier visited id, the first visited neighbour it has; ids are visited in the order of their parents, and children of one parent in ascending name order. When the loop stops, every neighbour of an expanded id is discovered, and each id discovered but not visited was discovered by an expanded id and queued behind every visited id |
| Bfs.Visit | social_graph/bfs.py:105-120 | one dequeue-and-expand step keeps the level invariant and the order facts of the queue, and makes progress |
| Bfs.FairStep | social_graph/bfs.py:106-120 | expanding the head of the queue, with its undiscovered neighbours appended in ascending name order, keeps the order facts: levels, discovery by an earlier id, order of parents then names, first visited neighbour as parent |
| Bfs.FairStop | social_graph/bfs.py:106-110 | dequeuing the target keeps the order facts for the visit order that ends with it |
| Bfs.Found | social_graph/bfs.py:106-110 | dequeuing the target ends the search with every promise of `Search`, the target last |
| Bfs.Exhausted | social_graph/bfs.py:105-120 | an empty queue ends the search with every promise of `Search` and the target undiscovered |
| Bfs.Unreached | social_graph/bfs.py:105-120 | with the queue empty, distances are exact, no walk from the start reaches the target, and the visited, discovered and reachable ids coincide |
| Bfs.Expand | social_graph/bfs.py:115-120 | the ids appended to the queue are exactly the undiscovered neighbours, in the order of the sorted list, each once, at distance `dist[current] + 1` with parent `current`; existing entries stay, and afterwards every neighbour is discovered |
| Bfs.ReconstructPath | social_graph/bfs.py:150-168 | `[]` for an undiscovered target; otherwise a path of friends from start to target with `dist[target] + 1` names, each name's tree parent being the name before it |
| Bfs.ParentChain | social_graph/bfs.py:160-167 | the reversed parent chain is a walk from the start to the target of `dist[target] + 1` ids, each id's parent being the id before it |
| Bfs.ChainBack | social_graph/bfs.py:160-165 | the `while cur is not None` loop collects `dist[target] + 1` ids from the target back to the start, each the child of the next |
| Bfs.ChainStep | social_graph/bfs.py:163-165 | one turn of that loop keeps its invariant and moves one level closer to the start |
| Bfs.ChainReversed | social_graph/bfs.py:167 | the chain read backwards is a walk from the start that follows the parent pointers |
| Bfs.ChainEdge | social_graph/bfs.py:115-118 | a child is a neighbour of its parent |
| Bfs.ReversedFollows | social_graph/bfs.py:167 | reading the parent chain backwards puts each id's parent just before it |
| Bfs.NamedParents | social_graph/bfs.py:128-131 | the named tree holds exactly the names of the discovered ids, each mapped to the name of its parent or to `None` |
| Bfs.NamedFollows | social_graph/bfs.py:125-131 | a walk that follows the id tree, read through names, follows the named tree |
| Bfs.BfsShortestPath | social_graph/bfs.py:42-144 | the empty result for an unknown user, and the one-node result when start equals target. `reachable` iff the path is non-empty iff the target is reachable. The path is a shortest path whose length minus one is the target's distance. Distances and tree form a BFS tree; the visit order starts at the start and ends at a reached target. An unreached target leaves the visit order holding exactly the discovered users, those reachable from the start. Users are visited level by level, each discovered by its first visited friend, in the order of their parents and then by name. The path follows the exploration tree. Every friend of an expanded user is discovered, and the users left in the queue were discovered by expanded users and queued behind every visited one. These promises fix the result (`BfsUnique.BfsDeterministic`) |
| Bfs.FoundAtStart | social_graph/bfs.py:75-84 | the one-node answer for a user searching for itself meets every promise of the search |
| Bfs.SearchByName | social_graph/bfs.py:89-144 | the same promises for two distinct known users, the queue facts included |
| Bfs.FoundQueued | social_graph/bfs.py:106-110 | when the target is dequeued, every neighbour of an expanded id is discovered, and the ids still queued were discovered by expanded ids and sit behind every visited id |
| Bfs.FoundCloses | social_graph/bfs.py:113-120 | every neighbour of an expanded id has been discovered |
| Bfs.FoundFromExpanded | social_graph/bfs.py:115-118 | the ids still queued were discovered by expanded ids |
| Bfs.FoundQueuedAfter | social_graph/bfs.py:106-120 | the ids still queued sit behind every visited id: their parents come no earlier, and a visited sibling comes first by name |
| Bfs.QueuedBehindTarget | social_graph/bfs.py:106-120 | one queued id and one visited id, the visited one taken out of the queue before it |
| Bfs.ExhaustedQueued | social_graph/bfs.py:105-120 | when the queue runs empty, every neighbour of a visited id is discovered and nothing was left queued |
| Bfs.NamedLeftQueued | social_graph/bfs.py:125-131 | the queue facts carry over to names |
| Bfs.NamedFromExpanded | social_graph/bfs.py:125-131 | users discovered but not visited have a named parent among the expanded users |
| Bfs.NamedQueuedBehind | social_graph/bfs.py:125-131 | a queued user sits behind each visited user in names as it did in ids |
| Bfs.NamedSearch | social_graph/bfs.py:125-141 | the search on ids, read through `get_name`, answers the query and lists what it reached when the target is unreached |
| Bfs.NamedPath | social_graph/bfs.py:125-141 | the named path, tree and visit order keep the facts of the search on ids |
| Bfs.NamedOrderFacts | social_graph/bfs.py:126-131 | the order facts of the search carry over to names |
| Bfs.Named | social_graph/bfs.py:125-131 | names in visit order; distances and tree keyed by exactly the names of the discovered ids |
| Bfs.NamedReach | social_graph/bfs.py:125-141 | the named path is non-empty exactly when the target is reachable, and is then a shortest path ending the visit order |
| Bfs.Shortest | social_graph/bfs.py:48-49 | exact distances bound every path of names from below |
| Bfs.NamedResult | social_graph/bfs.py:127-131 | the named distances and tree form a tree in which no path is shorter than a recorded distance |
| Bfs.NamedOrder | social_graph/bfs.py:126 | the named visit order starts at the start, has no repeats and lists only discovered users |
| Bfs.NamedLevelled | social_graph/bfs.py:126-127 | visiting level by level survives renaming |
| Bfs.NamedRanked | social_graph/bfs.py:126-131 | the order of parents and then names survives renaming, names being unique |
| Bfs.NamedFirstFound | social_graph/bfs.py:126-131 | each named parent is the first visited friend of its child |
| Bfs.NamedComplete | social_graph/bfs.py:126-127 | an unreached target leaves the named visit order holding exactly the discovered users and those reachable from the start |
| BfsUnique.BfsDeterministic | social_graph/bfs.py:92-131 | two results that both keep every promise of `BfsShortestPath` for the same graph and users are equal: path, visit order, distances, tree and `reachable` |
| BfsUnique.ResultSettled | social_graph/bfs.py:105-131 | those promises give the facts that fix the result: the visit order follows the FIFO queue and the tree hangs from the start |
| BfsUnique.SettledUnique | social_graph/bfs.py:105-131 | two results with those facts are equal |
| BfsUnique.SameVisits | social_graph/bfs.py:105-110 | two such results have the same visit order, the target ending both or neither |
| BfsUnique.SameOrder | social_graph/bfs.py:105-120 | two searches from one start visit the same nodes in the same order, up to the shorter |
| BfsUnique.NextAt | social_graph/bfs.py:105-120 | each visited node after the start is the one the queue hands out next: an unvisited neighbour of the earliest visited node that still has one, and the least by name among that node's unvisited neighbours |
| BfsUnique.NextUnique | social_graph/bfs.py:105-120 | at most one node is next, names being totally ordered |
| BfsUnique.EarlierExhausted | social_graph/bfs.py:105-120 | no node is handed out from a parent while an earlier visited node still has an unvisited neighbour |
| BfsUnique.FirstAmongSiblings | social_graph/bfs.py:113-120 | among the unvisited neighbours of its parent, the node handed out is the least by name |
| BfsUnique.ParentAt | social_graph/bfs.py:115-118 | the parent of a discovered node other than the start is an expanded node and a neighbour |
| BfsUnique.SameTree | social_graph/bfs.py:115-118 | two searches with one visit order build the same tree |
| BfsUnique.KeyShared | social_graph/bfs.py:115-118 | they discover the same nodes |
| BfsUnique.SameParent | social_graph/bfs.py:115-118 | they give each node the same parent, the first expanded node it neighbours |
| BfsUnique.SameDistanceAt | social_graph/bfs.py:119 | one tree fixes the distances |
| BfsUnique.SameFollowing | social_graph/bfs.py:163-167 | two paths down one tree, of one length and ending at one node, are equal |
| Dfs.StampInjective | social_graph/dfs.py:54-55 | a new stamp above every earlier one keeps all stamps distinct |
| Dfs.Visit | social_graph/dfs.py:50-63 | the inner `dfs(u, d)` keeps the invariant and the order facts, visits and finishes `u` with the given parent and depth, lists `u` next, and stamps everything it enters after the old timer |
| Dfs.Expand | social_graph/dfs.py:51-60 | recording the entry of `u` and running its loop keeps the order facts and leaves every neighbour of `u` visited |
| Dfs.Explore | social_graph/dfs.py:57-60 | the loop over the neighbours in ascending name order recurses into each unvisited one, keeps the order facts, and leaves all neighbours visited |
| Dfs.Descend | social_graph/dfs.py:57-60 | the neighbour tried next, when unvisited, may be entered from `u`: it is the least-named unvisited neighbour of `u`, and every id entered since `u` has all its neighbours visited |
| Dfs.DescendLeast | social_graph/dfs.py:57-58 | the neighbours before it in the sorted list are visited, so it is the least-named unvisited one |
| Dfs.DescendDone | social_graph/dfs.py:57-63 | every id entered after `u` is finished, with its neighbours visited |
| Dfs.EnterSequenced | social_graph/dfs.py:51-55 | recording the entry of `u` keeps the order facts: entry stamps rise along the order, each id is listed after its parent, and each is the least unvisited friend of its parent, entered once every id listed since that parent had no unvisited friend |
| Dfs.EnterPreorder | social_graph/dfs.py:53-55 | appending `u` with a stamp above all earlier ones keeps entry stamps rising along the order |
| Dfs.EnterDiscovered | social_graph/dfs.py:53-59 | appending `u` with a listed parent keeps every id listed after its parent |
| Dfs.EnterLeast | social_graph/dfs.py:57-60 | appending the least unvisited neighbour of its parent keeps every listed id the least unlisted friend of its parent |
| Dfs.EnterDone | social_graph/dfs.py:57-63 | appending `u` keeps every id listed after a parent and before its child finished with no unlisted friend |
| Dfs.Initial | social_graph/dfs.py:42-48 | the empty state with the timer at 1 |
| Dfs.DfsTraversal | social_graph/dfs.py:30-75 | the empty result for an unknown user. Otherwise the order lists the reachable users once each, start first, and parents and depths form a tree of friendships. Stamps are distinct values in `1..2k` with `tin < tout`, intervals nest, and each child's interval lies inside its parent's. A user entered within another's interval has its parent entered within it too, so an interval holds exactly the entries of the user's descendants (`Dfs.StampsAreSubtrees`). Entry stamps rise along the order; each user after the start follows its parent and is that parent's least-named friend not listed before it, and every user listed between the parent and it had no unlisted friend left |
| Dfs.StampsAreSubtrees | social_graph/dfs.py:50-63 | in a traversal's result, `tin[v] <= tin[w] < tout[v]` exactly when `w` is `v` or descends from `v` by parent pointers |
| Dfs.DescendsEnclosed | social_graph/dfs.py:50-63 | a descendant is entered within the interval of its ancestor |
| Dfs.InsideDescends | social_graph/dfs.py:54-63 | a user entered within the interval of `v` descends from `v` |
| Dfs.DescendsInside | social_graph/dfs.py:54-63 | a descendant is entered and finished within the stamps of its ancestor |
| Dfs.Climb | social_graph/dfs.py:59 | parents entered no earlier than `v` lead from `w` back to `v` in finitely many steps |
| Dfs.EnterEnclosed | social_graph/dfs.py:51-55 | entering a user keeps this: an id entered while `v` is open has its parent entered no earlier than `v` |
| Dfs.LeaveEnclosed | social_graph/dfs.py:62-63 | finishing a user keeps it |
| Dfs.CompletedEnclosing | social_graph/dfs.py:65 | once every id is finished, an id entered within the interval of `v` has its parent entered no earlier than `v` |
| Dfs.NamedEnclosing | social_graph/dfs.py:67-71 | that carries over to names |
| Dfs.PublishedShape | social_graph/dfs.py:65-75 | the promises on ids give the named result's listing, tree and stamps |
| Dfs.PublishedOrder | social_graph/dfs.py:65-70 | the order facts on ids carry over to names |
| Dfs.Try | social_graph/dfs.py:57-60 | one turn of the loop over the sorted neighbours: recurse into the neighbour when it is unvisited, keeping the loop's invariant and the order facts |
| Dfs.Completed | social_graph/dfs.py:65 | once the call on the start returns, the id-level state meets every promise of the traversal |
| Dfs.CompletedReach | social_graph/dfs.py:50-65 | the visited ids are exactly those reachable from the start |
| Dfs.CompletedStamps | social_graph/dfs.py:54-63 | the stamps are distinct, in `1..2k`, and children lie inside their parents |
| Dfs.Named | social_graph/dfs.py:67-71 | the result keyed by name: each map carries its entries under the names of their ids |
| Dfs.NamedResult | social_graph/dfs.py:67-75 | the promises on ids carry over to the named result |
| Dfs.NamedOrder | social_graph/dfs.py:67 | the named order lists the reachable users once each, start first, and they are the users with an entry stamp |
| Dfs.NamedStamps | social_graph/dfs.py:70-71 | the named stamps stay distinct, in range and nested |
| Dfs.IdsDistinct | social_graph/graph.py:28-30 | distinct names have distinct ids |
| Dfs.NamedChildren | social_graph/dfs.py:68-71 | a named child's stamps lie inside those of its named parent |
| Dfs.NamedSequenced | social_graph/dfs.py:67-70 | the order facts on ids carry over to names |
| Dfs.NamedPreorder | social_graph/dfs.py:67-70 | entry stamps rise along the named order |
| Dfs.NamedLeastNext | social_graph/dfs.py:67-68 | each named user is the least-named friend of its parent not listed before it |
| Dfs.NamedDoneBefore | social_graph/dfs.py:67-68 | every user listed between a parent and its child had no unlisted friend left |
| Dfs.NamedPrefix | social_graph/dfs.py:67 | an id is among the first `i` entries exactly when its name is |
| DfsPath.Visit | social_graph/dfs.py:105-118 | the backtracking `dfs(u)` restores `visited` and `path` and drops nothing recorded. Every recorded path is a walk without repeats to the target, and every such walk through `path + [u]` is recorded |
| DfsPath.ShortestIndex | social_graph/dfs.py:128 | `min(all_paths, key=len)`: a shortest recorded path, the first of that length |
| DfsPath.DfsShortestPath | social_graph/dfs.py:88-136 | the empty result for unknown users; `visited_order` equals the path and `distances` is empty. The path is non-empty exactly when the target is reachable, and is then a path without repeats from start to target that no path of friends is shorter than |
| DfsPath.SimpleWitness | social_graph/dfs.py:105-118 | a reachable target is reached by a walk without repeats from the start |
| DfsPath.NoneFound | social_graph/dfs.py:124-125 | nothing recorded although every such walk would have been means the target is unreachable |
| DfsPath.Shortest | social_graph/dfs.py:128-131 | the first shortest recorded path is a path without repeats and no path is shorter |
| DfsIterative.DfsIterative | social_graph/dfs_iterative.py:4-28 | `[]` for an unknown user. Otherwise the start first, no repeats, and exactly the users reachable from it. Each next user is the least-named friend of the previous one not yet listed, whenever there is one |
| DfsIterative.Skipped | social_graph/dfs_iterative.py:18-19 | popping an id already visited keeps the loop invariant |
| DfsIterative.Visited | social_graph/dfs_iterative.py:18-26 | visiting the popped id and pushing its unvisited neighbours keeps the loop invariant |
| DfsIterative.PushUnvisited | social_graph/dfs_iterative.py:23-26 | the stack keeps its old contents and gains only unvisited neighbours of `u`, every one of them, with the least-named on top |
| DfsIterative.Pushed | social_graph/dfs_iterative.py:23-26 | pushing the unvisited neighbours listed in descending name order meets those promises |
| DfsIterative.PushAll | social_graph/dfs_iterative.py:24-26 | the inner loop appends exactly the unvisited entries of the list, in order |
| DfsIterative.LastIsLeast | social_graph/dfs_iterative.py:23-26 | of a list in descending name order, the last unvisited entry is the least-named unvisited one |
| DfsIterative.ReverseMembers | social_graph/dfs_iterative.py:23 | `reverse=True` lists the same neighbours |
| DfsIterative.Descending | social_graph/dfs_iterative.py:23 | reversing an ascending list gives descending name order |
| DfsIterative.DeeperStep | social_graph/dfs_iterative.py:18-21 | visiting the top of the stack keeps the next-is-least-unvisited-friend property |
| DfsIterative.ReachedAll | social_graph/dfs_iterative.py:17-21 | once the stack is empty, the visited ids are exactly those reachable from the start |
| DfsIterative.NamedDeeper | social_graph/dfs_iterative.py:28 | the next-is-least-unvisited-friend property carries over to names |
| Order.LexIrreflexive | social_graph/recommendation.py:30 | no name sorts before itself |
| Order.LexTransitive | social_graph/recommendation.py:30 | name order is transitive |
| Order.LexTotal | social_graph/recommendation.py:30 | of two different names, one sorts first |
| Order.SortBy | social_graph/graph.py:63 | `sorted` over a set under a strict total order: ascending, exactly the set's elements, each once |
| Order.SortedUnique | social_graph/graph.py:63 | two ascending listings of the same set are equal, so `sorted` has one result |
| Order.ListOf | social_graph/recommendation.py:18 | iterating a set visits each element exactly once |
| Recommendation.RecommendFriends | social_graph/recommendation.py:6-33 | `[]` for an unknown user. At most `max_results` entries, ranked by count descending then name ascending, no name twice. Each entry is a candidate (not the user, not a friend, some mutual friend) with its number of mutual friends. A candidate is left out only when the list is full of candidates ranked before it |
| Recommendation.MutualCounts | social_graph/recommendation.py:16-25 | the counter holds exactly the candidates, each with its number of mutual friends |
| Recommendation.CountFriendsOf | social_graph/recommendation.py:20-25 | the inner loop adds one for each friend-of-friend that is neither the user nor a direct friend |
| Recommendation.FriendList | social_graph/recommendation.py:19 | `get_friends(friend)`: exactly the friend's friends, ascending |
| Recommendation.HitsAreMutual | social_graph/recommendation.py:18-25 | counting over all direct friends gives the number of mutual friends |
| Recommendation.HitsCount | social_graph/recommendation.py:18-25 | over a list without repeats, the count is the number of listed friends of the candidate |
| Recommendation.FriendNamesSymmetric | social_graph/recommendation.py:19-20 | `c` is among `f`'s friends exactly when `f` is among `c`'s |
| Recommendation.RankTotal | social_graph/recommendation.py:28-31 | the key `(-count, name)` totally orders the counter entries |
| Recommendation.Ranked | social_graph/recommendation.py:28-33 | the sorted entries, cut to `max_results`, meet the promises of `recommend_friends` |
| Recommendation.Names | social_graph/recommendation.py:33 | the names of a ranking, position by position |
| Scenario.BuildGraph | tests/test_recommendation_manual.py:7-12 | the five `add_friendship` calls give the graph with ids in order of first mention and the five friendships |
| Scenario.FirstLink | tests/test_recommendation_manual.py:8 | Alice–Bob on the empty graph adds both with ids 0 and 1 |
| Scenario.SecondLink | tests/test_recommendation_manual.py:9 | Alice–Charlie adds Charlie with id 2 |
| Scenario.ThirdLink | tests/test_recommendation_manual.py:10 | Bob–David adds David with id 3 |
| Scenario.FourthLink | tests/test_recommendation_manual.py:11 | Charlie–David links two existing users |
| Scenario.FifthLink | tests/test_recommendation_manual.py:12 | Charlie–Eve adds Eve with id 4 |
| Scenario.Candidates | tests/test_recommendation_manual.py:21 | Alice's only candidates are David, with mutual friends Bob and Charlie, and Eve, with mutual friend Charlie |
| Scenario.TopTwo | tests/test_recommendation_manual.py:21-22 | with exactly those two candidates, the promises of `recommend_friends` force `[(David, 2), (Eve, 1)]` |
| Scenario.RecommendOnFive | tests/test_recommendation_manual.py:7-22 | the script run on any five distinct names gives `[(d, 2), (e, 1)]` |
| Scenario.AliceRecommendations | tests/test_recommendation_manual.py:7-22 | `recommend_friends(g, "Alice")` is `[("David", 2), ("Eve", 1)]` |

## Left out

- The Qt interface under `gui/`: windows, dialogs, animators and the circular canvas layout. Also `main.py` and the timing benchmark `performance_tests.py`.
- The blended recommendation score of the recommendation window, which uses floating-point weights, and community detection. The union-find it relies on, `social_graph.dsu`, is not part of this model.
- File I/O in `save`/`load`: opening, JSON encoding and the existence test. `Graph.Save` returns the record and `Graph.Load` takes `None` for a missing file or the decoded record.
- The text renderers `print_adjacency_list` and `print_adjacency_matrix`, and `users_in_order`, which is a copy of the name list. They only format output.
- `time_ms` and `perf_counter`, the debug `print` at the top of `dfs_shortest_path`, and the `return_full_result`/`return_full` flags. Those flags only pick the path alone out of the full result, so every result is the full record.
- `bfs_shortest_path` raises `ValueError` for a `None` graph; a `Store` value cannot be `None`.
- SocialGraph.Graph.AddFriendship: requires every absent endpoint to be non-empty and already stripped. For any other absent name the source stores the stripped form and then raises `KeyError` at the lookup on graph.py lines 52-53; the model has no exception.
- SocialGraph.Graph.GetUserId, SocialGraph.Graph.GetUserName, SocialGraph.Graph.GetNeighbors: require a known name or an id in range. The source raises `KeyError` or `IndexError` otherwise.
- Recommendation.RecommendFriends: `max_results` is a `nat`. Python's slice with a negative bound drops entries from the end instead, and that case is not modelled.
- Dfs.DfsTraversal: the inner `dfs` recurses once per level of the tree (social_graph/dfs.py:50-63). CPython stops such recursion with `RecursionError` at about 1000 nested calls, so a long chain of friends makes the source fail where the model returns a result. The recursion limit is not modelled.
- DfsPath.DfsShortestPath: the same holds for its backtracking `dfs` (social_graph/dfs.py:105-118), which nests one call per user on the current path. The `RecursionError` on a simple path longer than about 1000 users is not modelled.
- DfsIterative.DfsIterative: it is not proved that the result equals the `order` of `dfs_traversal` from the same start. Its contract instead states that each next user is the least-named friend of the previous one that is not yet listed, whenever one is left.
- DfsIterative.DfsIterative: the loop's termination is shown by a lexicographic measure (unvisited ids, then stack height) rather than the source's bound on the total number of pushes.
- DfsPath.DfsShortestPath: which of several equally short paths is returned depends on the iteration order of the neighbour sets. It is modelled as an arbitrary listing of each set and not pinned down.
- Set and dict iteration order in general (the neighbour sets in `dfs_shortest_path`, the direct-friend set in `recommend_friends`) is modelled as an unspecified listing. Results that depend on it are stated for every listing.
