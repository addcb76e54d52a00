/**
 * The graph store of social_graph/graph.py: users with dense integer ids and an
 * undirected friendship relation kept as one neighbour-id set per id.
 *
 * `Store` is the value of the three parallel structures (`_id_to_user`,
 * `_user_to_id`, `_adj`); its member functions are the reference definitions of
 * what each mutator does, and the lemmas below prove what the source promises of
 * them. The class `Graph` at the end of this module holds the same three fields
 * and updates them in place, each method proved equal to the matching function.
 */
module SocialGraph {
  import opened Wrappers
  import opened Order

  /** Python's `str.isspace` for one code point. */
  predicate IsSpace(c: char)
  {
    || ('\U{0009}' <= c <= '\U{000D}')
    || ('\U{001C}' <= c <= '\U{0020}')
    || c == '\U{0085}' || c == '\U{00A0}' || c == '\U{1680}'
    || ('\U{2000}' <= c <= '\U{200A}')
    || c == '\U{2028}' || c == '\U{2029}' || c == '\U{202F}'
    || c == '\U{205F}' || c == '\U{3000}'
  }

  /** Drops leading whitespace. */
  function TrimStart(s: string): string
  {
    if |s| > 0 && IsSpace(s[0]) then TrimStart(s[1..]) else s
  }

  /** Drops trailing whitespace. */
  function TrimEnd(s: string): string
  {
    if |s| > 0 && IsSpace(s[|s| - 1]) then TrimEnd(s[..|s| - 1]) else s
  }

  /** Python's `str.strip()` with no argument. */
  function Trim(s: string): string
  {
    TrimEnd(TrimStart(s))
  }

  /** A name that `add_user` stores unchanged: non-empty and already stripped. */
  predicate IsName(s: string)
  {
    s != [] && Trim(s) == s
  }

  /** `TrimStart` removes exactly the leading whitespace: what remains is a suffix
      that is empty or starts with a non-space, and all that went was whitespace. */
  lemma {:induction false} TrimStartSpec(s: string)
    ensures |TrimStart(s)| <= |s| && TrimStart(s) == s[|s| - |TrimStart(s)|..]
    ensures TrimStart(s) == [] || !IsSpace(TrimStart(s)[0])
    ensures forall i :: 0 <= i < |s| - |TrimStart(s)| ==> IsSpace(s[i])
  {
    if |s| > 0 && IsSpace(s[0]) {
      TrimStartSpec(s[1..]);
      forall i | 0 <= i < |s| - |TrimStart(s)|
        ensures IsSpace(s[i])
      {
        if i > 0 {
          assert s[i] == s[1..][i - 1];
        }
      }
    }
  }

  /** `TrimEnd` removes exactly the trailing whitespace. */
  lemma {:induction false} TrimEndSpec(s: string)
    ensures |TrimEnd(s)| <= |s| && TrimEnd(s) == s[..|TrimEnd(s)|]
    ensures TrimEnd(s) == [] || !IsSpace(TrimEnd(s)[|TrimEnd(s)| - 1])
    ensures forall i :: |TrimEnd(s)| <= i < |s| ==> IsSpace(s[i])
  {
    if |s| > 0 && IsSpace(s[|s| - 1]) {
      var p := s[..|s| - 1];
      TrimEndSpec(p);
      assert TrimEnd(s) == TrimEnd(p);
      assert TrimEnd(s) == s[..|TrimEnd(s)|] by {
        assert p[..|TrimEnd(p)|] == s[..|TrimEnd(p)|];
      }
      forall i | |TrimEnd(s)| <= i < |s|
        ensures IsSpace(s[i])
      {
        if i < |s| - 1 {
          assert s[i] == p[i];
        }
      }
    }
  }

  /** Stripping leaves no whitespace at either end, so a second strip changes nothing. */
  lemma TrimIdempotent(s: string)
    ensures Trim(s) == [] || (!IsSpace(Trim(s)[0]) && !IsSpace(Trim(s)[|Trim(s)| - 1]))
    ensures Trim(Trim(s)) == Trim(s)
  {
    var a := TrimStart(s);
    TrimStartSpec(s);
    TrimEndSpec(a);
    var t := TrimEnd(a);
    if t != [] {
      assert t[0] == a[0];
      assert TrimStart(t) == t;
      assert TrimEnd(t) == t;
    } else {
      assert TrimStart(t) == t;
    }
  }

  /** New position of a surviving id once id `uid` is deleted. */
  function Shift(n: nat, uid: nat): nat
  {
    if n > uid then n - 1 else n
  }

  /** Old position of the user now at id `i` once id `uid` was deleted. */
  function Unshift(i: nat, uid: nat): nat
  {
    if i < uid then i else i + 1
  }

  /** A neighbour set with `uid` dropped and the ids above it moved down by one. */
  function Renumbered(ns: set<nat>, uid: nat): set<nat>
  {
    set n | n in ns && n != uid :: Shift(n, uid)
  }

  /** The three parallel structures of a `Graph`: `users` is `_id_to_user`, `ids`
      is `_user_to_id`, `adj` is `_adj`. */
  datatype Store = Store(users: seq<string>, ids: map<string, nat>, adj: seq<set<nat>>)
  {
    /** The store's invariants: name and id are a bijection onto 0..n-1, there is
        one neighbour set per id, every neighbour is an id, adjacency is symmetric
        and there are no self-loops. */
    ghost predicate Valid()
    {
      && |adj| == |users|
      && (forall i :: 0 <= i < |users| ==> users[i] in ids && ids[users[i]] == i)
      && (forall name :: name in ids ==> ids[name] < |users| && users[ids[name]] == name)
      && (forall i, j {:trigger j in adj[i]} :: 0 <= i < |adj| && j in adj[i] ==> j < |adj| && j != i && i in adj[j])
    }

    /** `are_friends(u, v)`: both are users and `v`'s id is in `u`'s neighbour set. */
    predicate Friends(u: string, v: string)
    {
      u in ids && v in ids && ids[u] < |adj| && ids[v] in adj[ids[u]]
    }

    /** The names of the neighbours of `name`; empty for an unknown name. */
    function FriendNames(name: string): set<string>
    {
      if name in ids && ids[name] < |adj| then
        set n | n in adj[ids[name]] && n < |users| :: users[n]
      else {}
    }

    /** A name `add_friendship` can look up once it has called `add_user`. */
    predicate Known(name: string)
    {
      name in ids || IsName(name)
    }

    /** `add_user(name)`: the stripped name gets the next id and no friends, unless it
        is empty or already a user. */
    function WithUser(name: string): Store
    {
      var t := Trim(name);
      if t == [] || t in ids then this
      else Store(users + [t], ids[t := |users|], adj + [{}])
    }

    /** Ids `i` and `j` each enter the other's neighbour set. */
    function Linked(i: nat, j: nat): Store
      requires i < |adj| && j < |adj|
    {
      Store(users, ids, adj[i := adj[i] + {j}][j := adj[j] + {i}])
    }

    /** `if not has_user(name): add_user(name)`. */
    function Ensured(name: string): Store
    {
      if name in ids then this else WithUser(name)
    }

    /** `add_friendship(u, v)`: nothing for `u == v`; otherwise add each missing
        endpoint as a user, then link the two. */
    function Befriended(u: string, v: string): Store
      requires Valid()
      requires u == v || (Known(u) && Known(v))
    {
      if u == v then this
      else
        EnsuredValid(this, u);
        EnsuredValid(Ensured(u), v);
        var s := Ensured(u).Ensured(v);
        s.Linked(s.ids[u], s.ids[v])
    }

    /** `remove_friendship(u, v)`: nothing unless they are friends; otherwise both
        directed entries go. */
    function Unfriended(u: string, v: string): Store
      requires Valid()
    {
      if !Friends(u, v) then this
      else
        var i, j := ids[u], ids[v];
        Store(users, ids, adj[i := adj[i] - {j}][j := adj[j] - {i}])
    }

    /** `delete_user(name)`: nothing for an unknown name; otherwise the name goes,
        every id above it moves down by one and every neighbour set is renumbered. */
    function Deleted(name: string): Store
      requires Valid()
    {
      if name !in ids then this
      else
        var uid := ids[name];
        Store(users[..uid] + users[uid + 1..],
              map k | k in ids && k != name :: Shift(ids[k], uid),
              seq(|adj| - 1, i requires 0 <= i < |adj| - 1 => Renumbered(adj[Unshift(i, uid)], uid)))
    }
  }

  /** The empty graph of `Graph()`. */
  function Empty(): (s: Store)
    ensures s.Valid() && s.ids == map[]
  {
    Store([], map[], [])
  }

  /** Distinct ids carry distinct names. */
  lemma NamesDistinct(s: Store, i: nat, j: nat)
    requires s.Valid() && i < |s.users| && j < |s.users| && i != j
    ensures s.users[i] != s.users[j]
  {
    assert s.ids[s.users[i]] == i && s.ids[s.users[j]] == j;
  }

  /** `are_friends` is symmetric while adjacency is. */
  lemma FriendsSymmetric(s: Store, u: string, v: string)
    requires s.Valid()
    ensures s.Friends(u, v) == s.Friends(v, u)
  {
    if s.Friends(u, v) {
      assert s.ids[u] in s.adj[s.ids[v]];
    }
    if s.Friends(v, u) {
      assert s.ids[v] in s.adj[s.ids[u]];
    }
  }

  /** `get_friends` lists exactly the users `name` is friends with. */
  lemma FriendNamesAreFriends(s: Store, name: string, other: string)
    requires s.Valid()
    ensures other in s.FriendNames(name) <==> s.Friends(name, other)
  {
    if s.Friends(name, other) {
      var n := s.ids[other];
      assert s.users[n] == other;
    }
  }

  /** `add_user` keeps the invariants; a new name gets id n = the old user count. */
  lemma WithUserValid(s: Store, name: string)
    requires s.Valid()
    ensures s.WithUser(name).Valid()
    ensures Trim(name) != [] ==> Trim(name) in s.WithUser(name).ids
    ensures Trim(name) == [] || Trim(name) in s.ids ==> s.WithUser(name) == s
    ensures Trim(name) != [] && Trim(name) !in s.ids ==>
      && s.WithUser(name).ids[Trim(name)] == |s.users|
      && s.WithUser(name).users == s.users + [Trim(name)]
      && s.WithUser(name).adj == s.adj + [{}]
    ensures forall k :: k in s.ids ==> k in s.WithUser(name).ids && s.WithUser(name).ids[k] == s.ids[k]
  {
    var t := Trim(name);
    if t != [] && t !in s.ids {
      var r := s.WithUser(name);
      forall i | 0 <= i < |r.users|
        ensures r.users[i] in r.ids && r.ids[r.users[i]] == i
      {
        if i < |s.users| {
          assert r.users[i] == s.users[i];
        }
      }
      forall k | k in r.ids
        ensures r.ids[k] < |r.users| && r.users[r.ids[k]] == k
      {
        if k != t {
          assert r.users[s.ids[k]] == s.users[s.ids[k]];
        }
      }
      forall i, j | 0 <= i < |r.adj| && j in r.adj[i]
        ensures j < |r.adj| && j != i && i in r.adj[j]
      {
        assert i < |s.adj| && r.adj[i] == s.adj[i];
        assert j in s.adj[i];
        assert j < |s.adj|;
        assert r.adj[j] == s.adj[j];
      }
    }
  }

  /** After `if not has_user(name): add_user(name)` a known name is a user, the
      invariants hold and every old user keeps its id. */
  lemma EnsuredValid(s: Store, name: string)
    requires s.Valid()
    ensures s.Ensured(name).Valid()
    ensures s.Known(name) ==> name in s.Ensured(name).ids
    ensures forall k :: k in s.ids ==> k in s.Ensured(name).ids && s.Ensured(name).ids[k] == s.ids[k]
    ensures |s.Ensured(name).adj| >= |s.adj|
    ensures forall k :: 0 <= k < |s.adj| ==> s.Ensured(name).adj[k] == s.adj[k]
  {
    WithUserValid(s, name);
  }

  /** Linking two distinct ids keeps the invariants. */
  lemma LinkedValid(s: Store, i: nat, j: nat)
    requires s.Valid() && i < |s.adj| && j < |s.adj| && i != j
    ensures s.Linked(i, j).Valid()
  {
    var r := s.Linked(i, j);
    assert forall k :: 0 <= k < |s.adj| ==> s.adj[k] <= r.adj[k];
    assert i in r.adj[j] && j in r.adj[i];
    forall a, b | 0 <= a < |r.adj| && b in r.adj[a]
      ensures b < |r.adj| && b != a && a in r.adj[b]
    {
      assert b in s.adj[a] || (a == i && b == j) || (a == j && b == i);
      if b in s.adj[a] {
        assert a in s.adj[b];
      }
    }
  }

  /** `add_friendship` keeps the invariants and every old user keeps its id. */
  lemma BefriendedValid(s: Store, u: string, v: string)
    requires s.Valid()
    requires u == v || (s.Known(u) && s.Known(v))
    ensures s.Befriended(u, v).Valid()
    ensures u == v ==> s.Befriended(u, v) == s
    ensures forall k :: k in s.ids ==> k in s.Befriended(u, v).ids && s.Befriended(u, v).ids[k] == s.ids[k]
  {
    if u != v {
      EnsuredValid(s, u);
      EnsuredValid(s.Ensured(u), v);
      var s2 := s.Ensured(u).Ensured(v);
      LinkedValid(s2, s2.ids[u], s2.ids[v]);
    }
  }

  /** After `add_friendship(u, v)` with `u != v` both are users and each is in
      the other's neighbour set. */
  lemma BefriendedLinks(s: Store, u: string, v: string)
    requires s.Valid()
    requires u != v && s.Known(u) && s.Known(v)
    ensures s.Befriended(u, v).Friends(u, v) && s.Befriended(u, v).Friends(v, u)
  {
    EnsuredValid(s, u);
    EnsuredValid(s.Ensured(u), v);
  }

  /** `add_friendship(u, v)` leaves every other pair of old users as it was. */
  lemma BefriendedFrame(s: Store, u: string, v: string, a: string, b: string)
    requires s.Valid()
    requires u != v && s.Known(u) && s.Known(v)
    requires a in s.ids && b in s.ids && !(a == u && b == v) && !(a == v && b == u)
    ensures s.Befriended(u, v).Friends(a, b) == s.Friends(a, b)
  {
    var s1 := s.Ensured(u);
    EnsuredValid(s, u);
    var s2 := s1.Ensured(v);
    EnsuredValid(s1, v);
    var ia, ib := s.ids[a], s.ids[b];
    assert s2.ids[a] == ia && s2.ids[b] == ib;
    assert ia < |s.adj|;
    assert s1.adj[ia] == s.adj[ia];
    assert s2.adj[ia] == s1.adj[ia];
    NamesDistinct(s2, s2.ids[u], s2.ids[v]);
    var r := s2.Linked(s2.ids[u], s2.ids[v]);
    assert (ib in r.adj[ia]) == (ib in s2.adj[ia]);
    assert r.ids == s2.ids && |r.adj| == |s2.adj|;
    assert r.Friends(a, b) == (ib in r.adj[ia]);
    assert s.Friends(a, b) == (ib in s.adj[ia]);
    assert s.Befriended(u, v) == r;
  }

  /** `add_friendship` is idempotent: the neighbour collections are sets. */
  lemma {:induction false} BefriendedIdempotent(s: Store, u: string, v: string)
    requires s.Valid()
    requires u == v || (s.Known(u) && s.Known(v))
    ensures s.Befriended(u, v).Valid()
    ensures s.Befriended(u, v).Befriended(u, v) == s.Befriended(u, v)
  {
    BefriendedValid(s, u, v);
    if u != v {
      BefriendedLinks(s, u, v);
      var r := s.Befriended(u, v);
      assert u in r.ids && v in r.ids;
      var i, j := r.ids[u], r.ids[v];
      assert r.Ensured(u).Ensured(v) == r;
      assert j in r.adj[i] && i in r.adj[j];
      assert r.adj[i := r.adj[i] + {j}][j := r.adj[j] + {i}] == r.adj;
    }
  }

  /** `remove_friendship` keeps the invariants and removes exactly the two
      directed entries of a friendship: names, ids and every other pair stay. */
  lemma UnfriendedEffect(s: Store, u: string, v: string)
    requires s.Valid()
    ensures s.Unfriended(u, v).Valid()
    ensures s.Unfriended(u, v).users == s.users && s.Unfriended(u, v).ids == s.ids
    ensures !s.Unfriended(u, v).Friends(u, v) && !s.Unfriended(u, v).Friends(v, u)
    ensures forall a, b :: !(a == u && b == v) && !(a == v && b == u) ==>
      s.Unfriended(u, v).Friends(a, b) == s.Friends(a, b)
  {
    FriendsSymmetric(s, u, v);
    var r := s.Unfriended(u, v);
    if s.Friends(u, v) {
      var i, j := s.ids[u], s.ids[v];
      forall a, b | !(a == u && b == v) && !(a == v && b == u)
        ensures r.Friends(a, b) == s.Friends(a, b)
      {
        if a in s.ids && b in s.ids {
          if s.ids[a] == i {
            assert a == u && s.ids[b] != j;
          } else if s.ids[a] == j {
            assert a == v && s.ids[b] != i;
          }
        }
      }
    }
  }

  /** `delete_user` keeps the invariants: ids are dense 0..n-2 afterwards. */
  lemma DeletedValid(s: Store, name: string)
    requires s.Valid()
    ensures s.Deleted(name).Valid()
  {
    if name in s.ids {
      DeletedBijection(s, name);
      DeletedSymmetric(s, name);
    }
  }

  /** After `delete_user`, name and id are again a bijection onto 0..n-2. */
  lemma DeletedBijection(s: Store, name: string)
    requires s.Valid() && name in s.ids
    ensures var r := s.Deleted(name);
      && |r.adj| == |r.users| == |s.users| - 1
      && (forall i :: 0 <= i < |r.users| ==> r.users[i] in r.ids && r.ids[r.users[i]] == i)
      && (forall k :: k in r.ids ==> r.ids[k] < |r.users| && r.users[r.ids[k]] == k)
  {
    var uid := s.ids[name];
    var r := s.Deleted(name);
    forall i | 0 <= i < |r.users|
      ensures r.users[i] in r.ids && r.ids[r.users[i]] == i
    {
      var k := Unshift(i, uid);
      assert r.users[i] == s.users[k];
      NamesDistinct(s, k, uid);
    }
    forall k | k in r.ids
      ensures r.ids[k] < |r.users| && r.users[r.ids[k]] == k
    {
      assert s.ids[k] != uid;
    }
  }

  /** After `delete_user`, every neighbour is an id, adjacency is symmetric and
      there are no self-loops. */
  lemma DeletedSymmetric(s: Store, name: string)
    requires s.Valid() && name in s.ids
    ensures var r := s.Deleted(name);
      forall i, j {:trigger j in r.adj[i]} :: 0 <= i < |r.adj| && j in r.adj[i] ==> j < |r.adj| && j != i && i in r.adj[j]
  {
    var uid := s.ids[name];
    var r := s.Deleted(name);
    forall i, j | 0 <= i < |r.adj| && j in r.adj[i]
      ensures j < |r.adj| && j != i && i in r.adj[j]
    {
      var oi := Unshift(i, uid);
      assert r.adj[i] == Renumbered(s.adj[oi], uid);
      var n :| n in s.adj[oi] && n != uid && Shift(n, uid) == j;
      assert n < |s.adj| && n != oi;
      assert Unshift(j, uid) == n;
      assert r.adj[j] == Renumbered(s.adj[n], uid);
      assert oi in s.adj[n] && oi != uid && Shift(oi, uid) == i;
    }
  }

  /** `delete_user` removes the name, moves every id above the deleted one down by
      one, keeps the others, and preserves every friendship between survivors. */
  lemma DeletedEffect(s: Store, name: string)
    requires s.Valid()
    ensures name in s.ids ==> s.Deleted(name).ids.Keys == s.ids.Keys - {name}
    ensures name !in s.ids ==> s.Deleted(name) == s
    ensures forall k :: name in s.ids && k in s.ids && k != name ==>
      s.Deleted(name).ids[k] == (if s.ids[k] > s.ids[name] then s.ids[k] - 1 else s.ids[k])
    ensures forall a, b :: a != name && b != name ==> s.Deleted(name).Friends(a, b) == s.Friends(a, b)
  {
    DeletedValid(s, name);
    if name in s.ids {
      var uid := s.ids[name];
      var r := s.Deleted(name);
      forall a, b | a != name && b != name
        ensures r.Friends(a, b) == s.Friends(a, b)
      {
        if a in s.ids && b in s.ids {
          var ia, ib := s.ids[a], s.ids[b];
          assert ia != uid && ib != uid;
          assert Unshift(Shift(ia, uid), uid) == ia;
          assert r.adj[r.ids[a]] == Renumbered(s.adj[ia], uid);
          if ib in s.adj[ia] {
            assert Shift(ib, uid) in r.adj[r.ids[a]];
          }
          if r.ids[b] in r.adj[r.ids[a]] {
            var n :| n in s.adj[ia] && n != uid && Shift(n, uid) == Shift(ib, uid);
            assert n == ib;
          }
        }
      }
    }
  }

  /** The record `save` writes and `load` reads: `users` in id order and, per id,
      a list of neighbour ids. */
  datatype Record = Record(users: seq<string>, adj: seq<seq<nat>>)

  /** `rec` is what `save` emits for `s`: the id-ordered names and, per id, the
      neighbour set listed once each in some order. */
  ghost predicate IsSaveOf(s: Store, rec: Record)
  {
    && rec.users == s.users
    && |rec.adj| == |s.adj|
    && (forall i :: 0 <= i < |rec.adj| ==> NoDuplicates(rec.adj[i]))
    && (forall i, x {:trigger x in rec.adj[i]} {:trigger x in s.adj[i]} ::
          0 <= i < |rec.adj| ==> (x in rec.adj[i] <==> x in s.adj[i]))
  }

  /** The index `{name: idx for idx, name in enumerate(users)}` keeps for `x`: its
      last position. */
  function LastIndex(xs: seq<string>, x: string): (k: nat)
    requires x in xs
    ensures k < |xs| && xs[k] == x
    ensures forall j :: k < j < |xs| ==> xs[j] != x
  {
    if xs[|xs| - 1] == x then |xs| - 1 else LastIndex(xs[..|xs| - 1], x)
  }

  /** The store `load` builds from a record. */
  function Loaded(rec: Record): Store
  {
    Store(rec.users,
          map name | name in rec.users :: LastIndex(rec.users, name),
          seq(|rec.adj|, i requires 0 <= i < |rec.adj| => set x | x in rec.adj[i]))
  }

  /** Saving and loading again gives back the same three structures. */
  lemma SaveLoadRoundTrip(s: Store, rec: Record)
    requires s.Valid() && IsSaveOf(s, rec)
    ensures Loaded(rec) == s
  {
    var r := Loaded(rec);
    forall name | name in r.ids
      ensures name in s.ids && r.ids[name] == s.ids[name]
    {
      var k := LastIndex(rec.users, name);
      assert s.users[k] == name;
      assert s.ids[name] == k;
    }
    forall name | name in s.ids
      ensures name in r.ids
    {
      assert rec.users[s.ids[name]] == name;
    }
    assert r.ids == s.ids;
    forall i | 0 <= i < |r.adj|
      ensures r.adj[i] == s.adj[i]
    {
      forall x ensures x in r.adj[i] <==> x in s.adj[i] {
        assert x in r.adj[i] <==> x in rec.adj[i];
      }
    }
    assert r.adj == s.adj;
  }

  /** The matrix cell `(i, j)` once the rows before `u` have been written out and,
      of row `u`, the neighbours in `done`. */
  ghost function FilledCell(g: seq<set<nat>>, u: nat, done: set<nat>, i: nat, j: nat): int
    requires i < |g| && j < |g|
  {
    if (i < u && j in g[i]) || (j < u && i in g[j]) || (i == u && j in done) || (j == u && i in done) then 1 else 0
  }

  /** The `enumerate` loop of `delete_user`: each name mapped to its position. */
  method IndexOf(names: seq<string>) returns (m: map<string, nat>)
    requires NoDuplicates(names)
    ensures forall k :: k in m <==> k in names
    ensures forall i :: 0 <= i < |names| ==> names[i] in m && m[names[i]] == i
  {
    m := map[];
    var i := 0;
    while i < |names|
      invariant 0 <= i <= |names|
      invariant forall k :: k in m <==> k in names[..i]
      invariant forall k :: 0 <= k < i ==> names[k] in m && m[names[k]] == k
    {
      m := m[names[i] := i];
      i := i + 1;
    }
    assert names[..i] == names;
  }

  /** The second loop of `delete_user`: every neighbour set without `uid`, with the
      ids above `uid` moved down by one. */
  method RenumberRows(rows: seq<set<nat>>, uid: nat) returns (r: seq<set<nat>>)
    ensures |r| == |rows|
    ensures forall k :: 0 <= k < |r| ==> r[k] == Renumbered(rows[k], uid)
  {
    r := [];
    var i := 0;
    while i < |rows|
      invariant 0 <= i <= |rows|
      invariant |r| == i
      invariant forall k :: 0 <= k < i ==> r[k] == Renumbered(rows[k], uid)
    {
      var neighbors := rows[i];
      var updated: set<nat> := {};
      var rest := neighbors;
      while rest != {}
        invariant rest <= neighbors
        invariant updated == Renumbered(neighbors - rest, uid)
        decreases rest
      {
        var n :| n in rest;
        rest := rest - {n};
        assert neighbors - rest == (neighbors - (rest + {n})) + {n};
        if n == uid {
          continue;
        }
        updated := updated + {if n > uid then n - 1 else n};
      }
      assert neighbors - rest == neighbors;
      r := r + [updated];
      i := i + 1;
    }
  }

  /** The `Graph` object: its three fields are updated in place by the mutators. */
  class Graph {
    var users: seq<string>
    var ids: map<string, nat>
    var adj: seq<set<nat>>

    /** The current value of the three structures. */
    function State(): Store
      reads this
    {
      Store(users, ids, adj)
    }

    ghost predicate Valid()
      reads this
    {
      State().Valid()
    }

    /** `Graph()`: no users. */
    constructor ()
      ensures Valid() && State() == Empty()
    {
      users, ids, adj := [], map[], [];
    }

    method AddUser(username: string)
      requires Valid()
      modifies this
      ensures Valid() && State() == old(State()).WithUser(username)
    {
      WithUserValid(State(), username);
      var name := Trim(username);
      if name == [] {
        return;
      }
      if name in ids {
        return;
      }
      var newId := |users|;
      ids := ids[name := newId];
      users := users + [name];
      adj := adj + [{}];
    }

    /** `has_user`: some id carries this name. */
    method HasUser(username: string) returns (b: bool)
      requires Valid()
      ensures b <==> username in users
    {
      b := username in ids;
      if b {
        assert users[ids[username]] == username;
      }
    }

    /** `get_all_users`: every user once, in id order. */
    method GetAllUsers() returns (r: seq<string>)
      requires Valid()
      ensures forall x :: x in r <==> x in ids
      ensures NoDuplicates(r)
      ensures forall i :: 0 <= i < |r| ==> ids[r[i]] == i
    {
      r := users;
      forall x | x in ids ensures x in r {
        assert users[ids[x]] == x;
      }
      forall i, j | 0 <= i < j < |r| ensures r[i] != r[j] {
        NamesDistinct(State(), i, j);
      }
    }

    /** `add_friendship(u, v)`. An absent endpoint must already be a stripped,
        non-empty name: `add_user` stores the stripped form, and the lookup that
        follows fails for any other. */
    method AddFriendship(u: string, v: string)
      requires Valid()
      requires u == v || (State().Known(u) && State().Known(v))
      modifies this
      ensures Valid() && State() == old(State()).Befriended(u, v)
    {
      if u == v {
        return;
      }
      ghost var s := State();
      EnsureUser(u);
      EnsureUser(v);
      ghost var s2 := State();
      EnsuredValid(s, u);
      EnsuredValid(s.Ensured(u), v);
      var uid := ids[u];
      var vid := ids[v];
      adj := adj[uid := adj[uid] + {vid}];
      adj := adj[vid := adj[vid] + {uid}];
      assert State() == s2.Linked(uid, vid);
      BefriendedValid(s, u, v);
    }

    /** `if not self.has_user(name): self.add_user(name)`. */
    method EnsureUser(name: string)
      requires Valid()
      modifies this
      ensures Valid() && State() == old(State()).Ensured(name)
    {
      EnsuredValid(State(), name);
      var known := HasUser(name);
      if !known {
        AddUser(name);
      }
    }

    /** The names of the ids in `ns`, sorted: `sorted(_id_to_user[n] for n in ns)`. */
    method SortedNames(ns: set<nat>) returns (r: seq<string>)
      requires Valid()
      requires forall n :: n in ns ==> n < |users|
      ensures SortedBy(LexLess, r)
      ensures forall x :: x in r <==> exists n :: n in ns && users[n] == x
    {
      var names := set n | n in ns :: users[n];
      LexStrictTotalOn(names);
      r := SortBy(names, LexLess);
    }

    /** `get_friends`: the friends' names in ascending order; none for an unknown name. */
    method GetFriends(username: string) returns (r: seq<string>)
      requires Valid()
      ensures SortedBy(LexLess, r)
      ensures forall x :: x in r <==> State().Friends(username, x)
      ensures username !in ids ==> r == []
    {
      var has := HasUser(username);
      if !has {
        return [];
      }
      var uid := ids[username];
      r := SortedNames(adj[uid]);
      forall x ensures x in r <==> State().Friends(username, x) {
        FriendNamesAreFriends(State(), username, x);
      }
    }

    /** `are_friends`: false if either is unknown. */
    method AreFriends(u: string, v: string) returns (b: bool)
      requires Valid()
      ensures b == State().Friends(u, v)
      ensures b ==> u in users && v in users && u != v
    {
      var hasU := HasUser(u);
      var hasV := HasUser(v);
      if !hasU || !hasV {
        return false;
      }
      b := ids[v] in adj[ids[u]];
    }

    method RemoveFriendship(u: string, v: string)
      requires Valid()
      modifies this
      ensures Valid() && State() == old(State()).Unfriended(u, v)
    {
      UnfriendedEffect(State(), u, v);
      var friends := AreFriends(u, v);
      if !friends {
        return;
      }
      var uid := ids[u];
      var vid := ids[v];
      adj := adj[uid := adj[uid] - {vid}];
      adj := adj[vid := adj[vid] - {uid}];
    }

    /** `get_user_id`: the lookup fails for an unknown name. */
    method GetUserId(username: string) returns (uid: nat)
      requires Valid()
      requires username in ids
      ensures uid < |users| && users[uid] == username
    {
      uid := ids[username];
    }

    /** `get_user_name`: the lookup fails for an id out of range. */
    method GetUserName(uid: nat) returns (name: string)
      requires Valid()
      requires uid < |users|
      ensures name in ids && ids[name] == uid
    {
      name := users[uid];
    }

    /** `get_neighbors`: the neighbour ids of `uid`, each once, in set order. */
    method GetNeighbors(uid: nat) returns (r: seq<nat>)
      requires Valid()
      requires uid < |adj|
      ensures forall x :: x in r <==> x in adj[uid]
      ensures NoDuplicates(r)
      ensures forall x :: x in r ==> x < |users| && x != uid
    {
      r := ListOf(adj[uid]);
    }

    /** `delete_user`: pop the user, rebuild the name-to-id map from the shortened
        list, then rebuild every neighbour set without the deleted id and with the
        ids above it moved down by one. */
    method DeleteUser(username: string)
      requires Valid()
      modifies this
      ensures Valid() && State() == old(State()).Deleted(username)
    {
      ghost var s := State();
      ghost var r := s.Deleted(username);
      DeletedValid(s, username);
      if username !in ids {
        return;
      }
      var uid := ids[username];
      ids := ids - {username};
      users := users[..uid] + users[uid + 1..];
      var rows := adj[..uid] + adj[uid + 1..];
      assert users == r.users;

      var newIds := IndexOf(users);
      forall k | k in newIds ensures k in r.ids && newIds[k] == r.ids[k] {
        var i :| 0 <= i < |users| && users[i] == k;
      }
      forall k | k in r.ids ensures k in newIds {
        assert r.users[r.ids[k]] == k;
      }
      ids := newIds;
      assert ids == r.ids;

      var newAdj := RenumberRows(rows, uid);
      forall i | 0 <= i < |newAdj| ensures newAdj[i] == r.adj[i] {
        assert rows[i] == s.adj[Unshift(i, uid)];
      }
      adj := newAdj;
      assert adj == r.adj;
    }

    /** `adjacency_list`: every user mapped to its friends' names in ascending order. */
    method AdjacencyList() returns (result: map<string, seq<string>>)
      requires Valid()
      ensures result.Keys == ids.Keys
      ensures forall name :: name in result ==> SortedBy(LexLess, result[name])
      ensures forall name, x :: name in result ==> (x in result[name] <==> State().Friends(name, x))
    {
      result := map[];
      var rest := ids.Keys;
      while rest != {}
        invariant rest <= ids.Keys
        invariant result.Keys == ids.Keys - rest
        invariant forall name :: name in result ==> SortedBy(LexLess, result[name])
        invariant forall name, x :: name in result ==> (x in result[name] <==> State().Friends(name, x))
        decreases rest
      {
        var name :| name in rest;
        var uid := ids[name];
        var friends := SortedNames(adj[uid]);
        forall x ensures x in friends <==> State().Friends(name, x) {
          FriendNamesAreFriends(State(), name, x);
        }
        result := result[name := friends];
        rest := rest - {name};
      }
    }

    /** `adjacency_matrix`: the n-by-n 0/1 matrix in id order, 1 exactly where the
        two users are friends. */
    method AdjacencyMatrix() returns (matrix: seq<seq<int>>)
      requires Valid()
      ensures |matrix| == |users|
      ensures forall i :: 0 <= i < |matrix| ==> |matrix[i]| == |users|
      ensures forall i, j :: 0 <= i < |matrix| && 0 <= j < |matrix| ==>
        matrix[i][j] == (if j in adj[i] then 1 else 0)
      ensures forall i, j :: 0 <= i < |matrix| && 0 <= j < |matrix| ==> matrix[i][j] == matrix[j][i]
    {
      var n := |users|;
      var g := adj;
      matrix := seq(n, _ => seq(n, _ => 0));
      var u := 0;
      while u < n
        invariant 0 <= u <= n
        invariant |matrix| == n && forall i :: 0 <= i < n ==> |matrix[i]| == n
        invariant forall i, j :: 0 <= i < n && 0 <= j < n ==> matrix[i][j] == FilledCell(g, u, {}, i, j)
      {
        var rest := g[u];
        while rest != {}
          invariant rest <= g[u]
          invariant |matrix| == n && forall i :: 0 <= i < n ==> |matrix[i]| == n
          invariant forall i, j :: 0 <= i < n && 0 <= j < n ==> matrix[i][j] == FilledCell(g, u, g[u] - rest, i, j)
          decreases rest
        {
          var v :| v in rest;
          matrix := matrix[u := matrix[u][v := 1]];
          matrix := matrix[v := matrix[v][u := 1]];
          rest := rest - {v};
        }
        forall i, j | 0 <= i < n && 0 <= j < n
          ensures matrix[i][j] == FilledCell(g, u + 1, {}, i, j)
        {
          assert matrix[i][j] == FilledCell(g, u, g[u], i, j);
        }
        u := u + 1;
      }
      forall i, j | 0 <= i < n && 0 <= j < n ensures matrix[i][j] == (if j in g[i] then 1 else 0) {
        assert matrix[i][j] == FilledCell(g, n, {}, i, j);
        if i in g[j] {
          assert j in g[i];
        }
      }
    }

    /** `save`, without the file: the record it writes. */
    method Save() returns (rec: Record)
      requires Valid()
      ensures IsSaveOf(State(), rec)
    {
      var lists: seq<seq<nat>> := [];
      var i := 0;
      while i < |adj|
        invariant 0 <= i <= |adj|
        invariant |lists| == i
        invariant forall k :: 0 <= k < i ==> NoDuplicates(lists[k])
        invariant forall k, x {:trigger x in lists[k]} :: 0 <= k < i ==> (x in lists[k] <==> x in adj[k])
      {
        var l := ListOf(adj[i]);
        lists := lists + [l];
        i := i + 1;
      }
      rec := Record(users, lists);
    }

    /** `load`, without the file: a missing file (`None`) leaves the graph as it
        is; otherwise the structures are rebuilt from the record. */
    method Load(saved: Option<Record>)
      modifies this
      ensures saved == None ==> State() == old(State())
      ensures saved != None ==> State() == Loaded(saved.value)
    {
      if saved == None {
        return;
      }
      var data := saved.value;
      users := data.users;
      ids := map name | name in users :: LastIndex(users, name);
      adj := seq(|data.adj|, i requires 0 <= i < |data.adj| => set x | x in data.adj[i]);
    }
  }
}
