/**
 * `recommend_friends` of social_graph/recommendation.py over a snapshot of the
 * graph store: every user who is neither the subject nor one of its friends
 * but is a friend of one of its friends is scored by the number of mutual
 * friends, and the best-scored are returned, most mutual friends first and
 * equal scores by name.
 */
module Recommendation {
  import opened Order
  import opened SocialGraph

  /** The friends `user` and `c` have in common. */
  ghost function Mutual(s: Store, user: string, c: string): set<string>
  {
    s.FriendNames(user) * s.FriendNames(c)
  }

  /** The users the counter scores: not `user`, not a friend of `user`, and
      with at least one mutual friend. */
  ghost predicate IsCandidate(s: Store, user: string, c: string)
  {
    c != user && c !in s.FriendNames(user) && Mutual(s, user, c) != {}
  }

  /** The ranking key `(-count, name)`: more mutual friends first, then the
      smaller name. */
  predicate RankBefore(a: (string, nat), b: (string, nat))
  {
    a.1 > b.1 || (a.1 == b.1 && LexLess(a.0, b.0))
  }

  /** The names of a ranking. */
  function Names(r: seq<(string, nat)>): (ns: seq<string>)
    ensures |ns| == |r| && forall i :: 0 <= i < |r| ==> ns[i] == r[i].0
  {
    seq(|r|, i requires 0 <= i < |r| => r[i].0)
  }

  /** `recommend_friends(graph, username, max_results)` for a `max_results`
      that is not negative: `[]` for an unknown user; otherwise at most
      `max_results` candidates, each once and with its number of mutual
      friends, in ranking order, and a candidate is left out only when the
      list is full of candidates ranked before it. */
  method RecommendFriends(s: Store, username: string, maxResults: nat) returns (r: seq<(string, nat)>)
    requires s.Valid()
    ensures username !in s.ids ==> r == []
    ensures |r| <= maxResults && SortedBy(RankBefore, r) && NoDuplicates(Names(r))
    ensures forall i :: 0 <= i < |r| ==> IsCandidate(s, username, r[i].0) && r[i].1 == |Mutual(s, username, r[i].0)|
    ensures forall c :: IsCandidate(s, username, c) && c !in Names(r) ==>
      |r| == maxResults && forall i :: 0 <= i < |r| ==> RankBefore(r[i], (c, |Mutual(s, username, c)|))
  {
    if username !in s.ids {
      return [];
    }
    var direct := s.FriendNames(username);
    var counts := MutualCounts(s, username, direct);
    var items := set c | c in counts :: (c, counts[c]);
    RankTotal(counts, items);
    var ranked := SortBy(items, RankBefore);
    r := if maxResults < |ranked| then ranked[..maxResults] else ranked;
    Ranked(s, username, counts, items, ranked, r);
  }

  /** Number of the friends listed in `fs` that `c` is a friend of. */
  ghost function Hits(s: Store, fs: seq<string>, c: string): nat
  {
    if fs == [] then 0
    else Hits(s, fs[..|fs| - 1], c) + (if c in s.FriendNames(fs[|fs| - 1]) then 1 else 0)
  }

  /** The `Counter` loop: for each direct friend (in the iteration order of the
      set) and each of that friend's friends, count the friend of a friend
      unless it is `username` or a direct friend. The counter has an entry for
      exactly the candidates, holding the number of mutual friends. */
  method MutualCounts(s: Store, username: string, direct: set<string>) returns (counts: map<string, nat>)
    requires s.Valid() && direct == s.FriendNames(username)
    ensures forall c :: c in counts <==> IsCandidate(s, username, c)
    ensures forall c :: c in counts ==> counts[c] == |Mutual(s, username, c)|
  {
    var friends := ListOf(direct);
    counts := map[];
    var i := 0;
    while i < |friends|
      invariant i <= |friends|
      invariant forall c :: c in counts <==> c != username && c !in direct && Hits(s, friends[..i], c) > 0
      invariant forall c :: c in counts ==> counts[c] == Hits(s, friends[..i], c)
    {
      var fof := FriendList(s, friends[i]);
      counts := CountFriendsOf(username, direct, fof, counts);
      HitsStep(s, friends, i);
      i := i + 1;
    }
    assert friends[..i] == friends;
    HitsAreMutual(s, username, friends);
  }

  /** Counting over a listing of the friends of `username` gives the number
      of mutual friends. */
  lemma HitsAreMutual(s: Store, username: string, friends: seq<string>)
    requires s.Valid() && NoDuplicates(friends) && forall x :: x in friends <==> x in s.FriendNames(username)
    ensures forall c :: Hits(s, friends, c) == |Mutual(s, username, c)|
  {
    forall c
      ensures Hits(s, friends, c) == |Mutual(s, username, c)|
    {
      FriendNamesSymmetric(s, c);
      HitsCount(s, friends, c, s.FriendNames(c));
      assert (set f | f in friends && f in s.FriendNames(c)) == Mutual(s, username, c);
    }
  }

  /** The inner loop `for canditate in friends_of_friend`: one more for each
      listed user who is neither `username` nor a direct friend. */
  method CountFriendsOf(username: string, direct: set<string>, fof: seq<string>, counts: map<string, nat>)
    returns (counts': map<string, nat>)
    requires SortedBy(LexLess, fof)
    ensures forall c :: c in counts' <==> c in counts || (c != username && c !in direct && c in fof)
    ensures forall c :: c in counts' ==>
      counts'[c] == (if c in counts then counts[c] else 0) + (if c != username && c !in direct && c in fof then 1 else 0)
  {
    counts' := counts;
    var j := 0;
    while j < |fof|
      invariant j <= |fof|
      invariant forall c :: c in counts' <==> c in counts || (c != username && c !in direct && c in fof[..j])
      invariant forall c :: c in counts' ==>
        counts'[c] == (if c in counts then counts[c] else 0) + (if c != username && c !in direct && c in fof[..j] then 1 else 0)
    {
      var candidate := fof[j];
      InPrefix(fof, j);
      if candidate != username && candidate !in direct {
        counts' := counts'[candidate := (if candidate in counts' then counts'[candidate] else 0) + 1];
      }
      j := j + 1;
    }
    assert fof[..j] == fof;
  }

  /** `get_friends(friend)`: the friend's friends in ascending name order. */
  method FriendList(s: Store, name: string) returns (r: seq<string>)
    ensures SortedBy(LexLess, r)
    ensures forall x :: x in r <==> x in s.FriendNames(name)
  {
    LexStrictTotalOn(s.FriendNames(name));
    r := SortBy(s.FriendNames(name), LexLess);
  }

  /** Adding one more entry of a sorted list to the prefix seen so far. */
  lemma InPrefix(xs: seq<string>, j: nat)
    requires SortedBy(LexLess, xs) && j < |xs|
    ensures forall c :: c in xs[..j + 1] <==> c in xs[..j] || c == xs[j]
    ensures xs[j] !in xs[..j]
  {
    assert xs[..j + 1] == xs[..j] + [xs[j]];
    if xs[j] in xs[..j] {
      var k :| 0 <= k < j && xs[k] == xs[j];
      LexIrreflexive(xs[j]);
    }
  }

  lemma HitsStep(s: Store, fs: seq<string>, i: nat)
    requires i < |fs|
    ensures forall c :: Hits(s, fs[..i + 1], c) == Hits(s, fs[..i], c) + (if c in s.FriendNames(fs[i]) then 1 else 0)
  {
    assert fs[..i + 1][..i] == fs[..i];
  }

  /** Over a list without repeats, `Hits` counts the listed friends of `c`. */
  lemma {:induction false} HitsCount(s: Store, fs: seq<string>, c: string, known: set<string>)
    requires NoDuplicates(fs) && forall f :: c in s.FriendNames(f) <==> f in known
    ensures Hits(s, fs, c) == |set f | f in fs && f in known|
    decreases |fs|
  {
    if fs != [] {
      var init, last := fs[..|fs| - 1], fs[|fs| - 1];
      HitsCount(s, init, c, known);
      var a := set f | f in init && f in known;
      var b := set f | f in fs && f in known;
      assert last !in init;
      assert fs == init + [last];
      if last in known {
        assert b == a + {last};
      } else {
        assert b == a;
      }
    }
  }

  /** `c` is a friend of `f` exactly when `f` is a friend of `c`. */
  lemma FriendNamesSymmetric(s: Store, c: string)
    requires s.Valid()
    ensures forall f :: c in s.FriendNames(f) <==> f in s.FriendNames(c)
  {
    forall f
      ensures c in s.FriendNames(f) <==> f in s.FriendNames(c)
    {
      FriendNamesAreFriends(s, f, c);
      FriendNamesAreFriends(s, c, f);
      FriendsSymmetric(s, f, c);
    }
  }

  /** Entries of a counter, ordered by the ranking key, are totally ordered. */
  lemma RankTotal(counts: map<string, nat>, items: set<(string, nat)>)
    requires items == set c | c in counts :: (c, counts[c])
    ensures StrictTotalOn(RankBefore, items)
  {
    forall a | a in items
      ensures !RankBefore(a, a)
    {
      LexIrreflexive(a.0);
    }
    forall a, b, c | a in items && b in items && c in items && RankBefore(a, b) && RankBefore(b, c)
      ensures RankBefore(a, c)
    {
      if a.1 == b.1 == c.1 {
        LexTransitive(a.0, b.0, c.0);
      }
    }
    forall a, b | a in items && b in items && a != b
      ensures RankBefore(a, b) || RankBefore(b, a)
    {
      LexTotal(a.0, b.0);
    }
  }

  /** The sorted counter entries, cut to `max_results`, meet the promises of
      `RecommendFriends`. */
  lemma Ranked(s: Store, username: string, counts: map<string, nat>, items: set<(string, nat)>,
               ranked: seq<(string, nat)>, r: seq<(string, nat)>)
    requires forall c :: c in counts <==> IsCandidate(s, username, c)
    requires forall c :: c in counts ==> counts[c] == |Mutual(s, username, c)|
    requires items == set c | c in counts :: (c, counts[c])
    requires SortedBy(RankBefore, ranked) && forall x :: x in ranked <==> x in items
    requires r <= ranked
    ensures SortedBy(RankBefore, r) && NoDuplicates(Names(r))
    ensures forall i :: 0 <= i < |r| ==> IsCandidate(s, username, r[i].0) && r[i].1 == |Mutual(s, username, r[i].0)|
    ensures forall c :: IsCandidate(s, username, c) && c !in Names(r) ==>
      |r| < |ranked| && forall i :: 0 <= i < |r| ==> RankBefore(r[i], (c, |Mutual(s, username, c)|))
  {
    forall i | 0 <= i < |r|
      ensures r[i] == ranked[i] && r[i] in items
    {
    }
    forall i, j | 0 <= i < j < |r|
      ensures Names(r)[i] != Names(r)[j]
    {
      assert RankBefore(ranked[i], ranked[j]);
      if r[i].0 == r[j].0 {
        LexIrreflexive(r[i].0);
      }
    }
    forall c | IsCandidate(s, username, c) && c !in Names(r)
      ensures |r| < |ranked| && forall i :: 0 <= i < |r| ==> RankBefore(r[i], (c, |Mutual(s, username, c)|))
    {
      var e := (c, counts[c]);
      assert e in items;
      var p :| 0 <= p < |ranked| && ranked[p] == e;
      forall i | 0 <= i < |r|
        ensures RankBefore(r[i], e)
      {
        assert ranked[i] == r[i];
      }
    }
  }
}
