/**
 * The scenario of tests/test_recommendation_manual.py: the graph built by five
 * `add_friendship` calls, and the recommendations for Alice on it. The graph is
 * built for any five distinct stored names `a`..`e` standing for Alice, Bob,
 * Charlie, David and Eve, and the script's own names are put in at the end.
 */
module Scenario {
  import opened Order
  import opened SocialGraph
  import opened Recommendation

  /** Five distinct names that `add_user` stores unchanged. */
  predicate Cast(a: string, b: string, c: string, d: string, e: string)
  {
    && IsName(a) && IsName(b) && IsName(c) && IsName(d) && IsName(e)
    && a != b && a != c && a != d && a != e && b != c && b != d && b != e
    && c != d && c != e && d != e
  }

  /** The graph after a–b, a–c, b–d, c–d and c–e. */
  function FiveGraph(a: string, b: string, c: string, d: string, e: string): (s: Store)
    requires Cast(a, b, c, d, e)
    ensures s.Valid()
  {
    Store([a, b, c, d, e], map[a := 0, b := 1, c := 2, d := 3, e := 4],
          [{1, 2}, {0, 3}, {0, 3, 4}, {1, 2}, {2}])
  }

  /** Building the graph with the same calls as the test script: each new name
      gets the next id, and each friendship enters both neighbour sets. */
  method BuildGraph(a: string, b: string, c: string, d: string, e: string) returns (g: Graph)
    requires Cast(a, b, c, d, e)
    ensures g.Valid() && g.State() == FiveGraph(a, b, c, d, e)
  {
    g := new Graph();
    g.AddFriendship(a, b);
    FirstLink(a, b);
    g.AddFriendship(a, c);
    SecondLink(Store([a, b], map[a := 0, b := 1], [{1}, {0}]), a, b, c);
    g.AddFriendship(b, d);
    ThirdLink(Store([a, b, c], map[a := 0, b := 1, c := 2], [{1, 2}, {0}, {0}]), a, b, c, d);
    g.AddFriendship(c, d);
    FourthLink(Store([a, b, c, d], map[a := 0, b := 1, c := 2, d := 3], [{1, 2}, {0, 3}, {0}, {1}]), a, b, c, d);
    g.AddFriendship(c, e);
    FifthLink(Store([a, b, c, d], map[a := 0, b := 1, c := 2, d := 3], [{1, 2}, {0, 3}, {0, 3}, {1, 2}]), a, b, c, d, e);
  }

  /** `add_user` on a stored name: a new name gets the next id and no friends. */
  lemma EnsuredIs(s: Store, name: string)
    requires IsName(name)
    ensures s.Ensured(name) == if name in s.ids then s else Store(s.users + [name], s.ids[name := |s.users|], s.adj + [{}])
  {
  }

  /** `add_friendship` on two distinct stored names: add each missing, then link. */
  lemma Befriending(s: Store, u: string, v: string)
    requires s.Valid() && u != v && IsName(u) && IsName(v)
    ensures u in s.Ensured(u).Ensured(v).ids && v in s.Ensured(u).Ensured(v).ids
    ensures var t := s.Ensured(u).Ensured(v);
      t.ids[u] < |t.adj| && t.ids[v] < |t.adj| && s.Befriended(u, v) == t.Linked(t.ids[u], t.ids[v])
  {
    EnsuredValid(s, u);
    EnsuredValid(s.Ensured(u), v);
  }

  /** a–b on the empty graph adds both. */
  lemma FirstLink(a: string, b: string)
    requires IsName(a) && IsName(b) && a != b
    ensures Empty().Befriended(a, b) == Store([a, b], map[a := 0, b := 1], [{1}, {0}])
  {
    var s := Empty();
    Befriending(s, a, b);
    EnsuredIs(s, a);
    var s1 := Store([a], map[a := 0], [{}]);
    assert s.Ensured(a) == s1;
    EnsuredIs(s1, b);
    var s2 := Store([a, b], map[a := 0, b := 1], [{}, {}]);
    assert s1.Ensured(b) == s2;
    var l := s2.Linked(0, 1).adj;
    assert l[0] == {1} && l[1] == {0};
    assert l == [{1}, {0}];
  }

  /** a–c adds c. */
  lemma SecondLink(s: Store, a: string, b: string, c: string)
    requires IsName(a) && IsName(b) && IsName(c) && a != b && a != c && b != c
    requires s.Valid() && s == Store([a, b], map[a := 0, b := 1], [{1}, {0}])
    ensures s.Befriended(a, c) == Store([a, b, c], map[a := 0, b := 1, c := 2], [{1, 2}, {0}, {0}])
  {
    Befriending(s, a, c);
    EnsuredIs(s, a);
    EnsuredIs(s, c);
    var s2 := Store([a, b, c], map[a := 0, b := 1, c := 2], [{1}, {0}, {}]);
    assert s.Ensured(a).Ensured(c) == s2;
    var l := s2.Linked(0, 2).adj;
    assert l[0] == {1, 2} && l[1] == {0} && l[2] == {0};
    assert l == [{1, 2}, {0}, {0}];
  }

  /** b–d adds d. */
  lemma ThirdLink(s: Store, a: string, b: string, c: string, d: string)
    requires IsName(b) && IsName(d) && a != b && a != c && a != d && b != c && b != d && c != d
    requires s.Valid() && s == Store([a, b, c], map[a := 0, b := 1, c := 2], [{1, 2}, {0}, {0}])
    ensures s.Befriended(b, d) == Store([a, b, c, d], map[a := 0, b := 1, c := 2, d := 3], [{1, 2}, {0, 3}, {0}, {1}])
  {
    Befriending(s, b, d);
    EnsuredIs(s, b);
    EnsuredIs(s, d);
    var s2 := Store([a, b, c, d], map[a := 0, b := 1, c := 2, d := 3], [{1, 2}, {0}, {0}, {}]);
    assert s.Ensured(b).Ensured(d) == s2;
    var l := s2.Linked(1, 3).adj;
    assert l[0] == {1, 2} && l[1] == {0, 3} && l[2] == {0} && l[3] == {1};
    assert l == [{1, 2}, {0, 3}, {0}, {1}];
  }

  /** c–d joins two stored names. */
  lemma FourthLink(s: Store, a: string, b: string, c: string, d: string)
    requires IsName(c) && IsName(d) && c != d
    requires s.Valid() && s == Store([a, b, c, d], map[a := 0, b := 1, c := 2, d := 3], [{1, 2}, {0, 3}, {0}, {1}])
    ensures s.Befriended(c, d) == Store([a, b, c, d], map[a := 0, b := 1, c := 2, d := 3], [{1, 2}, {0, 3}, {0, 3}, {1, 2}])
  {
    Befriending(s, c, d);
    EnsuredIs(s, c);
    EnsuredIs(s, d);
    assert s.Ensured(c).Ensured(d) == s;
    assert s.ids[c] == 2 && s.ids[d] == 3;
    var l := s.Linked(2, 3).adj;
    assert l[0] == {1, 2} && l[1] == {0, 3} && l[2] == {0, 3} && l[3] == {1, 2};
    assert l == [{1, 2}, {0, 3}, {0, 3}, {1, 2}];
  }

  /** c–e adds e. */
  lemma FifthLink(s: Store, a: string, b: string, c: string, d: string, e: string)
    requires Cast(a, b, c, d, e)
    requires s.Valid() && s == Store([a, b, c, d], map[a := 0, b := 1, c := 2, d := 3], [{1, 2}, {0, 3}, {0, 3}, {1, 2}])
    ensures s.Befriended(c, e) == FiveGraph(a, b, c, d, e)
  {
    Befriending(s, c, e);
    EnsuredIs(s, c);
    EnsuredIs(s, e);
    var s2 := Store([a, b, c, d, e], map[a := 0, b := 1, c := 2, d := 3, e := 4], [{1, 2}, {0, 3}, {0, 3}, {1, 2}, {}]);
    assert s.Ensured(c).Ensured(e) == s2;
    var l := s2.Linked(2, 4).adj;
    assert l[0] == {1, 2} && l[1] == {0, 3} && l[2] == {0, 3, 4} && l[3] == {1, 2} && l[4] == {2};
    assert l == [{1, 2}, {0, 3}, {0, 3, 4}, {1, 2}, {2}];
  }

  /** The five names of the script are stored as given. */
  lemma Stored()
    ensures Cast("Alice", "Bob", "Charlie", "David", "Eve")
  {
  }

  /** `recommend_friends(g, "Alice")`: David, with the mutual friends Bob and
      Charlie, ahead of Eve, with the mutual friend Charlie. */
  method AliceRecommendations() returns (r: seq<(string, nat)>)
    ensures r == [("David", 2), ("Eve", 1)]
  {
    Stored();
    r := RecommendOnFive("Alice", "Bob", "Charlie", "David", "Eve");
  }

  /** The script on any five names: build the graph, then recommend for `a`. */
  method RecommendOnFive(a: string, b: string, c: string, d: string, e: string) returns (r: seq<(string, nat)>)
    requires Cast(a, b, c, d, e)
    ensures r == [(d, 2), (e, 1)]
  {
    var g := BuildGraph(a, b, c, d, e);
    r := RecommendFriends(g.State(), a, 5);
    Candidates(a, b, c, d, e);
    TopTwo(g.State(), a, d, e, r);
  }

  /** On `FiveGraph`, d and e are a's only candidates, with two mutual friends
      (b and c) and one (c). */
  lemma Candidates(a: string, b: string, c: string, d: string, e: string)
    requires Cast(a, b, c, d, e)
    ensures var s := FiveGraph(a, b, c, d, e);
      && (forall x :: IsCandidate(s, a, x) <==> x == d || x == e)
      && Mutual(s, a, d) == {b, c} && Mutual(s, a, e) == {c}
      && |Mutual(s, a, d)| == 2 && |Mutual(s, a, e)| == 1
  {
    var s := FiveGraph(a, b, c, d, e);
    assert s.FriendNames(a) == {b, c} by {
      assert s.users[1] == b && s.users[2] == c;
    }
    assert s.FriendNames(d) == {b, c} by {
      assert s.users[1] == b && s.users[2] == c;
    }
    assert s.FriendNames(e) == {c} by {
      assert s.users[2] == c;
    }
    assert Mutual(s, a, d) == {b, c};
    assert Mutual(s, a, e) == {c};
    forall x | IsCandidate(s, a, x)
      ensures x == d || x == e
    {
      assert x in s.ids;
    }
  }

  /** What `RecommendFriends` promises pins the result down when the only
      candidates are `d`, with two mutual friends, and `e`, with one. */
  lemma TopTwo(s: Store, user: string, d: string, e: string, r: seq<(string, nat)>)
    requires d != e
    requires forall c :: IsCandidate(s, user, c) <==> c == d || c == e
    requires |Mutual(s, user, d)| == 2 && |Mutual(s, user, e)| == 1
    requires NoDuplicates(Names(r))
    requires forall i :: 0 <= i < |r| ==> IsCandidate(s, user, r[i].0) && r[i].1 == |Mutual(s, user, r[i].0)|
    requires forall c :: IsCandidate(s, user, c) && c !in Names(r) ==> |r| == 5
    requires SortedBy(RankBefore, r)
    ensures r == [(d, 2), (e, 1)]
  {
    forall i | 0 <= i < |r|
      ensures r[i] == (d, 2) || r[i] == (e, 1)
    {
    }
    if |r| > 2 {
      FirstThree(Names(r));
      assert false;
    }
    assert d in Names(r) && e in Names(r);
    assert |r| == 2;
    assert RankBefore(r[0], r[1]);
  }

  lemma FirstThree(xs: seq<string>)
    requires NoDuplicates(xs) && |xs| > 2
    ensures xs[0] != xs[1] && xs[0] != xs[2] && xs[1] != xs[2]
  {
  }
}
