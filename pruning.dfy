/**
 * delete_node and prune on a view value. delete_node removes one token
 * from all seven maps; prune walks get_descendants(idx) and deletes each
 * index in turn, stopping with a KeyError at the first one that is no
 * longer there. The governor of the pruned token keeps it in its children
 * list; `DetachedPruneResult` is the variant that also takes it out of that list.
 */
module Pruning {
  import opened Tokens
  import opened Markup
  import opened DependencyGraph
  import opened IndexBuilder

  /** The view with the tokens in D deleted from all seven maps. */
  function Without(g: Graph, D: set<int>): Graph {
    Graph(
      g.node - D,
      g.word - (set i | i in D :: i as real),
      g.tag - D,
      g.lemmas - D,
      g.dep - D,
      g.rel - D,
      g.children - D)
  }

  /** Deleting one token removes it from each map. */
  lemma WithoutOne(g: Graph, idx: int)
    ensures Without(g, {idx}) == Graph(g.node - {idx}, g.word - {idx as real}, g.tag - {idx},
      g.lemmas - {idx}, g.dep - {idx}, g.rel - {idx}, if idx in g.children then g.children - {idx} else g.children)
  {
    var D := {idx};
    assert (set i | i in D :: i as real) == {idx as real} by {
      assert idx in D;
    }
  }

  /** Deleting A and then B is deleting A + B. */
  lemma WithoutTwice(g: Graph, A: set<int>, B: set<int>)
    ensures Without(Without(g, A), B) == Without(g, A + B)
  {
    var AR := set i | i in A :: i as real;
    var BR := set i | i in B :: i as real;
    var ABR := set i | i in A + B :: i as real;
    assert ABR == AR + BR by {
      forall r | r in ABR ensures r in AR + BR {
        var i :| i in A + B && r == i as real;
        if i in A { assert r in AR; } else { assert r in BR; }
      }
    }
    MinusTwice(g.node, A, B);
    MinusTwice(g.word, AR, BR);
    MinusTwice(g.tag, A, B);
    MinusTwice(g.lemmas, A, B);
    MinusTwice(g.dep, A, B);
    MinusTwice(g.rel, A, B);
    MinusTwice(g.children, A, B);
  }

  /** Solver aid: removing A and then B from a map is removing A + B. */
  lemma MinusTwice<K, V>(m: map<K, V>, A: set<K>, B: set<K>)
    ensures m - A - B == m - (A + B)
  {
  }

  /** Deleting nothing leaves the view as it is. */
  lemma WithoutNothing(g: Graph)
    ensures Without(g, {}) == g
  {
    var none: set<int> := {};
    assert (set i | i in none :: i as real) == {};
    MinusNothing(g.node);
    MinusNothing(g.word);
    MinusNothing(g.tag);
    MinusNothing(g.lemmas);
    MinusNothing(g.dep);
    MinusNothing(g.rel);
    MinusNothing(g.children);
  }

  /** Solver aid: removing no keys from a map leaves it unchanged. */
  lemma MinusNothing<K, V>(m: map<K, V>)
    ensures m - {} == m
  {
  }

  /** The first n elements of a sequence, as a set. */
  function Elements(ds: seq<int>, n: nat): set<int>
    requires n <= |ds|
  {
    set k | 0 <= k < n :: ds[k]
  }

  /** The k-th deletion finds its index exactly when k is inside the deletable prefix. */
  lemma DeletableStep(keys: set<int>, ds: seq<int>, k: nat)
    requires k <= DeletablePrefix(keys, ds) && k < |ds|
    ensures ds[k] in keys - Elements(ds, k) <==> k < DeletablePrefix(keys, ds)
  {
    assert ds[k] in Elements(ds, k) <==> ds[k] in ds[..k] by {
      if ds[k] in Elements(ds, k) {
        var m :| 0 <= m < k && ds[m] == ds[k];
        assert ds[..k][m] == ds[k];
      }
      if ds[k] in ds[..k] {
        var m :| 0 <= m < k && ds[..k][m] == ds[k];
        assert ds[m] in Elements(ds, k);
      }
    }
  }

  /** One more successful deletion extends the deleted prefix by one. */
  lemma DeleteOneMore(g0: Graph, ds: seq<int>, k: nat)
    requires k < |ds|
    ensures Without(Without(g0, Elements(ds, k)), {ds[k]}) == Without(g0, Elements(ds, k + 1))
  {
    assert Elements(ds, k + 1) == Elements(ds, k) + {ds[k]} by {
      forall x | x in Elements(ds, k + 1) ensures x in Elements(ds, k) + {ds[k]} {
        var m :| 0 <= m < k + 1 && ds[m] == x;
        if m < k { assert x in Elements(ds, k); }
      }
    }
    WithoutTwice(g0, Elements(ds, k), {ds[k]});
  }

  /**
   * prune(idx) as written: the view after deleting the descendants of idx
   * in order up to the first that is missing, and whether it got through
   * all of them (false means a KeyError was raised).
   */
  ghost function PruneResult(g: Graph, idx: int): (Graph, bool)
    requires Finite(g.children, idx)
  {
    var ds := Descendants(g.children, idx);
    var n := DeletablePrefix(g.node.Keys, ds);
    (Without(g, Elements(ds, n)), n == |ds|)
  }

  /** Deleting tokens keeps the maps agreeing on which tokens exist. */
  lemma WithoutWellFormed(g: Graph, D: set<int>)
    requires WellFormed(g)
    ensures WellFormed(Without(g, D))
  {
    var g' := Without(g, D);
    var DR := set i | i in D :: i as real;
    forall i | i in g'.node ensures i as real in g'.word {
      assert i as real !in DR;
    }
    forall r | r in g'.word && IsInteger(r) ensures r.Floor in g'.node {
      assert r.Floor as real == r;
    }
  }

  /** Pruning from an index that is not a token (the root 0, say) fails at once and changes nothing. */
  lemma PruneMissingToken(g: Graph, idx: int)
    requires Finite(g.children, idx) && idx !in g.node
    ensures PruneResult(g, idx).1 == false
    ensures PruneResult(g, idx).0 == g
  {
    var ds := Descendants(g.children, idx);
    assert DeletablePrefix(g.node.Keys, ds) == 0;
    assert Elements(ds, 0) == {};
  }

  /**
   * A prune that gets through removes exactly the descendants of idx, and
   * when every token was listed under its governor, no token that is left
   * has its governor among the deleted ones and the listing still holds.
   */
  lemma PruneRemovesSubtree(g: Graph, idx: int)
    requires WellFormed(g) && Linked(g) && Finite(g.children, idx)
    requires PruneResult(g, idx).1
    ensures var g' := PruneResult(g, idx).0;
      var ds := Descendants(g.children, idx);
      && g'.node.Keys == g.node.Keys - (set k | 0 <= k < |ds| :: ds[k])
      && (forall j :: j in g'.dep ==> g'.dep[j] !in ds)
      && Linked(g')
  {
    var ds := Descendants(g.children, idx);
    var D := Elements(ds, |ds|);
    var g' := Without(g, D);
    forall j | j in g'.dep ensures g'.dep[j] !in ds && j in ChildrenOf(g'.children, g'.dep[j]) {
      assert j !in ds;
      NoDanglingGovernor(g.children, g.dep, idx, j);
      assert g.dep[j] !in D;
    }
  }

  // ---------------------------------------------------------------------
  // The governor keeps the pruned token in its children list
  // ---------------------------------------------------------------------

  /** Token 1 attached to the root, token 2 governed by 1. */
  function TwoTokens(h1: NodeHandle, h2: NodeHandle): Graph {
    Graph(
      map[1 := h1, 2 := h2],
      map[1.0 := "Dogs", 2.0 := "bark"],
      map[1 := "NNS", 2 := "VBP"],
      map[1 := "dog", 2 := "bark"],
      map[1 := 0, 2 := 1],
      map[1 := "root", 2 := "dep"],
      map[0 := [1], 1 := [2]])
  }

  /**
   * prune(2) succeeds, but token 1 still lists 2 as a child, so the
   * following prune(1) deletes token 1 and then raises a KeyError on 2.
   */
  lemma PruneLeavesStaleChild(h1: NodeHandle, h2: NodeHandle)
    ensures Finite(TwoTokens(h1, h2).children, 2)
    ensures PruneResult(TwoTokens(h1, h2), 2).1
    ensures var g' := PruneResult(TwoTokens(h1, h2), 2).0;
      && 2 in ChildrenOf(g'.children, 1) && 2 !in g'.node
      && PresentPrefix(g'.node.Keys, ChildrenOf(g'.children, 1)) == 0
      && Finite(g'.children, 1)
      && PruneResult(g', 1).1 == false
      && PruneResult(g', 1).0.node == map[]
  {
    var g := TwoTokens(h1, h2);
    PruneTwo(g, h1, h2);
    PruneOneAfterTwo(Without(g, {2}), h1, h2);
  }

  lemma PruneTwo(g: Graph, h1: NodeHandle, h2: NodeHandle)
    requires g == TwoTokens(h1, h2)
    ensures Finite(g.children, 2)
    ensures PruneResult(g, 2) == (Without(g, {2}), true)
  {
    assert Bounded(g.children, 2, 0);
    DescendantsAt(g.children, 2, 0);
    assert Descendants(g.children, 2) == [2];
    assert DeletablePrefix(g.node.Keys, [2]) == 1;
    assert Elements([2], 1) == {2};
  }

  lemma PruneOneAfterTwo(g': Graph, h1: NodeHandle, h2: NodeHandle)
    requires g' == Without(TwoTokens(h1, h2), {2})
    ensures 2 in ChildrenOf(g'.children, 1) && 2 !in g'.node
    ensures PresentPrefix(g'.node.Keys, ChildrenOf(g'.children, 1)) == 0
    ensures Finite(g'.children, 1)
    ensures PruneResult(g', 1) == (Without(g', {1}), false)
    ensures Without(g', {1}).node == map[]
  {
    var ch := g'.children;
    assert ch == map[0 := [1], 1 := [2]];
    assert ChildrenOf(ch, 2) == [] && ChildrenOf(ch, 1) == [2];
    assert Bounded(ch, 1, 1);
    DescendantsAt(ch, 1, 1);
    assert Forest(ch, [2], 0) == [2] + Below(ch, 2, 0) + Forest(ch, [], 0);
    var ds := Descendants(ch, 1);
    assert ds == [1, 2];
    assert g'.node.Keys == {1};
    assert DeletablePrefix({1} - {1}, [2]) == 0;
    assert DeletablePrefix({1}, ds) == 1;
    assert Elements(ds, 1) == {1};
  }

  // ---------------------------------------------------------------------
  // Pruning that also detaches the token from its governor
  // ---------------------------------------------------------------------

  /** The list without any occurrence of x. */
  function Remove(cs: seq<int>, x: int): (r: seq<int>)
    ensures forall c :: c in r <==> c in cs && c != x
    decreases |cs|
  {
    if cs == [] then [] else (if cs[0] == x then [] else [cs[0]]) + Remove(cs[1..], x)
  }

  /** The view with idx taken out of its governor's children list. */
  function Detach(g: Graph, idx: int): Graph {
    if idx in g.dep && g.dep[idx] in g.children then
      g.(children := g.children[g.dep[idx] := Remove(g.children[g.dep[idx]], idx)])
    else g
  }

  /** prune(idx) that first takes idx out of its governor's children list. */
  ghost function DetachedPruneResult(g: Graph, idx: int): (Graph, bool)
    requires Finite(g.children, idx)
  {
    var h :| Bounded(g.children, idx, h);
    DetachKeepsFinite(g, idx, idx, h);
    PruneResult(Detach(g, idx), idx)
  }

  /** The children lists list exactly the tokens governed by each index. */
  ghost predicate Exact(g: Graph) {
    forall p, c :: c in ChildrenOf(g.children, p) <==> c in g.dep && g.dep[c] == p
  }

  /** With distinct indices, populate_indices builds exact children lists. */
  lemma BuildExact(ts: seq<Terminal>, xmltags: map<int, seq<string>>, lemmatize: Lemmatizer)
    requires DistinctIndices(ts)
    ensures Exact(Build(ts, xmltags, lemmatize))
  {
    var g := Build(ts, xmltags, lemmatize);
    BuildWellFormed(ts, xmltags, lemmatize);
    forall p, c ensures c in ChildrenOf(g.children, p) <==> c in g.dep && g.dep[c] == p {
      BuildChildren(ts, xmltags, lemmatize, p);
      AttachedMembers(ts, p, c);
      if c in g.dep {
        assert c in KeptIndices(ts);
        var k :| 0 <= k < |ts| && !ts[k].isHeadTagNode && ts[k].index == c;
        BuildRecords(ts, xmltags, lemmatize, k);
      }
    }
  }

  /** With exact lists every listed child is a token, so get_children never meets a missing index. */
  lemma ExactChildrenPresent(g: Graph, p: int)
    requires WellFormed(g) && Exact(g)
    ensures PresentPrefix(g.node.Keys, ChildrenOf(g.children, p)) == |ChildrenOf(g.children, p)|
  {
    var cs := ChildrenOf(g.children, p);
    var n := PresentPrefix(g.node.Keys, cs);
    if n < |cs| {
      ExactAt(g, p, cs[n]);
    }
  }

  /** Solver aid: `Exact` instantiated at one parent and one child. */
  lemma ExactAt(g: Graph, p: int, c: int)
    requires Exact(g)
    ensures c in ChildrenOf(g.children, p) <==> c in g.dep && g.dep[c] == p
  {
  }

  lemma DetachChildren(g: Graph, idx: int, p: int, c: int)
    ensures c in ChildrenOf(Detach(g, idx).children, p) <==>
      c in ChildrenOf(g.children, p) && !(c == idx && idx in g.dep && g.dep[idx] == p)
  {
    if idx in g.dep && g.dep[idx] in g.children && p == g.dep[idx] {
      assert ChildrenOf(Detach(g, idx).children, p) == Remove(g.children[p], idx);
    } else {
      assert ChildrenOf(Detach(g, idx).children, p) == ChildrenOf(g.children, p);
    }
  }

  lemma DetachKeepsFinite(g: Graph, idx: int, x: int, h: nat)
    requires Bounded(g.children, x, h)
    ensures Bounded(Detach(g, idx).children, x, h)
    decreases h
  {
    var cs := ChildrenOf(Detach(g, idx).children, x);
    if h == 0 {
      assert cs == [] by {
        if cs != [] {
          DetachChildren(g, idx, x, cs[0]);
        }
      }
    } else {
      forall c | c in cs ensures Bounded(Detach(g, idx).children, c, h - 1) {
        DetachChildren(g, idx, x, c);
        DetachKeepsFinite(g, idx, c, h - 1);
      }
    }
  }

  /** Every descendant but the start has a parent among the descendants. */
  lemma DescendantHasParent(children: map<int, seq<int>>, start: int, c: int) returns (q: int)
    requires Finite(children, start)
    requires c in Descendants(children, start) && c != start
    ensures q in Descendants(children, start) && c in ChildrenOf(children, q)
  {
    DescendantsAreReachable(children, start, c);
    var p :| ChildPath(children, p) && p[0] == start && p[|p| - 1] == c;
    q := p[|p| - 2];
    var pre := p[..|p| - 1];
    ChildPathPrefix(children, p);
    assert pre[0] == start && pre[|pre| - 1] == q;
    DescendantsAreReachable(children, start, q);
  }

  /**
   * With the children lists exact, the detaching prune keeps them exact
   * (and the maps agreeing on their tokens): every index a children list
   * holds is still a token, so get_children and a later prune never meet
   * a deleted index.
   */
  lemma PruneDetachedKeepsExact(g: Graph, idx: int)
    requires WellFormed(g) && Exact(g) && Finite(g.children, idx)
    requires DetachedPruneResult(g, idx).1
    ensures WellFormed(DetachedPruneResult(g, idx).0)
    ensures Exact(DetachedPruneResult(g, idx).0)
  {
    var g1 := Detach(g, idx);
    var ds := Descendants(g1.children, idx);
    var D := Elements(ds, |ds|);
    var g' := Without(g1, D);
    assert g' == DetachedPruneResult(g, idx).0;
    WithoutWellFormed(g1, D);
    forall p, c ensures c in ChildrenOf(g'.children, p) <==> c in g'.dep && g'.dep[c] == p {
      if c in ChildrenOf(g'.children, p) {
        ListedIsGoverned(g, idx, p, c);
      }
      if c in g'.dep && g'.dep[c] == p {
        GovernedIsListed(g, idx, p, c);
      }
    }
  }

  lemma ListedIsGoverned(g: Graph, idx: int, p: int, c: int)
    requires Exact(g) && Finite(g.children, idx)
    requires var g1 := Detach(g, idx);
      Finite(g1.children, idx) &&
      var ds := Descendants(g1.children, idx);
      c in ChildrenOf(Without(g1, Elements(ds, |ds|)).children, p)
    ensures var g1 := Detach(g, idx);
      var g' := Without(g1, Elements(Descendants(g1.children, idx), |Descendants(g1.children, idx)|));
      c in g'.dep && g'.dep[c] == p
  {
    var g1 := Detach(g, idx);
    var ds := Descendants(g1.children, idx);
    var D := Elements(ds, |ds|);
    DetachChildren(g, idx, p, c);
    assert p !in D && c in ChildrenOf(g1.children, p);
    if c in ds && c != idx {
      var q := DescendantHasParent(g1.children, idx, c);
      DetachChildren(g, idx, q, c);
      assert c in ChildrenOf(g.children, q);
      assert g.dep[c] == q;
    }
  }

  lemma GovernedIsListed(g: Graph, idx: int, p: int, c: int)
    requires Exact(g) && Finite(g.children, idx)
    requires var g1 := Detach(g, idx);
      Finite(g1.children, idx) &&
      var ds := Descendants(g1.children, idx);
      var g' := Without(g1, Elements(ds, |ds|));
      c in g'.dep && g'.dep[c] == p
    ensures var g1 := Detach(g, idx);
      var g' := Without(g1, Elements(Descendants(g1.children, idx), |Descendants(g1.children, idx)|));
      c in ChildrenOf(g'.children, p)
  {
    var g1 := Detach(g, idx);
    var ds := Descendants(g1.children, idx);
    var D := Elements(ds, |ds|);
    DetachChildren(g, idx, p, c);
    assert c !in ds && c != idx;
    if p in ds {
      DescendantsClosed(g1.children, idx, p, c);
    }
  }
}
