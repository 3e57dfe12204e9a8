/**
 * The dependency structure of a sentence as the view stores it: `dep` maps
 * a token index to its governor's index (0 is the root) and `children` maps
 * an index to the list of its dependents, in insertion order. This module
 * holds the specifications of the graph queries: the preorder walk behind
 * get_descendants, the walk up behind path2root, and the first common node
 * behind get_least_common_node.
 */
module DependencyGraph {
  import opened Wrappers

  /** children.get(p, []) */
  function ChildrenOf(children: map<int, seq<int>>, p: int): seq<int> {
    if p in children then children[p] else []
  }

  // ---------------------------------------------------------------------
  // Descendants: a preorder walk of `children`
  // ---------------------------------------------------------------------

  /** Every chain of children that starts at `x` has fewer than h + 1 links. */
  ghost predicate Bounded(children: map<int, seq<int>>, x: int, h: nat)
    decreases h
  {
    if h == 0 then ChildrenOf(children, x) == []
    else forall c :: c in ChildrenOf(children, x) ==> Bounded(children, c, h - 1)
  }

  /** The walk from `x` down `children` ends (there is no cycle below `x`). */
  ghost predicate Finite(children: map<int, seq<int>>, x: int) {
    exists h :: Bounded(children, x, h)
  }

  /** The preorder walk strictly below `x`: each child, then everything below it, in list order. */
  ghost function Below(children: map<int, seq<int>>, x: int, h: nat): seq<int>
    requires Bounded(children, x, h)
    decreases h, 0
  {
    if h == 0 then [] else Forest(children, ChildrenOf(children, x), h - 1)
  }

  /** The preorder walk of the subtrees rooted at the indices in `cs`, one after another. */
  ghost function Forest(children: map<int, seq<int>>, cs: seq<int>, h: nat): seq<int>
    requires forall c :: c in cs ==> Bounded(children, c, h)
    decreases h, |cs|
  {
    if cs == [] then [] else [cs[0]] + Below(children, cs[0], h) + Forest(children, cs[1..], h)
  }

  /** get_descendants(start): `start` itself, then the preorder walk below it. */
  ghost function Descendants(children: map<int, seq<int>>, start: int): (ds: seq<int>)
    requires Finite(children, start)
    ensures |ds| >= 1 && ds[0] == start
  {
    var h :| Bounded(children, start, h);
    [start] + Below(children, start, h)
  }

  /** The walk does not depend on which height bound is used to define it. */
  lemma {:induction false} BelowIndependent(children: map<int, seq<int>>, x: int, h1: nat, h2: nat)
    requires Bounded(children, x, h1) && Bounded(children, x, h2)
    ensures Below(children, x, h1) == Below(children, x, h2)
    decreases h1 + h2, 0
  {
    if h1 > 0 && h2 > 0 {
      ForestIndependent(children, ChildrenOf(children, x), h1 - 1, h2 - 1);
    }
  }

  lemma {:induction false} ForestIndependent(children: map<int, seq<int>>, cs: seq<int>, h1: nat, h2: nat)
    requires forall c :: c in cs ==> Bounded(children, c, h1) && Bounded(children, c, h2)
    ensures Forest(children, cs, h1) == Forest(children, cs, h2)
    decreases h1 + h2, |cs|
  {
    if cs != [] {
      BelowIndependent(children, cs[0], h1, h2);
      ForestIndependent(children, cs[1..], h1, h2);
    }
  }

  /** Descendants is the walk below `start` for any height bound. */
  lemma DescendantsAt(children: map<int, seq<int>>, start: int, h: nat)
    requires Bounded(children, start, h)
    ensures Descendants(children, start) == [start] + Below(children, start, h)
  {
    forall h1: nat, h2: nat | Bounded(children, start, h1) && Bounded(children, start, h2)
      ensures Below(children, start, h1) == Below(children, start, h2)
    {
      BelowIndependent(children, start, h1, h2);
    }
  }

  /** Visiting one more sibling appends that child and its subtree. */
  lemma {:induction false} ForestSnoc(children: map<int, seq<int>>, cs: seq<int>, c: int, h: nat)
    requires forall x :: x in cs + [c] ==> Bounded(children, x, h)
    ensures Forest(children, cs + [c], h) == Forest(children, cs, h) + [c] + Below(children, c, h)
    decreases |cs|
  {
    if cs == [] {
      assert [] + [c] == [c];
      assert [c][1..] == [];
    } else {
      assert (cs + [c])[0] == cs[0];
      assert (cs + [c])[1..] == cs[1..] + [c];
      ForestSnoc(children, cs[1..], c, h);
    }
  }

  /** A downward chain: each element is among the children of the one before. */
  ghost predicate ChildPath(children: map<int, seq<int>>, p: seq<int>) {
    |p| >= 1 && forall k :: 0 <= k < |p| - 1 ==> p[k + 1] in ChildrenOf(children, p[k])
  }

  /** `x` can be reached from `s` by following `children` zero or more times. */
  ghost predicate Reaches(children: map<int, seq<int>>, s: int, x: int) {
    exists p :: ChildPath(children, p) && p[0] == s && p[|p| - 1] == x
  }

  lemma ChildPathPrefix(children: map<int, seq<int>>, p: seq<int>)
    requires ChildPath(children, p) && |p| >= 2
    ensures ChildPath(children, p[..|p| - 1])
  {
    var pre := p[..|p| - 1];
    forall k | 0 <= k < |pre| - 1 ensures pre[k + 1] in ChildrenOf(children, pre[k]) {
      assert pre[k] == p[k] && pre[k + 1] == p[k + 1];
    }
  }

  lemma PrependChildPath(children: map<int, seq<int>>, s: int, p: seq<int>)
    requires ChildPath(children, p) && p[0] in ChildrenOf(children, s)
    ensures ChildPath(children, [s] + p)
  {
    var q := [s] + p;
    forall k | 0 <= k < |q| - 1 ensures q[k + 1] in ChildrenOf(children, q[k]) {
      if k > 0 {
        assert q[k] == p[k - 1] && q[k + 1] == p[k];
      }
    }
  }

  lemma {:induction false} BelowReachable(children: map<int, seq<int>>, x: int, h: nat, y: int)
    requires Bounded(children, x, h) && y in Below(children, x, h)
    ensures Reaches(children, x, y)
    decreases h, 0
  {
    ForestReachable(children, x, ChildrenOf(children, x), h - 1, y);
  }

  lemma {:induction false} ForestReachable(children: map<int, seq<int>>, s: int, cs: seq<int>, h: nat, y: int)
    requires forall c :: c in cs ==> c in ChildrenOf(children, s) && Bounded(children, c, h)
    requires y in Forest(children, cs, h)
    ensures Reaches(children, s, y)
    decreases h, |cs|
  {
    var c := cs[0];
    if y == c {
      assert ChildPath(children, [s, c]);
    } else if y in Below(children, c, h) {
      BelowReachable(children, c, h, y);
      var p :| ChildPath(children, p) && p[0] == c && p[|p| - 1] == y;
      PrependChildPath(children, s, p);
      assert ([s] + p)[|[s] + p| - 1] == y;
    } else {
      ForestReachable(children, s, cs[1..], h, y);
    }
  }

  /** The subtree of `c`, and `c` itself, show up in the walk of any forest listing `c`. */
  lemma {:induction false} InForest(children: map<int, seq<int>>, cs: seq<int>, h: nat, c: int, y: int)
    requires forall x :: x in cs ==> Bounded(children, x, h)
    requires c in cs && (y == c || y in Below(children, c, h))
    ensures y in Forest(children, cs, h)
    decreases |cs|
  {
    if cs[0] != c {
      InForest(children, cs[1..], h, c, y);
    }
  }

  lemma {:induction false} ChildPathInBelow(children: map<int, seq<int>>, p: seq<int>, h: nat)
    requires ChildPath(children, p) && |p| >= 2 && Bounded(children, p[0], h)
    ensures p[|p| - 1] in Below(children, p[0], h)
    decreases |p|
  {
    var cs := ChildrenOf(children, p[0]);
    var c := p[1];
    assert c in cs;
    if |p| == 2 {
      InForest(children, cs, h - 1, c, c);
    } else {
      var q := p[1..];
      assert ChildPath(children, q) by {
        forall k | 0 <= k < |q| - 1 ensures q[k + 1] in ChildrenOf(children, q[k]) {
          assert q[k] == p[k + 1] && q[k + 1] == p[k + 2];
        }
      }
      ChildPathInBelow(children, q, h - 1);
      InForest(children, cs, h - 1, c, q[|q| - 1]);
    }
  }

  /**
   * get_descendants(start) lists exactly the indices reachable from `start`
   * along `children`, `start` included.
   */
  lemma DescendantsAreReachable(children: map<int, seq<int>>, start: int, x: int)
    requires Finite(children, start)
    ensures x in Descendants(children, start) <==> Reaches(children, start, x)
  {
    var h :| Bounded(children, start, h);
    DescendantsAt(children, start, h);
    if x in Descendants(children, start) && x != start {
      BelowReachable(children, start, h, x);
    }
    if x == start {
      assert ChildPath(children, [start]);
    }
    if Reaches(children, start, x) && x != start {
      var p :| ChildPath(children, p) && p[0] == start && p[|p| - 1] == x;
      ChildPathInBelow(children, p, h);
    }
  }

  /** The descendants are closed under `children`. */
  lemma DescendantsClosed(children: map<int, seq<int>>, start: int, x: int, c: int)
    requires Finite(children, start)
    requires x in Descendants(children, start) && c in ChildrenOf(children, x)
    ensures c in Descendants(children, start)
  {
    DescendantsAreReachable(children, start, x);
    var p :| ChildPath(children, p) && p[0] == start && p[|p| - 1] == x;
    var q := p + [c];
    assert ChildPath(children, q) by {
      forall k | 0 <= k < |q| - 1 ensures q[k + 1] in ChildrenOf(children, q[k]) {
        if k < |p| - 1 {
          assert q[k] == p[k] && q[k + 1] == p[k + 1];
        }
      }
    }
    assert q[0] == start && q[|q| - 1] == c;
    DescendantsAreReachable(children, start, c);
  }

  /**
   * When every token is listed among its governor's children, no token
   * outside the descendants of `start` has its governor inside them: once
   * they are deleted no remaining token names a deleted governor.
   */
  lemma NoDanglingGovernor(children: map<int, seq<int>>, dep: map<int, int>, start: int, j: int)
    requires Finite(children, start)
    requires forall i :: i in dep ==> i in ChildrenOf(children, dep[i])
    requires j in dep && j !in Descendants(children, start)
    ensures dep[j] !in Descendants(children, start)
  {
    if dep[j] in Descendants(children, start) {
      DescendantsClosed(children, start, dep[j], j);
    }
  }

  // ---------------------------------------------------------------------
  // Deletions in order: where the first KeyError happens
  // ---------------------------------------------------------------------

  /**
   * Deleting the indices `ds` one after the other from a map with keys
   * `keys` succeeds for the first n of them: ds[n] is the first index that
   * is absent, because it never was there or was deleted before.
   */
  function DeletablePrefix(keys: set<int>, ds: seq<int>): (n: nat)
    ensures n <= |ds|
    ensures forall m :: 0 <= m < n ==> ds[m] in keys && ds[m] !in ds[..m]
    ensures n < |ds| ==> ds[n] !in keys || ds[n] in ds[..n]
    decreases |ds|
  {
    if ds == [] || ds[0] !in keys then 0
    else
      var n := 1 + DeletablePrefix(keys - {ds[0]}, ds[1..]);
      assert forall m :: 1 <= m <= |ds| ==> ds[..m] == [ds[0]] + ds[1..][..m - 1];
      n
  }

  /** How many leading entries of `cs` are keys: the yields before a lookup fails. */
  function PresentPrefix(keys: set<int>, cs: seq<int>): (n: nat)
    ensures n <= |cs|
    ensures forall m :: 0 <= m < n ==> cs[m] in keys
    ensures n < |cs| ==> cs[n] !in keys
    decreases |cs|
  {
    if cs == [] || cs[0] !in keys then 0 else 1 + PresentPrefix(keys, cs[1..])
  }

  // ---------------------------------------------------------------------
  // The walk up to the root
  // ---------------------------------------------------------------------

  /** `dep.get(x)` is truthy: x has a governor other than the root 0. */
  predicate HasParent(dep: map<int, int>, x: int) {
    x in dep && dep[x] != 0
  }

  /**
   * path2root(idx): idx, then the governor of each element in turn, up to
   * the first element without a truthy governor; from 0 nothing is followed.
   */
  ghost predicate IsPathToRoot(dep: map<int, int>, idx: int, p: seq<int>) {
    && |p| >= 1
    && p[0] == idx
    && (forall k :: 0 <= k < |p| - 1 ==> HasParent(dep, p[k]) && dep[p[k]] == p[k + 1])
    && (idx == 0 ==> |p| == 1)
    && (idx != 0 ==> !HasParent(dep, p[|p| - 1]))
  }

  /** The walk up from `idx` ends: it does not run into a cycle of `dep`. */
  ghost predicate Rooted(dep: map<int, int>, idx: int) {
    exists p :: IsPathToRoot(dep, idx, p)
  }

  /** There is at most one path to the root from an index. */
  lemma PathToRootUnique(dep: map<int, int>, idx: int, p: seq<int>, q: seq<int>)
    requires IsPathToRoot(dep, idx, p) && IsPathToRoot(dep, idx, q)
    ensures p == q
  {
    var n := if |p| < |q| then |p| else |q|;
    SamePrefix(dep, idx, p, q, n);
  }

  lemma {:induction false} SamePrefix(dep: map<int, int>, idx: int, p: seq<int>, q: seq<int>, n: nat)
    requires IsPathToRoot(dep, idx, p) && IsPathToRoot(dep, idx, q)
    requires n <= |p| && n <= |q|
    ensures p[..n] == q[..n]
  {
    if n > 1 {
      SamePrefix(dep, idx, p, q, n - 1);
      assert p[n - 2] == q[n - 2];
      assert p[..n] == p[..n - 1] + [p[n - 1]];
      assert q[..n] == q[..n - 1] + [q[n - 1]];
    } else if n == 1 {
      assert p[..1] == [idx] == q[..1];
    }
  }

  /** path2root(idx) as a value. */
  ghost function PathToRoot(dep: map<int, int>, idx: int): (p: seq<int>)
    requires Rooted(dep, idx)
    ensures IsPathToRoot(dep, idx, p)
  {
    var p :| IsPathToRoot(dep, idx, p);
    p
  }

  /** A path to the root never visits an index twice. */
  lemma PathToRootDistinct(dep: map<int, int>, idx: int, p: seq<int>, a: nat, b: nat)
    requires IsPathToRoot(dep, idx, p)
    requires a < b < |p|
    ensures p[a] != p[b]
  {
    if p[a] == p[b] {
      var t := |p| - 1 - b;
      SameAfter(dep, idx, p, a, b, t);
      assert false;
    }
  }

  lemma {:induction false} SameAfter(dep: map<int, int>, idx: int, p: seq<int>, a: nat, b: nat, t: nat)
    requires IsPathToRoot(dep, idx, p)
    requires a < b && b + t < |p| && p[a] == p[b]
    ensures p[a + t] == p[b + t]
  {
    if t > 0 {
      SameAfter(dep, idx, p, a, b, t - 1);
      assert dep[p[a + t - 1]] == p[a + t];
      assert dep[p[b + t - 1]] == p[b + t];
    }
  }

  /** From a non-root index, every tail of the path is the path of its first element. */
  lemma PathToRootSuffix(dep: map<int, int>, idx: int, p: seq<int>, k: nat)
    requires IsPathToRoot(dep, idx, p) && idx != 0 && k < |p|
    ensures p[k] != 0
    ensures IsPathToRoot(dep, p[k], p[k..])
  {
    if k > 0 {
      assert dep[p[k - 1]] == p[k];
    }
    var q := p[k..];
    forall m | 0 <= m < |q| - 1 ensures HasParent(dep, q[m]) && dep[q[m]] == q[m + 1] {
      assert q[m] == p[k + m] && q[m + 1] == p[k + m + 1];
    }
  }

  // ---------------------------------------------------------------------
  // The least common node of two paths
  // ---------------------------------------------------------------------

  /** The position of the first occurrence of `x` in `s`. */
  function IndexOf(s: seq<int>, x: int): (k: nat)
    requires x in s
    ensures k < |s| && s[k] == x && x !in s[..k]
  {
    if s[0] == x then 0
    else
      var k := 1 + IndexOf(s[1..], x);
      assert s[..k] == [s[0]] + s[1..][..k - 1];
      k
  }

  /** The first element of p1 that occurs in p2, if any. */
  function LeastCommon(p1: seq<int>, p2: seq<int>): (r: Option<int>)
    ensures r == None <==> forall x :: x in p1 ==> x !in p2
    ensures r != None ==> r.value in p1 && r.value in p2
    ensures r != None ==> forall k :: 0 <= k < IndexOf(p1, r.value) ==> p1[k] !in p2
    decreases |p1|
  {
    if p1 == [] then None
    else if p1[0] in p2 then
      var x := p1[0];
      assert x in p1 && x in p2;
      Some(x)
    else
      var r := LeastCommon(p1[1..], p2);
      assert r != None ==> IndexOf(p1, r.value) == 1 + IndexOf(p1[1..], r.value);
      r
  }

  /** The element at a is the common node when it is the first of p1 found in p2. */
  lemma LeastCommonAt(p1: seq<int>, p2: seq<int>, a: nat)
    requires a < |p1| && p1[a] in p2
    requires forall k :: 0 <= k < a ==> p1[k] !in p2
    ensures LeastCommon(p1, p2) == Some(p1[a])
  {
    var r := LeastCommon(p1, p2);
    var x := p1[a];
    assert x in p1 && x in p2;
    assert r != None;
  }

  /** p1 up to and including c, then p2 up to but excluding c. */
  function ShortestPath(p1: seq<int>, p2: seq<int>, c: int): seq<int>
    requires c in p1 && c in p2
  {
    p1[..IndexOf(p1, c) + 1] + p2[..IndexOf(p2, c)]
  }

  /** Past the common node the two paths to the root coincide. */
  lemma CommonTail(dep: map<int, int>, i: int, j: int, c: int)
    requires i != 0 && j != 0 && Rooted(dep, i) && Rooted(dep, j)
    requires LeastCommon(PathToRoot(dep, i), PathToRoot(dep, j)) == Some(c)
    ensures var p1, p2 := PathToRoot(dep, i), PathToRoot(dep, j);
      p1[IndexOf(p1, c)..] == p2[IndexOf(p2, c)..]
  {
    var p1, p2 := PathToRoot(dep, i), PathToRoot(dep, j);
    var k, m := IndexOf(p1, c), IndexOf(p2, c);
    PathToRootSuffix(dep, i, p1, k);
    PathToRootSuffix(dep, j, p2, m);
    PathToRootUnique(dep, c, p1[k..], p2[m..]);
  }

  /**
   * The common node does not depend on which path is scanned first: it is
   * also the first element of the second path that occurs in the first.
   */
  lemma LeastCommonSymmetric(dep: map<int, int>, i: int, j: int)
    requires i != 0 && j != 0 && Rooted(dep, i) && Rooted(dep, j)
    ensures LeastCommon(PathToRoot(dep, i), PathToRoot(dep, j))
         == LeastCommon(PathToRoot(dep, j), PathToRoot(dep, i))
  {
    var p1, p2 := PathToRoot(dep, i), PathToRoot(dep, j);
    var r := LeastCommon(p1, p2);
    if r != None {
      var c := r.value;
      var m := IndexOf(p2, c);
      forall t | 0 <= t < m ensures p2[t] !in p1 {
        BeforeCommonNotShared(dep, i, j, c, t);
      }
      var r' := LeastCommon(p2, p1);
      assert r' != None;
      var m' := IndexOf(p2, r'.value);
      assert m' == m;
    }
  }

  /** Before the common node, the second path meets nothing of the first. */
  lemma BeforeCommonNotShared(dep: map<int, int>, i: int, j: int, c: int, t: nat)
    requires i != 0 && j != 0 && Rooted(dep, i) && Rooted(dep, j)
    requires LeastCommon(PathToRoot(dep, i), PathToRoot(dep, j)) == Some(c)
    requires t < IndexOf(PathToRoot(dep, j), c)
    ensures PathToRoot(dep, j)[t] !in PathToRoot(dep, i)
  {
    var p1, p2 := PathToRoot(dep, i), PathToRoot(dep, j);
    var k, m := IndexOf(p1, c), IndexOf(p2, c);
    if p2[t] in p1 {
      var k' := IndexOf(p1, p2[t]);
      if k' > k {
        CommonTail(dep, i, j, c);
        assert p1[k'] == p1[k..][k' - k] == p2[m..][k' - k] == p2[m + k' - k];
        PathToRootDistinct(dep, j, p2, t, m + k' - k);
      }
    }
  }

  /** The shortest path lists k + 1 + m distinct indices: no node is visited twice. */
  lemma ShortestPathDistinct(dep: map<int, int>, i: int, j: int, c: int)
    requires i != 0 && j != 0 && Rooted(dep, i) && Rooted(dep, j)
    requires LeastCommon(PathToRoot(dep, i), PathToRoot(dep, j)) == Some(c)
    ensures var p1, p2 := PathToRoot(dep, i), PathToRoot(dep, j);
      var s := ShortestPath(p1, p2, c);
      |s| == IndexOf(p1, c) + 1 + IndexOf(p2, c) &&
      forall a, b :: 0 <= a < b < |s| ==> s[a] != s[b]
  {
    var s := ShortestPath(PathToRoot(dep, i), PathToRoot(dep, j), c);
    forall a, b | 0 <= a < b < |s| ensures s[a] != s[b] {
      ShortestPathPair(dep, i, j, c, a, b);
    }
  }

  lemma ShortestPathPair(dep: map<int, int>, i: int, j: int, c: int, a: nat, b: nat)
    requires i != 0 && j != 0 && Rooted(dep, i) && Rooted(dep, j)
    requires LeastCommon(PathToRoot(dep, i), PathToRoot(dep, j)) == Some(c)
    requires a < b < |ShortestPath(PathToRoot(dep, i), PathToRoot(dep, j), c)|
    ensures var s := ShortestPath(PathToRoot(dep, i), PathToRoot(dep, j), c); s[a] != s[b]
  {
    var p1, p2 := PathToRoot(dep, i), PathToRoot(dep, j);
    var k := IndexOf(p1, c);
    var s := ShortestPath(p1, p2, c);
    if b <= k {
      PathToRootDistinct(dep, i, p1, a, b);
    } else if a > k {
      assert s[a] == p2[a - k - 1] && s[b] == p2[b - k - 1];
      PathToRootDistinct(dep, j, p2, a - k - 1, b - k - 1);
    } else {
      BeforeCommonNotShared(dep, i, j, c, b - k - 1);
      assert s[a] == p1[a];
      assert s[b] == p2[b - k - 1];
    }
  }

  /** Seen from the root itself nothing is common: path2root(0) is [0] and no other path holds 0. */
  lemma RootHasNoCommonNode(dep: map<int, int>, j: int)
    requires j != 0 && Rooted(dep, j)
    ensures IsPathToRoot(dep, 0, [0])
    ensures Rooted(dep, 0) && PathToRoot(dep, 0) == [0]
    ensures LeastCommon(PathToRoot(dep, 0), PathToRoot(dep, j)) == None
  {
    assert IsPathToRoot(dep, 0, [0]);
    var p2 := PathToRoot(dep, j);
    forall t | 0 <= t < |p2| ensures p2[t] != 0 {
      PathToRootSuffix(dep, j, p2, t);
    }
  }
}
