/**
 * The indexed view PySentence builds from the parser's terminals, as a
 * value: seven maps keyed by token index (the word map also holds the
 * markup tags at fractional keys). `Build` is what populate_indices
 * computes, one terminal at a time; the lemmas say what the finished maps
 * hold.
 */
module IndexBuilder {
  import opened Wrappers
  import opened Tokens
  import opened Markup
  import opened DependencyGraph

  /** The lemmatizer: (word, tag) to lemma. */
  type Lemmatizer = (string, string) -> string

  /** The seven index maps of a sentence view. */
  datatype Graph = Graph(
    node: map<int, NodeHandle>,
    word: map<real, string>,
    tag: map<int, string>,
    lemmas: map<int, string>,
    dep: map<int, int>,
    rel: map<int, string>,
    children: map<int, seq<int>>)

  const EmptyGraph: Graph := Graph(map[], map[], map[], map[], map[], map[], map[])

  /**
   * The maps agree on which tokens exist: node, tag, lemma, dep and rel
   * have the same keys, every token has a word, and every integral word key
   * is a token (the other word keys are markup tags).
   */
  ghost predicate WellFormed(g: Graph) {
    && g.tag.Keys == g.node.Keys
    && g.lemmas.Keys == g.node.Keys
    && g.dep.Keys == g.node.Keys
    && g.rel.Keys == g.node.Keys
    && (forall i :: i in g.node ==> i as real in g.word)
    && (forall r :: r in g.word && IsInteger(r) ==> r.Floor in g.node)
  }

  /** Every token is listed among the children of its governor. */
  ghost predicate Linked(g: Graph) {
    forall i :: i in g.dep ==> i in ChildrenOf(g.children, g.dep[i])
  }

  /** xmltags.get(idx), with None and [] both meaning "no tags". */
  function TagsAt(xmltags: map<int, seq<string>>, idx: int): seq<string> {
    if idx in xmltags then xmltags[idx] else []
  }

  /** The word map after storing the first n of the tags queued at `anchor`. */
  function PlaceTags(word: map<real, string>, anchor: int, tags: seq<string>, n: nat): (w: map<real, string>)
    requires n <= |tags|
    ensures forall i :: 0 <= i < n ==>
      TagKey(anchor, i, |tags|) in w && w[TagKey(anchor, i, |tags|)] == tags[i]
    ensures forall r :: r in w <==> r in word || exists i :: 0 <= i < n && r == TagKey(anchor, i, |tags|)
    ensures forall r :: r in word && (IsInteger(r) || r.Floor != anchor) ==> w[r] == word[r]
  {
    if n == 0 then word
    else
      var w := PlaceTags(word, anchor, tags, n - 1);
      var key := TagKey(anchor, n - 1, |tags|);
      TagKeyNotInteger(anchor, n - 1, |tags|);
      assert forall i :: 0 <= i < n - 1 ==> TagKey(anchor, i, |tags|) != key by {
        forall i | 0 <= i < n - 1 ensures TagKey(anchor, i, |tags|) < key {
          TagKeysIncrease(anchor, i, n - 1, |tags|);
        }
      }
      w[key := tags[n - 1]]
  }

  /** add_xml_tags_to_word_index(anchor) on a view. */
  function AttachTags(g: Graph, anchor: int, xmltags: map<int, seq<string>>): Graph {
    var tags := TagsAt(xmltags, anchor);
    g.(word := PlaceTags(g.word, anchor, tags, |tags|))
  }

  /** The governor index populate_indices records for a terminal. */
  function GovernorOf(t: Terminal): int {
    GetDependencyData(GetWord(t.value), t.governor, t.relation).0
  }

  /** The entries populate_indices stores for one terminal, before its tags. */
  function Record(g: Graph, t: Terminal, lemmatize: Lemmatizer): Graph {
    var idx := t.index;
    var w := GetWord(t.value);
    var tg := GetPosTag(t.parentCategory);
    var (p, r) := GetDependencyData(w, t.governor, t.relation);
    g.(
      node := g.node[idx := t.handle],
      word := g.word[idx as real := w],
      tag := g.tag[idx := tg],
      lemmas := g.lemmas[idx := lemmatize(w, tg)],
      rel := g.rel[idx := r],
      dep := g.dep[idx := p],
      children := g.children[p := ChildrenOf(g.children, p) + [idx]])
  }

  /** One iteration of populate_indices' loop over the terminals. */
  function Step(g: Graph, t: Terminal, xmltags: map<int, seq<string>>, lemmatize: Lemmatizer): Graph {
    if t.isHeadTagNode then g
    else AttachTags(Record(g, t, lemmatize), t.index, xmltags)
  }

  /** The view after the loop has processed the terminals `ts`, starting from `g`. */
  function BuildFrom(g: Graph, ts: seq<Terminal>, xmltags: map<int, seq<string>>, lemmatize: Lemmatizer): Graph
    decreases |ts|
  {
    if ts == [] then g
    else Step(BuildFrom(g, ts[..|ts| - 1], xmltags, lemmatize), ts[|ts| - 1], xmltags, lemmatize)
  }

  /** populate_indices on an empty view: the tags before the text, then every terminal. */
  function Build(ts: seq<Terminal>, xmltags: map<int, seq<string>>, lemmatize: Lemmatizer): Graph {
    BuildFrom(AttachTags(EmptyGraph, 0, xmltags), ts, xmltags, lemmatize)
  }

  /** The indices of the terminals the loop does not skip. */
  function KeptIndices(ts: seq<Terminal>): set<int> {
    set k | 0 <= k < |ts| && !ts[k].isHeadTagNode :: ts[k].index
  }

  /** No two kept terminals share an index. */
  predicate DistinctIndices(ts: seq<Terminal>) {
    forall a, b :: 0 <= a < b < |ts| && !ts[a].isHeadTagNode && !ts[b].isHeadTagNode ==>
      ts[a].index != ts[b].index
  }

  /** The indices of the kept terminals governed by `p`, in terminal order. */
  function Attached(ts: seq<Terminal>, p: int): seq<int>
    decreases |ts|
  {
    if ts == [] then []
    else
      var t := ts[|ts| - 1];
      Attached(ts[..|ts| - 1], p) + (if !t.isHeadTagNode && GovernorOf(t) == p then [t.index] else [])
  }

  /** Attached(ts, p) holds the index of every kept terminal governed by p, and nothing else. */
  lemma {:induction false} AttachedMembers(ts: seq<Terminal>, p: int, c: int)
    ensures c in Attached(ts, p) <==>
      exists k :: 0 <= k < |ts| && !ts[k].isHeadTagNode && ts[k].index == c && GovernorOf(ts[k]) == p
    decreases |ts|
  {
    if ts != [] {
      var init := ts[..|ts| - 1];
      AttachedMembers(init, p, c);
      if exists k :: 0 <= k < |init| && !init[k].isHeadTagNode && init[k].index == c && GovernorOf(init[k]) == p {
        var k :| 0 <= k < |init| && !init[k].isHeadTagNode && init[k].index == c && GovernorOf(init[k]) == p;
        assert ts[k] == init[k];
      }
      if exists k :: 0 <= k < |ts| && !ts[k].isHeadTagNode && ts[k].index == c && GovernorOf(ts[k]) == p {
        var k :| 0 <= k < |ts| && !ts[k].isHeadTagNode && ts[k].index == c && GovernorOf(ts[k]) == p;
        if k < |ts| - 1 {
          assert init[k] == ts[k];
        }
      }
    }
  }

  /** What one kept terminal contributes to each of the six token maps. */
  ghost predicate Records(g: Graph, t: Terminal, lemmatize: Lemmatizer) {
    var w := GetWord(t.value);
    var tg := GetPosTag(t.parentCategory);
    var d := GetDependencyData(w, t.governor, t.relation);
    && t.index in g.node && g.node[t.index] == t.handle
    && t.index as real in g.word && g.word[t.index as real] == w
    && t.index in g.tag && g.tag[t.index] == tg
    && t.index in g.lemmas && g.lemmas[t.index] == lemmatize(w, tg)
    && t.index in g.dep && g.dep[t.index] == d.0
    && t.index in g.rel && g.rel[t.index] == d.1
  }

  /** Every tag queued at `anchor` is stored, in order, at its fractional key. */
  ghost predicate AllTagsPlaced(word: map<real, string>, xmltags: map<int, seq<string>>, anchor: int) {
    var tags := TagsAt(xmltags, anchor);
    forall i :: 0 <= i < |tags| ==> TagKey(anchor, i, |tags|) in word && word[TagKey(anchor, i, |tags|)] == tags[i]
  }

  /** `r` is the key of one of the tags queued at one of the `anchors`. */
  ghost predicate IsTagKeyOf(r: real, xmltags: map<int, seq<string>>, anchors: set<int>) {
    exists a, i :: a in anchors && 0 <= i < |TagsAt(xmltags, a)| && r == TagKey(a, i, |TagsAt(xmltags, a)|)
  }

  // ---------------------------------------------------------------------
  // One step
  // ---------------------------------------------------------------------

  lemma AttachTagsWellFormed(g: Graph, anchor: int, xmltags: map<int, seq<string>>)
    requires WellFormed(g)
    ensures WellFormed(AttachTags(g, anchor, xmltags))
  {
    var tags := TagsAt(xmltags, anchor);
    forall i | 0 <= i < |tags| ensures !IsInteger(TagKey(anchor, i, |tags|)) {
      TagKeyNotInteger(anchor, i, |tags|);
    }
  }

  lemma StepWellFormed(g: Graph, t: Terminal, xmltags: map<int, seq<string>>, lemmatize: Lemmatizer)
    requires WellFormed(g)
    ensures WellFormed(Step(g, t, xmltags, lemmatize))
  {
    if !t.isHeadTagNode {
      var idx := t.index;
      var g1 := Record(g, t, lemmatize);
      assert (idx as real).Floor == idx;
      assert WellFormed(g1);
      AttachTagsWellFormed(g1, idx, xmltags);
    }
  }

  lemma StepLinked(g: Graph, t: Terminal, xmltags: map<int, seq<string>>, lemmatize: Lemmatizer)
    requires Linked(g)
    ensures Linked(Step(g, t, xmltags, lemmatize))
  {
    var g' := Step(g, t, xmltags, lemmatize);
    forall i | i in g'.dep ensures i in ChildrenOf(g'.children, g'.dep[i]) {
      if !t.isHeadTagNode && i != t.index {
        var p := GovernorOf(t);
        assert ChildrenOf(g'.children, g.dep[i]) == ChildrenOf(g.children, g.dep[i])
            || ChildrenOf(g'.children, g.dep[i]) == ChildrenOf(g.children, g.dep[i]) + [t.index];
      }
    }
  }

  lemma StepChildren(g: Graph, t: Terminal, xmltags: map<int, seq<string>>, lemmatize: Lemmatizer, p: int)
    ensures ChildrenOf(Step(g, t, xmltags, lemmatize).children, p)
         == ChildrenOf(g.children, p) + (if !t.isHeadTagNode && GovernorOf(t) == p then [t.index] else [])
  {
  }

  /** A step keeps the token entries of every other index. */
  lemma StepKeepsRecords(g: Graph, t: Terminal, u: Terminal, xmltags: map<int, seq<string>>, lemmatize: Lemmatizer)
    requires Records(g, u, lemmatize)
    requires t.isHeadTagNode || t.index != u.index
    ensures Records(Step(g, t, xmltags, lemmatize), u, lemmatize)
  {
    if !t.isHeadTagNode {
      assert u.index as real != t.index as real;
      assert IsInteger(u.index as real);
    }
  }

  lemma StepRecords(g: Graph, t: Terminal, xmltags: map<int, seq<string>>, lemmatize: Lemmatizer)
    requires !t.isHeadTagNode
    ensures Records(Step(g, t, xmltags, lemmatize), t, lemmatize)
  {
    assert IsInteger(t.index as real);
  }

  lemma StepKeepsTags(g: Graph, t: Terminal, xmltags: map<int, seq<string>>, lemmatize: Lemmatizer, a: int)
    requires AllTagsPlaced(g.word, xmltags, a)
    ensures AllTagsPlaced(Step(g, t, xmltags, lemmatize).word, xmltags, a)
  {
    var tags := TagsAt(xmltags, a);
    forall i | 0 <= i < |tags| ensures !IsInteger(TagKey(a, i, |tags|)) && TagKey(a, i, |tags|).Floor == a {
      TagKeyNotInteger(a, i, |tags|);
    }
  }

  lemma StepKeysAreTags(g: Graph, t: Terminal, xmltags: map<int, seq<string>>, lemmatize: Lemmatizer, anchors: set<int>)
    requires forall r :: r in g.word && !IsInteger(r) ==> IsTagKeyOf(r, xmltags, anchors)
    ensures var anchors' := if t.isHeadTagNode then anchors else anchors + {t.index};
      forall r :: r in Step(g, t, xmltags, lemmatize).word && !IsInteger(r) ==> IsTagKeyOf(r, xmltags, anchors')
  {
    if !t.isHeadTagNode {
      var anchors' := anchors + {t.index};
      var w := Step(g, t, xmltags, lemmatize).word;
      var tags := TagsAt(xmltags, t.index);
      forall r | r in w && !IsInteger(r) ensures IsTagKeyOf(r, xmltags, anchors') {
        if r in g.word {
          var a, i :| a in anchors && 0 <= i < |TagsAt(xmltags, a)| && r == TagKey(a, i, |TagsAt(xmltags, a)|);
          assert a in anchors';
        } else if r != t.index as real {
          var i :| 0 <= i < |tags| && r == TagKey(t.index, i, |tags|);
          assert t.index in anchors';
        }
      }
    }
  }

  // ---------------------------------------------------------------------
  // The whole loop
  // ---------------------------------------------------------------------

  lemma KeptIndicesSnoc(ts: seq<Terminal>)
    requires ts != []
    ensures var t := ts[|ts| - 1];
      KeptIndices(ts) == KeptIndices(ts[..|ts| - 1]) + (if t.isHeadTagNode then {} else {t.index})
  {
    var init := ts[..|ts| - 1];
    forall x | x in KeptIndices(ts) ensures x in KeptIndices(init) || (!ts[|ts| - 1].isHeadTagNode && x == ts[|ts| - 1].index) {
      var k :| 0 <= k < |ts| && !ts[k].isHeadTagNode && ts[k].index == x;
      if k < |ts| - 1 {
        assert init[k] == ts[k];
      }
    }
    forall x | x in KeptIndices(init) ensures x in KeptIndices(ts) {
      var k :| 0 <= k < |init| && !init[k].isHeadTagNode && init[k].index == x;
      assert ts[k] == init[k];
    }
  }

  /** populate_indices keeps the maps agreeing on which tokens exist. */
  lemma {:induction false} BuildFromWellFormed(g: Graph, ts: seq<Terminal>, xmltags: map<int, seq<string>>, lemmatize: Lemmatizer)
    requires WellFormed(g)
    ensures WellFormed(BuildFrom(g, ts, xmltags, lemmatize))
    decreases |ts|
  {
    if ts != [] {
      BuildFromWellFormed(g, ts[..|ts| - 1], xmltags, lemmatize);
      StepWellFormed(BuildFrom(g, ts[..|ts| - 1], xmltags, lemmatize), ts[|ts| - 1], xmltags, lemmatize);
    }
  }

  /** The tokens of the built view are exactly the kept terminals' indices. */
  lemma {:induction false} BuildFromKeys(g: Graph, ts: seq<Terminal>, xmltags: map<int, seq<string>>, lemmatize: Lemmatizer)
    ensures BuildFrom(g, ts, xmltags, lemmatize).node.Keys == g.node.Keys + KeptIndices(ts)
    decreases |ts|
  {
    if ts != [] {
      BuildFromKeys(g, ts[..|ts| - 1], xmltags, lemmatize);
      KeptIndicesSnoc(ts);
    }
  }

  /** children[p] lists the kept terminals governed by p, in the order the parser enumerated them. */
  lemma {:induction false} BuildFromChildren(g: Graph, ts: seq<Terminal>, xmltags: map<int, seq<string>>, lemmatize: Lemmatizer, p: int)
    ensures ChildrenOf(BuildFrom(g, ts, xmltags, lemmatize).children, p) == ChildrenOf(g.children, p) + Attached(ts, p)
    decreases |ts|
  {
    if ts != [] {
      var init := ts[..|ts| - 1];
      BuildFromChildren(g, init, xmltags, lemmatize, p);
      StepChildren(BuildFrom(g, init, xmltags, lemmatize), ts[|ts| - 1], xmltags, lemmatize, p);
    }
  }

  /** Every token is appended to its governor's children list. */
  lemma {:induction false} BuildFromLinked(g: Graph, ts: seq<Terminal>, xmltags: map<int, seq<string>>, lemmatize: Lemmatizer)
    requires Linked(g)
    ensures Linked(BuildFrom(g, ts, xmltags, lemmatize))
    decreases |ts|
  {
    if ts != [] {
      BuildFromLinked(g, ts[..|ts| - 1], xmltags, lemmatize);
      StepLinked(BuildFrom(g, ts[..|ts| - 1], xmltags, lemmatize), ts[|ts| - 1], xmltags, lemmatize);
    }
  }

  /** With distinct indices, each kept terminal's entries are exactly what the helpers compute for it. */
  lemma {:induction false} BuildFromRecords(g: Graph, ts: seq<Terminal>, xmltags: map<int, seq<string>>, lemmatize: Lemmatizer, k: nat)
    requires DistinctIndices(ts)
    requires k < |ts| && !ts[k].isHeadTagNode
    ensures Records(BuildFrom(g, ts, xmltags, lemmatize), ts[k], lemmatize)
    decreases |ts|
  {
    var init := ts[..|ts| - 1];
    var prev := BuildFrom(g, init, xmltags, lemmatize);
    if k == |ts| - 1 {
      StepRecords(prev, ts[k], xmltags, lemmatize);
    } else {
      assert DistinctIndices(init);
      assert init[k] == ts[k];
      BuildFromRecords(g, init, xmltags, lemmatize, k);
      StepKeepsRecords(prev, ts[|ts| - 1], ts[k], xmltags, lemmatize);
    }
  }

  /** The tags queued at an anchor the loop visits stay where they were put. */
  lemma {:induction false} BuildFromTags(g: Graph, ts: seq<Terminal>, xmltags: map<int, seq<string>>, lemmatize: Lemmatizer, a: int)
    requires AllTagsPlaced(g.word, xmltags, a) || a in KeptIndices(ts)
    ensures AllTagsPlaced(BuildFrom(g, ts, xmltags, lemmatize).word, xmltags, a)
    decreases |ts|
  {
    if ts != [] {
      var init := ts[..|ts| - 1];
      var t := ts[|ts| - 1];
      var prev := BuildFrom(g, init, xmltags, lemmatize);
      KeptIndicesSnoc(ts);
      if AllTagsPlaced(g.word, xmltags, a) || a in KeptIndices(init) {
        BuildFromTags(g, init, xmltags, lemmatize, a);
        StepKeepsTags(prev, t, xmltags, lemmatize, a);
      } else {
        assert !t.isHeadTagNode && t.index == a;
      }
    }
  }

  /** Every fractional key of the word map belongs to a tag queued at a visited anchor. */
  lemma {:induction false} BuildFromOnlyTags(g: Graph, ts: seq<Terminal>, xmltags: map<int, seq<string>>, lemmatize: Lemmatizer, anchors: set<int>)
    requires forall r :: r in g.word && !IsInteger(r) ==> IsTagKeyOf(r, xmltags, anchors)
    ensures forall r :: r in BuildFrom(g, ts, xmltags, lemmatize).word && !IsInteger(r) ==>
      IsTagKeyOf(r, xmltags, anchors + KeptIndices(ts))
    decreases |ts|
  {
    if ts != [] {
      var init := ts[..|ts| - 1];
      var t := ts[|ts| - 1];
      BuildFromOnlyTags(g, init, xmltags, lemmatize, anchors);
      StepKeysAreTags(BuildFrom(g, init, xmltags, lemmatize), t, xmltags, lemmatize, anchors + KeptIndices(init));
      KeptIndicesSnoc(ts);
      var anchors' := if t.isHeadTagNode then anchors + KeptIndices(init) else anchors + KeptIndices(init) + {t.index};
      assert anchors' == anchors + KeptIndices(ts);
    }
  }

  /**
   * What populate_indices builds: maps that agree on their tokens, whose
   * tokens are exactly the kept terminals, and where every token sits in
   * its governor's children list.
   */
  lemma BuildWellFormed(ts: seq<Terminal>, xmltags: map<int, seq<string>>, lemmatize: Lemmatizer)
    ensures WellFormed(Build(ts, xmltags, lemmatize))
    ensures Linked(Build(ts, xmltags, lemmatize))
    ensures Build(ts, xmltags, lemmatize).node.Keys == KeptIndices(ts)
  {
    var g0 := AttachTags(EmptyGraph, 0, xmltags);
    AttachTagsWellFormed(EmptyGraph, 0, xmltags);
    BuildFromWellFormed(g0, ts, xmltags, lemmatize);
    BuildFromLinked(g0, ts, xmltags, lemmatize);
    BuildFromKeys(g0, ts, xmltags, lemmatize);
  }

  /** children[p] lists the kept terminals governed by p, in parser order, and nothing else. */
  lemma BuildChildren(ts: seq<Terminal>, xmltags: map<int, seq<string>>, lemmatize: Lemmatizer, p: int)
    ensures ChildrenOf(Build(ts, xmltags, lemmatize).children, p) == Attached(ts, p)
  {
    BuildFromChildren(AttachTags(EmptyGraph, 0, xmltags), ts, xmltags, lemmatize, p);
  }

  /** The tags queued before the text and after every kept token are all in the word map. */
  lemma BuildTags(ts: seq<Terminal>, xmltags: map<int, seq<string>>, lemmatize: Lemmatizer, a: int)
    requires a == 0 || a in KeptIndices(ts)
    ensures AllTagsPlaced(Build(ts, xmltags, lemmatize).word, xmltags, a)
  {
    BuildFromTags(AttachTags(EmptyGraph, 0, xmltags), ts, xmltags, lemmatize, a);
  }

  /** The word map holds nothing at a fractional key but those tags. */
  lemma BuildOnlyTags(ts: seq<Terminal>, xmltags: map<int, seq<string>>, lemmatize: Lemmatizer)
    ensures forall r :: r in Build(ts, xmltags, lemmatize).word && !IsInteger(r) ==>
      IsTagKeyOf(r, xmltags, {0} + KeptIndices(ts))
  {
    var g0 := AttachTags(EmptyGraph, 0, xmltags);
    var tags := TagsAt(xmltags, 0);
    forall r | r in g0.word && !IsInteger(r) ensures IsTagKeyOf(r, xmltags, {0}) {
      var i :| 0 <= i < |tags| && r == TagKey(0, i, |tags|);
      assert 0 in {0};
    }
    BuildFromOnlyTags(g0, ts, xmltags, lemmatize, {0});
  }

  /** With distinct indices, every kept terminal's entries are what the helpers compute for it. */
  lemma BuildRecords(ts: seq<Terminal>, xmltags: map<int, seq<string>>, lemmatize: Lemmatizer, k: nat)
    requires DistinctIndices(ts)
    requires k < |ts| && !ts[k].isHeadTagNode
    ensures Records(Build(ts, xmltags, lemmatize), ts[k], lemmatize)
  {
    BuildFromRecords(AttachTags(EmptyGraph, 0, xmltags), ts, xmltags, lemmatize, k);
  }
}
