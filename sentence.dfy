/**
 * PySentence: the indexed view of one parsed sentence. The constructor
 * walks the parser's terminals once and fills seven maps keyed by token
 * index; the other methods read those maps (head, children, descendants,
 * path to the root, least common node, plain text, the table) or delete
 * entries from them (delete_node, prune).
 */
module Sentence {
  import opened Wrappers
  import opened Tokens
  import opened Markup
  import opened Ordering
  import opened PlainText
  import opened DependencyGraph
  import opened IndexBuilder
  import opened Pruning

  /** word[x] for each key x, in order. */
  function WordsOf(word: map<real, string>, keys: seq<real>): (ws: seq<string>)
    requires forall k :: 0 <= k < |keys| ==> keys[k] in word
    ensures |ws| == |keys| && forall k :: 0 <= k < |keys| ==> ws[k] == word[keys[k]]
  {
    seq(|keys|, k requires 0 <= k < |keys| => word[keys[k]])
  }

  /** sorted(self.node): the token indices in ascending order, as word-map keys. */
  function TokenKeys(node: map<int, NodeHandle>): (keys: seq<real>)
    ensures Increasing(keys)
    ensures forall r :: r in keys <==> IsInteger(r) && r.Floor in node
  {
    var s := set i | i in node :: i as real;
    assert forall r :: r in s <==> IsInteger(r) && r.Floor in node by {
      forall r ensures r in s <==> IsInteger(r) && r.Floor in node {
        if IsInteger(r) && r.Floor in node {
          assert r.Floor as real == r;
        }
      }
    }
    SortedReals(s)
  }

  /** print_table's first column: "-" for a key whose text has a decimal point. */
  function GetIndex(idText: string): (s: string)
    ensures s == idText <==> '.' !in idText
    ensures '.' in idText ==> s == "-"
  {
    if '.' in idText then "-" else idText
  }

  /** dict.get(k, ''). */
  function Lookup(m: map<int, string>, k: int): string {
    if k in m then m[k] else ""
  }

  /** '\t'.join(cells) */
  function TabJoin(cells: seq<string>): string {
    if |cells| == 0 then "" else if |cells| == 1 then cells[0] else cells[0] + "\t" + TabJoin(cells[1..])
  }

  /** The first loop of get_least_common_node: scan path1, and for each entry path2, for an equal entry. */
  method FirstCommon(path1: seq<int>, path2: seq<int>) returns (commonNode: Option<int>)
    ensures commonNode == LeastCommon(path1, path2)
  {
    commonNode := None;
    for a := 0 to |path1|
      invariant commonNode == None ==> forall k :: 0 <= k < a ==> path1[k] !in path2
      invariant commonNode != None ==> commonNode == LeastCommon(path1, path2)
    {
      if commonNode != None {
        break;
      }
      for b := 0 to |path2|
        invariant commonNode == None ==> path1[a] !in path2[..b]
        invariant commonNode != None ==> commonNode == LeastCommon(path1, path2)
      {
        if path1[a] == path2[b] {
          LeastCommonAt(path1, path2, a);
          commonNode := Some(path1[a]);
          break;
        }
        assert path2[..b + 1] == path2[..b] + [path2[b]];
      }
      assert commonNode == None ==> path2[..|path2|] == path2;
    }
  }

  /**
   * The second part of get_least_common_node: path1 up to and including
   * the common node c, then path2 up to but excluding c.
   */
  method JoinAt(path1: seq<int>, path2: seq<int>, c: int) returns (shortestPath: seq<int>)
    requires c in path1 && c in path2
    ensures shortestPath == ShortestPath(path1, path2, c)
  {
    shortestPath := [];
    ghost var k1 := IndexOf(path1, c);
    for a := 0 to |path1|
      invariant a <= k1 && shortestPath == path1[..a]
    {
      shortestPath := shortestPath + [path1[a]];
      assert path1[..a + 1] == path1[..a] + [path1[a]];
      if path1[a] == c {
        break;
      }
    }
    ghost var front := shortestPath;
    assert front == path1[..k1 + 1];
    ghost var k2 := IndexOf(path2, c);
    for b := 0 to |path2|
      invariant b <= k2 && shortestPath == front + path2[..b]
    {
      if path2[b] == c {
        break;
      }
      shortestPath := shortestPath + [path2[b]];
      assert path2[..b + 1] == path2[..b] + [path2[b]];
    }
  }

  class PySentence {
    /** The parser's terminals, in the order its node enumeration yields them. */
    const terminals: seq<Terminal>
    /** Token index to the list of markup tags that follow it (0: before the text). */
    const xmltags: map<int, seq<string>>
    const lemmatize: Lemmatizer

    var node: map<int, NodeHandle>
    var word: map<real, string>
    var tag: map<int, string>
    var lemmas: map<int, string>
    var dep: map<int, int>
    var rel: map<int, string>
    var children: map<int, seq<int>>

    /** The seven maps as one value. */
    function Snapshot(): Graph
      reads this
    {
      Graph(node, word, tag, lemmas, dep, rel, children)
    }

    ghost predicate Valid()
      reads this
    {
      WellFormed(Snapshot())
    }

    /** PySentence(parser, parse, xmltags): the view of the parse, built at once. */
    constructor (terminals: seq<Terminal>, xmltags: map<int, seq<string>>, lemmatize: Lemmatizer)
      ensures this.terminals == terminals && this.xmltags == xmltags && this.lemmatize == lemmatize
      ensures Snapshot() == Build(terminals, xmltags, lemmatize)
      ensures Valid()
    {
      this.terminals := terminals;
      this.xmltags := xmltags;
      this.lemmatize := lemmatize;
      node := map[];
      word := map[];
      tag := map[];
      lemmas := map[];
      dep := map[];
      rel := map[];
      children := map[];
      new;
      PopulateIndices();
      BuildWellFormed(terminals, xmltags, lemmatize);
    }

    /** The tags before the text, then for every terminal that is not a head-tag node its entries and the tags after it. */
    method PopulateIndices()
      modifies this
      ensures Snapshot() == BuildFrom(AttachTags(old(Snapshot()), 0, xmltags), terminals, xmltags, lemmatize)
    {
      AddXmlTagsToWordIndex(0);
      ghost var start := Snapshot();
      for n := 0 to |terminals|
        invariant Snapshot() == BuildFrom(start, terminals[..n], xmltags, lemmatize)
      {
        var nodeI := terminals[n];
        assert terminals[..n + 1][..n] == terminals[..n];
        if nodeI.isHeadTagNode {
          continue;
        }
        StoreToken(nodeI);
        var idx := nodeI.index;
        AddXmlTagsToWordIndex(idx);
      }
      assert terminals[..|terminals|] == terminals;
    }

    /**
     * The entries of one terminal: its node, word, tag, lemma, relation and
     * governor, and its index appended to the governor's children list.
     */
    method StoreToken(nodeI: Terminal)
      modifies this
      ensures Snapshot() == Record(old(Snapshot()), nodeI, lemmatize)
    {
      var idx := nodeI.index;
      var w := GetWord(nodeI.value);
      var tg := GetPosTag(nodeI.parentCategory);
      var (pIdx, r) := GetDependencyData(w, nodeI.governor, nodeI.relation);
      node := node[idx := nodeI.handle];
      word := word[idx as real := w];
      tag := tag[idx := tg];
      lemmas := lemmas[idx := lemmatize(w, tg)];
      rel := rel[idx := r];
      dep := dep[idx := pIdx];
      var siblings := if pIdx in children then children[pIdx] else [];
      children := children[pIdx := siblings + [idx]];
    }

    /** Stores the tags queued at idx in the word map, the i-th of k at idx + (i+1)/(k+1). */
    method AddXmlTagsToWordIndex(idx: int)
      modifies this
      ensures Snapshot() == AttachTags(old(Snapshot()), idx, xmltags)
    {
      var tagsAtIdx := TagsAt(xmltags, idx);
      if tagsAtIdx != [] {
        var numTags := |tagsAtIdx|;
        var w0 := word;
        var w := w0;
        for tagI := 0 to numTags
          invariant w == PlaceTags(w0, idx, tagsAtIdx, tagI)
        {
          var tagName := tagsAtIdx[tagI];
          w := w[TagKey(idx, tagI, numTags) := tagName];
        }
        word := w;
      }
    }

    /**
     * get_head: the node of the governor of idx and the relation label, or
     * (None, None) when idx has no governor or is attached to the root.
     */
    function GetHead(idx: int): (h: (Option<NodeHandle>, Option<string>))
      reads this
      ensures h.0 != None <==> HasParent(dep, idx) && dep[idx] in node
      ensures h.0 != None ==> h.0.value == node[dep[idx]]
      ensures Valid() ==> (h.1 != None <==> HasParent(dep, idx))
      ensures h.1 != None ==> idx in rel && h.1.value == rel[idx]
    {
      var depIdx := if idx in dep then dep[idx] else 0;
      if depIdx == 0 then (None, None)
      else (if depIdx in node then Some(node[depIdx]) else None, if idx in rel then Some(rel[idx]) else None)
    }

    /**
     * get_children: the (node, relation) pairs of the indices listed under
     * idx, in list order, up to the first listed index that is no longer a
     * token, where the generator raises a KeyError (ok false).
     */
    method GetChildren(idx: int) returns (pairs: seq<(NodeHandle, string)>, ok: bool)
      requires Valid()
      ensures var cs := ChildrenOf(children, idx);
        && |pairs| == PresentPrefix(node.Keys, cs)
        && (ok <==> |pairs| == |cs|)
        && forall k :: 0 <= k < |pairs| ==> pairs[k] == (node[cs[k]], rel[cs[k]])
    {
      var cs := ChildrenOf(children, idx);
      pairs := [];
      ok := true;
      for k := 0 to |cs|
        invariant |pairs| == k && k <= PresentPrefix(node.Keys, cs)
        invariant forall m :: 0 <= m < k ==> pairs[m] == (node[cs[m]], rel[cs[m]])
      {
        if cs[k] !in node {
          ok := false;
          break;
        }
        pairs := pairs + [(node[cs[k]], rel[cs[k]])];
      }
    }

    /** get_descendants: start, then the preorder walk of the children lists below it. */
    method GetDescendants(start: int) returns (descendants: seq<int>)
      requires Finite(children, start)
      ensures descendants == Descendants(children, start)
    {
      ghost var h :| Bounded(children, start, h);
      DescendantsAt(children, start, h);
      descendants := [start];
      descendants := Traverse(start, h, descendants);
    }

    /** traverse(idx): appends each child of idx and then, recursively, everything below it. */
    method Traverse(idx: int, ghost h: nat, descendants: seq<int>) returns (out: seq<int>)
      requires Bounded(children, idx, h)
      ensures out == descendants + Below(children, idx, h)
      decreases h
    {
      out := descendants;
      var cs := ChildrenOf(children, idx);
      ghost var below: nat := if h == 0 then 0 else h - 1;
      assert forall c :: c in cs ==> Bounded(children, c, below);
      assert Below(children, idx, h) == Forest(children, cs, below);
      for k := 0 to |cs|
        invariant out == descendants + Forest(children, cs[..k], below)
      {
        out := out + [cs[k]];
        assert cs[..k + 1] == cs[..k] + [cs[k]];
        ForestSnoc(children, cs[..k], cs[k], below);
        out := Traverse(cs[k], below, out);
      }
      assert cs[..|cs|] == cs;
    }

    /**
     * delete_node: removes idx from all seven maps; a KeyError (ok false,
     * nothing changed) when idx is not a token.
     */
    method DeleteNode(idx: int) returns (ok: bool)
      requires Valid()
      modifies this
      ensures Valid()
      ensures ok <==> idx in old(node)
      ensures Snapshot() == if ok then Without(old(Snapshot()), {idx}) else old(Snapshot())
    {
      if idx !in node {
        return false;
      }
      ghost var g := Snapshot();
      node := node - {idx};
      word := word - {idx as real};
      tag := tag - {idx};
      lemmas := lemmas - {idx};
      rel := rel - {idx};
      dep := dep - {idx};
      if idx in children {
        children := children - {idx};
      }
      ok := true;
      WithoutOne(g, idx);
      WithoutWellFormed(g, {idx});
    }

    /**
     * prune as written: deletes get_descendants(idx) one index at a time;
     * a KeyError at a missing index (ok false) leaves the earlier ones deleted.
     */
    method Prune(idx: int) returns (ok: bool)
      requires Valid() && Finite(children, idx)
      modifies this
      ensures Valid()
      ensures (Snapshot(), ok) == PruneResult(old(Snapshot()), idx)
    {
      var ds := GetDescendants(idx);
      ghost var g0 := Snapshot();
      ghost var n := DeletablePrefix(node.Keys, ds);
      assert Elements(ds, 0) == {};
      WithoutNothing(g0);
      ok := true;
      var k := 0;
      while k < |ds|
        invariant 0 <= k <= n
        invariant Valid()
        invariant Snapshot() == Without(g0, Elements(ds, k))
      {
        DeletableStep(g0.node.Keys, ds, k);
        var deleted := DeleteNode(ds[k]);
        if !deleted {
          ok := false;
          break;
        }
        DeleteOneMore(g0, ds, k);
        k := k + 1;
      }
    }

    /** prune that also takes idx out of its governor's children list first. */
    method PruneDetached(idx: int) returns (ok: bool)
      requires Valid() && Finite(children, idx)
      modifies this
      ensures Valid()
      ensures (Snapshot(), ok) == DetachedPruneResult(old(Snapshot()), idx)
    {
      ghost var h :| Bounded(children, idx, h);
      DetachKeepsFinite(Snapshot(), idx, idx, h);
      if idx in dep && dep[idx] in children {
        children := children[dep[idx] := Remove(children[dep[idx]], idx)];
      }
      ok := Prune(idx);
    }

    /** [self.word[x] for x in sorted(self.node)] */
    function TokenWords(): seq<string>
      reads this
      requires Valid()
    {
      var keys := TokenKeys(node);
      assert forall k :: 0 <= k < |keys| ==> keys[k] in word by {
        forall k | 0 <= k < |keys| ensures keys[k] in word {
          assert keys[k] in keys;
          assert keys[k].Floor as real == keys[k];
        }
      }
      WordsOf(word, keys)
    }

    /**
     * get_plain_text: the words of the tokens in index order joined by
     * spaces, then the space before each of , . : ; ! ? removed.
     */
    method GetPlainText() returns (text: string)
      requires Valid()
      ensures text == Tighten(Join(TokenWords()), TightPunctuation)
    {
      var words := TokenWords();
      text := Join(words);
      var tight := TightPunctuation;
      for k := 0 to |tight|
        invariant text == Tighten(Join(words), tight[..k])
      {
        assert tight[..k + 1][..k] == tight[..k];
        text := RemoveSpaceBefore(text, tight[k]);
      }
      assert tight[..|tight|] == tight;
    }

    /** path2root: idx, then each governor in turn until one is missing or 0. */
    method Path2Root(idx: int) returns (path: seq<int>)
      requires Rooted(dep, idx)
      ensures IsPathToRoot(dep, idx, path)
    {
      path := [idx];
      if idx != 0 {
        ghost var target := PathToRoot(dep, idx);
        var cur := idx;
        while true
          invariant 1 <= |path| <= |target| && path == target[..|path|] && cur == path[|path| - 1]
          decreases |target| - |path|
        {
          var parent := if cur in dep then Some(dep[cur]) else None;
          if parent == None || parent.value == 0 {
            break;
          }
          path := path + [parent.value];
          cur := parent.value;
        }
        assert path == target;
      }
    }

    /**
     * get_least_common_node: the first index on path2root(i) that is also on
     * path2root(j), and the path from i up to it and down again to j.
     */
    method GetLeastCommonNode(i: int, j: int) returns (commonNode: Option<int>, shortestPath: seq<int>)
      requires Rooted(dep, i) && Rooted(dep, j)
      ensures commonNode == LeastCommon(PathToRoot(dep, i), PathToRoot(dep, j))
      ensures commonNode == None ==> shortestPath == []
      ensures commonNode != None ==>
        shortestPath == ShortestPath(PathToRoot(dep, i), PathToRoot(dep, j), commonNode.value)
    {
      var path1 := Path2Root(i);
      var path2 := Path2Root(j);
      PathToRootUnique(dep, i, path1, PathToRoot(dep, i));
      PathToRootUnique(dep, j, path2, PathToRoot(dep, j));
      commonNode := FirstCommon(path1, path2);
      shortestPath := [];
      if commonNode != None {
        shortestPath := JoinAt(path1, path2, commonNode.value);
      }
    }

    /** The six cells of print_table's row for word key r. */
    function TableRow(r: real): (cells: seq<string>)
      reads this
      requires r in word
      ensures |cells| == 6 && cells[1] == word[r]
      ensures IsInteger(r) ==> cells[0] == IntToString(r.Floor)
      ensures !IsInteger(r) ==> cells == ["-", word[r], "", "", "", ""]
    {
      if IsInteger(r) then
        var i := r.Floor;
        [GetIndex(IntToString(i)), word[r], Lookup(lemmas, i), Lookup(tag, i), Lookup(rel, i),
         if i in dep then IntToString(dep[i]) else ""]
      else ["-", word[r], "", "", "", ""]
    }

    /** print_table: one tab-separated line per word key, in ascending key order. */
    method TableLines() returns (lines: seq<string>)
      ensures |lines| == |word|
      ensures forall k :: 0 <= k < |lines| ==> lines[k] == TabJoin(TableRow(SortedReals(word.Keys)[k]))
    {
      var keys := SortedReals(word.Keys);
      lines := [];
      for k := 0 to |keys|
        invariant |lines| == k
        invariant forall m :: 0 <= m < k ==> lines[m] == TabJoin(TableRow(keys[m]))
      {
        lines := lines + [TabJoin(TableRow(keys[k]))];
      }
    }
  }

  /** The head of a built token is its governor's node with the relation recorded for it. */
  lemma HeadOfBuiltToken(s: PySentence, k: nat, j: nat)
    requires s.Snapshot() == Build(s.terminals, s.xmltags, s.lemmatize)
    requires DistinctIndices(s.terminals)
    requires k < |s.terminals| && !s.terminals[k].isHeadTagNode
    requires j < |s.terminals| && !s.terminals[j].isHeadTagNode
    ensures var t := s.terminals[k];
      GovernorOf(t) == 0 ==> s.GetHead(t.index) == (None, None)
    ensures var t := s.terminals[k];
      GovernorOf(t) != 0 && s.terminals[j].index == GovernorOf(t) ==>
        s.GetHead(t.index) == (Some(s.terminals[j].handle), Some(t.relation))
  {
    BuildRecords(s.terminals, s.xmltags, s.lemmatize, k);
    BuildRecords(s.terminals, s.xmltags, s.lemmatize, j);
  }

  /** A token row of the table shows the index, word, lemma, tag, relation and governor of that token. */
  lemma TokenRow(s: PySentence, i: int)
    requires s.Valid() && i in s.node
    ensures s.TableRow(i as real) ==
      [IntToString(i), s.word[i as real], s.lemmas[i], s.tag[i], s.rel[i], IntToString(s.dep[i])]
  {
    assert IsInteger(i as real) && (i as real).Floor == i;
  }
}
