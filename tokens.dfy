/**
 * The per-terminal data the parser's grammatical structure reports, and the
 * small pure helpers of PySentence that turn one terminal into the fields of
 * the indexed view: its surface word (get_word), its part-of-speech tag
 * (get_pos_tag) and its governor and relation (get_dependency_data).
 */
module Tokens {
  import opened Wrappers

  /** Opaque handle to one of the parser's terminal-node objects. */
  type NodeHandle(==)

  /**
   * One element of the parser's node enumeration, with every answer the
   * builder asks of it:
   *   handle          the node object itself
   *   index           node.index()
   *   value           node.value(), the raw surface token
   *   isHeadTagNode   node.headTagNode() is not None
   *   parentCategory  node.parent().value(), or None when there is no parent
   *   governor        the index of the governor the structure reports, or None
   *   relation        the relation label the structure reports between the
   *                   governor and this index (read only when there is one)
   */
  datatype Terminal = Terminal(
    handle: NodeHandle,
    index: int,
    value: string,
    isHeadTagNode: bool,
    parentCategory: Option<string>,
    governor: Option<int>,
    relation: string)

  /** The 32 ASCII punctuation characters, in the order Python's string.punctuation lists them. */
  const Punctuation: string := "!\"#$%&'()*+,-./:;<=>?@[\\]^_`{|}~"

  /** The tag recorded for a terminal without a structural parent. */
  const NoParentTag: string := "Z"

  /** The relation recorded for punctuation and governor-less tokens. */
  const PunctRelation: string := "punct"

  /** `w` occurs in `s` starting at position `i`. */
  predicate OccursAt(w: string, s: string, i: int) {
    0 <= i && i + |w| <= |s| && s[i..i + |w|] == w
  }

  /** Python's `w in s` on two strings: is `w` a contiguous substring of `s`? */
  predicate IsSubstring(w: string, s: string) {
    exists i | 0 <= i <= |s| - |w| :: OccursAt(w, s, i)
  }

  /**
   * The surface word of a token: the tokenizer's bracket escapes are turned
   * into literal brackets, "-RRB-" into "(" and "-LRB-" into ")", exactly
   * as the source does; every other token is kept as it is.
   */
  function GetWord(value: string): (w: string)
    ensures w == value <==> value != "-RRB-" && value != "-LRB-"
    ensures value == "-RRB-" ==> w == "("
    ensures value == "-LRB-" ==> w == ")"
  {
    if value == "-RRB-" then "("
    else if value == "-LRB-" then ")"
    else value
  }

  /** The part-of-speech tag: the category of the terminal's parent, or "Z" without a parent. */
  function GetPosTag(parentCategory: Option<string>): (tag: string)
    ensures parentCategory == None ==> tag == NoParentTag
    ensures parentCategory != None ==> tag == parentCategory.value
  {
    parentCategory.GetOr(NoParentTag)
  }

  /** Whether a word counts as punctuation: a substring of string.punctuation. */
  predicate IsPunctuation(word: string) {
    IsSubstring(word, Punctuation)
  }

  /**
   * The governor index and relation of a token: a punctuation word or a
   * token without a governor is attached to the root 0 with "punct";
   * otherwise the governor's index and the reported relation.
   */
  function GetDependencyData(word: string, governor: Option<int>, relation: string): (r: (int, string))
    ensures IsPunctuation(word) || governor == None ==> r == (0, PunctRelation)
    ensures !IsPunctuation(word) && governor != None ==> r == (governor.value, relation)
  {
    if IsPunctuation(word) || governor == None then (0, PunctRelation)
    else (governor.value, relation)
  }

  /** A single character is punctuation exactly when it is one of the 32 characters. */
  lemma SingleCharPunctuation(c: char)
    ensures IsPunctuation([c]) <==> c in Punctuation
  {
    if c in Punctuation {
      var i :| 0 <= i < |Punctuation| && Punctuation[i] == c;
      assert OccursAt([c], Punctuation, i);
    }
    if IsPunctuation([c]) {
      var i :| 0 <= i <= |Punctuation| - 1 && OccursAt([c], Punctuation, i);
      assert Punctuation[i] == Punctuation[i..i + 1][0];
    }
  }

  /** Every character of a punctuation word is a punctuation character; the empty word is punctuation. */
  lemma PunctuationWordCharacters(w: string)
    ensures IsPunctuation(w) ==> forall k :: 0 <= k < |w| ==> w[k] in Punctuation
    ensures IsPunctuation([])
  {
    if IsPunctuation(w) {
      var i :| 0 <= i <= |Punctuation| - |w| && OccursAt(w, Punctuation, i);
      forall k | 0 <= k < |w| ensures w[k] in Punctuation {
        assert w[k] == Punctuation[i + k];
      }
    }
    assert OccursAt([], Punctuation, 0);
  }

  /** The two bracket escapes become punctuation and are attached to the root with "punct". */
  lemma BracketsAttachToRoot(value: string, governor: Option<int>, relation: string)
    requires value == "-RRB-" || value == "-LRB-"
    ensures GetDependencyData(GetWord(value), governor, relation) == (0, PunctRelation)
  {
    SingleCharPunctuation('(');
    SingleCharPunctuation(')');
    assert Punctuation[7] == '(' && Punctuation[8] == ')';
  }

  /** A word holding a letter is never punctuation, so it keeps its reported governor. */
  lemma WordWithLetterKeepsGovernor(w: string, k: nat, governor: int, relation: string)
    requires k < |w| && 'a' <= w[k] <= 'z'
    ensures GetDependencyData(w, Some(governor), relation) == (governor, relation)
  {
    PunctuationWordCharacters(w);
    assert w[k] !in Punctuation;
  }
}
