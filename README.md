# PySentence: the indexed view of a dependency parse

`PySentence` (stanford_interface.py) wraps one parsed sentence. Its
constructor walks the parser's terminals once. For every terminal that is
not a head-tag node it fills seven dictionaries keyed by the token's index:

- `node`: the parser's node.
- `word`: the surface word, with the bracket escapes swapped.
- `tag`: the parent's category, or `Z`.
- `lemma`: the lemmatizer's output.
- `dep`: the governor's index, 0 for the root.
- `rel`: the relation label.
- `children`: the governor's list of dependents, appended in order.

Markup tags that sit between tokens go into `word` only, at fractional keys
`idx + (i+1)/(k+1)`. The queries read these maps:

- the head of a token;
- its children;
- the preorder list of its descendants;
- the path up to the root;
- the least common node of two tokens and the path between them;
- the plain text;
- the rows of the table.

`delete_node` and `prune` remove entries from the maps.

The Dafny project has these modules:

- `Tokens`: the per-terminal field rules, `get_word`, `get_pos_tag` and `get_dependency_data`.
- `Markup`: the fractional tag keys.
- `Ordering`: `sorted()` over keys, and `unicode()` of an integer.
- `PlainText`: `' '.join` and the `replace` passes.
- `DependencyGraph`: specifications of the walks. These are the preorder walk under `children`, the walk up `dep`, and the first common node.
- `IndexBuilder`: the seven maps as a value `Graph`, and `Build`, the fold that `populate_indices` performs.
- `Pruning`: `delete_node` and `prune` on a `Graph`.
- `Sentence`: the class `PySentence`. Its seven map fields are updated in place by methods whose contracts tie the new state to the functions above.

The class invariant `Valid()` says the maps agree on which tokens exist.
The constructor establishes it and `DeleteNode`, `Prune` and `PruneDetached` keep it.

## Model

| member | source | states |
|---|---|---|
| Tokens.GetWord | stanford_interface.py:76-85 | the word is the value unchanged exactly when it is neither `-RRB-` nor `-LRB-`; `-RRB-` becomes `(` and `-LRB-` becomes `)` |
| Tokens.GetPosTag | stanford_interface.py:61-64 | the tag is `Z` without a parent, else the parent's category |
| Tokens.GetDependencyData | stanford_interface.py:66-74 | a punctuation substring or a missing governor gives (0, `punct`); otherwise the governor's index and the reported relation |
| Tokens.SingleCharPunctuation | stanford_interface.py:68 | a one-character word counts as punctuation iff it is one of the 32 characters of `string.punctuation` |
| Tokens.PunctuationWordCharacters | stanford_interface.py:68 | every character of a punctuation word is a punctuation character, and the empty word counts as punctuation |
| Tokens.BracketsAttachToRoot | stanford_interface.py:66-85 | the swapped bracket tokens always attach to the root 0 with `punct`, whatever governor the parser reports |
| Tokens.WordWithLetterKeepsGovernor | stanford_interface.py:66-74 | a word containing a lower-case letter keeps the parser's governor and relation |
| Markup.TagKey | stanford_interface.py:121-124 | the key of the i-th of k tags at idx lies strictly between idx and idx + 1 |
| Markup.TagKeyNotInteger | stanford_interface.py:115-124 | no tag key is an integer, and its floor is the anchor token |
| Markup.TagKeysIncrease | stanford_interface.py:119-124 | the keys of the tags at one anchor increase in list order |
| Markup.TagKeyInjective | stanford_interface.py:115-124 | two equal tag keys have the same anchor, and the same position when they come from the same count |
| Markup.ThreeTagsAfterTokenTwo | stanford_interface.py:121-124 | three tags after token 2 land at 2.25, 2.5 and 2.75 |
| Ordering.SortedReals | stanford_interface.py:232 | `sorted(keys)`: strictly ascending, the same length, and exactly the keys |
| Ordering.IntToString | stanford_interface.py:234-239 | `unicode(i)` is non-empty, has no `.`, starts with `-` iff i < 0, and its digits (after the `-`, if any) denote the absolute value of i |
| Ordering.NatToStringRoundTrip | stanford_interface.py:234-239 | reading back the decimal digits of n gives n |
| PlainText.RemoveSpaceBeforeOnlySpaces | stanford_interface.py:174-175 | one `replace(' ' + c, c)` pass removes only spaces and never lengthens the text |
| PlainText.RemoveSpaceBeforeNoSpace | stanford_interface.py:174-175 | a pass over a text without spaces changes nothing |
| PlainText.JoinIsSpaced | stanford_interface.py:172 | `' '.join(ws)` is the first word, then a space before each later word |
| PlainText.RemoveSpaceBeforeSpaced | stanford_interface.py:174-175 | on space-free words, a pass for c drops exactly the spaces before the words that start with c |
| PlainText.PlainTextSpacing | stanford_interface.py:169-176 | joining space-free words and running the passes equals the reference rendering: one space between words, except before a word that starts with one of `,.:;!?` |
| PlainText.HelloExample | stanford_interface.py:169-176 | the client's word list renders as `Hello, my name is Melroy` |
| DependencyGraph.Descendants | stanford_interface.py:143-154 | the descendant list is non-empty and starts with the start index |
| DependencyGraph.DescendantsAt | stanford_interface.py:143-154 | the descendant list is the start, then the preorder walk below it, for any height bound of the walk |
| DependencyGraph.ForestSnoc | stanford_interface.py:146-149 | visiting one more child appends that child and then everything below it |
| DependencyGraph.DescendantsAreReachable | stanford_interface.py:143-154 | an index is a descendant iff it is reachable from the start by following `children` |
| DependencyGraph.DescendantsClosed | stanford_interface.py:143-154 | every listed child of a descendant is itself a descendant |
| DependencyGraph.NoDanglingGovernor | stanford_interface.py:143-167 | when every token is listed under its governor, a token outside the subtree does not have its governor inside it |
| DependencyGraph.DeletablePrefix | stanford_interface.py:156-167 | the n deletions before the first KeyError each meet a present, not yet deleted index, and the (n+1)-th meets a missing or already deleted one |
| DependencyGraph.PresentPrefix | stanford_interface.py:136-141 | the children yielded before the first KeyError are present tokens, and the next one is not |
| DependencyGraph.PathToRoot | stanford_interface.py:210-224 | the walk from idx up `dep` to the first missing or 0 governor; nothing is followed from 0 |
| DependencyGraph.PathToRootUnique | stanford_interface.py:210-224 | an index has at most one such path |
| DependencyGraph.PathToRootDistinct | stanford_interface.py:210-224 | a finished path never visits an index twice |
| DependencyGraph.PathToRootSuffix | stanford_interface.py:210-224 | from a non-root index, 0 never appears on the path, and every tail is the path of its first element |
| DependencyGraph.LeastCommon | stanford_interface.py:190-196 | None iff the paths share nothing; otherwise an element of both paths, with no element of path1 before it in path2 |
| DependencyGraph.LeastCommonAt | stanford_interface.py:190-196 | the first element of path1 that occurs in path2 is the common node |
| DependencyGraph.CommonTail | stanford_interface.py:178-224 | past the common node the two root paths coincide |
| DependencyGraph.LeastCommonSymmetric | stanford_interface.py:178-224 | the common node of (i, j) is the common node of (j, i) |
| DependencyGraph.BeforeCommonNotShared | stanford_interface.py:198-206 | the part of path2 before the common node shares nothing with path1 |
| DependencyGraph.ShortestPathDistinct | stanford_interface.py:198-206 | the returned path has length k1 + 1 + k2 and no repeated index |
| DependencyGraph.RootHasNoCommonNode | stanford_interface.py:178-224 | the root 0 has path [0] and shares no node with the path of a non-root token |
| IndexBuilder.PlaceTags | stanford_interface.py:115-124 | the i-th tag is stored at its tag key; no other key is added, and integral keys and keys of other anchors keep their words |
| IndexBuilder.StepWellFormed | stanford_interface.py:93-113 | one loop iteration keeps the maps agreeing on which tokens exist |
| IndexBuilder.StepChildren | stanford_interface.py:109-110 | an iteration appends the token to its governor's list and leaves every other list alone |
| IndexBuilder.BuildWellFormed | stanford_interface.py:87-113 | after building, the tokens are exactly the kept terminals, the maps agree, and every token is listed under its governor |
| IndexBuilder.AttachedMembers | stanford_interface.py:109-110 | the attached list of p holds exactly the kept terminals whose governor is p |
| IndexBuilder.BuildChildren | stanford_interface.py:109-110 | `children[p]` lists the kept terminals governed by p, in terminal order |
| IndexBuilder.BuildRecords | stanford_interface.py:97-107 | with distinct indices, each kept terminal has its node, word, tag, lemma, relation and governor stored |
| IndexBuilder.BuildTags | stanford_interface.py:89-90 | every tag queued before the text or after a kept token is in `word` at its key |
| IndexBuilder.BuildOnlyTags | stanford_interface.py:112-124 | every non-integer key of `word` is the key of a tag queued at 0 or at a kept token |
| Pruning.WithoutOne | stanford_interface.py:163-167 | deleting one token removes it from each map, and from `children` only when present |
| Pruning.WithoutWellFormed | stanford_interface.py:163-167 | deletions keep the maps agreeing on which tokens exist |
| Pruning.DeletableStep | stanford_interface.py:160-161 | the k-th deletion finds its index iff k is inside the deletable prefix |
| Pruning.DeleteOneMore | stanford_interface.py:160-161 | one more successful deletion extends the deleted set by one index |
| Pruning.PruneMissingToken | stanford_interface.py:156-167 | pruning from an index that is not a token (such as 0) raises at once and changes nothing |
| Pruning.PruneRemovesSubtree | stanford_interface.py:156-167 | a prune that gets through leaves exactly the tokens outside the descendants; no remaining token is governed by a deleted one; every remaining token is still listed under its governor |
| Pruning.PruneLeavesStaleChild | stanford_interface.py:156-167 | after prune(2) on a two-token chain, token 1 still lists 2; get_children(1) fails on it, and prune(1) raises after deleting token 1 |
| Pruning.Remove | stanford_interface.py:156-161 | the list without the pruned index keeps every other entry |
| Pruning.BuildExact | stanford_interface.py:87-113 | with distinct indices, the built children lists list exactly the tokens each index governs |
| Pruning.ExactChildrenPresent | stanford_interface.py:136-141 | with exact lists, get_children yields every listed child without a KeyError |
| Pruning.DetachKeepsFinite | stanford_interface.py:143-154 | taking an index out of its governor's list keeps the walk below any index finite |
| Pruning.PruneDetachedKeepsExact | stanford_interface.py:156-167 | the detaching prune keeps the maps agreeing and the children lists exact |
| Sentence.TokenKeys | stanford_interface.py:172 | `sorted(self.node)` as word keys: strictly ascending, and exactly the integral keys whose floor is a token, so no markup tag |
| Sentence.GetIndex | stanford_interface.py:229-230 | the cell is the key text unchanged iff the text has no `.`, and `-` when it has one |
| Sentence.FirstCommon | stanford_interface.py:190-196 | the nested scan returns the least common node of the two paths |
| Sentence.JoinAt | stanford_interface.py:198-206 | the two appending loops build path1 through c, then path2 before c |
| Sentence.PySentence.constructor | stanford_interface.py:35-55 | the maps are those `Build` gives for the terminals, and the invariant holds |
| Sentence.PySentence.PopulateIndices | stanford_interface.py:87-113 | the maps are the fold of `Step` over the terminals, after the tags before the text |
| Sentence.PySentence.StoreToken | stanford_interface.py:98-110 | one token's entries are stored, and its index is appended to the governor's list |
| Sentence.PySentence.AddXmlTagsToWordIndex | stanford_interface.py:115-124 | `word` gains the queued tags at their keys; nothing else changes |
| Sentence.PySentence.GetHead | stanford_interface.py:126-134 | (None, None) unless idx has a governor other than 0; otherwise that governor's node (if still a token) and the relation of idx |
| Sentence.PySentence.GetChildren | stanford_interface.py:136-141 | the pairs of the listed children up to the first missing index, and success iff none is missing |
| Sentence.PySentence.GetDescendants | stanford_interface.py:143-154 | returns `Descendants`: the start, then the preorder walk |
| Sentence.PySentence.Traverse | stanford_interface.py:146-149 | appends the preorder walk below idx to the accumulator |
| Sentence.PySentence.DeleteNode | stanford_interface.py:163-167 | a missing token raises and changes nothing; otherwise the token leaves all seven maps and the invariant holds |
| Sentence.PySentence.Prune | stanford_interface.py:156-161 | the state and outcome are `PruneResult`: descendants deleted in order up to the first KeyError |
| Sentence.PySentence.PruneDetached | stanford_interface.py:156-161 | the corrected prune: idx leaves its governor's list first, then the subtree is deleted |
| Sentence.PySentence.GetPlainText | stanford_interface.py:169-176 | the words of the tokens in index order, joined by spaces, with each punctuation pass applied |
| Sentence.PySentence.Path2Root | stanford_interface.py:210-224 | the returned list is the path to the root of idx |
| Sentence.PySentence.GetLeastCommonNode | stanford_interface.py:178-208 | the common node is the least common node of the root paths; the path is empty without one and `ShortestPath` with one |
| Sentence.PySentence.TableRow | stanford_interface.py:229-240 | six cells: the key's index text, the word, then lemma, tag, relation and governor; a tag key shows `-` and empty cells |
| Sentence.PySentence.TableLines | stanford_interface.py:232-241 | one line per `word` key in ascending order, each the tab-join of its row |
| Sentence.HeadOfBuiltToken | stanford_interface.py:126-134 | in a freshly built view, the head of a token is its governor's node and its relation, or (None, None) at the root |
| Sentence.TokenRow | stanford_interface.py:233-240 | a token's row shows its index, word, lemma, tag, relation and governor |

## Left out

- The parser and the grammatical structure are not part of this model. `gsf.newGrammaticalStructure`, `getNodes`, `headTagNode`, `parent()`, `getGovernor` and `getGrammaticalRelation` are abstracted as a sequence of terminal records. Each record holds the node handle, the index, the value, the head-tag flag, the parent category, the governor and the relation.
- The lemmatizer (`get_lemma`, lines 57-59) is a function parameter, because the Java `Morphology` call cannot be seen.
- `print_tree` and `get_parse` wrap `TreePrint`, which cannot be seen.
- The `StanfordParser` class, the Pyro server and client, and the Jython check are RPC, I/O and foreign calls.
- `print_table` writes to stdout. The model computes the lines and does not print them.
- Sentence.PySentence.TableRow: tag keys are exact rationals, not Python floats, so their text is not modelled. A non-integer key always shows `-`. Python would show a float that prints without a `.` (such as `1e-05`, the first of 99999 tags before the text) as it is.
- Markup.TagKey: the key is the exact rational idx + (i+1)/(k+1). Python's float rounding of that quotient is not modelled.
- Sentence.PySentence.GetDescendants: Python recurses forever on a cycle of `children` and stops at its recursion limit. The model requires the walk to be finite (`Finite`), and does not model the recursion limit.
- Sentence.PySentence.Path2Root: Python loops forever on a cycle of `dep`. The model requires a path to the root to exist (`Rooted`).
- Sentence.PySentence.DeleteNode requires the class invariant. Without it, Python's `del a, b, ...` could delete from some maps before a KeyError in a later one. The invariant rules that out.
- `get_head` (line 130) and `get_children` (line 140) take a parser node and call `node.index()`. `GetHead` and `GetChildren` take the integer index directly.
- The process-global `descendants` list is a local accumulator passed through `Traverse`. Only the returned list is visible to a single-threaded caller.
- `get_children` is a generator. The model returns the pairs it would yield before the first KeyError, and a flag for whether it got through.
- The loop bodies of `populate_indices` and of `get_least_common_node` are split into the methods `StoreToken`, `FirstCommon` and `JoinAt`. They run in the same order as the source's statements.

## Findings

| source | as written | input that shows it | evidently intended | confidence | as-written member | corrected member |
|---|---|---|---|---|---|---|
| stanford_interface.py:156-161 | `prune(idx)` deletes the subtree's entries but leaves `idx` in its governor's `children` list | two tokens: 1 under the root, 2 under 1; call `prune(2)`, then `get_children(1)` or `prune(1)` | the pruned token also disappears from its governor's list, as the docstring's "remove all the words" asks: every index a children list holds stays a token, so later queries never meet a deleted index | not executed | Pruning.PruneLeavesStaleChild | Pruning.PruneDetachedKeepsExact |

With the code as written, `get_children(1)` raises a KeyError on the stale index 2. `prune(1)` deletes token 1 and then raises a KeyError on 2. `Sentence.PySentence.Prune` models that behaviour. `Sentence.PySentence.PruneDetached` first takes idx out of its governor's list. `Pruning.PruneDetachedKeepsExact` proves that this keeps every children list exact, and `Pruning.ExactChildrenPresent` shows that `get_children` then never fails.
