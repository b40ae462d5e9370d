# nk_ape: class-hierarchy score propagation, in Dafny

This project models the core of `nk_ape`, a library that labels a list of
words with ontology classes. Each class of a hierarchy (the DBpedia
ontology, loaded from a JSON file that maps every class name to its
`children` and `parents`) gets a raw similarity score. The scores are
propagated bottom-up, from the leaves to the roots: a class's aggregated
score is `tree_agg_func` of its own score followed by its children's
aggregated scores. The client ranks the classes by aggregated score and
returns the top `n`, or a one-line description naming the best class.

Three modules, one per source file:

- `Utils` (`utils.dfy`, from `nk_ape/utils.py`):
  - `normalize_text`: the replacement loop, then splitting on spaces;
  - `in_vocab`, `get_dropped`, `path_to_name`;
  - the Python string operations they rest on: `str.split`, `str.join`,
    `str.replace`, `os.path.basename`.
- `ClassTree` (`class_tree.dfy`, from `nk_ape/class_tree.py`):
  - `normalize_class_tree`, `get_leaves`, `apply_agg_func`,
    `has_relations`, `get_tree_file_name`;
  - `tree_score`, with its helpers `all_children_aggd` and `process_layer`.

  `tree_score` is written twice:
  - `TreeScore` and `ProcessLayer` are imperative methods that follow the
    source's loops, node by node;
  - `Propagate` is a function that processes one whole layer at a time.

  The method is proved equal to the function. The lemmas about
  `Propagate` state what the propagation computes and when it fails. They
  also state that it succeeds when every class has a raw score, the
  aggregation never yields zero, and the hierarchy is:
  - non-empty;
  - closed (every listed name is a class);
  - acyclic;
  - linked back (every child lists its parent).
- `ApeClient` (`ape.dfy`, from `nk_ape/ape.py`):
  - `aggregate_tree_scores`;
  - the ranking of `get_top_classes` (descending `argsort`, then the slice
    `[:n_classes]`);
  - `predict`;
  - the `argmax` of `get_description`.

Modelling choices:

- Scores are integers. A score is "aggregated" in the source's sense (a
  truthy `agg_score.get(child)`) when the class has an entry and it is
  non-zero.
- `tree_agg_func` and `inflection.underscore` are function parameters, and
  so are `inflection.pluralize` and the embedding's vocabulary test.
- `tree_score` raises in three ways, modelled as the `Error` values:
  - `EmptyLayer`: the `assert(layer)` fails;
  - `MissingScore`: `score_map[node]` raises a `KeyError`;
  - `UnknownClass`: `tree[n]` raises a `KeyError` for a parent that is not
    a class.

How `tree_score` behaves at its edges, as the code does it:

- A stalled traversal shows only as the failed `assert(layer)`
  (`nk_ape/class_tree.py:79`). The set of waiting classes is not reported.
- The same assert fails when the candidate layer itself is empty, e.g.
  when a child does not list its parent back (`PropagateUnlinkedChild`).
- A zero child aggregate counts as missing (`all(...)` at
  `nk_ape/class_tree.py:76`), so its parent never becomes ready
  (`PropagateOneChild`).

## Model

| member | source | states |
|---|---|---|
| Utils.Split | nk_ape/utils.py:24-25 | `s.split(sep)` yields at least one piece, and no piece contains the separator |
| Utils.SplitAvoids | nk_ape/utils.py:24-25 | a character absent from the string is absent from every piece of its split |
| Utils.SplitThenJoin | nk_ape/utils.py:24-25 | joining the pieces of a split with the same separator gives back the original string |
| Utils.JoinThenSplit | nk_ape/utils.py:42-45 | splitting a join of separator-free words gives back exactly those words |
| Utils.Join | nk_ape/utils.py:24-25 | `sep.join(parts)` starts with the first part, followed by the separator when there is a second part |
| Utils.Replace | nk_ape/utils.py:22-23 | every character of the result comes from the input or the replacement; a one-character pattern that does not occur in its replacement is gone from the result |
| Utils.ReplaceCharConcat | nk_ape/utils.py:22-23 | with a one-character pattern, replacing the concatenation of two strings is the concatenation of their replacements |
| Utils.ReplaceCharSingle | nk_ape/utils.py:22-23 | a one-character string becomes the replacement when it is the pattern, and stays as it is otherwise |
| Utils.ReplaceBySelf | nk_ape/utils.py:22-23 | replacing a non-empty pattern by itself leaves the string unchanged |
| Utils.ReplaceEach | nk_ape/utils.py:22-23 | every character left after the replacement loop comes from the input or from one of the replacement values |
| Utils.ReplaceEachRemovesKeys | nk_ape/utils.py:22-23 | after applying single-character replacements in order, none of the key characters remains, provided no value contains a key character |
| Utils.DefaultReplacementsStrip | nk_ape/utils.py:19-23 | after the default replacement map, none of `_ - ( ) . , ! ?` remains |
| Utils.NormalizeText | nk_ape/utils.py:16-27 | with `to_list` the result is the split of the replaced `underscore(text)`, and joining it with spaces gives that string back; without `to_list` the replaced string itself is returned; with the default map no returned word or string contains `_ - ( ) . , ! ?` |
| Utils.InVocab | nk_ape/utils.py:42-45 | a word list, or a string split on spaces, is in the vocabulary if and only if the set of its words is contained in the vocabulary |
| Utils.InVocabJoined | nk_ape/utils.py:42-45 | a space-joined string of space-free words is in the vocabulary if and only if every word is |
| Utils.InVocabEmpty | nk_ape/utils.py:42-45 | the empty list is always in the vocabulary; the empty string is one empty word, so it is in the vocabulary if and only if `""` is |
| Utils.InVocabTwoWords | nk_ape/utils.py:42-45 | `"a b"` is in the vocabulary if and only if both `a` and `b` are |
| Utils.GetDropped | nk_ape/utils.py:48-49 | an element is dropped if and only if it is in the old collection and not in the new one |
| Utils.Basename | nk_ape/utils.py:57 | the basename is the longest slash-free suffix of the path: a suffix, with no `/`, that is the whole path or follows a `/` |
| Utils.PathToName | nk_ape/utils.py:56-57 | the name is a prefix of the basename and contains neither `/` nor `.` |
| Utils.BasenameOf | nk_ape/utils.py:57 | the basename of `dir + file` is `file` when `dir` is empty or ends in `/` and `file` has no `/` |
| Utils.PathToNameOf | nk_ape/utils.py:56-57 | `path_to_name` of `dir + name + ext` is `name` when `name` has no `/` or `.` and `ext` is empty or starts with `.` |
| Utils.PathToNameExample | nk_ape/utils.py:56-57 | `path_to_name("a/b/x.tar.gz") == "x"` |
| ClassTree.Retain | nk_ape/class_tree.py:50-51 | a name is kept if and only if it is in the list and in the kept set; the result is no longer than the list |
| ClassTree.RetainAppend | nk_ape/class_tree.py:50-51 | filtering distributes over concatenation, so relative order is preserved |
| ClassTree.RetainAll | nk_ape/class_tree.py:50-51 | a list whose names are all kept is left unchanged |
| ClassTree.RetainDistinct | nk_ape/class_tree.py:50-51 | filtering a list without duplicates gives a list without duplicates |
| ClassTree.NormalizeClassTree | nk_ape/class_tree.py:41-53 | the loop over the surviving classes, rewriting each one's lists in turn, ends with the normalised hierarchy `Normalized(tree, inVocab)` |
| ClassTree.Normalized | nk_ape/class_tree.py:41-53 | the surviving classes are exactly the original ones that pass the vocabulary test, and each one's lists are the original lists with the dropped names removed, in order |
| ClassTree.NormalizedClosed | nk_ape/class_tree.py:45-51 | after normalisation every name a class lists is itself a class |
| ClassTree.NormalizedFrom | nk_ape/class_tree.py:45-51 | a map over the surviving classes holding each one's filtered lists is the normalised hierarchy |
| ClassTree.NormalizedIdempotent | nk_ape/class_tree.py:41-53 | normalising an already normalised hierarchy changes nothing |
| ClassTree.NormalizedLinkedBack | nk_ape/class_tree.py:49-51 | if every child lists its parent back before normalisation, it still does after |
| ClassTree.GetLeaves | nk_ape/class_tree.py:64-65 | the leaves are exactly the classes with an empty `children` list, with their relations unchanged |
| ClassTree.ChildScores | nk_ape/class_tree.py:108 | one aggregated score per child, in the stored order of the children |
| ClassTree.AllChildrenAggd | nk_ape/class_tree.py:75-76 | a class without children counts as ready, as `all([])` is true |
| ClassTree.AllChildrenAggdCons | nk_ape/class_tree.py:75-76 | `all` over the children, one at a time: the first child is truthily aggregated and so are all the others |
| ClassTree.ChildAggregates | nk_ape/class_tree.py:108-110 | the `all(child_agg_scores)` test succeeds if and only if every child has a truthy aggregate, and it then yields the children's aggregates in order |
| ClassTree.ChildAggregatesFrame | nk_ape/class_tree.py:108-110 | the children's aggregates depend only on the children's own entries |
| ClassTree.ChildScoresFrame | nk_ape/class_tree.py:108 | the children's scores read from two maps that agree on the children are equal |
| ClassTree.ApplyAggFunc | nk_ape/class_tree.py:103-114 | once all children are truthily aggregated, a class's aggregate is `agg([own] + children's aggregates)` (for a leaf, `agg([own])`); otherwise it is `agg([own])` alone |
| ClassTree.ApplyAggFuncNonZero | nk_ape/class_tree.py:103-114 | with an `agg` that never returns zero, every aggregate is truthy |
| ClassTree.ApplyAggFuncFrame | nk_ape/class_tree.py:80-81 | a class's aggregate depends only on its children's entries, so aggregates written earlier in the same layer do not change it |
| ClassTree.Processed | nk_ape/class_tree.py:78-83 | processing a layer fails on an empty layer and on a class with no raw score, in that order; otherwise it adds exactly the layer's classes, each with its `apply_agg_func` value, and leaves the other entries as they were |
| ClassTree.ParentsOf | nk_ape/class_tree.py:92 | a name is a candidate if and only if some class of the layer lists it as a parent |
| ClassTree.NextLayer | nk_ape/class_tree.py:92-96 | the next layer holds exactly the unprocessed classes that are parents of the previous layer and whose children are all truthily aggregated; it fails, always with `UnknownClass`, exactly when some unprocessed parent is not a class |
| ClassTree.RestShrinks | nk_ape/class_tree.py:90-98 | processing a non-empty layer of new classes strictly shrinks the unprocessed rest, so the loop terminates |
| ClassTree.Climb | nk_ape/class_tree.py:90-98 | once written, an aggregate is never changed, and a normal exit of the loop covers exactly the classes |
| ClassTree.ClimbUnfold | nk_ape/class_tree.py:90-98 | one successful round of the loop hands the rest of the computation on to the new layer |
| ClassTree.ProcessLayer | nk_ape/class_tree.py:78-83 | the node-by-node loop, run over the set in any order, produces exactly `Processed` of the layer; on success every node of the layer is marked processed |
| ClassTree.ProcessedIs | nk_ape/class_tree.py:78-83 | a map that agrees with the layer's aggregates, and keeps the old entries elsewhere, is the result of `Processed` |
| ClassTree.TreeScore | nk_ape/class_tree.py:68-100 | the imperative `tree_score` returns exactly `Propagate`; on success its keys are the classes and every aggregate is `agg` of the class's own score followed by its children's truthy aggregates |
| ClassTree.ProcessedConsistent | nk_ape/class_tree.py:78-83 | processing a layer of ready, unprocessed classes keeps every aggregate consistent with its own score and its children's aggregates |
| ClassTree.ClimbCorrect | nk_ape/class_tree.py:90-100 | when the loop ends normally, every class is aggregated and all aggregates are consistent |
| ClassTree.PropagateCorrect | nk_ape/class_tree.py:68-100 | a successful result has exactly the classes as keys, and every class had a raw score; a leaf gets `agg([own])`; every other class has all children truthy and gets `agg([own] + children's aggregates)` |
| ClassTree.Propagate | nk_ape/class_tree.py:68-100 | a successful propagation had a non-empty leaf layer and covers exactly the classes, which are not empty; each leaf has a raw score and gets `agg([own])` |
| ClassTree.PropagateScored | nk_ape/class_tree.py:104 | a successful propagation read a raw score for every class |
| ClassTree.PropagateWithoutLeaves | nk_ape/class_tree.py:79-87 | a hierarchy without leaves fails the first `assert(layer)` |
| ClassTree.PropagateEmptyTree | nk_ape/class_tree.py:79-87 | an empty hierarchy fails with `EmptyLayer` |
| ClassTree.PropagateTwoCycle | nk_ape/class_tree.py:79-87 | two classes that are each other's parent and child fail with `EmptyLayer` instead of looping |
| ClassTree.PropagateNeedsAllScores | nk_ape/class_tree.py:104 | a class with no raw score makes the propagation fail |
| ClassTree.PropagateUnlinkedChild | nk_ape/class_tree.py:90-98 | a child that does not list its parent back stalls the loop with `EmptyLayer` |
| ClassTree.PropagateOneChild | nk_ape/class_tree.py:68-114 | for a parent with a single child, the result is `{child: agg([c]), parent: agg([p, agg([c])])}` when the child's aggregate is non-zero, and `EmptyLayer` when it is zero |
| ClassTree.OneChildLeafLayer | nk_ape/class_tree.py:86-92 | in that hierarchy the child is the only leaf, and the parent is the only candidate after it |
| ClassTree.OneChildParentLayer | nk_ape/class_tree.py:92-98 | with a truthy child, the parent is the next layer and receives `agg([own, child's aggregate])` |
| ClassTree.FindLeaf | nk_ape/class_tree.py:86 | a closed, acyclic hierarchy with a class has a leaf |
| ClassTree.LeafLayerReady | nk_ape/class_tree.py:86-87 | with a non-empty leaf layer, a score for every class and an `agg` that never returns zero, the leaf layer is processed with truthy aggregates; every unprocessed class whose children are all processed then has a child in that layer |
| ClassTree.ReadyJoinNextLayer | nk_ape/class_tree.py:92-96 | in a closed, linked-back hierarchy, where every aggregate so far is truthy and covers the last layer, and every unprocessed class whose children are all processed has a child in that layer (`WaitsOnLayer`): the next layer can be computed, and every unprocessed class whose children are all aggregated joins it |
| ClassTree.ClimbStep | nk_ape/class_tree.py:90-98 | in an acyclic, closed, linked-back hierarchy that is not yet finished, the next layer is non-empty, processing it succeeds, and the loop's invariants still hold |
| ClassTree.ClimbSucceeds | nk_ape/class_tree.py:90-98 | from any state meeting those invariants, the loop ends normally |
| ClassTree.PropagateSucceeds | nk_ape/class_tree.py:68-100 | `tree_score` succeeds when four things hold: the hierarchy is non-empty, closed, acyclic and linked back; every class is scored; `agg` never returns zero |
| ClassTree.NormalizedPropagates | nk_ape/class_tree.py:41-100 | a linked-back, acyclic hierarchy, once normalised and not empty, propagates successfully under the same conditions on scores and `agg` |
| ClassTree.LoadClassTree | nk_ape/class_tree.py:27-28 | the loaded hierarchy is the normalised file; the class list names each surviving class exactly once, and exactly those classes |
| ClassTree.NormalizedDropped | nk_ape/utils.py:48-49 | the classes dropped at load time are exactly those that fail the vocabulary test |
| ClassTree.HasRelations | nk_ape/class_tree.py:131-133 | true if and only if the class has a child or a parent |
| ClassTree.GetTreeFileName | nk_ape/class_tree.py:136-137 | the name is `class-tree_`, then the ontology name, then `_pruned` when pruning, then `.json`, with the length adding up |
| ClassTree.GetTreeFileNameInjective | nk_ape/class_tree.py:136-137 | for a fixed `prune`, different ontologies get different file names |
| ClassTree.TreeFileNameRoundTrip | nk_ape/class_tree.py:136-137 | for an ontology name without `/` or `.`, `path_to_name` of a stored tree file in any directory gives back the file name without `.json` |
| ApeClient.ZipToMap | nk_ape/ape.py:52 | `dict(zip(keys, values))` has a key if and only if it occurs among the first `min(len(keys), len(values))` keys |
| ApeClient.ZipToMapAt | nk_ape/ape.py:52 | with distinct keys, each key maps to the value at its own position |
| ApeClient.ZipToMapCovers | nk_ape/ape.py:52 | with distinct keys, the map holds the last class only if there is a score for every class |
| ApeClient.ZipToMapOfValues | nk_ape/ape.py:52-58 | zipping distinct keys with the values a map gives them rebuilds that map |
| ApeClient.ZipToMapAll | nk_ape/ape.py:52 | with distinct keys, every key within the shorter length maps to the value at its own position |
| ApeClient.AggregateTreeScores | nk_ape/ape.py:50-58 | the function succeeds, or fails with the same error, exactly when `tree_score` does; on success there is one entry per class and entry `i` is the propagated score of `classes[i]` |
| ApeClient.ScoreMapOf | nk_ape/ape.py:52 | a score dictionary is used as it is; a score array aligned with distinct classes maps exactly the classes within its length, each to the score at its own position |
| ApeClient.Classes | nk_ape/ape.py:35-37 | for a valid client, the class list names every class of the hierarchy exactly once |
| ApeClient.ValuesAt | nk_ape/ape.py:58 | one value per key, in the order of the keys, each the map's value for that key |
| ApeClient.ClassesCover | nk_ape/ape.py:58 | every class of the class list has an entry in the propagated map, so reading it back cannot fail |
| ApeClient.AggregateArrayLength | nk_ape/ape.py:52-55 | with a score array, success requires at least one score per class |
| ApeClient.AggregateRoundTrip | nk_ape/ape.py:50-58 | zipping the returned array with the classes again gives exactly the propagated map |
| ApeClient.AggregateArrayScores | nk_ape/ape.py:50-58 | with a score array, entry `i` is `treeAggFunc([a[i]] + the children's returned entries)`, all of those entries truthy |
| ApeClient.Take | nk_ape/ape.py:83 | `xs[:n]` is a prefix of length `min(n, len)` for `n >= 0` and `max(len + n, 0)` for negative `n` |
| ApeClient.Range | nk_ape/ape.py:83 | `[0, ..., n-1]` |
| ApeClient.InsertDesc | nk_ape/ape.py:83 | inserting an index adds one position and keeps every index in range |
| ApeClient.InsertDescMembers | nk_ape/ape.py:83 | insertion adds exactly the new index |
| ApeClient.InsertDescDescending | nk_ape/ape.py:83 | inserting into a descending ordering keeps it descending |
| ApeClient.InsertDescDistinct | nk_ape/ape.py:83 | inserting a new index into an ordering without repeats repeats nothing |
| ApeClient.SortDesc | nk_ape/ape.py:83 | sorting keeps length and range |
| ApeClient.SortDescSpec | nk_ape/ape.py:83 | the sort keeps exactly the same indices, orders them by non-increasing score, and keeps them distinct |
| ApeClient.ArgsortDesc | nk_ape/ape.py:83 | `argsort(scores)[::-1]` is a permutation of all positions by non-increasing score |
| ApeClient.TopIndices | nk_ape/ape.py:83 | the top positions have the slice's length, are distinct and descending, and every position left out scores at most as high as every one kept |
| ApeClient.PrefixDominates | nk_ape/ape.py:83 | a prefix of a descending permutation scores at least as high as each position it leaves out |
| ApeClient.GetTopClasses | nk_ape/ape.py:81-92 | empty input gives `[]`; otherwise the call fails exactly when the aggregation fails |
| ApeClient.Predictions | nk_ape/ape.py:84-90 | one prediction per selected position, pairing the class and the score at the same index |
| ApeClient.PredictionsOrdered | nk_ape/ape.py:84-90 | predictions over descending, distinct positions are ordered by score and name no class twice |
| ApeClient.PredictionsComplete | nk_ape/ape.py:84-90 | each prediction is a class with its own score, and no class left out scores above one that is named |
| ApeClient.PredictionsSpec | nk_ape/ape.py:83-90 | predictions over the top positions are a ranking (`Ranked`) |
| ApeClient.TopClassesSpec | nk_ape/ape.py:81-90 | for non-empty input: exactly `n_classes` predictions when that is at most the number of classes, and all classes when it is larger; each prediction is a class with its own aggregated score; best first; no class twice; no class left out scores above a returned one |
| ApeClient.RankedTop | nk_ape/ape.py:83-90 | predictions over the top positions of distinct classes have the slice's length and form a ranking |
| ApeClient.Predict | nk_ape/ape.py:100-101 | `predict` returns what `get_top_classes` returns for the same arguments |
| ApeClient.Argmax | nk_ape/ape.py:96 | the position holds the largest score, and every earlier position scores strictly less (the first maximum) |
| ApeClient.GetDescription | nk_ape/ape.py:94-98 | the call fails exactly when the aggregation fails; otherwise the sentence names the pluralised class at the first position of the largest aggregated score |

## Left out

- Embedding loading and lookup, cosine similarity and row aggregation
  (`compute_similarity_matrix`, `format_input`, `get_class_scores`,
  `unit_norm_rows`, `mean_of_rows`, `max_of_rows`, `embed_classes`): these
  are floating-point numpy and gensim calls. The raw similarity scores
  enter `GetTopClasses` and `GetDescription` as the parameter `simScores`,
  aligned with the class list.
- Floating point: scores are integers, so NaN and float rounding are not
  modelled; `tree_agg_func` is any function from score lists to scores.
- `load_tree`'s `open`/`json.load`: `LoadClassTree` starts from the parsed
  map. Its parameter `order` stands for the order of the JSON keys, which
  fixes the order of `classes`.
- `generate_class_tree_file`, `to_class_name`, `timeit`, `get_timestamp`,
  `no_op`, logging and configuration: ontology parsing, file I/O and
  clocks.
- `inflection.underscore`, `inflection.pluralize` and the embedding's
  `in_vocab`: function parameters with no modelled behaviour.
- `ClassTree.NormalizeClassTree`: returns a new map. The source overwrites
  the lists inside the dictionaries it was given, which a caller holding
  those dictionaries could observe; that aliasing is not modelled.
- `ClassTree.GetLeaves`: a class always has both a `children` and a
  `parents` list. A listing missing either key (which `rels.get` would
  treat as empty) is not modelled.
- `ApeClient.SortDesc`: numpy's default `argsort` is not a stable sort, so
  its order among equal scores is unspecified. The model fixes one order
  (larger index first). Every property proved holds for any order of ties.
- The iteration order of Python sets inside a layer: a layer is a set.
  `ProcessLayer` picks the next node arbitrarily, and the result is proved
  to be the same for every order.
- `isinstance(tree, EmbeddedClassTree)` unwrapping in `tree_score` and the
  dictionary-or-array test in `aggregate_tree_scores`: the caller passes
  the map (`Tree`) or the `Scores` datatype directly.
- `ApeClient.GetDescription`: the input text is not a parameter, because
  its only use is to produce the similarity scores. A call on an empty
  input, which would fail inside numpy, is not modelled.
- Default arguments: every parameter of the model is explicit. The
  source's defaults are `n_classes=10` (`nk_ape/ape.py:77`, `100`),
  `prune=True` (`nk_ape/class_tree.py:136`), `to_list=True` and the default
  replacement map (`nk_ape/utils.py:18-19`, the map is `DefaultReplacements`),
  and `agg_func=np.max` (`nk_ape/class_tree.py:103`).
- `Utils.Basename`: models POSIX `os.path.basename`, which splits on `/`
  only; the Windows flavour, which also splits on `\`, is not modelled.
