# MeSH tree positions and lookup tables (MEDRank `mesh/tree.py`)

MEDRank ranks MeSH terms. Its `Tree` holds the MeSH vocabulary as a
dictionary from term name to node. Every node has dotted tree positions such
as `C04.557.337`, the subtrees it belongs to, qualifier and descriptor flags,
synonyms and a deepest depth. This project models that class in Dafny:

- `paths.dfy` (module `DottedPaths`): `split(".")`, `".".join`,
  `count(".")` and `Tree.common_root`. `common_root` is a loop over both
  component lists with an early `break`.
- `distance.dfy` (module `SemanticDistances`): the nested loop of
  `semantic_distance`, and the distances it and `distance` compute from two
  nodes. Every position is hung under an artificial root `#`. The distance of
  two positions is then the number of tree edges between them.
- `text.dfy` (module `TextOrder`): Python's string order, the sorted term
  list built in `__init__`, and the case folding of `__getitem__`.
- `tree.dfy` (module `MeshTree`): the class `Tree`. The dictionary and the
  sorted term list are constant fields. The two lazily built tables are
  `Option` fields: the position -> term table (`_invlookup`) and the
  term/synonym -> index table (`_term_list_as_dict`). The methods
  `InitInverseLookup`, `ReverseLookup`, `Index` and `TermVector` fill and
  read them. All of them keep `Valid()`, which says that a built table is
  the one the tree determines.
- `types.dfy` (module `MeshTypes`): the node record, the raised exceptions
  (`KeyError`, `TermNotInTree`, `PositionNotInTree`, and the `ValueError`
  of `max()` on an empty list) and the `Result`/`Option` wrappers.

Behaviour the model keeps from the code:

- `semantic_distance` and `distance` look terms up with the raw dictionary,
  so they raise `KeyError`. `__getitem__` lower-cases the key and raises
  `TermNotInTree`. `index()` builds its table through `__getitem__`.
- If the index build hits a term whose lower-cased name is not a key, it
  raises `TermNotInTree` for that term. The partial table stays cached, and
  later calls use it. `term_vector` catches that first `TermNotInTree` too,
  so it skips the first term of the list in that case (`Marked`).
- The `ValueError` branch of `semantic_distance` is proved unreachable
  (`PairDistanceNonNegative`, and `assert false` in the branch of
  `ClosestPositions`).
- A term without positions that is neither a qualifier nor a descriptor is
  at semantic distance 999999999999 (`Unreachable`) from every other such
  term, not -1. A qualifier or descriptor on either side gives -1, and so
  does `distance` when the two terms share no subtree.

## Model

| member | source | states |
|---|---|---|
| DottedPaths.Split | MEDRank/mesh/tree.py:58-59 | a split has at least one component and no component contains a dot |
| DottedPaths.JoinSplit | MEDRank/mesh/tree.py:58-64 | joining the components of a split gives back the original position |
| DottedPaths.SplitJoin | MEDRank/mesh/tree.py:58-64 | splitting the join of a non-empty list of dot-free components gives the components back |
| DottedPaths.SplitCountsDots | MEDRank/mesh/tree.py:84-86 | a position has one more component than it has dots |
| DottedPaths.CommonPrefixIsLongest | MEDRank/mesh/tree.py:58-63 | the collected components are a prefix of both component lists and stop at the end of one list or at the first disagreement |
| DottedPaths.CommonPrefixUnique | MEDRank/mesh/tree.py:61-63 | any agreeing prefix that stops where the zip loop stops is the common prefix |
| DottedPaths.CommonRoot | MEDRank/mesh/tree.py:55-64 | common_root returns the join of the longest common component prefix; its components are exactly that prefix when it is non-empty, and it is "" otherwise |
| DottedPaths.CommonRootSymmetric | MEDRank/mesh/tree.py:55-64 | common_root(p1, p2) == common_root(p2, p1) |
| DottedPaths.CommonRootSelf | MEDRank/mesh/tree.py:55-64 | common_root(p, p) == p |
| SemanticDistances.SplitRooted | MEDRank/mesh/tree.py:78-82 | a `#.`-prefixed position splits into "#" followed by the position's own components, so the root always has at least one component |
| SemanticDistances.RootedDots | MEDRank/mesh/tree.py:78-86 | a `#.`-prefixed position has one dot per component of the position, and the common root of two such positions has one dot per shared component |
| SemanticDistances.PairDistanceIsPathLength | MEDRank/mesh/tree.py:77-87 | dist_1 + dist_2 computed from dot counts equals the number of edges from one position up to the deepest shared ancestor and down to the other |
| SemanticDistances.PairDistanceNonNegative | MEDRank/mesh/tree.py:85-90 | dist_1 and dist_2 are each never negative, and so neither is their sum, so the ValueError is never raised |
| SemanticDistances.PairDistanceSymmetric | MEDRank/mesh/tree.py:83-87 | the pair distance does not depend on the order of the positions |
| SemanticDistances.PairDistanceZero | MEDRank/mesh/tree.py:83-87 | two positions are at distance 0 if and only if they are equal |
| SemanticDistances.RowMinIsMin | MEDRank/mesh/tree.py:79-91 | after the inner loop the running distance is at most the sentinel and at most every pair distance of that row, and equals one of them or the sentinel |
| SemanticDistances.MinDistanceIsMin | MEDRank/mesh/tree.py:76-92 | after both loops the distance is the minimum over all position pairs, or the sentinel when that is smaller; it is the sentinel when either term has no position |
| SemanticDistances.MinDistanceUnique | MEDRank/mesh/tree.py:76-92 | the minimum over all pairs is determined by its defining property |
| SemanticDistances.MinDistanceSymmetric | MEDRank/mesh/tree.py:76-92 | the minimum over all pairs does not depend on the order of the two position lists |
| SemanticDistances.ClosestPositions | MEDRank/mesh/tree.py:76-92 | the nested update loop returns the minimum pair distance over all pairs of positions (or the sentinel) |
| SemanticDistances.NodeDistanceRange | MEDRank/mesh/tree.py:72-92 | the result is -1 exactly when a node is a qualifier or a descriptor, otherwise between 0 and the sentinel, and the sentinel when a node has no position |
| SemanticDistances.NodeDistanceSymmetric | MEDRank/mesh/tree.py:66-92 | semantic_distance(t1, t2) == semantic_distance(t2, t1) |
| SemanticDistances.NodeDistanceSelf | MEDRank/mesh/tree.py:76-92 | a term with a position that is neither qualifier nor descriptor is at distance 0 from itself |
| SemanticDistances.DistanceSymmetric | MEDRank/mesh/tree.py:93-103 | distance(t1, t2) == distance(t2, t1) |
| SemanticDistances.DistanceNeedsSharedTree | MEDRank/mesh/tree.py:96-101 | a result other than -1 requires a shared subtree and no qualifier or descriptor on either side |
| MeshTree.Tree.SemanticDistance | MEDRank/mesh/tree.py:66-92 | KeyError for an unknown term (term1 first); -1 for qualifiers and descriptors; otherwise the minimum pair distance, always -1 or in [0, sentinel] |
| MeshTree.Tree.Distance | MEDRank/mesh/tree.py:93-103 | KeyError for an unknown term; -1 when no subtree of term1 is among term2's subtrees; otherwise semantic_distance |
| TextOrder.StrLessTransitive | MEDRank/mesh/tree.py:42-43 | Python's string order is transitive |
| TextOrder.StrLessTotal | MEDRank/mesh/tree.py:42-43 | any two distinct strings are ordered one way or the other |
| TextOrder.Insert | MEDRank/mesh/tree.py:42-43 | inserting into a strictly sorted list keeps it strictly sorted and adds exactly the new element |
| TextOrder.SortedKeys | MEDRank/mesh/tree.py:42-43 | the term list is strictly sorted, holds exactly the dictionary's keys, and has as many entries as there are keys |
| MeshTree.Tree.constructor | MEDRank/mesh/tree.py:32-47 | terms is the sorted key list, num_terms its length, and neither lookup table exists yet |
| TextOrder.LowerIdempotent | MEDRank/mesh/tree.py:131 | lower-casing twice is lower-casing once |
| MeshTree.Tree.GetItemIgnoresCase | MEDRank/mesh/tree.py:129-134 | a key and its lower-cased form find the same node or both raise TermNotInTree; a stored lower-case key finds its own node |
| MeshTree.Tree.RankBelowTransitive | MEDRank/mesh/tree.py:105-106 | the (deepest depth, name) tuple order is transitive |
| MeshTree.Tree.DeepestOfList | MEDRank/mesh/tree.py:104-106 | returns the listed term whose (deepest depth, name) pair is greatest, above every other listed term; KeyError for the first unknown term; the ValueError of max() for an empty list |
| MeshTree.Tree.Filter | MEDRank/mesh/tree.py:143-151 | eliminate_qualifiers, only_qualifiers and only_descriptors keep, in order, exactly the listed terms whose flag has the wanted value, every copy of a repeated kept term included, and raise for the first term their lookup cannot find |
| MeshTree.Tree.QualifierFiltersPartition | MEDRank/mesh/tree.py:143-149 | for stored lower-case terms only_qualifiers and eliminate_qualifiers together keep every listed term once |
| MeshTree.Tree.FilterIdempotent | MEDRank/mesh/tree.py:143-151 | running a filter on its own successful result returns that result unchanged |
| MeshTree.Tree.InitInverseLookup | MEDRank/mesh/tree.py:107-116 | the built table maps exactly the positions of stored terms, each to a term that has that position |
| MeshTree.Tree.ReverseLookup | MEDRank/mesh/tree.py:118-127 | builds the table only when none exists; returns a term that has the position, or PositionNotInTree exactly when no term has it |
| MeshTree.WithSynonyms | MEDRank/mesh/tree.py:161-162 | every synonym gets the current index; other entries are unchanged |
| MeshTree.BuildIndexInRange | MEDRank/mesh/tree.py:157-163 | every value in the index table lies in [0, num_terms) |
| MeshTree.BuildIndexStops | MEDRank/mesh/tree.py:159-163 | once a lookup fails, the build ends there and later terms change nothing |
| MeshTree.BuildIndexFailure | MEDRank/mesh/tree.py:159-163 | the build completes exactly when every term's lower-cased name is a key, and otherwise stops at the first term whose lower-cased name is not |
| MeshTree.BuildIndexCovers | MEDRank/mesh/tree.py:159-163 | a completed build indexes every term and every synonym |
| MeshTree.BuildIndexNumbersTerms | MEDRank/mesh/tree.py:157-163 | terms get consecutive indices in sorted order: with no synonym naming another term, index(terms[i]) == i |
| MeshTree.IndexTerms | MEDRank/mesh/tree.py:157-163 | the build loop with its running index produces the index table, and every index it stores is below num_terms |
| MeshTree.Tree.Index | MEDRank/mesh/tree.py:152-168 | builds the table only when none exists; returns the index, below num_terms, or TermNotInTree for a missing key or for the term that stopped a first build |
| MeshTree.MarkAllEntries | MEDRank/mesh/tree.py:169-180 | entry i of the vector is 1 exactly when some marked term has index i; every other entry keeps its value |
| MeshTree.MarkedExtend | MEDRank/mesh/tree.py:173-179 | each loop step sets the found term's entry to 1 and skips a term index() cannot find |
| MeshTree.Tree.TermVector | MEDRank/mesh/tree.py:169-180 | a fresh vector of length num_terms that is 1 exactly at the indices of the listed terms index() finds and 0 elsewhere; terms it cannot find are skipped |

## Left out

- Persistence of the backing `StringDBDict` (file name, file mode, cache
  size, the default data path). The dictionary is an in-memory
  `map<string, Node>` fixed at construction.
- `original_filename` and `__repr__`: they only report the file name and
  the term count.
- Logging calls: side effects only.
- `eliminate_checktags` and `only_checktags`: they read a module-level
  `checktags` that `tree.py` never defines.
- `eliminate_descriptors`: it calls `is_descriptor(x)` with an argument.
  The node class is not part of this model, so that call's meaning is unknown.
- `TreeNode`: only the fields the tree reads are modelled (positions,
  subtrees, the two flags, synonyms, deepest depth). `get_trees()` is taken
  to return a set.
- `VocabularyVector`: modelled as an `array<int>` of length `num_terms`,
  all zeros when created.
- `__getitem__`'s `lower()` folds ASCII letters only: Python 2 `str.lower`
  in the default locale. Unicode case folding is not modelled.
- The ranking algorithms (HITS, PageRank) and
  `computation/tests/test_hits_combined_ranker.py`. Their source is not part
  of this model, and they use floating-point power iteration.
- MeshTree.Tree.InitInverseLookup: the dictionary's iteration order is
  unspecified, so the model picks keys in an arbitrary order. It states only
  that a shared position maps to one of the terms that have it, not which
  one wins.
- MeshTree.Tree.ReverseLookup: for the same reason, it does not say which
  term is returned for a position that several terms share.
- MeshTree.Tree.Index and MeshTree.Tree.TermVector: the in-place filling of
  `_term_list_as_dict` between the first write and the exception cannot be
  observed, so the cache is assigned once, when the build ends or stops.
