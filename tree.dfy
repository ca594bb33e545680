/** MEDRank's Tree of MeSH terms: a dictionary from term name to node, the
    sorted list of term names, and two lookup tables built on first use (the
    term/synonym -> index table and the position -> term table). */
module MeshTree {
  import opened MeshTypes
  import opened TextOrder
  import opened SemanticDistances

  // ---------------------------------------------------------------------
  // The term index, as a function of the tree and the sorted term list.

  /** The index table after `each_synonym` has run over `syns` with index `v`. */
  function WithSynonyms(table: map<string, int>, syns: seq<string>, v: int): (r: map<string, int>)
    ensures forall key :: key in r <==> key in table || key in syns
    ensures forall key | key in r :: r[key] == (if key in syns then v else table[key])
    decreases |syns|
  {
    if syns == [] then table
    else
      var init := syns[..|syns| - 1];
      assert forall x :: x in syns <==> x in init || x == syns[|syns| - 1];
      WithSynonyms(table, init, v)[syns[|syns| - 1] := v]
  }

  /** What the index build leaves behind: the table, and the term whose
      lookup raised TermNotInTree if the build stopped early. */
  datatype IndexBuild = IndexBuild(table: map<string, int>, failed: Option<string>)

  /** The index build of `index()` run over the sorted terms `ts`: term i gets
      index i, then each synonym of the node `self[ts[i]]` gets index i. The
      node is found through the case-folding lookup, and when that lookup
      fails the build stops with the term already entered. */
  function BuildIndex(tree: map<string, Node>, ts: seq<string>): IndexBuild
    decreases |ts|
  {
    if ts == [] then IndexBuild(map[], None)
    else
      var previous := BuildIndex(tree, ts[..|ts| - 1]);
      if previous.failed.Some? then previous
      else
        var i := |ts| - 1;
        var table := previous.table[ts[i] := i];
        if Lower(ts[i]) !in tree then IndexBuild(table, Some(ts[i]))
        else IndexBuild(WithSynonyms(table, tree[Lower(ts[i])].synonyms, i), None)
  }

  /** Every index in the table is a valid index into the term list. */
  lemma {:induction false} BuildIndexInRange(tree: map<string, Node>, ts: seq<string>)
    ensures forall key | key in BuildIndex(tree, ts).table ::
      0 <= BuildIndex(tree, ts).table[key] < |ts|
    decreases |ts|
  {
    if ts != [] {
      BuildIndexInRange(tree, ts[..|ts| - 1]);
    }
  }

  /** Once the build has stopped at a term, later terms change nothing. */
  lemma {:induction false} BuildIndexStops(tree: map<string, Node>, ts: seq<string>, k: nat)
    requires k <= |ts|
    requires BuildIndex(tree, ts[..k]).failed.Some?
    ensures BuildIndex(tree, ts) == BuildIndex(tree, ts[..k])
    decreases |ts|
  {
    if k < |ts| {
      var init := ts[..|ts| - 1];
      assert init[..k] == ts[..k];
      BuildIndexStops(tree, init, k);
    } else {
      assert ts[..k] == ts;
    }
  }

  /** The build stops exactly at the first term whose lower-cased name is
      not a key of the tree. */
  lemma {:induction false} BuildIndexFailure(tree: map<string, Node>, ts: seq<string>)
    ensures BuildIndex(tree, ts).failed.None? <==> forall i | 0 <= i < |ts| :: Lower(ts[i]) in tree
    ensures BuildIndex(tree, ts).failed.Some? ==>
      exists i | 0 <= i < |ts| ::
        BuildIndex(tree, ts).failed.value == ts[i] && Lower(ts[i]) !in tree &&
        forall j | 0 <= j < i :: Lower(ts[j]) in tree
    decreases |ts|
  {
    if ts != [] {
      var init := ts[..|ts| - 1];
      BuildIndexFailure(tree, init);
      assert forall i | 0 <= i < |init| :: init[i] == ts[i];
    }
  }

  /** A completed build gives an index to every term and to every synonym. */
  lemma {:induction false} BuildIndexCovers(tree: map<string, Node>, ts: seq<string>)
    requires BuildIndex(tree, ts).failed.None?
    ensures forall i | 0 <= i < |ts| :: ts[i] in BuildIndex(tree, ts).table
    ensures forall i, s | 0 <= i < |ts| && Lower(ts[i]) in tree && s in tree[Lower(ts[i])].synonyms ::
      s in BuildIndex(tree, ts).table
    decreases |ts|
  {
    if ts != [] {
      var n := |ts| - 1;
      var init := ts[..n];
      BuildIndexCovers(tree, init);
      var previous := BuildIndex(tree, init).table;
      var table := BuildIndex(tree, ts).table;
      assert table == WithSynonyms(previous[ts[n] := n], tree[Lower(ts[n])].synonyms, n);
      assert forall key | key in previous :: key in table;
      forall i | 0 <= i < |ts| ensures ts[i] in table {
        if i < n {
          assert init[i] == ts[i];
        }
      }
      forall i, s | 0 <= i < |ts| && Lower(ts[i]) in tree && s in tree[Lower(ts[i])].synonyms
        ensures s in table
      {
        if i < n {
          assert init[i] == ts[i];
        }
      }
    }
  }

  /** No synonym of one term is the name of another term. */
  ghost predicate NoSynonymCollision(tree: map<string, Node>, ts: seq<string>)
  {
    forall i, j | 0 <= i < |ts| && 0 <= j < |ts| && i != j && Lower(ts[j]) in tree ::
      ts[i] !in tree[Lower(ts[j])].synonyms
  }

  /** Terms receive consecutive indices in sorted order: when the build
      completes and no synonym collides with another term's name, term i
      has index i. */
  lemma {:induction false} BuildIndexNumbersTerms(tree: map<string, Node>, ts: seq<string>)
    requires StrictlySorted(ts)
    requires BuildIndex(tree, ts).failed.None?
    requires NoSynonymCollision(tree, ts)
    ensures forall i | 0 <= i < |ts| ::
      ts[i] in BuildIndex(tree, ts).table && BuildIndex(tree, ts).table[ts[i]] == i
    decreases |ts|
  {
    if ts != [] {
      var n := |ts| - 1;
      var init := ts[..n];
      assert forall i | 0 <= i < n :: init[i] == ts[i];
      assert StrictlySorted(init);
      assert NoSynonymCollision(tree, init);
      BuildIndexNumbersTerms(tree, init);
      forall i | 0 <= i < n ensures ts[i] != ts[n] {
        StrLessIrreflexive(ts[i]);
      }
    }
  }

  /** The loops of `index()` that fill `_term_list_as_dict`: a running index
      over the sorted terms, each term and then each synonym of `self[term]`
      entered with it, stopping at the first term `self[...]` cannot find. */
  method IndexTerms(tree: map<string, Node>, terms: seq<string>) returns (build: IndexBuild)
    ensures build == BuildIndex(tree, terms)
    ensures forall key | key in build.table :: 0 <= build.table[key] < |terms|
  {
    BuildIndexInRange(tree, terms);
    var table: map<string, int> := map[];
    var currIndex := 0;
    while currIndex < |terms|
      invariant 0 <= currIndex <= |terms|
      invariant BuildIndex(tree, terms[..currIndex]) == IndexBuild(table, None)
    {
      var each := terms[currIndex];
      assert terms[..currIndex + 1][..currIndex] == terms[..currIndex];
      table := table[each := currIndex];
      if Lower(each) !in tree {
        BuildIndexStops(tree, terms, currIndex + 1);
        return IndexBuild(table, Some(each));
      }
      var synonyms := tree[Lower(each)].synonyms;
      ghost var entered := table;
      for j := 0 to |synonyms|
        invariant table == WithSynonyms(entered, synonyms[..j], currIndex)
      {
        assert synonyms[..j + 1][..j] == synonyms[..j];
        table := table[synonyms[j] := currIndex];
      }
      assert synonyms[..|synonyms|] == synonyms;
      currIndex := currIndex + 1;
    }
    assert terms[..currIndex] == terms;
    return IndexBuild(table, None);
  }

  /** `index()` after the table exists: the index, or TermNotInTree. */
  function Lookup(table: map<string, int>, term: string): Result<int>
  {
    if term in table then Ok(table[term]) else Err(TermNotInTree(term))
  }

  // ---------------------------------------------------------------------
  // The term vector, as a function of the index table.

  /** A vector of `n` zeros: a fresh VocabularyVector. */
  function Zeros(n: nat): (v: seq<int>)
    ensures |v| == n && forall i | 0 <= i < n :: v[i] == 0
  {
    seq(n, _ => 0)
  }

  /** Every index of `table` is a valid position in a vector of length n. */
  ghost predicate IndicesBelow(table: map<string, int>, n: int)
  {
    forall key | key in table :: 0 <= table[key] < n
  }

  /** The vector after term_vector's loop has handled `list`: the entry at
      the index of each term found in the table is set to 1. */
  function MarkAll(v: seq<int>, table: map<string, int>, list: seq<string>): (r: seq<int>)
    requires IndicesBelow(table, |v|)
    ensures |r| == |v|
    decreases |list|
  {
    if list == [] then v
    else
      var marked := MarkAll(v, table, list[..|list| - 1]);
      var t := list[|list| - 1];
      if t in table then marked[table[t] := 1] else marked
  }

  /** Entry i is 1 exactly when some term of the list has index i, and the
      entries no term points at keep their value. */
  lemma {:induction false} MarkAllEntries(v: seq<int>, table: map<string, int>, list: seq<string>, i: int)
    requires IndicesBelow(table, |v|) && 0 <= i < |v|
    ensures MarkAll(v, table, list)[i] ==
      if exists k | 0 <= k < |list| :: list[k] in table && table[list[k]] == i then 1 else v[i]
    decreases |list|
  {
    if list != [] {
      var init := list[..|list| - 1];
      MarkAllEntries(v, table, init, i);
      assert forall k | 0 <= k < |init| :: init[k] == list[k];
    }
  }

  /** The list term_vector effectively marks: all of it, or all but its first
      term when that term's index call is the one whose build failed. */
  function Marked(list: seq<string>, skipFirst: bool): seq<string>
  {
    if skipFirst && list != [] then list[1..] else list
  }

  /** One more iteration of term_vector's loop: the first term is skipped
      when asked to, every other term is marked if the table has it. */
  lemma MarkedExtend(v: seq<int>, table: map<string, int>, list: seq<string>, k: nat, skipFirst: bool)
    requires IndicesBelow(table, |v|) && k < |list|
    ensures MarkAll(v, table, Marked(list[..k + 1], skipFirst)) ==
      if k == 0 && skipFirst then v
      else if list[k] in table then MarkAll(v, table, Marked(list[..k], skipFirst))[table[list[k]] := 1]
      else MarkAll(v, table, Marked(list[..k], skipFirst))
  {
    if k == 0 && skipFirst {
      assert Marked(list[..1], skipFirst) == [];
    } else {
      var before := Marked(list[..k], skipFirst);
      assert Marked(list[..k + 1], skipFirst) == before + [list[k]];
      assert (before + [list[k]])[..|before|] == before;
    }
  }

  // ---------------------------------------------------------------------
  // The reverse lookup table.

  /** `inv` maps every position of every term in `done` to a term of `done`
      that has that position (whichever wrote it last). */
  ghost predicate InverseOf(tree: map<string, Node>, inv: map<string, string>, done: set<string>)
  {
    && (forall p | p in inv :: inv[p] in done && inv[p] in tree && p in tree[inv[p]].positions)
    && (forall k, p | k in done && k in tree && p in tree[k].positions :: p in inv)
  }

  // ---------------------------------------------------------------------
  // The filters, as functions of a lookup.

  /** Which flag a filter tests. */
  datatype Flag = Qualifier | Descriptor

  function HasFlag(n: Node, f: Flag): bool
  {
    match f
    case Qualifier => n.isQualifier
    case Descriptor => n.isDescriptor
  }

  /** `s` lists elements of `list` in their order. */
  ghost predicate Subsequence(s: seq<string>, list: seq<string>)
    decreases |list|
  {
    if s == [] then true
    else if list == [] then false
    else if s[0] == list[0] then Subsequence(s[1..], list[1..])
    else Subsequence(s, list[1..])
  }

  /** A subsequence stays one when an element is put in front of the list. */
  lemma {:induction false} SubsequenceSkip(s: seq<string>, list: seq<string>, x: string)
    requires Subsequence(s, list)
    ensures Subsequence(s, [x] + list)
    decreases |s| + |list| + 1
  {
    assert ([x] + list)[1..] == list;
    if s != [] && s[0] == x {
      SubsequenceDropHead(s, list);
    }
  }

  /** Dropping the first element of a subsequence leaves a subsequence. */
  lemma {:induction false} SubsequenceDropHead(s: seq<string>, list: seq<string>)
    requires s != [] && Subsequence(s, list)
    ensures Subsequence(s[1..], list)
    decreases |s| + |list|
  {
    assert [list[0]] + list[1..] == list;
    if s[0] == list[0] {
      SubsequenceSkip(s[1..], list[1..], list[0]);
    } else {
      SubsequenceDropHead(s, list[1..]);
      SubsequenceSkip(s[1..], list[1..], list[0]);
    }
  }

  class Tree {
    /** The term name -> node dictionary (the disk-backed store, in memory). */
    const tree: map<string, Node>
    /** The sorted term names. */
    const terms: seq<string>
    const numTerms: nat
    /** The position -> term table, None until the first reverse lookup. */
    var invLookup: Option<map<string, string>>
    /** The term/synonym -> index table, None until the first index call. */
    var termIndex: Option<map<string, int>>

    ghost predicate Valid()
      reads this
    {
      && numTerms == |terms|
      && StrictlySorted(terms)
      && (forall t :: t in terms <==> t in tree)
      && (invLookup.Some? ==> InverseOf(tree, invLookup.value, tree.Keys))
      && (termIndex.Some? ==> termIndex.value == BuildIndex(tree, terms).table)
    }

    /** __init__: the term list is the sorted list of the dictionary's keys,
        and neither lookup table exists yet. */
    constructor (data: map<string, Node>)
      ensures tree == data
      ensures StrictlySorted(terms) && (forall t :: t in terms <==> t in data)
      ensures numTerms == |terms| == |data.Keys|
      ensures invLookup == None && termIndex == None
      ensures Valid()
    {
      var sorted := SortedKeys(data);
      tree := data;
      terms := sorted;
      numTerms := |sorted|;
      invLookup := None;
      termIndex := None;
    }

    /** __getitem__: the node stored under the lower-cased key. */
    function GetItem(key: string): Result<Node>
    {
      if Lower(key) in tree then Ok(tree[Lower(key)]) else Err(TermNotInTree(key))
    }

    /** `self._tree[key]`: the raw dictionary lookup. */
    function RawGet(key: string): Result<Node>
    {
      if key in tree then Ok(tree[key]) else Err(KeyError(key))
    }

    /** `self[key]` ignores case: a key and its lower-cased form find the
        same node, and a stored lower-case key is found as itself. */
    lemma GetItemIgnoresCase(key: string)
      ensures GetItem(Lower(key)).Ok? == GetItem(key).Ok?
      ensures GetItem(key).Ok? ==> GetItem(Lower(key)).value == GetItem(key).value
      ensures key in tree && Lower(key) == key ==> GetItem(key) == Ok(tree[key])
    {
      LowerIdempotent(key);
    }

    /** semantic_distance: looks both terms up in the dictionary, returns -1
        for qualifiers and descriptors, and otherwise the smallest number of
        edges between a position of term1 and a position of term2 in the tree
        joined under the root "#" (Unreachable when either has none). */
    method SemanticDistance(term1: string, term2: string) returns (r: Result<int>)
      ensures term1 !in tree ==> r == Err(KeyError(term1))
      ensures term1 in tree && term2 !in tree ==> r == Err(KeyError(term2))
      ensures term1 in tree && term2 in tree ==> r == Ok(NodeDistance(tree[term1], tree[term2]))
      ensures r.Ok? ==> r.value == -1 || 0 <= r.value <= Unreachable
    {
      if term1 !in tree {
        return Err(KeyError(term1));
      }
      if term2 !in tree {
        return Err(KeyError(term2));
      }
      var node1 := tree[term1];
      var node2 := tree[term2];
      NodeDistanceRange(node1, node2);
      if node1.isQualifier || node2.isQualifier {
        return Ok(-1);
      }
      if node1.isDescriptor || node2.isDescriptor {
        return Ok(-1);
      }
      var distance := ClosestPositions(node1.positions, node2.positions);
      return Ok(distance);
    }

    /** distance: -1 when no subtree of term1 is a subtree of term2,
        otherwise semantic_distance. */
    method Distance(term1: string, term2: string) returns (r: Result<int>)
      ensures term1 !in tree ==> r == Err(KeyError(term1))
      ensures term1 in tree && term2 !in tree ==> r == Err(KeyError(term2))
      ensures term1 in tree && term2 in tree ==> r == Ok(DistanceOf(tree[term1], tree[term2]))
    {
      if term1 !in tree {
        return Err(KeyError(term1));
      }
      if term2 !in tree {
        return Err(KeyError(term2));
      }
      var trees1 := tree[term1].trees;
      var trees2 := tree[term2].trees;
      if !exists x :: x in trees1 && x in trees2 {
        return Ok(-1);
      }
      r := SemanticDistance(term1, term2);
    }

    /** `(deepest_depth(x), x) < (deepest_depth(y), y)`, Python's tuple order. */
    predicate RankBelow(x: string, y: string)
      requires x in tree && y in tree
    {
      tree[x].depth < tree[y].depth || (tree[x].depth == tree[y].depth && StrLess(x, y))
    }

    lemma RankBelowTransitive(x: string, y: string, z: string)
      requires x in tree && y in tree && z in tree
      requires RankBelow(x, y) && RankBelow(y, z)
      ensures RankBelow(x, z)
    {
      if tree[x].depth == tree[y].depth == tree[z].depth {
        StrLessTransitive(x, y, z);
      }
    }

    /** deepest_of_list: the term of greatest deepest depth (ties go to the
        larger name); KeyError for the first term not in the dictionary,
        and the ValueError of max() for an empty list. */
    function DeepestOfList(list: seq<string>): (r: Result<string>)
      ensures r.Ok? <==> list != [] && forall x | x in list :: x in tree
      ensures r.Ok? ==> r.value in list
      ensures r.Ok? ==> forall x | x in list :: x == r.value || RankBelow(x, r.value)
      ensures list == [] ==> r == Err(EmptyList)
      ensures list != [] && r.Err? ==>
        exists i | 0 <= i < |list| ::
          r.error == KeyError(list[i]) && list[i] !in tree && forall j | 0 <= j < i :: list[j] in tree
      decreases |list|
    {
      if list == [] then Err(EmptyList)
      else if list[0] !in tree then Err(KeyError(list[0]))
      else if |list| == 1 then Ok(list[0])
      else
        var rest := DeepestOfList(list[1..]);
        assert forall x :: x in list <==> x == list[0] || x in list[1..];
        if rest.Err? then
          assert forall i | 0 <= i < |list| - 1 :: list[1..][i] == list[i + 1];
          rest
        else
          var m := rest.value;
          if RankBelow(list[0], m) then Ok(m)
          else
            DeepestStep(list[1..], m, list[0]);
            Ok(list[0])
    }

    /** A candidate not below the running maximum beats everything it beat. */
    lemma DeepestStep(rest: seq<string>, m: string, x0: string)
      requires m in rest && x0 in tree && (forall x | x in rest :: x in tree)
      requires forall x | x in rest :: x == m || RankBelow(x, m)
      requires !RankBelow(x0, m)
      ensures forall x | x in rest :: x == x0 || RankBelow(x, x0)
    {
      StrLessTotal(x0, m);
      assert m == x0 || RankBelow(m, x0);
      forall x | x in rest ensures x == x0 || RankBelow(x, x0) {
        if x != m && m != x0 {
          RankBelowTransitive(x, m, x0);
        }
      }
    }

    /** The lookup a filter uses: `self[x]` when folded, `self._tree[x]` otherwise. */
    function Fetch(key: string, folded: bool): Result<Node>
    {
      if folded then GetItem(key) else RawGet(key)
    }

    /** The list comprehension `[x for x in list if flag(node(x)) == keep]`:
        the first failed lookup raises. */
    function Filter(list: seq<string>, folded: bool, f: Flag, keep: bool): (r: Result<seq<string>>)
      ensures r.Ok? <==> forall x | x in list :: Fetch(x, folded).Ok?
      ensures r.Ok? ==> |r.value| <= |list| && Subsequence(r.value, list)
      ensures r.Ok? ==> forall x :: x in r.value <==>
        x in list && HasFlag(Fetch(x, folded).value, f) == keep
      ensures r.Ok? ==> forall x | x in list ::
        multiset(r.value)[x] == (if HasFlag(Fetch(x, folded).value, f) == keep then multiset(list)[x] else 0)
      ensures r.Err? ==> exists i | 0 <= i < |list| ::
        Fetch(list[i], folded).Err? && r == Err(Fetch(list[i], folded).error) &&
        forall j | 0 <= j < i :: Fetch(list[j], folded).Ok?
      decreases |list|
    {
      if list == [] then Ok([])
      else
        var head := Fetch(list[0], folded);
        if head.Err? then Err(head.error)
        else
          var rest := Filter(list[1..], folded, f, keep);
          assert forall x :: x in list <==> x == list[0] || x in list[1..];
          assert forall i | 0 <= i < |list| - 1 :: list[1..][i] == list[i + 1];
          assert [list[0]] + list[1..] == list;
          assert multiset(list) == multiset{list[0]} + multiset(list[1..]);
          if rest.Err? then rest
          else if HasFlag(head.value, f) == keep then
            assert ([list[0]] + rest.value)[1..] == rest.value;
            assert multiset([list[0]] + rest.value) == multiset{list[0]} + multiset(rest.value);
            Ok([list[0]] + rest.value)
          else
            SubsequenceSkip(rest.value, list[1..], list[0]);
            Ok(rest.value)
    }

    /** eliminate_qualifiers: drops qualifiers, looking terms up through `self[x]`. */
    function EliminateQualifiers(list: seq<string>): Result<seq<string>>
    {
      Filter(list, true, Qualifier, false)
    }

    /** only_qualifiers: keeps qualifiers, looking terms up in the dictionary. */
    function OnlyQualifiers(list: seq<string>): Result<seq<string>>
    {
      Filter(list, false, Qualifier, true)
    }

    /** only_descriptors: keeps descriptors, looking terms up in the dictionary. */
    function OnlyDescriptors(list: seq<string>): Result<seq<string>>
    {
      Filter(list, false, Descriptor, true)
    }

    /** For stored lower-case terms, only_qualifiers and eliminate_qualifiers
        split the list between them: together they keep every term once. */
    lemma {:induction false} QualifierFiltersPartition(list: seq<string>)
      requires forall x | x in list :: x in tree && Lower(x) == x
      ensures OnlyQualifiers(list).Ok? && EliminateQualifiers(list).Ok?
      ensures |OnlyQualifiers(list).value| + |EliminateQualifiers(list).value| == |list|
      decreases |list|
    {
      if list != [] {
        assert forall x | x in list[1..] :: x in list;
        QualifierFiltersPartition(list[1..]);
        assert list[0] in list;
      }
    }

    /** Filtering a filtered list again keeps all of it: every filter is
        idempotent. */
    lemma {:induction false} FilterIdempotent(list: seq<string>, folded: bool, f: Flag, keep: bool)
      requires Filter(list, folded, f, keep).Ok?
      ensures Filter(Filter(list, folded, f, keep).value, folded, f, keep) == Filter(list, folded, f, keep)
      decreases |list|
    {
      if list != [] {
        assert forall x | x in list[1..] :: x in list;
        FilterIdempotent(list[1..], folded, f, keep);
        var rest := Filter(list[1..], folded, f, keep).value;
        if HasFlag(Fetch(list[0], folded).value, f) == keep {
          var r := [list[0]] + rest;
          assert r[0] == list[0] && r[1..] == rest;
        }
      }
    }

    /** _init_inverse_lookup: every position of every term is entered with
        that term, the terms being visited in the dictionary's (unspecified)
        order, so a position shared by several terms keeps the last one. */
    method InitInverseLookup()
      modifies this`invLookup
      ensures invLookup.Some? && InverseOf(tree, invLookup.value, tree.Keys)
    {
      var inv: map<string, string> := map[];
      var rest := tree.Keys;
      while rest != {}
        invariant rest <= tree.Keys
        invariant InverseOf(tree, inv, tree.Keys - rest)
        decreases rest
      {
        ghost var done := tree.Keys - rest;
        var k :| k in rest;
        var ps := tree[k].positions;
        for j := 0 to |ps|
          invariant forall p | p in inv :: inv[p] in done + {k} && inv[p] in tree && p in tree[inv[p]].positions
          invariant forall k', p | k' in done && k' in tree && p in tree[k'].positions :: p in inv
          invariant forall i | 0 <= i < j :: ps[i] in inv
        {
          inv := inv[ps[j] := k];
        }
        rest := rest - {k};
        assert tree.Keys - rest == done + {k};
      }
      invLookup := Some(inv);
    }

    /** reverse_lookup: builds the position table if it does not exist yet,
        then returns a term that has the position, or PositionNotInTree when
        no term has it. */
    method ReverseLookup(position: string) returns (r: Result<string>)
      requires Valid()
      modifies this`invLookup
      ensures Valid() && invLookup.Some?
      ensures old(invLookup).Some? ==> invLookup == old(invLookup)
      ensures r == if position in invLookup.value then Ok(invLookup.value[position])
                   else Err(PositionNotInTree(position))
      ensures r.Ok? ==> r.value in tree && position in tree[r.value].positions
      ensures r.Err? <==> forall k | k in tree :: position !in tree[k].positions
    {
      if invLookup.None? {
        InitInverseLookup();
      }
      var inv := invLookup.value;
      if position in inv {
        r := Ok(inv[position]);
      } else {
        r := Err(PositionNotInTree(position));
      }
    }

    /** index: builds the term/synonym -> index table on the first call only;
        a build stopped by a term missing from `self[...]` raises
        TermNotInTree for that term and leaves the partial table in place.
        Afterwards, the index of the term or TermNotInTree. */
    method Index(term: string) returns (r: Result<int>)
      requires Valid()
      modifies this`termIndex
      ensures Valid()
      ensures termIndex == Some(BuildIndex(tree, terms).table)
      ensures old(termIndex).Some? ==> termIndex == old(termIndex)
      ensures r == if old(termIndex).None? && BuildIndex(tree, terms).failed.Some?
                   then Err(TermNotInTree(BuildIndex(tree, terms).failed.value))
                   else Lookup(BuildIndex(tree, terms).table, term)
      ensures r.Ok? ==> 0 <= r.value < numTerms
    {
      BuildIndexInRange(tree, terms);
      if termIndex.None? {
        var build := IndexTerms(tree, terms);
        termIndex := Some(build.table);
        if build.failed.Some? {
          return Err(TermNotInTree(build.failed.value));
        }
      }
      r := Lookup(termIndex.value, term);
    }

    /** term_vector: a fresh vector of numTerms zeros with a 1 at the index of
        every listed term that index() finds; terms it cannot find (including
        the one whose first index call stops the build) are skipped. */
    method TermVector(list: seq<string>) returns (v: array<int>)
      requires Valid()
      modifies this`termIndex
      ensures Valid() && fresh(v) && v.Length == numTerms
      ensures list == [] ==> termIndex == old(termIndex)
      ensures list != [] ==> termIndex == Some(BuildIndex(tree, terms).table)
      ensures IndicesBelow(BuildIndex(tree, terms).table, numTerms)
      ensures v[..] == MarkAll(Zeros(numTerms), BuildIndex(tree, terms).table,
        Marked(list, old(termIndex).None? && BuildIndex(tree, terms).failed.Some?))
    {
      ghost var build := BuildIndex(tree, terms);
      ghost var skipFirst := termIndex.None? && build.failed.Some?;
      BuildIndexInRange(tree, terms);
      v := new int[numTerms](_ => 0);
      assert v[..] == Zeros(numTerms);
      var k := 0;
      while k < |list|
        invariant 0 <= k <= |list|
        invariant Valid() && v.Length == numTerms
        invariant k == 0 ==> termIndex == old(termIndex)
        invariant k > 0 ==> termIndex == Some(build.table)
        invariant v[..] == MarkAll(Zeros(numTerms), build.table, Marked(list[..k], skipFirst))
      {
        var found := Index(list[k]);
        MarkedExtend(Zeros(numTerms), build.table, list, k, skipFirst);
        if found.Ok? {
          v[found.value] := 1;
        }
        k := k + 1;
      }
      assert list[..k] == list;
    }
  }
}
