/** Tree.semantic_distance and Tree.distance on the data they read: the
    tree positions, subtree sets and flags of two nodes. Every position is
    hung under an artificial common root "#", so any two positions are
    connected and their distance is the number of edges between them. */
module SemanticDistances {
  import opened DottedPaths
  import opened MeshTypes

  /** The distance semantic_distance starts from, and returns when either
      term has no position at all. */
  const Unreachable: int := 999999999999

  /** A position hung under the artificial root: `'#.%s' % pos`. */
  function Rooted(pos: string): string
  {
    "#." + pos
  }

  /** dist_1 + dist_2 for one pair of positions, computed from dot counts
      exactly as the inner loop of semantic_distance does. */
  function PairDistance(pos1: string, pos2: string): int
  {
    var a := Rooted(pos1);
    var b := Rooted(pos2);
    var rootDots := CountDots(CommonRootOf(a, b));
    (CountDots(a) - rootDots) + (CountDots(b) - rootDots)
  }

  /** A rooted position splits into "#" followed by the position's own components. */
  lemma SplitRooted(pos: string)
    ensures Split(Rooted(pos)) == ["#"] + Split(pos)
  {
    assert Rooted(pos) == "#" + "." + pos;
    SplitAfterPiece("#", pos);
  }

  /** The dot counts semantic_distance reads: a rooted position has one dot
      per component of the position, and the common root of two rooted
      positions has one dot per shared component. */
  lemma RootedDots(pos1: string, pos2: string)
    ensures CountDots(Rooted(pos1)) == |Split(pos1)|
    ensures CountDots(Rooted(pos2)) == |Split(pos2)|
    ensures CountDots(CommonRootOf(Rooted(pos1), Rooted(pos2))) ==
      |CommonPrefix(Split(pos1), Split(pos2))|
  {
    var a, b := Rooted(pos1), Rooted(pos2);
    SplitRooted(pos1);
    SplitRooted(pos2);
    CommonPrefixCons("#", Split(pos1), Split(pos2));
    var c := CommonPrefix(Split(a), Split(b));
    assert c == ["#"] + CommonPrefix(Split(pos1), Split(pos2));
    CommonPrefixIsLongest(Split(a), Split(b));
    assert DotFree(c) by {
      forall j | 0 <= j < |c| ensures '.' !in c[j] {
        assert c[j] == Split(a)[j];
      }
    }
    JoinDots(c);
    SplitCountsDots(a);
    SplitCountsDots(b);
  }

  /** The dot-count arithmetic is the length of the path from one position
      up to the deepest shared ancestor and down to the other. */
  lemma PairDistanceIsPathLength(pos1: string, pos2: string)
    ensures PairDistance(pos1, pos2) ==
      |Split(pos1)| + |Split(pos2)| - 2 * |CommonPrefix(Split(pos1), Split(pos2))|
  {
    RootedDots(pos1, pos2);
  }

  /** The `ValueError` of semantic_distance is never raised: neither leg of
      the path (dist_1, dist_2) is negative, so neither is their sum. */
  lemma PairDistanceNonNegative(pos1: string, pos2: string)
    ensures CountDots(Rooted(pos1)) - CountDots(CommonRootOf(Rooted(pos1), Rooted(pos2))) >= 0
    ensures CountDots(Rooted(pos2)) - CountDots(CommonRootOf(Rooted(pos1), Rooted(pos2))) >= 0
    ensures PairDistance(pos1, pos2) >= 0
  {
    RootedDots(pos1, pos2);
    CommonPrefixIsLongest(Split(pos1), Split(pos2));
  }

  lemma PairDistanceSymmetric(pos1: string, pos2: string)
    ensures PairDistance(pos1, pos2) == PairDistance(pos2, pos1)
  {
    PairDistanceIsPathLength(pos1, pos2);
    PairDistanceIsPathLength(pos2, pos1);
    CommonPrefixSymmetric(Split(pos1), Split(pos2));
  }

  /** Two positions are at distance 0 exactly when they are the same position. */
  lemma PairDistanceZero(pos1: string, pos2: string)
    ensures PairDistance(pos1, pos2) == 0 <==> pos1 == pos2
  {
    PairDistanceIsPathLength(pos1, pos2);
    var s1, s2 := Split(pos1), Split(pos2);
    CommonPrefixIsLongest(s1, s2);
    if pos1 == pos2 {
      CommonPrefixSelf(s1);
    } else if PairDistance(pos1, pos2) == 0 {
      var c := CommonPrefix(s1, s2);
      assert |c| == |s1| == |s2|;
      assert s1 == c == s2;
      SplitInjective(pos1, pos2);
    }
  }

  function Min(x: int, y: int): int
  {
    if y < x then y else x
  }

  /** The running minimum after the inner loop has seen `ps2` against `pos1`. */
  function RowMin(pos1: string, ps2: seq<string>): int
    decreases |ps2|
  {
    if ps2 == [] then Unreachable
    else Min(RowMin(pos1, ps2[..|ps2| - 1]), PairDistance(pos1, ps2[|ps2| - 1]))
  }

  /** The value of the `distance` variable after the outer loop has seen `ps1`. */
  function MinDistance(ps1: seq<string>, ps2: seq<string>): int
    decreases |ps1|
  {
    if ps1 == [] then Unreachable
    else Min(MinDistance(ps1[..|ps1| - 1], ps2), RowMin(ps1[|ps1| - 1], ps2))
  }

  /** The smallest pair distance over all pairs, or Unreachable when it is smaller. */
  ghost predicate IsMinDistance(d: int, ps1: seq<string>, ps2: seq<string>)
  {
    && d <= Unreachable
    && (forall i, j | 0 <= i < |ps1| && 0 <= j < |ps2| :: d <= PairDistance(ps1[i], ps2[j]))
    && (d == Unreachable ||
        exists i, j | 0 <= i < |ps1| && 0 <= j < |ps2| :: d == PairDistance(ps1[i], ps2[j]))
  }

  /** The inner loop's running minimum is the minimum of its row. */
  lemma {:induction false} RowMinIsMin(pos1: string, ps2: seq<string>)
    ensures RowMin(pos1, ps2) <= Unreachable
    ensures forall j | 0 <= j < |ps2| :: RowMin(pos1, ps2) <= PairDistance(pos1, ps2[j])
    ensures RowMin(pos1, ps2) == Unreachable ||
      exists j | 0 <= j < |ps2| :: RowMin(pos1, ps2) == PairDistance(pos1, ps2[j])
    decreases |ps2|
  {
    if ps2 != [] {
      var init := ps2[..|ps2| - 1];
      RowMinIsMin(pos1, init);
      assert forall j | 0 <= j < |init| :: init[j] == ps2[j];
    }
  }

  /** The outer loop's running minimum is the minimum over all pairs, and it
      stays Unreachable when either list of positions is empty. */
  lemma {:induction false} MinDistanceIsMin(ps1: seq<string>, ps2: seq<string>)
    ensures IsMinDistance(MinDistance(ps1, ps2), ps1, ps2)
    ensures ps1 == [] || ps2 == [] ==> MinDistance(ps1, ps2) == Unreachable
    decreases |ps1|
  {
    if ps1 != [] {
      var init := ps1[..|ps1| - 1];
      MinDistanceIsMin(init, ps2);
      RowMinIsMin(ps1[|ps1| - 1], ps2);
      MinDistanceStep(ps1, ps2, MinDistance(init, ps2), RowMin(ps1[|ps1| - 1], ps2));
    }
  }

  /** One more outer iteration: the earlier minimum combined with the new row's. */
  lemma MinDistanceStep(ps1: seq<string>, ps2: seq<string>, earlier: int, row: int)
    requires ps1 != []
    requires IsMinDistance(earlier, ps1[..|ps1| - 1], ps2)
    requires row <= Unreachable
    requires forall j | 0 <= j < |ps2| :: row <= PairDistance(ps1[|ps1| - 1], ps2[j])
    requires row == Unreachable || exists j | 0 <= j < |ps2| :: row == PairDistance(ps1[|ps1| - 1], ps2[j])
    ensures IsMinDistance(Min(earlier, row), ps1, ps2)
    ensures ps2 == [] ==> Min(earlier, row) == Unreachable
  {
    var init := ps1[..|ps1| - 1];
    var last := |ps1| - 1;
    var d := Min(earlier, row);
    forall i, j | 0 <= i < |ps1| && 0 <= j < |ps2| ensures d <= PairDistance(ps1[i], ps2[j]) {
      if i < last {
        assert ps1[i] == init[i];
      }
    }
    if d != Unreachable {
      if d == earlier {
        var i, j :| 0 <= i < |init| && 0 <= j < |ps2| && earlier == PairDistance(init[i], ps2[j]);
        assert ps1[i] == init[i];
      } else {
        var j :| 0 <= j < |ps2| && row == PairDistance(ps1[last], ps2[j]);
      }
    }
  }

  /** One more step of the inner loop. */
  lemma RowMinExtend(pos1: string, ps2: seq<string>, j: nat)
    requires j < |ps2|
    ensures RowMin(pos1, ps2[..j + 1]) == Min(RowMin(pos1, ps2[..j]), PairDistance(pos1, ps2[j]))
  {
    assert ps2[..j + 1][..j] == ps2[..j];
  }

  /** One more step of the outer loop. */
  lemma MinDistanceExtend(ps1: seq<string>, ps2: seq<string>, i: nat)
    requires i < |ps1|
    ensures MinDistance(ps1[..i + 1], ps2) == Min(MinDistance(ps1[..i], ps2), RowMin(ps1[i], ps2))
  {
    assert ps1[..i + 1][..i] == ps1[..i];
  }

  /** The minimum is determined by the property it has. */
  lemma MinDistanceUnique(d: int, e: int, ps1: seq<string>, ps2: seq<string>)
    requires IsMinDistance(d, ps1, ps2) && IsMinDistance(e, ps1, ps2)
    ensures d == e
  {
  }

  lemma MinDistanceSymmetric(ps1: seq<string>, ps2: seq<string>)
    ensures MinDistance(ps1, ps2) == MinDistance(ps2, ps1)
  {
    var d := MinDistance(ps2, ps1);
    MinDistanceIsMin(ps1, ps2);
    MinDistanceIsMin(ps2, ps1);
    forall i, j | 0 <= i < |ps1| && 0 <= j < |ps2|
      ensures PairDistance(ps1[i], ps2[j]) == PairDistance(ps2[j], ps1[i])
    {
      PairDistanceSymmetric(ps1[i], ps2[j]);
    }
    assert IsMinDistance(d, ps1, ps2);
    MinDistanceUnique(d, MinDistance(ps1, ps2), ps1, ps2);
  }

  /** The nested loop of semantic_distance: the running minimum of
      dist_1 + dist_2 over every pair of positions, starting from Unreachable. */
  method ClosestPositions(ps1: seq<string>, ps2: seq<string>) returns (distance: int)
    ensures distance == MinDistance(ps1, ps2)
    ensures IsMinDistance(distance, ps1, ps2)
  {
    distance := Unreachable;
    var i := 0;
    assert ps1[..0] == [];
    while i < |ps1|
      invariant 0 <= i <= |ps1|
      invariant distance == MinDistance(ps1[..i], ps2)
    {
      var pos1 := Rooted(ps1[i]);
      ghost var before := distance;
      var j := 0;
      assert ps2[..0] == [];
      MinDistanceIsMin(ps1[..i], ps2);
      while j < |ps2|
        invariant 0 <= j <= |ps2|
        invariant distance == Min(before, RowMin(ps1[i], ps2[..j]))
      {
        var pos2 := Rooted(ps2[j]);
        var root := CommonRoot(pos1, pos2);
        var rootDots := CountDots(root);
        var dist1 := CountDots(pos1) - rootDots;
        var dist2 := CountDots(pos2) - rootDots;
        var dist := dist1 + dist2;
        assert dist == PairDistance(ps1[i], ps2[j]);
        PairDistanceNonNegative(ps1[i], ps2[j]);
        if dist < 0 {
          // the ValueError branch of the source cannot be taken
          assert false;
        }
        if dist < distance {
          distance := dist;
        }
        RowMinExtend(ps1[i], ps2, j);
        j := j + 1;
      }
      assert ps2[..j] == ps2;
      MinDistanceExtend(ps1, ps2, i);
      i := i + 1;
    }
    assert ps1[..i] == ps1;
    MinDistanceIsMin(ps1, ps2);
  }

  /** semantic_distance on two looked-up nodes: -1 for qualifiers and
      descriptors, otherwise the smallest distance over all position pairs. */
  function NodeDistance(n1: Node, n2: Node): int
  {
    if n1.isQualifier || n2.isQualifier then -1
    else if n1.isDescriptor || n2.isDescriptor then -1
    else MinDistance(n1.positions, n2.positions)
  }

  /** The result is -1, a path length, or the Unreachable sentinel when a
      node has no position. */
  lemma NodeDistanceRange(n1: Node, n2: Node)
    ensures var d := NodeDistance(n1, n2);
      d == -1 || 0 <= d <= Unreachable
    ensures NodeDistance(n1, n2) == -1 <==>
      n1.isQualifier || n2.isQualifier || n1.isDescriptor || n2.isDescriptor
    ensures (!(n1.isQualifier || n2.isQualifier || n1.isDescriptor || n2.isDescriptor) &&
             (n1.positions == [] || n2.positions == [])) ==> NodeDistance(n1, n2) == Unreachable
  {
    var ps1, ps2 := n1.positions, n2.positions;
    MinDistanceIsMin(ps1, ps2);
    if ps1 != [] && ps2 != [] {
      var d := MinDistance(ps1, ps2);
      if d != Unreachable {
        var i, j :| 0 <= i < |ps1| && 0 <= j < |ps2| && d == PairDistance(ps1[i], ps2[j]);
        PairDistanceNonNegative(ps1[i], ps2[j]);
      }
    }
  }

  lemma NodeDistanceSymmetric(n1: Node, n2: Node)
    ensures NodeDistance(n1, n2) == NodeDistance(n2, n1)
  {
    MinDistanceSymmetric(n1.positions, n2.positions);
  }

  /** A node with a position, neither qualifier nor descriptor, is at
      distance 0 from itself. */
  lemma NodeDistanceSelf(n: Node)
    requires !n.isQualifier && !n.isDescriptor && n.positions != []
    ensures NodeDistance(n, n) == 0
  {
    var ps := n.positions;
    var d := MinDistance(ps, ps);
    MinDistanceIsMin(ps, ps);
    PairDistanceZero(ps[0], ps[0]);
    assert d <= 0;
    if d != Unreachable {
      var i, j :| 0 <= i < |ps| && 0 <= j < |ps| && d == PairDistance(ps[i], ps[j]);
      PairDistanceNonNegative(ps[i], ps[j]);
    }
  }

  /** Tree.distance on two looked-up nodes: -1 unless some subtree of the
      first node is a subtree of the second, otherwise semantic_distance. */
  function DistanceOf(n1: Node, n2: Node): int
  {
    if !exists t :: t in n1.trees && t in n2.trees then -1 else NodeDistance(n1, n2)
  }

  lemma DistanceSymmetric(n1: Node, n2: Node)
    ensures DistanceOf(n1, n2) == DistanceOf(n2, n1)
  {
    NodeDistanceSymmetric(n1, n2);
  }

  /** Nodes that share no subtree are at distance -1, whatever their positions. */
  lemma DistanceNeedsSharedTree(n1: Node, n2: Node)
    ensures DistanceOf(n1, n2) != -1 ==>
      (exists t :: t in n1.trees && t in n2.trees) &&
      !n1.isQualifier && !n2.isQualifier && !n1.isDescriptor && !n2.isDescriptor
  {
  }
}
