/** Dotted MeSH tree positions such as "C04.557.337": splitting a position
    into its components, joining components back, counting dots, and the
    longest common component prefix of two positions (Tree.common_root). */
module DottedPaths {

  /** Python's `s.split(".")`: the pieces between dots, so a string with n
      dots has n + 1 pieces (possibly empty ones). */
  function Split(s: string): (parts: seq<string>)
    ensures |parts| >= 1
    ensures DotFree(parts)
    decreases |s|
  {
    if s == [] then [""]
    else
      var rest := Split(s[1..]);
      if s[0] == '.' then [""] + rest
      else [[s[0]] + rest[0]] + rest[1..]
  }

  /** Python's `".".join(parts)`. */
  function Join(parts: seq<string>): string
  {
    if parts == [] then ""
    else if |parts| == 1 then parts[0]
    else parts[0] + "." + Join(parts[1..])
  }

  /** Python's `s.count(".")`. */
  function CountDots(s: string): nat
  {
    if s == [] then 0
    else (if s[0] == '.' then 1 else 0) + CountDots(s[1..])
  }

  /** No piece of a split contains a dot. */
  predicate DotFree(parts: seq<string>)
  {
    forall i | 0 <= i < |parts| :: '.' !in parts[i]
  }

  /** Joining the pieces of a split gives back the original string. */
  lemma {:induction false} JoinSplit(s: string)
    ensures Join(Split(s)) == s
    decreases |s|
  {
    if s != [] {
      JoinSplit(s[1..]);
      var rest := Split(s[1..]);
      if s[0] == '.' {
        assert Split(s) == [""] + rest;
        assert ([""] + rest)[1..] == rest;
        assert Join(Split(s)) == "" + "." + Join(rest);
      } else if |rest| == 1 {
        assert Split(s) == [[s[0]] + rest[0]];
        assert [s[0]] + s[1..] == s;
      } else {
        assert Split(s) == [[s[0]] + rest[0]] + rest[1..];
        assert ([[s[0]] + rest[0]] + rest[1..])[1..] == rest[1..];
        assert Join(rest) == rest[0] + "." + Join(rest[1..]);
        assert Join(Split(s)) == [s[0]] + rest[0] + "." + Join(rest[1..]);
        assert [s[0]] + s[1..] == s;
      }
    }
  }

  /** Split is injective: two strings with the same pieces are equal. */
  lemma SplitInjective(s: string, t: string)
    requires Split(s) == Split(t)
    ensures s == t
  {
    JoinSplit(s);
    JoinSplit(t);
  }

  /** A dot-free string splits into itself. */
  lemma {:induction false} SplitDotFree(a: string)
    requires '.' !in a
    ensures Split(a) == [a]
    decreases |a|
  {
    if a != [] {
      assert '.' !in a[1..] by {
        forall c | c in a[1..] ensures c != '.' { assert c in a; }
      }
      SplitDotFree(a[1..]);
      assert [a[0]] + a[1..] == a;
    }
  }

  /** A dot-free first piece followed by a dot splits off as one component. */
  lemma {:induction false} SplitAfterPiece(a: string, b: string)
    requires '.' !in a
    ensures Split(a + "." + b) == [a] + Split(b)
    decreases |a|
  {
    var s := a + "." + b;
    if a == [] {
      assert s == "." + b;
      assert s[1..] == b;
    } else {
      assert s[1..] == a[1..] + "." + b;
      assert '.' !in a[1..] by {
        forall c | c in a[1..] ensures c != '.' { assert c in a; }
      }
      SplitAfterPiece(a[1..], b);
      assert [a[0]] + a[1..] == a;
    }
  }

  /** Splitting a join of dot-free, non-empty-list pieces gives the pieces back. */
  lemma {:induction false} SplitJoin(parts: seq<string>)
    requires parts != [] && DotFree(parts)
    ensures Split(Join(parts)) == parts
    decreases |parts|
  {
    if |parts| == 1 {
      SplitDotFree(parts[0]);
    } else {
      SplitJoin(parts[1..]);
      SplitAfterPiece(parts[0], Join(parts[1..]));
      assert [parts[0]] + parts[1..] == parts;
    }
  }

  /** A string has one more piece than it has dots. */
  lemma {:induction false} SplitCountsDots(s: string)
    ensures |Split(s)| == CountDots(s) + 1
    decreases |s|
  {
    if s != [] {
      SplitCountsDots(s[1..]);
    }
  }

  /** The join of k >= 1 dot-free pieces has k - 1 dots. */
  lemma JoinDots(parts: seq<string>)
    requires parts != [] && DotFree(parts)
    ensures CountDots(Join(parts)) == |parts| - 1
  {
    SplitJoin(parts);
    SplitCountsDots(Join(parts));
  }

  /** The longest common prefix of two component lists, as the loop of
      common_root collects it: pairs are taken while they agree, and the
      shorter list bounds the walk. */
  function CommonPrefix(a: seq<string>, b: seq<string>): seq<string>
  {
    if a == [] || b == [] || a[0] != b[0] then []
    else [a[0]] + CommonPrefix(a[1..], b[1..])
  }

  /** CommonPrefix is a prefix of both lists and cannot be extended: it stops
      at the end of one of them or at the first disagreement. */
  lemma {:induction false} CommonPrefixIsLongest(a: seq<string>, b: seq<string>)
    ensures var c := CommonPrefix(a, b);
      c <= a && c <= b &&
      (|c| == |a| || |c| == |b| || a[|c|] != b[|c|])
    decreases |a|
  {
    if a != [] && b != [] && a[0] == b[0] {
      CommonPrefixIsLongest(a[1..], b[1..]);
      assert [a[0]] + a[1..] == a;
      assert [b[0]] + b[1..] == b;
    }
  }

  /** Any agreeing prefix that stops where the walk stops is the common prefix. */
  lemma {:induction false} CommonPrefixUnique(a: seq<string>, b: seq<string>, i: nat)
    requires i <= |a| && i <= |b| && a[..i] == b[..i]
    requires i == |a| || i == |b| || a[i] != b[i]
    ensures CommonPrefix(a, b) == a[..i]
    decreases i
  {
    if i > 0 {
      assert a[0] == a[..i][0] == b[..i][0] == b[0];
      assert a[1..][..i - 1] == a[..i][1..];
      assert b[1..][..i - 1] == b[..i][1..];
      CommonPrefixUnique(a[1..], b[1..], i - 1);
      assert a[..i] == [a[0]] + a[1..][..i - 1];
    }
  }

  /** The common prefix does not depend on the order of the arguments. */
  lemma {:induction false} CommonPrefixSymmetric(a: seq<string>, b: seq<string>)
    ensures CommonPrefix(a, b) == CommonPrefix(b, a)
    decreases |a|
  {
    if a != [] && b != [] && a[0] == b[0] {
      CommonPrefixSymmetric(a[1..], b[1..]);
    }
  }

  /** A list is its own common prefix. */
  lemma {:induction false} CommonPrefixSelf(a: seq<string>)
    ensures CommonPrefix(a, a) == a
    decreases |a|
  {
    if a != [] {
      CommonPrefixSelf(a[1..]);
      assert [a[0]] + a[1..] == a;
    }
  }

  /** A shared first component stays in front of the common prefix. */
  lemma CommonPrefixCons(x: string, a: seq<string>, b: seq<string>)
    ensures CommonPrefix([x] + a, [x] + b) == [x] + CommonPrefix(a, b)
  {
    assert ([x] + a)[1..] == a;
    assert ([x] + b)[1..] == b;
  }

  /** The value common_root returns, as a function of its two arguments. */
  function CommonRootOf(pos1: string, pos2: string): string
  {
    Join(CommonPrefix(Split(pos1), Split(pos2)))
  }

  /** Tree.common_root: walks the two component lists in step, keeps the
      components while they agree, stops at the first disagreement and joins
      the kept components with dots. */
  method CommonRoot(pos1: string, pos2: string) returns (root: string)
    ensures root == CommonRootOf(pos1, pos2)
    ensures var c := CommonPrefix(Split(pos1), Split(pos2));
      (c != [] ==> Split(root) == c) && (c == [] ==> root == "")
  {
    var split1 := Split(pos1);
    var split2 := Split(pos2);
    var common: seq<string> := [];
    var i := 0;
    while i < |split1| && i < |split2|
      invariant 0 <= i <= |split1| && i <= |split2|
      invariant split1[..i] == split2[..i]
      invariant common == split1[..i]
    {
      if split1[i] != split2[i] {
        break;
      }
      common := common + [split1[i]];
      assert split1[..i + 1] == split1[..i] + [split1[i]];
      assert split2[..i + 1] == split2[..i] + [split2[i]];
      i := i + 1;
    }
    CommonPrefixUnique(split1, split2, i);
    root := Join(common);
    if common != [] {
      assert DotFree(common) by {
        forall j | 0 <= j < |common| ensures '.' !in common[j] {
          assert common[j] == split1[j];
        }
      }
      SplitJoin(common);
    }
  }

  /** common_root is symmetric. */
  lemma CommonRootSymmetric(pos1: string, pos2: string)
    ensures CommonRootOf(pos1, pos2) == CommonRootOf(pos2, pos1)
  {
    CommonPrefixSymmetric(Split(pos1), Split(pos2));
  }

  /** common_root of a position with itself is that position. */
  lemma CommonRootSelf(pos: string)
    ensures CommonRootOf(pos, pos) == pos
  {
    CommonPrefixSelf(Split(pos));
    JoinSplit(pos);
  }
}
