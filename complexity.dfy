/** The cyclomatic-complexity estimate of a function or method: 1 plus the
    number of branch statements and clauses in its subtree. */
module Complexity {
  import opened Text
  import opened SyntaxTree

  /** The node types that actually add to the score. */
  const CountedTypes: set<string> := {
    "if_statement", "for_statement", "while_statement", "case_statement", "catch_clause"
  }

  /** The expression types that are listed beside them. */
  const ExpressionTypes: set<string> := {
    "conditional_expression", "binary_expression", "boolean_operator"
  }

  /** `branch_types`: the node types the estimator looks at. */
  const BranchTypes: set<string> := CountedTypes + ExpressionTypes

  /** The two nested tests applied to each node as the walk leaves it: a
      branch type whose name also contains "statement" or "clause". */
  predicate Increments(typ: string) {
    typ in BranchTypes && (Contains(typ, "statement") || Contains(typ, "clause"))
  }

  /** The number of nodes of `t`, `t` included, whose type passes `test`. */
  function Matching(t: Tree, test: string -> bool): nat
    decreases t, 1, 0
  {
    (if test(t.typ) then 1 else 0) + ChildrenMatching(t, |t.children|, test)
  }

  /** `Matching` summed over the first `n` children of `t`. */
  function ChildrenMatching(t: Tree, n: nat, test: string -> bool): nat
    requires n <= |t.children|
    decreases t, 0, n
  {
    if n == 0 then 0 else ChildrenMatching(t, n - 1, test) + Matching(t.children[n - 1], test)
  }

  /** The estimate, defined structurally: the base path plus one per
      node that passes the estimator's test. */
  function Score(t: Tree): nat {
    1 + Matching(t, Increments)
  }

  /** How many of the nodes at paths `ps` of `t` pass `test`. */
  function Tally(t: Tree, ps: seq<Path>, test: string -> bool): nat
    decreases |ps|
  {
    if ps == [] then 0
    else
      var p := ps[|ps| - 1];
      Tally(t, ps[..|ps| - 1], test) + (if ValidPath(t, p) && test(At(t, p).typ) then 1 else 0)
  }

  lemma {:induction false} TallyAppend(t: Tree, xs: seq<Path>, ys: seq<Path>, test: string -> bool)
    ensures Tally(t, xs + ys, test) == Tally(t, xs, test) + Tally(t, ys, test)
    decreases |ys|
  {
    if ys != [] {
      assert (xs + ys)[..|xs + ys| - 1] == xs + ys[..|ys| - 1];
      TallyAppend(t, xs, ys[..|ys| - 1], test);
    } else {
      assert xs + ys == xs;
    }
  }

  lemma TallySnoc(t: Tree, ps: seq<Path>, p: Path, test: string -> bool)
    requires ValidPath(t, p)
    ensures Tally(t, ps + [p], test) == Tally(t, ps, test) + (if test(At(t, p).typ) then 1 else 0)
  {
    assert (ps + [p])[..|ps|] == ps;
  }

  /** Tallying the walk of a subtree gives its structural count. */
  lemma {:induction false} TallyPostOrder(root: Tree, b: Path, test: string -> bool)
    requires ValidPath(root, b)
    ensures Tally(root, PostOrder(At(root, b), b), test) == Matching(At(root, b), test)
    decreases At(root, b), 1, 0
  {
    var a := At(root, b);
    TallyChildrenOrder(root, b, |a.children|, test);
    TallyAppend(root, ChildrenOrder(a, b, |a.children|), [b], test);
    assert Tally(root, [b], test) == (if test(a.typ) then 1 else 0) by {
      assert [b][..0] == [];
    }
  }

  lemma {:induction false} TallyChildrenOrder(root: Tree, b: Path, n: nat, test: string -> bool)
    requires ValidPath(root, b) && n <= |At(root, b).children|
    ensures Tally(root, ChildrenOrder(At(root, b), b, n), test) == ChildrenMatching(At(root, b), n, test)
    decreases At(root, b), 0, n
  {
    if n > 0 {
      var a := At(root, b);
      var c := b + [n - 1];
      ChildPath(root, b, n - 1);
      var child := a.children[n - 1];
      assert At(root, c) == child;
      var left, right := ChildrenOrder(a, b, n - 1), PostOrder(child, c);
      assert ChildrenOrder(a, b, n) == left + right;
      TallyChildrenOrder(root, b, n - 1, test);
      TallyPostOrder(root, c, test);
      TallyAppend(root, left, right, test);
      assert Tally(root, right, test) == Matching(child, test);
      assert ChildrenMatching(a, n, test) == ChildrenMatching(a, n - 1, test) + Matching(child, test);
    }
  }

  /** Tallying the whole walk gives the structural count. */
  lemma TallyWalk(t: Tree, test: string -> bool)
    ensures Tally(t, PostOrder(t, []), test) == Matching(t, test)
  {
    TallyPostOrder(t, [], test);
    assert At(t, []) == t;
  }

  /** `calculate_complexity`: a cursor walk without recursion that tests
      each node when it leaves it. `tested` records the paths tested, in
      order: exactly the post-order of the subtree, which lists each of its
      nodes once and after all of its descendants (`PostOrderEnumerates`). */
  method CalculateComplexity(node: Tree) returns (complexity: nat, ghost tested: seq<Path>)
    ensures complexity == Score(node)
    ensures tested == PostOrder(node, [])
  {
    complexity := 1;
    var cursor := new TreeCursor(node);
    var visitedChildren := false;
    tested := [];
    StartStep(node);
    while true
      invariant cursor.root == node && cursor.Valid()
      invariant tested == Walked(node, cursor.path, visitedChildren)
      invariant complexity == 1 + Tally(node, tested, Increments)
      decreases |PostOrder(node, [])| - |tested|, if visitedChildren then 0 else 1, cursor.Current()
    {
      ghost var p := cursor.path;
      if visitedChildren {
        var typ := cursor.Current().typ;
        if Increments(typ) {
          complexity := complexity + 1;
        }
        TallySnoc(node, tested, p, Increments);
        LeaveBound(node, p);
        tested := tested + [p];
        var moved := cursor.GotoNextSibling();
        if moved {
          NextSiblingStep(node, p);
          visitedChildren := false;
          assert tested == Walked(node, cursor.path, visitedChildren);
        } else {
          moved := cursor.GotoParent();
          if moved {
            ParentStep(node, p);
            visitedChildren := true;
            assert tested == Walked(node, cursor.path, visitedChildren);
          } else {
            RootStep(node);
            TallyWalk(node, Increments);
            assert tested == PostOrder(node, []);
            assert complexity == Score(node);
            break;
          }
        }
      } else {
        FirstChildStep(node, p);
        var moved := cursor.GotoFirstChild();
        if moved {
          visitedChildren := false;
        } else {
          visitedChildren := true;
        }
      }
    }
  }

  lemma {:induction false} TallyNone(t: Tree, ps: seq<Path>, test: string -> bool)
    requires forall i :: 0 <= i < |ps| ==> ValidPath(t, ps[i]) ==> !test(At(t, ps[i]).typ)
    ensures Tally(t, ps, test) == 0
    decreases |ps|
  {
    if ps != [] {
      TallyNone(t, ps[..|ps| - 1], test);
    }
  }

  /** A subtree none of whose nodes has one of the five counted types
      scores exactly the base 1. */
  lemma NoCountedNodeScoresOne(t: Tree)
    requires forall p :: ValidPath(t, p) ==> At(t, p).typ !in CountedTypes
    ensures Matching(t, Increments) == 0 && Score(t) == 1
  {
    var po := PostOrder(t, []);
    PostOrderEnumerates(t);
    forall i | 0 <= i < |po| ensures ValidPath(t, po[i]) ==> !Increments(At(t, po[i]).typ) {
      if ValidPath(t, po[i]) {
        IncrementsExactly(At(t, po[i]).typ);
      }
    }
    TallyNone(t, po, Increments);
    TallyWalk(t, Increments);
  }

  lemma {:induction false} ChildrenMatchingPrefix(typ: string, cs: seq<Tree>, c: Tree, n: nat, test: string -> bool)
    requires n <= |cs|
    ensures ChildrenMatching(Node(typ, cs + [c]), n, test) == ChildrenMatching(Node(typ, cs), n, test)
    decreases n
  {
    if n > 0 {
      ChildrenMatchingPrefix(typ, cs, c, n - 1, test);
      assert (cs + [c])[n - 1] == cs[n - 1];
    }
  }

  /** Appending a child subtree raises the score by exactly the number of
      qualifying nodes in that subtree. */
  lemma AddChildAddsItsBranches(typ: string, cs: seq<Tree>, c: Tree)
    ensures Score(Node(typ, cs + [c])) == Score(Node(typ, cs)) + Matching(c, Increments)
  {
    var t, t' := Node(typ, cs), Node(typ, cs + [c]);
    ChildrenMatchingPrefix(typ, cs, c, |cs|, Increments);
    assert t'.children[|cs|] == c;
    assert ChildrenMatching(t', |cs| + 1, Increments) == ChildrenMatching(t, |cs|, Increments) + Matching(c, Increments);
  }

  /** Replacing child `k` changes the children's sum by the difference
      between the new and the old child. */
  lemma {:induction false} ChildrenMatchingUpdate(t: Tree, k: nat, c: Tree, n: nat, test: string -> bool)
    requires k < |t.children| && n <= |t.children|
    ensures ChildrenMatching(Node(t.typ, t.children[k := c]), n, test) + (if k < n then Matching(t.children[k], test) else 0) ==
      ChildrenMatching(t, n, test) + (if k < n then Matching(c, test) else 0)
    decreases n
  {
    if n > 0 {
      ChildrenMatchingUpdate(t, k, c, n - 1, test);
    }
  }

  /** Adding a subtree below any node adds exactly that subtree's counted
      nodes to the score. */
  lemma {:induction false} GraftAddsItsBranches(t: Tree, p: Path, c: Tree)
    requires ValidPath(t, p)
    ensures Score(Graft(t, p, c)) == Score(t) + Matching(c, Increments)
    decreases |p|
  {
    if p == [] {
      AddChildAddsItsBranches(t.typ, t.children, c);
    } else {
      var k, q := p[0], p[1..];
      assert p == [k] + q;
      ValidPathFront(t, k, q);
      GraftAddsItsBranches(t.children[k], q, c);
      ChildrenMatchingUpdate(t, k, Graft(t.children[k], q, c), |t.children|, Increments);
    }
  }

  /** So a counted leaf added below any node raises the score by one. */
  lemma CountedLeafAnywhereAddsOne(t: Tree, p: Path, k: string)
    requires ValidPath(t, p) && k in CountedTypes
    ensures Score(Graft(t, p, Node(k, []))) == Score(t) + 1
  {
    GraftAddsItsBranches(t, p, Node(k, []));
    IncrementsExactly(k);
  }

  /** So a counted leaf raises the score by one. */
  lemma CountedLeafAddsOne(typ: string, cs: seq<Tree>, k: string)
    requires k in CountedTypes
    ensures Score(Node(typ, cs + [Node(k, [])])) == Score(Node(typ, cs)) + 1
  {
    AddChildAddsItsBranches(typ, cs, Node(k, []));
    IncrementsExactly(k);
  }

  /** The leaves with types `ks`, in order. */
  function Leaves(ks: seq<string>): seq<Tree> {
    seq(|ks|, i requires 0 <= i < |ks| => Node(ks[i], []))
  }

  /** Adding `N` counted leaves raises the score by exactly `N`. */
  lemma {:induction false} CountedLeavesAddN(typ: string, cs: seq<Tree>, ks: seq<string>)
    requires forall i :: 0 <= i < |ks| ==> ks[i] in CountedTypes
    ensures Score(Node(typ, cs + Leaves(ks))) == Score(Node(typ, cs)) + |ks|
    decreases |ks|
  {
    if ks != [] {
      var n := |ks| - 1;
      CountedLeavesAddN(typ, cs, ks[..n]);
      assert Leaves(ks) == Leaves(ks[..n]) + [Node(ks[n], [])];
      assert cs + Leaves(ks) == (cs + Leaves(ks[..n])) + [Node(ks[n], [])];
      CountedLeafAddsOne(typ, cs + Leaves(ks[..n]), ks[n]);
    } else {
      assert cs + Leaves(ks) == cs;
    }
  }

  /** Conditional, binary and boolean expressions never change the score,
      however many of them are added: appending a subtree made only of
      them leaves the score as it was. */
  lemma ExpressionsNeverCount(typ: string, cs: seq<Tree>, c: Tree)
    requires forall p :: ValidPath(c, p) ==> At(c, p).typ in ExpressionTypes
    ensures Score(Node(typ, cs + [c])) == Score(Node(typ, cs))
  {
    forall p | ValidPath(c, p) ensures At(c, p).typ !in CountedTypes {
      assert At(c, p).typ in ExpressionTypes;
    }
    NoCountedNodeScoresOne(c);
    AddChildAddsItsBranches(typ, cs, c);
  }

  /** Wrapping any subtree in a conditional, binary or boolean expression
      node leaves its score as it was. */
  lemma ExpressionWrapperNeutral(e: string, t: Tree)
    requires e in ExpressionTypes
    ensures Score(Node(e, [t])) == Score(t)
  {
    IncrementsExactly(e);
    assert ChildrenMatching(Node(e, [t]), 1, Increments) == Matching(t, Increments);
  }

  /** Each of the five statement and clause types passes both tests. */
  lemma CountedTypesIncrement(typ: string)
    requires typ in CountedTypes
    ensures Increments(typ)
  {
    if typ == "if_statement" {
      ContainsAt(typ, "statement", 3);
    } else if typ == "for_statement" {
      ContainsAt(typ, "statement", 4);
    } else if typ == "while_statement" {
      ContainsAt(typ, "statement", 6);
    } else if typ == "case_statement" {
      ContainsAt(typ, "statement", 5);
    } else {
      ContainsAt(typ, "clause", 6);
    }
  }

  /** The conditional, binary and boolean expressions are branch types
      whose names contain neither "statement" nor "clause". The three
      branches have the same body; splitting on the literal lets the
      solver reason about one fixed string at a time. */
  lemma ExpressionTypesNeverIncrement(typ: string)
    requires typ in ExpressionTypes
    ensures !Increments(typ)
  {
    if typ == "conditional_expression" {
      NotContainedByPrefix(typ, "statement");
      NotContainedByPrefix(typ, "clause");
    } else if typ == "binary_expression" {
      NotContainedByPrefix(typ, "statement");
      NotContainedByPrefix(typ, "clause");
    } else {
      NotContainedByPrefix(typ, "statement");
      NotContainedByPrefix(typ, "clause");
    }
  }

  /** Of the eight branch types only the five statements and clauses add
      to the score; the conditional, binary and boolean expressions are
      listed but never pass the substring test. */
  lemma IncrementsExactly(typ: string)
    ensures Increments(typ) <==> typ in CountedTypes
  {
    if typ in CountedTypes {
      CountedTypesIncrement(typ);
    } else if typ in ExpressionTypes {
      ExpressionTypesNeverIncrement(typ);
    }
  }
}
