/** The parsed syntax tree the analyzer walks, positions in it, and the
    tree-sitter cursor that moves over it. */
module SyntaxTree {

  /** A node of the concrete syntax tree: its grammar type (`node.type`)
      and its children in source order. */
  datatype Tree = Node(typ: string, children: seq<Tree>)

  /** A position below a subtree root: the child index taken at each level. */
  type Path = seq<nat>

  function Parent(p: Path): Path
    requires p != []
  {
    p[..|p| - 1]
  }

  function Last(p: Path): nat
    requires p != []
  {
    p[|p| - 1]
  }

  /** `p` leads from `t` to one of its nodes. */
  predicate ValidPath(t: Tree, p: Path)
    decreases |p|, 0
  {
    p == [] || (ValidPath(t, Parent(p)) && Last(p) < |At(t, Parent(p)).children|)
  }

  /** The node that `p` leads to. */
  function At(t: Tree, p: Path): Tree
    requires ValidPath(t, p)
    decreases |p|, 1
  {
    if p == [] then t else At(t, Parent(p)).children[Last(p)]
  }

  /** One step down from a valid path. */
  lemma ChildPath(t: Tree, p: Path, k: nat)
    requires ValidPath(t, p) && k < |At(t, p).children|
    ensures ValidPath(t, p + [k]) && At(t, p + [k]) == At(t, p).children[k]
  {
    assert Parent(p + [k]) == p;
  }

  predicate IsPrefix(p: Path, q: Path) {
    |p| <= |q| && q[..|p|] == p
  }

  /** Every prefix of a valid path is valid. */
  lemma {:induction false} PrefixValid(t: Tree, p: Path, m: nat)
    requires ValidPath(t, p) && m <= |p|
    ensures ValidPath(t, p[..m])
    decreases |p| - m
  {
    if m < |p| {
      PrefixValid(t, Parent(p), m);
      assert Parent(p)[..m] == p[..m];
    } else {
      assert p[..m] == p;
    }
  }

  /** A path is valid from `t` exactly when its first step is a child of
      `t` and the rest is valid from that child, where it leads to the
      same node. */
  lemma {:induction false} ValidPathFront(t: Tree, k: nat, q: Path)
    ensures ValidPath(t, [k] + q) <==> k < |t.children| && ValidPath(t.children[k], q)
    ensures ValidPath(t, [k] + q) ==> At(t, [k] + q) == At(t.children[k], q)
    decreases |q|
  {
    if q == [] {
      assert Parent([k] + q) == [];
    } else {
      assert Parent([k] + q) == [k] + Parent(q) && Last([k] + q) == Last(q);
      ValidPathFront(t, k, Parent(q));
    }
  }

  /** `t` with `c` added after the last child of the node at `p`. */
  function Graft(t: Tree, p: Path, c: Tree): Tree
    decreases |p|
  {
    if p == [] then Node(t.typ, t.children + [c])
    else if p[0] < |t.children| then
      Node(t.typ, t.children[p[0] := Graft(t.children[p[0]], p[1..], c)])
    else t
  }

  /** The paths of the subtree `t`, whose root sits at `base`, in the order a
      depth-first walk leaves them: every child's subtree, left to right,
      then `base` itself. */
  function PostOrder(t: Tree, base: Path): seq<Path>
    decreases t, 1, 0
  {
    ChildrenOrder(t, base, |t.children|) + [base]
  }

  /** The post-order of the first `n` children of `t`. */
  function ChildrenOrder(t: Tree, base: Path, n: nat): seq<Path>
    requires n <= |t.children|
    decreases t, 0, n
  {
    if n == 0 then []
    else ChildrenOrder(t, base, n - 1) + PostOrder(t.children[n - 1], base + [n - 1])
  }

  /** The paths a depth-first walk from `t` has left before it first
      arrives at `p`: the subtrees of all left siblings of `p` and of its
      ancestors. */
  function Before(t: Tree, p: Path): seq<Path>
    requires ValidPath(t, p)
    decreases |p|
  {
    if p == [] then []
    else Before(t, Parent(p)) + ChildrenOrder(At(t, Parent(p)), Parent(p), Last(p))
  }

  lemma {:induction false} ChildrenOrderGrows(t: Tree, base: Path, m: nat, n: nat)
    requires m <= n <= |t.children|
    ensures |ChildrenOrder(t, base, m)| <= |ChildrenOrder(t, base, n)|
    decreases n
  {
    if m < n {
      ChildrenOrderGrows(t, base, m, n - 1);
    }
  }

  /** What is left before `p` and the subtree at `p` never exceed the
      whole walk. */
  lemma {:induction false} BeforeBound(t: Tree, p: Path)
    requires ValidPath(t, p)
    ensures |Before(t, p)| + |PostOrder(At(t, p), p)| <= |PostOrder(t, [])|
    decreases |p|
  {
    if p != [] {
      var q, k := Parent(p), Last(p);
      var a := At(t, q);
      assert q + [k] == p;
      BeforeBound(t, q);
      ChildrenOrderGrows(a, q, k + 1, |a.children|);
    }
  }

  /** The paths a depth-first walk from `t` has left when it stands at `p`:
      arriving at `p` (`leaving` false), or about to leave `p` once all its
      children are done (`leaving` true). */
  function Walked(t: Tree, p: Path, leaving: bool): seq<Path>
    requires ValidPath(t, p)
  {
    Before(t, p) + (if leaving then ChildrenOrder(At(t, p), p, |At(t, p).children|) else [])
  }

  /** The walk starts at the root with nothing left behind. */
  lemma StartStep(t: Tree)
    ensures ValidPath(t, []) && Walked(t, [], false) == []
  {
  }

  /** Going down to the first child or, at a leaf, turning back leaves
      nothing new behind. */
  lemma FirstChildStep(t: Tree, p: Path)
    requires ValidPath(t, p)
    ensures |At(t, p).children| > 0 ==>
      ValidPath(t, p + [0]) && At(t, p + [0]) == At(t, p).children[0] &&
      Walked(t, p + [0], false) == Walked(t, p, false)
    ensures |At(t, p).children| == 0 ==> Walked(t, p, true) == Walked(t, p, false)
  {
    if |At(t, p).children| > 0 {
      ChildPath(t, p, 0);
      assert Parent(p + [0]) == p && Last(p + [0]) == 0;
    }
  }

  /** Leaving `p` never exceeds the whole walk. */
  lemma LeaveBound(t: Tree, p: Path)
    requires ValidPath(t, p)
    ensures |Walked(t, p, true) + [p]| <= |PostOrder(t, [])|
  {
    BeforeBound(t, p);
  }

  /** Leaving `p` for its next sibling adds exactly `p` to what has been
      left. */
  lemma NextSiblingStep(t: Tree, p: Path)
    requires ValidPath(t, p) && p != [] && Last(p) + 1 < |At(t, Parent(p)).children|
    ensures ValidPath(t, Parent(p) + [Last(p) + 1])
    ensures Walked(t, Parent(p) + [Last(p) + 1], false) == Walked(t, p, true) + [p]
  {
    var q, k := Parent(p), Last(p);
    var a := At(t, q);
    assert q + [k] == p;
    assert At(t, p) == a.children[k];
    ChildPath(t, q, k + 1);
    var s := q + [k + 1];
    assert Parent(s) == q && Last(s) == k + 1;
    calc {
      Walked(t, s, false);
      Before(t, s);
      Before(t, q) + ChildrenOrder(a, q, k + 1);
      Before(t, q) + (ChildrenOrder(a, q, k) + PostOrder(a.children[k], p));
      (Before(t, q) + ChildrenOrder(a, q, k)) + PostOrder(At(t, p), p);
      Before(t, p) + PostOrder(At(t, p), p);
      Walked(t, p, true) + [p];
    }
  }

  /** Leaving the last child `p` for its parent adds exactly `p`. */
  lemma ParentStep(t: Tree, p: Path)
    requires ValidPath(t, p) && p != [] && Last(p) + 1 == |At(t, Parent(p)).children|
    ensures ValidPath(t, Parent(p))
    ensures Walked(t, Parent(p), true) == Walked(t, p, true) + [p]
  {
    var q, k := Parent(p), Last(p);
    var a := At(t, q);
    assert q + [k] == p;
    assert At(t, p) == a.children[k];
    calc {
      Walked(t, q, true);
      Before(t, q) + ChildrenOrder(a, q, k + 1);
      Before(t, q) + (ChildrenOrder(a, q, k) + PostOrder(a.children[k], p));
      (Before(t, q) + ChildrenOrder(a, q, k)) + PostOrder(At(t, p), p);
      Before(t, p) + PostOrder(At(t, p), p);
      Walked(t, p, true) + [p];
    }
  }

  /** Leaving the root completes the walk. */
  lemma RootStep(t: Tree)
    ensures Walked(t, [], true) + [[]] == PostOrder(t, [])
  {
  }

  /** Every path of the walk from `At(root, b)` extends `b` and is a valid
      path of `root`. */
  lemma {:induction false} PostOrderShape(root: Tree, b: Path)
    requires ValidPath(root, b)
    ensures forall i :: 0 <= i < |PostOrder(At(root, b), b)| ==>
      IsPrefix(b, PostOrder(At(root, b), b)[i]) && ValidPath(root, PostOrder(At(root, b), b)[i])
    decreases At(root, b), 1, 0
  {
    ChildrenOrderShape(root, b, |At(root, b).children|);
  }

  lemma {:induction false} ChildrenOrderShape(root: Tree, b: Path, n: nat)
    requires ValidPath(root, b) && n <= |At(root, b).children|
    ensures forall i :: 0 <= i < |ChildrenOrder(At(root, b), b, n)| ==>
      var q := ChildrenOrder(At(root, b), b, n)[i];
      |b| < |q| && q[..|b|] == b && q[|b|] < n && ValidPath(root, q)
    decreases At(root, b), 0, n
  {
    if n > 0 {
      var a := At(root, b);
      var c := b + [n - 1];
      ChildPath(root, b, n - 1);
      ChildrenOrderShape(root, b, n - 1);
      PostOrderShape(root, c);
      var left, right := ChildrenOrder(a, b, n - 1), PostOrder(a.children[n - 1], c);
      forall i | 0 <= i < |right|
        ensures |b| < |right[i]| && right[i][..|b|] == b && right[i][|b|] == n - 1
      {
        assert right[i][..|c|] == c;
        assert right[i][..|c|][..|b|] == right[i][..|b|];
      }
    }
  }

  /** Every valid path below `b` is on the walk from `At(root, b)`. */
  lemma {:induction false} PostOrderCovers(root: Tree, b: Path, p: Path)
    requires ValidPath(root, b) && ValidPath(root, p) && IsPrefix(b, p)
    ensures p in PostOrder(At(root, b), b)
    decreases |p| - |b|
  {
    if |p| == |b| {
      assert p == b;
    } else {
      var k := p[|b|];
      var c := b + [k];
      PrefixValid(root, p, |b| + 1);
      assert p[..|b| + 1] == c;
      assert Parent(c) == b;
      assert p[..|c|] == c;
      PostOrderCovers(root, c, p);
      ChildrenOrderContains(At(root, b), b, k, |At(root, b).children|, p);
    }
  }

  lemma {:induction false} ChildrenOrderContains(t: Tree, base: Path, k: nat, n: nat, p: Path)
    requires k < n <= |t.children| && p in PostOrder(t.children[k], base + [k])
    ensures p in ChildrenOrder(t, base, n)
    decreases n
  {
    if k < n - 1 {
      ChildrenOrderContains(t, base, k, n - 1, p);
    }
  }

  /** No path on the walk from `At(root, b)` is a prefix of (an ancestor of,
      or equal to) a path that comes later. */
  lemma {:induction false} PostOrderOrdered(root: Tree, b: Path)
    requires ValidPath(root, b)
    ensures forall i, j :: 0 <= i < j < |PostOrder(At(root, b), b)| ==>
      !IsPrefix(PostOrder(At(root, b), b)[i], PostOrder(At(root, b), b)[j])
    decreases At(root, b), 1, 0
  {
    var a := At(root, b);
    ChildrenOrderOrdered(root, b, |a.children|);
    ChildrenOrderShape(root, b, |a.children|);
  }

  lemma {:induction false} ChildrenOrderOrdered(root: Tree, b: Path, n: nat)
    requires ValidPath(root, b) && n <= |At(root, b).children|
    ensures forall i, j :: 0 <= i < j < |ChildrenOrder(At(root, b), b, n)| ==>
      !IsPrefix(ChildrenOrder(At(root, b), b, n)[i], ChildrenOrder(At(root, b), b, n)[j])
    decreases At(root, b), 0, n
  {
    if n > 0 {
      var a := At(root, b);
      var c := b + [n - 1];
      ChildPath(root, b, n - 1);
      ChildrenOrderOrdered(root, b, n - 1);
      ChildrenOrderShape(root, b, n);
      PostOrderOrdered(root, c);
      var left, right := ChildrenOrder(a, b, n - 1), PostOrder(a.children[n - 1], c);
      var all := ChildrenOrder(a, b, n);
      ChildrenOrderShape(root, b, n - 1);
      PostOrderShape(root, c);
      forall i, j | 0 <= i < j < |all|
        ensures !IsPrefix(all[i], all[j])
      {
        if j < |left| {
          assert all[i] == left[i] && all[j] == left[j];
        } else if |left| <= i {
          assert all[i] == right[i - |left|] && all[j] == right[j - |left|];
        } else {
          var x, y := left[i], right[j - |left|];
          assert all[i] == x && all[j] == y;
          assert y[..|c|] == c;
          assert y[|b|] == n - 1 && x[|b|] < n - 1;
          assert |x| <= |y| ==> y[..|x|][|b|] == y[|b|];
        }
      }
    }
  }

  /** The walk from the root lists every node of the tree exactly once,
      never a path outside it, and each node after all of its descendants. */
  lemma PostOrderEnumerates(t: Tree)
    ensures forall p :: p in PostOrder(t, []) <==> ValidPath(t, p)
    ensures forall i, j :: 0 <= i < j < |PostOrder(t, [])| ==>
      PostOrder(t, [])[i] != PostOrder(t, [])[j] && !IsPrefix(PostOrder(t, [])[i], PostOrder(t, [])[j])
  {
    var po := PostOrder(t, []);
    assert At(t, []) == t;
    PostOrderShape(t, []);
    PostOrderOrdered(t, []);
    forall p | p in po ensures ValidPath(t, p) {
      var i :| 0 <= i < |po| && po[i] == p;
    }
    forall p | ValidPath(t, p) ensures p in po {
      PostOrderCovers(t, [], p);
    }
    forall i, j | 0 <= i < j < |po| ensures po[i] != po[j] {
      assert !IsPrefix(po[i], po[j]);
    }
  }

  /** tree-sitter's `TreeCursor` as obtained from `node.walk()`: it starts at
      `root` and can only move within the subtree of `root`. */
  class TreeCursor {
    const root: Tree
    var path: Path

    ghost predicate Valid()
      reads this
    {
      ValidPath(root, path)
    }

    /** `cursor.node` */
    function Current(): Tree
      reads this
      requires Valid()
    {
      At(root, path)
    }

    constructor (t: Tree)
      ensures root == t && path == [] && Valid()
    {
      root := t;
      path := [];
    }

    /** `cursor.goto_first_child()` */
    method GotoFirstChild() returns (moved: bool)
      requires Valid()
      modifies this
      ensures Valid()
      ensures moved <==> |old(Current()).children| > 0
      ensures path == if moved then old(path) + [0] else old(path)
    {
      moved := |At(root, path).children| > 0;
      if moved {
        ChildPath(root, path, 0);
        path := path + [0];
      }
    }

    /** `cursor.goto_next_sibling()`: there is none at the root. */
    method GotoNextSibling() returns (moved: bool)
      requires Valid()
      modifies this
      ensures Valid()
      ensures moved <==> old(path) != [] && Last(old(path)) + 1 < |At(root, Parent(old(path))).children|
      ensures path == if moved then Parent(old(path)) + [Last(old(path)) + 1] else old(path)
    {
      moved := path != [] && Last(path) + 1 < |At(root, Parent(path)).children|;
      if moved {
        ChildPath(root, Parent(path), Last(path) + 1);
        path := Parent(path) + [Last(path) + 1];
      }
    }

    /** `cursor.goto_parent()`: there is none at the root. */
    method GotoParent() returns (moved: bool)
      requires Valid()
      modifies this
      ensures Valid()
      ensures moved <==> old(path) != []
      ensures path == if moved then Parent(old(path)) else old(path)
    {
      moved := path != [];
      if moved {
        path := Parent(path);
      }
    }
  }
}
