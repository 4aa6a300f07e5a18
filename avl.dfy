/**
  The AVL tree of avlbst.h: the binary search tree of bst.h whose nodes also carry a
  balance (right height minus left height), kept up to date while climbing from an
  inserted or removed node, with rotations where a balance reaches two.

  The operations act on the same arena as the plain tree; `balance` is its field.
*/
module Avl {
  import opened Shapes
  import opened Bst
  import opened Rotations

  /** Same ids, same keys: the stored map does not depend on how the nodes are arranged. */
  lemma SameContents(s: Shape, s': Shape, key: seq<int>, value: seq<int>)
    requires Ordered(s, key) && Ordered(s', key) && |value| == |key| && Ids(s') == Ids(s)
    ensures ContentsOf(s', key, value) == ContentsOf(s, key, value)
  {
  }

  /** A rearrangement of the subtree in the hole that keeps its walk keeps the whole walk. */
  lemma PlugSameWalk(path: Path, w: Shape, w': Shape)
    requires InOrder(w') == InOrder(w) && Ids(w') == Ids(w)
    ensures InOrder(Plug(path, w')) == InOrder(Plug(path, w))
    ensures Ids(Plug(path, w')) == Ids(Plug(path, w))
  {
    PlugInOrder(path, w);
    PlugInOrder(path, w');
    PlugIds(path, w);
    PlugIds(path, w');
  }

  /** `updateBalance(d)` of an `AVLNode`: node `n`'s balance moves by `d`, nothing else changes. */
  method UpdateBalance(t: BinarySearchTree, n: int, d: int)
    requires t.Valid() && n in Ids(t.shape)
    modifies t
    ensures t.Valid() && 0 <= n < |t.balance|
    ensures t.balance == old(t.balance)[n := old(t.balance)[n] + d]
    ensures t.shape == old(t.shape) && t.key == old(t.key) && t.value == old(t.value) && t.root == old(t.root)
    ensures t.parent == old(t.parent) && t.left == old(t.left) && t.right == old(t.right)
  {
    t.balance := t.balance[n := t.balance[n] + d];
  }

  /** The node a subtree hangs below lies outside it, and is null exactly at the top. */
  lemma AboveApart(path: Path, w: Shape, P: seq<int>, L: seq<int>, R: seq<int>)
    requires Encoded(Plug(path, w), P, L, R) && w.Br?
    ensures TopId(path) !in Ids(w) && (TopId(path) == Null <==> path == [])
    ensures path != [] ==> 0 <= TopId(path) < |P| && (L[TopId(path)] == w.id <==> Last(path).GoLeft?)
  {
    PlugNulls(path, w, P, L, R);
    PlugDistinct(path, w);
    if path != [] {
      assert TopId(path) in CtxIds(path);
      ChildSide(path, w, P, L, R);
    } else {
      PlugIds(path, w);
      assert Null !in Ids(w);
    }
  }

  /** The links of a node and of its right child, read off an encoding. */
  lemma RightChildLinks(path: Path, w: Shape, P: seq<int>, L: seq<int>, R: seq<int>)
    requires Encoded(Plug(path, w), P, L, R) && w.Br? && w.right.Br?
    ensures 0 <= w.id < |P| && 0 <= w.right.id < |P| && |L| == |P| && |R| == |P|
    ensures P[w.id] == TopId(path) && R[w.id] == w.right.id && L[w.right.id] == RootId(w.right.left)
    ensures w.id != w.right.id && (w.right.left.Br? ==> w.right.left.id != w.id && w.right.left.id != w.right.id)
  {
    NodeLinks(path, w, P, L, R);
    var down := path + [GoRight(w.left, w.id)];
    assert Plug(down, w.right) == Plug(path, w);
    NodeLinks(down, w.right, P, L, R);
    PlugDistinct(path, w);
    DistinctBr(w.left, w.id, w.right);
    DistinctBr(w.right.left, w.right.id, w.right.right);
    if w.right.left.Br? {
      var g := w.right.left.id;
      assert g in Ids(w.right.left);
      assert g in Ids(w.right);
    }
  }

  /** The links of a node and of its left child, read off an encoding. */
  lemma LeftChildLinks(path: Path, w: Shape, P: seq<int>, L: seq<int>, R: seq<int>)
    requires Encoded(Plug(path, w), P, L, R) && w.Br? && w.left.Br?
    ensures 0 <= w.id < |P| && 0 <= w.left.id < |P| && |L| == |P| && |R| == |P|
    ensures P[w.id] == TopId(path) && L[w.id] == w.left.id && R[w.left.id] == RootId(w.left.right)
    ensures w.id != w.left.id && (w.left.right.Br? ==> w.left.right.id != w.id && w.left.right.id != w.left.id)
  {
    NodeLinks(path, w, P, L, R);
    var down := path + [GoLeft(w.id, w.right)];
    assert Plug(down, w.left) == Plug(path, w);
    NodeLinks(down, w.left, P, L, R);
    PlugDistinct(path, w);
    DistinctBr(w.left, w.id, w.right);
    DistinctBr(w.left.left, w.left.id, w.left.right);
    if w.left.right.Br? {
      var g := w.left.right.id;
      assert g in Ids(w.left.right);
      assert g in Ids(w.left);
    }
  }

  /** The nodes `rotateLeft` at the root `w.id` of `w` reads: pivot `y`, grandchild `g`, parent `p`. */
  lemma LeftSite(path: Path, w: Shape, P: seq<int>, L: seq<int>, R: seq<int>)
    requires Encoded(Plug(path, w), P, L, R) && w.Br? && w.right.Br?
    ensures var x, y, g, p := w.id, w.right.id, RootId(w.right.left), TopId(path);
      && 0 <= x < |P| && 0 <= y < |P| && |L| == |P| && |R| == |P| && R[x] == y && L[y] == g && P[x] == p
      && x != y && g != x && g != y && p != x && p != y && (g != Null ==> 0 <= g < |P| && g != p)
      && (p != Null <==> path != []) && (p != Null ==> 0 <= p < |P| && (L[p] == x <==> Last(path).GoLeft?))
  {
    RightChildLinks(path, w, P, L, R);
    AboveApart(path, w, P, L, R);
    assert w.right.id in Ids(w);
    if w.right.left.Br? {
      assert w.right.left.id in Ids(w.right) && Ids(w.right) <= Ids(w);
      EncodedUnder(path, w, P, L, R);
    }
  }

  /** The mirror image of `LeftSite`, for `rotateRight`. */
  lemma RightSite(path: Path, w: Shape, P: seq<int>, L: seq<int>, R: seq<int>)
    requires Encoded(Plug(path, w), P, L, R) && w.Br? && w.left.Br?
    ensures var x, y, g, p := w.id, w.left.id, RootId(w.left.right), TopId(path);
      && 0 <= x < |P| && 0 <= y < |P| && |L| == |P| && |R| == |P| && L[x] == y && R[y] == g && P[x] == p
      && x != y && g != x && g != y && p != x && p != y && (g != Null ==> 0 <= g < |P| && g != p)
      && (p != Null <==> path != []) && (p != Null ==> 0 <= p < |P| && (L[p] == x <==> Last(path).GoLeft?))
  {
    LeftChildLinks(path, w, P, L, R);
    AboveApart(path, w, P, L, R);
    assert w.left.id in Ids(w);
    if w.left.right.Br? {
      assert w.left.right.id in Ids(w.left) && Ids(w.left) <= Ids(w);
      EncodedUnder(path, w, P, L, R);
    }
  }

  /**
    The pointer writes of `rotateLeft(x)`, in the source's order: `x` takes the pivot's
    left subtree, the pivot takes `x`'s place below its parent, and `x` hangs below the
    pivot. The new arrays encode the rotated tree.
  */
  method LeftLinks(x: int, P: seq<int>, L: seq<int>, R: seq<int>, ghost path: Path, ghost w: Shape)
    returns (P': seq<int>, L': seq<int>, R': seq<int>)
    requires Encoded(Plug(path, w), P, L, R) && w.Br? && w.id == x && w.right.Br?
    ensures Encoded(Plug(path, RotL(w)), P', L', R') && |P'| == |P|
  {
    LeftSite(path, w, P, L, R);
    var y := R[x];
    var g := L[y];
    P', L', R' := P, L, R;
    R' := R'[x := g];
    if g != Null {
      P' := P'[g := x];
    }
    var p := P[x];
    P' := P'[y := p];
    if p != Null {
      if x == L'[p] {
        L' := L'[p := y];
      } else {
        R' := R'[p := y];
      }
    }
    L' := L'[y := x];
    P' := P'[x := y];
    RotateLeftEncoded(path, w, P, L, R, P', L', R');
  }

  /** The mirror image of `LeftLinks`, for `rotateRight(x)`. */
  method RightLinks(x: int, P: seq<int>, L: seq<int>, R: seq<int>, ghost path: Path, ghost w: Shape)
    returns (P': seq<int>, L': seq<int>, R': seq<int>)
    requires Encoded(Plug(path, w), P, L, R) && w.Br? && w.id == x && w.left.Br?
    ensures Encoded(Plug(path, RotR(w)), P', L', R') && |P'| == |P|
  {
    RightSite(path, w, P, L, R);
    var y := L[x];
    var g := R[y];
    P', L', R' := P, L, R;
    L' := L'[x := g];
    if g != Null {
      P' := P'[g := x];
    }
    var p := P[x];
    P' := P'[y := p];
    if p != Null {
      if x == L'[p] {
        L' := L'[p := y];
      } else {
        R' := R'[p := y];
      }
    }
    R' := R'[y := x];
    P' := P'[x := y];
    RotateRightEncoded(path, w, P, L, R, P', L', R');
  }

  /** A rearranged subtree on the same walk keeps the tree valid and its contents. */
  lemma ReplacedValid(path: Path, w: Shape, w': Shape, key: seq<int>, value: seq<int>)
    requires Ordered(Plug(path, w), key) && |value| == |key|
    requires InOrder(w') == InOrder(w) && Ids(w') == Ids(w)
    ensures Ordered(Plug(path, w'), key) && InOrder(Plug(path, w')) == InOrder(Plug(path, w))
    ensures ContentsOf(Plug(path, w'), key, value) == ContentsOf(Plug(path, w), key, value)
  {
    PlugSameWalk(path, w, w');
    SameContents(Plug(path, w), Plug(path, w'), key, value);
  }

  /** Stores the arrays of a rearranged tree `s` with the same keys and values into `t`. */
  method Install(t: BinarySearchTree, P: seq<int>, L: seq<int>, R: seq<int>, root: int, bal: seq<int>, ghost s: Shape)
    requires Encoded(s, P, L, R) && |t.key| == |P| && |t.value| == |P| && |bal| == |P|
    requires root == RootId(s) && Ordered(s, t.key)
    modifies t
    ensures t.Valid() && t.key == old(t.key) && t.value == old(t.value)
    ensures t.parent == P && t.left == L && t.right == R && t.root == root && t.balance == bal && t.shape == s
  {
    t.parent, t.left, t.right, t.root, t.balance, t.shape := P, L, R, root, bal, s;
  }

  /**
    `rotateLeft(x)`: the right child of `x` takes its place, `x` becomes that child's left
    child and takes over its old left subtree; balances are rewritten by the left table.
    The walk, hence order and contents, is unchanged.
  */
  method RotateLeft(t: BinarySearchTree, x: int)
    requires t.Valid() && x in Ids(t.shape) && SubtreeAt(t.shape, x).right.Br?
    modifies t
    ensures t.Valid() && t.key == old(t.key) && t.value == old(t.value)
    ensures t.shape == Plug(PathTo(old(t.shape), x), RotL(SubtreeAt(old(t.shape), x)))
    ensures t.balance == LeftBal(SubtreeAt(old(t.shape), x), old(t.balance))
    ensures InOrder(t.shape) == InOrder(old(t.shape)) && t.Contents() == old(t.Contents())
  {
    var P, L, R, root, bal, s1 := RotateLeftArrays(x, t.parent, t.left, t.right, t.root, t.balance, t.key, t.value, t.shape);
    Install(t, P, L, R, root, bal, s1);
  }

  /** The writes of `RotateLeft` on the arrays, which encode the ordered tree `s` with root `root`. */
  method RotateLeftArrays(x: int, P: seq<int>, L: seq<int>, R: seq<int>, root: int, bal: seq<int>,
                          ghost key: seq<int>, ghost value: seq<int>, ghost s: Shape)
    returns (P': seq<int>, L': seq<int>, R': seq<int>, root': int, bal': seq<int>, ghost s1: Shape)
    requires Encoded(s, P, L, R) && |key| == |P| && |value| == |P| && |bal| == |P| && root == RootId(s) && Ordered(s, key)
    requires x in Ids(s) && SubtreeAt(s, x).right.Br?
    ensures s1 == Plug(PathTo(s, x), RotL(SubtreeAt(s, x)))
    ensures Encoded(s1, P', L', R') && |P'| == |P| && |bal'| == |P| && root' == RootId(s1) && Ordered(s1, key)
      && InOrder(s1) == InOrder(s) && ContentsOf(s1, key, value) == ContentsOf(s, key, value)
      && bal' == LeftBal(SubtreeAt(s, x), bal)
  {
    ghost var path, w := PathTo(s, x), SubtreeAt(s, x);
    assert && Plug(path, w) == s && 0 <= x < |bal| && 0 <= x < |R| && R[x] == w.right.id
           && 0 <= w.right.id < |bal| && 0 <= w.right.id < |L| && L[w.right.id] == RootId(w.right.left)
           && -1 <= RootId(w.right.left) < |bal| && (P[x] == Null <==> path == []) by {
      PathToPlug(s, x);
      LeftSite(path, w, P, L, R);
    }
    var y := R[x];
    var g := L[y];
    var p := P[x];
    P', L', R' := LeftLinks(x, P, L, R, path, w);
    root' := root;
    if p == Null {
      root' := y;
    } else {
      PlugRoot(path, w, RotL(w));
    }
    bal' := LeftBalances(bal, x, y, g);
    RotLFacts(w);
    ReplacedValid(path, w, RotL(w), key, value);
    s1 := Plug(path, RotL(w));
  }

  /** `rotateRight(x)`: the mirror image of `RotateLeft`, with the right table. */
  method RotateRight(t: BinarySearchTree, x: int)
    requires t.Valid() && x in Ids(t.shape) && SubtreeAt(t.shape, x).left.Br?
    modifies t
    ensures t.Valid() && t.key == old(t.key) && t.value == old(t.value)
    ensures t.shape == Plug(PathTo(old(t.shape), x), RotR(SubtreeAt(old(t.shape), x)))
    ensures t.balance == RightBal(SubtreeAt(old(t.shape), x), old(t.balance))
    ensures InOrder(t.shape) == InOrder(old(t.shape)) && t.Contents() == old(t.Contents())
  {
    var P, L, R, root, bal, s1 := RotateRightArrays(x, t.parent, t.left, t.right, t.root, t.balance, t.key, t.value, t.shape);
    Install(t, P, L, R, root, bal, s1);
  }

  /** The writes of `RotateRight` on the arrays, which encode the ordered tree `s` with root `root`. */
  method RotateRightArrays(x: int, P: seq<int>, L: seq<int>, R: seq<int>, root: int, bal: seq<int>,
                          ghost key: seq<int>, ghost value: seq<int>, ghost s: Shape)
    returns (P': seq<int>, L': seq<int>, R': seq<int>, root': int, bal': seq<int>, ghost s1: Shape)
    requires Encoded(s, P, L, R) && |key| == |P| && |value| == |P| && |bal| == |P| && root == RootId(s) && Ordered(s, key)
    requires x in Ids(s) && SubtreeAt(s, x).left.Br?
    ensures s1 == Plug(PathTo(s, x), RotR(SubtreeAt(s, x)))
    ensures Encoded(s1, P', L', R') && |P'| == |P| && |bal'| == |P| && root' == RootId(s1) && Ordered(s1, key)
      && InOrder(s1) == InOrder(s) && ContentsOf(s1, key, value) == ContentsOf(s, key, value)
      && bal' == RightBal(SubtreeAt(s, x), bal)
  {
    ghost var path, w := PathTo(s, x), SubtreeAt(s, x);
    assert && Plug(path, w) == s && 0 <= x < |bal| && 0 <= x < |L| && L[x] == w.left.id
           && 0 <= w.left.id < |bal| && 0 <= w.left.id < |R| && R[w.left.id] == RootId(w.left.right)
           && -1 <= RootId(w.left.right) < |bal| && (P[x] == Null <==> path == []) by {
      PathToPlug(s, x);
      RightSite(path, w, P, L, R);
    }
    var y := L[x];
    var g := R[y];
    var p := P[x];
    P', L', R' := RightLinks(x, P, L, R, path, w);
    root' := root;
    if p == Null {
      root' := y;
    } else {
      PlugRoot(path, w, RotR(w));
    }
    bal' := RightBalances(bal, x, y, g);
    RotRFacts(w);
    ReplacedValid(path, w, RotR(w), key, value);
    s1 := Plug(path, RotR(w));
  }

  /**
    The balance writes at the end of `rotateLeft(x)`, with pivot `y` and grandchild `g`:
    decided by the pivot's balance, then by the grandchild's when there is one.
  */
  method LeftBalances(bal: seq<int>, x: int, y: int, g: int) returns (b: seq<int>)
    requires 0 <= x < |bal| && 0 <= y < |bal| && -1 <= g < |bal|
    ensures b == LeftTable(bal, x, y, g)
  {
    b := bal;
    if b[y] == 1 {
      b := b[x := 0][y := 0];
    } else if b[y] == 0 {
      b := b[x := 1][y := -1];
    } else if g != Null {
      if b[g] == 1 {
        b := b[x := 0][y := -1];
      } else if b[g] == -1 {
        b := b[x := 1][y := 0];
      } else {
        b := b[x := 0][y := 0];
      }
      b := b[g := 0];
    }
  }

  /** The balance writes at the end of `rotateRight(x)`: the sign mirror of `LeftBalances`. */
  method RightBalances(bal: seq<int>, x: int, y: int, g: int) returns (b: seq<int>)
    requires 0 <= x < |bal| && 0 <= y < |bal| && -1 <= g < |bal|
    ensures b == RightTable(bal, x, y, g)
  {
    b := bal;
    if b[y] == -1 {
      b := b[x := 0][y := 0];
    } else if b[y] == 0 {
      b := b[x := -1][y := 1];
    } else if g != Null {
      if b[g] == -1 {
        b := b[x := 0][y := 1];
      } else if b[g] == 1 {
        b := b[x := -1][y := 0];
      } else {
        b := b[x := 0][y := 0];
      }
      b := b[g := 0];
    }
  }

  // ---------------------------------------------------------------- rebalance

  /** The children of node `x` of an encoded tree, and the inner grandchildren. */
  lemma RebalanceSite(s: Shape, x: int, P: seq<int>, L: seq<int>, R: seq<int>)
    requires Encoded(s, P, L, R) && x in Ids(s)
    ensures var w := SubtreeAt(s, x);
      && 0 <= x < |P| && |L| == |P| && |R| == |P| && L[x] == RootId(w.left) && R[x] == RootId(w.right)
      && (w.left.Br? ==> 0 <= w.left.id < |P| && R[w.left.id] == RootId(w.left.right))
      && (w.right.Br? ==> 0 <= w.right.id < |P| && L[w.right.id] == RootId(w.right.left))
  {
    var path, w := PathTo(s, x), SubtreeAt(s, x);
    PathToPlug(s, x);
    NodeLinks(path, w, P, L, R);
    if w.left.Br? {
      LeftChildLinks(path, w, P, L, R);
    }
    if w.right.Br? {
      RightChildLinks(path, w, P, L, R);
    }
  }

  /** The left child of node `x` sits one step left of `x`. */
  lemma DescendLeft(s: Shape, x: int)
    requires Distinct(s) && x in Ids(s) && SubtreeAt(s, x).left.Br?
    ensures var w := SubtreeAt(s, x);
      && w.left.id in Ids(s) && SubtreeAt(s, w.left.id) == w.left
      && PathTo(s, w.left.id) == PathTo(s, x) + [GoLeft(x, w.right)]
  {
    var path, w := PathTo(s, x), SubtreeAt(s, x);
    PathToPlug(s, x);
    var down := path + [GoLeft(x, w.right)];
    assert Plug(down, w.left) == s;
    PathToUnique(down, w.left);
  }

  /** The right child of node `x` sits one step right of `x`. */
  lemma DescendRight(s: Shape, x: int)
    requires Distinct(s) && x in Ids(s) && SubtreeAt(s, x).right.Br?
    ensures var w := SubtreeAt(s, x);
      && w.right.id in Ids(s) && SubtreeAt(s, w.right.id) == w.right
      && PathTo(s, w.right.id) == PathTo(s, x) + [GoRight(w.left, x)]
  {
    var path, w := PathTo(s, x), SubtreeAt(s, x);
    PathToPlug(s, x);
    var down := path + [GoRight(w.left, x)];
    assert Plug(down, w.right) == s;
    PathToUnique(down, w.right);
  }

  /** After rebuilding a child of `x`, node `x` is found where it was, over the rebuilt child. */
  lemma ReturnUp(path: Path, f: Frame, u: Shape)
    requires Distinct(Plug(path + [f], u))
    ensures Plug(path + [f], u) == Plug(path, Wrap(f, u))
    ensures f.pid in Ids(Plug(path, Wrap(f, u)))
    ensures PathTo(Plug(path, Wrap(f, u)), f.pid) == path && SubtreeAt(Plug(path, Wrap(f, u)), f.pid) == Wrap(f, u)
  {
    assert Up(path + [f]) == path;
    PathToUnique(path, Wrap(f, u));
  }

  /**
    The double rotation of a node `x` leaning left by two: `rotateLeft` of its left
    child, then `rotateRight(x)`.
  */
  method RotateLeftRight(t: BinarySearchTree, x: int)
    requires t.Valid() && x in Ids(t.shape)
    requires SubtreeAt(t.shape, x).left.Br? && SubtreeAt(t.shape, x).left.right.Br?
    modifies t
    ensures t.Valid() && t.key == old(t.key) && t.value == old(t.value) && t.Contents() == old(t.Contents())
    ensures var w := SubtreeAt(old(t.shape), x);
      var w1 := Br(RotL(w.left), x, w.right);
      && t.shape == Plug(PathTo(old(t.shape), x), RotR(w1))
      && InArena(w.left, |old(t.balance)|) && InArena(w1, |old(t.balance)|)
      && t.balance == RightBal(w1, LeftBal(w.left, old(t.balance)))
  {
    ghost var s0 := t.shape;
    ghost var path, w := PathTo(s0, x), SubtreeAt(s0, x);
    RebalanceSite(s0, x, t.parent, t.left, t.right);
    DescendLeft(s0, x);
    RotateLeft(t, t.left[x]);
    ReturnUp(path, GoLeft(x, w.right), RotL(w.left));
    RotateRight(t, x);
  }

  /** The mirror image of `RotateLeftRight`: `rotateRight` of the right child, then `rotateLeft(x)`. */
  method RotateRightLeft(t: BinarySearchTree, x: int)
    requires t.Valid() && x in Ids(t.shape)
    requires SubtreeAt(t.shape, x).right.Br? && SubtreeAt(t.shape, x).right.left.Br?
    modifies t
    ensures t.Valid() && t.key == old(t.key) && t.value == old(t.value) && t.Contents() == old(t.Contents())
    ensures var w := SubtreeAt(old(t.shape), x);
      var w1 := Br(w.left, x, RotR(w.right));
      && t.shape == Plug(PathTo(old(t.shape), x), RotL(w1))
      && InArena(w.right, |old(t.balance)|) && InArena(w1, |old(t.balance)|)
      && t.balance == LeftBal(w1, RightBal(w.right, old(t.balance)))
  {
    ghost var s0 := t.shape;
    ghost var path, w := PathTo(s0, x), SubtreeAt(s0, x);
    RebalanceSite(s0, x, t.parent, t.left, t.right);
    DescendRight(s0, x);
    RotateRight(t, t.right[x]);
    ReturnUp(path, GoRight(w.left, x), RotR(w.right));
    RotateLeft(t, x);
  }

  /**
    `rebalance(x)`: at balance -2 a right rotation of `x`, preceded by a left rotation of
    its left child when that child leans right; the mirror at +2; otherwise nothing.
    `ok` is false exactly where the source would follow a null child pointer; the tree is
    then untouched.
  */
  method Rebalance(t: BinarySearchTree, x: int) returns (ok: bool)
    requires t.Valid() && x in Ids(t.shape)
    modifies t
    ensures t.Valid() && t.key == old(t.key) && t.value == old(t.value) && t.Contents() == old(t.Contents())
    ensures var r := RebalanceAt(SubtreeAt(old(t.shape), x), old(t.balance));
      && ok == r.Ok? && (ok ==> t.shape == Plug(PathTo(old(t.shape), x), r.t) && t.balance == r.bal)
    ensures !ok ==> unchanged(t)
  {
    ghost var s0 := t.shape;
    ghost var path, w := PathTo(s0, x), SubtreeAt(s0, x);
    RebalanceSite(s0, x, t.parent, t.left, t.right);
    ok := true;
    if t.balance[x] == -2 {
      RebalanceLeftHeavy(w, t.balance);
      var l := t.left[x];
      if l == Null {
        return false;
      }
      if t.balance[l] <= 0 {
        RotateRight(t, x);
      } else {
        if t.right[l] == Null {
          return false;
        }
        RotateLeftRight(t, x);
      }
    } else if t.balance[x] == 2 {
      RebalanceRightHeavy(w, t.balance);
      var r := t.right[x];
      if r == Null {
        return false;
      }
      if t.balance[r] >= 0 {
        RotateLeft(t, x);
      } else {
        if t.left[r] == Null {
          return false;
        }
        RotateRightLeft(t, x);
      }
    } else {
      PathToPlug(s0, x);
    }
  }

  // ---------------------------------------------------------------- insert

  /**
    The climb of `insert` above the grown subtree `u` in the hole of `path`: the node
    above moves its balance by -1 when `u` is its left child and by +1 otherwise; at 0 the
    climb stops, at two away from zero that node is rebalanced and the climb stops,
    otherwise it goes on one level up.
  */
  ghost function InsertFix(path: Path, u: Shape, bal: seq<int>): (r: Step)
    requires u.Br? && Distinct(Plug(path, u)) && InArena(Plug(path, u), |bal|)
    ensures r.Ok? ==> && |r.bal| == |bal| && Distinct(r.t)
                      && Ids(r.t) == Ids(Plug(path, u)) && InOrder(r.t) == InOrder(Plug(path, u))
    decreases |path|
  {
    if path == [] then Ok(u, bal)
    else
      var f := Last(path);
      var w := Wrap(f, u);
      PlugIds(Up(path), w);
      PlugDistinct(Up(path), w);
      assert f.pid in Ids(w);
      var b := bal[f.pid := bal[f.pid] + (if f.GoLeft? then -1 else 1)];
      if b[f.pid] == 0 then Ok(Plug(path, u), b)
      else if b[f.pid] == 2 || b[f.pid] == -2 then
        match RebalanceAt(w, b)
        case NullDeref => NullDeref
        case Ok(w', b') =>
          PlugSameWalk(Up(path), w, w');
          PlugReplaceDistinct(Up(path), w, w');
          Ok(Plug(Up(path), w'), b')
      else InsertFix(Up(path), w, b)
  }

  /** One step of the insert climb, spelled out by the balance the node above reaches. */
  lemma InsertFixStep(path: Path, u: Shape, bal: seq<int>)
    requires path != [] && u.Br? && Distinct(Plug(path, u)) && InArena(Plug(path, u), |bal|)
    ensures var f, w := Last(path), Wrap(Last(path), u);
      && Plug(Up(path), w) == Plug(path, u) && f.pid in Ids(w) && 0 <= f.pid < |bal|
      && Distinct(w) && InArena(w, |bal|)
      && var b := bal[f.pid := bal[f.pid] + (if f.GoLeft? then -1 else 1)];
      && (b[f.pid] == 0 ==> InsertFix(path, u, bal) == Ok(Plug(path, u), b))
      && (b[f.pid] == 2 || b[f.pid] == -2 ==>
            && (InsertFix(path, u, bal).Ok? <==> RebalanceAt(w, b).Ok?)
            && (RebalanceAt(w, b).Ok? ==> InsertFix(path, u, bal) == Ok(Plug(Up(path), RebalanceAt(w, b).t), RebalanceAt(w, b).bal)))
      && (b[f.pid] != 0 && b[f.pid] != 2 && b[f.pid] != -2 ==> InsertFix(path, u, bal) == InsertFix(Up(path), w, b))
  {
    var w := Wrap(Last(path), u);
    PlugIds(Up(path), w);
    PlugDistinct(Up(path), w);
    assert Last(path).pid in Ids(w);
  }

  /** Attaching a fresh handle keeps handles distinct. */
  lemma {:induction false} AttachDistinct(s: Shape, key: seq<int>, k: int)
    requires Distinct(s) && InArena(s, |key|) && k !in KeySet(s, key)
    ensures Distinct(Attach(s, key, k, |key|)) && InArena(Attach(s, key, k, |key|), |key| + 1)
    ensures |key| in Ids(Attach(s, key, k, |key|))
  {
    AttachIds(s, key, k);
    match s
    case Nil =>
    case Br(l, i, r) =>
      assert i in Ids(s);
      if k < key[i] {
        assert KeySet(l, key) <= KeySet(s, key);
        AttachDistinct(l, key, k);
        AttachIds(l, key, k);
      } else if k > key[i] {
        assert KeySet(r, key) <= KeySet(s, key);
        AttachDistinct(r, key, k);
        AttachIds(r, key, k);
      }
  }

  /**
    The tree and balances AVL `insert` of a missing key `k` leaves: the new leaf `|key|`,
    with balance 0, hung where the search falls off, then the climb above it.
  */
  ghost function InsertResult(s: Shape, key: seq<int>, bal: seq<int>, k: int): (r: Step)
    requires Distinct(s) && InArena(s, |key|) && |bal| == |key| && k !in KeySet(s, key)
  {
    var n := |key|;
    var s1 := Attach(s, key, k, n);
    AttachDistinct(s, key, k);
    PathToPlug(s1, n);
    InsertFix(PathTo(s1, n), SubtreeAt(s1, n), bal + [0])
  }

  /**
    The climb loop of `insert`, from node `n` (the root of `u`) and its parent `par`.
    `ok` is false where a rotation would follow a null child pointer.
  */
  method InsertClimb(t: BinarySearchTree, n: int, par: int, ghost path: Path, ghost u: Shape) returns (ok: bool)
    requires t.Valid() && u.Br? && t.shape == Plug(path, u) && n == u.id && par == TopId(path)
    modifies t
    ensures t.Valid() && t.key == old(t.key) && t.value == old(t.value) && t.Contents() == old(t.Contents())
    ensures var r := InsertFix(path, u, old(t.balance));
      ok == r.Ok? && (ok ==> t.shape == r.t && t.balance == r.bal)
  {
    ghost var final := InsertFix(path, u, t.balance);
    ghost var cpath, cu := path, u;
    var node, above := n, par;
    while above != Null
      invariant t.Valid() && t.key == old(t.key) && t.value == old(t.value) && t.Contents() == old(t.Contents())
      invariant cu.Br? && t.shape == Plug(cpath, cu) && node == cu.id && above == TopId(cpath)
      invariant InsertFix(cpath, cu, t.balance) == final
      decreases |cpath|
    {
      var more;
      more, ok, node, above, cpath, cu := InsertStep(t, node, above, cpath, cu);
      if !more {
        return;
      }
    }
    AboveApart(cpath, cu, t.parent, t.left, t.right);
    return true;
  }

  /**
    One pass of the climb loop of `insert` at `above`, the parent of `node` (the root of
    `u`): the balance update by the side `node` hangs on, then the stop at 0, the rebalance
    at two away from zero, or the move one level up.
  */
  method InsertStep(t: BinarySearchTree, node: int, above: int, ghost path: Path, ghost u: Shape)
    returns (more: bool, ok: bool, node': int, above': int, ghost path': Path, ghost u': Shape)
    requires t.Valid() && u.Br? && t.shape == Plug(path, u) && node == u.id && above == TopId(path) && above != Null
    modifies t
    ensures t.Valid() && t.key == old(t.key) && t.value == old(t.value) && t.Contents() == old(t.Contents())
    ensures var f := InsertFix(path, u, old(t.balance));
      && (!more ==> ok == f.Ok? && (ok ==> t.shape == f.t && t.balance == f.bal))
      && (more ==> && u'.Br? && t.shape == Plug(path', u') && node' == u'.id && above' == TopId(path')
                   && |path'| < |path| && InsertFix(path', u', t.balance) == f)
  {
    ghost var w := Wrap(Last(path), u);
    AboveApart(path, u, t.parent, t.left, t.right);
    InsertFixStep(path, u, t.balance);
    PlugIds(Up(path), w);
    if node == t.left[above] {
      UpdateBalance(t, above, -1);
    } else {
      UpdateBalance(t, above, 1);
    }
    if t.balance[above] == 0 {
      return false, true, node, above, path, u;
    } else if t.balance[above] == 2 || t.balance[above] == -2 {
      PathToUnique(Up(path), w);
      ok := Rebalance(t, above);
      return false, ok, node, above, path, u;
    }
    NodeLinks(Up(path), w, t.parent, t.left, t.right);
    more, ok, node', above' := true, true, above, t.parent[above];
    path', u' := Up(path), w;
  }

  /**
    AVL `insert`: an existing key has its value overwritten and nothing else changes; a
    new key gets a leaf with balance 0 where the search falls off (or as the root),
    followed by the climb. `ok` is false where a rotation would follow a null child.
  */
  method Insert(t: BinarySearchTree, k: int, v: int) returns (ok: bool)
    requires t.Valid()
    modifies t
    ensures t.Valid() && t.Contents() == old(t.Contents())[k := v]
    ensures k in old(t.Contents()) ==> ok && t.shape == old(t.shape) && t.balance == old(t.balance)
    ensures k !in old(t.Contents()) ==>
      var r := InsertResult(old(t.shape), old(t.key), old(t.balance), k);
      && ok == r.Ok? && t.key == old(t.key) + [k] && t.value == old(t.value) + [v]
      && (ok ==> t.shape == r.t && t.balance == r.bal)
  {
    var n := |t.key|;
    ghost var s0, key0 := t.shape, t.key;
    ContentsOfFacts(t.shape, t.key, t.value);
    if t.root == Null {
      assert k !in t.Contents();
      t.AppendNode(k, v, Null, [], Br(Nil, n, Nil));
      AttachContents(s0, old(t.key), old(t.value), k, v);
      PathToUnique([], t.shape);
      return true;
    }
    var found, cur, par, path := t.InsertSearch(k);
    if found {
      OverwriteContents(t.shape, t.key, t.value, cur, v);
      t.value := t.value[cur := v];
      return true;
    }
    t.AppendNode(k, v, par, path, Attach(s0, t.key, k, n));
    AttachContents(s0, old(t.key), old(t.value), k, v);
    AttachDistinct(s0, key0, k);
    PathToUnique(path, Br(Nil, n, Nil));
    ok := InsertClimb(t, n, par, path, Br(Nil, n, Nil));
  }

  // ---------------------------------------------------------------- remove

  /**
    The climb of `remove` at node `u.id`, in the hole of `path`, for the removed key `k`:
    the node moves its balance by +1 when `k` is below its key and by -1 otherwise, is
    rebalanced at two away from zero, and the climb stops unless the node then stands at
    0. It goes on at the node's parent: one level up, or, after a rebalance, the root that
    rose above it (`settled`), where it never rebalances and goes on again.
  */
  ghost function RemoveFix(path: Path, u: Shape, bal: seq<int>, key: seq<int>, k: int, settled: bool): (r: Step)
    requires u.Br? && Distinct(Plug(path, u)) && InArena(Plug(path, u), |bal|) && InArena(Plug(path, u), |key|)
    requires settled ==> Settled(u, bal)
    ensures r.Ok? ==> && |r.bal| == |bal| && Distinct(r.t)
                      && Ids(r.t) == Ids(Plug(path, u)) && InOrder(r.t) == InOrder(Plug(path, u))
    decreases 2 * |path| + (if settled then 0 else 1)
  {
    PlugIds(path, u);
    PlugDistinct(path, u);
    var q := u.id;
    assert q in Ids(u);
    var d := if k < key[q] then 1 else -1;
    var b := bal[q := bal[q] + d];
    if b[q] == 2 || b[q] == -2 then
      match RebalanceAt(u, b)
      case NullDeref => NullDeref
      case Ok(u', b') =>
        PlugSameWalk(path, u, u');
        PlugReplaceDistinct(path, u, u');
        if b'[q] != 0 then Ok(Plug(path, u'), b')
        else if settled then
          SettledStops(u, bal, d);
          assert false;
          NullDeref
        else
          RebalanceSettles(u, b);
          RemoveFix(path, u', b', key, k, true)
    else if b[q] != 0 then Ok(Plug(path, u), b)
    else if path == [] then Ok(u, b)
    else
      PlugIds(Up(path), Wrap(Last(path), u));
      RemoveFix(Up(path), Wrap(Last(path), u), b, key, k, false)
  }

  /** A step of the removal climb at a node that reaches two away from zero: it is rebalanced. */
  lemma RemoveFixRebalances(path: Path, u: Shape, bal: seq<int>, key: seq<int>, k: int, settled: bool, b: seq<int>)
    requires u.Br? && Distinct(Plug(path, u)) && InArena(Plug(path, u), |bal|) && InArena(Plug(path, u), |key|)
    requires settled ==> Settled(u, bal)
    requires 0 <= u.id < |bal| && u.id < |key| && b == bal[u.id := bal[u.id] + (if k < key[u.id] then 1 else -1)]
    requires b[u.id] == 2 || b[u.id] == -2
    ensures Distinct(u) && InArena(u, |b|)
    ensures RebalanceAt(u, b).NullDeref? ==> RemoveFix(path, u, bal, key, k, settled) == NullDeref
    ensures RebalanceAt(u, b).Ok? && RebalanceAt(u, b).bal[u.id] != 0 ==>
      RemoveFix(path, u, bal, key, k, settled) == Ok(Plug(path, RebalanceAt(u, b).t), RebalanceAt(u, b).bal)
    ensures RebalanceAt(u, b).Ok? && RebalanceAt(u, b).bal[u.id] == 0 ==>
      var r := RebalanceAt(u, b);
      && !settled && Settled(r.t, r.bal) && Distinct(Plug(path, r.t))
      && InArena(Plug(path, r.t), |r.bal|) && InArena(Plug(path, r.t), |key|)
      && ((r.t.left.Br? && r.t.left.id == u.id) || (r.t.right.Br? && r.t.right.id == u.id))
      && RemoveFix(path, u, bal, key, k, settled) == RemoveFix(path, r.t, r.bal, key, k, true)
  {
    PlugIds(path, u);
    PlugDistinct(path, u);
    if RebalanceAt(u, b).Ok? {
      var r := RebalanceAt(u, b);
      PlugSameWalk(path, u, r.t);
      PlugReplaceDistinct(path, u, r.t);
      if r.bal[u.id] == 0 {
        if settled {
          SettledStops(u, bal, if k < key[u.id] then 1 else -1);
        }
        RebalanceSettles(u, b);
      }
    }
  }

  /** A step of the removal climb without a rebalance: it stops, or goes one level up. */
  lemma RemoveFixMoves(path: Path, u: Shape, bal: seq<int>, key: seq<int>, k: int, settled: bool, b: seq<int>)
    requires u.Br? && Distinct(Plug(path, u)) && InArena(Plug(path, u), |bal|) && InArena(Plug(path, u), |key|)
    requires settled ==> Settled(u, bal)
    requires 0 <= u.id < |bal| && u.id < |key| && b == bal[u.id := bal[u.id] + (if k < key[u.id] then 1 else -1)]
    requires b[u.id] != 2 && b[u.id] != -2
    ensures b[u.id] != 0 ==> RemoveFix(path, u, bal, key, k, settled) == Ok(Plug(path, u), b)
    ensures b[u.id] == 0 && path == [] ==> RemoveFix(path, u, bal, key, k, settled) == Ok(u, b)
    ensures b[u.id] == 0 && path != [] ==>
      && Plug(Up(path), Wrap(Last(path), u)) == Plug(path, u)
      && RemoveFix(path, u, bal, key, k, settled) == RemoveFix(Up(path), Wrap(Last(path), u), b, key, k, false)
  {
  }

  /** The children of a node of an encoded tree point back to it. */
  lemma ChildrenParent(path: Path, w: Shape, P: seq<int>, L: seq<int>, R: seq<int>)
    requires Encoded(Plug(path, w), P, L, R) && w.Br?
    ensures w.left.Br? ==> 0 <= w.left.id < |P| && P[w.left.id] == w.id
    ensures w.right.Br? ==> 0 <= w.right.id < |P| && P[w.right.id] == w.id
  {
    if w.left.Br? {
      var down := path + [GoLeft(w.id, w.right)];
      assert Plug(down, w.left) == Plug(path, w);
      NodeLinks(down, w.left, P, L, R);
    }
    if w.right.Br? {
      var down := path + [GoRight(w.left, w.id)];
      assert Plug(down, w.right) == Plug(path, w);
      NodeLinks(down, w.right, P, L, R);
    }
  }

  /**
    One pass of the climb loop of `remove` at node `node` (the root of `u`): the balance
    update, the rebalance at two away from zero, and the move to the node's parent.
    With `more` false the climb has ended (`ok` false where a rotation would follow a
    null child pointer); otherwise it goes on at `next`, on a path whose measure fell.
  */
  method RemoveStep(t: BinarySearchTree, node: int, k: int, ghost path: Path, ghost u: Shape, ghost settled: bool)
    returns (more: bool, ok: bool, next: int, ghost path': Path, ghost u': Shape, ghost settled': bool)
    requires t.Valid() && u.Br? && t.shape == Plug(path, u) && node == u.id && (settled ==> Settled(u, t.balance))
    modifies t
    ensures t.Valid() && t.key == old(t.key) && t.value == old(t.value) && t.Contents() == old(t.Contents())
    ensures var f := RemoveFix(path, u, old(t.balance), t.key, k, settled);
      && (!more ==> ok == f.Ok? && (ok ==> t.shape == f.t && t.balance == f.bal))
      && (more && next == Null ==> f == Ok(t.shape, t.balance))
      && (more && next != Null ==>
            && u'.Br? && t.shape == Plug(path', u') && next == u'.id && (settled' ==> Settled(u', t.balance))
            && RemoveFix(path', u', t.balance, t.key, k, settled') == f
            && 2 * |path'| + (if settled' then 0 else 1) < 2 * |path| + (if settled then 0 else 1))
  {
    PlugIds(path, u);
    assert node in Ids(u);
    UpdateBalance(t, node, if k < t.key[node] then 1 else -1);
    if t.balance[node] == 2 || t.balance[node] == -2 {
      more, ok, next, path', u', settled' := RemoveRebalanceStep(t, node, k, path, u, settled, old(t.balance));
      return;
    }
    more, ok, next, path', u', settled' := RemoveMoveStep(t, node, k, path, u, settled, old(t.balance));
  }

  /**
    The rest of a pass of the removal climb at a node whose updated balance is not two
    away from zero: stop unless it is 0, otherwise go on at the node's parent (null at the
    root). `bal` is the balance before the update.
  */
  method RemoveMoveStep(t: BinarySearchTree, node: int, k: int, ghost path: Path, ghost u: Shape, ghost settled: bool,
                        ghost bal: seq<int>)
    returns (more: bool, ok: bool, next: int, ghost path': Path, ghost u': Shape, ghost settled': bool)
    requires t.Valid() && u.Br? && t.shape == Plug(path, u) && node == u.id && (settled ==> Settled(u, bal))
    requires 0 <= node < |bal| && |bal| == |t.balance| && node < |t.key|
    requires t.balance == bal[node := bal[node] + (if k < t.key[node] then 1 else -1)]
    requires t.balance[node] != 2 && t.balance[node] != -2
    ensures var f := RemoveFix(path, u, bal, t.key, k, settled);
      && ok && (more <==> t.balance[node] == 0) && (!more ==> f == Ok(t.shape, t.balance))
      && (more && next == Null ==> f == Ok(t.shape, t.balance))
      && (more && next != Null ==> && u'.Br? && t.shape == Plug(path', u') && next == u'.id && !settled'
                                   && |path'| < |path| && RemoveFix(path', u', t.balance, t.key, k, settled') == f)
  {
    RemoveFixMoves(path, u, bal, t.key, k, settled, t.balance);
    if t.balance[node] != 0 {
      return false, true, Null, path, u, settled;
    }
    NodeLinks(path, u, t.parent, t.left, t.right);
    AboveApart(path, u, t.parent, t.left, t.right);
    more, ok, next := true, true, t.parent[node];
    if path == [] {
      path', u', settled' := path, u, settled;
    } else {
      path', u', settled' := Up(path), Wrap(Last(path), u), false;
    }
  }

  /**
    The rest of a pass of the removal climb at a node whose updated balance is two away
    from zero: `rebalance` there, then stop unless the node stands at 0, in which case the
    climb goes on at the root that rose above it. `bal` is the balance before the update.
  */
  method RemoveRebalanceStep(t: BinarySearchTree, node: int, k: int, ghost path: Path, ghost u: Shape, ghost settled: bool,
                             ghost bal: seq<int>)
    returns (more: bool, ok: bool, next: int, ghost path': Path, ghost u': Shape, ghost settled': bool)
    requires t.Valid() && u.Br? && t.shape == Plug(path, u) && node == u.id && (settled ==> Settled(u, bal))
    requires 0 <= node < |bal| && |bal| == |t.balance| && node < |t.key|
    requires t.balance == bal[node := bal[node] + (if k < t.key[node] then 1 else -1)]
    requires t.balance[node] == 2 || t.balance[node] == -2
    modifies t
    ensures t.Valid() && t.key == old(t.key) && t.value == old(t.value) && t.Contents() == old(t.Contents())
    ensures var f := RemoveFix(path, u, bal, t.key, k, settled);
      && (!more ==> ok == f.Ok? && (ok ==> t.shape == f.t && t.balance == f.bal))
      && (more ==> next != Null && !settled && settled' && path' == path && u'.Br? && t.shape == Plug(path', u')
                   && next == u'.id && Settled(u', t.balance) && RemoveFix(path', u', t.balance, t.key, k, settled') == f)
  {
    ghost var b := t.balance;
    RemoveFixRebalances(path, u, bal, t.key, k, settled, b);
    PathToUnique(path, u);
    ok := Rebalance(t, node);
    if !ok {
      return false, false, Null, path, u, settled;
    }
    if t.balance[node] != 0 {
      return false, true, Null, path, u, settled;
    }
    ghost var r := RebalanceAt(u, b);
    ChildrenParent(path, r.t, t.parent, t.left, t.right);
    PlugIds(path, r.t);
    assert r.t.id in Ids(r.t);
    return true, true, t.parent[node], path, r.t, true;
  }

  /**
    The climb loop of `remove`, from node `q` (the root of `u`) for the removed key `k`.
    `ok` is false where a rotation would follow a null child pointer.
  */
  method RemoveClimb(t: BinarySearchTree, q: int, k: int, ghost path: Path, ghost u: Shape) returns (ok: bool)
    requires t.Valid() && u.Br? && t.shape == Plug(path, u) && q == u.id
    modifies t
    ensures t.Valid() && t.key == old(t.key) && t.value == old(t.value) && t.Contents() == old(t.Contents())
    ensures var r := RemoveFix(path, u, old(t.balance), t.key, k, false);
      ok == r.Ok? && (ok ==> t.shape == r.t && t.balance == r.bal)
  {
    ghost var final := RemoveFix(path, u, t.balance, t.key, k, false);
    ghost var cpath, cu, settled := path, u, false;
    PlugIds(path, u);
    assert q in Ids(u);
    var node := q;
    while node != Null
      invariant t.Valid() && t.key == old(t.key) && t.value == old(t.value) && t.Contents() == old(t.Contents())
      invariant node == Null ==> final == Ok(t.shape, t.balance)
      invariant node != Null ==> && cu.Br? && t.shape == Plug(cpath, cu) && node == cu.id
                                 && (settled ==> Settled(cu, t.balance))
                                 && RemoveFix(cpath, cu, t.balance, t.key, k, settled) == final
      decreases if node == Null then 0 else 2 * |cpath| + (if settled then 1 else 2)
    {
      var more;
      more, ok, node, cpath, cu, settled := RemoveStep(t, node, k, cpath, cu, settled);
      if !more {
        return;
      }
    }
    return true;
  }

  /**
    What `remove` needs of the tree that the plain removal of node `n` leaves: its handles
    are distinct and index the key arena, and the node above `n` before the removal, where
    the climb starts, is still in it.
  */
  ghost predicate RemoveReady(s: Shape, key: seq<int>, bal: seq<int>, n: int)
    requires Distinct(s) && n in Ids(s)
  {
    var s1 := Removed(s, n);
    var p0 := TopId(PathTo(s, n));
    && Distinct(s1) && InArena(s1, |key|) && |bal| == |key|
    && (p0 != Null ==> p0 in Ids(s1))
  }

  /**
    The outcome of the AVL `remove` of node `n` holding `k`: the plain removal, then the
    climb from the node that was `n`'s parent before it (none when `n` was the root).
  */
  ghost function RemoveResult(s: Shape, key: seq<int>, bal: seq<int>, k: int, n: int): (r: Step)
    requires Distinct(s) && n in Ids(s) && RemoveReady(s, key, bal, n)
    ensures r.Ok? ==> |r.bal| == |bal| && Ids(r.t) == Ids(Removed(s, n)) && InOrder(r.t) == InOrder(Removed(s, n))
  {
    var s1 := Removed(s, n);
    var p0 := TopId(PathTo(s, n));
    if p0 == Null then Ok(s1, bal)
    else
      PathToPlug(s1, p0);
      RemoveFix(PathTo(s1, p0), SubtreeAt(s1, p0), bal, key, k, false)
  }

  /** The node above a node of a well-encoded tree is null or another node of the tree. */
  lemma ParentOf(s: Shape, x: int, P: seq<int>, L: seq<int>, R: seq<int>)
    requires Encoded(s, P, L, R) && x in Ids(s)
    ensures 0 <= x < |P| && P[x] == TopId(PathTo(s, x))
    ensures P[x] != Null ==> P[x] in Ids(s) && P[x] != x
  {
    var path, w := PathTo(s, x), SubtreeAt(s, x);
    PathToPlug(s, x);
    NodeLinks(path, w, P, L, R);
    AboveApart(path, w, P, L, R);
    PlugIds(path, w);
  }

  /** The outcome of `remove` of `n`, unfolded: the climb runs on the shape the plain removal left. */
  lemma RemoveResultClimb(s: Shape, s1: Shape, key: seq<int>, bal: seq<int>, k: int, n: int)
    requires Distinct(s) && n in Ids(s) && s1 == Removed(s, n) && Ids(s1) == Ids(s) - {n}
    requires Distinct(s1) && InArena(s1, |key|) && |bal| == |key|
    requires TopId(PathTo(s, n)) != n && (TopId(PathTo(s, n)) != Null ==> TopId(PathTo(s, n)) in Ids(s))
    ensures RemoveReady(s, key, bal, n)
    ensures TopId(PathTo(s, n)) == Null ==> RemoveResult(s, key, bal, k, n) == Ok(s1, bal)
    ensures TopId(PathTo(s, n)) != Null ==>
      var p0 := TopId(PathTo(s, n));
      && Plug(PathTo(s1, p0), SubtreeAt(s1, p0)) == s1
      && RemoveResult(s, key, bal, k, n) == RemoveFix(PathTo(s1, p0), SubtreeAt(s1, p0), bal, key, k, false)
  {
    var p0 := TopId(PathTo(s, n));
    if p0 != Null {
      PathToPlug(s1, p0);
    }
  }

  /** `remove` of a key present at node `node`. */
  method RemovePresent(t: BinarySearchTree, k: int, node: int) returns (ok: bool)
    requires t.Valid() && node in Ids(t.shape) && 0 <= node < |t.key| && t.key[node] == k
    modifies t
    ensures t.Valid() && t.key == old(t.key) && t.value == old(t.value) && t.Contents() == old(t.Contents()) - {k}
    ensures RemoveReady(old(t.shape), t.key, old(t.balance), node)
    ensures var r := RemoveResult(old(t.shape), t.key, old(t.balance), k, node);
      ok == r.Ok? && (ok ==> t.shape == r.t && t.balance == r.bal)
  {
    ghost var s0, b0 := t.shape, t.balance;
    ParentOf(s0, node, t.parent, t.left, t.right);
    OrderedUniqueKeys(s0, t.key);
    var p0 := t.parent[node];
    t.Remove(k);
    ghost var n :| n in Ids(s0) && t.key[n] == k && t.shape == Removed(s0, n) && Ids(t.shape) == Ids(s0) - {n};
    assert n == node;
    RemoveResultClimb(s0, t.shape, t.key, b0, k, node);
    if p0 == Null {
      return true;
    }
    ok := RemoveClimb(t, p0, k, PathTo(t.shape, p0), SubtreeAt(t.shape, p0));
  }

  /**
    `remove`: the plain removal, then the balance climb from the removed node's former
    parent. An absent key changes nothing.
  */
  method Remove(t: BinarySearchTree, k: int) returns (ok: bool)
    requires t.Valid()
    modifies t
    ensures t.Valid() && t.key == old(t.key) && t.value == old(t.value) && t.Contents() == old(t.Contents()) - {k}
    ensures k !in old(t.Contents()) ==> ok && t.shape == old(t.shape) && t.balance == old(t.balance)
    ensures k in old(t.Contents()) ==> exists n | n in Ids(old(t.shape)) && t.key[n] == k ::
      && RemoveReady(old(t.shape), t.key, old(t.balance), n)
      && var r := RemoveResult(old(t.shape), t.key, old(t.balance), k, n);
         ok == r.Ok? && (ok ==> t.shape == r.t && t.balance == r.bal)
  {
    var node := t.InternalFind(k);
    if node == Null {
      return true;
    }
    ghost var s0, b0 := t.shape, t.balance;
    ok := RemovePresent(t, k, node);
    assert RemoveReady(s0, t.key, b0, node);
  }

  // ---------------------------------------------------------------- members no operation calls

  /**
    The AVL `nodeSwap`: the plain swap of two nodes' places, then the two nodes trade
    balance factors, so each factor stays with its place. It reads both nodes' balances
    after the plain swap, which does nothing for a null node: a null argument is a null
    dereference (`ok` false, nothing changed). Its signature takes AVL nodes, so it does not
    take the place of the plain swap that `remove` calls.
  */
  method NodeSwap(t: BinarySearchTree, n1: int, n2: int) returns (ok: bool)
    requires t.Wf() && (n1 == Null || n1 in Ids(t.shape)) && (n2 == Null || n2 in Ids(t.shape))
    modifies t
    ensures t.Wf() && t.key == old(t.key) && t.value == old(t.value)
    ensures ok <==> n1 != Null && n2 != Null
    ensures !ok ==> unchanged(t)
    ensures ok ==> && 0 <= n1 < |t.balance| && 0 <= n2 < |t.balance|
                   && t.balance == old(t.balance)[n1 := old(t.balance)[n2]][n2 := old(t.balance)[n1]]
                   && t.shape == (if n1 == n2 then old(t.shape) else SwapIds(old(t.shape), n1, n2))
  {
    t.NodeSwap(n1, n2);
    if n1 == Null || n2 == Null {
      return false;
    }
    var b1 := t.balance[n1];
    t.balance := t.balance[n1 := t.balance[n2]];
    t.balance := t.balance[n2 := b1];
    ok := true;
  }

  /** `bal` with one taken from the factor of the node above `x` in `s`, if there is one. */
  ghost function ChargeAbove(s: Shape, x: int, bal: seq<int>): (r: seq<int>)
    requires x in Ids(s) && Distinct(s) && InArena(s, |bal|)
    ensures |r| == |bal|
  {
    var p := TopId(PathTo(s, x));
    PathToPlug(s, x);
    PlugIds(PathTo(s, x), SubtreeAt(s, x));
    if p == Null then bal
    else
      assert p in CtxIds(PathTo(s, x));
      bal[p := bal[p] - 1]
  }

  /** The second half of the helper: one off the factor above `x`, on either side. */
  method ChargeParent(t: BinarySearchTree, x: int)
    requires t.Valid() && x in Ids(t.shape)
    modifies t
    ensures t.Valid() && t.shape == old(t.shape) && t.key == old(t.key) && t.value == old(t.value)
    ensures t.balance == ChargeAbove(t.shape, x, old(t.balance))
  {
    ParentOf(t.shape, x, t.parent, t.left, t.right);
    var p := t.parent[x];
    if p != Null {
      if x == t.left[p] {
        UpdateBalance(t, p, -1);
      } else {
        UpdateBalance(t, p, -1);
      }
    }
  }

  /**
    The tree's own `updateBalance` helper: rebalance a node whose factor is out of
    [-1, 1], then take one from the factor of the node above it, whichever child it is.
  */
  method UpdateBalanceOf(t: BinarySearchTree, x: int) returns (ok: bool)
    requires t.Valid() && x in Ids(t.shape)
    modifies t
    ensures t.Valid() && t.key == old(t.key) && t.value == old(t.value) && t.Contents() == old(t.Contents())
    ensures var r := RebalanceAt(SubtreeAt(old(t.shape), x), old(t.balance));
      && ok == r.Ok?
      && (ok ==> && t.shape == Plug(PathTo(old(t.shape), x), r.t) && x in Ids(t.shape)
                 && t.balance == ChargeAbove(t.shape, x, r.bal))
    ensures !ok ==> unchanged(t)
  {
    ghost var s0 := t.shape;
    if t.balance[x] < -1 || t.balance[x] > 1 {
      ok := Rebalance(t, x);
      if !ok {
        return;
      }
    } else {
      PathToPlug(s0, x);
      ok := true;
    }
    PlugIds(PathTo(s0, x), RebalanceAt(SubtreeAt(s0, x), old(t.balance)).t);
    assert x in Ids(SubtreeAt(s0, x));
    ChargeParent(t, x);
  }

  // ---------------------------------------------------------------- scenarios

  /** Inserting 30 into the empty tree makes handle 0 the root, with balance 0. */
  lemma InsertScenarioFirst()
    ensures InsertResult(Nil, [], [], 30) == Ok(Br(Nil, 0, Nil), [0])
  {
    var leaf := Br(Nil, 0, Nil);
    assert Attach(Nil, [], 30, 0) == leaf;
    assert Ids(leaf) == {0};
    PathToUnique([], leaf);
    assert [] + [0] == [0];
  }

  /** Inserting 10 below the root 30 hangs handle 1 on its left; the root reaches -1 and the climb ends there. */
  lemma InsertScenarioSecond()
    ensures Distinct(Br(Nil, 0, Nil)) && InArena(Br(Nil, 0, Nil), 1) && 10 !in KeySet(Br(Nil, 0, Nil), [30])
    ensures InsertResult(Br(Nil, 0, Nil), [30], [0], 10) == Ok(Br(Br(Nil, 1, Nil), 0, Nil), [-1, 0])
  {
    var s, leaf, path := Br(Nil, 0, Nil), Br(Nil, 1, Nil), [GoLeft(0, Nil)];
    assert Ids(s) == {0};
    assert KeySet(s, [30]) == {30};
    assert Attach(s, [30], 10, 1) == Br(leaf, 0, Nil);
    assert Plug(path, leaf) == Br(leaf, 0, Nil);
    assert Ids(Br(leaf, 0, Nil)) == {0, 1};
    PathToUnique(path, leaf);
    assert [0] + [0] == [0, 0];
    InsertFixStep(path, leaf, [0, 0]);
    assert Last(path) == GoLeft(0, Nil) && Up(path) == [];
    assert Wrap(GoLeft(0, Nil), leaf) == Br(leaf, 0, Nil);
    assert [0, 0][0 := 0 + -1] == [-1, 0];
  }

  /** The tree of 30 over 10 (handles 0 and 1) is AVL with exact balances. */
  lemma InsertScenarioStart()
    ensures var s, key, bal := Br(Br(Nil, 1, Nil), 0, Nil), [30, 10], [-1, 0];
      AvlValid(s, bal) && Distinct(s) && InArena(s, |key|) && 20 !in KeySet(s, key)
  {
    var s, key := Br(Br(Nil, 1, Nil), 0, Nil), [30, 10];
    assert Ids(s) == {0, 1};
    assert KeySet(s, key) == {30, 10};
  }

  /** Inserting 20 attaches handle 2 as the right child of 10 and climbs from there. */
  lemma InsertScenarioAttach()
    ensures var s, key, bal := Br(Br(Nil, 1, Nil), 0, Nil), [30, 10], [-1, 0];
      && Distinct(s) && InArena(s, |key|) && 20 !in KeySet(s, key)
      && Distinct(Plug([GoLeft(0, Nil), GoRight(Nil, 1)], Br(Nil, 2, Nil)))
      && InArena(Plug([GoLeft(0, Nil), GoRight(Nil, 1)], Br(Nil, 2, Nil)), 3)
      && InsertResult(s, key, bal, 20) == InsertFix([GoLeft(0, Nil), GoRight(Nil, 1)], Br(Nil, 2, Nil), [-1, 0, 0])
  {
    var s, key := Br(Br(Nil, 1, Nil), 0, Nil), [30, 10];
    InsertScenarioStart();
    var s1 := Attach(s, key, 20, 2);
    assert s1 == Br(Br(Nil, 1, Br(Nil, 2, Nil)), 0, Nil);
    AttachDistinct(s, key, 20);
    var leaf := Br(Nil, 2, Nil);
    var path := [GoLeft(0, Nil), GoRight(Nil, 1)];
    assert Plug(path, leaf) == s1;
    PathToUnique(path, leaf);
  }

  /** The climb: 10 reaches +1, 30 reaches -2 and is rebalanced by the double rotation. */
  lemma InsertScenarioClimb()
    requires Distinct(Plug([GoLeft(0, Nil), GoRight(Nil, 1)], Br(Nil, 2, Nil)))
    requires InArena(Plug([GoLeft(0, Nil), GoRight(Nil, 1)], Br(Nil, 2, Nil)), 3)
    ensures InsertFix([GoLeft(0, Nil), GoRight(Nil, 1)], Br(Nil, 2, Nil), [-1, 0, 0])
         == Ok(Br(Br(Nil, 1, Nil), 2, Br(Nil, 0, Nil)), [0, 1, 0])
  {
    var leaf := Br(Nil, 2, Nil);
    assert Plug([GoLeft(0, Nil), GoRight(Nil, 1)], leaf) == Br(Br(Nil, 1, leaf), 0, Nil);
    InsertScenarioShape();
    InsertFixStep([GoLeft(0, Nil), GoRight(Nil, 1)], leaf, [-1, 0, 0]);
    assert Last([GoLeft(0, Nil), GoRight(Nil, 1)]) == GoRight(Nil, 1);
    assert Up([GoLeft(0, Nil), GoRight(Nil, 1)]) == [GoLeft(0, Nil)];
    assert Wrap(GoRight(Nil, 1), leaf) == Br(Nil, 1, leaf);
    assert [-1, 0, 0][1 := 0 + 1] == [-1, 1, 0];
    assert Plug([GoLeft(0, Nil)], Br(Nil, 1, leaf)) == Br(Br(Nil, 1, leaf), 0, Nil);
    InsertScenarioTop();
  }

  /** The tree after the attach: 30 over 10 over 20 (handles 0, 1, 2). */
  lemma InsertScenarioShape()
    ensures Distinct(Br(Br(Nil, 1, Br(Nil, 2, Nil)), 0, Nil)) && InArena(Br(Br(Nil, 1, Br(Nil, 2, Nil)), 0, Nil), 3)
  {
    assert Ids(Br(Br(Nil, 1, Br(Nil, 2, Nil)), 0, Nil)) == {0, 1, 2};
  }

  /** At the root: 30 reaches -2 over 10, which leans right, and the double rotation runs. */
  lemma InsertScenarioTop()
    requires Distinct(Plug([GoLeft(0, Nil)], Br(Nil, 1, Br(Nil, 2, Nil))))
    requires InArena(Plug([GoLeft(0, Nil)], Br(Nil, 1, Br(Nil, 2, Nil))), 3)
    ensures InsertFix([GoLeft(0, Nil)], Br(Nil, 1, Br(Nil, 2, Nil)), [-1, 1, 0])
         == Ok(Br(Br(Nil, 1, Nil), 2, Br(Nil, 0, Nil)), [0, 1, 0])
  {
    var w := Br(Nil, 1, Br(Nil, 2, Nil));
    assert Plug([GoLeft(0, Nil)], w) == Br(w, 0, Nil);
    assert Last([GoLeft(0, Nil)]) == GoLeft(0, Nil) && Up([GoLeft(0, Nil)]) == [];
    assert Wrap(GoLeft(0, Nil), w) == Br(w, 0, Nil);
    assert [-1, 1, 0][0 := -1 + -1] == [-2, 1, 0];
    DoubleRotationStale();
  }

  /**
    Inserting 20 into the AVL tree of 30 over 10 (handles 0 and 1) climbs to the root at
    balance -2 and runs the double rotation: 20 (handle 2) becomes the root, but 10, now a
    leaf, keeps the +1 it reached on the way up.
  */
  lemma InsertStaleScenario()
    ensures InsertResult(Nil, [], [], 30) == Ok(Br(Nil, 0, Nil), [0])
    ensures Distinct(Br(Nil, 0, Nil)) && InArena(Br(Nil, 0, Nil), 1) && 10 !in KeySet(Br(Nil, 0, Nil), [30])
      && InsertResult(Br(Nil, 0, Nil), [30], [0], 10) == Ok(Br(Br(Nil, 1, Nil), 0, Nil), [-1, 0])
    ensures var s, key, bal := Br(Br(Nil, 1, Nil), 0, Nil), [30, 10], [-1, 0];
      && AvlValid(s, bal) && Distinct(s) && InArena(s, |key|) && 20 !in KeySet(s, key)
      && InsertResult(s, key, bal, 20) == Ok(Br(Br(Nil, 1, Nil), 2, Br(Nil, 0, Nil)), [0, 1, 0])
      && !BalanceExact(Br(Br(Nil, 1, Nil), 2, Br(Nil, 0, Nil)), [0, 1, 0])
  {
    InsertScenarioFirst();
    InsertScenarioSecond();
    InsertScenarioStart();
    InsertScenarioAttach();
    InsertScenarioClimb();
    DoubleRotationStale();
  }

  /** The plain removal of the root of 10 < 20 < 30 (handles 1, 0, 2): 10 takes its place. */
  lemma RemoveScenarioRemoved()
    ensures var s := Br(Br(Nil, 1, Nil), 0, Br(Nil, 2, Nil));
      && Distinct(s) && 0 in Ids(s) && Removed(s, 0) == Br(Nil, 1, Br(Nil, 2, Nil))
  {
    var s := Br(Br(Nil, 1, Nil), 0, Br(Nil, 2, Nil));
    assert Ids(s) == {0, 1, 2};
    assert InOrder(s) == [1, 0, 2];
    assert IndexOf([1, 0, 2], 0) == 1;
    assert PrevIn(InOrder(s), 0) == 1;
    var s1 := SwapIds(s, 0, 1);
    assert s1 == Br(Br(Nil, 0, Nil), 1, Br(Nil, 2, Nil));
    var path := [GoLeft(1, Br(Nil, 2, Nil))];
    assert Plug(path, Br(Nil, 0, Nil)) == s1;
    assert Ids(s1) == {0, 1, 2};
    PathToUnique(path, Br(Nil, 0, Nil));
    assert Plug(path, Nil) == Br(Nil, 1, Br(Nil, 2, Nil));
  }

  /**
    Removing 20 from the perfect AVL tree 20 over 10 and 30 (handles 0, 1, 2): the root
    has two children, so it trades places with 10 and is spliced out. The climb starts
    at the root's parent, which is null, so no balance changes: 10 is the root again with
    a right child but still records 0.
  */
  lemma RemoveStaleScenario()
    ensures var s, key, bal := Br(Br(Nil, 1, Nil), 0, Br(Nil, 2, Nil)), [20, 10, 30], [0, 0, 0];
      && AvlValid(s, bal) && Distinct(s) && 0 in Ids(s) && RemoveReady(s, key, bal, 0)
      && RemoveResult(s, key, bal, 20, 0) == Ok(Br(Nil, 1, Br(Nil, 2, Nil)), bal)
      && !BalanceExact(Br(Nil, 1, Br(Nil, 2, Nil)), bal)
  {
    var s, key, bal := Br(Br(Nil, 1, Nil), 0, Br(Nil, 2, Nil)), [20, 10, 30], [0, 0, 0];
    var s1 := Br(Nil, 1, Br(Nil, 2, Nil));
    RemoveScenarioRemoved();
    RemoveScenarioShapes();
    assert PathTo(s, 0) == [];
    RemoveResultClimb(s, s1, key, bal, 20, 0);
  }

  /** The trees before and after the plain removal, with their handles and balances. */
  lemma RemoveScenarioShapes()
    ensures var s, s1, bal := Br(Br(Nil, 1, Nil), 0, Br(Nil, 2, Nil)), Br(Nil, 1, Br(Nil, 2, Nil)), [0, 0, 0];
      && AvlValid(s, bal) && Ids(s) == {0, 1, 2}
      && Ids(s1) == {1, 2} && Distinct(s1) && InArena(s1, 3) && !BalanceExact(s1, bal)
  {
    assert Ids(Br(Nil, 1, Br(Nil, 2, Nil))) == {1, 2};
  }
}
