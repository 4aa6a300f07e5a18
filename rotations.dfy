/**
  Rotations of the AVL layer (avlbst.h), on shapes and on the pointer arrays.

  `RotL` and `RotR` are the local re-arrangements `rotateLeft` and `rotateRight`
  perform; `LeftTable` and `RightTable` are the closed-form balance updates they
  write afterwards. The lemmas show that a rotation keeps the in-order walk and
  the pointer encoding, that the tables are right for a single rotation of a
  node leaning by two, and where they go wrong.
*/
module Rotations {
  import opened Shapes
  import opened Bst

  /** `rotateLeft` at the root of `t`: the right child rises, the root becomes its left child. */
  function RotL(t: Shape): Shape
    requires t.Br? && t.right.Br?
  {
    Br(Br(t.left, t.id, t.right.left), t.right.id, t.right.right)
  }

  /** `rotateRight` at the root of `t`: the left child rises, the root becomes its right child. */
  function RotR(t: Shape): Shape
    requires t.Br? && t.left.Br?
  {
    Br(t.left.left, t.left.id, Br(t.left.right, t.id, t.right))
  }

  /** Rotating left then right at the risen node gives back the original subtree. */
  lemma RotationsInverse(t: Shape)
    requires t.Br? && t.right.Br?
    ensures RotL(t).left.Br? && RotR(RotL(t)) == t
    ensures t.left.Br? ==> RotR(t).right.Br? && RotL(RotR(t)) == t
  {
  }

  /** A rotation keeps the handles, their distinctness and the in-order walk. */
  lemma RotLFacts(t: Shape)
    requires t.Br? && t.right.Br?
    ensures Ids(RotL(t)) == Ids(t) && (Distinct(t) ==> Distinct(RotL(t)))
    ensures InOrder(RotL(t)) == InOrder(t)
  {
    Regrouped(t.left, t.id, t.right.left, t.right.id, t.right.right);
  }

  lemma RotRFacts(t: Shape)
    requires t.Br? && t.left.Br?
    ensures Ids(RotR(t)) == Ids(t) && (Distinct(t) ==> Distinct(RotR(t)))
    ensures InOrder(RotR(t)) == InOrder(t)
  {
    Regrouped(t.left.left, t.left.id, t.left.right, t.id, t.right);
  }

  /** `A x (B y C)` and `(A x B) y C` have the same handles, distinctness and in-order walk. */
  lemma Regrouped(A: Shape, x: int, B: Shape, y: int, C: Shape)
    ensures Ids(Br(A, x, Br(B, y, C))) == Ids(Br(Br(A, x, B), y, C))
    ensures Distinct(Br(A, x, Br(B, y, C))) <==> Distinct(Br(Br(A, x, B), y, C))
    ensures InOrder(Br(A, x, Br(B, y, C))) == InOrder(Br(Br(A, x, B), y, C))
  {
    DistinctBr(A, x, Br(B, y, C));
    DistinctBr(B, y, C);
    DistinctBr(A, x, B);
    DistinctBr(Br(A, x, B), y, C);
    RotIds(Ids(A), x, Ids(B), y, Ids(C));
    Regroup3(InOrder(A) + [x], InOrder(B), [y] + InOrder(C));
  }

  /** Distinctness of a node, spelt out. */
  lemma DistinctBr(l: Shape, i: int, r: Shape)
    ensures Ids(Br(l, i, r)) == Ids(l) + {i} + Ids(r)
    ensures Distinct(Br(l, i, r)) <==> i !in Ids(l) && i !in Ids(r) && Ids(l) !! Ids(r) && Distinct(l) && Distinct(r)
  {
  }

  /** The set facts behind both rotations: regrouping `A x (B y C)` as `(A x B) y C`. */
  lemma RotIds(A: set<int>, x: int, B: set<int>, y: int, C: set<int>)
    ensures A + {x} + (B + {y} + C) == (A + {x} + B) + {y} + C
    ensures (x !in A && x !in B + {y} + C && A !! B + {y} + C && y !in B && y !in C && B !! C)
        <==> (y !in A + {x} + B && y !in C && A + {x} + B !! C && x !in A && x !in B && A !! B)
  {
  }

  /** Arrays that agree with `P`, `L`, `R` outside the four nodes a rotation at `x` touches. */
  ghost predicate SameElsewhere(P: seq<int>, L: seq<int>, R: seq<int>, P': seq<int>, L': seq<int>, R': seq<int>,
                                x: int, y: int, g: int, p: int) {
    && |P'| == |P| && |L'| == |L| && |R'| == |R|
    && forall i | 0 <= i < |P| && i != x && i != y && i != g && i != p ::
         i < |L| && i < |R| && P'[i] == P[i] && L'[i] == L[i] && R'[i] == R[i]
  }

  /**
    Replacing the subtree in the hole of `path` by a tree `t'` on the same handles:
    the new arrays encode `t'` below the path's bottom node `p`, agree with the old
    ones away from `t` and `p`, and `p` points down to the new root on the same side.
  */
  lemma ReplaceSubtree(path: Path, t: Shape, t': Shape, P: seq<int>, L: seq<int>, R: seq<int>,
                       P': seq<int>, L': seq<int>, R': seq<int>)
    requires Encoded(Plug(path, t), P, L, R)
    requires Distinct(t') && Ids(t') == Ids(t)
    requires |P'| == |P| && |L'| == |L| && |R'| == |R|
    requires forall i | i in Ids(Plug(path, t)) && i !in Ids(t) && i != TopId(path) ::
               P'[i] == P[i] && L'[i] == L[i] && R'[i] == R[i]
    requires path != [] ==> var p := TopId(path);
      && 0 <= p < |P| && P'[p] == P[p]
      && L'[p] == (if Last(path).GoLeft? then RootId(t') else L[p])
      && R'[p] == (if Last(path).GoRight? then RootId(t') else R[p])
    requires Under(t', TopId(path), P', L', R')
    ensures Encoded(Plug(path, t'), P', L', R')
  {
    EncodedUnder(path, t, P, L, R);
    EncodedCtx(path, t, P, L, R);
    PlugIds(path, t);
    if path != [] {
      var p := TopId(path);
      assert p in CtxIds(path);
      assert Links(P[p], L[p], R[p]) == CtxAt(path, RootId(t), p);
    }
    assert InArena(t', |P'|);
    ReplaceEncoded(path, t, t', P, L, R, P', L', R');
  }

  /**
    The pointers after `rotateLeft(x)` encode the rotated tree: `x`'s right pointer
    takes the grandchild `g`, `g` points up to `x`, the pivot `y` takes `x`'s parent
    `p` and `x` as its left child, and `p` points down to `y` on `x`'s side.
  */
  lemma RotateLeftEncoded(path: Path, t: Shape, P: seq<int>, L: seq<int>, R: seq<int>,
                          P': seq<int>, L': seq<int>, R': seq<int>)
    requires Encoded(Plug(path, t), P, L, R) && t.Br? && t.right.Br?
    requires var x, y, g, p := t.id, t.right.id, RootId(t.right.left), TopId(path);
      && SameElsewhere(P, L, R, P', L', R', x, y, g, p)
      && 0 <= x < |P| && 0 <= y < |P|
      && P'[x] == y && L'[x] == L[x] && R'[x] == g
      && P'[y] == p && L'[y] == x && R'[y] == R[y]
      && (g != Null ==> 0 <= g < |P| && P'[g] == x && L'[g] == L[g] && R'[g] == R[g])
      && (path != [] ==> 0 <= p < |P| && P'[p] == P[p]
                         && L'[p] == (if Last(path).GoLeft? then y else L[p])
                         && R'[p] == (if Last(path).GoRight? then y else R[p]))
    ensures Encoded(Plug(path, RotL(t)), P', L', R')
  {
    var p := TopId(path);
    EncodedUnder(path, t, P, L, R);
    PlugIds(path, t);
    if path != [] {
      assert p in CtxIds(path);
    }
    RotLUnder(t, p, P, L, R, P', L', R');
    RotLFacts(t);
    ReplaceSubtree(path, t, RotL(t), P, L, R, P', L', R');
  }

  /** The rotated subtree is encoded below the same parent. */
  lemma RotLUnder(t: Shape, p: int, P: seq<int>, L: seq<int>, R: seq<int>,
                  P': seq<int>, L': seq<int>, R': seq<int>)
    requires Distinct(t) && Under(t, p, P, L, R) && t.Br? && t.right.Br? && p !in Ids(t)
    requires |P| == |L| == |R|
    requires var x, y, g := t.id, t.right.id, RootId(t.right.left);
      && 0 <= x < |P| && 0 <= y < |P|
      && SameElsewhere(P, L, R, P', L', R', x, y, g, p)
      && P'[x] == y && L'[x] == L[x] && R'[x] == g
      && P'[y] == p && L'[y] == x && R'[y] == R[y]
      && (g != Null ==> 0 <= g < |P| && P'[g] == x && L'[g] == L[g] && R'[g] == R[g])
    ensures Under(RotL(t), p, P', L', R')
  {
    var A, x, B, y, C := t.left, t.id, t.right.left, t.right.id, t.right.right;
    UnderSplit(t, p, P, L, R);
    UnderSplit(t.right, x, P, L, R);
    DistinctBr(A, x, t.right);
    DistinctBr(B, y, C);
    assert B.Br? ==> B.id in Ids(B);
    UnderFrame(A, x, P, L, R, P', L', R');
    UnderFrame(C, y, P, L, R, P', L', R');
    Reparent(B, y, x, P, L, R, P', L', R');
    UnderBr(A, x, B, y, P', L', R');
    RotLFacts(t);
    UnderBr(Br(A, x, B), y, C, p, P', L', R');
  }

  /** The mirror image of `RotateLeftEncoded`, for `rotateRight(x)` with pivot `y` = `x`'s left child. */
  lemma RotateRightEncoded(path: Path, t: Shape, P: seq<int>, L: seq<int>, R: seq<int>,
                           P': seq<int>, L': seq<int>, R': seq<int>)
    requires Encoded(Plug(path, t), P, L, R) && t.Br? && t.left.Br?
    requires var x, y, g, p := t.id, t.left.id, RootId(t.left.right), TopId(path);
      && SameElsewhere(P, L, R, P', L', R', x, y, g, p)
      && 0 <= x < |P| && 0 <= y < |P|
      && P'[x] == y && L'[x] == g && R'[x] == R[x]
      && P'[y] == p && L'[y] == L[y] && R'[y] == x
      && (g != Null ==> 0 <= g < |P| && P'[g] == x && L'[g] == L[g] && R'[g] == R[g])
      && (path != [] ==> 0 <= p < |P| && P'[p] == P[p]
                         && L'[p] == (if Last(path).GoLeft? then y else L[p])
                         && R'[p] == (if Last(path).GoRight? then y else R[p]))
    ensures Encoded(Plug(path, RotR(t)), P', L', R')
  {
    var p := TopId(path);
    EncodedUnder(path, t, P, L, R);
    PlugIds(path, t);
    if path != [] {
      assert p in CtxIds(path);
    }
    RotRUnder(t, p, P, L, R, P', L', R');
    RotRFacts(t);
    ReplaceSubtree(path, t, RotR(t), P, L, R, P', L', R');
  }

  lemma RotRUnder(t: Shape, p: int, P: seq<int>, L: seq<int>, R: seq<int>,
                  P': seq<int>, L': seq<int>, R': seq<int>)
    requires Distinct(t) && Under(t, p, P, L, R) && t.Br? && t.left.Br? && p !in Ids(t)
    requires |P| == |L| == |R|
    requires var x, y, g := t.id, t.left.id, RootId(t.left.right);
      && 0 <= x < |P| && 0 <= y < |P|
      && SameElsewhere(P, L, R, P', L', R', x, y, g, p)
      && P'[x] == y && L'[x] == g && R'[x] == R[x]
      && P'[y] == p && L'[y] == L[y] && R'[y] == x
      && (g != Null ==> 0 <= g < |P| && P'[g] == x && L'[g] == L[g] && R'[g] == R[g])
    ensures Under(RotR(t), p, P', L', R')
  {
    var A, y, B, x, C := t.left.left, t.left.id, t.left.right, t.id, t.right;
    UnderSplit(t, p, P, L, R);
    UnderSplit(t.left, x, P, L, R);
    DistinctBr(t.left, x, C);
    DistinctBr(A, y, B);
    assert B.Br? ==> B.id in Ids(B);
    UnderFrame(A, y, P, L, R, P', L', R');
    UnderFrame(C, x, P, L, R, P', L', R');
    Reparent(B, y, x, P, L, R, P', L', R');
    UnderBr(B, x, C, y, P', L', R');
    RotRFacts(t);
    UnderBr(A, y, Br(B, x, C), p, P', L', R');
  }

  // ---------------------------------------------------------------- balance tables

  /**
    The balances `rotateLeft(x)` writes, with `y` the old right child of `x` and `g`
    the old left child of `y`: the case table assumes `x` leaned right by two.
  */
  function LeftTable(bal: seq<int>, x: int, y: int, g: int): (r: seq<int>)
    requires 0 <= x < |bal| && 0 <= y < |bal| && -1 <= g < |bal|
    ensures |r| == |bal| && forall i | 0 <= i < |bal| && i != x && i != y && i != g :: r[i] == bal[i]
  {
    if bal[y] == 1 then bal[x := 0][y := 0]
    else if bal[y] == 0 then bal[x := 1][y := -1]
    else if g == Null then bal
    else if bal[g] == 1 then bal[x := 0][y := -1][g := 0]
    else if bal[g] == -1 then bal[x := 1][y := 0][g := 0]
    else bal[x := 0][y := 0][g := 0]
  }

  /** The sign-mirrored table of `rotateRight(x)`, with `y` the old left child of `x` and `g` its old right child. */
  function RightTable(bal: seq<int>, x: int, y: int, g: int): (r: seq<int>)
    requires 0 <= x < |bal| && 0 <= y < |bal| && -1 <= g < |bal|
    ensures |r| == |bal| && forall i | 0 <= i < |bal| && i != x && i != y && i != g :: r[i] == bal[i]
  {
    if bal[y] == -1 then bal[x := 0][y := 0]
    else if bal[y] == 0 then bal[x := -1][y := 1]
    else if g == Null then bal
    else if bal[g] == -1 then bal[x := 0][y := 1][g := 0]
    else if bal[g] == 1 then bal[x := -1][y := 0][g := 0]
    else bal[x := 0][y := 0][g := 0]
  }

  /** `LeftTable` for a rotation at the root of `t`. */
  function LeftBal(t: Shape, bal: seq<int>): (r: seq<int>)
    requires t.Br? && t.right.Br? && InArena(t, |bal|)
    ensures |r| == |bal|
  {
    assert t.right.id in Ids(t.right) && (t.right.left.Br? ==> t.right.left.id in Ids(t.right.left));
    assert t.id in Ids(t) && t.right.id in Ids(t);
    assert t.right.left.Br? ==> t.right.left.id in Ids(t);
    LeftTable(bal, t.id, t.right.id, RootId(t.right.left))
  }

  /** `RightTable` for a rotation at the root of `t`. */
  function RightBal(t: Shape, bal: seq<int>): (r: seq<int>)
    requires t.Br? && t.left.Br? && InArena(t, |bal|)
    ensures |r| == |bal|
  {
    assert t.left.id in Ids(t.left) && (t.left.right.Br? ==> t.left.right.id in Ids(t.left.right));
    assert t.id in Ids(t) && t.left.id in Ids(t);
    assert t.left.right.Br? ==> t.left.right.id in Ids(t);
    RightTable(bal, t.id, t.left.id, RootId(t.left.right))
  }

  // ---------------------------------------------------------------- rebalance

  /** What `rebalance` does to a subtree: the rebuilt subtree and balances, or a dereference of null. */
  datatype Step = NullDeref | Ok(t: Shape, bal: seq<int>)

  /**
    `rebalance` at the root `x` of `t`: at balance -2 a right rotation, preceded by a left
    rotation of the left child when that child leans right; the mirror at +2; otherwise
    nothing. A missing child that the source would dereference gives `NullDeref`.
  */
  function RebalanceAt(t: Shape, bal: seq<int>): (r: Step)
    requires t.Br? && Distinct(t) && InArena(t, |bal|)
    ensures r.Ok? ==> |r.bal| == |bal| && Ids(r.t) == Ids(t) && Distinct(r.t) && InOrder(r.t) == InOrder(t)
  {
    assert t.id in Ids(t);
    if bal[t.id] == -2 then
      if t.left == Nil then NullDeref
      else
        assert t.left.id in Ids(t);
        RotRFacts(t);
        if bal[t.left.id] <= 0 then Ok(RotR(t), RightBal(t, bal))
        else if t.left.right == Nil then NullDeref
        else
          var t1 := Br(RotL(t.left), t.id, t.right);
          DistinctBr(t.left, t.id, t.right);
          RotLFacts(t.left);
          RotRFacts(t1);
          DistinctBr(RotL(t.left), t.id, t.right);
          Ok(RotR(t1), RightBal(t1, LeftBal(t.left, bal)))
    else if bal[t.id] == 2 then
      if t.right == Nil then NullDeref
      else
        assert t.right.id in Ids(t);
        RotLFacts(t);
        if bal[t.right.id] >= 0 then Ok(RotL(t), LeftBal(t, bal))
        else if t.right.left == Nil then NullDeref
        else
          var t1 := Br(t.left, t.id, RotR(t.right));
          DistinctBr(t.left, t.id, t.right);
          RotRFacts(t.right);
          RotLFacts(t1);
          DistinctBr(t.left, t.id, RotR(t.right));
          Ok(RotL(t1), LeftBal(t1, RightBal(t.right, bal)))
    else Ok(t, bal)
  }

  /** The cases of `RebalanceAt` at a node leaning left by two. */
  lemma RebalanceLeftHeavy(t: Shape, bal: seq<int>)
    requires t.Br? && Distinct(t) && InArena(t, |bal|) && 0 <= t.id < |bal| && bal[t.id] == -2
    ensures t.left.Nil? ==> RebalanceAt(t, bal) == NullDeref
    ensures t.left.Br? ==> 0 <= t.left.id < |bal| && InArena(t.left, |bal|)
    ensures t.left.Br? && bal[t.left.id] <= 0 ==> RebalanceAt(t, bal) == Ok(RotR(t), RightBal(t, bal))
    ensures t.left.Br? && bal[t.left.id] > 0 && t.left.right.Nil? ==> RebalanceAt(t, bal) == NullDeref
    ensures t.left.Br? && bal[t.left.id] > 0 && t.left.right.Br? ==>
      var t1 := Br(RotL(t.left), t.id, t.right);
      InArena(t1, |bal|) && RebalanceAt(t, bal) == Ok(RotR(t1), RightBal(t1, LeftBal(t.left, bal)))
  {
    if t.left.Br? {
      assert t.left.id in Ids(t);
      if t.left.right.Br? {
        RotLFacts(t.left);
      }
    }
  }

  /** The cases of `RebalanceAt` at a node leaning right by two. */
  lemma RebalanceRightHeavy(t: Shape, bal: seq<int>)
    requires t.Br? && Distinct(t) && InArena(t, |bal|) && 0 <= t.id < |bal| && bal[t.id] == 2
    ensures t.right.Nil? ==> RebalanceAt(t, bal) == NullDeref
    ensures t.right.Br? ==> 0 <= t.right.id < |bal| && InArena(t.right, |bal|)
    ensures t.right.Br? && bal[t.right.id] >= 0 ==> RebalanceAt(t, bal) == Ok(RotL(t), LeftBal(t, bal))
    ensures t.right.Br? && bal[t.right.id] < 0 && t.right.left.Nil? ==> RebalanceAt(t, bal) == NullDeref
    ensures t.right.Br? && bal[t.right.id] < 0 && t.right.left.Br? ==>
      var t1 := Br(t.left, t.id, RotR(t.right));
      InArena(t1, |bal|) && RebalanceAt(t, bal) == Ok(RotL(t1), LeftBal(t1, RightBal(t.right, bal)))
  {
    if t.right.Br? {
      assert t.right.id in Ids(t);
      if t.right.left.Br? {
        RotRFacts(t.right);
      }
    }
  }

  /** The left table leaves the rotated node at 0 only with the pivot at 0 or -1. */
  lemma LeftTableSettles(bal: seq<int>, x: int, y: int, g: int)
    requires 0 <= x < |bal| && 0 <= y < |bal| && -1 <= g < |bal| && x != y && x != g && y != g
    requires bal[x] != 0
    ensures LeftTable(bal, x, y, g)[x] == 0 ==> LeftTable(bal, x, y, g)[y] == 0 || LeftTable(bal, x, y, g)[y] == -1
  {
  }

  /** The right table leaves the rotated node at 0 only with the pivot at 0 or +1. */
  lemma RightTableSettles(bal: seq<int>, x: int, y: int, g: int)
    requires 0 <= x < |bal| && 0 <= y < |bal| && -1 <= g < |bal| && x != y && x != g && y != g
    requires bal[x] != 0
    ensures RightTable(bal, x, y, g)[x] == 0 ==> RightTable(bal, x, y, g)[y] == 0 || RightTable(bal, x, y, g)[y] == 1
  {
  }

  /**
    A rebalanced node left at balance 0 is a child of the risen root: the left child at
    +2, where the root ends at 0 or -1, the right child at -2, where it ends at 0 or +1.
  */
  lemma RebalanceSettles(t: Shape, bal: seq<int>)
    requires t.Br? && Distinct(t) && InArena(t, |bal|) && 0 <= t.id < |bal|
    requires (bal[t.id] == 2 || bal[t.id] == -2) && RebalanceAt(t, bal).Ok? && RebalanceAt(t, bal).bal[t.id] == 0
    ensures var r := RebalanceAt(t, bal);
      && r.t.Br? && 0 <= r.t.id < |r.bal|
      && (bal[t.id] == 2 ==> r.t.left.Br? && r.t.left.id == t.id && (r.bal[r.t.id] == 0 || r.bal[r.t.id] == -1))
      && (bal[t.id] == -2 ==> r.t.right.Br? && r.t.right.id == t.id && (r.bal[r.t.id] == 0 || r.bal[r.t.id] == 1))
  {
    var x := t.id;
    if bal[x] == 2 {
      RebalanceRightHeavy(t, bal);
      DistinctBr(t.left, x, t.right);
      var y := t.right.id;
      assert y in Ids(t.right);
      if bal[y] >= 0 {
        DistinctBr(t.right.left, y, t.right.right);
        if t.right.left.Br? {
          assert t.right.left.id in Ids(t.right);
        }
        LeftTableSettles(bal, x, y, RootId(t.right.left));
      } else {
        var g := t.right.left.id;
        DistinctBr(t.right.left, y, t.right.right);
        assert g in Ids(t.right.left) && g in Ids(t.right);
        var b1 := RightBal(t.right, bal);
        var t1 := Br(t.left, x, RotR(t.right));
        RotRFacts(t.right);
        DistinctBr(t.right.left.left, g, t.right.left.right);
        if t.right.left.right.Br? {
          assert t.right.left.right.id in Ids(t.right.left);
        }
        if t.right.left.left.Br? {
          assert t.right.left.left.id in Ids(t.right.left);
        }
        assert b1[x] == bal[x];
        LeftTableSettles(b1, x, g, RootId(t.right.left.left));
      }
    } else {
      RebalanceLeftHeavy(t, bal);
      DistinctBr(t.left, x, t.right);
      var y := t.left.id;
      assert y in Ids(t.left);
      if bal[y] <= 0 {
        DistinctBr(t.left.left, y, t.left.right);
        if t.left.right.Br? {
          assert t.left.right.id in Ids(t.left);
        }
        RightTableSettles(bal, x, y, RootId(t.left.right));
      } else {
        var g := t.left.right.id;
        DistinctBr(t.left.left, y, t.left.right);
        assert g in Ids(t.left.right) && g in Ids(t.left);
        var b1 := LeftBal(t.left, bal);
        RotLFacts(t.left);
        DistinctBr(t.left.right.left, g, t.left.right.right);
        if t.left.right.left.Br? {
          assert t.left.right.left.id in Ids(t.left.right);
        }
        if t.left.right.right.Br? {
          assert t.left.right.right.id in Ids(t.left.right);
        }
        assert b1[x] == bal[x];
        RightTableSettles(b1, x, g, RootId(t.left.right.right));
      }
    }
  }

  /**
    The state `RebalanceSettles` leaves at the risen root `u.id`: the rebalanced child on
    one side with balance 0, and the root leaning at most one step away from that side.
  */
  ghost predicate Settled(u: Shape, bal: seq<int>) {
    && u.Br? && 0 <= u.id < |bal|
    && ((u.left.Br? && 0 <= u.left.id < |bal| && bal[u.left.id] == 0 && (bal[u.id] == 0 || bal[u.id] == -1))
        || (u.right.Br? && 0 <= u.right.id < |bal| && bal[u.right.id] == 0 && (bal[u.id] == 0 || bal[u.id] == 1)))
  }

  /**
    From a settled root one more step of the removal climb may reach two and rebalance,
    but that rebalance never leaves the root at 0.
  */
  lemma SettledStops(u: Shape, bal: seq<int>, d: int)
    requires Distinct(u) && InArena(u, |bal|) && Settled(u, bal) && (d == 1 || d == -1)
    ensures var b := bal[u.id := bal[u.id] + d];
      (b[u.id] == 2 || b[u.id] == -2) && RebalanceAt(u, b).Ok? ==> RebalanceAt(u, b).bal[u.id] != 0
  {
    var b := bal[u.id := bal[u.id] + d];
    DistinctBr(u.left, u.id, u.right);
    if b[u.id] == -2 {
      assert u.left.Br? && u.left.id in Ids(u);
      RebalanceLeftHeavy(u, b);
    } else if b[u.id] == 2 {
      assert u.right.Br? && u.right.id in Ids(u);
      RebalanceRightHeavy(u, b);
    }
  }

  // ---------------------------------------------------------------- the AVL invariant

  /** Every node of `s` stores its right height minus its left height. */
  ghost predicate BalanceExact(s: Shape, bal: seq<int>) {
    match s
    case Nil => true
    case Br(l, i, r) =>
      0 <= i < |bal| && bal[i] == Height(r) - Height(l) && BalanceExact(l, bal) && BalanceExact(r, bal)
  }

  /** The AVL invariant: heights balanced at every node and every stored balance exact. */
  ghost predicate AvlValid(s: Shape, bal: seq<int>) {
    HeightBalanced(s) && BalanceExact(s, bal)
  }

  /** Exact balances depend only on the entries of the subtree's own nodes. */
  lemma {:induction false} BalanceExactFrame(s: Shape, bal: seq<int>, bal': seq<int>)
    requires BalanceExact(s, bal)
    requires forall i | i in Ids(s) :: 0 <= i < |bal| && 0 <= i < |bal'| && bal'[i] == bal[i]
    ensures BalanceExact(s, bal')
  {
    match s
    case Nil =>
    case Br(l, i, r) =>
      BalanceExactFrame(l, bal, bal');
      BalanceExactFrame(r, bal, bal');
  }

  /** `b` agrees with `bal` on every node of `s`. */
  ghost predicate Agree(s: Shape, bal: seq<int>, b: seq<int>) {
    forall j | j in Ids(s) :: 0 <= j < |bal| && 0 <= j < |b| && b[j] == bal[j]
  }

  /**
    A node whose parts are AVL under `bal`, whose heights differ by at most one and whose
    entry in `b` is its height difference, is AVL under any `b` that agrees on the parts.
  */
  lemma AvlBr(l: Shape, i: int, r: Shape, bal: seq<int>, b: seq<int>)
    requires AvlValid(l, bal) && AvlValid(r, bal) && Agree(l, bal, b) && Agree(r, bal, b)
    requires 0 <= i < |b| && b[i] == Height(r) - Height(l) && -1 <= b[i] <= 1
    ensures AvlValid(Br(l, i, r), b)
  {
    BalanceExactFrame(l, bal, b);
    BalanceExactFrame(r, bal, b);
  }

  /** The first two rows of the left table, spelt out. */
  lemma LeftTableSingle(t: Shape, bal: seq<int>)
    requires t.Br? && t.right.Br? && InArena(t, |bal|) && 0 <= t.id < |bal| && 0 <= t.right.id < |bal|
    requires bal[t.right.id] == 0 || bal[t.right.id] == 1
    ensures LeftBal(t, bal) == if bal[t.right.id] == 1 then bal[t.id := 0][t.right.id := 0]
                               else bal[t.id := 1][t.right.id := -1]
  {
  }

  /** The first two rows of the right table, spelt out. */
  lemma RightTableSingle(t: Shape, bal: seq<int>)
    requires t.Br? && t.left.Br? && InArena(t, |bal|) && 0 <= t.id < |bal| && 0 <= t.left.id < |bal|
    requires bal[t.left.id] == 0 || bal[t.left.id] == -1
    ensures RightBal(t, bal) == if bal[t.left.id] == -1 then bal[t.id := 0][t.left.id := 0]
                                else bal[t.id := -1][t.left.id := 1]
  {
  }

  /** The handles of `s` are outside the two given ones and inside the arena. */
  ghost predicate Apart(s: Shape, x: int, y: int, n: int) {
    forall j | j in Ids(s) :: 0 <= j < n && j != x && j != y
  }

  /** Balances changed only at `x` and `y` agree on a subtree apart from both. */
  lemma AgreeApart(s: Shape, x: int, y: int, bal: seq<int>, b: seq<int>)
    requires Apart(s, x, y, |bal|) && |b| == |bal|
    requires forall j | 0 <= j < |b| && j != x && j != y :: b[j] == bal[j]
    ensures Agree(s, bal, b)
  {
  }

  /**
    The left rotation of `A x (B y C)` with balances `b` that agree with `bal` off `x`
    and `y`: with `y` leaning right or level and `x` right-heavy by two, the balances
    the table writes are the exact ones and the result is AVL.
  */
  lemma RotLAvl(A: Shape, x: int, B: Shape, y: int, C: Shape, bal: seq<int>, b: seq<int>)
    requires AvlValid(A, bal) && AvlValid(B, bal) && AvlValid(C, bal)
    requires Agree(A, bal, b) && Agree(B, bal, b) && Agree(C, bal, b)
    requires 0 <= x < |b| && 0 <= y < |b|
    requires 1 + (if Height(B) < Height(C) then Height(C) else Height(B)) == Height(A) + 2
    requires Height(B) <= Height(C) <= Height(B) + 1
    requires Height(C) == Height(B) + 1 ==> b[x] == 0 && b[y] == 0
    requires Height(C) == Height(B) ==> b[x] == 1 && b[y] == -1
    ensures AvlValid(Br(Br(A, x, B), y, C), b)
  {
    AvlBr(A, x, B, bal, b);
    BalanceExactFrame(C, bal, b);
    assert Height(Br(A, x, B)) == 1 + Height(B);
  }

  /** The mirror image of `RotLAvl`. */
  lemma RotRAvl(A: Shape, y: int, B: Shape, x: int, C: Shape, bal: seq<int>, b: seq<int>)
    requires AvlValid(A, bal) && AvlValid(B, bal) && AvlValid(C, bal)
    requires Agree(A, bal, b) && Agree(B, bal, b) && Agree(C, bal, b)
    requires 0 <= x < |b| && 0 <= y < |b|
    requires 1 + (if Height(A) < Height(B) then Height(B) else Height(A)) == Height(C) + 2
    requires Height(B) <= Height(A) <= Height(B) + 1
    requires Height(A) == Height(B) + 1 ==> b[x] == 0 && b[y] == 0
    requires Height(A) == Height(B) ==> b[x] == -1 && b[y] == 1
    ensures AvlValid(Br(A, y, Br(B, x, C)), b)
  {
    AvlBr(B, x, C, bal, b);
    BalanceExactFrame(A, bal, b);
    assert Height(Br(B, x, C)) == 1 + Height(B);
  }

  /** The handles of a distinct node's parts avoid the node and lie in the arena. */
  lemma ApartParts(t: Shape, n: int)
    requires t.Br? && t.right.Br? && Distinct(t) && InArena(t, n)
    ensures Apart(t.left, t.id, t.right.id, n) && Apart(t.right.left, t.id, t.right.id, n)
    ensures Apart(t.right.right, t.id, t.right.id, n)
  {
    DistinctBr(t.left, t.id, t.right);
    DistinctBr(t.right.left, t.right.id, t.right.right);
  }

  /** The mirror image of `ApartParts`. */
  lemma ApartPartsMirror(t: Shape, n: int)
    requires t.Br? && t.left.Br? && Distinct(t) && InArena(t, n)
    ensures Apart(t.left.left, t.id, t.left.id, n) && Apart(t.left.right, t.id, t.left.id, n)
    ensures Apart(t.right, t.id, t.left.id, n)
  {
    DistinctBr(t.left, t.id, t.right);
    DistinctBr(t.left.left, t.left.id, t.left.right);
  }

  /**
    The single left rotation of a node leaning right by two, whose right child does not
    lean left, restores the AVL invariant with the balances the table writes.
  */
  lemma SingleLeftRestores(t: Shape, bal: seq<int>)
    requires t.Br? && t.right.Br? && Distinct(t) && InArena(t, |bal|)
    requires AvlValid(t.left, bal) && AvlValid(t.right, bal)
    requires Height(t.right) == Height(t.left) + 2 && 0 <= t.right.id < |bal| && bal[t.right.id] >= 0
    ensures AvlValid(RotL(t), LeftBal(t, bal))
  {
    assert t.id in Ids(t);
    LeftTableSingle(t, bal);
    ApartParts(t, |bal|);
    var b := LeftBal(t, bal);
    AgreeApart(t.left, t.id, t.right.id, bal, b);
    AgreeApart(t.right.left, t.id, t.right.id, bal, b);
    AgreeApart(t.right.right, t.id, t.right.id, bal, b);
    RotLAvl(t.left, t.id, t.right.left, t.right.id, t.right.right, bal, LeftBal(t, bal));
  }

  /** The mirror image of `SingleLeftRestores`. */
  lemma SingleRightRestores(t: Shape, bal: seq<int>)
    requires t.Br? && t.left.Br? && Distinct(t) && InArena(t, |bal|)
    requires AvlValid(t.left, bal) && AvlValid(t.right, bal)
    requires Height(t.left) == Height(t.right) + 2 && 0 <= t.left.id < |bal| && bal[t.left.id] <= 0
    ensures AvlValid(RotR(t), RightBal(t, bal))
  {
    assert t.id in Ids(t);
    RightTableSingle(t, bal);
    ApartPartsMirror(t, |bal|);
    var b := RightBal(t, bal);
    AgreeApart(t.left.left, t.id, t.left.id, bal, b);
    AgreeApart(t.left.right, t.id, t.left.id, bal, b);
    AgreeApart(t.right, t.id, t.left.id, bal, b);
    RotRAvl(t.left.left, t.left.id, t.left.right, t.id, t.right, bal, RightBal(t, bal));
  }

  /**
    Where `rebalance` is right: at a node whose subtrees are AVL, whose stored balance is
    exact and at most two away from zero, and whose heavy child does not lean the other
    way, it succeeds and leaves an AVL subtree.
  */
  lemma RebalanceRestores(t: Shape, bal: seq<int>)
    requires t.Br? && Distinct(t) && InArena(t, |bal|) && 0 <= t.id < |bal|
    requires AvlValid(t.left, bal) && AvlValid(t.right, bal)
    requires bal[t.id] == Height(t.right) - Height(t.left) && -2 <= bal[t.id] <= 2
    requires bal[t.id] == 2 ==> t.right.Br? && 0 <= t.right.id < |bal| && bal[t.right.id] >= 0
    requires bal[t.id] == -2 ==> t.left.Br? && 0 <= t.left.id < |bal| && bal[t.left.id] <= 0
    ensures RebalanceAt(t, bal).Ok? && AvlValid(RebalanceAt(t, bal).t, RebalanceAt(t, bal).bal)
  {
    if bal[t.id] == 2 {
      SingleLeftRestores(t, bal);
    } else if bal[t.id] == -2 {
      SingleRightRestores(t, bal);
    }
  }

  /**
    The double rotation leaves a stale balance: node 0 leaning left by two over node 1,
    which leans right over the leaf 2 (the state after inserting 30, 10, 20). `rebalance`
    builds the right shape, but node 1 ends up a leaf that still records balance +1.
  */
  lemma DoubleRotationStale()
    ensures var t, bal := Br(Br(Nil, 1, Br(Nil, 2, Nil)), 0, Nil), [-2, 1, 0];
      && AvlValid(t.left, bal) && bal[0] == Height(t.right) - Height(t.left)
      && RebalanceAt(t, bal) == Ok(Br(Br(Nil, 1, Nil), 2, Br(Nil, 0, Nil)), [0, 1, 0])
      && HeightBalanced(RebalanceAt(t, bal).t) && !BalanceExact(RebalanceAt(t, bal).t, RebalanceAt(t, bal).bal)
  {
    var t, bal := Br(Br(Nil, 1, Br(Nil, 2, Nil)), 0, Nil), [-2, 1, 0];
    assert Ids(t) == {0, 1, 2};
    assert LeftBal(t.left, bal) == [-2, 1, -1];
  }

  /**
    With a null grandchild the table's last case writes nothing: a pivot leaning the
    wrong way leaves both the rotated node and the pivot with their old balances.
  */
  lemma NullGrandchildSkips(t: Shape, bal: seq<int>)
    requires t.Br? && t.right.Br? && InArena(t, |bal|) && 0 <= t.right.id < |bal|
    requires t.right.left == Nil && bal[t.right.id] != 1 && bal[t.right.id] != 0
    ensures LeftBal(t, bal) == bal
  {
  }
}
