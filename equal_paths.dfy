/**
  The equal-paths validator: does every leaf of a binary tree lie at the same depth?
  The recursion threads one piece of shared state, the depth of the first leaf met, which
  starts at -1 ("no leaf yet"); here it goes in as an argument and comes back in the result.
*/
module EqualPaths {

  /** A binary tree node with only its two child pointers; `Nil` is the null pointer. */
  datatype Tree = Nil | Node(left: Tree, right: Tree)

  /** What `checkIfEqual` returns, together with the final value of its `leafDepth` argument. */
  datatype Check = Check(ok: bool, leafDepth: int)

  /** A node is a leaf when both its children are null. */
  predicate IsLeaf(t: Tree) {
    t.Node? && t.left == Nil && t.right == Nil
  }

  /**
    `checkIfEqual`: null is fine; the first leaf records its depth, every later leaf must
    match it; an inner node checks its left and then its right subtree, one level deeper,
    and both verdicts must hold.
  */
  function CheckIfEqual(t: Tree, depth: int, leafDepth: int): (r: Check)
    ensures leafDepth != -1 ==> r.leafDepth == leafDepth
    ensures leafDepth == -1 && depth >= 0 ==> r.leafDepth == -1 || r.leafDepth >= depth
  {
    match t
    case Nil => Check(true, leafDepth)
    case Node(l, r) =>
      if l == Nil && r == Nil then
        if leafDepth == -1 then Check(true, depth) else Check(depth == leafDepth, leafDepth)
      else
        var left := CheckIfEqual(l, depth + 1, leafDepth);
        var right := CheckIfEqual(r, depth + 1, left.leafDepth);
        Check(left.ok && right.ok, right.leafDepth)
  }

  /**
    `equalPaths`: the check from the root at depth 0, before any leaf is found. It holds
    exactly when all the leaves of the tree lie at one depth.
  */
  function EqualPaths(t: Tree): (r: bool)
    ensures r <==> AllEqual(LeafDepths(t, 0))
  {
    CheckIfEqualMeaning(t, 0, -1);
    AllEqualFirst(LeafDepths(t, 0));
    CheckIfEqual(t, 0, -1).ok
  }

  // ---------------------------------------------------------------- reference

  /** The depths of the leaves of `t`, hung at depth `depth`, from left to right. */
  function LeafDepths(t: Tree, depth: int): (r: seq<int>)
    ensures forall i | 0 <= i < |r| :: r[i] >= depth
  {
    match t
    case Nil => []
    case Node(l, r) =>
      if l == Nil && r == Nil then [depth]
      else LeafDepths(l, depth + 1) + LeafDepths(r, depth + 1)
  }

  /** All the depths in `ds` equal `d`. */
  predicate AllAt(ds: seq<int>, d: int) {
    forall i | 0 <= i < |ds| :: ds[i] == d
  }

  /** All the depths in `ds` are the same. */
  predicate AllEqual(ds: seq<int>) {
    forall i, j | 0 <= i < |ds| && 0 <= j < |ds| :: ds[i] == ds[j]
  }

  // ---------------------------------------------------------------- properties

  /**
    What the recursion computes, for a non-negative depth: a recorded `leafDepth` is never
    changed; an unset one (-1) becomes the depth of the leftmost leaf, or stays -1 when
    there is none; and the verdict holds exactly when every leaf lies at that depth.
  */
  lemma {:induction false} CheckIfEqualMeaning(t: Tree, depth: int, leafDepth: int)
    requires depth >= 0 && leafDepth >= -1
    ensures var c, ds := CheckIfEqual(t, depth, leafDepth), LeafDepths(t, depth);
      && (leafDepth != -1 ==> c.leafDepth == leafDepth)
      && (leafDepth == -1 ==> c.leafDepth == if ds == [] then -1 else ds[0])
      && (c.ok <==> AllAt(ds, c.leafDepth))
  {
    match t
    case Nil =>
    case Node(l, r) =>
      if l == Nil && r == Nil {
        LeafMeaning(depth, leafDepth);
      } else {
        CheckIfEqualMeaning(l, depth + 1, leafDepth);
        var left := CheckIfEqual(l, depth + 1, leafDepth);
        var dl := LeafDepths(l, depth + 1);
        CheckIfEqualMeaning(r, depth + 1, left.leafDepth);
        var dr := LeafDepths(r, depth + 1);
        var c := CheckIfEqual(t, depth, leafDepth);
        assert LeafDepths(t, depth) == dl + dr;
        if dl == [] {
          assert dl + dr == dr;
        } else if leafDepth == -1 {
          assert (dl + dr)[0] == dl[0];
        }
        AllAtConcat(dl, dr, c.leafDepth);
      }
  }

  /** The leaf case of `CheckIfEqualMeaning`. */
  lemma LeafMeaning(depth: int, leafDepth: int)
    requires depth >= 0 && leafDepth >= -1
    ensures var c := CheckIfEqual(Node(Nil, Nil), depth, leafDepth);
      && LeafDepths(Node(Nil, Nil), depth) == [depth]
      && (leafDepth != -1 ==> c.leafDepth == leafDepth)
      && (leafDepth == -1 ==> c.leafDepth == depth)
      && (c.ok <==> AllAt([depth], c.leafDepth))
  {
    assert AllAt([depth], leafDepth) ==> [depth][0] == leafDepth;
  }

  /** Every depth of a concatenation is `d` exactly when every depth of both parts is. */
  lemma AllAtConcat(a: seq<int>, b: seq<int>, d: int)
    ensures AllAt(a + b, d) <==> AllAt(a, d) && AllAt(b, d)
  {
    if AllAt(a + b, d) {
      forall i | 0 <= i < |b| ensures b[i] == d {
        assert (a + b)[|a| + i] == b[i];
      }
      forall i | 0 <= i < |a| ensures a[i] == d {
        assert (a + b)[i] == a[i];
      }
    }
  }

  /** The depths in `ds` are all equal exactly when they all equal the first one. */
  lemma AllEqualFirst(ds: seq<int>)
    ensures AllEqual(ds) <==> ds == [] || AllAt(ds, ds[0])
  {
    if ds != [] && AllAt(ds, ds[0]) {
      forall i, j | 0 <= i < |ds| && 0 <= j < |ds| ensures ds[i] == ds[j] {
        assert ds[i] == ds[0] && ds[j] == ds[0];
      }
    }
  }

  /** The first leaf reached, the leftmost, sets `leafDepth` to its own depth. */
  lemma FirstLeafRecorded(t: Tree)
    ensures var ds := LeafDepths(t, 0);
      CheckIfEqual(t, 0, -1).leafDepth == if ds == [] then -1 else ds[0]
  {
    CheckIfEqualMeaning(t, 0, -1);
  }

  /** An empty tree passes, and leaves `leafDepth` at -1. */
  lemma EmptyTree()
    ensures EqualPaths(Nil) && CheckIfEqual(Nil, 0, -1).leafDepth == -1
  {
  }

  /** A lone node is a leaf at depth 0: it passes and records depth 0. */
  lemma SingleNode()
    ensures EqualPaths(Node(Nil, Nil)) && CheckIfEqual(Node(Nil, Nil), 0, -1).leafDepth == 0
  {
  }

  /**
    A node with one child is not a leaf: its null side adds no depth. So a root with a
    single leaf child passes, while a left leaf one level below a right leaf fails.
  */
  lemma OneChildNotLeaf(c: Tree, depth: int)
    requires c != Nil
    ensures !IsLeaf(Node(c, Nil)) && !IsLeaf(Node(Nil, c))
    ensures LeafDepths(Node(c, Nil), depth) == LeafDepths(c, depth + 1)
    ensures LeafDepths(Node(Nil, c), depth) == LeafDepths(c, depth + 1)
    ensures EqualPaths(Node(Node(Nil, Nil), Nil))
    ensures !EqualPaths(Node(Node(Node(Nil, Nil), Nil), Node(Nil, Nil)))
  {
    assert LeafDepths(Node(c, Nil), depth) == LeafDepths(c, depth + 1) + [];
    assert LeafDepths(Node(Nil, c), depth) == [] + LeafDepths(c, depth + 1);
  }

  /**
    Both subtrees are always checked, even after the left one fails; stopping early would
    give the same verdict, because once a leaf has failed the recorded depth is set and the
    right subtree cannot change it.
  */
  lemma BothSidesVisited(l: Tree, r: Tree, depth: int, leafDepth: int)
    requires depth >= 0 && leafDepth >= -1 && (l != Nil || r != Nil)
    ensures var left := CheckIfEqual(l, depth + 1, leafDepth);
      && CheckIfEqual(Node(l, r), depth, leafDepth)
         == Check(left.ok && CheckIfEqual(r, depth + 1, left.leafDepth).ok, CheckIfEqual(r, depth + 1, left.leafDepth).leafDepth)
      && (!left.ok ==> left.leafDepth != -1 && CheckIfEqual(Node(l, r), depth, leafDepth).leafDepth == left.leafDepth)
  {
    CheckIfEqualMeaning(l, depth + 1, leafDepth);
    var left := CheckIfEqual(l, depth + 1, leafDepth);
    CheckIfEqualMeaning(r, depth + 1, left.leafDepth);
    if !left.ok && leafDepth == -1 {
      var ds := LeafDepths(l, depth + 1);
      assert ds != [];
      assert ds[0] >= depth + 1;
    }
  }
}
