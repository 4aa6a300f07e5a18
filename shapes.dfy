/**
  Abstract shapes of the pointer-linked binary trees used by the search trees.

  A node is an arena handle (an int); -1 stands for the null pointer. A `Shape`
  is the tree of handles that the parent/left/right pointers are meant to
  encode, and a `Path` is a zipper: the frames from the root down to a hole.
*/
module Shapes {

  /** The null handle. */
  const Null: int := -1

  datatype Shape = Nil | Br(left: Shape, id: int, right: Shape)

  /** The three pointers stored in one node. */
  datatype Links = Links(parent: int, left: int, right: int)

  /** One step down from node `pid`: into its left child (sibling on the right) or its right child. */
  datatype Frame = GoLeft(pid: int, sib: Shape) | GoRight(sib: Shape, pid: int)

  type Path = seq<Frame>

  function RootId(s: Shape): int {
    if s.Nil? then Null else s.id
  }

  ghost function Ids(s: Shape): set<int> {
    match s
    case Nil => {}
    case Br(l, i, r) => Ids(l) + {i} + Ids(r)
  }

  /** No handle occurs twice. */
  ghost predicate Distinct(s: Shape) {
    match s
    case Nil => true
    case Br(l, i, r) =>
      i !in Ids(l) && i !in Ids(r) && Ids(l) !! Ids(r) && Distinct(l) && Distinct(r)
  }

  /** Every handle addresses one of the first `n` arena slots. */
  ghost predicate InArena(s: Shape, n: int) {
    forall i | i in Ids(s) :: 0 <= i < n
  }

  /** Handles in in-order (left, node, right) sequence. */
  ghost function InOrder(s: Shape): seq<int> {
    match s
    case Nil => []
    case Br(l, i, r) => InOrder(l) + [i] + InOrder(r)
  }

  /** Height counted in nodes: 0 for the empty tree. */
  ghost function Height(s: Shape): nat {
    match s
    case Nil => 0
    case Br(l, _, r) => 1 + (if Height(l) < Height(r) then Height(r) else Height(l))
  }

  /** The pointers node `i` must hold when `s` hangs below the node `p`. */
  ghost function At(s: Shape, p: int, i: int): Links
    requires i in Ids(s)
  {
    if i == s.id then Links(p, RootId(s.left), RootId(s.right))
    else if i in Ids(s.left) then At(s.left, s.id, i)
    else At(s.right, s.id, i)
  }

  /** The pointers of every node of `s` (hanging below `p`) are as the shape says. */
  ghost predicate Under(s: Shape, p: int, P: seq<int>, L: seq<int>, R: seq<int>) {
    forall i | i in Ids(s) :: 0 <= i < |P| && i < |L| && i < |R| && Links(P[i], L[i], R[i]) == At(s, p, i)
  }

  /** The arrays `P`, `L`, `R` encode the tree `s` with a null root parent. */
  ghost predicate Encoded(s: Shape, P: seq<int>, L: seq<int>, R: seq<int>) {
    |P| == |L| == |R| && Distinct(s) && InArena(s, |P|) && Under(s, Null, P, L, R)
  }

  // ---------------------------------------------------------------- paths

  function Wrap(f: Frame, t: Shape): Shape {
    match f
    case GoLeft(p, r) => Br(t, p, r)
    case GoRight(l, p) => Br(l, p, t)
  }

  function Up(path: Path): Path
    requires path != []
  {
    path[..|path| - 1]
  }

  function Last(path: Path): Frame
    requires path != []
  {
    path[|path| - 1]
  }

  /** The tree obtained by putting `t` in the hole of `path`. */
  ghost function Plug(path: Path, t: Shape): Shape
    decreases |path|
  {
    if path == [] then t else Plug(Up(path), Wrap(Last(path), t))
  }

  /** The node the hole hangs below (null at the top). */
  function TopId(path: Path): int {
    if path == [] then Null else Last(path).pid
  }

  ghost function CtxIds(path: Path): set<int>
    decreases |path|
  {
    if path == [] then {} else CtxIds(Up(path)) + {Last(path).pid} + Ids(Last(path).sib)
  }

  /** The pointers of a node of the path when the hole holds a tree with root `r`. */
  ghost function CtxAt(path: Path, r: int, i: int): Links
    requires i in CtxIds(path)
    decreases |path|
  {
    var f := Last(path);
    if i == f.pid then
      (if f.GoLeft? then Links(TopId(Up(path)), r, RootId(f.sib))
       else Links(TopId(Up(path)), RootId(f.sib), r))
    else if i in Ids(f.sib) then At(f.sib, f.pid, i)
    else CtxAt(Up(path), f.pid, i)
  }

  /** In-order handles of the path that come before the hole. */
  ghost function Before(path: Path): seq<int>
    decreases |path|
  {
    if path == [] then []
    else match Last(path)
      case GoLeft(_, _) => Before(Up(path))
      case GoRight(l, p) => Before(Up(path)) + InOrder(l) + [p]
  }

  /** In-order handles of the path that come after the hole. */
  ghost function After(path: Path): seq<int>
    decreases |path|
  {
    if path == [] then []
    else match Last(path)
      case GoLeft(p, r) => [p] + InOrder(r) + After(Up(path))
      case GoRight(_, _) => After(Up(path))
  }

  /** The path from the root of `s` down to node `x`. */
  ghost function PathTo(s: Shape, x: int): Path
    requires x in Ids(s)
  {
    if x == s.id then []
    else if x in Ids(s.left) then [GoLeft(s.id, s.right)] + PathTo(s.left, x)
    else [GoRight(s.left, s.id)] + PathTo(s.right, x)
  }

  /** The subtree of `s` rooted at node `x`. */
  ghost function SubtreeAt(s: Shape, x: int): (r: Shape)
    requires x in Ids(s)
    ensures r.Br? && r.id == x && Ids(r) <= Ids(s) && (Distinct(s) ==> Distinct(r))
  {
    if x == s.id then s
    else if x in Ids(s.left) then SubtreeAt(s.left, x)
    else SubtreeAt(s.right, x)
  }

  // ---------------------------------------------------------------- keys

  /** The keys of the handles `xs` strictly increase. */
  ghost predicate Increasing(xs: seq<int>, key: seq<int>) {
    (forall a | 0 <= a < |xs| :: 0 <= xs[a] < |key|) &&
    (forall a, b | 0 <= a < b < |xs| :: key[xs[a]] < key[xs[b]])
  }

  /** Binary-search-tree order: an in-order walk meets strictly increasing keys. */
  ghost predicate Ordered(s: Shape, key: seq<int>) {
    Increasing(InOrder(s), key)
  }

  ghost function KeySet(s: Shape, key: seq<int>): set<int> {
    set i | i in Ids(s) && 0 <= i < |key| :: key[i]
  }

  // ---------------------------------------------------------------- lemmas

  lemma {:induction false} InOrderIds(s: Shape)
    ensures forall i :: i in InOrder(s) <==> i in Ids(s)
  {
    match s
    case Nil =>
    case Br(l, _, r) => InOrderIds(l); InOrderIds(r);
  }

  lemma {:induction false} PlugIds(path: Path, t: Shape)
    ensures Ids(Plug(path, t)) == CtxIds(path) + Ids(t)
    decreases |path|
  {
    if path != [] {
      PlugIds(Up(path), Wrap(Last(path), t));
    }
  }

  lemma {:induction false} PlugInOrder(path: Path, t: Shape)
    ensures InOrder(Plug(path, t)) == Before(path) + InOrder(t) + After(path)
    decreases |path|
  {
    if path != [] {
      var u := Up(path);
      PlugInOrder(u, Wrap(Last(path), t));
      assert Plug(path, t) == Plug(u, Wrap(Last(path), t));
      match Last(path)
      case GoLeft(q, r) =>
        assert Before(path) == Before(u) && After(path) == [q] + InOrder(r) + After(u);
        assert InOrder(Wrap(Last(path), t)) == InOrder(t) + ([q] + InOrder(r));
        Regroup4(Before(u), InOrder(t), [q] + InOrder(r), After(u));
      case GoRight(l, q) =>
        assert Before(path) == Before(u) + InOrder(l) + [q] && After(path) == After(u);
        assert InOrder(Wrap(Last(path), t)) == (InOrder(l) + [q]) + InOrder(t);
        Regroup4'(Before(u), InOrder(l) + [q], InOrder(t), After(u));
    }
  }

  lemma Regroup4(B: seq<int>, T: seq<int>, M: seq<int>, A: seq<int>)
    ensures B + (T + M) + A == B + T + (M + A)
  {
  }

  lemma Regroup4'(B: seq<int>, M: seq<int>, T: seq<int>, A: seq<int>)
    ensures B + (M + T) + A == (B + M) + T + A
  {
  }

  lemma {:induction false} PlugDistinct(path: Path, t: Shape)
    requires Distinct(Plug(path, t))
    ensures Distinct(t) && Ids(t) !! CtxIds(path)
    decreases |path|
  {
    if path != [] {
      PlugDistinct(Up(path), Wrap(Last(path), t));
    }
  }

  /** Replacing the plugged tree by one with no handle of the path keeps handles distinct. */
  lemma {:induction false} PlugReplaceDistinct(path: Path, t: Shape, t': Shape)
    requires Distinct(Plug(path, t)) && Distinct(t') && Ids(t') !! CtxIds(path)
    ensures Distinct(Plug(path, t'))
    decreases |path|
  {
    if path != [] {
      PlugDistinct(Up(path), Wrap(Last(path), t));
      PlugReplaceDistinct(Up(path), Wrap(Last(path), t), Wrap(Last(path), t'));
    }
  }

  lemma {:induction false} PlugRoot(path: Path, t: Shape, t': Shape)
    requires path != []
    ensures RootId(Plug(path, t)) == RootId(Plug(path, t'))
    decreases |path|
  {
    if Up(path) != [] {
      PlugRoot(Up(path), Wrap(Last(path), t), Wrap(Last(path), t'));
    }
  }

  /** Pointers of a node inside the plugged tree do not depend on the path above. */
  lemma {:induction false} PlugAtInner(path: Path, t: Shape, i: int)
    requires Distinct(Plug(path, t)) && i in Ids(t)
    ensures i in Ids(Plug(path, t))
    ensures At(Plug(path, t), Null, i) == At(t, TopId(path), i)
    decreases |path|
  {
    PlugIds(path, t);
    if path != [] {
      var w := Wrap(Last(path), t);
      PlugDistinct(Up(path), w);
      PlugAtInner(Up(path), w, i);
    }
  }

  /** Pointers of a node of the path depend on the plugged tree only through its root. */
  lemma {:induction false} PlugAtOuter(path: Path, t: Shape, i: int)
    requires Distinct(Plug(path, t)) && i in CtxIds(path)
    ensures i in Ids(Plug(path, t))
    ensures At(Plug(path, t), Null, i) == CtxAt(path, RootId(t), i)
    decreases |path|
  {
    PlugIds(path, t);
    var w := Wrap(Last(path), t);
    PlugDistinct(Up(path), w);
    if i == Last(path).pid || i in Ids(Last(path).sib) {
      PlugAtInner(Up(path), w, i);
    } else {
      PlugAtOuter(Up(path), w, i);
    }
  }

  /** The pointers of the plugged tree's root and its children, read off an encoding. */
  lemma NodeLinks(path: Path, t: Shape, P: seq<int>, L: seq<int>, R: seq<int>)
    requires Encoded(Plug(path, t), P, L, R) && t.Br?
    ensures 0 <= t.id < |P| && t.id !in CtxIds(path)
    ensures P[t.id] == TopId(path) && L[t.id] == RootId(t.left) && R[t.id] == RootId(t.right)
  {
    PlugAtInner(path, t, t.id);
    PlugDistinct(path, t);
  }

  /** An encoding of a plugged tree restricts to an encoding of the plugged tree. */
  lemma EncodedUnder(path: Path, t: Shape, P: seq<int>, L: seq<int>, R: seq<int>)
    requires Encoded(Plug(path, t), P, L, R)
    ensures Distinct(t) && Ids(t) !! CtxIds(path) && InArena(t, |P|)
    ensures Under(t, TopId(path), P, L, R)
  {
    PlugDistinct(path, t);
    PlugIds(path, t);
    forall i | i in Ids(t) ensures Links(P[i], L[i], R[i]) == At(t, TopId(path), i) {
      PlugAtInner(path, t, i);
    }
  }

  /** The arrays outside a subtree keep encoding the path around it. */
  ghost predicate CtxUnder(path: Path, r: int, P: seq<int>, L: seq<int>, R: seq<int>) {
    forall i | i in CtxIds(path) :: 0 <= i < |P| && i < |L| && i < |R| && Links(P[i], L[i], R[i]) == CtxAt(path, r, i)
  }

  lemma EncodedCtx(path: Path, t: Shape, P: seq<int>, L: seq<int>, R: seq<int>)
    requires Encoded(Plug(path, t), P, L, R)
    ensures CtxUnder(path, RootId(t), P, L, R)
  {
    PlugIds(path, t);
    forall i | i in CtxIds(path) ensures Links(P[i], L[i], R[i]) == CtxAt(path, RootId(t), i) {
      PlugAtOuter(path, t, i);
    }
  }

  /**
    The central frame rule: replace the subtree in the hole of `path` by `t'`.
    The new arrays must encode `t'` below the path's bottom node, keep every
    other node of the path, and point the bottom node at the new root.
  */
  lemma ReplaceEncoded(path: Path, t: Shape, t': Shape,
                       P: seq<int>, L: seq<int>, R: seq<int>,
                       P': seq<int>, L': seq<int>, R': seq<int>)
    requires Encoded(Plug(path, t), P, L, R)
    requires |P'| == |L'| == |R'| >= |P|
    requires Distinct(t') && Ids(t') !! CtxIds(path) && InArena(t', |P'|)
    requires forall i | i in CtxIds(path) && i != TopId(path) && 0 <= i < |P| ::
               P'[i] == P[i] && L'[i] == L[i] && R'[i] == R[i]
    requires path != [] ==> 0 <= TopId(path) < |P'| && Links(P'[TopId(path)], L'[TopId(path)], R'[TopId(path)]) == CtxAt(path, RootId(t'), TopId(path))
    requires Under(t', TopId(path), P', L', R')
    ensures Encoded(Plug(path, t'), P', L', R')
  {
    PlugDistinct(path, t);
    PlugReplaceDistinct(path, t, t');
    PlugIds(path, t);
    PlugIds(path, t');
    EncodedCtx(path, t, P, L, R);
    forall i | i in Ids(Plug(path, t'))
      ensures 0 <= i < |P'| && Links(P'[i], L'[i], R'[i]) == At(Plug(path, t'), Null, i)
    {
      if i in Ids(t') {
        PlugAtInner(path, t', i);
      } else {
        PlugAtOuter(path, t', i);
      }
    }
  }

  /** A subtree whose nodes keep their pointers, except its root's parent, which becomes `p'`. */
  lemma Reparent(u: Shape, p: int, p': int,
                 P: seq<int>, L: seq<int>, R: seq<int>,
                 P': seq<int>, L': seq<int>, R': seq<int>)
    requires Under(u, p, P, L, R)
    requires forall i | i in Ids(u) :: i < |P'| && i < |L'| && i < |R'| && L'[i] == L[i] && R'[i] == R[i]
    requires forall i | i in Ids(u) && i != RootId(u) :: P'[i] == P[i]
    requires u.Br? ==> P'[u.id] == p'
    ensures Under(u, p', P', L', R')
  {
    forall i | i in Ids(u) ensures Links(P'[i], L'[i], R'[i]) == At(u, p', i) {
      if i != u.id {
        assert At(u, p', i) == At(u, p, i);
      }
    }
  }

  /** Assembling the encoding of a node from those of its two subtrees. */
  lemma UnderBr(l: Shape, j: int, r: Shape, p: int, P: seq<int>, L: seq<int>, R: seq<int>)
    requires Distinct(Br(l, j, r))
    requires 0 <= j < |P| && j < |L| && j < |R| && Links(P[j], L[j], R[j]) == Links(p, RootId(l), RootId(r))
    requires Under(l, j, P, L, R) && Under(r, j, P, L, R)
    ensures Under(Br(l, j, r), p, P, L, R)
  {
  }

  /** Splitting the encoding of a node into those of its subtrees. */
  lemma UnderSplit(s: Shape, p: int, P: seq<int>, L: seq<int>, R: seq<int>)
    requires Distinct(s) && s.Br? && Under(s, p, P, L, R)
    ensures 0 <= s.id < |P| && s.id < |L| && s.id < |R|
    ensures Links(P[s.id], L[s.id], R[s.id]) == Links(p, RootId(s.left), RootId(s.right))
    ensures Under(s.left, s.id, P, L, R) && Under(s.right, s.id, P, L, R)
  {
    assert s.id in Ids(s);
    forall i | i in Ids(s.right) ensures 0 <= i < |P| && i < |L| && i < |R| && Links(P[i], L[i], R[i]) == At(s.right, s.id, i) {
      assert i !in Ids(s.left);
    }
  }

  /** Pointer facts only depend on the arrays at the handles of the subtree. */
  lemma UnderFrame(u: Shape, p: int,
                   P: seq<int>, L: seq<int>, R: seq<int>,
                   P': seq<int>, L': seq<int>, R': seq<int>)
    requires Under(u, p, P, L, R)
    requires forall i | i in Ids(u) :: i < |P'| && i < |L'| && i < |R'| && P'[i] == P[i] && L'[i] == L[i] && R'[i] == R[i]
    ensures Under(u, p, P', L', R')
  {
  }

  /** Viewing a path from the root end. */
  lemma {:induction false} PlugFront(path: Path, t: Shape)
    requires path != []
    ensures Plug(path, t) == Wrap(path[0], Plug(path[1..], t))
    decreases |path|
  {
    if |path| > 1 {
      PlugFront(Up(path), Wrap(Last(path), t));
      assert Up(path)[1..] == Up(path[1..]);
    }
  }

  lemma {:induction false} PathToPlug(s: Shape, x: int)
    requires x in Ids(s)
    ensures Plug(PathTo(s, x), SubtreeAt(s, x)) == s
    ensures SubtreeAt(s, x).Br? && SubtreeAt(s, x).id == x
  {
    if x != s.id {
      var child := if x in Ids(s.left) then s.left else s.right;
      PathToPlug(child, x);
      var path := PathTo(s, x);
      PlugFront(path, SubtreeAt(s, x));
      assert path[1..] == PathTo(child, x);
    }
  }

  /** A node of a tree with distinct handles sits at exactly one place. */
  lemma {:induction false} PathToUnique(path: Path, t: Shape)
    requires Distinct(Plug(path, t)) && t.Br?
    ensures t.id in Ids(Plug(path, t))
    ensures PathTo(Plug(path, t), t.id) == path && SubtreeAt(Plug(path, t), t.id) == t
    decreases |path|
  {
    PlugIds(path, t);
    var s := Plug(path, t);
    if path != [] {
      PlugFront(path, t);
      var inner := Plug(path[1..], t);
      PlugIds(path[1..], t);
      match path[0]
      case GoLeft(p, r) =>
        assert s == Br(inner, p, r);
        PathToUnique(path[1..], t);
        assert t.id != p;
        assert path == [path[0]] + path[1..];
      case GoRight(l, p) =>
        assert s == Br(l, p, inner);
        PathToUnique(path[1..], t);
        assert t.id != p && t.id !in Ids(l);
        assert path == [path[0]] + path[1..];
    }
  }

  lemma IncreasingSlice(xs: seq<int>, key: seq<int>, lo: int, hi: int)
    requires Increasing(xs, key) && 0 <= lo <= hi <= |xs|
    ensures Increasing(xs[lo..hi], key)
  {
  }

  /** A subtree of an ordered tree is ordered, and the hole sits between Before and After. */
  lemma OrderedPlug(path: Path, t: Shape, key: seq<int>)
    requires Ordered(Plug(path, t), key)
    ensures Ordered(t, key)
  {
    PlugInOrder(path, t);
    var xs := Before(path) + InOrder(t) + After(path);
    IncreasingSlice(xs, key, |Before(path)|, |Before(path)| + |InOrder(t)|);
    assert xs[|Before(path)|..|Before(path)| + |InOrder(t)|] == InOrder(t);
  }

  /** In an ordered node, keys on the left are smaller and keys on the right larger. */
  lemma OrderedBr(s: Shape, key: seq<int>)
    requires Ordered(s, key) && s.Br?
    ensures 0 <= s.id < |key| && Ordered(s.left, key) && Ordered(s.right, key)
    ensures forall i | i in Ids(s.left) :: 0 <= i < |key| && key[i] < key[s.id]
    ensures forall i | i in Ids(s.right) :: 0 <= i < |key| && key[s.id] < key[i]
  {
    OrderedLeft(s, key);
    OrderedRight(s, key);
  }

  /** The left half of `OrderedBr`. */
  lemma OrderedLeft(s: Shape, key: seq<int>)
    requires Ordered(s, key) && s.Br?
    ensures 0 <= s.id < |key| && Ordered(s.left, key)
    ensures forall i | i in Ids(s.left) :: 0 <= i < |key| && key[i] < key[s.id]
  {
    var xs := InOrder(s);
    var n := |InOrder(s.left)|;
    assert xs[n] == s.id;
    InOrderIds(s.left);
    IncreasingSlice(xs, key, 0, n);
    assert xs[..n] == InOrder(s.left);
    forall i | i in Ids(s.left) ensures 0 <= i < |key| && key[i] < key[s.id] {
      var a :| 0 <= a < n && InOrder(s.left)[a] == i;
      assert xs[a] == i;
    }
  }

  /** The right half of `OrderedBr`. */
  lemma OrderedRight(s: Shape, key: seq<int>)
    requires Ordered(s, key) && s.Br?
    ensures 0 <= s.id < |key| && Ordered(s.right, key)
    ensures forall i | i in Ids(s.right) :: 0 <= i < |key| && key[s.id] < key[i]
  {
    var xs := InOrder(s);
    var n := |InOrder(s.left)|;
    assert xs[n] == s.id;
    InOrderIds(s.right);
    IncreasingSlice(xs, key, n + 1, |xs|);
    assert xs[n + 1..] == InOrder(s.right);
    forall i | i in Ids(s.right) ensures 0 <= i < |key| && key[s.id] < key[i] {
      var a :| 0 <= a < |InOrder(s.right)| && InOrder(s.right)[a] == i;
      assert xs[n + 1 + a] == i;
    }
  }

  /** A node between an ordered left tree of smaller keys and an ordered right tree of larger keys is ordered. */
  lemma OrderedJoin(l: Shape, i: int, r: Shape, key: seq<int>)
    requires Ordered(l, key) && Ordered(r, key) && 0 <= i < |key|
    requires forall j | j in Ids(l) :: 0 <= j < |key| && key[j] < key[i]
    requires forall j | j in Ids(r) :: 0 <= j < |key| && key[i] < key[j]
    ensures Ordered(Br(l, i, r), key)
  {
    InOrderIds(l);
    InOrderIds(r);
    var A, B := InOrder(l), InOrder(r);
    var xs := A + [i] + B;
    forall a, b | 0 <= a < b < |xs| ensures key[xs[a]] < key[xs[b]] {
      if b < |A| {
        assert xs[a] == A[a] && xs[b] == A[b];
      } else if a > |A| {
        assert xs[a] == B[a - |A| - 1] && xs[b] == B[b - |A| - 1];
      } else if a == |A| {
        assert B[b - |A| - 1] in B;
      } else if b == |A| {
        assert A[a] in A;
      } else {
        assert A[a] in A && B[b - |A| - 1] in B;
      }
    }
  }

  /** Appending a key for a fresh handle does not disturb an increasing walk. */
  lemma IncreasingExtend(xs: seq<int>, key: seq<int>, k: int)
    requires Increasing(xs, key)
    ensures Increasing(xs, key + [k])
  {
    forall a | 0 <= a < |xs| ensures (key + [k])[xs[a]] == key[xs[a]] {
    }
  }

  /** Ordered trees have one node per key. */
  lemma OrderedUniqueKeys(s: Shape, key: seq<int>)
    requires Ordered(s, key)
    ensures InArena(s, |key|)
    ensures forall i, j | i in Ids(s) && j in Ids(s) && key[i] == key[j] :: i == j
  {
    InOrderIds(s);
    var xs := InOrder(s);
    forall i, j | i in Ids(s) && j in Ids(s) && key[i] == key[j] ensures i == j {
      var a :| 0 <= a < |xs| && xs[a] == i;
      var b :| 0 <= b < |xs| && xs[b] == j;
    }
  }

  /** Where to continue a search for `k` below node `s.id`. */
  lemma SearchStep(s: Shape, key: seq<int>, k: int)
    requires Ordered(s, key) && s.Br?
    ensures 0 <= s.id < |key|
    ensures k < key[s.id] ==> (k in KeySet(s, key) <==> k in KeySet(s.left, key))
    ensures k > key[s.id] ==> (k in KeySet(s, key) <==> k in KeySet(s.right, key))
  {
    OrderedBr(s, key);
  }

  // ---------------------------------------------------------------- neighbours

  /** The children of a node point back to it. */
  lemma ChildrenPointBack(path: Path, t: Shape, P: seq<int>, L: seq<int>, R: seq<int>)
    requires Encoded(Plug(path, t), P, L, R) && t.Br?
    ensures 0 <= t.id < |P|
    ensures L[t.id] != Null ==> L[t.id] in Ids(Plug(path, t)) && P[L[t.id]] == t.id
    ensures R[t.id] != Null ==> R[t.id] in Ids(Plug(path, t)) && P[R[t.id]] == t.id
  {
    NodeLinks(path, t, P, L, R);
    if t.left != Nil {
      NodeLinks(path + [GoLeft(t.id, t.right)], t.left, P, L, R);
      PlugIds(path + [GoLeft(t.id, t.right)], t.left);
    }
    if t.right != Nil {
      NodeLinks(path + [GoRight(t.left, t.id)], t.right, P, L, R);
      PlugIds(path + [GoRight(t.left, t.id)], t.right);
    }
  }

  /** The parent of a non-root node points down to it on exactly one side. */
  lemma ParentPointsDown(path: Path, t: Shape, P: seq<int>, L: seq<int>, R: seq<int>)
    requires Encoded(Plug(path, t), P, L, R) && t.Br? && path != []
    ensures 0 <= t.id < |P| && P[t.id] == Last(path).pid
    ensures P[t.id] in Ids(Plug(path, t)) && (L[P[t.id]] == t.id <==> R[P[t.id]] != t.id)
    ensures P[t.id] != L[t.id] && P[t.id] != R[t.id] && P[t.id] != t.id
  {
    NodeLinks(path, t, P, L, R);
    var w := Wrap(Last(path), t);
    NodeLinks(Up(path), w, P, L, R);
    PlugIds(Up(path), w);
    EncodedUnder(Up(path), w, P, L, R);
  }

  /** Which child pointer of the parent leads to the plugged tree is read off the last frame. */
  lemma ChildSide(path: Path, t: Shape, P: seq<int>, L: seq<int>, R: seq<int>)
    requires Encoded(Plug(path, t), P, L, R) && t.Br? && path != []
    ensures 0 <= Last(path).pid < |P|
    ensures Last(path).GoLeft? <==> L[Last(path).pid] == t.id
    ensures Last(path).GoRight? <==> R[Last(path).pid] == t.id
  {
    NodeLinks(path, t, P, L, R);
    var w := Wrap(Last(path), t);
    NodeLinks(Up(path), w, P, L, R);
    PlugDistinct(Up(path), w);
  }

  /** In an encoding, null stands exactly for the empty tree and for the top of the path. */
  lemma PlugNulls(path: Path, t: Shape, P: seq<int>, L: seq<int>, R: seq<int>)
    requires Encoded(Plug(path, t), P, L, R)
    ensures RootId(t) == Null <==> t == Nil
    ensures TopId(path) == Null <==> path == []
    ensures path != [] ==> 0 <= TopId(path) < |P|
    ensures t.Br? ==> (RootId(t.left) == Null <==> t.left == Nil) && (RootId(t.right) == Null <==> t.right == Nil)
  {
    PlugIds(path, t);
    if t.Br? {
      assert t.id in Ids(t);
      assert t.left.Br? ==> t.left.id in Ids(t);
      assert t.right.Br? ==> t.right.id in Ids(t);
    }
    if path != [] {
      assert Last(path).pid in CtxIds(path);
    }
  }

  /** Local consequences of an encoding: children point back, parents point down, no self-links. */
  lemma Consistent(s: Shape, P: seq<int>, L: seq<int>, R: seq<int>, j: int)
    requires Encoded(s, P, L, R) && j in Ids(s)
    ensures 0 <= j < |P|
    ensures L[j] != Null ==> L[j] in Ids(s) && P[L[j]] == j && L[j] != R[j]
    ensures R[j] != Null ==> R[j] in Ids(s) && P[R[j]] == j
    ensures P[j] != Null ==> P[j] in Ids(s) && (L[P[j]] == j <==> R[P[j]] != j)
    ensures L[j] != j && R[j] != j && P[j] != j
    ensures P[j] != Null ==> P[j] != L[j] && P[j] != R[j]
    ensures j != RootId(s) <==> P[j] != Null
  {
    PathToPlug(s, j);
    var path, t := PathTo(s, j), SubtreeAt(s, j);
    NodeLinks(path, t, P, L, R);
    EncodedUnder(path, t, P, L, R);
    ChildrenPointBack(path, t, P, L, R);
    if path != [] {
      ParentPointsDown(path, t, P, L, R);
      PlugRoot(path, t, Nil);
      PlugIds(path, Nil);
    }
  }

  // ---------------------------------------------------------------- swapping two handles

  /** Exchange of the handles `a` and `b`. */
  function Sw(a: int, b: int, i: int): int {
    if i == a then b else if i == b then a else i
  }

  function SwLinks(a: int, b: int, k: Links): Links {
    Links(Sw(a, b, k.parent), Sw(a, b, k.left), Sw(a, b, k.right))
  }

  /** The shape in which nodes `a` and `b` have exchanged their positions. */
  ghost function SwapIds(s: Shape, a: int, b: int): Shape {
    match s
    case Nil => Nil
    case Br(l, i, r) => Br(SwapIds(l, a, b), Sw(a, b, i), SwapIds(r, a, b))
  }

  lemma SwapRoot(s: Shape, a: int, b: int)
    requires a != Null && b != Null
    ensures RootId(SwapIds(s, a, b)) == Sw(a, b, RootId(s))
  {
  }

  lemma {:induction false} SwapIdsSet(s: Shape, a: int, b: int)
    ensures forall i :: i in Ids(SwapIds(s, a, b)) <==> Sw(a, b, i) in Ids(s)
  {
    match s
    case Nil =>
    case Br(l, i, r) =>
      SwapIdsSet(l, a, b);
      SwapIdsSet(r, a, b);
  }

  lemma {:induction false} SwapInOrder(s: Shape, a: int, b: int)
    ensures |InOrder(SwapIds(s, a, b))| == |InOrder(s)|
    ensures forall n | 0 <= n < |InOrder(s)| :: InOrder(SwapIds(s, a, b))[n] == Sw(a, b, InOrder(s)[n])
  {
    match s
    case Nil =>
    case Br(l, i, r) =>
      SwapInOrder(l, a, b);
      SwapInOrder(r, a, b);
      var xs, ys := InOrder(s), InOrder(SwapIds(s, a, b));
      var nl := |InOrder(l)|;
      forall n | 0 <= n < |xs| ensures ys[n] == Sw(a, b, xs[n]) {
        if n < nl {
          assert xs[n] == InOrder(l)[n];
        } else if n > nl {
          assert xs[n] == InOrder(r)[n - nl - 1];
        }
      }
  }

  lemma {:induction false} SwapDistinct(s: Shape, a: int, b: int)
    requires Distinct(s)
    ensures Distinct(SwapIds(s, a, b))
  {
    match s
    case Nil =>
    case Br(l, i, r) =>
      SwapDistinct(l, a, b);
      SwapDistinct(r, a, b);
      SwapIdsSet(l, a, b);
      SwapIdsSet(r, a, b);
      forall x | x in Ids(SwapIds(l, a, b)) ensures x !in Ids(SwapIds(r, a, b)) && x != Sw(a, b, i) {
        assert Sw(a, b, x) in Ids(l);
      }
      assert Sw(a, b, i) !in Ids(SwapIds(r, a, b));
  }

  /** Node `i` of the swapped shape holds the swapped pointers of node `Sw(i)` of the original. */
  lemma {:induction false} SwapAt(s: Shape, a: int, b: int, p: int, i: int)
    requires Distinct(s) && a != Null && b != Null && Sw(a, b, i) in Ids(s)
    ensures i in Ids(SwapIds(s, a, b))
    ensures At(SwapIds(s, a, b), Sw(a, b, p), i) == SwLinks(a, b, At(s, p, Sw(a, b, i)))
  {
    SwapIdsSet(s, a, b);
    SwapDistinct(s, a, b);
    SwapIdsSet(s.left, a, b);
    SwapIdsSet(s.right, a, b);
    var j := Sw(a, b, i);
    if j != s.id {
      if j in Ids(s.left) {
        SwapAt(s.left, a, b, s.id, i);
      } else {
        SwapAt(s.right, a, b, s.id, i);
      }
    }
  }

  /** Every node `i` of `s` now holds the links of node `Sw(i)`, with `a` and `b` renamed. */
  ghost predicate SwappedLinks(s: Shape, a: int, b: int,
                               P: seq<int>, L: seq<int>, R: seq<int>,
                               P': seq<int>, L': seq<int>, R': seq<int>) {
    forall i {:trigger P'[i]} | i in Ids(s) ::
      && 0 <= i < |P'| && i < |L'| && i < |R'|
      && 0 <= Sw(a, b, i) < |P| && Sw(a, b, i) < |L| && Sw(a, b, i) < |R|
      && Links(P'[i], L'[i], R'[i]) == SwLinks(a, b, Links(P[Sw(a, b, i)], L[Sw(a, b, i)], R[Sw(a, b, i)]))
  }

  /** Links exchanged node for node encode the tree with the two handles exchanged. */
  lemma SwapEncoded(s: Shape, a: int, b: int,
                    P: seq<int>, L: seq<int>, R: seq<int>,
                    P': seq<int>, L': seq<int>, R': seq<int>)
    requires Encoded(s, P, L, R) && a in Ids(s) && b in Ids(s)
    requires |P'| == |L'| == |R'| == |P|
    requires SwappedLinks(s, a, b, P, L, R, P', L', R')
    ensures Encoded(SwapIds(s, a, b), P', L', R')
  {
    SwapIdsSet(s, a, b);
    SwapDistinct(s, a, b);
    var s' := SwapIds(s, a, b);
    forall i | i in Ids(s') ensures 0 <= i < |P'| && i < |L'| && i < |R'| && Links(P'[i], L'[i], R'[i]) == At(s', Null, i) {
      SwapAt(s, a, b, Null, i);
      assert i in Ids(s);
    }
  }

  /**
    `X` is `X1` with the slots in `W` re-pointed: a link to `a` in one of them now
    goes to `b` and the other way round.
  */
  ghost predicate Patched(X: seq<int>, X1: seq<int>, W: set<int>, a: int, b: int) {
    |X| == |X1| && forall y | 0 <= y < |X| :: X[y] == if y in W then Sw(a, b, X1[y]) else X1[y]
  }

  lemma PatchStep(X: seq<int>, X1: seq<int>, W: set<int>, a: int, b: int, x: int)
    requires Patched(X, X1, W, a, b) && 0 <= x < |X|
    ensures Patched(X[x := Sw(a, b, X1[x])], X1, W + {x}, a, b)
  {
  }

  /**
    After the rows of `a` and `b` are exchanged, re-pointing the parent links of the
    children of both (and of `a` or `b` itself when one is the other's parent) gives
    every node the parent link of its counterpart, renamed.
  */
  lemma PatchedParents(s: Shape, a: int, b: int, P0: seq<int>, L0: seq<int>, R0: seq<int>,
                       P1: seq<int>, P: seq<int>, W: set<int>)
    requires Encoded(s, P0, L0, R0) && a in Ids(s) && b in Ids(s) && a != b
    requires 0 <= a < |P0| && 0 <= b < |P0| && P1 == P0[a := P0[b]][b := P0[a]]
    requires Patched(P, P1, W, a, b)
    requires P0[b] == a ==> a in W
    requires P0[a] == b ==> b in W
    requires L0[a] != Null && L0[a] != b ==> L0[a] in W
    requires R0[a] != Null && R0[a] != b ==> R0[a] in W
    requires L0[b] != Null && L0[b] != a ==> L0[b] in W
    requires R0[b] != Null && R0[b] != a ==> R0[b] in W
    ensures forall i {:trigger P[i]} | i in Ids(s) :: 0 <= i < |P| && 0 <= Sw(a, b, i) < |P0| && P[i] == Sw(a, b, P0[Sw(a, b, i)])
  {
    Consistent(s, P0, L0, R0, a);
    Consistent(s, P0, L0, R0, b);
    forall i | i in Ids(s) ensures 0 <= i < |P| && 0 <= Sw(a, b, i) < |P0| && P[i] == Sw(a, b, P0[Sw(a, b, i)]) {
      Consistent(s, P0, L0, R0, i);
    }
  }

  /** In an encoding every child link is answered by the child's parent link. */
  lemma ChildrenLinkBack(s: Shape, P: seq<int>, L: seq<int>, R: seq<int>)
    requires Encoded(s, P, L, R)
    ensures forall j | j in Ids(s) && L[j] != Null :: L[j] in Ids(s) && 0 <= L[j] < |P| && P[L[j]] == j && L[j] != j
    ensures forall j | j in Ids(s) && R[j] != Null :: R[j] in Ids(s) && 0 <= R[j] < |P| && P[R[j]] == j && R[j] != j
  {
    forall j | j in Ids(s)
      ensures L[j] != Null ==> L[j] in Ids(s) && 0 <= L[j] < |P| && P[L[j]] == j && L[j] != j
      ensures R[j] != Null ==> R[j] in Ids(s) && 0 <= R[j] < |P| && P[R[j]] == j && R[j] != j
    {
      Consistent(s, P, L, R, j);
    }
  }

  /**
    The same for a child array `X0` (the left or the right links): re-pointing the
    parent's link to `a` and to `b` (and `a`'s or `b`'s own link when one is the
    other's child) gives every node the link of its counterpart, renamed.
  */
  lemma PatchedChildren(D: set<int>, a: int, b: int, P0: seq<int>,
                        X0: seq<int>, X1: seq<int>, X: seq<int>, W: set<int>)
    requires forall j | j in D :: 0 <= j < |X0| && j < |P0|
    requires forall j | j in D && X0[j] != Null :: X0[j] in D && 0 <= X0[j] < |P0| && P0[X0[j]] == j && X0[j] != j
    requires a in D && b in D && a != b && a != Null && b != Null
    requires X1 == X0[a := X0[b]][b := X0[a]]
    requires Patched(X, X1, W, a, b)
    requires X0[b] == a ==> a in W
    requires X0[a] == b ==> b in W
    requires P0[a] != Null && P0[a] != b && P0[a] in D && X0[P0[a]] == a ==> P0[a] in W
    requires P0[b] != Null && P0[b] != a && P0[b] in D && X0[P0[b]] == b ==> P0[b] in W
    ensures forall i {:trigger X[i]} | i in D :: 0 <= i < |X| && 0 <= Sw(a, b, i) < |X0| && X[i] == Sw(a, b, X0[Sw(a, b, i)])
  {
    forall i | i in D ensures 0 <= i < |X| && 0 <= Sw(a, b, i) < |X0| && X[i] == Sw(a, b, X0[Sw(a, b, i)]) {
      if i != a && i != b && i !in W {
        assert X0[i] != a && X0[i] != b;
      }
    }
  }

  /** The links of node `j` agree with those of its parent and its children. */
  ghost predicate LinkedAt(P: seq<int>, L: seq<int>, R: seq<int>, j: int) {
    && 0 <= j < |P| == |L| == |R|
    && P[j] != j && L[j] != j && R[j] != j
    && (L[j] != Null ==> 0 <= L[j] < |P| && P[L[j]] == j && L[j] != R[j])
    && (R[j] != Null ==> 0 <= R[j] < |P| && P[R[j]] == j)
    && (P[j] != Null ==> 0 <= P[j] < |P| && (L[P[j]] == j <==> R[P[j]] != j) && P[j] != L[j] && P[j] != R[j])
  }

  lemma EncodedLinkedAt(s: Shape, P: seq<int>, L: seq<int>, R: seq<int>, j: int)
    requires Encoded(s, P, L, R) && j in Ids(s)
    ensures LinkedAt(P, L, R, j)
  {
    Consistent(s, P, L, R, j);
  }

  /**
    The slots that re-pointing must write when `a` and `b` exchange places: the parent
    links of their children and the child links of their parents, and their own links
    to each other when one is the other's parent.
  */
  ghost predicate Covers(a: int, b: int, P0: seq<int>, L0: seq<int>, R0: seq<int>, wp: set<int>, wl: set<int>, wr: set<int>) {
    && 0 <= a < |P0| == |L0| == |R0| && 0 <= b < |P0|
    && (P0[b] == a ==> a in wp) && (P0[a] == b ==> b in wp)
    && (L0[a] != Null && L0[a] != b ==> L0[a] in wp) && (R0[a] != Null && R0[a] != b ==> R0[a] in wp)
    && (L0[b] != Null && L0[b] != a ==> L0[b] in wp) && (R0[b] != Null && R0[b] != a ==> R0[b] in wp)
    && (L0[b] == a ==> a in wl) && (L0[a] == b ==> b in wl)
    && (R0[b] == a ==> a in wr) && (R0[a] == b ==> b in wr)
    && (P0[a] != Null && P0[a] != b && 0 <= P0[a] < |P0| ==> if L0[P0[a]] == a then P0[a] in wl else P0[a] in wr)
    && (P0[b] != Null && P0[b] != a && 0 <= P0[b] < |P0| ==> if L0[P0[b]] == b then P0[b] in wl else P0[b] in wr)
  }

  /** What the links around `a` and `b` look like once their rows are exchanged. */
  lemma ExchangedLinks(P0: seq<int>, L0: seq<int>, R0: seq<int>, a: int, b: int, P: seq<int>, L: seq<int>, R: seq<int>)
    requires LinkedAt(P0, L0, R0, a) && LinkedAt(P0, L0, R0, b) && a != b
    requires P == P0[a := P0[b]][b := P0[a]] && L == L0[a := L0[b]][b := L0[a]] && R == R0[a := R0[b]][b := R0[a]]
    ensures 0 <= a < |P| == |L| == |R| && 0 <= b < |P|
    ensures R0[a] == b ==> R[b] == b && P[a] == a
    ensures R0[b] == a ==> R[a] == a && P[b] == b
    ensures L0[a] == b ==> L[b] == b && P[a] == a
    ensures L0[b] == a ==> L[a] == a && P[b] == b
    ensures P0[a] != Null && P0[a] != b ==> 0 <= P0[a] < |L| && if L0[P0[a]] == a then L[P0[a]] == a else R[P0[a]] == a
    ensures P0[b] != Null && P0[b] != a ==> 0 <= P0[b] < |L| && if L0[P0[b]] == b then L[P0[b]] == b else R[P0[b]] == b
    ensures R0[a] != Null && R0[a] != b ==> 0 <= R0[a] < |P| && P[R0[a]] == a
    ensures L0[a] != Null && L0[a] != b ==> 0 <= L0[a] < |P| && P[L0[a]] == a
    ensures R0[b] != Null && R0[b] != a ==> 0 <= R0[b] < |P| && P[R0[b]] == b
    ensures L0[b] != Null && L0[b] != a ==> 0 <= L0[b] < |P| && P[L0[b]] == b
  {
  }

  /**
    The slots re-pointed in `nodeSwap` when one of `a` and `b` is the other's child, in
    terms of their children (`al`, `ar`, `bl`, `br`): the links between the two.
  */
  ghost predicate AdjacentCovered(a: int, b: int, al: int, ar: int, bl: int, br: int,
                                  wp: set<int>, wl: set<int>, wr: set<int>) {
    && (ar != Null && ar == b ==> b in wr && a in wp)
    && (ar != b && br != Null && br == a ==> a in wr && b in wp)
    && (ar != b && br != a && al != Null && al == b ==> b in wl && a in wp)
    && (ar != b && br != a && al != b && bl != Null && bl == a ==> a in wl && b in wp)
  }

  /**
    The slots re-pointed for the other neighbours of `a` and `b` (parent `ap`, and
    whether `a` is its left child, children `al`, `ar`; the same for `b`).
  */
  ghost predicate NeighboursCovered(a: int, b: int, ap: int, al: int, ar: int, aLeft: bool,
                                    bp: int, bl: int, br: int, bLeft: bool, wp: set<int>, wl: set<int>, wr: set<int>) {
    && (ap != Null && ap != b ==> if aLeft then ap in wl else ap in wr)
    && (ar != Null && ar != b ==> ar in wp)
    && (al != Null && al != b ==> al in wp)
    && (bp != Null && bp != a ==> if bLeft then bp in wl else bp in wr)
    && (br != Null && br != a ==> br in wp)
    && (bl != Null && bl != a ==> bl in wp)
  }

  /** Given consistent links around `a` and `b`, re-pointing those slots covers all that must change. */
  lemma CoversFromRepoint(P0: seq<int>, L0: seq<int>, R0: seq<int>, a: int, b: int, aLeft: bool, bLeft: bool,
                          wp: set<int>, wl: set<int>, wr: set<int>)
    requires LinkedAt(P0, L0, R0, a) && LinkedAt(P0, L0, R0, b) && a != b && a != Null && b != Null
    requires aLeft <==> P0[a] != Null && L0[P0[a]] == a
    requires bLeft <==> P0[b] != Null && L0[P0[b]] == b
    requires AdjacentCovered(a, b, L0[a], R0[a], L0[b], R0[b], wp, wl, wr)
    requires NeighboursCovered(a, b, P0[a], L0[a], R0[a], aLeft, P0[b], L0[b], R0[b], bLeft, wp, wl, wr)
    ensures Covers(a, b, P0, L0, R0, wp, wl, wr)
  {
  }

  /**
    Exchanging the rows of `a` and `b` and then re-pointing (at least) the covered
    slots gives every node the links of its counterpart, renamed, and so encodes the
    tree with the two nodes exchanged.
  */
  lemma RepointedSwap(s: Shape, a: int, b: int, P0: seq<int>, L0: seq<int>, R0: seq<int>,
                      P1: seq<int>, L1: seq<int>, R1: seq<int>, P: seq<int>, L: seq<int>, R: seq<int>,
                      wp: set<int>, wl: set<int>, wr: set<int>)
    requires Encoded(s, P0, L0, R0) && a in Ids(s) && b in Ids(s) && a != b
    requires Covers(a, b, P0, L0, R0, wp, wl, wr)
    requires P1 == P0[a := P0[b]][b := P0[a]] && L1 == L0[a := L0[b]][b := L0[a]] && R1 == R0[a := R0[b]][b := R0[a]]
    requires Patched(P, P1, wp, a, b) && Patched(L, L1, wl, a, b) && Patched(R, R1, wr, a, b)
    ensures SwappedLinks(s, a, b, P0, L0, R0, P, L, R)
    ensures Encoded(SwapIds(s, a, b), P, L, R)
    ensures RootId(SwapIds(s, a, b)) == Sw(a, b, RootId(s))
  {
    SwapRoot(s, a, b);
    Consistent(s, P0, L0, R0, a);
    Consistent(s, P0, L0, R0, b);
    ChildrenLinkBack(s, P0, L0, R0);
    PatchedParents(s, a, b, P0, L0, R0, P1, P, wp);
    PatchedChildren(Ids(s), a, b, P0, L0, L1, L, wl);
    PatchedChildren(Ids(s), a, b, P0, R0, R1, R, wr);
    forall i | i in Ids(s)
      ensures && 0 <= i < |P| && i < |L| && i < |R|
              && 0 <= Sw(a, b, i) < |P0| && Sw(a, b, i) < |L0| && Sw(a, b, i) < |R0|
              && Links(P[i], L[i], R[i]) == SwLinks(a, b, Links(P0[Sw(a, b, i)], L0[Sw(a, b, i)], R0[Sw(a, b, i)]))
    {
    }
    SwapEncoded(s, a, b, P0, L0, R0, P, L, R);
  }

  // ---------------------------------------------------------------- neighbours in in-order

  /** The first position of `x` in `xs`. */
  ghost function IndexOf(xs: seq<int>, x: int): (a: nat)
    requires x in xs
    ensures a < |xs| && xs[a] == x && x !in xs[..a]
  {
    if xs[0] == x then 0 else 1 + IndexOf(xs[1..], x)
  }

  /** The element after `x` in `xs`, or null when `x` is last or absent. */
  ghost function NextIn(xs: seq<int>, x: int): int {
    if x !in xs then Null
    else var a := IndexOf(xs, x); if a + 1 < |xs| then xs[a + 1] else Null
  }

  /** The element before `x` in `xs`, or null when `x` is first or absent. */
  ghost function PrevIn(xs: seq<int>, x: int): int {
    if x !in xs then Null
    else var a := IndexOf(xs, x); if a > 0 then xs[a - 1] else Null
  }

  lemma IndexOfSplit(A: seq<int>, x: int, B: seq<int>)
    requires x !in A
    ensures IndexOf(A + [x] + B, x) == |A|
  {
    var xs := A + [x] + B;
    assert xs[|A|] == x;
  }

  lemma IncreasingDistinct(xs: seq<int>, key: seq<int>, a: int, b: int)
    requires Increasing(xs, key) && 0 <= a < |xs| && 0 <= b < |xs| && a != b
    ensures xs[a] != xs[b]
  {
  }

  /** The first handle of an increasing walk holds its smallest key. */
  lemma FirstIsSmallest(xs: seq<int>, key: seq<int>)
    requires Increasing(xs, key) && xs != []
    ensures forall y | y in xs :: key[xs[0]] <= key[y]
  {
    forall y | y in xs ensures key[xs[0]] <= key[y] {
      var c :| 0 <= c < |xs| && xs[c] == y;
    }
  }

  /** In a strictly increasing walk, the neighbours of `x` are read off its position. */
  lemma Neighbours(A: seq<int>, x: int, B: seq<int>, key: seq<int>)
    requires Increasing(A + [x] + B, key)
    ensures NextIn(A + [x] + B, x) == if B == [] then Null else B[0]
    ensures PrevIn(A + [x] + B, x) == if A == [] then Null else A[|A| - 1]
  {
    var xs := A + [x] + B;
    if x in A {
      var a :| 0 <= a < |A| && A[a] == x;
      IncreasingDistinct(xs, key, a, |A|);
    }
    IndexOfSplit(A, x, B);
  }

  /**
    What the in-order successor means for keys: it holds the next larger key,
    and there is none exactly when `x` holds the largest key.
  */
  lemma NextInIsNextLarger(xs: seq<int>, key: seq<int>, x: int)
    requires Increasing(xs, key) && x in xs
    ensures var r := NextIn(xs, x);
      && (r == Null <==> forall y | y in xs :: key[y] <= key[x])
      && (r != Null ==> r in xs && key[x] < key[r] && forall y | y in xs && key[x] < key[y] :: key[r] <= key[y])
  {
    var a := IndexOf(xs, x);
    var r := NextIn(xs, x);
    if a + 1 < |xs| {
      assert xs[a + 1] in xs;
      forall y | y in xs && key[x] < key[y] ensures key[r] <= key[y] {
        var c :| 0 <= c < |xs| && xs[c] == y;
      }
    } else {
      forall y | y in xs ensures key[y] <= key[x] {
        var c :| 0 <= c < |xs| && xs[c] == y;
      }
    }
  }

  /** The mirror image: the in-order predecessor holds the next smaller key. */
  lemma PrevInIsNextSmaller(xs: seq<int>, key: seq<int>, x: int)
    requires Increasing(xs, key) && x in xs
    ensures var r := PrevIn(xs, x);
      && (r == Null <==> forall y | y in xs :: key[x] <= key[y])
      && (r != Null ==> r in xs && key[r] < key[x] && forall y | y in xs && key[y] < key[x] :: key[y] <= key[r])
  {
    var a := IndexOf(xs, x);
    var r := PrevIn(xs, x);
    if a > 0 {
      assert xs[a - 1] in xs;
      forall y | y in xs && key[y] < key[x] ensures key[y] <= key[r] {
        var c :| 0 <= c < |xs| && xs[c] == y;
      }
    } else {
      forall y | y in xs ensures key[x] <= key[y] {
        var c :| 0 <= c < |xs| && xs[c] == y;
      }
    }
  }

  /** When `x` comes right after a subtree whose root has no right child, that root precedes `x`. */
  lemma PrevAfterRightmost(p: Path, t: Shape, x: int, B: seq<int>, key: seq<int>)
    requires Ordered(Plug(p, t), key) && t.Br? && t.right == Nil && After(p) == [x] + B
    ensures PrevIn(InOrder(Plug(p, t)), x) == t.id
  {
    PlugSplitRightmost(p, t, x, B);
    Neighbours(Before(p) + InOrder(t.left) + [t.id], x, B, key);
  }

  lemma PlugSplitRightmost(p: Path, t: Shape, x: int, B: seq<int>)
    requires t.Br? && t.right == Nil && After(p) == [x] + B
    ensures InOrder(Plug(p, t)) == (Before(p) + InOrder(t.left) + [t.id]) + [x] + B
  {
    PlugInOrder(p, t);
  }

  /** When `x` comes right before a subtree whose root has no left child, that root follows `x`. */
  lemma NextBeforeLeftmost(p: Path, t: Shape, x: int, A: seq<int>, key: seq<int>)
    requires Ordered(Plug(p, t), key) && t.Br? && t.left == Nil && Before(p) == A + [x]
    ensures NextIn(InOrder(Plug(p, t)), x) == t.id
  {
    PlugSplitLeftmost(p, t, x, A);
    Neighbours(A, x, [t.id] + InOrder(t.right) + After(p), key);
  }

  lemma PlugSplitLeftmost(p: Path, t: Shape, x: int, A: seq<int>)
    requires t.Br? && t.left == Nil && Before(p) == A + [x]
    ensures InOrder(Plug(p, t)) == A + [x] + ([t.id] + InOrder(t.right) + After(p))
  {
    PlugInOrder(p, t);
  }

  /**
    Climbing from `x` through left-child links ends at the predecessor of `x`:
    the parent reached through a right-child link, or null at the root.
  */
  lemma PrevAtClimbEnd(p: Path, t: Shape, x: int, key: seq<int>)
    requires Ordered(Plug(p, t), key) && |InOrder(t)| > 0 && InOrder(t)[0] == x
    requires p == [] || Last(p).GoRight?
    ensures PrevIn(InOrder(Plug(p, t)), x) == TopId(p)
  {
    var B := InOrder(t)[1..] + After(p);
    PlugSplitFirst(p, t, x);
    Neighbours(Before(p), x, B, key);
    assert p != [] ==> Before(p) == Before(Up(p)) + InOrder(Last(p).sib) + [Last(p).pid];
  }

  lemma PlugSplitFirst(p: Path, t: Shape, x: int)
    requires |InOrder(t)| > 0 && InOrder(t)[0] == x
    ensures InOrder(Plug(p, t)) == Before(p) + [x] + (InOrder(t)[1..] + After(p))
  {
    PlugInOrder(p, t);
    var T := InOrder(t);
    assert T == [x] + T[1..];
    Regroup(Before(p), x, T[1..], After(p));
  }

  lemma Regroup(A: seq<int>, x: int, T: seq<int>, B: seq<int>)
    ensures A + ([x] + T) + B == A + [x] + (T + B)
  {
  }

  /** The leftmost node of a tree whose path holds no left context comes first in in-order. */
  lemma LeftmostIsMin(path: Path, t: Shape, key: seq<int>)
    requires Ordered(Plug(path, t), key) && t.Br? && t.left == Nil && Before(path) == []
    ensures InOrder(Plug(path, t)) != [] && InOrder(Plug(path, t))[0] == t.id
    ensures t.id in Ids(Plug(path, t)) && 0 <= t.id < |key|
    ensures forall i | i in Ids(Plug(path, t)) :: 0 <= i < |key| && key[t.id] <= key[i]
  {
    var s := Plug(path, t);
    PlugSplitFirst(path, t, t.id);
    InOrderIds(s);
    FirstIsSmallest(InOrder(s), key);
  }

  /** The mirror image: climbing through right-child links ends at the successor. */
  lemma NextAtClimbEnd(p: Path, t: Shape, x: int, key: seq<int>)
    requires Ordered(Plug(p, t), key) && |InOrder(t)| > 0 && InOrder(t)[|InOrder(t)| - 1] == x
    requires p == [] || Last(p).GoLeft?
    ensures NextIn(InOrder(Plug(p, t)), x) == TopId(p)
  {
    var T := InOrder(t);
    var A := Before(p) + T[..|T| - 1];
    PlugSplitLast(p, t, x);
    if p != [] {
      assert After(p) == [Last(p).pid] + InOrder(Last(p).sib) + After(Up(p));
    }
    Neighbours(A, x, After(p), key);
  }

  lemma PlugSplitLast(p: Path, t: Shape, x: int)
    requires |InOrder(t)| > 0 && InOrder(t)[|InOrder(t)| - 1] == x
    ensures InOrder(Plug(p, t)) == (Before(p) + InOrder(t)[..|InOrder(t)| - 1]) + [x] + After(p)
  {
    PlugInOrder(p, t);
    var T := InOrder(t);
    assert T == T[..|T| - 1] + [x];
    Regroup4'(Before(p), T[..|T| - 1], [x], After(p));
  }

  /** The last node in in-order of a non-empty subtree has no right child. */
  lemma {:induction false} RightmostLinks(path: Path, t: Shape, P: seq<int>, L: seq<int>, R: seq<int>)
    requires Encoded(Plug(path, t), P, L, R) && t.Br?
    ensures InOrder(t) != [] && InOrder(t)[|InOrder(t)| - 1] in Ids(t)
    ensures 0 <= InOrder(t)[|InOrder(t)| - 1] < |R| && R[InOrder(t)[|InOrder(t)| - 1]] == Null
    decreases t
  {
    NodeLinks(path, t, P, L, R);
    if t.right == Nil {
      assert InOrder(t) == InOrder(t.left) + [t.id];
    } else {
      RightmostLinks(path + [GoRight(t.left, t.id)], t.right, P, L, R);
      assert InOrder(t) == InOrder(t.left) + [t.id] + InOrder(t.right);
    }
  }

  // ---------------------------------------------------------------- splicing a node out

  /** `xs` without (the first occurrence of) `x`. */
  ghost function Drop(xs: seq<int>, x: int): seq<int>
    requires x in xs
  {
    xs[..IndexOf(xs, x)] + xs[IndexOf(xs, x) + 1..]
  }

  ghost predicate NoDups(xs: seq<int>) {
    forall a, b | 0 <= a < b < |xs| :: xs[a] != xs[b]
  }

  lemma IndexOfUnique(xs: seq<int>, j: int)
    requires NoDups(xs) && 0 <= j < |xs|
    ensures IndexOf(xs, xs[j]) == j
  {
  }

  /** The in-order walk of a tree without repeated handles repeats no handle. */
  lemma {:induction false} InOrderNoDups(s: Shape)
    requires Distinct(s)
    ensures NoDups(InOrder(s))
  {
    match s
    case Nil =>
    case Br(l, i, r) =>
      InOrderNoDups(l);
      InOrderNoDups(r);
      InOrderIds(l);
      InOrderIds(r);
      var xs, nl := InOrder(s), |InOrder(l)|;
      forall a, b | 0 <= a < b < |xs| ensures xs[a] != xs[b] {
        if b < nl {
          assert xs[a] == InOrder(l)[a] && xs[b] == InOrder(l)[b];
        } else if a > nl {
          assert xs[a] == InOrder(r)[a - nl - 1] && xs[b] == InOrder(r)[b - nl - 1];
        } else if a == nl {
          assert xs[b] == InOrder(r)[b - nl - 1] && xs[b] in InOrder(r);
        } else if b == nl {
          assert xs[a] == InOrder(l)[a] && xs[a] in InOrder(l);
        } else {
          assert xs[a] == InOrder(l)[a] && xs[a] in InOrder(l);
          assert xs[b] == InOrder(r)[b - nl - 1] && xs[b] in InOrder(r);
        }
      }
  }

  /** Dropping one element keeps an increasing walk increasing. */
  lemma IncreasingDrop(xs: seq<int>, key: seq<int>, x: int)
    requires Increasing(xs, key) && x in xs
    ensures Increasing(Drop(xs, x), key)
  {
    var a := IndexOf(xs, x);
    var ys := Drop(xs, x);
    assert ys == xs[..a] + xs[a + 1..];
    forall i | 0 <= i < |ys| ensures ys[i] == xs[if i < a then i else i + 1] {
      if i < a {
        assert ys[i] == xs[..a][i];
      } else {
        assert ys[i] == xs[a + 1..][i - a];
      }
    }
  }

  /** What remains of a node with at most one child: that child (the left one first). */
  function Spliced(t: Shape): Shape {
    match t
    case Nil => Nil
    case Br(l, _, r) => if l != Nil then l else r
  }

  /** Splicing a node with at most one child out of the in-order walk drops just that node. */
  lemma SpliceInOrder(path: Path, t: Shape)
    requires Distinct(Plug(path, t)) && t.Br? && (t.left == Nil || t.right == Nil)
    ensures t.id in InOrder(Plug(path, t))
    ensures InOrder(Plug(path, Spliced(t))) == Drop(InOrder(Plug(path, t)), t.id)
  {
    var A, B := Before(path) + InOrder(t.left), InOrder(t.right) + After(path);
    SpliceSplit(path, t);
    InOrderNoDups(Plug(path, t));
    DropSplit(A, t.id, B);
  }

  lemma SpliceSplit(path: Path, t: Shape)
    requires t.Br? && (t.left == Nil || t.right == Nil)
    ensures InOrder(Plug(path, t)) == (Before(path) + InOrder(t.left)) + [t.id] + (InOrder(t.right) + After(path))
    ensures InOrder(Plug(path, Spliced(t))) == (Before(path) + InOrder(t.left)) + (InOrder(t.right) + After(path))
  {
    SpliceSplitAny(path, t);
    SplicedInOrder(path, t);
  }

  lemma SplicedInOrder(path: Path, t: Shape)
    requires t.Br? && (t.left == Nil || t.right == Nil)
    ensures InOrder(Plug(path, Spliced(t))) == (Before(path) + InOrder(t.left)) + (InOrder(t.right) + After(path))
  {
    var Bf, Af, l, r := Before(path), After(path), InOrder(t.left), InOrder(t.right);
    PlugInOrder(path, Spliced(t));
    if t.left != Nil {
      assert r == [];
      Regroup3(Bf, l, Af);
    } else {
      assert l == [];
      Regroup3(Bf, r, Af);
    }
  }

  lemma Regroup3(B: seq<int>, M: seq<int>, A: seq<int>)
    ensures B + M + A == (B + M) + ([] + A) == (B + []) + (M + A)
  {
  }

  lemma Regroup5(B: seq<int>, l: seq<int>, x: int, r: seq<int>, A: seq<int>)
    ensures B + (l + [x] + r) + A == (B + l) + [x] + (r + A)
  {
  }

  lemma DropSplit(A: seq<int>, x: int, B: seq<int>)
    requires NoDups(A + [x] + B)
    ensures x in A + [x] + B && Drop(A + [x] + B, x) == A + B
  {
    var xs := A + [x] + B;
    assert xs[|A|] == x;
    IndexOfUnique(xs, |A|);
    assert xs[..|A|] == A && xs[|A| + 1..] == B;
  }

  /**
    The links after `t.id` is spliced out: its child (if any) takes its parent, and the
    parent's pointer on the side leading to `t` goes to the child.
  */
  lemma SpliceEncoded(path: Path, t: Shape, P: seq<int>, L: seq<int>, R: seq<int>,
                      P': seq<int>, L': seq<int>, R': seq<int>)
    requires Encoded(Plug(path, t), P, L, R) && t.Br? && (t.left == Nil || t.right == Nil)
    requires RootId(Spliced(t)) != Null ==> 0 <= RootId(Spliced(t)) < |P| && P' == P[RootId(Spliced(t)) := TopId(path)]
    requires RootId(Spliced(t)) == Null ==> P' == P
    requires path == [] ==> L' == L && R' == R
    requires path != [] && Last(path).GoLeft? ==> 0 <= TopId(path) < |L| && L' == L[TopId(path) := RootId(Spliced(t))] && R' == R
    requires path != [] && Last(path).GoRight? ==> 0 <= TopId(path) < |R| && R' == R[TopId(path) := RootId(Spliced(t))] && L' == L
    ensures Encoded(Plug(path, Spliced(t)), P', L', R')
  {
    var c := Spliced(t);
    PlugDistinct(path, t);
    PlugIds(path, t);
    EncodedUnder(path, t, P, L, R);
    EncodedCtx(path, t, P, L, R);
    UnderSplit(t, TopId(path), P, L, R);
    assert Under(c, t.id, P, L, R);
    Reparent(c, t.id, TopId(path), P, L, R, P', L', R');
    ReplaceEncoded(path, t, c, P, L, R, P', L', R');
  }

  /** A node with a left child is preceded by the rightmost node of that subtree, which has no right child. */
  lemma PrevOfLeftChild(path: Path, t: Shape, P: seq<int>, L: seq<int>, R: seq<int>, key: seq<int>)
    requires Encoded(Plug(path, t), P, L, R) && Ordered(Plug(path, t), key) && t.Br? && t.left != Nil
    ensures var p := PrevIn(InOrder(Plug(path, t)), t.id);
      p in Ids(t.left) && 0 <= p < |R| && R[p] == Null
  {
    RightmostLinks(path + [GoLeft(t.id, t.right)], t.left, P, L, R);
    var l := InOrder(t.left);
    var A := Before(path) + l;
    SpliceSplitAny(path, t);
    Neighbours(A, t.id, InOrder(t.right) + After(path), key);
    assert A[|A| - 1] == l[|l| - 1];
  }

  lemma SpliceSplitAny(path: Path, t: Shape)
    requires t.Br?
    ensures InOrder(Plug(path, t)) == (Before(path) + InOrder(t.left)) + [t.id] + (InOrder(t.right) + After(path))
  {
    PlugInOrder(path, t);
    assert InOrder(t) == InOrder(t.left) + [t.id] + InOrder(t.right);
    Regroup5(Before(path), InOrder(t.left), t.id, InOrder(t.right), After(path));
  }

  /**
    Exchanging `n` with its in-order predecessor `p` and then dropping `n` leaves the
    same walk as dropping `n` in the first place.
  */
  lemma SwapAdjacentDrop(xs: seq<int>, ys: seq<int>, n: int, p: int)
    requires NoDups(xs) && n in xs && p != Null && PrevIn(xs, n) == p
    requires |ys| == |xs| && forall i | 0 <= i < |xs| :: ys[i] == Sw(n, p, xs[i])
    ensures n in ys && Drop(ys, n) == Drop(xs, n)
  {
    var a := IndexOf(xs, n);
    assert a > 0 && xs[a - 1] == p;
    assert ys[a - 1] == n;
    forall i | 0 <= i < a - 1 ensures ys[i] != n {
      assert xs[i] != xs[a - 1] && xs[i] != xs[a];
    }
    assert IndexOf(ys, n) == a - 1;
    var d, e := Drop(ys, n), Drop(xs, n);
    assert d == ys[..a - 1] + ys[a..] && e == xs[..a] + xs[a + 1..];
    forall i | 0 <= i < |d| ensures d[i] == e[i] {
      if i < a - 1 {
        assert xs[i] != xs[a - 1] && xs[i] != xs[a];
      } else if i >= a {
        assert xs[i + 1] != xs[a - 1] && xs[i + 1] != xs[a];
      }
    }
  }

  /** Exchanging a node with its predecessor does not change what dropping the node leaves. */
  lemma SwapThenDrop(s: Shape, n: int, p: int)
    requires Distinct(s) && n in Ids(s) && p in Ids(s) && n != Null && p != Null
    requires n in InOrder(s) && PrevIn(InOrder(s), n) == p
    ensures Ids(SwapIds(s, n, p)) == Ids(s)
    ensures n in InOrder(SwapIds(s, n, p)) && Drop(InOrder(SwapIds(s, n, p)), n) == Drop(InOrder(s), n)
  {
    SwapIdsSame(s, n, p);
    SwapInOrder(s, n, p);
    InOrderNoDups(s);
    SwapAdjacentDrop(InOrder(s), InOrder(SwapIds(s, n, p)), n, p);
  }

  lemma SwapIdsSame(s: Shape, a: int, b: int)
    requires a in Ids(s) && b in Ids(s)
    ensures Ids(SwapIds(s, a, b)) == Ids(s)
  {
    SwapIdsSet(s, a, b);
    forall i ensures i in Ids(SwapIds(s, a, b)) <==> i in Ids(s) {
      if i != a && i != b {
        assert Sw(a, b, i) == i;
      }
    }
  }

  /** Splicing out a node with at most one child: its walk, its handles and its root. */
  lemma SpliceFacts(path: Path, t: Shape)
    requires Distinct(Plug(path, t)) && t.Br? && (t.left == Nil || t.right == Nil)
    ensures t.id in InOrder(Plug(path, t)) && InOrder(Plug(path, Spliced(t))) == Drop(InOrder(Plug(path, t)), t.id)
    ensures Ids(Plug(path, Spliced(t))) == Ids(Plug(path, t)) - {t.id}
    ensures RootId(Plug(path, Spliced(t))) == if path == [] then RootId(Spliced(t)) else RootId(Plug(path, t))
  {
    SpliceInOrder(path, t);
    PlugDistinct(path, t);
    PlugIds(path, t);
    PlugIds(path, Spliced(t));
    if path != [] {
      PlugRoot(path, t, Spliced(t));
    }
  }
}
