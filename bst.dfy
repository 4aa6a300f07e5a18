/**
  The unbalanced binary search tree of bst.h, over an arena of nodes.

  Node handles are indices into the parallel sequences `parent`, `left`,
  `right`, `key`, `value` and `balance`; -1 is the null pointer. Allocating a
  node appends a slot; deleting one drops it from the tree (its slot is never
  reached again). The ghost `shape` is the tree the pointers encode.
*/
module Bst {
  import opened Shapes

  datatype Option<T> = None | Some(value: T)

  /** The shape after a leaf `n` holding key `k` is attached where a search for `k` falls off. */
  ghost function Attach(s: Shape, key: seq<int>, k: int, n: int): Shape
    requires InArena(s, |key|)
  {
    match s
    case Nil => Br(Nil, n, Nil)
    case Br(l, i, r) =>
      assert i in Ids(s) && Ids(l) <= Ids(s) && Ids(r) <= Ids(s);
      if k < key[i] then Br(Attach(l, key, k, n), i, r)
      else if k > key[i] then Br(l, i, Attach(r, key, k, n))
      else s
  }

  /** Attaching adds exactly the new handle, wherever the search ends. */
  lemma {:induction false} AttachIds(s: Shape, key: seq<int>, k: int)
    requires InArena(s, |key|) && k !in KeySet(s, key)
    ensures Ids(Attach(s, key, k, |key|)) == Ids(s) + {|key|}
  {
    match s
    case Nil =>
    case Br(l, i, r) =>
      assert i in Ids(s);
      if k < key[i] {
        assert KeySet(l, key) <= KeySet(s, key);
        AttachIds(l, key, k);
      } else if k > key[i] {
        assert KeySet(r, key) <= KeySet(s, key);
        AttachIds(r, key, k);
      }
  }

  /** Attaching a key that is not yet stored keeps binary-search-tree order. */
  lemma {:induction false} AttachOrdered(s: Shape, key: seq<int>, k: int)
    requires Ordered(s, key) && k !in KeySet(s, key)
    ensures InArena(s, |key|)
    ensures Ordered(Attach(s, key, k, |key|), key + [k])
  {
    OrderedUniqueKeys(s, key);
    var n := |key|;
    var key' := key + [k];
    match s
    case Nil =>
    case Br(l, i, r) =>
      OrderedBr(s, key);
      if k < key[i] {
        assert KeySet(l, key) <= KeySet(s, key);
        AttachOrdered(l, key, k);
        AttachIds(l, key, k);
        IncreasingExtend(InOrder(r), key, k);
        OrderedJoin(Attach(l, key, k, n), i, r, key');
      } else {
        assert k != key[i];
        assert KeySet(r, key) <= KeySet(s, key);
        AttachOrdered(r, key, k);
        AttachIds(r, key, k);
        IncreasingExtend(InOrder(l), key, k);
        OrderedJoin(l, i, Attach(r, key, k, n), key');
      }
  }

  /** The new handle is slotted into the in-order walk; the other handles keep their order. */
  lemma {:induction false} AttachInOrder(s: Shape, key: seq<int>, k: int)
    requires InArena(s, |key|) && k !in KeySet(s, key)
    ensures exists a | 0 <= a <= |InOrder(s)| :: InOrder(Attach(s, key, k, |key|)) == InOrder(s)[..a] + [|key|] + InOrder(s)[a..]
  {
    var n := |key|;
    match s
    case Nil =>
      assert InOrder(Attach(s, key, k, n)) == InOrder(s)[..0] + [n] + InOrder(s)[0..];
    case Br(l, i, r) =>
      assert i in Ids(s);
      if k < key[i] {
        assert KeySet(l, key) <= KeySet(s, key);
        AttachInOrder(l, key, k);
        var a :| 0 <= a <= |InOrder(l)| && InOrder(Attach(l, key, k, n)) == InOrder(l)[..a] + [n] + InOrder(l)[a..];
        SpliceLeft(InOrder(l), a, n, i, InOrder(r));
        assert InOrder(Attach(s, key, k, n)) == InOrder(s)[..a] + [n] + InOrder(s)[a..];
      } else {
        assert k != key[i];
        assert KeySet(r, key) <= KeySet(s, key);
        AttachInOrder(r, key, k);
        var a :| 0 <= a <= |InOrder(r)| && InOrder(Attach(r, key, k, n)) == InOrder(r)[..a] + [n] + InOrder(r)[a..];
        SpliceRight(InOrder(l), i, InOrder(r), a, n);
        var b := |InOrder(l)| + 1 + a;
        assert InOrder(Attach(s, key, k, n)) == InOrder(s)[..b] + [n] + InOrder(s)[b..];
      }
  }

  lemma SpliceLeft(l: seq<int>, a: int, n: int, i: int, r: seq<int>)
    requires 0 <= a <= |l|
    ensures (l[..a] + [n] + l[a..]) + [i] + r == (l + [i] + r)[..a] + [n] + (l + [i] + r)[a..]
  {
    assert (l + [i] + r)[..a] == l[..a];
    assert (l + [i] + r)[a..] == l[a..] + [i] + r;
  }

  lemma SpliceRight(l: seq<int>, i: int, r: seq<int>, a: int, n: int)
    requires 0 <= a <= |r|
    ensures l + [i] + (r[..a] + [n] + r[a..]) == (l + [i] + r)[..|l| + 1 + a] + [n] + (l + [i] + r)[|l| + 1 + a..]
  {
    assert (l + [i] + r)[..|l| + 1 + a] == l + [i] + r[..a];
    assert (l + [i] + r)[|l| + 1 + a..] == r[a..];
  }

  /** The key-to-value map held by the nodes of `s`. */
  ghost function ContentsOf(s: Shape, key: seq<int>, value: seq<int>): map<int, int>
    requires Ordered(s, key) && |value| == |key|
  {
    OrderedUniqueKeys(s, key);
    map i | i in Ids(s) :: key[i] := value[i]
  }

  /** Every node contributes its key and value; every key comes from a node. */
  lemma ContentsOfFacts(s: Shape, key: seq<int>, value: seq<int>)
    requires Ordered(s, key) && |value| == |key|
    ensures InArena(s, |key|)
    ensures forall i | i in Ids(s) :: key[i] in ContentsOf(s, key, value) && ContentsOf(s, key, value)[key[i]] == value[i]
    ensures forall k :: k in ContentsOf(s, key, value) <==> k in KeySet(s, key)
  {
    OrderedUniqueKeys(s, key);
  }

  /** Overwriting the value of one node updates exactly that node's key in the map. */
  lemma OverwriteContents(s: Shape, key: seq<int>, value: seq<int>, n: int, v: int)
    requires Ordered(s, key) && |value| == |key| && n in Ids(s)
    ensures 0 <= n < |key|
    ensures ContentsOf(s, key, value[n := v]) == ContentsOf(s, key, value)[key[n] := v]
  {
    ContentsOfFacts(s, key, value);
    ContentsOfFacts(s, key, value[n := v]);
    OrderedUniqueKeys(s, key);
  }

  /** Attaching a fresh leaf for a missing key adds exactly that key with its value. */
  lemma AttachContents(s: Shape, key: seq<int>, value: seq<int>, k: int, v: int)
    requires Ordered(s, key) && InArena(s, |key|) && |value| == |key| && k !in KeySet(s, key)
    ensures Ordered(Attach(s, key, k, |key|), key + [k])
    ensures ContentsOf(Attach(s, key, k, |key|), key + [k], value + [v]) == ContentsOf(s, key, value)[k := v]
  {
    var s' := Attach(s, key, k, |key|);
    AttachOrdered(s, key, k);
    AttachIds(s, key, k);
    ContentsOfFacts(s, key, value);
    ContentsOfFacts(s', key + [k], value + [v]);
    assert |key| in Ids(s');
  }

  /** The map a set of handles denotes: each handle's key to its value. */
  ghost function KeyedMap(ids: set<int>, key: seq<int>, value: seq<int>): map<int, int>
    requires |value| == |key| && forall i | i in ids :: 0 <= i < |key|
    requires forall i, j | i in ids && j in ids && key[i] == key[j] :: i == j
  {
    map i | i in ids :: key[i] := value[i]
  }

  /** Dropping one handle from an injectively keyed set drops exactly its key from the map. */
  lemma MapDrop(ids: set<int>, key: seq<int>, value: seq<int>, n: int)
    requires |value| == |key| && n in ids
    requires forall i | i in ids :: 0 <= i < |key|
    requires forall i, j | i in ids && j in ids && key[i] == key[j] :: i == j
    ensures KeyedMap(ids - {n}, key, value) == KeyedMap(ids, key, value) - {key[n]}
  {
    var m, m' := KeyedMap(ids, key, value), KeyedMap(ids - {n}, key, value);
    var d := m - {key[n]};
    MapDropKeys(ids, key, value, n);
    forall k' | k' in m' ensures m'[k'] == d[k'] {
      var i :| i in ids - {n} && key[i] == k';
    }
    MapExt(m', d);
  }

  lemma MapDropKeys(ids: set<int>, key: seq<int>, value: seq<int>, n: int)
    requires |value| == |key| && n in ids
    requires forall i | i in ids :: 0 <= i < |key|
    requires forall i, j | i in ids && j in ids && key[i] == key[j] :: i == j
    ensures forall k :: k in KeyedMap(ids - {n}, key, value) <==> k in KeyedMap(ids, key, value) && k != key[n]
  {
    var m, m' := KeyedMap(ids, key, value), KeyedMap(ids - {n}, key, value);
    forall k' | k' in m' ensures k' in m && k' != key[n] {
      var i :| i in ids - {n} && key[i] == k';
    }
    forall k' | k' in m && k' != key[n] ensures k' in m' {
      var i :| i in ids && key[i] == k';
      assert i in ids - {n};
    }
  }

  /** Maps with the same keys and the same value at each key are equal. */
  lemma MapExt(a: map<int, int>, b: map<int, int>)
    requires forall k :: k in a <==> k in b
    requires forall k | k in a :: a[k] == b[k]
    ensures a == b
  {
    forall k | k in a ensures k in b && a[k] == b[k] {
    }
    forall k | k in b ensures k in a {
    }
    assert a.Keys == b.Keys;
  }

  /** Removing one node from an ordered tree removes exactly its key from the map. */
  lemma DropContents(s: Shape, s': Shape, key: seq<int>, value: seq<int>, n: int)
    requires Ordered(s, key) && Ordered(s', key) && |value| == |key|
    requires n in Ids(s) && Ids(s') == Ids(s) - {n}
    ensures 0 <= n < |key| && ContentsOf(s', key, value) == ContentsOf(s, key, value) - {key[n]}
  {
    OrderedUniqueKeys(s, key);
    MapDrop(Ids(s), key, value, n);
    assert ContentsOf(s, key, value) == KeyedMap(Ids(s), key, value);
    assert ContentsOf(s', key, value) == KeyedMap(Ids(s) - {n}, key, value);
  }

  /**
    The shape `remove` leaves when it deletes node `n`: a node with two children first
    trades places with its in-order predecessor, then `n` is spliced out.
  */
  ghost function Removed(s: Shape, n: int): Shape
    requires Distinct(s) && n in Ids(s)
  {
    var t := SubtreeAt(s, n);
    var s1 := if t.Br? && t.left != Nil && t.right != Nil then SwapIds(s, n, PrevIn(InOrder(s), n)) else s;
    if n in Ids(s1) then Plug(PathTo(s1, n), Spliced(SubtreeAt(s1, n))) else s1
  }

  /** Every node's two subtrees differ in height by at most one. */
  ghost predicate HeightBalanced(s: Shape) {
    match s
    case Nil => true
    case Br(l, _, r) =>
      HeightBalanced(l) && HeightBalanced(r) && -1 <= Height(l) - Height(r) <= 1
  }

  class BinarySearchTree {
    var root: int
    var parent: seq<int>
    var left: seq<int>
    var right: seq<int>
    var key: seq<int>
    var value: seq<int>
    /** AVL balance factor of each node (right height minus left height); unused by the plain tree. */
    var balance: seq<int>
    ghost var shape: Shape

    /** The pointers encode `shape`, `root` is its root, and all sequences cover the arena. */
    ghost predicate Wf()
      reads this
    {
      && Encoded(shape, parent, left, right)
      && |key| == |parent| && |value| == |parent| && |balance| == |parent|
      && root == RootId(shape)
    }

    /** Well-formed and in binary-search-tree order. */
    ghost predicate Valid()
      reads this
    {
      Wf() && Ordered(shape, key)
    }

    /** The map from keys to values that the tree stores. */
    ghost function Contents(): map<int, int>
      reads this
      requires Valid()
    {
      ContentsOf(shape, key, value)
    }

    constructor ()
      ensures Valid() && shape == Nil && Contents() == map[]
      ensures parent == [] && left == [] && right == [] && key == [] && value == [] && balance == []
    {
      root := Null;
      parent, left, right := [], [], [];
      key, value, balance := [], [], [];
      shape := Nil;
      new;
      assert Ids(shape) == {};
    }

    /** `empty()`: the tree holds no key. */
    function Empty(): (b: bool)
      reads this
      requires Valid()
      ensures b <==> Contents() == map[]
      ensures b <==> shape == Nil
    {
      ContentsOfFacts(shape, key, value);
      assert shape.Br? ==> shape.id in Ids(shape);
      root == Null
    }

    /** `internalFind`: the node holding key `k`, or null when no node does. */
    method InternalFind(k: int) returns (n: int)
      requires Valid()
      ensures n == Null <==> k !in Contents()
      ensures n != Null ==> n in Ids(shape) && key[n] == k && Contents()[k] == value[n]
    {
      var cur := root;
      ghost var path: Path := [];
      ghost var sub := shape;
      while cur != Null
        invariant Plug(path, sub) == shape
        invariant cur == RootId(sub)
        invariant k in KeySet(shape, key) <==> k in KeySet(sub, key)
        invariant InArena(sub, |key|)
        decreases sub
      {
        NodeLinks(path, sub, parent, left, right);
        OrderedPlug(path, sub, key);
        SearchStep(sub, key, k);
        if k < key[cur] {
          path, sub := path + [GoLeft(cur, sub.right)], sub.left;
          cur := left[cur];
        } else if k > key[cur] {
          path, sub := path + [GoRight(sub.left, cur)], sub.right;
          cur := right[cur];
        } else {
          PlugIds(path, sub);
          assert cur in Ids(sub);
          ContentsOfFacts(shape, key, value);
          return cur;
        }
      }
      assert KeySet(Nil, key) == {};
      ContentsOfFacts(shape, key, value);
      return Null;
    }

    /** `operator[]`: the value stored under `k`, or `None` where the source throws `out_of_range`. */
    method Get(k: int) returns (r: Option<int>)
      requires Valid()
      ensures r == if k in Contents() then Some(Contents()[k]) else None
    {
      var n := InternalFind(k);
      if n == Null {
        return None;
      }
      return Some(value[n]);
    }

    /**
      `insert`: an existing key has only its value overwritten; a new key gets a
      fresh leaf, hung where the search for it fell off (or as the root).
    */
    method Insert(k: int, v: int)
      requires Valid()
      modifies this
      ensures Valid()
      ensures Contents() == old(Contents())[k := v]
      ensures k in old(Contents()) ==>
        && shape == old(shape) && root == old(root) && key == old(key) && balance == old(balance)
        && parent == old(parent) && left == old(left) && right == old(right)
        && exists n | n in Ids(shape) && key[n] == k :: value == old(value)[n := v]
      ensures k !in old(Contents()) ==>
        && shape == Attach(old(shape), old(key), k, old(|key|))
        && key == old(key) + [k] && value == old(value) + [v] && balance == old(balance) + [0]
    {
      ghost var n := |key|;
      ghost var s0 := shape;
      ContentsOfFacts(shape, key, value);
      if root == Null {
        assert k !in Contents();
        AppendNode(k, v, Null, [], Br(Nil, n, Nil));
        AttachContents(s0, old(key), old(value), k, v);
        return;
      }
      var found, cur, par, path := InsertSearch(k);
      if found {
        OverwriteContents(shape, key, value, cur, v);
        value := value[cur := v];
        return;
      }
      AppendNode(k, v, par, path, Attach(s0, key, k, n));
      AttachContents(s0, old(key), old(value), k, v);
    }

    /**
      The descent of `insert`: either the node holding `k`, or the parent below which
      a new leaf for `k` belongs, with the path to that empty spot.
    */
    method InsertSearch(k: int) returns (found: bool, cur: int, par: int, ghost path: Path)
      requires Valid() && root != Null
      ensures found ==> cur in Ids(shape) && 0 <= cur < |key| && key[cur] == k
      ensures !found ==> && k !in KeySet(shape, key) && path != [] && Plug(path, Nil) == shape
                         && Attach(shape, key, k, |key|) == Plug(path, Br(Nil, |key|, Nil))
                         && par == TopId(path) && 0 <= par < |key| && (Last(path).GoLeft? <==> k < key[par])
    {
      ghost var n := |key|;
      cur, par, path := root, Null, [];
      ghost var sub := shape;
      while cur != Null
        invariant Plug(path, sub) == shape
        invariant cur == RootId(sub)
        invariant k in KeySet(shape, key) <==> k in KeySet(sub, key)
        invariant InArena(sub, |key|)
        invariant Attach(shape, key, k, n) == Plug(path, Attach(sub, key, k, n))
        invariant path != [] ==> par == TopId(path) && 0 <= par < |key| && (Last(path).GoLeft? <==> k < key[par])
        invariant cur == Null ==> path != []
        decreases sub
      {
        NodeLinks(path, sub, parent, left, right);
        OrderedPlug(path, sub, key);
        SearchStep(sub, key, k);
        par := cur;
        if k < key[cur] {
          path, sub := path + [GoLeft(cur, sub.right)], sub.left;
          cur := left[cur];
        } else if k > key[cur] {
          path, sub := path + [GoRight(sub.left, cur)], sub.right;
          cur := right[cur];
        } else {
          assert cur in Ids(sub);
          PlugIds(path, sub);
          return true, cur, par, path;
        }
      }
      PlugNulls(path, sub, parent, left, right);
      assert sub == Nil && KeySet(Nil, key) == {};
      return false, cur, par, path;
    }

    /** `getSmallestNode`: the first node of the in-order walk, which holds the smallest key. */
    method GetSmallestNode() returns (n: int)
      requires Valid()
      ensures n == if shape == Nil then Null else InOrder(shape)[0]
      ensures n != Null ==> n in Ids(shape) && forall i | i in Ids(shape) :: key[n] <= key[i]
    {
      PlugNulls([], shape, parent, left, right);
      var cur := root;
      if cur == Null {
        return Null;
      }
      NodeLinks([], shape, parent, left, right);
      ghost var path: Path := [];
      ghost var sub := shape;
      while left[cur] != Null
        invariant Plug(path, sub) == shape && sub.Br? && cur == sub.id && 0 <= cur < |left|
        invariant Before(path) == []
        decreases sub
      {
        NodeLinks(path, sub, parent, left, right);
        PlugNulls(path, sub, parent, left, right);
        path, sub := path + [GoLeft(cur, sub.right)], sub.left;
        cur := left[cur];
        NodeLinks(path, sub, parent, left, right);
      }
      NodeLinks(path, sub, parent, left, right);
      PlugNulls(path, sub, parent, left, right);
      LeftmostIsMin(path, sub, key);
      return cur;
    }

    /**
      `predecessor`: the node just before `current` in the in-order walk, that
      is the node with the next smaller key; null for a null `current` or the minimum.
    */
    method Predecessor(current: int) returns (r: int)
      requires Valid() && (current == Null || current in Ids(shape))
      ensures r == PrevIn(InOrder(shape), current)
      ensures current != Null ==> (r == Null <==> forall i | i in Ids(shape) :: key[current] <= key[i])
      ensures r != Null ==>
        && r in Ids(shape) && key[r] < key[current]
        && forall i | i in Ids(shape) && key[i] < key[current] :: key[i] <= key[r]
    {
      if current == Null {
        PlugNulls([], shape, parent, left, right);
        InOrderIds(shape);
        return Null;
      }
      PathToPlug(shape, current);
      ghost var path := PathTo(shape, current);
      ghost var sub := SubtreeAt(shape, current);
      NodeLinks(path, sub, parent, left, right);
      PlugNulls(path, sub, parent, left, right);
      if left[current] != Null {
        r := RightmostOfLeft(current, path, sub);
      } else {
        r := ClimbFromLeft(current, path, sub);
      }
      InOrderIds(shape);
      PrevInIsNextSmaller(InOrder(shape), key, current);
    }

    /** The predecessor of a node with a left child: the rightmost node of that subtree. */
    method RightmostOfLeft(current: int, ghost path: Path, ghost sub: Shape) returns (r: int)
      requires Valid() && Plug(path, sub) == shape && sub.Br? && sub.id == current
      requires 0 <= current < |left| && left[current] != Null
      ensures r == PrevIn(InOrder(shape), current)
    {
      NodeLinks(path, sub, parent, left, right);
      var pred := left[current];
      ghost var p := path + [GoLeft(current, sub.right)];
      ghost var t := sub.left;
      NodeLinks(p, t, parent, left, right);
      while right[pred] != Null
        invariant Plug(p, t) == shape && t.Br? && pred == t.id && 0 <= pred < |right|
        invariant right[pred] == RootId(t.right)
        invariant After(p) == [current] + InOrder(sub.right) + After(path)
        decreases t
      {
        PlugNulls(p, t, parent, left, right);
        p, t := p + [GoRight(t.left, pred)], t.right;
        pred := right[pred];
        NodeLinks(p, t, parent, left, right);
      }
      PlugNulls(p, t, parent, left, right);
      PrevAfterRightmost(p, t, current, InOrder(sub.right) + After(path), key);
      r := pred;
    }

    /** The predecessor of a node without a left child: climb while coming from a left child. */
    method ClimbFromLeft(current: int, ghost path: Path, ghost sub: Shape) returns (r: int)
      requires Valid() && Plug(path, sub) == shape && sub.Br? && sub.id == current
      requires 0 <= current < |left| && left[current] == Null
      ensures r == PrevIn(InOrder(shape), current)
    {
      NodeLinks(path, sub, parent, left, right);
      PlugNulls(path, sub, parent, left, right);
      var cur := current;
      var par := parent[current];
      ghost var p := path;
      ghost var t := sub;
      assert InOrder(sub) == [current] + InOrder(sub.right);
      while par != Null && cur == left[par]
        invariant Plug(p, t) == shape && t.Br? && cur == t.id && par == TopId(p)
        invariant par != Null ==> 0 <= par < |left|
        invariant |InOrder(t)| > 0 && InOrder(t)[0] == current
        decreases |p|
      {
        PlugNulls(p, t, parent, left, right);
        ChildSide(p, t, parent, left, right);
        t, p := Wrap(Last(p), t), Up(p);
        cur := par;
        NodeLinks(p, t, parent, left, right);
        PlugNulls(p, t, parent, left, right);
        par := parent[par];
      }
      PlugNulls(p, t, parent, left, right);
      if p != [] {
        ChildSide(p, t, parent, left, right);
      }
      PrevAtClimbEnd(p, t, current, key);
      r := par;
    }

    /**
      `remove`: the node holding `k` leaves the tree; a node with two children first
      trades places with its predecessor. An absent key changes nothing.
    */
    method Remove(k: int)
      requires Valid()
      modifies this
      ensures Valid() && Contents() == old(Contents()) - {k}
      ensures key == old(key) && value == old(value) && balance == old(balance)
      ensures k !in old(Contents()) ==>
        shape == old(shape) && root == old(root) && parent == old(parent) && left == old(left) && right == old(right)
      ensures k in old(Contents()) ==> exists n | n in Ids(old(shape)) && key[n] == k ::
        && shape == Removed(old(shape), n) && Ids(shape) == Ids(old(shape)) - {n}
        && n in InOrder(old(shape)) && InOrder(shape) == Drop(InOrder(old(shape)), n)
    {
      var node := InternalFind(k);
      if node == Null {
        return;
      }
      ghost var s0, xs := shape, InOrder(shape);
      InOrderIds(s0);
      PathToPlug(s0, node);
      NodeLinks(PathTo(s0, node), SubtreeAt(s0, node), parent, left, right);
      PlugNulls(PathTo(s0, node), SubtreeAt(s0, node), parent, left, right);
      if left[node] != Null && right[node] != Null {
        var pred := SwapWithPredecessor(node);
      }
      SpliceOut(node);
      InOrderIds(shape);
      IncreasingDrop(xs, key, node);
      DropContents(s0, shape, key, value, node);
    }

    /**
      The first half of `remove` for a node with two children: it trades places with its
      predecessor, the rightmost node of its left subtree, and so ends up without a right
      child. The tree is no longer ordered, but dropping `node` from the walk leaves the
      same walk as before the exchange.
    */
    method SwapWithPredecessor(node: int) returns (pred: int)
      requires Valid() && node in Ids(shape) && left[node] != Null
      modifies this
      ensures Wf() && shape == SwapIds(old(shape), node, pred) && Ids(shape) == Ids(old(shape))
      ensures 0 <= node < |right| && right[node] == Null
      ensures node in InOrder(shape) && node in InOrder(old(shape))
      ensures Drop(InOrder(shape), node) == Drop(InOrder(old(shape)), node)
      ensures pred == PrevIn(InOrder(old(shape)), node)
      ensures key == old(key) && value == old(value) && balance == old(balance)
    {
      ghost var s0 := shape;
      PathToPlug(shape, node);
      ghost var path, t := PathTo(shape, node), SubtreeAt(shape, node);
      NodeLinks(path, t, parent, left, right);
      PlugNulls(path, t, parent, left, right);
      InOrderIds(shape);
      pred := Predecessor(node);
      PrevOfLeftChild(path, t, parent, left, right, key);
      NodeSwap(node, pred);
      assert parent[node] == parent[node];
      SwapThenDrop(s0, node, pred);
    }

    /**
      The second half of `remove`: a node with at most one child is unlinked; its child,
      if any, takes its place below its parent, or becomes the root.
    */
    method SpliceOut(node: int)
      requires Wf() && node in Ids(shape)
      requires left[node] == Null || right[node] == Null
      modifies this
      ensures Wf() && shape == Plug(PathTo(old(shape), node), Spliced(SubtreeAt(old(shape), node)))
      ensures node in InOrder(old(shape)) && InOrder(shape) == Drop(InOrder(old(shape)), node)
      ensures Ids(shape) == Ids(old(shape)) - {node}
      ensures key == old(key) && value == old(value) && balance == old(balance)
    {
      PathToPlug(shape, node);
      ghost var path, t := PathTo(shape, node), SubtreeAt(shape, node);
      NodeLinks(path, t, parent, left, right);
      PlugNulls(path, t, parent, left, right);
      SpliceFacts(path, t);
      var par := parent[node];
      var child, P, L, R := Unlink(node, parent, left, right, path, t);
      SetLinks(P, L, R, if par == Null then child else root, Plug(path, Spliced(t)));
    }

    /** Stores new pointers, root and shape; the keys, values and balances stay. */
    method SetLinks(P: seq<int>, L: seq<int>, R: seq<int>, r: int, ghost s: Shape)
      requires Encoded(s, P, L, R) && |key| == |P| && |value| == |P| && |balance| == |P| && r == RootId(s)
      modifies this
      ensures Wf() && parent == P && left == L && right == R && root == r && shape == s
      ensures key == old(key) && value == old(value) && balance == old(balance)
    {
      parent, left, right, root, shape := P, L, R, r, s;
    }

    /** The pointer updates of `remove` for a node with at most one child. */
    static method Unlink(node: int, P: seq<int>, L: seq<int>, R: seq<int>, ghost path: Path, ghost t: Shape)
      returns (child: int, P': seq<int>, L': seq<int>, R': seq<int>)
      requires Encoded(Plug(path, t), P, L, R) && t.Br? && t.id == node && (t.left == Nil || t.right == Nil)
      ensures child == RootId(Spliced(t)) && Encoded(Plug(path, Spliced(t)), P', L', R') && |P'| == |P|
    {
      NodeLinks(path, t, P, L, R);
      PlugNulls(path, t, P, L, R);
      if path != [] {
        ChildSide(path, t, P, L, R);
      }
      child := Null;
      if L[node] != Null {
        child := L[node];
      } else {
        child := R[node];
      }
      var par := P[node];
      P', L', R' := P, L, R;
      if child != Null {
        EncodedUnder(path, t, P, L, R);
        UnderSplit(t, par, P, L, R);
        P' := P'[child := par];
      }
      if par == Null {
      } else if L[par] == node {
        L' := L'[par := child];
      } else {
        R' := R'[par := child];
      }
      SpliceEncoded(path, t, P, L, R, P', L', R');
    }

    /** `clear`: the tree becomes empty (freeing the nodes is not modelled). */
    method Clear()
      requires Valid()
      modifies this
      ensures Valid() && root == Null && shape == Nil && Contents() == map[]
      ensures parent == old(parent) && left == old(left) && right == old(right)
      ensures key == old(key) && value == old(value) && balance == old(balance)
    {
      root := Null;
      shape := Nil;
      ContentsOfFacts(shape, key, value);
    }

    /** `begin()`: an iterator at the smallest key, or `end()` for an empty tree. */
    method Begin() returns (it: Iterator)
      requires Valid()
      ensures fresh(it) && it.tree == this && it.Valid()
      ensures it.current == if shape == Nil then Null else InOrder(shape)[0]
    {
      var n := GetSmallestNode();
      it := new Iterator(this, n);
    }

    /** `end()`: the iterator past the last key. */
    method End() returns (it: Iterator)
      requires Valid()
      ensures fresh(it) && it.tree == this && it.Valid() && it.current == Null
    {
      it := new Iterator(this, Null);
    }

    /** `find`: an iterator at the node holding `k`, or `end()` when no node does. */
    method Find(k: int) returns (it: Iterator)
      requires Valid()
      ensures fresh(it) && it.tree == this && it.Valid()
      ensures it.current == Null <==> k !in Contents()
      ensures it.current != Null ==> key[it.current] == k && Contents()[k] == value[it.current]
    {
      var n := InternalFind(k);
      it := new Iterator(this, n);
    }

    /**
      `getHeight`: -1 when some node's subtrees differ in height by more than one,
      otherwise the height of the subtree rooted at `n` (0 for null).
    */
    function GetHeight(n: int, ghost path: Path, ghost s: Shape): (h: int)
      reads this
      requires Wf() && Plug(path, s) == shape && n == RootId(s)
      ensures h == -1 <==> !HeightBalanced(s)
      ensures h != -1 ==> h == Height(s)
      decreases s
    {
      PlugNulls(path, s, parent, left, right);
      if n == Null then 0
      else
        NodeLinks(path, s, parent, left, right);
        var lh := GetHeight(left[n], path + [GoLeft(n, s.right)], s.left);
        if lh == -1 then -1
        else
          var rh := GetHeight(right[n], path + [GoRight(s.left, n)], s.right);
          if rh == -1 then -1
          else if lh - rh > 1 || rh - lh > 1 then -1
          else (if lh < rh then rh else lh) + 1
    }

    /** `isBalanced`: no node's subtrees differ in height by more than one. */
    function IsBalanced(): (b: bool)
      reads this
      requires Wf()
      ensures b <==> HeightBalanced(shape)
    {
      GetHeight(root, [], shape) != -1
    }

    /**
      `nodeSwap`: the nodes `n1` and `n2` exchange their places in the tree (parent,
      children, and being the root), including when one is the other's child;
      keys and values stay with their nodes. A no-op when they coincide or one is null.
    */
    method NodeSwap(n1: int, n2: int)
      requires Wf() && (n1 == Null || n1 in Ids(shape)) && (n2 == Null || n2 in Ids(shape))
      modifies this
      ensures Wf()
      ensures key == old(key) && value == old(value) && balance == old(balance)
      ensures n1 == n2 || n1 == Null || n2 == Null ==> unchanged(this)
      ensures n1 != n2 && n1 != Null && n2 != Null ==>
        && shape == SwapIds(old(shape), n1, n2)
        && SwappedLinks(old(shape), n1, n2, old(parent), old(left), old(right), parent, left, right)
    {
      if n1 == n2 || n1 == Null || n2 == Null {
        return;
      }
      ghost var s0 := shape;
      var P, L, R := SwapLinks(n1, n2, parent, left, right, s0);
      parent, left, right := P, L, R;
      if root == n1 {
        root := n2;
      } else if root == n2 {
        root := n1;
      }
      shape := SwapIds(s0, n1, n2);
    }

    /**
      The pointer work of `nodeSwap` on the three link arrays, which encode `s`: after
      it they encode `s` with `n1` and `n2` exchanged, each node holding the links of
      its counterpart with the two handles renamed.
    */
    static method SwapLinks(n1: int, n2: int, P: seq<int>, L: seq<int>, R: seq<int>, ghost s: Shape)
      returns (P': seq<int>, L': seq<int>, R': seq<int>)
      requires Encoded(s, P, L, R) && n1 in Ids(s) && n2 in Ids(s) && n1 != n2
      ensures |P'| == |P| && Encoded(SwapIds(s, n1, n2), P', L', R')
      ensures SwappedLinks(s, n1, n2, P, L, R, P', L', R')
      ensures RootId(SwapIds(s, n1, n2)) == Sw(n1, n2, RootId(s))
    {
      EncodedLinkedAt(s, P, L, R, n1);
      EncodedLinkedAt(s, P, L, R, n2);
      var n1p := P[n1];
      var n1r := R[n1];
      var n1lt := L[n1];
      var n1isLeft := false;
      if n1p != Null && n1 == L[n1p] {
        n1isLeft := true;
      }
      var n2p := P[n2];
      var n2r := R[n2];
      var n2lt := L[n2];
      var n2isLeft := false;
      if n2p != Null && n2 == L[n2p] {
        n2isLeft := true;
      }

      P', L', R' := P, L, R;
      var temp := P'[n1];
      P' := P'[n1 := P'[n2]];
      P' := P'[n2 := temp];
      temp := L'[n1];
      L' := L'[n1 := L'[n2]];
      L' := L'[n2 := temp];
      temp := R'[n1];
      R' := R'[n1 := R'[n2]];
      R' := R'[n2 := temp];

      ghost var P1, L1, R1 := P', L', R';
      ghost var wp, wl, wr;
      P', L', R', wp, wl, wr := Repoint(n1, n2, n1p, n1r, n1lt, n1isLeft, n2p, n2r, n2lt, n2isLeft, P', L', R', P, L, R);
      CoversFromRepoint(P, L, R, n1, n2, n1isLeft, n2isLeft, wp, wl, wr);
      RepointedSwap(s, n1, n2, P, L, R, P1, L1, R1, P', L', R', wp, wl, wr);
    }

    /**
      After the exchange of the rows of `n1` and `n2` in `P0`, `L0`, `R0` (giving `P`,
      `L`, `R`), every link to `n1` or `n2` that should now lead to the other node is
      re-pointed; `wp`, `wl` and `wr` are the slots written.
    */
    static method Repoint(n1: int, n2: int, n1p: int, n1r: int, n1lt: int, n1isLeft: bool,
                          n2p: int, n2r: int, n2lt: int, n2isLeft: bool,
                          P: seq<int>, L: seq<int>, R: seq<int>,
                          ghost P0: seq<int>, ghost L0: seq<int>, ghost R0: seq<int>)
      returns (P': seq<int>, L': seq<int>, R': seq<int>, ghost wp: set<int>, ghost wl: set<int>, ghost wr: set<int>)
      requires LinkedAt(P0, L0, R0, n1) && LinkedAt(P0, L0, R0, n2) && n1 != n2
      requires n1p == P0[n1] && n1r == R0[n1] && n1lt == L0[n1] && n2p == P0[n2] && n2r == R0[n2] && n2lt == L0[n2]
      requires n1isLeft <==> n1p != Null && L0[n1p] == n1
      requires n2isLeft <==> n2p != Null && L0[n2p] == n2
      requires P == P0[n1 := P0[n2]][n2 := P0[n1]] && L == L0[n1 := L0[n2]][n2 := L0[n1]] && R == R0[n1 := R0[n2]][n2 := R0[n1]]
      ensures Patched(P', P, wp, n1, n2) && Patched(L', L, wl, n1, n2) && Patched(R', R, wr, n1, n2)
      ensures AdjacentCovered(n1, n2, n1lt, n1r, n2lt, n2r, wp, wl, wr)
      ensures NeighboursCovered(n1, n2, n1p, n1lt, n1r, n1isLeft, n2p, n2lt, n2r, n2isLeft, wp, wl, wr)
    {
      ExchangedLinks(P0, L0, R0, n1, n2, P, L, R);
      P', L', R', wp, wl, wr := LinkAdjacent(n1, n2, n1r, n1lt, n2r, n2lt, P, L, R);
      P', L', R', wp, wl, wr := RelinkBoth(n1, n2, n1p, n1r, n1lt, n1isLeft, n2p, n2r, n2lt, n2isLeft, P', L', R', P, L, R, wp, wl, wr);
    }

    /** The re-linking for both nodes, `n1`'s neighbours first (source lines 773-793). */
    static method RelinkBoth(n1: int, n2: int, n1p: int, n1r: int, n1lt: int, n1isLeft: bool,
                             n2p: int, n2r: int, n2lt: int, n2isLeft: bool,
                             P: seq<int>, L: seq<int>, R: seq<int>,
                             ghost P1: seq<int>, ghost L1: seq<int>, ghost R1: seq<int>,
                             ghost wp: set<int>, ghost wl: set<int>, ghost wr: set<int>)
      returns (P': seq<int>, L': seq<int>, R': seq<int>, ghost wp': set<int>, ghost wl': set<int>, ghost wr': set<int>)
      requires Patched(P, P1, wp, n1, n2) && Patched(L, L1, wl, n1, n2) && Patched(R, R1, wr, n1, n2)
      requires AdjacentCovered(n1, n2, n1lt, n1r, n2lt, n2r, wp, wl, wr)
      requires n1p != Null && n1p != n2 ==> 0 <= n1p < |L| && n1p < |R| && (if n1isLeft then L1[n1p] == n1 else R1[n1p] == n1)
      requires n1r != Null && n1r != n2 ==> 0 <= n1r < |P| && P1[n1r] == n1
      requires n1lt != Null && n1lt != n2 ==> 0 <= n1lt < |P| && P1[n1lt] == n1
      requires n2p != Null && n2p != n1 ==> 0 <= n2p < |L| && n2p < |R| && (if n2isLeft then L1[n2p] == n2 else R1[n2p] == n2)
      requires n2r != Null && n2r != n1 ==> 0 <= n2r < |P| && P1[n2r] == n2
      requires n2lt != Null && n2lt != n1 ==> 0 <= n2lt < |P| && P1[n2lt] == n2
      ensures Patched(P', P1, wp', n1, n2) && Patched(L', L1, wl', n1, n2) && Patched(R', R1, wr', n1, n2)
      ensures AdjacentCovered(n1, n2, n1lt, n1r, n2lt, n2r, wp', wl', wr')
      ensures NeighboursCovered(n1, n2, n1p, n1lt, n1r, n1isLeft, n2p, n2lt, n2r, n2isLeft, wp', wl', wr')
    {
      P', L', R', wp', wl', wr' := Relink(n1, n2, n1p, n1r, n1lt, n1isLeft, P, L, R, n1, n2, P1, L1, R1, wp, wl, wr);
      P', L', R', wp', wl', wr' := Relink(n2, n1, n2p, n2r, n2lt, n2isLeft, P', L', R', n1, n2, P1, L1, R1, wp', wl', wr');
    }

    /**
      Right after the exchange, when one node was the other's child, the two point at
      themselves where they should point at each other: this re-points those links.
    */
    static method LinkAdjacent(n1: int, n2: int, n1r: int, n1lt: int, n2r: int, n2lt: int,
                               P: seq<int>, L: seq<int>, R: seq<int>)
      returns (P': seq<int>, L': seq<int>, R': seq<int>, ghost wp: set<int>, ghost wl: set<int>, ghost wr: set<int>)
      requires 0 <= n1 < |P| == |L| == |R| && 0 <= n2 < |P| && n1 != n2
      requires n1r != Null && n1r == n2 ==> R[n2] == n2 && P[n1] == n1
      requires n2r != Null && n2r == n1 ==> R[n1] == n1 && P[n2] == n2
      requires n1lt != Null && n1lt == n2 ==> L[n2] == n2 && P[n1] == n1
      requires n2lt != Null && n2lt == n1 ==> L[n1] == n1 && P[n2] == n2
      ensures Patched(P', P, wp, n1, n2) && Patched(L', L, wl, n1, n2) && Patched(R', R, wr, n1, n2)
      ensures AdjacentCovered(n1, n2, n1lt, n1r, n2lt, n2r, wp, wl, wr)
    {
      P', L', R', wp, wl, wr := P, L, R, {}, {}, {};
      if n1r != Null && n1r == n2 {
        PatchStep(R', R, wr, n1, n2, n2);
        PatchStep(P', P, wp, n1, n2, n1);
        R' := R'[n2 := n1];
        P' := P'[n1 := n2];
        wr, wp := wr + {n2}, wp + {n1};
      } else if n2r != Null && n2r == n1 {
        PatchStep(R', R, wr, n1, n2, n1);
        PatchStep(P', P, wp, n1, n2, n2);
        R' := R'[n1 := n2];
        P' := P'[n2 := n1];
        wr, wp := wr + {n1}, wp + {n2};
      } else if n1lt != Null && n1lt == n2 {
        PatchStep(L', L, wl, n1, n2, n2);
        PatchStep(P', P, wp, n1, n2, n1);
        L' := L'[n2 := n1];
        P' := P'[n1 := n2];
        wl, wp := wl + {n2}, wp + {n1};
      } else if n2lt != Null && n2lt == n1 {
        PatchStep(L', L, wl, n1, n2, n1);
        PatchStep(P', P, wp, n1, n2, n2);
        L' := L'[n1 := n2];
        P' := P'[n2 := n1];
        wl, wp := wl + {n1}, wp + {n2};
      }
    }

    /**
      One half of the re-linking after the exchange: the parent and the children of
      the position `n` left (`np`, `nr`, `nlt`) now point at `m`, which took it, except
      where that neighbour is `m` itself. The ghost sets record the re-pointed slots.
    */
    static method Relink(n: int, m: int, np: int, nr: int, nlt: int, nIsLeft: bool,
                         P: seq<int>, L: seq<int>, R: seq<int>,
                         ghost a: int, ghost b: int, ghost P1: seq<int>, ghost L1: seq<int>, ghost R1: seq<int>,
                         ghost wp: set<int>, ghost wl: set<int>, ghost wr: set<int>)
      returns (P': seq<int>, L': seq<int>, R': seq<int>, ghost wp': set<int>, ghost wl': set<int>, ghost wr': set<int>)
      requires (n == a && m == b) || (n == b && m == a)
      requires Patched(P, P1, wp, a, b) && Patched(L, L1, wl, a, b) && Patched(R, R1, wr, a, b)
      requires np != Null && np != m ==> 0 <= np < |L| && np < |R| && (if nIsLeft then L1[np] == n else R1[np] == n)
      requires nr != Null && nr != m ==> 0 <= nr < |P| && P1[nr] == n
      requires nlt != Null && nlt != m ==> 0 <= nlt < |P| && P1[nlt] == n
      ensures Patched(P', P1, wp', a, b) && Patched(L', L1, wl', a, b) && Patched(R', R1, wr', a, b)
      ensures wp <= wp' && wl <= wl' && wr <= wr'
      ensures np != Null && np != m ==> if nIsLeft then np in wl' else np in wr'
      ensures nr != Null && nr != m ==> nr in wp'
      ensures nlt != Null && nlt != m ==> nlt in wp'
    {
      P', L', R', wp', wl', wr' := P, L, R, wp, wl, wr;
      if np != Null && np != m {
        if nIsLeft {
          PatchStep(L', L1, wl', a, b, np);
          L' := L'[np := m];
          wl' := wl' + {np};
        } else {
          PatchStep(R', R1, wr', a, b, np);
          R' := R'[np := m];
          wr' := wr' + {np};
        }
      }
      if nr != Null && nr != m {
        PatchStep(P', P1, wp', a, b, nr);
        P' := P'[nr := m];
        wp' := wp' + {nr};
      }
      if nlt != Null && nlt != m {
        PatchStep(P', P1, wp', a, b, nlt);
        P' := P'[nlt := m];
        wp' := wp' + {nlt};
      }
    }

    /** Allocates node `|key|` as a leaf below `par`, linked on the side given by the search path. */
    method AppendNode(k: int, v: int, par: int, ghost path: Path, ghost target: Shape)
      requires Valid() && Plug(path, Nil) == shape && k !in KeySet(shape, key)
      requires par == TopId(path)
      requires path != [] ==> 0 <= par < |key| && (Last(path).GoLeft? <==> k < key[par])
      requires target == Plug(path, Br(Nil, |key|, Nil))
      modifies this
      ensures shape == target && Wf() && (path != [] ==> root == old(root))
      ensures key == old(key) + [k] && value == old(value) + [v] && balance == old(balance) + [0]
      ensures parent == old(parent) + [par]
    {
      var n := |key|;
      var P, L, R := LinkLeaf(k, par, parent, left, right, key, path);
      if par == Null {
        root := n;
      } else {
        PlugRoot(path, Nil, Br(Nil, n, Nil));
      }
      key, value, balance := key + [k], value + [v], balance + [0];
      parent, left, right := P, L, R;
      shape := target;
    }

    /** The links after a new leaf `|P|` is hung below `par`, on the side its key `k` chooses. */
    static method LinkLeaf(k: int, par: int, P: seq<int>, L: seq<int>, R: seq<int>, K: seq<int>, ghost path: Path)
      returns (P': seq<int>, L': seq<int>, R': seq<int>)
      requires Encoded(Plug(path, Nil), P, L, R) && |K| == |P| && par == TopId(path)
      requires path != [] ==> 0 <= par < |K| && (Last(path).GoLeft? <==> k < K[par])
      ensures Encoded(Plug(path, Br(Nil, |P|, Nil)), P', L', R') && P' == P + [par]
    {
      var n := |P|;
      PlugIds(path, Nil);
      EncodedCtx(path, Nil, P, L, R);
      P', L', R' := P + [par], L + [Null], R + [Null];
      if par != Null {
        if k < K[par] {
          L' := L'[par := n];
        } else {
          R' := R'[par := n];
        }
      }
      ReplaceEncoded(path, Nil, Br(Nil, n, Nil), P, L, R, P', L', R');
    }
  }

  /** The in-order iterator; `current` is null at `end()`. */
  class Iterator {
    const tree: BinarySearchTree
    var current: int

    /** `iterator(ptr)`. */
    constructor (t: BinarySearchTree, n: int)
      ensures tree == t && current == n
    {
      tree := t;
      current := n;
    }

    /** The tree is valid and the iterator sits on one of its nodes or at `end()`. */
    ghost predicate Valid()
      reads this, tree
    {
      tree.Valid() && (current == Null || current in Ids(tree.shape))
    }

    /** `operator*`: the key and value under the iterator, an entry of the map. */
    function Item(): (item: (int, int))
      reads this, tree
      requires Valid() && current != Null
      ensures item.0 in tree.Contents() && tree.Contents()[item.0] == item.1
    {
      ContentsOfFacts(tree.shape, tree.key, tree.value);
      (tree.key[current], tree.value[current])
    }

    /**
      `operator==`: the iterators hold the same node pointer, so both are at `end()`, or
      both sit on the same key of the same tree (iterators of different trees never share a node).
    */
    function Equals(rhs: Iterator): (b: bool)
      reads this, rhs, tree, rhs.tree
      requires Valid() && rhs.Valid()
      ensures b <==>
        || (current == Null && rhs.current == Null)
        || (tree == rhs.tree && current != Null && rhs.current != Null && tree.key[current] == tree.key[rhs.current])
    {
      OrderedUniqueKeys(tree.shape, tree.key);
      PlugNulls([], tree.shape, tree.parent, tree.left, tree.right);
      current == rhs.current && (current == Null || tree == rhs.tree)
    }

    /** `operator!=`: the negation of `operator==`: different trees, or different keys, or only one at `end()`. */
    function NotEquals(rhs: Iterator): (b: bool)
      reads this, rhs, tree, rhs.tree
      requires Valid() && rhs.Valid()
      ensures b <==>
        || (current == Null) != (rhs.current == Null)
        || (current != Null && rhs.current != Null && (tree != rhs.tree || tree.key[current] != tree.key[rhs.current]))
    {
      OrderedUniqueKeys(tree.shape, tree.key);
      PlugNulls([], tree.shape, tree.parent, tree.left, tree.right);
      current != rhs.current || (current != Null && tree != rhs.tree)
    }

    /**
      `operator++`: moves to the next node of the in-order walk, the one with
      the next larger key, and to `end()` after the largest; a no-op at `end()`.
    */
    method Increment()
      requires Valid()
      modifies this
      ensures Valid()
      ensures current == NextIn(InOrder(tree.shape), old(current))
      ensures old(current) != Null ==>
        (current == Null <==> forall i | i in Ids(tree.shape) :: tree.key[i] <= tree.key[old(current)])
      ensures current != Null ==>
        && old(current) != Null && current in Ids(tree.shape) && tree.key[old(current)] < tree.key[current]
        && forall i | i in Ids(tree.shape) && tree.key[old(current)] < tree.key[i] :: tree.key[current] <= tree.key[i]
    {
      if current == Null {
        PlugNulls([], tree.shape, tree.parent, tree.left, tree.right);
        InOrderIds(tree.shape);
        return;
      }
      ghost var x := current;
      PathToPlug(tree.shape, current);
      NodeLinks(PathTo(tree.shape, current), SubtreeAt(tree.shape, current), tree.parent, tree.left, tree.right);
      if tree.right[current] != Null {
        current := LeftmostOfRight(tree, current);
      } else {
        current := FirstRightAncestor(tree, current);
      }
      InOrderIds(tree.shape);
      NextInIsNextLarger(InOrder(tree.shape), tree.key, x);
    }

    /** The successor of a node with a right child: the leftmost node of that subtree. */
    static method LeftmostOfRight(t: BinarySearchTree, x: int) returns (n: int)
      requires t.Valid() && x in Ids(t.shape) && 0 <= x < |t.right| && t.right[x] != Null
      ensures n in Ids(t.shape) && n == NextIn(InOrder(t.shape), x)
    {
      PathToPlug(t.shape, x);
      ghost var path := PathTo(t.shape, x);
      ghost var sub := SubtreeAt(t.shape, x);
      NodeLinks(path, sub, t.parent, t.left, t.right);
      PlugNulls(path, sub, t.parent, t.left, t.right);
      n := t.right[x];
      ghost var p := path + [GoRight(sub.left, x)];
      ghost var u := sub.right;
      NodeLinks(p, u, t.parent, t.left, t.right);
      while t.left[n] != Null
        invariant Plug(p, u) == t.shape && u.Br? && n == u.id && 0 <= n < |t.left|
        invariant t.left[n] == RootId(u.left)
        invariant Before(p) == Before(path) + InOrder(sub.left) + [x]
        decreases u
      {
        PlugNulls(p, u, t.parent, t.left, t.right);
        p, u := p + [GoLeft(n, u.right)], u.left;
        n := t.left[n];
        NodeLinks(p, u, t.parent, t.left, t.right);
      }
      PlugNulls(p, u, t.parent, t.left, t.right);
      NextBeforeLeftmost(p, u, x, Before(path) + InOrder(sub.left), t.key);
      PlugIds(p, u);
    }

    /**
      The successor of a node without a right child: climb while coming from a right
      child; the parent reached from a left child, or null past the root.
    */
    static method FirstRightAncestor(t: BinarySearchTree, x: int) returns (n: int)
      requires t.Valid() && x in Ids(t.shape) && 0 <= x < |t.right| && t.right[x] == Null
      ensures (n == Null || n in Ids(t.shape)) && n == NextIn(InOrder(t.shape), x)
    {
      PathToPlug(t.shape, x);
      ghost var p := PathTo(t.shape, x);
      ghost var u := SubtreeAt(t.shape, x);
      NodeLinks(p, u, t.parent, t.left, t.right);
      PlugNulls(p, u, t.parent, t.left, t.right);
      var current := x;
      var par := t.parent[current];
      assert InOrder(u) == InOrder(u.left) + [x];
      while par != Null && current == t.right[par]
        invariant Plug(p, u) == t.shape && u.Br? && current == u.id && par == TopId(p)
        invariant par != Null ==> 0 <= par < |t.right|
        invariant |InOrder(u)| > 0 && InOrder(u)[|InOrder(u)| - 1] == x
        decreases |p|
      {
        PlugNulls(p, u, t.parent, t.left, t.right);
        ChildSide(p, u, t.parent, t.left, t.right);
        u, p := Wrap(Last(p), u), Up(p);
        current := par;
        NodeLinks(p, u, t.parent, t.left, t.right);
        PlugNulls(p, u, t.parent, t.left, t.right);
        par := t.parent[par];
      }
      PlugNulls(p, u, t.parent, t.left, t.right);
      if p != [] {
        ChildSide(p, u, t.parent, t.left, t.right);
        PlugIds(p, u);
      }
      NextAtClimbEnd(p, u, x, t.key);
      n := par;
    }
  }
}
