/**
 * The balanced binary index (data_structures/avl_tree.py).
 *
 * Each node is uniquely owned by its parent, so the source's in-place rewrites
 * of `left`, `right`, `height` and `value` followed by returning the new
 * subtree root are modelled as functions that rebuild the node value.  The
 * cached `height` field is kept exactly as the source computes it.
 */
module AvlTrees {
  import opened KeyOrder

  datatype Tree = Nil | Node(key: Key, value: Value, left: Tree, right: Tree, height: int)

  function Max(a: int, b: int): int
  {
    if a >= b then a else b
  }

  /** `AVLTree.height`: the cached height, 0 for an empty subtree. */
  function Height(t: Tree): int
  {
    if t.Nil? then 0 else t.height
  }

  /** `AVLTree.balance`: left height minus right height. */
  function Balance(t: Tree): int
  {
    if t.Nil? then 0 else Height(t.left) - Height(t.right)
  }

  /** The key/value pairs of a subtree; on a repeated key the later one in order wins. */
  function Content(t: Tree): map<Key, Value>
  {
    if t.Nil? then map[] else Content(t.left) + map[t.key := t.value] + Content(t.right)
  }

  function KeySet(t: Tree): set<Key>
  {
    Content(t).Keys
  }

  /** The in-order sequence of key/value pairs. */
  function InOrder(t: Tree): seq<(Key, Value)>
  {
    if t.Nil? then [] else InOrder(t.left) + [(t.key, t.value)] + InOrder(t.right)
  }

  /** The real height of a subtree, independent of the cached field. */
  ghost function Depth(t: Tree): nat
  {
    if t.Nil? then 0 else 1 + (if Depth(t.left) >= Depth(t.right) then Depth(t.left) else Depth(t.right))
  }

  /** Every cached height is one more than the larger cached height of the children. */
  ghost predicate HeightsOk(t: Tree)
  {
    t.Node? ==> HeightsOk(t.left) && HeightsOk(t.right) && t.height == Max(Height(t.left), Height(t.right)) + 1
  }

  /** Binary-search order: left keys below the node's key, right keys above. */
  ghost predicate Bst(t: Tree)
  {
    t.Node? ==>
      && Bst(t.left) && Bst(t.right)
      && (forall x | x in KeySet(t.left) :: Lt(x, t.key))
      && (forall x | x in KeySet(t.right) :: Lt(t.key, x))
  }

  /** Every balance factor is in {-1, 0, 1}. */
  ghost predicate Balanced(t: Tree)
  {
    t.Node? ==> -1 <= Balance(t) <= 1 && Balanced(t.left) && Balanced(t.right)
  }

  ghost predicate Avl(t: Tree)
  {
    HeightsOk(t) && Bst(t) && Balanced(t)
  }

  lemma {:induction false} CachedHeightIsDepth(t: Tree)
    requires HeightsOk(t)
    ensures Height(t) == Depth(t)
  {
    if t.Node? {
      CachedHeightIsDepth(t.left);
      CachedHeightIsDepth(t.right);
    }
  }

  /** `AVLTree.right_rotate`: the left child becomes the subtree root. */
  function RightRotate(y: Tree): (r: Tree)
    requires y.Node? && y.left.Node?
    ensures InOrder(r) == InOrder(y)
    ensures Content(r) == Content(y)
  {
    var x := y.left;
    var t2 := x.right;
    var y' := y.(left := t2, height := Max(Height(t2), Height(y.right)) + 1);
    x.(right := y', height := Max(Height(x.left), Height(y')) + 1)
  }

  /** `AVLTree.left_rotate`: the right child becomes the subtree root. */
  function LeftRotate(x: Tree): (r: Tree)
    requires x.Node? && x.right.Node?
    ensures InOrder(r) == InOrder(x)
    ensures Content(r) == Content(x)
  {
    var y := x.right;
    var t2 := y.left;
    var x' := x.(right := t2, height := Max(Height(x.left), Height(t2)) + 1);
    y.(left := x', height := Max(Height(x'), Height(y.right)) + 1)
  }

  lemma RightRotateBst(y: Tree)
    requires y.Node? && y.left.Node? && Bst(y)
    ensures Bst(RightRotate(y))
  {
    var x := y.left;
    forall c | c in KeySet(y.right) ensures Lt(x.key, c) {
      LtTransitive(x.key, y.key, c);
    }
  }

  lemma LeftRotateBst(x: Tree)
    requires x.Node? && x.right.Node? && Bst(x)
    ensures Bst(LeftRotate(x))
  {
    var y := x.right;
    forall a | a in KeySet(x.left) ensures Lt(a, y.key) {
      LtTransitive(a, x.key, y.key);
    }
  }

  lemma {:induction false} HeightNonNegative(t: Tree)
    requires HeightsOk(t)
    ensures Height(t) >= 0 && (t.Node? ==> Height(t) >= 1)
  {
    if t.Node? {
      HeightNonNegative(t.left);
      HeightNonNegative(t.right);
    }
  }

  /**
   * The rebalancing step at the end of `_insert`, applied to a node whose
   * height has just been recomputed.  `k` is the key being inserted; the
   * source picks the single or the double rotation by comparing it with the
   * heavy child's key.
   */
  function Rebalance(n: Tree, k: Key): Tree
    requires n.Node?
    requires Balance(n) > 1 ==> n.left.Node? && (Lt(k, n.left.key) || n.left.right.Node?)
    requires Balance(n) < -1 ==> n.right.Node? && (Lt(n.right.key, k) || n.right.left.Node?)
  {
    if Balance(n) > 1 then
      if Lt(k, n.left.key) then RightRotate(n)
      else RightRotate(n.(left := LeftRotate(n.left)))
    else if Balance(n) < -1 then
      if Lt(n.right.key, k) then LeftRotate(n)
      else LeftRotate(n.(right := RightRotate(n.right)))
    else n
  }

  /**
   * What the recursive insert promises about the height of a subtree it grew:
   * no rotation happened at its root, and the side the key went to is now the
   * taller one.
   */
  ghost predicate GrewOnSide(t: Tree, r: Tree, k: Key)
  {
    Height(r) == Height(t) + 1 && t.Node? ==>
      && r.Node? && r.key == t.key
      && (Lt(k, t.key) ==> Balance(r) == 1)
      && (Lt(t.key, k) ==> Balance(r) == -1)
  }

  /** Single right rotation of a node whose left side is two taller, leaning left. */
  lemma RotateRightCase(n: Tree)
    requires n.Node? && n.left.Node?
    requires HeightsOk(n.left) && HeightsOk(n.right) && Balanced(n.left) && Balanced(n.right) && Bst(n)
    requires Height(n.left) == Height(n.right) + 2 && Balance(n.left) == 1
    ensures Avl(RightRotate(n)) && Height(RightRotate(n)) == Height(n.right) + 2
  {
    RightRotateBst(n);
    HeightNonNegative(n.right);
  }

  /** Left-right double rotation of a node whose left side is two taller, leaning right. */
  lemma RotateLeftRightCase(n: Tree)
    requires n.Node? && n.left.Node? && n.left.right.Node?
    requires HeightsOk(n.left) && HeightsOk(n.right) && Balanced(n.left) && Balanced(n.right) && Bst(n)
    requires Height(n.left) == Height(n.right) + 2 && Balance(n.left) == -1
    ensures Avl(RightRotate(n.(left := LeftRotate(n.left))))
    ensures Height(RightRotate(n.(left := LeftRotate(n.left)))) == Height(n.right) + 2
  {
    LeftRotateBst(n.left);
    var m := n.(left := LeftRotate(n.left));
    assert KeySet(m.left) == KeySet(n.left);
    RightRotateBst(m);
    HeightNonNegative(n.right);
    HeightNonNegative(n.left.right.left);
    HeightNonNegative(n.left.right.right);
  }

  /** Mirror of RotateRightCase. */
  lemma RotateLeftCase(n: Tree)
    requires n.Node? && n.right.Node?
    requires HeightsOk(n.left) && HeightsOk(n.right) && Balanced(n.left) && Balanced(n.right) && Bst(n)
    requires Height(n.right) == Height(n.left) + 2 && Balance(n.right) == -1
    ensures Avl(LeftRotate(n)) && Height(LeftRotate(n)) == Height(n.left) + 2
  {
    LeftRotateBst(n);
    HeightNonNegative(n.left);
  }

  /** Mirror of RotateLeftRightCase. */
  lemma RotateRightLeftCase(n: Tree)
    requires n.Node? && n.right.Node? && n.right.left.Node?
    requires HeightsOk(n.left) && HeightsOk(n.right) && Balanced(n.left) && Balanced(n.right) && Bst(n)
    requires Height(n.right) == Height(n.left) + 2 && Balance(n.right) == 1
    ensures Avl(LeftRotate(n.(right := RightRotate(n.right))))
    ensures Height(LeftRotate(n.(right := RightRotate(n.right)))) == Height(n.left) + 2
  {
    RightRotateBst(n.right);
    var m := n.(right := RightRotate(n.right));
    assert KeySet(m.right) == KeySet(n.right);
    LeftRotateBst(m);
    HeightNonNegative(n.left);
    HeightNonNegative(n.right.left.left);
    HeightNonNegative(n.right.left.right);
  }

  lemma UpdateBelow(a: map<Key, Value>, b: map<Key, Value>, c: map<Key, Value>, k: Key, v: Value)
    requires k !in b && k !in c
    ensures a[k := v] + b + c == (a + b + c)[k := v]
  {
  }

  lemma UpdateAbove(a: map<Key, Value>, b: map<Key, Value>, c: map<Key, Value>, k: Key, v: Value)
    requires k !in a && k !in b
    ensures a + b + c[k := v] == (a + b + c)[k := v]
  {
  }

  /** What one side of `_insert` establishes before the parent rebalances. */
  ghost predicate InsertedInto(t: Tree, r: Tree, k: Key, v: Value)
  {
    && Avl(r) && r.Node?
    && Content(r) == Content(t)[k := v]
    && Height(t) <= Height(r) <= Height(t) + 1
    && (k in KeySet(t) ==> Height(r) == Height(t))
    && GrewOnSide(t, r, k)
  }

  /** The parent of a subtree that grew on the left, with its height recomputed. */
  function WithLeft(t: Tree, l: Tree): Tree
    requires t.Node?
  {
    Node(t.key, t.value, l, t.right, Max(Height(l), Height(t.right)) + 1)
  }

  function WithRight(t: Tree, r: Tree): Tree
    requires t.Node?
  {
    Node(t.key, t.value, t.left, r, Max(Height(t.left), Height(r)) + 1)
  }

  lemma InsertedLeft(t: Tree, l: Tree, k: Key, v: Value)
    requires Avl(t) && t.Node? && Lt(k, t.key)
    requires InsertedInto(t.left, l, k, v)
    ensures Balance(WithLeft(t, l)) >= -1
    ensures Balance(WithLeft(t, l)) > 1 ==> l.Node? && (Lt(k, l.key) || l.right.Node?)
    ensures InsertedInto(t, Rebalance(WithLeft(t, l), k), k, v)
  {
    var n := WithLeft(t, l);
    HeightNonNegative(t.left);
    HeightNonNegative(t.right);
    LtAsymmetric(k, t.key);
    assert k !in KeySet(t.right);
    LtIrreflexive(k);
    UpdateBelow(Content(t.left), map[t.key := t.value], Content(t.right), k, v);
    assert Bst(n);
    if Balance(n) > 1 {
      assert Height(l) == Height(t.left) + 1;
      assert t.left.Node?;
      if Lt(k, l.key) {
        RotateRightCase(n);
      } else {
        LtTotal(k, l.key);
        RotateLeftRightCase(n);
      }
    }
  }

  lemma InsertedRight(t: Tree, r: Tree, k: Key, v: Value)
    requires Avl(t) && t.Node? && Lt(t.key, k)
    requires InsertedInto(t.right, r, k, v)
    ensures Balance(WithRight(t, r)) <= 1
    ensures Balance(WithRight(t, r)) < -1 ==> r.Node? && (Lt(r.key, k) || r.left.Node?)
    ensures InsertedInto(t, Rebalance(WithRight(t, r), k), k, v)
  {
    var n := WithRight(t, r);
    HeightNonNegative(t.left);
    HeightNonNegative(t.right);
    LtAsymmetric(t.key, k);
    assert k !in KeySet(t.left);
    LtIrreflexive(k);
    UpdateAbove(Content(t.left), map[t.key := t.value], Content(t.right), k, v);
    assert Bst(n);
    if Balance(n) < -1 {
      assert Height(r) == Height(t.right) + 1;
      assert t.right.Node?;
      if Lt(r.key, k) {
        RotateLeftCase(n);
      } else {
        LtTotal(k, r.key);
        RotateRightLeftCase(n);
      }
    }
  }

  /** `AVLTree._insert`: insert or overwrite `k`, then rebalance on the way up. */
  function InsertNode(t: Tree, k: Key, v: Value): (r: Tree)
    requires Avl(t)
    ensures InsertedInto(t, r, k, v)
    decreases t
  {
    if t.Nil? then
      Node(k, v, Nil, Nil, 1)
    else if Lt(k, t.key) then
      var l := InsertNode(t.left, k, v);
      InsertedLeft(t, l, k, v);
      Rebalance(WithLeft(t, l), k)
    else if Lt(t.key, k) then
      var r := InsertNode(t.right, k, v);
      InsertedRight(t, r, k, v);
      Rebalance(WithRight(t, r), k)
    else
      EqualKeyOverwrite(t, k, v);
      t.(value := v)
  }

  lemma EqualKeyOverwrite(t: Tree, k: Key, v: Value)
    requires Avl(t) && t.Node? && !Lt(k, t.key) && !Lt(t.key, k)
    ensures InsertedInto(t, t.(value := v), k, v)
  {
    LtTotal(k, t.key);
    forall x | x in KeySet(t.right) ensures x != k {
      LtIrreflexive(k);
    }
    OverwriteMiddle(Content(t.left), Content(t.right), k, t.value, v);
  }

  lemma OverwriteMiddle(a: map<Key, Value>, c: map<Key, Value>, k: Key, u: Value, v: Value)
    requires k !in c
    ensures a + map[k := v] + c == (a + map[k := u] + c)[k := v]
  {
  }

  /**
   * Reference for an insert of a key already present: the value on the path
   * to it is replaced and nothing else changes.
   */
  function SetValue(t: Tree, k: Key, v: Value): Tree
  {
    if t.Nil? then Nil
    else if Lt(k, t.key) then t.(left := SetValue(t.left, k, v))
    else if Lt(t.key, k) then t.(right := SetValue(t.right, k, v))
    else t.(value := v)
  }

  /** Inserting a key that is present only sets that node's value: no pointer or height changes. */
  lemma {:induction false} InsertExistingSetsValue(t: Tree, k: Key, v: Value)
    requires Avl(t) && k in KeySet(t)
    ensures InsertNode(t, k, v) == SetValue(t, k, v)
    decreases t
  {
    if Lt(k, t.key) {
      LtAsymmetric(k, t.key);
      assert k !in KeySet(t.right);
      InsertExistingSetsValue(t.left, k, v);
    } else if Lt(t.key, k) {
      LtAsymmetric(t.key, k);
      assert k !in KeySet(t.left);
      InsertExistingSetsValue(t.right, k, v);
    }
  }

  /** `AVLTree._search`: binary-search descent. */
  function SearchNode(t: Tree, k: Key): Option<Value>
  {
    if t.Nil? then None
    else if t.key == k then Some(t.value)
    else if Lt(k, t.key) then SearchNode(t.left, k)
    else SearchNode(t.right, k)
  }

  /** On a search tree the descent finds exactly the stored value of `k`. */
  lemma {:induction false} SearchNodeFinds(t: Tree, k: Key)
    requires Bst(t)
    ensures SearchNode(t, k) == if k in Content(t) then Some(Content(t)[k]) else None
    decreases t
  {
    if t.Node? {
      LtIrreflexive(k);
      if t.key == k {
        assert k !in KeySet(t.right);
      } else if Lt(k, t.key) {
        LtAsymmetric(k, t.key);
        assert k !in KeySet(t.right);
        SearchNodeFinds(t.left, k);
      } else {
        LtTotal(k, t.key);
        LtAsymmetric(t.key, k);
        assert k !in KeySet(t.left);
        SearchNodeFinds(t.right, k);
      }
    }
  }

  /** `AVLTree`: owns the root and reassigns it on every insert. */
  class AvlTree {
    var root: Tree

    ghost predicate Valid()
      reads this
    {
      Avl(root)
    }

    constructor ()
      ensures Valid() && root == Nil
    {
      root := Nil;
    }

    /** `AVLTree.insert` */
    method Insert(k: Key, v: Value)
      requires Valid()
      modifies this
      ensures Valid()
      ensures Content(root) == old(Content(root))[k := v]
      ensures k in old(KeySet(root)) ==> root == SetValue(old(root), k, v)
    {
      if k in KeySet(root) {
        InsertExistingSetsValue(root, k, v);
      }
      root := InsertNode(root, k, v);
    }

    /** `AVLTree.search` */
    function Search(k: Key): (r: Option<Value>)
      reads this
      requires Valid()
      ensures r == if k in Content(root) then Some(Content(root)[k]) else None
    {
      SearchNodeFinds(root, k);
      SearchNode(root, k)
    }
  }
}
