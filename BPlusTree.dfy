/**
 * The B+ tree index (data_structures/btree.py).
 *
 * Nodes are values: a leaf holds its (key, value) entries, an internal node
 * its separator keys and one more child than separators.  The leaves' `next`
 * chain is the left-to-right sequence of leaves, `Leaves(root)`; a split puts
 * the new sibling immediately after the node it came from in that sequence,
 * which is what relinking `next` does in the source.
 */
module BPlusTrees {
  import opened KeyOrder

  datatype Entry = Entry(key: Key, value: Value)

  datatype BNode = Leaf(entries: seq<Entry>) | Internal(seps: seq<Key>, children: seq<BNode>)

  /** `len(node.keys)`: entries of a leaf, separators of an internal node. */
  function Width(n: BNode): nat
  {
    match n
    case Leaf(es) => |es|
    case Internal(seps, _) => |seps|
  }

  function KeysOf(es: seq<Entry>): (ks: seq<Key>)
    ensures |ks| == |es| && forall j | 0 <= j < |es| :: ks[j] == es[j].key
  {
    if es == [] then [] else [es[0].key] + KeysOf(es[1..])
  }

  /* ---------------- the leaf chain ---------------- */

  /** The leaves' entry lists, left to right: the `next` chain from the leftmost leaf. */
  function Leaves(n: BNode): seq<seq<Entry>>
    decreases n
  {
    match n
    case Leaf(es) => [es]
    case Internal(_, ch) => LeavesOf(ch)
  }

  function LeavesOf(ch: seq<BNode>): seq<seq<Entry>>
    decreases ch
  {
    if ch == [] then [] else Leaves(ch[0]) + LeavesOf(ch[1..])
  }

  function Flatten(ls: seq<seq<Entry>>): seq<Entry>
  {
    if ls == [] then [] else ls[0] + Flatten(ls[1..])
  }

  /** Every entry the tree stores, in leaf-chain order. */
  function Entries(n: BNode): seq<Entry>
  {
    Flatten(Leaves(n))
  }

  lemma {:induction false} FlattenAppend(a: seq<seq<Entry>>, b: seq<seq<Entry>>)
    ensures Flatten(a + b) == Flatten(a) + Flatten(b)
    decreases |a|
  {
    if a == [] {
      assert a + b == b;
    } else {
      assert (a + b)[1..] == a[1..] + b;
      FlattenAppend(a[1..], b);
    }
  }

  lemma {:induction false} LeavesOfAppend(a: seq<BNode>, b: seq<BNode>)
    ensures LeavesOf(a + b) == LeavesOf(a) + LeavesOf(b)
    decreases |a|
  {
    if a == [] {
      assert a + b == b;
    } else {
      assert (a + b)[1..] == a[1..] + b;
      LeavesOfAppend(a[1..], b);
    }
  }

  lemma FlattenOne(x: seq<Entry>)
    ensures Flatten([x]) == x
  {
    assert [x][1..] == [];
  }

  lemma LeavesOfOne(x: BNode)
    ensures LeavesOf([x]) == Leaves(x)
  {
    assert [x][1..] == [];
  }

  lemma ConcatAssoc<T>(x: seq<T>, y: seq<T>, z: seq<T>)
    ensures x + (y + z) == x + y + z
  {
  }

  lemma CutAround<T>(s: seq<T>, j: nat)
    requires j < |s|
    ensures s == s[..j] + ([s[j]] + s[j + 1..])
  {
  }

  /** The entries under two runs of children are those of the first followed by those of the second. */
  lemma EntriesAppend(a: seq<BNode>, b: seq<BNode>)
    ensures Flatten(LeavesOf(a + b)) == Flatten(LeavesOf(a)) + Flatten(LeavesOf(b))
  {
    LeavesOfAppend(a, b);
    FlattenAppend(LeavesOf(a), LeavesOf(b));
  }

  lemma EntriesOne(c: BNode)
    ensures Flatten(LeavesOf([c])) == Entries(c)
  {
    LeavesOfOne(c);
  }

  /** The entries under a run of children, split around child j. */
  lemma EntriesAround(ch: seq<BNode>, j: nat)
    requires j < |ch|
    ensures Flatten(LeavesOf(ch)) == Flatten(LeavesOf(ch[..j])) + Entries(ch[j]) + Flatten(LeavesOf(ch[j + 1..]))
  {
    var a, c, b := ch[..j], ch[j], ch[j + 1..];
    CutAround(ch, j);
    EntriesAppend(a, [c] + b);
    EntriesAppend([c], b);
    EntriesOne(c);
    ConcatAssoc(Flatten(LeavesOf(a)), Entries(c), Flatten(LeavesOf(b)));
  }

  /** Replacing child j replaces exactly its entries. */
  lemma EntriesReplace(ch: seq<BNode>, j: nat, x: BNode)
    requires j < |ch|
    ensures Flatten(LeavesOf(ch[j := x])) == Flatten(LeavesOf(ch[..j])) + Entries(x) + Flatten(LeavesOf(ch[j + 1..]))
  {
    EntriesAround(ch[j := x], j);
    assert ch[j := x][..j] == ch[..j] && ch[j := x][j + 1..] == ch[j + 1..];
  }

  /** An entry under an internal node is under one of its children. */
  lemma {:induction false} EntryInChild(ch: seq<BNode>, e: Entry) returns (j: nat)
    requires e in Flatten(LeavesOf(ch))
    ensures j < |ch| && e in Entries(ch[j])
    decreases |ch|
  {
    FlattenAppend(Leaves(ch[0]), LeavesOf(ch[1..]));
    if e in Entries(ch[0]) {
      j := 0;
    } else {
      var j' := EntryInChild(ch[1..], e);
      j := j' + 1;
    }
  }

  /** And every entry under a child is under the node. */
  lemma ChildEntryInNode(ch: seq<BNode>, j: nat, e: Entry)
    requires j < |ch| && e in Entries(ch[j])
    ensures e in Flatten(LeavesOf(ch))
  {
    EntriesAround(ch, j);
  }

  /* ---------------- shape ---------------- */

  /** Every leaf lies at depth h, and every internal node has one more child than separators. */
  ghost predicate Shape(n: BNode, h: nat)
    decreases n
  {
    match n
    case Leaf(_) => h == 0
    case Internal(seps, ch) =>
      h > 0 && |ch| == |seps| + 1 && forall j | 0 <= j < |ch| :: Shape(ch[j], h - 1)
  }

  /** The depth of the leftmost leaf. */
  function Height(n: BNode): nat
    decreases n
  {
    match n
    case Leaf(_) => 0
    case Internal(_, ch) => if ch == [] then 1 else 1 + Height(ch[0])
  }

  lemma {:induction false} ShapeHeight(n: BNode, h: nat)
    requires Shape(n, h)
    ensures Height(n) == h
    decreases n
  {
    if n.Internal? {
      ShapeHeight(n.children[0], h - 1);
    }
  }

  lemma ShapeChildren(n: BNode, h: nat)
    requires Shape(n, h) && n.Internal?
    ensures forall j | 0 <= j < |n.children| :: Height(n.children[j]) == h - 1
  {
    forall j | 0 <= j < |n.children| ensures Height(n.children[j]) == h - 1 {
      ShapeHeight(n.children[j], h - 1);
    }
  }

  /** No node holds more than `order` keys. */
  ghost predicate Fits(n: BNode, order: nat)
    decreases n
  {
    Width(n) <= order &&
    (n.Internal? ==> forall j | 0 <= j < |n.children| :: Fits(n.children[j], order))
  }

  /* ---------------- splitting ---------------- */

  /** A full node cut in two, with the key that goes up to the parent. */
  datatype Split = Split(sep: Key, left: BNode, right: BNode)

  /**
   * A full leaf keeps `keys[:order // 2]` and the sibling takes the rest, whose
   * first key is copied up; a full internal node keeps `keys[:mid]` and
   * `children[:mid + 1]` for `mid = (order - 1) // 2`, `keys[mid]` moves up and
   * the sibling takes what follows it.
   */
  function SplitNode(c: BNode, order: nat): (s: Split)
    requires order >= 2 && Width(c) == order
    requires c.Internal? ==> |c.children| == order + 1
    ensures Entries(s.left) + Entries(s.right) == Entries(c)
    ensures Width(s.left) < order && Width(s.right) < order
    ensures c.Leaf? ==> s.left.Leaf? && s.right.Leaf? && s.right.entries != [] && s.sep == s.right.entries[0].key
  {
    match c
    case Leaf(es) =>
      var mid := order / 2;
      assert es == es[..mid] + es[mid..];
      FlattenOne(es);
      FlattenOne(es[..mid]);
      FlattenOne(es[mid..]);
      Split(es[mid].key, Leaf(es[..mid]), Leaf(es[mid..]))
    case Internal(seps, ch) =>
      var mid := (order - 1) / 2;
      assert ch == ch[..mid + 1] + ch[mid + 1..];
      LeavesOfAppend(ch[..mid + 1], ch[mid + 1..]);
      FlattenAppend(LeavesOf(ch[..mid + 1]), LeavesOf(ch[mid + 1..]));
      Split(seps[mid], Internal(seps[..mid], ch[..mid + 1]), Internal(seps[mid + 1..], ch[mid + 1..]))
  }

  /**
   * `_split_child(parent, i)`: child i, which is full, becomes two children
   * and the separator it gives up is inserted at i.
   */
  function SplitChild(parent: BNode, i: nat, order: nat): (r: BNode)
    requires parent.Internal? && |parent.children| == |parent.seps| + 1
    requires i < |parent.children| && order >= 2
    requires Width(parent.children[i]) == order
    requires parent.children[i].Internal? ==> |parent.children[i].children| == order + 1
    ensures r.Internal? && |r.seps| == |parent.seps| + 1 && |r.children| == |parent.children| + 1
    ensures Entries(r) == Entries(parent)
  {
    var ch := parent.children;
    var s := SplitNode(ch[i], order);
    var ch' := ch[..i] + [s.left, s.right] + ch[i + 1..];
    SpliceEntries(ch, i, s.left, s.right);
    Internal(parent.seps[..i] + [s.sep] + parent.seps[i..], ch')
  }

  /** Replacing child i by two nodes that hold its entries between them keeps the entries under the children. */
  lemma SpliceEntries(ch: seq<BNode>, i: nat, l: BNode, r: BNode)
    requires i < |ch| && Entries(l) + Entries(r) == Entries(ch[i])
    ensures Flatten(LeavesOf(ch[..i] + [l, r] + ch[i + 1..])) == Flatten(LeavesOf(ch))
  {
    EntriesAround(ch, i);
    SplitEntries(ch[..i], l, r, ch[i + 1..]);
    var a, b := Flatten(LeavesOf(ch[..i])), Flatten(LeavesOf(ch[i + 1..]));
    ConcatAssoc(a, Entries(l), Entries(r));
  }

  lemma PairSeq<T>(a: seq<T>, l: T, r: T, b: seq<T>)
    ensures a + [l, r] + b == a + ([l] + ([r] + b))
  {
  }

  lemma SplitEntries(a: seq<BNode>, l: BNode, r: BNode, b: seq<BNode>)
    ensures Flatten(LeavesOf(a + [l, r] + b)) ==
      Flatten(LeavesOf(a)) + Entries(l) + Entries(r) + Flatten(LeavesOf(b))
  {
    PairSeq(a, l, r, b);
    EntriesAppend(a, [l] + ([r] + b));
    EntriesAppend([l], [r] + b);
    EntriesAppend([r], b);
    EntriesOne(l);
    EntriesOne(r);
    var ea, el, er, eb := Flatten(LeavesOf(a)), Entries(l), Entries(r), Flatten(LeavesOf(b));
    ConcatAssoc(el, er, eb);
    ConcatAssoc(ea, el + er, eb);
    ConcatAssoc(ea, el, er);
  }

  /** Both halves of a full node are as deep as it was, and neither is full. */
  lemma SplitNodeShape(c: BNode, order: nat, h: nat)
    requires order >= 2 && Width(c) == order && Shape(c, h) && Fits(c, order)
    ensures Shape(SplitNode(c, order).left, h) && Shape(SplitNode(c, order).right, h)
    ensures Fits(SplitNode(c, order).left, order) && Fits(SplitNode(c, order).right, order)
  {
    if c.Internal? {
      var mid := (order - 1) / 2;
      var s := SplitNode(c, order);
      assert forall j | 0 <= j < |s.left.children| :: s.left.children[j] == c.children[j];
      assert forall j | 0 <= j < |s.right.children| :: s.right.children[j] == c.children[mid + 1 + j];
    }
  }

  /** Splitting a child of a node that is not full keeps every leaf at the same depth and no node over `order`. */
  lemma SplitChildShape(parent: BNode, i: nat, order: nat, h: nat)
    requires parent.Internal? && Shape(parent, h) && Fits(parent, order) && Width(parent) < order
    requires i < |parent.children| && order >= 2 && Width(parent.children[i]) == order
    requires Shape(parent.children[i], h - 1)
    ensures Shape(SplitChild(parent, i, order), h) && Fits(SplitChild(parent, i, order), order)
    ensures Width(SplitChild(parent, i, order).children[i]) < order
    ensures Width(SplitChild(parent, i, order).children[i + 1]) < order
  {
    var ch := parent.children;
    var s := SplitNode(ch[i], order);
    SplitNodeShape(ch[i], order, h - 1);
    var r := SplitChild(parent, i, order);
    assert r.children == ch[..i] + [s.left, s.right] + ch[i + 1..];
    forall j | 0 <= j < |r.children|
      ensures Shape(r.children[j], h - 1) && Fits(r.children[j], order)
    {
      if j > i + 1 {
        assert r.children[j] == ch[j - 1];
      }
    }
  }

  /* ---------------- insertion ---------------- */

  /**
   * Where the right-to-left scan of `_insert_non_full` stops: the index just
   * past the last key that `k` is not below.  In a leaf it is where `(k, v)`
   * is inserted, so after any entries with an equal key; in an internal node
   * it is the child descended into.
   */
  function InsPos(ks: seq<Key>, k: Key): (i: nat)
    ensures i <= |ks|
    decreases |ks|
  {
    if ks == [] || !Lt(k, ks[|ks| - 1]) then |ks| else InsPos(ks[..|ks| - 1], k)
  }

  /** Every key from `InsPos` on is above `k`, and the one just before it is not. */
  lemma {:induction false} InsPosSplits(ks: seq<Key>, k: Key)
    ensures forall t | InsPos(ks, k) <= t < |ks| :: Lt(k, ks[t])
    ensures InsPos(ks, k) > 0 ==> !Lt(k, ks[InsPos(ks, k) - 1])
    decreases |ks|
  {
    if !(ks == [] || !Lt(k, ks[|ks| - 1])) {
      InsPosSplits(ks[..|ks| - 1], k);
    }
  }

  /**
   * `_insert_non_full`: a leaf takes `(k, v)` at `InsPos`; an internal node
   * splits the child it is about to enter when that child is full, steps
   * right when `k` is above the separator that came up, and recurses.
   */
  ghost function Ins(n: BNode, k: Key, v: Value, order: nat): (r: BNode)
    requires order >= 2 && Shape(n, Height(n)) && Fits(n, order) && Width(n) < order
    ensures r.Leaf? <==> n.Leaf?
    decreases Height(n)
  {
    match n
    case Leaf(es) =>
      var q := InsPos(KeysOf(es), k);
      Leaf(es[..q] + [Entry(k, v)] + es[q..])
    case Internal(seps, ch) =>
      var i := InsPos(seps, k);
      ChildReady(n, i, order);
      if Width(ch[i]) == order then
        SplitReady(n, i, order);
        var p := SplitChild(n, i, order);
        var j := Step(p, i, k);
        Internal(p.seps, p.children[j := Ins(p.children[j], k, v, order)])
      else
        Internal(seps, ch[i := Ins(ch[i], k, v, order)])
  }

  /** The child to enter is well shaped, lower than its parent, and fits the order. */
  ghost predicate ReadyBelow(c: BNode, n: BNode, order: nat)
  {
    Height(n) >= 1 && Height(c) == Height(n) - 1 && Shape(c, Height(c)) && Fits(c, order)
  }

  lemma ChildReady(n: BNode, i: nat, order: nat)
    requires order >= 2 && Shape(n, Height(n)) && Fits(n, order) && n.Internal? && i < |n.children|
    ensures ReadyBelow(n.children[i], n, order)
    ensures Width(n.children[i]) == order ==> Shape(n.children[i], Height(n) - 1)
  {
    ShapeChildren(n, Height(n));
  }

  /** After splitting a full child, both halves are ready to be entered, and neither is full. */
  lemma SplitReady(n: BNode, i: nat, order: nat)
    requires order >= 2 && Shape(n, Height(n)) && Fits(n, order) && Width(n) < order
    requires n.Internal? && i < |n.children| && Width(n.children[i]) == order
    ensures Shape(n.children[i], Height(n) - 1)
    ensures ReadyBelow(SplitChild(n, i, order).children[i], n, order)
    ensures ReadyBelow(SplitChild(n, i, order).children[i + 1], n, order)
    ensures Width(SplitChild(n, i, order).children[i]) < order
    ensures Width(SplitChild(n, i, order).children[i + 1]) < order
  {
    ChildReady(n, i, order);
    SplitChildShape(n, i, order, Height(n));
    ShapeChildren(SplitChild(n, i, order), Height(n));
  }

  /** After a split at i, `k` goes right of the separator that came up only when it is above it. */
  function Step(p: BNode, i: nat, k: Key): (j: nat)
    requires p.Internal? && i < |p.seps|
    ensures j == i || j == i + 1
  {
    if Lt(p.seps[i], k) then i + 1 else i
  }

  /** Replacing child j by a tree with one more entry adds that entry under the node. */
  lemma ReplaceAddsEntry(n: BNode, j: nat, c: BNode, e: Entry)
    requires n.Internal? && j < |n.children|
    requires multiset(Entries(c)) == multiset(Entries(n.children[j])) + multiset{e}
    ensures multiset(Entries(Internal(n.seps, n.children[j := c]))) == multiset(Entries(n)) + multiset{e}
  {
    EntriesAround(n.children, j);
    EntriesReplace(n.children, j, c);
  }

  /** Each insert adds exactly one entry and removes none, whether or not the key is already present. */
  /** A leaf with one entry put in holds that entry once more. */
  lemma LeafGains(es: seq<Entry>, q: nat, e: Entry)
    requires q <= |es|
    ensures multiset(Entries(Leaf(es[..q] + [e] + es[q..]))) == multiset(Entries(Leaf(es))) + multiset{e}
  {
    assert es == es[..q] + es[q..];
    FlattenOne(es);
    FlattenOne(es[..q] + [e] + es[q..]);
  }

  lemma {:induction false} InsEntries(n: BNode, k: Key, v: Value, order: nat)
    requires order >= 2 && Shape(n, Height(n)) && Fits(n, order) && Width(n) < order
    ensures multiset(Entries(Ins(n, k, v, order))) == multiset(Entries(n)) + multiset{Entry(k, v)}
    decreases Height(n)
  {
    match n
    case Leaf(es) =>
      LeafGains(es, InsPos(KeysOf(es), k), Entry(k, v));
    case Internal(seps, ch) =>
      var i := InsPos(seps, k);
      ChildReady(n, i, order);
      if Width(ch[i]) == order {
        SplitReady(n, i, order);
        var p := SplitChild(n, i, order);
        var j := Step(p, i, k);
        InsEntries(p.children[j], k, v, order);
        ReplaceAddsEntry(p, j, Ins(p.children[j], k, v, order), Entry(k, v));
      } else {
        InsEntries(ch[i], k, v, order);
        ReplaceAddsEntry(n, i, Ins(ch[i], k, v, order), Entry(k, v));
      }
  }

  /** Replacing a child by a tree of the same depth that fits keeps the node's shape. */
  lemma ReplaceShape(n: BNode, j: nat, c: BNode, order: nat, h: nat)
    requires n.Internal? && Shape(n, h) && Fits(n, order) && j < |n.children|
    requires Shape(c, h - 1) && Fits(c, order)
    ensures Shape(Internal(n.seps, n.children[j := c]), h) && Fits(Internal(n.seps, n.children[j := c]), order)
  {
  }

  /** Insertion keeps every leaf at the same depth and no node over `order`. */
  lemma {:induction false} InsShape(n: BNode, k: Key, v: Value, order: nat)
    requires order >= 2 && Shape(n, Height(n)) && Fits(n, order) && Width(n) < order
    ensures Shape(Ins(n, k, v, order), Height(n)) && Fits(Ins(n, k, v, order), order)
    ensures Height(Ins(n, k, v, order)) == Height(n)
    decreases Height(n)
  {
    match n
    case Leaf(es) =>
    case Internal(seps, ch) =>
      var i := InsPos(seps, k);
      ChildReady(n, i, order);
      var m, j := n, i;
      if Width(ch[i]) == order {
        SplitReady(n, i, order);
        SplitChildShape(n, i, order, Height(n));
        m := SplitChild(n, i, order);
        j := Step(m, i, k);
      }
      var c := Ins(m.children[j], k, v, order);
      assert Ins(n, k, v, order) == Internal(m.seps, m.children[j := c]);
      InsShape(m.children[j], k, v, order);
      ReplaceShape(m, j, c, order, Height(n));
      ShapeHeight(Ins(n, k, v, order), Height(n));
  }

  /* ---------------- key order ---------------- */

  /** `lo <= k <= hi`; a missing bound does not constrain. */
  ghost predicate Within(k: Key, lo: Option<Key>, hi: Option<Key>)
  {
    (lo.Some? ==> Le(lo.value, k)) && (hi.Some? ==> Le(k, hi.value))
  }

  /** The lower bound of child j: the separator before it, or the node's own. */
  function LoOf(seps: seq<Key>, lo: Option<Key>, j: nat): Option<Key>
    requires j <= |seps|
  {
    if j == 0 then lo else Some(seps[j - 1])
  }

  /** The upper bound of child j: the separator after it, or the node's own. */
  function HiOf(seps: seq<Key>, hi: Option<Key>, j: nat): Option<Key>
    requires j <= |seps|
  {
    if j == |seps| then hi else Some(seps[j])
  }

  ghost predicate SortedKeys(ks: seq<Key>)
  {
    forall a, b | 0 <= a < b < |ks| :: Le(ks[a], ks[b])
  }

  ghost predicate SortedEntries(es: seq<Entry>)
  {
    forall a, b | 0 <= a < b < |es| :: Le(es[a].key, es[b].key)
  }

  ghost predicate AllWithin(es: seq<Entry>, lo: Option<Key>, hi: Option<Key>)
  {
    forall j | 0 <= j < |es| :: Within(es[j].key, lo, hi)
  }

  /** A lower bound that is present is attained: the entries start with it. */
  ghost predicate StartsWith(es: seq<Entry>, lo: Option<Key>)
  {
    lo.Some? ==> es != [] && es[0].key == lo.value
  }

  /**
   * The search-tree order: keys sorted within every node, every key of child
   * j between the separators around it (both inclusive, since equal keys can
   * sit on either side), and a child's lower separator is its first key.
   */
  ghost predicate Ordered(n: BNode, lo: Option<Key>, hi: Option<Key>)
    decreases n
  {
    match n
    case Leaf(es) => SortedEntries(es) && AllWithin(es, lo, hi) && StartsWith(es, lo)
    case Internal(seps, ch) =>
      && |ch| == |seps| + 1
      && SortedKeys(seps)
      && (forall j | 0 <= j < |seps| :: Within(seps[j], lo, hi))
      && forall j | 0 <= j < |ch| :: Ordered(ch[j], LoOf(seps, lo, j), HiOf(seps, hi, j))
  }

  lemma SortedConcat(x: seq<Entry>, y: seq<Entry>, m: Key)
    requires SortedEntries(x) && SortedEntries(y)
    requires forall j | 0 <= j < |x| :: Le(x[j].key, m)
    requires forall j | 0 <= j < |y| :: Le(m, y[j].key)
    ensures SortedEntries(x + y)
  {
    forall a, b | 0 <= a < b < |x + y| ensures Le((x + y)[a].key, (x + y)[b].key) {
      if a < |x| && b >= |x| {
        LeTransitive(x[a].key, m, y[b - |x|].key);
      }
    }
  }

  /** The entries under children t.. are sorted and lie within child t's lower bound and the node's upper bound. */
  lemma {:induction false} ChildrenEntriesOrdered(seps: seq<Key>, ch: seq<BNode>, lo: Option<Key>, hi: Option<Key>, t: nat)
    requires |ch| == |seps| + 1 && t < |ch| && SortedKeys(seps)
    requires forall j | 0 <= j < |seps| :: Within(seps[j], lo, hi)
    requires forall j | 0 <= j < |ch| ::
      SortedEntries(Entries(ch[j])) && AllWithin(Entries(ch[j]), LoOf(seps, lo, j), HiOf(seps, hi, j)) &&
      StartsWith(Entries(ch[j]), LoOf(seps, lo, j))
    ensures SortedEntries(Flatten(LeavesOf(ch[t..])))
    ensures AllWithin(Flatten(LeavesOf(ch[t..])), LoOf(seps, lo, t), hi)
    ensures StartsWith(Flatten(LeavesOf(ch[t..])), LoOf(seps, lo, t))
    decreases |ch| - t
  {
    var x := Entries(ch[t]);
    EntriesAround(ch[t..], 0);
    assert ch[t..][..0] == [] && ch[t..][1..] == ch[t + 1..];
    var y := Flatten(LeavesOf(ch[t + 1..]));
    assert Flatten(LeavesOf(ch[t..])) == x + y;
    if t == |ch| - 1 {
      assert ch[t + 1..] == [];
      assert x + y == x;
    } else {
      ChildrenEntriesOrdered(seps, ch, lo, hi, t + 1);
      var m := seps[t];
      forall j | 0 <= j < |y| ensures Le(m, y[j].key) && Within(y[j].key, LoOf(seps, lo, t), hi) {
        if t > 0 {
          LeTransitive(seps[t - 1], m, y[j].key);
        } else if lo.Some? {
          LeTransitive(lo.value, m, y[j].key);
        }
      }
      forall j | 0 <= j < |x| ensures Within(x[j].key, LoOf(seps, lo, t), hi) {
        if hi.Some? {
          LeTransitive(x[j].key, m, hi.value);
        }
      }
      SortedConcat(x, y, m);
    }
  }

  /** The leaf chain of an ordered tree is sorted, within its bounds, and starts at its lower bound. */
  lemma {:induction false} OrderedEntries(n: BNode, lo: Option<Key>, hi: Option<Key>)
    requires Ordered(n, lo, hi)
    ensures SortedEntries(Entries(n)) && AllWithin(Entries(n), lo, hi) && StartsWith(Entries(n), lo)
    decreases n
  {
    match n
    case Leaf(es) =>
      FlattenOne(es);
    case Internal(seps, ch) =>
      forall j | 0 <= j < |ch|
        ensures SortedEntries(Entries(ch[j])) && AllWithin(Entries(ch[j]), LoOf(seps, lo, j), HiOf(seps, hi, j))
        ensures StartsWith(Entries(ch[j]), LoOf(seps, lo, j))
      {
        OrderedEntries(ch[j], LoOf(seps, lo, j), HiOf(seps, hi, j));
      }
      ChildrenEntriesOrdered(seps, ch, lo, hi, 0);
      assert ch[0..] == ch;
  }

  /** The halves of a full ordered node are ordered on either side of the key that goes up. */
  lemma SplitNodeOrdered(c: BNode, order: nat, lo: Option<Key>, hi: Option<Key>)
    requires order >= 2 && Width(c) == order && Ordered(c, lo, hi)
    requires c.Internal? ==> |c.children| == order + 1
    ensures Within(SplitNode(c, order).sep, lo, hi)
    ensures Ordered(SplitNode(c, order).left, lo, Some(SplitNode(c, order).sep))
    ensures Ordered(SplitNode(c, order).right, Some(SplitNode(c, order).sep), hi)
  {
    if c.Leaf? {
      SplitLeafOrdered(c.entries, order / 2, lo, hi);
    } else {
      var mid := (order - 1) / 2;
      SplitInternalLeft(c.seps, c.children, mid, lo, hi);
      SplitInternalRight(c.seps, c.children, mid, lo, hi);
    }
  }

  lemma SplitLeafOrdered(es: seq<Entry>, mid: nat, lo: Option<Key>, hi: Option<Key>)
    requires 0 < mid < |es| && Ordered(Leaf(es), lo, hi)
    ensures Within(es[mid].key, lo, hi)
    ensures Ordered(Leaf(es[..mid]), lo, Some(es[mid].key))
    ensures Ordered(Leaf(es[mid..]), Some(es[mid].key), hi)
  {
    var l, r := es[..mid], es[mid..];
    forall j | 0 <= j < |l| ensures Within(l[j].key, lo, Some(es[mid].key)) {
      assert l[j] == es[j];
    }
    forall j | 0 <= j < |r| ensures Within(r[j].key, Some(es[mid].key), hi) {
      assert r[j] == es[mid + j];
      if j > 0 {
        assert Le(es[mid].key, es[mid + j].key);
      }
    }
    forall a, b | 0 <= a < b < |r| ensures Le(r[a].key, r[b].key) {
      assert r[a] == es[mid + a] && r[b] == es[mid + b];
    }
  }

  lemma SplitInternalLeft(seps: seq<Key>, ch: seq<BNode>, mid: nat, lo: Option<Key>, hi: Option<Key>)
    requires mid < |seps| && Ordered(Internal(seps, ch), lo, hi)
    ensures Within(seps[mid], lo, hi)
    ensures Ordered(Internal(seps[..mid], ch[..mid + 1]), lo, Some(seps[mid]))
  {
    var ls, lc, m := seps[..mid], ch[..mid + 1], seps[mid];
    forall j | 0 <= j < |ls| ensures Within(ls[j], lo, Some(m)) {
      assert ls[j] == seps[j];
    }
    forall j | 0 <= j < |lc| ensures Ordered(lc[j], LoOf(ls, lo, j), HiOf(ls, Some(m), j)) {
      assert lc[j] == ch[j];
      assert LoOf(ls, lo, j) == LoOf(seps, lo, j);
      assert HiOf(ls, Some(m), j) == HiOf(seps, hi, j);
    }
    forall a, b | 0 <= a < b < |ls| ensures Le(ls[a], ls[b]) {
      assert ls[a] == seps[a] && ls[b] == seps[b];
    }
  }

  lemma SplitInternalRight(seps: seq<Key>, ch: seq<BNode>, mid: nat, lo: Option<Key>, hi: Option<Key>)
    requires mid < |seps| && Ordered(Internal(seps, ch), lo, hi)
    ensures Ordered(Internal(seps[mid + 1..], ch[mid + 1..]), Some(seps[mid]), hi)
  {
    var rs, rc, m := seps[mid + 1..], ch[mid + 1..], seps[mid];
    forall j | 0 <= j < |rs| ensures Within(rs[j], Some(m), hi) {
      assert rs[j] == seps[mid + 1 + j];
    }
    forall j | 0 <= j < |rc| ensures Ordered(rc[j], LoOf(rs, Some(m), j), HiOf(rs, hi, j)) {
      assert rc[j] == ch[mid + 1 + j];
      assert LoOf(rs, Some(m), j) == LoOf(seps, lo, mid + 1 + j);
      assert HiOf(rs, hi, j) == HiOf(seps, hi, mid + 1 + j);
    }
    forall a, b | 0 <= a < b < |rs| ensures Le(rs[a], rs[b]) {
      assert rs[a] == seps[mid + 1 + a] && rs[b] == seps[mid + 1 + b];
    }
  }

  /** A key between the separators around slot i keeps the separators sorted and within bounds when put there. */
  lemma InsertSepOrdered(seps: seq<Key>, i: nat, m: Key, lo: Option<Key>, hi: Option<Key>)
    requires i <= |seps| && SortedKeys(seps)
    requires forall j | 0 <= j < |seps| :: Within(seps[j], lo, hi)
    requires Within(m, LoOf(seps, lo, i), HiOf(seps, hi, i))
    ensures SortedKeys(seps[..i] + [m] + seps[i..])
    ensures forall j | 0 <= j < |seps| + 1 :: Within((seps[..i] + [m] + seps[i..])[j], lo, hi)
  {
    var r := seps[..i] + [m] + seps[i..];
    forall j | 0 <= j < |r| ensures Within(r[j], lo, hi) {
      if j == i {
        if i > 0 && lo.Some? {
          LeTransitive(lo.value, seps[i - 1], m);
        }
        if i < |seps| && hi.Some? {
          LeTransitive(m, seps[i], hi.value);
        }
      } else if j > i {
        assert r[j] == seps[j - 1];
      }
    }
    forall a, b | 0 <= a < b < |r| ensures Le(r[a], r[b]) {
      if a < i && b == i {
        LeTransitive(seps[a], seps[i - 1], m);
      } else if a == i && b > i {
        LeTransitive(m, seps[i], seps[b - 1]);
      } else if a > i {
        assert r[a] == seps[a - 1] && r[b] == seps[b - 1];
      } else if a < i && b > i {
        assert r[b] == seps[b - 1];
      }
    }
  }

  /** Child j replaced by two ordered halves around a new separator keeps every child within its bounds. */
  lemma SplitChildrenOrdered(seps: seq<Key>, ch: seq<BNode>, i: nat, s: Split, lo: Option<Key>, hi: Option<Key>)
    requires |ch| == |seps| + 1 && i < |ch|
    requires forall j | 0 <= j < |ch| :: Ordered(ch[j], LoOf(seps, lo, j), HiOf(seps, hi, j))
    requires Ordered(s.left, LoOf(seps, lo, i), Some(s.sep)) && Ordered(s.right, Some(s.sep), HiOf(seps, hi, i))
    ensures forall j | 0 <= j < |ch| + 1 ::
      Ordered((ch[..i] + [s.left, s.right] + ch[i + 1..])[j],
        LoOf(seps[..i] + [s.sep] + seps[i..], lo, j), HiOf(seps[..i] + [s.sep] + seps[i..], hi, j))
  {
    var rs, rc := seps[..i] + [s.sep] + seps[i..], ch[..i] + [s.left, s.right] + ch[i + 1..];
    forall j | 0 <= j < |rc| ensures Ordered(rc[j], LoOf(rs, lo, j), HiOf(rs, hi, j)) {
      if j < i {
        assert rc[j] == ch[j];
        assert LoOf(rs, lo, j) == LoOf(seps, lo, j) && HiOf(rs, hi, j) == HiOf(seps, hi, j);
      } else if j == i {
        assert rc[j] == s.left;
        assert LoOf(rs, lo, j) == LoOf(seps, lo, i) && HiOf(rs, hi, j) == Some(s.sep);
      } else if j == i + 1 {
        assert rc[j] == s.right;
        assert LoOf(rs, lo, j) == Some(s.sep) && HiOf(rs, hi, j) == HiOf(seps, hi, i);
      } else {
        assert rc[j] == ch[j - 1];
        assert LoOf(rs, lo, j) == LoOf(seps, lo, j - 1) && HiOf(rs, hi, j) == HiOf(seps, hi, j - 1);
      }
    }
  }

  /** Splitting a full child keeps the parent ordered. */
  lemma SplitChildOrdered(parent: BNode, i: nat, order: nat, lo: Option<Key>, hi: Option<Key>)
    requires parent.Internal? && Ordered(parent, lo, hi)
    requires i < |parent.children| && order >= 2 && Width(parent.children[i]) == order
    requires parent.children[i].Internal? ==> |parent.children[i].children| == order + 1
    ensures Ordered(SplitChild(parent, i, order), lo, hi)
  {
    var seps, ch := parent.seps, parent.children;
    var s := SplitNode(ch[i], order);
    SplitNodeOrdered(ch[i], order, LoOf(seps, lo, i), HiOf(seps, hi, i));
    InsertSepOrdered(seps, i, s.sep, lo, hi);
    SplitChildrenOrdered(seps, ch, i, s, lo, hi);
  }

  /** In sorted entries, everything before `InsPos` is at most `k` and everything from it on is above `k`. */
  lemma InsPosSorted(es: seq<Entry>, k: Key)
    requires SortedEntries(es)
    ensures forall t | 0 <= t < InsPos(KeysOf(es), k) :: Le(es[t].key, k)
    ensures forall t | InsPos(KeysOf(es), k) <= t < |es| :: Lt(k, es[t].key)
  {
    var q := InsPos(KeysOf(es), k);
    InsPosSplits(KeysOf(es), k);
    if q > 0 {
      NotLtIsLe(k, es[q - 1].key);
      forall t | 0 <= t < q - 1 ensures Le(es[t].key, k) {
        LeTransitive(es[t].key, es[q - 1].key, k);
      }
    }
  }

  lemma SortedInsertAt(es: seq<Entry>, q: nat, e: Entry)
    requires q <= |es| && SortedEntries(es)
    requires forall t | 0 <= t < q :: Le(es[t].key, e.key)
    requires forall t | q <= t < |es| :: Le(e.key, es[t].key)
    ensures SortedEntries(es[..q] + [e] + es[q..])
  {
    var r := es[..q] + [e] + es[q..];
    forall a, b | 0 <= a < b < |r| ensures Le(r[a].key, r[b].key) {
      if b == q {
        assert r[a] == es[a];
      } else if a == q {
        assert r[b] == es[b - 1];
      } else if a < q && b > q {
        assert r[a] == es[a] && r[b] == es[b - 1];
        LeTransitive(es[a].key, e.key, es[b - 1].key);
      } else if a > q {
        assert r[a] == es[a - 1] && r[b] == es[b - 1];
      }
    }
  }

  /** `(k, v)` placed at `InsPos` keeps a leaf sorted, within its bounds, and starting at its lower bound. */
  lemma LeafInsertOrdered(es: seq<Entry>, k: Key, v: Value, lo: Option<Key>, hi: Option<Key>)
    requires Ordered(Leaf(es), lo, hi) && Within(k, lo, hi)
    ensures Ordered(Leaf(es[..InsPos(KeysOf(es), k)] + [Entry(k, v)] + es[InsPos(KeysOf(es), k)..]), lo, hi)
  {
    var q := InsPos(KeysOf(es), k);
    InsPosSorted(es, k);
    if lo.Some? {
      LeNotLt(es[0].key, k);
    }
    SortedInsertAt(es, q, Entry(k, v));
    InsertWithin(es, q, Entry(k, v), lo, hi);
    InsertStarts(es, q, Entry(k, v), lo);
  }

  lemma InsertWithin(es: seq<Entry>, q: nat, e: Entry, lo: Option<Key>, hi: Option<Key>)
    requires q <= |es| && AllWithin(es, lo, hi) && Within(e.key, lo, hi)
    ensures AllWithin(es[..q] + [e] + es[q..], lo, hi)
  {
    var r := es[..q] + [e] + es[q..];
    forall j | 0 <= j < |r| ensures Within(r[j].key, lo, hi) {
      if j < q {
        assert r[j] == es[j];
      } else if j > q {
        assert r[j] == es[j - 1];
      }
    }
  }

  lemma InsertStarts(es: seq<Entry>, q: nat, e: Entry, lo: Option<Key>)
    requires q <= |es| && StartsWith(es, lo) && (lo.Some? ==> q > 0)
    ensures StartsWith(es[..q] + [e] + es[q..], lo)
  {
    if lo.Some? {
      assert (es[..q] + [e] + es[q..])[0] == es[0];
    }
  }

  /** The child `InsPos` picks has bounds around `k`. */
  lemma InsPosWithin(seps: seq<Key>, k: Key, lo: Option<Key>, hi: Option<Key>)
    requires Within(k, lo, hi)
    ensures Within(k, LoOf(seps, lo, InsPos(seps, k)), HiOf(seps, hi, InsPos(seps, k)))
  {
    var i := InsPos(seps, k);
    InsPosSplits(seps, k);
    if i > 0 {
      NotLtIsLe(k, seps[i - 1]);
    }
  }

  /** After the split at i, the child `Step` picks still has bounds around `k`. */
  lemma StepWithin(seps: seq<Key>, i: nat, m: Key, k: Key, lo: Option<Key>, hi: Option<Key>)
    requires i <= |seps| && Within(k, LoOf(seps, lo, i), HiOf(seps, hi, i))
    ensures var ps := seps[..i] + [m] + seps[i..];
      var j := if Lt(m, k) then i + 1 else i;
      Within(k, LoOf(ps, lo, j), HiOf(ps, hi, j))
  {
    var ps := seps[..i] + [m] + seps[i..];
    if Lt(m, k) {
      if i < |seps| {
        assert ps[i + 1] == seps[i];
      }
    } else {
      NotLtIsLe(m, k);
      assert ps[..i] == seps[..i];
      if i > 0 {
        assert ps[i - 1] == seps[i - 1];
      }
    }
  }

  lemma ReplaceOrdered(n: BNode, j: nat, c: BNode, lo: Option<Key>, hi: Option<Key>)
    requires n.Internal? && Ordered(n, lo, hi) && j < |n.children|
    requires Ordered(c, LoOf(n.seps, lo, j), HiOf(n.seps, hi, j))
    ensures Ordered(Internal(n.seps, n.children[j := c]), lo, hi)
  {
  }

  /** Insertion of a key within the node's bounds keeps it ordered. */
  lemma {:induction false} InsOrdered(n: BNode, k: Key, v: Value, order: nat, lo: Option<Key>, hi: Option<Key>)
    requires order >= 2 && Shape(n, Height(n)) && Fits(n, order) && Width(n) < order
    requires Ordered(n, lo, hi) && Within(k, lo, hi)
    ensures Ordered(Ins(n, k, v, order), lo, hi)
    decreases Height(n), 1
  {
    match n
    case Leaf(es) =>
      LeafInsertOrdered(es, k, v, lo, hi);
    case Internal(seps, ch) =>
      var i := InsPos(seps, k);
      ChildReady(n, i, order);
      if Width(ch[i]) == order {
        InsOrderedSplit(n, k, v, order, lo, hi);
      } else {
        InsPosWithin(seps, k, lo, hi);
        InsOrdered(ch[i], k, v, order, LoOf(seps, lo, i), HiOf(seps, hi, i));
        ReplaceOrdered(n, i, Ins(ch[i], k, v, order), lo, hi);
      }
  }

  /** The case where the child to enter is full and is split first. */
  lemma {:induction false} InsOrderedSplit(n: BNode, k: Key, v: Value, order: nat, lo: Option<Key>, hi: Option<Key>)
    requires order >= 2 && Shape(n, Height(n)) && Fits(n, order) && Width(n) < order
    requires Ordered(n, lo, hi) && Within(k, lo, hi)
    requires n.Internal? && Width(n.children[InsPos(n.seps, k)]) == order
    ensures Ordered(Ins(n, k, v, order), lo, hi)
    decreases Height(n), 0
  {
    var seps, i := n.seps, InsPos(n.seps, k);
    SplitReady(n, i, order);
    SplitChildOrdered(n, i, order, lo, hi);
    var p := SplitChild(n, i, order);
    var j := Step(p, i, k);
    InsPosWithin(seps, k, lo, hi);
    StepWithin(seps, i, p.seps[i], k, lo, hi);
    assert p.seps == seps[..i] + [p.seps[i]] + seps[i..];
    InsOrdered(p.children[j], k, v, order, LoOf(p.seps, lo, j), HiOf(p.seps, hi, j));
    ReplaceOrdered(p, j, Ins(p.children[j], k, v, order), lo, hi);
  }

  /* ---------------- search ---------------- */

  /** `search`'s descent index: how many leading separators `k` is not below (`key >= keys[i]`). */
  function ChildIndex(seps: seq<Key>, k: Key): (i: nat)
    ensures i <= |seps|
  {
    if seps == [] || Lt(k, seps[0]) then 0 else 1 + ChildIndex(seps[1..], k)
  }

  lemma {:induction false} ChildIndexSplits(seps: seq<Key>, k: Key)
    ensures forall t | 0 <= t < ChildIndex(seps, k) :: !Lt(k, seps[t])
    ensures ChildIndex(seps, k) < |seps| ==> Lt(k, seps[ChildIndex(seps, k)])
    decreases |seps|
  {
    if !(seps == [] || Lt(k, seps[0])) {
      ChildIndexSplits(seps[1..], k);
      forall t | 1 <= t < ChildIndex(seps, k) ensures seps[t] == seps[1..][t - 1] { }
    }
  }

  /** With sorted separators, every child whose lower separator is at most `k` is at or before the descent index. */
  lemma {:induction false} ChildIndexAtLeast(seps: seq<Key>, k: Key, j: nat)
    requires SortedKeys(seps) && 0 < j <= |seps| && Le(seps[j - 1], k)
    ensures j <= ChildIndex(seps, k)
    decreases |seps|
  {
    if j > 1 {
      LeTransitive(seps[0], seps[j - 1], k);
    }
    LeNotLt(seps[0], k);
    if j > 1 {
      ChildIndexAtLeast(seps[1..], k, j - 1);
    }
  }

  /** The entries of the leaf `search` reaches. */
  ghost function Reach(n: BNode, k: Key): seq<Entry>
    decreases n
  {
    match n
    case Leaf(es) => es
    case Internal(seps, ch) =>
      var i := ChildIndex(seps, k);
      if i < |ch| then Reach(ch[i], k) else []
  }

  /** The linear scan of a leaf: the value of the first entry whose key is `k`. */
  function FirstMatch(es: seq<Entry>, k: Key): Option<Value>
  {
    if es == [] then None else if es[0].key == k then Some(es[0].value) else FirstMatch(es[1..], k)
  }

  lemma {:induction false} FirstMatchFinds(es: seq<Entry>, k: Key)
    ensures FirstMatch(es, k).Some? <==> exists j :: 0 <= j < |es| && es[j].key == k
    ensures FirstMatch(es, k).Some? ==> Entry(k, FirstMatch(es, k).value) in es
    decreases |es|
  {
    if es != [] && es[0].key != k {
      FirstMatchFinds(es[1..], k);
      if exists j :: 0 <= j < |es| && es[j].key == k {
        var j :| 0 <= j < |es| && es[j].key == k;
        assert es[1..][j - 1].key == k;
      }
    }
  }

  /** The leaf `search` reaches is one of the tree's leaves. */
  lemma {:induction false} ReachInTree(n: BNode, k: Key, h: nat)
    requires Shape(n, h)
    ensures forall e | e in Reach(n, k) :: e in Entries(n)
    decreases n
  {
    match n
    case Leaf(es) =>
      FlattenOne(es);
    case Internal(seps, ch) =>
      var i := ChildIndex(seps, k);
      ReachInTree(ch[i], k, h - 1);
      forall e | e in Reach(n, k) ensures e in Entries(n) {
        ChildEntryInNode(ch, i, e);
      }
  }

  /**
   * In an ordered tree the descent cannot miss a key: if any leaf holds `k`,
   * the leaf `search` reaches does.  A key equal to a separator may sit on
   * both sides of it; the right side, where `search` goes, starts with it.
   */
  lemma {:induction false} ReachFinds(n: BNode, k: Key, h: nat, lo: Option<Key>, hi: Option<Key>, e: Entry)
    requires Shape(n, h) && Ordered(n, lo, hi) && e in Entries(n) && e.key == k
    ensures exists j :: 0 <= j < |Reach(n, k)| && Reach(n, k)[j].key == k
    decreases n
  {
    match n
    case Leaf(es) =>
      FlattenOne(es);
      var t :| 0 <= t < |es| && es[t] == e;
      assert Reach(n, k)[t].key == k;
    case Internal(seps, ch) =>
      var i := ChildIndex(seps, k);
      var j := EntryInChild(ch, e);
      OrderedEntries(ch[j], LoOf(seps, lo, j), HiOf(seps, hi, j));
      var t :| 0 <= t < |Entries(ch[j])| && Entries(ch[j])[t] == e;
      assert Within(k, LoOf(seps, lo, j), HiOf(seps, hi, j));
      if j > 0 {
        ChildIndexAtLeast(seps, k, j);
      }
      ChildIndexSplits(seps, k);
      if j == i {
        ReachFinds(ch[i], k, h - 1, LoOf(seps, lo, i), HiOf(seps, hi, i), e);
        assert Reach(n, k) == Reach(ch[i], k);
      } else {
        LeftChildKey(seps, k, j, i);
        OrderedEntries(ch[i], LoOf(seps, lo, i), HiOf(seps, hi, i));
        var f := Entries(ch[i])[0];
        ReachFinds(ch[i], k, h - 1, LoOf(seps, lo, i), HiOf(seps, hi, i), f);
        assert Reach(n, k) == Reach(ch[i], k);
      }
  }

  /** A key that a child left of the one `search` enters can hold is the separator just before that one. */
  lemma LeftChildKey(seps: seq<Key>, k: Key, j: nat, i: nat)
    requires SortedKeys(seps) && i == ChildIndex(seps, k) && j < i && Le(k, seps[j])
    ensures k == seps[i - 1]
  {
    ChildIndexSplits(seps, k);
    NotLtIsLe(k, seps[i - 1]);
    if j < i - 1 {
      LeTransitive(k, seps[j], seps[i - 1]);
    }
    LeAntisymmetric(k, seps[i - 1]);
  }

  /** Whether any entry carries key `k`. */
  ghost predicate HasKey(es: seq<Entry>, k: Key)
  {
    exists j :: 0 <= j < |es| && es[j].key == k
  }

  /**
   * What `search` answers in an ordered tree: something exactly when some
   * leaf holds the key, and then a value stored under it.
   */
  lemma SearchMeaning(n: BNode, k: Key)
    requires Shape(n, Height(n)) && Ordered(n, None, None)
    ensures FirstMatch(Reach(n, k), k).Some? <==> HasKey(Entries(n), k)
    ensures FirstMatch(Reach(n, k), k).Some? ==> Entry(k, FirstMatch(Reach(n, k), k).value) in Entries(n)
  {
    FirstMatchFinds(Reach(n, k), k);
    ReachInTree(n, k, Height(n));
    if HasKey(Entries(n), k) {
      var j :| 0 <= j < |Entries(n)| && Entries(n)[j].key == k;
      ReachFinds(n, k, Height(n), None, None, Entries(n)[j]);
    }
    if FirstMatch(Reach(n, k), k).Some? {
      var e := Entry(k, FirstMatch(Reach(n, k), k).value);
      var j :| 0 <= j < |Entries(n)| && Entries(n)[j] == e;
      assert Entries(n)[j].key == k;
    }
  }

  /* ---------------- the leaf chain across a split ---------------- */

  /**
   * Splitting a full leaf puts the new sibling, holding `keys[order // 2:]`,
   * immediately after the original, which keeps `keys[:order // 2]`, in the
   * leaf chain, and copies the sibling's first key up to position i.
   */
  lemma SplitLeafLinks(parent: BNode, i: nat, order: nat)
    requires parent.Internal? && |parent.children| == |parent.seps| + 1
    requires i < |parent.children| && order >= 2
    requires parent.children[i].Leaf? && Width(parent.children[i]) == order
    ensures var ch, es := parent.children, parent.children[i].entries;
      && Leaves(parent) == LeavesOf(ch[..i]) + [es] + LeavesOf(ch[i + 1..])
      && Leaves(SplitChild(parent, i, order)) == LeavesOf(ch[..i]) + [es[..order / 2], es[order / 2..]] + LeavesOf(ch[i + 1..])
      && SplitChild(parent, i, order).seps[i] == es[order / 2].key
  {
    var ch, es := parent.children, parent.children[i].entries;
    var l, r := Leaf(es[..order / 2]), Leaf(es[order / 2..]);
    assert ch == (ch[..i] + [ch[i]]) + ch[i + 1..];
    LeavesOfAppend(ch[..i] + [ch[i]], ch[i + 1..]);
    LeavesOfAppend(ch[..i], [ch[i]]);
    LeavesOfOne(ch[i]);
    var ch' := SplitChild(parent, i, order).children;
    assert ch' == (ch[..i] + [l, r]) + ch[i + 1..];
    LeavesOfAppend(ch[..i] + [l, r], ch[i + 1..]);
    LeavesOfAppend(ch[..i], [l, r]);
    LeavesOfAppend([l], [r]);
    assert [l, r] == [l] + [r];
    LeavesOfOne(l);
    LeavesOfOne(r);
  }

  /* ---------------- the whole insert ---------------- */

  /**
   * The first step of `insert` on a full root: the root is pushed under a new
   * internal root and split there, giving a tree one level deeper whose root
   * has one separator and the same entries.
   */
  function Grow(root: BNode, order: nat): (p: BNode)
    requires order >= 2 && Shape(root, Height(root)) && Fits(root, order) && Width(root) == order
    ensures Shape(p, Height(root) + 1) && Height(p) == Height(root) + 1 && Fits(p, order) && Width(p) == 1
    ensures Entries(p) == Entries(root)
  {
    var q := Internal([], [root]);
    LeavesOfOne(root);
    SplitChildShape(q, 0, order, Height(root) + 1);
    var p := SplitChild(q, 0, order);
    ShapeHeight(p, Height(root) + 1);
    p
  }

  /** The grown tree is ordered when the old root was. */
  lemma GrowOrdered(root: BNode, order: nat)
    requires order >= 2 && Shape(root, Height(root)) && Fits(root, order) && Width(root) == order
    requires Ordered(root, None, None)
    ensures Ordered(Grow(root, order), None, None)
  {
    SplitChildOrdered(Internal([], [root]), 0, order, None, None);
  }

  /** `insert`: split a full root first, then insert into a root that is not full. */
  ghost function Inserted(root: BNode, k: Key, v: Value, order: nat): (r: BNode)
    requires order >= 2 && Shape(root, Height(root)) && Fits(root, order)
  {
    if Width(root) == order then
      Ins(Grow(root, order), k, v, order)
    else
      Ins(root, k, v, order)
  }

  /** Insert keeps the tree well shaped and ordered, grows it by one level exactly when the root was full, and adds exactly the one entry. */
  lemma InsertedValid(root: BNode, k: Key, v: Value, order: nat)
    requires order >= 2 && Shape(root, Height(root)) && Fits(root, order) && Ordered(root, None, None)
    ensures var r := Inserted(root, k, v, order);
      && Shape(r, Height(r)) && Fits(r, order) && Ordered(r, None, None)
      && Height(r) == Height(root) + (if Width(root) == order then 1 else 0)
      && multiset(Entries(r)) == multiset(Entries(root)) + multiset{Entry(k, v)}
  {
    var n := root;
    if Width(root) == order {
      GrowOrdered(root, order);
      n := Grow(root, order);
    }
    InsShape(n, k, v, order);
    InsOrdered(n, k, v, order, None, None);
    InsEntries(n, k, v, order);
  }

  /** Searching for a key that was absent before the insert finds the value just inserted. */
  lemma InsertedFresh(root: BNode, k: Key, v: Value, order: nat)
    requires order >= 2 && Shape(root, Height(root)) && Fits(root, order) && Ordered(root, None, None)
    requires !HasKey(Entries(root), k)
    ensures var r := Inserted(root, k, v, order); FirstMatch(Reach(r, k), k) == Some(v)
  {
    var r := Inserted(root, k, v, order);
    InsertedValid(root, k, v, order);
    SearchMeaning(r, k);
    assert Entry(k, v) in multiset(Entries(r));
    var j :| 0 <= j < |Entries(r)| && Entries(r)[j] == Entry(k, v);
    assert Entries(r)[j].key == k;
    var w := FirstMatch(Reach(r, k), k).value;
    assert Entry(k, w) in multiset(Entries(r));
  }

  /**
   * Insert never overwrites: inserting a key that is already present keeps
   * the old entry, and `search` keeps answering with it.  Two inserts of
   * "a" into an empty tree of order 4 leave one leaf holding both entries,
   * the newer after the older, and search finds the older.
   */
  lemma InsertKeepsOldValue()
    ensures var t := Inserted(Inserted(Leaf([]), "a", "1", 4), "a", "2", 4);
      && t == Leaf([Entry("a", "1"), Entry("a", "2")])
      && FirstMatch(Reach(t, "a"), "a") == Some("1")
  {
    var t1 := Inserted(Leaf([]), "a", "1", 4);
    assert t1 == Leaf([Entry("a", "1")]);
    assert KeysOf([Entry("a", "1")]) == ["a"];
    LtIrreflexive("a");
    assert InsPos(["a"], "a") == 1;
  }

  /* ---------------- the object ---------------- */

  /** The right-to-left scan of `_insert_non_full`, stopping past the last key `k` is not below. */
  method ScanBack(ks: seq<Key>, k: Key) returns (i: nat)
    ensures i == InsPos(ks, k)
  {
    var j := |ks| - 1;
    assert ks[..j + 1] == ks;
    while j >= 0 && Lt(k, ks[j])
      invariant -1 <= j < |ks|
      invariant InsPos(ks[..j + 1], k) == InsPos(ks, k)
      decreases j
    {
      assert ks[..j + 1][..j] == ks[..j];
      j := j - 1;
    }
    i := j + 1;
  }

  /** `_insert_non_full`, rebuilding the path it changes. */
  method InsertNonFull(n: BNode, k: Key, v: Value, order: nat) returns (r: BNode)
    requires order >= 2 && Shape(n, Height(n)) && Fits(n, order) && Width(n) < order
    ensures r == Ins(n, k, v, order)
    decreases Height(n)
  {
    match n
    case Leaf(es) =>
      var q := ScanBack(KeysOf(es), k);
      r := Leaf(es[..q] + [Entry(k, v)] + es[q..]);
    case Internal(seps, ch) =>
      var i := ScanBack(seps, k);
      ChildReady(n, i, order);
      if Width(ch[i]) == order {
        SplitReady(n, i, order);
        var p := SplitChild(n, i, order);
        var j := i;
        if Lt(p.seps[i], k) {
          j := i + 1;
        }
        var c := InsertNonFull(p.children[j], k, v, order);
        r := Internal(p.seps, p.children[j := c]);
      } else {
        var c := InsertNonFull(ch[i], k, v, order);
        r := Internal(seps, ch[i := c]);
      }
  }

  /** A sequence whose multiset gained one element holds exactly the old elements and that one. */
  lemma GainsOne(after: seq<Entry>, before: seq<Entry>, x: Entry)
    requires multiset(after) == multiset(before) + multiset{x}
    ensures forall e :: e in after <==> e in before || e == x
  {
    forall e ensures e in after <==> e in before || e == x {
      assert e in after <==> e in multiset(after);
      assert e in before <==> e in multiset(before);
    }
  }

  class BPlusTree {
    var root: BNode
    const order: nat

    ghost predicate Valid()
      reads this
    {
      order >= 2 && Shape(root, Height(root)) && Fits(root, order) && Ordered(root, None, None)
    }

    constructor (order: nat)
      requires order >= 2
      ensures Valid() && this.order == order && root == Leaf([])
    {
      this.order := order;
      root := Leaf([]);
    }

    method Insert(key: Key, value: Value)
      requires Valid()
      modifies this
      ensures Valid() && root == Inserted(old(root), key, value, order)
      ensures multiset(Entries(root)) == multiset(Entries(old(root))) + multiset{Entry(key, value)}
      ensures Height(root) == Height(old(root)) + (if Width(old(root)) == order then 1 else 0)
      ensures forall e :: e in Entries(root) <==> e in Entries(old(root)) || e == Entry(key, value)
      ensures !HasKey(Entries(old(root)), key) ==> FirstMatch(Reach(root, key), key) == Some(value)
    {
      InsertedValid(root, key, value, order);
      if !HasKey(Entries(root), key) {
        InsertedFresh(root, key, value, order);
      }
      ghost var before := Entries(root);
      if Width(root) == order {
        root := Grow(root, order);
      }
      root := InsertNonFull(root, key, value, order);
      GainsOne(Entries(root), before, Entry(key, value));
    }

    method Search(key: Key) returns (r: Option<Value>)
      requires Valid()
      ensures r == FirstMatch(Reach(root, key), key)
      ensures r.Some? <==> HasKey(Entries(root), key)
      ensures r.Some? ==> Entry(key, r.value) in Entries(root)
    {
      SearchMeaning(root, key);
      var node := root;
      while node.Internal?
        invariant Shape(node, Height(node)) && Reach(node, key) == Reach(root, key)
        decreases node
      {
        var i := 0;
        assert node.seps[0..] == node.seps;
        while i < |node.seps| && !Lt(key, node.seps[i])
          invariant i <= |node.seps|
          invariant ChildIndex(node.seps, key) == i + ChildIndex(node.seps[i..], key)
        {
          assert node.seps[i..][1..] == node.seps[i + 1..];
          i := i + 1;
        }
        ShapeChildren(node, Height(node));
        node := node.children[i];
      }
      var es := node.entries;
      assert es[0..] == es;
      for t := 0 to |es|
        invariant FirstMatch(es[t..], key) == FirstMatch(es, key)
      {
        if es[t].key == key {
          return Some(es[t].value);
        }
        assert es[t..][1..] == es[t + 1..];
      }
      r := None;
    }
  }
}
