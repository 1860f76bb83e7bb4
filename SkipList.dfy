/**
 * The layered index (data_structures/skip_list.py).
 *
 * The list is held as its level-0 chain, `nodes`, each node carrying the top
 * level it reaches (a node of level l has l + 1 forward pointers).  Position 0
 * is the header; position q >= 1 is `nodes[q - 1]`.  A node's forward pointer
 * at level i is not stored: it is the next node in the chain whose level
 * reaches i (`NextAt`), which is exactly what the source's splicing keeps it
 * equal to (lemma `SpliceRelinks`).
 */
module SkipLists {
  import opened KeyOrder

  datatype SkipNode = SkipNode(key: Key, value: Value, level: nat)

  /**
   * `forward[i]` of the node at position `pos`: the position of the next node
   * whose level is at least i, or |ns| + 1 for None.
   */
  function NextAt(ns: seq<SkipNode>, pos: nat, i: nat): (q: nat)
    requires pos <= |ns|
    ensures pos < q <= |ns| + 1
    decreases |ns| - pos
  {
    if pos == |ns| then |ns| + 1
    else if ns[pos].level >= i then pos + 1
    else NextAt(ns, pos + 1, i)
  }

  lemma {:induction false} NextAtSkips(ns: seq<SkipNode>, pos: nat, i: nat)
    requires pos <= |ns|
    ensures forall j | pos <= j < NextAt(ns, pos, i) - 1 :: ns[j].level < i
    ensures NextAt(ns, pos, i) <= |ns| ==> ns[NextAt(ns, pos, i) - 1].level >= i
    decreases |ns| - pos
  {
    if pos < |ns| && ns[pos].level < i {
      NextAtSkips(ns, pos + 1, i);
    }
  }

  /** The level-i chain skips over the level-(i-1) chain: its next node is never closer. */
  lemma {:induction false} LevelsNest(ns: seq<SkipNode>, pos: nat, i: nat)
    requires pos <= |ns| && i >= 1
    ensures NextAt(ns, pos, i - 1) <= NextAt(ns, pos, i)
    decreases |ns| - pos
  {
    if pos < |ns| && ns[pos].level < i - 1 {
      LevelsNest(ns, pos + 1, i);
    }
  }

  ghost predicate StrictlySorted(ns: seq<SkipNode>)
  {
    forall a, b | 0 <= a < b < |ns| :: Lt(ns[a].key, ns[b].key)
  }

  /** The key/value pairs on the level-0 chain. */
  function Content(ns: seq<SkipNode>): map<Key, Value>
  {
    if ns == [] then map[] else Content(ns[..|ns| - 1])[ns[|ns| - 1].key := ns[|ns| - 1].value]
  }

  lemma {:induction false} ContentAppend(a: seq<SkipNode>, b: seq<SkipNode>)
    ensures Content(a + b) == Content(a) + Content(b)
    decreases |b|
  {
    if b != [] {
      assert (a + b)[..|a + b| - 1] == a + b[..|b| - 1];
      ContentAppend(a, b[..|b| - 1]);
    } else {
      assert a + b == a;
    }
  }

  lemma {:induction false} ContentKeys(ns: seq<SkipNode>, k: Key)
    ensures k in Content(ns) <==> exists j :: 0 <= j < |ns| && ns[j].key == k
    decreases |ns|
  {
    if ns != [] {
      ContentKeys(ns[..|ns| - 1], k);
      if k in Content(ns[..|ns| - 1]) {
        var j :| 0 <= j < |ns| - 1 && ns[..|ns| - 1][j].key == k;
        assert ns[j].key == k;
      }
      if exists j :: 0 <= j < |ns| && ns[j].key == k {
        var j :| 0 <= j < |ns| && ns[j].key == k;
        if j < |ns| - 1 {
          assert ns[..|ns| - 1][j].key == k;
        }
      }
    }
  }

  /** On a strictly sorted chain each key maps to the value of its node. */
  lemma {:induction false} ContentAt(ns: seq<SkipNode>, j: nat)
    requires StrictlySorted(ns) && j < |ns|
    ensures ns[j].key in Content(ns) && Content(ns)[ns[j].key] == ns[j].value
    decreases |ns|
  {
    if j < |ns| - 1 {
      ContentAt(ns[..|ns| - 1], j);
      LtIrreflexive(ns[j].key);
    }
  }

  /** The number of nodes whose key is below `k`: the 0-based index a new `k` takes. */
  function LowerBound(ns: seq<SkipNode>, k: Key): (p: nat)
    ensures p <= |ns|
  {
    if ns == [] || !Lt(ns[0].key, k) then 0 else 1 + LowerBound(ns[1..], k)
  }

  lemma {:induction false} LowerBoundSplits(ns: seq<SkipNode>, k: Key)
    requires StrictlySorted(ns)
    ensures forall j | 0 <= j < LowerBound(ns, k) :: Lt(ns[j].key, k)
    ensures forall j | LowerBound(ns, k) <= j < |ns| :: !Lt(ns[j].key, k)
    decreases |ns|
  {
    if ns != [] {
      if Lt(ns[0].key, k) {
        LowerBoundSplits(ns[1..], k);
        forall j | 1 <= j < |ns| ensures ns[j] == ns[1..][j - 1] { }
      } else {
        forall j | 0 < j < |ns| ensures !Lt(ns[j].key, k) {
          if Lt(ns[j].key, k) {
            LtTransitive(ns[0].key, ns[j].key, k);
          }
        }
      }
    }
  }

  /**
   * `update[i]`: the last position before `q` that reaches level i (the
   * header, position 0, reaches every level).
   */
  function Pred(ns: seq<SkipNode>, q: nat, i: nat): (u: nat)
    requires 1 <= q <= |ns| + 1
    ensures u < q
    decreases q
  {
    if q == 1 || ns[q - 2].level >= i then q - 1 else Pred(ns, q - 1, i)
  }

  /** A position before `q` that reaches level i and whose level-i successor is at or after `q` is `Pred`. */
  lemma {:induction false} PredIsLastBefore(ns: seq<SkipNode>, q: nat, i: nat, u: nat)
    requires 1 <= q <= |ns| + 1 && u < q
    requires u == 0 || ns[u - 1].level >= i
    requires NextAt(ns, u, i) >= q
    ensures Pred(ns, q, i) == u
    decreases q
  {
    NextAtSkips(ns, u, i);
    if u < q - 1 {
      PredIsLastBefore(ns, q - 1, i, u);
    }
  }

  /** No node before `q` reaches a level above every node's: `Pred` is the header there. */
  lemma {:induction false} PredAboveTop(ns: seq<SkipNode>, q: nat, i: nat)
    requires 1 <= q <= |ns| + 1
    requires forall j | 0 <= j < |ns| :: ns[j].level < i
    ensures Pred(ns, q, i) == 0
    decreases q
  {
    if q > 1 {
      PredAboveTop(ns, q - 1, i);
    }
  }

  /** The chain with `nd` spliced in as `nodes[p]`. */
  function Spliced(ns: seq<SkipNode>, p: nat, nd: SkipNode): (r: seq<SkipNode>)
    requires p <= |ns|
    ensures |r| == |ns| + 1 && r[p] == nd
    ensures forall j | 0 <= j < p :: r[j] == ns[j]
    ensures forall j | p <= j < |ns| :: r[j + 1] == ns[j]
  {
    ns[..p] + [nd] + ns[p..]
  }

  /** Past the splice point every successor is the old one, one position further on. */
  lemma {:induction false} SpliceShifts(ns: seq<SkipNode>, p: nat, nd: SkipNode, w: nat, i: nat)
    requires p <= w <= |ns|
    ensures NextAt(Spliced(ns, p, nd), w + 1, i) == NextAt(ns, w, i) + 1
    decreases |ns| - w
  {
    if w < |ns| && ns[w].level < i {
      SpliceShifts(ns, p, nd, w + 1, i);
    }
  }

  /**
   * How every forward pointer up to the splice point looks after it: one that
   * stopped before the new node is unchanged, one that jumped over it now stops
   * at it when the new node reaches its level, and is otherwise shifted by one.
   */
  lemma {:induction false} SpliceNext(ns: seq<SkipNode>, p: nat, nd: SkipNode, w: nat, i: nat)
    requires w <= p <= |ns|
    ensures NextAt(Spliced(ns, p, nd), w, i) ==
      (if NextAt(ns, w, i) <= p then NextAt(ns, w, i)
       else if nd.level >= i then p + 1
       else NextAt(ns, w, i) + 1)
    decreases |ns| - w
  {
    if w < p {
      if ns[w].level < i {
        SpliceNext(ns, p, nd, w + 1, i);
      }
    } else if nd.level < i {
      SpliceShifts(ns, p, nd, p, i);
    }
  }

  lemma {:induction false} PredSkips(ns: seq<SkipNode>, q: nat, i: nat)
    requires 1 <= q <= |ns| + 1
    ensures forall j | Pred(ns, q, i) <= j < q - 1 :: ns[j].level < i
    decreases q
  {
    if !(q == 1 || ns[q - 2].level >= i) {
      PredSkips(ns, q - 1, i);
    }
  }

  /** Skipping nodes that do not reach level i does not change the successor. */
  lemma {:induction false} NextAtFrom(ns: seq<SkipNode>, u: nat, w: nat, i: nat)
    requires u <= w <= |ns|
    requires forall j | u <= j < w :: ns[j].level < i
    ensures NextAt(ns, u, i) == NextAt(ns, w, i)
    decreases w - u
  {
    if u < w {
      NextAtFrom(ns, u + 1, w, i);
    }
  }

  /**
   * The source's splice loop, level by level: for every i up to the new
   * node's level, `update[i].forward[i]` becomes the new node and the new
   * node's `forward[i]` is the old `update[i].forward[i]`.
   */
  lemma SpliceRelinks(ns: seq<SkipNode>, p: nat, nd: SkipNode, i: nat)
    requires p <= |ns| && i <= nd.level
    ensures NextAt(Spliced(ns, p, nd), Pred(ns, p + 1, i), i) == p + 1
    ensures NextAt(Spliced(ns, p, nd), p + 1, i) == NextAt(ns, Pred(ns, p + 1, i), i) + 1
  {
    var u := Pred(ns, p + 1, i);
    PredSkips(ns, p + 1, i);
    NextAtFrom(ns, u, p, i);
    SpliceNext(ns, p, nd, u, i);
    SpliceShifts(ns, p, nd, p, i);
  }

  /**
   * `up[j]` is the level-j predecessor of position `p + 1` in `before` for
   * every j up to `lvl`, and in `after` it points at the node at `p + 1`,
   * which points at what `up[j]` pointed at in `before`.
   */
  ghost predicate Relinked(before: seq<SkipNode>, after: seq<SkipNode>, p: nat, up: seq<nat>, lvl: nat)
  {
    && p < |before| + 1 <= |after|
    && lvl < |up|
    && forall j | 0 <= j <= lvl ::
         && up[j] == Pred(before, p + 1, j)
         && NextAt(after, up[j], j) == p + 1
         && NextAt(after, p + 1, j) == NextAt(before, up[j], j) + 1
  }

  /** The splice relinks every level of the new node through the recorded predecessors `up`. */
  lemma RelinkAll(ns: seq<SkipNode>, p: nat, nd: SkipNode, up: seq<nat>)
    requires p <= |ns| && nd.level < |up|
    requires forall j | 0 <= j <= nd.level :: up[j] == Pred(ns, p + 1, j)
    ensures Relinked(ns, Spliced(ns, p, nd), p, up, nd.level)
  {
    forall j | 0 <= j <= nd.level
      ensures NextAt(Spliced(ns, p, nd), up[j], j) == p + 1
      ensures NextAt(Spliced(ns, p, nd), p + 1, j) == NextAt(ns, up[j], j) + 1
    {
      SpliceRelinks(ns, p, nd, j);
    }
  }

  /** The first node at or after `q` is past every key below `k`; `k` sits at `LowerBound`. */
  lemma FoundAtLowerBound(ns: seq<SkipNode>, k: Key)
    requires StrictlySorted(ns)
    ensures k in Content(ns) <==> LowerBound(ns, k) < |ns| && ns[LowerBound(ns, k)].key == k
    ensures k in Content(ns) ==> Content(ns)[k] == ns[LowerBound(ns, k)].value
  {
    var p := LowerBound(ns, k);
    LowerBoundSplits(ns, k);
    ContentKeys(ns, k);
    if k in Content(ns) {
      var j :| 0 <= j < |ns| && ns[j].key == k;
      LtIrreflexive(k);
      ContentAt(ns, p);
    }
  }

  /** Changing the value of one node of a strictly sorted chain changes only its key's entry. */
  lemma ContentOverwrite(ns: seq<SkipNode>, p: nat, v: Value)
    requires StrictlySorted(ns) && p < |ns|
    ensures Content(ns[p := ns[p].(value := v)]) == Content(ns)[ns[p].key := v]
  {
    var nd := ns[p].(value := v);
    var a, b := ns[..p], ns[p + 1..];
    assert ns == a + [ns[p]] + b;
    assert ns[p := nd] == a + [nd] + b;
    ContentMiddle(a, ns[p], b);
    ContentMiddle(a, nd, b);
    KeyAbsentAfter(ns, p);
    UnionUpdate(Content(a), Content(b), nd.key, v);
    UnionUpdate(Content(a), Content(b), nd.key, ns[p].value);
  }

  /** The pairs of a chain with one node in the middle. */
  lemma ContentMiddle(a: seq<SkipNode>, x: SkipNode, b: seq<SkipNode>)
    ensures Content(a + [x] + b) == Content(a)[x.key := x.value] + Content(b)
  {
    ContentAppend(a + [x], b);
    assert (a + [x])[..|a|] == a;
  }

  /** On a strictly sorted chain no node after position p carries the key at p. */
  lemma KeyAbsentAfter(ns: seq<SkipNode>, p: nat)
    requires StrictlySorted(ns) && p < |ns|
    ensures ns[p].key !in Content(ns[p + 1..])
  {
    var b := ns[p + 1..];
    forall j | 0 <= j < |b| ensures b[j].key != ns[p].key {
      assert b[j] == ns[p + 1 + j];
      LtIrreflexive(ns[p].key);
    }
    ContentKeys(b, ns[p].key);
  }

  /** A node whose key lies strictly between its neighbours keeps the chain strictly sorted. */
  lemma SplicedSorted(ns: seq<SkipNode>, p: nat, nd: SkipNode)
    requires StrictlySorted(ns) && p <= |ns|
    requires forall j | 0 <= j < p :: Lt(ns[j].key, nd.key)
    requires forall j | p <= j < |ns| :: Lt(nd.key, ns[j].key)
    ensures StrictlySorted(Spliced(ns, p, nd))
  {
    var r := Spliced(ns, p, nd);
    forall a, b | 0 <= a < b < |r| ensures Lt(r[a].key, r[b].key) {
      if b < p {
      } else if a < p && b == p {
      } else if a < p {
        assert r[b] == ns[b - 1];
      } else if a == p {
        assert r[b] == ns[b - 1];
      } else {
        assert r[a] == ns[a - 1] && r[b] == ns[b - 1];
      }
    }
  }

  /** Splicing in a node whose key is absent adds exactly its pair. */
  lemma ContentSpliced(ns: seq<SkipNode>, p: nat, nd: SkipNode)
    requires p <= |ns| && nd.key !in Content(ns)
    ensures Content(Spliced(ns, p, nd)) == Content(ns)[nd.key := nd.value]
  {
    var a, b := ns[..p], ns[p..];
    assert Spliced(ns, p, nd) == (a + [nd]) + b;
    assert ns == a + b;
    ContentAppend(a + [nd], b);
    ContentAppend(a, b);
    assert (a + [nd])[..|a + [nd]| - 1] == a;
    var ca, cb := Content(a), Content(b);
    assert Content(a + [nd]) == ca[nd.key := nd.value];
    UnionUpdate(ca, cb, nd.key, nd.value);
  }

  /** Splicing in a node no higher than `top` keeps every level at most `top`. */
  lemma SplicedLevels(ns: seq<SkipNode>, p: nat, nd: SkipNode, top: nat)
    requires p <= |ns| && nd.level <= top
    requires forall j | 0 <= j < |ns| :: ns[j].level <= top
    ensures forall j | 0 <= j < |ns| + 1 :: Spliced(ns, p, nd)[j].level <= top
  {
    var r := Spliced(ns, p, nd);
    forall j | 0 <= j < |r| ensures r[j].level <= top {
      if j > p {
        assert r[j] == ns[j - 1];
      }
    }
  }

  /** Changing a value leaves every key and level where it was. */
  lemma OverwriteKeepsShape(ns: seq<SkipNode>, p: nat, v: Value)
    requires p < |ns|
    ensures forall j | 0 <= j < |ns| ::
      ns[p := ns[p].(value := v)][j].key == ns[j].key && ns[p := ns[p].(value := v)][j].level == ns[j].level
  {
  }

  lemma OverwriteSorted(ns: seq<SkipNode>, p: nat, v: Value)
    requires p < |ns| && StrictlySorted(ns)
    ensures StrictlySorted(ns[p := ns[p].(value := v)])
  {
    OverwriteKeepsShape(ns, p, v);
  }

  lemma UnionUpdate(m1: map<Key, Value>, m2: map<Key, Value>, k: Key, v: Value)
    requires k !in m2
    ensures m1[k := v] + m2 == (m1 + m2)[k := v]
  {
  }

  /** A new key spliced in at `LowerBound` keeps the chain strictly sorted. */
  lemma SortedSpliced(ns: seq<SkipNode>, nd: SkipNode)
    requires StrictlySorted(ns) && nd.key !in Content(ns)
    ensures StrictlySorted(Spliced(ns, LowerBound(ns, nd.key), nd))
  {
    var p := LowerBound(ns, nd.key);
    LowerBoundSplits(ns, nd.key);
    ContentKeys(ns, nd.key);
    forall j | p <= j < |ns| ensures Lt(nd.key, ns[j].key) {
      LtTotal(nd.key, ns[j].key);
    }
    SplicedSorted(ns, p, nd);
  }

  class SkipList {
    const maxLevel: nat
    /** The highest level any node reaches (the header's pointers above it are all None). */
    var level: nat
    /** The level-0 chain, header excluded. */
    var nodes: seq<SkipNode>

    ghost predicate Valid()
      reads this
    {
      && level <= maxLevel
      && StrictlySorted(nodes)
      && (forall j | 0 <= j < |nodes| :: nodes[j].level <= level)
    }

    /** The key/value pairs the list holds. */
    ghost function Map(): map<Key, Value>
      reads this
    {
      Content(nodes)
    }

    constructor (maxLevel: nat)
      ensures Valid() && this.maxLevel == maxLevel
      ensures level == 0 && nodes == [] && Map() == map[]
    {
      this.maxLevel := maxLevel;
      level := 0;
      nodes := [];
    }

    /** Flips coins until tails or `maxLevel`; the coin is an unconstrained choice. */
    method RandomLevel() returns (lvl: nat)
      ensures lvl <= maxLevel
    {
      lvl := 0;
      var heads: bool :| true;
      while heads && lvl < maxLevel
        invariant lvl <= maxLevel
        decreases maxLevel - lvl
      {
        lvl := lvl + 1;
        heads :| true;
      }
    }

    /**
     * The first half of `insert`: walks down from the top level, recording in
     * `update[i]` the last position before the key's place that reaches level i.
     */
    method Descend(key: Key) returns (update: array<nat>, cur: nat)
      requires Valid()
      ensures fresh(update) && update.Length == maxLevel + 1
      ensures cur == LowerBound(nodes, key)
      ensures forall j | 0 <= j <= level :: update[j] == Pred(nodes, cur + 1, j)
    {
      ghost var p := LowerBound(nodes, key);
      LowerBoundSplits(nodes, key);
      update := new nat[maxLevel + 1];
      cur := 0;
      for i := level + 1 downto 0
        modifies update
        invariant cur <= p
        invariant cur == 0 || nodes[cur - 1].level >= i
        invariant i <= level ==> NextAt(nodes, cur, i) > p
        invariant forall j | i <= j <= level :: update[j] == Pred(nodes, p + 1, j)
      {
        cur := WalkLevel(key, i, cur);
        update[i] := cur;
      }
      assert NextAt(nodes, cur, 0) > p;
    }

    /**
     * One level of the walk down: moves right along level i while the next
     * node there has a key below `key`, and stops at the key's level-i
     * predecessor.
     */
    method WalkLevel(key: Key, i: nat, start: nat) returns (cur: nat)
      requires Valid() && start <= LowerBound(nodes, key)
      requires start == 0 || nodes[start - 1].level >= i
      ensures cur == Pred(nodes, LowerBound(nodes, key) + 1, i)
      ensures cur == 0 || nodes[cur - 1].level >= i
      ensures NextAt(nodes, cur, i) > LowerBound(nodes, key)
    {
      ghost var p := LowerBound(nodes, key);
      LowerBoundSplits(nodes, key);
      cur := start;
      while NextAt(nodes, cur, i) <= |nodes| && Lt(nodes[NextAt(nodes, cur, i) - 1].key, key)
        invariant cur <= p
        invariant cur == 0 || nodes[cur - 1].level >= i
        decreases |nodes| - cur
      {
        NextAtSkips(nodes, cur, i);
        cur := NextAt(nodes, cur, i);
      }
      PredIsLastBefore(nodes, p + 1, i, cur);
    }

    /** The levels the new node adds above the list's top have the header as their predecessor. */
    method PointAboveTop(update: array<nat>, newLevel: nat, ghost p: nat)
      requires Valid() && p <= |nodes| && level < newLevel <= maxLevel && update.Length == maxLevel + 1
      modifies update
      ensures forall j | 0 <= j <= level :: update[j] == old(update[j])
      ensures forall j | level < j <= newLevel :: update[j] == 0 == Pred(nodes, p + 1, j)
    {
      for i := level + 1 to newLevel + 1
        invariant forall j | 0 <= j <= level :: update[j] == old(update[j])
        invariant forall j | level < j < i :: update[j] == 0 == Pred(nodes, p + 1, j)
      {
        PredAboveTop(nodes, p + 1, i);
        update[i] := 0;
      }
    }

    /**
     * Overwrites the value of an existing key, or splices a new node of a
     * random level into place, raising the list's level to it if needed.
     */
    method Insert(key: Key, value: Value)
      requires Valid()
      modifies this
      ensures Valid()
      ensures Map() == old(Map())[key := value]
      ensures key in old(Map()) ==>
        level == old(level) && |nodes| == |old(nodes)| &&
        forall j | 0 <= j < |nodes| :: nodes[j].key == old(nodes)[j].key && nodes[j].level == old(nodes)[j].level
      ensures key !in old(Map()) ==>
        exists lvl: nat | lvl <= maxLevel ::
          level == (if lvl > old(level) then lvl else old(level)) &&
          nodes == Spliced(old(nodes), LowerBound(old(nodes), key), SkipNode(key, value, lvl))
    {
      var update, cur := Descend(key);
      var next := NextAt(nodes, cur, 0);
      assert next == cur + 1;
      FoundAtLowerBound(nodes, key);
      if next <= |nodes| && nodes[next - 1].key == key {
        ContentOverwrite(nodes, cur, value);
        OverwriteKeepsShape(nodes, cur, value);
        OverwriteSorted(nodes, cur, value);
        nodes := nodes[cur := nodes[cur].(value := value)];
      } else {
        AddNode(key, value, update, cur);
      }
    }

    /**
     * The second half of `insert` for a key the list does not hold: a node
     * of random level goes in at the key's place, after the level-i
     * predecessors recorded in `update`, and the list's level rises to it
     * when it is higher.
     */
    method AddNode(key: Key, value: Value, update: array<nat>, cur: nat)
      requires Valid() && cur == LowerBound(nodes, key) && key !in Map()
      requires update.Length == maxLevel + 1
      requires forall j | 0 <= j <= level :: update[j] == Pred(nodes, cur + 1, j)
      modifies this, update
      ensures Valid()
      ensures Map() == old(Map())[key := value]
      ensures exists lvl: nat | lvl <= maxLevel ::
        && level == (if lvl > old(level) then lvl else old(level))
        && nodes == Spliced(old(nodes), cur, SkipNode(key, value, lvl))
        && Relinked(old(nodes), nodes, cur, update[..], lvl)
    {
      var newLevel := RandomLevel();
      if newLevel > level {
        PointAboveTop(update, newLevel, cur);
        level := newLevel;
      }
      assert forall j | 0 <= j <= newLevel :: update[j] == Pred(nodes, cur + 1, j);
      var nd := SkipNode(key, value, newLevel);
      SortedSpliced(nodes, nd);
      ContentSpliced(nodes, cur, nd);
      SplicedLevels(nodes, cur, nd, level);
      RelinkAll(nodes, cur, nd, update[..]);
      nodes := Spliced(nodes, cur, nd);
      assert level == (if newLevel > old(level) then newLevel else old(level)) &&
        nodes == Spliced(old(nodes), cur, nd);
    }

    /** Walks down from the top level to the last key below `key`, then looks one step ahead. */
    method Search(key: Key) returns (r: Option<Value>)
      requires Valid()
      ensures r == if key in Map() then Some(Map()[key]) else None
    {
      ghost var p := LowerBound(nodes, key);
      LowerBoundSplits(nodes, key);
      var cur: nat := 0;
      for i := level + 1 downto 0
        invariant cur <= p
        invariant cur == 0 || nodes[cur - 1].level >= i
        invariant i <= level ==> NextAt(nodes, cur, i) > p
      {
        cur := WalkLevel(key, i, cur);
      }
      var next := NextAt(nodes, cur, 0);
      assert cur == p && next == p + 1;
      FoundAtLowerBound(nodes, key);
      if next <= |nodes| && nodes[next - 1].key == key {
        r := Some(nodes[next - 1].value);
      } else {
        r := None;
      }
    }
  }
}
