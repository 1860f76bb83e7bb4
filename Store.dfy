/**
 * The store (database/in_memory_db.py): an authoritative dictionary, the log
 * that can rebuild it, one active index among three that mirrors it, the set
 * of indexes ever made active, and the latency lists.
 *
 * Keys and values are strings.  The source turns a key into `str(key)` and a
 * value into `str(value)` before it stores them, but hands the raw key and
 * value to the index in `update` and to the log everywhere; for strings the
 * two are the same, so the model has one key and one value throughout.
 */
module Database {
  import opened KeyOrder
  import opened WriteAheadLog
  import opened Performance
  import B = BPlusTrees
  import A = AvlTrees
  import S = SkipLists

  /** The order of every B+ tree the store builds. */
  const Order: nat := 4
  /** The default `max_level` of a skip list. */
  const MaxLevel: nat := 16

  function Lookup(d: map<Key, Value>, k: Key): Option<Value>
  {
    if k in d then Some(d[k]) else None
  }

  /** Every leaf entry is under a key of `d`, and every pair of `d` is among the leaf entries. */
  ghost predicate BTreeHolds(es: seq<B.Entry>, d: map<Key, Value>)
  {
    && (forall e | e in es :: e.key in d)
    && (forall k | k in d :: B.Entry(k, d[k]) in es)
  }

  /** The leaf entries are exactly the pairs of `d`, one entry per key: none of them is stale or repeated. */
  ghost predicate BTreeExact(es: seq<B.Entry>, d: map<Key, Value>)
  {
    && |es| == |d|
    && (forall e | e in es :: e.key in d && d[e.key] == e.value)
    && (forall k | k in d :: B.Entry(k, d[k]) in es)
  }

  /** `_sync_data` for the B+ tree: a new tree of order 4 with every pair of `d` inserted once. */
  method BuildBTree(d: map<Key, Value>) returns (t: B.BPlusTree)
    ensures fresh(t) && t.Valid() && t.order == Order
    ensures BTreeExact(B.Entries(t.root), d)
  {
    t := new B.BPlusTree(Order);
    var rest := d.Keys;
    while rest != {}
      invariant rest <= d.Keys
      invariant fresh(t) && t.Valid() && t.order == Order
      invariant forall e | e in B.Entries(t.root) :: e.key in d && e.key !in rest && d[e.key] == e.value
      invariant forall k | k in d && k !in rest :: B.Entry(k, d[k]) in B.Entries(t.root)
      invariant |B.Entries(t.root)| + |rest| == |d|
      decreases |rest|
    {
      var k :| k in rest;
      ghost var before := B.Entries(t.root);
      t.Insert(k, d[k]);
      assert |multiset(B.Entries(t.root))| == |multiset(before)| + 1;
      rest := rest - {k};
    }
  }

  /** The pairs of `d` whose keys are not in `rest`: what a rebuild has inserted so far. */
  ghost function Done(d: map<Key, Value>, rest: set<Key>): map<Key, Value>
  {
    map k | k in d && k !in rest :: d[k]
  }

  /** Inserting the pair of one more key of `rest` extends what has been inserted. */
  lemma DoneStep(d: map<Key, Value>, rest: set<Key>, k: Key)
    requires k in rest && rest <= d.Keys
    ensures Done(d, rest - {k}) == Done(d, rest)[k := d[k]]
  {
  }

  lemma DoneAll(d: map<Key, Value>)
    ensures Done(d, {}) == d && Done(d, d.Keys) == map[]
  {
  }

  /** `_sync_data` for the AVL tree. */
  method BuildAvl(d: map<Key, Value>) returns (t: A.AvlTree)
    ensures fresh(t) && t.Valid() && A.Content(t.root) == d
  {
    DoneAll(d);
    t := new A.AvlTree();
    var rest := d.Keys;
    while rest != {}
      invariant rest <= d.Keys
      invariant fresh(t) && t.Valid()
      invariant A.Content(t.root) == Done(d, rest)
      decreases |rest|
    {
      var k :| k in rest;
      DoneStep(d, rest, k);
      t.Insert(k, d[k]);
      rest := rest - {k};
    }
  }

  /** `_sync_data` for the skip list. */
  method BuildSkipList(d: map<Key, Value>) returns (t: S.SkipList)
    ensures fresh(t) && t.Valid() && t.maxLevel == MaxLevel && t.Map() == d
  {
    DoneAll(d);
    t := new S.SkipList(MaxLevel);
    var rest := d.Keys;
    while rest != {}
      invariant rest <= d.Keys
      invariant fresh(t) && t.Valid() && t.maxLevel == MaxLevel
      invariant t.Map() == Done(d, rest)
      decreases |rest|
    {
      var k :| k in rest;
      DoneStep(d, rest, k);
      t.Insert(k, d[k]);
      rest := rest - {k};
    }
  }

  ghost predicate Ascending(r: seq<(Key, Value)>)
  {
    forall i, j | 0 <= i < j < |r| :: Lt(r[i].0, r[j].0)
  }

  /** The pairs of `d`, each once, in strictly ascending key order. */
  ghost predicate ListsInOrder(r: seq<(Key, Value)>, d: map<Key, Value>)
  {
    && |r| == |d|
    && (set p | p in r :: p.0) == d.Keys
    && (forall p | p in r :: p.0 in d && d[p.0] == p.1)
    && Ascending(r)
  }

  /** `get_all_data`: the pairs of `d` in ascending key order, the least key first. */
  function SortedItems(d: map<Key, Value>): (r: seq<(Key, Value)>)
    ensures ListsInOrder(r, d)
    decreases |d|
  {
    if |d| == 0 then
      []
    else
      var k := Least(d.Keys);
      assert (d - {k}).Keys == d.Keys - {k};
      var tail := SortedItems(d - {k});
      LeastFirst(d, k, tail);
      [(k, d[k])] + tail
  }

  /** Putting the least pair in front of the ordered rest orders the whole map. */
  lemma LeastFirst(d: map<Key, Value>, k: Key, tail: seq<(Key, Value)>)
    requires k in d && (forall x | x in d :: Le(k, x))
    requires ListsInOrder(tail, d - {k})
    ensures ListsInOrder([(k, d[k])] + tail, d)
  {
    ConsLength(d, k, tail);
    ConsKeys(d, k, tail);
    ConsValues(d, k, tail);
    forall i | 0 <= i < |tail| ensures Lt(k, tail[i].0) {
      assert tail[i] in tail;
    }
    AscendingCons((k, d[k]), tail);
  }

  lemma ConsLength(d: map<Key, Value>, k: Key, tail: seq<(Key, Value)>)
    requires k in d && |tail| == |d - {k}|
    ensures |[(k, d[k])] + tail| == |d|
  {
    assert (d - {k}).Keys == d.Keys - {k};
  }

  lemma ConsKeys(d: map<Key, Value>, k: Key, tail: seq<(Key, Value)>)
    requires k in d && (set p | p in tail :: p.0) == (d - {k}).Keys
    ensures (set p | p in [(k, d[k])] + tail :: p.0) == d.Keys
  {
    var r := [(k, d[k])] + tail;
    var s := set p | p in tail :: p.0;
    assert (set p | p in r :: p.0) == {k} + s by {
      forall x | x in (set p | p in r :: p.0) ensures x in {k} + s {
        var p :| p in r && p.0 == x;
        if p != (k, d[k]) {
          assert p in tail;
        }
      }
      forall x | x in s ensures x in (set p | p in r :: p.0) {
        var p :| p in tail && p.0 == x;
        assert p in r;
      }
      assert (k, d[k]) in r;
    }
  }

  lemma ConsValues(d: map<Key, Value>, k: Key, tail: seq<(Key, Value)>)
    requires k in d && forall p | p in tail :: p.0 in d - {k} && (d - {k})[p.0] == p.1
    ensures forall p | p in [(k, d[k])] + tail :: p.0 in d && d[p.0] == p.1
  {
    forall p | p in [(k, d[k])] + tail ensures p.0 in d && d[p.0] == p.1 {
      if p != (k, d[k]) {
        assert p in tail;
      }
    }
  }

  lemma AscendingCons(p: (Key, Value), tail: seq<(Key, Value)>)
    requires Ascending(tail) && forall i | 0 <= i < |tail| :: Lt(p.0, tail[i].0)
    ensures Ascending([p] + tail)
  {
    var r := [p] + tail;
    forall i, j | 0 <= i < j < |r| ensures Lt(r[i].0, r[j].0) {
      assert r[j] == tail[j - 1];
      if i > 0 {
        assert r[i] == tail[i - 1];
      }
    }
  }

  class InMemoryDB {
    var btree: B.BPlusTree
    var avl: A.AvlTree
    var skip: S.SkipList
    /** Every entry of the log file, oldest first: those recovered at start-up, then those appended since. */
    var wal: seq<LogEntry>
    var current: Structure
    var metrics: Metrics
    var used: set<Structure>
    var data: map<Key, Value>

    /** Each index object is well formed, with the store's order and maximum level. */
    ghost predicate IndexesValid()
      reads this, btree, avl, skip
    {
      btree.Valid() && btree.order == Order && avl.Valid() && skip.Valid() && skip.maxLevel == MaxLevel
    }

    /** The active index holds what `data` holds (the B+ tree possibly with stale entries besides). */
    ghost predicate Mirrors()
      reads this, btree, avl, skip
    {
      match current
      case BTree => BTreeHolds(B.Entries(btree.root), data)
      case Avl => A.Content(avl.root) == data
      case SkipList => skip.Map() == data
    }

    ghost predicate Valid()
      reads this, btree, avl, skip
    {
      IndexesValid() && Mirrors() && current in used && Replay(wal) == data
    }

    /** What `search` answers: the active index's own answer. */
    ghost function Answer(k: Key): Option<Value>
      reads this, btree, avl, skip
      requires IndexesValid()
    {
      match current
      case BTree => B.FirstMatch(B.Reach(btree.root, k), k)
      case Avl => avl.Search(k)
      case SkipList => Lookup(skip.Map(), k)
    }

    /** The active index holds exactly `data`, with no stale entry. */
    ghost predicate Exact()
      reads this, btree, avl, skip
    {
      match current
      case BTree => BTreeExact(B.Entries(btree.root), data)
      case Avl => A.Content(avl.root) == data
      case SkipList => skip.Map() == data
    }

    /**
     * `__init__`: empty indexes, the B+ tree active, then `_recover_from_wal`
     * over the entries the log file already holds.
     */
    constructor (persisted: seq<LogEntry>)
      ensures Valid()
      ensures wal == persisted && data == Replay(persisted)
      ensures current == BTree && used == {BTree} && metrics == NoMetrics
      ensures BTreeExact(B.Entries(btree.root), data)
      ensures avl.root == A.Nil && skip.nodes == []
    {
      btree := new B.BPlusTree(Order);
      avl := new A.AvlTree();
      skip := new S.SkipList(MaxLevel);
      wal := persisted;
      current := BTree;
      metrics := NoMetrics;
      used := {BTree};
      data := map[];
      new;
      RecoverFromWal();
    }

    /** `_recover_from_wal`: replays the log into `data`, then rebuilds the active index from it. */
    method RecoverFromWal()
      requires IndexesValid() && data == map[]
      modifies this
      ensures IndexesValid() && Exact() && data == Replay(wal)
      ensures current == BTree ==> fresh(btree)
      ensures current == Avl ==> fresh(avl)
      ensures current == SkipList ==> fresh(skip)
      ensures wal == old(wal) && current == old(current) && used == old(used) && metrics == old(metrics)
      ensures current != BTree ==> btree == old(btree)
      ensures current != Avl ==> avl == old(avl)
      ensures current != SkipList ==> skip == old(skip)
    {
      var ops := wal;
      var d := data;
      for i := 0 to |ops|
        invariant d == Replay(ops[..i])
      {
        assert ops[..i + 1][..i] == ops[..i];
        match ops[i]
        case LogInsert(k, v) =>
          d := d[k := v];
        case LogUpdate(k, v) =>
          d := d[k := v];
        case LogDelete(k) =>
          if k in d {
            d := d - {k};
          }
        case LogClear =>
      }
      assert ops[..|ops|] == ops;
      data := d;
      SyncData();
    }

    /** `_sync_data`: replaces the active index by a new one holding exactly `data`. */
    method SyncData()
      requires IndexesValid()
      modifies this
      ensures IndexesValid() && Exact()
      ensures current == BTree ==> fresh(btree)
      ensures current == Avl ==> fresh(avl)
      ensures current == SkipList ==> fresh(skip)
      ensures data == old(data) && wal == old(wal) && current == old(current) && used == old(used) && metrics == old(metrics)
      ensures current != BTree ==> btree == old(btree)
      ensures current != Avl ==> avl == old(avl)
      ensures current != SkipList ==> skip == old(skip)
    {
      match current
      case BTree =>
        btree := BuildBTree(data);
      case Avl =>
        avl := BuildAvl(data);
      case SkipList =>
        skip := BuildSkipList(data);
    }

    /**
     * `set_structure`: naming the active index changes nothing; naming
     * another makes it active, records it as used, and rebuilds it from
     * `data` alone.
     */
    method SetStructure(s: Structure)
      requires Valid()
      modifies this
      ensures Valid()
      ensures s == old(current) ==> unchanged(this)
      ensures s != old(current) ==>
        && current == s && used == old(used) + {s} && Exact()
        && (s == BTree ==> fresh(btree)) && (s == Avl ==> fresh(avl)) && (s == SkipList ==> fresh(skip))
        && data == old(data) && wal == old(wal) && metrics == old(metrics)
    {
      if s == current {
        return;
      }
      current := s;
      used := used + {s};
      SyncData();
    }

    /**
     * `insert`: writes the pair into `data` and into the active index,
     * records the latency and logs the insert.  A key new to the store is
     * then found with its value whichever index is active; an existing key
     * is found with its new value in the AVL tree and the skip list, while
     * the B+ tree keeps the old entry beside the new one.
     */
    method Insert(key: Key, value: Value, latency: Latency)
      requires Valid()
      modifies this, btree, avl, skip
      ensures Valid()
      ensures data == old(data)[key := value] && wal == old(wal) + [LogInsert(key, value)]
      ensures current == old(current) && used == old(used) + {current}
      ensures metrics == old(metrics).Record(current, InsertOp, latency)
      ensures btree == old(btree) && avl == old(avl) && skip == old(skip)
      ensures current != BTree ==> unchanged(btree)
      ensures current != Avl ==> unchanged(avl)
      ensures current != SkipList ==> unchanged(skip)
      ensures current == BTree ==>
        multiset(B.Entries(btree.root)) == multiset(old(B.Entries(btree.root))) + multiset{B.Entry(key, value)}
      ensures key !in old(data) || current != BTree ==> Answer(key) == Some(value)
    {
      ghost var before := data;
      Commit(data[key := value], LogInsert(key, value), InsertOp, latency);
      IndexInsert(key, value, before);
    }

    /**
     * The bookkeeping every write shares: `data` becomes `d`, the entry is
     * appended to the log, and the latency is recorded under the active
     * index, which joins the used ones.  No index is touched.
     */
    method Commit(d: map<Key, Value>, e: LogEntry, op: Op, latency: Latency)
      requires IndexesValid() && Replay(wal) == data && d == Apply(data, e)
      modifies this
      ensures IndexesValid() && Replay(wal) == data && current in used
      ensures data == d && wal == old(wal) + [e]
      ensures current == old(current) && used == old(used) + {current}
      ensures metrics == old(metrics).Record(current, op, latency)
      ensures btree == old(btree) && avl == old(avl) && skip == old(skip)
    {
      ReplayAppend(wal, e);
      data := d;
      used := used + {current};
      metrics := metrics.Record(current, op, latency);
      wal := wal + [e];
    }

    /**
     * The dispatch that `insert` and `update` share: the pair goes into the
     * active index, which held `before` and now holds `data`.
     */
    method IndexInsert(key: Key, value: Value, ghost before: map<Key, Value>)
      requires IndexesValid() && data == before[key := value]
      requires match current
        case BTree => BTreeHolds(B.Entries(btree.root), before)
        case Avl => A.Content(avl.root) == before
        case SkipList => skip.Map() == before
      modifies btree, avl, skip
      ensures IndexesValid() && Mirrors()
      ensures current != BTree ==> unchanged(btree)
      ensures current != Avl ==> unchanged(avl)
      ensures current != SkipList ==> unchanged(skip)
      ensures current == BTree ==>
        multiset(B.Entries(btree.root)) == multiset(old(B.Entries(btree.root))) + multiset{B.Entry(key, value)}
      ensures key !in before || current != BTree ==> Answer(key) == Some(value)
    {
      match current
      case BTree =>
        if key !in before {
          forall j | 0 <= j < |B.Entries(btree.root)| ensures B.Entries(btree.root)[j].key != key {
            assert B.Entries(btree.root)[j] in B.Entries(btree.root);
          }
        }
        btree.Insert(key, value);
      case Avl =>
        avl.Insert(key, value);
      case SkipList =>
        skip.Insert(key, value);
    }

    /**
     * `update`: a key the store does not hold is refused and nothing
     * changes; otherwise as `insert`, logged as an update.  The AVL tree and
     * the skip list then answer the new value; the B+ tree gains one more
     * entry for the key and goes on answering the first it holds.
     */
    method Update(key: Key, value: Value, latency: Latency) returns (ok: bool)
      requires Valid()
      modifies this, btree, avl, skip
      ensures Valid()
      ensures ok <==> key in old(data)
      ensures !ok ==> unchanged(this) && unchanged(old(btree), old(avl), old(skip))
      ensures ok ==>
        && data == old(data)[key := value] && wal == old(wal) + [LogUpdate(key, value)]
        && current == old(current) && used == old(used) + {current}
        && metrics == old(metrics).Record(current, UpdateOp, latency)
        && btree == old(btree) && avl == old(avl) && skip == old(skip)
        && (current != BTree ==> unchanged(btree) && Answer(key) == Some(value))
        && (current != Avl ==> unchanged(avl))
        && (current != SkipList ==> unchanged(skip))
        && (current == BTree ==>
             multiset(B.Entries(btree.root)) == multiset(old(B.Entries(btree.root))) + multiset{B.Entry(key, value)})
    {
      if key !in data {
        return false;
      }
      ghost var before := data;
      Commit(data[key := value], LogUpdate(key, value), UpdateOp, latency);
      IndexInsert(key, value, before);
      ok := true;
    }

    /**
     * `delete`: a key the store does not hold is refused and nothing
     * changes; otherwise the key leaves `data`, the active index is rebuilt
     * from what remains, and the delete is logged.
     */
    method Delete(key: Key, latency: Latency) returns (ok: bool)
      requires Valid()
      modifies this
      ensures Valid()
      ensures ok <==> key in old(data)
      ensures !ok ==> unchanged(this)
      ensures ok ==>
        && data == old(data) - {key} && wal == old(wal) + [LogDelete(key)]
        && current == old(current) && used == old(used) + {current}
        && metrics == old(metrics).Record(current, DeleteOp, latency)
        && Exact() && Answer(key) == None
        && (current == BTree ==> fresh(btree)) && (current == Avl ==> fresh(avl)) && (current == SkipList ==> fresh(skip))
    {
      if key !in data {
        return false;
      }
      Commit(data - {key}, LogDelete(key), DeleteOp, latency);
      SyncData();
      ok := true;
      ExactAnswers(key);
    }

    /** An index that holds exactly `data` mirrors it and answers `data`'s lookup. */
    lemma ExactAnswers(key: Key)
      requires IndexesValid() && Exact() && current in used && Replay(wal) == data
      ensures Valid() && Answer(key) == Lookup(data, key)
    {
      if current == BTree {
        var es := B.Entries(btree.root);
        B.SearchMeaning(btree.root, key);
        if key in data {
          var j :| 0 <= j < |es| && es[j] == B.Entry(key, data[key]);
          assert es[j].key == key;
        }
        var r := B.FirstMatch(B.Reach(btree.root, key), key);
        if r.Some? {
          assert B.Entry(key, r.value) in es;
        }
      }
    }

    /**
     * `search`: asks the active index and records the latency; nothing else
     * changes.  The answer is present exactly when `data` holds the key; it
     * is `data`'s value unless the B+ tree is active and holds a stale entry.
     */
    method Search(key: Key, latency: Latency) returns (r: Option<Value>)
      requires Valid()
      modifies this
      ensures Valid()
      ensures r == Answer(key)
      ensures r.Some? <==> key in data
      ensures current != BTree ==> r == Lookup(data, key)
      ensures current == BTree && BTreeExact(B.Entries(btree.root), data) ==> r == Lookup(data, key)
      ensures data == old(data) && wal == old(wal) && current == old(current) && used == old(used) + {current}
      ensures btree == old(btree) && avl == old(avl) && skip == old(skip)
      ensures metrics == old(metrics).Record(current, SearchOp, latency)
    {
      match current {
        case BTree =>
          r := btree.Search(key);
          if r.Some? {
            assert B.Entry(key, r.value) in B.Entries(btree.root);
          }
          if key in data {
            assert B.Entry(key, data[key]) in B.Entries(btree.root);
            B.SearchMeaning(btree.root, key);
          }
        case Avl =>
          r := avl.Search(key);
        case SkipList =>
          r := skip.Search(key);
      }
      used := used + {current};
      metrics := metrics.Record(current, SearchOp, latency);
    }

    /** `get_best_search_structure` over the store's latency lists. */
    method BestSearchStructure() returns (r: Option<Structure>)
      ensures r.None? <==> !AllSearched(metrics)
      ensures r.Some? ==> forall s: Structure :: Mean(metrics.Of(r.value).search) <= Mean(metrics.Of(s).search)
    {
      r := BestSearch(metrics);
    }

    /** `get_all_data`: every pair of `data`, in ascending key order. */
    function AllData(): (r: seq<(Key, Value)>)
      reads this
      ensures ListsInOrder(r, data)
    {
      SortedItems(data)
    }

    /**
     * `clear`: empties `data`, replaces all three indexes by new empty ones,
     * empties every latency list, and leaves a log holding a single `clear`.
     * The active index and the set of used indexes stay as they were.
     */
    method Clear()
      requires Valid()
      modifies this
      ensures Valid()
      ensures data == map[] && wal == [LogClear] && metrics == NoMetrics
      ensures current == old(current) && used == old(used)
      ensures fresh(btree) && fresh(avl) && fresh(skip)
      ensures btree.root == B.Leaf([]) && avl.root == A.Nil && skip.nodes == []
    {
      ReplayClear();
      var t := new B.BPlusTree(Order);
      var a := new A.AvlTree();
      var s := new S.SkipList(MaxLevel);
      btree, avl, skip := t, a, s;
      data, metrics, wal := map[], NoMetrics, [LogClear];
    }
  }
}
