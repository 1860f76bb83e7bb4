/**
 * The store's per-structure latency lists (`performance_metrics` in
 * database/in_memory_db.py) and the choice of the fastest index for search.
 * A latency is a non-negative number of milliseconds supplied by the caller;
 * the clock that measures it is not modelled.
 */
module Performance {
  import opened KeyOrder

  /** The index kinds, named "btree", "avl" and "skip_list" in the store. */
  datatype Structure = BTree | Avl | SkipList

  const AllStructures: set<Structure> := {BTree, Avl, SkipList}

  lemma InAll(s: Structure)
    ensures s in AllStructures
  {
    match s
    case BTree =>
    case Avl =>
    case SkipList =>
  }

  /** The operations a latency is recorded under. */
  datatype Op = InsertOp | SearchOp | UpdateOp | DeleteOp

  type Latency = r: real | r >= 0.0

  /** The four latency lists of one structure. */
  datatype Samples = Samples(insert: seq<Latency>, search: seq<Latency>, update: seq<Latency>, delete: seq<Latency>)
  {
    function Of(op: Op): seq<Latency>
    {
      match op
      case InsertOp => insert
      case SearchOp => search
      case UpdateOp => update
      case DeleteOp => delete
    }

    /** Appends one latency to the list of `op`, leaving the other lists alone. */
    function Add(op: Op, t: Latency): (s: Samples)
      ensures s.Of(op) == Of(op) + [t]
      ensures forall o: Op | o != op :: s.Of(o) == Of(o)
    {
      match op
      case InsertOp => this.(insert := insert + [t])
      case SearchOp => this.(search := search + [t])
      case UpdateOp => this.(update := update + [t])
      case DeleteOp => this.(delete := delete + [t])
    }
  }

  const NoSamples := Samples([], [], [], [])

  datatype Metrics = Metrics(btree: Samples, avl: Samples, skipList: Samples)
  {
    function Of(s: Structure): Samples
    {
      match s
      case BTree => btree
      case Avl => avl
      case SkipList => skipList
    }

    /** `performance_metrics[s][op].append(t)`: one more latency in one list, every other list unchanged. */
    function Record(s: Structure, op: Op, t: Latency): (m: Metrics)
      ensures m.Of(s).Of(op) == Of(s).Of(op) + [t]
      ensures forall o: Op | o != op :: m.Of(s).Of(o) == Of(s).Of(o)
      ensures forall u: Structure | u != s :: m.Of(u) == Of(u)
    {
      match s
      case BTree => this.(btree := btree.Add(op, t))
      case Avl => this.(avl := avl.Add(op, t))
      case SkipList => this.(skipList := skipList.Add(op, t))
    }
  }

  /** Every list of every structure empty, as the store starts and as `clear` leaves it. */
  const NoMetrics := Metrics(NoSamples, NoSamples, NoSamples)

  function Sum(xs: seq<real>): real
  {
    if xs == [] then 0.0 else Sum(xs[..|xs| - 1]) + xs[|xs| - 1]
  }

  /** `sum(times) / len(times)`. */
  function Mean(xs: seq<Latency>): real
    requires |xs| > 0
  {
    Sum(xs) / |xs| as real
  }

  /** Every structure has at least one search latency. */
  ghost predicate AllSearched(m: Metrics)
  {
    forall s: Structure :: |m.Of(s).search| > 0
  }

  /** The first loop of `get_best_search_structure`: which structures have a search latency. */
  method Searched(m: Metrics) returns (w: set<Structure>)
    ensures w <= AllStructures
    ensures forall s: Structure :: s in w <==> |m.Of(s).search| > 0
  {
    var rest := AllStructures;
    w := {};
    while rest != {}
      invariant rest <= AllStructures && w <= AllStructures - rest
      invariant forall s | s in AllStructures - rest :: s in w <==> |m.Of(s).search| > 0
      decreases |rest|
    {
      var s :| s in rest;
      if |m.Of(s).search| > 0 {
        w := w + {s};
      }
      rest := rest - {s};
    }
    forall s: Structure ensures s in AllStructures - rest {
      InAll(s);
    }
  }

  /** The `min` over mean search latencies: the first minimum met in a freely chosen walk. */
  method FastestSearch(m: Metrics) returns (best: Structure)
    requires AllSearched(m)
    ensures forall s: Structure :: Mean(m.Of(best).search) <= Mean(m.Of(s).search)
  {
    var rest := AllStructures;
    var found: Option<Structure> := None;
    while rest != {}
      invariant rest <= AllStructures
      invariant found.None? <==> rest == AllStructures
      invariant found.Some? ==> forall s | s in AllStructures - rest :: Mean(m.Of(found.value).search) <= Mean(m.Of(s).search)
      decreases |rest|
    {
      var s :| s in rest;
      if found.None? || Mean(m.Of(s).search) < Mean(m.Of(found.value).search) {
        found := Some(s);
      }
      rest := rest - {s};
    }
    forall s: Structure ensures s in AllStructures - rest {
      InAll(s);
    }
    best := found.value;
  }

  /**
   * `get_best_search_structure`: nothing unless every structure has at least
   * one search latency, and otherwise a structure whose mean search latency
   * is the smallest.  The source walks a Python set of names, whose order is
   * not fixed, and keeps the first minimum it meets; the walk here chooses
   * its order freely, so which of several tied structures wins is left open.
   */
  method BestSearch(m: Metrics) returns (r: Option<Structure>)
    ensures r.None? <==> !AllSearched(m)
    ensures r.Some? ==> forall s: Structure :: Mean(m.Of(r.value).search) <= Mean(m.Of(s).search)
  {
    var w := Searched(m);
    if w != AllStructures {
      assert !(AllStructures <= w);
      return None;
    }
    forall s: Structure ensures |m.Of(s).search| > 0 {
      InAll(s);
    }
    var best := FastestSearch(m);
    r := Some(best);
  }
}
