/**
 * Keys and values of the store, and the order the indexes compare keys by.
 *
 * The store normalises every key and value to a string before it reaches an
 * index, so keys are strings and the order is Python's `<` on `str`:
 * lexicographic by code point, a proper prefix being smaller.
 */
module KeyOrder {

  type Key = string
  type Value = string

  datatype Option<T> = None | Some(value: T)

  /** Python's `a < b` on strings. */
  predicate Lt(a: Key, b: Key)
    decreases |a|
  {
    if |a| == 0 then |b| > 0
    else if |b| == 0 then false
    else if a[0] != b[0] then a[0] < b[0]
    else Lt(a[1..], b[1..])
  }

  /** Python's `a <= b` on strings. */
  predicate Le(a: Key, b: Key)
  {
    a == b || Lt(a, b)
  }

  lemma {:induction false} LtIrreflexive(a: Key)
    ensures !Lt(a, a)
    decreases |a|
  {
    if |a| > 0 {
      LtIrreflexive(a[1..]);
    }
  }

  lemma {:induction false} LtTransitive(a: Key, b: Key, c: Key)
    requires Lt(a, b) && Lt(b, c)
    ensures Lt(a, c)
    decreases |a|
  {
    if |a| > 0 && a[0] == b[0] && b[0] == c[0] {
      LtTransitive(a[1..], b[1..], c[1..]);
    }
  }

  /** Any two strings are equal or ordered one way. */
  lemma {:induction false} LtTotal(a: Key, b: Key)
    ensures a == b || Lt(a, b) || Lt(b, a)
    decreases |a|
  {
    if |a| > 0 && |b| > 0 && a[0] == b[0] {
      LtTotal(a[1..], b[1..]);
      if a[1..] == b[1..] {
        assert a == [a[0]] + a[1..] && b == [b[0]] + b[1..];
      }
    }
  }

  lemma {:induction false} LtAsymmetric(a: Key, b: Key)
    requires Lt(a, b)
    ensures !Lt(b, a)
  {
    if Lt(b, a) {
      LtTransitive(a, b, a);
      LtIrreflexive(a);
    }
  }

  lemma LeTransitive(a: Key, b: Key, c: Key)
    requires Le(a, b) && Le(b, c)
    ensures Le(a, c)
  {
    if a != b && b != c {
      LtTransitive(a, b, c);
    }
  }

  lemma LeNotLt(a: Key, b: Key)
    requires Le(a, b)
    ensures !Lt(b, a)
  {
    if a == b {
      LtIrreflexive(a);
    } else {
      LtAsymmetric(a, b);
    }
  }

  lemma LeAntisymmetric(a: Key, b: Key)
    requires Le(a, b) && Le(b, a)
    ensures a == b
  {
    if a != b {
      LtAsymmetric(a, b);
    }
  }

  /** Python's `a >= b` is `not a < b`, because the order is total. */
  lemma NotLtIsLe(a: Key, b: Key)
    ensures !Lt(a, b) <==> Le(b, a)
  {
    LtTotal(a, b);
    if Lt(b, a) {
      LtAsymmetric(b, a);
    }
    if a == b {
      LtIrreflexive(a);
    }
  }

  /** A least element of a non-empty set, found by taking one out and comparing it with the least of the rest. */
  ghost function LeastOf(s: set<Key>): (m: Key)
    requires s != {}
    ensures m in s && forall x | x in s :: Le(m, x)
    decreases |s|
  {
    var y :| y in s;
    if s - {y} == {} then
      SingleLeast(s, y);
      y
    else
      var m := LeastOf(s - {y});
      LtTotal(m, y);
      var w := if Lt(y, m) then y else m;
      LeastOfTwo(s, s - {y}, y, m, w);
      w
  }

  lemma SingleLeast(s: set<Key>, y: Key)
    requires y in s && s - {y} == {}
    ensures forall x | x in s :: Le(y, x)
  {
    forall x | x in s ensures Le(y, x) {
      assert x !in s - {y};
    }
  }

  /** The smaller of the element taken out and the least of the rest is least in the whole set. */
  lemma LeastOfTwo(s: set<Key>, t: set<Key>, y: Key, m: Key, w: Key)
    requires t == s - {y} && y in s && m in t && forall x | x in t :: Le(m, x)
    requires w == y || w == m
    requires Le(w, y) && Le(w, m)
    ensures w in s && forall x | x in s :: Le(w, x)
  {
    forall x | x in s ensures Le(w, x) {
      if x != y {
        LeTransitive(w, m, x);
      }
    }
  }

  /** The least key of a non-empty set. */
  function Least(s: set<Key>): (m: Key)
    requires s != {}
    ensures m in s && forall x | x in s :: Le(m, x)
  {
    ghost var w := LeastOf(s);
    LeastUnique(s);
    var m :| m in s && forall x | x in s :: Le(m, x);
    m
  }

  /** Two least elements are equal, since the order is antisymmetric. */
  lemma LeastUnique(s: set<Key>)
    ensures forall a, b | a in s && b in s && (forall x | x in s :: Le(a, x)) && (forall x | x in s :: Le(b, x)) :: a == b
  {
    forall a, b | a in s && b in s && (forall x | x in s :: Le(a, x)) && (forall x | x in s :: Le(b, x)) ensures a == b {
      LeAntisymmetric(a, b);
    }
  }
}
