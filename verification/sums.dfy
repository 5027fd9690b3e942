/** Sums over finite sets and the element set of a sequence: the arithmetic
    behind `len(set(xs))`, `sum(len(v) for v in d.values())` and
    `Counter(xs)`, which iterate over dictionary keys in an order the
    results do not depend on. */
module Sums {

  /** Some element of a non-empty set. */
  ghost function Pick<T>(keys: set<T>): T
    requires keys != {}
  {
    var k :| k in keys; k
  }

  /** The sum of `f` over `keys`. */
  ghost function Sum<T>(keys: set<T>, f: T -> nat): nat
    decreases keys
  {
    if keys == {} then 0
    else
      var k := Pick(keys);
      f(k) + Sum(keys - {k}, f)
  }

  /** Any element may be taken out first. */
  lemma {:induction false} SumRemove<T>(keys: set<T>, f: T -> nat, x: T)
    requires x in keys
    ensures Sum(keys, f) == f(x) + Sum(keys - {x}, f)
    decreases keys
  {
    var y := Pick(keys);
    if y != x {
      SumRemove(keys - {y}, f, x);
      SumRemove(keys - {x}, f, y);
      assert keys - {y} - {x} == keys - {x} - {y};
    }
  }

  lemma SumInsert<T>(keys: set<T>, f: T -> nat, x: T)
    requires x !in keys
    ensures Sum(keys + {x}, f) == f(x) + Sum(keys, f)
  {
    SumRemove(keys + {x}, f, x);
    assert keys + {x} - {x} == keys;
  }

  /** The sum over two distinct keys. */
  lemma SumPair<T>(a: T, b: T, f: T -> nat)
    requires a != b
    ensures Sum({a, b}, f) == f(a) + f(b)
  {
    SumRemove({a, b}, f, a);
    assert {a, b} - {a} == {b};
    SumRemove({b}, f, b);
    assert {b} - {b} == {};
  }

  /** The sum only depends on the values of `f` on `keys`. */
  lemma {:induction false} SumCongruent<T>(keys: set<T>, f: T -> nat, g: T -> nat)
    requires forall k :: k in keys ==> f(k) == g(k)
    ensures Sum(keys, f) == Sum(keys, g)
    decreases keys
  {
    if keys != {} {
      var y := Pick(keys);
      SumCongruent(keys - {y}, f, g);
    }
  }

  /** Pointwise `<=` gives `<=` of the sums, and `<` at one key gives `<`. */
  lemma {:induction false} SumMonotone<T>(keys: set<T>, f: T -> nat, g: T -> nat)
    requires forall k :: k in keys ==> f(k) <= g(k)
    ensures Sum(keys, f) <= Sum(keys, g)
    ensures (exists k :: k in keys && f(k) < g(k)) ==> Sum(keys, f) < Sum(keys, g)
    decreases keys
  {
    if keys != {} {
      var y := Pick(keys);
      SumMonotone(keys - {y}, f, g);
      if exists k :: k in keys && f(k) < g(k) {
        var k :| k in keys && f(k) < g(k);
        if k != y {
          assert k in keys - {y};
        }
      }
    }
  }

  /** A function that is zero on `keys` sums to zero. */
  lemma {:induction false} SumZero<T>(keys: set<T>, f: T -> nat)
    requires forall k :: k in keys ==> f(k) == 0
    ensures Sum(keys, f) == 0
    decreases keys
  {
    if keys != {} {
      SumZero(keys - {Pick(keys)}, f);
    }
  }

  /** A positive value at one key makes the sum positive. */
  lemma SumPositive<T>(keys: set<T>, f: T -> nat, x: T)
    requires x in keys && f(x) > 0
    ensures Sum(keys, f) > 0
  {
    SumRemove(keys, f, x);
  }

  /** Sums over disjoint sets add up. */
  lemma {:induction false} SumDisjointUnion<T>(a: set<T>, b: set<T>, f: T -> nat)
    requires a !! b
    ensures Sum(a + b, f) == Sum(a, f) + Sum(b, f)
    decreases a
  {
    if a != {} {
      var y := Pick(a);
      SumDisjointUnion(a - {y}, b, f);
      SumRemove(a + b, f, y);
      assert a + b - {y} == (a - {y}) + b;
    } else {
      assert a + b == b;
    }
  }

  /** Keys where `f` is zero do not change the sum. */
  lemma SumZeroOutside<T>(small: set<T>, big: set<T>, f: T -> nat)
    requires small <= big
    requires forall k :: k in big && k !in small ==> f(k) == 0
    ensures Sum(big, f) == Sum(small, f)
  {
    SumZero(big - small, f);
    SumDisjointUnion(small, big - small, f);
    assert small + (big - small) == big;
  }

  /** `set(xs)`. */
  function Elements<T(==)>(xs: seq<T>): set<T> {
    set x | x in xs
  }

  predicate NoDuplicates<T(==)>(xs: seq<T>) {
    forall i, j :: 0 <= i < j < |xs| ==> xs[i] != xs[j]
  }

  /** `len(set(xs)) <= len(xs)`, with equality exactly when `xs` has no duplicates. */
  lemma {:induction false} ElementsCard<T>(xs: seq<T>)
    ensures |Elements(xs)| <= |xs|
    ensures |Elements(xs)| == |xs| <==> NoDuplicates(xs)
    decreases |xs|
  {
    if |xs| > 0 {
      var t := xs[1..];
      ElementsCard(t);
      assert Elements(xs) == Elements(t) + {xs[0]};
      if xs[0] in t {
        assert Elements(xs) == Elements(t);
        var j :| 0 <= j < |t| && t[j] == xs[0];
        assert xs[0] == xs[j + 1];
      } else {
        assert xs[0] !in Elements(t);
        assert |Elements(xs)| == |Elements(t)| + 1;
        assert NoDuplicates(xs) <==> NoDuplicates(t) by {
          if NoDuplicates(t) {
            forall i, j | 0 <= i < j < |xs|
              ensures xs[i] != xs[j]
            {
              if i > 0 {
                assert xs[i] == t[i - 1] && xs[j] == t[j - 1];
              } else {
                assert xs[j] in t;
              }
            }
          }
          if NoDuplicates(xs) {
            forall i, j | 0 <= i < j < |t|
              ensures t[i] != t[j]
            {
              assert t[i] == xs[i + 1] && t[j] == xs[j + 1];
            }
          }
        }
      }
    }
  }
}
