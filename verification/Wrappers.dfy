/** The optional value used throughout: a missing entry, a failed call, a null pointer; and the host's
    path limit. */
module Wrappers {
  datatype Option<+T> = None | Some(value: T)

  /** The size of the host's path buffers. */
  const FILENAME_MAX: nat := 4096

  /** Some member of a set. */
  method PickMember<T>(s: set<T>) returns (x: T)
    requires s != {}
    ensures x in s
  {
    x :| x in s;
  }

  function Min(a: int, b: int): int { if a < b then a else b }
}

/** Increasing sequences of numbers, as enumerations of sets. */
module Increase {
  ghost predicate Increasing(st: seq<nat>) { forall i, j :: 0 <= i < j < |st| ==> st[i] < st[j] }

  /** A set has one increasing enumeration. */
  lemma {:induction false} IncreasingUnique(x: seq<nat>, y: seq<nat>)
    requires Increasing(x) && Increasing(y)
    requires forall s: nat :: s in x <==> s in y
    ensures x == y
  {
    assert y != [] ==> y[0] in y;
    assert x != [] ==> x[0] in x;
    if x != [] {
      assert x[0] in y && y[0] in x;
      assert x[0] == y[0];
      forall s: nat ensures s in x[1..] <==> s in y[1..] {
        assert s in x <==> s in y;
        assert s in x[1..] <==> s in x && s != x[0];
        assert s in y[1..] <==> s in y && s != y[0];
      }
      IncreasingUnique(x[1..], y[1..]);
    }
  }
}

/** Products, quotients and their order. */
module Division {
  lemma DivUnique(n: int, d: int, q: int, r: int)
    requires d > 0 && 0 <= r < d && n == q * d + r
    ensures n / d == q && n % d == r
  {
    var k := n / d - q;
    assert k * d == r - n % d;
    assert k >= 1 ==> k * d >= d;
    assert k <= -1 ==> k * d <= -d;
  }

  lemma DivideProduct(q: nat, c: nat)
    requires c > 0
    ensures q * c / c == q && q * c % c == 0
  {
    DivUnique(q * c, c, q, 0);
  }

  lemma ProductOrder(a: int, b: int, c: nat)
    requires a <= b
    ensures a * c <= b * c
  {
  }

  lemma CancelLess(a: int, b: int, c: nat)
    requires a * c < b * c
    ensures a < b
  {
    if b <= a {
      ProductOrder(b, a, c);
    }
  }
}
