// Lexicographic order on integer keys, and the least element of a set under such a key.
module Lexicographic {
  predicate LexLeq(a: seq<int>, b: seq<int>) {
    a == [] || (b != [] && (a[0] < b[0] || (a[0] == b[0] && LexLeq(a[1..], b[1..]))))
  }

  lemma {:induction false} LexTotal(a: seq<int>, b: seq<int>)
    ensures LexLeq(a, b) || LexLeq(b, a)
    decreases |a|
  {
    if a != [] && b != [] {
      LexTotal(a[1..], b[1..]);
    }
  }

  lemma {:induction false} LexTransitive(a: seq<int>, b: seq<int>, c: seq<int>)
    requires LexLeq(a, b) && LexLeq(b, c)
    ensures LexLeq(a, c)
    decreases |a|
  {
    if a != [] && a[0] == b[0] == c[0] {
      LexTransitive(a[1..], b[1..], c[1..]);
    }
  }

  lemma LexStep(x: int, a: seq<int>, y: int, b: seq<int>)
    ensures LexLeq([x] + a, [y] + b) <==> x < y || (x == y && LexLeq(a, b))
  {
    assert ([x] + a)[1..] == a && ([y] + b)[1..] == b;
  }

  /** The first place where two keys differ. */
  ghost predicate DifferAt(a: seq<int>, b: seq<int>, i: nat) {
    i < |a| && i < |b| && (forall k | 0 <= k < i :: a[k] == b[k]) && a[i] != b[i]
  }

  /** Keys of one length are ordered by the first place where they differ. */
  lemma {:induction false} FirstDifferenceDecides(a: seq<int>, b: seq<int>)
    requires |a| == |b|
    ensures LexLeq(a, b) <==> a == b || exists i: nat :: DifferAt(a, b, i) && a[i] < b[i]
    decreases |a|
  {
    if a != [] {
      FirstDifferenceDecides(a[1..], b[1..]);
      if a[0] == b[0] {
        forall i: nat ensures DifferAt(a, b, i + 1) <==> DifferAt(a[1..], b[1..], i) {
          SamePrefix(a, b, i);
        }
        if i: nat :| DifferAt(a[1..], b[1..], i) && a[1..][i] < b[1..][i] {
          assert DifferAt(a, b, i + 1);
        }
        if i: nat :| DifferAt(a, b, i) && a[i] < b[i] {
          assert DifferAt(a[1..], b[1..], i - 1);
        }
        assert a[1..] == b[1..] ==> a == b;
      } else {
        assert DifferAt(a, b, 0);
        forall i: nat | DifferAt(a, b, i) ensures i == 0 {
        }
      }
    }
  }

  lemma SamePrefix(a: seq<int>, b: seq<int>, i: nat)
    requires a != [] && b != [] && a[0] == b[0]
    ensures DifferAt(a, b, i + 1) <==> DifferAt(a[1..], b[1..], i)
  {
    if DifferAt(a[1..], b[1..], i) {
      forall k | 0 <= k < i + 1 ensures a[k] == b[k] {
        assert k > 0 ==> a[1..][k - 1] == b[1..][k - 1];
      }
    }
    if DifferAt(a, b, i + 1) {
      forall k | 0 <= k < i ensures a[1..][k] == b[1..][k] {
        assert a[k + 1] == b[k + 1];
      }
    }
  }

  ghost predicate Least<K>(s: set<K>, key: K -> seq<int>, least: K) {
    least in s && forall x :: x in s ==> LexLeq(key(least), key(x))
  }

  method LeastBy<K(==)>(s: set<K>, key: K -> seq<int>) returns (least: K)
    requires s != {}
    ensures Least(s, key, least)
  {
    least :| least in s;
    LexTotal(key(least), key(least));
    var rest := s - {least};
    while rest != {}
      invariant rest <= s && Least(s - rest, key, least)
    {
      var x :| x in rest;
      LexTotal(key(least), key(x));
      LexTotal(key(x), key(x));
      if !LexLeq(key(least), key(x)) {
        forall y | y in s - rest ensures LexLeq(key(x), key(y)) {
          LexTransitive(key(x), key(least), key(y));
        }
        least := x;
      }
      rest := rest - {x};
    }
    assert s - {} == s;
  }
}
