// Sums and cardinalities over finite sets, shared by the optimality proofs.
module FiniteSums {

  /** The sum of `f` over the elements of `s`. */
  ghost function Sum<T(!new)>(s: set<T>, f: T -> int): int {
    if s == {} then 0
    else
      var x :| x in s;
      f(x) + Sum(s - {x}, f)
  }

  /** Any element may be taken out first. */
  lemma {:induction false} SumRemove<T(!new)>(s: set<T>, f: T -> int, x: T)
    requires x in s
    ensures Sum(s, f) == f(x) + Sum(s - {x}, f)
    decreases s
  {
    var y :| y in s && Sum(s, f) == f(y) + Sum(s - {y}, f);
    if y != x {
      SumRemove(s - {y}, f, x);
      SumRemove(s - {x}, f, y);
      assert s - {y} - {x} == s - {x} - {y};
    }
  }

  lemma {:induction false} SumUnion<T(!new)>(a: set<T>, b: set<T>, f: T -> int)
    requires a !! b
    ensures Sum(a + b, f) == Sum(a, f) + Sum(b, f)
    decreases a
  {
    if a == {} {
      assert a + b == b;
    } else {
      var x :| x in a;
      SumRemove(a, f, x);
      SumRemove(a + b, f, x);
      assert a + b - {x} == (a - {x}) + b;
      SumUnion(a - {x}, b, f);
    }
  }

  lemma {:induction false} SumBounds<T(!new)>(s: set<T>, f: T -> int, lo: int, hi: int)
    requires forall x :: x in s ==> lo <= f(x) <= hi
    ensures lo * |s| <= Sum(s, f) <= hi * |s|
    decreases s
  {
    if s != {} {
      var x :| x in s;
      SumRemove(s, f, x);
      SumBounds(s - {x}, f, lo, hi);
      var k := |s - {x}|;
      assert |s| == k + 1;
      Distribute(lo, k);
      Distribute(hi, k);
    }
  }

  lemma Distribute(a: int, k: int)
    ensures a * (k + 1) == a * k + a
  {
  }

  /** A set that holds every negative term and no positive one has the least sum. */
  lemma SumLeast<T(!new)>(best: set<T>, other: set<T>, f: T -> int)
    requires forall x :: x in best ==> f(x) <= 0
    requires forall x :: x in other && x !in best ==> 0 <= f(x)
    ensures Sum(best, f) <= Sum(other, f)
  {
    var common := best * other;
    SumUnion(common, best - common, f);
    SumUnion(common, other - common, f);
    assert common + (best - common) == best && common + (other - common) == other;
    SumSign(best - common, f, false);
    SumSign(other - common, f, true);
  }

  lemma {:induction false} SumSign<T(!new)>(s: set<T>, f: T -> int, nonnegative: bool)
    requires forall x :: x in s ==> if nonnegative then 0 <= f(x) else f(x) <= 0
    ensures if nonnegative then 0 <= Sum(s, f) else Sum(s, f) <= 0
    decreases s
  {
    if s != {} {
      var x :| x in s;
      SumRemove(s, f, x);
      SumSign(s - {x}, f, nonnegative);
    }
  }

  /** Summing `g` after an injective projection is summing `g` over the image. */
  lemma {:induction false} SumReindex<A(!new), B(!new)>(s: set<A>, p: A -> B, image: set<B>, f: A -> int, g: B -> int)
    requires forall x :: x in s ==> p(x) in image && f(x) == g(p(x))
    requires forall y :: y in image ==> exists x :: x in s && p(x) == y
    requires forall x, y :: x in s && y in s && p(x) == p(y) ==> x == y
    ensures Sum(s, f) == Sum(image, g)
    decreases s
  {
    if s == {} {
      assert forall y :: y !in image;
    } else {
      var x :| x in s;
      SumRemove(s, f, x);
      SumRemove(image, g, p(x));
      forall y | y in image - {p(x)} ensures exists z :: z in s - {x} && p(z) == y {
        var z :| z in s && p(z) == y;
        assert z in s - {x};
      }
      SumReindex(s - {x}, p, image - {p(x)}, f, g);
    }
  }

  /** A one-to-one map cannot shrink a finite set. */
  lemma {:induction false} InjectionCard<A, B>(a: set<A>, b: set<B>, f: map<A, B>)
    requires f.Keys == a
    requires forall x :: x in a ==> f[x] in b
    requires forall x, y :: x in a && y in a && f[x] == f[y] ==> x == y
    ensures |a| <= |b|
    decreases a
  {
    if a != {} {
      var x :| x in a;
      InjectionCard(a - {x}, b - {f[x]}, f - {x});
    }
  }

  /** A set of naturals below `n` has at most `n` elements. */
  lemma {:induction false} BelowCard(s: set<nat>, n: nat)
    requires forall x :: x in s ==> x < n
    ensures |s| <= n
    decreases n
  {
    if n == 0 {
      assert forall x :: x !in s;
    } else {
      BelowCard(s - {n - 1}, n - 1);
    }
  }
}
