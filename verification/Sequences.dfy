// Sequences and finite sets: facts that the proofs share, and a stable sort by an integer key.
module Sequences {
  ghost predicate Distinct<T>(s: seq<T>) { forall i, j | 0 <= i < j < |s| :: s[i] != s[j] }

  function Elements<T>(s: seq<T>): set<T> { set x | x in s }

  function Below(n: nat): (numbers: set<nat>)
    ensures |numbers| == n && forall k: nat :: k in numbers <==> k < n
  {
    if n == 0 then {} else Below(n - 1) + {n - 1}
  }

  lemma {:induction false} DistinctSize<T>(s: seq<T>)
    ensures |Elements(s)| <= |s|
    ensures |Elements(s)| == |s| <==> Distinct(s)
  {
    if s != [] {
      var last := |s| - 1;
      DistinctSize(s[..last]);
      SplitLast(s);
      assert Elements(s) == Elements(s[..last]) + {s[last]};
    }
  }

  lemma {:induction false} SubsetSize<T>(small: set<T>, large: set<T>)
    requires small <= large
    ensures |small| <= |large| && (|small| == |large| ==> small == large)
  {
    if small != {} {
      var x :| x in small;
      SubsetSize(small - {x}, large - {x});
    }
  }

  lemma TakeNext<T>(s: seq<T>, i: nat)
    requires i < |s|
    ensures s[..i + 1] == s[..i] + [s[i]]
  {
  }

  lemma AppendPrefix<T>(s: seq<T>, x: T, n: nat)
    requires n < |s|
    ensures (s + [x])[..n] == s[..n] && (s + [x])[n] == s[n]
  {
  }

  lemma SplitLast<T>(s: seq<T>)
    requires s != []
    ensures s == s[..|s| - 1] + [s[|s| - 1]]
  {
  }

  lemma EqualCounts<T(!new)>(a: multiset<T>, b: multiset<T>)
    requires forall x :: a[x] == b[x]
    ensures a == b
  {
  }

  ghost predicate SortedBy<T>(s: seq<T>, key: T -> int) {
    forall i, j | 0 <= i < j < |s| :: key(s[i]) <= key(s[j])
  }

  lemma InsertAt<T>(sorted: seq<T>, key: T -> int, k: nat, x: T)
    requires SortedBy(sorted, key) && k <= |sorted|
    requires forall j :: k <= j < |sorted| ==> key(x) < key(sorted[j])
    requires k > 0 ==> key(sorted[k - 1]) <= key(x)
    ensures SortedBy(sorted[..k] + [x] + sorted[k..], key)
    ensures multiset(sorted[..k] + [x] + sorted[k..]) == multiset(sorted) + multiset{x}
  {
    var longer := sorted[..k] + [x] + sorted[k..];
    forall i, j | 0 <= i < j < |longer| ensures key(longer[i]) <= key(longer[j]) {
      assert longer[i] == if i < k then sorted[i] else if i == k then x else sorted[i - 1];
      assert longer[j] == if j < k then sorted[j] else if j == k then x else sorted[j - 1];
      if i < k == j && i < k - 1 {
        assert key(sorted[i]) <= key(sorted[k - 1]);
      }
      if i < k < j {
        assert key(sorted[i]) <= key(sorted[j - 1]);
      }
    }
    InsertBag(sorted, k, x);
  }

  lemma InsertBag<T>(sorted: seq<T>, k: nat, x: T)
    requires k <= |sorted|
    ensures multiset(sorted[..k] + [x] + sorted[k..]) == multiset(sorted) + multiset{x}
  {
    assert sorted == sorted[..k] + sorted[k..];
  }

  lemma InsertNext<T>(s: seq<T>, i: nat, sorted: seq<T>, key: T -> int, k: nat)
    requires i < |s| && |sorted| == i && multiset(sorted) == multiset(s[..i]) && SortedBy(sorted, key) && k <= i
    requires forall j :: k <= j < |sorted| ==> key(s[i]) < key(sorted[j])
    requires k > 0 ==> key(sorted[k - 1]) <= key(s[i])
    ensures var longer := sorted[..k] + [s[i]] + sorted[k..];
            |longer| == i + 1 && multiset(longer) == multiset(s[..i + 1]) && SortedBy(longer, key)
  {
    InsertAt(sorted, key, k, s[i]);
    TakeNext(s, i);
  }

  method SortBy<T>(s: seq<T>, key: T -> int) returns (sorted: seq<T>)
    ensures multiset(sorted) == multiset(s) && |sorted| == |s| && SortedBy(sorted, key)
  {
    sorted := [];
    for i := 0 to |s|
      invariant |sorted| == i && multiset(sorted) == multiset(s[..i]) && SortedBy(sorted, key)
    {
      var k := |sorted|;
      while k > 0 && key(sorted[k - 1]) > key(s[i])
        invariant 0 <= k <= |sorted|
        invariant forall j :: k <= j < |sorted| ==> key(s[i]) < key(sorted[j])
      {
        k := k - 1;
      }
      InsertNext(s, i, sorted, key, k);
      sorted := sorted[..k] + [s[i]] + sorted[k..];
    }
    assert s[..|s|] == s;
  }
}
