/** `std::sort` by a byte-string key: some sorted permutation. */
module Sorting {
  import opened Bytes

  /** `operator<` of byte strings. */
  predicate LexLess(a: bytes, b: bytes) {
    if b == [] then false
    else if a == [] then true
    else a[0] < b[0] || (a[0] == b[0] && LexLess(a[1..], b[1..]))
  }

  /** The order is that of the first byte that differs, or of a proper prefix. */
  lemma {:induction false} LexLessExactly(a: bytes, b: bytes)
    ensures LexLess(a, b) <==>
            exists n: nat :: n <= |a| && n < |b| && a[..n] == b[..n] && (n == |a| || a[n] < b[n])
    decreases |a|
  {
    if b == [] {
    } else if a == [] {
      assert a[..0] == b[..0];
    } else {
      var a1, b1 := a[1..], b[1..];
      LexLessExactly(a1, b1);
      if n: nat :| a[0] == b[0] && n <= |a1| && n < |b1| && a1[..n] == b1[..n] && (n == |a1| || a1[n] < b1[n]) {
        assert a[..n + 1] == [a[0]] + a1[..n] && b[..n + 1] == [b[0]] + b1[..n];
      }
      if n: nat :| n <= |a| && n < |b| && a[..n] == b[..n] && (n == |a| || a[n] < b[n]) {
        if n > 0 {
          assert a[0] == a[..n][0] == b[..n][0] == b[0];
          assert a1[..n - 1] == a[..n][1..] && b1[..n - 1] == b[..n][1..];
        }
      }
      if a[0] < b[0] {
        assert a[..0] == b[..0];
      }
    }
  }

  lemma {:induction false} LexLessTransitive(a: bytes, b: bytes, c: bytes)
    requires !LexLess(b, a) && !LexLess(c, b)
    ensures !LexLess(c, a)
    decreases |a|
  {
    if a != [] && b != [] && c != [] && a[0] == c[0] {
      LexLessTransitive(a[1..], b[1..], c[1..]);
    }
  }

  lemma {:induction false} LexLessAsymmetric(a: bytes, b: bytes)
    requires LexLess(a, b)
    ensures !LexLess(b, a)
    decreases |a|
  {
    if a != [] && a[0] == b[0] {
      LexLessAsymmetric(a[1..], b[1..]);
    }
  }

  lemma {:induction false} LexLessTotal(a: bytes, b: bytes)
    requires !LexLess(a, b) && !LexLess(b, a)
    ensures a == b
    decreases |a|
  {
    if a != [] && b != [] {
      LexLessTotal(a[1..], b[1..]);
      assert a == [a[0]] + a[1..] && b == [b[0]] + b[1..];
    }
  }

  ghost predicate Sorted<T>(xs: seq<T>, key: T -> bytes) {
    forall i, j :: 0 <= i < j < |xs| ==> !LexLess(key(xs[j]), key(xs[i]))
  }

  method Insert<T>(xs: seq<T>, x: T, key: T -> bytes) returns (r: seq<T>)
    requires Sorted(xs, key)
    ensures Sorted(r, key)
    ensures multiset(r) == multiset(xs) + multiset{x}
  {
    hide LexLess, Sorted;
    var i := |xs|;
    while i > 0 && LexLess(key(x), key(xs[i - 1]))
      invariant 0 <= i <= |xs|
      invariant forall k :: i <= k < |xs| ==> LexLess(key(x), key(xs[k]))
    {
      i := i - 1;
    }
    r := xs[..i] + [x] + xs[i..];
    InsertedOnce(xs, x, i);
    InsertedInOrder(xs, x, i, key);
  }

  lemma InsertedOnce<T>(xs: seq<T>, x: T, i: nat)
    requires i <= |xs|
    ensures multiset(xs[..i] + [x] + xs[i..]) == multiset(xs) + multiset{x}
  {
    assert xs == xs[..i] + xs[i..];
  }

  lemma InsertedInOrder<T>(xs: seq<T>, x: T, i: nat, key: T -> bytes)
    requires Sorted(xs, key) && i <= |xs|
    requires forall k :: i <= k < |xs| ==> LexLess(key(x), key(xs[k]))
    requires i > 0 ==> !LexLess(key(x), key(xs[i - 1]))
    ensures Sorted(xs[..i] + [x] + xs[i..], key)
  {
    forall k | 0 <= k < i
      ensures !LexLess(key(x), key(xs[k]))
    {
      if k < i - 1 {
        LexLessTransitive(key(xs[k]), key(xs[i - 1]), key(x));
      }
    }
    forall k | i <= k < |xs|
      ensures !LexLess(key(xs[k]), key(x))
    {
      LexLessAsymmetric(key(x), key(xs[k]));
    }
    hide LexLess;
  }

  method SortBy<T>(xs: seq<T>, key: T -> bytes) returns (r: seq<T>)
    ensures Sorted(r, key)
    ensures multiset(r) == multiset(xs)
  {
    r := [];
    for i := 0 to |xs|
      invariant Sorted(r, key)
      invariant multiset(r) == multiset(xs[..i])
    {
      assert xs[..i + 1] == xs[..i] + [xs[i]];
      r := Insert(r, xs[i], key);
    }
    assert xs[..|xs|] == xs;
  }
}
