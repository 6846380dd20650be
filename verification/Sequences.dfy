/** Sequences in general: subsequences, which are some of the elements in the same order. */
module Sequences {

  lemma Associative<T>(a: seq<T>, b: seq<T>, c: seq<T>)
    ensures a + (b + c) == a + b + c
  {
  }

  ghost predicate Subsequence<T>(a: seq<T>, b: seq<T>) {
    if a == [] then true
    else if b == [] then false
    else (a[0] == b[0] && Subsequence(a[1..], b[1..])) || Subsequence(a, b[1..])
  }

  lemma {:induction false} SubsequenceOfItself<T>(a: seq<T>)
    ensures Subsequence(a, a)
  {
    if a != [] {
      SubsequenceOfItself(a[1..]);
    }
  }

  lemma {:induction false} SubsequenceBehind<T>(a: seq<T>, x: seq<T>, b: seq<T>)
    requires Subsequence(a, b)
    ensures Subsequence(a, x + b)
  {
    if x == [] {
      assert x + b == b;
    } else {
      SubsequenceBehind(a, x[1..], b);
      assert (x + b)[1..] == x[1..] + b;
    }
  }

  lemma {:induction false} SamePrefix<T>(x: seq<T>, a: seq<T>, b: seq<T>)
    requires Subsequence(a, b)
    ensures Subsequence(x + a, x + b)
  {
    if x == [] {
      assert x + a == a && x + b == b;
    } else {
      SamePrefix(x[1..], a, b);
      assert (x + a)[1..] == x[1..] + a && (x + b)[1..] == x[1..] + b;
    }
  }

  lemma {:induction false} SameSuffix<T>(a: seq<T>, b: seq<T>, x: seq<T>)
    requires Subsequence(a, b)
    ensures Subsequence(a + x, b + x)
    decreases |b|
  {
    if a == [] {
      SubsequenceOfItself(x);
      SubsequenceBehind(x, b, x);
      assert a + x == x;
    } else {
      assert (b + x)[1..] == b[1..] + x && (a + x)[1..] == a[1..] + x;
      if Subsequence(a, b[1..]) {
        SameSuffix(a, b[1..], x);
      } else {
        SameSuffix(a[1..], b[1..], x);
      }
    }
  }

  lemma {:induction false} SubsequenceTransitive<T>(a: seq<T>, b: seq<T>, c: seq<T>)
    requires Subsequence(a, b) && Subsequence(b, c)
    ensures Subsequence(a, c)
    decreases |c|
  {
    if a != [] {
      if Subsequence(b, c[1..]) {
        SubsequenceTransitive(a, b, c[1..]);
      } else if Subsequence(a, b[1..]) {
        SubsequenceTransitive(a, b[1..], c[1..]);
      } else {
        SubsequenceTransitive(a[1..], b[1..], c[1..]);
      }
    }
  }
}
