/**
 * Small facts about sequences and sets shared by the catalog and the
 * question generator: duplicate-free sequences, the set of elements of a
 * sequence, and listing a set in an arbitrary order (the way a Rust
 * `HashMap` or `HashSet` hands out its elements).
 */
module Collections {

  /** No element occurs twice in `s`. */
  predicate Distinct<T(==)>(s: seq<T>) {
    forall i, j :: 0 <= i < j < |s| ==> s[i] != s[j]
  }

  /** The set of elements of `s`. */
  function Elements<T(==)>(s: seq<T>): set<T> {
    set x | x in s
  }

  function Min(a: int, b: int): (m: int)
    ensures m <= a && m <= b
    ensures m == a || m == b
  {
    if a <= b then a else b
  }

  lemma ElementsSnoc<T>(s: seq<T>, x: T)
    ensures Elements(s + [x]) == Elements(s) + {x}
  {
    assert forall y :: y in s + [x] <==> y in s || y == x;
  }

  /** A sequence has at most as many distinct elements as it is long,
      and exactly as many when it is duplicate-free. */
  lemma {:induction false} ElementsSize<T>(s: seq<T>)
    ensures |Elements(s)| <= |s|
    ensures Distinct(s) ==> |Elements(s)| == |s|
  {
    if s != [] {
      var front, last := s[..|s| - 1], s[|s| - 1];
      assert s == front + [last];
      ElementsSize(front);
      ElementsSnoc(front, last);
      if Distinct(s) {
        assert Distinct(front);
        assert forall k :: 0 <= k < |front| ==> front[k] == s[k] != s[|s| - 1];
      }
    }
  }

  /** Lists the elements of `s`, each once, in an order the caller cannot
      rely on: this is how iterating over a hash-based collection and
      collecting into a vector behaves. */
  method Enumerate<T(==)>(s: set<T>) returns (xs: seq<T>)
    ensures Distinct(xs)
    ensures forall x :: x in xs <==> x in s
    ensures |xs| == |s|
  {
    xs := [];
    var rest := s;
    while rest != {}
      invariant rest <= s
      invariant forall x :: x in xs <==> x in s && x !in rest
      invariant Distinct(xs)
      invariant |xs| + |rest| == |s|
      decreases |rest|
    {
      var x :| x in rest;
      xs := xs + [x];
      rest := rest - {x};
    }
  }
}
