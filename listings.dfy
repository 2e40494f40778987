/**
 * Enumerating a set in some order, and filtering such an enumeration.
 * A .NET Dictionary enumerates its entries in an order it does not
 * specify; the model stands for that order by a "listing": a sequence
 * holding every element of the set exactly once.
 */
module Listings {

  /** The elements of a sequence, as a set. */
  function Elems<T>(xs: seq<T>): set<T> {
    set x | x in xs
  }

  /** No element occurs twice. */
  predicate Distinct<T(==)>(xs: seq<T>) {
    forall i, j :: 0 <= i < j < |xs| ==> xs[i] != xs[j]
  }

  /** `xs` enumerates `s`: each element of `s` exactly once, nothing else. */
  predicate IsListing<T(==)>(xs: seq<T>, s: set<T>) {
    Distinct(xs) && Elems(xs) == s
  }

  /** The elements of `xs` that lie in `s`, in the order of `xs` (LINQ `Where`). */
  function Within<T(==)>(xs: seq<T>, s: set<T>): (r: seq<T>)
    ensures Elems(r) == Elems(xs) * s
  {
    if xs == [] then []
    else
      assert Elems(xs) == {xs[0]} + Elems(xs[1..]);
      var head, tail := (if xs[0] in s then [xs[0]] else []), Within(xs[1..], s);
      assert Elems(head + tail) == Elems(head) + Elems(tail);
      head + tail
  }

  /** The elements of `xs` that lie outside `s`, in the order of `xs`. */
  function Without<T(==)>(xs: seq<T>, s: set<T>): (r: seq<T>)
    ensures Elems(r) == Elems(xs) - s
  {
    if xs == [] then []
    else
      assert Elems(xs) == {xs[0]} + Elems(xs[1..]);
      var head, tail := (if xs[0] !in s then [xs[0]] else []), Without(xs[1..], s);
      assert Elems(head + tail) == Elems(head) + Elems(tail);
      head + tail
  }

  /** A listing has exactly as many elements as the set it enumerates. */
  lemma {:induction false} ListingSize<T>(xs: seq<T>, s: set<T>)
    requires IsListing(xs, s)
    ensures |xs| == |s|
  {
    if xs != [] {
      var rest := xs[1..];
      assert Elems(xs) == {xs[0]} + Elems(rest);
      assert xs[0] !in Elems(rest) by {
        forall i | 0 <= i < |rest| ensures rest[i] != xs[0] {
          assert rest[i] == xs[i + 1];
        }
      }
      assert IsListing(rest, s - {xs[0]}) by {
        forall i, j | 0 <= i < j < |rest| ensures rest[i] != rest[j] {
          assert rest[i] == xs[i + 1] && rest[j] == xs[j + 1];
        }
      }
      ListingSize(rest, s - {xs[0]});
    }
  }

  /** The empty set has only the empty listing; a singleton only the one-element one. */
  lemma ListingOfSmallSet<T>(xs: seq<T>, s: set<T>)
    requires IsListing(xs, s)
    ensures s == {} ==> xs == []
    ensures forall x :: s == {x} ==> xs == [x]
  {
    ListingSize(xs, s);
    if |xs| == 1 {
      assert xs[0] in Elems(xs);
    }
  }

  /** Filtering a listing with `Within` lists the intersection. */
  lemma {:induction false} WithinListing<T>(xs: seq<T>, s: set<T>, t: set<T>)
    requires IsListing(xs, s)
    ensures IsListing(Within(xs, t), s * t)
  {
    if xs != [] {
      var rest := xs[1..];
      assert Elems(xs) == {xs[0]} + Elems(rest);
      DistinctTail(xs);
      WithinListing(rest, Elems(rest), t);
      var r := Within(xs, t);
      if xs[0] in t {
        assert r == [xs[0]] + Within(rest, t);
        assert xs[0] !in Elems(Within(rest, t));
        DistinctCons(xs[0], Within(rest, t));
      } else {
        assert r == Within(rest, t);
      }
    }
  }

  /** Filtering a listing with `Without` lists the difference. */
  lemma {:induction false} WithoutListing<T>(xs: seq<T>, s: set<T>, t: set<T>)
    requires IsListing(xs, s)
    ensures IsListing(Without(xs, t), s - t)
  {
    if xs != [] {
      var rest := xs[1..];
      assert Elems(xs) == {xs[0]} + Elems(rest);
      DistinctTail(xs);
      WithoutListing(rest, Elems(rest), t);
      var r := Without(xs, t);
      if xs[0] !in t {
        assert r == [xs[0]] + Without(rest, t);
        assert xs[0] !in Elems(Without(rest, t));
        DistinctCons(xs[0], Without(rest, t));
      } else {
        assert r == Without(rest, t);
      }
    }
  }

  lemma ElemsSnoc<T>(xs: seq<T>)
    requires xs != []
    ensures Elems(xs) == Elems(xs[..|xs| - 1]) + {xs[|xs| - 1]}
  {
    var init, last := xs[..|xs| - 1], xs[|xs| - 1];
    assert xs == init + [last];
    forall x ensures x in Elems(xs) <==> x in Elems(init) || x == last {
      if x in Elems(xs) && x != last {
        var k :| 0 <= k < |xs| && xs[k] == x;
        assert k < |init| && init[k] == x;
      }
    }
  }

  lemma DistinctTail<T>(xs: seq<T>)
    requires Distinct(xs) && xs != []
    ensures Distinct(xs[1..]) && xs[0] !in Elems(xs[1..])
  {
    var rest := xs[1..];
    forall i | 0 <= i < |rest| ensures rest[i] != xs[0] {
      assert rest[i] == xs[i + 1];
    }
    forall i, j | 0 <= i < j < |rest| ensures rest[i] != rest[j] {
      assert rest[i] == xs[i + 1] && rest[j] == xs[j + 1];
    }
  }

  lemma DistinctCons<T>(x: T, xs: seq<T>)
    requires Distinct(xs) && x !in Elems(xs)
    ensures Distinct([x] + xs)
  {
    var ys := [x] + xs;
    forall i, j | 0 <= i < j < |ys| ensures ys[i] != ys[j] {
      assert ys[j] == xs[j - 1];
      if i > 0 {
        assert ys[i] == xs[i - 1];
      } else {
        assert xs[j - 1] in Elems(xs);
      }
    }
  }

  /**
   * Enumerates a set in an order the model leaves open, as a .NET
   * Dictionary does with its keys.
   */
  method Enumerate<T(==)>(s: set<T>) returns (xs: seq<T>)
    ensures IsListing(xs, s)
  {
    xs := [];
    var rest := s;
    while rest != {}
      invariant rest <= s
      invariant Distinct(xs)
      invariant Elems(xs) == s - rest
      decreases rest
    {
      var x :| x in rest;
      assert x !in Elems(xs);
      forall i | 0 <= i < |xs| ensures xs[i] != x {
        assert xs[i] in Elems(xs);
      }
      assert Elems(xs + [x]) == Elems(xs) + {x};
      xs := xs + [x];
      rest := rest - {x};
    }
  }
}
