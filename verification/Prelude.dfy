/** Definitions shared by the other modules: optional and fallible results, and the sorted
    listings that the scripts obtain with Python's `sorted` on a set of strings. */
module Prelude {

  datatype Option<+T> = None | Some(value: T)

  datatype Result<+T, +E> = Ok(value: T) | Err(error: E)

  /** Python's `<` on strings: lexicographic by code point. */
  predicate Less(a: string, b: string) {
    if b == [] then false
    else if a == [] then true
    else a[0] < b[0] || (a[0] == b[0] && Less(a[1..], b[1..]))
  }

  lemma {:induction false} LessIsTotal(a: string, b: string)
    ensures Less(a, b) || Less(b, a) || a == b
  {
    if a != [] && b != [] && a[0] == b[0] {
      LessIsTotal(a[1..], b[1..]);
      assert a == [a[0]] + a[1..] && b == [b[0]] + b[1..];
    }
  }

  lemma {:induction false} LessIsTransitive(a: string, b: string, c: string)
    requires Less(a, b) && Less(b, c)
    ensures Less(a, c)
  {
    if a != [] && a[0] == b[0] && b[0] == c[0] {
      LessIsTransitive(a[1..], b[1..], c[1..]);
    }
  }

  lemma {:induction false} LessIsIrreflexive(a: string)
    ensures !Less(a, a)
  {
    if a != [] {
      LessIsIrreflexive(a[1..]);
    }
  }

  /** Strictly ascending: sorted and without repeats. */
  ghost predicate Ascending(xs: seq<string>) {
    forall i, j :: 0 <= i < j < |xs| ==> Less(xs[i], xs[j])
  }

  /** What `sorted(s)` returns for a set `s`. */
  ghost predicate Lists(xs: seq<string>, s: set<string>) {
    && Ascending(xs)
    && (forall x :: x in xs <==> x in s)
  }

  /** A set has only one sorted listing. */
  lemma {:induction false} ListingIsUnique(xs: seq<string>, ys: seq<string>, s: set<string>)
    requires Lists(xs, s) && Lists(ys, s)
    ensures xs == ys
  {
    EmptyListing(xs, s);
    EmptyListing(ys, s);
    if s != {} {
      HeadIsLeast(xs, s);
      HeadIsLeast(ys, s);
      assert xs[0] in s && ys[0] in s;
      assert xs[0] == ys[0] by {
        if xs[0] != ys[0] {
          LessIsTransitive(xs[0], ys[0], xs[0]);
          LessIsIrreflexive(xs[0]);
        }
      }
      TailLists(xs, s);
      TailLists(ys, s);
      ListingIsUnique(xs[1..], ys[1..], s - {xs[0]});
      assert xs == [xs[0]] + xs[1..] && ys == [ys[0]] + ys[1..];
    }
  }

  lemma EmptyListing(xs: seq<string>, s: set<string>)
    requires Lists(xs, s)
    ensures xs == [] <==> s == {}
  {
    if xs != [] {
      assert xs[0] in s;
    }
  }

  lemma HeadIsLeast(xs: seq<string>, s: set<string>)
    requires Lists(xs, s) && xs != []
    ensures forall x :: x in s && x != xs[0] ==> Less(xs[0], x)
  {
    forall x | x in s && x != xs[0] ensures Less(xs[0], x) {
      var i :| 0 <= i < |xs| && xs[i] == x;
    }
  }

  lemma TailLists(xs: seq<string>, s: set<string>)
    requires Lists(xs, s) && xs != []
    ensures Lists(xs[1..], s - {xs[0]})
  {
    LessIsIrreflexive(xs[0]);
    forall x ensures x in xs[1..] <==> x in s - {xs[0]} {
      if x in s - {xs[0]} {
        var i :| 0 <= i < |xs| && xs[i] == x;
        assert xs[1..][i - 1] == x;
      }
      if x in xs[1..] {
        var i :| 0 <= i < |xs| - 1 && xs[1..][i] == x;
        assert xs[i + 1] == x && Less(xs[0], xs[i + 1]);
      }
    }
  }

  /** `sorted(s)`: the elements may be met in any order, the listing is always the same. */
  method Sorted(s: set<string>) returns (xs: seq<string>)
    ensures Lists(xs, s)
  {
    xs := [];
    var rest := s;
    while rest != {}
      invariant rest <= s
      invariant Lists(xs, s - rest)
      decreases rest
    {
      var x :| x in rest;
      rest := rest - {x};
      xs := Insert(xs, x, s - rest - {x});
      assert s - rest == (s - rest - {x}) + {x};
    }
    assert s - rest == s;
  }

  method Insert(xs: seq<string>, x: string, ghost s: set<string>) returns (ys: seq<string>)
    requires Lists(xs, s) && x !in s
    ensures Lists(ys, s + {x})
  {
    var i := 0;
    while i < |xs| && Less(xs[i], x)
      invariant 0 <= i <= |xs|
      invariant forall k :: 0 <= k < i ==> Less(xs[k], x)
    {
      i := i + 1;
    }
    ys := xs[..i] + [x] + xs[i..];
    Inserted(xs, x, s, i);
  }

  lemma Inserted(xs: seq<string>, x: string, s: set<string>, i: nat)
    requires Lists(xs, s) && x !in s && i <= |xs|
    requires (forall k :: 0 <= k < i ==> Less(xs[k], x)) && (i < |xs| ==> !Less(xs[i], x))
    ensures Lists(xs[..i] + [x] + xs[i..], s + {x})
  {
    var ys := xs[..i] + [x] + xs[i..];
    forall k | i <= k < |xs| ensures Less(x, xs[k]) {
      assert xs[k] in s && xs[i] in s;
      LessIsTotal(xs[i], x);
      if i < k { LessIsTransitive(x, xs[i], xs[k]); }
    }
    forall y ensures y in ys <==> y in s + {x} {
      if y in s {
        var k :| 0 <= k < |xs| && xs[k] == y;
        assert ys[if k < i then k else k + 1] == y;
      }
      assert ys[i] == x;
    }
  }

  /** Every set has a sorted listing. */
  lemma {:induction false} ListingExists(s: set<string>) returns (xs: seq<string>)
    ensures Lists(xs, s)
  {
    if s == {} {
      xs := [];
    } else {
      var x :| x in s;
      var ys := ListingExists(s - {x});
      var i := 0;
      while i < |ys| && Less(ys[i], x)
        invariant 0 <= i <= |ys| && forall k :: 0 <= k < i ==> Less(ys[k], x)
      {
        i := i + 1;
      }
      Inserted(ys, x, s - {x}, i);
      xs := ys[..i] + [x] + ys[i..];
      assert s - {x} + {x} == s;
    }
  }
}
