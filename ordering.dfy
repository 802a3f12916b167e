/**
 * Python's `sorted(list(set(xs)))` on strings: the distinct elements of `xs` in ascending
 * code-point (lexicographic) order. Python compares `str` values code point by code point,
 * a proper prefix coming first, and that is `Less` below.
 */
module Ordering {

  /** Lexicographic order on strings by code point; a proper prefix is smaller. */
  predicate Less(a: string, b: string)
    decreases |a|
  {
    if a == [] then b != []
    else if b == [] then false
    else if a[0] != b[0] then a[0] < b[0]
    else Less(a[1..], b[1..])
  }

  lemma {:induction false} LessIrreflexive(a: string)
    ensures !Less(a, a)
    decreases |a|
  {
    if a != [] {
      LessIrreflexive(a[1..]);
    }
  }

  lemma {:induction false} LessTransitive(a: string, b: string, c: string)
    requires Less(a, b) && Less(b, c)
    ensures Less(a, c)
    decreases |a|
  {
    if a != [] && a[0] == b[0] && b[0] == c[0] {
      LessTransitive(a[1..], b[1..], c[1..]);
    }
  }

  /** Any two distinct strings are ordered one way. */
  lemma {:induction false} LessTotal(a: string, b: string)
    ensures a == b || Less(a, b) || Less(b, a)
    decreases |a|
  {
    if a != [] && b != [] && a[0] == b[0] {
      LessTotal(a[1..], b[1..]);
      if a[1..] == b[1..] {
        assert a == [a[0]] + a[1..] && b == [b[0]] + b[1..];
      }
    }
  }

  lemma LessAsymmetric(a: string, b: string)
    requires Less(a, b)
    ensures !Less(b, a)
  {
    if Less(b, a) {
      LessTransitive(a, b, a);
      LessIrreflexive(a);
    }
  }

  /** Ascending with no element twice. */
  predicate StrictlySorted(xs: seq<string>) {
    forall i, j :: 0 <= i < j < |xs| ==> Less(xs[i], xs[j])
  }

  function Elements(xs: seq<string>): set<string> {
    set x | x in xs
  }

  /** The tail of a strictly sorted list holds every element but the head. */
  lemma SortedTail(xs: seq<string>)
    requires StrictlySorted(xs) && xs != []
    ensures Elements(xs[1..]) == Elements(xs) - {xs[0]}
  {
    assert Elements(xs) == {xs[0]} + Elements(xs[1..]);
    if xs[0] in Elements(xs[1..]) {
      var k :| 0 <= k < |xs| - 1 && xs[1..][k] == xs[0];
      assert Less(xs[0], xs[k + 1]);
      LessIrreflexive(xs[0]);
    }
  }

  /** A strictly sorted list holds no element twice, so its length is the number of its elements. */
  lemma {:induction false} SortedLength(xs: seq<string>)
    requires StrictlySorted(xs)
    ensures |Elements(xs)| == |xs|
  {
    if xs != [] {
      SortedLength(xs[1..]);
      SortedTail(xs);
    }
  }

  /** Inserts `x` at its place in a strictly sorted list, unless it is there already. */
  function Insert(x: string, xs: seq<string>): (r: seq<string>)
    requires StrictlySorted(xs)
    ensures StrictlySorted(r)
    ensures Elements(r) == Elements(xs) + {x}
  {
    if xs == [] then [x]
    else if x == xs[0] then xs
    else if Less(x, xs[0]) then
      assert forall j :: 0 <= j < |xs| ==> Less(x, xs[j]) by {
        forall j | 0 < j < |xs| {
          LessTransitive(x, xs[0], xs[j]);
        }
      }
      assert Elements([x] + xs) == Elements(xs) + {x};
      [x] + xs
    else
      var rest := Insert(x, xs[1..]);
      assert Less(xs[0], x) by {
        LessTotal(x, xs[0]);
      }
      assert forall y :: y in Elements(rest) ==> Less(xs[0], y);
      assert forall j :: 0 <= j < |rest| ==> rest[j] in Elements(rest);
      assert Elements([xs[0]] + rest) == {xs[0]} + Elements(rest);
      assert Elements(xs) == {xs[0]} + Elements(xs[1..]);
      [xs[0]] + rest
  }

  /** `sorted(list(set(xs)))`. */
  function SortedDistinct(xs: seq<string>): (r: seq<string>)
    ensures StrictlySorted(r)
    ensures Elements(r) == Elements(xs)
  {
    if xs == [] then []
    else
      assert Elements(xs) == Elements(xs[1..]) + {xs[0]};
      Insert(xs[0], SortedDistinct(xs[1..]))
  }

  /** A strictly sorted list is determined by its elements, so Python's unspecified set order does not matter. */
  lemma {:induction false} SortedUnique(a: seq<string>, b: seq<string>)
    requires StrictlySorted(a) && StrictlySorted(b)
    requires Elements(a) == Elements(b)
    ensures a == b
  {
    assert a != [] ==> a[0] in Elements(a);
    assert b != [] ==> b[0] in Elements(b);
    if a != [] && b != [] {
      assert a[0] in Elements(b) && b[0] in Elements(a);
      if a[0] != b[0] {
        var i :| 0 <= i < |b| && b[i] == a[0];
        var j :| 0 <= j < |a| && a[j] == b[0];
        assert i > 0 && j > 0;
        assert Less(b[0], a[0]) && Less(a[0], b[0]);
        LessAsymmetric(a[0], b[0]);
      }
      SortedTail(a);
      SortedTail(b);
      SortedUnique(a[1..], b[1..]);
    }
  }
}
