/** Stable sorting by a comparison, and the order of strings by code units. */
module Sorting {

  ghost predicate IsTotal<T(!new)>(le: (T, T) -> bool) { forall x, y :: le(x, y) || le(y, x) }

  ghost predicate IsTransitive<T(!new)>(le: (T, T) -> bool) {
    forall x, y, z :: le(x, y) && le(y, z) ==> le(x, z)
  }

  function Insert<T>(x: T, xs: seq<T>, le: (T, T) -> bool): seq<T> {
    if xs == [] || le(x, xs[0]) then [x] + xs else [xs[0]] + Insert(x, xs[1..], le)
  }

  /** `toSorted` with the comparison `le`; equal elements keep their order. */
  function Sort<T>(xs: seq<T>, le: (T, T) -> bool): seq<T> {
    if xs == [] then [] else Insert(xs[0], Sort(xs[1..], le), le)
  }

  lemma {:induction false} InsertPermutes<T>(x: T, xs: seq<T>, le: (T, T) -> bool)
    ensures multiset(Insert(x, xs, le)) == multiset([x] + xs)
  {
    if xs != [] && !le(x, xs[0]) {
      InsertPermutes(x, xs[1..], le);
      assert xs == [xs[0]] + xs[1..];
    }
  }

  /** Sorting loses and adds nothing. */
  lemma {:induction false} SortPermutes<T>(xs: seq<T>, le: (T, T) -> bool)
    ensures multiset(Sort(xs, le)) == multiset(xs) && |Sort(xs, le)| == |xs|
  {
    if xs != [] {
      SortPermutes(xs[1..], le);
      InsertPermutes(xs[0], Sort(xs[1..], le), le);
      assert xs == [xs[0]] + xs[1..];
      assert |multiset(Sort(xs, le))| == |multiset(xs)|;
    }
  }

  lemma SameMembers<T>(xs: seq<T>, ys: seq<T>)
    requires multiset(xs) == multiset(ys)
    ensures forall x :: x in xs <==> x in ys
  {
    assert forall x :: x in xs <==> x in multiset(xs);
  }

  /** The first element of a sorted list is a least one. */
  lemma {:induction false} SortFirst<T(!new)>(xs: seq<T>, le: (T, T) -> bool)
    requires xs != [] && IsTotal(le) && IsTransitive(le)
    ensures var r := Sort(xs, le); r != [] && r[0] in xs && forall y :: y in xs ==> le(r[0], y)
  {
    var rest := Sort(xs[1..], le);
    assert xs == [xs[0]] + xs[1..];
    SortPermutes(xs[1..], le);
    SameMembers(rest, xs[1..]);
    if xs[1..] != [] {
      SortFirst(xs[1..], le);
    }
  }

  ghost predicate IsOrdered<T>(xs: seq<T>, le: (T, T) -> bool) { forall i, j :: 0 <= i < j < |xs| ==> le(xs[i], xs[j]) }

  lemma {:induction false} InsertOrders<T(!new)>(x: T, xs: seq<T>, le: (T, T) -> bool)
    requires IsTotal(le) && IsTransitive(le) && IsOrdered(xs, le)
    ensures IsOrdered(Insert(x, xs, le), le)
  {
    if xs != [] && !le(x, xs[0]) {
      var tail := xs[1..];
      InsertOrders(x, tail, le);
      InsertPermutes(x, tail, le);
      SameMembers(Insert(x, tail, le), [x] + tail);
      var rest := Insert(x, tail, le);
      forall j | 0 <= j < |rest| ensures le(xs[0], rest[j]) {
        assert rest[j] in rest && rest[j] in [x] + tail;
      }
    }
  }

  /** A sorted list is in order. */
  lemma {:induction false} SortOrders<T(!new)>(xs: seq<T>, le: (T, T) -> bool)
    requires IsTotal(le) && IsTransitive(le)
    ensures IsOrdered(Sort(xs, le), le)
  {
    if xs != [] {
      SortOrders(xs[1..], le);
      InsertOrders(xs[0], Sort(xs[1..], le), le);
    }
  }

  // ----- strings

  predicate StringLe(a: string, b: string) {
    a == "" || (b != "" && (a[0] < b[0] || (a[0] == b[0] && StringLe(a[1..], b[1..]))))
  }

  /** At position `i` the texts part, and the first one is smaller there. */
  ghost predicate IsBelowAt(a: string, b: string, i: nat) { i < |a| && i < |b| && a[..i] == b[..i] && a[i] < b[i] }

  lemma FirstParts(a: string, b: string, i: nat)
    requires IsBelowAt(a, b, i)
    ensures a[0] == b[0] || a[0] < b[0]
  {
    if i > 0 {
      assert a[0] == a[..i][0] && b[0] == b[..i][0];
    }
  }

  /** The order compares the texts at the first character in which they differ; a prefix comes first. */
  lemma {:induction false} StringLeIsLexicographic(a: string, b: string)
    ensures StringLe(a, b) <==> a <= b || exists i: nat :: IsBelowAt(a, b, i)
  {
    if a != "" && b != "" && a[0] == b[0] {
      StringLeIsLexicographic(a[1..], b[1..]);
      assert a == [a[0]] + a[1..] && b == [b[0]] + b[1..];
      if i: nat :| IsBelowAt(a[1..], b[1..], i) {
        assert a[..i + 1] == [a[0]] + a[1..][..i] && b[..i + 1] == [b[0]] + b[1..][..i];
        assert IsBelowAt(a, b, i + 1);
      }
      if i: nat :| IsBelowAt(a, b, i) {
        assert a[1..][..i - 1] == a[..i][1..] && b[1..][..i - 1] == b[..i][1..];
        assert IsBelowAt(a[1..], b[1..], i - 1);
      }
    } else if a != "" && b != "" {
      if a[0] < b[0] {
        assert IsBelowAt(a, b, 0);
      }
      forall i: nat | IsBelowAt(a, b, i) ensures a[0] < b[0] {
        FirstParts(a, b, i);
      }
    }
  }

  lemma {:induction false} StringLeTotal(a: string, b: string)
    ensures StringLe(a, b) || StringLe(b, a)
  {
    if a != "" && b != "" {
      StringLeTotal(a[1..], b[1..]);
    }
  }

  lemma {:induction false} StringLeTransitive(a: string, b: string, c: string)
    requires StringLe(a, b) && StringLe(b, c)
    ensures StringLe(a, c)
  {
    if a != "" && a[0] == b[0] == c[0] {
      StringLeTransitive(a[1..], b[1..], c[1..]);
    }
  }

  lemma {:induction false} StringLeAntisymmetric(a: string, b: string)
    requires StringLe(a, b) && StringLe(b, a)
    ensures a == b
  {
    if a != "" {
      StringLeAntisymmetric(a[1..], b[1..]);
      assert a == [a[0]] + a[1..] && b == [b[0]] + b[1..];
    }
  }
}
