/** Go's string order, and what the library call sort.Slice / sort.Strings promises. */
module Ordering {

  /** Go compares strings byte by byte; on valid UTF-8 that is code point by code point. */
  predicate StringLess(a: string, b: string) {
    |b| > 0 && (|a| == 0 || a[0] < b[0] || (a[0] == b[0] && StringLess(a[1..], b[1..])))
  }

  /** The order is decided at the first difference; a proper prefix comes first. */
  lemma StringLessMeaning(a: string, b: string)
    ensures StringLess(a, b) <==> exists k: nat :: SplitAt(a, b, k)
  {
    if StringLess(a, b) {
      var k := FirstDifference(a, b);
    }
    if k: nat :| SplitAt(a, b, k) {
      DifferenceDecides(a, b, k);
    }
  }

  lemma {:induction false} FirstDifference(a: string, b: string) returns (k: nat)
    requires StringLess(a, b)
    ensures SplitAt(a, b, k)
  {
    if |a| == 0 || a[0] < b[0] {
      return 0;
    }
    k := FirstDifference(a[1..], b[1..]);
    assert a[..k + 1] == [a[0]] + a[1..][..k] && b[..k + 1] == [b[0]] + b[1..][..k];
    k := k + 1;
  }

  lemma {:induction false} DifferenceDecides(a: string, b: string, k: nat)
    requires SplitAt(a, b, k)
    ensures StringLess(a, b)
  {
    if k > 0 {
      assert a[0] == a[..k][0] && b[0] == b[..k][0];
      assert a[1..][..k - 1] == a[..k][1..] && b[1..][..k - 1] == b[..k][1..];
      DifferenceDecides(a[1..], b[1..], k - 1);
    }
  }

  ghost predicate SplitAt(a: string, b: string, k: nat) {
    k <= |a| && k < |b| && a[..k] == b[..k] && (k == |a| || a[k] < b[k])
  }

  ghost predicate StrictTotalOrder<T(!new)>(less: (T, T) -> bool) {
    && (forall x :: !less(x, x))
    && (forall x, y, z :: less(x, y) && less(y, z) ==> less(x, z))
    && (forall x, y :: x == y || less(x, y) || less(y, x))
  }

  ghost predicate StrictlySorted<T>(less: (T, T) -> bool, s: seq<T>) {
    forall i, j :: 0 <= i < j < |s| ==> less(s[i], s[j])
  }

  ghost function Elements<T>(s: seq<T>): set<T> {
    set x | x in s
  }

  ghost predicate NoDuplicates<T>(s: seq<T>) {
    forall i, j :: 0 <= i < j < |s| ==> s[i] != s[j]
  }

  lemma {:induction false} StringLessTransitive(a: string, b: string, c: string)
    requires StringLess(a, b) && StringLess(b, c)
    ensures StringLess(a, c)
  {
    if |a| > 0 && a[0] == b[0] == c[0] {
      StringLessTransitive(a[1..], b[1..], c[1..]);
    }
  }

  lemma {:induction false} StringLessIrreflexive(a: string)
    ensures !StringLess(a, a)
  {
    if |a| > 0 {
      StringLessIrreflexive(a[1..]);
    }
  }

  lemma {:induction false} StringLessTotal(a: string, b: string)
    ensures a == b || StringLess(a, b) || StringLess(b, a)
  {
    if |a| > 0 && |b| > 0 && a[0] == b[0] {
      StringLessTotal(a[1..], b[1..]);
      assert a == [a[0]] + a[1..] && b == [b[0]] + b[1..];
    }
  }

  lemma StringLessIsStrictTotalOrder()
    ensures StrictTotalOrder(StringLess)
  {
    forall x, y ensures !StringLess(x, x) && (x == y || StringLess(x, y) || StringLess(y, x)) {
      StringLessIrreflexive(x);
      StringLessTotal(x, y);
    }
    forall x, y, z | StringLess(x, y) && StringLess(y, z) ensures StringLess(x, z) {
      StringLessTransitive(x, y, z);
    }
  }

  /** A set has only one strictly sorted listing, so sorting forgets map iteration order. */
  lemma {:induction false} SortedListingIsUnique<T(!new)>(less: (T, T) -> bool, s: seq<T>, t: seq<T>)
    requires StrictTotalOrder(less)
    requires StrictlySorted(less, s) && StrictlySorted(less, t)
    requires Elements(s) == Elements(t)
    ensures s == t
  {
    assert |s| > 0 ==> s[0] in Elements(s);
    assert |t| > 0 ==> t[0] in Elements(t);
    if s != [] {
      var i :| 0 <= i < |t| && t[i] == s[0];
      var j :| 0 <= j < |s| && s[j] == t[0];
      assert s[0] == t[0];
      forall x ensures x in Elements(s[1..]) <==> x in Elements(t[1..]) {
        SortedTail(less, s, x);
        SortedTail(less, t, x);
      }
      SortedListingIsUnique(less, s[1..], t[1..]);
      assert s == [s[0]] + s[1..] && t == [t[0]] + t[1..];
    }
  }

  lemma SortedTail<T(!new)>(less: (T, T) -> bool, s: seq<T>, x: T)
    requires StrictTotalOrder(less) && StrictlySorted(less, s) && s != []
    ensures x in Elements(s[1..]) <==> x in Elements(s) && x != s[0]
  {
    if x in s && x != s[0] {
      var i :| 0 <= i < |s| && s[i] == x;
      assert s[1..][i - 1] == x;
    }
  }

  lemma SortedIsDistinct<T(!new)>(less: (T, T) -> bool, s: seq<T>)
    requires StrictTotalOrder(less) && StrictlySorted(less, s)
    ensures NoDuplicates(s)
  {
  }

  lemma {:induction false} DistinctCardinality<T>(s: seq<T>)
    requires NoDuplicates(s)
    ensures |Elements(s)| == |s|
  {
    if s != [] {
      var rest := s[..|s| - 1];
      DistinctCardinality(rest);
      assert s == rest + [s[|s| - 1]];
      assert Elements(s) == Elements(rest) + {s[|s| - 1]};
    }
  }

  lemma {:induction false} SubsetSize<T>(a: set<T>, b: set<T>)
    requires a <= b
    ensures |a| <= |b|
  {
    if a != {} {
      var x :| x in a;
      SubsetSize(a - {x}, b - {x});
    }
  }

  lemma InsertKeepsSorted<T(!new)>(less: (T, T) -> bool, s: seq<T>, at: nat, x: T)
    requires StrictTotalOrder(less) && StrictlySorted(less, s) && at <= |s|
    requires at > 0 ==> less(s[at - 1], x)
    requires at < |s| ==> less(x, s[at])
    ensures StrictlySorted(less, s[..at] + [x] + s[at..])
    ensures Elements(s[..at] + [x] + s[at..]) == Elements(s) + {x}
  {
    InsertKeepsOrder(less, s, at, x);
    var t := s[..at] + [x] + s[at..];
    forall y ensures y in t <==> y in s || y == x {
      assert s == s[..at] + s[at..];
    }
  }

  lemma InsertKeepsOrder<T(!new)>(less: (T, T) -> bool, s: seq<T>, at: nat, x: T)
    requires StrictTotalOrder(less) && StrictlySorted(less, s) && at <= |s|
    requires at > 0 ==> less(s[at - 1], x)
    requires at < |s| ==> less(x, s[at])
    ensures StrictlySorted(less, s[..at] + [x] + s[at..])
  {
    assert forall j :: 0 <= j < at ==> j == at - 1 || less(s[j], s[at - 1]);
    assert forall j :: at <= j < |s| ==> j == at || less(s[at], s[j]);
    var t := s[..at] + [x] + s[at..];
    forall i, j | 0 <= i < j < |t| ensures less(t[i], t[j]) {
      assert t[i] == if i < at then s[i] else if i == at then x else s[i - 1];
      assert t[j] == if j < at then s[j] else if j == at then x else s[j - 1];
    }
  }

  /** The place of x in a sorted list that does not hold it. */
  method PlaceFor<T(!new)>(less: (T, T) -> bool, s: seq<T>, x: T) returns (at: nat)
    requires StrictTotalOrder(less) && StrictlySorted(less, s) && x !in Elements(s)
    ensures at <= |s|
    ensures at > 0 ==> less(s[at - 1], x)
    ensures at < |s| ==> less(x, s[at])
  {
    at := |s|;
    while at > 0 && less(x, s[at - 1])
      invariant 0 <= at <= |s|
      invariant at < |s| ==> less(x, s[at])
    {
      at := at - 1;
    }
    assert at > 0 ==> s[at - 1] in Elements(s);
  }

  /** Ascending, repetitions allowed. */
  ghost predicate WeaklySorted<T>(less: (T, T) -> bool, s: seq<T>) {
    forall i, j :: 0 <= i < j < |s| ==> !less(s[j], s[i])
  }

  lemma InsertKeepsWeakOrder<T(!new)>(less: (T, T) -> bool, s: seq<T>, at: nat, x: T)
    requires StrictTotalOrder(less) && WeaklySorted(less, s) && at <= |s|
    requires forall j :: 0 <= j < at ==> !less(x, s[j])
    requires forall j :: at <= j < |s| ==> less(x, s[j])
    ensures WeaklySorted(less, s[..at] + [x] + s[at..])
    ensures Elements(s[..at] + [x] + s[at..]) == Elements(s) + {x}
  {
    var t := s[..at] + [x] + s[at..];
    forall i, j | 0 <= i < j < |t| ensures !less(t[j], t[i]) {
      assert t[i] == if i < at then s[i] else if i == at then x else s[i - 1];
      assert t[j] == if j < at then s[j] else if j == at then x else s[j - 1];
    }
    forall y ensures y in t <==> y in s || y == x {
      assert s == s[..at] + s[at..];
    }
  }

  lemma {:induction false} ElementsBound<T>(s: seq<T>)
    ensures |Elements(s)| <= |s|
  {
    if s != [] {
      var rest := s[..|s| - 1];
      ElementsBound(rest);
      assert s == rest + [s[|s| - 1]];
      assert Elements(s) == Elements(rest) + {s[|s| - 1]};
    }
  }

  /** A weakly sorted listing with as many places as elements repeats none. */
  lemma {:induction false} FullListingIsStrict<T(!new)>(less: (T, T) -> bool, s: seq<T>)
    requires StrictTotalOrder(less) && WeaklySorted(less, s) && |Elements(s)| == |s|
    ensures StrictlySorted(less, s)
  {
    if s != [] {
      var rest, x := s[..|s| - 1], s[|s| - 1];
      assert s == rest + [x];
      assert Elements(s) == Elements(rest) + {x};
      ElementsBound(rest);
      assert x in Elements(rest) ==> Elements(rest) + {x} == Elements(rest);
      FullListingIsStrict(less, rest);
      forall i | 0 <= i < |rest| ensures less(s[i], x) {
        assert rest[i] in Elements(rest);
      }
    }
  }

  /** Go's sort.Slice on a slice collected from a map: the keys, each once, in ascending order. */
  method SortKeys<T(!new, ==)>(less: (T, T) -> bool, keys: set<T>) returns (sorted: seq<T>)
    requires StrictTotalOrder(less)
    ensures StrictlySorted(less, sorted)
    ensures Elements(sorted) == keys
  {
    sorted := [];
    var rest := keys;
    while rest != {}
      invariant StrictlySorted(less, sorted)
      invariant rest <= keys && Elements(sorted) == keys - rest
      decreases rest
    {
      var x :| x in rest;
      rest := rest - {x};
      var at := PlaceFor(less, sorted, x);
      InsertKeepsSorted(less, sorted, at, x);
      sorted := sorted[..at] + [x] + sorted[at..];
    }
  }
}
