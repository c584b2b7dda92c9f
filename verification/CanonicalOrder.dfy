/** Domain names as lower-case label sequences, leftmost label first, in the canonical order of
    section 6.1 of RFC 4034. */
module CanonicalOrder {
  import opened Ordering

  type Name = seq<string>

  /** Labels are compared from the right; a name that runs out of labels sorts first. */
  predicate NameLess(a: Name, b: Name) {
    if a == [] || b == [] then |a| < |b|
    else if a[|a| - 1] == b[|b| - 1] then NameLess(a[..|a| - 1], b[..|b| - 1])
    else StringLess(a[|a| - 1], b[|b| - 1])
  }

  /** name is apex or lies below it. */
  predicate InZone(apex: Name, name: Name) {
    |apex| <= |name| && name[|name| - |apex|..] == apex
  }

  /** A name is in the zone exactly if it is the apex with any labels in front. */
  lemma InZoneMeaning(apex: Name, name: Name)
    ensures InZone(apex, name) <==> exists labels: Name :: name == labels + apex
  {
    if InZone(apex, name) {
      assert name == name[..|name| - |apex|] + apex;
    }
  }

  /** The comparison loop of the signer. */
  method CanonicalLess(a: Name, b: Name) returns (less: bool)
    ensures less <==> NameLess(a, b)
  {
    var ai, bi := |a| - 1, |b| - 1;
    assert a[..ai + 1] == a && b[..bi + 1] == b;
    while ai >= 0 && bi >= 0
      invariant -1 <= ai < |a| && -1 <= bi < |b| && |a| - ai == |b| - bi
      invariant NameLess(a[..ai + 1], b[..bi + 1]) == NameLess(a, b)
      decreases ai
    {
      assert a[..ai + 1][..ai] == a[..ai] && b[..bi + 1][..bi] == b[..bi];
      if a[ai] == b[bi] {
        ai, bi := ai - 1, bi - 1;
        continue;
      }
      return StringLess(a[ai], b[bi]);
    }
    return |a| < |b|;
  }

  lemma {:induction false} NameLessIrreflexive(a: Name)
    ensures !NameLess(a, a)
  {
    if a != [] {
      NameLessIrreflexive(a[..|a| - 1]);
    }
  }

  lemma {:induction false} NameLessTransitive(a: Name, b: Name, c: Name)
    requires NameLess(a, b) && NameLess(b, c)
    ensures NameLess(a, c)
  {
    if a != [] {
      var x, y, z := a[|a| - 1], b[|b| - 1], c[|c| - 1];
      if x == y == z {
        NameLessTransitive(a[..|a| - 1], b[..|b| - 1], c[..|c| - 1]);
      } else if x != y && y != z {
        StringLessTransitive(x, y, z);
        StringLessIrreflexive(x);
        if x == z {
          StringLessTransitive(x, y, x);
        }
      }
    }
  }

  lemma {:induction false} NameLessTotal(a: Name, b: Name)
    ensures a == b || NameLess(a, b) || NameLess(b, a)
  {
    if a != [] && b != [] {
      var x, y := a[|a| - 1], b[|b| - 1];
      if x == y {
        NameLessTotal(a[..|a| - 1], b[..|b| - 1]);
        assert a == a[..|a| - 1] + [x] && b == b[..|b| - 1] + [y];
      } else {
        StringLessTotal(x, y);
      }
    }
  }

  /** The canonical order is a strict total order on names. */
  lemma NameLessIsStrictTotalOrder()
    ensures StrictTotalOrder(NameLess)
  {
    forall x, y ensures !NameLess(x, x) && (x == y || NameLess(x, y) || NameLess(y, x)) {
      NameLessIrreflexive(x);
      NameLessTotal(x, y);
    }
    forall x, y, z | NameLess(x, y) && NameLess(y, z) ensures NameLess(x, z) {
      NameLessTransitive(x, y, z);
    }
  }

  /** The label i places from the right. */
  function FromRight(a: Name, i: nat): string
    requires i < |a|
  {
    a[|a| - 1 - i]
  }

  /** The k rightmost labels agree and the next ones, if both names have one, do not. */
  ghost predicate DiffersAt(a: Name, b: Name, k: nat) {
    && k <= |a| && k <= |b|
    && (forall i: nat :: i < k ==> FromRight(a, i) == FromRight(b, i))
    && (k < |a| && k < |b| ==> FromRight(a, k) != FromRight(b, k))
  }

  /** Where two names first differ from the right decides: the order as section 6.1 states it. */
  lemma {:induction false} OrderMeaning(a: Name, b: Name, k: nat)
    requires DiffersAt(a, b, k)
    ensures NameLess(a, b) <==> if k == |a| || k == |b| then |a| < |b|
                                else StringLess(FromRight(a, k), FromRight(b, k))
  {
    if k > 0 {
      var a', b' := a[..|a| - 1], b[..|b| - 1];
      assert FromRight(a, 0) == FromRight(b, 0);
      forall i: nat | i < k - 1 ensures FromRight(a', i) == FromRight(b', i) {
        assert FromRight(a, i + 1) == FromRight(b, i + 1);
      }
      OrderMeaning(a', b', k - 1);
    }
  }

  /** A zone's apex sorts before every other name of the zone. */
  lemma {:induction false} ApexIsFirst(apex: Name, name: Name)
    requires InZone(apex, name) && name != apex
    ensures NameLess(apex, name)
  {
    assert |name| > |apex|;
    if apex != [] {
      var k := |name| - |apex|;
      assert name[k..][|apex| - 1] == apex[|apex| - 1];
      assert name[..|name| - 1][k..] == name[k..][..|apex| - 1];
      ApexIsFirst(apex[..|apex| - 1], name[..|name| - 1]);
    }
  }
}
