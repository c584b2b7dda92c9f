/** Big-endian digit sequences in a fixed base, and their order. */
module Digits {
  function Pow(base: nat, n: nat): nat {
    if n == 0 then 1 else base * Pow(base, n - 1)
  }

  predicate InBase(base: nat, s: seq<nat>) {
    forall i :: 0 <= i < |s| ==> s[i] < base
  }

  function Value(base: nat, s: seq<nat>): nat {
    if s == [] then 0 else Value(base, s[..|s| - 1]) * base + s[|s| - 1]
  }

  lemma ValueAppend(base: nat, s: seq<nat>, d: nat)
    ensures Value(base, s + [d]) == Value(base, s) * base + d
  {
    assert (s + [d])[..|s|] == s;
  }

  lemma {:induction false} ValueSplit(base: nat, s: seq<nat>, t: seq<nat>)
    ensures Value(base, s + t) == Value(base, s) * Pow(base, |t|) + Value(base, t)
  {
    if t == [] {
      assert s + t == s;
    } else {
      var t', d := t[..|t| - 1], t[|t| - 1];
      ValueSplit(base, s, t');
      assert s + t == (s + t') + [d];
      ValueAppend(base, s + t', d);
      Regroup(Value(base, s), Pow(base, |t'|), base, Value(base, t'), d);
    }
  }

  lemma Regroup(a: nat, p: nat, base: nat, v: nat, d: nat)
    ensures (a * p + v) * base + d == a * (base * p) + (v * base + d)
  {
    assert (a * p + v) * base == a * p * base + v * base;
    assert a * p * base == a * (base * p);
  }

  lemma {:induction false} ValueBound(base: nat, s: seq<nat>)
    requires InBase(base, s)
    ensures Value(base, s) < Pow(base, |s|)
  {
    if s != [] {
      var s' := s[..|s| - 1];
      ValueBound(base, s');
      BoundStep(Value(base, s'), Pow(base, |s'|), base, s[|s| - 1]);
    }
  }

  lemma BoundStep(v: nat, p: nat, base: nat, d: nat)
    requires v < p && d < base
    ensures v * base + d < base * p
  {
    assert (v + 1) * base <= p * base;
  }

  lemma LeadingDigitDecides(x: nat, y: nat, p: nat, v: nat, w: nat)
    requires x < y && v < p
    ensures x * p + v < y * p + w
  {
    assert (x + 1) * p <= y * p;
  }

  /** First difference from the left, as a string comparison sees it. */
  predicate DigitsLess(s: seq<nat>, t: seq<nat>)
    requires |s| == |t|
  {
    s != [] && (s[0] < t[0] || (s[0] == t[0] && DigitsLess(s[1..], t[1..])))
  }

  /** On digit strings of one length, comparing from the left is comparing the numbers. */
  lemma {:induction false} OrderIsNumeric(base: nat, s: seq<nat>, t: seq<nat>)
    requires |s| == |t| && InBase(base, s) && InBase(base, t)
    ensures DigitsLess(s, t) <==> Value(base, s) < Value(base, t)
    ensures s == t <==> Value(base, s) == Value(base, t)
  {
    if s != [] {
      var p := Pow(base, |s| - 1);
      assert s == [s[0]] + s[1..] && t == [t[0]] + t[1..];
      ValueSplit(base, [s[0]], s[1..]);
      ValueSplit(base, [t[0]], t[1..]);
      assert Value(base, [s[0]]) == s[0] && Value(base, [t[0]]) == t[0];
      ValueBound(base, s[1..]);
      ValueBound(base, t[1..]);
      OrderIsNumeric(base, s[1..], t[1..]);
      if s[0] < t[0] {
        LeadingDigitDecides(s[0], t[0], p, Value(base, s[1..]), Value(base, t[1..]));
      } else if t[0] < s[0] {
        LeadingDigitDecides(t[0], s[0], p, Value(base, t[1..]), Value(base, s[1..]));
      }
    }
  }
}
