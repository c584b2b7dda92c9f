/** Cyclic chains over a strictly sorted listing, as both denial-of-existence schemes build them. */
module Chains {
  import opened Ordering

  datatype Link<T> = Link(owner: T, next: T)

  /** Index x on a cycle of n entries, for at most one turn past the end. */
  function Wrap(x: nat, n: nat): nat
    requires n > 0
  {
    if x < n then x else x - n
  }

  /** Entry i points to entry i+1 and the last one back to the first. */
  ghost predicate Chained<T>(links: seq<Link<T>>, s: seq<T>) {
    && |links| == |s|
    && forall i :: 0 <= i < |s| ==> links[i].owner == s[i] && links[i].next == s[Wrap(i + 1, |s|)]
  }

  /** The gap behind entry i; behind the last one it wraps around. */
  ghost predicate InGap<T>(less: (T, T) -> bool, s: seq<T>, i: nat, x: T)
    requires i < |s|
  {
    if i + 1 < |s| then less(s[i], x) && less(x, s[i + 1])
    else less(s[i], x) || less(x, s[0])
  }

  lemma {:induction false} LastBelow<T(!new)>(less: (T, T) -> bool, s: seq<T>, x: T, n: nat) returns (i: nat)
    requires StrictTotalOrder(less) && StrictlySorted(less, s) && x !in s
    requires 0 < n <= |s| && less(s[0], x)
    ensures i < n && less(s[i], x) && (i + 1 < n ==> less(x, s[i + 1]))
  {
    if less(s[n - 1], x) {
      i := n - 1;
    } else {
      assert s[n - 1] in s && less(x, s[n - 1]);
      i := LastBelow(less, s, x, n - 1);
    }
  }

  /** Whatever is absent from the chain lies in exactly one gap. */
  lemma ExactlyOneGap<T(!new)>(less: (T, T) -> bool, s: seq<T>, x: T) returns (i: nat)
    requires StrictTotalOrder(less) && StrictlySorted(less, s) && s != [] && x !in s
    ensures i < |s| && InGap(less, s, i, x)
    ensures forall j: nat :: j < |s| && InGap(less, s, j, x) ==> j == i
  {
    assert s[0] in s;
    if less(x, s[0]) {
      i := |s| - 1;
    } else {
      i := LastBelow(less, s, x, |s|);
    }
    forall j: nat | j < |s| && InGap(less, s, j, x) ensures j == i {
      assert j > 0 ==> less(s[0], s[j]);
    }
  }

  /** Following the chain from x: the next of the entry owned by x. */
  ghost function Hop<T>(links: seq<Link<T>>, x: T): T {
    if exists i :: 0 <= i < |links| && links[i].owner == x
    then var i :| 0 <= i < |links| && links[i].owner == x; links[i].next
    else x
  }

  ghost function Follow<T>(links: seq<Link<T>>, x: T, hops: nat): T {
    if hops == 0 then x else Hop(links, Follow(links, x, hops - 1))
  }

  lemma NextIndex(i: nat, n: nat)
    requires i < n
    ensures (i + 1) % n == Wrap(i + 1, n)
  {
  }

  /** The successor of entry i, as the chain builders compute it. */
  method NextOf<T>(s: seq<T>, i: nat) returns (next: T)
    requires i < |s|
    ensures next == s[Wrap(i + 1, |s|)]
  {
    NextIndex(i, |s|);
    next := s[(i + 1) % |s|];
  }

  /** A listed element below all others is the first. */
  lemma LeastComesFirst<T(!new)>(less: (T, T) -> bool, s: seq<T>, x: T)
    requires StrictTotalOrder(less) && StrictlySorted(less, s) && x in s
    requires forall y <- s :: y == x || less(x, y)
    ensures s[0] == x
  {
    var i :| 0 <= i < |s| && s[i] == x;
    assert i > 0 ==> less(s[0], s[i]);
    assert s[0] in s;
  }

  lemma HopForward<T(!new)>(links: seq<Link<T>>, s: seq<T>, i: nat)
    requires Chained(links, s) && NoDuplicates(s) && i < |s|
    ensures Hop(links, s[i]) == s[Wrap(i + 1, |s|)]
  {
    assert links[i].owner == s[i];
    var j :| 0 <= j < |links| && links[j].owner == s[i] && Hop(links, s[i]) == links[j].next;
    assert s[j] == s[i];
  }

  /** k hops from entry i lead to entry i+k. */
  lemma {:induction false} SingleCycle<T(!new)>(links: seq<Link<T>>, s: seq<T>, i: nat, k: nat)
    requires Chained(links, s) && NoDuplicates(s) && i < |s| && k <= |s|
    ensures Follow(links, s[i], k) == s[Wrap(i + k, |s|)]
    decreases k
  {
    if k > 0 {
      SingleCycle(links, s, i, k - 1);
      HopForward(links, s, Wrap(i + k - 1, |s|));
    }
  }

  /** From any entry every other one is reached, in less than a turn. */
  lemma Reaches<T(!new)>(links: seq<Link<T>>, s: seq<T>, i: nat, j: nat) returns (k: nat)
    requires Chained(links, s) && NoDuplicates(s) && i < |s| && j < |s|
    ensures k < |s| && Follow(links, s[i], k) == s[j]
  {
    k := if j >= i then j - i else j - i + |s|;
    SingleCycle(links, s, i, k);
  }

  /** A full turn comes home and no shorter walk does, so the chain is a single cycle. */
  lemma FullTurn<T(!new)>(links: seq<Link<T>>, s: seq<T>, i: nat, k: nat)
    requires Chained(links, s) && NoDuplicates(s) && i < |s| && 0 < k <= |s|
    ensures Follow(links, s[i], k) == s[i] <==> k == |s|
  {
    SingleCycle(links, s, i, k);
  }
}
