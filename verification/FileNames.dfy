/** When two valid zones share a file name. */
module FileNames {
  import opened ZoneNames
  import opened Text
  import opened NsdConfig

  /** The part of a managed name before its final dot is clean ... */
  lemma ManagedIsClean(n: string)
    requires Managed(n)
    ensures n == TrimDot(n) + "." && Clean(TrimDot(n)) && TrimDot(n) != ""
  {
    var t := TrimDot(n);
    NormalizedForm(n);
    EndsWithDot(n);
    assert n == t + ".";
    ValidNamesArePlain(n);
    forall c | c in t ensures FileChar(c) {
      var i :| 0 <= i < |t| && t[i] == c;
      assert n[i] == c && ToLower(n)[i] == c;
    }
    var parts := SplitOn('.', t);
    forall l | l in parts[1..] ensures l != "" {
      assert l in parts;
    }
    forall i | 0 <= i < |t| && t[i] == '.' ensures i + 1 < |t| && t[i + 1] != '.' {
      NoEmptyPart('.', t, i);
    }
  }

  /** ... and is its file name, unless it is too long. */
  lemma ManagedFilename(hash: string -> string, n: string)
    requires HexHash(hash) && Managed(n)
    ensures SafeZoneFilename(hash, n) == Shorten(hash, TrimDot(n))
  {
    var t := TrimDot(n);
    ManagedIsClean(n);
    EndsWithDot(t);
    TrimRightForgetsFinalDot(t);
    CleanNamesOnlyShorten(hash, t);
  }

  const KEPT := MAX_FILENAME - HASH_CHARS - 1

  ghost predicate Long(n: string) {
    |TrimDot(n)| > MAX_FILENAME
  }

  /** Both are long and agree in their first 187 characters and in the hash suffix, or one of them is,
      letter by letter, what the other is shortened to. */
  ghost predicate Clash(hash: string -> string, y: string, z: string) {
    var s, t := TrimDot(y), TrimDot(z);
    || (Long(y) && Long(z) && s[..KEPT] == t[..KEPT] && hash(s) == hash(t))
    || (!Long(y) && Long(z) && s == t[..KEPT] + "-" + hash(t))
    || (Long(y) && !Long(z) && t == s[..KEPT] + "-" + hash(s))
  }

  /** Exactly when two different zones share a file. */
  lemma ShareFileIff(hash: string -> string, y: string, z: string)
    requires HexHash(hash) && Managed(y) && Managed(z) && y != z
    ensures SafeZoneFilename(hash, y) == SafeZoneFilename(hash, z) <==> Clash(hash, y, z)
  {
    ManagedFilename(hash, y);
    ManagedFilename(hash, z);
    ManagedIsClean(y);
    ManagedIsClean(z);
    var s, t := TrimDot(y), TrimDot(z);
    JoinIsInjective(s[..if Long(y) then KEPT else 0], hash(s), t[..if Long(z) then KEPT else 0], hash(t));
  }

  /** So zones of up to 200 characters never share one. */
  lemma ShortNamesDoNotCollide(hash: string -> string, y: string, z: string)
    requires HexHash(hash) && Managed(y) && Managed(z) && !Long(y) && !Long(z)
    ensures SafeZoneFilename(hash, y) == SafeZoneFilename(hash, z) <==> y == z
  {
    if y != z {
      ShareFileIff(hash, y, z);
    }
  }

  lemma JoinIsInjective(a: string, g: string, b: string, h: string)
    requires |g| == |h|
    ensures |a| == |b| ==> (a + "-" + g == b + "-" + h <==> a == b && g == h)
  {
    var x, y := a + "-" + g, b + "-" + h;
    if |a| == |b| && x == y {
      assert x[..|a|] == a && y[..|b|] == b;
      assert x[|a| + 1..] == g && y[|b| + 1..] == h;
    }
  }

  // ----- a colliding pair -----

  function Letters(k: nat): (s: string)
    ensures |s| == k && forall i :: 0 <= i < k ==> s[i] == 'a'
  {
    seq(k, _ => 'a')
  }

  /** Three labels of sixty letters, each with its dot. */
  function ThreeLabels(): (s: string)
    ensures |s| == 183
  {
    Letters(60) + "." + (Letters(60) + "." + (Letters(60) + "."))
  }

  lemma FourParts(last: string)
    requires '.' !in last
    ensures SplitOn('.', ThreeLabels() + last) == [Letters(60), Letters(60), Letters(60), last]
  {
    var a := Letters(60);
    OnePart('.', last);
    PartThenRest('.', a, last);
    PartThenRest('.', a, a + "." + last);
    PartThenRest('.', a, a + "." + (a + "." + last));
    assert ThreeLabels() + last == a + "." + (a + "." + (a + "." + last));
    assert SplitOn('.', a + "." + (a + "." + last)) == [a, a, last];
  }

  ghost predicate NoCapitals(s: string) {
    forall c <- s :: !('A' <= c <= 'Z')
  }

  lemma NoCapitalsIsLower(s: string)
    requires NoCapitals(s)
    ensures ToLower(s) == s
  {
    assert forall i :: 0 <= i < |s| ==> s[i] in s;
  }

  lemma FourLabelsAreLower(last: string)
    requires NoCapitals(last)
    ensures ToLower(ThreeLabels() + last + ".") == ThreeLabels() + last + "."
  {
    assert NoCapitals(Letters(60)) && NoCapitals(".");
    assert NoCapitals(ThreeLabels());
    NoCapitalsIsLower(ThreeLabels() + last + ".");
  }

  lemma FourLabelsAreValid(last: string)
    requires ValidLabel(last) && |last| <= 60
    ensures TrimDot(ThreeLabels() + last + ".") == ThreeLabels() + last
    ensures ValidZoneName(ThreeLabels() + last + ".")
  {
    var t := ThreeLabels() + last;
    FourParts(last);
    EndsWithDot(t + ".");
    assert (t + ".")[..|t|] == t;
    assert ValidLabel(Letters(60));
  }

  lemma FourLabelsAreManaged(last: string)
    requires ValidLabel(last) && |last| <= 60 && NoCapitals(last)
    ensures Managed(ThreeLabels() + last + ".") && TrimDot(ThreeLabels() + last + ".") == ThreeLabels() + last
  {
    FourLabelsAreValid(last);
    FourLabelsAreLower(last);
    EndsWithDot(ThreeLabels() + last + ".");
  }

  lemma CutLabels(last: string, k: nat)
    requires k <= |last|
    ensures (ThreeLabels() + last)[..183 + k] == ThreeLabels() + last[..k]
  {
  }

  lemma SuffixLabel(h: string)
    requires |h| == HASH_CHARS && forall c <- h :: '0' <= c <= '9' || 'a' <= c <= 'f'
    ensures var last := Letters(4) + "-" + h;
            ValidLabel(last) && |last| == 17 && NoCapitals(last)
  {
    assert forall i :: 0 <= i < |h| ==> h[i] in h;
  }

  /** Whatever the hash, two valid zones of 213 and 200 characters share a file, although their hashes
      need not collide: the shorter one is spelled like the shortened form of the longer. */
  lemma CollidingPair(hash: string -> string) returns (y: string, z: string)
    requires HexHash(hash)
    ensures Managed(y) && Managed(z) && y != z && !Long(y) && Long(z)
    ensures SafeZoneFilename(hash, y) == SafeZoneFilename(hash, z)
  {
    var t := ThreeLabels() + Letters(30);
    var h := hash(t);
    var last := Letters(4) + "-" + h;
    assert ValidLabel(Letters(30));
    FourLabelsAreManaged(Letters(30));
    SuffixLabel(h);
    FourLabelsAreManaged(last);
    y, z := ThreeLabels() + last + ".", t + ".";
    CutLabels(Letters(30), 4);
    assert Letters(30)[..4] == Letters(4);
    assert TrimDot(y) == t[..KEPT] + "-" + h;
    assert |y| == 201 && |z| == 214;
    ShareFileIff(hash, y, z);
  }
}
