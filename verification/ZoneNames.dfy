/** Zone, owner and target name normalization, and the file name derived from a zone name. */
module ZoneNames {

  function Lower(c: char): char {
    if 'A' <= c <= 'Z' then c - 'A' + 'a' else c
  }

  function ToLower(s: string): (r: string)
    ensures |r| == |s|
    ensures forall i :: 0 <= i < |s| ==> r[i] == Lower(s[i])
  {
    seq(|s|, i requires 0 <= i < |s| => Lower(s[i]))
  }

  predicate HasSuffix(s: string, suffix: string) {
    |suffix| <= |s| && s[|s| - |suffix|..] == suffix
  }

  predicate HasPrefix(s: string, prefix: string) {
    prefix <= s
  }

  function TrimDot(s: string): string {
    if HasSuffix(s, ".") then s[..|s| - 1] else s
  }

  function NormalizeZoneName(name: string): string {
    if name == "" then ""
    else if HasSuffix(ToLower(name), ".") then ToLower(name)
    else ToLower(name) + "."
  }

  /** A name written without the final dot that already lies in the zone. */
  predicate EndsInZone(name: string, zone: string) {
    var trimmed := ToLower(TrimDot(zone));
    ToLower(name) == trimmed || HasSuffix(ToLower(name), "." + trimmed)
  }

  function NormalizeRecordOwnerName(name: string, origin: string): string {
    var zone := NormalizeZoneName(origin);
    if name == "@" then zone
    else if HasSuffix(name, ".") then NormalizeZoneName(name)
    else if EndsInZone(name, zone) then NormalizeZoneName(name)
    else NormalizeZoneName(name + "." + TrimDot(zone))
  }

  lemma LowerTwice(s: string)
    ensures ToLower(ToLower(s)) == ToLower(s)
  {
  }

  lemma NormalizeIsIdempotent(name: string)
    ensures NormalizeZoneName(NormalizeZoneName(name)) == NormalizeZoneName(name)
  {
    LowerTwice(name);
    assert ToLower(ToLower(name) + ".") == ToLower(name) + ".";
  }

  lemma NormalizedForm(name: string)
    ensures var o := NormalizeZoneName(name);
            o == "" || (HasSuffix(o, ".") && ToLower(o) == o)
  {
    LowerTwice(name);
    assert ToLower(ToLower(name) + ".") == ToLower(name) + ".";
  }

  lemma OwnerEndsWithDot(name: string, origin: string)
    ensures var o := NormalizeRecordOwnerName(name, origin);
            o == "" || (HasSuffix(o, ".") && ToLower(o) == o)
  {
    NormalizedForm(name);
    NormalizedForm(origin);
    NormalizedForm(name + "." + TrimDot(NormalizeZoneName(origin)));
  }

  lemma FixedOwner(o: string, origin: string)
    requires HasSuffix(o, ".") && ToLower(o) == o
    ensures NormalizeRecordOwnerName(o, origin) == o
  {
  }

  /** Expanding an owner name that is already expanded changes nothing. */
  lemma OwnerIsIdempotent(name: string, origin: string)
    ensures var o := NormalizeRecordOwnerName(name, origin);
            NormalizeRecordOwnerName(o, origin) == o
  {
    var o := NormalizeRecordOwnerName(name, origin);
    OwnerEndsWithDot(name, origin);
    if o != "" {
      FixedOwner(o, origin);
    } else if name == "@" {
      assert origin == "" && EndsInZone("", "");
    } else {
      assert name == "";
    }
  }

  lemma EndsWithDot(s: string)
    ensures HasSuffix(s, ".") <==> |s| > 0 && s[|s| - 1] == '.'
  {
    if |s| > 0 {
      assert s[|s| - 1..] == [s[|s| - 1]];
    }
  }

  /** Lower case on ASCII letters; every other character stays. */
  lemma LowerMeaning(s: string, i: nat)
    requires i < |s|
    ensures ToLower(s)[i] as int == if 'A' <= s[i] <= 'Z' then s[i] as int + 32 else s[i] as int
  {
  }

  /** A zone name in lower case, with the final dot it may lack. */
  lemma NormalizeMeaning(name: string)
    ensures name == "" ==> NormalizeZoneName(name) == ""
    ensures name != "" && name[|name| - 1] == '.' ==> NormalizeZoneName(name) == ToLower(name)
    ensures name != "" && name[|name| - 1] != '.' ==> NormalizeZoneName(name) == ToLower(name) + "."
  {
    if name != "" {
      EndsWithDot(ToLower(name));
      LowerMeaning(name, |name| - 1);
    }
  }

  /** The owner of a record, case by case, for a zone written as base or with a final dot: the apex sign, a
      full name, a name that already ends in the zone, and any other, which is relative. */
  lemma OwnerByCases(name: string, base: string, origin: string)
    requires base != "" && base[|base| - 1] != '.' && (origin == base || origin == base + ".")
    ensures var owner, low, zone := NormalizeRecordOwnerName(name, origin), ToLower(name), ToLower(base);
            if name == "@" then owner == zone + "."
            else if name != "" && name[|name| - 1] == '.' then owner == low
            else if InBase(low, zone) then owner == low + "."
            else owner == low + "." + zone + "."
  {
    OriginForms(base, origin);
    EndsWithDot(name);
    if name != "@" {
      if name != "" && name[|name| - 1] == '.' {
        NormalizeMeaning(name);
      } else {
        DotlessOwner(name, base, origin);
      }
    }
  }

  /** low is the zone or ends in it, label-wise. */
  ghost predicate InBase(low: string, zone: string) {
    low == zone || (|low| > |zone| && low[|low| - |zone| - 1..] == "." + zone)
  }

  lemma DotlessOwner(name: string, base: string, origin: string)
    requires base != "" && base[|base| - 1] != '.' && (origin == base || origin == base + ".")
    requires name != "@" && (name == "" || name[|name| - 1] != '.')
    ensures var owner, low, zone := NormalizeRecordOwnerName(name, origin), ToLower(name), ToLower(base);
            owner == if InBase(low, zone) then low + "." else low + "." + zone + "."
  {
    var low, zone := ToLower(name), ToLower(base);
    OriginForms(base, origin);
    EndsWithDot(name);
    LowerTwice(base);
    assert EndsInZone(name, zone + ".") <==> InBase(low, zone) by {
      EndsInZoneMeaning(name, base);
    }
    if InBase(low, zone) {
      assert name != "";
      NormalizeMeaning(name);
    } else {
      RelativeOwner(name, zone);
    }
  }

  lemma EndsInZoneMeaning(name: string, base: string)
    requires base != "" && base[|base| - 1] != '.'
    ensures EndsInZone(name, ToLower(base) + ".") <==> InBase(ToLower(name), ToLower(base))
  {
    OriginForms(base, base);
    LowerTwice(base);
    SuffixMeaning(ToLower(name), ToLower(base));
  }

  lemma SuffixMeaning(low: string, zone: string)
    ensures HasSuffix(low, "." + zone) <==> |low| > |zone| && low[|low| - |zone| - 1..] == "." + zone
  {
    assert |"." + zone| == |zone| + 1;
  }

  lemma RelativeOwner(name: string, zone: string)
    requires zone != "" && zone[|zone| - 1] != '.' && ToLower(zone) == zone
    ensures NormalizeZoneName(name + "." + zone) == ToLower(name) + "." + zone + "."
  {
    var rel := name + "." + zone;
    assert rel[|rel| - 1] == zone[|zone| - 1];
    NormalizeMeaning(rel);
    LowerOfJoin(name, zone);
  }

  lemma LowerOfJoin(name: string, zone: string)
    requires ToLower(zone) == zone
    ensures ToLower(name + "." + zone) == ToLower(name) + "." + zone
  {
    assert forall i :: 0 <= i < |zone| ==> ToLower(zone)[i] == zone[i];
  }

  lemma OriginForms(base: string, origin: string)
    requires base != "" && base[|base| - 1] != '.' && (origin == base || origin == base + ".")
    ensures NormalizeZoneName(origin) == ToLower(base) + "." && TrimDot(NormalizeZoneName(origin)) == ToLower(base)
  {
    NormalizeMeaning(origin);
    assert ToLower(base + ".") == ToLower(base) + ".";
    EndsWithDot(ToLower(base) + ".");
    assert (ToLower(base) + ".")[..|base|] == ToLower(base);
  }

  /** A path separator becomes an underscore, and so does a pair of dots. */
  lemma PathFilename(hash: string -> string)
    requires HexHash(hash)
    ensures SafeZoneFilename(hash, "../A") == "__a"
  {
    var s := "../A";
    EndsWithDot(s);
    assert TrimRightDots(s) == s;
    assert Sanitize(ToLower(s)) == ".._a";
    DotDotThenClean("_a");
    assert ".." + "_a" == ".._a" && "_" + "_a" == "__a";
  }

  lemma DotDotThenClean(t: string)
    requires NoDotDot(t)
    ensures ReplaceDotDot(".." + t) == "_" + t
  {
    assert (".." + t)[..2] == ".." && (".." + t)[2..] == t;
    ReplaceDotDotKeepsClean(t);
  }

  /** Nothing is left of dots alone. */
  lemma DotsFilename(hash: string -> string)
    requires HexHash(hash)
    ensures SafeZoneFilename(hash, "..") == "unnamed"
  {
    TrimRightForgetsFinalDot(".");
    TrimRightForgetsFinalDot("");
    assert "." + "." == ".." && "" + "." == ".";
    assert TrimRightDots("..") == "";
    assert Sanitize(ToLower("")) == "";
  }

  lemma OwnerInZone(rel: string, trimmed: string)
    requires trimmed != "" && !HasSuffix(trimmed, ".")
    ensures var full := rel + "." + trimmed;
            && !HasSuffix(full, ".") && full != "@"
            && HasSuffix(ToLower(full), "." + ToLower(trimmed))
            && NormalizeZoneName(full + ".") == NormalizeZoneName(full)
  {
    var full := rel + "." + trimmed;
    EndsWithDot(trimmed);
    EndsWithDot(full);
    EndsWithDot(ToLower(full));
    assert ToLower(full)[|full| - |trimmed| - 1..] == "." + ToLower(trimmed);
    assert ToLower(full + ".") == ToLower(full) + ".";
    EndsWithDot(ToLower(full + "."));
  }

  /** The spellings of one owner agree: relative, in-zone without the final dot, and absolute. */
  lemma OwnerSpellingsAgree(rel: string, origin: string)
    requires rel != "@" && !HasSuffix(rel, ".")
    requires var trimmed := TrimDot(NormalizeZoneName(origin)); trimmed != "" && !HasSuffix(trimmed, ".")
    requires !EndsInZone(rel, NormalizeZoneName(origin))
    ensures var full := rel + "." + TrimDot(NormalizeZoneName(origin));
            NormalizeRecordOwnerName(full + ".", origin)
            == NormalizeRecordOwnerName(full, origin)
            == NormalizeRecordOwnerName(rel, origin)
  {
    var trimmed := TrimDot(NormalizeZoneName(origin));
    var full := rel + "." + trimmed;
    OwnerInZone(rel, trimmed);
    EndsWithDot(full + ".");
    assert EndsInZone(full, NormalizeZoneName(origin));
  }

  // ----- SafeZoneFilename -----

  const MAX_FILENAME := 200
  const HASH_CHARS := 12

  predicate FileChar(c: char) {
    'a' <= c <= 'z' || '0' <= c <= '9' || c == '.' || c == '_' || c == '-'
  }

  /** The truncation suffix is SHA-256 in hexadecimal; only its shape matters here. */
  ghost predicate HexHash(hash: string -> string) {
    forall s :: |hash(s)| == HASH_CHARS
                && forall c <- hash(s) :: '0' <= c <= '9' || 'a' <= c <= 'f'
  }

  function TrimRightDots(s: string): (r: string)
    ensures r <= s && !HasSuffix(r, ".")
  {
    if HasSuffix(s, ".") then TrimRightDots(s[..|s| - 1]) else s
  }

  function Sanitize(s: string): (r: string)
    ensures |r| == |s|
    ensures forall i :: 0 <= i < |s| ==> r[i] == if FileChar(s[i]) then s[i] else '_'
  {
    seq(|s|, i requires 0 <= i < |s| => if FileChar(s[i]) then s[i] else '_')
  }

  /** strings.ReplaceAll(s, "..", "_"): leftmost, without overlap. */
  function ReplaceDotDot(s: string): string {
    if |s| < 2 then s
    else if s[..2] == ".." then "_" + ReplaceDotDot(s[2..])
    else [s[0]] + ReplaceDotDot(s[1..])
  }

  function Shorten(hash: string -> string, s: string): string
    requires HexHash(hash)
  {
    if |s| > MAX_FILENAME then s[..MAX_FILENAME - HASH_CHARS - 1] + "-" + hash(s) else s
  }

  function SafeZoneFilename(hash: string -> string, zoneName: string): string
    requires HexHash(hash)
  {
    var s := ReplaceDotDot(Sanitize(ToLower(TrimRightDots(zoneName))));
    var short := Shorten(hash, s);
    if short == "" then "unnamed" else short
  }

  ghost predicate NoDotDot(s: string) {
    forall i :: 0 <= i < |s| - 1 ==> !(s[i] == '.' && s[i + 1] == '.')
  }

  /** What every produced file name looks like: no path separator, no "..", a bounded length. */
  ghost predicate SafeFilename(s: string) {
    && 1 <= |s| <= MAX_FILENAME
    && (forall c <- s :: FileChar(c))
    && NoDotDot(s)
    && !HasSuffix(s, ".")
  }

  /** Clean but for the length. */
  ghost predicate Clean(s: string) {
    && (forall c <- s :: FileChar(c))
    && NoDotDot(s)
    && (s != "" ==> s[|s| - 1] != '.')
  }

  lemma ConsIsClean(c: char, t: string)
    requires FileChar(c) && Clean(t)
    requires c == '.' ==> t != "" && t[0] != '.'
    ensures Clean([c] + t)
  {
    var r := [c] + t;
    assert forall i :: 0 < i < |r| ==> r[i] == t[i - 1];
  }

  /** Replacing runs of dots leaves none, neither inside nor at the end. */
  lemma {:induction false} ReplaceDotDotIsClean(s: string)
    requires forall c <- s :: FileChar(c)
    requires s != "" ==> s[|s| - 1] != '.'
    ensures var r := ReplaceDotDot(s);
            && |r| <= |s| && (s != "" ==> r != "")
            && Clean(r)
            && (r != "" && r[0] == '.' ==> s[0] == '.' && (|s| > 1 ==> s[1] != '.'))
  {
    if |s| >= 2 {
      assert s[..2] == [s[0], s[1]];
      if s[..2] == ".." {
        ReplaceDotDotIsClean(s[2..]);
        ConsIsClean('_', ReplaceDotDot(s[2..]));
      } else {
        ReplaceDotDotIsClean(s[1..]);
        ConsIsClean(s[0], ReplaceDotDot(s[1..]));
      }
    }
  }

  lemma {:induction false} ReplaceDotDotKeepsClean(s: string)
    requires NoDotDot(s)
    ensures ReplaceDotDot(s) == s
  {
    if |s| >= 2 {
      assert s[..2] == [s[0], s[1]] && !(s[0] == '.' && s[1] == '.');
      forall i | 0 <= i < |s[1..]| - 1 ensures !(s[1..][i] == '.' && s[1..][i + 1] == '.') {
        assert s[1..][i] == s[i + 1] && s[1..][i + 1] == s[i + 2];
      }
      ReplaceDotDotKeepsClean(s[1..]);
      assert s == [s[0]] + s[1..];
    }
  }

  lemma ShortenIsSafe(hash: string -> string, s: string)
    requires HexHash(hash)
    requires forall c <- s :: FileChar(c)
    requires NoDotDot(s) && !HasSuffix(s, ".") && s != ""
    ensures SafeFilename(Shorten(hash, s))
  {
    if |s| > MAX_FILENAME {
      var h := hash(s);
      var p := s[..MAX_FILENAME - HASH_CHARS - 1];
      var r := p + "-" + h;
      assert r[|r| - 1] == h[|h| - 1] && h[|h| - 1] in h;
      assert r[|r| - 1..] == [r[|r| - 1]];
      forall i | 0 <= i < |r| - 1 ensures !(r[i] == '.' && r[i + 1] == '.') {
        if i < |p| {
          assert r[i] == s[i] && (i + 1 < |p| ==> r[i + 1] == s[i + 1]);
        } else if i > |p| {
          assert r[i] == h[i - |p| - 1] && r[i] in h;
        }
      }
    }
  }

  lemma LowerKeepsTail(s: string)
    requires !HasSuffix(s, ".")
    ensures !HasSuffix(Sanitize(ToLower(s)), ".")
  {
    var r := Sanitize(ToLower(s));
    if |s| > 0 {
      assert s[|s| - 1..] == [s[|s| - 1]];
      assert r[|r| - 1..] == [r[|r| - 1]];
    }
  }

  /** Every zone name, hostile ones included, becomes a file name that cannot leave its directory. */
  lemma FilenameIsSafe(hash: string -> string, zoneName: string)
    requires HexHash(hash)
    ensures SafeFilename(SafeZoneFilename(hash, zoneName))
  {
    var t := TrimRightDots(zoneName);
    LowerKeepsTail(t);
    var u := Sanitize(ToLower(t));
    EndsWithDot(u);
    ReplaceDotDotIsClean(u);
    var s := ReplaceDotDot(u);
    EndsWithDot(s);
    if s != "" {
      ShortenIsSafe(hash, s);
    } else {
      assert "unnamed"[6..] == "d";
    }
  }

  /** A clean name is only ever shortened. */
  lemma CleanNamesOnlyShorten(hash: string -> string, s: string)
    requires HexHash(hash) && Clean(s) && s != ""
    ensures SafeZoneFilename(hash, s) == Shorten(hash, s)
  {
    EndsWithDot(s);
    assert forall i :: 0 <= i < |s| ==> s[i] in s;
    assert Sanitize(ToLower(s)) == s;
    ReplaceDotDotKeepsClean(s);
  }

  lemma SafeNamesAreFixed(hash: string -> string, s: string)
    requires HexHash(hash) && SafeFilename(s)
    ensures SafeZoneFilename(hash, s) == s
  {
    assert TrimRightDots(s) == s;
    assert forall i :: 0 <= i < |s| ==> s[i] in s;
    assert Sanitize(ToLower(s)) == s;
    ReplaceDotDotKeepsClean(s);
  }

  /** A stored file name read back through the same function is unchanged. */
  lemma FilenameIsIdempotent(hash: string -> string, zoneName: string)
    requires HexHash(hash)
    ensures SafeZoneFilename(hash, SafeZoneFilename(hash, zoneName)) == SafeZoneFilename(hash, zoneName)
  {
    FilenameIsSafe(hash, zoneName);
    SafeNamesAreFixed(hash, SafeZoneFilename(hash, zoneName));
  }

  lemma {:induction false} TrimRightCommutesWithLower(s: string)
    ensures ToLower(TrimRightDots(s)) == TrimRightDots(ToLower(s))
  {
    if |s| > 0 {
      assert s[|s| - 1..] == [s[|s| - 1]];
      assert ToLower(s)[|s| - 1..] == [Lower(s[|s| - 1])];
      if HasSuffix(s, ".") {
        assert ToLower(s)[..|s| - 1] == ToLower(s[..|s| - 1]);
        TrimRightCommutesWithLower(s[..|s| - 1]);
      }
    }
  }

  lemma TrimRightForgetsFinalDot(s: string)
    ensures TrimRightDots(s + ".") == TrimRightDots(s)
  {
    EndsWithDot(s + ".");
    assert (s + ".")[..|s|] == s;
  }

  lemma TrimRightOfNormalized(name: string)
    ensures ToLower(TrimRightDots(NormalizeZoneName(name))) == ToLower(TrimRightDots(name))
  {
    TrimRightCommutesWithLower(name);
    TrimRightCommutesWithLower(NormalizeZoneName(name));
    NormalizedIsLower(name);
    TrimRightForgetsFinalDot(ToLower(name));
  }

  lemma NormalizedIsLower(name: string)
    ensures var n := NormalizeZoneName(name);
            ToLower(n) == n && (n == ToLower(name) || n == ToLower(name) + ".")
  {
    LowerTwice(name);
    assert ToLower(ToLower(name) + ".") == ToLower(name) + ".";
  }

  /** A zone and its normalized spelling share one file, so the managed index agrees with the zone list. */
  lemma FilenameAgreesWithNormalization(hash: string -> string, zoneName: string)
    requires HexHash(hash)
    ensures SafeZoneFilename(hash, NormalizeZoneName(zoneName)) == SafeZoneFilename(hash, zoneName)
  {
    TrimRightOfNormalized(zoneName);
  }
}
