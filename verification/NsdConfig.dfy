/** The managed zone file that the agent writes for NSD and reads back. */
module NsdConfig {
  import opened Ordering
  import opened ZoneModel
  import opened ZoneNames
  import opened Text

  // ----- zone names -----

  predicate Alnum(c: char) {
    'a' <= c <= 'z' || 'A' <= c <= 'Z' || '0' <= c <= '9'
  }

  predicate ValidLabel(l: string) {
    && 1 <= |l| <= 63
    && Alnum(l[0]) && Alnum(l[|l| - 1])
    && forall i :: 0 <= i < |l| ==> Alnum(l[i]) || l[i] == '-'
  }

  /** model.ValidateZoneName: dotted labels, an optional final dot, at most 253 characters. */
  predicate ValidZoneName(n: string) {
    && n != "@" && n != "." && n != "" && |n| <= 253
    && forall l <- SplitOn('.', TrimDot(n)) :: ValidLabel(l)
  }

  predicate Managed(n: string) {
    ValidZoneName(n) && NormalizeZoneName(n) == n
  }

  predicate Plain(c: char) {
    Alnum(c) || c == '-' || c == '.'
  }

  /** Letters, digits and inner hyphens, 1 to 63 of them. */
  ghost predicate LabelForm(l: string) {
    && 1 <= |l| <= 63
    && forall i :: 0 <= i < |l| ==>
         || 'a' <= l[i] <= 'z' || 'A' <= l[i] <= 'Z' || '0' <= l[i] <= '9'
         || (l[i] == '-' && 0 < i < |l| - 1)
  }

  ghost predicate JoinsLabels(n: string, labels: seq<string>) {
    labels != [] && (forall l <- labels :: LabelForm(l)) && (n == Join('.', labels) || n == Join('.', labels) + ".")
  }

  lemma {:induction false} JoinEnd(labels: seq<string>)
    requires labels != [] && forall l <- labels :: LabelForm(l)
    ensures var s := Join('.', labels); s != "" && s[|s| - 1] != '.' && s[0] != '@'
  {
    assert labels[0] in labels;
    if |labels| > 1 {
      JoinEnd(labels[1..]);
    }
  }

  /** The valid zone names are exactly the labels joined by dots, with or without a final one, of at most
      253 characters. */
  lemma ValidZoneNameMeaning(n: string)
    ensures ValidZoneName(n) <==> |n| <= 253 && exists labels :: JoinsLabels(n, labels)
  {
    if ValidZoneName(n) {
      var labels := SplitOn('.', TrimDot(n));
      SplitThenJoin('.', TrimDot(n));
      EndsWithDot(n);
      assert JoinsLabels(n, labels);
    }
    if |n| <= 253 && exists labels :: JoinsLabels(n, labels) {
      var labels :| JoinsLabels(n, labels);
      JoinedIsValid(n, labels);
    }
  }

  lemma JoinedIsValid(n: string, labels: seq<string>)
    requires |n| <= 253 && JoinsLabels(n, labels)
    ensures ValidZoneName(n)
  {
    var s := Join('.', labels);
    JoinEnd(labels);
    EndsWithDot(s);
    EndsWithDot(s + ".");
    assert (s + ".")[..|s|] == s;
    assert TrimDot(n) == s;
    assert forall l <- labels :: '.' !in l;
    JoinThenSplit('.', labels);
    assert forall l <- labels :: ValidLabel(l);
  }

  lemma ValidNamesArePlain(n: string)
    requires ValidZoneName(n)
    ensures forall i :: 0 <= i < |n| ==> Plain(n[i])
  {
    forall i | 0 <= i < |n| ensures Plain(n[i]) {
      var t := TrimDot(n);
      if i < |t| && t[i] != '.' {
        assert t[i] in t;
        EveryCharIsInAPart('.', t, t[i]);
        var j :| 0 <= j < |SplitOn('.', t)| && t[i] in SplitOn('.', t)[j];
        assert SplitOn('.', t)[j] in SplitOn('.', t);
        var k :| 0 <= k < |SplitOn('.', t)[j]| && SplitOn('.', t)[j][k] == t[i];
      } else if i >= |t| {
        assert n[|n| - 1..] == ".";
      }
    }
  }

  // ----- rendering -----

  /** Where the managed file lives, the zone directory, and which zone file each zone points to (the
      directory joined with the safe file name). */
  datatype Paths = Paths(config: string, dir: string, zoneFile: string -> string)

  predicate SafePathChar(c: char) {
    c != '"' && c != '\\' && c >= ' ' && c != '\U{7f}'
  }

  /** config.ValidateNSDRenderedConfigPath: absolute, without surrounding blanks, quotes, backslashes or
      control characters. */
  predicate ValidPath(path: string) {
    path != "" && TrimSpace(path) == path && path[0] == '/' && forall i :: 0 <= i < |path| ==> SafePathChar(path[i])
  }

  /** A path may be rendered exactly if it is absolute, has no blank at an end, and no quote, backslash or
      control character anywhere. */
  lemma ValidPathMeaning(path: string)
    ensures ValidPath(path) <==>
              && path != "" && path[0] == '/' && Tight(path)
              && forall c <- path :: c != '"' && c != '\\' && c as int >= 32 && c as int != 127
  {
    TrimIsTight(path);
    if Tight(path) {
      TrimOfPadded("", path, "");
      assert "" + path + "" == path;
    }
    assert forall i :: 0 <= i < |path| ==> path[i] in path;
  }

  /** Joining a valid directory with a file name yields no line break. */
  ghost predicate Joins(p: Paths) {
    ValidPath(p.dir) ==> forall n :: '\n' !in p.zoneFile(n)
  }

  /** Cleaning a path brings in no characters but slashes and dots. */
  ghost predicate Cleans(clean: string -> string) {
    forall s, c :: c in clean(s) ==> c in s || c == '/' || c == '.'
  }

  lemma RealPathsJoin(hash: string -> string, clean: string -> string, p: Paths)
    requires HexHash(hash) && Cleans(clean)
    requires forall n :: p.zoneFile(n) == clean(p.dir + "/" + SafeZoneFilename(hash, n) + ".zone")
    ensures Joins(p)
  {
    if ValidPath(p.dir) {
      forall n ensures '\n' !in p.zoneFile(n) {
        FilenameIsSafe(hash, n);
        CleanNoBreak(clean, p.dir, SafeZoneFilename(hash, n));
      }
    }
  }

  lemma CleanNoBreak(clean: string -> string, dir: string, name: string)
    requires Cleans(clean)
    requires (forall i :: 0 <= i < |dir| ==> SafePathChar(dir[i])) && forall c <- name :: FileChar(c)
    ensures '\n' !in clean(dir + "/" + name + ".zone")
  {
    NoBreak(dir, name);
  }

  lemma NoBreak(dir: string, name: string)
    requires (forall i :: 0 <= i < |dir| ==> SafePathChar(dir[i])) && forall c <- name :: FileChar(c)
    ensures '\n' !in dir + "/" + name + ".zone"
  {
    assert '\n' !in dir && '\n' !in name && '\n' !in "/" && '\n' !in ".zone";
  }

  /** No line break can get into the rendered file. */
  ghost predicate Renderable(p: Paths) {
    '\n' !in p.config && forall n :: '\n' !in p.zoneFile(n)
  }

  const MARKER := "# arca-dns-zone:"

  function MarkerLine(n: string): string {
    MARKER + " " + n
  }

  function NameLine(n: string): string {
    "    name: \"" + n + "\""
  }

  function FileLine(p: Paths, n: string): string {
    "    zonefile: \"" + p.zoneFile(n) + "\""
  }

  /** One stanza followed by the rest of the file. */
  function Stanza(p: Paths, n: string, rest: string): string {
    MarkerLine(n) + "\n" + ("zone:" + "\n" + (NameLine(n) + "\n" + (FileLine(p, n) + "\n" + ("" + "\n" + rest))))
  }

  function Body(p: Paths, names: seq<string>): string {
    if names == [] then "" else Stanza(p, names[0], Body(p, names[1..]))
  }

  const GENERATED := "# Generated by" + " arca-dns-agent. DO NOT EDIT."
  const HOWTO := "# Include this file" + " from nsd.conf, for example:"

  function IncludeLine(p: Paths): string {
    "# include: \"" + p.config + "\""
  }

  function HeaderThen(p: Paths, body: string): string {
    GENERATED + "\n" + (HOWTO + "\n" + (IncludeLine(p) + "\n" + ("" + "\n" + body)))
  }

  /** The file for a set of zones: one stanza each, in ascending name order. */
  ghost predicate IsRendering(p: Paths, zones: set<string>, text: string) {
    exists names: seq<string> ::
      StrictlySorted(StringLess, names) && Elements(names) == zones && text == HeaderThen(p, Body(p, names))
  }

  /** Normalizes and sorts, keeping a name as often as it occurs. */
  method SortNames(zones: set<string>) returns (names: seq<string>)
    ensures WeaklySorted(StringLess, names) && |names| == |zones|
    ensures forall n :: n in names <==> exists z :: z in zones && NormalizeZoneName(z) == n
  {
    StringLessIsStrictTotalOrder();
    names := [];
    var rest := zones;
    while rest != {}
      invariant rest <= zones && |names| == |zones| - |rest| && WeaklySorted(StringLess, names)
      invariant forall n :: n in names <==> exists z :: z in zones && z !in rest && NormalizeZoneName(z) == n
      decreases rest
    {
      var z :| z in rest;
      ghost var before, had := names, rest;
      rest := rest - {z};
      names := Insert(names, NormalizeZoneName(z));
      forall n ensures n in names <==> exists y :: y in zones && y !in rest && NormalizeZoneName(y) == n {
        assert n in names <==> n in before || n == NormalizeZoneName(z);
        if y :| y in zones && y !in rest && NormalizeZoneName(y) == n {
          assert y == z || y !in had;
        }
      }
    }
  }

  method Insert(names: seq<string>, n: string) returns (longer: seq<string>)
    requires StrictTotalOrder(StringLess) && WeaklySorted(StringLess, names)
    ensures WeaklySorted(StringLess, longer) && |longer| == |names| + 1
    ensures forall x :: x in longer <==> x in names || x == n
  {
    var at := |names|;
    while at > 0 && StringLess(n, names[at - 1])
      invariant 0 <= at <= |names|
      invariant forall j :: at <= j < |names| ==> StringLess(n, names[j])
    {
      at := at - 1;
    }
    assert forall j :: 0 <= j < at ==> j == at - 1 || !StringLess(names[at - 1], names[j]);
    InsertKeepsWeakOrder(StringLess, names, at, n);
    longer := names[..at] + [n] + names[at..];
    assert forall x :: x in longer <==> x in Elements(longer);
  }

  /** One stanza per zone, in name order. For normalized names, the only ones the agent passes, that is the
      rendering of the set; two spellings of one zone would get two stanzas. */
  method RenderManagedZoneConfig(p: Paths, zones: set<string>) returns (text: string, ghost names: seq<string>)
    ensures text == HeaderThen(p, Body(p, names)) && WeaklySorted(StringLess, names) && |names| == |zones|
    ensures forall n :: n in names <==> exists z :: z in zones && NormalizeZoneName(z) == n
    ensures (forall z <- zones :: NormalizeZoneName(z) == z) ==> IsRendering(p, zones, text)
  {
    var zoneNames := SortNames(zones);
    text := RenderText(p, zoneNames);
    names := zoneNames;
    if forall z <- zones :: NormalizeZoneName(z) == z {
      NormalizedListing(zones, names);
    }
  }

  method RenderText(p: Paths, zoneNames: seq<string>) returns (text: string)
    ensures text == HeaderThen(p, Body(p, zoneNames))
  {
    text := AppendEach(HeaderThen(p, ""), zoneNames, n => Stanza(p, n, ""));
    BodyIsConcat(p, zoneNames);
    HeaderAppend(p, Body(p, zoneNames));
  }

  function Concat(part: string -> string, names: seq<string>): string {
    if names == [] then "" else part(names[0]) + Concat(part, names[1..])
  }

  method AppendEach(head: string, names: seq<string>, part: string -> string) returns (text: string)
    ensures text == head + Concat(part, names)
  {
    text := head;
    assert names[0..] == names;
    for i := 0 to |names|
      invariant text + Concat(part, names[i..]) == head + Concat(part, names)
    {
      assert names[i..][1..] == names[i + 1..];
      text := text + part(names[i]);
    }
  }

  lemma {:induction false} BodyIsConcat(p: Paths, names: seq<string>)
    ensures Body(p, names) == Concat(n => Stanza(p, n, ""), names)
  {
    if names != [] {
      BodyIsConcat(p, names[1..]);
      StanzaAppend(p, names[0], Body(p, names[1..]));
    }
  }

  lemma NormalizedListing(zones: set<string>, names: seq<string>)
    requires WeaklySorted(StringLess, names) && |names| == |zones|
    requires forall n :: n in names <==> exists z :: z in zones && NormalizeZoneName(z) == n
    requires forall z <- zones :: NormalizeZoneName(z) == z
    ensures StrictlySorted(StringLess, names) && Elements(names) == zones
  {
    StringLessIsStrictTotalOrder();
    forall n ensures n in Elements(names) <==> n in zones {
      if n in zones {
        assert NormalizeZoneName(n) == n;
      }
    }
    assert Elements(names) == zones;
    FullListingIsStrict(StringLess, names);
  }

  lemma StanzaAppend(p: Paths, n: string, rest: string)
    ensures Stanza(p, n, rest) == Stanza(p, n, "") + rest
  {
  }

  lemma HeaderAppend(p: Paths, body: string)
    ensures HeaderThen(p, body) == HeaderThen(p, "") + body
  {
  }

  /** Rendering depends only on the set of zones, not on the order the map is walked. */
  lemma RenderingIsUnique(p: Paths, zones: set<string>, t: string, u: string)
    requires IsRendering(p, zones, t) && IsRendering(p, zones, u)
    ensures t == u
  {
    var a: seq<string> :| StrictlySorted(StringLess, a) && Elements(a) == zones && t == HeaderThen(p, Body(p, a));
    var b: seq<string> :| StrictlySorted(StringLess, b) && Elements(b) == zones && u == HeaderThen(p, Body(p, b));
    StringLessIsStrictTotalOrder();
    SortedListingIsUnique(StringLess, a, b);
  }

  // ----- parsing -----

  datatype LineMeaning = Ignored | Names(zone: string) | Malformed

  function ParseLine(line: string): LineMeaning {
    var t := TrimSpace(line);
    if !HasPrefix(t, MARKER) then Ignored
    else
      var n := TrimSpace(t[|MARKER|..]);
      if n == "" then Ignored
      else if ValidZoneName(NormalizeZoneName(n)) then Names(NormalizeZoneName(n))
      else Malformed
  }

  /** A marker line with blanks anywhere around the name stands for the zone, or spoils the file if the name
      is not valid; a marker without a name, like any other line, stands for nothing. */
  lemma ParseLineMeaning(pre: string, mid: string, name: string, post: string)
    requires Spaces(pre) && Spaces(mid) && Spaces(post) && Tight(name) && name != ""
    ensures ParseLine(pre + (MARKER + mid + name) + post)
            == if ValidZoneName(NormalizeZoneName(name)) then Names(NormalizeZoneName(name)) else Malformed
    ensures ParseLine(pre + MARKER + post) == Ignored
  {
    var t := MARKER + mid + name;
    assert t[0] == '#' && t[|t| - 1] == name[|name| - 1];
    TrimOfPadded(pre, t, post);
    assert t[..|MARKER|] == MARKER && t[|MARKER|..] == mid + name;
    TrimOfPadded(mid, name, "");
    assert mid + name + "" == mid + name;
    TrimOfPadded(pre, MARKER, post);
    assert MARKER[|MARKER|..] == "";
  }

  lemma OtherLineMeaning(pre: string, line: string, post: string)
    requires Spaces(pre) && Spaces(post) && Tight(line) && !(MARKER <= line)
    ensures ParseLine(pre + line + post) == Ignored
  {
    TrimOfPadded(pre, line, post);
  }

  function Merge(m: LineMeaning, rest: Option<set<string>>): Option<set<string>> {
    if m.Malformed? || rest.None? then None
    else if m.Names? then Some({m.zone} + rest.value)
    else rest
  }

  function MergeAll(ms: seq<LineMeaning>): Option<set<string>> {
    if ms == [] then Some({}) else Merge(ms[0], MergeAll(ms[1..]))
  }

  function Meanings(lines: seq<string>): (ms: seq<LineMeaning>)
    ensures |ms| == |lines| && forall i :: 0 <= i < |lines| ==> ms[i] == ParseLine(lines[i])
  {
    seq(|lines|, i requires 0 <= i < |lines| => ParseLine(lines[i]))
  }

  function ParseLines(lines: seq<string>): Option<set<string>> {
    MergeAll(Meanings(lines))
  }

  function Parse(text: string): Option<set<string>> {
    ParseLines(Lines(text))
  }

  lemma {:induction false} MergeAppend(ms: seq<LineMeaning>, m: LineMeaning)
    ensures MergeAll(ms + [m]) == Merge(m, MergeAll(ms))
  {
    if ms == [] {
      assert ms + [m] == [m];
    } else {
      MergeAppend(ms[1..], m);
      assert (ms + [m])[1..] == ms[1..] + [m];
      MergeCommutes(ms[0], m, MergeAll(ms[1..]));
    }
  }

  lemma ParseAppend(lines: seq<string>, line: string)
    ensures ParseLines(lines + [line]) == Merge(ParseLine(line), ParseLines(lines))
  {
    assert Meanings(lines + [line]) == Meanings(lines) + [ParseLine(line)];
    MergeAppend(Meanings(lines), ParseLine(line));
  }

  lemma ParseCons(line: string, lines: seq<string>)
    ensures ParseLines([line] + lines) == Merge(ParseLine(line), ParseLines(lines))
  {
    assert Meanings([line] + lines) == [ParseLine(line)] + Meanings(lines);
    assert ([ParseLine(line)] + Meanings(lines))[1..] == Meanings(lines);
  }

  lemma MergeCommutes(m: LineMeaning, n: LineMeaning, rest: Option<set<string>>)
    ensures Merge(m, Merge(n, rest)) == Merge(n, Merge(m, rest))
  {
    if m.Names? && n.Names? && rest.Some? {
      assert {m.zone} + ({n.zone} + rest.value) == {n.zone} + ({m.zone} + rest.value);
    }
  }

  method ReadManagedZoneConfig(text: string) returns (zones: Option<set<string>>)
    ensures zones == Parse(text)
  {
    var lines := Lines(text);
    var found: set<string> := {};
    for i := 0 to |lines|
      invariant ParseLines(lines[..i]) == Some(found)
    {
      assert lines[..i + 1] == lines[..i] + [lines[i]];
      ParseAppend(lines[..i], lines[i]);
      var line := TrimSpace(lines[i]);
      if !HasPrefix(line, MARKER) {
        continue;
      }
      var zoneName := TrimSpace(line[|MARKER|..]);
      if zoneName == "" {
        continue;
      }
      var normalized := NormalizeZoneName(zoneName);
      if !ValidZoneName(normalized) {
        ParseFails(lines, i + 1);
        return None;
      }
      assert {normalized} + found == found + {normalized};
      found := found + {normalized};
    }
    assert lines[..|lines|] == lines;
    return Some(found);
  }

  lemma {:induction false} MergeFails(ms: seq<LineMeaning>, i: nat)
    requires i <= |ms| && MergeAll(ms[..i]).None?
    ensures MergeAll(ms).None?
    decreases |ms| - i
  {
    if i == |ms| {
      assert ms[..i] == ms;
    } else {
      MergeAppend(ms[..i], ms[i]);
      assert ms[..i + 1] == ms[..i] + [ms[i]];
      MergeFails(ms, i + 1);
    }
  }

  lemma ParseFails(lines: seq<string>, i: nat)
    requires i <= |lines| && ParseLines(lines[..i]).None?
    ensures ParseLines(lines).None?
  {
    assert Meanings(lines[..i]) == Meanings(lines)[..i];
    MergeFails(Meanings(lines), i);
  }

  lemma ParseFirstLine(line: string, rest: string)
    requires '\n' !in line
    ensures Parse(line + "\n" + rest) == Merge(ParseLine(line), Parse(rest))
  {
    LineThenRest(line, rest);
    ParseCons(line, Lines(rest));
  }

  // ----- round trip -----

  lemma MarkerLineMeaning(n: string)
    requires Managed(n)
    ensures '\n' !in MarkerLine(n) && ParseLine(MarkerLine(n)) == Names(n)
  {
    ValidNamesArePlain(n);
    var line := MarkerLine(n);
    assert line[0] == '#' && line[|line| - 1] == n[|n| - 1];
    TrimOfTight(line);
    assert line[|MARKER|..] == " " + n;
    TrimOfIndented(n);
    TrimOfTight(n);
    assert line[..|MARKER|] == MARKER;
    assert '\n' !in n;
  }

  lemma NotAMarker(t: string, line: string)
    requires TrimSpace(line) == t && |t| > 2 && (t[0] != '#' || t[2] != 'a')
    ensures ParseLine(line) == Ignored
  {
    assert MARKER[0] == '#' && MARKER[2] == 'a';
  }

  lemma IndentedLine(key: string, value: string)
    requires |key| > 2 && !Space(key[0]) && key[0] != '#'
    ensures ParseLine("    " + key + value + "\"") == Ignored
  {
    var t := key + value + "\"";
    TrimOfTight(t);
    assert "    " + key + value + "\"" == " " + (" " + (" " + (" " + t)));
    TrimOfIndented(t);
    TrimOfIndented(" " + t);
    TrimOfIndented(" " + (" " + t));
    TrimOfIndented(" " + (" " + (" " + t)));
    NotAMarker(t, "    " + key + value + "\"");
  }

  lemma BlankLine()
    ensures ParseLine("") == Ignored
  {
  }

  lemma SkipLine(line: string, rest: string)
    requires '\n' !in line && ParseLine(line) == Ignored
    ensures Parse(line + "\n" + rest) == Parse(rest)
  {
    ParseFirstLine(line, rest);
  }

  lemma ZoneLine()
    ensures ParseLine("zone:") == Ignored
  {
    TrimOfTight("zone:");
    NotAMarker("zone:", "zone:");
  }

  lemma NameLineMeaning(n: string)
    requires Managed(n)
    ensures '\n' !in NameLine(n) && ParseLine(NameLine(n)) == Ignored
  {
    ValidNamesArePlain(n);
    IndentedLine("name: \"", n);
    assert NameLine(n) == "    " + "name: \"" + n + "\"";
  }

  lemma FileLineMeaning(p: Paths, n: string)
    requires Renderable(p)
    ensures '\n' !in FileLine(p, n) && ParseLine(FileLine(p, n)) == Ignored
  {
    IndentedLine("zonefile: \"", p.zoneFile(n));
    assert FileLine(p, n) == "    " + "zonefile: \"" + p.zoneFile(n) + "\"";
  }

  lemma StanzaMeaning(p: Paths, n: string, rest: string)
    requires Renderable(p) && Managed(n)
    ensures Parse(Stanza(p, n, rest)) == Merge(Names(n), Parse(rest))
  {
    var l5 := "" + "\n" + rest;
    var l4 := FileLine(p, n) + "\n" + l5;
    var l3 := NameLine(n) + "\n" + l4;
    var l2 := "zone:" + "\n" + l3;
    assert Parse(l5) == Parse(rest) by { BlankLine(); SkipLine("", rest); }
    assert Parse(l4) == Parse(rest) by { FileLineMeaning(p, n); SkipLine(FileLine(p, n), l5); }
    assert Parse(l3) == Parse(rest) by { NameLineMeaning(n); SkipLine(NameLine(n), l4); }
    assert Parse(l2) == Parse(rest) by { ZoneLine(); SkipLine("zone:", l3); }
    MarkerLineMeaning(n);
    ParseFirstLine(MarkerLine(n), l2);
  }

  lemma {:induction false} BodyMeaning(p: Paths, names: seq<string>)
    requires Renderable(p) && forall n <- names :: Managed(n)
    ensures Parse(Body(p, names)) == Some(Elements(names))
  {
    if names == [] {
      BlankLine();
      assert Lines("") == [""];
      assert [""][1..] == [];
      assert Elements(names) == {};
    } else {
      BodyMeaning(p, names[1..]);
      StanzaMeaning(p, names[0], Body(p, names[1..]));
      assert Elements(names) == {names[0]} + Elements(names[1..]) by {
        assert names == [names[0]] + names[1..];
      }
    }
  }

  lemma CommentLine(line: string)
    requires |line| > 2 && line[0] == '#' && line[2] != 'a' && !Space(line[|line| - 1])
    ensures ParseLine(line) == Ignored
  {
    TrimOfTight(line);
    NotAMarker(line, line);
  }

  lemma CommentLines(generated: string, howto: string)
    requires generated == GENERATED && howto == HOWTO
    ensures '\n' !in generated && ParseLine(generated) == Ignored
    ensures '\n' !in howto && ParseLine(howto) == Ignored
  {
    CommentLine(generated);
    CommentLine(howto);
  }

  lemma IncludeLineMeaning(p: Paths)
    requires Renderable(p)
    ensures '\n' !in IncludeLine(p) && ParseLine(IncludeLine(p)) == Ignored
  {
    TrimOfTight(IncludeLine(p));
    NotAMarker(IncludeLine(p), IncludeLine(p));
  }

  lemma HeaderMeaning(p: Paths, body: string)
    requires Renderable(p)
    ensures Parse(HeaderThen(p, body)) == Parse(body)
  {
    var generated, howto := GENERATED, HOWTO;
    var t3 := "" + "\n" + body;
    var t2 := IncludeLine(p) + "\n" + t3;
    var t1 := howto + "\n" + t2;
    assert Parse(t3) == Parse(body) by { BlankLine(); SkipLine("", body); }
    assert Parse(t2) == Parse(body) by { IncludeLineMeaning(p); SkipLine(IncludeLine(p), t3); }
    CommentLines(generated, howto);
    SkipLine(howto, t2);
    SkipLine(generated, t1);
  }

  /** Reading a rendered file back gives exactly the zones it was rendered from. */
  lemma RenderRoundTrip(p: Paths, zones: set<string>, text: string)
    requires Renderable(p) && (forall z <- zones :: Managed(z)) && IsRendering(p, zones, text)
    ensures Parse(text) == Some(zones)
  {
    var names: seq<string> :| StrictlySorted(StringLess, names) && Elements(names) == zones
                              && text == HeaderThen(p, Body(p, names));
    forall n | n in names ensures Managed(n) {
      assert n in Elements(names);
    }
    HeaderMeaning(p, Body(p, names));
    BodyMeaning(p, names);
  }

  // ----- the controller -----

  datatype Change = Ensure(zone: string) | Remove(zone: string) {
    function Applied(zones: set<string>): set<string> {
      if Ensure? then zones + {NormalizeZoneName(zone)} else zones - {NormalizeZoneName(zone)}
    }
  }

  /** Lines k to k + 3 are the stanza of zone n with zone file f. */
  ghost predicate StanzaAt(lines: seq<string>, k: nat, n: string, f: string) {
    && k + 3 < |lines|
    && lines[k] == "# arca-dns-zone: " + n
    && lines[k + 1] == "zone:"
    && lines[k + 2] == "    name: \"" + n + "\""
    && lines[k + 3] == "    zonefile: \"" + f + "\""
  }

  lemma StanzaLines(p: Paths, n: string, rest: string)
    requires Renderable(p) && Managed(n)
    ensures Lines(Stanza(p, n, rest)) == [MarkerLine(n), "zone:", NameLine(n), FileLine(p, n), ""] + Lines(rest)
  {
    assert '\n' !in MarkerLine(n) && '\n' !in NameLine(n) && '\n' !in FileLine(p, n) by {
      MarkerLineMeaning(n);
      NameLineMeaning(n);
      FileLineMeaning(p, n);
    }
    FiveLines(MarkerLine(n), "zone:", NameLine(n), FileLine(p, n), "", rest);
  }

  lemma FiveLines(a: string, b: string, c: string, d: string, e: string, rest: string)
    requires '\n' !in a && '\n' !in b && '\n' !in c && '\n' !in d && '\n' !in e
    ensures Lines(a + "\n" + (b + "\n" + (c + "\n" + (d + "\n" + (e + "\n" + rest))))) == [a, b, c, d, e] + Lines(rest)
  {
    var t4 := e + "\n" + rest;
    var t3 := d + "\n" + t4;
    var t2 := c + "\n" + t3;
    var t1 := b + "\n" + t2;
    LineThenRest(e, rest);
    LineThenRest(d, t4);
    LineThenRest(c, t3);
    LineThenRest(b, t2);
    LineThenRest(a, t1);
  }

  lemma MarkerSpelled(n: string)
    ensures MarkerLine(n) == "# arca-dns-zone: " + n
  {
    assert "# arca-dns-zone:" + " " == "# arca-dns-zone: ";
  }

  lemma {:induction false} BodyLines(p: Paths, names: seq<string>)
    requires Renderable(p) && forall n <- names :: Managed(n)
    ensures |Lines(Body(p, names))| == 5 * |names| + 1
    ensures forall i :: 0 <= i < |names| ==> StanzaAt(Lines(Body(p, names)), 5 * i, names[i], p.zoneFile(names[i]))
  {
    if names != [] {
      var rest := Body(p, names[1..]);
      BodyLines(p, names[1..]);
      StanzaLines(p, names[0], rest);
      MarkerSpelled(names[0]);
      var lines := Lines(Body(p, names));
      forall i | 0 <= i < |names| ensures StanzaAt(lines, 5 * i, names[i], p.zoneFile(names[i])) {
        if i > 0 {
          assert StanzaAt(Lines(rest), 5 * (i - 1), names[1..][i - 1], p.zoneFile(names[1..][i - 1]));
          assert forall j :: 5 <= j < |lines| ==> lines[j] == Lines(rest)[j - 5];
        }
      }
    }
  }

  lemma HeaderLines(p: Paths, body: string)
    requires Renderable(p)
    ensures |Lines(HeaderThen(p, body))| == 4 + |Lines(body)|
    ensures Lines(HeaderThen(p, body))[2] == "# include: \"" + p.config + "\""
    ensures forall j :: 0 <= j < |Lines(body)| ==> Lines(HeaderThen(p, body))[j + 4] == Lines(body)[j]
  {
    CommentLines(GENERATED, HOWTO);
    IncludeLineMeaning(p);
    LineThenRest("", body);
    LineThenRest(IncludeLine(p), "" + "\n" + body);
    LineThenRest(HOWTO, IncludeLine(p) + "\n" + ("" + "\n" + body));
    LineThenRest(GENERATED, HOWTO + "\n" + (IncludeLine(p) + "\n" + ("" + "\n" + body)));
  }

  /** A rendered file holds one stanza per zone, which names the zone and its own zone file, below a header of
      four lines, and nothing else. */
  lemma RenderingNamesZones(p: Paths, zones: set<string>, text: string)
    requires Renderable(p) && (forall z <- zones :: Managed(z)) && IsRendering(p, zones, text)
    ensures |Lines(text)| == 4 + 5 * |zones| + 1 && Lines(text)[2] == "# include: \"" + p.config + "\""
    ensures forall z :: z in zones ==> exists k: nat :: StanzaAt(Lines(text), k, z, p.zoneFile(z))
  {
    var names: seq<string> :| StrictlySorted(StringLess, names) && Elements(names) == zones && text == HeaderThen(p, Body(p, names));
    assert forall n <- names :: n in Elements(names);
    StringLessIsStrictTotalOrder();
    SortedIsDistinct(StringLess, names);
    DistinctCardinality(names);
    ListingNamesZones(p, names);
    forall z | z in zones ensures exists k: nat :: StanzaAt(Lines(text), k, z, p.zoneFile(z)) {
      assert z in Elements(names);
      var i :| 0 <= i < |names| && names[i] == z;
      assert StanzaAt(Lines(text), 5 * i + 4, z, p.zoneFile(z));
    }
  }

  lemma ListingNamesZones(p: Paths, names: seq<string>)
    requires Renderable(p) && forall n <- names :: Managed(n)
    ensures var lines := Lines(HeaderThen(p, Body(p, names)));
            && |lines| == 4 + 5 * |names| + 1
            && lines[2] == "# include: \"" + p.config + "\""
            && forall i :: 0 <= i < |names| ==> StanzaAt(lines, 5 * i + 4, names[i], p.zoneFile(names[i]))
  {
    BodyLines(p, names);
    HeaderLines(p, Body(p, names));
    var lines, body := Lines(HeaderThen(p, Body(p, names))), Lines(Body(p, names));
    forall i | 0 <= i < |names| ensures StanzaAt(lines, 5 * i + 4, names[i], p.zoneFile(names[i])) {
      assert StanzaAt(body, 5 * i, names[i], p.zoneFile(names[i]));
      assert lines[5 * i + 4] == body[5 * i] && lines[5 * i + 1 + 4] == body[5 * i + 1];
      assert lines[5 * i + 2 + 4] == body[5 * i + 2] && lines[5 * i + 3 + 4] == body[5 * i + 3];
    }
  }

  /** Everything a parse accepts is a managed name. */
  lemma {:induction false} MergedAreNamed(ms: seq<LineMeaning>, z: string)
    requires MergeAll(ms).Some? && z in MergeAll(ms).value
    ensures Names(z) in ms
  {
    if ms[0] != Names(z) {
      MergedAreNamed(ms[1..], z);
    }
  }

  lemma ParsedAreManaged(lines: seq<string>)
    ensures ParseLines(lines).Some? ==> forall z <- ParseLines(lines).value :: Managed(z)
  {
    if ParseLines(lines).Some? {
      forall z | z in ParseLines(lines).value ensures Managed(z) {
        MergedAreNamed(Meanings(lines), z);
        var i :| 0 <= i < |lines| && Meanings(lines)[i] == Names(z);
        NormalizeIsIdempotent(TrimSpace(TrimSpace(lines[i])[|MARKER|..]));
      }
    }
  }

  class Controller {
    const paths: Paths
    /** The managed file; a missing file reads as empty. */
    var file: string

    constructor (paths: Paths)
      ensures this.paths == paths && file == ""
    {
      this.paths := paths;
      file := "";
    }

    /** EnsureZone and DeleteZone: check the paths, read, edit the set, render, write only if the text
        differs. Whether the file can be read and written is an input. */
    method Update(change: Change, readable: bool, writable: bool) returns (changed: Option<bool>)
      requires Joins(paths)
      modifies this
      ensures changed.None? <==> !ValidZoneName(NormalizeZoneName(change.zone))
                                 || !ValidPath(paths.config) || !ValidPath(paths.dir)
                                 || !readable || Parse(old(file)).None?
                                 || (!writable && !IsRendering(paths, change.Applied(Parse(old(file)).value), old(file)))
      ensures changed.None? ==> file == old(file)
      ensures changed.Some? ==>
                && IsRendering(paths, change.Applied(Parse(old(file)).value), file)
                && (changed.value <==> file != old(file))
                && Parse(file) == Some(change.Applied(Parse(old(file)).value))
                && (change.Ensure? ==> Parse(file).value == Parse(old(file)).value + {NormalizeZoneName(change.zone)})
                && (change.Remove? ==> Parse(file).value == Parse(old(file)).value - {NormalizeZoneName(change.zone)})
    {
      var normalized := NormalizeZoneName(change.zone);
      NormalizeIsIdempotent(change.zone);
      if !ValidZoneName(normalized) {
        return None;
      }
      if !ValidPath(paths.config) || !ValidPath(paths.dir) {
        return None;
      }
      if !readable {
        return None;
      }
      var zones := ReadManagedZoneConfig(file);
      if zones.None? {
        return None;
      }
      ParsedAreManaged(Lines(file));
      var edited := if change.Ensure? then zones.value + {normalized} else zones.value - {normalized};
      assert Managed(normalized);
      var after, _ := RenderManagedZoneConfig(paths, edited);
      RenderRoundTrip(paths, edited, after);
      if file == after {
        return Some(false);
      }
      if !writable {
        if IsRendering(paths, edited, file) {
          RenderingIsUnique(paths, edited, file, after);
        }
        return None;
      }
      file := after;
      return Some(true);
    }
  }

  /** Ensuring a zone that a rendered file already lists leaves the text as it is. */
  lemma ReEnsureChangesNothing(p: Paths, zones: set<string>, zone: string, text: string, after: string)
    requires IsRendering(p, zones, text) && NormalizeZoneName(zone) in zones
    requires IsRendering(p, Ensure(zone).Applied(zones), after)
    ensures after == text
  {
    assert Ensure(zone).Applied(zones) == zones;
    RenderingIsUnique(p, zones, text, after);
  }

  /** Ensuring a new zone and deleting it again restores the original text. */
  lemma EnsureThenRemoveRestores(p: Paths, zones: set<string>, zone: string, text: string, mid: string, after: string)
    requires Renderable(p) && (forall z <- zones :: Managed(z)) && Managed(NormalizeZoneName(zone))
    requires IsRendering(p, zones, text) && NormalizeZoneName(zone) !in zones
    requires IsRendering(p, Ensure(zone).Applied(zones), mid)
    requires Parse(mid).Some? ==> IsRendering(p, Remove(zone).Applied(Parse(mid).value), after)
    ensures after == text
  {
    RenderRoundTrip(p, Ensure(zone).Applied(zones), mid);
    assert Remove(zone).Applied(Ensure(zone).Applied(zones)) == zones;
    RenderingIsUnique(p, zones, text, after);
  }
}
