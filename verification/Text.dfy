/** The string library calls that the text parsers use. */
module Text {

  /** strings.Split(s, sep) for a one-character separator */
  function SplitOn(sep: char, s: string): (r: seq<string>)
    ensures r != []
  {
    if s == "" then [""]
    else
      var rest := SplitOn(sep, s[1..]);
      if s[0] == sep then [""] + rest else [[s[0]] + rest[0]] + rest[1..]
  }

  function Lines(s: string): (r: seq<string>)
    ensures r != []
  {
    SplitOn('\n', s)
  }

  predicate Space(c: char) {
    c == ' ' || '\t' <= c <= '\r'
  }

  /** strings.TrimSpace on ASCII text */
  function TrimSpace(s: string): string
    decreases |s|
  {
    if s != "" && Space(s[0]) then TrimSpace(s[1..])
    else if s != "" && Space(s[|s| - 1]) then TrimSpace(s[..|s| - 1])
    else s
  }

  lemma {:induction false} OnePart(sep: char, s: string)
    requires sep !in s
    ensures SplitOn(sep, s) == [s]
  {
    if s != "" {
      OnePart(sep, s[1..]);
      assert s == [s[0]] + s[1..];
    }
  }

  lemma {:induction false} PartThenRest(sep: char, part: string, rest: string)
    requires sep !in part
    ensures SplitOn(sep, part + [sep] + rest) == [part] + SplitOn(sep, rest)
  {
    var s := part + [sep] + rest;
    if part == "" {
      assert s[1..] == rest;
    } else {
      PartThenRest(sep, part[1..], rest);
      assert s[1..] == part[1..] + [sep] + rest;
      assert part == [part[0]] + part[1..];
      assert ([part[1..]] + SplitOn(sep, rest))[1..] == SplitOn(sep, rest);
    }
  }

  lemma OneLine(s: string)
    requires '\n' !in s
    ensures Lines(s) == [s]
  {
    OnePart('\n', s);
  }

  lemma LineThenRest(line: string, rest: string)
    requires '\n' !in line
    ensures Lines(line + "\n" + rest) == [line] + Lines(rest)
  {
    PartThenRest('\n', line, rest);
  }

  lemma {:induction false} EveryCharIsInAPart(sep: char, s: string, c: char)
    requires c in s && c != sep
    ensures exists i :: 0 <= i < |SplitOn(sep, s)| && c in SplitOn(sep, s)[i]
  {
    var parts := SplitOn(sep, s);
    var rest := SplitOn(sep, s[1..]);
    if c == s[0] {
      assert c in parts[0];
    } else {
      assert s == [s[0]] + s[1..];
      EveryCharIsInAPart(sep, s[1..], c);
      var i :| 0 <= i < |rest| && c in rest[i];
      if s[0] == sep {
        assert parts[i + 1] == rest[i];
      } else if i == 0 {
        assert c in parts[0];
      } else {
        assert parts[i] == rest[i];
      }
    }
  }

  /** Without an empty part after the first, no separator is last or followed by another. */
  lemma {:induction false} NoEmptyPart(sep: char, s: string, i: nat)
    requires "" !in SplitOn(sep, s)[1..] && i < |s| && s[i] == sep
    ensures i + 1 < |s| && s[i + 1] != sep
  {
    var parts, rest := SplitOn(sep, s), SplitOn(sep, s[1..]);
    if i == 0 {
      assert parts[1..] == rest && rest[0] in rest;
    } else {
      assert parts[1..] == if s[0] == sep then rest else rest[1..];
      NoEmptyPart(sep, s[1..], i - 1);
    }
  }

  function Join(sep: char, parts: seq<string>): string
    requires parts != []
  {
    if |parts| == 1 then parts[0] else parts[0] + [sep] + Join(sep, parts[1..])
  }

  /** Splitting takes nothing away and leaves no separator in a part ... */
  lemma {:induction false} SplitThenJoin(sep: char, s: string)
    ensures Join(sep, SplitOn(sep, s)) == s && forall p <- SplitOn(sep, s) :: sep !in p
  {
    if s != "" {
      SplitThenJoin(sep, s[1..]);
      var parts, rest := SplitOn(sep, s), SplitOn(sep, s[1..]);
      assert s == [s[0]] + s[1..];
      if s[0] == sep {
        assert parts[1..] == rest;
      } else {
        assert parts[1..] == rest[1..];
        assert forall p <- parts :: p == [s[0]] + rest[0] || p in rest;
      }
    }
  }

  /** ... and undoes joining. */
  lemma {:induction false} JoinThenSplit(sep: char, parts: seq<string>)
    requires parts != [] && forall p <- parts :: sep !in p
    ensures SplitOn(sep, Join(sep, parts)) == parts
  {
    if |parts| == 1 {
      OnePart(sep, parts[0]);
    } else {
      JoinThenSplit(sep, parts[1..]);
      PartThenRest(sep, parts[0], Join(sep, parts[1..]));
      assert parts == [parts[0]] + parts[1..];
    }
  }

  /** The ASCII characters that strings.TrimSpace takes for blanks. */
  predicate White(c: char) {
    c == ' ' || c == '\t' || c == '\n' || c == '\U{0b}' || c == '\U{0c}' || c == '\r'
  }

  ghost predicate Spaces(s: string) {
    forall i :: 0 <= i < |s| ==> White(s[i])
  }

  ghost predicate Tight(s: string) {
    s == "" || (!White(s[0]) && !White(s[|s| - 1]))
  }

  lemma SpaceMeaning(c: char)
    ensures Space(c) <==> White(c)
  {
  }

  /** Trimming takes off all blanks at both ends and nothing else. */
  lemma {:induction false} TrimOfPadded(pre: string, s: string, post: string)
    requires Spaces(pre) && Spaces(post) && Tight(s)
    ensures TrimSpace(pre + s + post) == s
    decreases |pre| + |post|, |post|
  {
    var t := pre + s + post;
    if pre != "" {
      assert t[0] == pre[0] && t[1..] == pre[1..] + s + post;
      SpaceMeaning(t[0]);
      TrimOfPadded(pre[1..], s, post);
    } else if s != "" && post != "" {
      assert t[0] == s[0] && t[|t| - 1] == post[|post| - 1] && t[..|t| - 1] == pre + s + post[..|post| - 1];
      SpaceMeaning(t[0]);
      SpaceMeaning(t[|t| - 1]);
      TrimOfPadded(pre, s, post[..|post| - 1]);
    } else if post != "" {
      assert t == post + "" + "";
      TrimOfPadded(post, "", "");
    } else if s != "" {
      assert t == s;
      SpaceMeaning(s[0]);
      SpaceMeaning(s[|s| - 1]);
    }
  }

  lemma {:induction false} TrimIsTight(s: string)
    ensures Tight(TrimSpace(s))
    decreases |s|
  {
    if s != "" {
      SpaceMeaning(s[0]);
      SpaceMeaning(s[|s| - 1]);
      if Space(s[0]) {
        TrimIsTight(s[1..]);
      } else if Space(s[|s| - 1]) {
        TrimIsTight(s[..|s| - 1]);
      }
    }
  }

  lemma TrimOfTight(s: string)
    requires s == "" || (!Space(s[0]) && !Space(s[|s| - 1]))
    ensures TrimSpace(s) == s
  {
  }

  lemma TrimOfIndented(s: string)
    ensures TrimSpace(" " + s) == TrimSpace(s)
  {
    assert (" " + s)[1..] == s;
  }
}
