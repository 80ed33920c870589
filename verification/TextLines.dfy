/** What the lines of a text are, and what trimming leaves (src/font.rs:179-194, 227-236). */
module TextLines {
  import opened Prelude
  import opened LineBreaking

  /** Trimming takes off all white space at the end, and only that. */
  lemma {:induction false} TrimTakesTrailingSpace(m: Metrics, s: string)
    ensures var r := Trim(m, s);
            && r <= s && (forall k :: |r| <= k < |s| ==> m.space(s[k]))
            && (r != "" ==> !m.space(r[|r| - 1]))
    decreases |s|
  {
    if s != "" && m.space(s[|s| - 1]) { TrimTakesTrailingSpace(m, s[..|s| - 1]); }
  }

  /** Lines and the line ends after them, put together again. */
  function Joined(lines: seq<string>, ends: seq<string>): string
    requires |lines| == |ends|
  {
    if lines == [] then "" else lines[0] + ends[0] + Joined(lines[1..], ends[1..])
  }

  /**
   A line and how it ends: with a newline, perhaps after a carriage return, which then is not the
   line's; only the last one may end with the text, and then is not empty.
   */
  predicate LineOk(line: string, end: string, last: bool) {
    && '\n' !in line
    && (|| end == "\r\n"
        || (end == "\n" && !(line != "" && line[|line| - 1] == '\r'))
        || (end == "" && last && line != ""))
  }

  predicate SplitsInto(s: string, lines: seq<string>, ends: seq<string>) {
    && |lines| == |ends| && Joined(lines, ends) == s
    && forall k :: 0 <= k < |lines| ==> LineOk(lines[k], ends[k], k == |lines| - 1)
  }

  function Newlines(s: string): nat {
    if s == "" then 0 else (if s[0] == '\n' then 1 else 0) + Newlines(s[1..])
  }

  /** What ends the first line of a text. */
  function FirstEnd(s: string): (r: (string, string))
    requires s != ""
  {
    var i := NewlineIn(s);
    if i == |s| then (s, "")
    else if i > 0 && s[i - 1] == '\r' then (s[..i - 1], "\r\n") else (s[..i], "\n")
  }

  lemma {:induction false} FirstLineEnds(s: string)
    requires s != "" && NewlineIn(s) < |s|
    ensures var (line, end) := FirstEnd(s);
            && line + end == s[..NewlineIn(s) + 1] && line == WithoutCr(s[..NewlineIn(s)])
            && LineOk(line, end, false)
  {
    var i := NewlineIn(s);
    assert s[..i + 1] == s[..i] + "\n";
    if i > 0 && s[i - 1] == '\r' { assert s[..i] == s[..i - 1] + "\r"; }
  }

  lemma {:induction false} FirstLine(s: string)
    requires s != ""
    ensures var (line, end) := FirstEnd(s);
            && line + end <= s && LineOk(line, end, line + end == s) && Lines(s) == [line] + Lines(s[|line + end|..])
            && line + end != ""
  {
    hide LineOk;
    var i := NewlineIn(s);
    if i == |s| {
      assert Lines(s[i..]) == [];
      assert s[..i] == s && s + "" == s;
      LastLineOk(s);
    } else {
      FirstLineEnds(s);
      var (line, end) := FirstEnd(s);
      NotOnlyLast(line, end, line + end == s);
    }
  }

  lemma LastLineOk(s: string)
    requires s != "" && '\n' !in s
    ensures LineOk(s, "", true)
  {
  }

  lemma NotOnlyLast(line: string, end: string, last: bool)
    requires LineOk(line, end, false)
    ensures LineOk(line, end, last)
  {
  }

  /** The lines of a text are such a split: one for each newline, blank ones included, and one for what is left. */
  lemma {:induction false} LinesSplit(s: string) returns (ends: seq<string>)
    ensures SplitsInto(s, Lines(s), ends)
    ensures |Lines(s)| == Newlines(s) + (if s != "" && s[|s| - 1] != '\n' then 1 else 0)
    decreases |s|
  {
    if s == "" {
      ends := [];
    } else {
      var (line, end) := FirstEnd(s);
      FirstLine(s);
      var rest := s[|line + end|..];
      var others := LinesSplit(rest);
      ends := [end] + others;
      var lines := Lines(s);
      assert lines[1..] == Lines(rest) && ends[1..] == others && s == line + end + rest;
      forall k | 0 <= k < |lines| ensures LineOk(lines[k], ends[k], k == |lines| - 1) {
        if k > 0 {
          assert LineOk(Lines(rest)[k - 1], others[k - 1], k - 1 == |Lines(rest)| - 1);
        } else if rest != "" {
          FirstLine(rest);
        }
      }
      NewlinesOfLine(line, end, rest);
    }
  }

  lemma {:induction false} NewlinesOfLine(line: string, end: string, rest: string)
    requires '\n' !in line && (end == "" || end == "\n" || end == "\r\n")
    ensures Newlines(line + end + rest) == Newlines(rest) + (if end == "" then 0 else 1)
    decreases |line|
  {
    var s := line + end + rest;
    if line != "" {
      assert s[1..] == line[1..] + end + rest;
      NewlinesOfLine(line[1..], end, rest);
    } else if end == "\n" {
      assert s[1..] == rest;
    } else if end == "\r\n" {
      assert s[1..][1..] == rest && s[1..][0] == '\n';
    } else {
      assert s == rest;
    }
  }

  /** Where the first newline is, if the first line ends with one. */
  lemma {:induction false} NewlineAfter(line: string, end: string, rest: string)
    requires LineOk(line, end, rest == "")
    ensures NewlineIn(line + end + rest) == |line| + (if end == "\r\n" then 1 else 0)
  {
    var s := line + end + rest;
    var at := |line| + (if end == "\r\n" then 1 else 0);
    assert forall k :: 0 <= k < |line| ==> s[k] == line[k] && line[k] in line;
    assert forall k :: 0 <= k < at ==> s[k] != '\n';
    if at < |s| { NewlineIsAt(s, at); } else { assert '\n' !in s; }
  }

  lemma {:induction false} NewlineIsAt(s: string, i: nat)
    requires i < |s| && s[i] == '\n' && forall k :: 0 <= k < i ==> s[k] != '\n'
    ensures NewlineIn(s) == i
    decreases i
  {
    if i > 0 { NewlineIsAt(s[1..], i - 1); }
  }

  lemma {:induction false} FirstLineOf(line: string, end: string, rest: string)
    requires LineOk(line, end, rest == "") && line + end + rest != ""
    ensures Lines(line + end + rest) == [line] + Lines(rest)
  {
    var s := line + end + rest;
    NewlineAfter(line, end, rest);
    if end == "" {
      assert s == line && rest == "" && Lines(rest) == [];
    } else if end == "\n" {
      assert s[..|line|] == line && s[|line| + 1..] == rest;
    } else {
      assert s[..|line| + 1] == line + "\r" && s[|line| + 2..] == rest;
    }
  }

  /** There is no other such split. */
  lemma {:induction false} SplitIsUnique(s: string, lines: seq<string>, ends: seq<string>)
    requires SplitsInto(s, lines, ends)
    ensures lines == Lines(s)
    decreases |lines|
  {
    if lines != [] {
      var rest := Joined(lines[1..], ends[1..]);
      forall k | 0 <= k < |lines| - 1 ensures LineOk(lines[1..][k], ends[1..][k], k == |lines[1..]| - 1) {
        assert LineOk(lines[k + 1], ends[k + 1], k + 1 == |lines| - 1);
      }
      SplitIsUnique(rest, lines[1..], ends[1..]);
      assert LineOk(lines[0], ends[0], 0 == |lines| - 1);
      if |lines| > 1 {
        assert LineOk(lines[1..][0], ends[1..][0], |lines[1..]| == 1);
        SomethingJoined(lines[1..], ends[1..]);
      }
      FirstLineOf(lines[0], ends[0], rest);
    }
  }

  /** Lines join to something. */
  lemma SomethingJoined(lines: seq<string>, ends: seq<string>)
    requires |lines| == |ends| && lines != [] && LineOk(lines[0], ends[0], |lines| == 1)
    ensures Joined(lines, ends) != ""
  {
  }
}
