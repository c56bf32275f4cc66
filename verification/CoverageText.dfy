/** The text of a coverage baseline: one line for each test case, quoted and escaped. */
module CoverageText {
  import opened Options

  /** What a case did on a device. */
  datatype Case = Ran | Skipped(why: string) {
    function Reason(): string {
      if Ran? then "ran" else why
    }
  }

  datatype Entry = Entry(name: string, case_: Case)

  type Cases = map<string, Case>

  // ----- Escaping

  /** Every `c` replaced. */
  function Replace(s: string, c: char, with: string): string {
    if s == [] then [] else (if s[0] == c then with else [s[0]]) + Replace(s[1..], c, with)
  }

  function Escape(s: string): string {
    Replace(Replace(s, '\\', "\\\\"), '"', "\\\"")
  }

  function Unescaped(s: string): string {
    if s == [] then []
    else if s[0] == '\\' then
      if |s| == 1 then "\\" else [s[1]] + Unescaped(s[2..])
    else [s[0]] + Unescaped(s[1..])
  }

  method Unescape(s: string) returns (out: string)
    ensures out == Unescaped(s)
  {
    hide Unescaped;
    out := [];
    var i := 0;
    assert s[0..] == s;
    while i < |s|
      invariant i <= |s| && Unescaped(s) == out + Unescaped(s[i..])
    {
      UnescapeStep(s, i);
      if s[i] == '\\' {
        if i + 1 < |s| {
          out := out + [s[i + 1]];
          i := i + 2;
        } else {
          out := out + ['\\'];
          i := i + 1;
        }
      } else {
        out := out + [s[i]];
        i := i + 1;
      }
    }
    NothingUnescaped(s);
  }

  lemma UnescapeStep(s: string, i: nat)
    requires i < |s|
    ensures s[i] == '\\' && i + 1 < |s| ==> Unescaped(s[i..]) == [s[i + 1]] + Unescaped(s[i + 2..])
    ensures s[i] == '\\' && i + 1 == |s| ==> Unescaped(s[i..]) == ['\\'] + Unescaped(s[i + 1..])
    ensures s[i] != '\\' ==> Unescaped(s[i..]) == [s[i]] + Unescaped(s[i + 1..])
  {
    assert s[i..][1..] == s[i + 1..];
    if i + 1 < |s| {
      assert s[i..][2..] == s[i + 2..];
    }
  }

  lemma NothingUnescaped(s: string)
    ensures Unescaped(s[|s|..]) == []
  {}

  lemma {:induction false} ReplaceTogether(a: string, b: string, c: char, with: string)
    ensures Replace(a + b, c, with) == Replace(a, c, with) + Replace(b, c, with)
  {
    if a == [] {
      assert a + b == b;
    } else {
      assert (a + b)[1..] == a[1..] + b;
      ReplaceTogether(a[1..], b, c, with);
    }
  }

  /** The two replacements escape every character on its own. */
  lemma EscapeFirst(s: string)
    requires s != []
    ensures Escape(s) == (if s[0] == '\\' || s[0] == '"' then ['\\', s[0]] else [s[0]]) + Escape(s[1..])
  {
    var first := if s[0] == '\\' then "\\\\" else [s[0]];
    ReplaceTogether(first, Replace(s[1..], '\\', "\\\\"), '"', "\\\"");
    ReplaceOne(s[0]);
  }

  lemma ReplaceOne(c: char)
    ensures Replace([c], '"', "\\\"") == if c == '"' then "\\\"" else [c]
    ensures Replace("\\\\", '"', "\\\"") == "\\\\"
  {
    assert [c][1..] == [];
    assert "\\\\"[1..] == "\\" && "\\"[1..] == [];
    assert Replace("\\", '"', "\\\"") == "\\";
  }

  /** Escaping is undone, however many quotes and backslashes there are. */
  lemma {:induction false} UnescapeEscape(s: string)
    ensures Unescaped(Escape(s)) == s
  {
    if s != [] {
      EscapeFirst(s);
      UnescapeEscape(s[1..]);
      var e := Escape(s);
      if s[0] == '\\' || s[0] == '"' {
        assert e[2..] == Escape(s[1..]);
      } else {
        assert e[1..] == Escape(s[1..]);
      }
    }
  }

  /** Nothing is escaped: a backslash can only be the last character. */
  predicate NoEscapes(s: string) {
    forall i :: 0 <= i < |s| - 1 ==> s[i] != '\\'
  }

  /** A text without escapes is left alone; one with any gets shorter. */
  lemma {:induction false} UnescapeShortens(s: string)
    ensures if NoEscapes(s) then Unescaped(s) == s else |Unescaped(s)| < |s|
  {
    if |s| > 1 {
      if s[0] == '\\' {
        UnescapeShortens(s[2..]);
      } else {
        UnescapeShortens(s[1..]);
        assert NoEscapes(s) <==> NoEscapes(s[1..]);
      }
    }
  }

  lemma {:induction false} EscapeHasNo(s: string, c: char)
    requires c !in s && c != '\\'
    ensures c !in Escape(s)
  {
    if s != [] {
      EscapeFirst(s);
      EscapeHasNo(s[1..], c);
    }
  }

  lemma {:induction false} UnescapedFrom(s: string, c: char)
    requires c !in s && c != '\\'
    ensures c !in Unescaped(s)
  {
    if s != [] {
      if s[0] == '\\' {
        if |s| > 1 {
          UnescapedFrom(s[2..], c);
        }
      } else {
        UnescapedFrom(s[1..], c);
      }
    }
  }

  // ----- Lines

  predicate IsSpace(c: char) {
    c in {' ', '\t', '\n', '\r', '\U{000B}', '\U{000C}', '\U{0085}', '\U{00A0}', '\U{1680}',
          '\U{2000}', '\U{2001}', '\U{2002}', '\U{2003}', '\U{2004}', '\U{2005}', '\U{2006}', '\U{2007}', '\U{2008}',
          '\U{2009}', '\U{200A}', '\U{2028}', '\U{2029}', '\U{202F}', '\U{205F}', '\U{3000}'}
  }

  lemma NotSpaces()
    ensures !IsSpace('"') && !IsSpace(',') && !IsSpace('{') && !IsSpace('}') && IsSpace(' ')
  {}

  function TrimStart(s: string): string {
    if s != [] && IsSpace(s[0]) then TrimStart(s[1..]) else s
  }

  function TrimEnd(s: string): string {
    if s != [] && IsSpace(s[|s| - 1]) then TrimEnd(s[..|s| - 1]) else s
  }

  function TrimCommas(s: string): string {
    if s != [] && s[|s| - 1] == ',' then TrimCommas(s[..|s| - 1]) else s
  }

  /** A line's end may be a carriage return and a newline. */
  function StripReturn(s: string): string {
    if s != [] && s[|s| - 1] == '\r' then s[..|s| - 1] else s
  }

  function Find(s: string, pattern: string): (at: Option<nat>)
    ensures at.Some? ==> at.value + |pattern| <= |s|
  {
    if |s| < |pattern| then None
    else if s[..|pattern|] == pattern then Some(0)
    else if s == [] then None
    else
      match Find(s[1..], pattern)
      case None => None
      case Some(at) => Some(at + 1)
  }

  function FindLast(s: string, c: char): (at: Option<nat>)
    ensures at.Some? ==> at.value < |s|
  {
    if s == [] then None
    else if s[|s| - 1] == c then Some(|s| - 1)
    else FindLast(s[..|s| - 1], c)
  }

  /** The lines of a text, their ends taken off. */
  function Lines(text: string): seq<string> {
    match Find(text, "\n")
    case None => if text == [] then [] else [text]
    case Some(at) => [StripReturn(text[..at])] + Lines(text[at + 1..])
  }

  predicate Occurs(s: string, pattern: string, i: nat) {
    i + |pattern| <= |s| && s[i..i + |pattern|] == pattern
  }

  /** What is found is the first place the pattern occurs, if it does. */
  lemma {:induction false} FindIsFirst(s: string, pattern: string)
    requires pattern != []
    ensures match Find(s, pattern)
      case None => forall i: nat :: !Occurs(s, pattern, i)
      case Some(k) => Occurs(s, pattern, k) && forall i: nat :: i < k ==> !Occurs(s, pattern, i)
  {
    if |s| >= |pattern| && s[..|pattern|] != pattern {
      FindIsFirst(s[1..], pattern);
      OccursFirst(s, pattern);
      hide Occurs;
      forall i: nat | i > 0
        ensures Occurs(s, pattern, i) <==> Occurs(s[1..], pattern, i - 1)
      {
        OccursLater(s, pattern, i);
      }
    }
  }

  lemma OccursFirst(s: string, pattern: string)
    ensures Occurs(s, pattern, 0) <==> |pattern| <= |s| && s[..|pattern|] == pattern
  {}

  lemma OccursLater(s: string, pattern: string, i: nat)
    requires i > 0 && s != []
    ensures Occurs(s, pattern, i) <==> Occurs(s[1..], pattern, i - 1)
  {
    if i + |pattern| <= |s| {
      TailSlice(s, i, |pattern|);
    }
  }

  lemma TailSlice(s: string, i: nat, n: nat)
    requires i > 0 && i + n <= |s|
    ensures s[i..i + n] == s[1..][i - 1..i - 1 + n]
  {
    var a, b := s[i..i + n], s[1..][i - 1..i - 1 + n];
    assert |a| == |b| && forall k :: 0 <= k < n ==> a[k] == b[k];
  }

  lemma {:induction false} FindAt(a: string, pattern: string, b: string)
    requires pattern != [] && pattern[0] !in a
    ensures Find(a + pattern + b, pattern) == Some(|a|)
  {
    var s := a + pattern + b;
    if a == [] {
      assert s[..|pattern|] == pattern;
    } else {
      assert s[..|pattern|][0] == a[0];
      assert s[1..] == a[1..] + pattern + b;
      FindAt(a[1..], pattern, b);
    }
  }

  lemma {:induction false} NotFound(s: string, c: char)
    ensures Find(s, [c]).None? ==> c !in s
    ensures Find(s, [c]).Some? ==> c !in s[..Find(s, [c]).value]
  {
    if s != [] {
      NotFound(s[1..], c);
      assert s[..1] == [c] <==> s[0] == c;
      var at := Find(s, [c]);
      if at.Some? && at.value > 0 {
        assert s[..at.value] == [s[0]] + s[1..][..at.value - 1];
      }
    }
  }

  lemma {:induction false} LinesHaveNone(text: string, line: string)
    requires line in Lines(text)
    ensures '\n' !in line
  {
    NotFound(text, '\n');
    var at := Find(text, "\n");
    if at.Some? && line in Lines(text[at.value + 1..]) {
      LinesHaveNone(text[at.value + 1..], line);
    }
  }

  /** Lines written out, each ended by a newline. */
  function Terminated(lines: seq<string>): string {
    if lines == [] then [] else Terminated(lines[..|lines| - 1]) + lines[|lines| - 1] + "\n"
  }

  lemma {:induction false} TerminatedFirst(lines: seq<string>)
    requires lines != []
    ensures Terminated(lines) == lines[0] + "\n" + Terminated(lines[1..])
  {
    if |lines| > 1 {
      var init := lines[..|lines| - 1];
      TerminatedFirst(init);
      assert init[1..] == lines[1..][..|lines| - 2];
      assert Terminated(lines[1..]) == Terminated(init[1..]) + lines[|lines| - 1] + "\n";
    }
  }

  predicate IsLine(s: string) {
    '\n' !in s && (s == [] || s[|s| - 1] != '\r')
  }

  lemma NoLines()
    ensures Terminated([]) == [] && Lines([]) == []
  {}

  lemma FirstLine(line: string, rest: string)
    requires '\n' !in line
    ensures Lines(line + "\n" + rest) == [StripReturn(line)] + Lines(rest)
  {
    hide StripReturn;
    var text := line + "\n" + rest;
    FindAt(line, "\n", rest);
    assert text[..|line|] == line && text[|line| + 1..] == rest;
  }

  lemma Ended(line: string, ended: string)
    requires IsLine(line) && (ended == line || ended == line + "\r")
    ensures '\n' !in ended && StripReturn(ended) == line
  {}

  /** Lines come back whether they end in a newline or in a carriage return and a newline. */
  lemma {:induction false} EndsStripped(lines: seq<string>, ended: seq<string>)
    requires |ended| == |lines| && forall line :: line in lines ==> IsLine(line)
    requires forall i :: 0 <= i < |lines| ==> ended[i] == lines[i] || ended[i] == lines[i] + "\r"
    ensures Lines(Terminated(ended)) == lines
  {
    hide Lines, Terminated, IsLine, StripReturn;
    NoLines();
    if lines != [] {
      assert lines[0] in lines;
      TerminatedFirst(ended);
      Ended(lines[0], ended[0]);
      FirstLine(ended[0], Terminated(ended[1..]));
      EndsStripped(lines[1..], ended[1..]);
    }
  }

  /** Reading lines back. */
  lemma {:induction false} LinesTerminated(lines: seq<string>)
    requires forall line :: line in lines ==> IsLine(line)
    ensures Lines(Terminated(lines)) == lines
  {
    if lines != [] {
      assert lines[0] in lines;
      TerminatedFirst(lines);
      FirstLine(lines[0], Terminated(lines[1..]));
      LinesTerminated(lines[1..]);
    }
  }
}
