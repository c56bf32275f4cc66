/** Recording which test cases ran on a device, and telling when a later run covers less. */
module Coverage {
  import opened CoverageText
  import opened Options

  // ----- Printing

  function Line(e: Entry): string {
    "  \"" + e.name + "\": \"" + Escape(e.case_.Reason()) + "\""
  }

  /** Lines separated by commas. */
  function Body(entries: seq<Entry>): string {
    if entries == [] then []
    else if |entries| == 1 then Line(entries[0])
    else Body(entries[..|entries| - 1]) + ",\n" + Line(entries[|entries| - 1])
  }

  function Rendered(entries: seq<Entry>): string {
    "{\n" + Body(entries) + "\n}\n"
  }

  method Render(entries: seq<Entry>) returns (text: string)
    ensures text == Rendered(entries)
  {
    text := "{\n";
    var first := true;
    for i := 0 to |entries|
      invariant first <==> i == 0
      invariant text == "{\n" + Body(entries[..i])
    {
      assert entries[..i + 1][..i] == entries[..i];
      if !first {
        text := text + ",\n";
      }
      first := false;
      text := text + Line(entries[i]);
    }
    assert entries[..|entries|] == entries;
    text := text + "\n}\n";
  }

  // ----- Parsing

  /** The case a line records, if it records one. */
  function ParsedLine(line: string): Option<Entry> {
    var trimmed := TrimCommas(TrimEnd(TrimStart(line)));
    if trimmed == [] || trimmed[0] != '"' then None else
      var rest := trimmed[1..];
      match Find(rest, "\": \"")
      case None => None
      case Some(at) =>
        var quoted := rest[at + 4..];
        var value := if FindLast(quoted, '"').Some? then quoted[..FindLast(quoted, '"').value] else quoted;
        Some(Entry(Unescaped(rest[..at]), if Unescaped(value) == "ran" then Ran else Skipped(Unescaped(value))))
  }

  /** The cases some lines record, a later one replacing an earlier one of the same name. */
  function ParsedLines(lines: seq<string>): Cases {
    if lines == [] then map[] else
      var before := ParsedLines(lines[..|lines| - 1]);
      match ParsedLine(lines[|lines| - 1])
      case None => before
      case Some(e) => before[e.name := e.case_]
  }

  /** Read a baseline back; one without cases is an error. */
  method ParseBaseline(text: string) returns (r: Option<Cases>)
    ensures r == if ParsedLines(Lines(text)) == map[] then None else Some(ParsedLines(Lines(text)))
  {
    hide TrimStart, TrimEnd, TrimCommas, Find, FindLast, Unescaped, Lines;
    var lines := Lines(text);
    var cases: Cases := map[];
    for i := 0 to |lines|
      invariant cases == ParsedLines(lines[..i])
    {
      assert lines[..i + 1][..i] == lines[..i];
      var line := TrimCommas(TrimEnd(TrimStart(lines[i])));
      if line == [] || line[0] != '"' {
        continue;
      }
      var rest := line[1..];
      var at := Find(rest, "\": \"");
      if at.None? {
        continue;
      }
      var name, value := rest[..at.value], rest[at.value + 4..];
      var end := FindLast(value, '"');
      if end.Some? {
        value := value[..end.value];
      }
      value := Unescape(value);
      name := Unescape(name);
      cases := cases[name := if value == "ran" then Ran else Skipped(value)];
    }
    assert lines[..|lines|] == lines;
    if cases == map[] {
      return None;
    }
    r := Some(cases);
  }

  // ----- Round trip

  /** The map some entries list. */
  function MapOf(entries: seq<Entry>): Cases {
    if entries == [] then map[] else MapOf(entries[..|entries| - 1])[entries[|entries| - 1].name := entries[|entries| - 1].case_]
  }

  /** What stands between a name and its reason. */
  const BETWEEN: string := "\": \""

  /** A name a line gives back: written as it is, it is one line, does not hold or begin what stands
      between it and its reason, and holds nothing that reads as an escape. */
  ghost predicate NameHolds(name: string) {
    '\n' !in name && NoEscapes(name) && forall i: nat :: !Occurs(name + "\"", BETWEEN, i)
  }

  /** Names of letters, digits, colons, spaces and the like all hold. */
  lemma PlainNamesHold(name: string)
    requires '"' !in name && '\\' !in name && '\n' !in name
    ensures NameHolds(name)
  {
    forall i: nat
      ensures !Occurs(name + "\"", BETWEEN, i)
    {
      if i + 4 <= |name| + 1 {
        assert (name + "\"")[i..i + 4][0] == name[i];
      }
    }
  }

  /** A case a baseline can hold: any reason on one line but the one that means it ran. */
  predicate Holdable(c: Case) {
    c.Skipped? ==> c.why != "ran" && '\n' !in c.why
  }

  lemma FramedTrim(s: string, comma: bool)
    requires |s| > 0 && s[0] == '"' && s[|s| - 1] == '"'
    ensures TrimCommas(TrimEnd(TrimStart("  " + s + if comma then "," else ""))) == s
  {
    hide IsSpace;
    NotSpaces();
    var t := s + if comma then "," else "";
    var line := "  " + t;
    assert line[1..] == " " + t && (" " + t)[1..] == t;
    assert TrimStart(t) == t && TrimStart(" " + t) == t && TrimStart(line) == t;
    assert line == "  " + s + if comma then "," else "";
    assert TrimEnd(t) == t;
    if comma {
      assert t[..|t| - 1] == s;
    }
  }

  /** Where a line is split: at the name's end, unless what stands between occurs before. */
  lemma SplitAt(name: string, tail: string)
    ensures
      var at := Find(name + BETWEEN + tail, BETWEEN);
      && at.Some? && at.value <= |name|
      && (at.value == |name| <==> forall i: nat :: !Occurs(name + "\"", BETWEEN, i))
  {
    var rest, short := name + BETWEEN + tail, name + "\"";
    FindIsFirst(rest, BETWEEN);
    assert Occurs(rest, BETWEEN, |name|) by {
      assert rest[|name|..|name| + 4] == BETWEEN;
    }
    forall i: nat | i < |name|
      ensures Occurs(rest, BETWEEN, i) <==> Occurs(short, BETWEEN, i)
    {
      SameBefore(name, tail, i);
    }
    forall i: nat | i >= |name|
      ensures !Occurs(short, BETWEEN, i)
    {}
  }

  lemma SameBefore(name: string, tail: string, i: nat)
    requires i < |name|
    ensures Occurs(name + BETWEEN + tail, BETWEEN, i) <==> Occurs(name + "\"", BETWEEN, i)
  {
    var rest, short := name + BETWEEN + tail, name + "\"";
    assert rest[|name|] == '"' && rest[|name| + 1] == ':';
    if i + 4 <= |short| {
      assert rest[i..i + 4] == short[i..i + 4];
    } else if i + 2 == |name| {
      assert rest[i..i + 4][2] == '"' && BETWEEN[2] == ' ';
    } else {
      assert rest[i..i + 4][1] == '"' && BETWEEN[1] == ':';
    }
  }

  /** What a line written for a case records, with or without its comma: that case, when the name
      holds; otherwise one with a shorter name. */
  lemma LineParsed(e: Entry, comma: bool)
    requires Holdable(e.case_) && '\n' !in e.name
    ensures
      var parsed := ParsedLine(Line(e) + if comma then "," else "");
      && parsed.Some?
      && (if NameHolds(e.name) then parsed == Some(e) else |parsed.value.name| < |e.name|)
  {
    hide TrimStart, TrimEnd, TrimCommas, Escape, Unescaped, Find, Occurs, NoEscapes;
    var escaped := Escape(e.case_.Reason());
    var rest := e.name + BETWEEN + (escaped + "\"");
    var quoted := "\"" + rest;
    assert Line(e) == "  " + quoted;
    assert quoted[|quoted| - 1] == '"' && quoted[1..] == rest;
    FramedTrim(quoted, comma);
    SplitAt(e.name, escaped + "\"");
    var at := Find(rest, BETWEEN).value;
    UnescapeShortens(rest[..at]);
    if at == |e.name| {
      assert rest[..at] == e.name && rest[at + 4..] == escaped + "\"";
      assert (escaped + "\"")[..|escaped|] == escaped;
      UnescapeEscape(e.case_.Reason());
    }
  }

  /** The lines of a rendered list, after `{`: all but the last of `n` end in a comma. */
  function LinesOf(entries: seq<Entry>, k: nat): seq<string>
    requires k <= |entries|
  {
    if k == 0 then ["{"] else LinesOf(entries, k - 1) + [Line(entries[k - 1]) + if k < |entries| then "," else ""]
  }

  lemma {:induction false} BodyTerminated(entries: seq<Entry>, k: nat)
    requires 0 < k <= |entries|
    ensures Terminated(LinesOf(entries, k)) == "{\n" + Body(entries[..k]) + if k < |entries| then ",\n" else "\n"
  {
    hide Line, Terminated, Body;
    var line, comma := Line(entries[k - 1]), if k < |entries| then "," else "";
    LastTerminated(LinesOf(entries, k - 1), line + comma);
    BodyNext(entries, k);
    if k == 1 {
      BraceTerminated();
      Associate("{\n", "", line, comma);
    } else {
      BodyTerminated(entries, k - 1);
      Associate("{\n", Body(entries[..k - 1]) + ",\n", line, comma);
      assert "{\n" + Body(entries[..k - 1]) + ",\n" == "{\n" + (Body(entries[..k - 1]) + ",\n");
    }
  }

  lemma BraceTerminated()
    ensures Terminated(["{"]) == "{\n"
  {
    assert ["{"][..0] == [];
  }

  lemma BodyNext(entries: seq<Entry>, k: nat)
    requires 0 < k <= |entries|
    ensures Body(entries[..k]) == (if k == 1 then "" else Body(entries[..k - 1]) + ",\n") + Line(entries[k - 1])
  {
    assert entries[..k][..k - 1] == entries[..k - 1];
  }

  lemma Associate(a: string, b: string, line: string, comma: string)
    ensures a + b + (line + comma) + "\n" == a + (b + line) + (comma + "\n")
  {}

  lemma RenderedLines(entries: seq<Entry>)
    requires entries != []
    ensures Rendered(entries) == Terminated(LinesOf(entries, |entries|) + ["}"])
  {
    hide Body, LinesOf, Terminated;
    BodyTerminated(entries, |entries|);
    assert entries[..|entries|] == entries;
    LastTerminated(LinesOf(entries, |entries|), "}");
    CloseBrace("{\n", Body(entries));
  }

  lemma LastTerminated(lines: seq<string>, last: string)
    ensures Terminated(lines + [last]) == Terminated(lines) + last + "\n"
  {
    assert (lines + [last])[..|lines|] == lines;
  }

  lemma CloseBrace(a: string, b: string)
    ensures a + b + "\n" + "}" + "\n" == a + b + "\n}\n"
  {}

  lemma LineIsLine(e: Entry, comma: bool)
    requires '\n' !in e.name && Holdable(e.case_)
    ensures IsLine(Line(e) + if comma then "," else "")
  {
    hide Escape;
    EscapeHasNo(e.case_.Reason(), '\n');
  }

  lemma {:induction false} AllLines(entries: seq<Entry>, k: nat)
    requires k <= |entries| && forall e :: e in entries ==> '\n' !in e.name && Holdable(e.case_)
    ensures forall line :: line in LinesOf(entries, k) ==> IsLine(line)
  {
    hide Line;
    if k > 0 {
      AllLines(entries, k - 1);
      assert entries[k - 1] in entries;
      LineIsLine(entries[k - 1], k < |entries|);
    }
  }

  lemma {:induction false} LinesParsed(entries: seq<Entry>, k: nat)
    requires k <= |entries| && forall e :: e in entries ==> NameHolds(e.name) && Holdable(e.case_)
    ensures ParsedLines(LinesOf(entries, k)) == MapOf(entries[..k])
  {
    hide Line, ParsedLine, NoEscapes, Occurs;
    var lines := LinesOf(entries, k);
    if k == 0 {
      BracesRecordNothing();
      assert lines[..0] == [];
    } else {
      LinesParsed(entries, k - 1);
      assert entries[k - 1] in entries;
      LineParsed(entries[k - 1], k < |entries|);
      assert lines[..|lines| - 1] == LinesOf(entries, k - 1);
      assert entries[..k][..k - 1] == entries[..k - 1];
    }
  }

  lemma BracesRecordNothing()
    ensures ParsedLine("{") == None && ParsedLine("}") == None
  {
    hide IsSpace, Find, FindLast, Unescaped;
    NotSpaces();
    assert TrimStart("{") == "{" && TrimStart("}") == "}";
    assert TrimEnd("{") == "{" && TrimEnd("}") == "}";
    assert TrimCommas("{") == "{" && TrimCommas("}") == "}";
  }

  /** What is recorded is read back exactly: any list of cases whose names hold, whatever quotes and
      backslashes their reasons do. */
  lemma RoundTrip(entries: seq<Entry>)
    requires entries != [] && forall e :: e in entries ==> NameHolds(e.name) && Holdable(e.case_)
    ensures ParsedLines(Lines(Rendered(entries))) == MapOf(entries) != map[]
  {
    hide ParsedLines, Line, Lines, Rendered, NoEscapes, Occurs;
    LinesAsWritten(entries);
    LinesParsed(entries, |entries|);
    assert entries[..|entries|] == entries;
    assert entries[|entries| - 1].name in MapOf(entries);
  }

  // ----- What cannot be recorded

  lemma {:induction false} TrimmedFrom(s: string, c: char)
    requires c !in s
    ensures c !in TrimStart(s) && c !in TrimEnd(s) && c !in TrimCommas(s)
    decreases |s|
  {
    if s != [] {
      TrimmedFrom(s[1..], c);
      TrimmedFrom(s[..|s| - 1], c);
    }
  }

  lemma LineHoldable(line: string)
    requires '\n' !in line
    ensures ParsedLine(line).Some? ==> Holdable(ParsedLine(line).value.case_)
  {
    hide TrimStart, TrimEnd, TrimCommas, Unescaped, Find, FindLast;
    TrimmedFrom(line, '\n');
    TrimmedFrom(TrimStart(line), '\n');
    TrimmedFrom(TrimEnd(TrimStart(line)), '\n');
    var trimmed := TrimCommas(TrimEnd(TrimStart(line)));
    if ParsedLine(line).Some? {
      var rest := trimmed[1..];
      var quoted := rest[Find(rest, "\": \"").value + 4..];
      var value := if FindLast(quoted, '"').Some? then quoted[..FindLast(quoted, '"').value] else quoted;
      UnescapedFrom(value, '\n');
    }
  }

  lemma {:induction false} ParsedHoldable(lines: seq<string>)
    requires forall line :: line in lines ==> '\n' !in line
    ensures forall name :: name in ParsedLines(lines) ==> Holdable(ParsedLines(lines)[name])
  {
    hide ParsedLine, Holdable;
    if lines != [] {
      ParsedHoldable(lines[..|lines| - 1]);
      LineHoldable(lines[|lines| - 1]);
    }
  }

  predicate DistinctNames(entries: seq<Entry>) {
    forall i, j :: 0 <= i < j < |entries| ==> entries[i].name != entries[j].name
  }

  lemma {:induction false} MapOfHas(entries: seq<Entry>, i: nat)
    requires i < |entries| && DistinctNames(entries)
    ensures entries[i].name in MapOf(entries) && MapOf(entries)[entries[i].name] == entries[i].case_
  {
    if i < |entries| - 1 {
      assert entries[..|entries| - 1][i] == entries[i];
      MapOfHas(entries[..|entries| - 1], i);
    }
  }

  lemma LineNamed(line: string)
    requires '\n' !in line
    ensures ParsedLine(line).Some? ==> '\n' !in ParsedLine(line).value.name
  {
    hide TrimStart, TrimEnd, TrimCommas, Unescaped, Find, FindLast;
    TrimmedFrom(line, '\n');
    TrimmedFrom(TrimStart(line), '\n');
    TrimmedFrom(TrimEnd(TrimStart(line)), '\n');
    var trimmed := TrimCommas(TrimEnd(TrimStart(line)));
    if ParsedLine(line).Some? {
      UnescapedFrom(trimmed[1..][..Find(trimmed[1..], "\": \"").value], '\n');
    }
  }

  lemma {:induction false} ParsedNamed(lines: seq<string>)
    requires forall line :: line in lines ==> '\n' !in line
    ensures forall name :: name in ParsedLines(lines) ==> '\n' !in name
  {
    hide ParsedLine;
    if lines != [] {
      ParsedNamed(lines[..|lines| - 1]);
      LineNamed(lines[|lines| - 1]);
    }
  }

  /** Every name read back comes from the line of some entry. */
  lemma {:induction false} NameFrom(entries: seq<Entry>, k: nat, name: string) returns (j: nat)
    requires k <= |entries| && name in ParsedLines(LinesOf(entries, k))
    ensures j < k && RecordedBy(entries, j, name)
  {
    hide Line, ParsedLine;
    NothingFirst(entries);
    var lines := LinesOf(entries, k);
    assert lines[..|lines| - 1] == LinesOf(entries, k - 1);
    if name in ParsedLines(LinesOf(entries, k - 1)) {
      j := NameFrom(entries, k - 1, name);
    } else {
      j := k - 1;
    }
  }

  lemma NothingFirst(entries: seq<Entry>)
    ensures ParsedLines(LinesOf(entries, 0)) == map[]
  {
    hide ParsedLine;
    BracesRecordNothing();
    assert ["{"][..0] == [];
  }

  ghost predicate RecordedBy(entries: seq<Entry>, j: nat, name: string)
    requires j < |entries|
  {
    var parsed := ParsedLine(Line(entries[j]) + if j + 1 < |entries| then "," else "");
    parsed.Some? && parsed.value.name == name
  }

  /** No name is longer than all of them together. */
  function Letters(entries: seq<Entry>): nat {
    if entries == [] then 0 else Letters(entries[..|entries| - 1]) + |entries[|entries| - 1].name|
  }

  lemma {:induction false} NoLonger(entries: seq<Entry>, i: nat)
    requires i < |entries|
    ensures |entries[i].name| <= Letters(entries)
  {
    if i < |entries| - 1 {
      NoLonger(entries[..|entries| - 1], i);
    }
  }

  /** A name that does not hold costs some entry its own: what is read in its place is shorter, so
      if it is read back at all, a longer one was read as it. */
  lemma {:induction false} NameLost(entries: seq<Entry>, i: nat) returns (lost: nat)
    requires i < |entries| && DistinctNames(entries) && !NameHolds(entries[i].name)
    requires forall e :: e in entries ==> '\n' !in e.name && Holdable(e.case_)
    ensures lost < |entries| && entries[lost].name !in ParsedLines(LinesOf(entries, |entries|))
    decreases Letters(entries) - |entries[i].name|
  {
    hide Line, ParsedLine, NameHolds, Holdable;
    lost := i;
    if entries[i].name in ParsedLines(LinesOf(entries, |entries|)) {
      var j := NameFrom(entries, |entries|, entries[i].name);
      assert entries[j] in entries;
      LineParsed(entries[j], j + 1 < |entries|);
      NoLonger(entries, i);
      NoLonger(entries, j);
      lost := NameLost(entries, j);
    }
  }

  /** Cases come back exactly when every name holds and every reason is on one line and is not the
      word that means the case ran. */
  lemma RoundTripIff(entries: seq<Entry>)
    requires entries != [] && DistinctNames(entries)
    ensures ParsedLines(Lines(Rendered(entries))) == MapOf(entries)
      <==> forall e :: e in entries ==> NameHolds(e.name) && Holdable(e.case_)
  {
    hide ParsedLines, Lines, Rendered, NameHolds, Holdable;
    var parsed := ParsedLines(Lines(Rendered(entries)));
    if forall e :: e in entries ==> NameHolds(e.name) && Holdable(e.case_) {
      RoundTrip(entries);
    } else {
      var e :| e in entries && !(NameHolds(e.name) && Holdable(e.case_));
      var k := SomethingLost(entries);
      MapOfHas(entries, k);
    }
  }

  /** If one does not, some entry is not there, or is there as another case. */
  lemma SomethingLost(entries: seq<Entry>) returns (k: nat)
    requires entries != [] && DistinctNames(entries)
    requires exists e :: e in entries && !(NameHolds(e.name) && Holdable(e.case_))
    ensures k < |entries|
    ensures
      var parsed := ParsedLines(Lines(Rendered(entries)));
      entries[k].name !in parsed || parsed[entries[k].name] != entries[k].case_
  {
    hide ParsedLines, Lines, Rendered, NameHolds, Holdable;
    var lines := Lines(Rendered(entries));
    forall line | line in lines
      ensures '\n' !in line
    {
      LinesHaveNone(Rendered(entries), line);
    }
    ParsedHoldable(lines);
    ParsedNamed(lines);
    if e :| e in entries && ('\n' in e.name || !Holdable(e.case_)) {
      k :| k < |entries| && entries[k] == e;
    } else {
      var e :| e in entries && !(NameHolds(e.name) && Holdable(e.case_));
      var i: nat :| i < |entries| && entries[i] == e;
      k := NameLost(entries, i);
      LinesAsWritten(entries);
    }
  }

  /** The lines read back are the lines written, whatever the names. */
  lemma LinesAsWritten(entries: seq<Entry>)
    requires entries != [] && forall e :: e in entries ==> '\n' !in e.name && Holdable(e.case_)
    ensures ParsedLines(Lines(Rendered(entries))) == ParsedLines(LinesOf(entries, |entries|))
  {
    hide ParsedLines, Lines, Rendered, LinesOf, IsLine;
    RenderedLines(entries);
    AllLines(entries, |entries|);
    BraceIsLine();
    LinesTerminated(LinesOf(entries, |entries|) + ["}"]);
    NothingLast(LinesOf(entries, |entries|));
  }

  lemma BraceIsLine()
    ensures IsLine("}")
  {}

  lemma NothingLast(lines: seq<string>)
    ensures ParsedLines(lines + ["}"]) == ParsedLines(lines)
  {
    hide ParsedLine;
    BracesRecordNothing();
    assert (lines + ["}"])[..|lines|] == lines;
  }

  /** A name that does not come back: it is cut where it looks like the end of a name. */
  lemma NameCutExample()
    ensures ParsedLine(Line(Entry("a\": \"b", Ran))) != Some(Entry("a\": \"b", Ran))
  {
    hide ParsedLine, Line;
    var e := Entry("a\": \"b", Ran);
    assert e.name + "\"" == "a\": \"b\"";
    assert Occurs(e.name + "\"", BETWEEN, 1) by {
      assert (e.name + "\"")[1..5] == BETWEEN;
    }
    LineParsed(e, false);
    assert Line(e) + "" == Line(e);
  }

  // ----- Comparing

  const DEVICE_KEY: string := "the driver this was recorded from"

  /** A case that ran before and is now skipped, or is gone. */
  predicate Lost(e: Entry, observed: Cases) {
    e.name in observed && e.case_.Ran? && observed[e.name].Skipped?
  }

  predicate Vanished(e: Entry, observed: Cases) {
    e.name !in observed
  }

  /** The names of the entries lost or gone, the device's own key aside. */
  function Regressions(baseline: seq<Entry>, observed: Cases): seq<string> {
    if baseline == [] then [] else
      var last := baseline[|baseline| - 1];
      var before := Regressions(baseline[..|baseline| - 1], observed);
      if last.name != DEVICE_KEY && (Lost(last, observed) || Vanished(last, observed)) then before + [last.name] else before
  }

  function NamesOf(entries: seq<Entry>): set<string> {
    set e | e in entries :: e.name
  }

  /** The names of cases that were skipped and now run. */
  function Regains(baseline: seq<Entry>, observed: Cases): seq<string> {
    if baseline == [] then [] else
      var last := baseline[|baseline| - 1];
      var before := Regains(baseline[..|baseline| - 1], observed);
      if last.name != DEVICE_KEY && last.name in observed && observed[last.name].Ran? && !last.case_.Ran? then before + [last.name]
      else before
  }

  /** Compare a run with a baseline, the device's key aside: no coverage is lost exactly when every
      recorded case is still reported, and still runs if it ran. Cases that run again, and cases no
      baseline has, are listed too. */
  method Compare(baseline: seq<Entry>, observed: Cases)
    returns (ok: bool, regressions: seq<string>, regained: seq<string>, added: set<string>)
    ensures regressions == Regressions(baseline, observed) && regained == Regains(baseline, observed)
    ensures added == observed.Keys - NamesOf(baseline) - {DEVICE_KEY}
    ensures ok <==> forall e :: e in baseline && e.name != DEVICE_KEY ==> !Lost(e, observed) && !Vanished(e, observed)
  {
    regressions, regained := [], [];
    for i := 0 to |baseline|
      invariant regressions == Regressions(baseline[..i], observed)
      invariant regained == Regains(baseline[..i], observed)
      invariant regressions == [] <==>
        forall j :: 0 <= j < i && baseline[j].name != DEVICE_KEY ==> !Lost(baseline[j], observed) && !Vanished(baseline[j], observed)
    {
      assert baseline[..i + 1][..i] == baseline[..i];
      var e := baseline[i];
      if e.name == DEVICE_KEY {
        continue;
      }
      if Lost(e, observed) || Vanished(e, observed) {
        regressions := regressions + [e.name];
      } else if observed[e.name].Ran? && !e.case_.Ran? {
        regained := regained + [e.name];
      }
    }
    assert baseline[..|baseline|] == baseline;
    added := observed.Keys - NamesOf(baseline) - {DEVICE_KEY};
    ok := regressions == [];
  }

  /** A run never regresses against its own recording, read back. */
  lemma OwnBaselineHolds(entries: seq<Entry>, recorded: seq<Entry>)
    requires entries != [] && DistinctNames(entries) && forall e :: e in entries ==> NameHolds(e.name) && Holdable(e.case_)
    requires DistinctNames(recorded) && MapOf(recorded) == ParsedLines(Lines(Rendered(entries)))
    ensures Regressions(recorded, MapOf(entries)) == []
  {
    hide ParsedLines, Lines, Rendered;
    RoundTrip(entries);
    forall i: nat | i < |recorded|
      ensures !Lost(recorded[i], MapOf(entries)) && !Vanished(recorded[i], MapOf(entries))
    {
      MapOfHas(recorded, i);
    }
    NoRegressions(recorded, MapOf(entries));
  }

  lemma {:induction false} NoRegressions(baseline: seq<Entry>, observed: Cases)
    requires forall i: nat :: i < |baseline| ==> !Lost(baseline[i], observed) && !Vanished(baseline[i], observed)
    ensures Regressions(baseline, observed) == []
  {
    if baseline != [] {
      NoRegressions(baseline[..|baseline| - 1], observed);
    }
  }
}
