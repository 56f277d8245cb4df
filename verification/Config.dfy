/** The credentials file: lines of the form key=value. */
module Config {
  import opened Options
  import opened Strings

  /** What `std::getline` delivers: a final newline does not begin another line. */
  function Lines(text: string): seq<string>
    decreases |text|
  {
    if text == "" then []
    else
      var k := Find('\n', text);
      if k == |text| then [text] else [text[..k]] + Lines(text[k + 1..])
  }

  /** Key and value of a line, split at its first `=`. */
  function Assignment(line: string): Option<(string, string)> {
    if '=' in line then Some((line[..Find('=', line)], line[Find('=', line) + 1..])) else None
  }

  function Assign(config: map<string, string>, line: string): map<string, string> {
    match Assignment(line) case None => config case Some((key, value)) => config[key := value]
  }

  function AssignAll(config: map<string, string>, lines: seq<string>): map<string, string>
    decreases |lines|
  {
    if lines == [] then config else AssignAll(Assign(config, lines[0]), lines[1..])
  }

  /** A missing file reads as empty. */
  function Parse(text: string): map<string, string> {
    AssignAll(map[], Lines(text))
  }

  method ReadAuthFile(file: Option<string>) returns (config: map<string, string>)
    ensures config == if file.None? then map[] else Parse(file.value)
  {
    config := map[];
    if file.None? {
      return;
    }
    var rest := file.value;
    while rest != ""
      invariant AssignAll(config, Lines(rest)) == Parse(file.value)
      decreases |rest|
    {
      var end := Find('\n', rest);
      var line := rest[..end];
      ghost var before := config;
      NextLine(rest, config);
      rest := AfterLine(rest);
      var equalPos := Find('=', line);
      if equalPos < |line| {
        var key := line[..equalPos];
        var value := line[equalPos + 1..];
        config := config[key := value];
      }
      assert config == Assign(before, line);
    }
  }

  /** What is left of the file after its first line. */
  function AfterLine(text: string): (rest: string)
    ensures text != "" ==> |rest| < |text|
  {
    if '\n' in text then text[Find('\n', text) + 1..] else ""
  }

  lemma NextLine(text: string, config: map<string, string>)
    requires text != ""
    ensures AssignAll(config, Lines(text)) == AssignAll(Assign(config, text[..Find('\n', text)]), Lines(AfterLine(text)))
  {
    var k := Find('\n', text);
    var line, rest := text[..k], AfterLine(text);
    if k == |text| {
      assert line == text;
    }
    assert Lines(text) == [line] + Lines(rest);
    assert ([line] + Lines(rest))[1..] == Lines(rest);
  }

  // ----- last assignment wins -----

  /** The value of the last line that assigns to `key`. */
  function LastValue(lines: seq<string>, key: string): Option<string> {
    if lines == [] then None
    else
      var a := Assignment(lines[|lines| - 1]);
      if a.Some? && a.value.0 == key then Some(a.value.1) else LastValue(lines[..|lines| - 1], key)
  }

  function Lookup(config: map<string, string>, key: string): Option<string> {
    if key in config then Some(config[key]) else None
  }

  lemma {:induction false} AssignAllSnoc(config: map<string, string>, lines: seq<string>, line: string)
    ensures AssignAll(config, lines + [line]) == Assign(AssignAll(config, lines), line)
    decreases |lines|
  {
    if lines == [] {
      assert [] + [line] == [line] && [line][1..] == [];
    } else {
      assert (lines + [line])[0] == lines[0] && (lines + [line])[1..] == lines[1..] + [line];
      AssignAllSnoc(Assign(config, lines[0]), lines[1..], line);
    }
  }

  lemma {:induction false} AssignAllIsLastValue(lines: seq<string>, key: string)
    ensures Lookup(AssignAll(map[], lines), key) == LastValue(lines, key)
    decreases |lines|
  {
    if lines != [] {
      var before, line := lines[..|lines| - 1], lines[|lines| - 1];
      assert lines == before + [line];
      AssignAllSnoc(map[], before, line);
      AssignAllIsLastValue(before, key);
    }
  }

  /** For any text, each key has the value of the last line that assigns to it; other lines do nothing. */
  lemma LastAssignmentWins(text: string, key: string)
    ensures Lookup(Parse(text), key) == LastValue(Lines(text), key)
  {
    AssignAllIsLastValue(Lines(text), key);
  }

  lemma FindSplits(key: string, value: string)
    requires '=' !in key
    ensures Assignment(key + "=" + value) == Some((key, value))
  {
    var line := key + "=" + value;
    assert line[..|key|] == key && line[|key|] == '=' && line[|key| + 1..] == value;
    FindIsFirst('=', line, |key|);
  }

  /** What one line does: with a `=` it assigns, without one it does nothing. */
  lemma LineAssigns(config: map<string, string>, key: string, value: string, line: string)
    requires '=' !in key && '=' !in line
    ensures Assign(config, key + "=" + value) == config[key := value]
    ensures Assign(config, line) == config
  {
    FindSplits(key, value);
  }

  // ----- round trip -----

  datatype Entry = Entry(key: string, value: string)

  function LineOf(e: Entry): string {
    e.key + "=" + e.value
  }

  /** One line per entry; the newline after the last line may be missing. */
  function Print(es: seq<Entry>, finalNewline: bool): string {
    if es == [] then ""
    else if |es| == 1 then LineOf(es[0]) + (if finalNewline then "\n" else "")
    else LineOf(es[0]) + "\n" + Print(es[1..], finalNewline)
  }

  predicate CleanEntry(e: Entry) {
    '=' !in e.key && '\n' !in e.key && '\n' !in e.value
  }

  lemma FirstLine(line: string, rest: string)
    requires '\n' !in line
    ensures Lines(line + "\n" + rest) == [line] + Lines(rest)
  {
    var text := line + "\n" + rest;
    assert text[..|line|] == line && text[|line|] == '\n' && text[|line| + 1..] == rest;
    FindIsFirst('\n', text, |line|);
  }

  lemma OnlyLine(line: string)
    requires '\n' !in line && line != ""
    ensures Lines(line) == [line]
  {
    assert forall i :: 0 <= i < |line| ==> line[i] in line;
  }

  function LinesOf(es: seq<Entry>): seq<string> {
    if es == [] then [] else [LineOf(es[0])] + LinesOf(es[1..])
  }

  lemma {:induction false} PrintedLines(es: seq<Entry>, finalNewline: bool)
    requires forall e :: e in es ==> CleanEntry(e)
    ensures Lines(Print(es, finalNewline)) == LinesOf(es)
  {
    if es != [] {
      var line := LineOf(es[0]);
      assert CleanEntry(es[0]) && '\n' !in line;
      if |es| == 1 {
        assert es[1..] == [];
        if finalNewline {
          FirstLine(line, "");
          assert line + "\n" + "" == line + "\n";
        } else {
          OnlyLine(line);
          assert line + "" == line;
        }
      } else {
        PrintedLines(es[1..], finalNewline);
        FirstLine(line, Print(es[1..], finalNewline));
      }
    }
  }

  function AddAll(config: map<string, string>, es: seq<Entry>): map<string, string>
    decreases |es|
  {
    if es == [] then config else AddAll(config[es[0].key := es[0].value], es[1..])
  }

  lemma {:induction false} AssignEntries(config: map<string, string>, es: seq<Entry>)
    requires forall e :: e in es ==> CleanEntry(e)
    ensures AssignAll(config, LinesOf(es)) == AddAll(config, es)
    decreases |es|
  {
    if es != [] {
      assert CleanEntry(es[0]);
      FindSplits(es[0].key, es[0].value);
      var ls := LinesOf(es[1..]);
      assert LinesOf(es)[0] == LineOf(es[0]) && LinesOf(es)[1..] == ls;
      AssignEntries(config[es[0].key := es[0].value], es[1..]);
    }
  }

  /** `es` lists the map, in any order and possibly with repetitions. */
  ghost predicate Lists(es: seq<Entry>, m: map<string, string>) {
    && (forall e :: e in es ==> e.key in m && m[e.key] == e.value)
    && (forall k :: k in m ==> Entry(k, m[k]) in es)
  }

  lemma {:induction false} AddAllWithin(config: map<string, string>, es: seq<Entry>, m: map<string, string>)
    requires forall e :: e in es ==> e.key in m && m[e.key] == e.value
    requires forall k :: k in config ==> k in m && m[k] == config[k]
    requires forall k :: k in m ==> k in config || Entry(k, m[k]) in es
    ensures AddAll(config, es) == m
    decreases |es|
  {
    if es == [] {
      assert config.Keys == m.Keys;
    } else {
      var e := es[0];
      assert e in es;
      var next := config[e.key := e.value];
      forall k | k in m
        ensures k in next || Entry(k, m[k]) in es[1..]
      {
        if k !in next {
          assert Entry(k, m[k]) in es && Entry(k, m[k]) != e;
        }
      }
      AddAllWithin(next, es[1..], m);
    }
  }

  lemma PrintParse(es: seq<Entry>, m: map<string, string>, finalNewline: bool)
    requires Lists(es, m) && forall e :: e in es ==> CleanEntry(e)
    ensures Parse(Print(es, finalNewline)) == m
  {
    PrintedLines(es, finalNewline);
    AssignEntries(map[], es);
    AddAllWithin(map[], es, m);
  }

  lemma {:induction false} LinesHaveNoNewline(text: string)
    ensures forall l :: l in Lines(text) ==> '\n' !in l
    decreases |text|
  {
    if text != "" {
      var k := Find('\n', text);
      if k == |text| {
        assert text[..k] == text;
      } else {
        LinesHaveNoNewline(text[k + 1..]);
      }
    }
  }

  ghost predicate CleanMap(m: map<string, string>) {
    forall k :: k in m ==> CleanEntry(Entry(k, m[k]))
  }

  lemma AssignKeepsClean(config: map<string, string>, line: string)
    requires CleanMap(config) && '\n' !in line
    ensures CleanMap(Assign(config, line))
  {
    if '=' in line {
      var i := Find('=', line);
      assert forall c :: c in line[..i] ==> c in line;
      assert forall c :: c in line[i + 1..] ==> c in line;
    }
  }

  lemma {:induction false} AssignAllKeepsClean(config: map<string, string>, lines: seq<string>)
    requires CleanMap(config) && forall l :: l in lines ==> '\n' !in l
    ensures CleanMap(AssignAll(config, lines))
    decreases |lines|
  {
    if lines != [] {
      assert lines[0] in lines;
      AssignKeepsClean(config, lines[0]);
      AssignAllKeepsClean(Assign(config, lines[0]), lines[1..]);
    }
  }

  /** Parsing the printed lines of a map, in any order, returns the map if and only if no key contains
      `=` or a newline and no value contains a newline. */
  lemma RoundTripIff(es: seq<Entry>, m: map<string, string>, finalNewline: bool)
    requires Lists(es, m)
    ensures Parse(Print(es, finalNewline)) == m <==> CleanMap(m)
  {
    if CleanMap(m) {
      forall e | e in es
        ensures CleanEntry(e)
      {
        assert e == Entry(e.key, m[e.key]);
      }
      PrintParse(es, m, finalNewline);
    }
    LinesHaveNoNewline(Print(es, finalNewline));
    AssignAllKeepsClean(map[], Lines(Print(es, finalNewline)));
  }
}
