/** The environment file: the line grammar, the CLI's editor, and the panel's own reader. */
module EnvironmentFile {
  import opened Basics
  import opened Text
  import opened Assignments

  /** One line as the CLI reads it: an assignment, or something to be left alone. */
  function SplitEnvLine(line: string): Entry {
    var trimmed := Trim(line);
    if trimmed == "" || trimmed[0] == '#' then None
    else
      match Cut(trimmed, '=')
      case None => None
      case Some((before, after)) =>
        var name := Trim(before);
        if name == "" then None else Some((name, Unquote(Trim(after))))
  }

  function Entries(lines: seq<string>): (entries: seq<Entry>)
    ensures |entries| == |lines|
  {
    Each(lines, SplitEnvLine)
  }

  function Each(lines: seq<string>, read: string -> Entry): (entries: seq<Entry>)
    ensures |entries| == |lines|
  {
    if lines == [] then [] else Each(lines[..|lines| - 1], read) + [read(lines[|lines| - 1])]
  }

  /** The lines after replacing the first assignment, or appending one. */
  function SetLine(lines: seq<string>, key: string, value: string): seq<string> {
    var i := FirstAt(Entries(lines), key);
    if i < |lines| then lines[i := key + "=" + value] else lines + [key + "=" + value]
  }

  /** The CLI's view of the file, edited line by line and written back whole. */
  class EnvFile {
    var lines: seq<string>

    constructor Load(text: string)
      ensures lines == ScanLines(text)
    {
      lines := ScanLines(text);
    }

    method Get(key: string) returns (r: Option<string>)
      ensures r == FirstValue(Entries(lines), key)
    {
      ghost var entries := Entries(lines);
      for i := 0 to |lines|
        invariant forall j | 0 <= j < i :: !Assigns(entries[j], key)
      {
        EntriesAt(lines, i);
        var split := SplitEnvLine(lines[i]);
        if split.Some? && split.value.0 == key {
          FirstAtIs(entries, key, i);
          return Some(split.value.1);
        }
      }
      return None;
    }

    method Set(key: string, value: string)
      modifies this
      ensures lines == SetLine(old(lines), key, value)
    {
      ghost var entries := Entries(lines);
      for i := 0 to |lines|
        invariant lines == old(lines) && forall j | 0 <= j < i :: !Assigns(entries[j], key)
      {
        EntriesAt(lines, i);
        var split := SplitEnvLine(lines[i]);
        if split.Some? && split.value.0 == key {
          FirstAtIs(entries, key, i);
          lines := lines[i := key + "=" + value];
          return;
        }
      }
      lines := lines + [key + "=" + value];
    }
  }

  /** The panel's reader, with its own copy of the line grammar. */
  method ReadEnvFile(text: string) returns (out: map<string, string>)
    ensures out == LastValues(Entries(ScanLines(text)))
  {
    out := map[];
    var lines := ScanLines(text);
    for i := 0 to |lines|
      invariant out == LastValues(Entries(lines)[..i])
    {
      EntriesAt(lines, i);
      LastValuesNext(Entries(lines), i);
      var line := Trim(lines[i]);
      if line == "" || line[0] == '#' {
        continue;
      }
      var cut := Cut(line, '=');
      if cut.None? {
        continue;
      }
      var key, value := Trim(cut.value.0), Trim(cut.value.1);
      if |value| >= 2 {
        if (value[0] == '"' && value[|value| - 1] == '"') || (value[0] == '\'' && value[|value| - 1] == '\'') {
          value := value[1..|value| - 1];
        }
      }
      if key != "" {
        out := out[key := value];
      }
    }
    assert Entries(lines)[..|lines|] == Entries(lines);
  }

  lemma {:induction false} EntriesAt(lines: seq<string>, i: nat)
    requires i < |lines|
    ensures Entries(lines)[i] == SplitEnvLine(lines[i])
  {
    EachAt(lines, SplitEnvLine, i);
  }

  /** The same for any reading of a line, which keeps this one's definition out of the induction. */
  lemma {:induction false} EachAt(lines: seq<string>, read: string -> Entry, i: nat)
    requires i < |lines|
    ensures Each(lines, read)[i] == read(lines[i])
  {
    var n := |lines| - 1;
    if i < n {
      EachAt(lines[..n], read, i);
    }
  }

  // ---------------------------------------------------------------------- the grammar

  /** A key the file can carry: as the program's own variable names are. */
  predicate IsKey(key: string) {
    key != "" && key[0] != '#' && '=' !in key && Bare(key, IsSpace) && OneLine(key)
  }

  /** What a line assigns, once it is trimmed and cut. */
  lemma {:induction false} SplitFrom(line: string, before: string, after: string)
    requires Trim(line) == before + ['='] + after && '=' !in before && (before == "" || before[0] != '#')
    ensures SplitEnvLine(line) == if Trim(before) == "" then None else Some((Trim(before), Unquote(Trim(after))))
  {
    CutFirst(before, '=', after);
  }

  lemma {:induction false} TrimmedAssignment(blanks: string, key: string, gap: string, value: string)
    requires IsKey(key) && (forall c | c in blanks :: IsSpace(c)) && (forall c | c in gap :: IsSpace(c))
    ensures Trim(blanks + (key + gap + "=" + value)) == key + gap + ['='] + TrimRight(value, IsSpace)
  {
    var line, head := key + gap + "=" + value, key + gap + ['='];
    assert line == head + value && line[0] == key[0];
    TrimLead(blanks, line, IsSpace);
    assert TrimLeft(line, IsSpace) == line;
    TrimRightAppend(head, value, IsSpace);
  }

  lemma {:induction false} TrimmedKey(key: string, gap: string)
    requires IsKey(key) && forall c | c in gap :: IsSpace(c)
    ensures Trim(key + gap) == key && '=' !in key + gap && (key + gap)[0] != '#'
  {
    TrimAround("", key, gap, IsSpace);
    assert "" + key + gap == key + gap;
  }

  /** An assignment, with blanks before it and around the equals sign, reads as its key and its value
      trimmed and unquoted; only the first equals sign counts. */
  lemma {:induction false} SplitAssigned(blanks: string, key: string, gap: string, value: string)
    requires IsKey(key) && (forall c | c in blanks :: IsSpace(c)) && (forall c | c in gap :: IsSpace(c))
    ensures SplitEnvLine(blanks + (key + gap + "=" + value)) == Some((key, Unquote(Trim(value))))
  {
    TrimmedAssignment(blanks, key, gap, value);
    TrimmedKey(key, gap);
    SplitFrom(blanks + (key + gap + "=" + value), key + gap, TrimRight(value, IsSpace));
    TrimOfTrimRight(value, IsSpace);
  }

  /** A written assignment reads back as its key and its value, trimmed and unquoted. */
  lemma {:induction false} SplitWritten(key: string, value: string)
    requires IsKey(key)
    ensures SplitEnvLine(key + "=" + value) == Some((key, Unquote(Trim(value))))
  {
    SplitAssigned("", key, "", value);
    assert "" + (key + "" + "=" + value) == key + "=" + value;
  }

  /** A quoted value loses its quotes and keeps everything in them, blanks included. */
  lemma {:induction false} SplitQuoted(key: string, value: string, q: char)
    requires IsKey(key) && (q == '"' || q == '\'')
    ensures SplitEnvLine(key + "=" + ([q] + value + [q])) == Some((key, value))
  {
    var quoted := [q] + value + [q];
    SplitWritten(key, quoted);
    TrimBare(quoted, IsSpace);
    UnquoteLaw(value, q);
  }

  /** Comments and blank lines assign nothing. */
  lemma {:induction false} SplitComment(blanks: string, rest: string)
    requires forall c | c in blanks :: IsSpace(c)
    ensures SplitEnvLine(blanks) == None && SplitEnvLine(blanks + (['#'] + rest)) == None
  {
    TrimAround(blanks, "", "", IsSpace);
    assert blanks + "" + "" == blanks;
    TrimLead(blanks, ['#'] + rest, IsSpace);
    HeadStays('#', rest);
  }

  lemma {:induction false} TrimmedNameless(blanks: string, rest: string)
    requires forall c | c in blanks :: IsSpace(c)
    ensures Trim(blanks + (['='] + rest)) == "" + ['='] + TrimRight(rest, IsSpace)
  {
    TrimLead(blanks, ['='] + rest, IsSpace);
    HeadStays('=', rest);
  }

  /** Nor do lines without a name before the equals sign. */
  lemma {:induction false} SplitNameless(blanks: string, rest: string)
    requires forall c | c in blanks :: IsSpace(c)
    ensures SplitEnvLine(blanks + (['='] + rest)) == None
  {
    TrimmedNameless(blanks, rest);
    SplitFrom(blanks + (['='] + rest), "", TrimRight(rest, IsSpace));
    TrimBare("", IsSpace);
  }

  /** Nor do lines without an equals sign. */
  lemma {:induction false} SplitUnassigned(line: string)
    requires '=' !in line
    ensures SplitEnvLine(line) == None
  {
    TrimBare(line, IsSpace);
  }

  lemma {:induction false} HeadStays(c: char, rest: string)
    requires !IsSpace(c)
    ensures Trim([c] + rest) == [c] + TrimRight(rest, IsSpace)
  {
    assert TrimLeft([c] + rest, IsSpace) == [c] + rest;
    TrimRightAppend([c], rest, IsSpace);
  }

  /** A trailing carriage return changes no line's meaning. */
  lemma {:induction false} SplitDropCR(line: string)
    ensures SplitEnvLine(DropCR(line)) == SplitEnvLine(line)
  {
    if EndsInCR(line) {
      assert line == DropCR(line) + ['\r'];
      TrimSnoc(DropCR(line), '\r', IsSpace);
    }
  }

  lemma {:induction false} EntriesDropCRs(lines: seq<string>)
    ensures Entries(DropCRs(lines)) == Entries(lines)
  {
    if lines != [] {
      var n := |lines| - 1;
      EntriesDropCRs(lines[..n]);
      assert DropCRs(lines)[..n] == DropCRs(lines[..n]) && DropCRs(lines)[n] == DropCR(lines[n]);
      SplitDropCR(lines[n]);
    }
  }

  /** Whatever is written out is read in with the same meaning. */
  lemma {:induction false} RenderedMeaning(lines: seq<string>)
    requires forall l | l in lines :: OneLine(l)
    ensures Entries(ScanLines(Render(lines))) == Entries(lines)
  {
    ScanRender(lines);
    EntriesDropCRs(lines);
  }

  /** An assignment on the last line is read whether or not a newline ends the file, by a first-match
      reader if nothing assigns the key before it, and by a last-match reader in any case. */
  lemma {:induction false} LastLineRead(text: string, key: string, value: string, end: string)
    requires (text == "" || text[|text| - 1] == '\n') && IsKey(key) && OneLine(value) && end in {"", "\n"}
    ensures var before, entries := Entries(ScanLines(text)), Entries(ScanLines(text + (key + "=" + value + end)));
            var read := Unquote(Trim(value));
            && entries == before + [Some((key, read))]
            && LastValue(entries, key) == Some(read)
            && FirstValue(entries, key) == if FirstValue(before, key).Some? then FirstValue(before, key) else Some(read)
  {
    var line := key + "=" + value;
    assert OneLine(line) && line != "";
    ScanAppended(text, line);
    assert line + "" == line && line + "\n" == line + ['\n'];
    var lines := ScanLines(text);
    assert ScanLines(text + (line + end)) == lines + [DropCR(line)];
    SplitDropCR(line);
    SplitWritten(key, value);
    assert (lines + [DropCR(line)])[..|lines|] == lines;
    Appended(Entries(lines), key, Unquote(Trim(value)));
  }

  // ---------------------------------------------------------------------- what Set keeps

  lemma {:induction false} EntriesUpdate(lines: seq<string>, i: nat, line: string)
    requires i < |lines|
    ensures Entries(lines[i := line]) == Entries(lines)[i := SplitEnvLine(line)]
  {
    EachUpdate(lines, SplitEnvLine, i, line);
  }

  lemma {:induction false} EachUpdate(lines: seq<string>, read: string -> Entry, i: nat, line: string)
    requires i < |lines|
    ensures Each(lines[i := line], read) == Each(lines, read)[i := read(line)]
  {
    var n := |lines| - 1;
    if i == n {
      assert lines[i := line][..n] == lines[..n];
    } else {
      EachUpdate(lines[..n], read, i, line);
      assert lines[i := line][..n] == lines[..n][i := line];
    }
  }

  /** Editing the lines assigns the key, trimmed and unquoted, in place or at the end. */
  lemma {:induction false} SetIsPut(lines: seq<string>, key: string, value: string)
    requires IsKey(key)
    ensures Entries(SetLine(lines, key, value)) == Put(Entries(lines), key, Unquote(Trim(value)))
  {
    SplitWritten(key, value);
    var i, line := FirstAt(Entries(lines), key), key + "=" + value;
    if i < |lines| {
      EntriesUpdate(lines, i, line);
    } else {
      assert (lines + [line])[..|lines|] == lines;
    }
  }

  predicate AssignsOneOf(e: Entry, keys: set<string>) { e.Some? && e.value.0 in keys }

  /** The lines that assign none of the keys: comments, blanks, everybody else's variables. */
  function Others(lines: seq<string>, keys: set<string>): seq<string> {
    Unassigned(lines, Entries(lines), keys)
  }

  /** The lines whose entries assign none of the keys. */
  function Unassigned(lines: seq<string>, entries: seq<Entry>, keys: set<string>): seq<string>
    requires |entries| == |lines|
  {
    if lines == [] then []
    else
      var n := |lines| - 1;
      Unassigned(lines[..n], entries[..n], keys) + (if AssignsOneOf(entries[n], keys) then [] else [lines[n]])
  }

  lemma {:induction false} UnassignedUpdate(lines: seq<string>, entries: seq<Entry>, keys: set<string>, i: nat, line: string, e: Entry)
    requires i < |lines| == |entries| && AssignsOneOf(entries[i], keys) && AssignsOneOf(e, keys)
    ensures Unassigned(lines[i := line], entries[i := e], keys) == Unassigned(lines, entries, keys)
  {
    var n := |lines| - 1;
    if i == n {
      assert lines[i := line][..n] == lines[..n] && entries[i := e][..n] == entries[..n];
    } else {
      assert lines[i := line][..n] == lines[..n][i := line] && entries[i := e][..n] == entries[..n][i := e];
      UnassignedUpdate(lines[..n], entries[..n], keys, i, line, e);
    }
  }

  /** Set leaves every line that assigns none of the keys it is used on as it was, and in its order. */
  lemma {:induction false} SetKeepsOthers(lines: seq<string>, key: string, value: string, keys: set<string>)
    requires IsKey(key) && key in keys
    ensures Others(SetLine(lines, key, value), keys) == Others(lines, keys)
  {
    SplitWritten(key, value);
    var i, line := FirstAt(Entries(lines), key), key + "=" + value;
    if i < |lines| {
      EntriesUpdate(lines, i, line);
      UnassignedUpdate(lines, Entries(lines), keys, i, line, SplitEnvLine(line));
    } else {
      assert (lines + [line])[..|lines|] == lines;
      assert Entries(lines + [line])[..|lines|] == Entries(lines);
    }
  }

  lemma {:induction false} UnassignedDropCRs(lines: seq<string>, entries: seq<Entry>, keys: set<string>)
    requires |entries| == |lines|
    ensures Unassigned(DropCRs(lines), entries, keys) == DropCRs(Unassigned(lines, entries, keys))
  {
    if lines != [] {
      var n := |lines| - 1;
      UnassignedDropCRs(lines[..n], entries[..n], keys);
      assert DropCRs(lines)[..n] == DropCRs(lines[..n]);
    }
  }

  /** Writing the file out and reading it in keeps them too, but for trailing returns. */
  lemma {:induction false} RenderedOthers(lines: seq<string>, keys: set<string>)
    requires forall l | l in lines :: OneLine(l)
    ensures Others(ScanLines(Render(lines)), keys) == DropCRs(Others(lines, keys))
  {
    RenderedMeaning(lines);
    ScanRender(lines);
    UnassignedDropCRs(lines, Entries(lines), keys);
  }

  lemma {:induction false} SetKeepsOneLine(lines: seq<string>, key: string, value: string)
    requires forall l | l in lines :: OneLine(l)
    requires IsKey(key) && OneLine(value)
    ensures forall l | l in SetLine(lines, key, value) :: OneLine(l)
  {
    assert OneLine(key + "=" + value);
  }
}
