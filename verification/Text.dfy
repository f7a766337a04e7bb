/** The string operations the environment-file code is built from. */
module Text {
  import opened Basics

  /** White space as strings.TrimSpace understands it. */
  predicate IsSpace(c: char) {
    var n := c as int;
    || 9 <= n <= 13 || n == 32 || n == 0x85 || n == 0xA0 || n == 0x1680
    || 0x2000 <= n <= 0x200A || n == 0x2028 || n == 0x2029 || n == 0x202F || n == 0x205F || n == 0x3000
  }

  predicate IsSlash(c: char) { c == '/' }

  function TrimLeft(s: string, p: char -> bool): (t: string)
    ensures t != "" ==> !p(t[0]) && s != "" && t[|t| - 1] == s[|s| - 1]
    ensures forall c | c in t :: c in s
  {
    if s != "" && p(s[0]) then TrimLeft(s[1..], p) else s
  }

  function TrimRight(s: string, p: char -> bool): (t: string)
    ensures t <= s
    ensures t != "" ==> !p(t[|t| - 1])
  {
    if s != "" && p(s[|s| - 1]) then TrimRight(s[..|s| - 1], p) else s
  }

  function TrimBy(s: string, p: char -> bool): string { TrimRight(TrimLeft(s, p), p) }

  function Trim(s: string): string { TrimBy(s, IsSpace) }

  /** Nothing to trim at either end. */
  predicate Bare(s: string, p: char -> bool) { s == "" || (!p(s[0]) && !p(s[|s| - 1])) }

  lemma {:induction false} TrimBare(s: string, p: char -> bool)
    ensures Bare(TrimBy(s, p), p)
    ensures Bare(s, p) ==> TrimBy(s, p) == s
    ensures forall c | c in TrimBy(s, p) :: c in s
  {
    var t := TrimLeft(s, p);
    assert TrimRight(t, p) <= t;
  }

  lemma {:induction false} TrimTwice(s: string, p: char -> bool)
    ensures TrimBy(TrimBy(s, p), p) == TrimBy(s, p)
  {
    TrimBare(s, p);
    TrimBare(TrimBy(s, p), p);
  }

  lemma {:induction false} TrimRightAppend(a: string, b: string, p: char -> bool)
    requires a != "" && !p(a[|a| - 1])
    ensures TrimRight(a + b, p) == a + TrimRight(b, p)
    decreases |b|
  {
    if b == "" {
      assert a + b == a;
    } else if p(b[|b| - 1]) {
      TrimRightAppend(a, b[..|b| - 1], p);
      assert (a + b)[..|a + b| - 1] == a + b[..|b| - 1];
    }
  }

  lemma {:induction false} TrimLeftSnoc(s: string, c: char, p: char -> bool)
    ensures TrimLeft(s + [c], p) ==
            if TrimLeft(s, p) != "" then TrimLeft(s, p) + [c] else if p(c) then "" else [c]
  {
    var t := s + [c];
    if s == "" {
      assert t == [c] && t[1..] == "";
    } else if p(s[0]) {
      TrimLeftSnoc(s[1..], c, p);
      assert t[0] == s[0] && t[1..] == s[1..] + [c];
    } else {
      assert t[0] == s[0];
    }
  }

  /** A character that would be trimmed may as well not be there. */
  lemma {:induction false} TrimSnoc(s: string, c: char, p: char -> bool)
    requires p(c)
    ensures TrimBy(s + [c], p) == TrimBy(s, p)
  {
    TrimLeftSnoc(s, c, p);
    var t := TrimLeft(s, p);
    if t != "" {
      assert (t + [c])[..|t|] == t;
    }
  }

  lemma {:induction false} TrimOfTrimRight(s: string, p: char -> bool)
    ensures TrimBy(TrimRight(s, p), p) == TrimBy(s, p)
    decreases |s|
  {
    if s != "" && p(s[|s| - 1]) {
      var init := s[..|s| - 1];
      TrimOfTrimRight(init, p);
      TrimSnoc(init, s[|s| - 1], p);
      assert s == init + [s[|s| - 1]];
      assert TrimRight(s, p) == TrimRight(init, p);
    } else {
      assert TrimRight(s, p) == s;
    }
  }

  /** strings.Cut at the first occurrence of c. */
  function Cut(s: string, c: char): (r: Option<(string, string)>)
    ensures r.Some? ==> s == r.value.0 + [c] + r.value.1 && c !in r.value.0
    ensures r.None? ==> c !in s
  {
    if s == "" then None
    else if s[0] == c then Some(("", s[1..]))
    else
      match Cut(s[1..], c)
      case None => None
      case Some((a, b)) => Some(([s[0]] + a, b))
  }

  lemma {:induction false} CutFirst(a: string, c: char, b: string)
    requires c !in a
    ensures Cut(a + [c] + b, c) == Some((a, b))
  {
    var s := a + [c] + b;
    if a == "" {
      assert s[0] == c && s[1..] == b;
    } else {
      CutFirst(a[1..], c, b);
      assert s[1..] == a[1..] + [c] + b && s[0] == a[0];
      assert a == [a[0]] + a[1..];
    }
  }

  predicate IsQuote(c: char) { c == '"' || c == '\'' }

  /** One pair of matching quotes comes off; nothing else does. */
  function Unquote(s: string): string {
    if |s| >= 2 && IsQuote(s[0]) && s[|s| - 1] == s[0] then s[1..|s| - 1] else s
  }

  // --------------------------------------------------------------------------- lines

  predicate EndsInCR(s: string) { s != "" && s[|s| - 1] == '\r' }

  function DropCR(s: string): string { if EndsInCR(s) then s[..|s| - 1] else s }

  /** The lines a bufio.Scanner hands out: no newline, one trailing carriage return dropped. */
  function ScanLines(text: string): (lines: seq<string>)
    ensures forall l | l in lines :: '\n' !in l
    decreases |text|
  {
    if text == "" then []
    else
      match Cut(text, '\n')
      case None => [DropCR(text)]
      case Some((line, rest)) => [DropCR(line)] + ScanLines(rest)
  }

  function Join(lines: seq<string>): string
    requires lines != []
  {
    if |lines| == 1 then lines[0] else lines[0] + "\n" + Join(lines[1..])
  }

  /** The lines as one text, each ended by a newline. */
  function Render(lines: seq<string>): string {
    if lines == [] then "" else Join(lines) + "\n"
  }

  predicate OneLine(s: string) { '\n' !in s }

  function DropCRs(lines: seq<string>): (r: seq<string>)
    ensures |r| == |lines| && forall i | 0 <= i < |r| :: r[i] == DropCR(lines[i])
  {
    seq(|lines|, i requires 0 <= i < |lines| => DropCR(lines[i]))
  }

  lemma {:induction false} RenderCons(line: string, rest: seq<string>)
    ensures Render([line] + rest) == line + ['\n'] + Render(rest)
  {
    var lines := [line] + rest;
    if rest != [] {
      assert lines[1..] == rest;
      assert Join(lines) == line + "\n" + Join(rest);
    }
  }

  lemma {:induction false} ScanCons(line: string, rest: string)
    requires OneLine(line)
    ensures ScanLines(line + ['\n'] + rest) == [DropCR(line)] + ScanLines(rest)
  {
    CutFirst(line, '\n', rest);
  }

  lemma {:induction false} DropCRsCons(line: string, rest: seq<string>)
    ensures DropCRs([line] + rest) == [DropCR(line)] + DropCRs(rest)
  {
  }

  /** Writing lines out and scanning them back loses at most carriage returns. */
  lemma {:induction false} ScanRender(lines: seq<string>)
    requires forall l | l in lines :: OneLine(l)
    ensures ScanLines(Render(lines)) == DropCRs(lines)
  {
    if lines != [] {
      var line, rest := lines[0], lines[1..];
      assert lines == [line] + rest;
      assert OneLine(line) && forall l | l in rest :: l in lines;
      ScanRender(rest);
      RenderCons(line, rest);
      ScanCons(line, Render(rest));
      DropCRsCons(line, rest);
    }
  }

  /** The lines come back unchanged exactly when none holds a newline or ends in a return. */
  lemma {:induction false} ScanRenderExact(lines: seq<string>)
    ensures ScanLines(Render(lines)) == lines
            <==> forall l | l in lines :: OneLine(l) && !EndsInCR(l)
  {
    if forall l | l in lines :: OneLine(l) {
      ScanRender(lines);
      forall l | l in lines && EndsInCR(l) ensures DropCRs(lines) != lines {
        var i :| 0 <= i < |lines| && lines[i] == l;
        assert DropCRs(lines)[i] != lines[i];
      }
      if forall l | l in lines :: !EndsInCR(l) {
        assert forall i | 0 <= i < |lines| :: lines[i] in lines;
      }
    }
  }

  /** A newline at the very end adds no line, and its absence loses none. */
  lemma {:induction false} ScanUnterminated(text: string)
    requires text != "" && text[|text| - 1] != '\n'
    ensures ScanLines(text + ['\n']) == ScanLines(text)
    decreases |text|
  {
    match Cut(text, '\n')
    case None =>
      ScanCons(text, "");
      assert text + ['\n'] + "" == text + ['\n'];
    case Some((line, rest)) =>
      assert text == line + ['\n'] + rest && rest != "";
      assert text[|text| - 1] == rest[|rest| - 1];
      ScanUnterminated(rest);
      ScanCons(line, rest + ['\n']);
      assert line + ['\n'] + (rest + ['\n']) == text + ['\n'];
  }

  /** The first line of a text and the rest of it. */
  lemma {:induction false} FirstLine(text: string) returns (first: string, rest: string)
    requires '\n' in text
    ensures text == first + ['\n'] + rest && OneLine(first)
    ensures rest != "" ==> rest[|rest| - 1] == text[|text| - 1]
  {
    var cut := Cut(text, '\n').value;
    first, rest := cut.0, cut.1;
  }

  lemma {:induction false} ScanFrom(first: string, rest: string, more: string)
    requires OneLine(first)
    ensures ScanLines(first + ['\n'] + rest + more) == [DropCR(first)] + ScanLines(rest + more)
  {
    assert first + ['\n'] + rest + more == first + ['\n'] + (rest + more);
    ScanCons(first, rest + more);
  }

  lemma {:induction false} ScanTerminated(text: string, line: string)
    requires (text == "" || text[|text| - 1] == '\n') && OneLine(line)
    ensures ScanLines(text + (line + ['\n'])) == ScanLines(text) + [DropCR(line)]
    decreases |text|
  {
    var last := line + ['\n'];
    if text == "" {
      ScanCons(line, "");
      assert text + last == last && line + ['\n'] + "" == last;
    } else {
      var first, rest := FirstLine(text);
      ScanTerminated(rest, line);
      ScanFrom(first, rest, last);
      ScanCons(first, rest);
    }
  }

  /** A line written after whole lines is the last line, ended by a newline or not. */
  lemma {:induction false} ScanAppended(text: string, line: string)
    requires (text == "" || text[|text| - 1] == '\n') && OneLine(line)
    ensures ScanLines(text + (line + ['\n'])) == ScanLines(text) + [DropCR(line)]
    ensures line != "" ==> ScanLines(text + line) == ScanLines(text) + [DropCR(line)]
  {
    ScanTerminated(text, line);
    if line != "" {
      LastOf(text, line);
      ScanUnterminated(text + line);
      assert text + line + ['\n'] == text + (line + ['\n']);
    }
  }

  lemma {:induction false} LastOf(text: string, line: string)
    requires line != "" && OneLine(line)
    ensures (text + line)[|text + line| - 1] != '\n'
  {
    assert (text + line)[|text + line| - 1] == line[|line| - 1] && line[|line| - 1] in line;
  }

  /** What the lines of any text are: pieces without newlines that make it up again, each less one
      trailing carriage return; the last may or may not have a newline after it. */
  lemma {:induction false} ScanIs(text: string) returns (pieces: seq<string>)
    ensures forall l | l in pieces :: OneLine(l)
    ensures ScanLines(text) == DropCRs(pieces)
    ensures if text == "" then pieces == []
            else if text[|text| - 1] == '\n' then Render(pieces) == text
            else pieces != [] && Join(pieces) == text
    decreases |text|
  {
    if text == "" {
      pieces := [];
    } else {
      match Cut(text, '\n')
      case None =>
        pieces := [text];
        assert text[|text| - 1] in text;
      case Some((line, rest)) =>
        assert text == line + ['\n'] + rest && (rest != "" ==> rest[|rest| - 1] == text[|text| - 1]);
        var more := ScanIs(rest);
        pieces := [line] + more;
        DropCRsCons(line, more);
        RenderCons(line, more);
        assert rest == "" ==> text == line + ['\n'] + Render(more);
        if rest != "" && rest[|rest| - 1] != '\n' {
          assert pieces[1..] == more;
        }
    }
  }

  // ------------------------------------------------------------------ blanks and quotes

  /** Blanks before and after a text that has none at its ends go, and nothing else. */
  lemma {:induction false} TrimAround(before: string, s: string, after: string, p: char -> bool)
    requires (forall c | c in before :: p(c)) && (forall c | c in after :: p(c)) && Bare(s, p)
    ensures TrimBy(before + s + after, p) == s
    decreases |before| + |after|
  {
    if after != "" {
      var n := |after| - 1;
      assert after[n] in after && forall c | c in after[..n] :: c in after;
      TrimAround(before, s, after[..n], p);
      TrimSnoc(before + s + after[..n], after[n], p);
      assert before + s + after == before + s + after[..n] + [after[n]];
    } else if before != "" {
      assert before[0] in before && forall c | c in before[1..] :: c in before;
      TrimAround(before[1..], s, after, p);
      assert (before + s + after)[1..] == before[1..] + s + after && (before + s + after)[0] == before[0];
    } else {
      assert before + s + after == s;
      TrimBare(s, p);
    }
  }

  lemma {:induction false} TrimLead(before: string, s: string, p: char -> bool)
    requires forall c | c in before :: p(c)
    ensures TrimBy(before + s, p) == TrimBy(s, p)
  {
    if before == "" {
      assert before + s == s;
    } else {
      assert before[0] in before && forall c | c in before[1..] :: c in before;
      TrimLead(before[1..], s, p);
      assert (before + s)[1..] == before[1..] + s && (before + s)[0] == before[0];
    }
  }

  /** A quoted text loses its quotes, whatever it holds; only a matching pair is taken for quotes. */
  lemma {:induction false} UnquoteLaw(s: string, q: char)
    ensures IsQuote(q) ==> Unquote([q] + s + [q]) == s
    ensures (s == "" || !IsQuote(s[0]) || s[|s| - 1] != s[0] || |s| == 1) ==> Unquote(s) == s
    ensures IsQuote('"') && IsQuote('\'') && forall c | c != '"' && c != '\'' :: !IsQuote(c)
  {
    var t := [q] + s + [q];
    assert t[1..|t| - 1] == s;
  }
}
