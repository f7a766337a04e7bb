/** The secret path prefix and its normalisation. */
module WebPath {
  import opened Basics
  import opened Text

  datatype PathError = Traversal | BadCharacter | TooLong

  predicate IsWebPathRune(c: char) {
    'A' <= c <= 'Z' || 'a' <= c <= 'z' || '0' <= c <= '9' || c == '.' || c == '_' || c == '~' || c == '-'
  }

  predicate HasDotDot(s: string) { exists i :: 0 <= i < |s| - 1 && s[i] == '.' && s[i + 1] == '.' }

  function NormalizeWebPath(raw: string): Result<string, PathError> {
    var s := TrimBy(Trim(raw), IsSlash);
    if s == "" then Ok("")
    else if s == "." || HasDotDot(s) then Err(Traversal)
    else if exists c | c in s :: !IsWebPathRune(c) then Err(BadCharacter)
    else if |s| > 128 then Err(TooLong)
    else Ok(s)
  }

  /** What normalisation lets through: at most one plain path segment. */
  predicate IsWebPath(s: string) {
    s != "." && !HasDotDot(s) && |s| <= 128 && forall c | c in s :: IsWebPathRune(c)
  }

  lemma {:induction false} RuneIsPlain(c: char)
    requires IsWebPathRune(c)
    ensures !IsSpace(c) && !IsSlash(c) && !IsQuote(c) && c != '\n' && c != '\r'
  {
  }

  lemma {:induction false} PlainBare(s: string)
    requires IsWebPath(s)
    ensures Bare(s, IsSpace) && Bare(s, IsSlash) && Unquote(s) == s && OneLine(s)
  {
    forall c | c in s ensures !IsSpace(c) && !IsSlash(c) && !IsQuote(c) && c != '\n' {
      RuneIsPlain(c);
    }
    if s != "" {
      assert s[0] in s && s[|s| - 1] in s;
    }
  }

  /** The fixed points of normalisation are its outputs, and they are plain. */
  lemma {:induction false} NormalizeIdempotent(raw: string, s: string)
    ensures NormalizeWebPath(raw) == Ok(s) ==> IsWebPath(s)
    ensures IsWebPath(s) <==> NormalizeWebPath(s) == Ok(s)
  {
    if IsWebPath(s) {
      PlainBare(s);
      TrimBare(s, IsSpace);
      TrimBare(s, IsSlash);
      assert TrimBy(Trim(s), IsSlash) == s;
    }
  }

  /** Only the trimmed text matters. */
  lemma {:induction false} NormalizeTrimmed(raw: string)
    ensures NormalizeWebPath(Trim(raw)) == NormalizeWebPath(raw)
  {
    TrimTwice(raw, IsSpace);
  }

  lemma {:induction false} TrimRightKeeps(s: string, p: char -> bool, c: char)
    requires c in s && !p(c)
    ensures c in TrimRight(s, p)
    decreases |s|
  {
    if p(s[|s| - 1]) {
      assert s == s[..|s| - 1] + [s[|s| - 1]];
      TrimRightKeeps(s[..|s| - 1], p, c);
    }
  }

  lemma {:induction false} TrimLeftKeeps(s: string, p: char -> bool, c: char)
    requires c in s && !p(c)
    ensures c in TrimLeft(s, p)
  {
    if p(s[0]) {
      assert s == [s[0]] + s[1..];
      TrimLeftKeeps(s[1..], p, c);
    }
  }

  /** A value that normalises has no quotes to be taken for quoting. */
  lemma {:induction false} AcceptedUnquoted(raw: string)
    requires NormalizeWebPath(raw).Ok?
    ensures Unquote(Trim(raw)) == Trim(raw)
  {
    var t := Trim(raw);
    if |t| >= 2 && IsQuote(t[0]) {
      TrimLeftKeeps(t, IsSlash, t[0]);
      TrimRightKeeps(TrimLeft(t, IsSlash), IsSlash, t[0]);
      assert !IsWebPathRune(t[0]);
    }
  }

  /** What is accepted, and as what: anything that is one plain segment, or nothing, between slashes
      and blanks; everything else is refused. */
  lemma {:induction false} NormalizeLaw(raw: string)
    ensures var s := TrimBy(Trim(raw), IsSlash);
            && (NormalizeWebPath(raw) == Ok(s) <==> IsWebPath(s))
            && (NormalizeWebPath(raw) == Err(Traversal) <==> s == "." || HasDotDot(s))
            && (NormalizeWebPath(raw) == Err(BadCharacter) <==>
                  s != "." && !HasDotDot(s) && exists c | c in s :: !IsWebPathRune(c))
            && (NormalizeWebPath(raw) == Err(TooLong) <==>
                  s != "." && !HasDotDot(s) && (forall c | c in s :: IsWebPathRune(c)) && |s| > 128)
  {
  }

  /** The characters of a path, by their numbers, and the dots that are refused. */
  lemma {:induction false} RunesAndDots(c: char, before: string, after: string)
    ensures IsWebPathRune(c) <==>
              65 <= c as int <= 90 || 97 <= c as int <= 122 || 48 <= c as int <= 57 || c as int in {45, 46, 95, 126}
    ensures HasDotDot(before + ".." + after)
    ensures '.' !in before && '.' !in after ==> !HasDotDot(before + "." + after)
  {
    var s := before + ".." + after;
    assert s[|before|] == '.' && s[|before| + 1] == '.';
    var t := before + "." + after;
    if '.' !in before && '.' !in after {
      forall i | 0 <= i < |t| && i != |before| ensures t[i] != '.' {
        if i < |before| {
          assert t[i] == before[i];
        } else {
          assert t[i] == after[i - |before| - 1];
        }
      }
    }
  }

  lemma {:induction false} NormalizeAround(blanks: string, slashes: string, s: string, moreSlashes: string, moreBlanks: string)
    requires (forall c | c in blanks :: IsSpace(c)) && (forall c | c in moreBlanks :: IsSpace(c))
    requires (forall c | c in slashes :: IsSlash(c)) && (forall c | c in moreSlashes :: IsSlash(c))
    requires IsWebPath(s)
    ensures NormalizeWebPath(blanks + (slashes + s + moreSlashes) + moreBlanks) == Ok(s)
  {
    var t := slashes + s + moreSlashes;
    PlainBare(s);
    forall c | c in t ensures !IsSpace(c) {
      if c in s {
        RuneIsPlain(c);
      }
    }
    assert t != "" ==> t[0] in t && t[|t| - 1] in t;
    TrimAround(blanks, t, moreBlanks, IsSpace);
    TrimAround(slashes, s, moreSlashes, IsSlash);
    NormalizeLaw(blanks + t + moreBlanks);
  }

  /** The longest that passes, and the shortest too long. */
  lemma {:induction false} LengthLimit(s: string)
    requires forall c | c in s :: c == 'a'
    ensures |s| <= 128 ==> NormalizeWebPath(s) == Ok(s)
    ensures |s| > 128 ==> NormalizeWebPath(s) == Err(TooLong)
  {
    assert forall i | 0 <= i < |s| :: s[i] in s;
    TrimBare(s, IsSpace);
    TrimBare(s, IsSlash);
    assert TrimBy(Trim(s), IsSlash) == s;
  }
}
