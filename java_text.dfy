/** The pieces of `java.lang.String` and `java.io.BufferedReader` the
    application leans on, written out so that their edge cases are part of
    the model: `split(",")`, `readLine`, `trim`, `toLowerCase`, `replace`
    and `endsWith`. */
module JavaText {

  predicate NoComma(s: string) {
    forall i :: 0 <= i < |s| ==> s[i] != ','
  }

  predicate IsLineBreak(c: char) {
    c == '\n' || c == '\r'
  }

  predicate NoLineBreak(s: string) {
    forall i :: 0 <= i < |s| ==> !IsLineBreak(s[i])
  }

  /** Concatenation regroups freely; stated once so that proofs about long
      texts can cite it instead of rediscovering it. */
  lemma ConcatAssoc(a: string, b: string, c: string)
    ensures a + b + c == a + (b + c)
  {
  }

  // ---------------------------------------------------------------------
  // String.split(",")
  // ---------------------------------------------------------------------

  /** The fields put back together with commas between them. */
  function JoinFields(parts: seq<string>): string
    requires |parts| >= 1
  {
    if |parts| == 1 then parts[0] else parts[0] + "," + JoinFields(parts[1..])
  }

  /** Every field between commas, empty ones included: the fields are the
      unique comma-free pieces that joined with commas give `s` back. */
  function Fields(s: string): (r: seq<string>)
    ensures |r| >= 1
    ensures forall i :: 0 <= i < |r| ==> NoComma(r[i])
    ensures JoinFields(r) == s
  {
    if s == [] then [""]
    else if s[0] == ',' then
      var f := Fields(s[1..]);
      assert JoinFields([""] + f) == "," + JoinFields(f) by {
        assert ([""] + f)[1..] == f;
      }
      [""] + f
    else
      var f := Fields(s[1..]);
      var r := [[s[0]] + f[0]] + f[1..];
      assert JoinFields(r) == [s[0]] + JoinFields(f) by {
        if |f| > 1 {
          assert r[1..] == f[1..];
        }
      }
      r
  }

  lemma {:induction false} FieldsOfCommaFree(t: string)
    requires NoComma(t)
    ensures Fields(t) == [t]
  {
    if t != [] {
      FieldsOfCommaFree(t[1..]);
      assert [t[0]] + t[1..] == t;
    }
  }

  /** A comma followed by a comma-free piece adds exactly one field. */
  lemma {:induction false} FieldsAppend(s: string, t: string)
    requires NoComma(t)
    ensures Fields(s + "," + t) == Fields(s) + [t]
  {
    if s == [] {
      assert s + "," + t == [','] + t;
      assert ([','] + t)[1..] == t;
      FieldsOfCommaFree(t);
    } else {
      assert (s + "," + t)[1..] == s[1..] + "," + t;
      FieldsAppend(s[1..], t);
    }
  }

  /** The parts without the empty strings at the end. */
  function DropTrailingEmpty(parts: seq<string>): (r: seq<string>)
    ensures |r| <= |parts| && r == parts[..|r|]
    ensures forall k :: |r| <= k < |parts| ==> parts[k] == ""
    ensures r == [] || r[|r| - 1] != ""
  {
    if parts != [] && parts[|parts| - 1] == "" then DropTrailingEmpty(parts[..|parts| - 1]) else parts
  }

  /** `s.split(",")`: the whole string when it holds no comma (so `""` gives
      one empty field); otherwise the fields with the trailing empty ones
      removed. */
  function Split(s: string): (r: seq<string>)
    ensures NoComma(s) ==> r == [s]
    ensures !NoComma(s) ==> r == [] || r[|r| - 1] != ""
    ensures forall i :: 0 <= i < |r| ==> NoComma(r[i])
    ensures |r| <= |Fields(s)| && r == Fields(s)[..|r|]
    ensures forall k :: |r| <= k < |Fields(s)| ==> Fields(s)[k] == ""
  {
    if NoComma(s) then FieldsOfCommaFree(s); [s] else DropTrailingEmpty(Fields(s))
  }

  // ---------------------------------------------------------------------
  // BufferedReader.readLine / Files.readAllLines
  // ---------------------------------------------------------------------

  /** The first line of a non-empty text and what follows its terminator. */
  function NextLine(s: string): (r: (string, string))
    requires s != []
    ensures NoLineBreak(r.0)
    ensures |r.1| < |s|
    ensures r.1 == [] || r.1[|r.1| - 1] == s[|s| - 1]
    decreases |s|
  {
    if s[0] == '\n' then ("", s[1..])
    else if s[0] == '\r' then ("", if |s| > 1 && s[1] == '\n' then s[2..] else s[1..])
    else if |s| == 1 then (s, "")
    else
      var next := NextLine(s[1..]);
      ([s[0]] + next.0, next.1)
  }

  /** `s[n..m]` is a terminator `readLine` accepts: "\n", "\r\n", a "\r"
      not followed by "\n", or none at all at the end of the text. */
  predicate TerminatorAt(s: string, n: nat, m: nat)
    requires n <= m <= |s|
  {
    (m == n + 1 && s[n] == '\n') ||
    (m == n + 2 && s[n] == '\r' && s[n + 1] == '\n') ||
    (m == n + 1 && s[n] == '\r' && (m == |s| || s[m] != '\n')) ||
    (m == n && m == |s|)
  }

  /** The line is a prefix of the text and the rest a suffix. */
  lemma {:induction false} NextLineParts(s: string)
    requires s != []
    ensures |NextLine(s).0| + |NextLine(s).1| <= |s|
    ensures s[..|NextLine(s).0|] == NextLine(s).0
    ensures s[|s| - |NextLine(s).1|..] == NextLine(s).1
    decreases |s|
  {
    if s[0] != '\n' && s[0] != '\r' && |s| > 1 {
      var tail := s[1..];
      NextLineParts(tail);
      var line, rest := NextLine(tail).0, NextLine(tail).1;
      assert NextLine(s).0 == [s[0]] + line && NextLine(s).1 == rest;
      assert s[..|line| + 1] == [s[0]] + tail[..|line|];
      assert s[|s| - |rest|..] == tail[|tail| - |rest|..];
    }
  }

  /** The text is the line, its terminator and the rest, in that order. */
  lemma {:induction false} NextLineSplits(s: string)
    requires s != []
    ensures |NextLine(s).0| + |NextLine(s).1| <= |s|
    ensures s[..|NextLine(s).0|] == NextLine(s).0
    ensures s[|s| - |NextLine(s).1|..] == NextLine(s).1
    ensures TerminatorAt(s, |NextLine(s).0|, |s| - |NextLine(s).1|)
    decreases |s|
  {
    NextLineParts(s);
    if s[0] != '\n' && s[0] != '\r' && |s| > 1 {
      var tail := s[1..];
      NextLineSplits(tail);
      assert |NextLine(s).0| == |NextLine(tail).0| + 1 && NextLine(s).1 == NextLine(tail).1;
    }
  }

  /** The lines `readLine` returns one after another until it returns null. */
  function ReadLines(s: string): seq<string>
    decreases |s|
  {
    if s == [] then [] else [NextLine(s).0] + ReadLines(NextLine(s).1)
  }

  /** No line read back holds a line break. */
  lemma {:induction false} ReadLinesNoBreaks(s: string)
    ensures forall i :: 0 <= i < |ReadLines(s)| ==> NoLineBreak(ReadLines(s)[i])
    decreases |s|
  {
    if s != [] {
      ReadLinesNoBreaks(NextLine(s).1);
    }
  }

  /** Empty, or ending with a line feed: a text to which a line can be
      appended without merging into the last one. */
  predicate Terminated(c: string) {
    c == [] || c[|c| - 1] == '\n'
  }

  predicate IsLineSeparator(sep: string) {
    sep == "\n" || sep == "\r\n"
  }

  lemma {:induction false} NextLineAppend(c: string, x: string)
    requires c != [] && c[|c| - 1] == '\n'
    ensures NextLine(c + x) == (NextLine(c).0, NextLine(c).1 + x)
    decreases |c|
  {
    if c[0] == '\n' {
      assert (c + x)[1..] == c[1..] + x;
    } else if c[0] == '\r' {
      assert |c| > 1 && (c + x)[1] == c[1];
      assert (c + x)[1..] == c[1..] + x;
      assert (c + x)[2..] == c[2..] + x;
    } else {
      assert |c| > 1;
      assert (c + x)[1..] == c[1..] + x;
      NextLineAppend(c[1..], x);
    }
  }

  lemma {:induction false} ReadLinesConcat(c: string, y: string)
    requires Terminated(c)
    ensures ReadLines(c + y) == ReadLines(c) + ReadLines(y)
    decreases |c|
  {
    if c == [] {
      assert c + y == y;
    } else {
      var (line, rest) := NextLine(c);
      NextLineAppend(c, y);
      ReadLinesConcat(rest, y);
      assert ReadLines(c + y) == [line] + ReadLines(rest + y);
      assert [line] + (ReadLines(rest) + ReadLines(y)) == [line] + ReadLines(rest) + ReadLines(y);
    }
  }

  lemma {:induction false} NextLineOfLine(line: string, sep: string)
    requires NoLineBreak(line) && IsLineSeparator(sep)
    ensures NextLine(line + sep) == (line, "")
    decreases |line|
  {
    if line != [] {
      assert (line + sep)[1..] == line[1..] + sep;
      NextLineOfLine(line[1..], sep);
      assert [line[0]] + line[1..] == line;
    }
  }

  /** Appending one line and a separator to a terminated text adds exactly
      that line to what is read back. */
  lemma ReadLinesAppendLine(c: string, line: string, sep: string)
    requires Terminated(c) && NoLineBreak(line) && IsLineSeparator(sep)
    ensures ReadLines(c + line + sep) == ReadLines(c) + [line]
    ensures Terminated(c + line + sep)
  {
    var x := line + sep;
    ConcatAssoc(c, line, sep);
    assert ReadLines(x) == [line] by {
      NextLineOfLine(line, sep);
      assert ReadLines(x) == [line] + ReadLines("");
    }
    assert ReadLines(c + x) == ReadLines(c) + ReadLines(x) by {
      ReadLinesConcat(c, x);
    }
    assert (c + x)[|c + x| - 1] == sep[|sep| - 1];
  }

  /** `Files.write(path, lines)`: every line followed by the separator. */
  function Unlines(lines: seq<string>, sep: string): string
  {
    if lines == [] then "" else Unlines(lines[..|lines| - 1], sep) + lines[|lines| - 1] + sep
  }

  lemma {:induction false} ReadUnlines(lines: seq<string>, sep: string)
    requires IsLineSeparator(sep)
    requires forall i :: 0 <= i < |lines| ==> NoLineBreak(lines[i])
    ensures ReadLines(Unlines(lines, sep)) == lines
    ensures Terminated(Unlines(lines, sep))
  {
    if lines != [] {
      var init, last := lines[..|lines| - 1], lines[|lines| - 1];
      assert NoLineBreak(last);
      ReadUnlines(init, sep);
      var c := Unlines(init, sep);
      assert Unlines(lines, sep) == c + last + sep;
      ReadLinesAppendLine(c, last, sep);
      assert init + [last] == lines;
    }
  }

  // ---------------------------------------------------------------------
  // String.trim and String.toLowerCase
  // ---------------------------------------------------------------------

  /** `trim` removes every character up to and including U+0020. */
  predicate IsTrimmed(s: string) {
    s == [] || (s[0] > ' ' && s[|s| - 1] > ' ')
  }

  /** The text without its leading characters at or below U+0020. */
  function TrimStart(s: string): string
    decreases |s|
  {
    if s != [] && s[0] <= ' ' then TrimStart(s[1..]) else s
  }

  /** The text without its trailing characters at or below U+0020. */
  function TrimEnd(s: string): string
    decreases |s|
  {
    if s != [] && s[|s| - 1] <= ' ' then TrimEnd(s[..|s| - 1]) else s
  }

  /** `s.trim()`. */
  function Trim(s: string): string {
    TrimEnd(TrimStart(s))
  }

  /** `TrimStart` drops a blank prefix and stops at the first other character. */
  lemma {:induction false} TrimStartFacts(s: string)
    ensures |TrimStart(s)| <= |s| && TrimStart(s) == s[|s| - |TrimStart(s)|..]
    ensures forall k :: 0 <= k < |s| - |TrimStart(s)| ==> s[k] <= ' '
    ensures TrimStart(s) == [] || TrimStart(s)[0] > ' '
    decreases |s|
  {
    if s != [] && s[0] <= ' ' {
      TrimStartFacts(s[1..]);
    }
  }

  /** `TrimEnd` drops a blank suffix and stops at the last other character. */
  lemma {:induction false} TrimEndFacts(s: string)
    ensures |TrimEnd(s)| <= |s| && TrimEnd(s) == s[..|TrimEnd(s)|]
    ensures forall k :: |TrimEnd(s)| <= k < |s| ==> s[k] <= ' '
    ensures TrimEnd(s) == [] || TrimEnd(s)[|TrimEnd(s)| - 1] > ' '
    decreases |s|
  {
    if s != [] && s[|s| - 1] <= ' ' {
      TrimEndFacts(s[..|s| - 1]);
    }
  }

  /** `trim` neither starts nor ends with a character at or below U+0020,
      and is empty exactly when the whole text is blank. */
  lemma TrimFacts(s: string)
    ensures IsTrimmed(Trim(s)) && |Trim(s)| <= |s|
    ensures Trim(s) == [] <==> forall k :: 0 <= k < |s| ==> s[k] <= ' '
  {
    var t := TrimStart(s);
    TrimStartFacts(s);
    TrimEndFacts(t);
    if Trim(s) == [] {
      assert t == [];
    } else {
      assert exists k :: 0 <= k < |t| && t[k] > ' ';
      var k :| 0 <= k < |t| && t[k] > ' ';
      assert s[k + (|s| - |t|)] == t[k];
    }
  }

  /** `trim` gives the longest middle part of the text with no blank ends:
      an infix of the text, everything outside of which is blank. */
  lemma TrimIsInfix(s: string)
    ensures |TrimStart(s)| <= |s| && var a := |s| - |TrimStart(s)|; a + |Trim(s)| <= |s| && Trim(s) == s[a..a + |Trim(s)|]
    ensures forall k :: 0 <= k < |s| && !(|s| - |TrimStart(s)| <= k < |s| - |TrimStart(s)| + |Trim(s)|) ==> s[k] <= ' '
  {
    var t := TrimStart(s);
    TrimStartFacts(s);
    TrimEndFacts(t);
    var a := |s| - |t|;
    assert Trim(s) == t[..|Trim(s)|] == s[a..a + |Trim(s)|];
    forall k | a + |Trim(s)| <= k < |s| ensures s[k] <= ' ' {
      assert s[k] == t[k - a];
    }
  }

  lemma TrimOfTrimmed(s: string)
    requires IsTrimmed(s)
    ensures Trim(s) == s
  {
  }

  function LowerChar(c: char): char {
    if 'A' <= c <= 'Z' then (c as int + 32) as char else c
  }

  /** `toLowerCase()` on the ASCII letters; every other character is kept. */
  function ToLower(s: string): (r: string)
    ensures |r| == |s|
    ensures forall i :: 0 <= i < |s| ==> r[i] == LowerChar(s[i])
  {
    if s == [] then [] else [LowerChar(s[0])] + ToLower(s[1..])
  }

  /** No upper-case ASCII letter survives, and a lower-cased text is its own
      lower-case form. */
  lemma ToLowerNormal(s: string)
    ensures forall i :: 0 <= i < |s| ==> !('A' <= ToLower(s)[i] <= 'Z')
    ensures ToLower(ToLower(s)) == ToLower(s)
  {
  }

  lemma {:induction false} TrimStartLower(s: string)
    ensures TrimStart(ToLower(s)) == ToLower(TrimStart(s))
    decreases |s|
  {
    if s != [] && s[0] <= ' ' {
      assert ToLower(s)[0] <= ' ';
      assert ToLower(s)[1..] == ToLower(s[1..]);
      TrimStartLower(s[1..]);
    }
  }

  lemma {:induction false} TrimEndLower(s: string)
    ensures TrimEnd(ToLower(s)) == ToLower(TrimEnd(s))
    decreases |s|
  {
    if s != [] && s[|s| - 1] <= ' ' {
      assert ToLower(s)[|s| - 1] <= ' ';
      assert ToLower(s)[..|s| - 1] == ToLower(s[..|s| - 1]);
      TrimEndLower(s[..|s| - 1]);
    }
  }

  /** Lower-casing never creates nor removes the blanks `trim` looks at. */
  lemma TrimLowerCommute(s: string)
    ensures Trim(ToLower(s)) == ToLower(Trim(s))
  {
    TrimStartLower(s);
    TrimEndLower(TrimStart(s));
  }

  // ---------------------------------------------------------------------
  // String.endsWith and String.replace(target, "")
  // ---------------------------------------------------------------------

  predicate EndsWith(s: string, suffix: string) {
    |s| >= |suffix| && s[|s| - |suffix|..] == suffix
  }

  /** Whether `pat` occurs somewhere in `s`. */
  predicate HasInfix(s: string, pat: string)
    decreases |s|
  {
    |s| >= |pat| && (s[..|pat|] == pat || (s != [] && HasInfix(s[1..], pat)))
  }

  /** A text without the first character of a pattern does not contain it. */
  lemma {:induction false} NoInfixWithoutFirst(s: string, pat: string)
    requires pat != [] && pat[0] !in s
    ensures !HasInfix(s, pat)
    decreases |s|
  {
    if |s| >= |pat| {
      assert s[..|pat|][0] == s[0];
      NoInfixWithoutFirst(s[1..], pat);
    }
  }

  /** `s.replace(pat, "")`: every occurrence found scanning from the left,
      without overlaps, is deleted. */
  function RemoveAll(s: string, pat: string): (r: string)
    requires pat != []
    ensures |r| <= |s|
    ensures !HasInfix(s, pat) ==> r == s
    decreases |s|
  {
    if |s| < |pat| then s
    else if s[..|pat|] == pat then RemoveAll(s[|pat|..], pat)
    else [s[0]] + RemoveAll(s[1..], pat)
  }
}
