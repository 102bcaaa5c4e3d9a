/**
 * The JUCE String and StringArray operations the host leans on (trim,
 * contains, fromFirstOccurrenceOf, upToFirstOccurrenceOf,
 * fromLastOccurrenceOf, StringArray::fromLines), written out as the library
 * defines them for narrow characters.
 */
module JuceString {
  import opened Optional

  /** JUCE's notion of white space for narrow characters. */
  predicate IsWhitespace(c: char) {
    c == ' ' || ('\t' <= c <= '\r')
  }

  /** True of a string that `trim` leaves alone. */
  predicate IsTrimmed(s: string) {
    s == [] || (!IsWhitespace(s[0]) && !IsWhitespace(s[|s| - 1]))
  }

  function TrimStart(s: string): (r: string)
    ensures |r| <= |s| && r == s[|s| - |r|..]
    ensures r == [] || !IsWhitespace(r[0])
    ensures forall i :: 0 <= i < |s| - |r| ==> IsWhitespace(s[i])
  {
    if s != [] && IsWhitespace(s[0]) then TrimStart(s[1..]) else s
  }

  function TrimEnd(s: string): (r: string)
    ensures |r| <= |s| && r == s[..|r|]
    ensures r == [] || !IsWhitespace(r[|r| - 1])
    ensures forall i :: |r| <= i < |s| ==> IsWhitespace(s[i])
  {
    if s != [] && IsWhitespace(s[|s| - 1]) then TrimEnd(s[..|s| - 1]) else s
  }

  /** String::trim: drops white space at both ends and nothing else. */
  function Trim(s: string): (r: string)
    ensures |r| <= |s| && IsTrimmed(r)
    ensures forall c :: c in r ==> c in s
    ensures IsTrimmed(s) ==> r == s
  {
    var t := TrimStart(s);
    var r := TrimEnd(t);
    assert r != [] ==> r[0] == t[0];
    r
  }

  // ---------------------------------------------------------------------------
  // Searching

  /** Whether `t` occurs in `s` starting at position `j`. */
  predicate OccursAt(s: string, t: string, j: nat)
  {
    j + |t| <= |s| && s[j..j + |t|] == t
  }

  /** Where `t` first occurs in `s`, if anywhere. */
  function FirstOccurrence(s: string, t: string): (r: Option<nat>)
    ensures r.Some? ==> OccursAt(s, t, r.value)
    ensures r.Some? ==> forall j: nat :: j < r.value ==> !OccursAt(s, t, j)
    ensures r.None? ==> forall j: nat :: !OccursAt(s, t, j)
    decreases |s|
  {
    if |s| < |t| then None
    else if s[..|t|] == t then Some(0)
    else
      var rest := FirstOccurrence(s[1..], t);
      OccursShift(s, t);
      assert !OccursAt(s, t, 0) by {
        assert s[0..|t|] == s[..|t|];
      }
      match rest {
        case None => None
        case Some(k) => Some(k + 1)
      }
  }

  /** An occurrence after the first character of `s` is an occurrence in
      the rest of `s`, one place earlier. */
  lemma OccursShift(s: string, t: string)
    requires s != []
    ensures forall j: nat :: 0 < j ==> (OccursAt(s, t, j) <==> OccursAt(s[1..], t, j - 1))
  {
    forall j: nat | 0 < j
      ensures OccursAt(s, t, j) <==> OccursAt(s[1..], t, j - 1)
    {
      if j + |t| <= |s| {
        SameSlice(s, t, j - 1);
      }
    }
  }

  lemma PrefixSlice(s: string, k: nat, j: nat, n: nat)
    requires j + n <= k <= |s|
    ensures s[..k][j..j + n] == s[j..j + n]
  {
    var a, b := s[..k][j..j + n], s[j..j + n];
    forall i | 0 <= i < n
      ensures a[i] == b[i]
    {
      assert a[i] == s[..k][j + i];
    }
  }

  lemma SameSlice(s: string, t: string, j: nat)
    requires j + 1 + |t| <= |s|
    ensures s[j + 1..j + 1 + |t|] == s[1..][j..j + |t|]
  {
    var a, b := s[j + 1..j + 1 + |t|], s[1..][j..j + |t|];
    forall i | 0 <= i < |t|
      ensures a[i] == b[i]
    {
      assert a[i] == s[j + 1 + i];
      assert b[i] == s[1..][j + i];
    }
  }

  /** String::contains. */
  predicate Contains(s: string, t: string)
  {
    FirstOccurrence(s, t).Some?
  }

  /** String::upToFirstOccurrenceOf(t, false, false): the text before the
      first `t`, or all of `s` when `t` does not occur. */
  function UpToFirstOccurrenceOf(s: string, t: string): (r: string)
    ensures |r| <= |s| && r == s[..|r|]
    ensures !Contains(s, t) ==> r == s
  {
    match FirstOccurrence(s, t)
    case None => s
    case Some(k) => s[..k]
  }

  /** String::fromFirstOccurrenceOf(t, false, false): the text after the
      first `t`, or nothing when `t` does not occur. */
  function FromFirstOccurrenceOf(s: string, t: string): (r: string)
    ensures |r| <= |s| && r == s[|s| - |r|..]
    ensures !Contains(s, t) ==> r == []
  {
    match FirstOccurrence(s, t)
    case None => []
    case Some(k) => s[k + |t|..]
  }

  /** Where `t` occurs, the text before it, `t` itself and the text after
      it make up the whole string again. */
  lemma SplitAtFirst(s: string, t: string)
    requires Contains(s, t)
    ensures UpToFirstOccurrenceOf(s, t) + t + FromFirstOccurrenceOf(s, t) == s
    ensures t != [] ==> !Contains(UpToFirstOccurrenceOf(s, t), t)
  {
    var k := FirstOccurrence(s, t).value;
    assert s == s[..k] + s[k..k + |t|] + s[k + |t|..];
    var up := s[..k];
    forall j: nat | t != []
      ensures !OccursAt(up, t, j)
    {
      if OccursAt(up, t, j) {
        PrefixSlice(s, k, j, |t|);
        assert OccursAt(s, t, j);
      }
    }
  }

  /** String::fromLastOccurrenceOf(c, false, false) for a one-character
      needle: the text after the last `c`, or all of `s` when there is
      none. */
  function FromLastOccurrenceOf(s: string, c: char): (r: string)
    ensures c !in r
    ensures |r| <= |s| && r == s[|s| - |r|..]
    ensures c !in s ==> r == s
    ensures c in s ==> |r| < |s| && s[|s| - |r| - 1] == c
    decreases |s|
  {
    if c !in s then s
    else if s[|s| - 1] == c then []
    else
      var front := s[..|s| - 1];
      assert c in front by {
        var i :| 0 <= i < |s| && s[i] == c;
        assert front[i] == c;
      }
      var r := FromLastOccurrenceOf(front, c) + [s[|s| - 1]];
      assert s[|s| - |r|..] == front[|front| - (|r| - 1)..] + [s[|s| - 1]];
      r
  }

  /** A string lacking one of `t`'s characters does not contain `t`. */
  lemma AbsentChar(s: string, t: string, k: nat)
    requires k < |t| && t[k] !in s
    ensures !Contains(s, t)
  {
    forall j: nat | j + |t| <= |s|
      ensures !OccursAt(s, t, j)
    {
      assert s[j..j + |t|][k] == s[j + k];
    }
  }

  /** When the first character of `t` appears in `s` only at `p`, `t`
      can occur only there. */
  lemma OnlyAt(s: string, t: string, p: nat)
    requires t != [] && p < |s| && s[p] == t[0]
    requires forall i :: 0 <= i < |s| && i != p ==> s[i] != t[0]
    ensures Contains(s, t) <==> OccursAt(s, t, p)
    ensures OccursAt(s, t, p) ==> FirstOccurrence(s, t) == Some(p)
  {
    match FirstOccurrence(s, t)
    case Some(j) =>
      assert s[j..j + |t|][0] == s[j];
    case None =>
  }

  /** White space in front of a word is what trimStart removes. */
  lemma TrimStartAfter(ws: string, v: string)
    requires forall i :: 0 <= i < |ws| ==> IsWhitespace(ws[i])
    requires v != [] && !IsWhitespace(v[0])
    ensures TrimStart(ws + v) == v
  {
    var s := ws + v;
    var r := TrimStart(s);
    var n := |s| - |r|;
    assert s[|ws|] == v[0];
    assert n <= |ws|;
    assert r[0] == s[n];
    assert n == |ws|;
    assert s[|ws|..] == v;
  }

  /** trimEnd leaves a string that ends in a non-space alone. */
  lemma TrimEndKeeps(v: string)
    requires v != [] && !IsWhitespace(v[|v| - 1])
    ensures TrimEnd(v) == v
  {
    var r := TrimEnd(v);
    assert |r| == |v|;
  }

  // ---------------------------------------------------------------------------
  // Lines

  predicate IsLineBreak(c: char)
  {
    c == '\n' || c == '\r'
  }

  predicate NoLineBreaks(s: string)
  {
    forall i :: 0 <= i < |s| ==> !IsLineBreak(s[i])
  }

  /** A string without either line-break character has no line breaks. */
  lemma NoBreakChars(s: string)
    requires '\n' !in s && '\r' !in s
    ensures NoLineBreaks(s)
  {
    forall i | 0 <= i < |s|
      ensures !IsLineBreak(s[i])
    {
      assert s[i] in s;
    }
  }

  lemma NoLineBreaksAppend(a: string, b: string)
    requires NoLineBreaks(a) && NoLineBreaks(b)
    ensures NoLineBreaks(a + b)
  {
    forall i | 0 <= i < |a + b|
      ensures !IsLineBreak((a + b)[i])
    {
      if i >= |a| {
        assert (a + b)[i] == b[i - |a|];
      }
    }
  }

  /** Index of the first line break, or |s| when there is none. */
  function FirstLineBreak(s: string): (k: nat)
    ensures k <= |s|
    ensures k < |s| ==> IsLineBreak(s[k])
    ensures NoLineBreaks(s[..k])
  {
    if s == [] then 0
    else if IsLineBreak(s[0]) then 0
    else
      var k := 1 + FirstLineBreak(s[1..]);
      assert s[..k] == [s[0]] + s[1..][..k - 1];
      k
  }

  /** The lines of a non-empty text: a line ends at "\n", "\r\n" or "\r",
      and the text after the last break is a line too, even when empty. */
  function LinesFrom(s: string): (r: seq<string>)
    ensures |r| >= 1
    ensures forall i :: 0 <= i < |r| ==> NoLineBreaks(r[i])
    decreases |s|
  {
    var k := FirstLineBreak(s);
    if k == |s| then [s]
    else
      var skip := if s[k] == '\r' && k + 1 < |s| && s[k + 1] == '\n' then 2 else 1;
      [s[..k]] + LinesFrom(s[k + skip..])
  }

  /** StringArray::fromLines: no lines for an empty text. */
  function Lines(s: string): (r: seq<string>)
    ensures forall i :: 0 <= i < |r| ==> NoLineBreaks(r[i])
  {
    if s == [] then [] else LinesFrom(s)
  }

  /** The line endings JUCE writes: "\n", and juce::newLine, "\r\n". */
  predicate IsNewLine(sep: string)
  {
    sep == "\n" || sep == "\r\n"
  }

  /** Lines joined with a line ending between each two. */
  function JoinLines(lines: seq<string>, sep: string): string
    requires lines != []
    decreases |lines|
  {
    if |lines| == 1 then lines[0] else lines[0] + sep + JoinLines(lines[1..], sep)
  }

  /** Splitting lines joined with a line ending gives the lines back. */
  lemma {:induction false} LinesOfJoin(lines: seq<string>, sep: string)
    requires lines != [] && IsNewLine(sep)
    requires forall i :: 0 <= i < |lines| ==> NoLineBreaks(lines[i])
    ensures LinesFrom(JoinLines(lines, sep)) == lines
    decreases |lines|
  {
    if |lines| == 1 {
      LastLine(lines[0]);
    } else {
      LinesOfJoin(lines[1..], sep);
      NextLine(lines[0], sep, JoinLines(lines[1..], sep));
      assert lines == [lines[0]] + lines[1..];
    }
  }

  /** A text without breaks is a single line. */
  lemma LastLine(line: string)
    requires NoLineBreaks(line)
    ensures LinesFrom(line) == [line]
  {
    FirstBreakAfterLine(line, "");
    assert line + "" == line;
  }

  /** A line and a line ending in front of a text add that line in front
      of the text's lines. */
  lemma NextLine(line: string, sep: string, rest: string)
    requires NoLineBreaks(line) && IsNewLine(sep)
    ensures LinesFrom(line + sep + rest) == [line] + LinesFrom(rest)
  {
    var s := line + sep + rest;
    FirstBreakAfterLine(line, sep + rest);
    assert line + (sep + rest) == s;
    assert s[..|line|] == line;
    assert s[|line|] == sep[0];
    if sep == "\r\n" {
      assert s[|line| + 1] == '\n';
    }
    assert s[|line| + |sep|..] == rest;
  }

  /** A line without breaks followed by `tail` breaks where `tail` starts,
      if it starts with a break. */
  lemma FirstBreakAfterLine(line: string, tail: string)
    requires NoLineBreaks(line)
    ensures FirstLineBreak(line + tail) == |line| + FirstLineBreak(tail)
    decreases |line|
  {
    if line != [] {
      assert (line + tail)[1..] == line[1..] + tail;
      FirstBreakAfterLine(line[1..], tail);
    } else {
      assert line + tail == tail;
    }
  }
}
