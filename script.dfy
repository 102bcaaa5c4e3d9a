/**
 * Script headers (src/script.cpp): a Lua script describes itself in the
 * comment block at its top, with `@script`, `@kind`, `@author` and
 * `@description` tags.  The parser reads those tags line by line without
 * running the script; `Script::make` and `Script::anonymous` write headers
 * that the parser reads back.
 */
module ScriptHeader {
  import opened Seqs
  import opened JuceString

  /** What a script says about itself.  `kind` is the source's `type`. */
  datatype ScriptInfo = ScriptInfo(name: string, kind: string, author: string, description: string, code: string)

  const Blank := ScriptInfo("", "", "", "", "")

  /** The tags the parser looks for, in the order it tries them. */
  const Tags: seq<string> := ["@author", "@script", "@description", "@kind"]

  /** The text following a tag on a line: trimmed, and cut before any
      block-comment close. */
  function TagValue(line: string, tag: string): string
  {
    TrimEnd(UpToFirstOccurrenceOf(TrimStart(FromFirstOccurrenceOf(line, tag)), "--]]"))
  }

  /** A tag's value stored into its field, if that field is still empty.
      For `@kind` only the part after the last '.' is kept. */
  function SetField(info: ScriptInfo, tag: string, value: string): ScriptInfo
  {
    if tag == "@kind" && info.kind == [] then info.(kind := FromLastOccurrenceOf(value, '.'))
    else if tag == "@script" && info.name == [] then info.(name := value)
    else if tag == "@author" && info.author == [] then info.(author := value)
    else if tag == "@description" && info.description == [] then info.(description := value)
    else info
  }

  /** The `@script` tag fills an empty name. */
  lemma SetName(info: ScriptInfo, value: string)
    requires info.name == []
    ensures SetField(info, Tags[1], value) == info.(name := value)
  {
    assert Tags[1] == "@script";
    assert "@script" != "@kind" by { assert |"@script"| != |"@kind"|; }
  }

  /** The `@kind` tag fills an empty kind with the part after the last '.'. */
  lemma SetKind(info: ScriptInfo, value: string)
    requires info.kind == []
    ensures SetField(info, Tags[3], value) == info.(kind := FromLastOccurrenceOf(value, '.'))
  {
    assert Tags[3] == "@kind";
  }

  /** The `@author` tag fills an empty author. */
  lemma SetAuthor(info: ScriptInfo, value: string)
    requires info.author == []
    ensures SetField(info, Tags[0], value) == info.(author := value)
  {
    assert Tags[0] == "@author";
    assert "@author" != "@kind" by { assert |"@author"| != |"@kind"|; }
    assert "@author" != "@script" by { assert "@author"[1] != "@script"[1]; }
  }

  /** One tag tried on one line. */
  function ApplyTag(info: ScriptInfo, line: string, tag: string): ScriptInfo
  {
    if Contains(line, tag) then SetField(info, tag, TagValue(line, tag)) else info
  }

  /** The first `k` tags tried on one line, in order. */
  function ApplyTags(info: ScriptInfo, line: string, k: nat): ScriptInfo
    requires k <= |Tags|
  {
    if k == 0 then info else ApplyTag(ApplyTags(info, line, k - 1), line, Tags[k - 1])
  }

  /** The parser's state after one line. */
  datatype Scan = Scan(info: ScriptInfo, inBlock: bool, finished: bool)

  /** One line: a line in a `--[[` block or starting with "--" is searched
      for tags; the scan finishes at the line that closes a block and at
      the first line that is neither. */
  function Step(info: ScriptInfo, inBlock: bool, raw: string): Scan
  {
    var line := Trim(raw);
    var open := inBlock || StartsWith(line, "--[[");
    if open || StartsWith(line, "--") then
      var tagged := ApplyTags(info, line, |Tags|);
      if open then Scan(tagged, !Contains(line, "--]]"), Contains(line, "--]]"))
      else Scan(tagged, false, false)
    else Scan(info, false, true)
  }

  /** The lines scanned in order until the scan finishes. */
  function ScanLines(info: ScriptInfo, inBlock: bool, lines: seq<string>): ScriptInfo
    decreases |lines|
  {
    if lines == [] then info
    else
      var s := Step(info, inBlock, lines[0]);
      if s.finished then s.info else ScanLines(s.info, s.inBlock, lines[1..])
  }

  /** The header of a script text. */
  function CommentInfo(buffer: string): ScriptInfo
  {
    ScanLines(Blank, false, Lines(buffer))
  }

  /** The tags tried in turn on one trimmed line. */
  method SearchTags(info: ScriptInfo, line: string) returns (desc: ScriptInfo)
    ensures desc == ApplyTags(info, line, |Tags|)
  {
    desc := info;
    var k := 0;
    while k < |Tags|
      invariant 0 <= k <= |Tags|
      invariant desc == ApplyTags(info, line, k)
    {
      var tag := Tags[k];
      assert ApplyTags(info, line, k + 1) == ApplyTag(desc, line, tag);
      if Contains(line, tag) {
        var value := TagValue(line, tag);
        if tag == "@kind" && desc.kind == [] {
          desc := desc.(kind := FromLastOccurrenceOf(value, '.'));
        } else if tag == "@script" && desc.name == [] {
          desc := desc.(name := value);
        } else if tag == "@author" && desc.author == [] {
          desc := desc.(author := value);
        } else if tag == "@description" && desc.description == [] {
          desc := desc.(description := value);
        }
      }
      k := k + 1;
    }
  }

  /** The body of the parser's loop: one line read into the state. */
  method ScanLine(info: ScriptInfo, wasInBlock: bool, raw: string) returns (s: Scan)
    ensures s == Step(info, wasInBlock, raw)
  {
    var desc := info;
    var inBlock := wasInBlock;
    var finished := false;
    var line := Trim(raw);
    if !inBlock {
      inBlock := StartsWith(line, "--[[");
    }
    if inBlock || StartsWith(line, "--") {
      desc := SearchTags(desc, line);
      if inBlock {
        inBlock := !Contains(line, "--]]");
        finished := !inBlock;
      }
    } else {
      finished := true;
    }
    s := Scan(desc, inBlock, finished);
  }

  /** parseScriptComments: lines are read until the scan finishes. */
  method ParseScriptComments(buffer: string) returns (desc: ScriptInfo)
    ensures desc == CommentInfo(buffer)
  {
    desc := Blank;
    var lines := Lines(buffer);
    var index := 0;
    var inBlock := false;
    while index < |lines|
      invariant 0 <= index <= |lines|
      invariant ScanLines(desc, inBlock, lines[index..]) == CommentInfo(buffer)
    {
      assert lines[index..][1..] == lines[index + 1..];
      var s := ScanLine(desc, inBlock, lines[index]);
      desc, inBlock := s.info, s.inBlock;
      if s.finished {
        break;
      }
      index := index + 1;
    }
  }

  /** ScriptInfo::parse for a text: the header, with no code. */
  method Parse(buffer: string) returns (desc: ScriptInfo)
    ensures desc == CommentInfo(buffer).(code := "")
    ensures desc.code == []
  {
    desc := ParseScriptComments(buffer);
    desc := desc.(code := "");
  }

  // ----- what the parser promises ---------------------------------------

  /** `b` agrees with `a` on every field `a` has already set. */
  predicate Keeps(a: ScriptInfo, b: ScriptInfo)
  {
    && (a.name != [] ==> b.name == a.name)
    && (a.kind != [] ==> b.kind == a.kind)
    && (a.author != [] ==> b.author == a.author)
    && (a.description != [] ==> b.description == a.description)
    && b.code == a.code
  }

  /** Which fields a tag can set: only the field the tag names, and only
      while it is empty.  A kind is set without any '.'. */
  lemma SetFieldFields(info: ScriptInfo, tag: string, value: string)
    ensures var r := SetField(info, tag, value);
      && Keeps(info, r)
      && (r.name != info.name ==> tag == "@script")
      && (r.kind != info.kind ==> tag == "@kind" && '.' !in r.kind)
      && (r.author != info.author ==> tag == "@author")
      && (r.description != info.description ==> tag == "@description")
  {
    if tag == "@kind" && info.kind == [] {
      var k := FromLastOccurrenceOf(value, '.');
      assert '.' !in k;
    }
  }

  /** And only when the line holds the tag. */
  lemma ApplyTagFields(info: ScriptInfo, line: string, tag: string)
    ensures var r := ApplyTag(info, line, tag);
      && Keeps(info, r)
      && (r.name != info.name ==> tag == "@script" && Contains(line, tag))
      && (r.kind != info.kind ==> tag == "@kind" && Contains(line, tag) && '.' !in r.kind)
      && (r.author != info.author ==> tag == "@author" && Contains(line, tag))
      && (r.description != info.description ==> tag == "@description" && Contains(line, tag))
  {
    if Contains(line, tag) {
      SetFieldFields(info, tag, TagValue(line, tag));
    }
  }

  /** The same for all the tags tried on one line. */
  lemma {:induction false} ApplyTagsFields(info: ScriptInfo, line: string, k: nat)
    requires k <= |Tags|
    ensures var r := ApplyTags(info, line, k);
      && Keeps(info, r)
      && (r.name != info.name ==> Contains(line, "@script"))
      && (r.kind != info.kind ==> Contains(line, "@kind") && '.' !in r.kind)
      && (r.author != info.author ==> Contains(line, "@author"))
      && (r.description != info.description ==> Contains(line, "@description"))
    ensures (forall t :: t in Tags ==> !Contains(line, t)) ==> ApplyTags(info, line, k) == info
  {
    if k > 0 {
      ApplyTagsFields(info, line, k - 1);
      ApplyTagFields(ApplyTags(info, line, k - 1), line, Tags[k - 1]);
    }
  }

  /** The field a tag names. */
  function Field(info: ScriptInfo, tag: string): string
  {
    if tag == "@script" then info.name
    else if tag == "@kind" then info.kind
    else if tag == "@author" then info.author
    else if tag == "@description" then info.description
    else []
  }

  /** What one line can change: the fields whose tags the trimmed line
      holds, only while they are empty; a kind gets no '.'. */
  lemma StepField(info: ScriptInfo, inBlock: bool, raw: string, tag: string)
    requires tag in Tags
    ensures var r := Step(info, inBlock, raw).info;
      && (Field(info, tag) != [] ==> Field(r, tag) == Field(info, tag))
      && (Field(r, tag) != Field(info, tag) ==> Contains(Trim(raw), tag))
      && (r.kind != info.kind ==> '.' !in r.kind)
      && r.code == info.code
  {
    var line := Trim(raw);
    var r := Step(info, inBlock, raw).info;
    assert r == info || r == ApplyTags(info, line, |Tags|);
    if r != info {
      TagsField(info, line, tag);
    }
  }

  /** What trying every tag on a line does to the field of one tag. */
  lemma TagsField(info: ScriptInfo, line: string, tag: string)
    requires tag in Tags
    ensures var r := ApplyTags(info, line, |Tags|);
      && (Field(info, tag) != [] ==> Field(r, tag) == Field(info, tag))
      && (Field(r, tag) != Field(info, tag) ==> Contains(line, tag))
      && (r.kind != info.kind ==> '.' !in r.kind)
      && r.code == info.code
  {
    ApplyTagsFields(info, line, |Tags|);
    assert tag == "@author" || tag == "@script" || tag == "@description" || tag == "@kind";
  }

  /** Whether some line, trimmed, holds `tag`. */
  predicate SomeLineHolds(lines: seq<string>, tag: string)
  {
    exists i :: 0 <= i < |lines| && Contains(Trim(lines[i]), tag)
  }

  lemma SomeLaterLineHolds(lines: seq<string>, tag: string)
    requires lines != [] && SomeLineHolds(lines[1..], tag)
    ensures SomeLineHolds(lines, tag)
  {
    var i :| 0 <= i < |lines[1..]| && Contains(Trim(lines[1..][i]), tag);
    assert lines[i + 1] == lines[1..][i];
  }

  /** A scan never changes a field already set, changes a field only when
      some line holds that field's tag, and leaves a kind without '.'. */
  lemma {:induction false} ScanField(info: ScriptInfo, inBlock: bool, lines: seq<string>, tag: string)
    requires tag in Tags
    ensures var r := ScanLines(info, inBlock, lines);
      && (Field(info, tag) != [] ==> Field(r, tag) == Field(info, tag))
      && (Field(r, tag) != Field(info, tag) ==> SomeLineHolds(lines, tag))
      && (r.kind != info.kind ==> '.' !in r.kind)
      && r.code == info.code
    decreases |lines|
  {
    if lines != [] {
      var s := Step(info, inBlock, lines[0]);
      StepField(info, inBlock, lines[0], tag);
      if !s.finished {
        ScanField(s.info, s.inBlock, lines[1..], tag);
        var r := ScanLines(s.info, s.inBlock, lines[1..]);
        assert ScanLines(info, inBlock, lines) == r;
        if Field(r, tag) != Field(s.info, tag) {
          SomeLaterLineHolds(lines, tag);
        }
      }
    }
  }

  /** Only tags are extracted, and the first value found for a field wins:
      the scan keeps every field already set, sets a field only from a
      line holding that field's tag, and sets a kind without '.'. */
  lemma ScanFields(info: ScriptInfo, inBlock: bool, lines: seq<string>)
    ensures var r := ScanLines(info, inBlock, lines);
      && Keeps(info, r)
      && (r.name != info.name ==> SomeLineHolds(lines, "@script"))
      && (r.kind != info.kind ==> SomeLineHolds(lines, "@kind") && '.' !in r.kind)
      && (r.author != info.author ==> SomeLineHolds(lines, "@author"))
      && (r.description != info.description ==> SomeLineHolds(lines, "@description"))
  {
    ScanField(info, inBlock, lines, Tags[0]);
    ScanField(info, inBlock, lines, Tags[1]);
    ScanField(info, inBlock, lines, Tags[2]);
    ScanField(info, inBlock, lines, Tags[3]);
  }

  /** A text in which no line holds a tag has an empty header. */
  lemma NoTagsNoHeader(buffer: string)
    requires forall t :: t in Tags ==> !SomeLineHolds(Lines(buffer), t)
    ensures CommentInfo(buffer) == Blank
  {
    ScanFields(Blank, false, Lines(buffer));
    assert !SomeLineHolds(Lines(buffer), Tags[0]) && !SomeLineHolds(Lines(buffer), Tags[1]);
    assert !SomeLineHolds(Lines(buffer), Tags[2]) && !SomeLineHolds(Lines(buffer), Tags[3]);
  }

  /** Whether a line, trimmed, is a comment line that does not open a
      block. */
  predicate PlainComment(line: string)
  {
    StartsWith(Trim(line), "--") && !StartsWith(Trim(line), "--[[")
  }

  /** The scan stops at the first line outside a block that is not a
      comment: nothing after it is read. */
  lemma StopsAtCode(info: ScriptInfo, line: string, rest: seq<string>)
    requires !StartsWith(Trim(line), "--")
    ensures ScanLines(info, false, [line] + rest) == info
  {
    if StartsWith(Trim(line), "--[[") {
      StartsWithTrans(Trim(line), "--[[", "--");
    }
  }

  /** The scan stops right after the line that closes a block; that line
      is still searched for tags. */
  lemma StopsAtBlockEnd(info: ScriptInfo, line: string, rest: seq<string>)
    requires Contains(Trim(line), "--]]")
    ensures ScanLines(info, true, [line] + rest) == ApplyTags(info, Trim(line), |Tags|)
  {
  }

  /** Inside a block every line is searched for tags, whether or not it
      starts with "--". */
  lemma BlockLinesScanned(info: ScriptInfo, line: string, rest: seq<string>)
    requires !Contains(Trim(line), "--]]")
    ensures ScanLines(info, true, [line] + rest) == ScanLines(ApplyTags(info, Trim(line), |Tags|), true, rest)
  {
    assert ([line] + rest)[1..] == rest;
  }

  /** A plain comment line is searched for tags and the scan goes on. */
  lemma CommentLineScanned(info: ScriptInfo, line: string, rest: seq<string>)
    requires PlainComment(line)
    ensures ScanLines(info, false, [line] + rest) == ScanLines(ApplyTags(info, Trim(line), |Tags|), false, rest)
  {
    assert ([line] + rest)[1..] == rest;
  }

  /** A text whose first line is neither a comment nor opens a block has
      an empty header. */
  lemma CodeFirst(info: ScriptInfo, lines: seq<string>)
    requires lines != [] && !StartsWith(Trim(lines[0]), "--")
    ensures ScanLines(info, false, lines) == info
  {
    assert lines == [lines[0]] + lines[1..];
    StopsAtCode(info, lines[0], lines[1..]);
  }

  /** Whatever follows a header of plain comments and the line that ends
      it cannot change what the header says. */
  lemma {:induction false} HeaderThenCode(info: ScriptInfo, header: seq<string>, tail: seq<string>)
    requires forall i :: 0 <= i < |header| ==> PlainComment(header[i])
    requires tail != [] && !StartsWith(Trim(tail[0]), "--")
    ensures ScanLines(info, false, header + tail) == ScanLines(info, false, header)
    decreases |header|
  {
    if header == [] {
      assert header + tail == tail;
      CodeFirst(info, tail);
    } else {
      HeaderThenCode(ApplyTags(info, Trim(header[0]), |Tags|), header[1..], tail);
      PrependHeader(info, header, tail);
    }
  }

  /** A plain comment line in front of a header and its tail keeps them
      scanning alike. */
  lemma PrependHeader(info: ScriptInfo, header: seq<string>, tail: seq<string>)
    requires header != [] && PlainComment(header[0])
    requires var next := ApplyTags(info, Trim(header[0]), |Tags|);
      ScanLines(next, false, header[1..] + tail) == ScanLines(next, false, header[1..])
    ensures ScanLines(info, false, header + tail) == ScanLines(info, false, header)
  {
    calc {
      ScanLines(info, false, header + tail);
      { ConsAppend(header, tail); }
      ScanLines(info, false, [header[0]] + (header[1..] + tail));
      { PrependComment(info, header[0], header[1..], tail); }
      ScanLines(info, false, [header[0]] + header[1..]);
      { ConsAppend(header, tail); }
      ScanLines(info, false, header);
    }
  }

  /** A plain comment line in front of two texts that scan alike keeps
      them scanning alike. */
  lemma PrependComment(info: ScriptInfo, line: string, front: seq<string>, back: seq<string>)
    requires PlainComment(line)
    requires var next := ApplyTags(info, Trim(line), |Tags|);
      ScanLines(next, false, front + back) == ScanLines(next, false, front)
    ensures ScanLines(info, false, [line] + (front + back)) == ScanLines(info, false, [line] + front)
  {
    CommentLineScanned(info, line, front + back);
    CommentLineScanned(info, line, front);
  }

  // ----- reading back the headers the host writes -------------------------

  /** Each tag starts with its only '@'. */
  lemma TagShape(k: nat)
    requires k < |Tags|
    ensures |Tags[k]| >= 2 && Tags[k][0] == '@'
    ensures forall i :: 1 <= i < |Tags[k]| ==> Tags[k][i] != '@'
  {
  }

  /** No two tags share their second character. */
  lemma TagsDiffer(k: nat, m: nat)
    requires k < |Tags| && m < |Tags| && k != m
    ensures Tags[k][1] != Tags[m][1]
  {
  }

  /** Whether, of all the tags, a line holds exactly the one at `j`. */
  predicate HoldsOnly(line: string, j: nat)
  {
    forall k :: 0 <= k < |Tags| ==> (Contains(line, Tags[k]) <==> k == j)
  }

  /** No tag occurs in a line without '@'. */
  lemma NoAtNoTags(line: string)
    requires '@' !in line
    ensures forall k :: 0 <= k < |Tags| ==> !Contains(line, Tags[k])
  {
    forall k | 0 <= k < |Tags|
      ensures !Contains(line, Tags[k])
    {
      TagShape(k);
      AbsentChar(line, Tags[k], 0);
    }
  }

  /** No tag occurs in a line whose only '@' opens some other word. */
  lemma OtherWordNoTags(line: string, p: nat)
    requires p + 1 < |line| && line[p] == '@'
    requires forall i :: 0 <= i < |line| && i != p ==> line[i] != '@'
    requires forall k :: 0 <= k < |Tags| ==> line[p + 1] != Tags[k][1]
    ensures forall k :: 0 <= k < |Tags| ==> !Contains(line, Tags[k])
  {
    forall k | 0 <= k < |Tags|
      ensures !Contains(line, Tags[k])
    {
      var t := Tags[k];
      TagShape(k);
      OnlyAt(line, t, p);
      if p + |t| <= |line| {
        assert line[p..p + |t|][1] == line[p + 1];
      }
    }
  }

  /** A line holding one tag, white space and a value: that tag and no
      other occurs in it, and its value is read back. */
  lemma TaggedLine(prefix: string, j: nat, ws: string, value: string)
    requires j < |Tags|
    requires '@' !in prefix && '@' !in value && ']' !in value
    requires forall i :: 0 <= i < |ws| ==> IsWhitespace(ws[i])
    requires value != [] && !IsWhitespace(value[0]) && !IsWhitespace(value[|value| - 1])
    ensures HoldsOnly(prefix + Tags[j] + ws + value, j)
    ensures TagValue(prefix + Tags[j] + ws + value, Tags[j]) == value
  {
    var tag := Tags[j];
    var line := prefix + tag + ws + value;
    var p := |prefix|;
    TagShape(j);
    forall i | 0 <= i < |line| && i != p
      ensures line[i] != '@'
    {
      if i < p {
        assert line[i] == prefix[i];
      } else if i < p + |tag| {
        assert line[i] == tag[i - p];
      } else if i < p + |tag| + |ws| {
        assert line[i] == ws[i - p - |tag|];
      } else {
        assert line[i] == value[i - p - |tag| - |ws|];
      }
    }
    assert line[p..p + |tag|] == tag;
    forall k | 0 <= k < |Tags|
      ensures Contains(line, Tags[k]) <==> k == j
    {
      TagShape(k);
      OnlyAt(line, Tags[k], p);
      if k != j {
        TagsDiffer(k, j);
        if p + |Tags[k]| <= |line| {
          assert line[p..p + |Tags[k]|][1] == line[p + 1];
        }
      }
    }
    OnlyAt(line, tag, p);
    assert FromFirstOccurrenceOf(line, tag) == ws + value;
    TrimStartAfter(ws, value);
    AbsentChar(value, "--]]", 2);
    TrimEndKeeps(value);
  }

  /** Trying the first `k` tags on a line holding only the tag at `j`
      sets at most that tag's field. */
  lemma {:induction false} OnlyTagApplies(info: ScriptInfo, line: string, j: nat, k: nat)
    requires j < |Tags| && k <= |Tags| && HoldsOnly(line, j)
    ensures ApplyTags(info, line, k) == if j < k then SetField(info, Tags[j], TagValue(line, Tags[j])) else info
  {
    if k > 0 {
      OnlyTagApplies(info, line, j, k - 1);
      var before := ApplyTags(info, line, k - 1);
      assert ApplyTags(info, line, k) == ApplyTag(before, line, Tags[k - 1]);
      if k - 1 == j {
        assert before == info && Contains(line, Tags[j]);
      } else {
        assert !Contains(line, Tags[k - 1]);
      }
    }
  }

  /** Trying every tag on a line that holds none changes nothing. */
  lemma {:induction false} NoTagApplies(info: ScriptInfo, line: string, k: nat)
    requires k <= |Tags|
    requires forall m :: 0 <= m < |Tags| ==> !Contains(line, Tags[m])
    ensures ApplyTags(info, line, k) == info
  {
    if k > 0 {
      NoTagApplies(info, line, k - 1);
    }
  }

  /** The tags of a run of comment lines, applied line after line. */
  function FoldTags(info: ScriptInfo, header: seq<string>): ScriptInfo
    decreases |header|
  {
    if header == [] then info else FoldTags(ApplyTags(info, Trim(header[0]), |Tags|), header[1..])
  }

  /** Plain comment lines are all read. */
  lemma {:induction false} ScanComments(info: ScriptInfo, header: seq<string>)
    requires forall i :: 0 <= i < |header| ==> PlainComment(header[i])
    ensures ScanLines(info, false, header) == FoldTags(info, header)
    decreases |header|
  {
    if header != [] {
      ConsAppend(header, []);
      CommentLineScanned(info, header[0], header[1..]);
      ScanComments(ApplyTags(info, Trim(header[0]), |Tags|), header[1..]);
    }
  }

  /** A line opening with "--" but not "--[[" opens a comment and not a
      block. */
  lemma CommentOpening(line: string)
    requires |line| >= 2 && line[0] == '-' && line[1] == '-'
    requires |line| == 2 || line[2] != '['
    ensures StartsWith(line, "--") && !StartsWith(line, "--[[")
  {
    StartsWithPointwise(line, "--");
    if |line| >= 4 {
      NotStartsWithAt(line, "--[[", 2);
    }
  }

  /** A trimmed line opening with "--" but not "--[[" is a plain comment. */
  lemma PlainCommentOf(line: string)
    requires IsTrimmed(line) && |line| >= 2 && line[0] == '-' && line[1] == '-'
    requires |line| == 2 || line[2] != '['
    ensures PlainComment(line)
  {
    CommentOpening(line);
    assert Trim(line) == line;
  }

  /** A script: its name and its code. */
  datatype Script = Script(name: string, code: string)

  /** The line ending `make` writes. */
  const NewLine := "\r\n"

  /** The pieces of a tagged header line: the comment opener, then the
      tag word. */
  const Opener := "-- "
  const KindTag := "@kind"
  const LicenseTag := "@license"
  const AuthorTag := "@author"
  const ScriptTag := "@script"

  /** The lines of the header `Script::make` writes for a kind. */
  function MakeLines(kind: string): seq<string>
  {
    ["--- A new " + kind + " script.", "-- ", "-- Script description.", "-- ",
     Opener + KindTag + " " + kind, Opener + LicenseTag + " GPL3-or-later", Opener + AuthorTag + " " + "Your Name", "", ""]
  }

  /** Script::make: a new script called `name` whose code is a header
      naming its kind and a placeholder author. */
  function Make(name: string, kind: string): (s: Script)
    ensures s.name == name
  {
    Script(name, JoinLines(MakeLines(kind), NewLine))
  }

  /** A kind the header can carry on one line: one word, without '@' or
      ']'. */
  predicate OneWord(kind: string)
  {
    kind != [] && forall i :: 0 <= i < |kind| ==> !IsWhitespace(kind[i]) && kind[i] != '@' && kind[i] != ']'
  }

  /** A line with only white space ends the header. */
  lemma BlankLineEnds()
    ensures !StartsWith(Trim(""), "--")
  {
  }

  /** Whether a line holds none of the tags. */
  predicate NoTags(line: string)
  {
    forall k :: 0 <= k < |Tags| ==> !Contains(line, Tags[k])
  }

  /** The shape of one header line the host writes. */
  datatype Shape =
    | EmptyComment          // "-- ", which trims to "--"
    | PlainText             // a comment line without '@'
    | OtherWord(word: string, rest: string)  // "-- " + word + rest, word an '@' word that is no tag
    | TagLine(j: nat, ws: string, value: string)  // "-- " + Tags[j] + ws + value

  /** Whether a line is a trimmed comment line that does not open a block. */
  predicate CommentText(line: string)
  {
    IsTrimmed(line) && |line| >= 2 && line[0] == '-' && line[1] == '-' && (|line| == 2 || line[2] != '[')
  }

  /** Whether a line has the shape `shape`. */
  predicate Written(line: string, shape: Shape)
  {
    match shape
    case EmptyComment => line == "-- "
    case PlainText => CommentText(line) && '@' !in line
    case OtherWord(word, rest) =>
      line == "-- " + word + rest &&
      |word| >= 2 && word[0] == '@' && '@' !in word[1..] && (forall k :: 0 <= k < |Tags| ==> word[1] != Tags[k][1]) &&
      rest != [] && '@' !in rest && !IsWhitespace(rest[|rest| - 1])
    case TagLine(j, ws, value) =>
      j < |Tags| && line == "-- " + Tags[j] + ws + value &&
      ws != [] && (forall i :: 0 <= i < |ws| ==> IsWhitespace(ws[i])) &&
      value != [] && '@' !in value && ']' !in value && !IsWhitespace(value[0]) && !IsWhitespace(value[|value| - 1])
  }

  /** Whether each line of `h` has the matching shape of `shapes`. */
  predicate WrittenAll(h: seq<string>, shapes: seq<Shape>)
  {
    |h| == |shapes| && forall i :: 0 <= i < |h| ==> Written(h[i], shapes[i])
  }

  /** The first seven or eight lines of `h`, each of its shape, are all of
      their shapes. */
  lemma WrittenCollected(h: seq<string>, shapes: seq<Shape>)
    requires |h| >= |shapes| && 7 <= |shapes| <= 8
    requires Written(h[0], shapes[0]) && Written(h[1], shapes[1]) && Written(h[2], shapes[2])
    requires Written(h[3], shapes[3]) && Written(h[4], shapes[4]) && Written(h[5], shapes[5])
    requires Written(h[6], shapes[6]) && (|shapes| == 8 ==> Written(h[7], shapes[7]))
    ensures WrittenAll(h[..|shapes|], shapes)
  {
    forall i | 0 <= i < |shapes|
      ensures Written(h[..|shapes|][i], shapes[i])
    {
      if i == 0 { } else if i == 1 { } else if i == 2 { } else if i == 3 { }
      else if i == 4 { } else if i == 5 { } else if i == 6 { } else { }
    }
  }

  /** Whether a text may follow an '@' word on a comment line: not empty,
      without '@', and not ending in white space. */
  predicate QuietRest(rest: string)
  {
    rest != [] && '@' !in rest && !IsWhitespace(rest[|rest| - 1])
  }

  /** "@license" is an '@' word that no tag shares a second letter with. */
  lemma LicenseWord()
    ensures |"@license"| >= 2 && "@license"[0] == '@' && '@' !in "@license"[1..]
    ensures forall k :: 0 <= k < |Tags| ==> "@license"[1] != Tags[k][1]
  {
    var w := "@license";
    assert w[1..] == "license";
    assert Tags[0][1] == 'a' && Tags[1][1] == 's' && Tags[2][1] == 'd' && Tags[3][1] == 'k';
  }

  /** Whether a line, trimmed, holds what its shape promises: no tag, or
      only the tag at `j` with its value. */
  predicate Says(line: string, shape: Shape)
  {
    match shape
    case TagLine(j, _, value) => j < |Tags| && HoldsOnly(Trim(line), j) && TagValue(Trim(line), Tags[j]) == value
    case _ => NoTags(Trim(line))
  }

  /** Whether each line of `h` holds what the matching shape promises. */
  predicate SaysAll(h: seq<string>, shapes: seq<Shape>)
  {
    |h| == |shapes| && forall i :: 0 <= i < |h| ==> Says(h[i], shapes[i])
  }

  /** What a line of shape `shape` does to `info`. */
  function Offer(info: ScriptInfo, shape: Shape): ScriptInfo
  {
    match shape
    case TagLine(j, _, value) => if j < |Tags| then SetField(info, Tags[j], value) else info
    case _ => info
  }

  /** What lines of shapes `shapes`, in order, do to `info`. */
  function OfferAll(info: ScriptInfo, shapes: seq<Shape>): ScriptInfo
    decreases |shapes|
  {
    if shapes == [] then info else OfferAll(Offer(info, shapes[0]), shapes[1..])
  }

  /** One line of an offer. */
  lemma OfferStep(info: ScriptInfo, shapes: seq<Shape>, i: nat)
    requires i < |shapes|
    ensures OfferAll(info, shapes[i..]) == OfferAll(Offer(info, shapes[i]), shapes[i + 1..])
  {
    assert shapes[i..][1..] == shapes[i + 1..];
  }

  /** The tags on one line do what its shape promises. */
  lemma LineOffers(info: ScriptInfo, line: string, shape: Shape)
    requires Says(line, shape)
    ensures ApplyTags(info, Trim(line), |Tags|) == Offer(info, shape)
  {
    match shape
    case TagLine(j, _, _) => OnlyTagApplies(info, Trim(line), j, |Tags|);
    case _ => NoTagApplies(info, Trim(line), |Tags|);
  }

  /** The tags of a run of lines do what their shapes promise, in order. */
  lemma {:induction false} FoldOffers(info: ScriptInfo, h: seq<string>, shapes: seq<Shape>)
    requires SaysAll(h, shapes)
    ensures FoldTags(info, h) == OfferAll(info, shapes)
    decreases |h|
  {
    if h != [] {
      LineOffers(info, h[0], shapes[0]);
      assert SaysAll(h[1..], shapes[1..]) by {
        forall i | 0 <= i < |h| - 1
          ensures Says(h[1..][i], shapes[1..][i])
        {
          assert Says(h[i + 1], shapes[i + 1]);
        }
      }
      FoldOffers(Offer(info, shapes[0]), h[1..], shapes[1..]);
    }
  }

  /** "-- " trims to "--", a plain comment without tags. */
  lemma EmptyCommentReads()
    ensures PlainComment("-- ") && NoTags(Trim("-- "))
  {
    EmptyCommentTrims();
    PlainCommentOf("--");
    NoAtNoTags("--");
  }

  /** "-- " trims to "--". */
  lemma EmptyCommentTrims()
    ensures Trim("-- ") == "--"
  {
    var t := TrimStart("-- ");
    assert t == "-- ";
    assert TrimEnd(t) == "--";
  }

  /** A tagged line is a trimmed comment line. */
  lemma TagLineText(line: string, j: nat, ws: string, value: string)
    requires Written(line, TagLine(j, ws, value))
    ensures CommentText(line)
  {
    assert line[|line| - 1] == value[|value| - 1];
    assert line[..3] == "-- ";
  }

  /** A line with some other '@' word is a trimmed comment line. */
  lemma OtherWordText(line: string, word: string, rest: string)
    requires Written(line, OtherWord(word, rest))
    ensures CommentText(line)
  {
    assert line[|line| - 1] == rest[|rest| - 1];
    assert line[..3] == "-- ";
  }

  /** A line of any shape is a plain comment. */
  lemma WrittenPlain(line: string, shape: Shape)
    requires Written(line, shape)
    ensures PlainComment(line)
  {
    match shape
    case EmptyComment => EmptyCommentReads();
    case PlainText => PlainCommentOf(line);
    case OtherWord(word, rest) => OtherWordText(line, word, rest); PlainCommentOf(line);
    case TagLine(j, ws, value) => TagLineText(line, j, ws, value); PlainCommentOf(line);
  }

  /** A tagged line holds only its tag and reads back its value. */
  lemma TagLineSays(line: string, j: nat, ws: string, value: string)
    requires Written(line, TagLine(j, ws, value))
    ensures Says(line, TagLine(j, ws, value))
  {
    TagLineText(line, j, ws, value);
    TaggedLine("-- ", j, ws, value);
  }

  /** A line whose only '@' opens some other word holds no tag. */
  lemma OtherWordSays(line: string, word: string, rest: string)
    requires Written(line, OtherWord(word, rest))
    ensures Says(line, OtherWord(word, rest))
  {
    OtherWordText(line, word, rest);
    forall i | 0 <= i < |line| && i != 3
      ensures line[i] != '@'
    {
      if i < 3 {
        assert line[i] == "-- "[i];
      } else if i < 3 + |word| {
        assert line[i] == word[i - 3] == word[1..][i - 4];
      } else {
        assert line[i] == rest[i - 3 - |word|];
      }
    }
    assert line[4] == word[1];
    OtherWordNoTags(line, 3);
  }

  /** A line of any shape holds what its shape promises. */
  lemma WrittenSays(line: string, shape: Shape)
    requires Written(line, shape)
    ensures Says(line, shape)
  {
    match shape
    case EmptyComment => EmptyCommentReads();
    case PlainText => NoAtNoTags(line);
    case OtherWord(word, rest) => OtherWordSays(line, word, rest);
    case TagLine(j, ws, value) => TagLineSays(line, j, ws, value);
  }

  /** Lines of known shapes are plain comments and hold what their shapes
      promise. */
  lemma WrittenHeader(h: seq<string>, shapes: seq<Shape>)
    requires WrittenAll(h, shapes)
    ensures forall i :: 0 <= i < |h| ==> PlainComment(h[i])
    ensures SaysAll(h, shapes)
  {
    forall i | 0 <= i < |h|
      ensures PlainComment(h[i]) && Says(h[i], shapes[i])
    {
      WrittenPlain(h[i], shapes[i]);
      WrittenSays(h[i], shapes[i]);
    }
  }

  /** A header of lines of known shapes, followed by a line that is not a
      comment, reads back what the shapes offer. */
  lemma ShapedHeaderReads(info: ScriptInfo, h: seq<string>, shapes: seq<Shape>, tail: seq<string>)
    requires WrittenAll(h, shapes)
    requires tail != [] && tail[0] == ""
    ensures ScanLines(info, false, h + tail) == OfferAll(info, shapes)
  {
    assert ScanLines(info, false, h + tail) == ScanLines(info, false, h) by {
      WrittenHeader(h, shapes);
      BlankLineEnds();
      HeaderThenCode(info, h, tail);
    }
    assert ScanLines(info, false, h) == FoldTags(info, h) by {
      WrittenHeader(h, shapes);
      ScanComments(info, h);
    }
    assert FoldTags(info, h) == OfferAll(info, shapes) by {
      WrittenHeader(h, shapes);
      FoldOffers(info, h, shapes);
    }
  }

  // ----- Script::make ------------------------------------------------------

  /** The shapes of the header lines `make` writes. */
  function MakeShapes(kind: string): seq<Shape>
  {
    [PlainText, EmptyComment, PlainText, EmptyComment, TagLine(3, " ", kind),
     OtherWord("@license", " GPL3-or-later"), TagLine(0, " ", "Your Name")]
  }

  /** The first line `make` writes. */
  lemma MakeTitleWritten(kind: string)
    requires OneWord(kind)
    ensures Written(MakeLines(kind)[0], MakeShapes(kind)[0])
  {
    var line := "--- A new " + kind + " script.";
    assert MakeLines(kind)[0] == line;
    assert line[|line| - 1] == '.' && line[..3] == "---";
  }

  /** The description line `make` writes. */
  lemma MakeDescriptionWritten(kind: string)
    ensures Written(MakeLines(kind)[1], MakeShapes(kind)[1])
    ensures Written(MakeLines(kind)[2], MakeShapes(kind)[2])
    ensures Written(MakeLines(kind)[3], MakeShapes(kind)[3])
  {
    assert MakeLines(kind)[2] == "-- Script description.";
    assert Written("-- Script description.", PlainText);
  }

  /** The kind line `make` writes. */
  lemma MakeKindWritten(kind: string)
    requires OneWord(kind)
    ensures Written(MakeLines(kind)[4], MakeShapes(kind)[4])
  {
    assert MakeLines(kind)[4] == Opener + KindTag + " " + kind;
    assert Tags[3] == "@kind";
  }

  /** The licence line `make` writes. */
  lemma MakeLicenseWritten(kind: string)
    ensures Written(MakeLines(kind)[5], MakeShapes(kind)[5])
  {
    assert MakeLines(kind)[5] == Opener + LicenseTag + " GPL3-or-later";
    LicenseWord();
    assert QuietRest(" GPL3-or-later");
  }

  /** The author line `make` writes. */
  lemma MakeAuthorWritten(kind: string)
    ensures Written(MakeLines(kind)[6], MakeShapes(kind)[6])
  {
    assert MakeLines(kind)[6] == Opener + AuthorTag + " " + "Your Name";
    assert Tags[0] == "@author";
  }

  /** The header lines `make` writes have the shapes MakeShapes lists. */
  lemma MakeWritten(kind: string)
    requires OneWord(kind)
    ensures WrittenAll(MakeLines(kind)[..7], MakeShapes(kind))
  {
    MakeTitleWritten(kind);
    MakeDescriptionWritten(kind);
    MakeKindWritten(kind);
    MakeLicenseWritten(kind);
    MakeAuthorWritten(kind);
    WrittenCollected(MakeLines(kind), MakeShapes(kind));
  }

  /** The untagged opening lines `make` writes offer nothing. */
  lemma MakeOpeningOffers(info: ScriptInfo, kind: string)
    ensures OfferAll(info, MakeShapes(kind)) == OfferAll(info, MakeShapes(kind)[4..])
  {
    var shapes := MakeShapes(kind);
    calc {
      OfferAll(info, shapes);
      { assert shapes[0..] == shapes; OfferStep(info, shapes, 0); }
      OfferAll(info, shapes[1..]);
      { OfferStep(info, shapes, 1); }
      OfferAll(info, shapes[2..]);
      { OfferStep(info, shapes, 2); }
      OfferAll(info, shapes[3..]);
      { OfferStep(info, shapes, 3); }
      OfferAll(info, shapes[4..]);
    }
  }

  /** The kind line `make` writes offers the kind to an empty field. */
  lemma MakeKindOffer(info: ScriptInfo, kind: string)
    requires info.kind == []
    ensures OfferAll(info, MakeShapes(kind)[4..]) == OfferAll(info.(kind := FromLastOccurrenceOf(kind, '.')), MakeShapes(kind)[5..])
  {
    var shapes := MakeShapes(kind);
    assert shapes[4] == TagLine(3, " ", kind);
    calc {
      OfferAll(info, shapes[4..]);
      { OfferStep(info, shapes, 4); }
      OfferAll(Offer(info, TagLine(3, " ", kind)), shapes[5..]);
      OfferAll(SetField(info, Tags[3], kind), shapes[5..]);
      { SetKind(info, kind); }
      OfferAll(info.(kind := FromLastOccurrenceOf(kind, '.')), shapes[5..]);
    }
  }

  /** The licence line `make` writes offers nothing. */
  lemma MakeLicenseOffer(info: ScriptInfo, kind: string)
    ensures OfferAll(info, MakeShapes(kind)[5..]) == OfferAll(info, MakeShapes(kind)[6..])
  {
    OfferStep(info, MakeShapes(kind), 5);
  }

  /** The author line `make` writes offers the placeholder author to an
      empty field, and ends the header. */
  lemma MakeAuthorOffer(info: ScriptInfo, kind: string)
    requires info.author == []
    ensures OfferAll(info, MakeShapes(kind)[6..]) == info.(author := "Your Name")
  {
    OfferStep(info, MakeShapes(kind), 6);
    SetAuthor(info, "Your Name");
    assert MakeShapes(kind)[7..] == [];
  }

  /** What the header `make` writes offers: the kind (after its last '.')
      and the placeholder author. */
  lemma MakeOffers(kind: string)
    ensures OfferAll(Blank, MakeShapes(kind)) == ScriptInfo("", FromLastOccurrenceOf(kind, '.'), "Your Name", "", "")
  {
    var withKind := Blank.(kind := FromLastOccurrenceOf(kind, '.'));
    MakeOpeningOffers(Blank, kind);
    MakeKindOffer(Blank, kind);
    MakeLicenseOffer(withKind, kind);
    MakeAuthorOffer(withKind, kind);
  }

  /** A kind without white space has no line-break characters. */
  lemma OneWordUnbroken(kind: string)
    requires OneWord(kind)
    ensures '\n' !in kind && '\r' !in kind
  {
    forall i | 0 <= i < |kind|
      ensures kind[i] != '\n' && kind[i] != '\r'
    {
      assert !IsWhitespace(kind[i]);
    }
  }

  /** No line `make` writes holds a line break. */
  lemma MakeLinesUnbroken(kind: string)
    requires OneWord(kind)
    ensures forall i :: 0 <= i < |MakeLines(kind)| ==> NoLineBreaks(MakeLines(kind)[i])
  {
    var lines := MakeLines(kind);
    OneWordUnbroken(kind);
    forall i | 0 <= i < |lines|
      ensures NoLineBreaks(lines[i])
    {
      NoBreakChars(lines[i]);
    }
  }

  /** The text `make` writes splits back into the lines it joined. */
  lemma MakeCodeLines(name: string, kind: string)
    requires OneWord(kind)
    ensures Lines(Make(name, kind).code) == MakeLines(kind)
  {
    MakeLinesUnbroken(kind);
    LinesOfJoin(MakeLines(kind), NewLine);
  }

  /** Script::make round trip: the header of a new script reads back the
      kind it was made for (after its last '.') and the placeholder author,
      and no name or description. */
  lemma MakeParsesBack(name: string, kind: string)
    requires OneWord(kind)
    ensures CommentInfo(Make(name, kind).code) == ScriptInfo("", FromLastOccurrenceOf(kind, '.'), "Your Name", "", "")
  {
    var lines := MakeLines(kind);
    MakeCodeLines(name, kind);
    assert lines == lines[..7] + lines[7..];
    MakeWritten(kind);
    ShapedHeaderReads(Blank, lines[..7], MakeShapes(kind), lines[7..]);
    MakeOffers(kind);
  }

  // ----- the built-in scripts ---------------------------------------------

  /** Whether a line can head or describe a built-in script: a trimmed
      comment line, not opening a block, without tags or line breaks. */
  predicate BlurbLine(line: string)
  {
    Written(line, PlainText) && '\n' !in line && '\r' !in line
  }

  /** The lines of the body of a built-in script (`Script::anonymous`,
      `Script::view`): a title, a description, the script name "amp", the
      kind, a licence and an author, ending with a line break. */
  function BuiltinLines(title: string, description: string, kind: string): seq<string>
  {
    [title, "--", description, "--", Opener + ScriptTag + "      " + "amp", Opener + KindTag + "        " + kind,
     Opener + LicenseTag + "     GPL v3", Opener + AuthorTag + "      " + "Michael Fisher", ""]
  }

  /** The kind of the anonymous script is one word without a '.'. */
  lemma AnonymousKind()
    ensures OneWord("Anonymous") && FromLastOccurrenceOf("Anonymous", '.') == "Anonymous"
  {
    assert '.' !in "Anonymous";
  }

  /** Script::anonymous. The title and description literals are written in
      pieces only so that BlurbAppend can read their lines off the pieces;
      each joins to the source's one literal. */
  function Anonymous(): (s: Script)
    ensures s.name == "Anonymous Script"
  {
    Script("Anonymous Script", JoinLines(BuiltinLines("--- New" + " Anonymous Script.",
      "-- This is an" + " anonymous script." + " Do as you please.", "Anonymous"), "\n"))
  }

  /** The kind of the view script is one word without a '.'. */
  lemma ViewKind()
    ensures OneWord("View") && FromLastOccurrenceOf("View", '.') == "View"
  {
    assert '.' !in "View";
  }

  /** Script::view. Its literals are split for BlurbAppend, as in Anonymous. */
  function View(): (s: Script)
    ensures s.name == "View Script"
  {
    Script("View Script", JoinLines(BuiltinLines("--- New" + " View Script.",
      "-- This is a" + " content View script.", "View"), "\n"))
  }

  /** The shapes of the header lines of a built-in script. */
  function BuiltinShapes(kind: string): seq<Shape>
  {
    [PlainText, PlainText, PlainText, PlainText, TagLine(1, "      ", "amp"), TagLine(3, "        ", kind),
     OtherWord("@license", "     GPL v3"), TagLine(0, "      ", "Michael Fisher")]
  }

  /** The name line of a built-in script. */
  lemma BuiltinNameWritten(title: string, description: string, kind: string)
    ensures Written(BuiltinLines(title, description, kind)[4], BuiltinShapes(kind)[4])
  {
    assert BuiltinLines(title, description, kind)[4] == Opener + ScriptTag + "      " + "amp";
    assert Tags[1] == "@script";
  }

  /** The kind line of a built-in script. */
  lemma BuiltinKindWritten(title: string, description: string, kind: string)
    requires OneWord(kind)
    ensures Written(BuiltinLines(title, description, kind)[5], BuiltinShapes(kind)[5])
  {
    assert BuiltinLines(title, description, kind)[5] == Opener + KindTag + "        " + kind;
    assert Tags[3] == "@kind";
  }

  /** The licence line of a built-in script. */
  lemma BuiltinLicenseWritten(title: string, description: string, kind: string)
    ensures Written(BuiltinLines(title, description, kind)[6], BuiltinShapes(kind)[6])
  {
    assert BuiltinLines(title, description, kind)[6] == Opener + LicenseTag + "     GPL v3";
    LicenseWord();
    assert QuietRest("     GPL v3");
  }

  /** The author line of a built-in script. */
  lemma BuiltinAuthorWritten(title: string, description: string, kind: string)
    ensures Written(BuiltinLines(title, description, kind)[7], BuiltinShapes(kind)[7])
  {
    assert BuiltinLines(title, description, kind)[7] == Opener + AuthorTag + "      " + "Michael Fisher";
    assert Tags[0] == "@author";
  }

  /** The header lines of a built-in script have the shapes BuiltinShapes
      lists. */
  lemma BuiltinWritten(title: string, description: string, kind: string)
    requires BlurbLine(title) && BlurbLine(description) && OneWord(kind)
    ensures WrittenAll(BuiltinLines(title, description, kind)[..8], BuiltinShapes(kind))
  {
    var h, shapes := BuiltinLines(title, description, kind), BuiltinShapes(kind);
    assert Written("--", PlainText);
    assert Written(h[0], shapes[0]) && Written(h[1], shapes[1]) && Written(h[2], shapes[2]) && Written(h[3], shapes[3]);
    BuiltinNameWritten(title, description, kind);
    BuiltinKindWritten(title, description, kind);
    BuiltinLicenseWritten(title, description, kind);
    BuiltinAuthorWritten(title, description, kind);
    WrittenCollected(h, shapes);
  }

  /** The untagged opening lines of a built-in script offer nothing. */
  lemma BuiltinOpeningOffers(kind: string)
    ensures OfferAll(Blank, BuiltinShapes(kind)) == OfferAll(Blank, BuiltinShapes(kind)[4..])
  {
    var shapes := BuiltinShapes(kind);
    calc {
      OfferAll(Blank, shapes);
      { assert shapes[0..] == shapes; OfferStep(Blank, shapes, 0); }
      OfferAll(Blank, shapes[1..]);
      { OfferStep(Blank, shapes, 1); }
      OfferAll(Blank, shapes[2..]);
      { OfferStep(Blank, shapes, 2); }
      OfferAll(Blank, shapes[3..]);
      { OfferStep(Blank, shapes, 3); }
      OfferAll(Blank, shapes[4..]);
    }
  }

  /** The tagged lines of a built-in script offer the name, the kind and
      the author, in that order, each to a still empty field. */
  lemma BuiltinTaggedOffers(info: ScriptInfo, kind: string)
    requires info.name == [] && info.kind == [] && info.author == []
    ensures OfferAll(info, BuiltinShapes(kind)[4..]) ==
      info.(name := "amp", kind := FromLastOccurrenceOf(kind, '.'), author := "Michael Fisher")
  {
    var shapes := BuiltinShapes(kind);
    var withName := info.(name := "amp");
    var withKind := withName.(kind := FromLastOccurrenceOf(kind, '.'));
    calc {
      OfferAll(info, shapes[4..]);
      { OfferStep(info, shapes, 4); SetName(info, "amp"); }
      OfferAll(withName, shapes[5..]);
      { OfferStep(withName, shapes, 5); SetKind(withName, kind); }
      OfferAll(withKind, shapes[6..]);
      { OfferStep(withKind, shapes, 6); }
      OfferAll(withKind, shapes[7..]);
      { OfferStep(withKind, shapes, 7); SetAuthor(withKind, "Michael Fisher"); }
      OfferAll(withKind.(author := "Michael Fisher"), shapes[8..]);
    }
  }

  /** What the header of a built-in script offers: the name "amp", the
      kind (after its last '.') and the author. */
  lemma BuiltinOffers(kind: string)
    ensures OfferAll(Blank, BuiltinShapes(kind)) == ScriptInfo("amp", FromLastOccurrenceOf(kind, '.'), "Michael Fisher", "", "")
  {
    BuiltinOpeningOffers(kind);
    BuiltinTaggedOffers(Blank, kind);
  }

  /** No line of a built-in script holds a line break. */
  lemma BuiltinLinesUnbroken(title: string, description: string, kind: string)
    requires BlurbLine(title) && BlurbLine(description) && OneWord(kind)
    ensures forall i :: 0 <= i < |BuiltinLines(title, description, kind)| ==> NoLineBreaks(BuiltinLines(title, description, kind)[i])
  {
    var lines := BuiltinLines(title, description, kind);
    forall i | 0 <= i < |lines|
      ensures NoLineBreaks(lines[i])
    {
      if i == 5 {
        OneWordUnbroken(kind);
        NoBreakChars(Opener + KindTag + "        ");
        NoBreakChars(kind);
        NoLineBreaksAppend(Opener + KindTag + "        ", kind);
      } else {
        NoBreakChars(lines[i]);
      }
    }
  }

  /** The body of a built-in script reads back the name "amp", its kind
      (after its last '.') and the author, and no description. */
  lemma BuiltinParsesBack(title: string, description: string, kind: string)
    requires BlurbLine(title) && BlurbLine(description) && OneWord(kind)
    ensures CommentInfo(JoinLines(BuiltinLines(title, description, kind), "\n")) ==
      ScriptInfo("amp", FromLastOccurrenceOf(kind, '.'), "Michael Fisher", "", "")
  {
    var lines := BuiltinLines(title, description, kind);
    BuiltinLinesUnbroken(title, description, kind);
    LinesOfJoin(lines, "\n");
    assert lines == lines[..8] + lines[8..];
    BuiltinWritten(title, description, kind);
    ShapedHeaderReads(Blank, lines[..8], BuiltinShapes(kind), lines[8..]);
    BuiltinOffers(kind);
  }

  /** Whether a piece may end a blurb line: not empty, without tags or
      line breaks, and not ending in white space. */
  predicate BlurbTail(piece: string)
  {
    piece != [] && '@' !in piece && '\n' !in piece && '\r' !in piece && !IsWhitespace(piece[|piece| - 1])
  }

  /** A blurb line continued by a blurb tail is still a blurb line. */
  lemma BlurbAppend(line: string, piece: string)
    requires BlurbLine(line) && |line| > 2 && BlurbTail(piece)
    ensures BlurbLine(line + piece)
  {
    var r := line + piece;
    assert r[|r| - 1] == piece[|piece| - 1];
    assert r[0] == line[0] && r[1] == line[1] && r[2] == line[2];
    forall c | c in r
      ensures c in line || c in piece
    {
    }
  }

  /** The opening of the title of a built-in script. */
  lemma TitleOpening()
    ensures BlurbLine("--- New") && |"--- New"| > 2
  {
  }

  lemma AnonymousTitleTail()
    ensures BlurbTail(" Anonymous Script.")
  {
  }

  lemma AnonymousDescriptionOpening()
    ensures BlurbLine("-- This is an") && |"-- This is an"| > 2
  {
  }

  lemma AnonymousDescriptionMiddle()
    ensures BlurbTail(" anonymous script.")
  {
  }

  lemma AnonymousDescriptionTail()
    ensures BlurbTail(" Do as you please.")
  {
  }

  /** The title and description of the anonymous script are blurb lines. */
  lemma AnonymousBlurbs()
    ensures BlurbLine("--- New" + " Anonymous Script.")
    ensures BlurbLine("-- This is an" + " anonymous script." + " Do as you please.")
  {
    TitleOpening();
    AnonymousTitleTail();
    BlurbAppend("--- New", " Anonymous Script.");
    AnonymousDescriptionOpening();
    AnonymousDescriptionMiddle();
    BlurbAppend("-- This is an", " anonymous script.");
    AnonymousDescriptionTail();
    BlurbAppend("-- This is an" + " anonymous script.", " Do as you please.");
  }

  /** Script::anonymous: its body parses to the name "amp", the kind
      "Anonymous" and the author "Michael Fisher". */
  lemma AnonymousParsesBack()
    ensures CommentInfo(Anonymous().code) == ScriptInfo("amp", "Anonymous", "Michael Fisher", "", "")
  {
    var title, description := "--- New" + " Anonymous Script.", "-- This is an" + " anonymous script." + " Do as you please.";
    AnonymousBlurbs();
    AnonymousKind();
    calc {
      CommentInfo(Anonymous().code);
      CommentInfo(JoinLines(BuiltinLines(title, description, "Anonymous"), "\n"));
      { BuiltinParsesBack(title, description, "Anonymous"); }
      ScriptInfo("amp", FromLastOccurrenceOf("Anonymous", '.'), "Michael Fisher", "", "");
      ScriptInfo("amp", "Anonymous", "Michael Fisher", "", "");
    }
  }

  lemma ViewTitleTail()
    ensures BlurbTail(" View Script.")
  {
  }

  lemma ViewDescriptionOpening()
    ensures BlurbLine("-- This is a") && |"-- This is a"| > 2
  {
  }

  lemma ViewDescriptionTail()
    ensures BlurbTail(" content View script.")
  {
  }

  /** The title and description of the view script are blurb lines. */
  lemma ViewBlurbs()
    ensures BlurbLine("--- New" + " View Script.")
    ensures BlurbLine("-- This is a" + " content View script.")
  {
    TitleOpening();
    ViewTitleTail();
    BlurbAppend("--- New", " View Script.");
    ViewDescriptionOpening();
    ViewDescriptionTail();
    BlurbAppend("-- This is a", " content View script.");
  }

  /** Script::view: its body parses to the name "amp", the kind "View" and
      the author "Michael Fisher". */
  lemma ViewParsesBack()
    ensures CommentInfo(View().code) == ScriptInfo("amp", "View", "Michael Fisher", "", "")
  {
    var title, description := "--- New" + " View Script.", "-- This is a" + " content View script.";
    ViewBlurbs();
    ViewKind();
    calc {
      CommentInfo(View().code);
      CommentInfo(JoinLines(BuiltinLines(title, description, "View"), "\n"));
      { BuiltinParsesBack(title, description, "View"); }
      ScriptInfo("amp", FromLastOccurrenceOf("View", '.'), "Michael Fisher", "", "");
      ScriptInfo("amp", "View", "Michael Fisher", "", "");
    }
  }
}
