/**
 * Version strings (src/Version.cpp): splitting a version string into its
 * segments and packing the first three or four segments into one integer,
 * which is how a downloaded version is compared with the running one.
 *
 * The JUCE string helpers the source leans on (StringArray::addTokens,
 * removeEmptyStrings, String::getIntValue) are written out here as the
 * library defines them; trimming comes from `JuceString`.
 */
module Version {
  import opened JuceString

  // ---------------------------------------------------------------------------
  // Tokens

  /** A version string breaks at either of these two characters. */
  predicate IsBreak(c: char) {
    c == ',' || c == '.'
  }

  predicate IsDigit(c: char) {
    '0' <= c <= '9'
  }

  predicate NoBreaks(s: string) {
    forall i :: 0 <= i < |s| ==> !IsBreak(s[i])
  }

  /** Index of the first break character, or |s| when there is none. */
  function FindBreak(s: string): (k: nat)
    ensures k <= |s|
    ensures k < |s| ==> IsBreak(s[k])
    ensures NoBreaks(s[..k])
  {
    if s == [] then 0
    else if IsBreak(s[0]) then 0
    else
      var k := 1 + FindBreak(s[1..]);
      assert s[..k] == [s[0]] + s[1..][..k - 1];
      k
  }

  /**
   * The tokens between break characters, empty ones included; a non-empty
   * string with n break characters gives n + 1 tokens.
   */
  function Split(s: string): (r: seq<string>)
    ensures |r| >= 1
    ensures forall i :: 0 <= i < |r| ==> NoBreaks(r[i])
    decreases |s|
  {
    var k := FindBreak(s);
    if k == |s| then [s] else [s[..k]] + Split(s[k + 1..])
  }

  /** StringArray::addTokens with break characters ",." and no quotes. */
  function Tokens(s: string): seq<string> {
    if s == [] then [] else Split(s)
  }

  /** True of a list every entry of which could be a version segment. */
  predicate AreSegments(ss: seq<string>) {
    forall i :: 0 <= i < |ss| ==> ss[i] != [] && IsTrimmed(ss[i]) && NoBreaks(ss[i])
  }

  lemma TrimKeepsNoBreaks(s: string)
    requires NoBreaks(s)
    ensures NoBreaks(Trim(s))
  {
    var r := Trim(s);
    forall n | 0 <= n < |r| ensures !IsBreak(r[n]) {
      assert r[n] in s;
    }
  }

  function TrimAll(ss: seq<string>): (r: seq<string>)
    ensures |r| == |ss|
    ensures forall i :: 0 <= i < |r| ==> r[i] == Trim(ss[i])
  {
    if ss == [] then [] else [Trim(ss[0])] + TrimAll(ss[1..])
  }

  function RemoveEmpty(ss: seq<string>): (r: seq<string>)
    ensures |r| <= |ss|
    ensures forall i :: 0 <= i < |r| ==> r[i] != []
    ensures (forall i :: 0 <= i < |ss| ==> ss[i] != []) ==> r == ss
  {
    if ss == [] then []
    else if ss[0] == [] then RemoveEmpty(ss[1..])
    else [ss[0]] + RemoveEmpty(ss[1..])
  }

  lemma {:induction false} RemoveEmptyKeeps(ss: seq<string>)
    requires forall i :: 0 <= i < |ss| ==> IsTrimmed(ss[i]) && NoBreaks(ss[i])
    ensures AreSegments(RemoveEmpty(ss))
  {
    if ss != [] {
      RemoveEmptyKeeps(ss[1..]);
    }
  }

  // ---------------------------------------------------------------------------
  // Version::segments

  /**
   * Version::segments: split on ',' and '.', trim every token, drop the
   * empty ones. Every segment is non-empty, trimmed and free of breaks.
   */
  function Segments(versionString: string): (segs: seq<string>)
    ensures AreSegments(segs)
  {
    CleanTokensAreSegments(Tokens(versionString));
    RemoveEmpty(TrimAll(Tokens(versionString)))
  }

  lemma CleanTokensAreSegments(tokens: seq<string>)
    requires forall i :: 0 <= i < |tokens| ==> NoBreaks(tokens[i])
    ensures AreSegments(RemoveEmpty(TrimAll(tokens)))
  {
    var trimmed := TrimAll(tokens);
    forall i | 0 <= i < |trimmed| ensures IsTrimmed(trimmed[i]) && NoBreaks(trimmed[i]) {
      TrimKeepsNoBreaks(tokens[i]);
    }
    RemoveEmptyKeeps(trimmed);
  }

  /** The inverse of Split: parts joined with one separator between them. */
  function Join(parts: seq<string>, sep: char): string {
    if parts == [] then []
    else if |parts| == 1 then parts[0]
    else parts[0] + [sep] + Join(parts[1..], sep)
  }

  lemma {:induction false} SplitJoin(parts: seq<string>, sep: char)
    requires IsBreak(sep) && |parts| >= 1
    requires forall i :: 0 <= i < |parts| ==> NoBreaks(parts[i])
    ensures Split(Join(parts, sep)) == parts
    decreases |parts|
  {
    var s := Join(parts, sep);
    if |parts| == 1 {
      FindBreakNone(parts[0]);
    } else {
      var p := parts[0];
      var rest := Join(parts[1..], sep);
      assert s == p + [sep] + rest;
      SplitCons(p, sep, rest);
      SplitJoin(parts[1..], sep);
      assert parts == [p] + parts[1..];
    }
  }

  /** A break-free token followed by a break splits off as the first token. */
  lemma SplitCons(p: string, sep: char, rest: string)
    requires NoBreaks(p) && IsBreak(sep)
    ensures Split(p + [sep] + rest) == [p] + Split(rest)
  {
    var s := p + [sep] + rest;
    FindBreakAt(p, sep, rest);
    assert s[..|p|] == p;
    assert s[|p| + 1..] == rest;
  }

  lemma {:induction false} FindBreakNone(s: string)
    requires NoBreaks(s)
    ensures FindBreak(s) == |s|
    decreases |s|
  {
    if s != [] {
      FindBreakNone(s[1..]);
    }
  }

  lemma {:induction false} FindBreakAt(p: string, sep: char, rest: string)
    requires NoBreaks(p) && IsBreak(sep)
    ensures FindBreak(p + [sep] + rest) == |p|
    decreases |p|
  {
    if p != [] {
      assert (p + [sep] + rest)[1..] == p[1..] + [sep] + rest;
      FindBreakAt(p[1..], sep, rest);
    }
  }

  /**
   * Round trip: segments that are already non-empty, trimmed and free of
   * breaks come back unchanged from a string that joins them with either
   * separator.
   */
  lemma {:induction false} SegmentsOfJoin(parts: seq<string>, sep: char)
    requires IsBreak(sep)
    requires AreSegments(parts)
    ensures Segments(Join(parts, sep)) == parts
  {
    if parts != [] {
      SplitJoin(parts, sep);
      assert Join(parts, sep) != [] by {
        JoinNonEmpty(parts, sep);
      }
      var trimmed := TrimAll(parts);
      assert trimmed == parts;
    }
  }

  lemma JoinNonEmpty(parts: seq<string>, sep: char)
    requires parts != [] && parts[0] != []
    ensures Join(parts, sep) != []
  {
  }

  /** ',' and '.' are interchangeable anywhere in a version string. */
  function CommasToDots(s: string): (r: string)
    ensures |r| == |s|
    ensures forall i :: 0 <= i < |s| ==> r[i] == if s[i] == ',' then '.' else s[i]
  {
    if s == [] then [] else [if s[0] == ',' then '.' else s[0]] + CommasToDots(s[1..])
  }

  lemma {:induction false} SplitCommasToDots(s: string)
    ensures Split(CommasToDots(s)) == Split(s)
    decreases |s|
  {
    var t := CommasToDots(s);
    var k := FindBreak(s);
    FindBreakCommasToDots(s);
    assert FindBreak(t) == k;
    assert t[..k] == s[..k];
    if k < |s| {
      var u := CommasToDots(s[k + 1..]);
      assert |u| == |t[k + 1..]|;
      forall i | 0 <= i < |u| ensures t[k + 1..][i] == u[i] {
        assert t[k + 1..][i] == t[k + 1 + i];
      }
      assert t[k + 1..] == u;
      SplitCommasToDots(s[k + 1..]);
      assert Split(t) == [t[..k]] + Split(t[k + 1..]);
      assert Split(s) == [s[..k]] + Split(s[k + 1..]);
    } else {
      assert t == t[..k] && s == s[..k];
    }
  }

  lemma {:induction false} FindBreakCommasToDots(s: string)
    ensures FindBreak(CommasToDots(s)) == FindBreak(s)
    ensures CommasToDots(s)[..FindBreak(s)] == s[..FindBreak(s)]
    decreases |s|
  {
    if s != [] && !IsBreak(s[0]) {
      assert CommasToDots(s)[1..] == CommasToDots(s[1..]);
      FindBreakCommasToDots(s[1..]);
    }
  }

  /** Version::segments treats ',' and '.' alike, whatever the string. */
  lemma SegmentsIgnoreSeparatorKind(s: string)
    ensures Segments(CommasToDots(s)) == Segments(s)
  {
    if s != [] {
      SplitCommasToDots(s);
    }
  }

  lemma TrimAllOfTrimmed(ss: seq<string>)
    requires forall i :: 0 <= i < |ss| ==> IsTrimmed(ss[i])
    ensures TrimAll(ss) == ss
  {
  }

  /** Empty tokens are dropped: joining trimmed, break-free parts (some of
      them empty, as between two adjacent breaks) gives back exactly the
      non-empty parts, in order. */
  lemma SegmentsOfJoinDropsEmpty(parts: seq<string>, sep: char)
    requires IsBreak(sep) && |parts| >= 1
    requires forall i :: 0 <= i < |parts| ==> IsTrimmed(parts[i]) && NoBreaks(parts[i])
    ensures Segments(Join(parts, sep)) == RemoveEmpty(parts)
  {
    var x := Join(parts, sep);
    SplitJoin(parts, sep);
    if x == [] {
      SplitOfEmpty(parts);
    } else {
      TrimAllOfTrimmed(parts);
      assert Tokens(x) == parts;
    }
  }

  /** The only parts that split out of the empty string: one empty token,
      which is dropped. */
  lemma SplitOfEmpty(parts: seq<string>)
    requires Split([]) == parts
    ensures RemoveEmpty(parts) == []
  {
    assert parts == [[]];
  }

  // ---------------------------------------------------------------------------
  // String::getIntValue

  /** The longest prefix made of decimal digits. */
  function LeadingDigits(s: string): (r: string)
    ensures |r| <= |s| && r == s[..|r|]
    ensures forall i :: 0 <= i < |r| ==> IsDigit(r[i])
    ensures |r| < |s| ==> !IsDigit(s[|r|])
  {
    if s != [] && IsDigit(s[0]) then [s[0]] + LeadingDigits(s[1..]) else []
  }

  function DigitValue(c: char): nat
    requires IsDigit(c)
  {
    c as nat - '0' as nat
  }

  function DecimalValue(digits: string): nat
    requires forall i :: 0 <= i < |digits| ==> IsDigit(digits[i])
  {
    if digits == [] then 0
    else 10 * DecimalValue(digits[..|digits| - 1]) + DigitValue(digits[|digits| - 1])
  }

  /**
   * String::getIntValue: skip leading white space, read an optional '-' and
   * then as many decimal digits as follow; no digits read as 0.
   */
  function IntValue(s: string): int {
    var t := TrimStart(s);
    if t != [] && t[0] == '-' then -(DecimalValue(LeadingDigits(t[1..])) as int)
    else DecimalValue(LeadingDigits(t))
  }

  function DigitChar(d: nat): (c: char)
    requires d < 10
    ensures IsDigit(c) && DigitValue(c) == d
  {
    ('0' as int + d) as char
  }

  /** The decimal rendering of a natural number. */
  function Decimal(n: nat): (s: string)
    ensures s != []
    ensures forall i :: 0 <= i < |s| ==> IsDigit(s[i])
  {
    if n < 10 then [DigitChar(n)] else Decimal(n / 10) + [DigitChar(n % 10)]
  }

  lemma {:induction false} DecimalValueOfDecimal(n: nat)
    ensures DecimalValue(Decimal(n)) == n
  {
    if n >= 10 {
      var s := Decimal(n);
      assert s[..|s| - 1] == Decimal(n / 10);
      DecimalValueOfDecimal(n / 10);
    }
  }

  lemma {:induction false} LeadingDigitsAll(s: string)
    requires forall i :: 0 <= i < |s| ==> IsDigit(s[i])
    ensures LeadingDigits(s) == s
    decreases |s|
  {
    if s != [] {
      LeadingDigitsAll(s[1..]);
    }
  }

  /** getIntValue reads back the decimal rendering of any natural number. */
  lemma IntValueOfDecimal(n: nat)
    ensures IntValue(Decimal(n)) == n
  {
    var s := Decimal(n);
    assert TrimStart(s) == s;
    LeadingDigitsAll(s);
    DecimalValueOfDecimal(n);
  }

  lemma DecimalIsSegment(n: nat)
    ensures Decimal(n) != [] && IsTrimmed(Decimal(n)) && NoBreaks(Decimal(n))
  {
  }

  // ---------------------------------------------------------------------------
  // Version::asHexInteger

  /** StringArray::operator[] gives an empty string past the end, which reads as 0. */
  function SegmentValue(segs: seq<string>, i: nat): int {
    if i < |segs| then IntValue(segs[i]) else 0
  }

  /**
   * Version::asHexInteger: the first three segments packed a byte apart,
   * (a << 16) + (b << 8) + c, and when there are four or more segments the
   * result shifted by one more byte with the fourth added; later segments
   * are ignored.
   */
  function AsHexInteger(versionString: string): int {
    var segs := Segments(versionString);
    Packed(SegmentValue(segs, 0), SegmentValue(segs, 1), SegmentValue(segs, 2), |segs| >= 4, SegmentValue(segs, 3))
  }

  /** Three values a byte apart, and when `four` holds, shifted one more
      byte with the fourth added. */
  function Packed(a: int, b: int, c: int, four: bool, d: int): int {
    var value := a * 0x10000 + b * 0x100 + c;
    if four then value * 0x100 + d else value
  }

  /** The dotted decimal rendering of a list of version components. */
  function VersionString(components: seq<nat>): (s: string)
    ensures Segments(s) == DecimalStrings(components)
  {
    var parts := DecimalStrings(components);
    SegmentsOfJoin(parts, '.');
    Join(parts, '.')
  }

  function DecimalStrings(components: seq<nat>): (r: seq<string>)
    ensures |r| == |components|
    ensures forall i :: 0 <= i < |r| ==> r[i] == Decimal(components[i])
    ensures AreSegments(r)
  {
    if components == [] then []
    else
      DecimalIsSegment(components[0]);
      [Decimal(components[0])] + DecimalStrings(components[1..])
  }

  /** The packed value of a list of at least three components. */
  function Pack(c: seq<nat>): int
    requires |c| >= 3
  {
    Packed(c[0], c[1], c[2], |c| >= 4, if |c| >= 4 then c[3] else 0)
  }

  /** a.b.c packs to (a << 16) + (b << 8) + c; a.b.c.d[.e...] to ((a.b.c) << 8) + d. */
  lemma AsHexIntegerOfComponents(c: seq<nat>)
    requires |c| >= 3
    ensures AsHexInteger(VersionString(c)) == Pack(c)
    ensures |c| == 3 ==> AsHexInteger(VersionString(c)) == c[0] * 0x10000 + c[1] * 0x100 + c[2]
    ensures |c| >= 4 ==> AsHexInteger(VersionString(c)) == (c[0] * 0x10000 + c[1] * 0x100 + c[2]) * 0x100 + c[3]
  {
    var segs := Segments(VersionString(c));
    assert segs == DecimalStrings(c);
    SegmentValueOfDecimal(c, 0);
    SegmentValueOfDecimal(c, 1);
    SegmentValueOfDecimal(c, 2);
    if |c| >= 4 {
      SegmentValueOfDecimal(c, 3);
    } else {
      assert SegmentValue(segs, 3) == 0;
    }
  }

  /** Each segment of a rendered component list reads back as its component. */
  lemma SegmentValueOfDecimal(c: seq<nat>, i: nat)
    requires i < |c|
    ensures SegmentValue(DecimalStrings(c), i) == c[i]
  {
    IntValueOfDecimal(c[i]);
  }

  predicate ByteComponents(c: seq<nat>) {
    forall i :: 0 <= i < |c| ==> c[i] < 0x100
  }

  /** Strict lexicographic order on component lists of one length. */
  predicate LexLess(a: seq<nat>, b: seq<nat>)
    requires |a| == |b|
  {
    exists k :: 0 <= k < |a| && a[..k] == b[..k] && a[k] < b[k]
  }

  lemma {:induction false} PackLexLess(a: seq<nat>, b: seq<nat>)
    requires |a| == |b| && 3 <= |a| <= 4
    requires ByteComponents(a) && ByteComponents(b)
    ensures Pack(a) < Pack(b) <==> LexLess(a, b)
  {
    var n := |a|;
    if LexLess(a, b) {
      var k :| 0 <= k < n && a[..k] == b[..k] && a[k] < b[k];
      assert forall i :: 0 <= i < k ==> a[i] == b[..k][i];
    } else {
      if a != b {
        var k := FirstDifference(a, b);
        assert a[..k] == b[..k];
        assert b[k] < a[k];
      } else {
        assert Pack(a) == Pack(b);
      }
    }
  }

  function FirstDifference(a: seq<nat>, b: seq<nat>): (k: nat)
    requires |a| == |b| && a != b
    ensures k < |a| && a[..k] == b[..k] && a[k] != b[k]
  {
    if a[0] != b[0] then 0
    else
      var k := 1 + FirstDifference(a[1..], b[1..]);
      assert a[..k] == [a[0]] + a[1..][..k - 1];
      assert b[..k] == [b[0]] + b[1..][..k - 1];
      k
  }

  /**
   * The newer-version test: for versions with the same number (three or
   * four) of byte-sized components, comparing asHexInteger values is the
   * lexicographic comparison of the components.
   */
  lemma NewerVersionIsLexicographic(a: seq<nat>, b: seq<nat>)
    requires |a| == |b| && 3 <= |a| <= 4
    requires ByteComponents(a) && ByteComponents(b)
    ensures AsHexInteger(VersionString(b)) > AsHexInteger(VersionString(a)) <==> LexLess(a, b)
  {
    AsHexIntegerOfComponents(a);
    AsHexIntegerOfComponents(b);
    PackLexLess(a, b);
  }

  // The program's `int`

  /** A value as a 32-bit two's-complement `int` holds it: the one value in
      [-2^31, 2^31) that agrees with it modulo 2^32. */
  function ToInt32(v: int): (r: int)
    ensures -0x8000_0000 <= r < 0x8000_0000
    ensures (v - r) % 0x1_0000_0000 == 0
    ensures -0x8000_0000 <= v < 0x8000_0000 ==> r == v
  {
    var m := v % 0x1_0000_0000;
    if m >= 0x8000_0000 then m - 0x1_0000_0000 else m
  }

  /**
   * Version::asHexInteger as the program computes it: the packed value in
   * a signed 32-bit `int`, wrapping once it reaches 2^31.
   */
  function AsHexInt32(versionString: string): int {
    ToInt32(AsHexInteger(versionString))
  }

  /** Component lists whose packed value stays below 2^31: byte-sized parts,
      and a first part below 128 when there are four. */
  predicate FitsInt(c: seq<nat>) {
    ByteComponents(c) && (|c| >= 4 ==> c[0] < 0x80)
  }

  lemma PackFitsInt(c: seq<nat>)
    requires 3 <= |c| <= 4 && FitsInt(c)
    ensures 0 <= Pack(c) < 0x8000_0000
    ensures AsHexInt32(VersionString(c)) == AsHexInteger(VersionString(c)) == Pack(c)
  {
    AsHexIntegerOfComponents(c);
    assert c[0] * 0x10000 + c[1] * 0x100 + c[2] < 0x100_0000;
    if |c| == 4 {
      assert c[0] * 0x10000 + c[1] * 0x100 + c[2] < 0x80_0000;
    }
  }

  /** The smallest packed values the `int` cannot hold: four parts from
      128.0.0.0 and three parts from 32768.0.0 reach 2^31 and wrap to -2^31. */
  lemma OverflowThresholds()
    ensures Pack([0x80, 0, 0, 0]) == 0x8000_0000 && Pack([0x7f, 0xff, 0xff, 0xff]) == 0x7fff_ffff
    ensures Pack([0x8000, 0, 0]) == 0x8000_0000 && Pack([0x7fff, 0xff, 0xff]) == 0x7fff_ffff
    ensures AsHexInt32(VersionString([0x80, 0, 0, 0])) == -0x8000_0000
    ensures AsHexInt32(VersionString([0x8000, 0, 0])) == -0x8000_0000
  {
    var four: seq<nat> := [0x80, 0, 0, 0];
    var three: seq<nat> := [0x8000, 0, 0];
    AsHexIntegerOfComponents(four);
    AsHexIntegerOfComponents(three);
    WrapsToMin(AsHexInteger(VersionString(four)));
    WrapsToMin(AsHexInteger(VersionString(three)));
  }

  lemma WrapsToMin(v: int)
    requires v == 0x8000_0000
    ensures ToInt32(v) == -0x8000_0000
  {
    assert v % 0x1_0000_0000 == 0x8000_0000;
  }

  /**
   * The newer-version test as the program evaluates it: while both packed
   * values fit the `int`, a higher value is a lexicographically later
   * version, and conversely, for two versions with the same number (three
   * or four) of parts. Version.cpp:102 compares against
   * ProjectInfo::versionNumber, a build-time constant; here it is taken to
   * be the packed value of the running version string `a`.
   */
  lemma NewerVersionInProgram(a: seq<nat>, b: seq<nat>)
    requires |a| == |b| && 3 <= |a| <= 4
    requires FitsInt(a) && FitsInt(b)
    ensures AsHexInt32(VersionString(b)) > AsHexInt32(VersionString(a)) <==> LexLess(a, b)
  {
    PackFitsInt(a);
    PackFitsInt(b);
    PackLexLess(a, b);
  }

  /** Past the `int`, the program's comparison is wrong: 128.0.0.0 is later
      than 1.0.0.0, yet its wrapped value is the lower. */
  lemma WrappedComparison()
    ensures LexLess([1, 0, 0, 0], [0x80, 0, 0, 0])
    ensures AsHexInt32(VersionString([0x80, 0, 0, 0])) < AsHexInt32(VersionString([1, 0, 0, 0]))
  {
    var a: seq<nat> := [1, 0, 0, 0];
    var b: seq<nat> := [0x80, 0, 0, 0];
    assert a[..0] == b[..0] && a[0] < b[0];
    PackFitsInt(a);
    OverflowThresholds();
  }

  /** Versions with different numbers of parts are not ordered by their
      packed values: 2.0.0 is later than 1.0.0.0, yet a fourth part shifts
      by one more byte, so 1.0.0.0 packs higher. Both fit the `int`. */
  lemma MixedCountMisorders()
    ensures var older, newer := OneZeroes(), TwoZeroes();
            && FitsInt(older) && FitsInt(newer) && older[0] < newer[0]
            && AsHexInt32(VersionString(older)) == 0x100_0000
            && AsHexInt32(VersionString(newer)) == 0x2_0000
            && AsHexInt32(VersionString(older)) > AsHexInt32(VersionString(newer))
  {
    OneZeroesValue();
    TwoZeroesValue();
  }

  lemma OneZeroesValue()
    ensures FitsInt(OneZeroes()) && AsHexInt32(VersionString(OneZeroes())) == 0x100_0000
  {
    PackFitsInt(OneZeroes());
  }

  lemma TwoZeroesValue()
    ensures FitsInt(TwoZeroes()) && AsHexInt32(VersionString(TwoZeroes())) == 0x2_0000
  {
    PackFitsInt(TwoZeroes());
  }

  /** The component lists of versions 1.0.0.0 and 2.0.0. */
  function OneZeroes(): seq<nat> { [1, 0, 0, 0] }
  function TwoZeroes(): seq<nat> { [2, 0, 0] }
}
