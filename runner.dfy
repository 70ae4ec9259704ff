/**
 * The input side of the benchmark runner (Main.java): expanding the
 * `repeat:COUNT:SUBSTRING` shorthand of a text field, and turning the lines of
 * the input file into labelled test cases. File access, timing and reporting
 * are not part of this model.
 */
module Runner {
  import opened Wrappers
  import opened JavaStrings

  /** One benchmark input: a label, the text to search and the pattern. */
  datatype TestCase = TestCase(caseLabel: string, text: string, pattern: string)

  const RepeatPrefix: string := "repeat:"

  predicate StartsWith(s: string, prefix: string)
  {
    |prefix| <= |s| && s[..|prefix|] == prefix
  }

  // ---------------------------------------------------------------------------
  // expandTextField
  // ---------------------------------------------------------------------------

  /** sub concatenated count times; empty when count <= 0. */
  function Repeat(sub: string, count: int): (r: string)
    ensures |r| == if count > 0 then count * |sub| else 0
    decreases count
  {
    if count <= 0 then [] else Repeat(sub, count - 1) + sub
  }

  /** Repetition distributes over adding counts. */
  lemma {:induction false} RepeatAdd(sub: string, a: nat, b: nat)
    ensures Repeat(sub, a + b) == Repeat(sub, a) + Repeat(sub, b)
    decreases b
  {
    if b > 0 {
      RepeatAdd(sub, a, b - 1);
      assert Repeat(sub, a + b) == Repeat(sub, a + (b - 1)) + sub;
    }
  }

  /** Every character of a repetition is the matching character of sub. */
  lemma {:induction false} RepeatAt(sub: string, count: nat, i: nat, k: nat)
    requires i < count && k < |sub|
    ensures |sub| * i + k < |Repeat(sub, count)| && Repeat(sub, count)[|sub| * i + k] == sub[k]
    decreases count
  {
    if i < count - 1 {
      RepeatAt(sub, count - 1, i, k);
    } else {
      assert |Repeat(sub, count - 1)| == |sub| * i;
    }
  }

  /** What expandTextField returns for a field. */
  function ExpandedText(field: string): string
  {
    ExpandTrimmed(Trim(field))
  }

  /** What expandTextField returns once the field f has been trimmed. */
  function ExpandTrimmed(f: string): string
  {
    if !StartsWith(f, RepeatPrefix) then f
    else
      var p := Split(f, ':', 3);
      if |p| != 3 then []
      else match ParseInt(p[1])
        case None => []
        case Some(count) => Repeat(p[2], count)
  }

  /** Main.java, expandTextField: the trimmed field unless it is a repeat:
      shorthand, whose SUBSTRING is appended COUNT times. */
  method ExpandTextField(field: string) returns (r: string)
    ensures r == ExpandedText(field)
  {
    var f := Trim(field);
    if StartsWith(f, RepeatPrefix) {
      var p := Split(f, ':', 3);
      if |p| != 3 {
        return [];
      }
      var parsed := ParseInt(p[1]);
      if parsed.None? {
        return [];
      }
      r := RepeatLoop(p[2], parsed.value);
      return;
    }
    return f;
  }

  /** The StringBuilder loop of expandTextField: sub appended count times. */
  method RepeatLoop(sub: string, count: int) returns (sb: string)
    ensures sb == Repeat(sub, count)
  {
    sb := [];
    var i := 0;
    while i < count
      invariant 0 <= i && (i <= count || i == 0)
      invariant sb == Repeat(sub, i)
    {
      sb := sb + sub;
      i := i + 1;
    }
    assert sb == Repeat(sub, count);
  }

  /** The field is trimmed before anything else: blank padding around a
      trimmed field f does not change the expansion. */
  lemma ExpandPadded(x: string, f: string, y: string)
    requires AllBlank(x) && AllBlank(y) && IsTrimmed(f)
    ensures ExpandedText(x + f + y) == ExpandTrimmed(f)
  {
    TrimOfPadded(x, f, y);
  }

  /** A field that, once trimmed, is not a repeat: shorthand is the trimmed
      field itself. */
  lemma ExpandPlain(x: string, f: string, y: string)
    requires AllBlank(x) && AllBlank(y) && IsTrimmed(f) && !StartsWith(f, RepeatPrefix)
    ensures ExpandedText(x + f + y) == f
  {
    TrimOfPadded(x, f, y);
  }

  /** A repeat: shorthand with no second ':' (fewer than three parts) expands
      to the empty text. */
  lemma ExpandMissingSubstring(rest: string)
    requires ':' !in rest
    ensures ExpandTrimmed(RepeatPrefix + rest) == []
  {
    var f := RepeatPrefix + rest;
    assert f[..|RepeatPrefix|] == RepeatPrefix;
    assert RepeatPrefix == "repeat" + ":";
    assert ':' !in "repeat";
    SplitAtFirst("repeat", ':', rest, 3);
    SplitWhole(rest, ':', 2);
  }

  /** The field text repeat:COUNT:SUBSTRING. */
  function RepeatField(count: string, sub: string): string
  {
    RepeatPrefix + (count + ":" + sub)
  }

  /** A repeat: shorthand whose COUNT is not an integer expands to the empty
      text. */
  lemma ExpandBadCount(count: string, sub: string)
    requires ':' !in count && ParseInt(count).None?
    ensures ExpandTrimmed(RepeatField(count, sub)) == []
  {
    RepeatFieldParts(count, sub);
  }

  /** A repeat: shorthand with a valid COUNT is SUBSTRING repeated COUNT
      times; SUBSTRING is everything after the second ':', so it may contain
      further ':' characters. */
  lemma ExpandRepeat(count: string, sub: string, n: int)
    requires ':' !in count && ParseInt(count) == Some(n)
    ensures ExpandTrimmed(RepeatField(count, sub)) == Repeat(sub, n)
    ensures |Repeat(sub, n)| == if n > 0 then n * |sub| else 0
  {
    RepeatFieldParts(count, sub);
  }

  /** How a well-formed repeat: field is recognised and split. */
  lemma RepeatFieldParts(count: string, sub: string)
    requires ':' !in count
    ensures StartsWith(RepeatField(count, sub), RepeatPrefix)
    ensures Split(RepeatField(count, sub), ':', 3) == ["repeat", count, sub]
  {
    var f := RepeatField(count, sub);
    assert f[..|RepeatPrefix|] == RepeatPrefix;
    assert RepeatPrefix == "repeat" + ":";
    SplitRepeatField(count, sub);
  }

  lemma SplitRepeatField(count: string, sub: string)
    requires ':' !in count
    ensures Split("repeat" + ":" + (count + ":" + sub), ':', 3) == ["repeat", count, sub]
  {
    var tail := count + ":" + sub;
    SplitAtFirst("repeat", ':', tail, 3);
    SplitAtFirst(count, ':', sub, 2);
    assert Split(sub, ':', 1) == [sub];
  }

  // ---------------------------------------------------------------------------
  // The record filter of main
  // ---------------------------------------------------------------------------

  /** The test case one input line yields, if any: blank and '#' lines are
      skipped, and so is a line that does not split into three '|' fields. */
  function ParseLine(line: string): Option<TestCase>
  {
    ParseRecord(Trim(line))
  }

  /** The test case of a line once it has been trimmed to t. */
  function ParseRecord(t: string): Option<TestCase>
  {
    if t == [] || t[0] == '#' then None
    else
      var parts := Split(t, '|', 3);
      if |parts| != 3 then None
      else Some(TestCase(Trim(parts[0]), ExpandedText(parts[1]), parts[2]))
  }

  /** The test cases of one line: none or one. */
  function LineCases(line: string): (cases: seq<TestCase>)
    ensures |cases| <= 1
  {
    match ParseLine(line)
    case None => []
    case Some(c) => [c]
  }

  /** The cases f yields for each of the lines, concatenated in line order. */
  function Collect(f: string -> seq<TestCase>, lines: seq<string>): seq<TestCase>
  {
    if lines == [] then []
    else Collect(f, lines[..|lines| - 1]) + f(lines[|lines| - 1])
  }

  /** The test cases of the input lines, in line order. */
  function ParseLines(lines: seq<string>): seq<TestCase>
  {
    Collect(LineCases, lines)
  }

  /** Main.java, lines 27-40 of main: the test cases read from the lines of
      the input file. */
  method ReadCases(lines: seq<string>) returns (cases: seq<TestCase>)
    ensures cases == ParseLines(lines)
  {
    cases := [];
    for n := 0 to |lines|
      invariant cases == ParseLines(lines[..n])
    {
      var found := ReadLine(lines[n]);
      ParseLinesStep(lines, n);
      cases := cases + found;
    }
    assert lines[..|lines|] == lines;
  }

  /** The body of the loop of main for one line: nothing for a blank, comment
      or malformed line, otherwise the one test case it describes. */
  method ReadLine(line: string) returns (found: seq<TestCase>)
    ensures found == LineCases(line)
  {
    var t := Trim(line);
    if t == [] || t[0] == '#' {
      return [];
    }
    var parts := Split(t, '|', 3);
    if |parts| != 3 {
      return [];
    }
    var caseLabel := Trim(parts[0]);
    var textField := parts[1];
    var pattern := parts[2];
    var text := ExpandTextField(textField);
    return [TestCase(caseLabel, text, pattern)];
  }

  lemma ParseLinesStep(lines: seq<string>, n: nat)
    requires n < |lines|
    ensures ParseLines(lines[..n + 1]) == ParseLines(lines[..n]) + LineCases(lines[n])
  {
    assert lines[..n + 1] == lines[..n] + [lines[n]];
    CollectSnoc(LineCases, lines[..n], lines[n]);
  }

  /** One more line adds that line's cases at the end. */
  lemma CollectSnoc(f: string -> seq<TestCase>, lines: seq<string>, line: string)
    ensures Collect(f, lines + [line]) == Collect(f, lines) + f(line)
  {
    var l := lines + [line];
    assert l[..|l| - 1] == lines;
  }

  lemma {:induction false} CollectAppend(f: string -> seq<TestCase>, a: seq<string>, b: seq<string>)
    ensures Collect(f, a + b) == Collect(f, a) + Collect(f, b)
    decreases |b|
  {
    if b == [] {
      assert a + b == a;
    } else {
      var b', last := b[..|b| - 1], b[|b| - 1];
      assert b == b' + [last];
      assert a + b == (a + b') + [last];
      CollectSnoc(f, a + b', last);
      CollectSnoc(f, b', last);
      CollectAppend(f, a, b');
    }
  }

  /** Lines are processed independently and in order: the cases of two
      consecutive blocks of lines are the cases of the first, then those of
      the second, and nothing else. */
  lemma ParseLinesAppend(a: seq<string>, b: seq<string>)
    ensures ParseLines(a + b) == ParseLines(a) + ParseLines(b)
  {
    CollectAppend(LineCases, a, b);
  }

  /** A line that is blank or whose first non-blank character is '#' yields
      no test case. */
  lemma SkippedLine(x: string, rest: string)
    requires AllBlank(x) && (rest == [] || rest[0] == '#')
    ensures ParseLine(x + rest) == None
  {
    TrimStartOfBlankPrefix(x, rest);
  }

  /** A non-comment line with fewer than two '|' after trimming yields no test
      case. */
  lemma TooFewFields(line: string)
    requires multiset(Trim(line))['|'] < 2
    ensures ParseLine(line) == None
  {
    var t := Trim(line);
    if t != [] {
      SplitCount(t, '|', 3);
    }
  }

  /** The input line name|text|pattern. */
  function Record(name: string, text: string, pattern: string): string
  {
    name + "|" + (text + "|" + pattern)
  }

  /** The line is trimmed before anything else: blank padding around a
      trimmed line t does not change the case it yields. */
  lemma ParsePadded(x: string, t: string, y: string)
    requires AllBlank(x) && AllBlank(y) && IsTrimmed(t)
    ensures ParseLine(x + t + y) == ParseRecord(t)
  {
    TrimOfPadded(x, t, y);
  }

  /** A trimmed line name|text|pattern yields the trimmed label, the expanded
      text field and the pattern verbatim; any further '|' stay in the
      pattern. */
  lemma AcceptedLine(name: string, text: string, pattern: string)
    requires '|' !in name && '|' !in text && Record(name, text, pattern)[0] != '#'
    ensures ParseRecord(Record(name, text, pattern)) ==
              Some(TestCase(Trim(name), ExpandedText(text), pattern))
  {
    SplitRecord(name, text, pattern);
  }

  lemma SplitRecord(name: string, text: string, pattern: string)
    requires '|' !in name && '|' !in text
    ensures Split(Record(name, text, pattern), '|', 3) == [name, text, pattern]
  {
    SplitAtFirst(name, '|', text + "|" + pattern, 3);
    SplitAtFirst(text, '|', pattern, 2);
    assert Split(pattern, '|', 1) == [pattern];
  }
}
