/**
  The first-difference text diff: where two lines, or two lists of lines,
  first differ, and the report that points at that place.
 */
module LineDiff {
  import opened Strings

  /** The sentinel returned when there is no difference. */
  const IDENTICAL: int := -1

  function Min(a: int, b: int): int
  {
    if a <= b then a else b
  }

  // ---------------------------------------------------------------------------
  // Reference definitions
  // ---------------------------------------------------------------------------

  /** The number of leading positions at which a and b agree. */
  function CommonPrefixLength<T(==)>(a: seq<T>, b: seq<T>): (n: nat)
    ensures n <= |a| && n <= |b|
    ensures a[..n] == b[..n]
    ensures n < |a| && n < |b| ==> a[n] != b[n]
  {
    if |a| == 0 || |b| == 0 || a[0] != b[0] then 0
    else
      var m := CommonPrefixLength(a[1..], b[1..]);
      assert a[..m + 1] == [a[0]] + a[1..][..m];
      assert b[..m + 1] == [b[0]] + b[1..][..m];
      m + 1
  }

  /** The three facts about CommonPrefixLength determine it. */
  lemma CommonPrefixLengthUnique<T>(a: seq<T>, b: seq<T>, n: nat)
    requires n <= |a| && n <= |b|
    requires a[..n] == b[..n]
    requires n < |a| && n < |b| ==> a[n] != b[n]
    ensures n == CommonPrefixLength(a, b)
  {
  }

  /**
    What singleline_diff computes: IDENTICAL for equal lines, otherwise the
    first position where they differ, counting the end of the shorter line as
    a difference.
   */
  function FirstDifference(line1: string, line2: string): int
  {
    if line1 == line2 then IDENTICAL else CommonPrefixLength(line1, line2)
  }

  /** What multiline_diff computes: the first differing line and the first difference in it. */
  function FirstLineDifference(lines1: seq<string>, lines2: seq<string>): (int, int)
  {
    if lines1 == lines2 then (IDENTICAL, IDENTICAL)
    else
      var i := CommonPrefixLength(lines1, lines2);
      if i < |lines1| && i < |lines2| then (i, FirstDifference(lines1[i], lines2[i]))
      else (i, 0)
  }

  // ---------------------------------------------------------------------------
  // singleline_diff
  // ---------------------------------------------------------------------------

  /** The index of the first difference between line1 and line2, or IDENTICAL. */
  method SinglelineDiff(line1: string, line2: string) returns (diffidx: int)
    ensures diffidx == FirstDifference(line1, line2)
  {
    diffidx := -1;
    var minlength := Min(|line1|, |line2|);
    for idx := 0 to minlength
      invariant diffidx == -1
      invariant line1[..idx] == line2[..idx]
    {
      if line1[idx] != line2[idx] {
        CommonPrefixLengthUnique(line1, line2, idx);
        diffidx := idx;
        break;
      }
      assert line1[..idx + 1] == line1[..idx] + [line1[idx]];
      assert line2[..idx + 1] == line2[..idx] + [line2[idx]];
    }
    if diffidx == -1 {
      assert line1[..minlength] == line2[..minlength];
      if |line1| == |line2| {
        assert line1 == line1[..minlength] && line2 == line2[..minlength];
      } else {
        CommonPrefixLengthUnique(line1, line2, minlength);
      }
    }
    if diffidx == -1 && |line1| != |line2| {
      diffidx := minlength;
    }
  }

  /** The promises of singleline_diff, stated on its reference definition. */
  lemma FirstDifferenceMeaning(line1: string, line2: string)
    ensures FirstDifference(line1, line2) == IDENTICAL <==> line1 == line2
    ensures -1 <= FirstDifference(line1, line2) <= Min(|line1|, |line2|)
    ensures var k := FirstDifference(line1, line2);
      0 <= k < Min(|line1|, |line2|) ==> line1[..k] == line2[..k] && line1[k] != line2[k]
    ensures var k := FirstDifference(line1, line2);
      k == Min(|line1|, |line2|) ==> |line1| != |line2| && line1[..k] == line2[..k]
  {
    var n := CommonPrefixLength(line1, line2);
    if n == |line1| && n == |line2| {
      assert line1 == line1[..n] && line2 == line2[..n];
    }
  }

  /** Every line is identical to itself. */
  lemma FirstDifferenceSelf(line: string)
    ensures FirstDifference(line, line) == IDENTICAL
  {
  }

  /** When one line is a strict prefix of the other, the difference is where the shorter ends. */
  lemma {:induction false} FirstDifferenceStrictPrefix(line1: string, line2: string)
    requires line1 < line2 || line2 < line1
    ensures FirstDifference(line1, line2) == Min(|line1|, |line2|)
  {
    var m := Min(|line1|, |line2|);
    if line1 < line2 {
      assert line1 == line2[..m];
      assert line1[..m] == line1;
    } else {
      assert line2 == line1[..m];
      assert line2[..m] == line2;
    }
    CommonPrefixLengthUnique(line1, line2, m);
  }

  /** When the lines first differ at a shared position k, the result is k. */
  lemma FirstDifferenceAt(line1: string, line2: string, k: nat)
    requires k < |line1| && k < |line2|
    requires line1[..k] == line2[..k] && line1[k] != line2[k]
    ensures FirstDifference(line1, line2) == k
  {
    CommonPrefixLengthUnique(line1, line2, k);
  }

  // ---------------------------------------------------------------------------
  // singleline_diff_format
  // ---------------------------------------------------------------------------

  /** True if s contains a newline or a carriage return. */
  predicate HasLineBreak(s: string)
  {
    '\n' in s || '\r' in s
  }

  /** The marker line: idx '=' then a caret under the differing column. */
  function Marker(idx: nat): (m: string)
    ensures |m| == idx + 1 && m[idx] == '^'
    ensures forall i :: 0 <= i < idx ==> m[i] == '='
  {
    Repeat('=', idx) + "^"
  }

  /**
    The three-line report: line1, the marker line, line2, each followed by a
    newline; the empty string for a line holding a line break or for an index
    outside [0, length of the shorter line].
   */
  function SinglelineDiffFormat(line1: string, line2: string, idx: int): (r: string)
    ensures HasLineBreak(line1) || HasLineBreak(line2) ==> r == ""
    ensures idx < 0 || idx > Min(|line1|, |line2|) ==> r == ""
    ensures !HasLineBreak(line1) && !HasLineBreak(line2) && 0 <= idx <= Min(|line1|, |line2|) ==>
      r == line1 + "\n" + Marker(idx) + "\n" + line2 + "\n"
  {
    if HasLineBreak(line1) || HasLineBreak(line2) then ""
    else
      var shortLine := if |line1| <= |line2| then line1 else line2;
      if !(0 <= idx <= |shortLine|) then ""
      else
        var midLine := Repeat('=', idx) + "^";
        line1 + "\n" + midLine + "\n" + line2 + "\n"
  }

  /** A string without '\n' avoids the newline separator. */
  lemma NoNewline(s: string)
    requires !HasLineBreak(s)
    ensures Avoids(s, {'\n'})
  {
    forall i | 0 <= i < |s| ensures s[i] != '\n' {
      assert s[i] in s;
    }
  }

  /**
    A non-empty report reads back, split at its newlines, as the two lines
    around a marker whose caret sits at column idx.
   */
  lemma {:induction false} SinglelineDiffFormatLines(line1: string, line2: string, idx: int)
    requires SinglelineDiffFormat(line1, line2, idx) != ""
    ensures 0 <= idx <= Min(|line1|, |line2|)
    ensures SplitOn(SinglelineDiffFormat(line1, line2, idx), {'\n'}) == [line1, Marker(idx), line2, ""]
  {
    var m := Marker(idx);
    NoNewline(line1);
    NoNewline(line2);
    assert Avoids(m, {'\n'});
    var parts := [line1, m, line2, ""];
    assert JoinWith(parts[3..], '\n') == "";
    assert JoinWith(parts[2..], '\n') == line2 + "\n";
    assert JoinWith(parts[1..], '\n') == m + "\n" + line2 + "\n";
    assert JoinWith(parts, '\n') == line1 + "\n" + m + "\n" + line2 + "\n";
    SplitJoin(parts, '\n');
  }

  // ---------------------------------------------------------------------------
  // multiline_diff
  // ---------------------------------------------------------------------------

  /** The line and the character position of the first difference, or (IDENTICAL, IDENTICAL). */
  method MultilineDiff(lines1: seq<string>, lines2: seq<string>) returns (myTup: (int, int))
    ensures myTup == FirstLineDifference(lines1, lines2)
  {
    var minlist := Min(|lines1|, |lines2|);
    if minlist > 0 {
      // the loop below assigns myTup on its first iteration, which always runs
      myTup := (-1, -1);
      for line := 0 to minlist
        invariant myTup == (-1, -1)
        invariant lines1[..line] == lines2[..line]
      {
        // the source calls singleline_diff a second time for the tuple; the result is the same
        var d := SinglelineDiff(lines1[line], lines2[line]);
        if d != -1 {
          CommonPrefixLengthUnique(lines1, lines2, line);
          myTup := (line, d);
          break;
        } else {
          myTup := (-1, -1);
        }
        assert lines1[..line + 1] == lines1[..line] + [lines1[line]];
        assert lines2[..line + 1] == lines2[..line] + [lines2[line]];
      }
      if myTup == (-1, -1) {
        assert lines1[..minlist] == lines2[..minlist];
        if |lines1| == |lines2| {
          assert lines1 == lines1[..minlist] && lines2 == lines2[..minlist];
        } else {
          CommonPrefixLengthUnique(lines1, lines2, minlist);
        }
      }
      if myTup == (-1, -1) && |lines1| != |lines2| {
        myTup := (minlist, 0);
      }
    } else {
      if |lines1| != |lines2| {
        // one file is empty
        myTup := (0, 0);
      } else {
        // both files are empty, so identical
        myTup := (-1, -1);
      }
    }
  }

  /** The promises of multiline_diff, stated on its reference definition. */
  lemma FirstLineDifferenceMeaning(lines1: seq<string>, lines2: seq<string>)
    ensures FirstLineDifference(lines1, lines2) == (IDENTICAL, IDENTICAL) <==> lines1 == lines2
    ensures FirstLineDifference(lines1, lines2).0 == IDENTICAL ==> lines1 == lines2
    ensures -1 <= FirstLineDifference(lines1, lines2).0 <= Min(|lines1|, |lines2|)
    ensures lines1 == [] && lines2 != [] ==> FirstLineDifference(lines1, lines2) == (0, 0)
    ensures lines1 != [] && lines2 == [] ==> FirstLineDifference(lines1, lines2) == (0, 0)
    ensures var (i, j) := FirstLineDifference(lines1, lines2);
      0 <= i < Min(|lines1|, |lines2|) ==>
        && (forall k :: 0 <= k < i ==> lines1[k] == lines2[k])
        && lines1[i] != lines2[i]
        && j == FirstDifference(lines1[i], lines2[i])
        && 0 <= j <= Min(|lines1[i]|, |lines2[i]|)
  {
    var (i, j) := FirstLineDifference(lines1, lines2);
    var n := CommonPrefixLength(lines1, lines2);
    if n == |lines1| && n == |lines2| {
      assert lines1 == lines1[..n] && lines2 == lines2[..n];
    }
    if 0 <= i < Min(|lines1|, |lines2|) {
      forall k | 0 <= k < i ensures lines1[k] == lines2[k] {
        assert lines1[k] == lines1[..n][k] && lines2[k] == lines2[..n][k];
      }
      FirstDifferenceMeaning(lines1[i], lines2[i]);
    }
  }

  /**
    When every paired line matches but one list is longer, the difference is
    reported at the first extra line, column 0.
   */
  lemma FirstLineDifferenceExtraLines(lines1: seq<string>, lines2: seq<string>)
    requires |lines1| != |lines2|
    requires forall k :: 0 <= k < Min(|lines1|, |lines2|) ==> lines1[k] == lines2[k]
    ensures FirstLineDifference(lines1, lines2) == (Min(|lines1|, |lines2|), 0)
  {
    var m := Min(|lines1|, |lines2|);
    assert lines1[..m] == lines2[..m];
    CommonPrefixLengthUnique(lines1, lines2, m);
  }

  // ---------------------------------------------------------------------------
  // get_file_lines: splitting a file's text
  // ---------------------------------------------------------------------------

  /** The lines of a file text as the source cuts them: split at '\n' only, empty lines dropped. */
  function GetFileLines(text: string): (lines: seq<string>)
    ensures forall i :: 0 <= i < |lines| ==> lines[i] != [] && Avoids(lines[i], {'\n'})
  {
    SplitLines(text, {'\n'})
  }

  /** The lines hold every character of the text except the newlines, in order. */
  lemma GetFileLinesContent(text: string)
    ensures Flatten(GetFileLines(text)) == RemoveAll(text, {'\n'})
  {
    FlattenDropEmpty(SplitOn(text, {'\n'}));
    FlattenSplit(text, {'\n'});
  }

  /** Writing non-empty lines out with '\n' between them and reading the text back gives the same lines. */
  lemma GetFileLinesRoundTrip(lines: seq<string>)
    requires forall i :: 0 <= i < |lines| ==> lines[i] != [] && Avoids(lines[i], {'\n'})
    ensures GetFileLines(JoinWith(lines, '\n')) == lines
  {
    if lines == [] {
      assert SplitOn([], {'\n'}) == [[]];
      DropEmptySingle([]);
    } else {
      SplitJoin(lines, '\n');
      DropEmptyKeepsAll(lines);
    }
  }

  /** The lines of two texts joined by a newline are the lines of the first followed by the lines of the second. */
  lemma GetFileLinesAppend(a: string, b: string)
    ensures GetFileLines(a + "\n" + b) == GetFileLines(a) + GetFileLines(b)
  {
    SplitAtSeparator(a, '\n', b, {'\n'});
    DropEmptyConcat(SplitOn(a, {'\n'}), SplitOn(b, {'\n'}));
  }

  /**
    Lines 121-122 applied to a string that holds a carriage return keep it in
    the line; reading a file in text mode never yields such a string
    (GetFileLinesFromRaw).
   */
  lemma GetFileLinesKeepsCarriageReturn()
    ensures GetFileLines("a\r\nb") == ["a\r", "b"]
    ensures HasLineBreak(GetFileLines("a\r\nb")[0])
  {
    assert "b"[1..] == "" && "\nb"[1..] == "b" && "\r\nb"[1..] == "\nb" && "a\r\nb"[1..] == "\r\nb";
    assert SplitOn("", {'\n'}) == [""];
    assert SplitOn("b", {'\n'}) == [['b'] + ""] + [""][1..];
    assert ['b'] + "" == "b" && [""][1..] == [];
    assert SplitOn("b", {'\n'}) == ["b"];
    assert SplitOn("\nb", {'\n'}) == ["", "b"];
    assert SplitOn("\r\nb", {'\n'}) == [['\r'] + ""] + ["", "b"][1..];
    assert ['\r'] + "" == "\r" && ["", "b"][1..] == ["b"];
    assert SplitOn("\r\nb", {'\n'}) == ["\r", "b"];
    assert SplitOn("a\r\nb", {'\n'}) == [['a'] + "\r"] + ["\r", "b"][1..];
    assert ['a'] + "\r" == "a\r" && ["\r", "b"][1..] == ["b"];
    assert SplitOn("a\r\nb", {'\n'}) == ["a\r", "b"];
    assert "a\r"[1] == '\r';
  }

  /** The lines of raw file content as the documentation promises them: cut at '\n' and at '\r', empty lines dropped. */
  function GetFileLinesStrict(text: string): (lines: seq<string>)
    ensures forall i :: 0 <= i < |lines| ==> lines[i] != [] && !HasLineBreak(lines[i])
  {
    var lines := SplitLines(text, {'\n', '\r'});
    assert forall i :: 0 <= i < |lines| ==> Avoids(lines[i], {'\n', '\r'});
    lines
  }

  /** The strict lines hold every character of the text except the line breaks. */
  lemma GetFileLinesStrictContent(text: string)
    ensures Flatten(GetFileLinesStrict(text)) == RemoveAll(text, {'\n', '\r'})
  {
    FlattenDropEmpty(SplitOn(text, {'\n', '\r'}));
    FlattenSplit(text, {'\n', '\r'});
  }

  /**
    What `read()` on a file opened in text mode returns for the raw content:
    universal newlines turn "\r\n" and a lone '\r' into '\n'.
   */
  function TranslateNewlines(raw: string): (text: string)
    ensures |text| <= |raw|
    ensures Avoids(text, {'\r'})
  {
    if raw == [] then []
    else if raw[0] == '\r' && |raw| >= 2 && raw[1] == '\n' then "\n" + TranslateNewlines(raw[2..])
    else if raw[0] == '\r' then "\n" + TranslateNewlines(raw[1..])
    else [raw[0]] + TranslateNewlines(raw[1..])
  }

  /** A text with no line break is one line, or none when it is empty, under either way of cutting. */
  lemma PlainLines(x: string)
    requires Avoids(x, {'\n', '\r'})
    ensures GetFileLines(x) == GetFileLinesStrict(x) == if x == [] then [] else [x]
  {
    assert Avoids(x, {'\n'});
    SplitAfterPlain(x, [], {'\n'});
    SplitAfterPlain(x, [], {'\n', '\r'});
    assert x + [] == x;
    assert SplitOn([], {'\n'}) == [[]] && SplitOn([], {'\n', '\r'}) == [[]];
    DropEmptySingle(x);
  }

  /** A line break between two raw texts separates their strict lines. */
  lemma GetFileLinesStrictAppend(a: string, sep: char, b: string)
    requires sep == '\n' || sep == '\r'
    ensures GetFileLinesStrict(a + [sep] + b) == GetFileLinesStrict(a) + GetFileLinesStrict(b)
  {
    SplitAtSeparator(a, sep, b, {'\n', '\r'});
    DropEmptyConcat(SplitOn(a, {'\n', '\r'}), SplitOn(b, {'\n', '\r'}));
  }

  /** The text-mode reading of a raw text that starts with a line break: one '\n', then the reading of the rest. */
  function AfterBreak(raw: string): string
    requires raw != [] && (raw[0] == '\n' || raw[0] == '\r')
  {
    if raw[0] == '\r' && |raw| >= 2 && raw[1] == '\n' then raw[2..] else raw[1..]
  }

  /** The break step of GetFileLinesFromRawAfter, given the claim for the rest. */
  lemma GetFileLinesFromRawBreak(x: string, raw: string)
    requires Avoids(x, {'\n', '\r'})
    requires raw != [] && (raw[0] == '\n' || raw[0] == '\r')
    requires GetFileLines(TranslateNewlines(AfterBreak(raw))) == GetFileLinesStrict(AfterBreak(raw))
    ensures GetFileLines(x + TranslateNewlines(raw)) == GetFileLinesStrict(x + raw)
  {
    var rest := AfterBreak(raw);
    assert TranslateNewlines(raw) == "\n" + TranslateNewlines(rest);
    assert x + TranslateNewlines(raw) == x + "\n" + TranslateNewlines(rest);
    GetFileLinesAppend(x, TranslateNewlines(rest));
    PlainLines(x);
    assert x + raw == x + [raw[0]] + raw[1..];
    GetFileLinesStrictAppend(x, raw[0], raw[1..]);
    if rest != raw[1..] {
      assert raw[1..] == [] + ['\n'] + rest;
      GetFileLinesStrictAppend([], '\n', rest);
      PlainLines([]);
    }
  }

  /** A break-free prefix stays break-free when a character other than a line break is added. */
  lemma PlainExtend(x: string, c: char)
    requires Avoids(x, {'\n', '\r'}) && c != '\n' && c != '\r'
    ensures Avoids(x + [c], {'\n', '\r'})
  {
    var x' := x + [c];
    forall i | 0 <= i < |x'| ensures x'[i] !in {'\n', '\r'} {
      if i < |x| { assert x'[i] == x[i]; }
    }
  }

  /** A character other than a line break is read as itself. */
  lemma TranslatePlain(raw: string)
    requires raw != [] && raw[0] != '\n' && raw[0] != '\r'
    ensures TranslateNewlines(raw) == [raw[0]] + TranslateNewlines(raw[1..])
  {
  }

  /** Reading a raw text that starts with a character other than a line break, after a prefix x. */
  lemma TranslatePlainAfter(x: string, raw: string)
    requires raw != [] && raw[0] != '\n' && raw[0] != '\r'
    ensures x + TranslateNewlines(raw) == (x + [raw[0]]) + TranslateNewlines(raw[1..])
    ensures x + raw == (x + [raw[0]]) + raw[1..]
  {
    TranslatePlain(raw);
    assert raw == [raw[0]] + raw[1..];
  }

  /** The core of GetFileLinesFromRaw: a break-free prefix already read is carried along. */
  lemma {:induction false} GetFileLinesFromRawAfter(x: string, raw: string)
    requires Avoids(x, {'\n', '\r'})
    ensures GetFileLines(x + TranslateNewlines(raw)) == GetFileLinesStrict(x + raw)
    decreases |raw|
  {
    if raw == [] {
      assert x + [] == x;
      PlainLines(x);
    } else if raw[0] != '\n' && raw[0] != '\r' {
      PlainExtend(x, raw[0]);
      GetFileLinesFromRawAfter(x + [raw[0]], raw[1..]);
      TranslatePlainAfter(x, raw);
    } else {
      var rest := AfterBreak(raw);
      GetFileLinesFromRawAfter([], rest);
      assert [] + TranslateNewlines(rest) == TranslateNewlines(rest) && [] + rest == rest;
      GetFileLinesFromRawBreak(x, raw);
    }
  }

  /**
    get_file_lines from the raw file content: reading in text mode, then
    cutting at '\n' and dropping empty lines, gives exactly the lines cut at
    both '\n' and '\r', so no line holds either character.
   */
  lemma GetFileLinesFromRaw(raw: string)
    ensures GetFileLines(TranslateNewlines(raw)) == GetFileLinesStrict(raw)
    ensures forall i :: 0 <= i < |GetFileLines(TranslateNewlines(raw))| ==>
      !HasLineBreak(GetFileLines(TranslateNewlines(raw))[i])
  {
    GetFileLinesFromRawAfter([], raw);
    assert [] + TranslateNewlines(raw) == TranslateNewlines(raw) && [] + raw == raw;
  }

  /** A Windows line end read in text mode: "a\r\nb" reads as "a\nb" and gives the lines "a" and "b". */
  lemma ReadCarriageReturnExample()
    ensures TranslateNewlines("a\r\nb") == "a\nb"
    ensures GetFileLines(TranslateNewlines("a\r\nb")) == ["a", "b"]
  {
    assert "a\r\nb"[1..] == "\r\nb" && "\r\nb"[2..] == "b" && "b"[1..] == "";
    assert TranslateNewlines("b") == "b";
    assert TranslateNewlines("a\r\nb") == ['a'] + ("\n" + "b");
    assert ['a'] + ("\n" + "b") == "a\nb";
    GetFileLinesAppend("a", "b");
    assert "a" + "\n" + "b" == "a\nb";
    PlainLines("a");
    PlainLines("b");
  }

  // ---------------------------------------------------------------------------
  // file_diff_format
  // ---------------------------------------------------------------------------

  /** The report, or the IndexError the source raises when it indexes past a list's end. */
  datatype Report = Text(text: string) | IndexError

  /**
    The report-building tail of file_diff_format, given the two line lists and
    the pair multiline_diff returned for them (so lineIdx is never below -1).
   */
  function FormatFileDiff(lst1: seq<string>, lst2: seq<string>, lineIdx: int, charIdx: int): (r: Report)
    requires lineIdx >= -1
    ensures r == Text("No differences\n") <==> lineIdx == -1
    ensures r == IndexError <==> lineIdx >= 0 && (lineIdx >= |lst1| || lineIdx >= |lst2|)
  {
    if lineIdx == -1 then Text("No differences\n")
    else if lineIdx >= |lst1| || lineIdx >= |lst2| then IndexError
    else
      var text := "Line " + Decimal(lineIdx) + ":\n" + SinglelineDiffFormat(lst1[lineIdx], lst2[lineIdx], charIdx);
      assert text[0] == 'L';
      Text(text)
  }

  /**
    A report on line lineIdx opens with a header a reader can parse back:
    "Line ", the decimal numeral of lineIdx, ":" and a newline; the
    single-line report of that pair of lines follows it.
   */
  lemma FormatFileDiffHeader(lst1: seq<string>, lst2: seq<string>, lineIdx: int, charIdx: int)
    requires 0 <= lineIdx < |lst1| && lineIdx < |lst2|
    ensures var r := FormatFileDiff(lst1, lst2, lineIdx, charIdx);
      var k := |Decimal(lineIdx)|;
      && r.Text? && |r.text| >= 7 + k
      && r.text[..5] == "Line "
      && (forall i :: 5 <= i < 5 + k ==> IsDigit(r.text[i]))
      && DecimalValue(r.text[5..5 + k]) == lineIdx
      && r.text[5 + k..7 + k] == ":\n"
      && r.text[7 + k..] == SinglelineDiffFormat(lst1[lineIdx], lst2[lineIdx], charIdx)
  {
    var d := Decimal(lineIdx);
    var body := SinglelineDiffFormat(lst1[lineIdx], lst2[lineIdx], charIdx);
    var text := "Line " + d + ":\n" + body;
    var k := |d|;
    assert text[5..5 + k] == d;
    assert text[5 + k..7 + k] == ":\n";
    assert text[7 + k..] == body;
    DecimalRoundTrip(lineIdx);
  }

  /** The report on the first difference between two files, given their lines. */
  method FileDiffFormat(lst1: seq<string>, lst2: seq<string>) returns (r: Report)
    ensures r == Text("No differences\n") <==> lst1 == lst2
    ensures r == IndexError <==> lst1 != lst2 && (lst1 < lst2 || lst2 < lst1)
    ensures r.Text? && lst1 != lst2 ==>
      var (i, j) := FirstLineDifference(lst1, lst2);
      0 <= i < Min(|lst1|, |lst2|) && lst1[i] != lst2[i] &&
      r.text == "Line " + Decimal(i) + ":\n" + SinglelineDiffFormat(lst1[i], lst2[i], j)
  {
    var myTup := MultilineDiff(lst1, lst2);
    FirstLineDifferenceMeaning(lst1, lst2);
    FileDiffOutcome(lst1, lst2);
    r := FormatFileDiff(lst1, lst2, myTup.0, myTup.1);
  }

  /** Which pairs of line lists the report-building tail fails on: exactly those where one list extends the other. */
  lemma FileDiffOutcome(lst1: seq<string>, lst2: seq<string>)
    ensures var (i, j) := FirstLineDifference(lst1, lst2);
      i >= -1 &&
      (FormatFileDiff(lst1, lst2, i, j) == Text("No differences\n") <==> lst1 == lst2) &&
      (FormatFileDiff(lst1, lst2, i, j) == IndexError <==> lst1 != lst2 && (lst1 < lst2 || lst2 < lst1))
  {
    FirstLineDifferenceMeaning(lst1, lst2);
    var (i, j) := FirstLineDifference(lst1, lst2);
    var m := Min(|lst1|, |lst2|);
    if lst1 != lst2 && (lst1 < lst2 || lst2 < lst1) {
      if lst1 < lst2 { assert lst1 == lst2[..m] && lst1[..m] == lst1; }
      else { assert lst2 == lst1[..m] && lst2[..m] == lst2; }
      CommonPrefixLengthUnique(lst1, lst2, m);
    }
    if i >= 0 && FormatFileDiff(lst1, lst2, i, j).Text? {
      assert FormatFileDiff(lst1, lst2, i, j).text[0] == 'L';
    }
    if i == m && lst1 != lst2 {
      var n := CommonPrefixLength(lst1, lst2);
      if |lst1| <= |lst2| { assert lst1 == lst1[..n]; } else { assert lst2 == lst2[..n]; }
    }
  }

  /**
    For lists that differ within their common length, the report is four
    lines: the line number, then the two lines around the marker; the index
    multiline_diff finds is always one the formatter accepts, so only a line
    break inside one of the two lines empties the three-line part.
   */
  lemma FileDiffReportLines(lst1: seq<string>, lst2: seq<string>)
    requires var (i, j) := FirstLineDifference(lst1, lst2); 0 <= i < Min(|lst1|, |lst2|)
    ensures var (i, j) := FirstLineDifference(lst1, lst2);
      var body := SinglelineDiffFormat(lst1[i], lst2[i], j);
      && (body == "" <==> HasLineBreak(lst1[i]) || HasLineBreak(lst2[i]))
      && (body != "" ==>
            SplitOn(FormatFileDiff(lst1, lst2, i, j).text, {'\n'})
              == ["Line " + Decimal(i) + ":", lst1[i], Marker(j), lst2[i], ""])
  {
    FirstLineDifferenceMeaning(lst1, lst2);
    var (i, j) := FirstLineDifference(lst1, lst2);
    var body := SinglelineDiffFormat(lst1[i], lst2[i], j);
    if body != "" {
      ReportSplit(i, lst1[i], lst2[i], j);
    }
  }

  /** A "Line i:" header followed by a non-empty three-line report splits into the five pieces of a four-line text. */
  lemma ReportSplit(i: nat, line1: string, line2: string, j: int)
    requires SinglelineDiffFormat(line1, line2, j) != ""
    ensures SplitOn("Line " + Decimal(i) + ":\n" + SinglelineDiffFormat(line1, line2, j), {'\n'})
      == ["Line " + Decimal(i) + ":", line1, Marker(j), line2, ""]
  {
    var body := SinglelineDiffFormat(line1, line2, j);
    SinglelineDiffFormatLines(line1, line2, j);
    var head := "Line " + Decimal(i) + ":";
    assert Avoids(head, {'\n'}) by {
      forall k | 0 <= k < |head| ensures head[k] != '\n' {
        if k >= 5 && k < |head| - 1 { assert head[k] == Decimal(i)[k - 5]; }
      }
    }
    assert "Line " + Decimal(i) + ":\n" + body == head + ("\n" + body);
    SplitAfterPlain(head, "\n" + body, {'\n'});
    assert ("\n" + body)[1..] == body;
    assert SplitOn("\n" + body, {'\n'}) == [[]] + SplitOn(body, {'\n'});
    assert head + [] == head;
  }

  /** A file that is another plus one line: the as-written tail fails with IndexError, the padded one reports line 1. */
  lemma IndexErrorExample()
    ensures FirstLineDifference(["a"], ["a", "b"]) == (1, 0)
    ensures FormatFileDiff(["a"], ["a", "b"], 1, 0) == IndexError
    ensures FormatFileDiffPadded(["a"], ["a", "b"], 1, 0) == "Line 1:\n\n^\nb\n"
  {
    var l1: seq<string>, l2: seq<string> := ["a"], ["a", "b"];
    assert l2[..1] == l1;
    FirstLineDifferenceExtraLines(l1, l2);
    assert Decimal(1) == "1";
    assert Marker(0) == "^";
  }

  /** Line i of a list of lines, or the empty line past its end. */
  function LineOrEmpty(lines: seq<string>, i: nat): string
  {
    if i < |lines| then lines[i] else ""
  }

  /**
    The report as the documentation promises it ("a four line string"): a
    file that ends before the other compares as an empty line there, so the
    report on line i never indexes past a list.
   */
  function FormatFileDiffPadded(lst1: seq<string>, lst2: seq<string>, lineIdx: int, charIdx: int): (r: string)
    requires lineIdx >= -1
    ensures lineIdx == -1 ==> r == "No differences\n"
    ensures lineIdx >= 0 ==> |r| >= 8 && r[..5] == "Line "
  {
    if lineIdx == -1 then "No differences\n"
    else
      var text := "Line " + Decimal(lineIdx) + ":\n" + SinglelineDiffFormat(LineOrEmpty(lst1, lineIdx), LineOrEmpty(lst2, lineIdx), charIdx);
      assert text[..5] == "Line ";
      text
  }

  /**
    For differing files whose lines hold no line break, the padded report is
    always four lines: the line number, the two lines (the missing one empty)
    and the marker between them.
   */
  lemma FileDiffPaddedLines(lst1: seq<string>, lst2: seq<string>)
    requires lst1 != lst2
    requires forall k :: 0 <= k < |lst1| ==> !HasLineBreak(lst1[k])
    requires forall k :: 0 <= k < |lst2| ==> !HasLineBreak(lst2[k])
    ensures var (i, j) := FirstLineDifference(lst1, lst2);
      && 0 <= i <= Min(|lst1|, |lst2|) && i < |lst1| + |lst2|
      && SplitOn(FormatFileDiffPadded(lst1, lst2, i, j), {'\n'})
           == ["Line " + Decimal(i) + ":", LineOrEmpty(lst1, i), Marker(j), LineOrEmpty(lst2, i), ""]
  {
    FirstLineDifferenceMeaning(lst1, lst2);
    var (i, j) := FirstLineDifference(lst1, lst2);
    var m := Min(|lst1|, |lst2|);
    if i == m {
      var n := CommonPrefixLength(lst1, lst2);
      assert i == n;
      assert j == 0;
    }
    var line1, line2 := LineOrEmpty(lst1, i), LineOrEmpty(lst2, i);
    assert !HasLineBreak(line1) && !HasLineBreak(line2);
    assert 0 <= j <= Min(|line1|, |line2|);
    ReportSplit(i, line1, line2, j);
  }

  /** Where the as-written tail fails, the padded report is the four-line report on the first extra line. */
  lemma FileDiffPaddedOnIndexError(lst1: seq<string>, lst2: seq<string>)
    requires lst1 != lst2 && (lst1 < lst2 || lst2 < lst1)
    ensures var (i, j) := FirstLineDifference(lst1, lst2);
      && FormatFileDiff(lst1, lst2, i, j) == IndexError
      && i == Min(|lst1|, |lst2|) && j == 0
      && FormatFileDiffPadded(lst1, lst2, i, j)
           == "Line " + Decimal(i) + ":\n" + SinglelineDiffFormat(LineOrEmpty(lst1, i), LineOrEmpty(lst2, i), 0)
  {
    FileDiffOutcome(lst1, lst2);
    FirstLineDifferenceMeaning(lst1, lst2);
    var m := Min(|lst1|, |lst2|);
    if lst1 < lst2 { assert lst1 == lst2[..m] && lst1[..m] == lst1; }
    else { assert lst2 == lst1[..m] && lst2[..m] == lst2; }
    CommonPrefixLengthUnique(lst1, lst2, m);
  }

  // ---------------------------------------------------------------------------
  // Worked examples
  // ---------------------------------------------------------------------------

  lemma Scenarios()
    ensures FirstDifference("apple", "apply") == 4
    ensures FirstDifference("cat", "cat") == IDENTICAL
    ensures FirstDifference("cat", "cats") == 3
    ensures SinglelineDiffFormat("cat", "cats", 3) == "cat\n===^\ncats\n"
    ensures FirstLineDifference(["a", "b"], ["a", "b"]) == (-1, -1)
    ensures FirstLineDifference(["a", "b"], ["a", "c"]) == (1, 0)
    ensures FirstLineDifference([], ["x"]) == (0, 0)
    ensures FormatFileDiff(["a"], ["a"], -1, -1) == Text("No differences\n")
  {
    FirstDifferenceAt("apple", "apply", 4);
    FirstDifferenceStrictPrefix("cat", "cats");
    assert Repeat('=', 3) == "===";
    FirstLineDifferenceMeaning(["a", "b"], ["a", "c"]);
    assert ["a", "b"][..1] == ["a", "c"][..1];
    CommonPrefixLengthUnique(["a", "b"], ["a", "c"], 1);
    FirstDifferenceAt("b", "c", 0);
  }
}
