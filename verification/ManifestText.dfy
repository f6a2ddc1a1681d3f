/** A whole manifest as text: written line by line, read with `fgets` after its version (dedupe/dedupe.c). */
module ManifestText {
  import opened Numbers
  import opened Manifest
  import opened ManifestLines

  // ----- fgets -----

  function ScanLine(text: string, p: nat, limit: nat): (end: nat)
    requires p <= |text| && p <= limit
    ensures p <= end <= |text| && end <= limit && (p < |text| && p < limit ==> p < end)
    ensures forall k :: p <= k < end - 1 ==> text[k] != NEWLINE
    ensures end == |text| || end == limit || (p < end && text[end - 1] == NEWLINE)
    decreases |text| - p
  {
    if p == |text| || p == limit then p else if text[p] == NEWLINE then p + 1 else ScanLine(text, p + 1, limit)
  }

  /** The end of the line that starts at `at`: after the newline, or where the buffer is full or the file ends. */
  function EndOfLine(text: string, at: nat): (end: nat)
    requires at < |text|
    ensures at < end <= |text|
  {
    ScanLine(text, at, at + PATH_MAX - 1)
  }

  method FGets(text: string, at: nat) returns (end: nat)
    requires at < |text|
    ensures end == EndOfLine(text, at)
  {
    end := at;
    while end < |text| && end < at + PATH_MAX - 1
      invariant at <= end <= |text| && end <= at + PATH_MAX - 1
      invariant ScanLine(text, at, at + PATH_MAX - 1) == ScanLine(text, end, at + PATH_MAX - 1)
    {
      end := end + 1;
      if text[end - 1] == NEWLINE { return; }
    }
  }

  /** `fgets` returns a line that is no longer than the buffer as it was written. */
  lemma GetsLine(text: string, at: nat, line: string)
    requires at < |text| && line <= text[at..]
    requires 0 < |line| < PATH_MAX && line[|line| - 1] == NEWLINE
    requires forall k :: 0 <= k < |line| - 1 ==> line[k] != NEWLINE
    ensures EndOfLine(text, at) == at + |line| && text[at..at + |line|] == line
  {
    assert forall k :: 0 <= k < |line| ==> text[at..][k] == text[at + k] == line[k];
  }

  // ----- the version -----

  const HEADER: string := "dedupe\t2\n"

  /** The version of a manifest and where its lines start.  Of an empty one, or with a number that is no int,
      nothing can be said: the program then looks at memory that it has not written. */
  datatype Opening = Version(number: int, at: nat) | NoVersion

  predicate HasNumber(s: string) {
    DigitsFrom(s) < |s| && IsDigit(s[DigitsFrom(s)])
  }

  /** sscanf with "dedupe\t%d" on the first line: any blanks stand for the tab.  Without a match, this is version 1
      and the line is the first item. */
  function OpeningOf(text: string): (r: Opening)
    ensures r.Version? ==> r.at <= |text|
  {
    if text == "" then NoVersion
    else
      var end := EndOfLine(text, 0);
      if !("dedupe" <= text[..end]) || !HasNumber(text[6..end]) then Version(1, 0)
      else if InInt(NumberOf(text[6..end])) then Version(NumberOf(text[6..end]), end)
      else NoVersion
  }

  method ReadOpening(text: string) returns (r: Opening)
    ensures r == OpeningOf(text)
  {
    hide EndOfLine, NumberOf, DigitsFrom;
    if text == "" { return NoVersion; }
    var end := FGets(text, 0);
    if !("dedupe" <= text[..end]) || !HasNumber(text[6..end]) { return Version(1, 0); }
    var v := Atoi(text[6..end]);
    return if InInt(v) then Version(v, end) else NoVersion;
  }

  /** The header of a version between 0 and 9 is recognised. */
  lemma HeaderOpens(v: nat, rest: string)
    requires v < 10
    ensures OpeningOf("dedupe\t" + [DigitChar(v)] + "\n" + rest) == Version(v, 9)
  {
    hide EndOfLine, NumberOf, DigitChar, IsDigit, IsBlank;
    var line := "dedupe\t" + [DigitChar(v)] + "\n";
    var text := line + rest;
    DigitBack(v);
    DigitOrdinary(DigitChar(v));
    GetsLine(text, 0, line);
    assert text[..9] == line && line[6..] == text[6..9] == ['\t', DigitChar(v), '\n'];
    TabbedNumber(DigitChar(v));
  }

  lemma DigitOrdinary(c: char)
    requires IsDigit(c)
    ensures c != NEWLINE && !IsBlank(c) && c != '-' && c != '+'
  {
  }

  lemma TabbedNumber(c: char)
    requires IsDigit(c)
    ensures var s := ['\t', c, '\n']; DigitsFrom(s) == 1 && HasNumber(s) && NumberOf(s) == DigitValue(c)
  {
    var s := ['\t', c, '\n'];
    assert s[1..] == [c, '\n'] && [c, '\n'][1..] == "\n";
    assert BlankCount(s) == 1 && DigitCount([c, '\n']) == 1;
    assert s[1..][..1] == [c] && [c][..0] == "" && Value([c]) == DigitValue(c);
  }

  lemma HeaderTwo(rest: string)
    ensures OpeningOf(HEADER + rest) == Version(2, |HEADER|)
  {
    assert "dedupe\t" + [DigitChar(2)] + "\n" == HEADER;
    HeaderOpens(2, rest);
  }

  // ----- the items -----

  /** The lines of the items, one after the other. */
  function Text(items: seq<Item>): (s: string) {
    if items == [] then "" else Line(items[0]) + Text(items[1..])
  }

  lemma {:induction false} TextAppend(a: seq<Item>, b: seq<Item>)
    ensures Text(a + b) == Text(a) + Text(b)
    decreases |a|
  {
    hide Line;
    if a == [] {
      assert a + b == b;
    } else {
      assert (a + b)[1..] == a[1..] + b;
      TextAppend(a[1..], b);
    }
  }

  ghost predicate AllLegible(items: seq<Item>) {
    forall k :: 0 <= k < |items| ==> Legible(DEDUPE_VERSION, items[k])
  }

  ghost predicate AllShort(items: seq<Item>) {
    forall k :: 0 <= k < |items| ==> ShortLink(items[k])
  }

  lemma {:induction false} TabbedOneLine(fields: seq<string>)
    requires AllPlain(fields)
    ensures forall k :: 0 <= k < |Tabbed(fields)| ==> Tabbed(fields)[k] != NEWLINE
    decreases |fields|
  {
    if fields != [] { TabbedOneLine(fields[1..]); }
  }

  /** A legible line holds one newline, at its end. */
  lemma LineShape(i: Item)
    requires Legible(DEDUPE_VERSION, i)
    ensures 0 < |Line(i)| < PATH_MAX && Line(i)[|Line(i)| - 1] == NEWLINE
    ensures forall k :: 0 <= k < |Line(i)| - 1 ==> Line(i)[k] != NEWLINE
  {
    hide Printed, Tabbed, AllPlain, HeadFields, BodyFields;
    HeadFits(DEDUPE_VERSION, i);
    BodyFits(DEDUPE_VERSION, i);
    TabbedOneLine(HeadFields(DEDUPE_VERSION, i));
    TabbedOneLine(BodyFields(i.body));
  }

  /** `fgets` returns the lines of the items one by one. */
  lemma OneLine(text: string, p: nat, items: seq<Item>)
    requires p < |text| && AllLegible(items) && text[p..] == Text(items)
    ensures items != [] && Legible(DEDUPE_VERSION, items[0]) && AllLegible(items[1..])
    ensures var end := EndOfLine(text, p); text[p..end] == Line(items[0]) && text[end..] == Text(items[1..])
  {
    hide Line, Legible, EndOfLine;
    LineShape(items[0]);
    GetsLine(text, p, Line(items[0]));
    assert text[p + |Line(items[0])|..] == text[p..][|Line(items[0])|..];
  }

  lemma TextEnds(text: string, items: seq<Item>)
    requires text[|text|..] == Text(items) && AllLegible(items)
    ensures items == []
  {
    hide Line, Legible;
    if items != [] { LineShape(items[0]); }
  }
}
