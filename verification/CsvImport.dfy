/** The CSV file of students to enrol: how the import reads it, and which files it reads back
    as they were written. */
module CsvImport {
  import opened Wrappers
  import opened Text

  // ---------- Reading ----------

  /** `s.split(/\r?\n/)` */
  function SplitLines(s: string): (lines: seq<string>)
    ensures |lines| >= 1
  {
    if s == [] then [[]]
    else if |s| >= 2 && s[0] == '\r' && s[1] == '\n' then [[]] + SplitLines(s[2..])
    else
      var rest := SplitLines(s[1..]);
      if s[0] == '\n' then [[]] + rest else [[s[0]] + rest[0]] + rest[1..]
  }

  /** `Number(cell)`: `NumberOf` stands for its value on a text that is neither blank nor all
      digits, which is left open. */
  datatype Level = Num(n: nat) | NaN | NumberOf(text: string)

  function ToNumber(cell: Option<string>): Level {
    match cell
    case None => NaN
    case Some(text) => if text == "" then Num(0) else if AllDigits(text) then Num(DigitsValue(text)) else NumberOf(text)
  }

  /** A row sent to the server; a cell the line does not have is `undefined`. */
  datatype Row = Row(
    email: Option<string>,
    programName: Option<string>,
    level: Level,
    academicYearLabel: Option<string>)

  function Cell(pieces: seq<string>, i: nat): Option<string> {
    if i < |pieces| then Some(Trim(pieces[i])) else None
  }

  function ParseLine(line: string): Row {
    var pieces := Split(line, ',');
    Row(Cell(pieces, 0), Cell(pieces, 1), ToNumber(Cell(pieces, 2)), Cell(pieces, 3))
  }

  function ParseLines(lines: seq<string>): (rows: seq<Row>)
    ensures |rows| == |lines|
  {
    if lines == [] then [] else [ParseLine(lines[0])] + ParseLines(lines[1..])
  }

  function Parse(text: string): seq<Row> {
    ParseLines(SplitLines(Trim(text))[1..])
  }

  // ---------- Writing ----------

  datatype Entry = Entry(email: string, programName: string, level: nat, academicYearLabel: string)

  function Line(e: Entry): string {
    Join([e.email, e.programName, Decimal(e.level), e.academicYearLabel], ",")
  }

  /** Every entry on a line of its own, each line break before its line. */
  function Body(entries: seq<Entry>, eol: string): string {
    if entries == [] then "" else eol + (Line(entries[0]) + Body(entries[1..], eol))
  }

  function Print(header: string, entries: seq<Entry>, eol: string, last: bool): string {
    header + Body(entries, eol) + (if last then eol else "")
  }

  function RowOf(e: Entry): Row { Row(Some(e.email), Some(e.programName), Num(e.level), Some(e.academicYearLabel)) }

  function Rows(entries: seq<Entry>): (rows: seq<Row>)
    ensures |rows| == |entries|
  {
    if entries == [] then [] else [RowOf(entries[0])] + Rows(entries[1..])
  }

  predicate LineBreak(eol: string) { eol == "\n" || eol == "\r\n" }

  predicate Clean(cell: string) { Tight(cell) && ',' !in cell && '\n' !in cell }

  predicate CleanEntry(e: Entry) { Clean(e.email) && Clean(e.programName) && Clean(e.academicYearLabel) }

  predicate CleanEntries(entries: seq<Entry>) { forall i :: 0 <= i < |entries| ==> CleanEntry(entries[i]) }

  // ---------- Lines ----------

  lemma {:induction false} SplitLinesOne(a: string)
    requires '\n' !in a
    ensures SplitLines(a) == [a]
  {
    if a != [] {
      SplitLinesOne(a[1..]);
      assert [a[0]] + a[1..] == a;
    }
  }

  /** A line break ends the first line; only a carriage return before a bare `\n` is lost. */
  lemma {:induction false} SplitLinesFirst(a: string, eol: string, rest: string) returns (first: string)
    requires '\n' !in a && LineBreak(eol)
    ensures SplitLines(a + eol + rest) == [first] + SplitLines(rest)
    ensures a == [] || a[|a| - 1] != '\r' ==> first == a
    decreases |a|
  {
    var s := a + eol + rest;
    if a == [] {
      first := [];
      assert s[|eol|..] == rest;
    } else if |a| == 1 && a[0] == '\r' && eol == "\n" {
      first := [];
      assert s[2..] == rest;
    } else {
      first := SplitLinesFirst(a[1..], eol, rest);
      assert s[1..] == a[1..] + eol + rest;
      NoBreakAt(a, eol, rest);
      first := [a[0]] + first;
      assert a == [a[0]] + a[1..];
    }
  }

  lemma NoBreakAt(a: string, eol: string, rest: string)
    requires a != [] && '\n' !in a && LineBreak(eol) && !(|a| == 1 && a[0] == '\r' && eol == "\n")
    ensures var s := a + eol + rest; s[0] == a[0] && s[0] != '\n' && !(s[0] == '\r' && s[1] == '\n')
  {}

  lemma {:induction false} LinesHaveNoBreak(s: string)
    ensures forall i :: 0 <= i < |SplitLines(s)| ==> '\n' !in SplitLines(s)[i]
    decreases |s|
  {
    if s != [] {
      if |s| >= 2 && s[0] == '\r' && s[1] == '\n' {
        LinesHaveNoBreak(s[2..]);
      } else {
        LinesHaveNoBreak(s[1..]);
      }
    }
  }

  // ---------- One line ----------

  lemma DigitsAreClean(s: string)
    requires AllDigits(s)
    ensures Clean(s) && s != ""
  {
    assert IsDigit(s[0]) && IsDigit(s[|s| - 1]);
  }

  lemma LineShape(e: Entry)
    ensures Line(e) == e.email + "," + (e.programName + "," + (Decimal(e.level) + "," + e.academicYearLabel))
  {
    var cells := [e.email, e.programName, Decimal(e.level), e.academicYearLabel];
    assert cells[1..] == [e.programName, Decimal(e.level), e.academicYearLabel];
    assert cells[1..][1..] == [Decimal(e.level), e.academicYearLabel];
    assert cells[1..][1..][1..] == [e.academicYearLabel];
    assert Join(cells[1..][1..][1..], ",") == e.academicYearLabel;
    assert Join(cells[1..][1..], ",") == Decimal(e.level) + "," + e.academicYearLabel;
    assert Join(cells[1..], ",") == e.programName + "," + Join(cells[1..][1..], ",");
  }

  lemma LineIsTight(e: Entry)
    requires CleanEntry(e)
    ensures Line(e) != [] && Tight(Line(e)) && '\n' !in Line(e)
  {
    LineShape(e);
    DecimalRoundTrip(e.level);
    DigitsAreClean(Decimal(e.level));
    var line := Line(e);
    assert line[0] == if e.email == [] then ',' else e.email[0];
    var last := e.academicYearLabel;
    assert line[|line| - 1] == if last == [] then ',' else last[|last| - 1];
  }

  lemma ParsePrintedLine(e: Entry)
    requires CleanEntry(e)
    ensures ParseLine(Line(e)) == RowOf(e)
  {
    DecimalRoundTrip(e.level);
    DigitsAreClean(Decimal(e.level));
    SplitJoin([e.email, e.programName, Decimal(e.level), e.academicYearLabel], ',');
    TightIsTrimmed(e.email);
    TightIsTrimmed(e.programName);
    TightIsTrimmed(Decimal(e.level));
    TightIsTrimmed(e.academicYearLabel);
  }

  lemma ParsedCellIsClean(line: string, i: nat)
    requires '\n' !in line && i < |Split(line, ',')|
    ensures Clean(Trim(Split(line, ',')[i]))
  {
    SplitPieces(line, ',');
    SplitKeepsChars(line, ',', i);
    TrimTight(Split(line, ',')[i]);
  }

  lemma {:induction false} SplitKeepsChars(s: string, sep: char, i: nat)
    requires i < |Split(s, sep)|
    ensures forall c :: c in Split(s, sep)[i] ==> c in s
    decreases |s|
  {
    if s != [] {
      var rest := Split(s[1..], sep);
      if s[0] == sep {
        if i > 0 {
          SplitKeepsChars(s[1..], sep, i - 1);
        }
      } else {
        SplitKeepsChars(s[1..], sep, i);
      }
    }
  }

  /** How any line is read: it is its pieces joined by commas, every cell is its piece without the
      white space around it, and a missing piece is a missing cell; a missing level is not a
      number, a blank one is 0, and one of digits is their value. */
  lemma LineIsRead(line: string, pieces: seq<string>)
    requires pieces != [] && line == Join(pieces, ",") && forall i | 0 <= i < |pieces| :: ',' !in pieces[i]
    ensures var row := ParseLine(line);
      && row.email == Some(Trim(pieces[0]))
      && row.programName == (if |pieces| > 1 then Some(Trim(pieces[1])) else None)
      && row.academicYearLabel == (if |pieces| > 3 then Some(Trim(pieces[3])) else None)
      && (|pieces| <= 2 ==> row.level == NaN)
      && (|pieces| > 2 && Blank(pieces[2]) ==> row.level == Num(0))
      && (forall n: nat | |pieces| > 2 && Trim(pieces[2]) == Decimal(n) :: row.level == Num(n))
  {
    SplitJoin(pieces, ',');
    if |pieces| > 2 {
      var a, b := TrimCuts(pieces[2]);
    }
    forall n: nat | |pieces| > 2 && Trim(pieces[2]) == Decimal(n) ensures ParseLine(line).level == Num(n) {
      DecimalRoundTrip(n);
    }
  }

  // ---------- The body ----------

  lemma ParseAfterBreak(a: string, eol: string, line: string, rest: string, row: Row, rows: seq<Row>)
    requires '\n' !in a && LineBreak(eol) && ParseLine(line) == row
    requires SplitLines(line + rest)[0] == line && ParseLines(SplitLines(line + rest)[1..]) == rows
    ensures ParseLines(SplitLines(a + eol + (line + rest))[1..]) == [row] + rows
    ensures a == [] || a[|a| - 1] != '\r' ==> SplitLines(a + eol + (line + rest))[0] == a
  {
    var first := SplitLinesFirst(a, eol, line + rest);
    var tail := SplitLines(line + rest);
    assert ([first] + tail)[1..] == tail;
  }

  lemma {:induction false} ParseBody(a: string, entries: seq<Entry>, eol: string)
    requires '\n' !in a && LineBreak(eol) && CleanEntries(entries)
    ensures ParseLines(SplitLines(a + Body(entries, eol))[1..]) == Rows(entries)
    ensures a == [] || a[|a| - 1] != '\r' ==> SplitLines(a + Body(entries, eol))[0] == a
    decreases |entries|
  {
    if entries == [] {
      SplitLinesOne(a);
      assert a + Body(entries, eol) == a;
    } else {
      var line, rest := Line(entries[0]), Body(entries[1..], eol);
      assert CleanEntry(entries[0]);
      LineIsTight(entries[0]);
      ParseBody(line, entries[1..], eol);
      ParsePrintedLine(entries[0]);
      ParseAfterBreak(a, eol, line, rest, RowOf(entries[0]), Rows(entries[1..]));
      assert a + Body(entries, eol) == a + eol + (line + rest);
    }
  }

  lemma {:induction false} BodyEnd(entries: seq<Entry>, eol: string)
    requires entries != [] && CleanEntries(entries)
    ensures var b := Body(entries, eol); b != [] && !IsSpace(b[|b| - 1])
  {
    var line, rest := Line(entries[0]), Body(entries[1..], eol);
    assert CleanEntry(entries[0]);
    LineIsTight(entries[0]);
    if |entries| > 1 {
      BodyEnd(entries[1..], eol);
      assert Body(entries, eol) == (eol + line) + rest;
    } else {
      assert Body(entries, eol) == eol + line;
    }
  }

  // ---------- Trimming ----------

  lemma {:induction false} TrimStartBlank(blank: string, s: string)
    requires Blank(blank)
    ensures TrimStart(blank + s) == TrimStart(s)
  {
    if blank == [] {
      assert blank + s == s;
    } else {
      assert (blank + s)[1..] == blank[1..] + s;
      TrimStartBlank(blank[1..], s);
    }
  }

  lemma {:induction false} TrimStartNonBlank(a: string, s: string)
    requires !Blank(a)
    ensures TrimStart(a + s) == TrimStart(a) + s
    ensures TrimStart(a) != [] && forall c :: c in TrimStart(a) ==> c in a
  {
    if IsSpace(a[0]) {
      assert (a + s)[1..] == a[1..] + s;
      assert a == [a[0]] + a[1..];
      TrimStartNonBlank(a[1..], s);
    }
  }

  lemma {:induction false} TrimEndBlank(s: string, blank: string)
    requires Blank(blank)
    ensures TrimEnd(s + blank) == TrimEnd(s)
    decreases |blank|
  {
    if blank == [] {
      assert s + blank == s;
    } else {
      var n := |blank| - 1;
      assert (s + blank)[..|s + blank| - 1] == s + blank[..n];
      TrimEndBlank(s, blank[..n]);
    }
  }

  lemma TrimEndStops(s: string, eol: string, last: bool)
    requires LineBreak(eol) && s != [] && !IsSpace(s[|s| - 1])
    ensures TrimEnd(s + (if last then eol else "")) == s
  {
    TrimEndBlank(s, if last then eol else "");
  }

  // ---------- Round trip ----------

  lemma NoEntries(header: string, eol: string, last: bool)
    requires '\n' !in header && LineBreak(eol)
    ensures Parse(Print(header, [], eol, last)) == []
  {
    var end := if last then eol else "";
    assert Print(header, [], eol, last) == header + end;
    if Blank(header) {
      TrimStartBlank(header + end, "");
      assert header + end + "" == header + end;
      assert Trim(header + end) == "";
    } else {
      TrimStartNonBlank(header, end);
      TrimEndBlank(TrimStart(header), end);
      TrimEndTight(TrimStart(header));
      SplitLinesOne(Trim(header + end));
    }
  }

  lemma HeaderTrimmed(header: string, body: string, eol: string, last: bool)
    requires LineBreak(eol) && !Blank(header) && body != [] && !IsSpace(body[|body| - 1])
    ensures Trim(header + body + (if last then eol else "")) == TrimStart(header) + body
    ensures forall c :: c in TrimStart(header) ==> c in header
  {
    var end, start := if last then eol else "", TrimStart(header);
    TrimStartNonBlank(header, body + end);
    assert header + body + end == header + (body + end);
    assert start + (body + end) == start + body + end;
    TrimEndStops(start + body, eol, last);
  }

  lemma HeaderKept(header: string, entries: seq<Entry>, eol: string, last: bool)
    requires '\n' !in header && LineBreak(eol) && CleanEntries(entries) && entries != [] && !Blank(header)
    ensures Parse(Print(header, entries, eol, last)) == Rows(entries)
  {
    BodyEnd(entries, eol);
    HeaderTrimmed(header, Body(entries, eol), eol, last);
    ParseBody(TrimStart(header), entries, eol);
  }

  lemma TrimBetweenBlanks(blank: string, kept: string, eol: string, last: bool)
    requires Blank(blank) && LineBreak(eol) && kept != [] && !IsSpace(kept[0]) && !IsSpace(kept[|kept| - 1])
    ensures Trim(blank + (kept + (if last then eol else ""))) == kept
  {
    var end := if last then eol else "";
    TrimStartBlank(blank, kept + end);
    assert (kept + end)[0] == kept[0];
    assert TrimStart(kept + end) == kept + end;
    TrimEndStops(kept, eol, last);
  }

  lemma Regroup(a: string, b: string, c: string, d: string)
    ensures a + (b + c) + d == (a + b) + (c + d)
  {}

  lemma BlankHeaderTrimmed(header: string, entries: seq<Entry>, eol: string, last: bool)
    requires LineBreak(eol) && CleanEntries(entries) && entries != [] && Blank(header)
    ensures Trim(Print(header, entries, eol, last)) == Line(entries[0]) + Body(entries[1..], eol)
  {
    var end, line, rest := if last then eol else "", Line(entries[0]), Body(entries[1..], eol);
    assert CleanEntry(entries[0]);
    LineIsTight(entries[0]);
    LastOfBody(line, entries[1..], eol);
    Regroup(header, eol, line + rest, end);
    TrimBetweenBlanks(header + eol, line + rest, eol, last);
  }

  lemma LastOfBody(line: string, entries: seq<Entry>, eol: string)
    requires LineBreak(eol) && CleanEntries(entries) && line != [] && !IsSpace(line[|line| - 1])
    ensures var kept := line + Body(entries, eol); kept != [] && !IsSpace(kept[|kept| - 1])
  {
    if entries != [] {
      BodyEnd(entries, eol);
    } else {
      assert line + Body(entries, eol) == line;
    }
  }

  /** With a blank header, the first entry's line is taken for the header. */
  lemma BlankHeaderDropsFirst(header: string, entries: seq<Entry>, eol: string, last: bool)
    requires LineBreak(eol) && CleanEntries(entries) && entries != [] && Blank(header)
    ensures Parse(Print(header, entries, eol, last)) == Rows(entries[1..])
  {
    BlankHeaderTrimmed(header, entries, eol, last);
    assert CleanEntry(entries[0]);
    LineIsTight(entries[0]);
    ParseBody(Line(entries[0]), entries[1..], eol);
  }

  lemma {:induction false} ParsedRowsAreClean(lines: seq<string>, entries: seq<Entry>, i: nat)
    requires forall k :: 0 <= k < |lines| ==> '\n' !in lines[k]
    requires ParseLines(lines) == Rows(entries) && i < |entries|
    ensures CleanEntry(entries[i])
  {
    assert |lines| == |entries|;
    assert ParseLines(lines)[0] == Rows(entries)[0];
    if i == 0 {
      CellsOfRow(lines[0], entries[0]);
    } else {
      assert ParseLines(lines)[1..] == ParseLines(lines[1..]);
      assert Rows(entries)[1..] == Rows(entries[1..]);
      ParsedRowsAreClean(lines[1..], entries[1..], i - 1);
    }
  }

  lemma CellsOfRow(line: string, e: Entry)
    requires '\n' !in line && ParseLine(line) == RowOf(e)
    ensures CleanEntry(e)
  {
    var n := |Split(line, ',')|;
    assert Cell(Split(line, ','), 3).Some?;
    ParsedCellIsClean(line, 0);
    ParsedCellIsClean(line, 1);
    ParsedCellIsClean(line, 3);
  }

  /** A file is read back as it was written exactly when its cells hold no comma, no line
      break and no outer white space, and its header is not blank unless there is no entry. */
  lemma RoundTripIff(header: string, entries: seq<Entry>, eol: string, last: bool)
    requires '\n' !in header && LineBreak(eol)
    ensures Parse(Print(header, entries, eol, last)) == Rows(entries)
      <==> (entries == [] || !Blank(header)) && CleanEntries(entries)
  {
    var text := Print(header, entries, eol, last);
    if Parse(text) == Rows(entries) {
      LinesHaveNoBreak(Trim(text));
      forall i | 0 <= i < |entries| ensures CleanEntry(entries[i]) {
        ParsedRowsAreClean(SplitLines(Trim(text))[1..], entries, i);
      }
    }
    if entries == [] {
      NoEntries(header, eol, last);
    } else if CleanEntries(entries) {
      if Blank(header) {
        BlankHeaderDropsFirst(header, entries, eol, last);
      } else {
        HeaderKept(header, entries, eol, last);
      }
    }
  }
}
