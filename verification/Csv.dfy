/** The CSV printer and parser of the admin UI: parsing undoes printing (section 2 of RFC 4180). */
module Csv {
  import opened Text

  // ---------------------------------------------------------------- printing

  /** An object's printed values; a null or missing value prints as the empty string. */
  type Object = map<string, string>

  function Escape(v: string): string {
    if v == "" then "" else (if v[0] == '"' then "\"\"" else [v[0]]) + Escape(v[1..])
  }

  function Quote(v: string): string { "\"" + Escape(v) + "\"" }

  function Cells(keys: seq<string>, row: Object): (cells: seq<string>)
    ensures |cells| == |keys| && forall i :: 0 <= i < |keys| ==> cells[i] == if keys[i] in row then row[keys[i]] else ""
  {
    seq(|keys|, i requires 0 <= i < |keys| => if keys[i] in row then row[keys[i]] else "")
  }

  /** Array.join(','). */
  function Commas(fields: seq<string>): string { if fields == [] then "" else Join(fields, ',') }

  function Quotes(cells: seq<string>): seq<string> {
    if cells == [] then [] else [Quote(cells[0])] + Quotes(cells[1..])
  }

  function PrintRows(keys: seq<string>, data: seq<Object>): string {
    if data == [] then "" else Commas(Quotes(Cells(keys, data[0]))) + "\n" + PrintRows(keys, data[1..])
  }

  function Print(keys: seq<string>, data: seq<Object>): string { Commas(keys) + "\n" + PrintRows(keys, data) }

  /** jsonToCsv, with `keys` the keys of the first object. */
  method JsonToCsv(keys: seq<string>, data: seq<Object>) returns (csv: string)
    ensures csv == Print(keys, data)
  {
    hide Commas, Quotes;
    csv := Commas(keys) + "\n";
    var i := 0;
    while i < |data|
      invariant 0 <= i <= |data| && csv + PrintRows(keys, data[i..]) == Print(keys, data)
    {
      var line := QuoteAll(Cells(keys, data[i]));
      assert data[i..][1..] == data[i + 1..];
      ghost var rest := PrintRows(keys, data[i + 1..]);
      assert csv + (Commas(line) + "\n" + rest) == csv + Commas(line) + "\n" + rest;
      csv := csv + Commas(line) + "\n";
      i := i + 1;
    }
  }

  method QuoteAll(cells: seq<string>) returns (line: seq<string>)
    ensures line == Quotes(cells)
  {
    hide Quote;
    line := [];
    var k := 0;
    while k < |cells|
      invariant 0 <= k <= |cells| && line + Quotes(cells[k..]) == Quotes(cells)
    {
      assert cells[k..][1..] == cells[k + 1..];
      line := line + [Quote(cells[k])];
      k := k + 1;
    }
  }

  // ---------------------------------------------------------------- parsing

  /** The white space that JavaScript's trim removes. */
  predicate IsJsSpace(c: char) { (IsSpace(c) && c != '\U{0085}') || c == '\U{FEFF}' }

  function JsTrim(s: string): string { TrimRight(TrimLeft(s, IsJsSpace), IsJsSpace) }

  function EndField(row: seq<string>, field: string, quoted: bool): seq<string> {
    row + [if quoted then field else JsTrim(field)]
  }

  predicate AllEmpty(row: seq<string>) { forall v :: v in row ==> v == "" }

  /** A finished row, unless all its fields are empty. */
  function Emit(row: seq<string>): (rows: seq<seq<string>>)
    ensures (forall v :: v in row ==> v == "") ==> rows == []
    ensures (exists v :: v in row && v != "") ==> rows == [row]
  {
    if AllEmpty(row) then [] else [row]
  }

  /** The rows that the rest of the text still yields. */
  function Scan(s: string, row: seq<string>, field: string, inQuotes: bool, quoted: bool): seq<seq<string>>
    decreases |s|
  {
    if s == "" then if field != "" || row != [] then Emit(EndField(row, field, quoted)) else []
    else if inQuotes then
      if s[0] == '"' then
        if |s| > 1 && s[1] == '"' then Scan(s[2..], row, field + "\"", true, quoted) else Scan(s[1..], row, field, false, quoted)
      else Scan(s[1..], row, field + [s[0]], true, quoted)
    else if s[0] == '"' then Scan(s[1..], row, field, true, true)
    else if s[0] == ',' then Scan(s[1..], EndField(row, field, quoted), "", false, false)
    else if s[0] == '\n' then Emit(EndField(row, field, quoted)) + Scan(s[1..], [], "", false, false)
    else if s[0] == '\r' then
      Emit(EndField(row, field, quoted)) + Scan(if |s| > 1 && s[1] == '\n' then s[2..] else s[1..], [], "", false, false)
    else Scan(s[1..], row, field + [s[0]], false, quoted)
  }

  function Parse(text: string): seq<seq<string>> { Scan(text, [], "", false, false) }

  predicate At(text: string, i: nat, c: char) { i < |text| && text[i] == c }

  /** What the scanner does with the next character inside quotes. */
  lemma ScanInside(text: string, i: nat, row: seq<string>, field: string, quoted: bool)
    requires i < |text|
    ensures
      var now := Scan(text[i..], row, field, true, quoted);
      if text[i] != '"' then now == Scan(text[i + 1..], row, field + [text[i]], true, quoted)
      else if At(text, i + 1, '"') then now == Scan(text[i + 2..], row, field + "\"", true, quoted)
      else now == Scan(text[i + 1..], row, field, false, quoted)
  {
    Ahead(text, i);
  }

  /** And outside quotes. */
  lemma ScanOutside(text: string, i: nat, row: seq<string>, field: string, quoted: bool)
    requires i < |text|
    ensures
      var now := Scan(text[i..], row, field, false, quoted);
      if text[i] == '"' then now == Scan(text[i + 1..], row, field, true, true)
      else if text[i] == ',' then now == Scan(text[i + 1..], EndField(row, field, quoted), "", false, false)
      else if text[i] == '\r' && At(text, i + 1, '\n') then
        now == Emit(EndField(row, field, quoted)) + Scan(text[i + 2..], [], "", false, false)
      else if text[i] == '\r' || text[i] == '\n' then
        now == Emit(EndField(row, field, quoted)) + Scan(text[i + 1..], [], "", false, false)
      else now == Scan(text[i + 1..], row, field + [text[i]], false, quoted)
  {
    hide EndField, Emit;
    Ahead(text, i);
  }

  lemma Ahead(text: string, i: nat)
    requires i < |text|
    ensures
      var s := text[i..];
      && s[0] == text[i]
      && s[1..] == text[i + 1..]
      && (|s| > 1 <==> i + 1 < |text|)
      && (|s| > 1 ==> s[1] == text[i + 1] && s[2..] == text[i + 2..])
  {}

  /** At the end of the text an unfinished row is ended. */
  lemma ScanEnd(row: seq<string>, field: string, inQuotes: bool, quoted: bool)
    ensures Scan("", row, field, inQuotes, quoted) == if field != "" || |row| > 0 then Emit(EndField(row, field, quoted)) else []
  {
    hide EndField, Emit;
  }

  /** parseCsvRows. */
  method ParseCsvRows(text: string) returns (rows: seq<seq<string>>)
    ensures rows == Parse(text)
  {
    hide Scan, EndField, AllEmpty;
    rows := [];
    var row: seq<string>, field, inQuotes, quoted, i := [], "", false, false, 0;
    assert text[0..] == text;
    while i < |text|
      invariant 0 <= i <= |text|
      invariant Parse(text) == rows + Scan(text[i..], row, field, inQuotes, quoted)
      decreases |text| - i
    {
      var c := text[i];
      ScanInside(text, i, row, field, quoted);
      ScanOutside(text, i, row, field, quoted);
      if inQuotes {
        if c == '"' {
          if i + 1 < |text| && text[i + 1] == '"' {
            field := field + "\"";
            i := i + 1;
          } else {
            inQuotes := false;
          }
        } else {
          field := field + [c];
        }
      } else if c == '"' {
        inQuotes, quoted := true, true;
      } else if c == ',' {
        row, field, quoted := EndField(row, field, quoted), "", false;
      } else if c == '\n' || c == '\r' {
        if c == '\r' && i + 1 < |text| && text[i + 1] == '\n' { i := i + 1; }
        row := EndField(row, field, quoted);
        if !AllEmpty(row) { rows := rows + [row]; }
        row, field, quoted := [], "", false;
      } else {
        field := field + [c];
      }
      i := i + 1;
    }
    assert text[i..] == "";
    ScanEnd(row, field, inQuotes, quoted);
    if field != "" || |row| > 0 {
      row := EndField(row, field, quoted);
      if !AllEmpty(row) { rows := rows + [row]; }
    }
  }

  // ---------------------------------------------------------------- written text

  predicate PlainRune(c: char) { c !in "\",\r\n" }

  predicate Plain(k: string) { forall c :: c in k ==> PlainRune(c) }

  /** A quoted segment of a field and the plain text after it. */
  datatype Segment = Segment(quoted: string, plain: string)

  /** A field as it is written: plain text, then quoted segments. */
  datatype Cell = Cell(plain: string, segments: seq<Segment>)

  /** Nothing but plain text outside quotes, and some of it between two quoted segments. */
  ghost predicate Written(c: Cell) {
    && Plain(c.plain)
    && (forall g :: g in c.segments ==> Plain(g.plain))
    && (forall i :: 0 <= i < |c.segments| - 1 ==> c.segments[i].plain != "")
  }

  function SegmentsText(segments: seq<Segment>): string {
    if segments == [] then "" else Quote(segments[0].quoted) + (segments[0].plain + SegmentsText(segments[1..]))
  }

  function SegmentsValue(segments: seq<Segment>): string {
    if segments == [] then "" else segments[0].quoted + segments[0].plain + SegmentsValue(segments[1..])
  }

  function CellText(c: Cell): string { c.plain + SegmentsText(c.segments) }

  /** A field without quotes is trimmed; one with quotes is kept as it is. */
  function CellValue(c: Cell): string {
    if c.segments == [] then JsTrim(c.plain) else c.plain + SegmentsValue(c.segments)
  }

  function Values(cells: seq<Cell>): seq<string> { if cells == [] then [] else [CellValue(cells[0])] + Values(cells[1..]) }

  function CellTexts(cells: seq<Cell>): seq<string> { if cells == [] then [] else [CellText(cells[0])] + CellTexts(cells[1..]) }

  /** A row as it is written: its cells and the line break after it, which only the last row may lack. */
  datatype Line = Line(cells: seq<Cell>, end: string)

  /** The text of the lines. */
  function LinesText(lines: seq<Line>): string {
    if lines == [] then "" else Commas(CellTexts(lines[0].cells)) + (lines[0].end + LinesText(lines[1..]))
  }

  /** The rows that the lines stand for, less the ones with nothing but empty fields. */
  function LinesRows(lines: seq<Line>): seq<seq<string>> {
    if lines == [] then [] else Emit(Values(lines[0].cells)) + LinesRows(lines[1..])
  }

  /** A carriage return with a line feed after it is one line break. */
  ghost predicate Ends(end: string, rest: string) {
    || end == "\n"
    || end == "\r\n"
    || (end == "\r" && (rest == "" || rest[0] != '\n'))
    || (end == "" && rest == "")
  }

  ghost predicate WellWritten(lines: seq<Line>) {
    lines != [] ==>
      && lines[0].cells != []
      && (forall c :: c in lines[0].cells ==> Written(c))
      && Ends(lines[0].end, LinesText(lines[1..]))
      && WellWritten(lines[1..])
  }

  // ---------------------------------------------------------------- parsing what was written

  /** The text after a closing quote does not begin with another. */
  predicate NoQuote(rest: string) { rest == "" || rest[0] != '"' }

  /** Inside quotes, an escaped value followed by the closing quote is read back as the value. */
  lemma {:induction false} ScanEscaped(v: string, rest: string, row: seq<string>, field: string)
    requires NoQuote(rest)
    ensures Scan(Escape(v) + "\"" + rest, row, field, true, true) == Scan(rest, row, field + v, false, true)
    decreases |v|
  {
    var s := Escape(v) + "\"" + rest;
    if v == "" {
      assert s[1..] == rest && field + v == field;
    } else if v[0] == '"' {
      assert s[2..] == Escape(v[1..]) + "\"" + rest;
      ScanEscaped(v[1..], rest, row, field + "\"");
      assert field + "\"" + v[1..] == field + v;
    } else {
      assert s[0] == v[0] && s[1..] == Escape(v[1..]) + "\"" + rest;
      ScanEscaped(v[1..], rest, row, field + [v[0]]);
      assert field + [v[0]] + v[1..] == field + v;
    }
  }

  lemma ScanQuoted(v: string, rest: string, row: seq<string>, field: string, quoted: bool)
    requires NoQuote(rest)
    ensures Scan(Quote(v) + rest, row, field, false, quoted) == Scan(rest, row, field + v, false, true)
  {
    var s := Quote(v) + rest;
    assert s[1..] == Escape(v) + "\"" + rest;
    ScanEscaped(v, rest, row, field);
  }

  lemma {:induction false} ScanPlain(k: string, rest: string, row: seq<string>, field: string, quoted: bool)
    requires Plain(k)
    ensures Scan(k + rest, row, field, false, quoted) == Scan(rest, row, field + k, false, quoted)
    decreases |k|
  {
    if k == "" {
      assert k + rest == rest && field + k == field;
    } else {
      assert (k + rest)[0] == k[0] && k[0] in k && (k + rest)[1..] == k[1..] + rest;
      ScanPlain(k[1..], rest, row, field + [k[0]], quoted);
      assert field + [k[0]] + k[1..] == field + k;
    }
  }

  lemma {:induction false} ScanSegments(gs: seq<Segment>, rest: string, row: seq<string>, field: string, quoted: bool)
    requires NoQuote(rest) && Written(Cell("", gs))
    ensures Scan(SegmentsText(gs) + rest, row, field, false, quoted)
         == Scan(rest, row, field + SegmentsValue(gs), false, quoted || gs != [])
    decreases |gs|
  {
    hide Scan, Quote;
    if gs == [] {
      assert SegmentsText(gs) + rest == rest && field + SegmentsValue(gs) == field;
    } else {
      var g, more := gs[0], SegmentsText(gs[1..]) + rest;
      assert g in gs && Plain(g.plain) && Written(Cell("", gs[1..]));
      if g.plain == "" {
        assert gs[1..] == [];
        assert g.plain + more == rest;
      } else {
        assert g.plain[0] in g.plain;
      }
      assert SegmentsText(gs) + rest == Quote(g.quoted) + (g.plain + more);
      ScanQuoted(g.quoted, g.plain + more, row, field, quoted);
      ScanPlain(g.plain, more, row, field + g.quoted, true);
      ScanSegments(gs[1..], rest, row, field + g.quoted + g.plain, true);
      assert field + g.quoted + g.plain + SegmentsValue(gs[1..]) == field + SegmentsValue(gs);
    }
  }

  /** A written field is read as its value. */
  lemma ScanCell(c: Cell, rest: string, row: seq<string>) returns (field: string)
    requires Written(c) && NoQuote(rest)
    ensures Scan(CellText(c) + rest, row, "", false, false) == Scan(rest, row, field, false, c.segments != [])
    ensures EndField(row, field, c.segments != []) == row + [CellValue(c)]
  {
    hide Scan;
    assert CellText(c) + rest == c.plain + (SegmentsText(c.segments) + rest);
    ScanPlain(c.plain, SegmentsText(c.segments) + rest, row, "", false);
    ScanSegments(c.segments, rest, row, "" + c.plain, false);
    field := c.plain + SegmentsValue(c.segments);
    assert "" + c.plain == c.plain && (c.segments == [] ==> field == c.plain);
  }

  lemma ScanComma(rest: string, row: seq<string>, field: string, quoted: bool)
    ensures Scan("," + rest, row, field, false, quoted) == Scan(rest, EndField(row, field, quoted), "", false, false)
  {
    assert ("," + rest)[1..] == rest;
  }

  /** A line break, or the end of the text, ends the row. */
  lemma ScanBreak(end: string, rest: string, row: seq<string>, field: string, quoted: bool)
    requires Ends(end, rest)
    ensures Scan(end + rest, row, field, false, quoted) == Emit(EndField(row, field, quoted)) + Scan(rest, [], "", false, false)
  {
    hide Emit, AllEmpty;
    var s := end + rest;
    if end == "" {
      assert s == "" && JsTrim("") == "";
      if field == "" && row == [] { assert EndField(row, field, quoted) == [""]; }
    } else if end == "\r\n" {
      assert s[2..] == rest;
    } else {
      assert s[1..] == rest;
    }
  }

  lemma Regroup(a: string, b: string, c: string, d: string)
    ensures a + b + c + d == a + (b + (c + d))
  {}

  lemma RowTextSplits(cells: seq<Cell>, tail: string)
    requires cells != []
    ensures |cells| == 1 ==> Join(CellTexts(cells), ',') + tail == CellText(cells[0]) + tail
    ensures |cells| > 1 ==>
      CellTexts(cells[1..]) != [] &&
      Join(CellTexts(cells), ',') + tail == CellText(cells[0]) + ("," + (Join(CellTexts(cells[1..]), ',') + tail))
  {
    hide CellText;
    var first, more := CellText(cells[0]), CellTexts(cells[1..]);
    assert CellTexts(cells) == [first] + more;
    assert |cells| > 1 <==> more != [];
    if more == [] {
      assert Join([first], ',') == first;
    } else {
      assert ([first] + more)[1..] == more;
      assert Join([first] + more, ',') == first + [','] + Join(more, ',');
      Regroup(first, ",", Join(more, ','), tail);
    }
  }

  lemma ValuesSplit(cells: seq<Cell>, row: seq<string>)
    requires cells != []
    ensures row + Values(cells) == row + [CellValue(cells[0])] + Values(cells[1..])
    ensures |cells| == 1 ==> row + Values(cells) == row + [CellValue(cells[0])]
  {
    assert |cells| == 1 ==> Values(cells[1..]) == [];
  }

  /** A written row is read as the values of its cells, whichever line break ends it. */
  lemma {:induction false} ScanRow(cells: seq<Cell>, end: string, rest: string, row: seq<string>)
    requires cells != [] && (forall c :: c in cells ==> Written(c)) && Ends(end, rest)
    ensures Scan(Join(CellTexts(cells), ',') + (end + rest), row, "", false, false)
         == Emit(row + Values(cells)) + Scan(rest, [], "", false, false)
    decreases |cells|
  {
    hide Scan, EndField, Emit, CellText, CellValue, Written, Values, CellTexts, Join;
    var c := cells[0];
    RowTextSplits(cells, end + rest);
    ValuesSplit(cells, row);
    if |cells| == 1 {
      var field := ScanCell(c, end + rest, row);
      ScanBreak(end, rest, row, field, c.segments != []);
    } else {
      var tail := Join(CellTexts(cells[1..]), ',') + (end + rest);
      var field := ScanCell(c, "," + tail, row);
      ScanComma(tail, row, field, c.segments != []);
      ScanRow(cells[1..], end, rest, row + [CellValue(c)]);
    }
  }

  /** Parsing any well-written text gives the values of its fields: fields without quotes trimmed, quoted ones with
      their commas, quotes and line breaks, and no row that is entirely empty. */
  lemma {:induction false} ParseWritten(lines: seq<Line>)
    requires WellWritten(lines)
    ensures Parse(LinesText(lines)) == LinesRows(lines)
    decreases |lines|
  {
    hide Scan, Emit, Values, Join;
    if lines == [] {
      ScanEnd([], "", false, false);
    } else {
      var l := lines[0];
      ParseWritten(lines[1..]);
      ScanRow(l.cells, l.end, LinesText(lines[1..]), []);
      assert CellTexts(l.cells) != [] && [] + Values(l.cells) == Values(l.cells);
    }
  }

  // ---------------------------------------------------------------- parsing what was printed

  function BareCells(keys: seq<string>): seq<Cell> { if keys == [] then [] else [Cell(keys[0], [])] + BareCells(keys[1..]) }

  function QuotedCells(values: seq<string>): seq<Cell> {
    if values == [] then [] else [Cell("", [Segment(values[0], "")])] + QuotedCells(values[1..])
  }

  /** A line of no keys is a line with one empty field. */
  function OneAtLeast(cells: seq<Cell>): seq<Cell> { if cells == [] then [Cell("", [])] else cells }

  function RowLines(keys: seq<string>, data: seq<Object>): seq<Line> {
    if data == [] then []
    else [Line(OneAtLeast(QuotedCells(Cells(keys, data[0]))), "\n")] + RowLines(keys, data[1..])
  }

  function Trims(keys: seq<string>): seq<string> { if keys == [] then [] else [JsTrim(keys[0])] + Trims(keys[1..]) }

  lemma {:induction false} BareAreWritten(keys: seq<string>)
    requires forall k :: k in keys ==> Plain(k)
    ensures forall c :: c in BareCells(keys) ==> Written(c)
    ensures CellTexts(BareCells(keys)) == keys && Values(BareCells(keys)) == Trims(keys)
    decreases |keys|
  {
    if keys != [] {
      assert keys[0] in keys;
      BareAreWritten(keys[1..]);
      assert BareCells(keys)[1..] == BareCells(keys[1..]);
      assert keys[0] + "" == keys[0];
    }
  }

  lemma {:induction false} QuotedAreWritten(values: seq<string>)
    ensures forall c :: c in QuotedCells(values) ==> Written(c)
    ensures CellTexts(QuotedCells(values)) == Quotes(values) && Values(QuotedCells(values)) == values
    decreases |values|
  {
    if values != [] {
      var v, c := values[0], QuotedCells(values)[0];
      QuotedAreWritten(values[1..]);
      assert QuotedCells(values)[1..] == QuotedCells(values[1..]);
      assert c.segments[1..] == [];
      assert SegmentsText([]) == "" && SegmentsValue([]) == "";
      assert SegmentsText(c.segments) == Quote(v) + ("" + "") && "" + (Quote(v) + ("" + "")) == Quote(v);
      assert SegmentsValue(c.segments) == v + "" + "" && "" + (v + "" + "") == v;
    }
  }

  /** The printed rows that are not entirely empty, in order. */
  function Kept(keys: seq<string>, data: seq<Object>): seq<seq<string>> {
    if data == [] then [] else Emit(Cells(keys, data[0])) + Kept(keys, data[1..])
  }

  lemma AddLine(cells: seq<Cell>, lines: seq<Line>)
    requires forall c :: c in cells ==> Written(c)
    requires WellWritten(lines)
    ensures
      var all := [Line(OneAtLeast(cells), "\n")] + lines;
      && WellWritten(all)
      && LinesText(all) == Commas(CellTexts(cells)) + "\n" + LinesText(lines)
      && LinesRows(all) == Emit(Values(cells)) + LinesRows(lines)
  {
    var all := [Line(OneAtLeast(cells), "\n")] + lines;
    assert all[1..] == lines;
    hide Emit, Commas, Written, Values, CellTexts;
    LineIsWritten(cells);
    var text, rest := Commas(CellTexts(cells)), LinesText(lines);
    assert text + ("\n" + rest) == text + "\n" + rest;
  }

  lemma {:induction false} RowsAreWritten(keys: seq<string>, data: seq<Object>)
    ensures WellWritten(RowLines(keys, data))
    ensures LinesText(RowLines(keys, data)) == PrintRows(keys, data) && LinesRows(RowLines(keys, data)) == Kept(keys, data)
    decreases |data|
  {
    if data == [] {
      assert WellWritten([]);
    } else {
      hide Emit, Commas, Quotes, Written, Values, CellTexts, QuotedCells, WellWritten, LinesText, LinesRows, OneAtLeast;
      var values := Cells(keys, data[0]);
      RowsAreWritten(keys, data[1..]);
      QuotedAreWritten(values);
      AddLine(QuotedCells(values), RowLines(keys, data[1..]));
    }
  }

  lemma LineIsWritten(cells: seq<Cell>)
    requires forall c :: c in cells ==> Written(c)
    ensures forall c :: c in OneAtLeast(cells) ==> Written(c)
    ensures Commas(CellTexts(OneAtLeast(cells))) == Commas(CellTexts(cells))
    ensures Emit(Values(OneAtLeast(cells))) == Emit(Values(cells))
  {
    if cells == [] {
      assert CellText(Cell("", [])) == "" && CellValue(Cell("", [])) == "";
      var none := OneAtLeast(cells);
      assert none[1..] == [] && CellTexts(none[1..]) == [] && Values(none[1..]) == [];
      assert CellTexts(none) == [""] && Values(none) == [""];
    }
  }

  lemma {:induction false} TrimmedKeys(keys: seq<string>)
    requires forall k :: k in keys ==> JsTrim(k) == k
    ensures Trims(keys) == keys
    decreases |keys|
  {
    if keys != [] {
      assert keys[0] in keys;
      TrimmedKeys(keys[1..]);
    }
  }

  /** Parsing the printed text gives the trimmed header keys, then exactly the printed rows, less the entirely empty
      ones; values may hold commas, quotes and line breaks. */
  lemma ParsePrint(keys: seq<string>, data: seq<Object>)
    requires forall k :: k in keys ==> Plain(k)
    ensures Parse(Print(keys, data)) == Emit(Trims(keys)) + Kept(keys, data)
    ensures (forall k :: k in keys ==> JsTrim(k) == k) ==> Parse(Print(keys, data)) == Emit(keys) + Kept(keys, data)
  {
    if forall k :: k in keys ==> JsTrim(k) == k { TrimmedKeys(keys); }
    hide Emit, Commas, Written, Values, CellTexts, BareCells, Parse, WellWritten, LinesText, LinesRows, OneAtLeast, RowLines;
    var lines := [Line(OneAtLeast(BareCells(keys)), "\n")] + RowLines(keys, data);
    RowsAreWritten(keys, data);
    BareAreWritten(keys);
    AddLine(BareCells(keys), RowLines(keys, data));
    ParseWritten(lines);
  }

  /** Trimming cuts white space off both ends and no more. */
  lemma JsTrimExactly(s: string)
    ensures exists i, j :: 0 <= i <= j <= |s| && Stripped(s, IsJsSpace, i, j) && JsTrim(s) == s[i..j]
  {
    TrimExactly(s, IsJsSpace);
  }
}
