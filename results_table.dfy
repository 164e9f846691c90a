/**
 * The logic of the results view (components/ResultsTable.tsx): the search filter, the
 * 100-row display cap with its overflow note, and the CSV text built by handleExport.
 * The CSV text is read back with a reader for the quoted-field syntax of RFC 4180
 * (section 2), to state what the export's quoting does and does not preserve.
 */
module ResultsTable {
  import opened Wrappers
  import opened Text
  import opened Types

  /** The filter predicate of lines 13-16: the lower-cased term occurs in the lower-cased file name or path. */
  predicate Matches(f: FileRecord, term: string) {
    Contains(Lower(f.filename), Lower(term)) || Contains(Lower(f.path), Lower(term))
  }

  /** `data.filter(...)` with that predicate: the matching records, in their order. */
  function Filter(data: seq<FileRecord>, term: string): (r: seq<FileRecord>)
    ensures |r| <= |data|
    decreases |data|
  {
    if data == [] then []
    else (if Matches(data[0], term) then [data[0]] else []) + Filter(data[1..], term)
  }

  /** r is s with some elements dropped, the rest in their order. */
  predicate IsSubsequence<T(==)>(r: seq<T>, s: seq<T>)
    decreases |s|
  {
    if r == [] then true
    else if s == [] then false
    else if r[0] == s[0] then IsSubsequence(r[1..], s[1..])
    else IsSubsequence(r, s[1..])
  }

  /** A record is shown exactly when it is in the data and matches the term. */
  lemma {:induction false} FilterMembers(data: seq<FileRecord>, term: string, f: FileRecord)
    ensures f in Filter(data, term) <==> f in data && Matches(f, term)
    decreases |data|
  {
    if data != [] {
      FilterMembers(data[1..], term, f);
      assert data == [data[0]] + data[1..];
    }
  }

  /** Filtering keeps the data's order: its result is a subsequence of the data. */
  lemma {:induction false} FilterIsSubsequence(data: seq<FileRecord>, term: string)
    ensures IsSubsequence(Filter(data, term), data)
    decreases |data|
  {
    if data != [] {
      FilterIsSubsequence(data[1..], term);
      var rest := Filter(data[1..], term);
      if Matches(data[0], term) {
        assert Filter(data, term) == [data[0]] + rest;
        assert ([data[0]] + rest)[1..] == rest;
      } else {
        assert Filter(data, term) == rest;
        if rest != [] {
          FilterMembers(data[1..], term, rest[0]);
        }
      }
    }
  }

  /** The empty search term (the initial state of the search box) keeps every record. */
  lemma {:induction false} FilterEmptyTerm(data: seq<FileRecord>)
    ensures Filter(data, "") == data
    decreases |data|
  {
    if data != [] {
      assert Lower("") == "";
      ContainsEmpty(Lower(data[0].filename));
      FilterEmptyTerm(data[1..]);
      assert data == [data[0]] + data[1..];
    }
  }

  /** Filtering works record by record: the filter of two lists joined is the join of their filters. */
  lemma {:induction false} FilterAppend(a: seq<FileRecord>, b: seq<FileRecord>, term: string)
    ensures Filter(a + b, term) == Filter(a, term) + Filter(b, term)
    decreases |a|
  {
    if a != [] {
      assert (a + b)[1..] == a[1..] + b;
      FilterAppend(a[1..], b, term);
    } else {
      assert a + b == b;
    }
  }

  /** Filtering twice with the same term changes nothing more. */
  lemma {:induction false} FilterIdempotent(data: seq<FileRecord>, term: string)
    ensures Filter(Filter(data, term), term) == Filter(data, term)
    decreases |data|
  {
    if data != [] {
      FilterIdempotent(data[1..], term);
      var rest := Filter(data[1..], term);
      if Matches(data[0], term) {
        assert Filter(data, term) == [data[0]] + rest;
        FilterAppend([data[0]], rest, term);
        assert Filter([data[0]], term) == [data[0]] by {
          assert [data[0]][1..] == [];
        }
      } else {
        assert Filter(data, term) == rest;
      }
    }
  }

  /** The search ignores the (ASCII) case of the term. */
  lemma CaseInsensitive(f: FileRecord, term: string)
    ensures Matches(f, term) <==> Matches(f, Lower(term))
  {
    LowerIdempotent(term);
  }

  /** The table renders `filteredData.slice(0, 100)`. */
  const DISPLAY_LIMIT: nat := 100

  function Displayed(filtered: seq<FileRecord>): (shown: seq<FileRecord>)
    ensures |shown| <= DISPLAY_LIMIT
    ensures |shown| <= |filtered| && shown == filtered[..|shown|]
  {
    if |filtered| <= DISPLAY_LIMIT then filtered else filtered[..DISPLAY_LIMIT]
  }

  /** Whether the "Showing first 100 of N records" note appears (line 127). */
  predicate ShowsOverflowNote(filtered: seq<FileRecord>) {
    |filtered| > DISPLAY_LIMIT
  }

  /**
   * The note appears exactly when some filtered record is not rendered, and then exactly
   * 100 records are rendered.
   */
  lemma OverflowNoteIffHidden(filtered: seq<FileRecord>)
    ensures ShowsOverflowNote(filtered) <==> |Displayed(filtered)| < |filtered|
    ensures ShowsOverflowNote(filtered) ==> |Displayed(filtered)| == DISPLAY_LIMIT
    ensures !ShowsOverflowNote(filtered) ==> Displayed(filtered) == filtered
  {
  }

  /** The header row of the export (line 21). */
  const HEADERS: seq<string> := ["ID", "Filename", "Path", "Extension", "Size (Bytes)", "MD5", "Status", "Scanned At"]

  /** The cells of one record's row (lines 22-31), a number written in decimal. */
  function Cells(f: FileRecord): (cells: seq<string>)
    ensures |cells| == 8
  {
    [f.id, f.filename, f.path, f.extension, NatToString(f.size), f.md5, StatusText(f.status), f.scannedAt]
  }

  /** `"${cell}"`: the cell between double quotes, inner quotes left as they are. */
  function Quote(cell: string): string {
    "\"" + cell + "\""
  }

  function QuoteAll(cells: seq<string>): (q: seq<string>)
    ensures |q| == |cells|
  {
    seq(|cells|, i requires 0 <= i < |cells| => Quote(cells[i]))
  }

  /** One data line: the quoted cells joined by commas. */
  function RowLine(f: FileRecord): string {
    Join(QuoteAll(Cells(f)), ',')
  }

  /** The header names joined by commas, unquoted. */
  function HeaderLine(): string {
    Join(HEADERS, ',')
  }

  /** One data line per filtered record, in order (the `rows.map` of line 35). */
  function RowLines(filtered: seq<FileRecord>): (ls: seq<string>)
    ensures |ls| == |filtered|
  {
    seq(|filtered|, i requires 0 <= i < |filtered| => RowLine(filtered[i]))
  }

  /** The lines of the export: the header line, then one line per filtered record. */
  function Lines(filtered: seq<FileRecord>): (ls: seq<string>)
    ensures |ls| == |filtered| + 1
  {
    [HeaderLine()] + RowLines(filtered)
  }

  /** csvContent of handleExport: the lines joined by '\n'. */
  function ExportCsv(filtered: seq<FileRecord>): string {
    Join(Lines(filtered), '\n')
  }

  // ---- A reader for the quoted-field syntax of RFC 4180, one line at a time ----

  /**
   * The rest of a quoted field after its opening quote: its content, where a doubled quote
   * stands for one quote, and what follows the closing quote. None: no closing quote.
   */
  function ReadQuoted(s: string): (r: Option<(string, string)>)
    ensures r.Some? ==> |r.value.1| < |s|
    decreases |s|
  {
    if s == [] then None
    else if s[0] == '"' then
      if |s| > 1 && s[1] == '"' then
        match ReadQuoted(s[2..])
        case None => None
        case Some((c, rest)) => Some(("\"" + c, rest))
      else Some(("", s[1..]))
    else
      match ReadQuoted(s[1..])
      case None => None
      case Some((c, rest)) => Some(([s[0]] + c, rest))
  }

  /** Position of the first ',' in s, or |s| when there is none. */
  function FieldEnd(s: string): (i: nat)
    ensures i <= |s|
    ensures i < |s| ==> s[i] == ','
    ensures forall k :: 0 <= k < i ==> s[k] != ','
    decreases |s|
  {
    if s == [] then 0
    else if s[0] == ',' then 0
    else 1 + FieldEnd(s[1..])
  }

  /**
   * The fields of one line: each either quoted (any characters, quotes doubled) or plain
   * (no quote, no comma), separated by commas. None: the line is not well formed.
   */
  function ParseFields(s: string): Option<seq<string>>
    decreases |s|
  {
    if |s| > 0 && s[0] == '"' then
      match ReadQuoted(s[1..])
      case None => None
      case Some((c, rest)) =>
        if rest == [] then Some([c])
        else if rest[0] != ',' then None
        else
          match ParseFields(rest[1..])
          case None => None
          case Some(fs) => Some([c] + fs)
    else
      var i := FieldEnd(s);
      if '"' in s[..i] then None
      else if i == |s| then Some([s])
      else
        match ParseFields(s[i + 1..])
        case None => None
        case Some(fs) => Some([s[..i]] + fs)
  }

  /** Each line read as a record; None if any line is not well formed. */
  function ParseLines(lines: seq<string>): Option<seq<seq<string>>>
    decreases |lines|
  {
    if lines == [] then Some([])
    else
      match ParseFields(lines[0])
      case None => None
      case Some(fs) =>
        match ParseLines(lines[1..])
        case None => None
        case Some(rest) => Some([fs] + rest)
  }

  /** A CSV text read as records: split into lines at '\n', each line read as fields. */
  function ReadCsv(doc: string): Option<seq<seq<string>>> {
    ParseLines(Split(doc, '\n'))
  }

  // ---- What the export's quoting preserves ----

  /** A quote-free content, closed by a quote that is not doubled, reads back as itself. */
  lemma {:induction false} ReadQuotedPlain(c: string, rest: string)
    requires '"' !in c
    requires rest == [] || rest[0] != '"'
    ensures ReadQuoted(c + "\"" + rest) == Some((c, rest))
    decreases |c|
  {
    var s := c + "\"" + rest;
    if c == [] {
      assert s == "\"" + rest;
      assert s[1..] == rest;
    } else {
      assert s[0] == c[0];
      assert s[1..] == c[1..] + "\"" + rest;
      ReadQuotedPlain(c[1..], rest);
      assert [c[0]] + c[1..] == c;
    }
  }

  /** Quote-free cells, quoted and joined by commas, read back as the cells. */
  lemma {:induction false} ParseQuotedRow(cells: seq<string>)
    requires |cells| >= 1
    requires forall i :: 0 <= i < |cells| ==> '"' !in cells[i]
    ensures ParseFields(Join(QuoteAll(cells), ',')) == Some(cells)
    decreases |cells|
  {
    var q := QuoteAll(cells);
    var c := cells[0];
    if |cells| == 1 {
      var s := Join(q, ',');
      assert s == "\"" + c + "\"";
      ReadQuotedPlain(c, "");
      assert s[1..] == c + "\"" + "";
      assert ReadQuoted(s[1..]) == Some((c, ""));
      assert cells == [c];
    } else {
      var tail := Join(q[1..], ',');
      assert q[1..] == QuoteAll(cells[1..]);
      assert Join(q, ',') == "\"" + c + "\"" + "," + tail;
      var s := Join(q, ',');
      assert s[1..] == c + "\"" + ("," + tail);
      ReadQuotedPlain(c, "," + tail);
      assert ("," + tail)[1..] == tail;
      ParseQuotedRow(cells[1..]);
      assert [c] + cells[1..] == cells;
    }
  }

  /** Cells holding neither ',' nor '"', joined by commas without quotes, read back as the cells. */
  lemma {:induction false} ParsePlainRow(cells: seq<string>)
    requires |cells| >= 1
    requires forall i :: 0 <= i < |cells| ==> ',' !in cells[i] && '"' !in cells[i]
    ensures ParseFields(Join(cells, ',')) == Some(cells)
    decreases |cells|
  {
    var c := cells[0];
    var s := Join(cells, ',');
    if |cells| == 1 {
      assert s == c;
      assert FieldEnd(s) == |s|;
      assert s[..|s|] == s;
      assert cells == [c];
    } else {
      var tail := Join(cells[1..], ',');
      assert s == c + "," + tail;
      assert s[|c|] == ',';
      assert forall k :: 0 <= k < |c| ==> s[k] == c[k];
      assert FieldEnd(s) == |c|;
      assert s[..|c|] == c;
      assert s[|c| + 1..] == tail;
      ParsePlainRow(cells[1..]);
      assert [c] + cells[1..] == cells;
    }
  }

  /** Reading lines one by one gives the records line by line. */
  lemma {:induction false} ParseLinesEach(lines: seq<string>, records: seq<seq<string>>)
    requires |lines| == |records|
    requires forall i :: 0 <= i < |lines| ==> ParseFields(lines[i]) == Some(records[i])
    ensures ParseLines(lines) == Some(records)
    decreases |lines|
  {
    if lines != [] {
      ParseLinesEach(lines[1..], records[1..]);
      assert [records[0]] + records[1..] == records;
    }
  }

  /** A character outside every part, other than the separator, is outside the joined text. */
  lemma {:induction false} JoinAvoids(parts: seq<string>, sep: char, ch: char)
    requires ch != sep
    requires forall i :: 0 <= i < |parts| ==> ch !in parts[i]
    ensures ch !in Join(parts, sep)
    decreases |parts|
  {
    if |parts| > 1 {
      JoinAvoids(parts[1..], sep, ch);
    }
  }

  predicate NoQuoteOrBreak(s: string) {
    '"' !in s && '\n' !in s
  }

  /** The fields an exported record holds as text: none contains a double quote or a line break. */
  predicate CsvSafe(f: FileRecord) {
    && NoQuoteOrBreak(f.id) && NoQuoteOrBreak(f.filename) && NoQuoteOrBreak(f.path)
    && NoQuoteOrBreak(f.extension) && NoQuoteOrBreak(f.md5) && NoQuoteOrBreak(f.scannedAt)
  }

  /** The cells of a safe record hold no quote and no line break. */
  lemma SafeCells(f: FileRecord)
    requires CsvSafe(f)
    ensures forall i :: 0 <= i < |Cells(f)| ==> NoQuoteOrBreak(Cells(f)[i])
  {
    var n, st := NatToString(f.size), StatusText(f.status);
    assert NoQuoteOrBreak(n) by {
      forall k | 0 <= k < |n| ensures n[k] != '"' && n[k] != '\n' {
        assert IsDigit(n[k]);
      }
    }
    assert NoQuoteOrBreak(st);
  }

  lemma HeaderCells()
    ensures forall i :: 0 <= i < |HEADERS| ==> ',' !in HEADERS[i] && NoQuoteOrBreak(HEADERS[i])
  {
  }

  /** The fields an exported record holds as text: none contains a line break. */
  predicate BreakFree(f: FileRecord) {
    && '\n' !in f.id && '\n' !in f.filename && '\n' !in f.path
    && '\n' !in f.extension && '\n' !in f.md5 && '\n' !in f.scannedAt
  }

  /** A record whose text fields hold no line break gets a data line without one. */
  lemma RowLineNoBreak(f: FileRecord)
    requires BreakFree(f)
    ensures '\n' !in RowLine(f)
  {
    var cells := Cells(f);
    var n := NatToString(f.size);
    assert '\n' !in n by {
      forall k | 0 <= k < |n| ensures n[k] != '\n' {
        assert IsDigit(n[k]);
      }
    }
    assert '\n' !in StatusText(f.status);
    var q := QuoteAll(cells);
    forall k | 0 <= k < |q| ensures '\n' !in q[k] {
      assert q[k] == "\"" + cells[k] + "\"";
    }
    JoinAvoids(q, ',', '\n');
  }

  lemma HeaderLineNoBreak()
    ensures '\n' !in HeaderLine()
  {
    HeaderCells();
    JoinAvoids(HEADERS, ',', '\n');
  }

  /** When no record's text field holds a line break, no line of the export holds one. */
  lemma LinesNoBreak(filtered: seq<FileRecord>)
    requires forall i :: 0 <= i < |filtered| ==> BreakFree(filtered[i])
    ensures forall i :: 0 <= i < |Lines(filtered)| ==> '\n' !in Lines(filtered)[i]
  {
    var ls := Lines(filtered);
    forall i | 0 <= i < |ls| ensures '\n' !in ls[i] {
      if i == 0 {
        HeaderLineNoBreak();
      } else {
        assert ls[i] == RowLine(filtered[i - 1]);
        RowLineNoBreak(filtered[i - 1]);
      }
    }
  }

  /**
   * The line structure of the export: for records whose text fields hold no line break,
   * splitting the CSV at '\n' gives the header line followed by exactly one line per
   * filtered record, in filtered order.
   */
  lemma ExportLines(filtered: seq<FileRecord>)
    requires forall i :: 0 <= i < |filtered| ==> BreakFree(filtered[i])
    ensures Split(ExportCsv(filtered), '\n') == Lines(filtered)
    ensures |Split(ExportCsv(filtered), '\n')| == |filtered| + 1
    ensures Split(ExportCsv(filtered), '\n')[0] == Join(HEADERS, ',')
    ensures forall i :: 0 <= i < |filtered| ==> Split(ExportCsv(filtered), '\n')[i + 1] == RowLine(filtered[i])
  {
    LinesNoBreak(filtered);
    SplitJoin(Lines(filtered), '\n');
  }

  /**
   * Round trip of the export: for records whose text fields hold no quote and no line
   * break, an RFC 4180 reader gets back the header names and then, per filtered record in
   * order, its eight cells. Commas inside a cell survive, being inside quotes.
   */
  lemma ExportReadsBack(filtered: seq<FileRecord>)
    requires forall i :: 0 <= i < |filtered| ==> CsvSafe(filtered[i])
    ensures ReadCsv(ExportCsv(filtered)) == Some([HEADERS] + seq(|filtered|, i requires 0 <= i < |filtered| => Cells(filtered[i])))
  {
    ExportLines(filtered);
    var ls := Lines(filtered);
    HeaderReadsBack();
    RowsReadBack(filtered);
    assert ls[1..] == RowLines(filtered);
  }

  /** The data lines read back as the filtered records' cells, in order. */
  lemma RowsReadBack(filtered: seq<FileRecord>)
    requires forall i :: 0 <= i < |filtered| ==> CsvSafe(filtered[i])
    ensures ParseLines(RowLines(filtered)) == Some(seq(|filtered|, i requires 0 <= i < |filtered| => Cells(filtered[i])))
  {
    var ls := RowLines(filtered);
    var records := seq(|filtered|, i requires 0 <= i < |filtered| => Cells(filtered[i]));
    forall i | 0 <= i < |ls| ensures ParseFields(ls[i]) == Some(records[i]) {
      RowReadsBack(filtered[i]);
    }
    ParseLinesEach(ls, records);
  }


  /** The header line reads back as the eight header names. */
  lemma HeaderReadsBack()
    ensures ParseFields(Join(HEADERS, ',')) == Some(HEADERS)
  {
    HeaderCells();
    ParsePlainRow(HEADERS);
  }

  /** A safe record's line reads back as its eight cells. */
  lemma RowReadsBack(f: FileRecord)
    requires CsvSafe(f)
    ensures ParseFields(RowLine(f)) == Some(Cells(f))
  {
    SafeCells(f);
    ParseQuotedRow(Cells(f));
  }


  /**
   * The quoting does not escape: a record whose file name holds a double quote followed
   * by another character, such as `a"b`, gets a data line that the field reader rejects.
   */
  lemma InnerQuoteBreaksRow(f: FileRecord)
    requires '"' !in f.id
    requires f.filename == "a\"b"
    ensures ParseFields(RowLine(f)) == None
  {
    var q := QuoteAll(Cells(f));
    var more := [','] + Join(q[2..], ',');
    var tail := Join(q[1..], ',');
    assert q[1..][0] == Quote("a\"b") && q[1..][1..] == q[2..];
    assert tail == Quote("a\"b") + more;
    InnerQuoteEndsCell(more);
    // the first cell reads back, and the reader moves on to the second
    assert RowLine(f) == Quote(f.id) + [','] + tail;
    ReadQuotedPlain(f.id, [','] + tail);
    assert RowLine(f)[1..] == f.id + "\"" + ([','] + tail);
    assert ([','] + tail)[1..] == tail;
  }

  /** The quoted cell `"a"b"` closes at its inner quote, and the 'b' after it is not a ','. */
  lemma InnerQuoteEndsCell(more: string)
    ensures ParseFields(Quote("a\"b") + more) == None
  {
    var u := (Quote("a\"b") + more)[1..];
    assert u == "a\"b\"" + more;
    assert u[1..][1..] == "b\"" + more;
    assert ReadQuoted(u[1..]) == Some(("", u[1..][1..]));
    assert ['a'] + "" == "a";
    assert ReadQuoted(u) == Some(("a", u[1..][1..]));
  }
}
