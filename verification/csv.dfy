/** `parseCSV` of app.js: a single left-to-right scan with one character of
    lookahead, quote-aware, that never trims and never emits a blank row. */
module Csv {
  import opened Seqs

  type Row = seq<string>

  /** The scanner's variables: the finished rows, the open row, the open
      field, and whether a quoted section is open. */
  datatype State = State(rows: seq<Row>, row: Row, cur: string, inQuotes: bool)

  const Start := State([], [], "", false)

  predicate IsBreak(c: char) {
    c == '\n' || c == '\r'
  }

  predicate IsComma(c: char) {
    c == ','
  }

  /** A row that holds something: a field with text, or at least two fields. */
  predicate NonBlank(r: Row) {
    |r| > 1 || (|r| == 1 && r[0] != "")
  }

  ghost predicate AllNonBlank(rows: seq<Row>) {
    forall r :: r in rows ==> NonBlank(r)
  }

  /** Closes the open row, which is kept only when something was accumulated. */
  function EndRow(st: State): State {
    if |st.cur| > 0 || |st.row| > 0 then State(st.rows + [st.row + [st.cur]], [], "", st.inQuotes)
    else st
  }

  /** The rows produced by scanning `s` from state `st`; one call per loop iteration. */
  function Scan(st: State, s: string): seq<Row>
    decreases |s|
  {
    if |s| == 0 then EndRow(st).rows
    else if s[0] == '"' && st.inQuotes && |s| > 1 && s[1] == '"' then
      Scan(st.(cur := st.cur + "\""), s[2..])
    else if s[0] == '"' then
      Scan(st.(inQuotes := !st.inQuotes), s[1..])
    else if IsComma(s[0]) && !st.inQuotes then
      Scan(st.(row := st.row + [st.cur], cur := ""), s[1..])
    else if IsBreak(s[0]) && !st.inQuotes then
      Scan(EndRow(st), s[1..])
    else
      Scan(st.(cur := st.cur + [s[0]]), s[1..])
  }

  /** The rows of `text`; none of them is blank. */
  function Parse(text: string): (rows: seq<Row>)
    ensures forall r :: r in rows ==> NonBlank(r)
  {
    ScanNonBlank(Start, text);
    Scan(Start, text)
  }

  lemma {:induction false} ScanNonBlank(st: State, s: string)
    requires AllNonBlank(st.rows)
    ensures AllNonBlank(Scan(st, s))
    decreases |s|
  {
    if |s| == 0 {
    } else if s[0] == '"' && st.inQuotes && |s| > 1 && s[1] == '"' {
      ScanNonBlank(st.(cur := st.cur + "\""), s[2..]);
    } else if s[0] == '"' {
      ScanNonBlank(st.(inQuotes := !st.inQuotes), s[1..]);
    } else if IsComma(s[0]) && !st.inQuotes {
      ScanNonBlank(st.(row := st.row + [st.cur], cur := ""), s[1..]);
    } else if IsBreak(s[0]) && !st.inQuotes {
      ScanNonBlank(EndRow(st), s[1..]);
    } else {
      ScanNonBlank(st.(cur := st.cur + [s[0]]), s[1..]);
    }
  }

  /** The loop of `parseCSV`, over explicit variables, computes `Parse`. */
  method ParseCsv(text: string) returns (rows: seq<Row>)
    ensures rows == Parse(text)
  {
    rows := [];
    var row: Row := [];
    var cur := "";
    var inQuotes := false;
    var i := 0;
    while i < |text|
      invariant 0 <= i <= |text|
      invariant Scan(State(rows, row, cur, inQuotes), text[i..]) == Parse(text)
      decreases |text| - i
    {
      var c := text[i];
      assert text[i..][0] == c && text[i..][1..] == text[i + 1..];
      if c == '"' && inQuotes && i + 1 < |text| && text[i + 1] == '"' {
        assert text[i..][2..] == text[i + 2..];
        cur := cur + "\"";
        i := i + 2;
      } else if c == '"' {
        inQuotes := !inQuotes;
        i := i + 1;
      } else if IsComma(c) && !inQuotes {
        row := row + [cur];
        cur := "";
        i := i + 1;
      } else if IsBreak(c) && !inQuotes {
        if |cur| > 0 || |row| > 0 {
          rows := rows + [row + [cur]];
          row := [];
          cur := "";
        }
        i := i + 1;
      } else {
        cur := cur + [c];
        i := i + 1;
      }
    }
    if |cur| > 0 || |row| > 0 {
      rows := rows + [row + [cur]];
    }
  }

  /** Inside quotes with no quote left, the rest of the input, line breaks
      and commas included, lands in the last field. */
  lemma {:induction false} UnterminatedQuote(st: State, s: string)
    requires st.inQuotes && '"' !in s
    ensures Scan(st, s) == EndRow(st.(cur := st.cur + s)).rows
    decreases |s|
  {
    if |s| == 0 {
      assert st.cur + s == st.cur;
      assert st.(cur := st.cur + s) == st;
    } else {
      assert s[0] != '"' && '"' !in s[1..];
      UnterminatedQuote(st.(cur := st.cur + [s[0]]), s[1..]);
      assert st.cur + [s[0]] + s[1..] == st.cur + s;
    }
  }

  lemma UnterminatedQuoteParse(s: string)
    requires '"' !in s
    ensures Parse("\"" + s) == if s == "" then [] else [[s]]
  {
    var t := "\"" + s;
    assert t[0] == '"' && t[1..] == s;
    UnterminatedQuote(Start.(inQuotes := true), s);
    assert "" + s == s;
    assert [] + [s] == [s];
  }

  // ---------------------------------------------------------------------
  // Writing a table the way a spreadsheet exports it is undone by the parser.

  /** Doubles every quote, the escape `parseCSV` reads back as one quote. */
  function Escape(f: string): string
    decreases |f|
  {
    if |f| == 0 then ""
    else (if f[0] == '"' then "\"\"" else [f[0]]) + Escape(f[1..])
  }

  function Quote(f: string): string {
    "\"" + Escape(f) + "\""
  }

  /** A field that may be written without quotes: no quote, comma or line break. */
  predicate Plain(f: string) {
    '"' !in f && ',' !in f && '\n' !in f && '\r' !in f
  }

  /** One field, bare when the writer asks for it and the field allows it,
      otherwise quoted. */
  function Cell(f: string, bare: bool): string {
    if bare && Plain(f) then f else Quote(f)
  }

  /** The writer's choice for the first field of a row; missing means quoted. */
  function FirstChoice(bare: seq<bool>): bool {
    |bare| > 0 && bare[0]
  }

  /** The writer's choices for the first row of a table; missing means quoted. */
  function RowChoices(bare: seq<seq<bool>>): seq<bool> {
    if |bare| > 0 then bare[0] else []
  }

  function LaterChoices(bare: seq<bool>): seq<bool> {
    if |bare| > 0 then bare[1..] else []
  }

  /** The writer's choices for the rows after the first. */
  function LaterRows(bare: seq<seq<bool>>): seq<seq<bool>> {
    if |bare| > 0 then bare[1..] else []
  }

  /** One line of fields separated by commas; `bare[i]` asks for field i
      to be written without quotes. */
  function EncodeRow(r: Row, bare: seq<bool>): string
    decreases |r|
  {
    if |r| == 0 then ""
    else if |r| == 1 then Cell(r[0], FirstChoice(bare))
    else Cell(r[0], FirstChoice(bare)) + "," + EncodeRow(r[1..], LaterChoices(bare))
  }

  /** The end of a written line: CR LF when asked for, otherwise LF. */
  function LineEnd(crlf: bool): string {
    if crlf then "\r\n" else "\n"
  }

  /** Every row written as a line, row i with the field choices `bare[i]`
      and ending in CR LF when `crlf[i]` holds; missing choices quote every
      field and end the line with LF. */
  function Encode(rows: seq<Row>, bare: seq<seq<bool>>, crlf: seq<bool>): string
    decreases |rows|
  {
    if |rows| == 0 then ""
    else
      EncodeRow(rows[0], RowChoices(bare)) + LineEnd(FirstChoice(crlf))
      + Encode(rows[1..], LaterRows(bare), LaterChoices(crlf))
  }

  lemma {:induction false} ScanEscaped(st: State, f: string, rest: string)
    requires st.inQuotes
    requires |rest| == 0 || rest[0] != '"'
    ensures Scan(st, Escape(f) + "\"" + rest) == Scan(st.(cur := st.cur + f, inQuotes := false), rest)
    decreases |f|
  {
    var s := Escape(f) + "\"" + rest;
    if |f| == 0 {
      assert s == "\"" + rest;
      assert s[0] == '"' && s[1..] == rest;
      assert st.cur + f == st.cur;
    } else if f[0] == '"' {
      var tail := Escape(f[1..]) + "\"" + rest;
      assert s == "\"\"" + tail;
      assert s[0] == '"' && s[1] == '"' && s[2..] == tail;
      ScanEscaped(st.(cur := st.cur + "\""), f[1..], rest);
      assert st.cur + "\"" + f[1..] == st.cur + f;
    } else {
      var tail := Escape(f[1..]) + "\"" + rest;
      assert s == [f[0]] + tail;
      assert s[0] == f[0] && s[1..] == tail;
      ScanEscaped(st.(cur := st.cur + [f[0]]), f[1..], rest);
      assert st.cur + [f[0]] + f[1..] == st.cur + f;
    }
  }

  /** An opening quote outside quotes only switches quoting on. */
  lemma ScanOpenQuote(st: State, s: string)
    requires |s| > 0 && s[0] == '"' && !st.inQuotes
    ensures Scan(st, s) == Scan(st.(inQuotes := true), s[1..])
  {
  }

  /** A quoted field followed by `rest`, scanned from the start of a field. */
  lemma ScanQuoted(rows: seq<Row>, row: Row, f: string, rest: string)
    requires |rest| == 0 || rest[0] != '"'
    ensures Scan(State(rows, row, "", false), Quote(f) + rest) == Scan(State(rows, row, f, false), rest)
  {
    var body := Escape(f) + "\"" + rest;
    calc {
      Scan(State(rows, row, "", false), Quote(f) + rest);
    == { assert Quote(f) + rest == "\"" + body; }
      Scan(State(rows, row, "", false), "\"" + body);
    == { ScanOpenQuote(State(rows, row, "", false), "\"" + body);
         assert ("\"" + body)[1..] == body; }
      Scan(State(rows, row, "", true), body);
    == { ScanEscaped(State(rows, row, "", true), f, rest); assert "" + f == f; }
      Scan(State(rows, row, f, false), rest);
    }
  }

  /** Outside quotes, the characters of a plain field only extend the open field. */
  lemma {:induction false} ScanPlain(st: State, f: string, rest: string)
    requires !st.inQuotes && Plain(f)
    ensures Scan(st, f + rest) == Scan(st.(cur := st.cur + f), rest)
    decreases |f|
  {
    var s := f + rest;
    if |f| == 0 {
      assert s == rest;
      assert st.cur + f == st.cur;
    } else {
      assert s[0] == f[0] && s[1..] == f[1..] + rest;
      assert f[0] in f;
      assert f == [f[0]] + f[1..];
      ScanPlain(st.(cur := st.cur + [f[0]]), f[1..], rest);
      assert st.cur + [f[0]] + f[1..] == st.cur + f;
    }
  }

  /** A field, bare or quoted, followed by `rest`, scanned from the start of a field. */
  lemma ScanCell(rows: seq<Row>, row: Row, f: string, bare: bool, rest: string)
    requires |rest| == 0 || rest[0] != '"'
    ensures Scan(State(rows, row, "", false), Cell(f, bare) + rest) == Scan(State(rows, row, f, false), rest)
  {
    if bare && Plain(f) {
      ScanPlain(State(rows, row, "", false), f, rest);
      assert "" + f == f;
    } else {
      ScanQuoted(rows, row, f, rest);
    }
  }

  /** `rows` followed by `r` when `r` is not blank: what closing `r` adds. */
  function Kept(rows: seq<Row>, r: Row): seq<Row> {
    rows + (if NonBlank(r) then [r] else [])
  }

  /** A line break outside quotes closes the open row. */
  lemma ScanBreak(st: State, c: char, tail: string)
    requires IsBreak(c) && !st.inQuotes
    ensures Scan(st, [c] + tail) == Scan(EndRow(st), tail)
  {
    assert ([c] + tail)[0] == c && ([c] + tail)[1..] == tail;
  }

  /** Closing a row outside quotes keeps it exactly when it is not blank. */
  lemma EndRowKept(rows: seq<Row>, row: Row, f: string)
    ensures EndRow(State(rows, row, f, false)) == State(Kept(rows, row + [f]), [], "", false)
  {
    if !NonBlank(row + [f]) {
      assert row == [] && f == "";
      assert rows + [] == rows;
    }
  }

  /** A line end closes the open row; the LF of a CR LF then meets an
      empty row and does nothing. */
  lemma ScanLineEnd(rows: seq<Row>, row: Row, f: string, crlf: bool, rest: string)
    ensures Scan(State(rows, row, f, false), LineEnd(crlf) + rest)
         == Scan(State(Kept(rows, row + [f]), [], "", false), rest)
  {
    var closed := State(Kept(rows, row + [f]), [], "", false);
    EndRowKept(rows, row, f);
    if crlf {
      assert LineEnd(crlf) + rest == ['\r'] + (['\n'] + rest);
      ScanBreak(State(rows, row, f, false), '\r', ['\n'] + rest);
      ScanBreak(closed, '\n', rest);
      assert EndRow(closed) == closed;
    } else {
      assert LineEnd(crlf) + rest == ['\n'] + rest;
      ScanBreak(State(rows, row, f, false), '\n', rest);
    }
  }

  /** The last field of a row and its line end close the row. */
  lemma ScanLastCell(rows: seq<Row>, row: Row, f: string, bare: bool, crlf: bool, rest: string)
    ensures Scan(State(rows, row, "", false), Cell(f, bare) + LineEnd(crlf) + rest)
         == Scan(State(Kept(rows, row + [f]), [], "", false), rest)
  {
    StringAssoc(Cell(f, bare), LineEnd(crlf), rest);
    assert (LineEnd(crlf) + rest)[0] == LineEnd(crlf)[0];
    ScanCell(rows, row, f, bare, LineEnd(crlf) + rest);
    ScanLineEnd(rows, row, f, crlf, rest);
  }

  lemma EncodeRowCons(r: Row, bare: seq<bool>)
    requires |r| > 1
    ensures EncodeRow(r, bare) == Cell(r[0], FirstChoice(bare)) + "," + EncodeRow(r[1..], LaterChoices(bare))
  {
  }

  /** A comma outside quotes closes the open field. */
  lemma ScanComma(rows: seq<Row>, row: Row, f: string, tail: string)
    ensures Scan(State(rows, row, f, false), "," + tail) == Scan(State(rows, row + [f], "", false), tail)
  {
    assert ("," + tail)[0] == ',' && ("," + tail)[1..] == tail;
  }

  lemma StringAssoc(a: string, b: string, c: string)
    ensures a + b + c == a + (b + c)
  {
  }

  /** A field that is not the last one, with its comma, joins the open row. */
  lemma ScanInnerCell(rows: seq<Row>, row: Row, f: string, bare: bool, tail: string)
    ensures Scan(State(rows, row, "", false), Cell(f, bare) + "," + tail)
         == Scan(State(rows, row + [f], "", false), tail)
  {
    StringAssoc(Cell(f, bare), ",", tail);
    ScanCell(rows, row, f, bare, "," + tail);
    ScanComma(rows, row, f, tail);
  }

  /** A row of two or more fields, with its line end and what follows. */
  lemma EncodeRowLine(r: Row, bare: seq<bool>, crlf: bool, rest: string)
    requires |r| > 1
    ensures EncodeRow(r, bare) + LineEnd(crlf) + rest
         == Cell(r[0], FirstChoice(bare)) + "," + (EncodeRow(r[1..], LaterChoices(bare)) + LineEnd(crlf) + rest)
  {
    EncodeRowCons(r, bare);
  }

  lemma RowCons(row: Row, r: Row)
    requires |r| > 0
    ensures row + [r[0]] + r[1..] == row + r
  {
    assert r == [r[0]] + r[1..];
  }

  lemma {:induction false} ScanEncodedRow(rows: seq<Row>, row: Row, r: Row, bare: seq<bool>, crlf: bool, rest: string)
    requires |r| > 0
    ensures Scan(State(rows, row, "", false), EncodeRow(r, bare) + LineEnd(crlf) + rest)
         == Scan(State(Kept(rows, row + r), [], "", false), rest)
    decreases |r|
  {
    if |r| == 1 {
      assert EncodeRow(r, bare) == Cell(r[0], FirstChoice(bare));
      ScanLastCell(rows, row, r[0], FirstChoice(bare), crlf, rest);
      assert row + r == row + [r[0]];
    } else {
      RowCons(row, r);
      EncodeRowLine(r, bare, crlf, rest);
      ScanInnerCell(rows, row, r[0], FirstChoice(bare), EncodeRow(r[1..], LaterChoices(bare)) + LineEnd(crlf) + rest);
      ScanEncodedRow(rows, row + [r[0]], r[1..], LaterChoices(bare), crlf, rest);
    }
  }

  /** One encoded line, empty or not, scanned at the start of a line. */
  lemma ScanEncodedLine(acc: seq<Row>, r: Row, bare: seq<bool>, crlf: bool, rest: string)
    ensures Scan(State(acc, [], "", false), EncodeRow(r, bare) + LineEnd(crlf) + rest)
         == Scan(State(Kept(acc, r), [], "", false), rest)
  {
    if |r| == 0 {
      assert EncodeRow(r, bare) + LineEnd(crlf) + rest == LineEnd(crlf) + rest;
      ScanLineEnd(acc, [], "", crlf, rest);
      assert Kept(acc, [] + [""]) == acc;
      assert Kept(acc, r) == acc;
    } else {
      ScanEncodedRow(acc, [], r, bare, crlf, rest);
      assert [] + r == r;
    }
  }

  lemma EncodeCons(rows: seq<Row>, bare: seq<seq<bool>>, crlf: seq<bool>)
    requires |rows| > 0
    ensures Encode(rows, bare, crlf)
         == EncodeRow(rows[0], RowChoices(bare)) + LineEnd(FirstChoice(crlf))
            + Encode(rows[1..], LaterRows(bare), LaterChoices(crlf))
  {
  }

  lemma KeptSplit(acc: seq<Row>, r: Row)
    ensures Kept(acc, r) == acc + Kept([], r)
  {
  }

  lemma ConcatAssoc(a: seq<Row>, b: seq<Row>, c: seq<Row>)
    ensures a + b + c == a + (b + c)
  {
  }

  /** Filtering out blank rows row by row. */
  lemma FilterFirst(rows: seq<Row>)
    requires |rows| > 0
    ensures Filter(rows, NonBlank) == Kept([], rows[0]) + Filter(rows[1..], NonBlank)
  {
  }

  lemma KeptFilter(acc: seq<Row>, rows: seq<Row>)
    requires |rows| > 0
    ensures Kept(acc, rows[0]) + Filter(rows[1..], NonBlank) == acc + Filter(rows, NonBlank)
  {
    KeptSplit(acc, rows[0]);
    FilterFirst(rows);
    ConcatAssoc(acc, Kept([], rows[0]), Filter(rows[1..], NonBlank));
  }

  /** The first line of an encoded table closes its first row. */
  lemma ScanEncodedHead(acc: seq<Row>, rows: seq<Row>, bare: seq<seq<bool>>, crlf: seq<bool>)
    requires |rows| > 0
    ensures Scan(State(acc, [], "", false), Encode(rows, bare, crlf))
         == Scan(State(Kept(acc, rows[0]), [], "", false), Encode(rows[1..], LaterRows(bare), LaterChoices(crlf)))
  {
    EncodeCons(rows, bare, crlf);
    ScanEncodedLine(acc, rows[0], RowChoices(bare), FirstChoice(crlf),
      Encode(rows[1..], LaterRows(bare), LaterChoices(crlf)));
  }

  lemma {:induction false} ScanEncoded(acc: seq<Row>, rows: seq<Row>, bare: seq<seq<bool>>, crlf: seq<bool>)
    ensures Scan(State(acc, [], "", false), Encode(rows, bare, crlf)) == acc + Filter(rows, NonBlank)
    decreases |rows|
  {
    if |rows| == 0 {
      assert acc + [] == acc;
    } else {
      ScanEncodedHead(acc, rows, bare, crlf);
      ScanEncoded(Kept(acc, rows[0]), rows[1..], LaterRows(bare), LaterChoices(crlf));
      KeptFilter(acc, rows);
    }
  }

  /** Parsing any table written with commas, each field either bare (when
      it allows it) or quoted with doubled inner quotes, and each line ended
      by LF or by CR LF, gives back its non-blank rows; the table survives
      exactly when none of its rows is blank. */
  lemma RoundTrip(rows: seq<Row>, bare: seq<seq<bool>>, crlf: seq<bool>)
    ensures Parse(Encode(rows, bare, crlf)) == Filter(rows, NonBlank)
    ensures Parse(Encode(rows, bare, crlf)) == rows <==> AllNonBlank(rows)
  {
    ScanEncoded([], rows, bare, crlf);
    assert [] + Filter(rows, NonBlank) == Filter(rows, NonBlank);
    FilterIdentityIff(rows, NonBlank);
  }

  // ---------------------------------------------------------------------
  // Without quotes the scanner splits into lines, then into fields.

  /** The pieces of `s` between separators; `|Split(s, p)|` is one more than
      the number of separators. */
  function Split(s: string, isSep: char -> bool): (parts: seq<string>)
    ensures |parts| == |Filter(s, isSep)| + 1
    decreases |s|
  {
    if |s| == 0 then [""]
    else
      var rest := Split(s[1..], isSep);
      if isSep(s[0]) then [""] + rest else [[s[0]] + rest[0]] + rest[1..]
  }

  function Fields(line: string): Row {
    Split(line, IsComma)
  }

  function FieldsOfLines(lines: seq<string>): seq<Row>
    decreases |lines|
  {
    if |lines| == 0 then [] else [Fields(lines[0])] + FieldsOfLines(lines[1..])
  }

  /** The open row once the rest `line` of the current line is appended to it. */
  function Continue(row: Row, cur: string, line: string): Row {
    var f := Fields(line);
    row + [cur + f[0]] + f[1..]
  }

  lemma SplitCons(c: char, x: string, isSep: char -> bool)
    ensures Split([c] + x, isSep) ==
      if isSep(c) then [""] + Split(x, isSep) else [[c] + Split(x, isSep)[0]] + Split(x, isSep)[1..]
  {
    assert ([c] + x)[0] == c && ([c] + x)[1..] == x;
  }

  /** What scanning quote-free `s` from an open row yields: the rows so far,
      then the non-blank rows among the completed open row and the later lines. */
  function QuoteFreeRows(rows: seq<Row>, row: Row, cur: string, s: string): seq<Row> {
    var ls := Split(s, IsBreak);
    rows + Filter([Continue(row, cur, ls[0])] + FieldsOfLines(ls[1..]), NonBlank)
  }

  lemma QuoteFreeRowsEmpty(rows: seq<Row>, row: Row, cur: string)
    ensures Continue(row, cur, "") == row + [cur]
    ensures QuoteFreeRows(rows, row, cur, "") == EndRow(State(rows, row, cur, false)).rows
  {
    assert Fields("") == [""] && Fields("")[1..] == [];
    assert cur + "" == cur;
    assert row + [cur] + [] == row + [cur];
    assert Continue(row, cur, "") == row + [cur];
    assert rows + [] == rows;
  }

  lemma QuoteFreeRowsComma(rows: seq<Row>, row: Row, cur: string, s: string)
    requires |s| > 0 && IsComma(s[0])
    ensures QuoteFreeRows(rows, row, cur, s) == QuoteFreeRows(rows, row + [cur], "", s[1..])
  {
    var c := s[0];
    var ls := Split(s, IsBreak);
    var ls' := Split(s[1..], IsBreak);
    assert ls == [[c] + ls'[0]] + ls'[1..];
    SplitCons(c, ls'[0], IsComma);
    var g := Fields(ls'[0]);
    assert Fields(ls[0]) == [""] + g;
    assert g == [g[0]] + g[1..];
    assert cur + "" == cur && "" + g[0] == g[0];
    assert Continue(row, cur, ls[0]) == Continue(row + [cur], "", ls'[0]);
  }

  /** A character that is not a comma extends the open field. */
  lemma ContinueChar(row: Row, cur: string, c: char, line: string)
    requires !IsComma(c)
    ensures Continue(row, cur, [c] + line) == Continue(row, cur + [c], line)
  {
    SplitCons(c, line, IsComma);
    var g := Fields(line);
    assert Fields([c] + line) == [[c] + g[0]] + g[1..];
    assert cur + ([c] + g[0]) == cur + [c] + g[0];
  }

  lemma QuoteFreeRowsChar(rows: seq<Row>, row: Row, cur: string, s: string)
    requires |s| > 0 && !IsComma(s[0]) && !IsBreak(s[0])
    ensures QuoteFreeRows(rows, row, cur, s) == QuoteFreeRows(rows, row, cur + [s[0]], s[1..])
  {
    var c := s[0];
    var ls := Split(s, IsBreak);
    var ls' := Split(s[1..], IsBreak);
    assert ls == [[c] + ls'[0]] + ls'[1..] by {
      assert s == [c] + s[1..];
      SplitCons(c, s[1..], IsBreak);
    }
    ContinueChar(row, cur, c, ls'[0]);
  }

  /** A fresh row continued by a line is just that line's fields. */
  lemma ContinueFresh(line: string)
    ensures Continue([], "", line) == Fields(line)
  {
    var g := Fields(line);
    assert "" + g[0] == g[0] && g == [g[0]] + g[1..];
  }

  /** Closing a row keeps it exactly when it is not blank. */
  lemma EndRowKeepsNonBlank(rows: seq<Row>, row: Row, cur: string)
    ensures EndRow(State(rows, row, cur, false)).rows == rows + Filter([row + [cur]], NonBlank)
  {
    var r := row + [cur];
    assert [r][1..] == [];
    assert NonBlank(r) <==> |cur| > 0 || |row| > 0 by {
      if |row| == 0 {
        assert r == [cur];
      }
    }
    if !NonBlank(r) {
      assert rows + [] == rows;
    }
  }

  lemma EndRowFilter(rows: seq<Row>, row: Row, cur: string, later: seq<Row>)
    ensures rows + Filter([row + [cur]] + later, NonBlank)
         == EndRow(State(rows, row, cur, false)).rows + Filter(later, NonBlank)
  {
    FilterConcat([row + [cur]], later, NonBlank);
    EndRowKeepsNonBlank(rows, row, cur);
  }

  lemma QuoteFreeRowsBreak(rows: seq<Row>, row: Row, cur: string, s: string)
    requires |s| > 0 && IsBreak(s[0])
    ensures QuoteFreeRows(rows, row, cur, s) == QuoteFreeRows(EndRow(State(rows, row, cur, false)).rows, [], "", s[1..])
  {
    var ls := Split(s, IsBreak);
    var ls' := Split(s[1..], IsBreak);
    assert ls[0] == "" && ls[1..] == ls';
    QuoteFreeRowsEmpty(rows, row, cur);
    ContinueFresh(ls'[0]);
    assert FieldsOfLines(ls') == [Continue([], "", ls'[0])] + FieldsOfLines(ls'[1..]);
    EndRowFilter(rows, row, cur, FieldsOfLines(ls'));
  }

  lemma {:induction false} ScanQuoteFree(rows: seq<Row>, row: Row, cur: string, s: string)
    requires '"' !in s
    ensures Scan(State(rows, row, cur, false), s) == QuoteFreeRows(rows, row, cur, s)
    decreases |s|
  {
    if |s| == 0 {
      QuoteFreeRowsEmpty(rows, row, cur);
    } else {
      assert s[0] != '"' && '"' !in s[1..];
      if IsComma(s[0]) {
        ScanQuoteFree(rows, row + [cur], "", s[1..]);
        QuoteFreeRowsComma(rows, row, cur, s);
      } else if IsBreak(s[0]) {
        var st' := EndRow(State(rows, row, cur, false));
        ScanQuoteFree(st'.rows, [], "", s[1..]);
        QuoteFreeRowsBreak(rows, row, cur, s);
      } else {
        ScanQuoteFree(rows, row, cur + [s[0]], s[1..]);
        QuoteFreeRowsChar(rows, row, cur, s);
      }
    }
  }

  /** Quote-free text parses to the comma-split fields of its CR- or
      LF-separated lines, blank lines left out: a CRLF pair is one break and
      a row has one more field than its line has commas. */
  lemma QuoteFreeParse(text: string)
    requires '"' !in text
    ensures Parse(text) == Filter(FieldsOfLines(Split(text, IsBreak)), NonBlank)
  {
    var ls := Split(text, IsBreak);
    ScanQuoteFree([], [], "", text);
    ContinueFresh(ls[0]);
    assert [Fields(ls[0])] + FieldsOfLines(ls[1..]) == FieldsOfLines(ls);
    assert [] + Filter(FieldsOfLines(ls), NonBlank) == Filter(FieldsOfLines(ls), NonBlank);
  }
}
