/** The record building in `main` of app.js: the trimmed first row names the
    columns, every later row with some text becomes a header-to-value map. */
module Records {
  import opened Seqs
  import opened Text
  import Csv

  /** A plain object built as `obj[header] = value`. */
  type Record = map<string, string>

  datatype Table = Table(headers: seq<string>, records: seq<Record>)

  /** The one error the pipeline raises: "CSV vacío o inválido". */
  datatype Error = EmptyOrInvalidCsv

  datatype Result<+T> = Success(value: T) | Failure(error: Error)

  /** The column names the page reads. */
  const Disponible := "Disponible"
  const Categoria := "Categoría"
  const Orden := "Orden"
  const Vino := "Vino"
  const Productor := "Productor"
  const Region := "Región"
  const Uva := "Uva"
  const Cosecha := "Cosecha"
  const NotaCorta := "Nota corta"
  const PrecioBotella := "Precio botella"
  const PrecioCopa := "Precio copa"

  /** `row[c]` where reading past the end gives `undefined`, which `norm` turns into "". */
  function FieldAt(row: Csv.Row, c: nat): string {
    if c < |row| then row[c] else ""
  }

  /** `rec[key]`, with a missing key read as "". */
  function Get(rec: Record, key: string): string {
    if key in rec then rec[key] else ""
  }

  /** `norm(rec[key])`. */
  function Field(rec: Record, key: string): string {
    Trim(Get(rec, key))
  }

  function TrimAll(row: Csv.Row): (r: seq<string>)
    ensures |r| == |row|
    ensures forall i :: 0 <= i < |row| ==> r[i] == Trim(row[i])
  {
    seq(|row|, i requires 0 <= i < |row| => Trim(row[i]))
  }

  /** Every column name comes out trimmed, and a header row that is already
      trimmed is kept as it is, so trimming the names again changes nothing. */
  lemma HeadersTrimmed(row: Csv.Row)
    ensures forall i :: 0 <= i < |row| ==> IsTrimmed(TrimAll(row)[i])
    ensures (forall i :: 0 <= i < |row| ==> IsTrimmed(row[i])) ==> TrimAll(row) == row
    ensures TrimAll(TrimAll(row)) == TrimAll(row)
  {
    forall i | 0 <= i < |row|
      ensures IsTrimmed(TrimAll(row)[i])
      ensures IsTrimmed(row[i]) ==> TrimAll(row)[i] == row[i]
    {
      TrimSpec(row[i]);
    }
    forall i | 0 <= i < |row|
      ensures TrimAll(TrimAll(row))[i] == TrimAll(row)[i]
    {
      TrimIdempotent(row[i]);
    }
  }

  /** The `hasAny` test: some field of the row trims to a non-empty string. */
  predicate HasContent(row: Csv.Row) {
    exists k :: 0 <= k < |row| && Trim(row[k]) != ""
  }

  /** Column `c` is the last of the first `n` columns to carry its name. */
  predicate IsLastOf(headers: seq<string>, n: nat, c: int) {
    0 <= c < n <= |headers| && forall d :: c < d < n ==> headers[d] != headers[c]
  }

  /** The object after the first `n` assignments `obj[headers[c]] = norm(row[c])`. */
  function RecordPrefix(headers: seq<string>, row: Csv.Row, n: nat): Record
    requires n <= |headers|
    decreases n
  {
    if n == 0 then map[]
    else RecordPrefix(headers, row, n - 1)[headers[n - 1] := Trim(FieldAt(row, n - 1))]
  }

  function RecordOf(headers: seq<string>, row: Csv.Row): Record {
    RecordPrefix(headers, row, |headers|)
  }

  lemma {:induction false} RecordPrefixKey(headers: seq<string>, row: Csv.Row, n: nat, h: string)
    requires n <= |headers|
    ensures h in RecordPrefix(headers, row, n) <==> h in headers[..n]
    decreases n
  {
    if n > 0 {
      RecordPrefixKey(headers, row, n - 1, h);
      assert headers[..n] == headers[..n - 1] + [headers[n - 1]];
    }
  }

  lemma {:induction false} RecordPrefixValue(headers: seq<string>, row: Csv.Row, n: nat, c: nat)
    requires IsLastOf(headers, n, c)
    ensures headers[c] in RecordPrefix(headers, row, n)
    ensures RecordPrefix(headers, row, n)[headers[c]] == Trim(FieldAt(row, c))
    decreases n
  {
    if c < n - 1 {
      assert IsLastOf(headers, n - 1, c);
      RecordPrefixValue(headers, row, n - 1, c);
    }
  }

  /** A record's keys are exactly the header names, and the value under a
      name is the trimmed field of the last column carrying it, "" past the
      end of the row. */
  lemma RecordShape(headers: seq<string>, row: Csv.Row)
    ensures forall h :: h in RecordOf(headers, row) <==> h in headers
    ensures forall c :: IsLastOf(headers, |headers|, c) ==>
      headers[c] in RecordOf(headers, row) && RecordOf(headers, row)[headers[c]] == Trim(FieldAt(row, c))
  {
    assert headers[..|headers|] == headers;
    forall h
      ensures h in RecordOf(headers, row) <==> h in headers
    {
      RecordPrefixKey(headers, row, |headers|, h);
    }
    forall c | IsLastOf(headers, |headers|, c)
      ensures headers[c] in RecordOf(headers, row) && RecordOf(headers, row)[headers[c]] == Trim(FieldAt(row, c))
    {
      RecordPrefixValue(headers, row, |headers|, c);
    }
  }

  /** The records of `rows`, one per row, in order. */
  function RecordsOf(headers: seq<string>, rows: seq<Csv.Row>): (rs: seq<Record>)
    ensures |rs| == |rows|
    ensures forall i :: 0 <= i < |rows| ==> rs[i] == RecordOf(headers, rows[i])
  {
    seq(|rows|, i requires 0 <= i < |rows| => RecordOf(headers, rows[i]))
  }

  lemma RecordsOfConcat(headers: seq<string>, a: seq<Csv.Row>, b: seq<Csv.Row>)
    ensures RecordsOf(headers, a + b) == RecordsOf(headers, a) + RecordsOf(headers, b)
  {
  }

  /** The `data` array after the data-row loop has seen `rows`. */
  function DataRecords(headers: seq<string>, rows: seq<Csv.Row>): seq<Record>
    decreases |rows|
  {
    if |rows| == 0 then []
    else
      var last := rows[|rows| - 1];
      DataRecords(headers, rows[..|rows| - 1])
        + (if HasContent(last) then [RecordOf(headers, last)] else [])
  }

  /** The data rows with content, in order, each turned into its record. */
  lemma {:induction false} DataRecordsKeepsContentRows(headers: seq<string>, rows: seq<Csv.Row>)
    ensures DataRecords(headers, rows) == RecordsOf(headers, Filter(rows, HasContent))
    decreases |rows|
  {
    if |rows| > 0 {
      var init := rows[..|rows| - 1];
      var last := rows[|rows| - 1];
      DataRecordsKeepsContentRows(headers, init);
      assert rows == init + [last];
      FilterConcat(init, [last], HasContent);
      assert Filter([last], HasContent) == if HasContent(last) then [last] else [];
      RecordsOfConcat(headers, Filter(init, HasContent), Filter([last], HasContent));
    }
  }

  /** The table of the CSV rows: fewer than two rows is the error; otherwise the headers
      are the trimmed first row and the records are those of the data rows
      with content, in order. */
  function Build(rows: seq<Csv.Row>): (r: Result<Table>)
    ensures r.Failure? <==> |rows| < 2
    ensures r.Success? ==>
      && |r.value.headers| == |rows[0]|
      && (forall i :: 0 <= i < |rows[0]| ==> r.value.headers[i] == Trim(rows[0][i]))
      && r.value.records == RecordsOf(r.value.headers, Filter(rows[1..], HasContent))
  {
    if |rows| < 2 then Failure(EmptyOrInvalidCsv)
    else
      var headers := TrimAll(rows[0]);
      DataRecordsKeepsContentRows(headers, rows[1..]);
      Success(Table(headers, DataRecords(headers, rows[1..])))
  }

  /** The `hasAny` loop, which stops at the first field with text. */
  method RowHasAny(rr: Csv.Row) returns (hasAny: bool)
    ensures hasAny == HasContent(rr)
  {
    hasAny := false;
    var k := 0;
    while k < |rr|
      invariant 0 <= k <= |rr|
      invariant forall j :: 0 <= j < k ==> Trim(rr[j]) == ""
      decreases |rr| - k
    {
      if Trim(rr[k]) != "" {
        hasAny := true;
        return;
      }
      k := k + 1;
    }
  }

  /** The loop that fills the record object `obj`. */
  method MakeRecord(headers: seq<string>, rr: Csv.Row) returns (obj: Record)
    ensures obj == RecordOf(headers, rr)
  {
    obj := map[];
    for c := 0 to |headers|
      invariant obj == RecordPrefix(headers, rr, c)
    {
      obj := obj[headers[c] := Trim(FieldAt(rr, c))];
    }
  }

  /** The header loop and the data loop over explicit variables compute `Build`. */
  method BuildTable(rows: seq<Csv.Row>) returns (r: Result<Table>)
    ensures r == Build(rows)
  {
    if |rows| < 2 {
      return Failure(EmptyOrInvalidCsv);
    }
    var headers: seq<string> := [];
    for h := 0 to |rows[0]|
      invariant headers == TrimAll(rows[0][..h])
    {
      assert rows[0][..h + 1] == rows[0][..h] + [rows[0][h]];
      headers := headers + [Trim(rows[0][h])];
    }
    assert rows[0][..|rows[0]|] == rows[0];
    var data: seq<Record> := [];
    for r := 1 to |rows|
      invariant data == DataRecords(headers, rows[1..r])
    {
      var rr := rows[r];
      assert rows[1..r + 1][..r - 1] == rows[1..r];
      assert rows[1..r + 1][r - 1] == rr;
      var hasAny := RowHasAny(rr);
      if hasAny {
        var obj := MakeRecord(headers, rr);
        data := data + [obj];
      }
    }
    assert rows[1..|rows|] == rows[1..];
    return Success(Table(headers, data));
  }
}
