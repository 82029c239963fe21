/** The whole `.then` body of `main` in app.js: CSV text in, the sections
    handed to `render` out, or the "CSV vacío o inválido" error. */
module Carta {
  import Seqs
  import opened Text
  import Csv
  import opened Records
  import opened Items
  import opened Order
  import opened Grouping

  /** `norm(v["Categoría"]) || "Otros"`. */
  function CategoryOf(rec: Record): string {
    var c := Field(rec, Categoria);
    if c == "" then "Otros" else c
  }

  /** A blank category is filed under "Otros", together with any record
      whose category is literally "Otros"; every other category is kept. */
  lemma CategoryOfSpec(rec: Record)
    ensures CategoryOf(rec) != ""
    ensures CategoryOf(rec) == "Otros" <==> Field(rec, Categoria) in {"", "Otros"}
    ensures Field(rec, Categoria) != "" ==> CategoryOf(rec) == Field(rec, Categoria)
  {
  }

  function EntryOf(rec: Record, fmt: nat -> string): Entry {
    Entry(CategoryOf(rec), ItemOf(rec, fmt))
  }

  /** One entry per record, in order. */
  function Entries(recs: seq<Record>, fmt: nat -> string): (es: seq<Entry>)
    ensures |es| == |recs|
  {
    Seqs.Map(recs, rec => EntryOf(rec, fmt))
  }

  /** Entry i is derived from record i alone. */
  lemma EntriesAt(recs: seq<Record>, fmt: nat -> string)
    ensures forall i :: 0 <= i < |recs| ==> Entries(recs, fmt)[i] == EntryOf(recs[i], fmt)
  {
    Seqs.MapAt(recs, rec => EntryOf(rec, fmt));
  }

  /** The visible records of a table, in menu order. */
  function Ordered(tbl: Table, collate: (string, string) -> int): seq<Record> {
    SortMenu(Visible(tbl.records), collate)
  }

  /** The sections of the menu read from `text`. `collate` stands for
      `localeCompare(_, "es")` and `fmt` for `toLocaleString("es-AR")`. */
  function Menu(text: string, collate: (string, string) -> int, fmt: nat -> string): Result<seq<Section>> {
    match Build(Csv.Parse(text))
    case Failure(e) => Failure(e)
    case Success(tbl) => Success(Sections(GroupAll(Entries(Ordered(tbl, collate), fmt))))
  }

  /** The menu fails exactly when the CSV has fewer than two rows. */
  lemma MenuFailsIff(text: string, collate: (string, string) -> int, fmt: nat -> string)
    ensures Menu(text, collate, fmt).Failure? <==> |Csv.Parse(text)| < 2
    ensures Menu(text, collate, fmt).Failure? ==> Menu(text, collate, fmt).error == EmptyOrInvalidCsv
  {
  }

  /** Every available wine appears exactly once: the sections hold as many
      items as the table has available records. */
  lemma MenuCount(text: string, collate: (string, string) -> int, fmt: nat -> string)
    ensures Menu(text, collate, fmt).Success? ==>
      TotalItems(Menu(text, collate, fmt).value) == |Visible(Build(Csv.Parse(text)).value.records)|
  {
    if Menu(text, collate, fmt).Success? {
      var tbl := Build(Csv.Parse(text)).value;
      var sorted := Ordered(tbl, collate);
      GroupCount(Entries(sorted, fmt));
      assert |multiset(sorted)| == |multiset(Visible(tbl.records))|;
    }
  }

  /** A section for category `c` lists, in menu order, the items of the
      sorted available records filed under `c`; no category appears twice. */
  lemma MenuSections(text: string, collate: (string, string) -> int, fmt: nat -> string)
    ensures Menu(text, collate, fmt).Success? ==>
      forall i :: 0 <= i < |Menu(text, collate, fmt).value| ==>
        Menu(text, collate, fmt).value[i].items ==
          ItemsOf(Entries(Ordered(Build(Csv.Parse(text)).value, collate), fmt), Menu(text, collate, fmt).value[i].categoria)
    ensures Menu(text, collate, fmt).Success? ==>
      forall i, j :: 0 <= i < j < |Menu(text, collate, fmt).value| ==>
        Menu(text, collate, fmt).value[i].categoria != Menu(text, collate, fmt).value[j].categoria
  {
    if Menu(text, collate, fmt).Success? {
      SectionsSpec(Entries(Ordered(Build(Csv.Parse(text)).value, collate), fmt));
    }
  }

  lemma EntriesSnoc(recs: seq<Record>, t: nat, fmt: nat -> string)
    requires t < |recs|
    ensures Entries(recs[..t + 1], fmt) == Entries(recs[..t], fmt) + [EntryOf(recs[t], fmt)]
  {
    assert recs[..t + 1][..t] == recs[..t];
  }

  /** The item derivation of the grouping loop, one entry per record. */
  method MakeEntries(recs: seq<Record>, fmt: nat -> string) returns (es: seq<Entry>)
    ensures es == Entries(recs, fmt)
  {
    es := [];
    for t := 0 to |recs|
      invariant es == Entries(recs[..t], fmt)
    {
      EntriesSnoc(recs, t, fmt);
      es := es + [EntryOf(recs[t], fmt)];
    }
    assert recs[..|recs|] == recs;
  }

  /** The `.then` body over explicit variables: the parser loop, the table
      loops, the filter loop, the sort, the grouping loop and the sections
      loop together compute `Menu`. */
  method BuildMenu(text: string, collate: (string, string) -> int, fmt: nat -> string)
    returns (r: Result<seq<Section>>)
    ensures r == Menu(text, collate, fmt)
  {
    var rows := Csv.ParseCsv(text);
    var table := BuildTable(rows);
    if table.Failure? {
      return Failure(table.error);
    }
    var visibles := VisibleRecords(table.value.records);
    visibles := SortMenu(visibles, collate);
    var es := MakeEntries(visibles, fmt);
    var g := GroupEntries(es);
    var sections := MakeSections(g);
    return Success(sections);
  }
}
