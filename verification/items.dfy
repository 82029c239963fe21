/** The per-wine projection of `main` in app.js: which records are shown and
    the four display fields derived from each. */
module Items {
  import opened Seqs
  import opened Text
  import opened Records

  /** A displayed wine: name, subtitle, price line and short note. */
  datatype MenuItem = MenuItem(nombre: string, sub: string, precio: string, nota: string)

  /** The separator the page puts between parts of a line. */
  const Dot := " · "

  /** A record is shown unless its `Disponible` column reads "no" in any case. */
  predicate IsAvailable(rec: Record) {
    ToUpper(Field(rec, Disponible)) != "NO"
  }

  /** Hidden records are exactly those whose trimmed `Disponible` is one of
      the four spellings of "no"; a record without the column is shown. */
  lemma AvailableIff(rec: Record)
    ensures !IsAvailable(rec) <==> Field(rec, Disponible) in {"NO", "No", "nO", "no"}
    ensures Disponible !in rec ==> IsAvailable(rec)
  {
    UpperIsNoIff(Field(rec, Disponible));
    if Disponible !in rec {
      assert Field(rec, Disponible) == "" by {
        TrimSpec("");
      }
    }
  }

  /** The `visibles` loop: the available records, in order, each as often
      as it occurs in the sheet. */
  function Visible(recs: seq<Record>): (r: seq<Record>)
    ensures forall x :: x in r ==> x in recs && IsAvailable(x)
    ensures forall x :: x in recs && IsAvailable(x) ==> x in r
    ensures forall x :: multiset(r)[x] == if IsAvailable(x) then multiset(recs)[x] else 0
    ensures IsSubseq(r, recs)
  {
    FilterIsSubseq(recs, IsAvailable);
    FilterMultiset(recs, IsAvailable);
    Filter(recs, IsAvailable)
  }

  /** The filter loop over explicit variables. */
  method VisibleRecords(data: seq<Record>) returns (visibles: seq<Record>)
    ensures visibles == Visible(data)
  {
    visibles := [];
    for j := 0 to |data|
      invariant visibles == Filter(data[..j], IsAvailable)
    {
      FilterSnoc(data, j, IsAvailable);
      if IsAvailable(data[j]) {
        visibles := visibles + [data[j]];
      }
    }
    assert data[..|data|] == data;
  }

  /** `norm(v["Vino"]) || "(Sin nombre)"`. */
  function Nombre(rec: Record): string {
    var v := Field(rec, Vino);
    if v == "" then "(Sin nombre)" else v
  }

  /** The name is never empty, and it is the wine's own name whenever that is given. */
  lemma NombreSpec(rec: Record)
    ensures Nombre(rec) != ""
    ensures Nombre(rec) == Field(rec, Vino) <==> Field(rec, Vino) != ""
  {
  }

  /** The non-empty ones of producer, region, grape and vintage, joined by " · ". */
  function Subtitle(rec: Record): string {
    var parts := [Field(rec, Productor), Field(rec, Region), Field(rec, Uva), Field(rec, Cosecha)];
    Join(Filter(parts, NonEmpty), Dot)
  }

  /** The subtitle is empty exactly when all four columns are. */
  lemma SubtitleEmptyIff(rec: Record)
    ensures Subtitle(rec) == "" <==>
      Field(rec, Productor) == "" && Field(rec, Region) == "" && Field(rec, Uva) == "" && Field(rec, Cosecha) == ""
  {
    var parts := [Field(rec, Productor), Field(rec, Region), Field(rec, Uva), Field(rec, Cosecha)];
    var kept := Filter(parts, NonEmpty);
    if |kept| > 0 {
      assert kept[0] in kept;
      assert kept[0] != "";
    } else {
      assert parts[0] in parts && parts[1] in parts && parts[2] in parts && parts[3] in parts;
    }
  }

  /** `toMoney`: a missing or empty value gives ""; a value without digits
      gives itself trimmed; otherwise "$ " and the number its digits spell,
      rendered by `fmt` (the `es-AR` locale formatting). */
  function ToMoney(val: string, fmt: nat -> string): string {
    if val == "" then ""
    else
      var n := Digits(val);
      if n == "" then Trim(val)
      else
        assert AllDigits(n) by {
          forall i | 0 <= i < |n|
            ensures IsDigit(n[i])
          {
            assert n[i] in n;
          }
        }
        "$ " + fmt(DecimalValue(n))
  }

  /** The price is empty exactly for blank input; a value with a digit
      becomes a "$ " amount; a value without one is shown as written. */
  lemma ToMoneySpec(val: string, fmt: nat -> string)
    ensures ToMoney(val, fmt) == "" <==> AllSpace(val)
    ensures HasDigit(val) ==> |ToMoney(val, fmt)| >= 2 && ToMoney(val, fmt)[..2] == "$ "
    ensures !HasDigit(val) ==> ToMoney(val, fmt) == Trim(val)
  {
    DigitsEmptyIff(val);
    if HasDigit(val) {
      var i :| 0 <= i < |val| && IsDigit(val[i]);
      DigitNotSpace(val[i]);
    } else {
      TrimSpec(val);
    }
  }

  /** A value whose digits spell the numeral of `n` prints `n` after "$ ". */
  lemma ToMoneyNumeral(val: string, n: nat, fmt: nat -> string)
    requires Digits(val) == ShowNat(n)
    ensures ToMoney(val, fmt) == "$ " + fmt(n)
  {
    DecimalRoundTrip(n);
    assert val != "" by {
      assert ShowNat(n)[0] in Digits(val);
    }
  }

  /** Two values with the same digits, at least one, give the same price:
      "12.000", "$12000" and "12 000" all print alike. */
  lemma ToMoneySameDigits(a: string, b: string, fmt: nat -> string)
    requires Digits(a) == Digits(b) != ""
    ensures ToMoney(a, fmt) == ToMoney(b, fmt)
  {
  }

  /** A leading zero before the digits does not change the amount. */
  lemma ToMoneyLeadingZero(d: string, fmt: nat -> string)
    requires d != "" && AllDigits(d)
    ensures ToMoney("0" + d, fmt) == ToMoney(d, fmt)
  {
    FilterIdentityIff(d, IsDigit);
    DecimalLeadingZero(d);
    FilterIdentityIff("0" + d, IsDigit);
  }

  /** The price line: both prices joined by " · " when both exist, else the one that does. */
  function Precio(bot: string, copa: string): string {
    if bot != "" && copa != "" then bot + Dot + copa
    else if bot == "" && copa != "" then copa
    else bot
  }

  /** The price line is the non-empty prices joined by " · ". */
  lemma PrecioIsJoin(bot: string, copa: string)
    ensures Precio(bot, copa) == Join(Filter([bot, copa], NonEmpty), Dot)
  {
    assert [bot, copa][1..] == [copa];
  }

  /** The item the page pushes for record `rec`. */
  function ItemOf(rec: Record, fmt: nat -> string): MenuItem {
    var bot := ToMoney(Get(rec, PrecioBotella), fmt);
    var copa := ToMoney(Get(rec, PrecioCopa), fmt);
    MenuItem(Nombre(rec), Subtitle(rec), Precio(bot, copa), Field(rec, NotaCorta))
  }
}
