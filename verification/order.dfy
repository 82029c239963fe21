/** The comparator of `visibles.sort` in app.js: by category under the
    locale collation, then by the number in `Orden`, 9999 when it is empty. */
module Order {
  import opened Text
  import opened Records
  import opened Sorting

  /** A JavaScript number as far as the comparator uses it: an integer or NaN. */
  datatype Num = Num(n: int) | NaN

  /** `Number(s)` for a trimmed string: "" is 0, an optionally signed run
      of decimal digits is its value, and every other string is NaN. */
  function NumberOf(s: string): Num {
    if s == "" then Num(0)
    else if AllDigits(s) then Num(DecimalValue(s))
    else if |s| > 1 && (s[0] == '+' || s[0] == '-') && AllDigits(s[1..]) then
      Num(if s[0] == '-' then 0 - DecimalValue(s[1..]) else DecimalValue(s[1..]))
    else NaN
  }

  /** `Number(norm(rec["Orden"]) || 9999)`. */
  function OrdenNumber(rec: Record): Num {
    var o := Field(rec, Orden);
    if o == "" then Num(9999) else NumberOf(o)
  }

  /** A record whose `Orden` is the numeral of `n` sorts at `n`. */
  lemma OrdenOfNumeral(rec: Record, n: nat)
    requires Get(rec, Orden) == ShowNat(n)
    ensures OrdenNumber(rec) == Num(n)
  {
    var s := ShowNat(n);
    DecimalRoundTrip(n);
    DigitNotSpace(s[0]);
    DigitNotSpace(s[|s| - 1]);
    TrimSpec(s);
  }

  /** A record with a blank or missing `Orden` sorts at 9999. */
  lemma OrdenBlank(rec: Record)
    requires AllSpace(Get(rec, Orden))
    ensures OrdenNumber(rec) == Num(9999)
  {
    TrimSpec(Get(rec, Orden));
  }

  /** The two values the comparator reads from a record. */
  datatype SortKey = SortKey(categoria: string, orden: Num)

  function KeyOf(rec: Record): SortKey {
    SortKey(Field(rec, Categoria), OrdenNumber(rec))
  }

  /** `oa - ob`, NaN when either side is NaN. */
  function Minus(a: Num, b: Num): Num {
    if a.Num? && b.Num? then Num(a.n - b.n) else NaN
  }

  /** The comparator's value: the collation of distinct categories, else the
      difference of the `Orden` numbers. */
  function Compare(a: SortKey, b: SortKey, collate: (string, string) -> int): Num {
    if a.categoria != b.categoria then Num(collate(a.categoria, b.categoria))
    else Minus(a.orden, b.orden)
  }

  /** `a` may stay ahead of `b`: the comparator is not positive, where a NaN
      result counts as 0 as `Array.prototype.sort` prescribes. */
  function Precedes(collate: (string, string) -> int): (SortKey, SortKey) -> bool {
    (a: SortKey, b: SortKey) => var c := Compare(a, b, collate); c.NaN? || c.n <= 0
  }

  /** What `localeCompare` is assumed to be on category names: a strict
      total order, zero only on equal strings. */
  ghost predicate IsCollation(collate: (string, string) -> int) {
    && (forall a, b :: a != b ==> collate(a, b) != 0)
    && (forall a, b :: collate(a, b) < 0 <==> collate(b, a) > 0)
    && (forall a, b, c :: collate(a, b) < 0 && collate(b, c) < 0 ==> collate(a, c) < 0)
  }

  /** Lexicographic comparison by code point: a witness that the collation
      hypothesis can be met. */
  function CodePointCompare(a: string, b: string): int
    decreases |a|
  {
    if |a| == 0 && |b| == 0 then 0
    else if |a| == 0 then -1
    else if |b| == 0 then 1
    else if a[0] < b[0] then -1
    else if a[0] > b[0] then 1
    else CodePointCompare(a[1..], b[1..])
  }

  lemma {:induction false} CodePointDistinct(a: string, b: string)
    ensures CodePointCompare(a, b) == 0 <==> a == b
    decreases |a|
  {
    if |a| > 0 && |b| > 0 && a[0] == b[0] {
      CodePointDistinct(a[1..], b[1..]);
      assert a == [a[0]] + a[1..] && b == [b[0]] + b[1..];
    }
  }

  lemma {:induction false} CodePointAntisymmetric(a: string, b: string)
    ensures CodePointCompare(a, b) < 0 <==> CodePointCompare(b, a) > 0
    decreases |a|
  {
    if |a| > 0 && |b| > 0 && a[0] == b[0] {
      CodePointAntisymmetric(a[1..], b[1..]);
    }
  }

  lemma {:induction false} CodePointTransitive(a: string, b: string, c: string)
    requires CodePointCompare(a, b) < 0 && CodePointCompare(b, c) < 0
    ensures CodePointCompare(a, c) < 0
    decreases |a|
  {
    if |a| > 0 && |b| > 0 && |c| > 0 && a[0] == b[0] && b[0] == c[0] {
      CodePointTransitive(a[1..], b[1..], c[1..]);
    }
  }

  /** Code-point comparison is a collation. */
  lemma CodePointIsCollation()
    ensures IsCollation(CodePointCompare)
  {
    forall a, b | a != b
      ensures CodePointCompare(a, b) != 0
    {
      CodePointDistinct(a, b);
    }
    forall a, b
      ensures CodePointCompare(a, b) < 0 <==> CodePointCompare(b, a) > 0
    {
      CodePointAntisymmetric(a, b);
    }
    forall a, b, c | CodePointCompare(a, b) < 0 && CodePointCompare(b, c) < 0
      ensures CodePointCompare(a, c) < 0
    {
      CodePointTransitive(a, b, c);
    }
  }

  /** Every record's `Orden` is a number, so no comparison yields NaN. */
  ghost predicate NumericOrden(recs: seq<Record>) {
    forall x :: x in recs ==> OrdenNumber(x).Num?
  }

  /** The sorted `visibles`. */
  function SortMenu(recs: seq<Record>, collate: (string, string) -> int): (r: seq<Record>)
    ensures multiset(r) == multiset(recs)
  {
    SortPermutation(recs, KeyOf, Precedes(collate));
    Sort(recs, KeyOf, Precedes(collate))
  }

  /** Every key may stay ahead of itself, whatever `collate` is. */
  lemma PrecedesReflexive(recs: seq<Record>, collate: (string, string) -> int)
    ensures ReflexiveOn(recs, KeyOf, Precedes(collate))
  {
  }

  /** Under a collation and numeric `Orden` values, `Precedes` is a total
      preorder that only ties equal keys. */
  lemma PrecedesTotalPreorder(recs: seq<Record>, collate: (string, string) -> int)
    requires IsCollation(collate) && NumericOrden(recs)
    ensures TotalPreorderOn(recs, KeyOf, Precedes(collate))
    ensures AntisymmetricOn(recs, KeyOf, Precedes(collate))
  {
    var le := Precedes(collate);
    forall x, y | x in recs && y in recs
      ensures le(KeyOf(x), KeyOf(y)) || le(KeyOf(y), KeyOf(x))
    {
      assert OrdenNumber(x).Num? && OrdenNumber(y).Num?;
    }
    forall x, y, z | x in recs && y in recs && z in recs && le(KeyOf(x), KeyOf(y)) && le(KeyOf(y), KeyOf(z))
      ensures le(KeyOf(x), KeyOf(z))
    {
      assert OrdenNumber(x).Num? && OrdenNumber(y).Num? && OrdenNumber(z).Num?;
      TransitiveStep(KeyOf(x), KeyOf(y), KeyOf(z), collate);
    }
    forall x, y | x in recs && y in recs && le(KeyOf(x), KeyOf(y)) && le(KeyOf(y), KeyOf(x))
      ensures KeyOf(x) == KeyOf(y)
    {
      assert OrdenNumber(x).Num? && OrdenNumber(y).Num?;
    }
  }

  lemma TransitiveStep(a: SortKey, b: SortKey, c: SortKey, collate: (string, string) -> int)
    requires IsCollation(collate)
    requires a.orden.Num? && b.orden.Num? && c.orden.Num?
    requires Precedes(collate)(a, b) && Precedes(collate)(b, c)
    ensures Precedes(collate)(a, c)
  {
    var ca, cb, cc := a.categoria, b.categoria, c.categoria;
    if ca != cb {
      assert collate(ca, cb) < 0;
    }
    if cb != cc {
      assert collate(cb, cc) < 0;
    }
  }

  /** Under a collation and numeric `Orden` values, the menu is in order:
      each record may precede every later one. */
  lemma SortMenuSorted(recs: seq<Record>, collate: (string, string) -> int)
    requires IsCollation(collate) && NumericOrden(recs)
    ensures SortedBy(SortMenu(recs, collate), KeyOf, Precedes(collate))
  {
    PrecedesTotalPreorder(recs, collate);
    SortSorted(recs, KeyOf, Precedes(collate));
  }

  /** Records with the same category and `Orden` keep the order of the sheet. */
  lemma SortMenuStable(recs: seq<Record>, collate: (string, string) -> int, k: SortKey)
    ensures WithKey(SortMenu(recs, collate), KeyOf, k) == WithKey(recs, KeyOf, k)
  {
    PrecedesReflexive(recs, collate);
    SortStable(recs, KeyOf, Precedes(collate), k);
  }

  /** Any rearrangement of the records that is in order and keeps ties in
      sheet order is `SortMenu`: the result does not depend on which stable
      sorting algorithm the engine uses. */
  lemma SortMenuUnique(recs: seq<Record>, u: seq<Record>, collate: (string, string) -> int)
    requires IsCollation(collate) && NumericOrden(recs)
    requires multiset(u) == multiset(recs)
    requires SortedBy(u, KeyOf, Precedes(collate))
    requires forall k :: WithKey(u, KeyOf, k) == WithKey(recs, KeyOf, k)
    ensures u == SortMenu(recs, collate)
  {
    var t := SortMenu(recs, collate);
    SortMenuSorted(recs, collate);
    forall k
      ensures WithKey(t, KeyOf, k) == WithKey(u, KeyOf, k)
    {
      SortMenuStable(recs, collate, k);
    }
    forall y | y in t + u
      ensures y in recs
    {
      assert y in multiset(t) || y in multiset(u);
    }
    PrecedesTotalPreorder(recs, collate);
    assert AntisymmetricOn(t + u, KeyOf, Precedes(collate));
    StableOrderUnique(t, u, KeyOf, Precedes(collate));
  }
}
