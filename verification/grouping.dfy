/** The grouping loop of `main` in app.js: `cats` lists the categories in
    the order they are first met, `catItems` collects each one's items. */
module Grouping {
  import opened Seqs
  import opened Items

  /** One sorted record as the loop sees it: its category ("Otros" when
      blank) and the item it produces. */
  datatype Entry = Entry(categoria: string, item: MenuItem)

  /** The loop state: the `cats` array and the `catItems` object. */
  datatype Groups = Groups(cats: seq<string>, catItems: map<string, seq<MenuItem>>)

  /** One rendered section: a category and its items. */
  datatype Section = Section(categoria: string, items: seq<MenuItem>)

  /** One iteration: a category not seen before opens a new list and joins
      `cats`; the item goes at the end of its category's list. */
  function AddEntry(g: Groups, e: Entry): Groups {
    if e.categoria !in g.catItems then
      Groups(g.cats + [e.categoria], g.catItems[e.categoria := [e.item]])
    else
      Groups(g.cats, g.catItems[e.categoria := g.catItems[e.categoria] + [e.item]])
  }

  /** The state after the loop has seen `es`. */
  function GroupAll(es: seq<Entry>): Groups
    decreases |es|
  {
    if |es| == 0 then Groups([], map[])
    else AddEntry(GroupAll(es[..|es| - 1]), es[|es| - 1])
  }

  function Lookup(m: map<string, seq<MenuItem>>, c: string): seq<MenuItem> {
    if c in m then m[c] else []
  }

  /** The `sections` loop: one section per category of `cats`, in order. */
  function SectionsOf(cats: seq<string>, m: map<string, seq<MenuItem>>): (r: seq<Section>)
    ensures |r| == |cats|
    ensures forall i :: 0 <= i < |cats| ==> r[i] == Section(cats[i], Lookup(m, cats[i]))
    decreases |cats|
  {
    if |cats| == 0 then [] else [Section(cats[0], Lookup(m, cats[0]))] + SectionsOf(cats[1..], m)
  }

  function Sections(g: Groups): seq<Section> {
    SectionsOf(g.cats, g.catItems)
  }

  /** The number of items over all sections. */
  function TotalItems(secs: seq<Section>): nat
    decreases |secs|
  {
    if |secs| == 0 then 0 else |secs[0].items| + TotalItems(secs[1..])
  }

  /** The categories of `es`, entry by entry. */
  function CatsOf(es: seq<Entry>): (r: seq<string>)
    ensures |r| == |es|
    ensures forall i :: 0 <= i < |es| ==> r[i] == es[i].categoria
  {
    seq(|es|, i requires 0 <= i < |es| => es[i].categoria)
  }

  function InCategory(c: string): Entry -> bool {
    (e: Entry) => e.categoria == c
  }

  function ItemsIn(es: seq<Entry>): (r: seq<MenuItem>)
    ensures |r| == |es|
    ensures forall i :: 0 <= i < |es| ==> r[i] == es[i].item
  {
    seq(|es|, i requires 0 <= i < |es| => es[i].item)
  }

  /** The items of the entries in category `c`, in order. */
  function ItemsOf(es: seq<Entry>, c: string): seq<MenuItem> {
    ItemsIn(Filter(es, InCategory(c)))
  }

  /** The position of the first `c` in `s`; `|s|` when there is none. */
  function FirstIndex(s: seq<string>, c: string): nat
    decreases |s|
  {
    if |s| == 0 then 0 else if s[0] == c then 0 else 1 + FirstIndex(s[1..], c)
  }

  ghost predicate Distinct(s: seq<string>) {
    forall i, j :: 0 <= i < j < |s| ==> s[i] != s[j]
  }

  lemma {:induction false} FirstIndexSpec(s: seq<string>, c: string)
    ensures FirstIndex(s, c) <= |s|
    ensures FirstIndex(s, c) < |s| <==> c in s
    ensures FirstIndex(s, c) < |s| ==> s[FirstIndex(s, c)] == c
    decreases |s|
  {
    if |s| > 0 && s[0] != c {
      FirstIndexSpec(s[1..], c);
      assert c in s <==> c in s[1..] by {
        assert s == [s[0]] + s[1..];
      }
    }
  }

  lemma {:induction false} FirstIndexAppend(s: seq<string>, x: string, c: string)
    requires c in s
    ensures FirstIndex(s + [x], c) == FirstIndex(s, c)
    decreases |s|
  {
    if s[0] != c {
      assert (s + [x])[1..] == s[1..] + [x];
      FirstIndexAppend(s[1..], x, c);
    }
  }

  lemma CatsOfSnoc(es: seq<Entry>)
    requires |es| > 0
    ensures CatsOf(es) == CatsOf(es[..|es| - 1]) + [es[|es| - 1].categoria]
  {
  }

  lemma ItemsOfSnoc(es: seq<Entry>, c: string)
    requires |es| > 0
    ensures ItemsOf(es, c) == ItemsOf(es[..|es| - 1], c) + (if es[|es| - 1].categoria == c then [es[|es| - 1].item] else [])
  {
    var init, last := es[..|es| - 1], es[|es| - 1];
    assert es == init + [last];
    FilterConcat(init, [last], InCategory(c));
    var a, b := Filter(init, InCategory(c)), Filter([last], InCategory(c));
    assert ItemsIn(a + b) == ItemsIn(a) + ItemsIn(b);
  }

  /** A category has a list exactly when it is in `cats`, and it is in `cats`
      exactly when some entry carries it. */
  lemma {:induction false} GroupKeys(es: seq<Entry>, c: string)
    ensures c in GroupAll(es).catItems <==> c in GroupAll(es).cats
    ensures c in GroupAll(es).cats <==> c in CatsOf(es)
    decreases |es|
  {
    if |es| > 0 {
      var init := es[..|es| - 1];
      GroupKeys(init, c);
      GroupKeys(init, es[|es| - 1].categoria);
      CatsOfSnoc(es);
    }
  }

  /** No category is listed twice. */
  lemma {:induction false} GroupDistinct(es: seq<Entry>)
    ensures Distinct(GroupAll(es).cats)
    decreases |es|
  {
    if |es| > 0 {
      var init := es[..|es| - 1];
      GroupDistinct(init);
      GroupKeys(init, es[|es| - 1].categoria);
    }
  }

  /** Each category's list holds the items of its entries, in entry order. */
  lemma {:induction false} GroupItems(es: seq<Entry>, c: string)
    ensures Lookup(GroupAll(es).catItems, c) == ItemsOf(es, c)
    decreases |es|
  {
    if |es| == 0 {
      assert Filter(es, InCategory(c)) == [];
    } else {
      var init := es[..|es| - 1];
      GroupItems(init, c);
      ItemsOfSnoc(es, c);
    }
  }

  /** Categories are listed in the order of their first entry. */
  lemma {:induction false} GroupOrder(es: seq<Entry>)
    ensures forall i, j :: 0 <= i < j < |GroupAll(es).cats| ==>
      FirstIndex(CatsOf(es), GroupAll(es).cats[i]) < FirstIndex(CatsOf(es), GroupAll(es).cats[j])
    decreases |es|
  {
    if |es| > 0 {
      var init, last := es[..|es| - 1], es[|es| - 1];
      var g0, g := GroupAll(init), GroupAll(es);
      GroupOrder(init);
      CatsOfSnoc(es);
      forall i | 0 <= i < |g0.cats|
        ensures FirstIndex(CatsOf(es), g0.cats[i]) == FirstIndex(CatsOf(init), g0.cats[i]) < |init|
      {
        GroupKeys(init, g0.cats[i]);
        FirstIndexAppend(CatsOf(init), last.categoria, g0.cats[i]);
        FirstIndexSpec(CatsOf(init), g0.cats[i]);
      }
      if last.categoria !in g0.catItems {
        GroupKeys(init, last.categoria);
        FirstIndexSpec(CatsOf(init), last.categoria);
        assert FirstIndex(CatsOf(es), last.categoria) == |init| by {
          FirstIndexAppendNew(CatsOf(init), last.categoria);
        }
      }
    }
  }

  lemma {:induction false} FirstIndexAppendNew(s: seq<string>, c: string)
    requires c !in s
    ensures FirstIndex(s + [c], c) == |s|
    decreases |s|
  {
    if |s| > 0 {
      assert (s + [c])[1..] == s[1..] + [c];
      FirstIndexAppendNew(s[1..], c);
    }
  }

  lemma {:induction false} TotalAppend(cats: seq<string>, m: map<string, seq<MenuItem>>, c: string)
    ensures TotalItems(SectionsOf(cats + [c], m)) == TotalItems(SectionsOf(cats, m)) + |Lookup(m, c)|
    decreases |cats|
  {
    if |cats| > 0 {
      assert (cats + [c])[1..] == cats[1..] + [c];
      TotalAppend(cats[1..], m, c);
    }
  }

  lemma {:induction false} TotalUpdate(cats: seq<string>, m: map<string, seq<MenuItem>>, c: string, v: seq<MenuItem>)
    requires Distinct(cats)
    ensures TotalItems(SectionsOf(cats, m[c := v])) ==
      TotalItems(SectionsOf(cats, m)) + (if c in cats then |v| - |Lookup(m, c)| else 0)
    decreases |cats|
  {
    if |cats| > 0 {
      assert Distinct(cats[1..]);
      TotalUpdate(cats[1..], m, c, v);
      assert cats[0] == c ==> c !in cats[1..];
    }
  }

  /** Every entry lands in exactly one section: the sections hold as many
      items as there were entries. */
  lemma {:induction false} GroupCount(es: seq<Entry>)
    ensures TotalItems(Sections(GroupAll(es))) == |es|
    decreases |es|
  {
    if |es| > 0 {
      var init, last := es[..|es| - 1], es[|es| - 1];
      var g0 := GroupAll(init);
      GroupCount(init);
      GroupDistinct(init);
      GroupKeys(init, last.categoria);
      if last.categoria !in g0.catItems {
        TotalUpdate(g0.cats, g0.catItems, last.categoria, [last.item]);
        TotalAppend(g0.cats, g0.catItems[last.categoria := [last.item]], last.categoria);
      } else {
        TotalUpdate(g0.cats, g0.catItems, last.categoria, g0.catItems[last.categoria] + [last.item]);
      }
    }
  }

  /** The sections of the grouping: each category once, in order of first
      appearance, each holding exactly its entries' items in order, all
      entries accounted for. */
  lemma SectionsSpec(es: seq<Entry>)
    ensures forall i, j :: 0 <= i < j < |Sections(GroupAll(es))| ==>
      Sections(GroupAll(es))[i].categoria != Sections(GroupAll(es))[j].categoria
    ensures forall c :: c in CatsOf(es) <==> exists i :: 0 <= i < |Sections(GroupAll(es))| && Sections(GroupAll(es))[i].categoria == c
    ensures forall i :: 0 <= i < |Sections(GroupAll(es))| ==>
      Sections(GroupAll(es))[i].items == ItemsOf(es, Sections(GroupAll(es))[i].categoria)
    ensures forall i, j :: 0 <= i < j < |Sections(GroupAll(es))| ==>
      FirstIndex(CatsOf(es), Sections(GroupAll(es))[i].categoria) < FirstIndex(CatsOf(es), Sections(GroupAll(es))[j].categoria)
    ensures TotalItems(Sections(GroupAll(es))) == |es|
  {
    var g := GroupAll(es);
    var secs := Sections(g);
    GroupDistinct(es);
    GroupOrder(es);
    GroupCount(es);
    forall c
      ensures c in CatsOf(es) <==> exists i :: 0 <= i < |secs| && secs[i].categoria == c
    {
      GroupKeys(es, c);
      if c in g.cats {
        var i :| 0 <= i < |g.cats| && g.cats[i] == c;
        assert secs[i].categoria == c;
      }
    }
    forall i | 0 <= i < |secs|
      ensures secs[i].items == ItemsOf(es, secs[i].categoria)
    {
      GroupItems(es, g.cats[i]);
    }
  }

  /** The grouping loop over explicit variables. */
  method GroupEntries(es: seq<Entry>) returns (g: Groups)
    ensures g == GroupAll(es)
  {
    var cats: seq<string> := [];
    var catItems: map<string, seq<MenuItem>> := map[];
    for t := 0 to |es|
      invariant Groups(cats, catItems) == GroupAll(es[..t])
    {
      assert es[..t + 1][..t] == es[..t];
      var v := es[t];
      ghost var before := Groups(cats, catItems);
      if v.categoria !in catItems {
        catItems := catItems[v.categoria := []];
        cats := cats + [v.categoria];
      }
      catItems := catItems[v.categoria := catItems[v.categoria] + [v.item]];
      assert [] + [v.item] == [v.item];
      assert Groups(cats, catItems) == AddEntry(before, v);
    }
    assert es[..|es|] == es;
    g := Groups(cats, catItems);
  }

  /** The loop that turns `cats` into sections. */
  method MakeSections(g: Groups) returns (sections: seq<Section>)
    ensures sections == Sections(g)
  {
    sections := [];
    for ci := 0 to |g.cats|
      invariant sections == SectionsOf(g.cats[..ci], g.catItems)
    {
      var cName := g.cats[ci];
      SectionsOfSnoc(g.cats[..ci + 1], g.catItems);
      assert g.cats[..ci + 1][..ci] == g.cats[..ci];
      sections := sections + [Section(cName, Lookup(g.catItems, cName))];
    }
    assert g.cats[..|g.cats|] == g.cats;
  }

  lemma SectionsOfSnoc(cats: seq<string>, m: map<string, seq<MenuItem>>)
    requires |cats| > 0
    ensures SectionsOf(cats, m) == SectionsOf(cats[..|cats| - 1], m) + [Section(cats[|cats| - 1], Lookup(m, cats[|cats| - 1]))]
  {
  }
}
