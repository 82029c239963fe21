# Mafia wine list: a Dafny model of `app.js`

The page `app.js` of the Mafia wine list downloads a Google Sheet published
as CSV and turns it into the sections of the menu. This project models that
transformation:

- `parseCSV` splits the text into rows of fields, honouring quotes.
- The first row becomes the trimmed column names. Every later row with some
  text becomes a record that maps column names to trimmed values.
- Records whose `Disponible` column reads "no" are hidden.
- The remaining records are sorted by `Categoría` and then by the number in
  `Orden`.
- Each record becomes a menu item: name, subtitle, price line and note.
  Items are grouped into one section per category, in order of first
  appearance.

Modules, in dependency order:

| file | module | what it holds |
|---|---|---|
| `seqs.dfy` | `Seqs` | order-preserving `Filter`, subsequences |
| `text.dfy` | `Text` | `trim` (`norm`), upper-casing, digits, decimal numerals, `join` |
| `csv.dfy` | `Csv` | the scanner of `parseCSV`, its loop, round trip, quote-free characterisation |
| `records.dfy` | `Records` | column names, records, the "CSV vacío o inválido" error, header and data loops |
| `sorting.dfy` | `Sorting` | a stable insertion sort by key, sortedness, stability, uniqueness of a stable order |
| `items.dfy` | `Items` | availability filter, `toMoney`, name, subtitle and price line |
| `order.dfy` | `Order` | the comparator of `visibles.sort`, and the sorted menu |
| `grouping.dfy` | `Grouping` | the `cats`/`catItems` loop and the `sections` loop |
| `carta.dfy` | `Carta` | the whole pipeline `Menu`, its loop version `BuildMenu` |

Three things the page takes from its host are parameters of the model:

- `collate: (string, string) -> int` stands for `localeCompare(_, "es")`.
- `fmt: nat -> string` stands for `toLocaleString("es-AR")`.
- The CSV text stands for the HTTP response.

Where a property depends on what `localeCompare` does, the lemma assumes
`IsCollation(collate)`: the function is zero only on equal strings,
antisymmetric in sign and transitive.

The functions carry the behaviour and the lemmas state it. Each loop of the
page also has a `method` whose loop invariants prove that it computes the
function. A few results are worth stating here:

- Writing a table with commas, each field either bare (when it holds no
  quote, comma or line break) or quoted with doubled inner quotes, and each
  line ended by LF or CR LF, and parsing it back gives the table's
  non-blank rows (`Csv.RoundTrip`).
- Quote-free text parses to the comma-split fields of its lines, with blank
  lines dropped (`Csv.QuoteFreeParse`).
- Any stable sort by the page's comparator yields the same list as the
  model's insertion sort (`Order.SortMenuUnique`). So the choice of sorting
  algorithm does not matter.
- Every available wine appears in exactly one section
  (`Grouping.SectionsSpec`, `Carta.MenuCount`).

## Model

| member | source | states |
|---|---|---|
| Text.TrimSpec | app.js:43-45 | `norm` leaves no white space at either end; it gives "" exactly for all-space input; it leaves a trimmed string unchanged |
| Text.TrimCuts | app.js:43-45 | `norm` only removes white space: the input is some white space, the result, and some white space |
| Text.TrimIdempotent | app.js:43-45 | normalising twice is normalising once |
| Text.UpperIsNoIff | app.js:123 | upper-casing gives "NO" exactly for "NO", "No", "nO" and "no" |
| Text.Digits | app.js:49 | stripping `[^\d]` keeps exactly the digit characters, in order, each as often as it occurs |
| Text.DigitsConcat | app.js:49 | stripping works character by character: a digit stays, any other character goes, and a concatenation is stripped piecewise |
| Text.DigitsEmptyIff | app.js:49-50 | the stripped string is empty exactly when the value has no digit |
| Text.DecimalRoundTrip | app.js:51 | `Number` of the decimal numeral of n is n |
| Text.DecimalLeadingZero | app.js:51 | a leading zero does not change the number a digit string denotes |
| Text.Join | app.js:172 | joining nothing gives ""; the result starts with the first part; two or more parts with a non-empty separator never give "" |
| Text.JoinSnoc | app.js:172 | one part joins to itself, and each further part adds the separator and that part |
| Csv.Parse | app.js:13-41 | no row produced by the parser is blank (a lone empty field) |
| Csv.ParseCsv | app.js:13-41 | the character loop with its one-character lookahead and final flush computes `Parse` |
| Csv.UnterminatedQuote | app.js:24-36 | inside an open quote with no quote left, commas and line breaks are kept in the field |
| Csv.UnterminatedQuoteParse | app.js:13-41 | a text that opens a quote and never closes it is one row with one field (no row if the rest is empty) |
| Csv.RoundTrip | app.js:13-41 | a table written with commas, each field bare or quoted at the writer's choice (bare only when it has no quote, comma or line break; quoted with inner quotes doubled), and each line ended by LF or CR LF at the writer's choice, parses back to its non-blank rows; it comes back unchanged exactly when it has no blank row |
| Csv.QuoteFreeParse | app.js:13-41 | text without quotes parses to its CR- or LF-separated lines split at commas, blank lines dropped |
| Records.HeadersTrimmed | app.js:97-100 | every column name is trimmed; a header row that is already trimmed is kept as it is; trimming the names again changes nothing |
| Records.RecordShape | app.js:112-115 | a record's keys are exactly the header names; the value under a name is the trimmed field of the last column carrying that name, "" past the end of the row |
| Records.DataRecordsKeepsContentRows | app.js:103-117 | the data loop keeps, in order, the records of exactly the rows with some non-blank field |
| Records.Build | app.js:91-117 | fewer than two rows is the "CSV vacío o inválido" error and nothing else is; otherwise the headers are the trimmed first row and the records are those of the later rows with content |
| Records.RowHasAny | app.js:106-110 | the early-exit loop decides whether some field trims to non-empty |
| Records.MakeRecord | app.js:112-116 | the assignment loop builds the record |
| Records.BuildTable | app.js:91-117 | the header loop and the data loop compute `Build` |
| Items.AvailableIff | app.js:123 | a record is hidden exactly when its trimmed `Disponible` is one of the four spellings of "no"; a record without the column is shown |
| Items.Visible | app.js:119-126 | the visible records are the available ones, in their original order, each as many times as it occurs in the sheet; no hidden record is kept |
| Items.VisibleRecords | app.js:120-126 | the filter loop computes `Visible` |
| Items.NombreSpec | app.js:171 | the name is never empty; it is the wine's own name exactly when that is non-empty |
| Items.SubtitleEmptyIff | app.js:151-161 | the subtitle is empty exactly when producer, region, grape and vintage are all empty |
| Items.ToMoneySpec | app.js:47-52 | the price is "" exactly for blank input; a value with a digit becomes a "$ " amount; a value without digits is shown trimmed |
| Items.ToMoneyNumeral | app.js:49-51 | a value whose digits spell the numeral of n prints "$ " followed by the formatted n |
| Items.ToMoneySameDigits | app.js:49-51 | two values with the same digits give the same price, whatever the separators |
| Items.ToMoneyLeadingZero | app.js:51 | a leading zero does not change the printed amount |
| Items.PrecioIsJoin | app.js:166-168 | the price line is the non-empty prices, bottle then glass, joined by " · " |
| Order.OrdenOfNumeral | app.js:134-135 | a record whose `Orden` is the numeral of n sorts at n |
| Order.OrdenBlank | app.js:134-135 | a record with a blank or missing `Orden` sorts at 9999 |
| Order.SortMenu | app.js:129-137 | sorting only rearranges the records |
| Order.PrecedesReflexive | app.js:129-137 | every record may stay ahead of itself under the comparator |
| Order.PrecedesTotalPreorder | app.js:130-136 | for a collation and numeric `Orden` values, "comparator ≤ 0" is total and transitive, and ties only records with equal category and `Orden` |
| Order.CodePointIsCollation | app.js:132 | lexicographic code-point comparison meets the hypothesis placed on `localeCompare`, so the ordering lemmas apply to at least one comparison |
| Order.TransitiveStep | app.js:130-136 | the comparator's order is transitive across categories and `Orden` values |
| Order.SortMenuSorted | app.js:129-137 | the sorted menu is by category, then by `Orden` |
| Order.SortMenuStable | app.js:129-137 | records with equal category and `Orden` keep their sheet order |
| Order.SortMenuUnique | app.js:129-137 | any ordered, tie-preserving rearrangement of the records equals `SortMenu` |
| Sorting.SortPermutation | app.js:129 | the sort's result is a permutation of its input |
| Sorting.SortSorted | app.js:129 | under a total preorder the result is ordered |
| Sorting.SortStable | app.js:129 | elements with equal keys keep their order |
| Sorting.StableOrderUnique | app.js:129 | two orderings by an antisymmetric relation that agree within every key are equal |
| Carta.CategoryOfSpec | app.js:145 | a blank category is filed under "Otros", together with a literal "Otros"; any other category is kept |
| Grouping.GroupKeys | app.js:143-149 | a category gets a list exactly when it is in `cats`, and it is in `cats` exactly when some item carries it |
| Grouping.GroupDistinct | app.js:146-149 | no category is listed twice |
| Grouping.GroupItems | app.js:170-175 | each category's list holds its items in visiting order |
| Grouping.GroupOrder | app.js:143-149 | categories are listed in the order of their first item |
| Grouping.GroupCount | app.js:143-176 | the lists together hold one item per visible record |
| Grouping.SectionsOf | app.js:179-183 | one section per listed category, in order, each with that category's list |
| Grouping.SectionsSpec | app.js:140-183 | the sections are distinct categories in first-seen order; a category has a section exactly when an item carries it; each section holds exactly its category's items in order; all items are accounted for |
| Grouping.GroupEntries | app.js:140-176 | the grouping loop computes `GroupAll` |
| Grouping.MakeSections | app.js:179-183 | the sections loop computes `Sections` |
| Carta.MenuFailsIff | app.js:91-94 | the menu fails, with the "CSV vacío o inválido" error, exactly when the CSV has fewer than two rows |
| Carta.MenuCount | app.js:91-183 | the sections hold as many items as there are available records |
| Carta.MenuSections | app.js:129-183 | each section lists the items of the sorted available records of its category; no category appears twice |
| Carta.EntriesAt | app.js:143-175 | the i-th entry is derived from the i-th sorted record alone |
| Carta.MakeEntries | app.js:143-175 | the per-record derivation of category and item, in sorted order |
| Carta.BuildMenu | app.js:91-183 | the loops of the page, run in sequence, compute `Menu` |

## Left out

- Fetching the sheet (`SHEET_CSV_URL`, `fetch`, `res.text()`), the `.catch` handler, `render`, `el` and the DOM, and the "Actualizado" date. These are I/O; the CSV text is a parameter.
- `localeCompare(_, "es")` is the parameter `collate`. The ordering lemmas assume `IsCollation`, which real collations can break: they may return 0 for distinct but canonically equivalent strings.
- `toLocaleString("es-AR")` is the parameter `fmt`. The number is an unbounded `nat`, so a digit string too long for a double is not rounded as `Number` would round it.
- Order.OrdenOfNumeral: holds for every numeral, whereas `Number` reads a numeral above 2^53 = 9007199254740992 as the nearest double (so distinct large `Orden` values can tie) and one of about 309 digits or more as Infinity. The model's numbers are unbounded integers and `oa - ob` is exact; below 2^53 the two agree.
- Order.NumberOf: the model accepts "", optionally signed decimal digits, and nothing else. Decimal fractions, exponents, hexadecimal, octal and binary prefixes, and "Infinity" are treated as NaN, although `Number` reads them as numbers.
- Csv.RoundTrip: covers text in which every quote opens a field, closes it, or is a doubled quote inside it, and every line ends in LF or CR LF; a line ended by a lone CR is covered only when the text has no quote (`Csv.QuoteFreeParse`). Text with a quote in the middle of a bare field (`a"b`) is parsed by `Csv.Parse` exactly as the page parses it, but no lemma characterises its rows; `Csv.QuoteFreeParse` covers text with no quote at all.
- Order.SortMenuSorted: proved only when every `Orden` is a number. With a NaN, the comparator is inconsistent, and ECMAScript leaves the sort order to the implementation. The model then gives insertion sort's order.
- Array.prototype.sort: modelled by a stable insertion sort. `Order.SortMenuUnique` shows that under its hypotheses every stable sort, such as V8's TimSort, gives the same result.
- Text.ToUpper: maps only the ASCII letters and leaves every other character unchanged. Full Unicode case mapping is not modelled. The `Disponible` test relies on the assumption that no other character upper-cases to "N" or "O".
- JavaScript object semantics of `obj` and `catItems`:
  - A header named `__proto__` is ignored: the page's record gets no such key, while `RecordOf` has one.
  - A category such as "constructor" or "toString" finds an inherited truthy value, so `catItems[cat].push` fails.
  - The model treats both objects as plain maps.
- Strings are sequences of Unicode scalar values, not UTF-16 code units. The parser only inspects ASCII characters, so row and field boundaries are the same.
