# html2csv table extraction in Dafny

A model of the table-extraction core of html2csv. The program reads an HTML
document and turns every `<table>` element into rows of strings for CSV
output. The model covers two copies of that core:

- the `htmltable` package (`htmltable/htmltable.go`, `htmltable/pseudo.go`),
  with `Parse`, its directory-listing fallback, `ParseSelector`,
  `Selector.Apply` and `SkipHeader`;
- the command's own older copy (`html2csv.go`), with `ExtractTables`,
  `ParseTableSelector` and `FilterTables`.

The model starts from an already parsed document tree. Its node type is
`Node(kind, children)`, where `kind` is an element with its tag and
attributes, a text node with its data, or any other node. Every traversal is
a structural recursion over this tree. The walk that numbers the tables is a
fold that passes the counter along.

Modules, one file each:

- `Wrappers`: `Option` and `Result`.
- `Seqs`: filter, map, flatten and sub-sequences.
- `Strings`: the ASCII parts of `strings.TrimSpace`, `strings.Fields`,
  `strings.Split`, `strconv.Itoa` and `strconv.Atoi`.
- `Dom`: the tree, its pre-order, `textContent` and attribute lookup.
- `Rows`: `extractRows` and `normalize`. These are shared with
  `extractTableRows` and `normalizeRows`, which are textually the same.
- `Locate`: the numbering walk of `Parse` and `ExtractTables`.
- `Pseudo`: `firstElement` and `parseDirectoryListing`.
- `HtmlTable`: `Parse`, the selector and `SkipHeader`.
- `Html2Csv`: the command's extractor, selector and filter.

Each operation has a partner. Most partners are a reference definition over
the flat pre-order of the tree, for example "the text of the text nodes in
pre-order" or "the k-th `<table>` in pre-order". The others are an inverse,
such as split and join or Itoa and Atoi, or an invariant, such as
rectangular rows.

## Model

| member | source | states |
|---|---|---|
| Dom.TextContentIsPreOrderText | htmltable/htmltable.go:203-218 | textContent of a node is the data of every text node of its subtree, the node included, concatenated in pre-order with no separator |
| Dom.TextContentWithoutText | htmltable/htmltable.go:203-218 | a subtree with no text node has textContent "" |
| Dom.LastValueIsLast | htmltable/htmltable.go:37-45 | the attribute loop leaves id (or name) at the value of the last attribute with that key |
| Dom.LastValueAbsent | htmltable/htmltable.go:37-45 | with no attribute of that key, id (or name) stays at its initial "" |
| Rows.Cells | htmltable/htmltable.go:169-174 | a row has at most one field per child of the tr |
| Rows.CellsAreCellChildren | htmltable/htmltable.go:169-174 | a row's fields are the trimmed textContent of exactly the td/th children of the tr, in order |
| Rows.RawRows | htmltable/htmltable.go:163-183 | no collected row is empty |
| Rows.RawRowsFollowPreOrder | htmltable/htmltable.go:166-183 | the collected rows are the cell rows of all tr elements of the subtree in pre-order, nested tables included, minus the rows without cells |
| Rows.MaxWidth | htmltable/htmltable.go:190-195 | maxCols bounds every row's width and is reached by some row (0 for no rows) |
| Rows.Pad | htmltable/htmltable.go:197-199 | padding keeps the row as a prefix, appends only "", and reaches the target width unless the row is already wider |
| Rows.Normalize | htmltable/htmltable.go:189-201 | normalize keeps the row count, gives every row the widest row's width, keeps each row as a prefix and adds only "" |
| Rows.NormalizeRectangular | htmltable/htmltable.go:189-201 | normalize changes nothing on rows that are already all the same width |
| Rows.NormalizeIdempotent | htmltable/htmltable.go:189-201 | normalizing twice is normalizing once |
| Rows.ExtractRows | htmltable/htmltable.go:163-187 | extractRows returns exactly one row per collected row |
| Rows.ExtractRowsShape | htmltable/htmltable.go:163-187 | each returned row extends its collected row, all rows have the same width, and none is empty |
| Locate.TableNodesArePreOrderTables | htmltable/htmltable.go:33-34 | the table elements the walk visits are exactly the table elements of the pre-order, in that order |
| Locate.NumberedIndices | htmltable/htmltable.go:33-59 | every kept table is built from the table element with its number, has rows, and the numbers strictly increase within the range of elements seen |
| Locate.NumberedComplete | htmltable/htmltable.go:47-55 | a table element with rows is kept, carrying its own pre-order number |
| Locate.WalkIsNumbering | htmltable/htmltable.go:32-61 | the counter-passing walk yields the k-th table element in pre-order with number k, dropping the ones without rows |
| Locate.Walk | htmltable/htmltable.go:33-60 | the counter advances by one for every table element of the subtree, kept or not, and the kept numbers increase and lie in the range passed over |
| Locate.WalkFromRoot | htmltable/htmltable.go:29-61 | the walk from a counter of 0 is the pre-order numbering from 1, whatever the row extractor |
| Locate.DocumentTables | htmltable/htmltable.go:29-61 | the walk from a counter of 0 is the pre-order numbering from 1 |
| Locate.DocumentTablesIndexed | htmltable/htmltable.go:33-59 | the returned numbers are at least 1 and strictly increase, and every returned table has rows |
| Locate.DocumentTablesNumbering | htmltable/htmltable.go:33-59 | numbers are at least 1, strictly increasing, at most the number of table elements, and may skip tables without rows |
| Locate.DocumentTablesComplete | htmltable/htmltable.go:33-59 | the k-th table element in pre-order, when it has rows, is returned with number k and its last id and name |
| Locate.NumberedRectangular | htmltable/htmltable.go:47-55 | when the extractor gives rectangular rows, every kept table has rows and they are rectangular |
| Locate.DocumentTablesShape | htmltable/htmltable.go:47-55 | every returned table has at least one row and all its rows have the same width |
| Locate.DocumentTablesEmpty | htmltable/htmltable.go:47-61 | the walk returns nothing exactly when no table element has rows |
| HtmlTable.Parse | htmltable/htmltable.go:23-70 | Parse's numbers are at least 1 and strictly increasing, and every table has rows |
| HtmlTable.ParseWithTables | htmltable/htmltable.go:61-67 | when some table element has rows, Parse is the walk's numbering and the fallback is not used |
| HtmlTable.ParseFallback | htmltable/htmltable.go:63-67 | when no table element has rows, Parse is the one fallback table or nothing |
| HtmlTable.ParseParts | htmltable/htmltable.go:87-101 | the loop only adds to the selector |
| HtmlTable.ParsePartsSpec | htmltable/htmltable.go:87-101 | the loop fails exactly on a part that is an integer below 1, and otherwise adds exactly the integers and the non-numeric names the trimmed non-empty parts spell |
| HtmlTable.ParseSelector | htmltable/htmltable.go:83-85 | a blank or white-space-only selector gives empty sets and no error |
| HtmlTable.BlankParts | htmltable/htmltable.go:83-91 | a white-space-only selector gives empty sets and every one of its comma-separated parts trims to "" |
| HtmlTable.BlankDescribes | htmltable/htmltable.go:83-85 | when every part trims to "", the empty selector is exactly what the parts describe: no error, no numbers, no names |
| HtmlTable.PartsDescribe | htmltable/htmltable.go:87-101 | the loop over the parts errs exactly on a part that is an integer below 1, and otherwise selects exactly the numbers and names the parts spell |
| HtmlTable.ParseSelectorSpec | htmltable/htmltable.go:77-104 | ParseSelector errs exactly when some part is an integer below 1; on success Indexes holds exactly the integers of the parts, all at least 1, and Names exactly the other non-empty parts, never "" |
| HtmlTable.PlusSignedSelector | htmltable/htmltable.go:83-101 | the selector "+5" selects table 5 and no name |
| HtmlTable.MinusZeroRejected | htmltable/htmltable.go:93-96 | the selector "-0" is rejected with the index error, since it reads as 0 |
| HtmlTable.Apply | htmltable/htmltable.go:106-126 | Apply never returns more tables than it was given |
| HtmlTable.SelectIsFilter | htmltable/htmltable.go:111-125 | the loop keeps exactly the tables whose number, id or name is selected, in order |
| HtmlTable.ApplySpec | htmltable/htmltable.go:106-126 | with both sets empty Apply returns its input; otherwise an order-preserving sub-sequence holding a table exactly when its number is in Indexes or its id or name is in Names, with no non-empty guard |
| HtmlTable.SkipHeader | htmltable/htmltable.go:128-137 | SkipHeader never returns more tables than it was given |
| HtmlTable.SkipHeaderSpec | htmltable/htmltable.go:128-137 | SkipHeader keeps, in order, exactly the tables with more than one row, removes exactly the first row of each, and keeps number, id and name |
| HtmlTable.SkipHeaderRectangular | htmltable/htmltable.go:130-133 | dropping the header row keeps rectangular tables rectangular |
| Pseudo.FirstElement | htmltable/pseudo.go:73-92 | a found node is an element with the tag |
| Pseudo.FirstElementIsFirstInPreOrder | htmltable/pseudo.go:73-92 | firstElement returns the first element with the tag in pre-order, the root included, or none |
| Pseudo.ListingRow | htmltable/pseudo.go:40-48 | a data row has 1 to 3 fields starting with the anchor's text; a second field exactly when the metadata has at least two words, a third exactly when it has at least three |
| Pseudo.ListingRowColumns | htmltable/pseudo.go:40-48 | the second field is exactly the first two words of the metadata joined by one space, and so splits back into them; the third is exactly the third word |
| Pseudo.ListingRowOfLine | htmltable/pseudo.go:35-48 | a listing line whose trimmed metadata is "2025-08-25 20:08  3.3G", with any white space around it, gives the row "file.iso", "2025-08-25 20:08", "3.3G" |
| Pseudo.RowWithoutMeta | htmltable/pseudo.go:36-43 | an anchor with no next sibling, or a next sibling that is not text, gives a row of its text alone |
| Pseudo.RowsFromWidths | htmltable/pseudo.go:36-50 | every row built from an anchor has 1 to 3 fields |
| Pseudo.ScanShape | htmltable/pseudo.go:22-53 | after an hr no header labels are added, and every data row has 1 to 3 fields |
| Pseudo.ScanAfterRule | htmltable/pseudo.go:22-53 | after an hr every anchor among the pre's children becomes a data row, whatever later hr elements follow |
| Pseudo.ScanInHeader | htmltable/pseudo.go:20-53 | the header holds the texts of the anchors before the first hr, in order, and the data rows are those of the anchors after it |
| Pseudo.DirectoryListing | htmltable/pseudo.go:12-71 | without a pre there is no table; a found table has number 1, id "", name "directory", at least two rows, a non-empty header first, and every data row at least the header's width |
| Pseudo.DirectoryListingSpec | htmltable/pseudo.go:12-71 | with a pre, the fallback fails exactly when there are no header labels or no data rows, and otherwise its rows are the header followed by the data rows padded to the header's width |
| Pseudo.PaddedUnderHeader | htmltable/pseudo.go:59-64 | padded rows under a header are rectangular exactly when no row is wider than the header: padding never truncates |
| Pseudo.DirectoryListingRectangular | htmltable/pseudo.go:59-70 | the fallback table is rectangular exactly when no data row is wider than its header |
| Strings.TrimSpaceShape | htmltable/htmltable.go:172 | a trimmed field is a piece of the text with only white space around it; it is empty exactly for all-white-space text and otherwise starts and ends with a non-space character |
| Strings.TrimSpaceUnique | htmltable/htmltable.go:172 | trimming removes exactly the white space before the first and after the last non-space character |
| Strings.TrimSpaceIdempotent | htmltable/htmltable.go:88 | trimming a trimmed part changes nothing |
| Strings.Fields | htmltable/pseudo.go:40 | every word of the metadata is non-empty and holds no white space |
| Strings.FieldsFlatten | htmltable/pseudo.go:40 | the words, concatenated, are the metadata with every white-space character removed |
| Strings.FieldsOfWord | htmltable/pseudo.go:40 | a non-empty word without white space is its own only field |
| Strings.FieldsCons | htmltable/pseudo.go:40 | a non-empty word without white space, followed by any one white-space character, is the first field, and the rest of the string gives the remaining fields |
| Strings.FieldsSkipSpace | htmltable/pseudo.go:40 | white space of any length and of any of the six kinds in front of a string changes none of its fields |
| Strings.FieldsOfSpace | htmltable/pseudo.go:40 | an empty or all-white-space string has no fields |
| Strings.FieldsOfListingMeta | htmltable/pseudo.go:37-40 | the text "2025-08-25 20:08  3.3G" with any white space around it, once trimmed, splits into the date, the time and the size |
| Strings.FieldsOfJoin | htmltable/pseudo.go:44 | non-empty words without white space, joined by single spaces, split back into the same words |
| Strings.Split | htmltable/htmltable.go:87 | splitting on "," gives at least one part and no part contains "," |
| Strings.JoinSplit | htmltable/htmltable.go:87 | the parts joined with "," give back the selector |
| Strings.SplitJoin | htmltable/htmltable.go:87 | parts without "," joined with "," split back into the same parts |
| Strings.SplitAllSpace | htmltable/htmltable.go:83-91 | every part of a white-space-only selector is white space |
| Strings.Atoi | htmltable/htmltable.go:93 | Atoi succeeds only on an optional sign and digits with a value in Go's 64-bit int range, always succeeds on such a spelling of at most 18 characters, and a negative result has a "-" |
| Strings.Itoa | html2csv.go:134 | Itoa spells the value in decimal, with "-" exactly for negatives, no "+" and no leading zero |
| Strings.AtoiDigits | htmltable/htmltable.go:93 | an optional "+" or "-" followed by digits reads as the signed value of the digits when it fits in an int, and as no number otherwise |
| Strings.AtoiPadded | htmltable/htmltable.go:93 | an optional sign, any number of leading zeros and the digits of n read as n (or -n), or as no number when that is outside Go's int range |
| Strings.DigitsArePadded | htmltable/htmltable.go:93 | every digit string is some zeros followed by the canonical spelling of its value, so the previous row covers every spelling Atoi accepts |
| Strings.CanonicalDigits | htmltable/htmltable.go:93 | digits with no leading zero, or "0" alone, are the canonical spelling of their value |
| Strings.AtoiPlusSign | htmltable/htmltable.go:93 | "+5" reads as 5 |
| Strings.AtoiLeadingZeros | htmltable/htmltable.go:93 | "007" reads as 7 |
| Strings.AtoiMinusZero | htmltable/htmltable.go:93 | "-0" reads as 0 |
| Strings.AtoiItoa | html2csv.go:134 | Atoi reads back what Itoa writes, for every int |
| Strings.ItoaIsCanonical | html2csv.go:134 | Itoa never equals an empty, "+"-signed or zero-padded key |
| Strings.ItoaInjective | html2csv.go:134 | different numbers have different spellings |
| Html2Csv.ExtractTables | html2csv.go:78-114 | ExtractTables is the pre-order numbering from 1 of the table elements with rows, with increasing numbers, and is empty exactly when no table element has rows (there is no fallback) |
| Html2Csv.ParseAgrees | html2csv.go:78-114 | when a table element has rows, ExtractTables and htmltable's Parse return the same tables |
| Html2Csv.KeysOfSpec | html2csv.go:118-123 | a key is collected exactly when it is non-empty and some part trims to it |
| Html2Csv.ParseTableSelector | html2csv.go:116-125 | the selector never contains "" |
| Html2Csv.ParseTableSelectorSpec | html2csv.go:116-125 | ParseTableSelector holds exactly the trimmed non-empty comma-separated parts and never fails |
| Html2Csv.PickIsFilter | html2csv.go:132-150 | the loop keeps exactly the tables whose Itoa'd number, non-empty id or non-empty name is a key, in order |
| Html2Csv.FilterTables | html2csv.go:127-151 | FilterTables never returns more tables than it was given |
| Html2Csv.FilterTablesSpec | html2csv.go:127-151 | with an empty set FilterTables returns its input; otherwise an order-preserving sub-sequence holding a table exactly when Itoa(number), a non-empty id or a non-empty name is in the set |
| Html2Csv.NonCanonicalKeyMatchesNoIndex | html2csv.go:134-148 | a key such as "01", "+1" or "-01", or "0" against numbers from 1, selects only by id or name, never by number |
| Html2Csv.NameKeysSelector | html2csv.go:116-125 | on a selector with no numeric part, htmltable's selector parses without error, has no numbers, and its names are exactly html2csv's keys |
| Html2Csv.NameKeysAgree | html2csv.go:116-151 | on a selector with no numeric part, htmltable's selector has no indexes, its names are html2csv's keys, and both select the same tables |

## Left out

- HTML parsing (`html.Parse`) and the read error `Parse` returns from it. The model takes the parsed tree. It does not model how tables are built from markup, for example the implied `<tbody>` or white-space text nodes.
- Element identity by atom: an element's `DataAtom` is modelled as its lower-case tag string.
- CSV output: `CSVEncoder.Encode`, `NewCSVEncoder` and `WriteTablesCSV`. Quoting is done by Go's `encoding/csv`, and their errors are I/O errors.
- `main` in html2csv.go and `cmd/html2csv/main.go`: flags, file and stdin handling, the delimiter check and exit codes.
- `trimEmptyColumns` and `dropEmptyRows`. The tests in `htmltable/htmltable_test.go` call them, so the package defines them in some file, but they are not defined in `htmltable.go`, `pseudo.go` or `html2csv.go` and are not part of this model. In those three files `extractRows` calls only `normalize`, so the model keeps empty columns and rows. The test that expects an empty icon column to be trimmed from a parsed table describes behaviour that these files do not produce.
- Strings.TrimSpace, Strings.Fields: white space is the six ASCII characters tab, line feed, vertical tab, form feed, carriage return and space. Go also strips Unicode white space such as U+0085 and U+00A0.
- Go maps are modelled as sets, and the in-place appends of `normalize` as new sequences.
- Strings.Atoi: it models Go's 64-bit `int`. A value out of range is None, so ParseSelector treats such a part as a name, as the Go code does. Only the base-10 syntax `strconv.Atoi` accepts is modelled.
- Strings.Atoi: its own contract promises success only for spellings of at most 18 characters. The value of every spelling, of any length, is stated by Strings.AtoiPadded together with Strings.DigitsArePadded.
- Strings.AtoiItoa: stated only for values within Go's 64-bit int range, since `Index` is an `int`.
- Html2Csv.NameKeysAgree: stated for table numbers within Go's int range only.
- Locate.Walk: the row extraction is a parameter of the walk (`rowsOf`), and the extractors instantiate it with `ExtractRows`.
- Three behaviours of the code that are easy to miss, all modelled as written. `Selector.Apply` matches an empty id or name against `Names` with no non-empty guard; `Names` never holds "" after `ParseSelector`, so this only matters for hand-built selectors. Table numbers can have gaps, because the counter also counts tables without rows. The directory-listing rows are padded to the header's width but never truncated, so that table is not always rectangular.
