/** The htmltable package (htmltable/htmltable.go): Parse over an already
    parsed document, the table selector and SkipHeader. */
module HtmlTable {
  import opened Wrappers
  import opened Dom
  import opened Rows
  import opened Locate
  import opened Pseudo
  import Strings
  import Seqs

  // ---------------------------------------------------------------------------
  // Parse

  /** Parse after html.Parse: the document's tables, or the directory listing
      when the walk found none. Table numbers are at least 1 and increase,
      and every table has rows. */
  function Parse(doc: Node): (ts: seq<Table>)
    ensures Increasing(ts) && forall i :: 0 <= i < |ts| ==> 1 <= ts[i].index && ts[i].rows != []
  {
    var tables := DocumentTables(doc);
    DocumentTablesIndexed(doc);
    if tables != [] then tables
    else
      match DirectoryListing(doc)
      case Some(t) => [t]
      case None => []
  }

  /** As soon as one <table> element has rows, Parse returns exactly the walk's
      tables and the directory listing is not consulted. */
  lemma ParseWithTables(doc: Node, k: nat)
    requires k < |TableNodes(doc)| && ExtractRows(TableNodes(doc)[k]) != []
    ensures Parse(doc) == Numbered(TableNodes(doc), 1, ExtractRows)
    ensures TableOf(TableNodes(doc)[k], k + 1, ExtractRows) in Parse(doc)
  {
    DocumentTablesComplete(doc, k);
  }

  /** When no <table> element has rows, Parse returns the directory listing
      alone, or nothing. */
  lemma ParseFallback(doc: Node)
    requires forall k :: 0 <= k < |TableNodes(doc)| ==> ExtractRows(TableNodes(doc)[k]) == []
    ensures DirectoryListing(doc).Some? ==> Parse(doc) == [DirectoryListing(doc).value]
    ensures DirectoryListing(doc).None? ==> Parse(doc) == []
  {
    DocumentTablesEmpty(doc);
  }

  // ---------------------------------------------------------------------------
  // Selector

  /** The table numbers and the names (matched against id and name) selected. */
  datatype Selector = Selector(indexes: set<int>, names: set<string>)

  const SelectAll := Selector({}, {})

  const IndexError := "table index must be >= 1"

  /** A part Atoi reads as a number below 1: ParseSelector rejects it. */
  predicate BadPart(part: string) {
    var p := Strings.TrimSpace(part);
    p != "" && Strings.Atoi(p).Some? && Strings.Atoi(p).value <= 0
  }

  /** The part, trimmed, is the spelling of table number i. */
  predicate IndexPart(part: string, i: int) {
    var p := Strings.TrimSpace(part);
    p != "" && Strings.Atoi(p) == Some(i)
  }

  /** The part, trimmed, is the non-numeric name nm. */
  predicate NamePart(part: string, nm: string) {
    var p := Strings.TrimSpace(part);
    p != "" && Strings.Atoi(p).None? && p == nm
  }

  /** The loop of ParseSelector over the comma-separated parts, adding to sel
      and stopping at the first part that is a number below 1. */
  function ParseParts(parts: seq<string>, sel: Selector): (r: Result<Selector>)
    ensures r.Ok? ==> sel.indexes <= r.value.indexes && sel.names <= r.value.names
  {
    if parts == [] then Ok(sel)
    else
      var p := Strings.TrimSpace(parts[0]);
      if p == "" then ParseParts(parts[1..], sel)
      else
        match Strings.Atoi(p)
        case Some(i) =>
          if i <= 0 then Err(IndexError)
          else ParseParts(parts[1..], sel.(indexes := sel.indexes + {i}))
        case None => ParseParts(parts[1..], sel.(names := sel.names + {p}))
  }

  /** ParseSelector: a blank selector selects everything; otherwise every
      non-blank part is a table number or, when Atoi rejects it, a name. */
  function ParseSelector(s: string): (r: Result<Selector>)
    ensures Strings.AllSpace(s) ==> r == Ok(SelectAll)
  {
    Strings.TrimSpaceShape(s);
    if Strings.TrimSpace(s) == "" then Ok(SelectAll)
    else ParseParts(Strings.Split(s, ','), SelectAll)
  }

  /** The loop fails exactly when some part is a number below 1, and otherwise
      adds exactly the numbers and the names the parts spell. */
  lemma {:induction false} ParsePartsSpec(parts: seq<string>, sel: Selector)
    ensures var r := ParseParts(parts, sel);
      && (r.Err? <==> exists j :: 0 <= j < |parts| && BadPart(parts[j]))
      && (r.Ok? ==> forall i :: i in r.value.indexes <==>
            i in sel.indexes || exists j :: 0 <= j < |parts| && IndexPart(parts[j], i))
      && (r.Ok? ==> forall nm :: nm in r.value.names <==>
            nm in sel.names || exists j :: 0 <= j < |parts| && NamePart(parts[j], nm))
  {
    if parts != [] {
      var p := Strings.TrimSpace(parts[0]);
      var sel' :=
        if p == "" then sel
        else match Strings.Atoi(p)
          case Some(i) => sel.(indexes := sel.indexes + {i})
          case None => sel.(names := sel.names + {p});
      ParsePartsSpec(parts[1..], sel');
      ShiftParts(parts);
    }
  }

  /** The parts after the first are the rest of the parts. */
  lemma ShiftParts(parts: seq<string>)
    requires parts != []
    ensures forall j :: 1 <= j < |parts| ==> parts[1..][j - 1] == parts[j]
  {
  }

  /** What a parse result says about the parts it came from: an error exactly
      when some part is a number below 1; otherwise exactly the numbers and
      the names the parts spell, every number at least 1 and "" no name. */
  ghost predicate Describes(r: Result<Selector>, parts: seq<string>) {
    && (r.Err? <==> exists j :: 0 <= j < |parts| && BadPart(parts[j]))
    && (r.Ok? ==> forall i :: i in r.value.indexes <==> exists j :: 0 <= j < |parts| && IndexPart(parts[j], i))
    && (r.Ok? ==> forall nm :: nm in r.value.names <==> exists j :: 0 <= j < |parts| && NamePart(parts[j], nm))
    && (r.Ok? ==> (forall i :: i in r.value.indexes ==> i >= 1) && "" !in r.value.names)
  }

  /** ParseSelector fails exactly on a part that is a number below 1; on
      success it selects exactly the numbers and names the parts spell, every
      number is at least 1 and "" is never a name. */
  lemma ParseSelectorSpec(s: string)
    ensures Describes(ParseSelector(s), Strings.Split(s, ','))
  {
    var parts := Strings.Split(s, ',');
    if Strings.TrimSpace(s) == "" {
      BlankParts(s);
      BlankDescribes(parts);
    } else {
      PartsDescribe(parts);
    }
  }

  /** Blank parts describe the selector of everything. */
  lemma BlankDescribes(parts: seq<string>)
    requires forall j :: 0 <= j < |parts| ==> Strings.TrimSpace(parts[j]) == ""
    ensures Describes(Ok(SelectAll), parts)
  {
    assert SelectAll.indexes == {} && SelectAll.names == {};
  }

  /** The loop from the empty selector yields what its parts describe. */
  lemma PartsDescribe(parts: seq<string>)
    ensures Describes(ParseParts(parts, SelectAll), parts)
  {
    var r := ParseParts(parts, SelectAll);
    assert SelectAll.indexes == {} && SelectAll.names == {};
    ParsePartsSpec(parts, SelectAll);
    if r.Ok? {
      IndexesPositive(parts, r.value);
    }
  }

  /** Numbers taken from parts none of which is a number below 1 are at least 1. */
  lemma IndexesPositive(parts: seq<string>, sel: Selector)
    requires !exists j :: 0 <= j < |parts| && BadPart(parts[j])
    requires forall i :: i in sel.indexes ==> exists j :: 0 <= j < |parts| && IndexPart(parts[j], i)
    ensures forall i :: i in sel.indexes ==> i >= 1
  {
    forall i | i in sel.indexes ensures i >= 1 {
      var j :| 0 <= j < |parts| && IndexPart(parts[j], i);
      assert !BadPart(parts[j]);
    }
  }

  /** A selector with no comma and no surrounding white space is one part,
      itself. */
  lemma SinglePart(p: string)
    requires p != [] && ',' !in p && !Strings.IsSpace(p[0]) && !Strings.IsSpace(p[|p| - 1])
    ensures Strings.Split(p, ',') == [p]
    ensures Strings.TrimSpace(p) == p
  {
    Strings.SplitJoin([p], ',');
    assert Strings.Join([p], ',') == p;
    assert p[..0] == [] && p[|p|..] == [];
    Strings.TrimSpaceUnique(p, 0, |p|);
    assert p[0..|p|] == p;
  }

  /** A "+"-signed number selects that table: "+5" selects table 5 only. */
  lemma PlusSignedSelector()
    ensures ParseSelector("+5") == Ok(Selector({5}, {}))
  {
    Strings.AtoiPlusSign();
    SinglePart("+5");
    var parts := ["+5"];
    assert parts[0] == "+5" && parts[1..] == [];
    assert SelectAll.(indexes := SelectAll.indexes + {5}) == Selector({5}, {});
    assert ParseParts(parts, SelectAll) == ParseParts([], Selector({5}, {}));
  }

  /** "-0" reads as the number 0, below 1, so the selector is rejected. */
  lemma MinusZeroRejected()
    ensures ParseSelector("-0") == Err(IndexError)
  {
    Strings.AtoiMinusZero();
    SinglePart("-0");
  }

  /** A blank selector selects everything and splits into blank parts only. */
  lemma BlankParts(s: string)
    requires Strings.TrimSpace(s) == ""
    ensures ParseSelector(s) == Ok(SelectAll)
    ensures forall j :: 0 <= j < |Strings.Split(s, ',')| ==> Strings.TrimSpace(Strings.Split(s, ',')[j]) == ""
  {
    var parts := Strings.Split(s, ',');
    Strings.TrimSpaceShape(s);
    Strings.SplitAllSpace(s, ',');
    forall j | 0 <= j < |parts| ensures Strings.TrimSpace(parts[j]) == "" {
      Strings.TrimSpaceShape(parts[j]);
    }
  }

  // ---------------------------------------------------------------------------
  // Apply

  /** A table is selected by its number, its id or its name. */
  predicate Matches(sel: Selector, t: Table) {
    t.index in sel.indexes || t.id in sel.names || t.name in sel.names
  }

  function MatchesFn(sel: Selector): Table -> bool {
    t => Matches(sel, t)
  }

  /** The loop of Apply: the three lookups in turn, keeping a table at the
      first that succeeds. */
  function Select(sel: Selector, tables: seq<Table>): seq<Table> {
    if tables == [] then []
    else
      var t := tables[0];
      var keep :=
        if t.index in sel.indexes then [t]
        else if t.id in sel.names then [t]
        else if t.name in sel.names then [t]
        else [];
      keep + Select(sel, tables[1..])
  }

  /** Selector.Apply: everything for an empty selector, the matching tables
      otherwise. */
  function Apply(sel: Selector, tables: seq<Table>): (out: seq<Table>)
    ensures |out| <= |tables|
  {
    if |sel.indexes| == 0 && |sel.names| == 0 then tables
    else
      SelectIsFilter(sel, tables);
      Select(sel, tables)
  }

  lemma {:induction false} SelectIsFilter(sel: Selector, tables: seq<Table>)
    ensures Select(sel, tables) == Seqs.Filter(tables, MatchesFn(sel))
  {
    if tables != [] {
      SelectIsFilter(sel, tables[1..]);
    }
  }

  /** Apply returns its input for an empty selector; otherwise it keeps, in
      order and each at most once, exactly the tables that match. */
  lemma ApplySpec(sel: Selector, tables: seq<Table>)
    ensures |sel.indexes| == 0 && |sel.names| == 0 ==> Apply(sel, tables) == tables
    ensures |sel.indexes| != 0 || |sel.names| != 0 ==>
      && Apply(sel, tables) == Seqs.Filter(tables, MatchesFn(sel))
      && Seqs.IsSubseq(Apply(sel, tables), tables)
      && forall t :: t in Apply(sel, tables) <==> t in tables && Matches(sel, t)
  {
    if |sel.indexes| != 0 || |sel.names| != 0 {
      SelectIsFilter(sel, tables);
      Seqs.FilterIsSubseq(tables, MatchesFn(sel));
      forall t ensures t in Apply(sel, tables) <==> t in tables && Matches(sel, t) {
        Seqs.FilterMembership(tables, MatchesFn(sel), t);
      }
    }
  }

  // ---------------------------------------------------------------------------
  // SkipHeader

  /** A table with more than a header row. */
  predicate HasBody(t: Table) {
    |t.rows| > 1
  }

  /** SkipHeader: the tables with more than one row, each without its first row. */
  function SkipHeader(tables: seq<Table>): (out: seq<Table>)
    ensures |out| <= |tables|
  {
    if tables == [] then []
    else
      var t := tables[0];
      (if |t.rows| > 1 then [t.(rows := t.rows[1..])] else []) + SkipHeader(tables[1..])
  }

  /** SkipHeader keeps, in order, the tables with a body, and of each removes
      exactly the first row while keeping its number, id and name. */
  lemma {:induction false} SkipHeaderSpec(tables: seq<Table>)
    ensures var out, kept := SkipHeader(tables), Seqs.Filter(tables, HasBody);
      && |out| == |kept|
      && forall i :: 0 <= i < |out| ==>
           && out[i].index == kept[i].index && out[i].id == kept[i].id && out[i].name == kept[i].name
           && [kept[i].rows[0]] + out[i].rows == kept[i].rows
  {
    if tables != [] {
      SkipHeaderSpec(tables[1..]);
      var t := tables[0];
      if HasBody(t) {
        assert [t.rows[0]] + t.rows[1..] == t.rows;
      }
    }
  }

  /** Dropping the header row keeps a table rectangular. */
  lemma SkipHeaderRectangular(tables: seq<Table>)
    requires forall i :: 0 <= i < |tables| ==> Rectangular(tables[i].rows)
    ensures forall i :: 0 <= i < |SkipHeader(tables)| ==> Rectangular(SkipHeader(tables)[i].rows)
  {
    var out, kept := SkipHeader(tables), Seqs.Filter(tables, HasBody);
    SkipHeaderSpec(tables);
    forall i | 0 <= i < |out| ensures Rectangular(out[i].rows) {
      Seqs.FilterMembership(tables, HasBody, kept[i]);
      var k :| 0 <= k < |tables| && tables[k] == kept[i];
      assert out[i].rows == kept[i].rows[1..];
    }
  }
}
