/** The command's own copy of the extractor (html2csv.go): the same table walk
    without a fallback, and a selector of plain string keys. */
module Html2Csv {
  import opened Dom
  import opened Rows
  import opened Locate
  import Strings
  import Seqs
  import HtmlTable

  /** ExtractTables: the walk's tables and nothing else; its extractTableRows,
      normalizeRows and textContent are the ones of the htmltable package. */
  function ExtractTables(doc: Node): (ts: seq<Table>)
    ensures ts == Numbered(TableNodes(doc), 1, ExtractRows)
    ensures Increasing(ts) && Within(ts, 0, |TableNodes(doc)|)
    ensures ts == [] <==> forall k :: 0 <= k < |TableNodes(doc)| ==> ExtractRows(TableNodes(doc)[k]) == []
  {
    DocumentTablesNumbering(doc);
    DocumentTablesEmpty(doc);
    DocumentTables(doc)
  }

  /** Both extractors agree whenever the document has a table with rows. */
  lemma ParseAgrees(doc: Node, k: nat)
    requires k < |TableNodes(doc)| && ExtractRows(TableNodes(doc)[k]) != []
    ensures HtmlTable.Parse(doc) == ExtractTables(doc)
  {
    HtmlTable.ParseWithTables(doc, k);
  }

  // ---------------------------------------------------------------------------
  // ParseTableSelector

  /** The trimmed, non-empty parts, as a set. */
  function KeysOf(parts: seq<string>): (keys: set<string>)
    ensures "" !in keys
  {
    if parts == [] then {}
    else
      var p := Strings.TrimSpace(parts[0]);
      (if p != "" then {p} else {}) + KeysOf(parts[1..])
  }

  /** A key is in the set exactly when some part trims to it and it is not "". */
  lemma {:induction false} KeysOfSpec(parts: seq<string>, key: string)
    ensures key in KeysOf(parts) <==>
      key != "" && exists j :: 0 <= j < |parts| && Strings.TrimSpace(parts[j]) == key
  {
    if parts != [] {
      KeysOfSpec(parts[1..], key);
      if key in KeysOf(parts[1..]) {
        var j :| 0 <= j < |parts| - 1 && Strings.TrimSpace(parts[1..][j]) == key;
        assert parts[1..][j] == parts[j + 1];
      }
      if exists j :: 0 <= j < |parts| && Strings.TrimSpace(parts[j]) == key {
        var j :| 0 <= j < |parts| && Strings.TrimSpace(parts[j]) == key;
        if j > 0 {
          assert parts[1..][j - 1] == parts[j];
        }
      }
    }
  }

  /** ParseTableSelector: every comma-separated part, trimmed, except the
      blank ones; it never fails. */
  function ParseTableSelector(s: string): (sel: set<string>)
    ensures "" !in sel
  {
    KeysOf(Strings.Split(s, ','))
  }

  /** The selector holds exactly the trimmed non-blank parts. */
  lemma ParseTableSelectorSpec(s: string, key: string)
    ensures key in ParseTableSelector(s) <==> key != "" && exists j :: 0 <= j < |Strings.Split(s, ',')| && Strings.TrimSpace(Strings.Split(s, ',')[j]) == key
  {
    assert key in ParseTableSelector(s) <==> key in KeysOf(Strings.Split(s, ','));
    KeysOfSpec(Strings.Split(s, ','), key);
  }

  // ---------------------------------------------------------------------------
  // FilterTables

  /** A table is selected by the decimal spelling of its number, or by its id
      or name when those are not empty. */
  predicate KeyMatches(sel: set<string>, t: Table) {
    Strings.Itoa(t.index) in sel || (t.id != "" && t.id in sel) || (t.name != "" && t.name in sel)
  }

  function KeyMatchesFn(sel: set<string>): Table -> bool {
    t => KeyMatches(sel, t)
  }

  /** The loop of FilterTables: the three lookups in turn. */
  function Pick(tables: seq<Table>, sel: set<string>): seq<Table> {
    if tables == [] then []
    else
      var t := tables[0];
      var keep :=
        if Strings.Itoa(t.index) in sel then [t]
        else if t.id != "" && t.id in sel then [t]
        else if t.name != "" && t.name in sel then [t]
        else [];
      keep + Pick(tables[1..], sel)
  }

  /** FilterTables: everything for an empty selector, the matching tables otherwise. */
  function FilterTables(tables: seq<Table>, sel: set<string>): (out: seq<Table>)
    ensures |out| <= |tables|
  {
    if |sel| == 0 then tables
    else
      PickIsFilter(tables, sel);
      Pick(tables, sel)
  }

  lemma {:induction false} PickIsFilter(tables: seq<Table>, sel: set<string>)
    ensures Pick(tables, sel) == Seqs.Filter(tables, KeyMatchesFn(sel))
  {
    if tables != [] {
      PickIsFilter(tables[1..], sel);
    }
  }

  /** FilterTables returns its input for an empty selector; otherwise it keeps,
      in order and each at most once, exactly the matching tables. */
  lemma FilterTablesSpec(tables: seq<Table>, sel: set<string>)
    ensures |sel| == 0 ==> FilterTables(tables, sel) == tables
    ensures |sel| != 0 ==>
      && FilterTables(tables, sel) == Seqs.Filter(tables, KeyMatchesFn(sel))
      && Seqs.IsSubseq(FilterTables(tables, sel), tables)
      && forall t :: t in FilterTables(tables, sel) <==> t in tables && KeyMatches(sel, t)
  {
    if |sel| != 0 {
      PickIsFilter(tables, sel);
      Seqs.FilterIsSubseq(tables, KeyMatchesFn(sel));
      forall t ensures t in FilterTables(tables, sel) <==> t in tables && KeyMatches(sel, t) {
        Seqs.FilterMembership(tables, KeyMatchesFn(sel), t);
      }
    }
  }

  /** A key with a sign or a leading zero ("+1", "01", "-01") never selects a
      table by number, and neither does "0" select a table numbered from 1:
      such a key selects exactly the tables with that id or name. */
  lemma NonCanonicalKeyMatchesNoIndex(t: Table, key: string)
    requires key == "0" ==> t.index >= 1
    requires key == "" || key[0] == '+' || key == "0" || (|key| >= 2 && key[0] == '0')
          || (|key| >= 2 && key[0] == '-' && key[1] == '0')
    ensures KeyMatches({key}, t) <==> key != "" && (t.id == key || t.name == key)
  {
    if key == "0" {
      if Strings.Itoa(t.index) == key {
        Strings.ItoaInjective(t.index, 0);
      }
    } else {
      Strings.ItoaIsCanonical(t.index, key);
    }
  }

  /** A selector none of whose parts spells a number parses, in htmltable,
      to no table numbers and to exactly html2csv's keys as names. */
  lemma NameKeysSelector(s: string)
    requires forall j :: 0 <= j < |Strings.Split(s, ',')| ==>
      Strings.Atoi(Strings.TrimSpace(Strings.Split(s, ',')[j])).None?
    ensures HtmlTable.ParseSelector(s).Ok?
    ensures HtmlTable.ParseSelector(s).value.indexes == {}
    ensures HtmlTable.ParseSelector(s).value.names == ParseTableSelector(s)
  {
    var parts := Strings.Split(s, ',');
    HtmlTable.ParseSelectorSpec(s);
    var r := HtmlTable.ParseSelector(s);
    assert !exists j :: 0 <= j < |parts| && HtmlTable.BadPart(parts[j]);
    var sel := r.value;
    forall i ensures i !in sel.indexes {
      assert !exists j :: 0 <= j < |parts| && HtmlTable.IndexPart(parts[j], i);
    }
    forall key ensures key in sel.names <==> key in ParseTableSelector(s) {
      var named := exists j :: 0 <= j < |parts| && HtmlTable.NamePart(parts[j], key);
      var trimmed := exists j :: 0 <= j < |parts| && Strings.TrimSpace(parts[j]) == key;
      assert key in sel.names <==> named;
      assert ParseTableSelector(s) == KeysOf(parts);
      KeysOfSpec(parts, key);
      assert key in ParseTableSelector(s) <==> key != "" && trimmed;
      NamePartsAreKeys(parts, key);
      assert named <==> key != "" && trimmed;
    }
  }

  /** Among parts none of which spells a number, htmltable's names are the
      non-empty trimmed parts. */
  lemma NamePartsAreKeys(parts: seq<string>, key: string)
    requires forall j :: 0 <= j < |parts| ==> Strings.Atoi(Strings.TrimSpace(parts[j])).None?
    ensures (exists j :: 0 <= j < |parts| && HtmlTable.NamePart(parts[j], key)) <==>
      key != "" && exists j :: 0 <= j < |parts| && Strings.TrimSpace(parts[j]) == key
  {
  }

  /** On a selector none of whose parts spells a number, the two selectors
      agree: htmltable's selects no numbers and its names are html2csv's keys,
      and both pick the same tables (for table numbers that fit in an int). */
  lemma NameKeysAgree(s: string, t: Table)
    requires Strings.IsInt(t.index)
    requires forall j :: 0 <= j < |Strings.Split(s, ',')| ==>
      Strings.Atoi(Strings.TrimSpace(Strings.Split(s, ',')[j])).None?
    ensures HtmlTable.ParseSelector(s).Ok?
    ensures HtmlTable.ParseSelector(s).value.indexes == {}
    ensures HtmlTable.ParseSelector(s).value.names == ParseTableSelector(s)
    ensures HtmlTable.Matches(HtmlTable.ParseSelector(s).value, t) <==> KeyMatches(ParseTableSelector(s), t)
  {
    NameKeysSelector(s);
    var keys := ParseTableSelector(s);
    var key := Strings.Itoa(t.index);
    Strings.AtoiItoa(t.index);
    ParseTableSelectorSpec(s, key);
    assert key !in keys;
  }
}
