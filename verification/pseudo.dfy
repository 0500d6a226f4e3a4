/** The directory-listing fallback of Parse (htmltable/pseudo.go): a <pre>
    block of anchors, as web servers emit for directory indexes, read as a
    table whose header is the anchors before the first <hr>. */
module Pseudo {
  import opened Wrappers
  import opened Dom
  import opened Rows
  import opened Locate
  import Strings

  // ---------------------------------------------------------------------------
  // firstElement

  /** firstElement: the first element with the tag in pre-order, the root
      itself included; None when there is none. */
  function FirstElement(n: Node, tag: string): (r: Option<Node>)
    ensures r.Some? ==> IsElement(r.value, tag)
    decreases n
  {
    if IsElement(n, tag) then Some(n) else FirstElementList(n.children, tag)
  }

  function FirstElementList(ns: seq<Node>, tag: string): (r: Option<Node>)
    ensures r.Some? ==> IsElement(r.value, tag)
    decreases ns
  {
    if ns == [] then None
    else
      match FirstElement(ns[0], tag)
      case Some(e) => Some(e)
      case None => FirstElementList(ns[1..], tag)
  }

  /** Reference: the position of the first element with the tag in a flat list,
      or |ps| when there is none. */
  function FirstIndex(ps: seq<Node>, tag: string): (k: nat)
    ensures k <= |ps|
    ensures forall j :: 0 <= j < k ==> !IsElement(ps[j], tag)
    ensures k < |ps| ==> IsElement(ps[k], tag)
  {
    if ps == [] then 0
    else if IsElement(ps[0], tag) then 0
    else 1 + FirstIndex(ps[1..], tag)
  }

  function FirstMatch(ps: seq<Node>, tag: string): Option<Node> {
    var k := FirstIndex(ps, tag);
    if k < |ps| then Some(ps[k]) else None
  }

  lemma {:induction false} FirstIndexAppend(a: seq<Node>, b: seq<Node>, tag: string)
    ensures FirstIndex(a + b, tag) ==
      if FirstIndex(a, tag) < |a| then FirstIndex(a, tag) else |a| + FirstIndex(b, tag)
  {
    if a == [] {
      assert a + b == b;
    } else if !IsElement(a[0], tag) {
      assert (a + b)[1..] == a[1..] + b;
      FirstIndexAppend(a[1..], b, tag);
    }
  }

  lemma FirstMatchAppend(a: seq<Node>, b: seq<Node>, tag: string)
    ensures FirstMatch(a + b, tag) == if FirstMatch(a, tag).Some? then FirstMatch(a, tag) else FirstMatch(b, tag)
  {
    FirstIndexAppend(a, b, tag);
    var k := FirstIndex(a, tag);
    if k >= |a| {
      var m := FirstIndex(b, tag);
      if m < |b| {
        assert (a + b)[|a| + m] == b[m];
      }
    }
  }

  /** firstElement finds the first matching node of the pre-order. */
  lemma {:induction false} FirstElementIsFirstInPreOrder(n: Node, tag: string)
    ensures FirstElement(n, tag) == FirstMatch(PreOrder(n), tag)
    decreases n
  {
    FirstElementListIsFirstInPreOrder(n.children, tag);
    FirstMatchAppend([n], PreOrderList(n.children), tag);
    assert FirstMatch([n], tag) == if IsElement(n, tag) then Some(n) else None;
  }

  lemma {:induction false} FirstElementListIsFirstInPreOrder(ns: seq<Node>, tag: string)
    ensures FirstElementList(ns, tag) == FirstMatch(PreOrderList(ns), tag)
    decreases ns
  {
    if ns != [] {
      FirstElementIsFirstInPreOrder(ns[0], tag);
      FirstElementListIsFirstInPreOrder(ns[1..], tag);
      FirstMatchAppend(PreOrder(ns[0]), PreOrderList(ns[1..]), tag);
    }
  }

  // ---------------------------------------------------------------------------
  // Listing rows

  predicate IsAnchor(n: Node) {
    IsElement(n, "a")
  }

  predicate IsRule(n: Node) {
    IsElement(n, "hr")
  }

  /** The metadata after the anchor cs[k]: the trimmed data of its next sibling
      when that is a text node, "" otherwise. */
  function Meta(cs: seq<Node>, k: nat): string
    requires k < |cs|
  {
    if k + 1 < |cs| && IsText(cs[k + 1]) then Strings.TrimSpace(cs[k + 1].kind.data) else ""
  }

  /** A data row: the anchor's text, then the first two white-space separated
      words of the metadata joined by one space (date and time) when there are
      two, then the third word (the size) when there are three. */
  function ListingRow(text: string, meta: string): (row: Row)
    ensures 1 <= |row| <= 3 && row[0] == text
    ensures |row| >= 2 <==> |Strings.Fields(meta)| >= 2
    ensures |row| == 3 <==> |Strings.Fields(meta)| >= 3
  {
    var fields := Strings.Fields(meta);
    [text]
    + (if |fields| >= 2 then [fields[0] + " " + fields[1]] else [])
    + (if |fields| >= 3 then [fields[2]] else [])
  }

  /** A listing line as a directory index writes it: the anchor, then white
      space, date, time and size. Its row is the name, "date time" joined by
      one space, and the size. */
  lemma ListingRowOfLine(ws: string, ws': string)
    requires Strings.AllSpace(ws) && Strings.AllSpace(ws')
    ensures ListingRow("file.iso", Strings.TrimSpace(ws + "2025-08-25 20:08  3.3G" + ws'))
      == ["file.iso", "2025-08-25 20:08", "3.3G"]
  {
    Strings.FieldsOfListingMeta(ws, ws');
    var fields := Strings.Fields(Strings.TrimSpace(ws + "2025-08-25 20:08  3.3G" + ws'));
    assert fields[0] + " " + fields[1] == "2025-08-25 20:08";
    assert fields[2] == "3.3G";
  }

  /** The date/time column splits back into the first two words of the
      metadata, and the size column is exactly its third word. */
  lemma ListingRowColumns(text: string, meta: string)
    ensures var row, fields := ListingRow(text, meta), Strings.Fields(meta);
      && (|row| >= 2 ==> row[1] == Strings.Join(fields[..2], ' ') && Strings.Fields(row[1]) == fields[..2])
      && (|row| == 3 ==> row[2] == fields[2] && Strings.Fields(row[2]) == [fields[2]])
  {
    var row, fields := ListingRow(text, meta), Strings.Fields(meta);
    if |row| >= 2 {
      var two := fields[..2];
      assert Strings.Join(two, ' ') == row[1] by {
        assert two[1..] == [fields[1]];
      }
      Strings.FieldsOfJoin(two);
    }
    if |row| == 3 {
      Strings.FieldsOfJoin([fields[2]]);
    }
  }

  function RowAt(cs: seq<Node>, k: nat): Row
    requires k < |cs|
  {
    ListingRow(TrimmedText(cs[k]), Meta(cs, k))
  }

  /** An anchor that is last, or whose next sibling is not a text node, gives
      a row holding only its text. */
  lemma RowWithoutMeta(cs: seq<Node>, k: nat)
    requires k < |cs|
    requires k + 1 == |cs| || !IsText(cs[k + 1])
    ensures RowAt(cs, k) == [TrimmedText(cs[k])]
  {
    assert Meta(cs, k) == "";
    assert Strings.Fields("") == [];
  }

  // ---------------------------------------------------------------------------
  // The scan of the <pre> block

  datatype Scan = Scan(header: Row, rows: seq<Row>)

  /** The loop over the <pre>'s children from cs[k] on: an <hr> ends the
      header, an anchor adds a header label while in the header and a data
      row afterwards, anything else is skipped. */
  function ScanFrom(cs: seq<Node>, k: nat, inHeader: bool): Scan
    requires k <= |cs|
    decreases |cs| - k
  {
    if k == |cs| then Scan([], [])
    else if IsRule(cs[k]) then ScanFrom(cs, k + 1, false)
    else if IsAnchor(cs[k]) then
      var rest := ScanFrom(cs, k + 1, inHeader);
      if inHeader then Scan([TrimmedText(cs[k])] + rest.header, rest.rows)
      else Scan(rest.header, [RowAt(cs, k)] + rest.rows)
    else ScanFrom(cs, k + 1, inHeader)
  }

  /** Reference: the position of the first <hr> at or after k, or |cs|. */
  function FirstRuleFrom(cs: seq<Node>, k: nat): (h: nat)
    requires k <= |cs|
    ensures k <= h <= |cs|
    ensures forall j :: k <= j < h ==> !IsRule(cs[j])
    ensures h < |cs| ==> IsRule(cs[h])
    decreases |cs| - k
  {
    if k == |cs| || IsRule(cs[k]) then k else FirstRuleFrom(cs, k + 1)
  }

  /** Reference: the labels of the anchors among cs[lo..hi], in order. */
  function LabelsIn(cs: seq<Node>, lo: nat, hi: nat): seq<string>
    requires lo <= hi <= |cs|
    decreases hi - lo
  {
    if lo == hi then []
    else (if IsAnchor(cs[lo]) then [TrimmedText(cs[lo])] else []) + LabelsIn(cs, lo + 1, hi)
  }

  /** Reference: the data rows of every anchor from cs[lo] on, <hr> or not. */
  function RowsFrom(cs: seq<Node>, lo: nat): seq<Row>
    decreases |cs| - lo
  {
    if lo >= |cs| then []
    else (if IsAnchor(cs[lo]) then [RowAt(cs, lo)] else []) + RowsFrom(cs, lo + 1)
  }

  /** Outside the header the scan turns every anchor into a data row. */
  lemma {:induction false} ScanAfterRule(cs: seq<Node>, k: nat)
    requires k <= |cs|
    ensures ScanFrom(cs, k, false) == Scan([], RowsFrom(cs, k))
    decreases |cs| - k
  {
    if k < |cs| {
      ScanAfterRule(cs, k + 1);
      var rest := ScanFrom(cs, k + 1, false);
      if IsRule(cs[k]) || !IsAnchor(cs[k]) {
        assert ScanFrom(cs, k, false) == rest;
        assert RowsFrom(cs, k) == RowsFrom(cs, k + 1);
      } else {
        assert ScanFrom(cs, k, false) == Scan(rest.header, [RowAt(cs, k)] + rest.rows);
        assert RowsFrom(cs, k) == [RowAt(cs, k)] + RowsFrom(cs, k + 1);
      }
    }
  }

  /** In the header the scan collects the labels of the anchors before the
      first <hr>, and every anchor after that <hr> becomes a data row. */
  lemma {:induction false} ScanInHeader(cs: seq<Node>, k: nat)
    requires k <= |cs|
    ensures ScanFrom(cs, k, true) ==
      Scan(LabelsIn(cs, k, FirstRuleFrom(cs, k)), RowsFrom(cs, FirstRuleFrom(cs, k) + 1))
    decreases |cs| - k
  {
    if k == |cs| {
      assert LabelsIn(cs, k, k) == [] && RowsFrom(cs, k + 1) == [];
    } else if IsRule(cs[k]) {
      ScanAfterRule(cs, k + 1);
      assert ScanFrom(cs, k, true) == ScanFrom(cs, k + 1, false);
      assert LabelsIn(cs, k, k) == [];
    } else {
      ScanInHeader(cs, k + 1);
      ScanHeaderStep(cs, k);
    }
  }

  /** One header step: a child that is not an <hr> adds its label, if it is an
      anchor, in front of what the scan from the next child collects. */
  lemma ScanHeaderStep(cs: seq<Node>, k: nat)
    requires k < |cs| && !IsRule(cs[k])
    requires ScanFrom(cs, k + 1, true) ==
      Scan(LabelsIn(cs, k + 1, FirstRuleFrom(cs, k + 1)), RowsFrom(cs, FirstRuleFrom(cs, k + 1) + 1))
    ensures ScanFrom(cs, k, true) ==
      Scan(LabelsIn(cs, k, FirstRuleFrom(cs, k)), RowsFrom(cs, FirstRuleFrom(cs, k) + 1))
  {
    var h := FirstRuleFrom(cs, k);
    assert h == FirstRuleFrom(cs, k + 1);
    var rest := ScanFrom(cs, k + 1, true);
    if IsAnchor(cs[k]) {
      assert LabelsIn(cs, k, h) == [TrimmedText(cs[k])] + LabelsIn(cs, k + 1, h);
      assert ScanFrom(cs, k, true) == Scan([TrimmedText(cs[k])] + rest.header, rest.rows);
    } else {
      assert LabelsIn(cs, k, h) == LabelsIn(cs, k + 1, h);
      assert ScanFrom(cs, k, true) == rest;
    }
  }

  /** Every listing row has one to three fields. */
  lemma {:induction false} RowsFromWidths(cs: seq<Node>, lo: nat)
    ensures forall i :: 0 <= i < |RowsFrom(cs, lo)| ==> 1 <= |RowsFrom(cs, lo)[i]| <= 3
    decreases |cs| - lo
  {
    if lo < |cs| {
      RowsFromWidths(cs, lo + 1);
      var here := if IsAnchor(cs[lo]) then [RowAt(cs, lo)] else [];
      var rest := RowsFrom(cs, lo + 1);
      assert forall i :: 0 <= i < |rest| ==> (here + rest)[|here| + i] == rest[i];
    }
  }

  /** Once out of the header the scan adds no labels, and every data row it
      builds has one to three fields. */
  lemma ScanShape(cs: seq<Node>, k: nat, inHeader: bool)
    requires k <= |cs|
    ensures !inHeader ==> ScanFrom(cs, k, inHeader).header == []
    ensures forall i :: 0 <= i < |ScanFrom(cs, k, inHeader).rows| ==> 1 <= |ScanFrom(cs, k, inHeader).rows[i]| <= 3
  {
    if inHeader {
      ScanInHeader(cs, k);
      RowsFromWidths(cs, FirstRuleFrom(cs, k) + 1);
    } else {
      ScanAfterRule(cs, k);
      RowsFromWidths(cs, k);
    }
  }

  // ---------------------------------------------------------------------------
  // parseDirectoryListing

  /** The table name the fallback reports. */
  const DirectoryName := "directory"

  /** parseDirectoryListing: None without a <pre>, without header labels or
      without data rows; otherwise table 1 named "directory" whose first row is
      the header and whose other rows are the data rows, each padded with ""
      up to the header's width. */
  function DirectoryListing(doc: Node): (r: Option<Table>)
    ensures FirstElement(doc, "pre").None? ==> r.None?
    ensures r.Some? ==> r.value.index == 1 && r.value.id == "" && r.value.name == DirectoryName
    ensures r.Some? ==> |r.value.rows| >= 2 && r.value.rows[0] != []
    ensures r.Some? ==> forall i :: 1 <= i < |r.value.rows| ==> |r.value.rows[0]| <= |r.value.rows[i]|
  {
    match FirstElement(doc, "pre")
    case None => None
    case Some(pre) =>
      var s := ScanFrom(pre.children, 0, true);
      if s.header == [] || s.rows == [] then None
      else Some(Table(1, "", DirectoryName, [s.header] + PadAll(s.rows, |s.header|)))
  }

  /** The fallback in terms of the reference definitions: with a <pre> whose
      first <hr> is at position h, it fails exactly when no anchor precedes h
      or none follows it, and otherwise holds the labels before h over the rows
      of the anchors after h. */
  lemma DirectoryListingSpec(doc: Node)
    ensures match FirstElement(doc, "pre")
      case None => DirectoryListing(doc).None?
      case Some(pre) =>
        var cs := pre.children;
        var h := FirstRuleFrom(cs, 0);
        var header, rows := LabelsIn(cs, 0, h), RowsFrom(cs, h + 1);
        && (DirectoryListing(doc).None? <==> header == [] || rows == [])
        && (DirectoryListing(doc).Some? ==>
              DirectoryListing(doc).value.rows == [header] + PadAll(rows, |header|))
  {
    match FirstElement(doc, "pre")
    case None =>
    case Some(pre) =>
      ScanInHeader(pre.children, 0);
  }

  lemma PaddedFitsHeader(header: Row, rows: seq<Row>)
    requires MaxWidth(rows) <= |header|
    ensures Rectangular([header] + PadAll(rows, |header|))
  {
    var padded := PadAll(rows, |header|);
    var all := [header] + padded;
    forall i | 0 <= i < |all| ensures |all[i]| == |header| {
      if i > 0 {
        assert all[i] == padded[i - 1];
      }
    }
  }

  lemma PaddedWiderRow(header: Row, rows: seq<Row>)
    requires MaxWidth(rows) > |header|
    ensures !Rectangular([header] + PadAll(rows, |header|))
  {
    var i :| 0 <= i < |rows| && |rows[i]| == MaxWidth(rows);
    var padded := PadAll(rows, |header|);
    assert |padded[i]| > |header| by {
      assert padded[i] == Pad(rows[i], |header|);
    }
    HeaderDiffers(header, padded, i);
  }

  /** A row whose width differs from the header's makes the table not
      rectangular. */
  lemma HeaderDiffers(header: Row, rows: seq<Row>, i: nat)
    requires i < |rows| && |rows[i]| != |header|
    ensures !Rectangular([header] + rows)
  {
    var all := [header] + rows;
    assert all[0] == header && all[i + 1] == rows[i];
  }

  /** Rows padded to a header's width, under that header, are rectangular
      exactly when no row is wider than the header: padding never cuts. */
  lemma PaddedUnderHeader(header: Row, rows: seq<Row>)
    ensures Rectangular([header] + PadAll(rows, |header|)) <==> MaxWidth(rows) <= |header|
  {
    if MaxWidth(rows) <= |header| {
      PaddedFitsHeader(header, rows);
    } else {
      PaddedWiderRow(header, rows);
    }
  }

  /** The fallback table is rectangular exactly when no data row is wider
      than the header. */
  lemma DirectoryListingRectangular(doc: Node)
    requires DirectoryListing(doc).Some?
    ensures var pre := FirstElement(doc, "pre").value;
      var s := ScanFrom(pre.children, 0, true);
      Rectangular(DirectoryListing(doc).value.rows) <==> MaxWidth(s.rows) <= |s.header|
  {
    var pre := FirstElement(doc, "pre").value;
    var s := ScanFrom(pre.children, 0, true);
    PaddedUnderHeader(s.header, s.rows);
  }
}
