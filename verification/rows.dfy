/** Row extraction from a table subtree (extractRows / extractTableRows) and
    width normalization (normalize / normalizeRows). */
module Rows {
  import opened Dom
  import Seqs
  import Strings

  type Row = seq<string>

  predicate IsCell(n: Node) {
    IsElement(n, "td") || IsElement(n, "th")
  }

  predicate IsRowElement(n: Node) {
    IsElement(n, "tr")
  }

  /** The field a cell (or a listing anchor) contributes: its text content
      without surrounding white space. */
  function TrimmedText(n: Node): string {
    Strings.TrimSpace(TextContent(n))
  }

  /** The fields of a row: one per td/th among the row's direct children, in order. */
  function Cells(children: seq<Node>): (row: Row)
    ensures |row| <= |children|
  {
    if children == [] then []
    else (if IsCell(children[0]) then [TrimmedText(children[0])] else []) + Cells(children[1..])
  }

  /** A row's fields are the trimmed texts of exactly its td/th children. */
  lemma {:induction false} CellsAreCellChildren(children: seq<Node>)
    ensures Cells(children) == Seqs.Map(Seqs.Filter(children, IsCell), TrimmedText)
  {
    if children != [] {
      CellsAreCellChildren(children[1..]);
      var rest := Seqs.Filter(children[1..], IsCell);
      if IsCell(children[0]) {
        assert Seqs.Filter(children, IsCell) == [children[0]] + rest;
        assert Seqs.Map([children[0]] + rest, TrimmedText)[1..] == Seqs.Map(rest, TrimmedText);
      }
    }
  }

  /** What a single node contributes to the row list: its fields when it is a
      tr with at least one cell, nothing otherwise. */
  function RowOf(n: Node): seq<Row> {
    if IsRowElement(n) && Cells(n.children) != [] then [Cells(n.children)] else []
  }

  /** The rows of n's subtree before normalization: every tr in pre-order,
      including those of nested tables, minus the rows without cells. */
  function RawRows(n: Node): (rows: seq<Row>)
    ensures forall i :: 0 <= i < |rows| ==> rows[i] != []
    decreases n
  {
    RowOf(n) + RawRowsList(n.children)
  }

  function RawRowsList(ns: seq<Node>): (rows: seq<Row>)
    ensures forall i :: 0 <= i < |rows| ==> rows[i] != []
    decreases ns
  {
    if ns == [] then [] else RawRows(ns[0]) + RawRowsList(ns[1..])
  }

  /** Reference: the rows of a flat list of nodes, one node at a time. */
  function RowsOf(ps: seq<Node>): seq<Row> {
    if ps == [] then [] else RowOf(ps[0]) + RowsOf(ps[1..])
  }

  lemma {:induction false} RowsOfAppend(a: seq<Node>, b: seq<Node>)
    ensures RowsOf(a + b) == RowsOf(a) + RowsOf(b)
  {
    if a == [] {
      assert a + b == b;
    } else {
      assert (a + b)[1..] == a[1..] + b;
      RowsOfAppend(a[1..], b);
    }
  }

  /** The raw rows are the rows of the tr elements of the subtree in pre-order. */
  lemma {:induction false} RawRowsFollowPreOrder(n: Node)
    ensures RawRows(n) == RowsOf(PreOrder(n))
    decreases n
  {
    RawRowsListFollowPreOrder(n.children);
    RowsOfAppend([n], PreOrderList(n.children));
  }

  lemma {:induction false} RawRowsListFollowPreOrder(ns: seq<Node>)
    ensures RawRowsList(ns) == RowsOf(PreOrderList(ns))
    decreases ns
  {
    if ns != [] {
      RawRowsFollowPreOrder(ns[0]);
      RawRowsListFollowPreOrder(ns[1..]);
      RowsOfAppend(PreOrder(ns[0]), PreOrderList(ns[1..]));
    }
  }

  // ---------------------------------------------------------------------------
  // Normalization

  predicate Rectangular(rows: seq<Row>) {
    forall i, j :: 0 <= i < |rows| && 0 <= j < |rows| ==> |rows[i]| == |rows[j]|
  }

  /** The widest row's width; 0 for no rows. */
  function MaxWidth(rows: seq<Row>): (w: nat)
    ensures forall i :: 0 <= i < |rows| ==> |rows[i]| <= w
    ensures rows != [] ==> exists i :: 0 <= i < |rows| && |rows[i]| == w
    ensures rows == [] ==> w == 0
  {
    if rows == [] then 0
    else
      var m := MaxWidth(rows[1..]);
      assert forall i :: 1 <= i < |rows| ==> rows[i] == rows[1..][i - 1];
      if |rows[0]| >= m then |rows[0]| else m
  }

  /** row extended with "" up to width w; a row already at least w wide is unchanged. */
  function Pad(row: Row, w: nat): (r: Row)
    ensures |r| == if |row| >= w then |row| else w
    ensures row <= r
    ensures forall j :: |row| <= j < |r| ==> r[j] == ""
  {
    if |row| >= w then row else row + seq(w - |row|, _ => "")
  }

  /** Every row padded to at least width w. */
  function PadAll(rows: seq<Row>, w: nat): (r: seq<Row>)
    ensures |r| == |rows|
    ensures forall i :: 0 <= i < |rows| ==> r[i] == Pad(rows[i], w)
  {
    seq(|rows|, i requires 0 <= i < |rows| => Pad(rows[i], w))
  }

  /** normalize: the same rows, each padded with "" to the widest row's width. */
  function Normalize(rows: seq<Row>): (r: seq<Row>)
    ensures |r| == |rows|
    ensures Rectangular(r)
    ensures forall i :: 0 <= i < |r| ==> |r[i]| == MaxWidth(rows)
    ensures forall i :: 0 <= i < |r| ==> rows[i] <= r[i]
    ensures forall i, j :: 0 <= i < |r| && |rows[i]| <= j < |r[i]| ==> r[i][j] == ""
  {
    PadAll(rows, MaxWidth(rows))
  }

  /** Normalizing rows that are already rectangular changes nothing. */
  lemma NormalizeRectangular(rows: seq<Row>)
    requires Rectangular(rows)
    ensures Normalize(rows) == rows
  {
    var r := Normalize(rows);
    forall i | 0 <= i < |rows| ensures r[i] == rows[i] {
      assert |rows[i]| == MaxWidth(rows);
    }
  }

  /** Normalization is idempotent. */
  lemma NormalizeIdempotent(rows: seq<Row>)
    ensures Normalize(Normalize(rows)) == Normalize(rows)
  {
    NormalizeRectangular(Normalize(rows));
  }

  /** extractRows: the raw rows of a table subtree, normalized. */
  function ExtractRows(table: Node): (rows: seq<Row>)
    ensures |rows| == |RawRows(table)|
  {
    Normalize(RawRows(table))
  }

  /** The extracted rows extend the raw rows, have one width and none is empty. */
  lemma ExtractRowsShape(table: Node)
    ensures var rows := ExtractRows(table);
      && (forall i :: 0 <= i < |rows| ==> RawRows(table)[i] <= rows[i])
      && Rectangular(rows)
      && (forall i :: 0 <= i < |rows| ==> rows[i] != [])
  {
    var rows := ExtractRows(table);
    forall i | 0 <= i < |rows| ensures rows[i] != [] {
      assert RawRows(table)[i] <= rows[i];
    }
  }
}
