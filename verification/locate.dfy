/** The table walk shared by Parse (htmltable/htmltable.go) and ExtractTables
    (html2csv.go): one counter, incremented at every <table> in pre-order before
    the table's rows are looked at. */
module Locate {
  import opened Dom
  import opened Rows
  import Seqs

  /** One extracted table: its 1-based position among the document's <table>
      elements, its id and name attributes ("" when absent) and its rows. */
  datatype Table = Table(index: int, id: string, name: string, rows: seq<Row>)

  predicate IsTable(n: Node) {
    IsElement(n, "table")
  }

  /** The row extraction a walk applies to every <table> element it reaches.
      The document walk uses Rows.ExtractRows; keeping it a parameter here lets
      the numbering be reasoned about apart from what the rows contain. */
  type RowsFn = Node -> seq<Row>

  /** The record built for a <table> element reached as the index-th one. */
  function TableOf(n: Node, index: int, rowsOf: RowsFn): Table
    requires IsTable(n)
  {
    Table(index, AttrValue(n.kind.attrs, "id"), AttrValue(n.kind.attrs, "name"), rowsOf(n))
  }

  /** The <table> elements of n's subtree, n included, in pre-order. */
  function TableNodes(n: Node): (tns: seq<Node>)
    ensures forall k :: 0 <= k < |tns| ==> IsTable(tns[k])
    decreases n
  {
    (if IsTable(n) then [n] else []) + TableNodesList(n.children)
  }

  function TableNodesList(ns: seq<Node>): (tns: seq<Node>)
    ensures forall k :: 0 <= k < |tns| ==> IsTable(tns[k])
    decreases ns
  {
    if ns == [] then [] else TableNodes(ns[0]) + TableNodesList(ns[1..])
  }

  /** The <table> elements are those of the pre-order, in pre-order. */
  lemma {:induction false} TableNodesArePreOrderTables(n: Node)
    ensures TableNodes(n) == Seqs.Filter(PreOrder(n), IsTable)
    decreases n
  {
    TableNodesListArePreOrderTables(n.children);
    Seqs.FilterAppend([n], PreOrderList(n.children), IsTable);
    assert Seqs.Filter([n], IsTable) == if IsTable(n) then [n] else [];
  }

  lemma {:induction false} TableNodesListArePreOrderTables(ns: seq<Node>)
    ensures TableNodesList(ns) == Seqs.Filter(PreOrderList(ns), IsTable)
    decreases ns
  {
    if ns != [] {
      TableNodesArePreOrderTables(ns[0]);
      TableNodesListArePreOrderTables(ns[1..]);
      Seqs.FilterAppend(PreOrder(ns[0]), PreOrderList(ns[1..]), IsTable);
    }
  }

  /** The table, if any, that the index-th <table> element n yields: none when
      it has no rows. */
  function Keep(n: Node, index: int, rowsOf: RowsFn): seq<Table>
    requires IsTable(n)
  {
    if rowsOf(n) != [] then [TableOf(n, index, rowsOf)] else []
  }

  /** Reference: numbering a list of <table> elements first, first + 1, ...
      and keeping those with rows. */
  function Numbered(tns: seq<Node>, first: int, rowsOf: RowsFn): (ts: seq<Table>)
    requires forall k :: 0 <= k < |tns| ==> IsTable(tns[k])
    ensures |ts| <= |tns|
  {
    if tns == [] then [] else Keep(tns[0], first, rowsOf) + Numbered(tns[1..], first + 1, rowsOf)
  }

  /** Table numbers strictly increase along ts. */
  predicate Increasing(ts: seq<Table>) {
    forall i, j :: 0 <= i < j < |ts| ==> ts[i].index < ts[j].index
  }

  /** Every table number in ts lies in (lo, hi]. */
  predicate Within(ts: seq<Table>, lo: int, hi: int) {
    forall i :: 0 <= i < |ts| ==> lo < ts[i].index <= hi
  }

  lemma ConcatIncreasing(a: seq<Table>, b: seq<Table>, lo: int, mid: int, hi: int)
    requires lo <= mid <= hi
    requires Within(a, lo, mid) && Increasing(a)
    requires Within(b, mid, hi) && Increasing(b)
    ensures Within(a + b, lo, hi) && Increasing(a + b)
  {
    assert forall i :: 0 <= i < |b| ==> (a + b)[|a| + i] == b[i];
  }

  /** Every table in ts is the record of the element of tns at its number
      (counted from first) and has rows. */
  predicate RecordsOf(ts: seq<Table>, tns: seq<Node>, first: int, rowsOf: RowsFn)
    requires forall k :: 0 <= k < |tns| ==> IsTable(tns[k])
  {
    forall i :: 0 <= i < |ts| ==>
      && first <= ts[i].index < first + |tns|
      && ts[i] == TableOf(tns[ts[i].index - first], ts[i].index, rowsOf)
      && ts[i].rows != []
  }

  lemma RecordsOfShift(ts: seq<Table>, tns: seq<Node>, first: int, rowsOf: RowsFn)
    requires tns != [] && forall k :: 0 <= k < |tns| ==> IsTable(tns[k])
    requires RecordsOf(ts, tns[1..], first + 1, rowsOf)
    ensures RecordsOf(ts, tns, first, rowsOf)
  {
    forall i | 0 <= i < |ts|
      ensures tns[1..][ts[i].index - (first + 1)] == tns[ts[i].index - first]
    {
    }
  }

  lemma RecordsOfConcat(a: seq<Table>, b: seq<Table>, tns: seq<Node>, first: int, rowsOf: RowsFn)
    requires forall k :: 0 <= k < |tns| ==> IsTable(tns[k])
    requires RecordsOf(a, tns, first, rowsOf) && RecordsOf(b, tns, first, rowsOf)
    ensures RecordsOf(a + b, tns, first, rowsOf)
  {
    assert forall i :: 0 <= i < |b| ==> (a + b)[|a| + i] == b[i];
  }

  /** Each numbered table is the record of the element at its own number, has
      rows, and the numbers increase strictly along the list. */
  lemma {:induction false} NumberedIndices(tns: seq<Node>, first: int, rowsOf: RowsFn)
    requires forall k :: 0 <= k < |tns| ==> IsTable(tns[k])
    ensures RecordsOf(Numbered(tns, first, rowsOf), tns, first, rowsOf)
    ensures Increasing(Numbered(tns, first, rowsOf))
    ensures Within(Numbered(tns, first, rowsOf), first - 1, first - 1 + |tns|)
  {
    if tns != [] {
      var here := Keep(tns[0], first, rowsOf);
      var rest := Numbered(tns[1..], first + 1, rowsOf);
      NumberedIndices(tns[1..], first + 1, rowsOf);
      ConcatIncreasing(here, rest, first - 1, first, first + |tns| - 1);
      RecordsOfShift(rest, tns, first, rowsOf);
      RecordsOfConcat(here, rest, tns, first, rowsOf);
    }
  }

  /** Every <table> element with rows is kept, under its own number. */
  lemma {:induction false} NumberedComplete(tns: seq<Node>, first: int, rowsOf: RowsFn, k: nat)
    requires forall k :: 0 <= k < |tns| ==> IsTable(tns[k])
    requires k < |tns| && rowsOf(tns[k]) != []
    ensures TableOf(tns[k], first + k, rowsOf) in Numbered(tns, first, rowsOf)
  {
    if k == 0 {
      assert Keep(tns[0], first, rowsOf) == [TableOf(tns[0], first, rowsOf)];
    } else {
      NumberedComplete(tns[1..], first + 1, rowsOf, k - 1);
      assert tns[1..][k - 1] == tns[k];
    }
  }

  lemma {:induction false} NumberedAppend(a: seq<Node>, b: seq<Node>, first: int, rowsOf: RowsFn)
    requires forall k :: 0 <= k < |a| ==> IsTable(a[k])
    requires forall k :: 0 <= k < |b| ==> IsTable(b[k])
    ensures forall k :: 0 <= k < |a + b| ==> IsTable((a + b)[k])
    ensures Numbered(a + b, first, rowsOf) == Numbered(a, first, rowsOf) + Numbered(b, first + |a|, rowsOf)
  {
    if a == [] {
      assert a + b == b;
    } else {
      assert (a + b)[1..] == a[1..] + b;
      NumberedAppend(a[1..], b, first + 1, rowsOf);
    }
  }

  /** The walk's state: the counter and the tables kept so far. */
  datatype Walked = Walked(count: nat, tables: seq<Table>)

  /** The recursive walk of Parse / ExtractTables, starting with the counter at
      count: the returned counter has gone up by one per <table> in n's subtree,
      and the tables found carry counter values in (count, result count]. */
  function Walk(n: Node, count: nat, rowsOf: RowsFn): (w: Walked)
    ensures w.count == count + |TableNodes(n)|
    ensures Within(w.tables, count, w.count) && Increasing(w.tables)
    decreases n
  {
    var count' := if IsTable(n) then count + 1 else count;
    var here := if IsTable(n) then Keep(n, count', rowsOf) else [];
    var rest := WalkList(n.children, count', rowsOf);
    ConcatIncreasing(here, rest.tables, count, count', rest.count);
    Walked(rest.count, here + rest.tables)
  }

  function WalkList(ns: seq<Node>, count: nat, rowsOf: RowsFn): (w: Walked)
    ensures w.count == count + |TableNodesList(ns)|
    ensures Within(w.tables, count, w.count) && Increasing(w.tables)
    decreases ns
  {
    if ns == [] then Walked(count, [])
    else
      var first := Walk(ns[0], count, rowsOf);
      var rest := WalkList(ns[1..], first.count, rowsOf);
      ConcatIncreasing(first.tables, rest.tables, count, first.count, rest.count);
      Walked(rest.count, first.tables + rest.tables)
  }

  lemma NumberedSingle(n: Node, first: int, rowsOf: RowsFn)
    requires IsTable(n)
    ensures Numbered([n], first, rowsOf) == Keep(n, first, rowsOf)
  {
    assert [n][1..] == [];
  }

  /** The walk numbers the k-th <table> of the pre-order (from count + 1) and
      keeps exactly the numbered tables with rows. */
  lemma {:induction false} WalkIsNumbering(n: Node, count: nat, rowsOf: RowsFn)
    ensures Walk(n, count, rowsOf).tables == Numbered(TableNodes(n), count + 1, rowsOf)
    decreases n
  {
    if IsTable(n) {
      WalkListIsNumbering(n.children, count + 1, rowsOf);
      NumberedAppend([n], TableNodesList(n.children), count + 1, rowsOf);
      NumberedSingle(n, count + 1, rowsOf);
    } else {
      WalkListIsNumbering(n.children, count, rowsOf);
      assert TableNodes(n) == TableNodesList(n.children);
    }
  }

  lemma {:induction false} WalkListIsNumbering(ns: seq<Node>, count: nat, rowsOf: RowsFn)
    ensures WalkList(ns, count, rowsOf).tables == Numbered(TableNodesList(ns), count + 1, rowsOf)
    decreases ns
  {
    if ns != [] {
      var w := Walk(ns[0], count, rowsOf);
      WalkIsNumbering(ns[0], count, rowsOf);
      WalkListIsNumbering(ns[1..], w.count, rowsOf);
      NumberedAppend(TableNodes(ns[0]), TableNodesList(ns[1..]), count + 1, rowsOf);
    }
  }

  // ---------------------------------------------------------------------------
  // The whole document

  /** The walk from a document node with the counter at 0 numbers its <table>
      elements from 1. */
  function WalkFromRoot(doc: Node, rowsOf: RowsFn): (ts: seq<Table>)
    ensures ts == Numbered(TableNodes(doc), 1, rowsOf)
  {
    WalkIsNumbering(doc, 0, rowsOf);
    Walk(doc, 0, rowsOf).tables
  }

  /** The tables of a document as Parse and ExtractTables collect them: the
      walk from the document node with the counter at 0, reading each table's
      rows with Rows.ExtractRows. */
  function DocumentTables(doc: Node): (ts: seq<Table>)
    ensures ts == Numbered(TableNodes(doc), 1, ExtractRows)
  {
    WalkFromRoot(doc, ExtractRows)
  }

  /** The k-th <table> of the document (counting from 1) becomes the table
      numbered k, with its own id, name and rows; numbers increase strictly and
      never exceed the number of <table> elements. */
  lemma DocumentTablesNumbering(doc: Node)
    ensures var ts, tns := DocumentTables(doc), TableNodes(doc);
      && RecordsOf(ts, tns, 1, ExtractRows)
      && Increasing(ts)
      && Within(ts, 0, |tns|)
  {
    NumberedIndices(TableNodes(doc), 1, ExtractRows);
  }

  /** The numbers found are at least 1 and increase, and every table has rows. */
  lemma DocumentTablesIndexed(doc: Node)
    ensures var ts := DocumentTables(doc);
      && Increasing(ts)
      && forall i :: 0 <= i < |ts| ==> 1 <= ts[i].index && ts[i].rows != []
  {
    DocumentTablesNumbering(doc);
  }

  /** Every <table> element with rows is in the result, under its number. */
  lemma DocumentTablesComplete(doc: Node, k: nat)
    requires k < |TableNodes(doc)| && ExtractRows(TableNodes(doc)[k]) != []
    ensures TableOf(TableNodes(doc)[k], k + 1, ExtractRows) in DocumentTables(doc)
  {
    NumberedComplete(TableNodes(doc), 1, ExtractRows, k);
  }

  /** Numbering keeps rows as rowsOf reads them: when every element's rows are
      rectangular, so are those of every table kept, and none is empty. */
  lemma {:induction false} NumberedRectangular(tns: seq<Node>, first: int, rowsOf: RowsFn)
    requires forall k :: 0 <= k < |tns| ==> IsTable(tns[k])
    requires forall k :: 0 <= k < |tns| ==> Rectangular(rowsOf(tns[k]))
    ensures forall i :: 0 <= i < |Numbered(tns, first, rowsOf)| ==>
      Numbered(tns, first, rowsOf)[i].rows != [] && Rectangular(Numbered(tns, first, rowsOf)[i].rows)
  {
    if tns != [] {
      NumberedRectangular(tns[1..], first + 1, rowsOf);
      var here, rest := Keep(tns[0], first, rowsOf), Numbered(tns[1..], first + 1, rowsOf);
      assert forall i :: 0 <= i < |rest| ==> (here + rest)[|here| + i] == rest[i];
    }
  }

  /** Every table found has rows, all of the same width. */
  lemma DocumentTablesShape(doc: Node)
    ensures forall i :: 0 <= i < |DocumentTables(doc)| ==>
      DocumentTables(doc)[i].rows != [] && Rectangular(DocumentTables(doc)[i].rows)
  {
    var tns := TableNodes(doc);
    forall k | 0 <= k < |tns| ensures Rectangular(ExtractRows(tns[k])) {
      ExtractRowsShape(tns[k]);
    }
    NumberedRectangular(tns, 1, ExtractRows);
  }

  /** The walk finds nothing exactly when no <table> element has rows. */
  lemma DocumentTablesEmpty(doc: Node)
    ensures DocumentTables(doc) == [] <==>
      forall k :: 0 <= k < |TableNodes(doc)| ==> ExtractRows(TableNodes(doc)[k]) == []
  {
    var ts, tns := DocumentTables(doc), TableNodes(doc);
    if ts != [] {
      DocumentTablesNumbering(doc);
      assert ts[0].rows == ExtractRows(tns[ts[0].index - 1]);
    } else {
      forall k | 0 <= k < |tns| ensures ExtractRows(tns[k]) == [] {
        if ExtractRows(tns[k]) != [] {
          DocumentTablesComplete(doc, k);
        }
      }
    }
  }
}
