/** The already-parsed HTML document tree, its pre-order, text extraction
    (textContent) and attribute lookup. */
module Dom {
  import Seqs

  datatype Attr = Attr(key: string, val: string)

  /** What a node is: an element with its lower-case tag name and its attributes
      in source order, a text node with its literal data, or any other node
      (the document itself, a comment, a doctype). */
  datatype Kind =
    | Element(tag: string, attrs: seq<Attr>)
    | Text(data: string)
    | Other

  /** A node with its children in sibling order. As in the parser's own node
      type, every kind of node may have children. */
  datatype Node = Node(kind: Kind, children: seq<Node>)

  predicate IsElement(n: Node, tag: string) {
    n.kind.Element? && n.kind.tag == tag
  }

  predicate IsText(n: Node) {
    n.kind.Text?
  }

  // ---------------------------------------------------------------------------
  // Pre-order

  /** n followed by the pre-order of each of its children in turn. */
  function PreOrder(n: Node): (ps: seq<Node>)
    ensures ps != [] && ps[0] == n
    decreases n
  {
    [n] + PreOrderList(n.children)
  }

  /** The pre-orders of ns, one after the other. */
  function PreOrderList(ns: seq<Node>): seq<Node>
    decreases ns
  {
    if ns == [] then [] else PreOrder(ns[0]) + PreOrderList(ns[1..])
  }

  // ---------------------------------------------------------------------------
  // textContent

  /** textContent (htmltable/htmltable.go and html2csv.go): the data of the text
      nodes of n's subtree, n included, concatenated without separators. */
  function TextContent(n: Node): string
    decreases n
  {
    (if IsText(n) then n.kind.data else "") + TextContentList(n.children)
  }

  function TextContentList(ns: seq<Node>): string
    decreases ns
  {
    if ns == [] then "" else TextContent(ns[0]) + TextContentList(ns[1..])
  }

  /** Reference: the data of the text nodes among ps, in order. */
  function TextOf(ps: seq<Node>): string {
    if ps == [] then "" else (if IsText(ps[0]) then ps[0].kind.data else "") + TextOf(ps[1..])
  }

  lemma {:induction false} TextOfAppend(a: seq<Node>, b: seq<Node>)
    ensures TextOf(a + b) == TextOf(a) + TextOf(b)
  {
    if a == [] {
      assert a + b == b;
    } else {
      assert (a + b)[1..] == a[1..] + b;
      TextOfAppend(a[1..], b);
    }
  }

  /** textContent is the pre-order concatenation of the subtree's text data. */
  lemma {:induction false} TextContentIsPreOrderText(n: Node)
    ensures TextContent(n) == TextOf(PreOrder(n))
    decreases n
  {
    TextContentListIsPreOrderText(n.children);
    TextOfAppend([n], PreOrderList(n.children));
  }

  lemma {:induction false} TextContentListIsPreOrderText(ns: seq<Node>)
    ensures TextContentList(ns) == TextOf(PreOrderList(ns))
    decreases ns
  {
    if ns != [] {
      TextContentIsPreOrderText(ns[0]);
      TextContentListIsPreOrderText(ns[1..]);
      TextOfAppend(PreOrder(ns[0]), PreOrderList(ns[1..]));
    }
  }

  lemma {:induction false} TextOfNoText(ps: seq<Node>)
    requires forall i :: 0 <= i < |ps| ==> !IsText(ps[i])
    ensures TextOf(ps) == ""
  {
    if ps != [] {
      TextOfNoText(ps[1..]);
    }
  }

  /** A subtree without text nodes has empty text content. */
  lemma TextContentWithoutText(n: Node)
    requires forall i :: 0 <= i < |PreOrder(n)| ==> !IsText(PreOrder(n)[i])
    ensures TextContent(n) == ""
  {
    TextContentIsPreOrderText(n);
    TextOfNoText(PreOrder(n));
  }

  // ---------------------------------------------------------------------------
  // Attributes

  /** The loop over an element's attributes that overwrites its variable at
      every attribute with the given key. */
  function LastValue(attrs: seq<Attr>, key: string, cur: string): string {
    if attrs == [] then cur
    else LastValue(attrs[1..], key, if attrs[0].key == key then attrs[0].val else cur)
  }

  /** Without an attribute of the given key the loop leaves cur alone. */
  lemma {:induction false} LastValueAbsent(attrs: seq<Attr>, key: string, cur: string)
    requires forall i :: 0 <= i < |attrs| ==> attrs[i].key != key
    ensures LastValue(attrs, key, cur) == cur
  {
    if attrs != [] {
      LastValueAbsent(attrs[1..], key, cur);
    }
  }

  /** The loop yields the value of the last attribute with the key. */
  lemma {:induction false} LastValueIsLast(attrs: seq<Attr>, key: string, cur: string, i: nat)
    requires i < |attrs| && attrs[i].key == key
    requires forall j :: i < j < |attrs| ==> attrs[j].key != key
    ensures LastValue(attrs, key, cur) == attrs[i].val
  {
    var cur' := if attrs[0].key == key then attrs[0].val else cur;
    if i > 0 {
      LastValueIsLast(attrs[1..], key, cur', i - 1);
    } else {
      LastValueAbsent(attrs[1..], key, cur');
    }
  }

  /** The value of the last attribute named key, or "" when absent. */
  function AttrValue(attrs: seq<Attr>, key: string): string {
    LastValue(attrs, key, "")
  }
}
