/**
 * The parsed document as a tree: elements with a tag, an attribute map and
 * ordered children, and character data. Comments are not in the tree (the
 * document builder is told to ignore them); CDATA sections are Text nodes.
 */
module Dom {
  import opened Results
  import opened JavaInt

  datatype Node =
    | Element(tag: string, attributes: map<string, string>, children: seq<Node>)
    | Text(text: string)

  /** Node.getNodeName: the tag of an element, "#text" for character data. */
  function NodeName(n: Node): string
  {
    match n
    case Element(tag, _, _) => tag
    case Text(_) => "#text"
  }

  /** Node.getNodeValue: null for an element, the characters of a text node. */
  function NodeValue(n: Node): Option<string>
  {
    match n
    case Element(_, _, _) => None
    case Text(t) => Some(t)
  }

  /** Node.getChildNodes, empty for a text node. */
  function Children(n: Node): seq<Node>
  {
    if n.Element? then n.children else []
  }

  /** Node.getFirstChild. */
  function FirstChild(n: Node): Option<Node>
  {
    if Children(n) == [] then None else Some(Children(n)[0])
  }

  /** getAttributeValue: the attribute's text, or null when absent. */
  function AttributeValue(n: Node, name: string): (r: Option<string>)
    ensures r.Some? <==> n.Element? && name in n.attributes
    ensures r.Some? ==> r.value == n.attributes[name]
  {
    if n.Element? && name in n.attributes then Some(n.attributes[name]) else None
  }

  /**
   * getAttribute(node, name, def): the default when the attribute is absent,
   * otherwise Integer.parseInt of its text, which throws on malformed text.
   */
  function IntAttribute(n: Node, name: string, def: int): (r: Result<int>)
    ensures AttributeValue(n, name).None? ==> r == Ok(def)
    ensures AttributeValue(n, name).Some? ==>
      (r.Ok? <==> ParseInt(AttributeValue(n, name).value).Some?)
    ensures AttributeValue(n, name).Some? && r.Ok? ==>
      r.value == ParseInt(AttributeValue(n, name).value).value && IsInt32(r.value)
    ensures AttributeValue(n, name).Some? && r.Err? ==> r.error == BadNumber(AttributeValue(n, name).value)
  {
    match AttributeValue(n, name)
    case None => Ok(def)
    case Some(text) =>
      match ParseInt(text)
      case None => Err(BadNumber(text))
      case Some(v) => Ok(v)
  }

  /** An attribute holding the decimal text of an int reads back as that int. */
  lemma IntAttributeFormatted(n: Node, name: string, def: int, v: int)
    requires IsInt32(v) && AttributeValue(n, name) == Some(FormatInt(v))
    ensures IntAttribute(n, name, def) == Ok(v)
  {
    ParseIntFormatInt(v);
  }

  /** Node.getTextContent: all character data below the node, in document order. */
  function TextContent(n: Node): string
  {
    match n
    case Text(t) => t
    case Element(_, _, cs) => TextContentOf(cs)
  }

  function TextContentOf(cs: seq<Node>): string
  {
    if cs == [] then "" else TextContentOf(cs[..|cs| - 1]) + TextContent(cs[|cs| - 1])
  }

  // ---------------------------------------------------------------------------
  // getElementsByTagName

  /** An element found by a document-wide search, with its depth below the root. */
  datatype Located = Located(depth: nat, node: Node)

  /**
   * Document.getElementsByTagName(tag) for a document whose root is `n`
   * at depth `d`: every element with exactly that tag, in document order.
   */
  function ElementsByTagName(n: Node, tag: string, d: nat): (r: seq<Located>)
    ensures forall i :: 0 <= i < |r| ==> r[i].depth >= d
    ensures forall i :: 0 <= i < |r| ==> r[i].node.Element? && r[i].node.tag == tag
  {
    match n
    case Text(_) => []
    case Element(t, _, cs) =>
      (if t == tag then [Located(d, n)] else []) + ElementsByTagNameOf(cs, tag, d + 1)
  }

  function ElementsByTagNameOf(cs: seq<Node>, tag: string, d: nat): (r: seq<Located>)
    ensures forall i :: 0 <= i < |r| ==> r[i].depth >= d
    ensures forall i :: 0 <= i < |r| ==> r[i].node.Element? && r[i].node.tag == tag
  {
    if cs == [] then []
    else ElementsByTagNameOf(cs[..|cs| - 1], tag, d) + ElementsByTagName(cs[|cs| - 1], tag, d)
  }

  /** Every element below and including `n`, parents before their children, siblings in order. */
  function Preorder(n: Node, d: nat): seq<Located>
  {
    match n
    case Text(_) => []
    case Element(_, _, cs) => [Located(d, n)] + PreorderOf(cs, d + 1)
  }

  function PreorderOf(cs: seq<Node>, d: nat): seq<Located>
  {
    if cs == [] then [] else PreorderOf(cs[..|cs| - 1], d) + Preorder(cs[|cs| - 1], d)
  }

  /** The entries of a listing whose element carries the tag, order kept. */
  function Tagged(ls: seq<Located>, tag: string): seq<Located>
  {
    if ls == [] then []
    else
      var last := ls[|ls| - 1];
      Tagged(ls[..|ls| - 1], tag) + (if last.node.Element? && last.node.tag == tag then [last] else [])
  }

  lemma {:induction false} TaggedAppend(a: seq<Located>, b: seq<Located>, tag: string)
    ensures Tagged(a + b, tag) == Tagged(a, tag) + Tagged(b, tag)
  {
    if b != [] {
      assert (a + b)[..|a + b| - 1] == a + b[..|b| - 1];
      TaggedAppend(a, b[..|b| - 1], tag);
    } else {
      assert a + b == a;
    }
  }

  lemma {:induction false} TaggedHas(ls: seq<Located>, tag: string, l: Located)
    requires l in ls && l.node.Element? && l.node.tag == tag
    ensures l in Tagged(ls, tag)
  {
    if ls[|ls| - 1] != l {
      assert l in ls[..|ls| - 1] by {
        var i :| 0 <= i < |ls| && ls[i] == l;
        assert i < |ls| - 1 && ls[..|ls| - 1][i] == l;
      }
      TaggedHas(ls[..|ls| - 1], tag, l);
    }
  }

  /**
   * The search is the document-order listing of every element, kept where
   * the tag matches: nothing is missed, nothing is added, and the order is
   * that of the document.
   */
  lemma {:induction false} ElementsByTagNameInOrder(n: Node, tag: string, d: nat)
    ensures ElementsByTagName(n, tag, d) == Tagged(Preorder(n, d), tag)
  {
    match n
    case Text(_) =>
    case Element(t, _, cs) =>
      var own := [Located(d, n)];
      TaggedAppend(own, PreorderOf(cs, d + 1), tag);
      ElementsByTagNameOfInOrder(cs, tag, d + 1);
      assert own[..0] == [];
  }

  lemma {:induction false} ElementsByTagNameOfInOrder(cs: seq<Node>, tag: string, d: nat)
    ensures ElementsByTagNameOf(cs, tag, d) == Tagged(PreorderOf(cs, d), tag)
  {
    if cs != [] {
      ElementsByTagNameOfInOrder(cs[..|cs| - 1], tag, d);
      ElementsByTagNameInOrder(cs[|cs| - 1], tag, d);
      TaggedAppend(PreorderOf(cs[..|cs| - 1], d), Preorder(cs[|cs| - 1], d), tag);
    }
  }

  /** Every element of the document that carries the tag is found. */
  lemma ElementsByTagNameComplete(n: Node, tag: string, d: nat, l: Located)
    requires l in Preorder(n, d) && l.node.Element? && l.node.tag == tag
    ensures l in ElementsByTagName(n, tag, d)
  {
    ElementsByTagNameInOrder(n, tag, d);
    TaggedHas(Preorder(n, d), tag, l);
  }

  /** The found elements whose parent is the root (depth 1), in order. */
  function AtDepthOne(ls: seq<Located>): seq<Node>
  {
    if ls == [] then []
    else AtDepthOne(ls[..|ls| - 1]) + (if ls[|ls| - 1].depth == 1 then [ls[|ls| - 1].node] else [])
  }

  /** The children that are elements with the given tag, in order. */
  function ChildElementsNamed(cs: seq<Node>, tag: string): seq<Node>
  {
    if cs == [] then []
    else
      var last := cs[|cs| - 1];
      ChildElementsNamed(cs[..|cs| - 1], tag) + (if last.Element? && last.tag == tag then [last] else [])
  }

  lemma {:induction false} AtDepthOneAppend(a: seq<Located>, b: seq<Located>)
    ensures AtDepthOne(a + b) == AtDepthOne(a) + AtDepthOne(b)
  {
    if b != [] {
      assert (a + b)[..|a + b| - 1] == a + b[..|b| - 1];
      AtDepthOneAppend(a, b[..|b| - 1]);
    } else {
      assert a + b == a;
    }
  }

  lemma {:induction false} AtDepthOneDeep(ls: seq<Located>)
    requires forall i :: 0 <= i < |ls| ==> ls[i].depth >= 2
    ensures AtDepthOne(ls) == []
  {
    if ls != [] {
      AtDepthOneDeep(ls[..|ls| - 1]);
    }
  }

  lemma {:induction false} AtDepthOneChildren(cs: seq<Node>, tag: string)
    ensures AtDepthOne(ElementsByTagNameOf(cs, tag, 1)) == ChildElementsNamed(cs, tag)
  {
    if cs != [] {
      var last := cs[|cs| - 1];
      AtDepthOneChildren(cs[..|cs| - 1], tag);
      AtDepthOneAppend(ElementsByTagNameOf(cs[..|cs| - 1], tag, 1), ElementsByTagName(last, tag, 1));
      if last.Element? {
        var own: seq<Located> := if last.tag == tag then [Located(1, last)] else [];
        AtDepthOneAppend(own, ElementsByTagNameOf(last.children, tag, 2));
        AtDepthOneDeep(ElementsByTagNameOf(last.children, tag, 2));
        if last.tag == tag {
          assert AtDepthOne(own) == [last] by {
            assert own[..0] == [];
          }
        }
      }
    }
  }

  /**
   * Of all the elements a document-wide search finds, those whose parent is
   * the root are exactly the root's element children with that tag, in order.
   */
  lemma DirectChildrenOfRoot(root: Node, tag: string)
    requires root.Element?
    ensures AtDepthOne(ElementsByTagName(root, tag, 0)) == ChildElementsNamed(root.children, tag)
  {
    var own: seq<Located> := if root.tag == tag then [Located(0, root)] else [];
    AtDepthOneAppend(own, ElementsByTagNameOf(root.children, tag, 1));
    AtDepthOneChildren(root.children, tag);
    if root.tag == tag {
      assert AtDepthOne(own) == [] by {
        assert own[..0] == [];
      }
    }
  }
}
