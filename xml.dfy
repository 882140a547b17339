/** An abstract XML document: the part of System.Xml's DOM that the catalog code reads.
    Elements have a qualified name, attributes and children in document order. */
module Xml {
  import opened Wrappers

  datatype Node = ElementNode(element: Element) | TextNode(text: string)

  datatype Element = Element(name: string, attributes: map<string, string>, children: seq<Node>)

  /** An XmlDocument whose document element is `root`. */
  datatype Document = Document(root: Element)

  /** XmlElement.GetAttribute: the attribute's value, or "" (never null) when it is missing. */
  function GetAttribute(e: Element, attribute: string): (r: string)
    ensures attribute !in e.attributes ==> r == ""
    ensures attribute in e.attributes ==> r == e.attributes[attribute]
  {
    if attribute in e.attributes then e.attributes[attribute] else ""
  }

  /** The elements strictly below `e`, in document (pre-)order. */
  function Descendants(e: Element): seq<Element>
    decreases e
  {
    DescendantsOf(e.children)
  }

  function DescendantsOf(nodes: seq<Node>): seq<Element>
    decreases nodes
  {
    if nodes == [] then []
    else
      var n := nodes[0];
      assert n in nodes;
      var first := match n
        case ElementNode(c) => assert c < n; [c] + Descendants(c)
        case TextNode(_) => [];
      first + DescendantsOf(nodes[1..])
  }

  /** The elements of `s` named `tag`, in their order in `s`. */
  function Named(s: seq<Element>, tag: string): (r: seq<Element>)
    decreases |s|
    ensures |r| <= |s|
    ensures forall i :: 0 <= i < |r| ==> r[i].name == tag
  {
    if s == [] then []
    else (if s[0].name == tag then [s[0]] else []) + Named(s[1..], tag)
  }

  /** `Named` keeps exactly the elements with that name. */
  lemma {:induction false} NamedMembership(s: seq<Element>, tag: string, x: Element)
    ensures x in Named(s, tag) <==> x in s && x.name == tag
  {
    if s != [] {
      NamedMembership(s[1..], tag, x);
      assert s == [s[0]] + s[1..];
    }
  }

  /** The first element of `s` named `tag` heads `Named(s, tag)`. */
  lemma {:induction false} NamedHead(s: seq<Element>, tag: string, k: nat)
    requires k < |s| && s[k].name == tag
    requires forall j :: 0 <= j < k ==> s[j].name != tag
    ensures |Named(s, tag)| > 0 && Named(s, tag)[0] == s[k]
  {
    if k > 0 {
      NamedHead(s[1..], tag, k - 1);
    }
  }

  /** XmlElement.GetElementsByTagName: the descendants named `tag`, in document order. */
  function ElementsByTagName(e: Element, tag: string): seq<Element>
  {
    Named(Descendants(e), tag)
  }

  /** XmlDocument.GetElementsByTagName: like the element version, but the document element
      itself is a candidate too. */
  function DocumentElementsByTagName(d: Document, tag: string): seq<Element>
  {
    Named([d.root] + Descendants(d.root), tag)
  }

  /** XmlNode.InnerText: the concatenated text of every text node below `e`, in order. */
  function InnerText(e: Element): string
    decreases e
  {
    InnerTextOf(e.children)
  }

  function InnerTextOf(nodes: seq<Node>): string
    decreases nodes
  {
    if nodes == [] then ""
    else
      var n := nodes[0];
      assert n in nodes;
      var first := match n
        case ElementNode(c) => assert c < n; InnerText(c)
        case TextNode(t) => t;
      first + InnerTextOf(nodes[1..])
  }

  /** An element holding only the text `t`, as in `<id>RSBE01</id>`. */
  function TextElement(name: string, t: string): (e: Element)
    ensures InnerText(e) == t && Descendants(e) == []
  {
    var e := Element(name, map[], [TextNode(t)]);
    assert e.children[1..] == [];
    assert InnerTextOf(e.children) == t + InnerTextOf([]);
    assert DescendantsOf(e.children) == [] + DescendantsOf([]);
    e
  }
}
