/** An already-parsed XML document, as System.Xml.Linq presents it to the
    extractor plugins: elements with a namespace-qualified name, attributes
    and child elements in document order. Text nodes, comments and
    processing instructions are not represented: no plugin reads them. */
module Xml {
  import opened Common

  /** XName: a namespace URI ("" for none) and a local name. */
  datatype XName = XName(namespace: string, localName: string)

  datatype XAttribute = XAttribute(name: XName, value: string)

  datatype XElement = XElement(name: XName, attributes: seq<XAttribute>, children: seq<XElement>)

  datatype XDocument = XDocument(root: XElement)

  /** The implicit conversion from string to XName: no namespace. */
  function Unqualified(localName: string): XName {
    XName("", localName)
  }

  /** e followed by all its descendant elements, in document order (pre-order). */
  function SelfAndDescendants(e: XElement): (r: seq<XElement>)
    ensures |r| >= 1 && r[0] == e
    ensures forall c :: c in e.children ==> c in r
    decreases e, 1
  {
    [e] + DescendantsOfAll(e.children)
  }

  /** The elements of es and all their descendants, in document order. */
  function DescendantsOfAll(es: seq<XElement>): (r: seq<XElement>)
    ensures forall c :: c in es ==> c in r
    decreases es, 0
  {
    if es == [] then [] else SelfAndDescendants(es[0]) + DescendantsOfAll(es[1..])
  }

  /** The elements of es whose name is n, in the order of es. */
  function Named(es: seq<XElement>, n: XName): (r: seq<XElement>)
    ensures |r| <= |es|
    ensures forall x :: x in r <==> x in es && x.name == n
  {
    if es == [] then []
    else if es[0].name == n then [es[0]] + Named(es[1..], n)
    else Named(es[1..], n)
  }

  lemma {:induction false} NamedNone(es: seq<XElement>, n: XName)
    requires forall x :: x in es ==> x.name != n
    ensures Named(es, n) == []
  {
    if es != [] {
      NamedNone(es[1..], n);
    }
  }

  /** XDocument.Descendants(n): every element of the document named n,
      the root included, in document order. */
  function Descendants(doc: XDocument, n: XName): (r: seq<XElement>)
    ensures forall x :: x in r ==> x.name == n
  {
    Named(SelfAndDescendants(doc.root), n)
  }

  /** The LINQ extension Elements(n) over a sequence of elements: the
      children named n of each element in turn. */
  function Elements(es: seq<XElement>, n: XName): (r: seq<XElement>)
    ensures forall x :: x in r <==> exists p :: p in es && x in p.children && x.name == n
  {
    if es == [] then []
    else
      var rest := Elements(es[1..], n);
      assert forall p :: p in es[1..] ==> p in es;
      assert forall p :: p in es ==> p == es[0] || p in es[1..];
      Named(es[0].children, n) + rest
  }

  /** XContainer.Element(n): the first child named n, or null. */
  function Element(e: XElement, n: XName): (r: Option<XElement>)
    ensures r.Some? ==> r.value in e.children && r.value.name == n
    ensures r.None? ==> forall c :: c in e.children ==> c.name != n
  {
    var named := Named(e.children, n);
    if named == [] then None else Some(named[0])
  }

  /** XElement.Attribute(n)?.Value: the value of the attribute named n, or null. */
  function AttributeValue(e: XElement, n: XName): (r: Option<string>)
    ensures r.Some? ==> exists a :: a in e.attributes && a.name == n && a.value == r.value
    ensures r.None? ==> forall a :: a in e.attributes ==> a.name != n
  {
    FirstAttribute(e.attributes, n)
  }

  function FirstAttribute(attrs: seq<XAttribute>, n: XName): (r: Option<string>)
    ensures r.Some? ==> exists a :: a in attrs && a.name == n && a.value == r.value
    ensures r.None? ==> forall a :: a in attrs ==> a.name != n
  {
    if attrs == [] then None
    else if attrs[0].name == n then Some(attrs[0].value)
    else FirstAttribute(attrs[1..], n)
  }

  /** `e.Attribute(n)?.Value?.Trim()` */
  function TrimmedAttribute(e: XElement, n: XName): (r: Option<string>)
    ensures r.None? <==> AttributeValue(e, n).None?
    ensures r.Some? ==> r.value == Trim(AttributeValue(e, n).value)
  {
    TrimNullable(AttributeValue(e, n))
  }
}
