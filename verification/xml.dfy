/** The XML helper classes: qualified-name matching, attribute lookup,
    whitespace-separated list attributes and URI conversion. Both helper
    classes implement `equals` and `optionalAttributeValue` with different
    Java idioms; each idiom is modelled and the two are proved to agree. */
module Xml {
  import opened Common
  import Strings

  const TeiNs: string := "http://www.tei-c.org/ns/1.0"
  const RelaxNgNs: string := "http://relaxng.org/ns/structure/1.0"
  const XmlNs: string := "http://www.w3.org/XML/1998/namespace"

  /** A `javax.xml.namespace.QName`. Its namespace URI is never null; the
      empty string stands for "no namespace". */
  datatype QName = QName(ns: string, local: string)

  /** `new QName(localName)` */
  function Unqualified(local: string): QName {
    QName("", local)
  }

  datatype Attr = Attr(name: QName, value: string)

  datatype StartTag = StartTag(name: QName, attributes: seq<Attr>)

  /** The StAX events the model consumes and produces. */
  datatype Event =
    | StartDocument
    | EndDocument
    | StartElement(tag: StartTag)
    | EndElement(name: QName)
    | Characters(data: string)

  /** `XML.equals(name, ns, localName)`: the local parts must agree; a null
      `ns` matches any namespace. */
  predicate NameEquals(name: QName, ns: Option<string>, local: string) {
    local == name.local && (ns.None? || ns.value == name.ns)
  }

  /** With a namespace given, a match pins the name down completely; without
      one, only the local part is compared. */
  lemma NameEqualsCharacterized(name: QName, ns: Option<string>, local: string)
    ensures ns.Some? ==> (NameEquals(name, ns, local) <==> name == QName(ns.value, local))
    ensures ns.None? ==> (NameEquals(name, ns, local) <==> name.local == local)
  {
  }

  /** `hasName(element, ns, localName)` for an end-element event. */
  predicate EndHasName(e: Event, ns: Option<string>, local: string) {
    e.EndElement? && NameEquals(e.name, ns, local)
  }

  /** `getAttributeByName(name)`: the value of the first attribute with that name. */
  function AttributeByName(attributes: seq<Attr>, name: QName): (r: Option<string>)
    ensures r.Some? <==> exists i :: 0 <= i < |attributes| && attributes[i].name == name
    ensures r.Some? ==> exists i :: 0 <= i < |attributes| && attributes[i] == Attr(name, r.value)
    decreases |attributes|
  {
    if |attributes| == 0 then None
    else if attributes[0].name == name then Some(attributes[0].value)
    else
      var r := AttributeByName(attributes[1..], name);
      assert forall i :: 0 < i < |attributes| ==> attributes[i] == attributes[1..][i - 1];
      r
  }

  /** `optionalAttributeValue` as written in the first helper class: a
      missing attribute is read as the empty string, and the empty string
      then becomes null. */
  function OptionalAttributeValue(tag: StartTag, attributeName: string): (r: Option<string>)
    ensures r.None? <==> AttributeByName(tag.attributes, Unqualified(attributeName)) in {None, Some("")}
    ensures r.Some? ==> r == AttributeByName(tag.attributes, Unqualified(attributeName))
  {
    var raw := match AttributeByName(tag.attributes, Unqualified(attributeName))
      case None => ""
      case Some(v) => v;
    if raw == "" then None else Some(raw)
  }

  /** `optionalAttributeValue` as written in the second helper class: the
      attribute's value when the attribute is present and its value is not
      empty, null otherwise. */
  function OptionalAttributeValueFiltered(tag: StartTag, attributeName: string): Option<string> {
    match AttributeByName(tag.attributes, Unqualified(attributeName))
    case None => None
    case Some(v) => if v != "" then Some(v) else None
  }

  /** The two helper classes read attributes identically. */
  lemma OptionalAttributeValueAgrees(tag: StartTag, attributeName: string)
    ensures OptionalAttributeValueFiltered(tag, attributeName) == OptionalAttributeValue(tag, attributeName)
  {
  }

  /** `requiredAttributeValue`: the optional value, or a null-pointer failure. */
  function RequiredAttributeValue(tag: StartTag, attributeName: string): (r: Result<string>)
    ensures r.Failure? <==> OptionalAttributeValue(tag, attributeName).None?
    ensures r.Failure? ==> r.error == NullValue
    ensures r.Success? ==> r.value != "" && Some(r.value) == AttributeByName(tag.attributes, Unqualified(attributeName))
  {
    match OptionalAttributeValue(tag, attributeName)
    case None => Failure(NullValue)
    case Some(v) => Success(v)
  }

  /** `toURI(str)`: null for a null or empty string. A URI is represented by
      its string form. */
  function ToUri(s: Option<string>): (r: Option<string>)
    ensures r.None? <==> s.None? || s.value == ""
    ensures r.Some? ==> r == s
  {
    if s.None? || s.value == "" then None else s
  }

  /** `toList(str)`: the whitespace-separated tokens of `str`, null read as "". */
  function ToList(s: Option<string>): (r: seq<string>)
    ensures forall j :: 0 <= j < |r| ==> Strings.NoSpace(r[j])
    ensures forall j :: 0 < j < |r| ==> r[j] != ""
  {
    Strings.Split(match s case None => "" case Some(v) => v)
  }

  /** A missing or empty list attribute yields one empty token, not none. */
  lemma ToListOfNothing()
    ensures ToList(None) == [""]
    ensures ToList(Some("")) == [""]
  {
    assert Strings.NoSpace("");
  }
}
