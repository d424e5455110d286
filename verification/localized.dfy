/** Texts keyed by language (`LocalizedStrings`): descriptions, glosses and
    alternative identifiers, with whitespace normalised on entry. */
module LocalizedStrings {
  import opened Common
  import opened Xml
  import Strings

  const DefaultLang: string := "en"

  /** `set(locale, str)`: store the text with every whitespace run replaced
      by one space. */
  function Set(m: map<string, string>, locale: string, str: string): (r: map<string, string>)
    ensures r.Keys == m.Keys + {locale}
    ensures forall l :: l in m && l != locale ==> r[l] == m[l]
  {
    m[locale := Strings.Collapse(str)]
  }

  /** The stored text has no two whitespace characters in a row, only
      spaces, and the same visible characters as the input; storing it
      again changes nothing, and a later `set` for the same locale wins. */
  lemma SetNormalises(m: map<string, string>, locale: string, str: string, other: string)
    ensures Strings.Collapsed(Set(m, locale, str)[locale])
    ensures Strings.Visible(Set(m, locale, str)[locale]) == Strings.Visible(str)
    ensures Set(m, locale, Set(m, locale, str)[locale]) == Set(m, locale, str)
    ensures Set(Set(m, locale, other), locale, str) == Set(m, locale, str)
  {
    Strings.CollapseIsCollapsed(str);
    Strings.CollapseKeepsVisible(str);
    Strings.CollapseIdempotent(str);
  }

  /** The character data of a run of events; markup contributes nothing. */
  function Text(events: seq<Event>): string
    decreases |events|
  {
    if |events| == 0 then ""
    else (if events[0].Characters? then events[0].data else "") + Text(events[1..])
  }

  lemma {:induction false} TextAppend(a: seq<Event>, b: seq<Event>)
    ensures Text(a + b) == Text(a) + Text(b)
    decreases |a|
  {
    if |a| > 0 {
      assert (a + b)[1..] == a[1..] + b;
      TextAppend(a[1..], b);
    } else {
      assert a + b == b;
    }
  }

  /** Only character data counts: a start or end tag in the middle is
      skipped and characters are kept in order. */
  lemma TextIgnoresMarkup(a: seq<Event>, b: seq<Event>, tag: StartTag, name: QName, data: string)
    ensures Text(a + [StartElement(tag)] + b) == Text(a + b)
    ensures Text(a + [EndElement(name)] + b) == Text(a + b)
    ensures Text(a + [Characters(data)] + b) == Text(a) + data + Text(b)
  {
    TextAppend(a + [StartElement(tag)], b);
    TextAppend(a, [StartElement(tag)]);
    TextAppend(a + [EndElement(name)], b);
    TextAppend(a, [EndElement(name)]);
    TextAppend(a + [Characters(data)], b);
    TextAppend(a, [Characters(data)]);
    TextAppend(a, b);
  }

  /** The position of the first end tag with the given name, or the length
      when there is none. */
  function EndIndex(events: seq<Event>, name: QName): (k: nat)
    ensures k <= |events|
    ensures forall i :: 0 <= i < k ==> events[i] != EndElement(name)
    ensures k < |events| ==> events[k] == EndElement(name)
    decreases |events|
  {
    if |events| == 0 || events[0] == EndElement(name) then 0
    else 1 + EndIndex(events[1..], name)
  }

  /** The language of an element: its `xml:lang`, or `en` without one. */
  function Lang(tag: StartTag): (l: string)
    ensures AttributeByName(tag.attributes, QName(XmlNs, "lang")).None? ==> l == DefaultLang
  {
    match AttributeByName(tag.attributes, QName(XmlNs, "lang"))
    case None => DefaultLang
    case Some(v) => v
  }

  /** `add(element, xml)`: the strings after reading up to the element's end
      tag, and the events left unread. Without an end tag the whole input is
      consumed and nothing is stored. */
  function Add(m: map<string, string>, tag: StartTag, events: seq<Event>): (r: (map<string, string>, seq<Event>))
    ensures EndElement(tag.name) !in events ==> r == (m, [])
  {
    var k := EndIndex(events, tag.name);
    if k == |events| then (m, [])
    else (Set(m, Lang(tag), Text(events[..k])), events[k + 1..])
  }

  /** An element whose end tag comes after some content stores that
      content's text under its language and leaves the rest unread. */
  lemma AddStoresContent(m: map<string, string>, tag: StartTag, content: seq<Event>, rest: seq<Event>)
    requires EndElement(tag.name) !in content
    ensures Add(m, tag, content + [EndElement(tag.name)] + rest)
         == (Set(m, Lang(tag), Text(content)), rest)
  {
    var events := content + [EndElement(tag.name)] + rest;
    var k := EndIndex(events, tag.name);
    assert events[|content|] == EndElement(tag.name);
    assert forall i :: 0 <= i < |content| ==> events[i] == content[i];
    assert k == |content|;
    assert events[..k] == content;
    assert events[k + 1..] == rest;
  }

  /** `toString`: the default-language entry. */
  function ToString(m: map<string, string>): (r: Option<string>)
    ensures r.Some? <==> DefaultLang in m
    ensures r.Some? ==> r.value == m[DefaultLang]
  {
    if DefaultLang in m then Some(m[DefaultLang]) else None
  }

  lemma AddWithoutLanguageIsDefault(tag: StartTag, content: seq<Event>)
    requires AttributeByName(tag.attributes, QName(XmlNs, "lang")).None?
    requires EndElement(tag.name) !in content
    ensures ToString(Add(map[], tag, content + [EndElement(tag.name)]).0) == Some(Strings.Collapse(Text(content)))
  {
    AddStoresContent(map[], tag, content, []);
    assert content + [EndElement(tag.name)] + [] == content + [EndElement(tag.name)];
  }
}
