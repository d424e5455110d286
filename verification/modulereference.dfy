/** A `moduleRef`: a module reference with the specifications it includes
    or excludes. */
module ModuleReference {
  import opened Common
  import opened Xml
  import Strings
  import Reference

  datatype ModuleReference = ModuleReference(
    key: string,
    source: Option<string>,
    included: set<Reference.Reference>,
    excluded: set<Reference.Reference>,
    prefix: Option<string>,
    url: Option<string>)

  /** The distinct tokens of a list attribute, each as a sourceless reference. */
  function ReferencesOf(tokens: seq<string>): (r: set<Reference.Reference>)
    ensures forall x :: x in r <==> x.source.None? && x.key in tokens
  {
    set i | 0 <= i < |tokens| :: Reference.FromString(tokens[i])
  }

  /** `ModuleReference.from(element)`: the key is the `key` attribute, or
      the `url` when there is no key; with neither, construction fails. */
  function From(tag: StartTag): (r: Result<ModuleReference>)
    ensures r.Failure? <==> OptionalAttributeValueFiltered(tag, "key").None?
                            && OptionalAttributeValueFiltered(tag, "url").None?
    ensures r.Failure? ==> r.error == NullValue
    ensures r.Success? ==> r.value.url == OptionalAttributeValueFiltered(tag, "url")
    ensures r.Success? && OptionalAttributeValueFiltered(tag, "key").Some? ==>
              r.value.key == OptionalAttributeValueFiltered(tag, "key").value
    ensures r.Success? && OptionalAttributeValueFiltered(tag, "key").None? ==>
              r.value.key == OptionalAttributeValueFiltered(tag, "url").value
    ensures r.Success? ==>
              && r.value.included == ReferencesOf(ToList(OptionalAttributeValueFiltered(tag, "included")))
              && r.value.excluded == ReferencesOf(ToList(OptionalAttributeValueFiltered(tag, "except")))
    ensures r.Success? ==>
              && r.value.source == OptionalAttributeValueFiltered(tag, "source")
              && r.value.prefix == OptionalAttributeValueFiltered(tag, "prefix")
  {
    var url := ToUri(OptionalAttributeValueFiltered(tag, "url"));
    var key :- match OptionalAttributeValueFiltered(tag, "key")
      case Some(k) => Success(k)
      case None => if url.Some? then Success(url.value) else Failure(NullValue);
    Success(ModuleReference(
      key,
      ToUri(OptionalAttributeValueFiltered(tag, "source")),
      ReferencesOf(ToList(OptionalAttributeValueFiltered(tag, "included"))),
      ReferencesOf(ToList(OptionalAttributeValueFiltered(tag, "except"))),
      OptionalAttributeValueFiltered(tag, "prefix"),
      url))
  }

  /** The references of one list attribute: whitespace-free keys without
      source; an absent attribute gives the single empty key. */
  lemma ListedTokens(s: Option<string>)
    ensures forall x :: x in ReferencesOf(ToList(s)) ==> Strings.NoSpace(x.key) && x.source.None?
    ensures s.None? ==> ReferencesOf(ToList(s)) == {Reference.Reference("", None)}
  {
    ToListOfNothing();
    var ts := ToList(s);
    forall x | x in ReferencesOf(ts) ensures Strings.NoSpace(x.key) {
      var i :| 0 <= i < |ts| && ts[i] == x.key;
    }
  }

  /** Every included or excluded key is one whitespace-free token of the
      attribute; an absent attribute gives the single empty key. */
  lemma ListedReferences(tag: StartTag)
    ensures From(tag).Success? ==>
              forall x :: x in From(tag).value.included ==> Strings.NoSpace(x.key) && x.source.None?
    ensures From(tag).Success? ==>
              forall x :: x in From(tag).value.excluded ==> Strings.NoSpace(x.key) && x.source.None?
    ensures From(tag).Success? && OptionalAttributeValueFiltered(tag, "included").None? ==>
              From(tag).value.included == {Reference.Reference("", None)}
    ensures From(tag).Success? && OptionalAttributeValueFiltered(tag, "except").None? ==>
              From(tag).value.excluded == {Reference.Reference("", None)}
  {
    ListedTokens(OptionalAttributeValueFiltered(tag, "included"));
    ListedTokens(OptionalAttributeValueFiltered(tag, "except"));
  }

  /** A `moduleRef` naming only its key: the lists come out holding one
      reference with an empty key, not empty. */
  lemma AbsentListsAreNotEmpty()
    ensures var tag := StartTag(QName(TeiNs, "moduleRef"), [Attr(Unqualified("key"), "core")]);
            && From(tag).Success?
            && From(tag).value.key == "core"
            && From(tag).value.included == {Reference.Reference("", None)}
            && From(tag).value.excluded == {Reference.Reference("", None)}
  {
    var tag := StartTag(QName(TeiNs, "moduleRef"), [Attr(Unqualified("key"), "core")]);
    assert AttributeByName(tag.attributes, Unqualified("included")) == None;
    assert AttributeByName(tag.attributes, Unqualified("except")) == None;
    ListedReferences(tag);
  }

  /** The references of a list attribute without the empty token a missing
      attribute or leading whitespace produces. */
  function NonEmptyReferencesOf(tokens: seq<string>): (r: set<Reference.Reference>)
    ensures forall x :: x in r <==> x.source.None? && x.key != "" && x.key in tokens
  {
    set i | 0 <= i < |tokens| && tokens[i] != "" :: Reference.FromString(tokens[i])
  }

  /** `from` with the included and excluded sets holding only real idents. */
  function FromNonEmpty(tag: StartTag): (r: Result<ModuleReference>)
    ensures r.Success? <==> From(tag).Success?
    ensures r.Success? ==> r.value == From(tag).value.(
              included := NonEmptyReferencesOf(ToList(OptionalAttributeValueFiltered(tag, "included"))),
              excluded := NonEmptyReferencesOf(ToList(OptionalAttributeValueFiltered(tag, "except"))))
  {
    var m :- From(tag);
    Success(m.(included := NonEmptyReferencesOf(ToList(OptionalAttributeValueFiltered(tag, "included"))),
               excluded := NonEmptyReferencesOf(ToList(OptionalAttributeValueFiltered(tag, "except")))))
  }

  /** The corrected references of one list attribute: non-empty,
      whitespace-free keys without source; an absent attribute gives none. */
  lemma NonEmptyTokens(s: Option<string>)
    ensures forall x :: x in NonEmptyReferencesOf(ToList(s)) ==>
              x.key != "" && Strings.NoSpace(x.key) && x.source.None?
    ensures s.None? ==> NonEmptyReferencesOf(ToList(s)) == {}
  {
    ToListOfNothing();
    var ts := ToList(s);
    forall x | x in NonEmptyReferencesOf(ts) ensures Strings.NoSpace(x.key) {
      var i :| 0 <= i < |ts| && ts[i] == x.key;
    }
  }

  /** With empty tokens dropped, a missing list is the empty set and every
      listed key is a non-empty, whitespace-free token of the attribute. */
  lemma FromNonEmptyLists(tag: StartTag)
    ensures FromNonEmpty(tag).Success? && OptionalAttributeValueFiltered(tag, "included").None? ==>
              FromNonEmpty(tag).value.included == {}
    ensures FromNonEmpty(tag).Success? && OptionalAttributeValueFiltered(tag, "except").None? ==>
              FromNonEmpty(tag).value.excluded == {}
    ensures FromNonEmpty(tag).Success? ==> forall x :: x in FromNonEmpty(tag).value.included ==>
              x.key != "" && Strings.NoSpace(x.key) && x.source.None?
    ensures FromNonEmpty(tag).Success? ==> forall x :: x in FromNonEmpty(tag).value.excluded ==>
              x.key != "" && Strings.NoSpace(x.key) && x.source.None?
  {
    NonEmptyTokens(OptionalAttributeValueFiltered(tag, "included"));
    NonEmptyTokens(OptionalAttributeValueFiltered(tag, "except"));
  }
}
