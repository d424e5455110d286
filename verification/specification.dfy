/** A TEI specification (`elementSpec`, `classSpec` or `macroSpec`): the
    record the dependency graphs are built from. */
module Specification {
  import opened Common
  import opened Xml
  import Combinable
  import ContentModel
  import LexOrder

  datatype Kind = ElementKind | ClassKind | MacroKind

  /** The element that declares each kind of specification. */
  function KindElementName(k: Kind): string {
    match k
    case ElementKind => "elementSpec"
    case ClassKind => "classSpec"
    case MacroKind => "macroSpec"
  }

  const SpecificationElementNames: set<string> := {"elementSpec", "classSpec", "macroSpec"}

  /** `Type.from(localName)`: the kind declared by an element name. */
  function KindFrom(localName: string): (r: Result<Kind>)
    ensures r.Failure? <==> localName !in SpecificationElementNames
    ensures r.Failure? ==> r.error == IllegalArgument(localName)
    ensures r.Success? ==> KindElementName(r.value) == localName
  {
    if localName == "elementSpec" then Success(ElementKind)
    else if localName == "classSpec" then Success(ClassKind)
    else if localName == "macroSpec" then Success(MacroKind)
    else Failure(IllegalArgument(localName))
  }

  lemma KindFromInverse(k: Kind)
    ensures KindFrom(KindElementName(k)) == Success(k)
  {
  }

  /** `isSpecificationElement(name)`. */
  predicate IsSpecificationElement(name: QName) {
    name.ns == TeiNs && name.local in SpecificationElementNames
  }

  /** A name is a specification element exactly when it is in the TEI
      namespace and its local part decodes to a kind. */
  lemma IsSpecificationElementDecodes(name: QName)
    ensures IsSpecificationElement(name) <==> name.ns == TeiNs && KindFrom(name.local).Success?
    ensures IsSpecificationElement(name) ==> KindElementName(KindFrom(name.local).value) == name.local
  {
  }

  datatype Specification = Specification(
    ident: string,
    moduleName: Option<string>,
    kind: Kind,
    specType: Option<string>,
    editOperation: Option<Combinable.EditOperation>,
    classesEditOperation: Option<Combinable.EditOperation>,
    classes: map<string, Option<Combinable.EditOperation>>,
    content: Option<ContentModel.Model>)

  /** The constructor: `ident` and `module` are required attributes, the kind
      comes from the element name, `type` is optional and `mode` is decoded;
      the first of these to fail decides the failure. The class memberships,
      the classes' edit operation and the content model are read by the
      event loop and passed in. */
  function FromStartTag(tag: StartTag, classesEditOperation: Option<Combinable.EditOperation>,
                        classes: map<string, Option<Combinable.EditOperation>>,
                        content: Option<ContentModel.Model>): (r: Result<Specification>)
    ensures r.Success? <==>
              && RequiredAttributeValue(tag, "ident").Success?
              && RequiredAttributeValue(tag, "module").Success?
              && KindFrom(tag.name.local).Success?
              && Combinable.EditOperationFrom(tag).Success?
    ensures r.Success? ==>
              && Some(r.value.ident) == OptionalAttributeValue(tag, "ident")
              && r.value.moduleName == OptionalAttributeValue(tag, "module")
              && KindElementName(r.value.kind) == tag.name.local
              && r.value.specType == OptionalAttributeValue(tag, "type")
              && r.value.classes == classes && r.value.content == content
              && r.value.editOperation == Combinable.EditOperationFrom(tag).value
              && r.value.classesEditOperation == classesEditOperation
    ensures RequiredAttributeValue(tag, "ident").Failure? ==> r == Failure(NullValue)
  {
    var ident :- RequiredAttributeValue(tag, "ident");
    var moduleName :- RequiredAttributeValue(tag, "module");
    var kind :- KindFrom(tag.name.local);
    var op :- Combinable.EditOperationFrom(tag);
    Success(Specification(ident, Some(moduleName), kind, OptionalAttributeValue(tag, "type"), op,
                          classesEditOperation, classes, content))
  }

  /** A specification start tag with its required attributes and a valid
      mode always yields a specification of the declared kind. */
  lemma FromSpecificationElement(tag: StartTag, classes: map<string, Option<Combinable.EditOperation>>)
    requires IsSpecificationElement(tag.name)
    requires OptionalAttributeValue(tag, "ident").Some? && OptionalAttributeValue(tag, "module").Some?
    requires OptionalAttributeValue(tag, "mode").None?
    ensures FromStartTag(tag, None, classes, None).Success?
    ensures FromStartTag(tag, None, classes, None).value.editOperation.None?
  {
  }

  /** `equals`: specifications are equal when their idents are. */
  predicate Equal(a: Specification, b: Specification) {
    a.ident == b.ident
  }

  /** `hashCode`: the ident's string hash. */
  function HashCode(s: Specification): (h: int)
    ensures -LexOrder.TwoTo31 <= h < LexOrder.TwoTo31
  {
    LexOrder.Hash(s.ident)
  }

  /** Equality is an equivalence that ignores everything but the ident, and
      the hash code agrees with it. */
  lemma EqualityContract(a: Specification, b: Specification, c: Specification)
    ensures Equal(a, a)
    ensures Equal(a, b) ==> Equal(b, a)
    ensures Equal(a, b) && Equal(b, c) ==> Equal(a, c)
    ensures Equal(a, b) ==> HashCode(a) == HashCode(b)
    ensures Equal(a, a.(moduleName := None, kind := MacroKind, classes := map[], content := None))
  {
  }

  /** `Type.predicate()`: accepts the specifications of that kind. */
  predicate Accepts(k: Kind, s: Specification) {
    s.kind == k
  }

  /** Every specification is accepted by exactly one kind's predicate. */
  lemma AcceptedByExactlyOneKind(s: Specification, k: Kind, k': Kind)
    ensures Accepts(s.kind, s)
    ensures Accepts(k, s) && Accepts(k', s) ==> k == k'
  {
  }
}
