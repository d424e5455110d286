/** The edit operation of a customisation element, decoded from its `mode`
    attribute. */
module Combinable {
  import opened Common
  import opened Xml

  datatype EditOperation = Add | Change | Replace | Delete

  /** The attribute value that names each operation. */
  function ModeName(op: EditOperation): string {
    match op
    case Add => "add"
    case Change => "change"
    case Replace => "replace"
    case Delete => "delete"
  }

  const ModeNames: set<string> := {"change", "add", "delete", "replace"}

  /** Decoding a `mode` value: no value gives no operation, the four lower-case
      names give their operation, anything else is an illegal argument. */
  function DecodeMode(mode: Option<string>): (r: Result<Option<EditOperation>>)
    ensures mode.None? ==> r == Success(None)
    ensures r.Failure? <==> mode.Some? && mode.value !in ModeNames
    ensures r.Failure? ==> r.error == IllegalArgument(mode.value)
    ensures r.Success? && mode.Some? ==> r.value.Some? && ModeName(r.value.value) == mode.value
  {
    match mode
    case None => Success(None)
    case Some(m) =>
      if m == "change" then Success(Some(Change))
      else if m == "add" then Success(Some(Add))
      else if m == "delete" then Success(Some(Delete))
      else if m == "replace" then Success(Some(Replace))
      else Failure(IllegalArgument(m))
  }

  /** `EditOperation.from(element)`: an absent or empty `mode` attribute
      means no operation; a non-empty one must name an operation exactly. */
  function EditOperationFrom(tag: StartTag): (r: Result<Option<EditOperation>>)
    ensures AttributeByName(tag.attributes, Unqualified("mode")) in {None, Some("")} ==> r == Success(None)
    ensures forall m :: AttributeByName(tag.attributes, Unqualified("mode")) == Some(m) && m != "" ==>
              && (r.Success? <==> m in ModeNames)
              && (r.Success? ==> r.value.Some? && ModeName(r.value.value) == m)
              && (r.Failure? ==> r.error == IllegalArgument(m))
  {
    DecodeMode(OptionalAttributeValue(tag, "mode"))
  }

  /** Decoding inverts `ModeName`, so distinct accepted strings give
      distinct operations. */
  lemma DecodeModeInverse(op: EditOperation, s: string, t: string)
    ensures DecodeMode(Some(ModeName(op))) == Success(Some(op))
    ensures DecodeMode(Some(s)).Success? && DecodeMode(Some(t)).Success? && s != t ==>
              DecodeMode(Some(s)).value != DecodeMode(Some(t)).value
  {
  }

  /** The names are case sensitive. */
  lemma DecodeModeCaseSensitive()
    ensures DecodeMode(Some("ADD")).Failure?
    ensures DecodeMode(Some("Change")).Failure?
  {
  }
}
