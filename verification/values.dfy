/** A value list (`valList`): its type and edit operation. */
module Values {
  import opened Common
  import opened Xml
  import Combinable

  datatype ListType = Closed | Semi | Open

  function TypeName(t: ListType): string {
    match t
    case Closed => "closed"
    case Semi => "semi"
    case Open => "open"
  }

  /** `Values.Type.from`: no value gives no type; the three names give their
      type; anything else is an illegal argument. */
  function TypeFrom(t: Option<string>): (r: Result<Option<ListType>>)
    ensures t.None? ==> r == Success(None)
    ensures r.Failure? <==> t.Some? && t.value !in {"closed", "semi", "open"}
    ensures r.Failure? ==> r.error == IllegalArgument(t.value)
    ensures r.Success? && t.Some? ==> r.value.Some? && TypeName(r.value.value) == t.value
  {
    match t
    case None => Success(None)
    case Some(s) =>
      if s == "closed" then Success(Some(Closed))
      else if s == "semi" then Success(Some(Semi))
      else if s == "open" then Success(Some(Open))
      else Failure(IllegalArgument(s))
  }

  lemma TypeFromInverse(t: ListType)
    ensures TypeFrom(Some(TypeName(t))) == Success(Some(t))
  {
  }

  /** The header of a value list; its items are read by the event loop. */
  datatype ValueList = ValueList(listType: ListType, editOperation: Option<Combinable.EditOperation>)

  /** The record `Values.parse` starts from: the type, `open` when the
      attribute is absent or empty, and the edit operation. */
  function ValueListFrom(tag: StartTag): (r: Result<ValueList>)
    ensures OptionalAttributeValue(tag, "type").None? && r.Success? ==> r.value.listType == Open
    ensures r.Success? && OptionalAttributeValue(tag, "type").Some? ==>
              TypeName(r.value.listType) == OptionalAttributeValue(tag, "type").value
    ensures r.Success? <==> TypeFrom(OptionalAttributeValue(tag, "type")).Success?
                            && Combinable.EditOperationFrom(tag).Success?
    ensures r.Success? ==> r.value.editOperation == Combinable.EditOperationFrom(tag).value
  {
    var t :- TypeFrom(OptionalAttributeValue(tag, "type"));
    var op :- Combinable.EditOperationFrom(tag);
    Success(ValueList(if t.Some? then t.value else Open, op))
  }
}
