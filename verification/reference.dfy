/** A reference to a specification by key, with an optional source URI. */
module Reference {
  import opened Common
  import opened Xml
  import LexOrder

  /** A URI is represented by its string form. */
  datatype Reference = Reference(key: string, source: Option<string>)

  /** `FROM_STRING`. */
  function FromString(s: string): (r: Reference)
    ensures r.key == s && r.source.None?
  {
    Reference(s, None)
  }

  /** `Reference.from(element)`: a required `key` and an optional `source`. */
  function FromStartTag(tag: StartTag): (r: Result<Reference>)
    ensures r.Failure? <==> OptionalAttributeValueFiltered(tag, "key").None?
    ensures r.Success? ==> Some(r.value.key) == OptionalAttributeValueFiltered(tag, "key")
                           && r.value.source == ToUri(OptionalAttributeValueFiltered(tag, "source"))
  {
    OptionalAttributeValueAgrees(tag, "key");
    var key :- RequiredAttributeValue(tag, "key");
    Success(Reference(key, ToUri(OptionalAttributeValueFiltered(tag, "source"))))
  }

  /** `equals`: key and source both equal, an absent source equal only to
      an absent source. */
  predicate Equal(a: Reference, b: Reference) {
    a.key == b.key && a.source == b.source
  }

  /** `hashCode`: `Objects.hashCode(key, source)` in 32-bit arithmetic; the
      hash of a URI is a parameter. */
  function HashCode(r: Reference, uriHash: string -> int): (h: int)
    ensures -LexOrder.TwoTo31 <= h < LexOrder.TwoTo31
  {
    var keyHash := LexOrder.Hash(r.key);
    var sourceHash := match r.source case None => 0 case Some(u) => uriHash(u);
    LexOrder.WrapInt32(31 * LexOrder.WrapInt32(31 + keyHash) + sourceHash)
  }

  lemma HashConsistentWithEquality(a: Reference, b: Reference, uriHash: string -> int)
    requires Equal(a, b)
    ensures HashCode(a, uriHash) == HashCode(b, uriHash)
  {
  }

  function Sign(x: int): (s: int)
    ensures s == -1 || s == 0 || s == 1
    ensures (s < 0 <==> x < 0) && (s == 0 <==> x == 0)
  {
    if x < 0 then -1 else if x > 0 then 1 else 0
  }

  /** The natural order with absent sources first. */
  function CompareSources(a: Option<string>, b: Option<string>): int {
    match (a, b)
    case (None, None) => 0
    case (None, Some(_)) => -1
    case (Some(_), None) => 1
    case (Some(x), Some(y)) => Sign(LexOrder.Compare(x, y))
  }

  /** `compareTo`: keys first, then sources with an absent one first. */
  function Compare(a: Reference, b: Reference): (c: int)
    ensures c == -1 || c == 0 || c == 1
  {
    var k := LexOrder.Compare(a.key, b.key);
    if k != 0 then Sign(k) else CompareSources(a.source, b.source)
  }

  /** The comparison is zero exactly on equal references and swaps sign
      with its arguments. */
  lemma CompareConsistentWithEquality(a: Reference, b: Reference)
    ensures Compare(a, b) == 0 <==> Equal(a, b)
    ensures Compare(b, a) == -Compare(a, b)
  {
    LexOrder.CompareZeroIffEqual(a.key, b.key);
    LexOrder.CompareAntisymmetric(a.key, b.key);
    if a.source.Some? && b.source.Some? {
      LexOrder.CompareZeroIffEqual(a.source.value, b.source.value);
      LexOrder.CompareAntisymmetric(a.source.value, b.source.value);
    }
  }

  /** Keys decide first; equal keys put an absent source before a present one. */
  lemma CompareOrdersByKeyThenSource(a: Reference, b: Reference)
    ensures LexOrder.Less(a.key, b.key) ==> Compare(a, b) == -1
    ensures a.key == b.key && a.source.None? && b.source.Some? ==> Compare(a, b) == -1
  {
    LexOrder.CompareZeroIffEqual(a.key, b.key);
  }

  /** The comparison orders references transitively. */
  lemma CompareTransitive(a: Reference, b: Reference, c: Reference)
    requires Compare(a, b) < 0 && Compare(b, c) < 0
    ensures Compare(a, c) < 0
  {
    LexOrder.CompareZeroIffEqual(a.key, b.key);
    LexOrder.CompareZeroIffEqual(b.key, c.key);
    LexOrder.CompareZeroIffEqual(a.key, c.key);
    if a.key != b.key && b.key != c.key {
      LexOrder.LessTransitive(a.key, b.key, c.key);
    } else if a.key == b.key && b.key == c.key {
      if a.source.Some? && b.source.Some? && c.source.Some? {
        LexOrder.LessTransitive(a.source.value, b.source.value, c.source.value);
      }
    }
  }
}
