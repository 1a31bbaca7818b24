/**
 * The evidence record attached to a causal edge: which kind of source it comes
 * from, the source's identifier and the supporting sentence. Equal records are
 * one logical object, which is what lets the writer store each only once.
 */
module CausenetSupport {
  import opened Wrappers
  import opened LittleEndian

  /** The four source kinds, stored in one byte as 0..3 in declaration order. */
  datatype SourceType = WikipediaInfobox | WikipediaList | WikipediaSentence | ClueWeb12Sentence

  datatype Support = Support(sourceTypeId: SourceType, id: Bytes, content: Bytes)

  function SourceTypeByte(t: SourceType): (b: Byte)
    ensures b < 4
    ensures t == WikipediaInfobox <==> b == 0
    ensures t == WikipediaList <==> b == 1
    ensures t == WikipediaSentence <==> b == 2
  {
    match t
    case WikipediaInfobox => 0
    case WikipediaList => 1
    case WikipediaSentence => 2
    case ClueWeb12Sentence => 3
  }

  /** Reading the type byte back; a byte outside 0..3 names no source kind. */
  function SourceTypeOfByte(b: Byte): (r: Option<SourceType>)
    ensures r.Some? <==> b < 4
    ensures r.Some? ==> SourceTypeByte(r.value) == b
  {
    if b == 0 then Some(WikipediaInfobox)
    else if b == 1 then Some(WikipediaList)
    else if b == 2 then Some(WikipediaSentence)
    else if b == 3 then Some(ClueWeb12Sentence)
    else None
  }

  lemma {:induction false} SourceTypeByteRoundTrip(t: SourceType)
    ensures SourceTypeOfByte(SourceTypeByte(t)) == Some(t)
  {
  }

  /** Field-by-field equality of two supports, the dedup key of the writer. */
  function SupportEquals(a: Support, b: Support): (r: bool)
    ensures r <==> a == b
  {
    a.sourceTypeId == b.sourceTypeId && a.id == b.id && a.content == b.content
  }

  /** Equality of supports is an equivalence relation, so it is a sound key for deduplication. */
  lemma {:induction false} SupportEqualsIsEquivalence(a: Support, b: Support, c: Support)
    ensures SupportEquals(a, a)
    ensures SupportEquals(a, b) ==> SupportEquals(b, a)
    ensures SupportEquals(a, b) && SupportEquals(b, c) ==> SupportEquals(a, c)
  {
  }
}
