/**
 * jsonlToBinary: every line of the JSON-lines dump is one causal relation, whose
 * sources are mapped to supports and handed to the writer as one writeEdge call.
 * The JSON parsing itself is not modelled: a line arrives as a Row already holding
 * the cause and effect concepts and, per source, its "type" string and the string
 * members of its "payload" object. The mapping of ClueWeb WARC ids to ClueWeb ids
 * (a file-backed lookup) is the parameter clueWebId.
 */
module JsonlIngest {
  import opened Wrappers
  import opened LittleEndian
  import opened CausenetSupport
  import opened CausenetLayout
  import opened CausenetRoundTrip
  import opened Writer

  /** One element of a line's "sources" array. */
  datatype Source = Source(sourceType: Bytes, payload: map<Bytes, Bytes>)

  /**
   * One line: causal_relation.cause.concept, causal_relation.effect.concept and the
   * sources. The strings are rapidjson's, which may hold NUL bytes; each becomes a
   * std::string through GetString() and so ends at its first NUL (CString).
   */
  datatype Row = Row(cause: Bytes, effect: Bytes, sources: seq<Source>)

  datatype IngestError =
    | InvalidSourceType(sourceType: Bytes)  // the runtime_error thrown for an unknown "type"
    | MissingMember(member: Bytes)          // an id member the payload lacks (rapidjson's member assertion)

  /** The member names the conversion looks up, as the ASCII bytes of "sentence", "wikipedia_revision_id" and "clueweb12_page_id". */
  const SENTENCE: Bytes := [115, 101, 110, 116, 101, 110, 99, 101]
  const REVISION_ID: Bytes := [119, 105, 107, 105, 112, 101, 100, 105, 97, 95, 114, 101, 118, 105, 115, 105, 111, 110, 95, 105, 100]
  const PAGE_ID: Bytes := [99, 108, 117, 101, 119, 101, 98, 49, 50, 95, 112, 97, 103, 101, 95, 105, 100]

  /**
   * The "type" string of each source kind, as ASCII bytes: "wikipedia_infobox",
   * "wikipedia_list", "wikipedia_sentence" and "clueweb12_sentence".
   */
  function SourceName(t: SourceType): Bytes
  {
    match t
    case WikipediaInfobox => [119, 105, 107, 105, 112, 101, 100, 105, 97, 95, 105, 110, 102, 111, 98, 111, 120]
    case WikipediaList => [119, 105, 107, 105, 112, 101, 100, 105, 97, 95, 108, 105, 115, 116]
    case WikipediaSentence => [119, 105, 107, 105, 112, 101, 100, 105, 97, 95, 115, 101, 110, 116, 101, 110, 99, 101]
    case ClueWeb12Sentence => [99, 108, 117, 101, 119, 101, 98, 49, 50, 95, 115, 101, 110, 116, 101, 110, 99, 101]
  }

  /** The payload member holding the source's id: the ClueWeb page id, or the Wikipedia revision id. */
  function IdMember(t: SourceType): Bytes
  {
    if t == ClueWeb12Sentence then PAGE_ID else REVISION_ID
  }

  /** The four type names are pairwise different, so a name names at most one source kind. */
  lemma {:induction false} SourceNameInjective(t: SourceType, u: SourceType)
    ensures SourceName(t) == SourceName(u) ==> t == u
  {
    assert |SourceName(WikipediaInfobox)| == 17 && |SourceName(WikipediaList)| == 14;
    assert |SourceName(WikipediaSentence)| == 18 && |SourceName(ClueWeb12Sentence)| == 18;
    assert SourceName(WikipediaSentence)[0] == 119 && SourceName(ClueWeb12Sentence)[0] == 99;
  }

  /** A string that is none of the four names names no source kind. */
  lemma {:induction false} UnknownName(ty: Bytes)
    requires ty != SourceName(WikipediaInfobox) && ty != SourceName(WikipediaList)
    requires ty != SourceName(WikipediaSentence) && ty != SourceName(ClueWeb12Sentence)
    ensures forall t: SourceType :: ty != SourceName(t)
  {
    forall t: SourceType
      ensures ty != SourceName(t)
    {
      match t
      case WikipediaInfobox =>
      case WikipediaList =>
      case WikipediaSentence =>
      case ClueWeb12Sentence =>
    }
  }

  /** The content of a support: the payload's "sentence", or empty when the payload has none. */
  function SentenceOf(payload: map<Bytes, Bytes>): Bytes
  {
    if SENTENCE in payload then payload[SENTENCE] else []
  }

  /** The source kind a "type" string names, tested in the order of the conversion's if-chain. */
  function KindOf(ty: Bytes): (r: Option<SourceType>)
    ensures r.Some? ==> ty == SourceName(r.value)
    ensures r.None? ==> forall t: SourceType :: ty != SourceName(t)
  {
    if ty == SourceName(WikipediaInfobox) then Some(WikipediaInfobox)
    else if ty == SourceName(WikipediaList) then Some(WikipediaList)
    else if ty == SourceName(WikipediaSentence) then Some(WikipediaSentence)
    else if ty == SourceName(ClueWeb12Sentence) then Some(ClueWeb12Sentence)
    else
      UnknownName(ty);
      None
  }

  /**
   * The support one source stands for, or why the line cannot be converted: the
   * content is the sentence, the id the kind's id member, mapped through
   * clueWebId for ClueWeb sources. Each payload string is a GetString() pointer
   * turned into a std::string, so it ends at its first NUL.
   */
  function SupportOf(src: Source, clueWebId: Bytes -> Bytes): (r: Result<Support, IngestError>)
    ensures r.Success? ==>
              && src.sourceType == SourceName(r.value.sourceTypeId)
              && IdMember(r.value.sourceTypeId) in src.payload
              && r.value.content == CString(SentenceOf(src.payload))
              && r.value.id == (var raw := CString(src.payload[IdMember(r.value.sourceTypeId)]);
                                if r.value.sourceTypeId == ClueWeb12Sentence then clueWebId(raw) else raw)
  {
    match KindOf(src.sourceType)
    case None => Failure(InvalidSourceType(src.sourceType))
    case Some(t) =>
      if IdMember(t) !in src.payload then Failure(MissingMember(IdMember(t)))
      else
        var raw := CString(src.payload[IdMember(t)]);
        Success(Support(t, if t == ClueWeb12Sentence then clueWebId(raw) else raw, CString(SentenceOf(src.payload))))
  }

  /**
   * A converted support's content holds no NUL, nor does its id unless clueWebId
   * made it, which is what the file format needs of the strings it stores.
   */
  lemma {:induction false} SupportOfNoNul(src: Source, clueWebId: Bytes -> Bytes)
    requires SupportOf(src, clueWebId).Success?
    ensures NoNul(SupportOf(src, clueWebId).value.content)
    ensures SupportOf(src, clueWebId).value.sourceTypeId != ClueWeb12Sentence ==> NoNul(SupportOf(src, clueWebId).value.id)
  {
  }

  /**
   * A source fails to convert for one of two reasons: its "type" is none of the
   * four names, or it names a kind whose id member the payload lacks.
   */
  lemma {:induction false} SupportOfFailure(src: Source, clueWebId: Bytes -> Bytes)
    requires SupportOf(src, clueWebId).Failure?
    ensures || (SupportOf(src, clueWebId).error == InvalidSourceType(src.sourceType) &&
                forall t: SourceType :: src.sourceType != SourceName(t))
            || (exists t: SourceType ::
                  src.sourceType == SourceName(t) && SupportOf(src, clueWebId).error == MissingMember(IdMember(t)) &&
                  IdMember(t) !in src.payload)
  {
    match KindOf(src.sourceType)
    case None =>
    case Some(t) =>
      assert SupportOf(src, clueWebId).error == MissingMember(IdMember(t));
  }

  /**
   * Each of the four type names maps to its own source kind: a source named after
   * kind t whose payload has t's id member becomes a support of kind t.
   */
  lemma {:induction false} SupportOfName(t: SourceType, payload: map<Bytes, Bytes>, clueWebId: Bytes -> Bytes)
    requires IdMember(t) in payload
    ensures SupportOf(Source(SourceName(t), payload), clueWebId).Success?
    ensures SupportOf(Source(SourceName(t), payload), clueWebId).value.sourceTypeId == t
  {
    var r := SupportOf(Source(SourceName(t), payload), clueWebId);
    if r.Failure? {
      SupportOfFailure(Source(SourceName(t), payload), clueWebId);
      var u: SourceType :| SourceName(t) == SourceName(u) && r.error == MissingMember(IdMember(u)) && IdMember(u) !in payload;
      SourceNameInjective(t, u);
    } else {
      SourceNameInjective(t, r.value.sourceTypeId);
    }
  }

  /** The supports of a line, in order, when every source can be converted. */
  function SupportsOf(sources: seq<Source>, clueWebId: Bytes -> Bytes): (r: Result<seq<Support>, IngestError>)
    ensures r.Success? <==> forall i :: 0 <= i < |sources| ==> SupportOf(sources[i], clueWebId).Success?
    ensures r.Success? ==> |r.value| == |sources| &&
                           forall i :: 0 <= i < |sources| ==> r.value[i] == SupportOf(sources[i], clueWebId).value
    decreases |sources|
  {
    if sources == [] then Success([])
    else match SupportOf(sources[0], clueWebId)
      case Failure(e) => Failure(e)
      case Success(s) =>
        match SupportsOf(sources[1..], clueWebId)
        case Failure(e) => Failure(e)
        case Success(rest) => Success([s] + rest)
  }

  /** The first source that cannot be converted decides the error of the whole line. */
  lemma {:induction false} SupportsOfFailure(sources: seq<Source>, clueWebId: Bytes -> Bytes, i: nat)
    requires i < |sources| && SupportOf(sources[i], clueWebId).Failure?
    requires forall j :: 0 <= j < i ==> SupportOf(sources[j], clueWebId).Success?
    ensures SupportsOf(sources, clueWebId) == Failure(SupportOf(sources[i], clueWebId).error)
    decreases i
  {
    if i > 0 {
      assert SupportOf(sources[0], clueWebId).Success?;
      forall j | 0 <= j < i - 1
        ensures SupportOf(sources[1..][j], clueWebId).Success?
      {
        assert sources[1..][j] == sources[j + 1];
      }
      assert sources[1..][i - 1] == sources[i];
      SupportsOfFailure(sources[1..], clueWebId, i - 1);
    }
  }

  /** Sources that all convert give their supports, in order. */
  lemma {:induction false} SupportsOfAll(sources: seq<Source>, clueWebId: Bytes -> Bytes, supports: seq<Support>)
    requires |supports| == |sources|
    requires forall j :: 0 <= j < |sources| ==> SupportOf(sources[j], clueWebId) == Success(supports[j])
    ensures SupportsOf(sources, clueWebId) == Success(supports)
  {
    assert SupportsOf(sources, clueWebId).value == supports;
  }

  /**
   * The loop over the sources of one line: each source's support, in order; an
   * unknown type or a missing id member ends it with that error.
   */
  method CollectSupports(sources: seq<Source>, clueWebId: Bytes -> Bytes) returns (r: Result<seq<Support>, IngestError>)
    ensures r == SupportsOf(sources, clueWebId)
  {
    var supports: seq<Support> := [];
    var i := 0;
    while i < |sources|
      invariant 0 <= i <= |sources| && |supports| == i
      invariant forall j :: 0 <= j < i ==> SupportOf(sources[j], clueWebId) == Success(supports[j])
    {
      var s := SupportOf(sources[i], clueWebId);
      if s.Failure? {
        SupportsOfFailure(sources, clueWebId, i);
        return Failure(s.error);
      }
      supports := supports + [s.value];
      i := i + 1;
    }
    SupportsOfAll(sources, clueWebId, supports);
    r := Success(supports);
  }

  /**
   * The writer state after the lines, one writeEdge each, and the error that
   * stopped the loop, if one did (the lines after it are not read).
   */
  ghost function Ingest(st: WriterState, rows: seq<Row>, clueWebId: Bytes -> Bytes): (r: (WriterState, Option<IngestError>))
    requires Inv(st)
    ensures Inv(r.0)
    decreases |rows|
  {
    if rows == [] then (st, None)
    else match SupportsOf(rows[0].sources, clueWebId)
      case Failure(e) => (st, Some(e))
      case Success(sups) =>
        WriteEdgeInv(st, CString(rows[0].cause), CString(rows[0].effect), sups);
        Ingest(WriteEdgeStep(st, CString(rows[0].cause), CString(rows[0].effect), sups), rows[1..], clueWebId)
  }

  /** A line whose sources all convert is one writeEdge, and the lines after it go on from there. */
  lemma {:induction false} IngestStep(st: WriterState, rows: seq<Row>, clueWebId: Bytes -> Bytes, sups: seq<Support>)
    requires Inv(st) && rows != [] && SupportsOf(rows[0].sources, clueWebId) == Success(sups)
    ensures Inv(WriteEdgeStep(st, CString(rows[0].cause), CString(rows[0].effect), sups))
    ensures Ingest(st, rows, clueWebId) == Ingest(WriteEdgeStep(st, CString(rows[0].cause), CString(rows[0].effect), sups), rows[1..], clueWebId)
  {
    WriteEdgeInv(st, CString(rows[0].cause), CString(rows[0].effect), sups);
  }

  /** A line with a source that does not convert ends the loop with that source's error. */
  lemma {:induction false} IngestStop(st: WriterState, rows: seq<Row>, clueWebId: Bytes -> Bytes)
    requires Inv(st) && rows != [] && SupportsOf(rows[0].sources, clueWebId).Failure?
    ensures Ingest(st, rows, clueWebId) == (st, Some(SupportsOf(rows[0].sources, clueWebId).error))
  {
  }

  /** The state of a fresh writer. */
  function EmptyState(): WriterState
  {
    WriterState(map[], map[], [], [], map[])
  }

  /**
   * The loop of jsonlToBinary: one writeEdge per line, in order, until a source
   * cannot be converted.
   */
  method IngestRows(w: CausenetWriter, rows: seq<Row>, clueWebId: Bytes -> Bytes) returns (failure: Option<IngestError>)
    requires w.Valid()
    modifies w`conceptToIdx, w`support2Offset, w`sourcesFile, w`nodes, w`edgeLog
    ensures w.Valid()
    ensures (w.State(), failure) == Ingest(old(w.State()), rows, clueWebId)
  {
    ghost var st0 := w.State();
    failure := None;
    var i := 0;
    while i < |rows|
      invariant 0 <= i <= |rows|
      invariant w.Valid()
      invariant Ingest(w.State(), rows[i..], clueWebId) == Ingest(st0, rows, clueWebId)
    {
      ghost var rest := rows[i..];
      assert rest[0] == rows[i] && rest[1..] == rows[i + 1..];
      var sups := CollectSupports(rows[i].sources, clueWebId);
      if sups.Failure? {
        IngestStop(w.State(), rest, clueWebId);
        return Some(sups.error);
      }
      IngestStep(w.State(), rest, clueWebId, sups.value);
      w.WriteEdge(CString(rows[i].cause), CString(rows[i].effect), sups.value);
      i := i + 1;
    }
    assert rows[i..] == [];
  }

  /**
   * jsonlToBinary: the lines go to a fresh writer, whose destructor runs close()
   * and writes the output file from the lines before the failing one, if any. A
   * missing id member is rapidjson's assertion, which aborts the program without
   * unwinding, so close() never runs and no output is written.
   */
  method JsonlToBinary(rows: seq<Row>, clueWebId: Bytes -> Bytes) returns (w: CausenetWriter, failure: Option<IngestError>)
    ensures fresh(w)
    ensures (w.State(), failure) == Ingest(EmptyState(), rows, clueWebId)
    ensures failure.Some? && failure.value.MissingMember? ==> w.outfile == []
    ensures !(failure.Some? && failure.value.MissingMember?) ==> w.outfile == FileImage(w.nodes, w.sourcesFile)
  {
    w := new CausenetWriter();
    failure := IngestRows(w, rows, clueWebId);
    if failure.Some? && failure.value.MissingMember? {
      return;
    }
    w.Close();
  }
}
