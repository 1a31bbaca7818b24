/**
 * Causenet: read-only queries over a finished CauseNet file. Every query is a
 * function of the file's bytes; the scans walk the node array or an edge array
 * exactly as the C++ reader walks the memory mapping.
 */
module CausenetReader {
  import opened Wrappers
  import opened LittleEndian
  import opened CausenetSupport
  import opened CausenetFile

  /** What getConceptIdx returns for a name that is not in the file: size_t(-1). */
  const NOT_FOUND: nat := U64_LIMIT - 1

  /**
   * The edge entries from `pos` up to, and excluding, the first sentinel; None when
   * the file ends before a sentinel.
   */
  function EdgesFrom(file: Bytes, pos: nat): (r: Option<seq<EdgeEntry>>)
    ensures r.Some? ==> pos + EDGE_SIZE * (|r.value| + 1) <= |file|
    decreases |file| - pos
  {
    if pos + EDGE_SIZE > |file| then None
    else
      var e := EdgeAt(file, pos);
      if e.targetIdx == NULL_TARGET then Some([])
      else match EdgesFrom(file, pos + EDGE_SIZE)
        case None => None
        case Some(rest) => Some([e] + rest)
  }

  /** What EdgesFrom yields is the run of non-sentinel entries from `pos`, and a sentinel follows it. */
  lemma {:induction false} EdgesFromSpec(file: Bytes, pos: nat)
    requires EdgesFrom(file, pos).Some?
    ensures var es := EdgesFrom(file, pos).value;
            (forall k :: 0 <= k < |es| ==>
               EdgeAt(file, pos + EDGE_SIZE * k) == es[k] && es[k].targetIdx != NULL_TARGET) &&
            EdgeAt(file, pos + EDGE_SIZE * |es|).targetIdx == NULL_TARGET
    decreases |file| - pos
  {
    var es := EdgesFrom(file, pos).value;
    if es != [] {
      EdgesFromSpec(file, pos + EDGE_SIZE);
      var rest := EdgesFrom(file, pos + EDGE_SIZE).value;
      assert es == [EdgeAt(file, pos)] + rest;
      forall k | 1 <= k < |es|
        ensures EdgeAt(file, pos + EDGE_SIZE * k) == es[k]
      {
        assert pos + EDGE_SIZE * k == pos + EDGE_SIZE + EDGE_SIZE * (k - 1);
      }
      assert pos + EDGE_SIZE * |es| == pos + EDGE_SIZE + EDGE_SIZE * |rest|;
    }
  }

  /** Every edge of the list can materialise all of its supports. */
  predicate EdgesSupported(file: Bytes, h: Header, edges: seq<EdgeEntry>)
  {
    forall k :: 0 <= k < |edges| ==> SupportRecords(file, h, edges[k], edges[k].numSupport).Some?
  }

  /** Node `i` has a readable entry, a terminated name and a terminated edge array whose supports decode. */
  predicate NodeWf(file: Bytes, h: Header, i: nat)
  {
    NodeEntryPos(h, i) + NODE_ENTRY_SIZE <= |file| &&
    var e := NodeEntryAt(file, NodeEntryPos(h, i));
    CStringAt(file, NamePos(h, e)).Some? &&
    EdgesFrom(file, EffectsPos(h, e)).Some? &&
    EdgesSupported(file, h, EdgesFrom(file, EffectsPos(h, e)).value)
  }

  /**
   * The reader's trust assumption about the mapped file: a header and, for every
   * node it counts, data the reader's pointer arithmetic can follow.
   */
  predicate WellFormed(file: Bytes)
  {
    |file| >= HEADER_SIZE &&
    forall i :: 0 <= i < HeaderAt(file).numNodes ==> NodeWf(file, HeaderAt(file), i)
  }

  /** numConcepts: the node count, the little-endian u64 in the header's first eight bytes. */
  function NumConcepts(file: Bytes): (n: nat)
    requires |file| >= HEADER_SIZE
    ensures n == U64At(file, 0) && n < U64_LIMIT
  {
    HeaderAt(file).numNodes
  }

  function NodeOf(file: Bytes, i: nat): NodeEntry
    requires WellFormed(file) && i < NumConcepts(file)
  {
    assert NodeWf(file, HeaderAt(file), i);
    NodeEntryAt(file, NodeEntryPos(HeaderAt(file), i))
  }

  /** getConceptByIdx: the NUL-terminated name that node entry `i` points at. */
  function ConceptByIdx(file: Bytes, i: nat): (name: Bytes)
    requires WellFormed(file) && i < NumConcepts(file)
    ensures NoNul(name)
    ensures Contains(file, NamePos(HeaderAt(file), NodeOf(file, i)), name + [0])
  {
    assert NodeWf(file, HeaderAt(file), i);
    CStringAtTerminated(file, NamePos(HeaderAt(file), NodeOf(file, i)));
    CStringAt(file, NamePos(HeaderAt(file), NodeOf(file, i))).value
  }

  /** The edge entries of concept `c` before its sentinel. */
  function EffectEdges(file: Bytes, c: nat): seq<EdgeEntry>
    requires WellFormed(file) && c < NumConcepts(file)
  {
    assert NodeWf(file, HeaderAt(file), c);
    EdgesFrom(file, EffectsPos(HeaderAt(file), NodeOf(file, c))).value
  }

  /** Where concept `c`'s edge array starts in the file. */
  function EffectsStart(file: Bytes, c: nat): nat
    requires WellFormed(file) && c < NumConcepts(file)
  {
    EffectsPos(HeaderAt(file), NodeOf(file, c))
  }

  /** The edges of `c` sit one after the other from its edge-array start, closed by a sentinel. */
  lemma {:induction false} EffectEdgesLayout(file: Bytes, c: nat)
    requires WellFormed(file) && c < NumConcepts(file)
    ensures var edges, start := EffectEdges(file, c), EffectsStart(file, c);
            start + EDGE_SIZE * (|edges| + 1) <= |file| &&
            (forall k :: 0 <= k < |edges| ==>
               EdgeAt(file, start + EDGE_SIZE * k) == edges[k] && edges[k].targetIdx != NULL_TARGET) &&
            EdgeAt(file, start + EDGE_SIZE * |edges|).targetIdx == NULL_TARGET
  {
    assert NodeWf(file, HeaderAt(file), c);
    EdgesFromSpec(file, EffectsStart(file, c));
  }

  lemma {:induction false} EffectEdgesSupported(file: Bytes, c: nat)
    requires WellFormed(file) && c < NumConcepts(file)
    ensures EdgesSupported(file, HeaderAt(file), EffectEdges(file, c))
  {
    var h := HeaderAt(file);
    assert NodeWf(file, h, c);
    var e := NodeEntryAt(file, NodeEntryPos(h, c));
    assert e == NodeOf(file, c);
    assert EffectEdges(file, c) == EdgesFrom(file, EffectsPos(h, e)).value;
  }

  /**
   * `idx` is getConceptIdx's answer for `name`: NOT_FOUND exactly when no concept
   * has that name, and otherwise the smallest index of a concept that has it.
   */
  predicate ConceptIdxOf(file: Bytes, name: Bytes, idx: nat)
  {
    WellFormed(file) &&
    (idx == NOT_FOUND <==> forall i :: 0 <= i < NumConcepts(file) ==> ConceptByIdx(file, i) != name) &&
    (idx != NOT_FOUND ==>
       idx < NumConcepts(file) && ConceptByIdx(file, idx) == name &&
       forall j :: 0 <= j < idx ==> ConceptByIdx(file, j) != name)
  }

  /** getConceptIdx: linear scan for the smallest index whose name equals `name`. */
  method GetConceptIdx(file: Bytes, name: Bytes) returns (idx: nat)
    requires WellFormed(file)
    ensures ConceptIdxOf(file, name, idx)
  {
    var i := 0;
    while i < NumConcepts(file)
      invariant i <= NumConcepts(file)
      invariant forall j :: 0 <= j < i ==> ConceptByIdx(file, j) != name
    {
      if name == ConceptByIdx(file, i) {
        return i;
      }
      i := i + 1;
    }
    return NOT_FOUND;
  }

  /** getConcepts: every name once, in index order. */
  method GetConcepts(file: Bytes) returns (names: seq<Bytes>)
    requires WellFormed(file)
    ensures |names| == NumConcepts(file)
    ensures forall i :: 0 <= i < |names| ==> names[i] == ConceptByIdx(file, i)
  {
    names := [];
    var i := 0;
    while i < NumConcepts(file)
      invariant i <= NumConcepts(file) && |names| == i
      invariant forall j :: 0 <= j < i ==> names[j] == ConceptByIdx(file, j)
    {
      names := names + [ConceptByIdx(file, i)];
      i := i + 1;
    }
  }

  /** getEffects: (targetIdx, numSupport) of each edge entry up to the first sentinel. */
  method GetEffects(file: Bytes, c: nat) returns (effects: seq<(nat, nat)>)
    requires WellFormed(file) && c < NumConcepts(file)
    ensures |effects| == |EffectEdges(file, c)|
    ensures forall k :: 0 <= k < |effects| ==>
              effects[k] == (EffectEdges(file, c)[k].targetIdx, EffectEdges(file, c)[k].numSupport)
  {
    var start := EffectsStart(file, c);
    var edges := EffectEdges(file, c);
    EffectEdgesLayout(file, c);
    var n := start;
    var k := 0;
    effects := [];
    while EdgeAt(file, n).targetIdx != NULL_TARGET
      invariant k <= |edges| && n == start + EDGE_SIZE * k
      invariant k < |edges| ==> EdgeAt(file, n) == edges[k]
      invariant |effects| == k
      invariant forall j :: 0 <= j < k ==> effects[j] == (edges[j].targetIdx, edges[j].numSupport)
      decreases |edges| - k
    {
      var e := EdgeAt(file, n);
      effects := effects + [(e.targetIdx, e.numSupport)];
      n := n + EDGE_SIZE;
      k := k + 1;
    }
  }

  /** numEffects: the number of entries before the sentinel, i.e. how many items getEffects yields. */
  method NumEffects(file: Bytes, c: nat) returns (n: nat)
    requires WellFormed(file) && c < NumConcepts(file)
    ensures n == |EffectEdges(file, c)|
  {
    var start := EffectsStart(file, c);
    var edges := EffectEdges(file, c);
    EffectEdgesLayout(file, c);
    n := 0;
    while EdgeAt(file, start + EDGE_SIZE * n).targetIdx != NULL_TARGET
      invariant n <= |edges|
      invariant n < |edges| ==> EdgeAt(file, start + EDGE_SIZE * n) == edges[n]
      decreases |edges| - n
    {
      n := n + 1;
    }
  }

  /** The first edge of `edges` whose target is `target`. */
  function FirstEdgeTo(edges: seq<EdgeEntry>, target: nat): (r: Option<nat>)
    ensures r.None? <==> forall k :: 0 <= k < |edges| ==> edges[k].targetIdx != target
    ensures r.Some? ==> r.value < |edges| && edges[r.value].targetIdx == target &&
                        forall k :: 0 <= k < r.value ==> edges[k].targetIdx != target
  {
    if edges == [] then None
    else if edges[0].targetIdx == target then Some(0)
    else match FirstEdgeTo(edges[1..], target)
      case None => None
      case Some(k) => Some(k + 1)
  }

  /** The supports between two concepts as getSupport returns them: those of the first matching edge, or none. */
  function SupportBetween(file: Bytes, cause: nat, effect: nat): seq<Support>
    requires WellFormed(file) && cause < NumConcepts(file)
  {
    var edges := EffectEdges(file, cause);
    match FirstEdgeTo(edges, effect)
    case None => []
    case Some(k) =>
      assert NodeWf(file, HeaderAt(file), cause);
      SupportRecords(file, HeaderAt(file), edges[k], edges[k].numSupport).value
  }

  /** When edge `k` is the first one to `effect`, its supports decode and are the ones between the concepts. */
  lemma {:induction false} SupportBetweenFirst(file: Bytes, cause: nat, effect: nat, k: nat)
    requires WellFormed(file) && cause < NumConcepts(file)
    requires k < |EffectEdges(file, cause)| && EffectEdges(file, cause)[k].targetIdx == effect
    requires forall j :: 0 <= j < k ==> EffectEdges(file, cause)[j].targetIdx != effect
    ensures var e := EffectEdges(file, cause)[k];
            SupportRecords(file, HeaderAt(file), e, e.numSupport).Some? &&
            SupportBetween(file, cause, effect) == SupportRecords(file, HeaderAt(file), e, e.numSupport).value
  {
    var edges := EffectEdges(file, cause);
    EffectEdgesSupported(file, cause);
    assert FirstEdgeTo(edges, effect) == Some(k);
  }

  /** getSupport: scan the cause's edges for the target and materialise that edge's supports. */
  method GetSupport(file: Bytes, causeIdx: nat, effectIdx: nat) returns (supports: seq<Support>)
    requires WellFormed(file) && causeIdx < NumConcepts(file)
    ensures supports == SupportBetween(file, causeIdx, effectIdx)
  {
    var start := EffectsStart(file, causeIdx);
    var edges := EffectEdges(file, causeIdx);
    EffectEdgesLayout(file, causeIdx);
    var n := start;
    var k := 0;
    while EdgeAt(file, n).targetIdx != NULL_TARGET
      invariant k <= |edges| && n == start + EDGE_SIZE * k
      invariant k < |edges| ==> EdgeAt(file, n) == edges[k]
      invariant forall j :: 0 <= j < k ==> edges[j].targetIdx != effectIdx
      decreases |edges| - k
    {
      var e := EdgeAt(file, n);
      if effectIdx == e.targetIdx {
        SupportBetweenFirst(file, causeIdx, effectIdx, k);
        supports := EdgeSupports(file, HeaderAt(file), e);
        return;
      }
      n := n + EDGE_SIZE;
      k := k + 1;
    }
    assert FirstEdgeTo(edges, effectIdx).None?;
    return [];
  }
}
