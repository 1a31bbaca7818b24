/**
 * The on-disk layout shared by writer and reader: a 32-byte header of four u64
 * values, a fixed-stride array of 16-byte node entries, a node-info region
 * (names, sentinel-terminated 16-byte edge arrays, u64 support-offset lists) and
 * a region of support records. The file is a byte sequence whose first byte is
 * the header, so a section base is the header's offset for that section.
 */
module CausenetFile {
  import opened Wrappers
  import opened LittleEndian
  import opened CausenetSupport

  const HEADER_SIZE: nat := 32
  const NODE_ENTRY_SIZE: nat := 16
  const EDGE_SIZE: nat := 16
  const OFFSET_SIZE: nat := 8
  /** Target index of the terminating edge: (uint32_t)-1. */
  const NULL_TARGET: nat := 0xFFFF_FFFF

  datatype Header = Header(numNodes: nat, conceptOffset: nat, infoOffset: nat, supportOffset: nat)

  datatype NodeEntry = NodeEntry(nameOffset: nat, effectOffset: nat)

  datatype EdgeEntry = EdgeEntry(targetIdx: nat, numSupport: nat, supportOffset: nat)

  /** The edge that closes every edge array. */
  const NullEdge := EdgeEntry(NULL_TARGET, 0, 0)

  /** The bytes of the end-of-array sentinel: target 0xFFFFFFFF, no supports, offset 0. */
  const SENTINEL: Bytes := [0xFF, 0xFF, 0xFF, 0xFF, 0, 0, 0, 0, 0, 0, 0, 0, 0, 0, 0, 0]

  predicate FitsHeader(h: Header)
  {
    h.numNodes < U64_LIMIT && h.conceptOffset < U64_LIMIT && h.infoOffset < U64_LIMIT && h.supportOffset < U64_LIMIT
  }

  predicate FitsEdge(e: EdgeEntry)
  {
    e.targetIdx < U32_LIMIT && e.numSupport < U32_LIMIT && e.supportOffset < U64_LIMIT
  }

  predicate FitsNodeEntry(e: NodeEntry)
  {
    e.nameOffset < U64_LIMIT && e.effectOffset < U64_LIMIT
  }

  function EncodeHeader(h: Header): (r: Bytes)
    ensures |r| == HEADER_SIZE
  {
    EncodeU64(h.numNodes) + (EncodeU64(h.conceptOffset) + (EncodeU64(h.infoOffset) + EncodeU64(h.supportOffset)))
  }

  /** The header as the reader sees it through the mapping's first 32 bytes. */
  function HeaderAt(file: Bytes): (h: Header)
    requires |file| >= HEADER_SIZE
    ensures FitsHeader(h)
  {
    Header(U64At(file, 0), U64At(file, 8), U64At(file, 16), U64At(file, 24))
  }

  function EncodeNodeEntry(e: NodeEntry): (r: Bytes)
    ensures |r| == NODE_ENTRY_SIZE
  {
    EncodeU64(e.nameOffset) + EncodeU64(e.effectOffset)
  }

  function NodeEntryAt(file: Bytes, pos: nat): (e: NodeEntry)
    requires pos + NODE_ENTRY_SIZE <= |file|
    ensures FitsNodeEntry(e)
  {
    NodeEntry(U64At(file, pos), U64At(file, pos + 8))
  }

  /** Writing an edge casts target and count to uint32_t; the encoding truncates them. */
  function EncodeEdge(e: EdgeEntry): (r: Bytes)
    ensures |r| == EDGE_SIZE
  {
    EncodeU32(e.targetIdx) + (EncodeU32(e.numSupport) + EncodeU64(e.supportOffset))
  }

  function EdgeAt(file: Bytes, pos: nat): (e: EdgeEntry)
    requires pos + EDGE_SIZE <= |file|
    ensures FitsEdge(e)
  {
    EdgeEntry(U32At(file, pos), U32At(file, pos + 4), U64At(file, pos + 8))
  }

  // Section bases: the file starts at byte 0, so each base is the header's offset.
  function NodeBase(h: Header): nat { h.conceptOffset }
  function NodeInfoBase(h: Header): nat { h.infoOffset }
  function SupportBase(h: Header): nat { h.supportOffset }

  /** Where NodeEntry::name points: relative to the node-info base, not the file start. */
  function NamePos(h: Header, e: NodeEntry): nat { NodeInfoBase(h) + e.nameOffset }

  /** Where NodeEntry::effects points: relative to the node-info base, not the file start. */
  function EffectsPos(h: Header, e: NodeEntry): nat { NodeInfoBase(h) + e.effectOffset }

  /** Position of node entry `i` in the fixed-stride node array. */
  function NodeEntryPos(h: Header, i: nat): nat { NodeBase(h) + NODE_ENTRY_SIZE * i }

  lemma {:induction false} ReadHeader(file: Bytes, h: Header)
    requires FitsHeader(h) && Contains(file, 0, EncodeHeader(h))
    ensures HeaderAt(file) == h
  {
    var a, b, c, d := EncodeU64(h.numNodes), EncodeU64(h.conceptOffset), EncodeU64(h.infoOffset), EncodeU64(h.supportOffset);
    ContainsSplitAt(file, 0, a, b + (c + d), 8);
    ContainsSplitAt(file, 8, b, c + d, 16);
    ContainsSplitAt(file, 16, c, d, 24);
    ReadFittingU64(file, 0, h.numNodes);
    ReadFittingU64(file, 8, h.conceptOffset);
    ReadFittingU64(file, 16, h.infoOffset);
    ReadFittingU64(file, 24, h.supportOffset);
  }

  lemma {:induction false} ReadNodeEntry(file: Bytes, pos: nat, e: NodeEntry)
    requires FitsNodeEntry(e) && Contains(file, pos, EncodeNodeEntry(e))
    ensures NodeEntryAt(file, pos) == e
  {
    ContainsSplitAt(file, pos, EncodeU64(e.nameOffset), EncodeU64(e.effectOffset), pos + 8);
    ReadFittingU64(file, pos, e.nameOffset);
    ReadFittingU64(file, pos + 8, e.effectOffset);
  }

  lemma {:induction false} ReadEdge(file: Bytes, pos: nat, e: EdgeEntry)
    requires Contains(file, pos, EncodeEdge(e))
    ensures EdgeAt(file, pos) == EdgeEntry(e.targetIdx % U32_LIMIT, e.numSupport % U32_LIMIT, e.supportOffset % U64_LIMIT)
  {
    var a, b, c := EncodeU32(e.targetIdx), EncodeU32(e.numSupport), EncodeU64(e.supportOffset);
    ContainsSplitAt(file, pos, a, b + c, pos + 4);
    ContainsSplitAt(file, pos + 4, b, c, pos + 8);
    ReadU32(file, pos, e.targetIdx);
    ReadU32(file, pos + 4, e.numSupport);
    ReadU64(file, pos + 8, e.supportOffset);
  }

  /** nulledge is encoded as the 16-byte SENTINEL: target 0xFFFFFFFF, then zeros. */
  lemma {:induction false} SentinelEncoding()
    ensures EncodeEdge(NullEdge) == SENTINEL
  {
  }

  lemma {:induction false} ReadSentinel(file: Bytes, pos: nat)
    requires Contains(file, pos, SENTINEL)
    ensures EdgeAt(file, pos) == NullEdge
  {
    SentinelEncoding();
    ReadFittingEdge(file, pos, NullEdge);
  }

  lemma {:induction false} ReadFittingEdge(file: Bytes, pos: nat, e: EdgeEntry)
    requires FitsEdge(e) && Contains(file, pos, EncodeEdge(e))
    ensures EdgeAt(file, pos) == e
  {
    var a, b, c := EncodeU32(e.targetIdx), EncodeU32(e.numSupport), EncodeU64(e.supportOffset);
    ContainsSplitAt(file, pos, a, b + c, pos + 4);
    ContainsSplitAt(file, pos + 4, b, c, pos + 8);
    ReadFittingU32(file, pos, e.targetIdx);
    ReadFittingU32(file, pos + 4, e.numSupport);
    ReadFittingU64(file, pos + 8, e.supportOffset);
  }

  /** A support record: one type byte, then the NUL-terminated id, then the NUL-terminated content. */
  function EncodeSupport(s: Support): (r: Bytes)
    ensures |r| == |s.id| + |s.content| + 3
  {
    [SourceTypeByte(s.sourceTypeId)] + ((s.id + [0]) + (s.content + [0]))
  }

  /** Decoding one support record at `pos`, advancing past each NUL-terminated field. */
  function SupportAt(file: Bytes, pos: nat): (r: Option<Support>)
  {
    if pos >= |file| then None
    else match SourceTypeOfByte(file[pos])
      case None => None
      case Some(t) =>
        match CStringAt(file, pos + 1)
        case None => None
        case Some(id) =>
          match CStringAt(file, pos + 1 + |id| + 1)
          case None => None
          case Some(content) => Some(Support(t, id, content))
  }

  /** The three fields of an encoded record sit one after the other. */
  lemma {:induction false} SupportFields(file: Bytes, pos: nat, b: Byte, id: Bytes, content: Bytes)
    requires Contains(file, pos, [b] + ((id + [0]) + (content + [0])))
    ensures pos < |file| && file[pos] == b
    ensures Contains(file, pos + 1, id + [0]) && Contains(file, pos + 1 + |id| + 1, content + [0])
  {
    ContainsSplitAt(file, pos, [b], (id + [0]) + (content + [0]), pos + 1);
    ContainsSplitAt(file, pos + 1, id + [0], content + [0], pos + 1 + |id| + 1);
    assert file[pos] == [b][0];
  }

  /** A record whose fields are in place reads back as those fields. */
  lemma {:induction false} SupportAtFields(file: Bytes, pos: nat, t: SourceType, id: Bytes, content: Bytes)
    requires NoNul(id) && NoNul(content)
    requires pos < |file| && file[pos] == SourceTypeByte(t)
    requires Contains(file, pos + 1, id + [0]) && Contains(file, pos + 1 + |id| + 1, content + [0])
    ensures SupportAt(file, pos) == Some(Support(t, id, content))
  {
    SourceTypeByteRoundTrip(t);
    ReadCString(file, pos + 1, id);
    ReadCString(file, pos + 1 + |id| + 1, content);
  }

  /** Decoding the writer's encoding gives the support back, provided id and content hold no NUL. */
  lemma {:induction false} ReadSupport(file: Bytes, pos: nat, s: Support)
    requires NoNul(s.id) && NoNul(s.content)
    requires Contains(file, pos, EncodeSupport(s))
    ensures SupportAt(file, pos) == Some(s)
  {
    SupportFields(file, pos, SourceTypeByte(s.sourceTypeId), s.id, s.content);
    SupportAtFields(file, pos, s.sourceTypeId, s.id, s.content);
  }

  /** A NUL inside the id is where the round trip breaks: the reader stops at the first NUL. */
  lemma {:induction false} NulInIdTruncates(t: SourceType)
    ensures SupportAt(EncodeSupport(Support(t, [65, 0, 66], [])), 0) == Some(Support(t, [65], [66]))
  {
    var file := EncodeSupport(Support(t, [65, 0, 66], []));
    assert file == [SourceTypeByte(t), 65, 0, 66, 0, 0];
    assert file[1] == 65 && file[2] == 0 && file[3] == 66 && file[4] == 0;
    assert CStringAt(file, 2) == Some([]);
    assert |file| == 6;
    assert CStringAt(file, 1) == Some([file[1]] + []);
    assert [file[1]] + [] == [65];
    assert CStringAt(file, 1) == Some([65]);
    assert CStringAt(file, 4) == Some([]);
    assert CStringAt(file, 3) == Some([file[3]] + []);
    assert [file[3]] + [] == [66];
    assert CStringAt(file, 3) == Some([66]);
    SourceTypeByteRoundTrip(t);
  }

  /** Where the i-th u64 of an edge's offset list sits. */
  function RecordListPos(h: Header, e: EdgeEntry, i: nat): nat
  {
    NodeInfoBase(h) + e.supportOffset + OFFSET_SIZE * i
  }

  /** Record i of an edge: the support the i-th offset of its list points at. */
  function RecordAt(file: Bytes, h: Header, e: EdgeEntry, i: nat): Option<Support>
  {
    var listPos := RecordListPos(h, e, i);
    if listPos + OFFSET_SIZE > |file| then None
    else SupportAt(file, SupportBase(h) + U64At(file, listPos))
  }

  /** Records 0 .. count-1 of an edge, each as it decodes. */
  function RecordsUpTo(file: Bytes, h: Header, e: EdgeEntry, count: nat): (rs: seq<Option<Support>>)
    ensures |rs| == count && forall i :: 0 <= i < count ==> rs[i] == RecordAt(file, h, e, i)
  {
    seq(count, i requires 0 <= i < count => RecordAt(file, h, e, i))
  }

  /** The first `count` records of an edge, or None when one of them does not decode. */
  function SupportRecords(file: Bytes, h: Header, e: EdgeEntry, count: nat): Option<seq<Support>>
  {
    AllPresent(RecordsUpTo(file, h, e, count))
  }

  /** Record i of an edge is exactly the support the i-th offset points at. */
  lemma {:induction false} SupportRecordsAt(file: Bytes, h: Header, e: EdgeEntry, count: nat, i: nat)
    requires SupportRecords(file, h, e, count).Some? && i < count
    ensures |SupportRecords(file, h, e, count).value| == count
    ensures RecordAt(file, h, e, i) == Some(SupportRecords(file, h, e, count).value[i])
  {
    assert RecordsUpTo(file, h, e, count)[i] == RecordAt(file, h, e, i);
  }

  /** Records that all decode, one per offset, are what SupportRecords yields. */
  lemma {:induction false} SupportRecordsOf(file: Bytes, h: Header, e: EdgeEntry, sups: seq<Support>)
    requires forall j :: 0 <= j < |sups| ==> RecordAt(file, h, e, j) == Some(sups[j])
    ensures SupportRecords(file, h, e, |sups|) == Some(sups)
  {
    var rs := RecordsUpTo(file, h, e, |sups|);
    assert forall j :: 0 <= j < |sups| ==> rs[j] == Some(sups[j]);
    assert AllPresent(rs).Some?;
    var r := AllPresent(rs).value;
    assert |r| == |sups| && forall j :: 0 <= j < |sups| ==> r[j] == sups[j];
    assert r == sups;
  }

  /**
   * EdgeEntry::support: yields the edge's `numSupport` supports in list order.
   * The loop advances through the offset list and decodes one record per step.
   */
  method EdgeSupports(file: Bytes, h: Header, e: EdgeEntry) returns (supports: seq<Support>)
    requires SupportRecords(file, h, e, e.numSupport).Some?
    ensures Some(supports) == SupportRecords(file, h, e, e.numSupport)
  {
    var base := NodeInfoBase(h) + e.supportOffset;
    ghost var all := SupportRecords(file, h, e, e.numSupport).value;
    supports := [];
    var i := 0;
    while i < e.numSupport
      invariant i <= e.numSupport
      invariant supports == all[..i]
    {
      SupportRecordsAt(file, h, e, e.numSupport, i);
      assert RecordListPos(h, e, i) == base + OFFSET_SIZE * i;
      var data := SupportBase(h) + U64At(file, base + OFFSET_SIZE * i);
      var support := SupportAt(file, data).value;
      assert all[..i + 1] == all[..i] + [support];
      supports := supports + [support];
      i := i + 1;
    }
    assert all[..e.numSupport] == all;
  }
}
