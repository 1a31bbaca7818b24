/**
 * Reading back what the writer lays out. The file close() produces from its
 * in-memory nodes and its sources stream is well formed for the reader, has one
 * concept per node with the node's name, the node's effects as its edge array in
 * ascending target order, and for every logged (cause, effect) pair exactly the
 * supports the writer was given for it, in call order.
 */
module CausenetRoundTrip {
  import opened Wrappers
  import opened LittleEndian
  import opened CausenetSupport
  import opened CausenetFile
  import opened CausenetReader
  import opened CausenetLayout

  /**
   * What the format itself can carry: offsets fit in a u64, node indices stay
   * below the sentinel's 0xFFFFFFFF, support counts fit in a u32, and names, ids
   * and contents hold no NUL (the reader stops at the first one).
   */
  predicate WithinLimits(nodes: seq<JsonNode>, sources: Bytes, log: map<(nat, nat), seq<Support>>)
  {
    |FileImage(nodes, sources)| < U64_LIMIT && |nodes| <= NULL_TARGET &&
    (forall i :: 0 <= i < |nodes| ==> NoNul(nodes[i].name)) &&
    (forall i, k :: 0 <= i < |nodes| && 0 <= k < |nodes[i].effects| ==> |nodes[i].effects[k].1| < U32_LIMIT) &&
    (forall p, j :: p in log && 0 <= j < |log[p]| ==> NoNul(log[p][j].id) && NoNul(log[p][j].content))
  }

  /** The header close() writes for these nodes. */
  function ImageHeader(nodes: seq<JsonNode>): Header
  {
    OutHeader(|nodes|, |NodesImage(nodes)|, |InfoImage(nodes)|)
  }

  /** The edge array writeNodeInfo emits for effects whose offset lists start at `listStart`. */
  function EdgeList(effs: seq<(nat, seq<nat>)>, listStart: nat): (r: seq<EdgeEntry>)
    ensures |r| == |effs|
  {
    seq(|effs|, k requires 0 <= k < |effs| => EdgeFor(effs, k, listStart))
  }

  /** Edge k of EdgeList carries effect k's target and support count. */
  lemma {:induction false} EdgeListFields(effs: seq<(nat, seq<nat>)>, listStart: nat)
    ensures forall k :: 0 <= k < |effs| ==>
              EdgeList(effs, listStart)[k].targetIdx == effs[k].0 &&
              EdgeList(effs, listStart)[k].numSupport == |effs[k].1|
  {
    forall k | 0 <= k < |effs|
      ensures EdgeList(effs, listStart)[k].targetIdx == effs[k].0 &&
              EdgeList(effs, listStart)[k].numSupport == |effs[k].1|
    {
      assert EdgeList(effs, listStart)[k] == EdgeFor(effs, k, listStart);
    }
  }

  /** Where the header's offsets say the sections are, the image has the writer's streams. */
  lemma {:induction false} FileSections(nodes: seq<JsonNode>, sources: Bytes)
    ensures var file, h := FileImage(nodes, sources), ImageHeader(nodes);
            |file| == h.supportOffset + |sources| &&
            Contains(file, 0, EncodeHeader(h)) &&
            Contains(file, NodeBase(h), NodesImage(nodes)) &&
            Contains(file, NodeInfoBase(h), InfoImage(nodes)) &&
            Contains(file, SupportBase(h), sources)
  {
    var h := ImageHeader(nodes);
    var n, i := NodesImage(nodes), InfoImage(nodes);
    var file := FileImage(nodes, sources);
    assert file == EncodeHeader(h) + (n + (i + sources));
    ContainsWhole(EncodeHeader(h), n + (i + sources));
    ContainsSplitAt(file, NodeBase(h), n, i + sources, NodeInfoBase(h));
    ContainsSplitAt(file, NodeInfoBase(h), i, sources, SupportBase(h));
  }

  /** The reader sees the header close() wrote. */
  lemma {:induction false} FileHeader(nodes: seq<JsonNode>, sources: Bytes)
    requires |FileImage(nodes, sources)| < U64_LIMIT && |nodes| <= NULL_TARGET
    ensures |FileImage(nodes, sources)| >= HEADER_SIZE
    ensures HeaderAt(FileImage(nodes, sources)) == ImageHeader(nodes)
  {
    FileSections(nodes, sources);
    ReadHeader(FileImage(nodes, sources), ImageHeader(nodes));
  }

  /** A run of edge entries closed by the sentinel reads back as that run, from any entry i on. */
  lemma {:induction false} EdgesFromList(file: Bytes, pos: nat, es: seq<EdgeEntry>, i: nat)
    requires i <= |es| && pos + EDGE_SIZE * (|es| + 1) <= |file|
    requires forall k :: 0 <= k < |es| ==> EdgeAt(file, pos + EDGE_SIZE * k) == es[k] && es[k].targetIdx != NULL_TARGET
    requires EdgeAt(file, pos + EDGE_SIZE * |es|) == NullEdge
    ensures EdgesFrom(file, pos + EDGE_SIZE * i) == Some(es[i..])
    decreases |es| - i
  {
    if i == |es| {
      assert es[i..] == [];
    } else {
      EdgesFromList(file, pos, es, i + 1);
      assert pos + EDGE_SIZE * i + EDGE_SIZE == pos + EDGE_SIZE * (i + 1);
      assert es[i..] == [es[i]] + es[i + 1..];
    }
  }

  /** A NUL-free name written with its terminator in front of `rest` reads back. */
  lemma {:induction false} NameRead(file: Bytes, pos: nat, name: Bytes, rest: Bytes)
    requires Contains(file, pos, (name + [0]) + rest) && NoNul(name)
    ensures CStringAt(file, pos) == Some(name)
  {
    ContainsSplit(file, pos, name + [0], rest);
    ReadCString(file, pos, name);
  }

  /** The name at the head of a node-info block reads back. */
  lemma {:induction false} ReadNodeName(file: Bytes, pos: nat, node: JsonNode, start: nat)
    requires Contains(file, pos, NodeInfoImage(node, start)) && NoNul(node.name)
    ensures CStringAt(file, pos) == Some(node.name)
  {
    NameRead(file, pos, node.name,
             EdgesImage(node.effects, ListStart(node, start)) + (SENTINEL + AllOffsetsImage(node.effects)));
  }

  /** Name, n edges, sentinel and offset lists, one after the other: where each part sits. */
  lemma {:induction false} InfoParts(file: Bytes, pos: nat, name: Bytes, edges: Bytes, sentinel: Bytes, lists: Bytes, n: nat)
    requires |edges| == EDGE_SIZE * n && |sentinel| == EDGE_SIZE
    requires Contains(file, pos, (name + [0]) + (edges + (sentinel + lists)))
    ensures var q := pos + |name| + 1;
            Contains(file, q, edges) &&
            Contains(file, q + EDGE_SIZE * n, sentinel) &&
            Contains(file, q + EDGE_SIZE * (n + 1), lists)
  {
    var q := pos + |name| + 1;
    ContainsSplitAt(file, pos, name + [0], edges + (sentinel + lists), q);
    ContainsSplitAt(file, q, edges, sentinel + lists, q + EDGE_SIZE * n);
    ContainsSplitAt(file, q + EDGE_SIZE * n, sentinel, lists, q + EDGE_SIZE * (n + 1));
  }

  /** The three parts of a node-info block after the name, where the file has them. */
  lemma {:induction false} NodeInfoParts(file: Bytes, pos: nat, node: JsonNode, start: nat)
    requires Contains(file, pos, NodeInfoImage(node, start))
    ensures var q := pos + |node.name| + 1;
            Contains(file, q, EdgesImage(node.effects, ListStart(node, start))) &&
            Contains(file, q + EDGE_SIZE * |node.effects|, SENTINEL) &&
            Contains(file, q + EDGE_SIZE * (|node.effects| + 1), AllOffsetsImage(node.effects))
    ensures pos + (ListStart(node, start) - start) + OFFSET_SIZE * TotalSupports(node.effects) <= |file|
  {
    InfoParts(file, pos, node.name, EdgesImage(node.effects, ListStart(node, start)), SENTINEL,
              AllOffsetsImage(node.effects), |node.effects|);
  }

  /** The supports of the effects before k and of k itself are among all of them. */
  lemma {:induction false} TotalSupportsPrefix(effs: seq<(nat, seq<nat>)>, k: nat)
    requires k < |effs|
    ensures TotalSupports(effs[..k]) + |effs[k].1| <= TotalSupports(effs)
    decreases |effs|
  {
    var n := |effs| - 1;
    if k < n {
      TotalSupportsPrefix(effs[..n], k);
      assert effs[..n][..k] == effs[..k];
    } else {
      assert effs[..n] == effs[..k];
    }
  }

  /** Edge k of the emitted array fits its u32/u64 fields. */
  lemma {:induction false} EdgeForFits(effs: seq<(nat, seq<nat>)>, listStart: nat, k: nat)
    requires k < |effs| && listStart + OFFSET_SIZE * TotalSupports(effs) < U64_LIMIT
    requires effs[k].0 < NULL_TARGET && |effs[k].1| < U32_LIMIT
    ensures FitsEdge(EdgeFor(effs, k, listStart))
  {
    TotalSupportsPrefix(effs, k);
  }

  /** An in-range edge found at 16*k bytes into an array found at q reads back. */
  lemma {:induction false} EdgeReadAt(file: Bytes, q: nat, edges: Bytes, k: nat, e: EdgeEntry)
    requires Contains(file, q, edges) && Contains(edges, EDGE_SIZE * k, EncodeEdge(e)) && FitsEdge(e)
    ensures q + EDGE_SIZE * k + EDGE_SIZE <= |file|
    ensures EdgeAt(file, q + EDGE_SIZE * k) == e
  {
    ContainsTrans(file, q, edges, EDGE_SIZE * k, EncodeEdge(e));
    ReadFittingEdge(file, q + EDGE_SIZE * k, e);
  }

  /** Edge k of the emitted array reads back as EdgeList's entry k. */
  lemma {:induction false} EdgeReads(file: Bytes, q: nat, effs: seq<(nat, seq<nat>)>, listStart: nat, k: nat)
    requires Contains(file, q, EdgesImage(effs, listStart)) && k < |effs|
    requires listStart + OFFSET_SIZE * TotalSupports(effs) < U64_LIMIT
    requires effs[k].0 < NULL_TARGET && |effs[k].1| < U32_LIMIT
    ensures q + EDGE_SIZE * k + EDGE_SIZE <= |file|
    ensures EdgeAt(file, q + EDGE_SIZE * k) == EdgeList(effs, listStart)[k]
  {
    EdgesImageAt(effs, listStart, k);
    EdgeForFits(effs, listStart, k);
    EdgeReadAt(file, q, EdgesImage(effs, listStart), k, EdgeFor(effs, k, listStart));
  }

  /** The emitted edge array reads back as EdgeList. */
  lemma {:induction false} ReadNodeEdges(file: Bytes, q: nat, effs: seq<(nat, seq<nat>)>, listStart: nat)
    requires Contains(file, q, EdgesImage(effs, listStart))
    requires Contains(file, q + EDGE_SIZE * |effs|, SENTINEL)
    requires listStart + OFFSET_SIZE * TotalSupports(effs) < U64_LIMIT
    requires forall k :: 0 <= k < |effs| ==> effs[k].0 < NULL_TARGET && |effs[k].1| < U32_LIMIT
    ensures EdgesFrom(file, q) == Some(EdgeList(effs, listStart))
  {
    var es := EdgeList(effs, listStart);
    forall k | 0 <= k < |es|
      ensures EdgeAt(file, q + EDGE_SIZE * k) == es[k] && es[k].targetIdx != NULL_TARGET
    {
      EdgeReads(file, q, effs, listStart, k);
    }
    ReadSentinel(file, q + EDGE_SIZE * |es|);
    EdgesFromList(file, q, es, 0);
    assert es[0..] == es;
  }

  /** Effect k's offset list sits at its edge's supportOffset, counted from where ListStart counts. */
  lemma {:induction false} OffsetListAt(file: Bytes, p: nat, effs: seq<(nat, seq<nat>)>, listStart: nat, k: nat)
    requires Contains(file, p + listStart, AllOffsetsImage(effs)) && k < |effs|
    ensures Contains(file, p + EdgeFor(effs, k, listStart).supportOffset, OffsetsImage(effs[k].1))
  {
    AllOffsetsImageAt(effs, k);
    ContainsTransAt(file, p + listStart, AllOffsetsImage(effs), OFFSET_SIZE * TotalSupports(effs[..k]), OffsetsImage(effs[k].1),
                    p + EdgeFor(effs, k, listStart).supportOffset);
  }

  /** An offset found at `lp` (8*j bytes into a list found at `pos`) leads to the record it points at. */
  lemma {:induction false} RecordReadAt(file: Bytes, pos: nat, list: Bytes, j: nat, off: nat, lp: nat,
                                        sb: nat, sources: Bytes, s: Support)
    requires Contains(file, pos, list) && Contains(list, OFFSET_SIZE * j, EncodeU64(off)) && lp == pos + OFFSET_SIZE * j
    requires Contains(file, sb, sources) && Contains(sources, off, EncodeSupport(s)) && |file| < U64_LIMIT
    requires NoNul(s.id) && NoNul(s.content)
    ensures lp + OFFSET_SIZE <= |file|
    ensures SupportAt(file, sb + U64At(file, lp)) == Some(s)
  {
    ContainsTransAt(file, pos, list, OFFSET_SIZE * j, EncodeU64(off), lp);
    ContainsTransAt(file, sb, sources, off, EncodeSupport(s), sb + off);
    ReadFittingU64(file, lp, off);
    ReadSupport(file, sb + off, s);
  }

  /** Offset j of an edge's list leads to the record it points at in the sources found at SupportBase. */
  lemma {:induction false} RecordReads(file: Bytes, h: Header, e: EdgeEntry, offs: seq<nat>, j: nat, sources: Bytes, s: Support)
    requires Contains(file, NodeInfoBase(h) + e.supportOffset, OffsetsImage(offs)) && j < |offs|
    requires Contains(file, SupportBase(h), sources) && Contains(sources, offs[j], EncodeSupport(s)) && |file| < U64_LIMIT
    requires NoNul(s.id) && NoNul(s.content)
    ensures RecordAt(file, h, e, j) == Some(s)
  {
    OffsetsImageAt(offs, j);
    RecordReadAt(file, NodeInfoBase(h) + e.supportOffset, OffsetsImage(offs), j, offs[j], RecordListPos(h, e, j),
                 SupportBase(h), sources, s);
  }

  /** Edge k's supports read back as the records its offsets point at. */
  lemma {:induction false} ReadEdgeSupports(file: Bytes, h: Header, effs: seq<(nat, seq<nat>)>, listStart: nat, k: nat,
                         sources: Bytes, sups: seq<Support>)
    requires Contains(file, NodeInfoBase(h) + listStart, AllOffsetsImage(effs)) && k < |effs|
    requires Contains(file, SupportBase(h), sources) && |file| < U64_LIMIT
    requires OffsetsDecode(sources, effs[k].1, sups)
    requires forall j :: 0 <= j < |sups| ==> NoNul(sups[j].id) && NoNul(sups[j].content)
    ensures SupportRecords(file, h, EdgeFor(effs, k, listStart), |effs[k].1|) == Some(sups)
  {
    var e := EdgeFor(effs, k, listStart);
    var offs := effs[k].1;
    OffsetListAt(file, NodeInfoBase(h), effs, listStart, k);
    forall j | 0 <= j < |sups|
      ensures RecordAt(file, h, e, j) == Some(sups[j])
    {
      RecordReads(file, h, e, offs, j, sources, sups[j]);
    }
    SupportRecordsOf(file, h, e, sups);
  }

  /** An entry found 16*i bytes into a nodes stream that the file holds at NodeBase reads back. */
  lemma {:induction false} NodeEntryRead(file: Bytes, h: Header, nodesImg: Bytes, i: nat, entry: NodeEntry)
    requires Contains(file, NodeBase(h), nodesImg) && Contains(nodesImg, NODE_ENTRY_SIZE * i, EncodeNodeEntry(entry))
    requires FitsNodeEntry(entry)
    ensures NodeEntryPos(h, i) + NODE_ENTRY_SIZE <= |file| && NodeEntryAt(file, NodeEntryPos(h, i)) == entry
  {
    ContainsTransAt(file, NodeBase(h), nodesImg, NODE_ENTRY_SIZE * i, EncodeNodeEntry(entry), NodeEntryPos(h, i));
    ReadNodeEntry(file, NodeEntryPos(h, i), entry);
  }

  /** Node i's info block sits in the file at the node-info base plus InfoStart. */
  lemma {:induction false} NodeBlockIn(file: Bytes, h: Header, nodes: seq<JsonNode>, i: nat)
    requires Contains(file, NodeInfoBase(h), InfoImage(nodes)) && i < |nodes|
    ensures Contains(file, NodeInfoBase(h) + InfoStart(nodes, i), NodeInfoImage(nodes[i], InfoStart(nodes, i)))
  {
    var st := InfoStart(nodes, i);
    InfoImageAt(nodes, i);
    ContainsTransAt(file, NodeInfoBase(h), InfoImage(nodes), st, NodeInfoImage(nodes[i], st), NodeInfoBase(h) + st);
  }

  /** Node i's entry reads back as the one writeNodeWithInfo emitted for it. */
  lemma {:induction false} NodeEntryIn(file: Bytes, h: Header, nodes: seq<JsonNode>, i: nat)
    requires Contains(file, NodeBase(h), NodesImage(nodes)) && Contains(file, NodeInfoBase(h), InfoImage(nodes))
    requires |file| < U64_LIMIT && i < |nodes|
    ensures NodeEntryPos(h, i) + NODE_ENTRY_SIZE <= |file| &&
            NodeEntryAt(file, NodeEntryPos(h, i)) == EntryFor(nodes[i], InfoStart(nodes, i))
  {
    var st := InfoStart(nodes, i);
    NodeBlockIn(file, h, nodes, i);
    NodesImageAt(nodes, i);
    NodeEntryRead(file, h, NodesImage(nodes), i, EntryFor(nodes[i], st));
  }

  /** The edge array of an info block at `p + st` reads back as EdgeList. */
  lemma {:induction false} BlockEdges(file: Bytes, p: nat, node: JsonNode, st: nat)
    requires Contains(file, p + st, NodeInfoImage(node, st)) && |file| < U64_LIMIT
    requires forall k :: 0 <= k < |node.effects| ==> node.effects[k].0 < NULL_TARGET && |node.effects[k].1| < U32_LIMIT
    ensures EdgesFrom(file, p + st + |node.name| + 1) == Some(EdgeList(node.effects, ListStart(node, st)))
  {
    NodeInfoParts(file, p + st, node, st);
    ReadNodeEdges(file, p + st + |node.name| + 1, node.effects, ListStart(node, st));
  }

  /** Every edge of an info block at the node-info base plus `st` reads back its logged supports. */
  lemma {:induction false} BlockSupports(file: Bytes, h: Header, st: nat, node: JsonNode, sources: Bytes,
                                         log: map<(nat, nat), seq<Support>>, c: nat)
    requires Contains(file, NodeInfoBase(h) + st, NodeInfoImage(node, st))
    requires Contains(file, SupportBase(h), sources) && |file| < U64_LIMIT
    requires forall k :: 0 <= k < |node.effects| ==>
               (c, node.effects[k].0) in log && OffsetsDecode(sources, node.effects[k].1, log[(c, node.effects[k].0)])
    requires forall q, j :: q in log && 0 <= j < |log[q]| ==> NoNul(log[q][j].id) && NoNul(log[q][j].content)
    ensures forall k :: 0 <= k < |node.effects| ==>
              SupportRecords(file, h, EdgeFor(node.effects, k, ListStart(node, st)), |node.effects[k].1|)
                == Some(log[(c, node.effects[k].0)])
  {
    var effs, ls := node.effects, ListStart(node, st);
    NodeInfoParts(file, NodeInfoBase(h) + st, node, st);
    assert NodeInfoBase(h) + st + |node.name| + 1 + EDGE_SIZE * (|effs| + 1) == NodeInfoBase(h) + ls;
    forall k | 0 <= k < |effs|
      ensures SupportRecords(file, h, EdgeFor(effs, k, ls), |effs[k].1|) == Some(log[(c, effs[k].0)])
    {
      ReadEdgeSupports(file, h, effs, ls, k, sources, log[(c, effs[k].0)]);
    }
  }

  /** What Consistent and WithinLimits say about the effects of node c alone. */
  lemma {:induction false} NodeEffectFacts(nodes: seq<JsonNode>, sources: Bytes, log: map<(nat, nat), seq<Support>>, c: nat)
    requires Consistent(nodes, sources, log) && WithinLimits(nodes, sources, log) && c < |nodes|
    ensures SortedKeys(nodes[c].effects)
    ensures forall k :: 0 <= k < |nodes[c].effects| ==>
              nodes[c].effects[k].0 < NULL_TARGET && |nodes[c].effects[k].1| < U32_LIMIT
    ensures forall k :: 0 <= k < |nodes[c].effects| ==>
              (c, nodes[c].effects[k].0) in log &&
              OffsetsDecode(sources, nodes[c].effects[k].1, log[(c, nodes[c].effects[k].0)])
  {
    forall k | 0 <= k < |nodes[c].effects|
      ensures nodes[c].effects[k].0 < NULL_TARGET && |nodes[c].effects[k].1| < U32_LIMIT
    {
      assert nodes[c].effects[k].0 < |nodes|;
    }
  }

  /** Node c's entry and name, as the reader finds them. */
  lemma {:induction false} NodeNameReads(file: Bytes, h: Header, nodes: seq<JsonNode>, c: nat)
    requires Contains(file, NodeBase(h), NodesImage(nodes)) && Contains(file, NodeInfoBase(h), InfoImage(nodes))
    requires |file| < U64_LIMIT && c < |nodes| && NoNul(nodes[c].name)
    ensures var e := EntryFor(nodes[c], InfoStart(nodes, c));
            NodeEntryPos(h, c) + NODE_ENTRY_SIZE <= |file| && NodeEntryAt(file, NodeEntryPos(h, c)) == e &&
            CStringAt(file, NamePos(h, e)) == Some(nodes[c].name)
  {
    var st := InfoStart(nodes, c);
    NodeEntryIn(file, h, nodes, c);
    NodeBlockIn(file, h, nodes, c);
    ReadNodeName(file, NodeInfoBase(h) + st, nodes[c], st);
  }

  /** Node c's edge array, as the reader finds it. */
  lemma {:induction false} NodeEdgesRead(file: Bytes, h: Header, nodes: seq<JsonNode>, c: nat)
    requires Contains(file, NodeInfoBase(h), InfoImage(nodes)) && |file| < U64_LIMIT && c < |nodes|
    requires forall k :: 0 <= k < |nodes[c].effects| ==>
               nodes[c].effects[k].0 < NULL_TARGET && |nodes[c].effects[k].1| < U32_LIMIT
    ensures var st := InfoStart(nodes, c);
            EdgesFrom(file, EffectsPos(h, EntryFor(nodes[c], st))) == Some(EdgeList(nodes[c].effects, ListStart(nodes[c], st)))
  {
    var st := InfoStart(nodes, c);
    NodeBlockIn(file, h, nodes, c);
    BlockEdges(file, NodeInfoBase(h), nodes[c], st);
  }

  /** The supports of each of node c's edges, as the reader decodes them. */
  lemma {:induction false} NodeSupportsRead(file: Bytes, h: Header, nodes: seq<JsonNode>, sources: Bytes,
                                            log: map<(nat, nat), seq<Support>>, c: nat)
    requires Contains(file, NodeInfoBase(h), InfoImage(nodes)) && Contains(file, SupportBase(h), sources)
    requires |file| < U64_LIMIT && c < |nodes|
    requires forall k :: 0 <= k < |nodes[c].effects| ==>
               (c, nodes[c].effects[k].0) in log &&
               OffsetsDecode(sources, nodes[c].effects[k].1, log[(c, nodes[c].effects[k].0)])
    requires forall q, j :: q in log && 0 <= j < |log[q]| ==> NoNul(log[q][j].id) && NoNul(log[q][j].content)
    ensures var effs, ls := nodes[c].effects, ListStart(nodes[c], InfoStart(nodes, c));
            forall k :: 0 <= k < |effs| ==>
              SupportRecords(file, h, EdgeFor(effs, k, ls), |effs[k].1|) == Some(log[(c, effs[k].0)])
  {
    NodeBlockIn(file, h, nodes, c);
    BlockSupports(file, h, InfoStart(nodes, c), nodes[c], sources, log, c);
  }

  /** The file close() writes is well formed for the reader, counts one concept per node, and has each node's entry. */
  lemma {:induction false} ImageWellFormed(nodes: seq<JsonNode>, sources: Bytes, log: map<(nat, nat), seq<Support>>)
    requires Consistent(nodes, sources, log) && WithinLimits(nodes, sources, log)
    ensures WellFormed(FileImage(nodes, sources)) && NumConcepts(FileImage(nodes, sources)) == |nodes|
    ensures HeaderAt(FileImage(nodes, sources)) == ImageHeader(nodes)
    ensures forall c :: 0 <= c < |nodes| ==> NodeOf(FileImage(nodes, sources), c) == EntryFor(nodes[c], InfoStart(nodes, c))
  {
    var file, h := FileImage(nodes, sources), ImageHeader(nodes);
    FileHeader(nodes, sources);
    FileSections(nodes, sources);
    forall c | 0 <= c < |nodes|
      ensures NodeWf(file, h, c) && NodeEntryAt(file, NodeEntryPos(h, c)) == EntryFor(nodes[c], InfoStart(nodes, c))
    {
      NodeEffectFacts(nodes, sources, log, c);
      NodeNameReads(file, h, nodes, c);
      NodeEdgesRead(file, h, nodes, c);
      NodeSupportsRead(file, h, nodes, sources, log, c);
      var es := EdgeList(nodes[c].effects, ListStart(nodes[c], InfoStart(nodes, c)));
      assert forall k :: 0 <= k < |es| ==> es[k] == EdgeFor(nodes[c].effects, k, ListStart(nodes[c], InfoStart(nodes, c)));
    }
  }

  /** getConceptByIdx on the image gives back each node's name. */
  lemma {:induction false} ImageConcepts(nodes: seq<JsonNode>, sources: Bytes, log: map<(nat, nat), seq<Support>>)
    requires Consistent(nodes, sources, log) && WithinLimits(nodes, sources, log)
    ensures WellFormed(FileImage(nodes, sources)) && NumConcepts(FileImage(nodes, sources)) == |nodes|
    ensures forall c :: 0 <= c < |nodes| ==> ConceptByIdx(FileImage(nodes, sources), c) == nodes[c].name
  {
    var file, h := FileImage(nodes, sources), ImageHeader(nodes);
    ImageWellFormed(nodes, sources, log);
    FileSections(nodes, sources);
    forall c | 0 <= c < |nodes|
      ensures ConceptByIdx(file, c) == nodes[c].name
    {
      NodeNameReads(file, h, nodes, c);
    }
  }

  /** The edge array of concept c in the image is the node's effects, in order. */
  lemma {:induction false} ImageEdges(nodes: seq<JsonNode>, sources: Bytes, log: map<(nat, nat), seq<Support>>, c: nat)
    requires Consistent(nodes, sources, log) && WithinLimits(nodes, sources, log) && c < |nodes|
    ensures WellFormed(FileImage(nodes, sources)) && NumConcepts(FileImage(nodes, sources)) == |nodes|
    ensures EffectEdges(FileImage(nodes, sources), c) == EdgeList(nodes[c].effects, ListStart(nodes[c], InfoStart(nodes, c)))
  {
    ImageWellFormed(nodes, sources, log);
    FileSections(nodes, sources);
    NodeEffectFacts(nodes, sources, log, c);
    NodeEdgesRead(FileImage(nodes, sources), ImageHeader(nodes), nodes, c);
  }

  /**
   * getEffects on the image: one (target, support count) per effect of the node,
   * targets strictly ascending.
   */
  lemma {:induction false} ImageEffects(nodes: seq<JsonNode>, sources: Bytes, log: map<(nat, nat), seq<Support>>, c: nat)
    requires Consistent(nodes, sources, log) && WithinLimits(nodes, sources, log) && c < |nodes|
    ensures WellFormed(FileImage(nodes, sources)) && NumConcepts(FileImage(nodes, sources)) == |nodes|
    ensures var edges, effs := EffectEdges(FileImage(nodes, sources), c), nodes[c].effects;
            |edges| == |effs| &&
            (forall k :: 0 <= k < |edges| ==> edges[k].targetIdx == effs[k].0 && edges[k].numSupport == |effs[k].1|) &&
            (forall j, k :: 0 <= j < k < |edges| ==> edges[j].targetIdx < edges[k].targetIdx)
  {
    ImageEdges(nodes, sources, log, c);
    NodeEffectFacts(nodes, sources, log, c);
  }

  /** In the edge array of a sorted effect list, the first edge to `effect` is the lower bound, when that holds the key. */
  lemma {:induction false} FirstEdgeToList(effs: seq<(nat, seq<nat>)>, ls: nat, effect: nat)
    requires SortedKeys(effs)
    ensures var p := LowerBound(effs, effect);
            FirstEdgeTo(EdgeList(effs, ls), effect) == if p < |effs| && effs[p].0 == effect then Some(p) else None
  {
    var edges, p := EdgeList(effs, ls), LowerBound(effs, effect);
    EdgeListFields(effs, ls);
    if !(p < |effs| && effs[p].0 == effect) {
      forall k | 0 <= k < |edges|
        ensures edges[k].targetIdx != effect
      {
        if p <= k && p < |effs| && p < k {
          assert effs[p].0 < effs[k].0;
        }
      }
    }
  }

  /**
   * getSupport's answer, from what the image's edge array of `cause` is and what its
   * edges' supports decode to: the logged supports of the pair, or none.
   */
  lemma {:induction false} SupportBetweenOf(file: Bytes, cause: nat, effect: nat, effs: seq<(nat, seq<nat>)>, ls: nat,
                                            log: map<(nat, nat), seq<Support>>)
    requires WellFormed(file) && cause < NumConcepts(file)
    requires EffectEdges(file, cause) == EdgeList(effs, ls) && SortedKeys(effs)
    requires forall k :: 0 <= k < |effs| ==> (cause, effs[k].0) in log
    requires forall k :: 0 <= k < |effs| ==>
               SupportRecords(file, HeaderAt(file), EdgeFor(effs, k, ls), |effs[k].1|) == Some(log[(cause, effs[k].0)])
    requires forall e: nat :: (cause, e) in log ==> Get(effs, e).Some?
    ensures SupportBetween(file, cause, effect) == if (cause, effect) in log then log[(cause, effect)] else []
  {
    var edges, p := EffectEdges(file, cause), LowerBound(effs, effect);
    FirstEdgeToList(effs, ls, effect);
    GetLowerBound(effs, effect);
    if p < |effs| && effs[p].0 == effect {
      assert edges[p] == EdgeFor(effs, p, ls);
    }
  }

  /**
   * getSupport on the image: for a logged (cause, effect) pair, exactly the supports
   * the writer was given for it, in call order; for any other pair, none.
   */
  lemma {:induction false} ImageSupport(nodes: seq<JsonNode>, sources: Bytes, log: map<(nat, nat), seq<Support>>,
                                        cause: nat, effect: nat)
    requires Consistent(nodes, sources, log) && WithinLimits(nodes, sources, log) && cause < |nodes|
    ensures WellFormed(FileImage(nodes, sources)) && NumConcepts(FileImage(nodes, sources)) == |nodes|
    ensures SupportBetween(FileImage(nodes, sources), cause, effect) ==
              if (cause, effect) in log then log[(cause, effect)] else []
  {
    var st := InfoStart(nodes, cause);
    ImageEdges(nodes, sources, log, cause);
    NodeEffectFacts(nodes, sources, log, cause);
    FileSections(nodes, sources);
    NodeSupportsRead(FileImage(nodes, sources), ImageHeader(nodes), nodes, sources, log, cause);
    ImageWellFormed(nodes, sources, log);
    SupportBetweenOf(FileImage(nodes, sources), cause, effect, nodes[cause].effects, ListStart(nodes[cause], st), log);
  }

  /**
   * getConceptIdx on the image finds each interned name at the index insertOrGet
   * gave it, and reports NOT_FOUND for every other name.
   */
  lemma {:induction false} ImageConceptIdx(nodes: seq<JsonNode>, sources: Bytes, log: map<(nat, nat), seq<Support>>,
                                           names: map<Bytes, nat>, name: Bytes, idx: nat)
    requires Consistent(nodes, sources, log) && WithinLimits(nodes, sources, log) && Interned(names, nodes)
    requires ConceptIdxOf(FileImage(nodes, sources), name, idx)
    ensures idx == if name in names then names[name] else NOT_FOUND
  {
    ImageConcepts(nodes, sources, log);
    if name in names {
      assert ConceptByIdx(FileImage(nodes, sources), names[name]) == name;
      assert nodes[idx].name == name;
    } else {
      assert forall i :: 0 <= i < |nodes| ==> ConceptByIdx(FileImage(nodes, sources), i) != name;
    }
  }
}
