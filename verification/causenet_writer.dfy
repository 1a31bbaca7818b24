/**
 * The CauseNet writer: interns concept names, collects each node's effects and
 * their support offsets in memory, writes every distinct support record once to
 * the sources stream, and on close() writes the node-info and node streams and
 * then the output file (header followed by the three streams).
 * The staging files are modelled as byte sequences that only ever grow at the end
 * (tellp() is their length); the ghost edge log records, per (cause, effect)
 * pair, every support ever passed to writeEdge for it, in call order.
 */
module Writer {
  import opened Wrappers
  import opened LittleEndian
  import opened CausenetSupport
  import opened CausenetFile
  import opened CausenetLayout

  /** Consistent, with each node's effects read as the std::map they model. */
  ghost predicate LoggedEdges(nodes: seq<JsonNode>, sources: Bytes, log: map<(nat, nat), seq<Support>>)
  {
    (forall i :: 0 <= i < |nodes| ==> SortedKeys(nodes[i].effects)) &&
    (forall i, t: nat :: 0 <= i < |nodes| && Get(nodes[i].effects, t).Some? ==>
       t < |nodes| && (i, t) in log && OffsetsDecode(sources, Get(nodes[i].effects, t).value, log[(i, t)])) &&
    (forall c: nat, e: nat :: (c, e) in log ==> c < |nodes| && Get(nodes[c].effects, e).Some?)
  }

  /** The two readings of the writer's edge state say the same. */
  lemma {:induction false} LoggedEdgesConsistent(nodes: seq<JsonNode>, sources: Bytes, log: map<(nat, nat), seq<Support>>)
    ensures LoggedEdges(nodes, sources, log) <==> Consistent(nodes, sources, log)
  {
    if LoggedEdges(nodes, sources, log) {
      forall i, k | 0 <= i < |nodes| && 0 <= k < |nodes[i].effects|
        ensures nodes[i].effects[k].0 < |nodes| && (i, nodes[i].effects[k].0) in log &&
                OffsetsDecode(sources, nodes[i].effects[k].1, log[(i, nodes[i].effects[k].0)])
      {
        GetAt(nodes[i].effects, k);
      }
    }
    if Consistent(nodes, sources, log) {
      forall i, t: nat | 0 <= i < |nodes| && Get(nodes[i].effects, t).Some?
        ensures t < |nodes| && (i, t) in log && OffsetsDecode(sources, Get(nodes[i].effects, t).value, log[(i, t)])
      {
        GetLowerBound(nodes[i].effects, t);
      }
    }
  }

  /** Appending to the sources stream keeps every recorded offset pointing at its record. */
  lemma {:induction false} ConsistentSourcesGrow(nodes: seq<JsonNode>, sources: Bytes, log: map<(nat, nat), seq<Support>>,
                                                 extra: Bytes)
    requires Consistent(nodes, sources, log)
    ensures Consistent(nodes, sources + extra, log)
  {
    forall i, k | 0 <= i < |nodes| && 0 <= k < |nodes[i].effects|
      ensures OffsetsDecode(sources + extra, nodes[i].effects[k].1, log[(i, nodes[i].effects[k].0)])
    {
      var offs, sups := nodes[i].effects[k].1, log[(i, nodes[i].effects[k].0)];
      forall j | 0 <= j < |offs|
        ensures Contains(sources + extra, offs[j], EncodeSupport(sups[j]))
      {
        ContainsAppend(sources, offs[j], EncodeSupport(sups[j]), extra);
      }
    }
  }

  /** A new node without effects (nodes.push_back({name})) keeps the state consistent. */
  lemma {:induction false} ConsistentNewNode(nodes: seq<JsonNode>, sources: Bytes, log: map<(nat, nat), seq<Support>>,
                                             name: Bytes)
    requires Consistent(nodes, sources, log)
    ensures Consistent(nodes + [JsonNode(name, [])], sources, log)
  {
    var nodes' := nodes + [JsonNode(name, [])];
    assert forall i :: 0 <= i < |nodes| ==> nodes'[i] == nodes[i];
    assert nodes'[|nodes|].effects == [];
  }

  /**
   * Taking nodes[c].effects[e] (std::map::operator[], which inserts an empty
   * offset list when the key is absent) keeps the state consistent, with the pair
   * logged with no supports when it is new.
   */
  lemma {:induction false} ConsistentNewEdge(nodes: seq<JsonNode>, sources: Bytes, log: map<(nat, nat), seq<Support>>,
                                             c: nat, e: nat)
    requires Consistent(nodes, sources, log) && c < |nodes| && e < |nodes|
    ensures SortedKeys(nodes[c].effects)
    ensures var ins := OrderedInsertOrGet(nodes[c].effects, e, []);
            var log' := if ins.2 then log[(c, e) := []] else log;
            Consistent(nodes[c := JsonNode(nodes[c].name, ins.0)], sources, log') && (c, e) in log' &&
            (ins.2 <==> (c, e) !in log)
  {
    var ins := OrderedInsertOrGet(nodes[c].effects, e, []);
    var log' := if ins.2 then log[(c, e) := []] else log;
    var nodes' := nodes[c := JsonNode(nodes[c].name, ins.0)];
    LoggedEdgesConsistent(nodes, sources, log);
    forall i, t: nat | 0 <= i < |nodes'| && Get(nodes'[i].effects, t).Some?
      ensures t < |nodes'| && (i, t) in log' && OffsetsDecode(sources, Get(nodes'[i].effects, t).value, log'[(i, t)])
    {
      if i != c || t != e {
        assert Get(nodes'[i].effects, t) == Get(nodes[i].effects, t);
      }
    }
    forall a: nat, b: nat | (a, b) in log'
      ensures a < |nodes'| && Get(nodes'[a].effects, b).Some?
    {
      if (a, b) != (c, e) {
        assert (a, b) in log && Get(nodes'[a].effects, b) == Get(nodes[a].effects, b);
      }
    }
    assert LoggedEdges(nodes', sources, log');
    LoggedEdgesConsistent(nodes', sources, log');
  }

  /** Recording one more support offset of edge (c, e) logs that support after the earlier ones. */
  lemma {:induction false} ConsistentExtend(nodes: seq<JsonNode>, sources: Bytes, log: map<(nat, nat), seq<Support>>,
                                            c: nat, e: nat, off: nat, s: Support)
    requires Consistent(nodes, sources, log) && (c, e) in log && Contains(sources, off, EncodeSupport(s))
    ensures c < |nodes| && SortedKeys(nodes[c].effects) && Get(nodes[c].effects, e).Some?
    ensures var effs := nodes[c].effects;
            var effs' := Put(effs, e, Get(effs, e).value + [off]);
            Consistent(nodes[c := JsonNode(nodes[c].name, effs')], sources, log[(c, e) := log[(c, e)] + [s]])
  {
    var effs := nodes[c].effects;
    var offs := Get(effs, e).value;
    var effs' := Put(effs, e, offs + [off]);
    var nodes' := nodes[c := JsonNode(nodes[c].name, effs')];
    var log' := log[(c, e) := log[(c, e)] + [s]];
    LoggedEdgesConsistent(nodes, sources, log);
    assert OffsetsDecode(sources, offs, log[(c, e)]);
    assert OffsetsDecode(sources, offs + [off], log'[(c, e)]) by {
      forall j | 0 <= j < |offs| + 1
        ensures Contains(sources, (offs + [off])[j], EncodeSupport((log[(c, e)] + [s])[j]))
      {
        if j < |offs| {
          assert (offs + [off])[j] == offs[j] && (log[(c, e)] + [s])[j] == log[(c, e)][j];
        }
      }
    }
    forall i, t: nat | 0 <= i < |nodes'| && Get(nodes'[i].effects, t).Some?
      ensures t < |nodes'| && (i, t) in log' && OffsetsDecode(sources, Get(nodes'[i].effects, t).value, log'[(i, t)])
    {
      if i != c || t != e {
        assert Get(nodes'[i].effects, t) == Get(nodes[i].effects, t);
      }
    }
    forall a: nat, b: nat | (a, b) in log'
      ensures a < |nodes'| && Get(nodes'[a].effects, b).Some?
    {
      if (a, b) != (c, e) {
        assert Get(nodes'[a].effects, b) == Get(nodes[a].effects, b);
      }
    }
    assert LoggedEdges(nodes', sources, log');
    LoggedEdgesConsistent(nodes', sources, log');
  }

  /** Interning a new name as the next node index keeps names and nodes in step. */
  lemma {:induction false} InternedPush(names: map<Bytes, nat>, nodes: seq<JsonNode>, name: Bytes)
    requires Interned(names, nodes) && name !in names
    ensures Interned(names[name := |nodes|], nodes + [JsonNode(name, [])])
  {
    var nodes' := nodes + [JsonNode(name, [])];
    assert forall i :: 0 <= i < |nodes| ==> nodes'[i] == nodes[i];
  }

  /** Changing a node's effects leaves the interning alone. */
  lemma {:induction false} InternedEffects(names: map<Bytes, nat>, nodes: seq<JsonNode>, c: nat, effs: seq<(nat, seq<nat>)>)
    requires Interned(names, nodes) && c < |nodes|
    ensures Interned(names, nodes[c := JsonNode(nodes[c].name, effs)])
  {
  }

  /** A second update of the same key overrides the first. */
  lemma {:induction false} UpdateTwice<K, V>(m: map<K, V>, k: K, v: V, w: V)
    ensures m[k := v][k := w] == m[k := w]
  {
  }

  /**
   * Every known support's offset points at its record in the sources stream, and
   * distinct supports have distinct offsets.
   */
  ghost predicate Recorded(support2Offset: map<Support, nat>, sources: Bytes)
  {
    (forall s :: s in support2Offset ==> Contains(sources, support2Offset[s], EncodeSupport(s))) &&
    (forall s, t :: s in support2Offset && t in support2Offset && s != t ==> support2Offset[s] != support2Offset[t])
  }

  /** Appending a new support's record at the end of the stream records it there and keeps the others. */
  lemma {:induction false} RecordedAppend(support2Offset: map<Support, nat>, sources: Bytes, s: Support)
    requires Recorded(support2Offset, sources)
    ensures Recorded(support2Offset[s := |sources|], sources + EncodeSupport(s))
  {
    ContainsWhole(sources, EncodeSupport(s));
    forall t | t in support2Offset && t != s
      ensures Contains(sources + EncodeSupport(s), support2Offset[t], EncodeSupport(t))
      ensures support2Offset[t] < |sources|
    {
      ContainsAppend(sources, support2Offset[t], EncodeSupport(t), EncodeSupport(s));
      assert Contains(sources, support2Offset[t], EncodeSupport(t));
    }
  }

  /** The three writes of a support record append exactly its encoding. */
  lemma {:induction false} SupportWrites(sources: Bytes, s: Support)
    ensures sources + [SourceTypeByte(s.sourceTypeId)] + (s.id + [0]) + (s.content + [0]) == sources + EncodeSupport(s)
  {
  }

  /** The sources stream after writeSupport: unchanged for a known support, else the record appended. */
  function SourcesAfter(support2Offset: map<Support, nat>, sources: Bytes, s: Support): (r: Bytes)
    ensures sources <= r
  {
    if s in support2Offset then sources else sources + EncodeSupport(s)
  }


  /**
   * What the writer holds between calls: the two dedup tables, the node list, the
   * sources stream, and the ghost log of every support passed for each edge.
   */
  datatype WriterState = WriterState(conceptToIdx: map<Bytes, nat>, support2Offset: map<Support, nat>,
                                     nodes: seq<JsonNode>, sources: Bytes, edgeLog: map<(nat, nat), seq<Support>>)

  /**
   * The writer's invariant: the interning is a bijection between names and node
   * indices, each known support's offset points at its record, and the edges and
   * the log agree.
   */
  ghost predicate Inv(st: WriterState)
  {
    Interned(st.conceptToIdx, st.nodes) && |st.conceptToIdx| == |st.nodes| &&
    Recorded(st.support2Offset, st.sources) && Consistent(st.nodes, st.sources, st.edgeLog)
  }

  /** writeSupport: the support's offset, its record appended to the sources stream the first time it is seen. */
  function SupportStep(st: WriterState, s: Support): (r: (WriterState, nat))
    ensures r.0 == st.(support2Offset := r.0.support2Offset, sources := r.0.sources)
    ensures r.0.support2Offset == st.support2Offset[s := r.1]
    ensures r.0.sources == SourcesAfter(st.support2Offset, st.sources, s)
    ensures s in st.support2Offset ==> r.1 == st.support2Offset[s]
    ensures s !in st.support2Offset ==> r.1 == |st.sources|
  {
    var ins := InsertOrGet(st.support2Offset, s, |st.sources|);
    (st.(support2Offset := ins.0, sources := if ins.2 then st.sources + EncodeSupport(s) else st.sources), ins.1)
  }

  /** writeSupport keeps the invariant, and the offset it returns points at the support's record. */
  lemma {:induction false} SupportStepInv(st: WriterState, s: Support)
    requires Inv(st)
    ensures Inv(SupportStep(st, s).0)
    ensures Contains(SupportStep(st, s).0.sources, SupportStep(st, s).1, EncodeSupport(s))
  {
    if s !in st.support2Offset {
      RecordedAppend(st.support2Offset, st.sources, s);
      ConsistentSourcesGrow(st.nodes, st.sources, st.edgeLog, EncodeSupport(s));
    }
  }

  /**
   * A support seen for the first time gets the stream's end, past every record
   * already written, so it shares no offset with a known support.
   */
  lemma {:induction false} SupportStepFresh(st: WriterState, s: Support)
    requires Inv(st) && s !in st.support2Offset
    ensures forall t :: t in st.support2Offset ==> st.support2Offset[t] < SupportStep(st, s).1
  {
    forall t | t in st.support2Offset
      ensures st.support2Offset[t] < |st.sources|
    {
      assert Contains(st.sources, st.support2Offset[t], EncodeSupport(t));
    }
  }

  /** The dedup table is injective: two different supports are never given the same offset. */
  lemma {:induction false} DistinctOffsets(st: WriterState, s: Support, t: Support)
    requires Inv(st) && s in st.support2Offset && t in st.support2Offset && s != t
    ensures st.support2Offset[s] != st.support2Offset[t]
  {
    assert Recorded(st.support2Offset, st.sources);
  }

  /**
   * insertOrGet(conceptToIdx, name, nodes.size()) and nodes.push_back({name}) when
   * the name was new: the name's node index, the next free one for a new name.
   */
  function InternStep(st: WriterState, name: Bytes): (r: (WriterState, nat))
    ensures r.0 == st.(conceptToIdx := r.0.conceptToIdx, nodes := r.0.nodes)
    ensures r.0.conceptToIdx == st.conceptToIdx[name := r.1]
    ensures name in st.conceptToIdx ==> r.1 == st.conceptToIdx[name] && r.0.nodes == st.nodes
    ensures name !in st.conceptToIdx ==> r.1 == |st.nodes| && r.0.nodes == st.nodes + [JsonNode(name, [])]
  {
    var ins := InsertOrGet(st.conceptToIdx, name, |st.nodes|);
    (st.(conceptToIdx := ins.0, nodes := if ins.2 then st.nodes + [JsonNode(name, [])] else st.nodes), ins.1)
  }

  /** Interning keeps the invariant, and the index returned is that of the node carrying the name. */
  lemma {:induction false} InternStepInv(st: WriterState, name: Bytes)
    requires Inv(st)
    ensures var r := InternStep(st, name);
            Inv(r.0) && r.1 < |r.0.nodes| && r.0.nodes[r.1].name == name
  {
    if name !in st.conceptToIdx {
      InternedPush(st.conceptToIdx, st.nodes, name);
      ConsistentNewNode(st.nodes, st.sources, st.edgeLog, name);
    }
  }

  /**
   * nodes[c].effects[e]: std::map::operator[] opens edge (c, e) with an empty
   * offset list when it is not there yet; the pair is then logged with no supports.
   */
  function OpenStep(st: WriterState, c: nat, e: nat): (r: WriterState)
    requires c < |st.nodes| && SortedKeys(st.nodes[c].effects)
    ensures EdgeOpen(r, c, e) && |r.nodes| == |st.nodes|
  {
    var ins := OrderedInsertOrGet(st.nodes[c].effects, e, []);
    st.(nodes := st.nodes[c := JsonNode(st.nodes[c].name, ins.0)],
        edgeLog := if (c, e) in st.edgeLog then st.edgeLog else st.edgeLog[(c, e) := []])
  }

  /**
   * Opening an edge changes only node c's effects and the log: the effect gets an
   * empty offset list when it had none, and every other effect keeps its list.
   */
  lemma {:induction false} OpenStepFacts(st: WriterState, c: nat, e: nat)
    requires c < |st.nodes| && SortedKeys(st.nodes[c].effects)
    ensures var r := OpenStep(st, c, e);
            && r == st.(nodes := r.nodes, edgeLog := r.edgeLog)
            && r.nodes[c].name == st.nodes[c].name
            && (forall i :: 0 <= i < |st.nodes| && i != c ==> r.nodes[i] == st.nodes[i])
            && Get(r.nodes[c].effects, e) == (if Get(st.nodes[c].effects, e).Some? then Get(st.nodes[c].effects, e) else Some([]))
            && (forall k :: k != e ==> Get(r.nodes[c].effects, k) == Get(st.nodes[c].effects, k))
            && r.edgeLog == if (c, e) in st.edgeLog then st.edgeLog else st.edgeLog[(c, e) := []]
  {
  }

  /** Opening an edge keeps the invariant. */
  lemma {:induction false} OpenStepInv(st: WriterState, c: nat, e: nat)
    requires Inv(st) && c < |st.nodes| && e < |st.nodes|
    ensures SortedKeys(st.nodes[c].effects)
    ensures Inv(OpenStep(st, c, e))
  {
    ConsistentNewEdge(st.nodes, st.sources, st.edgeLog, c, e);
    var ins := OrderedInsertOrGet(st.nodes[c].effects, e, []);
    InternedEffects(st.conceptToIdx, st.nodes, c, ins.0);
  }

  /** What AppendStep and AppendAll need of edge (c, e): it is open and logged. */
  predicate EdgeOpen(st: WriterState, c: nat, e: nat)
  {
    c < |st.nodes| && SortedKeys(st.nodes[c].effects) && Get(st.nodes[c].effects, e).Some? && (c, e) in st.edgeLog
  }

  /**
   * supportOffsets.emplace_back(writeSupport(support)): the support is written
   * (once) and its offset appended to edge (c, e); the pair's log grows by it.
   */
  function AppendStep(st: WriterState, c: nat, e: nat, s: Support): (r: (WriterState, nat))
    requires EdgeOpen(st, c, e)
    ensures EdgeOpen(r.0, c, e) && |r.0.nodes| == |st.nodes|
  {
    var w := SupportStep(st, s);
    var effs := st.nodes[c].effects;
    var effs' := Put(effs, e, Get(effs, e).value + [w.1]);
    (w.0.(nodes := st.nodes[c := JsonNode(st.nodes[c].name, effs')],
          edgeLog := st.edgeLog[(c, e) := st.edgeLog[(c, e)] + [s]]), w.1)
  }

  /**
   * Appending one support writes it as writeSupport does and changes only edge
   * (c, e): its offset list and its log both grow by one, at the end.
   */
  lemma {:induction false} AppendStepFacts(st: WriterState, c: nat, e: nat, s: Support)
    requires EdgeOpen(st, c, e)
    ensures var r := AppendStep(st, c, e, s);
            && r.0.conceptToIdx == st.conceptToIdx
            && (forall i :: 0 <= i < |st.nodes| ==> r.0.nodes[i].name == st.nodes[i].name)
            && (forall i :: 0 <= i < |st.nodes| && i != c ==> r.0.nodes[i] == st.nodes[i])
            && Get(r.0.nodes[c].effects, e) == Some(Get(st.nodes[c].effects, e).value + [r.1])
            && (forall k :: k != e ==> Get(r.0.nodes[c].effects, k) == Get(st.nodes[c].effects, k))
            && r.0.edgeLog == st.edgeLog[(c, e) := st.edgeLog[(c, e)] + [s]]
            && r.0.support2Offset == SupportStep(st, s).0.support2Offset
            && r.0.sources == SupportStep(st, s).0.sources && r.1 == SupportStep(st, s).1
  {
  }

  /** Appending a support keeps the invariant. */
  lemma {:induction false} AppendStepInv(st: WriterState, c: nat, e: nat, s: Support)
    requires Inv(st) && EdgeOpen(st, c, e)
    ensures Inv(AppendStep(st, c, e, s).0)
  {
    SupportStepInv(st, s);
    var w := SupportStep(st, s);
    ConsistentExtend(w.0.nodes, w.0.sources, w.0.edgeLog, c, e, w.1, s);
    var effs := st.nodes[c].effects;
    InternedEffects(st.conceptToIdx, st.nodes, c, Put(effs, e, Get(effs, e).value + [w.1]));
  }

  /** The loop of writeEdge: the supports appended to edge (c, e) one after the other. */
  function AppendAll(st: WriterState, c: nat, e: nat, sups: seq<Support>): (r: WriterState)
    requires EdgeOpen(st, c, e)
    ensures EdgeOpen(r, c, e) && |r.nodes| == |st.nodes|
    decreases |sups|
  {
    if sups == [] then st
    else AppendStep(AppendAll(st, c, e, sups[..|sups| - 1]), c, e, sups[|sups| - 1]).0
  }

  /** The loop of writeEdge changes no concept index and no node name. */
  lemma {:induction false} AppendAllNames(st: WriterState, c: nat, e: nat, sups: seq<Support>)
    requires EdgeOpen(st, c, e)
    ensures var r := AppendAll(st, c, e, sups);
            && r.conceptToIdx == st.conceptToIdx
            && (forall i :: 0 <= i < |st.nodes| ==> r.nodes[i].name == st.nodes[i].name)
    decreases |sups|
  {
    if sups != [] {
      AppendAllNames(st, c, e, sups[..|sups| - 1]);
      AppendStepFacts(AppendAll(st, c, e, sups[..|sups| - 1]), c, e, sups[|sups| - 1]);
    }
  }

  /** After the loop of writeEdge the pair's log has grown by the supports, in order. */
  lemma {:induction false} AppendAllLog(st: WriterState, c: nat, e: nat, sups: seq<Support>)
    requires EdgeOpen(st, c, e)
    ensures AppendAll(st, c, e, sups).edgeLog == st.edgeLog[(c, e) := st.edgeLog[(c, e)] + sups]
    decreases |sups|
  {
    var log, k := st.edgeLog, (c, e);
    if sups == [] {
      AppendNothing(log, k);
    } else {
      var init, last := sups[..|sups| - 1], sups[|sups| - 1];
      var prev := AppendAll(st, c, e, init);
      AppendAllLog(st, c, e, init);
      AppendStepFacts(prev, c, e, last);
      assert init + [last] == sups;
      AppendTwice(log, k, init, [last]);
    }
  }

  lemma {:induction false} AppendNothing<K, V>(m: map<K, seq<V>>, k: K)
    requires k in m
    ensures m[k := m[k] + []] == m
  {
    assert m[k] + [] == m[k];
  }

  lemma {:induction false} AppendTwice<K, V>(m: map<K, seq<V>>, k: K, a: seq<V>, b: seq<V>)
    requires k in m
    ensures m[k := m[k] + a][k := m[k := m[k] + a][k] + b] == m[k := m[k] + (a + b)]
  {
    assert m[k] + a + b == m[k] + (a + b);
  }

  /**
   * After the loop of writeEdge every support has an offset, no earlier offset
   * moved, and the sources stream only grew.
   */
  lemma {:induction false} AppendAllSupports(st: WriterState, c: nat, e: nat, sups: seq<Support>)
    requires EdgeOpen(st, c, e)
    ensures var r := AppendAll(st, c, e, sups);
            && (forall x :: x in r.support2Offset <==> x in st.support2Offset || x in sups)
            && (forall x :: x in st.support2Offset ==> r.support2Offset[x] == st.support2Offset[x])
            && st.sources <= r.sources
    decreases |sups|
  {
    if sups != [] {
      var init, last := sups[..|sups| - 1], sups[|sups| - 1];
      assert sups == init + [last];
      AppendAllSupports(st, c, e, init);
      AppendStepFacts(AppendAll(st, c, e, init), c, e, last);
    }
  }

  /** Appending all supports keeps the invariant. */
  lemma {:induction false} AppendAllInv(st: WriterState, c: nat, e: nat, sups: seq<Support>)
    requires Inv(st) && EdgeOpen(st, c, e)
    ensures Inv(AppendAll(st, c, e, sups))
    decreases |sups|
  {
    if sups != [] {
      AppendAllInv(st, c, e, sups[..|sups| - 1]);
      AppendStepInv(AppendAll(st, c, e, sups[..|sups| - 1]), c, e, sups[|sups| - 1]);
    }
  }

  /** What writeEdge needs of the state to be defined: indices in range and every node's effects sorted. */
  predicate Ready(st: WriterState)
  {
    (forall n :: n in st.conceptToIdx ==> st.conceptToIdx[n] < |st.nodes|) &&
    (forall i :: 0 <= i < |st.nodes| ==> SortedKeys(st.nodes[i].effects))
  }

  lemma {:induction false} InvReady(st: WriterState)
    requires Inv(st)
    ensures Ready(st)
  {
  }

  /** Interning keeps the state ready and returns an index in range. */
  lemma {:induction false} InternStepReady(st: WriterState, name: Bytes)
    requires Ready(st)
    ensures Ready(InternStep(st, name).0) && InternStep(st, name).1 < |InternStep(st, name).0.nodes|
  {
    var r := InternStep(st, name);
    if name !in st.conceptToIdx {
      assert forall i :: 0 <= i < |st.nodes| ==> r.0.nodes[i] == st.nodes[i];
    }
  }

  /** After interning the cause and then the effect, both indices are in range and the cause's effects are sorted. */
  lemma {:induction false} InternedPairReady(st: WriterState, from: Bytes, to: Bytes)
    requires Ready(st)
    ensures var (s1, c) := InternStep(st, from);
            var (s2, e) := InternStep(s1, to);
            c < |s2.nodes| && e < |s2.nodes| && SortedKeys(s2.nodes[c].effects)
  {
    var (s1, c) := InternStep(st, from);
    InternStepReady(st, from);
    InternStepReady(s1, to);
  }

  /** writeEdge: intern the cause, then the effect, open the edge and append the supports. */
  function WriteEdgeStep(st: WriterState, from: Bytes, to: Bytes, sups: seq<Support>): WriterState
    requires Ready(st)
  {
    var (s1, c) := InternStep(st, from);
    var (s2, e) := InternStep(s1, to);
    InternedPairReady(st, from, to);
    AppendAll(OpenStep(s2, c, e), c, e, sups)
  }

  /** writeEdge keeps the writer's invariant. */
  lemma {:induction false} WriteEdgeInv(st: WriterState, from: Bytes, to: Bytes, sups: seq<Support>)
    requires Inv(st)
    ensures Ready(st) && Inv(WriteEdgeStep(st, from, to, sups))
  {
    InvReady(st);
    var (s1, c) := InternStep(st, from);
    InternStepInv(st, from);
    var (s2, e) := InternStep(s1, to);
    InternStepInv(s1, to);
    OpenStepInv(s2, c, e);
    AppendAllInv(OpenStep(s2, c, e), c, e, sups);
  }

  /** The states writeEdge passes through: the cause interned, then the effect, then the edge opened. */
  lemma {:induction false} WriteEdgeUnfold(st: WriterState, from: Bytes, to: Bytes, sups: seq<Support>)
    requires Ready(st)
    ensures var (s1, c) := InternStep(st, from);
            var (s2, e) := InternStep(s1, to);
            c < |s2.nodes| && e < |s2.nodes| && SortedKeys(s2.nodes[c].effects) &&
            WriteEdgeStep(st, from, to, sups) == AppendAll(OpenStep(s2, c, e), c, e, sups)
  {
    InternedPairReady(st, from, to);
  }

  /**
   * writeEdge interns both names and nothing else: no earlier index changes, a
   * new cause gets the next free index and a new effect the one after it.
   */
  lemma {:induction false} WriteEdgeConcepts(st: WriterState, from: Bytes, to: Bytes, sups: seq<Support>)
    requires Ready(st)
    ensures var r := WriteEdgeStep(st, from, to, sups);
            && r.conceptToIdx.Keys == st.conceptToIdx.Keys + {from, to}
            && (forall n :: n in st.conceptToIdx ==> r.conceptToIdx[n] == st.conceptToIdx[n])
            && (from !in st.conceptToIdx ==> r.conceptToIdx[from] == |st.nodes|)
            && (to !in st.conceptToIdx && to != from ==>
                  r.conceptToIdx[to] == |st.nodes| + (if from in st.conceptToIdx then 0 else 1))
  {
    WriteEdgeUnfold(st, from, to, sups);
    var (s1, c) := InternStep(st, from);
    var (s2, e) := InternStep(s1, to);
    OpenStepFacts(s2, c, e);
    AppendAllNames(OpenStep(s2, c, e), c, e, sups);
  }

  /** writeEdge only appends nodes: every earlier node keeps its index and name. */
  lemma {:induction false} WriteEdgeNodes(st: WriterState, from: Bytes, to: Bytes, sups: seq<Support>)
    requires Ready(st)
    ensures var r := WriteEdgeStep(st, from, to, sups);
            |st.nodes| <= |r.nodes| && forall i :: 0 <= i < |st.nodes| ==> r.nodes[i].name == st.nodes[i].name
  {
    WriteEdgeUnfold(st, from, to, sups);
    var (s1, c) := InternStep(st, from);
    var (s2, e) := InternStep(s1, to);
    assert forall i :: 0 <= i < |st.nodes| ==> s2.nodes[i] == st.nodes[i];
    OpenStepFacts(s2, c, e);
    AppendAllNames(OpenStep(s2, c, e), c, e, sups);
  }

  /** writeEdge logs the supports after those of earlier calls for the same (cause, effect) pair. */
  lemma {:induction false} WriteEdgeLog(st: WriterState, from: Bytes, to: Bytes, sups: seq<Support>)
    requires Ready(st)
    ensures var r := WriteEdgeStep(st, from, to, sups);
            from in r.conceptToIdx && to in r.conceptToIdx &&
            var c, e := r.conceptToIdx[from], r.conceptToIdx[to];
            r.edgeLog == st.edgeLog[(c, e) := (if (c, e) in st.edgeLog then st.edgeLog[(c, e)] else []) + sups]
  {
    WriteEdgeUnfold(st, from, to, sups);
    var (s1, c) := InternStep(st, from);
    var (s2, e) := InternStep(s1, to);
    assert s2.conceptToIdx[from] == c && s2.conceptToIdx[to] == e && s2.edgeLog == st.edgeLog;
    OpenStepFacts(s2, c, e);
    AppendAllNames(OpenStep(s2, c, e), c, e, sups);
    AppendAllLog(OpenStep(s2, c, e), c, e, sups);
    OpenThenAppend(st.edgeLog, (c, e), sups);
  }

  /** Opening a log entry and then appending to it is appending to what was there, or to nothing. */
  lemma {:induction false} OpenThenAppend<K, V>(log: map<K, seq<V>>, k: K, vs: seq<V>)
    ensures var start := if k in log then log else log[k := []];
            start[k := start[k] + vs] == log[k := (if k in log then log[k] else []) + vs]
  {
    if k !in log {
      UpdateTwice(log, k, [], vs);
      assert [] + vs == vs;
    }
  }

  /** writeEdge gives every support an offset, moves no earlier offset, and only appends to the sources stream. */
  lemma {:induction false} WriteEdgeSupports(st: WriterState, from: Bytes, to: Bytes, sups: seq<Support>)
    requires Ready(st)
    ensures var r := WriteEdgeStep(st, from, to, sups);
            && (forall x :: x in r.support2Offset <==> x in st.support2Offset || x in sups)
            && (forall x :: x in st.support2Offset ==> r.support2Offset[x] == st.support2Offset[x])
            && st.sources <= r.sources
  {
    WriteEdgeUnfold(st, from, to, sups);
    var (s1, c) := InternStep(st, from);
    var (s2, e) := InternStep(s1, to);
    OpenStepFacts(s2, c, e);
    AppendAllSupports(OpenStep(s2, c, e), c, e, sups);
  }

  /** One more edge entry extends the edge array by the entry for that effect. */
  lemma {:induction false} EdgesStep(base: Bytes, effs: seq<(nat, seq<nat>)>, k: nat, listStart: nat)
    requires k < |effs|
    ensures TotalSupports(effs[..k + 1]) == TotalSupports(effs[..k]) + |effs[k].1|
    ensures (base + EdgesImage(effs[..k], listStart)) +
            EncodeEdge(EdgeEntry(effs[k].0, |effs[k].1|, listStart + OFFSET_SIZE * TotalSupports(effs[..k]))) ==
            base + EdgesImage(effs[..k + 1], listStart)
  {
    assert effs[..k + 1][..k] == effs[..k];
  }

  /** One more offset extends an offset list by its eight bytes. */
  lemma {:induction false} OffsetsStep(base: Bytes, offs: seq<nat>, j: nat)
    requires j < |offs|
    ensures (base + OffsetsImage(offs[..j])) + EncodeU64(offs[j]) == base + OffsetsImage(offs[..j + 1])
  {
    assert offs[..j + 1][..j] == offs[..j];
  }

  /** One more complete offset list extends the lists of the earlier effects. */
  lemma {:induction false} AllOffsetsStep(base: Bytes, effs: seq<(nat, seq<nat>)>, k: nat)
    requires k < |effs|
    ensures (base + AllOffsetsImage(effs[..k])) + OffsetsImage(effs[k].1) == base + AllOffsetsImage(effs[..k + 1])
  {
    assert effs[..k + 1][..k] == effs[..k];
  }

  /** The four parts writeNodeInfo writes one after the other make up the node's info block. */
  lemma {:induction false} NodeInfoWrites(before: Bytes, node: JsonNode, start: nat)
    ensures before + (node.name + [0]) + EdgesImage(node.effects, ListStart(node, start)) + SENTINEL +
            AllOffsetsImage(node.effects) == before + NodeInfoImage(node, start)
  {
  }

  /** Writing node i extends both node streams by that node's entry and info block. */
  lemma {:induction false} ImagesStep(nodes: seq<JsonNode>, i: nat)
    requires i < |nodes|
    ensures NodesImage(nodes[..i + 1]) == NodesImage(nodes[..i]) + EncodeNodeEntry(EntryFor(nodes[i], |InfoImage(nodes[..i])|))
    ensures InfoImage(nodes[..i + 1]) == InfoImage(nodes[..i]) + NodeInfoImage(nodes[i], |InfoImage(nodes[..i])|)
  {
    assert nodes[..i + 1][..i] == nodes[..i];
  }

  lemma {:induction false} ValidAfterWriteEdge(w: CausenetWriter, st: WriterState, from: Bytes, to: Bytes, sups: seq<Support>)
    requires Inv(st) && Ready(st) && w.State() == WriteEdgeStep(st, from, to, sups)
    requires w.nodesFile == [] && w.nodeInfoFile == []
    ensures w.Valid()
  {
    WriteEdgeInv(st, from, to, sups);
  }

  class CausenetWriter {
    /** conceptToIdx: concept name to node index. */
    var conceptToIdx: map<Bytes, nat>
    /** support2Offset: support record to its offset in the sources stream. */
    var support2Offset: map<Support, nat>
    var nodes: seq<JsonNode>
    /** The staging streams nodes.tmp, nodeinfo.tmp and sources.tmp, and the output file. */
    var nodesFile: Bytes
    var nodeInfoFile: Bytes
    var sourcesFile: Bytes
    var outfile: Bytes
    /** Every support passed to writeEdge for each (cause, effect) pair, in call order. */
    ghost var edgeLog: map<(nat, nat), seq<Support>>

    /** The in-memory state and the sources stream, as one value. */
    ghost function State(): WriterState
      reads this`conceptToIdx, this`support2Offset, this`nodes, this`sourcesFile, this`edgeLog
    {
      WriterState(conceptToIdx, support2Offset, nodes, sourcesFile, edgeLog)
    }

    /** Between calls, before close(): the invariant holds and the node streams are not written yet. */
    ghost predicate Valid()
      reads this
    {
      Inv(State()) && nodesFile == [] && nodeInfoFile == []
    }

    /** Fresh writer: no concepts, no supports, empty staging streams. */
    constructor()
      ensures Valid()
      ensures State() == WriterState(map[], map[], [], [], map[])
      ensures nodesFile == [] && nodeInfoFile == [] && outfile == []
    {
      conceptToIdx := map[];
      support2Offset := map[];
      nodes := [];
      nodesFile := [];
      nodeInfoFile := [];
      sourcesFile := [];
      outfile := [];
      edgeLog := map[];
    }

    /**
     * writeSupport: the offset of the support's record, writing the record (type
     * byte, id and NUL, content and NUL) at the end of the sources stream the
     * first time the support is seen.
     */
    method WriteSupport(s: Support) returns (offset: nat)
      modifies this`support2Offset, this`sourcesFile
      ensures (State(), offset) == SupportStep(old(State()), s)
    {
      var r := InsertOrGet(support2Offset, s, |sourcesFile|);
      if r.2 {
        SupportWrites(sourcesFile, s);
        sourcesFile := sourcesFile + [SourceTypeByte(s.sourceTypeId)] + (s.id + [0]) + (s.content + [0]);
      }
      support2Offset := r.0;
      offset := r.1;
    }

    /** The interning of writeEdge: the node index of `name`, a new node when the name is new. */
    method InternConcept(name: Bytes) returns (idx: nat)
      modifies this`conceptToIdx, this`nodes
      ensures (State(), idx) == InternStep(old(State()), name)
    {
      var r := InsertOrGet(conceptToIdx, name, |nodes|);
      if r.2 {
        nodes := nodes + [JsonNode(name, [])];
      }
      conceptToIdx := r.0;
      idx := r.1;
    }

    /** nodes[c].effects[e]: open edge (c, e), logging the pair when it is new. */
    method OpenEdge(c: nat, e: nat)
      requires c < |nodes| && SortedKeys(nodes[c].effects)
      modifies this`nodes, this`edgeLog
      ensures State() == OpenStep(old(State()), c, e)
    {
      var ins := OrderedInsertOrGet(nodes[c].effects, e, []);
      nodes := nodes[c := JsonNode(nodes[c].name, ins.0)];
      if (c, e) !in edgeLog {
        edgeLog := edgeLog[(c, e) := []];
      }
    }

    /** supportOffsets.emplace_back(writeSupport(support)) for one support of edge (c, e). */
    method AppendSupport(c: nat, e: nat, s: Support)
      requires EdgeOpen(State(), c, e)
      modifies this`support2Offset, this`sourcesFile, this`nodes, this`edgeLog
      ensures State() == AppendStep(old(State()), c, e, s).0
    {
      var off := WriteSupport(s);
      var effs := nodes[c].effects;
      nodes := nodes[c := JsonNode(nodes[c].name, Put(effs, e, Get(effs, e).value + [off]))];
      edgeLog := edgeLog[(c, e) := edgeLog[(c, e)] + [s]];
    }

    /** The loop of writeEdge: one offset per support, in order, appended to edge (c, e). */
    method AppendSupports(c: nat, e: nat, supports: seq<Support>)
      requires EdgeOpen(State(), c, e)
      modifies this`support2Offset, this`sourcesFile, this`nodes, this`edgeLog
      ensures State() == AppendAll(old(State()), c, e, supports)
    {
      var i := 0;
      while i < |supports|
        invariant 0 <= i <= |supports|
        invariant State() == AppendAll(old(State()), c, e, supports[..i])
      {
        assert supports[..i + 1][..i] == supports[..i];
        AppendSupport(c, e, supports[i]);
        i := i + 1;
      }
      assert supports[..|supports|] == supports;
    }

    /**
     * writeEdge: intern both names (cause first, so a new cause gets the lower
     * index), open the edge (cause, effect), and append one offset per support,
     * writing each new support record.
     */
    method WriteEdge(from: Bytes, to: Bytes, supports: seq<Support>)
      requires Valid()
      modifies this`conceptToIdx, this`support2Offset, this`sourcesFile, this`nodes, this`edgeLog
      ensures Valid()
      ensures State() == WriteEdgeStep(old(State()), from, to, supports)
    {
      ghost var s0 := State();
      InvReady(s0);
      WriteEdgeSteps(from, to, supports);
      ValidAfterWriteEdge(this, s0, from, to, supports);
    }

    /** The body of writeEdge, on any state in which it is defined. */
    method WriteEdgeSteps(from: Bytes, to: Bytes, supports: seq<Support>)
      requires Ready(State())
      modifies this`conceptToIdx, this`support2Offset, this`sourcesFile, this`nodes, this`edgeLog
      ensures State() == WriteEdgeStep(old(State()), from, to, supports)
    {
      WriteEdgeUnfold(State(), from, to, supports);
      var causeIdx := InternConcept(from);
      var effectIdx := InternConcept(to);
      OpenEdge(causeIdx, effectIdx);
      AppendSupports(causeIdx, effectIdx, supports);
    }

    /**
     * writeNodeInfo: at the end of the node-info stream, the name and its NUL, one
     * edge per effect in ascending effect order with the running offset of its
     * list, the null edge, then all offset lists; returns where the block starts.
     */
    method WriteNodeInfo(node: JsonNode) returns (offset: nat)
      modifies this`nodeInfoFile
      ensures offset == |old(nodeInfoFile)|
      ensures nodeInfoFile == old(nodeInfoFile) + NodeInfoImage(node, offset)
    {
      offset := |nodeInfoFile|;
      var supportOffset := offset + |node.name| + 1 + (|node.effects| + 1) * EDGE_SIZE;
      assert supportOffset == ListStart(node, offset);
      nodeInfoFile := nodeInfoFile + (node.name + [0]);
      WriteEdges(node.effects, supportOffset);
      // the encoded null edge
      nodeInfoFile := nodeInfoFile + SENTINEL;
      WriteOffsetLists(node.effects);
      NodeInfoWrites(old(nodeInfoFile), node, offset);
    }

    /** The first loop of writeNodeInfo: one edge entry per effect, each pointing at its offset list. */
    method WriteEdges(effects: seq<(nat, seq<nat>)>, listStart: nat)
      modifies this`nodeInfoFile
      ensures nodeInfoFile == old(nodeInfoFile) + EdgesImage(effects, listStart)
    {
      ghost var base := nodeInfoFile;
      var supportOffset := listStart;
      var k := 0;
      while k < |effects|
        invariant 0 <= k <= |effects|
        invariant nodeInfoFile == base + EdgesImage(effects[..k], listStart)
        invariant supportOffset == listStart + OFFSET_SIZE * TotalSupports(effects[..k])
      {
        var (effect, supports) := effects[k];
        EdgesStep(base, effects, k, listStart);
        nodeInfoFile := nodeInfoFile + EncodeEdge(EdgeEntry(effect, |supports|, supportOffset));
        supportOffset := supportOffset + |supports| * OFFSET_SIZE;
        k := k + 1;
      }
      assert effects[..k] == effects;
    }

    /** The second loop of writeNodeInfo: every effect's offset list, in effect order. */
    method WriteOffsetLists(effects: seq<(nat, seq<nat>)>)
      modifies this`nodeInfoFile
      ensures nodeInfoFile == old(nodeInfoFile) + AllOffsetsImage(effects)
    {
      ghost var base := nodeInfoFile;
      var k := 0;
      while k < |effects|
        invariant 0 <= k <= |effects|
        invariant nodeInfoFile == base + AllOffsetsImage(effects[..k])
      {
        WriteOffsets(effects[k].1);
        AllOffsetsStep(base, effects, k);
        k := k + 1;
      }
      assert effects[..k] == effects;
    }

    /** The inner loop of writeNodeInfo: one edge's support offsets as u64 values. */
    method WriteOffsets(offsets: seq<nat>)
      modifies this`nodeInfoFile
      ensures nodeInfoFile == old(nodeInfoFile) + OffsetsImage(offsets)
    {
      ghost var base := nodeInfoFile;
      var j := 0;
      while j < |offsets|
        invariant 0 <= j <= |offsets|
        invariant nodeInfoFile == base + OffsetsImage(offsets[..j])
      {
        OffsetsStep(base, offsets, j);
        nodeInfoFile := nodeInfoFile + EncodeU64(offsets[j]);
        j := j + 1;
      }
      assert offsets[..j] == offsets;
    }

    /** writeNodeWithInfo: the node's info block, then its entry pointing at the name and at the edges. */
    method WriteNodeWithInfo(node: JsonNode)
      modifies this`nodeInfoFile, this`nodesFile
      ensures nodeInfoFile == old(nodeInfoFile) + NodeInfoImage(node, |old(nodeInfoFile)|)
      ensures nodesFile == old(nodesFile) + EncodeNodeEntry(EntryFor(node, |old(nodeInfoFile)|))
    {
      var infoOffset := WriteNodeInfo(node);
      var entry := NodeEntry(infoOffset, infoOffset + |node.name| + 1);
      nodesFile := nodesFile + EncodeNodeEntry(entry);
    }

    /**
     * writeOutfile: the header (node count, then where the three sections start),
     * then the three staging streams. The three position checks of the source hold of
     * these lengths; a writer with no node, whose empty nodes stream makes the stream
     * insertion fail and tellp() return -1, is not covered.
     */
    method WriteOutfile()
      modifies this`outfile
      ensures outfile == OutImage(|conceptToIdx|, nodesFile, nodeInfoFile, sourcesFile)
    {
      var header := Header(|conceptToIdx|, HEADER_SIZE, HEADER_SIZE + |nodesFile|, HEADER_SIZE + |nodesFile| + |nodeInfoFile|);
      var out := EncodeHeader(header);
      assert |out| == header.conceptOffset;
      out := out + nodesFile;
      assert |out| == header.infoOffset;
      out := out + nodeInfoFile;
      assert |out| == header.supportOffset;
      out := out + sourcesFile;
      outfile := out;
    }

    /** The loop of close: every node's info block and entry, in index order. */
    method WriteNodes()
      requires nodesFile == [] && nodeInfoFile == []
      modifies this`nodesFile, this`nodeInfoFile
      ensures nodesFile == NodesImage(nodes) && nodeInfoFile == InfoImage(nodes)
    {
      var i := 0;
      while i < |nodes|
        invariant 0 <= i <= |nodes|
        invariant nodesFile == NodesImage(nodes[..i]) && nodeInfoFile == InfoImage(nodes[..i])
      {
        ImagesStep(nodes, i);
        WriteNodeWithInfo(nodes[i]);
        i := i + 1;
      }
      assert nodes[..i] == nodes;
    }

    /**
     * close: the node streams, then the output file, which is the file image of
     * the nodes and the sources stream (the in-memory state is left as it was).
     * close() runs once, from the destructor, on a writer whose invariant holds,
     * so the node streams are still empty and there is one node per concept.
     */
    method Close()
      requires nodesFile == [] && nodeInfoFile == [] && |conceptToIdx| == |nodes|
      modifies this`nodesFile, this`nodeInfoFile, this`outfile
      ensures nodesFile == NodesImage(nodes) && nodeInfoFile == InfoImage(nodes)
      ensures outfile == FileImage(nodes, sourcesFile)
    {
      WriteNodes();
      WriteOutfile();
    }
  }
}
