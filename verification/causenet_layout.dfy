/**
 * What the writer keeps in memory before close(), and the exact bytes close()
 * lays out from it. A node's effects are a std::map from target index to the
 * list of support offsets, modelled as an association list sorted by strictly
 * ascending key; iterating it visits the keys in ascending order, as std::map does.
 * Every image below is defined by appending at the end, which is how the writer
 * fills its staging streams (tellp() is the current length).
 */
module CausenetLayout {
  import opened Wrappers
  import opened LittleEndian
  import opened CausenetSupport
  import opened CausenetFile

  /** std::map<size_t, V>: entries in strictly ascending key order. */
  predicate SortedKeys<V>(es: seq<(nat, V)>)
  {
    forall i, j :: 0 <= i < j < |es| ==> es[i].0 < es[j].0
  }

  /** The value stored under `key`, found by a plain front-to-back search. */
  function Get<V>(es: seq<(nat, V)>, key: nat): Option<V>
  {
    if es == [] then None
    else if es[0].0 == key then Some(es[0].1)
    else Get(es[1..], key)
  }

  /** std::map::lower_bound: the first entry whose key is not less than `key`. */
  function LowerBound<V>(es: seq<(nat, V)>, key: nat): (p: nat)
    requires SortedKeys(es)
    ensures p <= |es|
    ensures forall i :: 0 <= i < p ==> es[i].0 < key
    ensures forall i :: p <= i < |es| ==> key <= es[i].0
  {
    if es == [] || key <= es[0].0 then 0 else 1 + LowerBound(es[1..], key)
  }

  /** In a sorted list the search finds exactly the entry at the lower bound, if its key matches. */
  lemma {:induction false} GetLowerBound<V>(es: seq<(nat, V)>, key: nat)
    requires SortedKeys(es)
    ensures var p := LowerBound(es, key);
            Get(es, key) == if p < |es| && es[p].0 == key then Some(es[p].1) else None
  {
    if es != [] && es[0].0 != key {
      GetLowerBound(es[1..], key);
      if key < es[0].0 {
        assert LowerBound(es[1..], key) == 0;
      }
    }
  }

  /** Entry k of a sorted list is what a search for its key finds. */
  lemma {:induction false} GetAt<V>(es: seq<(nat, V)>, k: nat)
    requires SortedKeys(es) && k < |es|
    ensures Get(es, es[k].0) == Some(es[k].1)
  {
    GetLowerBound(es, es[k].0);
  }

  /** A search through a concatenation looks in the second part only when the first lacks the key. */
  lemma {:induction false} GetConcat<V>(a: seq<(nat, V)>, b: seq<(nat, V)>, key: nat)
    ensures Get(a + b, key) == if Get(a, key).Some? then Get(a, key) else Get(b, key)
  {
    if a == [] {
      assert a + b == b;
    } else {
      assert (a + b)[1..] == a[1..] + b;
      GetConcat(a[1..], b, key);
    }
  }

  /** A key absent from every entry is not found. */
  lemma {:induction false} GetAbsent<V>(es: seq<(nat, V)>, key: nat)
    requires forall i :: 0 <= i < |es| ==> es[i].0 != key
    ensures Get(es, key) == None
  {
    if es != [] {
      GetAbsent(es[1..], key);
    }
  }

  /**
   * insertOrGet on a std::map: lower_bound, then either the existing entry
   * (returned with false, map untouched) or a new entry inserted at that position
   * (returned with true).
   */
  function OrderedInsertOrGet<V>(es: seq<(nat, V)>, key: nat, newVal: V): (r: (seq<(nat, V)>, V, bool))
    requires SortedKeys(es)
    ensures SortedKeys(r.0)
    ensures r.2 <==> Get(es, key).None?
    ensures Get(r.0, key) == Some(r.1)
    ensures !r.2 ==> r.0 == es && Some(r.1) == Get(es, key)
    ensures r.2 ==> r.1 == newVal && |r.0| == |es| + 1
    ensures forall k :: k != key ==> Get(r.0, k) == Get(es, k)
  {
    var p := LowerBound(es, key);
    GetLowerBound(es, key);
    if p < |es| && !(key < es[p].0) then
      (es, es[p].1, false)
    else
      var r := es[..p] + [(key, newVal)] + es[p..];
      InsertedAt(es, p, key, newVal);
      (r, newVal, true)
  }

  /** A search through a + [x] + b, one part at a time. */
  lemma {:induction false} GetAround<V>(a: seq<(nat, V)>, x: (nat, V), b: seq<(nat, V)>, key: nat)
    ensures Get(a + [x] + b, key) ==
              if Get(a, key).Some? then Get(a, key) else if x.0 == key then Some(x.1) else Get(b, key)
  {
    GetConcat(a + [x], b, key);
    GetConcat(a, [x], key);
    assert [x][1..] == [];
  }

  /** A key above everything in `a` and below everything in `b` fits between them. */
  lemma {:induction false} SortedAround<V>(a: seq<(nat, V)>, x: (nat, V), b: seq<(nat, V)>)
    requires SortedKeys(a) && SortedKeys(b)
    requires forall i :: 0 <= i < |a| ==> a[i].0 < x.0
    requires forall j :: 0 <= j < |b| ==> x.0 < b[j].0
    ensures SortedKeys(a + [x] + b)
  {
    var r := a + [x] + b;
    forall i, j | 0 <= i < j < |r|
      ensures r[i].0 < r[j].0
    {
      if j < |a| {
        assert r[i] == a[i] && r[j] == a[j];
      } else if i > |a| {
        assert r[i] == b[i - |a| - 1] && r[j] == b[j - |a| - 1];
      } else if i == |a| {
        assert r[j] == b[j - |a| - 1];
      } else if j == |a| {
        assert r[i] == a[i];
      } else {
        assert r[i] == a[i] && r[j] == b[j - |a| - 1];
      }
    }
  }

  lemma {:induction false} InsertedSorted<V>(es: seq<(nat, V)>, p: nat, key: nat, v: V)
    requires SortedKeys(es) && p == LowerBound(es, key) && !(p < |es| && es[p].0 == key)
    ensures SortedKeys(es[..p] + [(key, v)] + es[p..])
  {
    var a, b := es[..p], es[p..];
    assert forall i :: 0 <= i < |a| ==> a[i] == es[i];
    assert forall j :: 0 <= j < |b| ==> b[j] == es[p + j];
    SortedAround(a, (key, v), b);
  }

  /** Inserting a fresh key at its lower bound keeps the list sorted and changes only that key's lookup. */
  lemma {:induction false} InsertedAt<V>(es: seq<(nat, V)>, p: nat, key: nat, v: V)
    requires SortedKeys(es) && p == LowerBound(es, key) && !(p < |es| && es[p].0 == key)
    ensures SortedKeys(es[..p] + [(key, v)] + es[p..])
    ensures Get(es[..p] + [(key, v)] + es[p..], key) == Some(v)
    ensures forall k :: k != key ==> Get(es[..p] + [(key, v)] + es[p..], k) == Get(es, k)
  {
    InsertedSorted(es, p, key, v);
    assert es == es[..p] + es[p..];
    GetAbsent(es[..p], key);
    GetAround(es[..p], (key, v), es[p..], key);
    forall k | k != key
      ensures Get(es[..p] + [(key, v)] + es[p..], k) == Get(es, k)
    {
      GetAround(es[..p], (key, v), es[p..], k);
      GetConcat(es[..p], es[p..], k);
    }
  }

  /** Overwrite the value of a present key in place (what an update through the reference operator[] returns does). */
  function Put<V>(es: seq<(nat, V)>, key: nat, v: V): (r: seq<(nat, V)>)
    requires SortedKeys(es) && Get(es, key).Some?
    ensures SortedKeys(r) && |r| == |es|
    ensures Get(r, key) == Some(v)
    ensures forall k :: k != key ==> Get(r, k) == Get(es, k)
    ensures forall i :: 0 <= i < |es| ==> r[i].0 == es[i].0
  {
    var p := LowerBound(es, key);
    GetLowerBound(es, key);
    var r := es[p := (key, v)];
    PutAt(es, p, key, v);
    r
  }

  lemma {:induction false} PutAt<V>(es: seq<(nat, V)>, p: nat, key: nat, v: V)
    requires SortedKeys(es) && p < |es| && es[p].0 == key
    ensures SortedKeys(es[p := (key, v)])
    ensures Get(es[p := (key, v)], key) == Some(v)
    ensures forall k :: k != key ==> Get(es[p := (key, v)], k) == Get(es, k)
  {
    var r := es[p := (key, v)];
    assert es == es[..p] + [es[p]] + es[p + 1..];
    assert r == es[..p] + [(key, v)] + es[p + 1..];
    GetAbsent(es[..p], key);
    GetAround(es[..p], (key, v), es[p + 1..], key);
    forall k | k != key
      ensures Get(r, k) == Get(es, k)
    {
      GetAround(es[..p], (key, v), es[p + 1..], k);
      GetAround(es[..p], es[p], es[p + 1..], k);
    }
  }

  /**
   * insertOrGet on a std::unordered_map: insert returns the existing element
   * (and false) when the key is present, otherwise the new one (and true).
   */
  function InsertOrGet<K(==), V>(m: map<K, V>, key: K, newVal: V): (r: (map<K, V>, V, bool))
    ensures r.2 <==> key !in m
    ensures r.0.Keys == m.Keys + {key}
    ensures key in r.0 && r.0[key] == r.1
    ensures forall k :: k in m ==> k in r.0 && r.0[k] == m[k]
    ensures r.2 ==> r.1 == newVal
  {
    if key in m then (m, m[key], false) else (m[key := newVal], newVal, true)
  }

  /** A node as the writer holds it until close(): its name and its ordered effects. */
  datatype JsonNode = JsonNode(name: Bytes, effects: seq<(nat, seq<nat>)>)

  /**
   * conceptToIdx and the node list agree: each interned name maps to the node that
   * carries it, and every node's name is interned with that node's index.
   */
  predicate Interned(names: map<Bytes, nat>, nodes: seq<JsonNode>)
  {
    (forall n :: n in names ==> names[n] < |nodes| && nodes[names[n]].name == n) &&
    (forall i :: 0 <= i < |nodes| ==> nodes[i].name in names && names[nodes[i].name] == i)
  }

  /** How many support offsets the effects hold altogether. */
  function TotalSupports(effs: seq<(nat, seq<nat>)>): nat
  {
    if effs == [] then 0 else TotalSupports(effs[..|effs| - 1]) + |effs[|effs| - 1].1|
  }

  /** The edge writeNodeInfo emits for effect k, with its offset list at `listStart` plus the earlier lists. */
  function EdgeFor(effs: seq<(nat, seq<nat>)>, k: nat, listStart: nat): EdgeEntry
    requires k < |effs|
  {
    EdgeEntry(effs[k].0, |effs[k].1|, listStart + OFFSET_SIZE * TotalSupports(effs[..k]))
  }

  /** The edge entries of writeNodeInfo's first loop. */
  function EdgesImage(effs: seq<(nat, seq<nat>)>, listStart: nat): (r: Bytes)
    ensures |r| == EDGE_SIZE * |effs|
  {
    if effs == [] then []
    else EdgesImage(effs[..|effs| - 1], listStart) + EncodeEdge(EdgeFor(effs, |effs| - 1, listStart))
  }

  /** One edge's offsets, eight bytes each. */
  function OffsetsImage(offs: seq<nat>): (r: Bytes)
    ensures |r| == OFFSET_SIZE * |offs|
  {
    if offs == [] then [] else OffsetsImage(offs[..|offs| - 1]) + EncodeU64(offs[|offs| - 1])
  }

  /** The offset lists of writeNodeInfo's second loop, one edge after the other. */
  function AllOffsetsImage(effs: seq<(nat, seq<nat>)>): (r: Bytes)
    ensures |r| == OFFSET_SIZE * TotalSupports(effs)
  {
    if effs == [] then [] else AllOffsetsImage(effs[..|effs| - 1]) + OffsetsImage(effs[|effs| - 1].1)
  }

  /** Where the first offset list of a node written at `start` begins. */
  function ListStart(node: JsonNode, start: nat): nat
  {
    start + |node.name| + 1 + EDGE_SIZE * (|node.effects| + 1)
  }

  /** The node-info block of one node: name and NUL, edges, sentinel, offset lists. */
  function NodeInfoImage(node: JsonNode, start: nat): (r: Bytes)
    ensures |r| == ListStart(node, start) - start + OFFSET_SIZE * TotalSupports(node.effects)
  {
    (node.name + [0]) + (EdgesImage(node.effects, ListStart(node, start)) + (SENTINEL + AllOffsetsImage(node.effects)))
  }

  /** The node-info stream after close() has written the nodes in index order. */
  function InfoImage(nodes: seq<JsonNode>): Bytes
  {
    if nodes == [] then []
    else
      var prev := InfoImage(nodes[..|nodes| - 1]);
      prev + NodeInfoImage(nodes[|nodes| - 1], |prev|)
  }

  /** Where node i's info block starts in the node-info stream. */
  function InfoStart(nodes: seq<JsonNode>, i: nat): nat
    requires i <= |nodes|
  {
    |InfoImage(nodes[..i])|
  }

  /** The entry writeNodeWithInfo emits for a node whose info block starts at `start`. */
  function EntryFor(node: JsonNode, start: nat): NodeEntry
  {
    NodeEntry(start, start + |node.name| + 1)
  }

  /** The nodes stream after close(): one 16-byte entry per node, in index order. */
  function NodesImage(nodes: seq<JsonNode>): (r: Bytes)
    ensures |r| == NODE_ENTRY_SIZE * |nodes|
  {
    if nodes == [] then []
    else NodesImage(nodes[..|nodes| - 1]) + EncodeNodeEntry(EntryFor(nodes[|nodes| - 1], InfoStart(nodes, |nodes| - 1)))
  }

  /** The header writeOutfile fills in from the node count and the two staging-stream lengths. */
  function OutHeader(numNodes: nat, nodesLen: nat, infoLen: nat): Header
  {
    Header(numNodes, HEADER_SIZE, HEADER_SIZE + nodesLen, HEADER_SIZE + nodesLen + infoLen)
  }

  /** The output file: header, then the three staging streams copied one after the other. */
  function OutImage(numNodes: nat, nodesBuf: Bytes, infoBuf: Bytes, sources: Bytes): Bytes
  {
    EncodeHeader(OutHeader(numNodes, |nodesBuf|, |infoBuf|)) + (nodesBuf + (infoBuf + sources))
  }

  /** The file close() produces from the nodes and the sources stream. */
  function FileImage(nodes: seq<JsonNode>, sources: Bytes): Bytes
  {
    OutImage(|nodes|, NodesImage(nodes), InfoImage(nodes), sources)
  }

  /** Edge k of a node sits 16*k bytes into its edge array. */
  lemma {:induction false} EdgesImageAt(effs: seq<(nat, seq<nat>)>, listStart: nat, k: nat)
    requires k < |effs|
    ensures Contains(EdgesImage(effs, listStart), EDGE_SIZE * k, EncodeEdge(EdgeFor(effs, k, listStart)))
    decreases |effs|
  {
    var n := |effs| - 1;
    var pre := effs[..n];
    var last := EncodeEdge(EdgeFor(effs, n, listStart));
    ContainsWhole(EdgesImage(pre, listStart), last);
    if k < n {
      EdgesImageAt(pre, listStart, k);
      assert pre[..k] == effs[..k];
      ContainsAppend(EdgesImage(pre, listStart), EDGE_SIZE * k, EncodeEdge(EdgeFor(effs, k, listStart)), last);
    }
  }

  /** Offset j of a list sits 8*j bytes into the list's image. */
  lemma {:induction false} OffsetsImageAt(offs: seq<nat>, j: nat)
    requires j < |offs|
    ensures Contains(OffsetsImage(offs), OFFSET_SIZE * j, EncodeU64(offs[j]))
    decreases |offs|
  {
    var n := |offs| - 1;
    var pre := offs[..n];
    ContainsWhole(OffsetsImage(pre), EncodeU64(offs[n]));
    if j < n {
      OffsetsImageAt(pre, j);
      ContainsAppend(OffsetsImage(pre), OFFSET_SIZE * j, EncodeU64(offs[j]), EncodeU64(offs[n]));
    }
  }

  /** Effect k's offset list follows the lists of the effects before it. */
  lemma {:induction false} AllOffsetsImageAt(effs: seq<(nat, seq<nat>)>, k: nat)
    requires k < |effs|
    ensures Contains(AllOffsetsImage(effs), OFFSET_SIZE * TotalSupports(effs[..k]), OffsetsImage(effs[k].1))
    decreases |effs|
  {
    var n := |effs| - 1;
    var pre := effs[..n];
    ContainsWhole(AllOffsetsImage(pre), OffsetsImage(effs[n].1));
    if k < n {
      AllOffsetsImageAt(pre, k);
      assert pre[..k] == effs[..k];
      ContainsAppend(AllOffsetsImage(pre), OFFSET_SIZE * TotalSupports(effs[..k]), OffsetsImage(effs[k].1),
                     OffsetsImage(effs[n].1));
    } else {
      assert pre == effs[..k];
    }
  }

  /** Node i's info block sits at InfoStart(nodes, i) of the node-info stream. */
  lemma {:induction false} InfoImageAt(nodes: seq<JsonNode>, i: nat)
    requires i < |nodes|
    ensures Contains(InfoImage(nodes), InfoStart(nodes, i), NodeInfoImage(nodes[i], InfoStart(nodes, i)))
    decreases |nodes|
  {
    var n := |nodes| - 1;
    var pre := nodes[..n];
    var prev := InfoImage(pre);
    var tail := NodeInfoImage(nodes[n], |prev|);
    assert InfoImage(nodes) == prev + tail;
    if i < n {
      InfoImageAt(pre, i);
      assert pre[..i] == nodes[..i];
      var st := InfoStart(nodes, i);
      assert InfoStart(pre, i) == st && pre[i] == nodes[i];
      ContainsAppend(prev, st, NodeInfoImage(nodes[i], st), tail);
    } else {
      assert pre == nodes[..i];
      ContainsWhole(prev, tail);
    }
  }

  /** Node i's entry sits 16*i bytes into the nodes stream and points at its info block. */
  lemma {:induction false} NodesImageAt(nodes: seq<JsonNode>, i: nat)
    requires i < |nodes|
    ensures Contains(NodesImage(nodes), NODE_ENTRY_SIZE * i, EncodeNodeEntry(EntryFor(nodes[i], InfoStart(nodes, i))))
    decreases |nodes|
  {
    var n := |nodes| - 1;
    var pre := nodes[..n];
    var last := EncodeNodeEntry(EntryFor(nodes[n], InfoStart(nodes, n)));
    ContainsWhole(NodesImage(pre), last);
    if i < n {
      NodesImageAt(pre, i);
      assert pre[..i] == nodes[..i];
      ContainsAppend(NodesImage(pre), NODE_ENTRY_SIZE * i, EncodeNodeEntry(EntryFor(nodes[i], InfoStart(nodes, i))), last);
    }
  }

  /** The support records at `offs` in the sources stream are `sups`, in order. */
  predicate OffsetsDecode(sources: Bytes, offs: seq<nat>, sups: seq<Support>)
  {
    |offs| == |sups| &&
    forall j :: 0 <= j < |offs| ==> Contains(sources, offs[j], EncodeSupport(sups[j]))
  }

  /**
   * What the writer's state guarantees about its nodes: effects in ascending key
   * order, targets that are node indices, and the offsets of edge (i, t) pointing
   * at the supports logged for (i, t); every logged pair has its edge.
   */
  ghost predicate Consistent(nodes: seq<JsonNode>, sources: Bytes, log: map<(nat, nat), seq<Support>>)
  {
    (forall i :: 0 <= i < |nodes| ==> SortedKeys(nodes[i].effects)) &&
    (forall i, k :: 0 <= i < |nodes| && 0 <= k < |nodes[i].effects| ==>
       nodes[i].effects[k].0 < |nodes| && (i, nodes[i].effects[k].0) in log &&
       OffsetsDecode(sources, nodes[i].effects[k].1, log[(i, nodes[i].effects[k].0)])) &&
    (forall c: nat, e: nat :: (c, e) in log ==> c < |nodes| && Get(nodes[c].effects, e).Some?)
  }
}
