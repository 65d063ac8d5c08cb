/** The dictionaries `save_flow` writes and `load_flow` reads back
    (controllers/diagram_controller.py): one record per node in dictionary order, each edge
    written as the id of the node it leads to, and the variables as name, type and value.
    Reading the file and writing it (`json`, `filedialog`) are not part of this model. */
module Saving {
  import opened Wrappers
  import opened Dicts
  import opened VariableStore
  import opened Configs
  import opened FlowNodes
  import opened Engine
  import opened Graphs

  /** One node entry of the file. `title` and `config` may be missing from a file;
      an edge is an id or `None`. */
  datatype NodeRecord = NodeRecord(
    id: string, x: int, y: int, nodeType: string, text: string,
    title: Option<string>, config: Option<Config>,
    connectedTo: Option<string>, trueConnection: Option<string>, falseConnection: Option<string>)

  /** The whole file: the "nodes" and "variables" keys, either of which may be missing. */
  datatype FlowDoc = FlowDoc(nodes: Option<seq<NodeRecord>>, variables: Option<seq<VarRecord>>)

  // ---------------------------------------------------------------------------
  // save_flow

  /** `node.connected_to.id if node.connected_to else None`, and the same for the other exits. */
  function IdOf(heap: Arena, e: Option<Ref>): (id: Option<string>)
    ensures id.Some? <==> e.Some? && e.value < |heap|
    ensures id.Some? ==> id.value == heap[e.value].id
  {
    if e.Some? && e.value < |heap| then Some(heap[e.value].id) else None
  }

  /** The record written for one node. */
  function RecordOf(heap: Arena, n: FlowNode): (rec: NodeRecord)
    requires EdgesWithin(n, |heap|)
    ensures rec.id == n.id && rec.title == Some(n.title) && rec.config == Some(n.config)
    ensures rec.x == n.x && rec.y == n.y && rec.nodeType == n.nodeType && rec.text == n.text
    ensures rec.connectedTo == IdOf(heap, n.connectedTo)
    ensures rec.trueConnection == IdOf(heap, n.trueConnection)
    ensures rec.falseConnection == IdOf(heap, n.falseConnection)
  {
    NodeRecord(n.id, n.x, n.y, n.nodeType, n.text, Some(n.title), Some(n.config),
               IdOf(heap, n.connectedTo), IdOf(heap, n.trueConnection), IdOf(heap, n.falseConnection))
  }

  /** The "nodes" list: one record per listed node, in dictionary order. */
  function Records(heap: Arena, nodes: Dict<string, Ref>): (recs: seq<NodeRecord>)
    requires Closed(heap) && Indexes(heap, nodes)
    ensures |recs| == |nodes.keys|
    ensures forall i :: 0 <= i < |recs| ==> recs[i] == RecordOf(heap, heap[nodes.entries[nodes.keys[i]]])
  {
    seq(|nodes.keys|, i requires 0 <= i < |nodes.keys| => RecordOf(heap, heap[nodes.entries[nodes.keys[i]]]))
  }

  /** The "variables" list: name, type and value of every variable, in declaration order. */
  function VarRecords(store: Store): (recs: seq<VarRecord>)
    requires WellFormed(store)
    ensures |recs| == |store.keys|
    ensures forall i :: 0 <= i < |recs| ==>
              recs[i] == VarRecord(store.keys[i], store.entries[store.keys[i]].varType,
                                   Some(store.entries[store.keys[i]].value))
  {
    seq(|store.keys|, i requires 0 <= i < |store.keys| =>
      var v := store.entries[store.keys[i]];
      VarRecord(v.name, v.varType, Some(v.value)))
  }

  // ---------------------------------------------------------------------------
  // load_flow

  /** The node a record creates: its position, type, text and id as recorded, an empty title
      and configuration when those are missing, and no edge yet. */
  function Fresh(rec: NodeRecord): (n: FlowNode)
    ensures n.id == rec.id && n.nodeType == rec.nodeType && Exits(n) == {} && n.connectedFrom.None?
    ensures n.x == rec.x && n.y == rec.y && n.text == rec.text
    ensures n.title == rec.title.GetOr("") && n.config == rec.config.GetOr(EmptyConfig)
  {
    FlowNode(rec.id, rec.x, rec.y, rec.nodeType, rec.text, rec.title.GetOr(""),
             rec.config.GetOr(EmptyConfig), None, None, None, None)
  }

  /** The first loop: every record creates a node and lists it under its id, so a later record
      with the same id replaces an earlier one. */
  function CreatedNodes(recs: seq<NodeRecord>): (d: Dict<string, Ref>)
    ensures d.Valid()
    ensures forall k :: k in d.entries ==> d.entries[k] < |recs| && recs[d.entries[k]].id == k
    ensures forall i :: 0 <= i < |recs| ==> recs[i].id in d.entries
    decreases |recs|
  {
    if |recs| == 0 then Empty()
    else
      var init := recs[..|recs| - 1];
      assert recs == init + [recs[|recs| - 1]];
      CreatedGrowsBy(CreatedNodes(init), init, recs[|recs| - 1]);
      CreatedNodes(init).Put(recs[|recs| - 1].id, |recs| - 1)
  }

  /** A later record with the same id replaces an earlier one: the id names the last record
      that carries it. */
  lemma {:induction false} CreatedLastWins(recs: seq<NodeRecord>, i: nat)
    requires i < |recs|
    ensures CreatedNodes(recs).entries[recs[i].id] >= i
    ensures forall j :: CreatedNodes(recs).entries[recs[i].id] < j < |recs| ==> recs[j].id != recs[i].id
    decreases |recs|
  {
    var n := |recs| - 1;
    var init := recs[..n];
    if recs[n].id != recs[i].id {
      assert i < |init|;
      CreatedLastWins(init, i);
    }
    CreatedStep(recs);
    LastWinsStep(recs, init, i, CreatedNodes(recs).entries, CreatedNodes(init).entries);
  }

  /** The step of `CreatedLastWins`, on the maps alone. */
  lemma LastWinsStep(recs: seq<NodeRecord>, init: seq<NodeRecord>, i: nat, m: map<string, nat>, m0: map<string, nat>)
    requires i < |recs| && init == recs[..|recs| - 1]
    requires m == m0[recs[|recs| - 1].id := |recs| - 1]
    requires recs[|recs| - 1].id != recs[i].id ==>
               i < |init| && init[i].id in m0 && m0[init[i].id] >= i &&
               forall j :: m0[init[i].id] < j < |init| ==> init[j].id != init[i].id
    ensures recs[i].id in m && m[recs[i].id] >= i
    ensures forall j :: m[recs[i].id] < j < |recs| ==> recs[j].id != recs[i].id
  {
    var n := |recs| - 1;
    if recs[n].id != recs[i].id {
      assert init[i] == recs[i];
      forall j | m[recs[i].id] < j < |recs| ensures recs[j].id != recs[i].id {
        if j < n {
          assert init[j] == recs[j];
        }
      }
    }
  }

  /** The first loop's last step lists the last record under its id. */
  lemma CreatedStep(recs: seq<NodeRecord>)
    requires |recs| > 0
    ensures CreatedNodes(recs).entries == CreatedNodes(recs[..|recs| - 1]).entries[recs[|recs| - 1].id := |recs| - 1]
  {
  }

  /** Listing one more record under its id keeps every listed id pointing at a record with
      that id, and lists every record's id. */
  lemma CreatedGrowsBy(d0: Dict<string, Ref>, init: seq<NodeRecord>, last: NodeRecord)
    requires d0.Valid()
    requires forall k :: k in d0.entries ==> d0.entries[k] < |init| && init[d0.entries[k]].id == k
    requires forall i :: 0 <= i < |init| ==> init[i].id in d0.entries
    ensures var d := d0.Put(last.id, |init|); var recs := init + [last];
      && (forall k :: k in d.entries ==> d.entries[k] < |recs| && recs[d.entries[k]].id == k)
      && (forall i :: 0 <= i < |recs| ==> recs[i].id in d.entries)
  {
  }

  /** What the first loop's dictionary is known to be: every listed id is the id of the
      record at its index. */
  ghost predicate CreatedFrom(d: Dict<string, Ref>, recs: seq<NodeRecord>) {
    d.Valid() && forall k :: k in d.entries ==> d.entries[k] < |recs| && recs[d.entries[k]].id == k
  }

  /** The nodes the first loop creates, one per record. */
  function CreatedHeap(recs: seq<NodeRecord>): (h: Arena)
    ensures |h| == |recs| && forall i :: 0 <= i < |recs| ==> h[i] == Fresh(recs[i])
  {
    seq(|recs|, i requires 0 <= i < |recs| => Fresh(recs[i]))
  }

  /** The node an edge of a record leads to: only a non-empty recorded id that is listed gives
      one. */
  function Target(nodes: Dict<string, Ref>, id: Option<string>): (t: Option<Ref>)
    ensures t.Some? <==> id.Some? && id.value != "" && id.value in nodes.entries
    ensures t.Some? ==> t.value == nodes.entries[id.value] && t.value in nodes.entries.Values
  {
    if id.Some? && id.value != "" && id.value in nodes.entries then Some(nodes.entries[id.value]) else None
  }

  /** The second loop's body for one record: `connected_to` is set when its target is found;
      the true and false exits only for a conditional. An edge whose target is not found is
      left as it was. */
  function LinkNode(n: FlowNode, nodes: Dict<string, Ref>, rec: NodeRecord): (m: FlowNode)
    ensures m == n.(connectedTo := m.connectedTo, trueConnection := m.trueConnection,
                    falseConnection := m.falseConnection)
    ensures forall r :: r in Exits(m) ==> r in Exits(n) || r in nodes.entries.Values
    ensures n.nodeType != "condicional" ==>
              m.trueConnection == n.trueConnection && m.falseConnection == n.falseConnection
  {
    var to := Target(nodes, rec.connectedTo);
    var n1 := if to.Some? then n.(connectedTo := to) else n;
    if n1.nodeType != "condicional" then n1
    else
      var t := Target(nodes, rec.trueConnection);
      var f := Target(nodes, rec.falseConnection);
      n1.(trueConnection := if t.Some? then t else n1.trueConnection,
          falseConnection := if f.Some? then f else n1.falseConnection)
  }

  /** The records that may be linked against `nodes` in `h`. */
  ghost predicate Linkable(h: Arena, nodes: Dict<string, Ref>, recs: seq<NodeRecord>) {
    forall i :: 0 <= i < |recs| ==> recs[i].id in nodes.entries && nodes.entries[recs[i].id] < |h|
  }

  /** The second loop: each record, in order, links the node now listed under its id. */
  function Linked(h: Arena, nodes: Dict<string, Ref>, recs: seq<NodeRecord>): (r: Arena)
    requires Linkable(h, nodes, recs)
    ensures |r| == |h|
    decreases |recs|
  {
    if |recs| == 0 then h
    else
      var h' := Linked(h, nodes, recs[..|recs| - 1]);
      var last := recs[|recs| - 1];
      var j := nodes.entries[last.id];
      h'[j := LinkNode(h'[j], nodes, last)]
  }

  /** The graph `load_flow` builds from a "nodes" list. */
  function LoadedHeap(recs: seq<NodeRecord>): (h: Arena)
    ensures |h| == |recs|
  {
    Linked(CreatedHeap(recs), CreatedNodes(recs), recs)
  }

  // ---------------------------------------------------------------------------
  // properties

  /** A node the linking loop can only improve: no incoming reference, exits into `nodes`,
      and no true or false exit unless it is a conditional. */
  ghost predicate Tidy(n: FlowNode, nodes: Dict<string, Ref>) {
    && n.connectedFrom.None?
    && (forall r :: r in Exits(n) ==> r in nodes.entries.Values)
    && (n.nodeType != "condicional" ==> n.trueConnection.None? && n.falseConnection.None?)
  }

  /** Linking changes exits only, and keeps every node tidy. */
  lemma {:induction false} LinkedKeepsTidy(h: Arena, nodes: Dict<string, Ref>, recs: seq<NodeRecord>)
    requires Linkable(h, nodes, recs)
    requires forall i :: 0 <= i < |h| ==> Tidy(h[i], nodes)
    ensures var r := Linked(h, nodes, recs);
      forall i :: 0 <= i < |h| ==> Tidy(r[i], nodes) && r[i].id == h[i].id
    decreases |recs|
  {
    if |recs| > 0 {
      LinkedKeepsTidy(h, nodes, recs[..|recs| - 1]);
    }
  }

  /** Whatever the file holds, the loaded graph is sound and nothing in it dangles. */
  lemma {:induction false} LoadedIsSound(recs: seq<NodeRecord>)
    ensures Sound(LoadedHeap(recs), CreatedNodes(recs))
    ensures NoDangling(LoadedHeap(recs), CreatedNodes(recs))
  {
    var d := CreatedNodes(recs);
    var h := CreatedHeap(recs);
    LinkedKeepsTidy(h, d, recs);
    TidyIsSound(LoadedHeap(recs), d);
  }

  /** An arena of tidy nodes, each listed one stored under its id, is sound and nothing in it
      dangles. */
  lemma {:induction false} TidyIsSound(h: Arena, d: Dict<string, Ref>)
    requires d.Valid() && forall k :: k in d.entries ==> d.entries[k] < |h| && h[d.entries[k]].id == k
    requires forall i :: 0 <= i < |h| ==> Tidy(h[i], d)
    ensures Sound(h, d) && NoDangling(h, d)
  {
    forall i | 0 <= i < |h| ensures EdgesWithin(h[i], |h|) {
      assert Tidy(h[i], d);
      forall e | e in Edges(h[i]) ensures e < |h| {
        assert e in Exits(h[i]);
      }
    }
  }

  /** `a` in `h1` and `b` in `h2` are the same node up to where the nodes live: same fields,
      and each edge leads to a node with the same id. */
  ghost predicate Like(h1: Arena, a: FlowNode, h2: Arena, b: FlowNode) {
    && EdgesWithin(a, |h1|) && EdgesWithin(b, |h2|)
    && a.(connectedFrom := None, connectedTo := None, trueConnection := None, falseConnection := None)
       == b.(connectedFrom := None, connectedTo := None, trueConnection := None, falseConnection := None)
    && IdOf(h1, a.connectedFrom) == IdOf(h2, b.connectedFrom)
    && IdOf(h1, a.connectedTo) == IdOf(h2, b.connectedTo)
    && IdOf(h1, a.trueConnection) == IdOf(h2, b.trueConnection)
    && IdOf(h1, a.falseConnection) == IdOf(h2, b.falseConnection)
  }

  /** Records with distinct ids are created in order, each under its own index. */
  lemma {:induction false} CreatedDistinct(recs: seq<NodeRecord>)
    requires forall i, j :: 0 <= i < j < |recs| ==> recs[i].id != recs[j].id
    ensures |CreatedNodes(recs).keys| == |recs|
    ensures forall i :: 0 <= i < |recs| ==>
              CreatedNodes(recs).keys[i] == recs[i].id && CreatedNodes(recs).entries[recs[i].id] == i
    decreases |recs|
  {
    if |recs| > 0 {
      var init := recs[..|recs| - 1];
      CreatedDistinct(init);
      var last := recs[|recs| - 1];
      forall k | k in CreatedNodes(init).entries ensures k != last.id {
        assert init[CreatedNodes(init).entries[k]] == recs[CreatedNodes(init).entries[k]];
      }
    }
  }

  /** With one record per node, linking touches each node once, with its own record. */
  lemma {:induction false} LinkedDistinct(h: Arena, nodes: Dict<string, Ref>, recs: seq<NodeRecord>)
    requires |recs| <= |h|
    requires forall i :: 0 <= i < |recs| ==> recs[i].id in nodes.entries && nodes.entries[recs[i].id] == i
    ensures Linkable(h, nodes, recs)
    ensures forall i :: 0 <= i < |recs| ==> Linked(h, nodes, recs)[i] == LinkNode(h[i], nodes, recs[i])
    ensures forall i :: |recs| <= i < |h| ==> Linked(h, nodes, recs)[i] == h[i]
    decreases |recs|
  {
    if |recs| > 0 {
      var init := recs[..|recs| - 1];
      assert forall i :: 0 <= i < |init| ==> init[i] == recs[i];
      LinkedDistinct(h, nodes, init);
    }
  }

  /** `d` lists the records' ids in order, each under its own index. */
  ghost predicate InOrder(d: Dict<string, Ref>, recs: seq<NodeRecord>) {
    |d.keys| == |recs| &&
    forall i :: 0 <= i < |recs| ==> d.keys[i] == recs[i].id && recs[i].id in d.entries && d.entries[recs[i].id] == i
  }

  /** `h` holds one node per record, linked with that record. */
  ghost predicate LoadedAs(h: Arena, d: Dict<string, Ref>, recs: seq<NodeRecord>) {
    |h| == |recs| && forall j :: 0 <= j < |recs| ==> h[j] == LinkNode(Fresh(recs[j]), d, recs[j])
  }

  /** A loaded node carries its record's id. */
  lemma LoadedKeepsIds(h: Arena, d: Dict<string, Ref>, recs: seq<NodeRecord>)
    requires LoadedAs(h, d, recs)
    ensures forall j :: 0 <= j < |recs| ==> h[j].id == recs[j].id
  {
    forall j | 0 <= j < |recs| ensures h[j].id == recs[j].id {
      assert h[j] == LinkNode(Fresh(recs[j]), d, recs[j]);
    }
  }

  /** Records with distinct ids load to one node per record, in order. */
  lemma {:induction false} LoadDistinct(recs: seq<NodeRecord>)
    requires forall i, j :: 0 <= i < j < |recs| ==> recs[i].id != recs[j].id
    ensures InOrder(CreatedNodes(recs), recs)
    ensures LoadedAs(LoadedHeap(recs), CreatedNodes(recs), recs)
  {
    CreatedDistinct(recs);
    LinkedDistinct(CreatedHeap(recs), CreatedNodes(recs), recs);
  }

  /** Saving and loading again gives the same graph: the same ids in the same order, and each
      node with the same fields and edges to the nodes of the same ids. This needs a graph in
      which nothing dangles and no id is empty (`load_flow` skips a falsy id). */
  lemma {:induction false} SaveLoadRoundTrip(heap: Arena, nodes: Dict<string, Ref>)
    requires Sound(heap, nodes) && NoDangling(heap, nodes) && "" !in nodes.entries
    ensures var recs := Records(heap, nodes);
      && CreatedNodes(recs).keys == nodes.keys
      && forall k :: k in nodes.entries ==>
           k in CreatedNodes(recs).entries &&
           Like(heap, heap[nodes.entries[k]], LoadedHeap(recs), LoadedHeap(recs)[CreatedNodes(recs).entries[k]])
  {
    SavedLoadInOrder(heap, nodes);
    var recs := Records(heap, nodes);
    NodesRoundTrip(heap, nodes, recs, CreatedNodes(recs), LoadedHeap(recs));
  }

  /** The saved records load to one node per listed node, under the same keys in the same
      order. */
  lemma {:induction false} SavedLoadInOrder(heap: Arena, nodes: Dict<string, Ref>)
    requires Sound(heap, nodes)
    ensures var recs := Records(heap, nodes);
      && CreatedNodes(recs).keys == nodes.keys && InOrder(CreatedNodes(recs), recs)
      && LoadedAs(LoadedHeap(recs), CreatedNodes(recs), recs) && Closed(LoadedHeap(recs))
  {
    var recs := Records(heap, nodes);
    var d := CreatedNodes(recs);
    RecordsDistinct(heap, nodes);
    LoadDistinct(recs);
    LoadedIsSound(recs);
    forall i | 0 <= i < |recs| ensures d.keys[i] == nodes.keys[i] {
      assert recs[i].id == nodes.keys[i];
    }
  }

  /** Every listed node is loaded as a node like it. */
  lemma {:induction false} NodesRoundTrip(heap: Arena, nodes: Dict<string, Ref>, recs: seq<NodeRecord>,
                                          d: Dict<string, Ref>, h': Arena)
    requires Sound(heap, nodes) && NoDangling(heap, nodes) && "" !in nodes.entries
    requires recs == Records(heap, nodes) && CreatedFrom(d, recs) && d.keys == nodes.keys
    requires InOrder(d, recs) && LoadedAs(h', d, recs) && Closed(h')
    ensures forall k :: k in nodes.entries ==>
              k in d.entries && Like(heap, heap[nodes.entries[k]], h', h'[d.entries[k]])
  {
    forall k | k in nodes.entries
      ensures k in d.entries && Like(heap, heap[nodes.entries[k]], h', h'[d.entries[k]])
    {
      var i :| 0 <= i < |nodes.keys| && nodes.keys[i] == k;
      assert d.keys[i] == k;
      NodeRoundTrip(heap, nodes, recs, d, h', i);
    }
  }

  /** The saved records carry the dictionary's keys, which are distinct. */
  lemma {:induction false} RecordsDistinct(heap: Arena, nodes: Dict<string, Ref>)
    requires Sound(heap, nodes)
    ensures var recs := Records(heap, nodes);
      forall i :: 0 <= i < |recs| ==> recs[i].id == nodes.keys[i]
    ensures var recs := Records(heap, nodes);
      forall i, j :: 0 <= i < j < |recs| ==> recs[i].id != recs[j].id
  {
    var recs := Records(heap, nodes);
    forall i | 0 <= i < |recs| ensures recs[i].id == nodes.keys[i] {
      assert nodes.keys[i] in nodes.entries;
    }
  }

  /** The node saved as the `i`-th record is loaded as a node like it. */
  lemma {:induction false} NodeRoundTrip(heap: Arena, nodes: Dict<string, Ref>, recs: seq<NodeRecord>,
                                         d: Dict<string, Ref>, h': Arena, i: nat)
    requires Sound(heap, nodes) && NoDangling(heap, nodes) && "" !in nodes.entries
    requires recs == Records(heap, nodes) && CreatedFrom(d, recs) && d.keys == nodes.keys
    requires InOrder(d, recs) && LoadedAs(h', d, recs) && Closed(h') && i < |recs|
    ensures Like(heap, heap[nodes.entries[nodes.keys[i]]], h', h'[i])
  {
    var k := nodes.keys[i];
    assert k in nodes.entries;
    var a := heap[nodes.entries[k]];
    assert EdgesWithin(a, |heap|);
    assert recs[i] == RecordOf(heap, a);
    assert h'[i] == LinkNode(Fresh(recs[i]), d, recs[i]);
    assert EdgesWithin(h'[i], |h'|);
    assert forall r :: r in Exits(a) ==> r in nodes.entries.Values;
    LoadedKeepsIds(h', d, recs);
    LinkedIsLike(heap, nodes, a, d, h', recs, h'[i]);
  }

  /** A saved node, created and linked from its record, is like the original. */
  lemma LinkedIsLike(heap: Arena, nodes: Dict<string, Ref>, a: FlowNode, d: Dict<string, Ref>,
                     h': Arena, recs: seq<NodeRecord>, b: FlowNode)
    requires Indexes(heap, nodes) && Keyed(heap, nodes) && "" !in nodes.entries
    requires CreatedFrom(d, recs) && |h'| == |recs| && d.keys == nodes.keys
    requires forall j :: 0 <= j < |recs| ==> h'[j].id == recs[j].id
    requires EdgesWithin(a, |heap|) && EdgesWithin(b, |h'|)
    requires a.connectedFrom.None?
    requires a.nodeType != "condicional" ==> a.trueConnection.None? && a.falseConnection.None?
    requires forall r :: r in Exits(a) ==> r in nodes.entries.Values
    requires b == LinkNode(Fresh(RecordOf(heap, a)), d, RecordOf(heap, a))
    ensures Like(heap, a, h', b)
  {
    var rec := RecordOf(heap, a);
    var n := Fresh(rec);
    assert n.connectedFrom == None && b.connectedFrom == None;
    assert n.trueConnection == None && n.falseConnection == None;
    assert a.(connectedFrom := None, connectedTo := None, trueConnection := None, falseConnection := None)
        == b.(connectedFrom := None, connectedTo := None, trueConnection := None, falseConnection := None);
    assert IdOf(heap, a.connectedFrom) == IdOf(h', b.connectedFrom);
    ExitRoundTrip(heap, nodes, a.connectedTo, d, h', recs);
    assert IdOf(heap, a.connectedTo) == IdOf(h', b.connectedTo);
    if a.nodeType == "condicional" {
      ExitRoundTrip(heap, nodes, a.trueConnection, d, h', recs);
      ExitRoundTrip(heap, nodes, a.falseConnection, d, h', recs);
    }
  }


  /** One saved edge is found again on loading, and leads to the node with the same id. */
  lemma {:induction false} ExitRoundTrip(heap: Arena, nodes: Dict<string, Ref>, e: Option<Ref>, d: Dict<string, Ref>,
                      h': Arena, recs: seq<NodeRecord>)
    requires Indexes(heap, nodes) && Keyed(heap, nodes) && "" !in nodes.entries
    requires e.Some? ==> e.value in nodes.entries.Values
    requires CreatedFrom(d, recs) && |h'| == |recs| && d.keys == nodes.keys
    requires forall i :: 0 <= i < |recs| ==> h'[i].id == recs[i].id
    ensures var t := Target(d, IdOf(heap, e));
      (t.Some? <==> e.Some?) && (t.Some? ==> IdOf(h', t) == IdOf(heap, e))
  {
    if e.Some? {
      var k :| k in nodes.entries && nodes.entries[k] == e.value;
      assert IdOf(heap, e) == Some(k);
      assert k in d.entries by { assert k in nodes.keys; }
      var r := d.entries[k];
      assert Target(d, Some(k)) == Some(r);
      assert r < |recs| && h'[r].id == k;
    } else {
      assert IdOf(heap, e) == None;
    }
  }

  /** `load_variables` of the saved "variables" list gives back the store. */
  lemma {:induction false} SavedVariablesRoundTrip(store: Store)
    requires WellFormed(store)
    ensures Loaded(VarRecords(store)) == store
  {
    var recs := VarRecords(store);
    LoadedPrefix(store, |recs|);
    assert recs[..|recs|] == recs;
    PrefixAll(store);
  }

  /** Cutting nothing away gives the store back. */
  lemma PrefixAll(store: Store)
    requires WellFormed(store)
    ensures Prefix(store, |store.keys|) == store
  {
    assert store.keys[..|store.keys|] == store.keys;
    assert (map k | k in store.keys :: store.entries[k]) == store.entries;
  }

  /** The store cut down to its first `i` names. */
  ghost function Prefix(store: Store, i: nat): (d: Store)
    requires WellFormed(store) && i <= |store.keys|
    ensures d.Valid()
  {
    Dict(store.keys[..i], map k | k in store.keys[..i] :: store.entries[k])
  }

  /** Cutting one name later adds that name last. */
  lemma {:induction false} PrefixGrows(store: Store, i: nat)
    requires WellFormed(store) && 0 < i <= |store.keys|
    ensures Prefix(store, i) == Prefix(store, i - 1).Put(store.keys[i - 1], store.entries[store.keys[i - 1]])
  {
    var k := store.keys[i - 1];
    assert k !in store.keys[..i - 1];
    assert store.keys[..i] == store.keys[..i - 1] + [k];
  }

  /** The first `i` saved variables load to the store cut down to its first `i` names. */
  lemma {:induction false} LoadedPrefix(store: Store, i: nat)
    requires WellFormed(store) && i <= |store.keys|
    ensures Loaded(VarRecords(store)[..i]) == Prefix(store, i)
  {
    var recs := VarRecords(store);
    if i > 0 {
      LoadedPrefix(store, i - 1);
      assert recs[..i][..i - 1] == recs[..i - 1];
      PrefixGrows(store, i);
      var v := store.entries[store.keys[i - 1]];
      assert Variable(v.name, v.varType, v.value) == v;
    }
  }
}
