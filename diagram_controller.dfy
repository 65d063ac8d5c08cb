/** `DiagramController` (controllers/diagram_controller.py) without its Tkinter views: the node
    dictionary and the node objects it refers to, the variable manager, and the operations that
    edit, save, load and run the flow. Canvas items (node views, connection line ids) are not
    modelled: a connection is named by its node and exit, and a clicked target by its tags. */
module Controller {
  import opened Wrappers
  import opened Text
  import opened Dicts
  import opened Values
  import opened VariableStore
  import opened Configs
  import opened Hosts
  import opened FlowNodes
  import opened Engine
  import opened Graphs
  import opened Saving
  import opened FlowRun

  /** The line of a node that was clicked for deletion: the plain exit, or a conditional's true
      or false exit. */
  datatype Exit = Out | TrueExit | FalseExit

  /** Whether some listed node has the type "inicio". */
  function HasStart(heap: Arena, nodes: Dict<string, Ref>): (b: bool)
    requires Indexes(heap, nodes)
    ensures b <==> exists k :: k in nodes.entries && heap[nodes.entries[k]].nodeType == "inicio"
  {
    StartsAmongValues(heap, nodes);
    FirstStart(heap, nodes.Values()).Some?
  }

  lemma StartsAmongValues(heap: Arena, nodes: Dict<string, Ref>)
    requires Indexes(heap, nodes)
    ensures FirstStart(heap, nodes.Values()).Some? <==>
            exists k :: k in nodes.entries && heap[nodes.entries[k]].nodeType == "inicio"
  {
    var refs := nodes.Values();
    var f := FirstStart(heap, refs);
    if f.Some? {
      var k := nodes.keys[f.value];
      assert k in nodes.entries && nodes.entries[k] == refs[f.value];
    } else {
      forall k | k in nodes.entries ensures heap[nodes.entries[k]].nodeType != "inicio" {
        var i :| 0 <= i < |nodes.keys| && nodes.keys[i] == k;
        assert refs[i] == nodes.entries[k];
      }
    }
  }

  /** At most one listed node is a start node. */
  ghost predicate OneStart(heap: Arena, nodes: Dict<string, Ref>) {
    && Indexes(heap, nodes)
    && forall a, b ::
         (a in nodes.entries && b in nodes.entries &&
          heap[nodes.entries[a]].nodeType == "inicio" && heap[nodes.entries[b]].nodeType == "inicio") ==> a == b
  }

  /** The node `handle_add_node` creates as the `count + 1`-th: at x 100, one row of 100 below
      the others, with the capitalised type and its number as text and an empty title. */
  function Placed(nodeType: string, id: string, count: nat): FlowNode {
    NewFlowNode(id, 100, count * 100, nodeType, Capitalize(nodeType) + " " + IntToString(count + 1), "")
  }

  /** `handle_delete_node`'s edge clean-up for the node at `r`: the node an incoming reference
      names loses its `connected_to`, then, for a non-conditional, the target of `connected_to`
      loses its `connected_from`. */
  function Detached(heap: Arena, r: Ref): (h: Arena)
    requires Closed(heap) && r < |heap|
    ensures |h| == |heap|
  {
    EdgesWithinEach(heap[r], |heap|);
    var n := heap[r];
    var h1 := if n.connectedFrom.Some?
              then heap[n.connectedFrom.value := heap[n.connectedFrom.value].(connectedTo := None)]
              else heap;
    if n.nodeType != "condicional" && h1[r].connectedTo.Some? then
      var t := h1[r].connectedTo.value;
      h1[t := h1[t].(connectedFrom := None)]
    else h1
  }

  /** Since no node ever has an incoming reference, the clean-up of `handle_delete_node`
      changes nothing: edges into the deleted node are left in place. */
  lemma DetachedChangesNothing(heap: Arena, r: Ref)
    requires Closed(heap) && NoIncoming(heap) && r < |heap|
    ensures Detached(heap, r) == heap
  {
    EdgesWithinEach(heap[r], |heap|);
    var n := heap[r];
    if n.nodeType != "condicional" && n.connectedTo.Some? {
      var t := n.connectedTo.value;
      assert heap[t].(connectedFrom := None) == heap[t];
    }
  }

  /** Every node with its exits into `r` cleared. */
  function UnlinkedAll(heap: Arena, r: Ref): (h: Arena)
    ensures |h| == |heap| && forall i :: 0 <= i < |heap| ==> h[i] == Unlinked(heap[i], r)
  {
    seq(|heap|, i requires 0 <= i < |heap| => Unlinked(heap[i], r))
  }

  /** The first of the clicked canvas item's tags that is a node's id. */
  function FirstNodeTag(tags: seq<string>, nodes: Dict<string, Ref>): (t: Option<string>)
    ensures t.Some? ==> t.value in nodes.entries && t.value in tags
    ensures t.Some? ==> exists i :: 0 <= i < |tags| && tags[i] == t.value &&
                          forall j :: 0 <= j < i ==> tags[j] !in nodes.entries
    ensures t.None? ==> forall i :: 0 <= i < |tags| ==> tags[i] !in nodes.entries
    decreases |tags|
  {
    if |tags| == 0 then None
    else if tags[0] in nodes.entries then Some(tags[0])
    else
      var rest := FirstNodeTag(tags[1..], nodes);
      if rest.Some? then
        assert forall j :: 1 <= j < |tags| ==> tags[j] == tags[1..][j - 1];
        rest
      else None
  }

  /** The exit of `n` a connection from it may take: a conditional's true exit when the
      branch is "true", its false exit otherwise, and `connected_to` for every other node. */
  function Attached(n: FlowNode, branch: Option<string>, t: Ref): (m: FlowNode)
    ensures n.nodeType == "condicional" && branch == Some("true") ==> m == n.(trueConnection := Some(t))
    ensures n.nodeType == "condicional" && branch != Some("true") ==> m == n.(falseConnection := Some(t))
    ensures n.nodeType != "condicional" ==> m == n.(connectedTo := Some(t))
  {
    if n.nodeType == "condicional" then
      if branch == Some("true") then n.(trueConnection := Some(t)) else n.(falseConnection := Some(t))
    else n.(connectedTo := Some(t))
  }

  /** The exit a connection would take is free: a conditional refuses only when the chosen
      branch, "true" or "false", is taken; every other node refuses when `connected_to` is set. */
  predicate ExitFree(n: FlowNode, branch: Option<string>) {
    if n.nodeType == "condicional" then
      !((n.trueConnection.Some? && branch == Some("true")) || (n.falseConnection.Some? && branch == Some("false")))
    else n.connectedTo.None?
  }

  /** A node that `handle_delete_node` may delete: selected, listed, and not the start node. */
  predicate Deletable(heap: Arena, nodes: Dict<string, Ref>, selected: Option<string>)
    requires Indexes(heap, nodes)
  {
    selected.Some? && selected.value != "" && selected.value in nodes.entries &&
    heap[nodes.entries[selected.value]].nodeType != "inicio"
  }

  /** Whether a line is drawn for `exit` of `n`, and so can be clicked for deletion: the plain
      line of a node other than a conditional, and the true and false lines of a conditional,
      each only while that exit is set. A conditional's `connected_to`, which `load_flow`
      restores, is never drawn. */
  predicate Drawn(n: FlowNode, exit: Exit) {
    match exit
    case Out => n.nodeType != "condicional" && n.connectedTo.Some?
    case TrueExit => n.nodeType == "condicional" && n.trueConnection.Some?
    case FalseExit => n.nodeType == "condicional" && n.falseConnection.Some?
  }

  /** The parameter list the controller's python configuration dialog reads from its entry:
      nothing for a blank entry, otherwise every comma-separated piece stripped, with empty
      pieces kept. */
  function ControllerParams(entry: string): (params: seq<string>)
    ensures forall k :: 0 <= k < |params| ==> IsStripped(params[k])
    ensures params == [] <==> Strip(entry) == ""
  {
    var s := Strip(entry);
    if s == "" then [] else StripAll(Split(s, ","))
  }

  class DiagramController {
    /** Every node object created so far; `Ref`s index it. */
    var heap: Arena
    /** `self.nodes`: id to node, in insertion order. */
    var nodes: Dict<string, Ref>
    /** `self.variable_manager`. */
    const variableManager: VariableManager
    /** The node ids `self.graph_manager` holds: `handle_add_node` adds each new node's id,
        and `load_flow` neither adds nor removes any. */
    var graphIds: set<string>

    ghost predicate Valid()
      reads this, variableManager
    {
      Sound(heap, nodes) && variableManager.Valid()
    }

    /** A controller with no node and no variable; reading `default_variables.json` is not part
        of this model. */
    constructor()
      ensures Valid() && fresh(variableManager)
      ensures heap == [] && nodes == Empty() && variableManager.variables == Empty() && graphIds == {}
    {
      heap := [];
      nodes := Empty();
      graphIds := {};
      variableManager := new VariableManager();
    }

    /** `handle_add_node(node_type)`, with `id` the new node's `uuid4` string. A second start
        node is refused; otherwise the new node is placed and listed under its id. */
    method AddNode(nodeType: string, id: string) returns (added: bool)
      requires Valid()
      modifies this
      ensures Valid()
      ensures added <==> !(nodeType == "inicio" && HasStart(old(heap), old(nodes)))
      ensures !added ==> heap == old(heap) && nodes == old(nodes) && graphIds == old(graphIds)
      ensures added ==> heap == old(heap) + [Placed(nodeType, id, |old(nodes.keys)|)] &&
                        nodes == old(nodes).Put(id, |old(heap)|) && graphIds == old(graphIds) + {id}
      ensures old(OneStart(heap, nodes)) ==> OneStart(heap, nodes)
    {
      if nodeType == "inicio" && HasStart(heap, nodes) {
        return false;
      }
      var node := Placed(nodeType, id, |nodes.keys|);
      AddKeepsSound(heap, nodes, node);
      heap, nodes := heap + [node], nodes.Put(id, |heap|);
      graphIds := graphIds + {id};
      added := true;
    }

    /** `handle_delete_node` with `selected` as `self.selected_node_id`, as written. The edge
        clean-up leaves edges into the node in place (see `DetachedChangesNothing`). Then
        `graph_manager.remove_node` raises for an id the graph does not hold, which is every
        node `load_flow` created; the handler catches the error before `del self.nodes[...]`,
        so such a node stays listed. Otherwise the node is unlisted. */
    method DeleteNode(selected: Option<string>) returns (deleted: bool)
      requires Valid()
      modifies this
      ensures Valid()
      ensures deleted <==> Deletable(old(heap), old(nodes), selected) && selected.value in old(graphIds)
      ensures !deleted ==> heap == old(heap) && nodes == old(nodes) && graphIds == old(graphIds)
      ensures deleted ==> nodes == old(nodes).Remove(selected.value) &&
                          graphIds == old(graphIds) - {selected.value} &&
                          heap == Detached(old(heap), old(nodes.entries[selected.value]))
    {
      if selected.None? || selected.value == "" || selected.value !in nodes.entries {
        return false;
      }
      var r := nodes.entries[selected.value];
      if heap[r].nodeType == "inicio" {
        return false;
      }
      DetachedChangesNothing(heap, r);
      if selected.value !in graphIds {
        // `remove_node` raises after the clean-up, which changed nothing
        return false;
      }
      RemoveKeepsSound(heap, nodes, selected.value);
      heap, nodes := Detached(heap, r), nodes.Remove(selected.value);
      graphIds := graphIds - {selected.value};
      deleted := true;
    }

    /** `handle_delete_node` as evidently intended: every selected, listed node other than the
        start node is deleted, whether or not the graph holds its id, and every exit that leads
        to it is cleared too, so nothing is left pointing at it. */
    method DeleteNodeFixed(selected: Option<string>) returns (deleted: bool)
      requires Valid()
      modifies this
      ensures Valid()
      ensures deleted <==> Deletable(old(heap), old(nodes), selected)
      ensures !deleted ==> heap == old(heap) && nodes == old(nodes) && graphIds == old(graphIds)
      ensures deleted ==> nodes == old(nodes).Remove(selected.value) &&
                          graphIds == old(graphIds) - {selected.value} &&
                          heap == UnlinkedAll(Detached(old(heap), old(nodes.entries[selected.value])),
                                              old(nodes.entries[selected.value]))
      ensures deleted ==> forall i :: 0 <= i < |heap| ==> old(nodes.entries[selected.value]) !in Exits(heap[i])
      ensures old(NoDangling(heap, nodes)) ==> NoDangling(heap, nodes)
    {
      if selected.None? || selected.value == "" || selected.value !in nodes.entries {
        return false;
      }
      var r := nodes.entries[selected.value];
      if heap[r].nodeType == "inicio" {
        return false;
      }
      DetachedChangesNothing(heap, r);
      var h := UnlinkAll(Detached(heap, r), r);
      UnlinkKeepsSound(heap, nodes, selected.value);
      if NoDangling(heap, nodes) {
        RemovedKeepsNoDangling(heap, nodes, selected.value);
      }
      heap, nodes := h, nodes.Remove(selected.value);
      graphIds := graphIds - {selected.value};
      deleted := true;
    }

    /** The connection branch of `handle_canvas_click`: the user started at node `startId`
        (on the exit `branch` of a conditional) and clicked an item with the given tags. The
        click connects only on an input point of a listed node other than the start node, and
        only when the exit is free; exactly that exit is then set. */
    method Connect(startId: string, branch: Option<string>, tags: seq<string>) returns (connected: bool)
      requires Valid()
      modifies this
      ensures Valid() && nodes == old(nodes) && graphIds == old(graphIds)
      ensures connected <==>
        && startId != "" && "connection_point" in tags && "input_point" in tags
        && FirstNodeTag(tags, nodes).Some? && FirstNodeTag(tags, nodes).value != ""
        && FirstNodeTag(tags, nodes).value != startId
        && startId in nodes.entries && ExitFree(old(heap)[nodes.entries[startId]], branch)
      ensures !connected ==> heap == old(heap)
      ensures connected ==>
        var s := nodes.entries[startId];
        var t := nodes.entries[FirstNodeTag(tags, nodes).value];
        t != s && heap == old(heap)[s := Attached(old(heap)[s], branch, t)]
      ensures old(NoDangling(heap, nodes)) ==> NoDangling(heap, nodes)
    {
      if startId == "" || !("connection_point" in tags && "input_point" in tags) {
        return false;
      }
      var target := FirstNodeTag(tags, nodes);
      if target.None? || target.value == "" || target.value == startId {
        return false;
      }
      if startId !in nodes.entries {
        // `self.nodes[self.connection_start_id]` raises KeyError, which the handler catches
        return false;
      }
      var s := nodes.entries[startId];
      var t := nodes.entries[target.value];
      if !ExitFree(heap[s], branch) {
        return false;
      }
      KeyedIsInjective(heap, nodes, startId, target.value);
      AttachKeepsSound(heap, nodes, s, branch, t);
      heap := heap[s := Attached(heap[s], branch, t)];
      connected := true;
    }

    /** `handle_delete_connection` for the line of `exit` of node `nodeId`, which exists only
        when `Drawn`. The plain line clears `connected_to` and the target's `connected_from`;
        the `graph_manager.remove_edge` that follows raises, since no edge is ever added to the
        graph, and the handler catches it, so nothing else changes. The true and false lines
        clear their exit. Under the controller's invariants the write to the target changes
        nothing, so exactly the chosen exit is cleared. */
    method DeleteConnection(nodeId: string, exit: Exit) returns (removed: bool)
      requires Valid()
      modifies this
      ensures Valid() && nodes == old(nodes) && graphIds == old(graphIds)
      ensures removed <==> nodeId in nodes.entries && Drawn(old(heap)[nodes.entries[nodeId]], exit)
      ensures !removed ==> heap == old(heap)
      ensures removed ==>
        var s := nodes.entries[nodeId];
        heap == old(heap)[s := match exit
                               case Out => old(heap)[s].(connectedTo := None)
                               case TrueExit => old(heap)[s].(trueConnection := None)
                               case FalseExit => old(heap)[s].(falseConnection := None)]
      ensures old(NoDangling(heap, nodes)) ==> NoDangling(heap, nodes)
    {
      if nodeId !in nodes.entries {
        return false;
      }
      var s := nodes.entries[nodeId];
      if !Drawn(heap[s], exit) {
        return false;
      }
      ClearKeepsSound(heap, nodes, s, exit);
      if exit == Out {
        var target := heap[s].connectedTo;
        EdgesWithinEach(heap[s], |heap|);
        heap := heap[s := heap[s].(connectedTo := None)];
        if target.Some? {
          heap := heap[target.value := heap[target.value].(connectedFrom := None)];
        }
      } else if exit == TrueExit {
        heap := heap[s := heap[s].(trueConnection := None)];
      } else {
        heap := heap[s := heap[s].(falseConnection := None)];
      }
      removed := true;
    }

    /** `save_flow` without the file dialog and `json.dump`: the dictionary written. */
    method SaveFlow() returns (doc: FlowDoc)
      requires Valid()
      ensures doc == FlowDoc(Some(Records(heap, nodes)), Some(VarRecords(variableManager.variables)))
    {
      var recs: seq<NodeRecord> := [];
      var i := 0;
      while i < |nodes.keys|
        invariant 0 <= i <= |nodes.keys| && |recs| == i
        invariant forall j :: 0 <= j < i ==> recs[j] == RecordOf(heap, heap[nodes.entries[nodes.keys[j]]])
      {
        var node := heap[nodes.entries[nodes.keys[i]]];
        recs := recs + [RecordOf(heap, node)];
        i := i + 1;
      }
      var vs := variableManager.GetAllVariables();
      var vars: seq<VarRecord> := [];
      var j := 0;
      while j < |vs|
        invariant 0 <= j <= |vs| && |vars| == j
        invariant forall m :: 0 <= m < j ==> vars[m] == VarRecord(vs[m].name, vs[m].varType, Some(vs[m].value))
      {
        vars := vars + [VarRecord(vs[j].name, vs[j].varType, Some(vs[j].value))];
        j := j + 1;
      }
      assert recs == Records(heap, nodes);
      assert vars == VarRecords(variableManager.variables);
      doc := FlowDoc(Some(recs), Some(vars));
    }

    /** `load_flow` after `json.load`: the dictionary is emptied, the variables are loaded when
        the file has them, every record creates a node, then every record links its node. The
        loaded graph is sound and nothing in it dangles, whatever the file holds. */
    method LoadFlow(doc: FlowDoc)
      requires Valid()
      modifies this, variableManager
      ensures Valid() && NoDangling(heap, nodes) && graphIds == old(graphIds)
      ensures heap == LoadedHeap(doc.nodes.GetOr([])) && nodes == CreatedNodes(doc.nodes.GetOr([]))
      ensures doc.variables.Some? ==> variableManager.variables == Loaded(doc.variables.value)
      ensures doc.variables.None? ==> variableManager.variables == old(variableManager.variables)
    {
      var recs := doc.nodes.GetOr([]);
      if doc.variables.Some? {
        variableManager.LoadVariables(doc.variables.value);
      }
      var h, d := CreateAll(recs);
      h := LinkAll(h, d, recs);
      LoadedIsSound(recs);
      heap, nodes := h, d;
    }

    /** `handle_execute_flow` with the walk bounded by `fuel`: the first start node in
        dictionary order, then one node after another until the successor is `None`, an
        exception escapes, or the fuel runs out. Writing the memory file is not modelled. */
    method ExecuteFlow(host: Host, fuel: nat) returns (out: Outcome)
      requires Valid()
      modifies variableManager, host
      ensures variableManager.Valid() && host.outbox == old(host.outbox)
      ensures out == Execute(heap, nodes, old(variableManager.variables), host.oracle, old(host.calls), fuel)
    {
      var refs := nodes.Values();
      var start := FindStart(heap, refs);
      if start.None? {
        return NoStart;
      }
      out := Walk(heap, Some(refs[start.value]), variableManager, host, map[], fuel);
    }
  }

  // ---------------------------------------------------------------------------
  // the loops of the operations

  /** The loop of `handle_execute_flow` that looks through the listed nodes, in order, for the
      first start node. */
  method FindStart(heap: Arena, refs: seq<Ref>) returns (k: Option<nat>)
    requires forall i :: 0 <= i < |refs| ==> refs[i] < |heap|
    ensures k == FirstStart(heap, refs)
  {
    var i := 0;
    while i < |refs| && heap[refs[i]].nodeType != "inicio"
      invariant 0 <= i <= |refs|
      invariant forall j :: 0 <= j < i ==> heap[refs[j]].nodeType != "inicio"
    {
      i := i + 1;
    }
    k := if i == |refs| then None else Some(i);
  }

  /** The `while current_node` loop of `handle_execute_flow`, bounded by `fuel`. */
  method Walk(heap: Arena, cur: Option<Ref>, vm: VariableManager, host: Host, memory: map<string, Value>, fuel: nat)
    returns (out: Outcome)
    requires Closed(heap) && vm.Valid() && (cur.Some? ==> cur.value < |heap|)
    modifies vm, host
    ensures vm.Valid() && host.outbox == old(host.outbox)
    ensures out == Run(heap, cur, StateOf(old(vm.variables), memory, old(host.calls)), host.oracle, fuel)
  {
    var node: Option<Ref>, mem: map<string, Value>, left: nat := cur, memory, fuel;
    while node.Some? && left > 0
      invariant node.Some? ==> node.value < |heap|
      invariant vm.Valid() && host.outbox == old(host.outbox)
      invariant Run(heap, node, StateOf(vm.variables, mem, host.calls), host.oracle, left) ==
                Run(heap, cur, StateOf(old(vm.variables), memory, old(host.calls)), host.oracle, fuel)
      decreases left
    {
      ghost var st := StateOf(vm.variables, mem, host.calls);
      var mem', next, crashed := RunNode(heap[node.value], vm, host, mem);
      if crashed {
        return Crashed(StateOf(vm.variables, mem', host.calls));
      }
      RunUnfolds(heap, node.value, st, host.oracle, left);
      node, mem, left := next, mem', left - 1;
    }
    if node.None? {
      out := Completed(StateOf(vm.variables, mem, host.calls));
    } else {
      out := OutOfFuel(StateOf(vm.variables, mem, host.calls), node.value);
    }
  }

  /** The first loop of `load_flow`: one fresh node per record, listed under its id. */
  method CreateAll(recs: seq<NodeRecord>) returns (h: Arena, d: Dict<string, Ref>)
    ensures h == CreatedHeap(recs) && d == CreatedNodes(recs)
  {
    h, d := [], Empty();
    var i := 0;
    while i < |recs|
      invariant 0 <= i <= |recs|
      invariant h == CreatedHeap(recs[..i]) && d == CreatedNodes(recs[..i])
    {
      CreatedGrows(recs, i);
      h := h + [Fresh(recs[i])];
      d := d.Put(recs[i].id, i);
      i := i + 1;
    }
    assert recs[..|recs|] == recs;
  }

  /** One more record creates one more node and lists its id under the next index. */
  lemma CreatedGrows(recs: seq<NodeRecord>, i: nat)
    requires i < |recs|
    ensures CreatedHeap(recs[..i + 1]) == CreatedHeap(recs[..i]) + [Fresh(recs[i])]
    ensures CreatedNodes(recs[..i + 1]) == CreatedNodes(recs[..i]).Put(recs[i].id, i)
  {
    assert recs[..i + 1][..i] == recs[..i];
  }

  /** The second loop of `load_flow`: each record links the node listed under its id. */
  method LinkAll(h: Arena, d: Dict<string, Ref>, recs: seq<NodeRecord>) returns (h': Arena)
    requires Linkable(h, d, recs)
    ensures h' == Linked(h, d, recs)
  {
    h' := h;
    var i := 0;
    while i < |recs|
      invariant 0 <= i <= |recs|
      invariant h' == Linked(h, d, recs[..i])
    {
      assert Linkable(h, d, recs[..i + 1]);
      var j := d.entries[recs[i].id];
      h' := h'[j := LinkNode(h'[j], d, recs[i])];
      i := i + 1;
      assert recs[..i][..i - 1] == recs[..i - 1];
    }
    assert recs[..|recs|] == recs;
  }

  /** The clean-up loop of the corrected `handle_delete_node`: every node loses its exits into
      `r`. */
  method UnlinkAll(h: Arena, r: Ref) returns (h': Arena)
    ensures h' == UnlinkedAll(h, r)
  {
    h' := h;
    var i := 0;
    while i < |h'|
      invariant 0 <= i <= |h'| == |h|
      invariant forall j :: 0 <= j < i ==> h'[j] == Unlinked(h[j], r)
      invariant forall j :: i <= j < |h'| ==> h'[j] == h[j]
    {
      h' := h'[i := Unlinked(h'[i], r)];
      i := i + 1;
    }
  }

  // ---------------------------------------------------------------------------
  // what the editing operations keep

  /** A new node without edges, listed under its own id, keeps the graph sound; when it is a
      start node only if there was none, at most one start node stays listed. */
  lemma AddKeepsSound(heap: Arena, nodes: Dict<string, Ref>, node: FlowNode)
    requires Sound(heap, nodes)
    requires node.connectedFrom.None? && node.connectedTo.None? && node.trueConnection.None? && node.falseConnection.None?
    ensures Sound(heap + [node], nodes.Put(node.id, |heap|))
    ensures OneStart(heap, nodes) && (node.nodeType == "inicio" ==> !HasStart(heap, nodes)) ==>
            OneStart(heap + [node], nodes.Put(node.id, |heap|))
  {
    var h := heap + [node];
    var d := nodes.Put(node.id, |heap|);
    forall i | 0 <= i < |h| ensures EdgesWithin(h[i], |h|) {
      if i < |heap| {
        assert h[i] == heap[i];
      }
    }
    forall k | k in d.entries ensures d.entries[k] < |h| && h[d.entries[k]].id == k {
      if k != node.id {
        assert h[d.entries[k]] == heap[nodes.entries[k]];
      }
    }
    forall i | 0 <= i < |h| ensures h[i].connectedFrom.None? {
      if i < |heap| {
        assert h[i] == heap[i];
      }
    }
    forall i | 0 <= i < |h| && h[i].nodeType != "condicional"
      ensures h[i].trueConnection.None? && h[i].falseConnection.None?
    {
      if i < |heap| {
        assert h[i] == heap[i];
      }
    }
    if OneStart(heap, nodes) && (node.nodeType == "inicio" ==> !HasStart(heap, nodes)) {
      forall a, b | a in d.entries && b in d.entries &&
          h[d.entries[a]].nodeType == "inicio" && h[d.entries[b]].nodeType == "inicio"
        ensures a == b
      {
        if a != node.id {
          assert h[d.entries[a]] == heap[nodes.entries[a]];
        }
        if b != node.id {
          assert h[d.entries[b]] == heap[nodes.entries[b]];
        }
      }
    }
  }

  /** Unlisting a key keeps the graph sound. */
  lemma RemoveKeepsSound(heap: Arena, nodes: Dict<string, Ref>, key: string)
    requires Sound(heap, nodes) && key in nodes.entries
    ensures Sound(heap, nodes.Remove(key))
  {
  }

  /** Clearing every exit into the node of `key` and unlisting it keeps the graph sound. */
  lemma UnlinkKeepsSound(heap: Arena, nodes: Dict<string, Ref>, key: string)
    requires Sound(heap, nodes) && key in nodes.entries
    ensures Sound(UnlinkedAll(heap, nodes.entries[key]), nodes.Remove(key))
  {
    var h := UnlinkedAll(heap, nodes.entries[key]);
    forall i | 0 <= i < |h| ensures EdgesWithin(h[i], |h|) {
      assert Edges(h[i]) <= Edges(heap[i]);
    }
  }

  /** Setting one exit of a listed node to a listed node keeps the graph sound, and keeps it
      free of dangling exits. */
  lemma AttachKeepsSound(heap: Arena, nodes: Dict<string, Ref>, s: Ref, branch: Option<string>, t: Ref)
    requires Sound(heap, nodes) && s in nodes.entries.Values && t in nodes.entries.Values
    ensures Sound(heap[s := Attached(heap[s], branch, t)], nodes)
    ensures NoDangling(heap, nodes) ==> NoDangling(heap[s := Attached(heap[s], branch, t)], nodes)
  {
    var h := heap[s := Attached(heap[s], branch, t)];
    assert Edges(h[s]) <= Edges(heap[s]) + {t};
    assert Exits(h[s]) <= Exits(heap[s]) + {t};
    forall i | 0 <= i < |h| ensures EdgesWithin(h[i], |h|) {
      if i != s {
        assert h[i] == heap[i];
      }
    }
  }

  /** Clearing one exit of a listed node keeps the graph sound and free of dangling exits; the
      plain exit's target already has no incoming reference. */
  lemma ClearKeepsSound(heap: Arena, nodes: Dict<string, Ref>, s: Ref, exit: Exit)
    requires Sound(heap, nodes) && s < |heap|
    ensures var h := heap[s := match exit
                               case Out => heap[s].(connectedTo := None)
                               case TrueExit => heap[s].(trueConnection := None)
                               case FalseExit => heap[s].(falseConnection := None)];
      && Sound(h, nodes)
      && (NoDangling(heap, nodes) ==> NoDangling(h, nodes))
      && (exit == Out && heap[s].connectedTo.Some? ==>
            heap[s].connectedTo.value < |h| && h[heap[s].connectedTo.value].(connectedFrom := None) == h[heap[s].connectedTo.value])
  {
    var h := heap[s := match exit
                        case Out => heap[s].(connectedTo := None)
                        case TrueExit => heap[s].(trueConnection := None)
                        case FalseExit => heap[s].(falseConnection := None)];
    assert Edges(h[s]) <= Edges(heap[s]);
    assert Exits(h[s]) <= Exits(heap[s]);
    forall i | 0 <= i < |h| ensures EdgesWithin(h[i], |h|) {
      if i != s {
        assert h[i] == heap[i];
      }
    }
    EdgesWithinEach(heap[s], |heap|);
  }

  /** Removing a listed key whose node no other exit leads to keeps every exit on a listed
      node. */
  lemma RemovedKeepsNoDangling(heap: Arena, nodes: Dict<string, Ref>, key: string)
    requires Sound(heap, nodes) && NoDangling(heap, nodes) && key in nodes.entries
    ensures var r := nodes.entries[key];
      NoDangling(UnlinkedAll(heap, r), nodes.Remove(key))
  {
    var r := nodes.entries[key];
    var h := UnlinkedAll(heap, r);
    var d := nodes.Remove(key);
    forall k | k in d.entries && d.entries[k] < |h|
      ensures forall e :: e in Exits(h[d.entries[k]]) ==> e in d.entries.Values
    {
      forall e | e in Exits(h[d.entries[k]]) ensures e in d.entries.Values {
        assert e in Exits(heap[nodes.entries[k]]) && e != r;
        var k' :| k' in nodes.entries && nodes.entries[k'] == e;
        assert k' != key;
        assert k' in d.entries;
      }
    }
  }

  // ---------------------------------------------------------------------------
  // the parameter list of the python configuration dialog

  /** The first character of a join is the first piece's, its last the last piece's. */
  lemma {:induction false} JoinEnds(items: seq<string>, sep: string)
    requires |items| >= 1 && forall k :: 0 <= k < |items| ==> items[k] != ""
    ensures var j := Join(items, sep); var last := items[|items| - 1];
      |j| > 0 && j[0] == items[0][0] && j[|j| - 1] == last[|last| - 1]
    decreases |items|
  {
    if |items| > 1 {
      JoinEnds(items[1..], sep);
      assert items[1..][|items| - 2] == items[|items| - 1];
    }
  }

  /** Whitespace is only in the middle of the joined entry, so it is already stripped. */
  lemma JoinedIsStripped(items: seq<string>)
    requires |items| >= 1
    requires forall k :: 0 <= k < |items| ==> items[k] != "" && IsStripped(items[k])
    ensures Join(items, ", ") != "" && Strip(Join(items, ", ")) == Join(items, ", ")
  {
    JoinEnds(items, ", ");
    StripStripped(Join(items, ", "));
  }

  /** Splitting the entry on commas gives the padded items. */
  lemma JoinedSplit(items: seq<string>)
    requires |items| >= 1
    requires forall k :: 0 <= k < |items| ==> NoOccurrence(items[k], ",")
    ensures Split(Join(items, ", "), ",") == [items[0]] + PadEach(" ", items[1..])
  {
    assert AllSpace(" ");
    SpaceHasNoComma(" ");
    assert ", " == [','] + " " && "," == [','];
    SplitJoinPadded(items, ',', " ");
  }

  /** Stripping the padded items gives the items back. */
  lemma PaddedStrips(items: seq<string>)
    requires |items| >= 1
    requires forall k :: 0 <= k < |items| ==> IsStripped(items[k])
    ensures StripAll([items[0]] + PadEach(" ", items[1..])) == items
  {
    assert AllSpace(" ");
    StripPadded(items, " ");
  }

  /** The dialog pre-fills the parameter entry with the list joined by ", "; confirming it
      unchanged gives the list back, provided every parameter is non-empty, stripped and free
      of commas. */
  lemma ControllerParamsRoundTrip(items: seq<string>)
    requires forall k :: 0 <= k < |items| ==> items[k] != "" && IsStripped(items[k])
    requires forall k :: 0 <= k < |items| ==> NoOccurrence(items[k], ",")
    ensures ControllerParams(Join(items, ", ")) == items
  {
    if |items| > 0 {
      var j := Join(items, ", ");
      assert j != "" && Strip(j) == j by { JoinedIsStripped(items); }
      assert Split(j, ",") == [items[0]] + PadEach(" ", items[1..]) by { JoinedSplit(items); }
      PaddedStrips(items);
    }
  }

  /** The comma in "a,,b" at offset 1 is the first one. */
  lemma SampleFirstComma()
    ensures IndexOf("a,,b", ",") == Some(1)
  {
    assert "a,,b"[..1] == "a" && "a,,b"[0] != ',';
    assert "a,,b"[1..] == ",,b" && ",,b"[..1] == ",";
  }

  /** "b" holds no comma. */
  lemma SampleNoComma()
    ensures IndexOf("b", ",") == None
  {
    assert "b"[..1] == "b" && "b"[0] != ',';
    assert "b"[1..] == "";
    assert IndexOf("", ",") == None;
  }

  /** ",b" split on commas. */
  lemma SampleTailSplit()
    ensures Split(",b", ",") == ["", "b"]
  {
    assert IndexOf(",b", ",") == Some(0) by { assert ",b"[..1] == ","; }
    assert ",b"[..0] == "" && ",b"[1..] == "b";
    SampleNoComma();
  }

  /** "a,,b" split on commas. */
  lemma SampleSplit()
    ensures Split("a,,b", ",") == ["a", "", "b"]
  {
    SampleFirstComma();
    assert "a,,b"[..1] == "a" && "a,,b"[2..] == ",b";
    SampleTailSplit();
  }

  /** Unlike the python node's own dialog, the controller's dialog keeps empty parameters:
      "a,,b" gives three parameters there and two in the node's dialog. */
  lemma ControllerParamsKeepEmpty()
    ensures ControllerParams("a,,b") == ["a", "", "b"]
    ensures SplitStripNonEmpty("a,,b", ",") == ["a", "b"]
  {
    SampleSplit();
    SampleStrip();
    SampleNonEmpty();
  }

  /** No piece of "a,,b" has whitespace to strip. */
  lemma SampleStrip()
    ensures Strip("a,,b") == "a,,b" && StripAll(["a", "", "b"]) == ["a", "", "b"]
  {
    StripStripped("a");
    StripStripped("b");
    assert IsStripped("a,,b");
    StripStripped("a,,b");
  }

  /** Dropping the empty piece of ["a", "", "b"]. */
  lemma SampleNonEmpty()
    ensures NonEmpty(["a", "", "b"]) == ["a", "b"]
  {
    assert ["a", "", "b"][..2] == ["a", ""];
    assert ["a", ""][..1] == ["a"];
    assert ["a"][..0] == [];
  }
}
