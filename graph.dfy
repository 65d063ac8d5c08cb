/** The controller's graph: the arena of node records (`FlowNodes`) and the `self.nodes`
    dictionary from id to node (controllers/diagram_controller.py). The predicates here are the
    facts the editing operations keep. */
module Graphs {
  import opened Wrappers
  import opened Dicts
  import opened FlowNodes
  import opened Engine

  /** Every listed node is stored under its own id. */
  ghost predicate Keyed(heap: Arena, nodes: Dict<string, Ref>) {
    forall k :: k in nodes.entries ==> nodes.entries[k] < |heap| && heap[nodes.entries[k]].id == k
  }

  /** No node has an incoming reference: nothing in the controller ever assigns a node to
      `connected_from`; it is only ever reset to `None`. */
  ghost predicate NoIncoming(heap: Arena) {
    forall i :: 0 <= i < |heap| ==> heap[i].connectedFrom.None?
  }

  /** Only conditionals have a true or a false exit. */
  ghost predicate ExitsFitType(heap: Arena) {
    forall i :: 0 <= i < |heap| && heap[i].nodeType != "condicional" ==>
      heap[i].trueConnection.None? && heap[i].falseConnection.None?
  }

  /** The nodes an exit of `n` leads to. */
  function Exits(n: FlowNode): set<Ref> {
    (if n.connectedTo.Some? then {n.connectedTo.value} else {}) +
    (if n.trueConnection.Some? then {n.trueConnection.value} else {}) +
    (if n.falseConnection.Some? then {n.falseConnection.value} else {})
  }

  /** Every exit of every listed node leads to a listed node: nothing points at a node that
      has been removed from the dictionary. */
  ghost predicate NoDangling(heap: Arena, nodes: Dict<string, Ref>) {
    forall k :: k in nodes.entries && nodes.entries[k] < |heap| ==>
      forall r :: r in Exits(heap[nodes.entries[k]]) ==> r in nodes.entries.Values
  }

  /** What the controller keeps true at all times. */
  ghost predicate Sound(heap: Arena, nodes: Dict<string, Ref>) {
    Closed(heap) && Indexes(heap, nodes) && Keyed(heap, nodes) && NoIncoming(heap) && ExitsFitType(heap)
  }

  /** Distinct ids are distinct nodes. */
  lemma KeyedIsInjective(heap: Arena, nodes: Dict<string, Ref>, a: string, b: string)
    requires Keyed(heap, nodes) && a in nodes.entries && b in nodes.entries
    ensures nodes.entries[a] == nodes.entries[b] <==> a == b
  {
  }

  /** The node `n` with the exits that lead to `r` cleared. */
  function Unlinked(n: FlowNode, r: Ref): (m: FlowNode)
    ensures r !in Exits(m) && Exits(m) == Exits(n) - {r}
    ensures m.(connectedTo := n.connectedTo, trueConnection := n.trueConnection,
               falseConnection := n.falseConnection) == n
  {
    n.(connectedTo := if n.connectedTo == Some(r) then None else n.connectedTo,
       trueConnection := if n.trueConnection == Some(r) then None else n.trueConnection,
       falseConnection := if n.falseConnection == Some(r) then None else n.falseConnection)
  }
}
