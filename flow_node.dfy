/** The node record the controller works with (models/flow_node.py). The controller keeps every
    node object it ever created in an arena, and a reference to a node is its index there; an
    edge field holds such a reference, so a node removed from the controller's dictionary can
    still be reached through an edge that points at it, as with Python object references. */
module FlowNodes {
  import opened Wrappers
  import opened Configs

  type Ref = nat

  datatype FlowNode = FlowNode(
    id: string,
    x: int,
    y: int,
    nodeType: string,
    text: string,
    title: string,
    config: Config,
    connectedFrom: Option<Ref>,
    connectedTo: Option<Ref>,
    trueConnection: Option<Ref>,
    falseConnection: Option<Ref>)

  /** `FlowNode(x, y, node_type, text, title)`, with the fresh `uuid4` string as `id`: empty
      config and no edge at all. */
  function NewFlowNode(id: string, x: int, y: int, nodeType: string, text: string, title: string): (n: FlowNode)
    ensures n.id == id && n.x == x && n.y == y && n.nodeType == nodeType && n.text == text && n.title == title
    ensures n.config == EmptyConfig
    ensures n.connectedFrom.None? && n.connectedTo.None? && n.trueConnection.None? && n.falseConnection.None?
  {
    FlowNode(id, x, y, nodeType, text, title, EmptyConfig, None, None, None, None)
  }

  /** `input_point`: the middle of the left side. */
  function InputPoint(n: FlowNode): (p: (int, int))
    ensures p.0 == n.x && p.1 == n.y + 25
  {
    (n.x, n.y + 25)
  }

  /** `output_point`: the middle of the right side, i.e. the input point shifted right by the
      node width 100. */
  function OutputPoint(n: FlowNode): (p: (int, int))
    ensures p == (InputPoint(n).0 + 100, InputPoint(n).1)
  {
    (n.x + 100, n.y + 25)
  }

  /** Every reference a node holds. */
  function Edges(n: FlowNode): set<Ref> {
    (if n.connectedFrom.Some? then {n.connectedFrom.value} else {}) +
    (if n.connectedTo.Some? then {n.connectedTo.value} else {}) +
    (if n.trueConnection.Some? then {n.trueConnection.value} else {}) +
    (if n.falseConnection.Some? then {n.falseConnection.value} else {})
  }

  /** All references in the node point into an arena of the given size. */
  predicate EdgesWithin(n: FlowNode, size: nat) {
    forall r :: r in Edges(n) ==> r < size
  }

  /** The bound on every reference, one field at a time. */
  lemma EdgesWithinEach(n: FlowNode, size: nat)
    requires EdgesWithin(n, size)
    ensures n.connectedFrom.Some? ==> n.connectedFrom.value < size
    ensures n.connectedTo.Some? ==> n.connectedTo.value < size
    ensures n.trueConnection.Some? ==> n.trueConnection.value < size
    ensures n.falseConnection.Some? ==> n.falseConnection.value < size
  {
    assert n.connectedFrom.Some? ==> n.connectedFrom.value in Edges(n);
    assert n.connectedTo.Some? ==> n.connectedTo.value in Edges(n);
    assert n.trueConnection.Some? ==> n.trueConnection.value in Edges(n);
    assert n.falseConnection.Some? ==> n.falseConnection.value in Edges(n);
  }
}
