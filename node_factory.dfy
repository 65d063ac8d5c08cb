/** `NodeFactory.create_node` (models/node_factory.py): the variant class is chosen by the
    type tag, and any tag it does not know makes a `DefaultNode` labelled after the tag. */
module NodeFactory {
  import opened Text
  import opened Configs
  import opened Nodes

  /** The tags with a variant class of their own. */
  const KnownTags: seq<string> := ["inicio", "accion", "condicional", "multiples", "llm", "python", "smtp"]

  /** The `if`/`elif` chain of `create_node`: the variant chosen for a tag. */
  function KindOf(tag: string): (k: Kind)
    ensures k == Default <==> tag !in KnownTags
  {
    if tag == "inicio" then Inicio
    else if tag == "accion" then Accion
    else if tag == "condicional" then Condicional
    else if tag == "multiples" then Multiples
    else if tag == "llm" then Llm
    else if tag == "python" then Python
    else if tag == "smtp" then Smtp
    else Default
  }

  /** `create_node(node_type, x, y)`. The `str(uuid.uuid4())` every constructor draws is the
      parameter `id`. The node is new, has the class and the constructor fields of its tag, and
      is not connected to anything. */
  method CreateNode(tag: string, id: string, x: int, y: int) returns (n: Node)
    ensures fresh(n)
    ensures n.kind == KindOf(tag) && n.id == id && n.x == x && n.y == y
    ensures var d := DefaultsOf(KindOf(tag), tag);
      n.nodeType == d.nodeType && n.text == d.text && n.title == d.title && n.config == d.config
    ensures n.connectedFrom == null && n.connectedTo == null
    ensures n.trueConnection.None? && n.falseConnection.None?
  {
    var k := KindOf(tag);
    n := new Node(k, id, x, y, DefaultsOf(k, tag));
  }

  /** Every tag, known or not, gives a node whose `node_type` is that tag. */
  lemma CreatedTypeIsTag(tag: string)
    ensures DefaultsOf(KindOf(tag), tag).nodeType == tag
  {
  }

  /** Distinct known tags give distinct classes, and a known tag's class does not depend on
      anything but the tag. */
  lemma KnownTagsAreDistinct(a: string, b: string)
    requires a in KnownTags && b in KnownTags
    ensures KindOf(a) == KindOf(b) <==> a == b
  {
    CreatedTypeIsTag(a);
    CreatedTypeIsTag(b);
  }

  /** An unknown tag gives a `DefaultNode` with the capitalised tag and " Node" as text, an
      empty title and an empty configuration. */
  lemma UnknownTagIsDefault(tag: string)
    requires tag !in KnownTags
    ensures KindOf(tag) == Default
    ensures var d := DefaultsOf(KindOf(tag), tag);
      d.text == Capitalize(tag) + " Node" && d.title == "" && d.config == EmptyConfig
  {
  }
}
