/** The alternate node record whose links are plain machine words
    (src/cpt/nodes.rs). It differs from the record of `Nodes` only in the
    type of its ids, so its operations repeat those of `Nodes` over that
    type. */
module CptNodes {
  import opened Common
  import opened DataTypes

  /** In this record a node id is a bare arena position. */
  type NodeId = nat

  datatype Node = Node(parent: Option<NodeId>, children: seq<NodeId>, data: Option<Symbol>)

  /** `Node::new(data)`: no parent, no children, holding `data`. */
  function NewNode(d: Symbol): (n: Node)
    ensures n.parent == None
    ensures n.children == []
    ensures Get(n) == Some(d)
  {
    Node(None, [], Some(d))
  }

  /** `Node::get`: the node's data. */
  function Get(n: Node): Option<Symbol> {
    n.data
  }

  /** `Node::get_mut`: a rewrite through it changes the data and nothing
      else. */
  function SetData(n: Node, d: Option<Symbol>): (r: Node)
    ensures Get(r) == d
    ensures r.parent == n.parent && r.children == n.children
  {
    n.(data := d)
  }

  /** Rewriting the data with what `get` returns leaves the node unchanged. */
  lemma SetDataOfGet(n: Node)
    ensures SetData(n, Get(n)) == n
  {
  }
}
