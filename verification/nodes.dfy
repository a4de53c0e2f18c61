/** Node handles and tree nodes (src/nodes.rs). A `NodeId` is a 1-based
    position in the node arena; id 1 is the root. */
module Nodes {
  import opened Common
  import opened DataTypes

  /** A non-zero machine word. */
  type Index1 = x: nat | x >= 1 witness 1

  datatype NodeId = NodeId(index1: Index1)

  /** The 0-based arena position of a node. */
  function Index0(id: NodeId): (r: nat)
    ensures FromIndex0(r) == id
  {
    id.index1 - 1
  }

  /** The id of the node at 0-based arena position `i`. */
  function FromIndex0(i: nat): (id: NodeId)
    ensures id.index1 == i + 1
  {
    NodeId(i + 1)
  }

  lemma Index0RoundTrip(i: nat)
    ensures Index0(FromIndex0(i)) == i
  {
  }

  /** `NodeId::new()` and `NodeId::default()`: the root. */
  function Root(): (id: NodeId)
    ensures Index0(id) == 0
  {
    NodeId(1)
  }

  /** `new_with_value`: panics for 0. */
  function NewWithValue(v: nat): (r: Result<NodeId>)
    ensures r.Err? <==> v == 0
    ensures r.Err? ==> r.error == ZeroIndex
    ensures r.Ok? ==> r.value.index1 == v && Index0(r.value) + 1 == v
  {
    if v == 0 then Err(ZeroIndex) else Ok(NodeId(v))
  }

  /** `NodeId::cmp`: the order of `index1`. */
  function CompareIds(a: NodeId, b: NodeId): (r: Ordering)
    ensures r == Equal <==> a == b
    ensures r == Less <==> a.index1 < b.index1
    ensures r == Greater <==> b.index1 < a.index1
  {
    CompareInt(a.index1, b.index1)
  }

  /** Node ids are totally ordered by `CompareIds`. */
  lemma CompareIdsTotalOrder(a: NodeId, b: NodeId, c: NodeId)
    ensures CompareIds(a, b) == Flip(CompareIds(b, a))
    ensures CompareIds(a, b) == Less && CompareIds(b, c) == Less ==> CompareIds(a, c) == Less
  {
  }

  /** A tree node: optional data, optional parent, children in insertion
      order. */
  datatype Node = Node(parent: Option<NodeId>, children: seq<NodeId>, data: Option<Symbol>)

  /** `Node::new(data)`: a detached leaf holding `data`. */
  function NewNode(d: Symbol): (n: Node)
    ensures n.parent == None && n.children == [] && Get(n) == Some(d)
  {
    Node(None, [], Some(d))
  }

  /** `Node::get`: the node's data. */
  function Get(n: Node): Option<Symbol> {
    n.data
  }

  /** `Node::get_mut`: the only part of a node it lets a caller rewrite is
      the data; parent and children stay as they are. */
  function SetData(n: Node, d: Option<Symbol>): (r: Node)
    ensures Get(r) == d
    ensures r.parent == n.parent && r.children == n.children
  {
    n.(data := d)
  }
}
