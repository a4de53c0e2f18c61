/** The prediction tree itself (src/cpt.rs, `CPT`): an arena of nodes
    addressed by 1-based ids with the data-less root at id 1, the inverted
    index from symbols to the nodes holding them, and the lookup table that
    records the last node of every trained sequence. Training merges a
    sequence into the tree by find-or-create of children. */
module Tree {
  import opened Common
  import opened DataTypes
  import opened Nodes
  import opened InvertedIndex

  datatype Cpt = Cpt(index: Index, nodes: seq<Node>, lookup: seq<NodeId>)

  /** A tree together with the id an operation returned. */
  datatype Placed = Placed(tree: Cpt, id: NodeId)

  predicate InRange(t: Cpt, id: NodeId) {
    Index0(id) < |t.nodes|
  }

  /** The data of a node known to exist. */
  function DataAt(t: Cpt, id: NodeId): Option<Symbol>
    requires InRange(t, id)
  {
    t.nodes[Index0(id)].data
  }

  /** `CPT::default()`: the root alone, an empty index, no sequence. */
  function Default(): (t: Cpt)
    ensures |t.nodes| == 1 && t.lookup == []
  {
    Cpt(Empty(), [Node(None, [], None)], [])
  }

  /** `get`: the node at the id, if the arena has one there. */
  function Get(t: Cpt, id: NodeId): (r: Option<Node>)
    ensures r.Some? <==> InRange(t, id)
    ensures r.Some? ==> r.value.data == DataAt(t, id)
  {
    if Index0(id) < |t.nodes| then Some(t.nodes[Index0(id)]) else None
  }

  /** `get_data`: panics when the node does not exist. */
  function GetData(t: Cpt, id: NodeId): (r: Result<Option<Symbol>>)
    ensures r.Err? <==> !InRange(t, id)
    ensures r.Err? ==> r.error == NodeNotFound
    ensures r.Ok? ==> r.value == DataAt(t, id)
  {
    match Get(t, id)
    case None => Err(NodeNotFound)
    case Some(n) => Ok(Nodes.Get(n))
  }

  /** `update_node`: overwrites one existing node; an index out of range
      panics. */
  function UpdateNode(t: Cpt, id: NodeId, n: Node): (r: Result<Cpt>)
    ensures r.Ok? <==> InRange(t, id)
    ensures r.Err? ==> r.error == NodeNotFound
    ensures r.Ok? ==> |r.value.nodes| == |t.nodes| && Get(r.value, id) == Some(n)
    ensures r.Ok? ==> forall i :: 0 <= i < |t.nodes| && i != Index0(id) ==> r.value.nodes[i] == t.nodes[i]
    ensures r.Ok? ==> r.value.index == t.index && r.value.lookup == t.lookup
  {
    if Index0(id) < |t.nodes| then Ok(t.(nodes := t.nodes[Index0(id) := n])) else Err(NodeNotFound)
  }

  /** `new_node`: appends the node to the arena and files its id in the index
      under its data; a node without data panics. */
  function NewNode(t: Cpt, n: Node): (r: Result<Placed>)
    requires Valid(t.index)
    ensures r.Ok? <==> n.data.Some?
    ensures r.Err? ==> r.error == MissingData
    ensures r.Ok? ==> r.value.tree.nodes == t.nodes + [n] && r.value.tree.lookup == t.lookup
    ensures r.Ok? ==> Index0(r.value.id) == |t.nodes|
    ensures r.Ok? ==> Valid(r.value.tree.index)
    ensures r.Ok? ==> Bag(r.value.tree.index, n.data.value) == Bag(t.index, n.data.value) + [r.value.id]
    ensures r.Ok? ==> forall w :: w != n.data.value ==> Bag(r.value.tree.index, w) == Bag(t.index, w)
    ensures r.Ok? ==> AllIds(r.value.tree.index) == AllIds(t.index) + {r.value.id}
    ensures r.Ok? && IdsUnique(t.index) && r.value.id !in AllIds(t.index) ==> IdsUnique(r.value.tree.index)
  {
    var id := FromIndex0(|t.nodes|);
    var pushed := t.(nodes := t.nodes + [n]);
    var data := GetData(pushed, id).value;
    if data.None? then Err(MissingData)
    else Ok(Placed(pushed.(index := InsertValue(t.index, data.value, id)), id))
  }

  /** The child-scanning loop of `child_exists`, read from the last child
      back: the last child holding `d` wins. Reading a child that does not
      exist, or one without data, panics. */
  function ScanChildren(t: Cpt, cs: seq<NodeId>, d: Symbol): (r: Result<Option<NodeId>>)
    ensures r.Ok? <==> forall k :: 0 <= k < |cs| ==> InRange(t, cs[k]) && DataAt(t, cs[k]).Some?
    ensures r.Err? ==> r.error == NodeNotFound || r.error == MissingData
    ensures r.Ok? && r.value.Some? ==> exists k :: 0 <= k < |cs| && cs[k] == r.value.value && LastHolding(t, cs, d, k)
    ensures r.Ok? && r.value.None? ==> forall k :: 0 <= k < |cs| ==> DataAt(t, cs[k]) != Some(d)
  {
    if cs == [] then Ok(None)
    else
      var init := cs[..|cs| - 1];
      var c := cs[|cs| - 1];
      var prev :- ScanChildren(t, init, d);
      var data :- GetData(t, c);
      if data.None? then Err(MissingData)
      else if Compare(data.value, d) == Equal then Ok(Some(c))
      else
        assert cs == init + [c];
        ScanPassesOver(t, init, c, d, prev);
        Ok(prev)
  }

  /** A last child not holding `d` leaves the scan's answer as it was. */
  lemma ScanPassesOver(t: Cpt, init: seq<NodeId>, c: NodeId, d: Symbol, prev: Option<NodeId>)
    requires forall k :: 0 <= k < |init| ==> InRange(t, init[k])
    requires InRange(t, c) && DataAt(t, c) != Some(d)
    requires prev.Some? ==> exists k :: 0 <= k < |init| && init[k] == prev.value && LastHolding(t, init, d, k)
    requires prev.None? ==> forall k :: 0 <= k < |init| ==> DataAt(t, init[k]) != Some(d)
    ensures forall k :: 0 <= k < |init + [c]| ==> InRange(t, (init + [c])[k])
    ensures prev.Some? ==> exists k :: 0 <= k < |init + [c]| && (init + [c])[k] == prev.value && LastHolding(t, init + [c], d, k)
    ensures prev.None? ==> forall k :: 0 <= k < |init + [c]| ==> DataAt(t, (init + [c])[k]) != Some(d)
  {
    var cs := init + [c];
    assert forall k :: 0 <= k < |init| ==> cs[k] == init[k];
    if prev.Some? {
      var k :| 0 <= k < |init| && init[k] == prev.value && LastHolding(t, init, d, k);
      assert LastHolding(t, cs, d, k);
    }
  }

  /** Position `k` of `cs` holds `d` and no later position does. */
  predicate LastHolding(t: Cpt, cs: seq<NodeId>, d: Symbol, k: nat)
    requires k < |cs|
    requires forall k :: 0 <= k < |cs| ==> InRange(t, cs[k])
  {
    DataAt(t, cs[k]) == Some(d) && forall k2 :: k < k2 < |cs| ==> DataAt(t, cs[k2]) != Some(d)
  }

  /** `child_exists`: the last child of `id` holding `d`, or nothing; a node
      that does not exist has no children. */
  function ChildExists(t: Cpt, d: Symbol, id: NodeId): (r: Result<Option<NodeId>>)
    ensures !InRange(t, id) ==> r == Ok(None)
    ensures InRange(t, id) ==> r == ScanChildren(t, t.nodes[Index0(id)].children, d)
  {
    match Get(t, id)
    case None => Ok(None)
    case Some(parent) => ScanChildren(t, parent.children, d)
  }

  /** `add_child`: the existing child of `id` holding `d`, with the tree
      untouched, or else a fresh node holding `d` under `id`. The fresh node
      is linked into its parent's children only when the parent exists. */
  function AddChild(t: Cpt, d: Symbol, id: NodeId): (r: Result<Placed>)
    requires Valid(t.index)
    ensures r.Ok? <==> ChildExists(t, d, id).Ok?
    ensures r.Ok? ==> InRange(r.value.tree, r.value.id) && DataAt(r.value.tree, r.value.id) == Some(d)
    ensures r.Ok? && ChildExists(t, d, id).value.Some? ==> r.value == Placed(t, ChildExists(t, d, id).value.value)
    ensures r.Ok? && ChildExists(t, d, id).value.None? ==> Added(t, r.value, d, id)
  {
    var found :- ChildExists(t, d, id);
    match found
    case Some(m) => Ok(Placed(t, m))
    case None =>
      var p := NewNode(t, Node(Some(id), [], Some(d))).value;
      match Get(p.tree, id)
      case None => Ok(p)
      case Some(parent) =>
        var linked := UpdateNode(p.tree, id, parent.(children := parent.children + [p.id])).value;
        Ok(Placed(linked, p.id))
  }

  /** What `add_child` changes when it creates a node: one node appended,
      holding `d` under parent `id`, the parent (if it exists) gaining it as
      its last child, the index filing it under `d`, nothing else. An `id`
      one past the end of the arena names the fresh node itself, which then
      becomes its own parent and child. */
  ghost predicate Added(t: Cpt, p: Placed, d: Symbol, id: NodeId) {
    && Valid(t.index)
    && |p.tree.nodes| == |t.nodes| + 1
    && Index0(p.id) == |t.nodes|
    && p.tree.nodes[|t.nodes|] == Node(Some(id), if Index0(id) == |t.nodes| then [p.id] else [], Some(d))
    && (forall i :: 0 <= i < |t.nodes| && i != Index0(id) ==> p.tree.nodes[i] == t.nodes[i])
    && (InRange(t, id) ==>
          p.tree.nodes[Index0(id)] == t.nodes[Index0(id)].(children := t.nodes[Index0(id)].children + [p.id]))
    && p.tree.lookup == t.lookup
    && Valid(p.tree.index)
    && Bag(p.tree.index, d) == Bag(t.index, d) + [p.id]
    && (forall w :: w != d ==> Bag(p.tree.index, w) == Bag(t.index, w))
    && AllIds(p.tree.index) == AllIds(t.index) + {p.id}
    && (IdsUnique(t.index) && p.id !in AllIds(t.index) ==> IdsUnique(p.tree.index))
  }

  /** The loop of `add_sequence`: one `add_child` per item, each starting
      from the node the previous one returned. */
  function AddItems(t: Cpt, s: seq<Symbol>, cur: NodeId): (r: Result<Placed>)
    requires Valid(t.index)
    ensures r.Ok? ==> Valid(r.value.tree.index) && r.value.tree.lookup == t.lookup
    ensures r.Ok? ==> |t.nodes| <= |r.value.tree.nodes| <= |t.nodes| + |s|
    ensures r.Ok? && s == [] ==> r.value == Placed(t, cur)
    ensures r.Ok? && s != [] ==> InRange(r.value.tree, r.value.id) && DataAt(r.value.tree, r.value.id) == Some(s[|s| - 1])
    decreases |s|
  {
    if s == [] then Ok(Placed(t, cur))
    else
      var step :- AddChild(t, s[0], cur);
      var r :- AddItems(step.tree, s[1..], step.id);
      assert s[1..] != [] ==> s[1..][|s[1..]| - 1] == s[|s| - 1];
      Ok(r)
  }

  /** `add_sequence(sequence, node_id)`: trains the sequence from the given
      node and records the node reached in the lookup table. */
  function AddSequence(t: Cpt, s: seq<Symbol>, start: NodeId): (r: Result<Cpt>)
    requires Valid(t.index)
    ensures r.Ok? <==> AddItems(t, s, start).Ok?
    ensures r.Ok? ==> |r.value.lookup| == |t.lookup| + 1 && r.value.lookup[..|t.lookup|] == t.lookup
    ensures r.Ok? ==> r.value.lookup[|t.lookup|] == AddItems(t, s, start).value.id
    ensures r.Ok? && s == [] ==> r.value.nodes == t.nodes && r.value.lookup[|t.lookup|] == start
    ensures r.Ok? ==> Valid(r.value.index)
  {
    var p :- AddItems(t, s, start);
    Ok(p.tree.(lookup := p.tree.lookup + [p.id]))
  }

  /** `add_sequence_to_root`: trains the sequence from the root. */
  function AddSequenceToRoot(t: Cpt, s: seq<Symbol>): Result<Cpt>
    requires Valid(t.index)
  {
    AddSequence(t, s, Root())
  }

  /** The node reached by walking `s` down from `cur` through existing
      children only, as `child_exists` finds them; nothing when some step
      has no such child. */
  function Follow(t: Cpt, s: seq<Symbol>, cur: NodeId): Option<NodeId>
    decreases |s|
  {
    if s == [] then Some(cur)
    else
      match ChildExists(t, s[0], cur)
      case Ok(Some(c)) => Follow(t, s[1..], c)
      case _ => None
  }

  /** A path that already exists is walked without creating anything. */
  lemma {:induction false} FollowMeansNoChange(t: Cpt, s: seq<Symbol>, cur: NodeId, e: NodeId)
    requires Valid(t.index) && Follow(t, s, cur) == Some(e)
    ensures AddItems(t, s, cur) == Ok(Placed(t, e))
    decreases |s|
  {
    if s != [] {
      var c := ChildExists(t, s[0], cur).value.value;
      FollowMeansNoChange(t, s[1..], c, e);
    }
  }

  /** Reading children again after a change that kept every old node's
      data gives the same answer. */
  lemma {:induction false} ScanFrame(t: Cpt, t2: Cpt, cs: seq<NodeId>, d: Symbol)
    requires ScanChildren(t, cs, d).Ok?
    requires |t.nodes| <= |t2.nodes|
    requires forall i :: 0 <= i < |t.nodes| ==> t2.nodes[i].data == t.nodes[i].data
    ensures ScanChildren(t2, cs, d) == ScanChildren(t, cs, d)
  {
    if cs != [] {
      ScanFrame(t, t2, cs[..|cs| - 1], d);
    }
  }

  lemma {:induction false} ScanSameNodes(t: Cpt, t2: Cpt, cs: seq<NodeId>, d: Symbol)
    requires t2.nodes == t.nodes
    ensures ScanChildren(t2, cs, d) == ScanChildren(t, cs, d)
  {
    if cs != [] {
      ScanSameNodes(t, t2, cs[..|cs| - 1], d);
    }
  }

  /** Scanning a child list extended by one child. */
  lemma ScanAppend(t: Cpt, cs: seq<NodeId>, c: NodeId, d: Symbol)
    requires InRange(t, c) && DataAt(t, c).Some?
    requires ScanChildren(t, cs, d).Ok?
    ensures ScanChildren(t, cs + [c], d) ==
      if DataAt(t, c) == Some(d) then Ok(Some(c)) else ScanChildren(t, cs, d)
  {
    assert (cs + [c])[..|cs|] == cs;
  }

  /** Creating a node somewhere keeps every child that `child_exists` found
      before. */
  lemma AddChildKeepsChild(t: Cpt, d2: Symbol, n2: NodeId, d: Symbol, n: NodeId, c: NodeId)
    requires Valid(t.index) && AddChild(t, d2, n2).Ok?
    requires ChildExists(t, d, n) == Ok(Some(c))
    ensures ChildExists(AddChild(t, d2, n2).value.tree, d, n) == Ok(Some(c))
  {
    if ChildExists(t, d2, n2).value.None? {
      var t2 := AddChild(t, d2, n2).value.tree;
      var cs := t.nodes[Index0(n)].children;
      ScanFrame(t, t2, cs, d);
      if Index0(n) == Index0(n2) {
        assert n == n2;
        var created := AddChild(t, d2, n2).value.id;
        assert t2.nodes[Index0(n)].children == cs + [created];
        ScanAppend(t2, cs, created, d);
      }
    }
  }

  /** Training keeps every child that `child_exists` found before. */
  lemma {:induction false} AddItemsKeepsChild(t: Cpt, s: seq<Symbol>, cur: NodeId, d: Symbol, n: NodeId, c: NodeId)
    requires Valid(t.index) && AddItems(t, s, cur).Ok?
    requires ChildExists(t, d, n) == Ok(Some(c))
    ensures ChildExists(AddItems(t, s, cur).value.tree, d, n) == Ok(Some(c))
    decreases |s|
  {
    if s != [] {
      var step := AddChild(t, s[0], cur).value;
      AddChildKeepsChild(t, s[0], cur, d, n, c);
      AddItemsKeepsChild(step.tree, s[1..], step.id, d, n, c);
    }
  }

  /** After `add_child` under an existing node, `child_exists` finds the node
      it returned. */
  lemma AddChildIsFound(t: Cpt, d: Symbol, n: NodeId)
    requires Valid(t.index) && InRange(t, n) && AddChild(t, d, n).Ok?
    ensures ChildExists(AddChild(t, d, n).value.tree, d, n) == Ok(Some(AddChild(t, d, n).value.id))
  {
    if ChildExists(t, d, n).value.None? {
      var p := AddChild(t, d, n).value;
      var cs := t.nodes[Index0(n)].children;
      ScanFrame(t, p.tree, cs, d);
      assert p.tree.nodes[Index0(n)].children == cs + [p.id];
      ScanAppend(p.tree, cs, p.id, d);
    }
  }

  /** Training from an existing node leaves the trained path in place: walking
      it again reaches the node training returned. */
  lemma {:induction false} TrainedPathFollows(t: Cpt, s: seq<Symbol>, cur: NodeId)
    requires Valid(t.index) && InRange(t, cur) && AddItems(t, s, cur).Ok?
    ensures Follow(AddItems(t, s, cur).value.tree, s, cur) == Some(AddItems(t, s, cur).value.id)
    decreases |s|
  {
    if s != [] {
      var step := AddChild(t, s[0], cur).value;
      var p := AddItems(t, s, cur).value;
      assert p == AddItems(step.tree, s[1..], step.id).value;
      AddChildIsFound(t, s[0], cur);
      TrainedPathFollows(step.tree, s[1..], step.id);
      AddItemsKeepsChild(step.tree, s[1..], step.id, s[0], cur, step.id);
    }
  }

  /** The lookup table plays no part in walking the tree. */
  lemma {:induction false} FollowIgnoresLookup(t: Cpt, s: seq<Symbol>, cur: NodeId, lookup: seq<NodeId>)
    ensures Follow(t.(lookup := lookup), s, cur) == Follow(t, s, cur)
    decreases |s|
  {
    if s != [] {
      assert ChildExists(t.(lookup := lookup), s[0], cur) == ChildExists(t, s[0], cur) by {
        if InRange(t, cur) {
          ScanSameNodes(t, t.(lookup := lookup), t.nodes[Index0(cur)].children, s[0]);
        }
      }
      match ChildExists(t, s[0], cur)
      case Ok(Some(c)) => FollowIgnoresLookup(t, s[1..], c, lookup);
      case _ =>
    }
  }

  /** Training the same sequence again from the same existing node creates
      no node and leaves the index alone; it only records the same end node
      in the lookup table once more. */
  lemma RetrainIsIdempotent(t: Cpt, s: seq<Symbol>, start: NodeId)
    requires Valid(t.index) && InRange(t, start) && AddSequence(t, s, start).Ok?
    ensures Valid(AddSequence(t, s, start).value.index)
    ensures var t1 := AddSequence(t, s, start).value;
      AddSequence(t1, s, start) == Ok(t1.(lookup := t1.lookup + [t1.lookup[|t1.lookup| - 1]]))
  {
    var p := AddItems(t, s, start).value;
    var t1 := AddSequence(t, s, start).value;
    assert t1 == p.tree.(lookup := p.tree.lookup + [p.id]);
    TrainedPathFollows(t, s, start);
    FollowIgnoresLookup(p.tree, s, start, t1.lookup);
    FollowMeansNoChange(t1, s, start, p.id);
  }

  /** Training from a node that does not exist is not idempotent: the fresh
      node is never linked under its parent, so the next run cannot find it
      and creates another. */
  lemma RetrainFromMissingNodeGrows()
    ensures var t1 := AddSequence(Default(), [Integer(7)], NodeId(5));
      && t1.Ok? && |t1.value.nodes| == 2
      && AddSequence(t1.value, [Integer(7)], NodeId(5)).Ok?
      && |AddSequence(t1.value, [Integer(7)], NodeId(5)).value.nodes| == 3
  {
    var t1 := AddSequence(Default(), [Integer(7)], NodeId(5)).value;
    assert ChildExists(t1, Integer(7), NodeId(5)) == Ok(None);
  }
}
