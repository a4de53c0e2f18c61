/** The older training code kept in src/lib.rs: the same find-or-create
    merging of sequences into an arena of nodes, without an inverted index
    and without a lookup table. Its data type has only `Integer` and `None`,
    and its hand-written equality never holds for `None`, not even against
    itself, so a `None` item always creates a fresh node. */
module Legacy {
  import opened Common
  import Nodes

  /** `i32`. */
  type I32 = x: int | -0x8000_0000 <= x < 0x8000_0000

  /** `DataTypes` of src/lib.rs; `NoData` is its `None` variant. */
  datatype Value = Integer(n: I32) | NoData

  /** The hand-written `PartialEq`: two integers are equal when their
      numbers are; anything involving `None` is unequal. */
  function Equals(a: Value, b: Value): (r: bool)
    ensures r <==> a.Integer? && b.Integer? && a.n == b.n
  {
    match a
    case Integer(x) => (match b case Integer(y) => x == y case NoData => false)
    case NoData => false
  }

  /** The equality agrees with structural equality on integers, is
      symmetric, and is not reflexive: `None` differs from itself. */
  lemma EqualsIsPartial(a: Value, b: Value)
    ensures Equals(a, b) <==> a.Integer? && a == b
    ensures Equals(a, b) == Equals(b, a)
    ensures a.Integer? ==> Equals(a, a)
    ensures !Equals(NoData, NoData)
  {
  }

  datatype Node = Node(parent: Option<Nodes.NodeId>, children: seq<Nodes.NodeId>, data: Option<Value>)

  /** A node vector: its length is a `usize`. */
  type Arena = s: seq<Node> | |s| <= UsizeMax

  /** The tree: the node arena only (the `alphabet` field is never written
      after construction). */
  datatype Cpt = Cpt(nodes: Arena)

  /** A tree together with the id an operation returned. */
  datatype Placed = Placed(tree: Cpt, id: Nodes.NodeId)

  /** The largest `usize`; `len().wrapping_add(1)` wraps to 0 after it. */
  const UsizeMax: nat := 0xFFFF_FFFF_FFFF_FFFF

  predicate InRange(t: Cpt, id: Nodes.NodeId) {
    Nodes.Index0(id) < |t.nodes|
  }

  /** `CPT::default()`: a single node, the root, with no parent, no
      children and no data. */
  function Default(): (t: Cpt)
    ensures |t.nodes| == 1
    ensures t.nodes[0].parent == None && t.nodes[0].children == [] && t.nodes[0].data == None
  {
    Cpt([Node(None, [], None)])
  }

  /** `get_root_id`. */
  function RootId(): (id: Nodes.NodeId)
    ensures InRange(Default(), id)
  {
    Nodes.Root()
  }

  /** `get`: the node at the id, if the arena has one there. */
  function Get(t: Cpt, id: Nodes.NodeId): (r: Option<Node>)
    ensures r.Some? <==> InRange(t, id)
    ensures r.Some? ==> r.value == t.nodes[Nodes.Index0(id)]
  {
    if Nodes.Index0(id) < |t.nodes| then Some(t.nodes[Nodes.Index0(id)]) else None
  }

  /** `get_data`: panics when the node does not exist. */
  function GetData(t: Cpt, id: Nodes.NodeId): (r: Result<Option<Value>>)
    ensures r.Err? <==> !InRange(t, id)
    ensures r.Err? ==> r.error == NodeNotFound
    ensures r.Ok? ==> r.value == t.nodes[Nodes.Index0(id)].data
  {
    match Get(t, id)
    case None => Err(NodeNotFound)
    case Some(n) => Ok(n.data)
  }

  /** `update_node`: overwrites one node; an index out of range panics. */
  function UpdateNode(t: Cpt, id: Nodes.NodeId, n: Node): (r: Result<Cpt>)
    ensures r.Ok? <==> InRange(t, id)
    ensures r.Err? ==> r.error == NodeNotFound
    ensures r.Ok? ==> |r.value.nodes| == |t.nodes| && Get(r.value, id) == Some(n)
    ensures r.Ok? ==> forall i :: 0 <= i < |t.nodes| && i != Nodes.Index0(id) ==> r.value.nodes[i] == t.nodes[i]
  {
    if Nodes.Index0(id) < |t.nodes| then Ok(t.(nodes := t.nodes[Nodes.Index0(id) := n])) else Err(NodeNotFound)
  }

  /** `new_node`: appends the node and returns the id one past the old
      length; the id wraps to 0 and panics only when the arena already
      holds `usize::MAX` nodes. */
  function NewNode(t: Cpt, n: Node): (r: Result<Placed>)
    ensures r.Err? <==> |t.nodes| == UsizeMax
    ensures r.Err? ==> r.error == ZeroIndex
    ensures r.Ok? ==> r.value.tree.nodes == t.nodes + [n] && Nodes.Index0(r.value.id) == |t.nodes|
  {
    var next := (|t.nodes| + 1) % (UsizeMax + 1);
    var id :- Nodes.NewWithValue(next);
    Ok(Placed(Cpt(t.nodes + [n]), id))
  }

  /** The test of the loop of `child_exists`: `get_data(child) ==
      Some(new_data)`, which compares the data with `Equals`. */
  predicate Holds(t: Cpt, c: Nodes.NodeId, d: Value)
    requires InRange(t, c)
  {
    var data := t.nodes[Nodes.Index0(c)].data;
    data.Some? && Equals(data.value, d)
  }

  /** Every id of `cs` names a node of the arena. */
  predicate AllInRange(t: Cpt, cs: seq<Nodes.NodeId>) {
    forall k :: 0 <= k < |cs| ==> InRange(t, cs[k])
  }

  /** Position `k` of `cs` holds `d` and no later position does. */
  predicate LastHolding(t: Cpt, cs: seq<Nodes.NodeId>, d: Value, k: nat)
    requires k < |cs| && AllInRange(t, cs)
  {
    Holds(t, cs[k], d) && forall k2 :: k < k2 < |cs| ==> !Holds(t, cs[k2], d)
  }

  /** The loop of `child_exists`, read from the last child back: the last
      child holding `d` wins; reading a child that does not exist panics. */
  function ScanChildren(t: Cpt, cs: seq<Nodes.NodeId>, d: Value): (r: Result<Option<Nodes.NodeId>>)
    ensures r.Ok? <==> AllInRange(t, cs)
    ensures r.Err? ==> r.error == NodeNotFound
    ensures r.Ok? && r.value.Some? ==> exists k :: 0 <= k < |cs| && cs[k] == r.value.value && LastHolding(t, cs, d, k)
    ensures r.Ok? && r.value.None? ==> forall k :: 0 <= k < |cs| ==> !Holds(t, cs[k], d)
  {
    if cs == [] then Ok(None)
    else
      var init := cs[..|cs| - 1];
      var c := cs[|cs| - 1];
      var prev :- ScanChildren(t, init, d);
      var data :- GetData(t, c);
      assert cs == init + [c];
      if data.Some? && Equals(data.value, d) then
        ScanEndsHolding(t, init, c, d);
        Ok(Some(c))
      else
        ScanPassesOver(t, init, c, d, prev);
        Ok(prev)
  }

  /** A last child holding `d` is the answer of the scan. */
  lemma ScanEndsHolding(t: Cpt, init: seq<Nodes.NodeId>, c: Nodes.NodeId, d: Value)
    requires AllInRange(t, init) && InRange(t, c) && Holds(t, c, d)
    ensures AllInRange(t, init + [c])
    ensures LastHolding(t, init + [c], d, |init|)
  {
    assert forall k :: 0 <= k < |init| ==> (init + [c])[k] == init[k];
  }

  /** A last child not holding `d` leaves the scan's answer as it was. */
  lemma ScanPassesOver(t: Cpt, init: seq<Nodes.NodeId>, c: Nodes.NodeId, d: Value, prev: Option<Nodes.NodeId>)
    requires AllInRange(t, init) && InRange(t, c) && !Holds(t, c, d)
    requires prev.Some? ==> exists k :: 0 <= k < |init| && init[k] == prev.value && LastHolding(t, init, d, k)
    requires prev.None? ==> forall k :: 0 <= k < |init| ==> !Holds(t, init[k], d)
    ensures AllInRange(t, init + [c])
    ensures prev.Some? ==> exists k :: 0 <= k < |init + [c]| && (init + [c])[k] == prev.value && LastHolding(t, init + [c], d, k)
    ensures prev.None? ==> forall k :: 0 <= k < |init + [c]| ==> !Holds(t, (init + [c])[k], d)
  {
    var cs := init + [c];
    assert forall k :: 0 <= k < |init| ==> cs[k] == init[k];
    if prev.Some? {
      var k :| 0 <= k < |init| && init[k] == prev.value && LastHolding(t, init, d, k);
      assert LastHolding(t, cs, d, k);
    }
  }

  /** `child_exists`: the last child of `id` holding `d`, or nothing; a node
      that does not exist has no children. */
  function ChildExists(t: Cpt, d: Value, id: Nodes.NodeId): (r: Result<Option<Nodes.NodeId>>)
    ensures !InRange(t, id) ==> r == Ok(None)
    ensures InRange(t, id) ==> r == ScanChildren(t, t.nodes[Nodes.Index0(id)].children, d)
  {
    match Get(t, id)
    case None => Ok(None)
    case Some(parent) => ScanChildren(t, parent.children, d)
  }

  /** `None` equals nothing, so no child is ever found for it. */
  lemma NoDataIsNeverFound(t: Cpt, id: Nodes.NodeId)
    ensures ChildExists(t, NoData, id).Ok? ==> ChildExists(t, NoData, id).value == None
  {
  }

  /** `add_child`: the existing child of `id` holding `d`, with the tree
      untouched, or else a fresh node holding `d` under `id`. */
  function AddChild(t: Cpt, d: Value, id: Nodes.NodeId): (r: Result<Placed>)
    ensures r.Ok? <==> ChildExists(t, d, id).Ok? && (ChildExists(t, d, id).value.None? ==> |t.nodes| < UsizeMax)
    ensures r.Ok? && ChildExists(t, d, id).value.Some? ==> r.value == Placed(t, ChildExists(t, d, id).value.value)
    ensures r.Ok? && ChildExists(t, d, id).value.None? ==> Created(t, r.value, d, id)
  {
    var found :- ChildExists(t, d, id);
    match found
    case Some(m) => Ok(Placed(t, m))
    case None =>
      var p :- NewNode(t, Node(Some(id), [], Some(d)));
      match Get(p.tree, id)
      case None => Ok(p)
      case Some(parent) =>
        var linked := UpdateNode(p.tree, id, parent.(children := parent.children + [p.id])).value;
        Ok(Placed(linked, p.id))
  }

  /** What `add_child` changes when it creates a node: one node appended,
      holding `d` under parent `id`, and the parent (if it exists) gaining it
      as its last child; nothing else. An `id` one past the end of the arena
      names the fresh node itself, which then becomes its own child. */
  predicate Created(t: Cpt, p: Placed, d: Value, id: Nodes.NodeId) {
    && |p.tree.nodes| == |t.nodes| + 1
    && Nodes.Index0(p.id) == |t.nodes|
    && p.tree.nodes[|t.nodes|] == Node(Some(id), if Nodes.Index0(id) == |t.nodes| then [p.id] else [], Some(d))
    && (forall i :: 0 <= i < |t.nodes| && i != Nodes.Index0(id) ==> p.tree.nodes[i] == t.nodes[i])
    && (InRange(t, id) ==>
          p.tree.nodes[Nodes.Index0(id)] == t.nodes[Nodes.Index0(id)].(children := t.nodes[Nodes.Index0(id)].children + [p.id]))
  }

  /** The loop of `add_sequence`: one `add_child` per item, each starting
      from the node the previous one returned. */
  function AddItems(t: Cpt, s: seq<Value>, cur: Nodes.NodeId): (r: Result<Placed>)
    ensures r.Ok? ==> |t.nodes| <= |r.value.tree.nodes| <= |t.nodes| + |s|
    ensures r.Ok? && s == [] ==> r.value == Placed(t, cur)
    decreases |s|
  {
    if s == [] then Ok(Placed(t, cur))
    else
      var step :- AddChild(t, s[0], cur);
      AddItems(step.tree, s[1..], step.id)
  }

  /** `add_sequence(sequence, node_id)`: trains the sequence from the given
      node; this version records nothing about the node reached. */
  function AddSequence(t: Cpt, s: seq<Value>, start: Nodes.NodeId): (r: Result<Cpt>)
    ensures r.Ok? <==> AddItems(t, s, start).Ok?
    ensures r.Ok? ==> |t.nodes| <= |r.value.nodes| <= |t.nodes| + |s|
  {
    var p :- AddItems(t, s, start);
    Ok(p.tree)
  }

  /** `add_sequence_to_root`. */
  function AddSequenceToRoot(t: Cpt, s: seq<Value>): Result<Cpt> {
    AddSequence(t, s, RootId())
  }

  // ---------------------------------------------------------------------
  // Retraining
  // ---------------------------------------------------------------------

  /** The node reached by walking `s` down from `cur` through existing
      children only, as `child_exists` finds them; nothing when some step
      has no such child. */
  function Follow(t: Cpt, s: seq<Value>, cur: Nodes.NodeId): Option<Nodes.NodeId>
    decreases |s|
  {
    if s == [] then Some(cur)
    else
      match ChildExists(t, s[0], cur)
      case Ok(Some(c)) => Follow(t, s[1..], c)
      case _ => None
  }

  /** A path that already exists is walked without creating anything. */
  lemma {:induction false} FollowMeansNoChange(t: Cpt, s: seq<Value>, cur: Nodes.NodeId, e: Nodes.NodeId)
    requires Follow(t, s, cur) == Some(e)
    ensures AddItems(t, s, cur) == Ok(Placed(t, e))
    decreases |s|
  {
    if s != [] {
      var c := ChildExists(t, s[0], cur).value.value;
      FollowMeansNoChange(t, s[1..], c, e);
    }
  }

  /** Reading children again after a change that kept every old node's
      data gives the same answer. */
  lemma {:induction false} ScanFrame(t: Cpt, t2: Cpt, cs: seq<Nodes.NodeId>, d: Value)
    requires ScanChildren(t, cs, d).Ok?
    requires |t.nodes| <= |t2.nodes|
    requires forall i :: 0 <= i < |t.nodes| ==> t2.nodes[i].data == t.nodes[i].data
    ensures ScanChildren(t2, cs, d) == ScanChildren(t, cs, d)
  {
    if cs != [] {
      ScanFrame(t, t2, cs[..|cs| - 1], d);
    }
  }

  /** Scanning a child list extended by one child. */
  lemma ScanAppend(t: Cpt, cs: seq<Nodes.NodeId>, c: Nodes.NodeId, d: Value)
    requires InRange(t, c) && ScanChildren(t, cs, d).Ok?
    ensures ScanChildren(t, cs + [c], d) ==
      if Holds(t, c, d) then Ok(Some(c)) else ScanChildren(t, cs, d)
  {
    assert (cs + [c])[..|cs|] == cs;
  }

  /** Creating a node somewhere keeps every child that `child_exists` found
      before. */
  lemma AddChildKeepsChild(t: Cpt, d2: Value, n2: Nodes.NodeId, d: Value, n: Nodes.NodeId, c: Nodes.NodeId)
    requires AddChild(t, d2, n2).Ok?
    requires ChildExists(t, d, n) == Ok(Some(c))
    ensures ChildExists(AddChild(t, d2, n2).value.tree, d, n) == Ok(Some(c))
  {
    if ChildExists(t, d2, n2).value.None? {
      var p := AddChild(t, d2, n2).value;
      var cs := t.nodes[Nodes.Index0(n)].children;
      ScanFrame(t, p.tree, cs, d);
      if Nodes.Index0(n) == Nodes.Index0(n2) {
        assert p.tree.nodes[Nodes.Index0(n)].children == cs + [p.id];
        ScanAppend(p.tree, cs, p.id, d);
      }
    }
  }

  /** Training keeps every child that `child_exists` found before. */
  lemma {:induction false} AddItemsKeepsChild(t: Cpt, s: seq<Value>, cur: Nodes.NodeId, d: Value, n: Nodes.NodeId, c: Nodes.NodeId)
    requires AddItems(t, s, cur).Ok?
    requires ChildExists(t, d, n) == Ok(Some(c))
    ensures ChildExists(AddItems(t, s, cur).value.tree, d, n) == Ok(Some(c))
    decreases |s|
  {
    if s != [] {
      var step := AddChild(t, s[0], cur).value;
      AddChildKeepsChild(t, s[0], cur, d, n, c);
      AddItemsKeepsChild(step.tree, s[1..], step.id, d, n, c);
    }
  }

  /** After `add_child` of an integer under an existing node, `child_exists`
      finds the node it returned. */
  lemma AddChildIsFound(t: Cpt, d: Value, n: Nodes.NodeId)
    requires d.Integer? && InRange(t, n) && AddChild(t, d, n).Ok?
    ensures ChildExists(AddChild(t, d, n).value.tree, d, n) == Ok(Some(AddChild(t, d, n).value.id))
  {
    if ChildExists(t, d, n).value.None? {
      var p := AddChild(t, d, n).value;
      var cs := t.nodes[Nodes.Index0(n)].children;
      ScanFrame(t, p.tree, cs, d);
      assert p.tree.nodes[Nodes.Index0(n)].children == cs + [p.id];
      assert Holds(p.tree, p.id, d);
      ScanAppend(p.tree, cs, p.id, d);
    }
  }

  /** The node `add_child` returns exists afterwards. */
  lemma AddChildInRange(t: Cpt, d: Value, n: Nodes.NodeId)
    requires AddChild(t, d, n).Ok?
    ensures InRange(AddChild(t, d, n).value.tree, AddChild(t, d, n).value.id)
  {
    if ChildExists(t, d, n).value.Some? {
      var cs := t.nodes[Nodes.Index0(n)].children;
      var k :| 0 <= k < |cs| && cs[k] == ChildExists(t, d, n).value.value && LastHolding(t, cs, d, k);
    }
  }

  /** Training integers from an existing node leaves the trained path in
      place: walking it again reaches the node training returned. */
  lemma {:induction false} TrainedPathFollows(t: Cpt, s: seq<Value>, cur: Nodes.NodeId)
    requires forall i :: 0 <= i < |s| ==> s[i].Integer?
    requires InRange(t, cur) && AddItems(t, s, cur).Ok?
    ensures Follow(AddItems(t, s, cur).value.tree, s, cur) == Some(AddItems(t, s, cur).value.id)
    decreases |s|
  {
    if s != [] {
      var step := AddChild(t, s[0], cur).value;
      assert AddItems(t, s, cur) == AddItems(step.tree, s[1..], step.id);
      AddChildIsFound(t, s[0], cur);
      AddChildInRange(t, s[0], cur);
      TrainedPathFollows(step.tree, s[1..], step.id);
      AddItemsKeepsChild(step.tree, s[1..], step.id, s[0], cur, step.id);
    }
  }

  /** Training the same integer sequence again from the same existing node
      changes nothing. */
  lemma RetrainIsIdempotent(t: Cpt, s: seq<Value>, start: Nodes.NodeId)
    requires forall i :: 0 <= i < |s| ==> s[i].Integer?
    requires InRange(t, start) && AddSequence(t, s, start).Ok?
    ensures var t1 := AddSequence(t, s, start).value;
      AddSequence(t1, s, start) == Ok(t1)
  {
    var p := AddItems(t, s, start).value;
    TrainedPathFollows(t, s, start);
    FollowMeansNoChange(p.tree, s, start, p.id);
  }

  /** A `None` item is never matched, so retraining a sequence holding one
      keeps growing the tree. */
  lemma RetrainNoDataGrows()
    ensures var t1 := AddSequenceToRoot(Default(), [NoData]);
      && t1.Ok? && |t1.value.nodes| == 2
      && AddSequenceToRoot(t1.value, [NoData]).Ok?
      && |AddSequenceToRoot(t1.value, [NoData]).value.nodes| == 3
  {
    DefaultChildrenExist();
    NoDataAddsNode(Default());
    NoDataAddsNode(AddSequenceToRoot(Default(), [NoData]).value);
  }

  /** Training `[None]` from the root of a linked arena with room adds one
      node and keeps child ids existing. */
  lemma NoDataAddsNode(t: Cpt)
    requires ChildrenExist(t) && |t.nodes| >= 1 && |t.nodes| < UsizeMax
    ensures AddSequenceToRoot(t, [NoData]).Ok?
    ensures ChildrenExist(AddSequenceToRoot(t, [NoData]).value)
    ensures |AddSequenceToRoot(t, [NoData]).value.nodes| == |t.nodes| + 1
  {
    RootTrainingSucceeds(t, [NoData]);
    NoDataIsNeverFound(t, RootId());
    assert AddItems(t, [NoData], RootId()) == AddItems(AddChild(t, NoData, RootId()).value.tree, [], AddChild(t, NoData, RootId()).value.id);
  }

  // ---------------------------------------------------------------------
  // Training never panics on a linked arena
  // ---------------------------------------------------------------------

  /** Every child id of every node names a node of the arena. */
  predicate ChildrenExist(t: Cpt) {
    forall i :: 0 <= i < |t.nodes| ==> AllInRange(t, t.nodes[i].children)
  }

  /** On an arena whose child ids all exist, `add_child` under an existing
      node panics only when the arena is full, and keeps child ids
      existing. */
  lemma AddChildKeepsChildrenExist(t: Cpt, d: Value, n: Nodes.NodeId)
    requires ChildrenExist(t) && InRange(t, n) && |t.nodes| < UsizeMax
    ensures AddChild(t, d, n).Ok?
    ensures ChildrenExist(AddChild(t, d, n).value.tree)
  {
    var cs := t.nodes[Nodes.Index0(n)].children;
    assert AllInRange(t, cs);
    var p := AddChild(t, d, n).value;
    if ChildExists(t, d, n).value.None? {
      forall i | 0 <= i < |p.tree.nodes| ensures AllInRange(p.tree, p.tree.nodes[i].children) {
        if i < |t.nodes| {
          assert AllInRange(t, t.nodes[i].children);
        }
      }
    }
  }

  /** Training from an existing node of such an arena never panics while
      the arena has room, and ends on an existing node. */
  lemma {:induction false} TrainingSucceeds(t: Cpt, s: seq<Value>, cur: Nodes.NodeId)
    requires ChildrenExist(t) && InRange(t, cur) && |t.nodes| + |s| <= UsizeMax
    ensures AddItems(t, s, cur).Ok?
    ensures ChildrenExist(AddItems(t, s, cur).value.tree)
    ensures InRange(AddItems(t, s, cur).value.tree, AddItems(t, s, cur).value.id)
    decreases |s|
  {
    if s != [] {
      AddChildKeepsChildrenExist(t, s[0], cur);
      AddChildInRange(t, s[0], cur);
      var step := AddChild(t, s[0], cur).value;
      assert |step.tree.nodes| <= |t.nodes| + 1;
      TrainingSucceeds(step.tree, s[1..], step.id);
    }
  }

  /** The default tree is such an arena. */
  lemma DefaultChildrenExist()
    ensures ChildrenExist(Default()) && InRange(Default(), RootId())
  {
  }

  /** `add_sequence_to_root` on such an arena never panics while the arena
      has room for one node per symbol, and keeps child ids existing. */
  lemma RootTrainingSucceeds(t: Cpt, s: seq<Value>)
    requires ChildrenExist(t) && |t.nodes| >= 1 && |t.nodes| + |s| <= UsizeMax
    ensures AddSequenceToRoot(t, s).Ok?
    ensures ChildrenExist(AddSequenceToRoot(t, s).value)
    ensures |t.nodes| <= |AddSequenceToRoot(t, s).value.nodes| <= |t.nodes| + |s|
  {
    TrainingSucceeds(t, s, RootId());
  }
}
