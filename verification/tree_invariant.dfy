/** The structural invariant of the prediction tree and its preservation by
    training (src/cpt.rs, `new_node`, `add_child`, `add_sequence`): parent
    and child links agree, ids grow away from the root, no two siblings
    hold equal data, and the inverted index files every non-root node under
    its data and nothing else. */
module TreeInvariant {
  import opened Common
  import opened DataTypes
  import opened Nodes
  import opened InvertedIndex
  import opened Tree

  /** Node `i` is not the root: it holds data and hangs below an earlier node
      that lists it among its children. */
  predicate LinkedToParent(t: Cpt, i: nat)
    requires i < |t.nodes|
  {
    var n := t.nodes[i];
    && n.data.Some?
    && n.parent.Some?
    && Index0(n.parent.value) < i
    && FromIndex0(i) in t.nodes[Index0(n.parent.value)].children
  }

  /** Every child of node `i` comes later in the arena and points back to
      `i` as its parent. */
  predicate ChildrenLinked(t: Cpt, i: nat)
    requires i < |t.nodes|
  {
    var cs := t.nodes[i].children;
    forall k :: 0 <= k < |cs| ==>
      i < Index0(cs[k]) < |t.nodes| && t.nodes[Index0(cs[k])].parent == Some(FromIndex0(i))
  }

  /** No two children of node `i` hold equal data. */
  predicate SiblingsDistinct(t: Cpt, i: nat)
    requires i < |t.nodes| && ChildrenLinked(t, i)
  {
    var cs := t.nodes[i].children;
    forall k1, k2 :: 0 <= k1 < k2 < |cs| ==> DataAt(t, cs[k1]) != DataAt(t, cs[k2])
  }

  /** `id` names a non-root node holding `w`. */
  predicate Filed(t: Cpt, id: NodeId, w: Symbol) {
    1 <= Index0(id) < |t.nodes| && t.nodes[Index0(id)].data == Some(w)
  }

  /** The invariant: a linked shape and an index that agrees with it. */
  ghost predicate WellFormed(t: Cpt) {
    Shaped(t) && Indexed(t)
  }

  /** The arena part of the invariant: a data-less root at position 0,
      parent and child links that agree, distinct siblings, and a lookup
      table of existing nodes. */
  ghost predicate Shaped(t: Cpt) {
    && |t.nodes| >= 1
    && t.nodes[0].parent == None && t.nodes[0].data == None
    && (forall i :: 1 <= i < |t.nodes| ==> LinkedToParent(t, i))
    && (forall i :: 0 <= i < |t.nodes| ==> ChildrenLinked(t, i) && SiblingsDistinct(t, i))
    && (forall k :: 0 <= k < |t.lookup| ==> InRange(t, t.lookup[k]))
  }

  /** The index part of the invariant: the bags of the index hold exactly
      the non-root nodes, each under its own data. */
  ghost predicate Indexed(t: Cpt) {
    && Valid(t.index) && IdsUnique(t.index)
    && (forall w, id :: id in Bag(t.index, w) ==> Filed(t, id, w))
    && (forall i :: 1 <= i < |t.nodes| ==> t.nodes[i].data.Some? && FromIndex0(i) in Bag(t.index, t.nodes[i].data.value))
  }

  /** The empty tree satisfies the invariant. */
  lemma DefaultIsWellFormed()
    ensures WellFormed(Default())
  {
  }

  /** Every id the index holds sits in the bag of some value. */
  lemma InSomeBag(ix: Index, id: NodeId)
    requires Valid(ix) && id in AllIds(ix)
    ensures exists w :: id in Bag(ix, w)
  {
    var i, j :| 0 <= i < |ix.nodeIds| && 0 <= j < |ix.nodeIds[i]| && ix.nodeIds[i][j] == id;
    assert Bag(ix, ix.values[i]) == ix.nodeIds[i];
    assert id in Bag(ix, ix.values[i]);
  }

  /** On a well-formed tree `child_exists` never panics. */
  lemma ChildExistsSucceeds(t: Cpt, d: Symbol, n: NodeId)
    requires WellFormed(t)
    ensures ChildExists(t, d, n).Ok?
  {
    if InRange(t, n) {
      var i := Index0(n);
      var cs := t.nodes[i].children;
      assert ChildrenLinked(t, i);
      forall k | 0 <= k < |cs| ensures InRange(t, cs[k]) && DataAt(t, cs[k]).Some? {
        assert LinkedToParent(t, Index0(cs[k]));
      }
    }
  }

  /** The facts a fresh child brings, shared by the lemmas below. */
  ghost predicate Fresh(t: Cpt, p: Placed, d: Symbol, n: NodeId) {
    Grown(t, p, d, n) && Indexed(t)
  }

  /** The part of `Fresh` the arena lemmas need. */
  ghost predicate Grown(t: Cpt, p: Placed, d: Symbol, n: NodeId) {
    && Shaped(t)
    && InRange(t, n)
    && ChildExists(t, d, n) == Ok(None)
    && Added(t, p, d, n)
  }

  lemma FreshNodes(t: Cpt, p: Placed, d: Symbol, n: NodeId)
    requires InRange(t, n) && Added(t, p, d, n)
    ensures forall i :: 0 <= i < |t.nodes| ==>
      p.tree.nodes[i].data == t.nodes[i].data && p.tree.nodes[i].parent == t.nodes[i].parent
    ensures forall i :: 0 <= i < |t.nodes| && i != Index0(n) ==> p.tree.nodes[i].children == t.nodes[i].children
    ensures p.tree.nodes[Index0(n)].children == t.nodes[Index0(n)].children + [p.id]
    ensures p.tree.nodes[|t.nodes|] == Node(Some(n), [], Some(d))
    ensures p.id == FromIndex0(|t.nodes|)
  {
  }

  lemma FreshLinksParents(t: Cpt, p: Placed, d: Symbol, n: NodeId)
    requires Grown(t, p, d, n)
    ensures forall i :: 1 <= i < |p.tree.nodes| ==> LinkedToParent(p.tree, i)
  {
    FreshNodes(t, p, d, n);
    var t2 := p.tree;
    forall i | 1 <= i < |t2.nodes| ensures LinkedToParent(t2, i) {
      if i < |t.nodes| {
        assert LinkedToParent(t, i);
        var q := Index0(t.nodes[i].parent.value);
        assert FromIndex0(i) in t2.nodes[q].children by {
          if q == Index0(n) {
            assert t2.nodes[q].children == t.nodes[q].children + [p.id];
          }
        }
      } else {
        assert i == |t.nodes|;
      }
    }
  }

  lemma FreshLinksChildren(t: Cpt, p: Placed, d: Symbol, n: NodeId)
    requires Grown(t, p, d, n)
    ensures forall i :: 0 <= i < |p.tree.nodes| ==> ChildrenLinked(p.tree, i) && SiblingsDistinct(p.tree, i)
  {
    FreshNodes(t, p, d, n);
    forall i | 0 <= i < |p.tree.nodes| ensures ChildrenLinked(p.tree, i) && SiblingsDistinct(p.tree, i) {
      if i == Index0(n) {
        FreshLinksParentChildren(t, p, d, n);
      } else if i < |t.nodes| {
        FreshKeepsOtherChildren(t, p, d, n, i);
      }
    }
  }

  /** The parent of the fresh node keeps its links and its distinct data. */
  lemma FreshLinksParentChildren(t: Cpt, p: Placed, d: Symbol, n: NodeId)
    requires Grown(t, p, d, n)
    ensures ChildrenLinked(p.tree, Index0(n)) && SiblingsDistinct(p.tree, Index0(n))
  {
    FreshNodes(t, p, d, n);
    var i := Index0(n);
    assert ChildrenLinked(t, i) && SiblingsDistinct(t, i);
    assert forall k :: 0 <= k < |t.nodes[i].children| ==> DataAt(t, t.nodes[i].children[k]) != Some(d);
    AppendChildKeepsLinks(t, p.tree, i, p.id, d);
  }

  /** Appending a child that points back and holds data no sibling holds
      keeps a node's children linked and distinct. */
  lemma AppendChildKeepsLinks(t: Cpt, t2: Cpt, i: nat, c: NodeId, d: Symbol)
    requires i < |t.nodes| && ChildrenLinked(t, i) && SiblingsDistinct(t, i)
    requires |t2.nodes| == |t.nodes| + 1 && Index0(c) == |t.nodes|
    requires forall j :: 0 <= j < |t.nodes| ==> t2.nodes[j].data == t.nodes[j].data && t2.nodes[j].parent == t.nodes[j].parent
    requires t2.nodes[i].children == t.nodes[i].children + [c]
    requires t2.nodes[Index0(c)].parent == Some(FromIndex0(i)) && t2.nodes[Index0(c)].data == Some(d)
    requires forall k :: 0 <= k < |t.nodes[i].children| ==> DataAt(t, t.nodes[i].children[k]) != Some(d)
    ensures ChildrenLinked(t2, i) && SiblingsDistinct(t2, i)
  {
    var cs := t.nodes[i].children;
    var cs2 := cs + [c];
    forall k | 0 <= k < |cs2|
      ensures i < Index0(cs2[k]) < |t2.nodes| && t2.nodes[Index0(cs2[k])].parent == Some(FromIndex0(i))
    {
      if k < |cs| {
        assert cs2[k] == cs[k];
      }
    }
    assert ChildrenLinked(t2, i);
    forall k1, k2 | 0 <= k1 < k2 < |cs2| ensures DataAt(t2, cs2[k1]) != DataAt(t2, cs2[k2]) {
      assert cs2[k1] == cs[k1];
      if k2 < |cs| {
        assert cs2[k2] == cs[k2];
      }
    }
  }

  /** Any other old node keeps its children, and they keep their data and
      parents. */
  lemma FreshKeepsOtherChildren(t: Cpt, p: Placed, d: Symbol, n: NodeId, i: nat)
    requires Grown(t, p, d, n) && i < |t.nodes| && i != Index0(n)
    ensures ChildrenLinked(p.tree, i) && SiblingsDistinct(p.tree, i)
  {
    FreshNodes(t, p, d, n);
    assert ChildrenLinked(t, i) && SiblingsDistinct(t, i);
    assert p.tree.nodes[i].children == t.nodes[i].children;
  }

  /** The fresh id was in no bag, so ids stay unique. */
  lemma FreshKeepsIdsUnique(t: Cpt, p: Placed, d: Symbol, n: NodeId)
    requires Indexed(t) && InRange(t, n) && Added(t, p, d, n)
    ensures IdsUnique(p.tree.index)
  {
    assert p.id !in AllIds(t.index) by {
      if p.id in AllIds(t.index) {
        InSomeBag(t.index, p.id);
      }
    }
  }

  /** Every id in a bag still names a node holding that bag's value. */
  lemma FreshKeepsFiled(t: Cpt, p: Placed, d: Symbol, n: NodeId)
    requires Indexed(t) && InRange(t, n) && Added(t, p, d, n)
    ensures forall w, id :: id in Bag(p.tree.index, w) ==> Filed(p.tree, id, w)
  {
    FreshNodes(t, p, d, n);
    var t2 := p.tree;
    forall w, id | id in Bag(t2.index, w) ensures Filed(t2, id, w) {
      if w == d {
        if id != p.id {
          assert id in Bag(t.index, w);
          assert Filed(t, id, w);
        }
      } else {
        assert id in Bag(t.index, w);
        assert Filed(t, id, w);
      }
    }
  }

  /** Every non-root node is still in the bag of its data. */
  lemma FreshKeepsBags(t: Cpt, p: Placed, d: Symbol, n: NodeId)
    requires Indexed(t) && InRange(t, n) && Added(t, p, d, n)
    ensures forall i :: 1 <= i < |p.tree.nodes| ==>
      p.tree.nodes[i].data.Some? && FromIndex0(i) in Bag(p.tree.index, p.tree.nodes[i].data.value)
  {
    FreshNodes(t, p, d, n);
    var t2 := p.tree;
    forall i | 1 <= i < |t2.nodes|
      ensures t2.nodes[i].data.Some? && FromIndex0(i) in Bag(t2.index, t2.nodes[i].data.value)
    {
      if i < |t.nodes| {
        var w := t.nodes[i].data.value;
        assert FromIndex0(i) in Bag(t.index, w);
        if w == d {
          assert Bag(t2.index, w) == Bag(t.index, w) + [p.id];
        }
      } else {
        assert Bag(t2.index, d) == Bag(t.index, d) + [p.id];
      }
    }
  }

  /** `add_child` under an existing node of a well-formed tree succeeds and
      keeps the tree well-formed. */
  lemma AddChildKeepsWellFormed(t: Cpt, d: Symbol, n: NodeId)
    requires WellFormed(t) && InRange(t, n)
    ensures AddChild(t, d, n).Ok?
    ensures WellFormed(AddChild(t, d, n).value.tree)
  {
    ChildExistsSucceeds(t, d, n);
    var p := AddChild(t, d, n).value;
    if ChildExists(t, d, n).value.None? {
      assert Fresh(t, p, d, n);
      FreshIsWellFormed(t, p, d, n);
    }
  }

  lemma FreshIsWellFormed(t: Cpt, p: Placed, d: Symbol, n: NodeId)
    requires Fresh(t, p, d, n)
    ensures WellFormed(p.tree)
  {
    FreshIsShaped(t, p, d, n);
    FreshKeepsIdsUnique(t, p, d, n);
    FreshKeepsFiled(t, p, d, n);
    FreshKeepsBags(t, p, d, n);
  }

  lemma FreshIsShaped(t: Cpt, p: Placed, d: Symbol, n: NodeId)
    requires Grown(t, p, d, n)
    ensures Shaped(p.tree)
  {
    FreshNodes(t, p, d, n);
    FreshLinksParents(t, p, d, n);
    FreshLinksChildren(t, p, d, n);
    assert p.tree.nodes[0] == t.nodes[0] || (Index0(n) == 0 && p.tree.nodes[0].data == None && p.tree.nodes[0].parent == None);
  }

  /** Training any sequence from an existing node of a well-formed tree
      succeeds, keeps the tree well-formed and ends on an existing node. */
  lemma {:induction false} AddItemsKeepsWellFormed(t: Cpt, s: seq<Symbol>, cur: NodeId)
    requires WellFormed(t) && InRange(t, cur)
    ensures AddItems(t, s, cur).Ok?
    ensures WellFormed(AddItems(t, s, cur).value.tree)
    ensures InRange(AddItems(t, s, cur).value.tree, AddItems(t, s, cur).value.id)
    decreases |s|
  {
    if s != [] {
      AddChildKeepsWellFormed(t, s[0], cur);
      var step := AddChild(t, s[0], cur).value;
      AddItemsKeepsWellFormed(step.tree, s[1..], step.id);
    }
  }

  /** Recording an existing node in the lookup table keeps the tree
      well-formed. */
  lemma RecordKeepsWellFormed(t: Cpt, id: NodeId)
    requires WellFormed(t) && InRange(t, id)
    ensures WellFormed(t.(lookup := t.lookup + [id]))
  {
    var t2 := t.(lookup := t.lookup + [id]);
    assert t2.nodes == t.nodes && t2.index == t.index;
    forall i | 1 <= i < |t2.nodes| ensures LinkedToParent(t2, i) {
      assert LinkedToParent(t, i);
    }
    forall i | 0 <= i < |t2.nodes| ensures ChildrenLinked(t2, i) && SiblingsDistinct(t2, i) {
      assert ChildrenLinked(t, i) && SiblingsDistinct(t, i);
    }
    forall w, x | x in Bag(t2.index, w) ensures Filed(t2, x, w) {
      assert Filed(t, x, w);
    }
  }

  /** `add_sequence` from an existing node of a well-formed tree succeeds and
      keeps the tree well-formed, the lookup table included. */
  lemma AddSequenceKeepsWellFormed(t: Cpt, s: seq<Symbol>, start: NodeId)
    requires WellFormed(t) && InRange(t, start)
    ensures AddSequence(t, s, start).Ok?
    ensures WellFormed(AddSequence(t, s, start).value)
  {
    AddItemsKeepsWellFormed(t, s, start);
    var p := AddItems(t, s, start).value;
    RecordKeepsWellFormed(p.tree, p.id);
  }

  /** `add_sequence_to_root` on a well-formed tree succeeds, keeps the tree
      well-formed and records the node its last symbol reached below the
      root. */
  lemma RootTrainingKeepsWellFormed(t: Cpt, s: seq<Symbol>)
    requires WellFormed(t)
    ensures AddSequenceToRoot(t, s).Ok?
    ensures WellFormed(AddSequenceToRoot(t, s).value)
    ensures var r := AddSequenceToRoot(t, s).value;
      r.lookup == t.lookup + [AddItems(t, s, Root()).value.id]
  {
    AddSequenceKeepsWellFormed(t, s, Root());
  }
}
