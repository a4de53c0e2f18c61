/** Concrete runs of the model: the structure the repository's own test
    expects after training two sequences (tests/cpt.rs), and a training set
    on which the as-written prediction never returns while the corrected
    one does. */
module Scenario {
  import opened Common
  import opened DataTypes
  import opened Nodes
  import opened Search
  import opened InvertedIndex
  import opened Tree
  import opened TreeInvariant
  import opened Sorting
  import opened Predict
  import opened PredictTermination

  /** The node at 0-based arena position `i`. */
  function N(i: nat): NodeId {
    NodeId(i + 1)
  }

  function Leaf(parent: nat, d: nat): Node {
    Node(Some(N(parent)), [], Some(Integer(d)))
  }

  /** `add_child` creating a node under an existing parent: the node is
      appended, the parent lists it last, the index files it. */
  lemma AddFresh(t: Cpt, d: Symbol, id: NodeId, ix: Index, nodes: seq<Node>)
    requires Valid(t.index) && InRange(t, id) && ChildExists(t, d, id) == Ok(None)
    requires InsertValue(t.index, d, FromIndex0(|t.nodes|)) == ix
    requires nodes == (t.nodes + [Node(Some(id), [], Some(d))])[Index0(id) := t.nodes[Index0(id)].(children := t.nodes[Index0(id)].children + [FromIndex0(|t.nodes|)])]
    ensures AddChild(t, d, id) == Ok(Placed(Cpt(ix, nodes, t.lookup), FromIndex0(|t.nodes|)))
  {
    var born := Node(Some(id), [], Some(d));
    var pushed := t.(nodes := t.nodes + [born]);
    var p := Tree.NewNode(t, born).value;
    assert p == Placed(pushed.(index := ix), FromIndex0(|t.nodes|));
    var parent := t.nodes[Index0(id)];
    assert Tree.Get(p.tree, id) == Some(parent);
    assert UpdateNode(p.tree, id, parent.(children := parent.children + [p.id])) == Ok(Cpt(ix, nodes, t.lookup));
  }

  /** One round of the training loop: `add_child` for the first item, then
      the rest from the node it returned. */
  lemma ItemsCons(t: Cpt, s: seq<Symbol>, cur: NodeId, p: Placed)
    requires Valid(t.index) && s != []
    requires AddChild(t, s[0], cur) == Ok(p)
    ensures Valid(p.tree.index)
    ensures AddItems(t, s, cur) == AddItems(p.tree, s[1..], p.id)
  {
  }

  /** Training one item: `add_child` from the start, then the node reached
      is recorded. */
  lemma TrainOne(t: Cpt, a: Symbol, start: NodeId, p: Placed)
    requires Valid(t.index)
    requires AddChild(t, a, start) == Ok(p)
    ensures AddSequence(t, [a], start) == Ok(p.tree.(lookup := p.tree.lookup + [p.id]))
  {
    ItemsCons(t, [a], start, p);
    assert [a][1..] == [];
  }

  /** Training three items: three `add_child` calls, each from the node the
      previous one returned. */
  lemma TrainThree(t: Cpt, a: Symbol, b: Symbol, c: Symbol, start: NodeId, p1: Placed, p2: Placed, p3: Placed)
    requires Valid(t.index)
    requires AddChild(t, a, start) == Ok(p1)
    requires AddChild(p1.tree, b, p1.id) == Ok(p2)
    requires AddChild(p2.tree, c, p2.id) == Ok(p3)
    ensures AddSequence(t, [a, b, c], start) == Ok(p3.tree.(lookup := p3.tree.lookup + [p3.id]))
  {
    var s := [a, b, c];
    ItemsCons(t, s, start, p1);
    assert s[1..] == [b, c];
    ItemsCons(p1.tree, [b, c], p1.id, p2);
    assert [b, c][1..] == [c];
    ItemsCons(p2.tree, [c], p2.id, p3);
    assert [c][1..] == [];
  }

  /** A two-entry index in ascending order is valid. */
  lemma PairValid(a: Symbol, b: Symbol, x: seq<NodeId>, y: seq<NodeId>)
    requires Below(a, b) && x != [] && y != []
    ensures Valid(Index([a, b], [x, y]))
  {
  }

  /** A single selected sequence contributes its own consequent. */
  lemma ConsequentsOfOne(t: Cpt, q: seq<Symbol>, k: nat)
    ensures Consequents(t, q, [k]) == ConsequentOf(t, q, k)
  {
    assert [k][1..] == [];
    assert Consequents(t, q, []) == Ok([]);
    if ConsequentOf(t, q, k).Ok? {
      assert ConsequentOf(t, q, k).value + [] == ConsequentOf(t, q, k).value;
    }
  }

  /** The pipeline stops at the first consequent walk that fails. */
  lemma PipelineStops(t: Cpt, q: seq<Symbol>, n: nat, locate: Locator, ks: seq<nat>)
    requires Valid(t.index) && Candidates(t, q, n, locate) == Ok(ks) && Consequents(t, q, ks).Err?
    ensures PredictWith(t, q, n, locate) == Err(Consequents(t, q, ks).error)
  {
  }

  /** Empty consequents predict nothing. */
  lemma PipelineEmpty(t: Cpt, q: seq<Symbol>, n: nat, locate: Locator, ks: seq<nat>)
    requires Valid(t.index) && Candidates(t, q, n, locate) == Ok(ks) && Consequents(t, q, ks) == Ok([])
    ensures PredictWith(t, q, n, locate) == Ok([])
  {
    assert CountAll([], []) == [];
    assert Predict.Score(t.index, []) == Ok([]);
    assert RankPredictions([]) == [];
  }

  // ---------------------------------------------------------------------
  // tests/cpt.rs: training [2, 2, 3] and [2, 3, 3]
  // ---------------------------------------------------------------------

  /** The tree the test expects after both trainings. */
  function ExpectedTree(): Cpt {
    Cpt(
      Index([Integer(2), Integer(3)], [[N(1), N(2)], [N(3), N(4), N(5)]]),
      [ Node(None, [N(1)], None),
        Leaf(0, 2).(children := [N(2), N(4)]),
        Leaf(1, 2).(children := [N(3)]),
        Leaf(2, 3),
        Leaf(1, 3).(children := [N(5)]),
        Leaf(4, 3) ],
      [N(3), N(5)])
  }

  /** The tree after training [2, 2, 3]. */
  function FirstTree(): Cpt {
    Cpt(
      Index([Integer(2), Integer(3)], [[N(1), N(2)], [N(3)]]),
      [Node(None, [N(1)], None), Leaf(0, 2).(children := [N(2)]), Leaf(1, 2).(children := [N(3)]), Leaf(2, 3)],
      [N(3)])
  }

  function TreeA(): Cpt {
    Cpt(Index([Integer(2)], [[N(1)]]), [Node(None, [N(1)], None), Leaf(0, 2)], [])
  }

  function TreeB(): Cpt {
    Cpt(Index([Integer(2)], [[N(1), N(2)]]), [Node(None, [N(1)], None), Leaf(0, 2).(children := [N(2)]), Leaf(1, 2)], [])
  }

  function TreeE(): Cpt {
    Cpt(
      Index([Integer(2), Integer(3)], [[N(1), N(2)], [N(3), N(4)]]),
      [Node(None, [N(1)], None), Leaf(0, 2).(children := [N(2), N(4)]), Leaf(1, 2).(children := [N(3)]), Leaf(2, 3), Leaf(1, 3)],
      [N(3)])
  }

  lemma StepA()
    ensures AddChild(Default(), Integer(2), N(0)) == Ok(Placed(TreeA(), N(1)))
  {
    var t := Default();
    assert Locate([], Integer(2)) == NotFound(0);
    assert InsertValue(t.index, Integer(2), N(1)) == TreeA().index by {
      assert [] + [Integer(2)] + [] == TreeA().index.values;
      assert [] + [[N(1)]] + [] == TreeA().index.nodeIds;
    }
    assert ChildExists(t, Integer(2), N(0)) == Ok(None);
    AddFresh(t, Integer(2), N(0), TreeA().index, TreeA().nodes);
  }

  lemma StepB()
    ensures AddChild(TreeA(), Integer(2), N(1)) == Ok(Placed(TreeB(), N(2)))
  {
    var t := TreeA();
    assert Locate(t.index.values, Integer(2)) == Found(0);
    assert InsertValue(t.index, Integer(2), N(2)) == TreeB().index by {
      assert [N(1)] + [N(2)] == [N(1), N(2)];
    }
    assert ChildExists(t, Integer(2), N(1)) == Ok(None);
    assert [] + [N(2)] == [N(2)];
    AddFresh(t, Integer(2), N(1), TreeB().index, TreeB().nodes);
  }

  lemma StepC()
    ensures AddChild(TreeB(), Integer(3), N(2)) == Ok(Placed(FirstTree().(lookup := []), N(3)))
  {
    var t := TreeB();
    var c := FirstTree().(lookup := []);
    assert Compare(Integer(2), Integer(3)) == Less;
    assert Locate(t.index.values, Integer(3)) == NotFound(1);
    assert InsertValue(t.index, Integer(3), N(3)) == c.index by {
      assert t.index.values[..1] + [Integer(3)] + t.index.values[1..] == c.index.values;
      assert t.index.nodeIds[..1] + [[N(3)]] + t.index.nodeIds[1..] == c.index.nodeIds;
    }
    assert ChildExists(t, Integer(3), N(2)) == Ok(None);
    AddFresh(t, Integer(3), N(2), c.index, c.nodes);
  }

  lemma TrainFirst()
    ensures AddSequence(Default(), [Integer(2), Integer(2), Integer(3)], Root()) == Ok(FirstTree())
  {
    var c := Placed(FirstTree().(lookup := []), N(3));
    StepA();
    StepB();
    StepC();
    PairValid(Integer(2), Integer(3), [N(1), N(2)], [N(3)]);
    TrainThree(Default(), Integer(2), Integer(2), Integer(3), Root(), Placed(TreeA(), N(1)), Placed(TreeB(), N(2)), c);
  }

  lemma StepD()
    ensures AddChild(FirstTree(), Integer(2), N(0)) == Ok(Placed(FirstTree(), N(1)))
  {
    assert ChildExists(FirstTree(), Integer(2), N(0)) == Ok(Some(N(1)));
  }

  /** Filing node 5 under `Integer(3)` in the first tree's index. */
  lemma IndexE()
    ensures Valid(FirstTree().index) && InsertValue(FirstTree().index, Integer(3), N(4)) == TreeE().index
  {
    var ix := FirstTree().index;
    assert Below(Integer(2), Integer(3));
    assert Compare(Integer(2), Integer(3)) == Less;
    assert Locate(ix.values, Integer(3)) == Found(1);
    assert [N(3)] + [N(4)] == [N(3), N(4)];
  }

  /** Node 2 of the first tree has no child holding `Integer(3)`. */
  lemma NoThreeUnderTwo()
    ensures ChildExists(FirstTree(), Integer(3), N(1)) == Ok(None)
  {
    var t := FirstTree();
    assert [N(2)][..0] == [];
    assert ScanChildren(t, [], Integer(3)) == Ok(None);
    assert Compare(Integer(2), Integer(3)) == Less;
  }

  /** Node 5 appended and listed under node 2. */
  lemma ArenaE()
    ensures var ns := FirstTree().nodes + [Leaf(1, 3)];
      ns[1 := ns[1].(children := ns[1].children + [N(4)])] == TreeE().nodes
  {
    assert [N(2)] + [N(4)] == [N(2), N(4)];
  }

  lemma StepE()
    ensures AddChild(FirstTree(), Integer(3), N(1)) == Ok(Placed(TreeE(), N(4)))
  {
    var t := FirstTree();
    IndexE();
    NoThreeUnderTwo();
    ArenaE();
    assert |t.nodes| == 4 && FromIndex0(|t.nodes|) == N(4);
    AddFresh(t, Integer(3), N(1), TreeE().index, TreeE().nodes);
  }

  /** Filing node 6 under `Integer(3)`. */
  lemma IndexF()
    ensures Valid(TreeE().index) && InsertValue(TreeE().index, Integer(3), N(5)) == ExpectedTree().index
  {
    var ix := TreeE().index;
    assert Below(Integer(2), Integer(3));
    assert Compare(Integer(2), Integer(3)) == Less;
    assert Locate(ix.values, Integer(3)) == Found(1);
    assert [N(3), N(4)] + [N(5)] == [N(3), N(4), N(5)];
  }

  /** Node 6 appended as the only child of node 5. */
  lemma ArenaF()
    ensures var ns := TreeE().nodes + [Leaf(4, 3)];
      ns[4 := ns[4].(children := ns[4].children + [N(5)])] == ExpectedTree().nodes
  {
    assert [] + [N(5)] == [N(5)];
  }

  lemma StepF()
    ensures AddChild(TreeE(), Integer(3), N(4)) == Ok(Placed(ExpectedTree().(lookup := [N(3)]), N(5)))
  {
    var t := TreeE();
    var f := ExpectedTree().(lookup := [N(3)]);
    IndexF();
    assert ChildExists(t, Integer(3), N(4)) == Ok(None);
    ArenaF();
    assert |t.nodes| == 5 && FromIndex0(|t.nodes|) == N(5);
    AddFresh(t, Integer(3), N(4), f.index, f.nodes);
  }

  lemma TrainSecond()
    ensures AddSequence(FirstTree(), [Integer(2), Integer(3), Integer(3)], Root()) == Ok(ExpectedTree())
  {
    var f := Placed(ExpectedTree().(lookup := [N(3)]), N(5));
    StepD();
    StepE();
    StepF();
    IndexE();
    TrainThree(FirstTree(), Integer(2), Integer(3), Integer(3), Root(), Placed(FirstTree(), N(1)), Placed(TreeE(), N(4)), f);
    SecondRecorded();
  }

  /** Recording node 5 after node 3 gives the expected lookup table. */
  lemma SecondRecorded()
    ensures ExpectedTree().(lookup := [N(3)] + [N(5)]) == ExpectedTree()
  {
    assert [N(3)] + [N(5)] == [N(3), N(5)];
  }

  /** Training both sequences builds the tree the test expects, and the bag
      of `Integer(2)` holds nodes 2 and 3. */
  lemma TrainingBuildsExpectedTree()
    ensures var t1 := AddSequence(Default(), [Integer(2), Integer(2), Integer(3)], Root());
      && t1.Ok?
      && AddSequence(t1.value, [Integer(2), Integer(3), Integer(3)], Root()) == Ok(ExpectedTree())
    ensures GetValueIds(ExpectedTree().index, Integer(2)) == Some([NodeId(2), NodeId(3)])
  {
    TrainFirst();
    TrainSecond();
    assert Locate(ExpectedTree().index.values, Integer(2)) == Found(0);
  }

  // ---------------------------------------------------------------------
  // The binary search over the lookup table
  // ---------------------------------------------------------------------

  /** Five one-symbol sequences, trained from the root in this order:
      [9], [2], [9], [9], [5]. */
  function Trained(): Cpt {
    Cpt(
      Index([Integer(2), Integer(5), Integer(9)], [[N(2)], [N(3)], [N(1)]]),
      [Node(None, [N(1), N(2), N(3)], None), Leaf(0, 9), Leaf(0, 2), Leaf(0, 5)],
      [N(1), N(2), N(1), N(1), N(3)])
  }

  function TreeG1(): Cpt {
    Cpt(Index([Integer(9)], [[N(1)]]), [Node(None, [N(1)], None), Leaf(0, 9)], [N(1)])
  }

  function TreeG2(): Cpt {
    Cpt(
      Index([Integer(2), Integer(9)], [[N(2)], [N(1)]]),
      [Node(None, [N(1), N(2)], None), Leaf(0, 9), Leaf(0, 2)],
      [N(1), N(2)])
  }

  lemma TrainG1()
    ensures AddSequence(Default(), [Integer(9)], Root()) == Ok(TreeG1())
  {
    var t := Default();
    var g := TreeG1().(lookup := []);
    assert Locate([], Integer(9)) == NotFound(0);
    assert InsertValue(t.index, Integer(9), N(1)) == g.index by {
      assert [] + [Integer(9)] + [] == g.index.values;
      assert [] + [[N(1)]] + [] == g.index.nodeIds;
    }
    assert ChildExists(t, Integer(9), N(0)) == Ok(None);
    AddFresh(t, Integer(9), N(0), g.index, g.nodes);
    assert AddItems(t, [Integer(9)], Root()) == Ok(Placed(g, N(1)));
  }

  /** Node 3 appended and listed under the root of `TreeG1()`. */
  lemma GrowRootOnce()
    ensures var ns := TreeG1().nodes + [Leaf(0, 2)];
      ns[0 := ns[0].(children := ns[0].children + [N(2)])] == TreeG2().nodes
  {
    var root := Node(None, [N(1)], None);
    var ns := TreeG1().nodes + [Leaf(0, 2)];
    assert ns == [root, Leaf(0, 9), Leaf(0, 2)];
    assert root.children + [N(2)] == [N(1), N(2)];
  }

  /** `add_child` files `Integer(2)` as node 3 under the root. */
  lemma AddTwo()
    ensures AddChild(TreeG1(), Integer(2), N(0)) == Ok(Placed(TreeG2().(lookup := [N(1)]), N(2)))
  {
    var t := TreeG1();
    var g := TreeG2().(lookup := [N(1)]);
    assert Compare(Integer(9), Integer(2)) == Greater;
    assert Locate(t.index.values, Integer(2)) == NotFound(0);
    assert InsertValue(t.index, Integer(2), N(2)) == g.index by {
      assert t.index.values[..0] + [Integer(2)] + t.index.values[0..] == g.index.values;
      assert t.index.nodeIds[..0] + [[N(2)]] + t.index.nodeIds[0..] == g.index.nodeIds;
    }
    assert ChildExists(t, Integer(2), N(0)) == Ok(None);
    assert |t.nodes| == 2 && FromIndex0(|t.nodes|) == N(2);
    GrowRootOnce();
    AddFresh(t, Integer(2), N(0), g.index, g.nodes);
  }

  lemma TrainG2()
    ensures AddSequence(TreeG1(), [Integer(2)], Root()) == Ok(TreeG2())
  {
    var t := TreeG1();
    AddTwo();
    assert AddItems(t, [Integer(2)], Root()) == Ok(Placed(TreeG2().(lookup := [N(1)]), N(2)));
    assert t.lookup + [N(2)] == TreeG2().lookup;
  }

  /** Training [9] again finds the existing child and only records it. */
  lemma TrainAgain(t: Cpt)
    requires t.index == TreeG2().index && t.nodes == TreeG2().nodes
    ensures AddSequence(t, [Integer(9)], Root()) == Ok(t.(lookup := t.lookup + [N(1)]))
  {
    assert Compare(Integer(2), Integer(9)) == Less;
    assert Compare(Integer(9), Integer(9)) == Equal;
    assert [N(1), N(2)][..1] == [N(1)];
    assert ScanChildren(t, [], Integer(9)) == Ok(None);
    assert ScanChildren(t, [N(1)], Integer(9)) == Ok(Some(N(1)));
    assert ScanChildren(t, [N(1), N(2)], Integer(9)) == Ok(Some(N(1)));
    assert ChildExists(t, Integer(9), N(0)) == Ok(Some(N(1)));
    assert AddItems(t, [Integer(9)], Root()) == Ok(Placed(t, N(1)));
  }

  /** The index after filing node 4 under `Integer(5)`. */
  lemma InsertFive()
    ensures InsertValue(TreeG2().index, Integer(5), N(3)) == Trained().index
  {
    var ix := TreeG2().index;
    assert Compare(Integer(9), Integer(5)) == Greater;
    assert Compare(Integer(2), Integer(5)) == Less;
    assert Locate(ix.values, Integer(5)) == NotFound(1);
    assert ix.values[..1] + [Integer(5)] + ix.values[1..] == Trained().index.values;
    assert ix.nodeIds[..1] + [[N(3)]] + ix.nodeIds[1..] == Trained().index.nodeIds;
  }

  /** No child of the root holds `Integer(5)` yet. */
  lemma NoFiveYet(t: Cpt)
    requires t.nodes == TreeG2().nodes
    ensures ChildExists(t, Integer(5), N(0)) == Ok(None)
  {
    assert Compare(Integer(9), Integer(5)) == Greater;
    assert Compare(Integer(2), Integer(5)) == Less;
    assert [N(1), N(2)][..1] == [N(1)];
    assert ScanChildren(t, [], Integer(5)) == Ok(None);
    assert ScanChildren(t, [N(1)], Integer(5)) == Ok(None);
    assert ScanChildren(t, [N(1), N(2)], Integer(5)) == Ok(None);
  }

  /** Node 4 appended and listed under the root gives the trained arena. */
  lemma GrowRoot()
    ensures var ns := TreeG2().nodes + [Leaf(0, 5)];
      ns[0 := ns[0].(children := ns[0].children + [N(3)])] == Trained().nodes
  {
    var root := Node(None, [N(1), N(2)], None);
    var ns := TreeG2().nodes + [Leaf(0, 5)];
    assert ns == [root, Leaf(0, 9), Leaf(0, 2), Leaf(0, 5)];
    assert root.children + [N(3)] == [N(1), N(2), N(3)];
  }

  /** `add_child` files `Integer(5)` as node 4 under the root. */
  lemma AddFive()
    ensures AddChild(TreeG4(), Integer(5), N(0)) == Ok(Placed(Trained().(lookup := TreeG4().lookup), N(3)))
  {
    var t := TreeG4();
    var g := Trained().(lookup := t.lookup);
    TrainedIndexValid();
    InsertFive();
    NoFiveYet(t);
    assert |t.nodes| == 3 && FromIndex0(|t.nodes|) == N(3);
    GrowRoot();
    AddFresh(t, Integer(5), N(0), g.index, g.nodes);
  }

  lemma TrainG5()
    ensures AddSequence(TreeG4(), [Integer(5)], Root()) == Ok(Trained())
  {
    TrainedIndexValid();
    AddFive();
    TrainOne(TreeG4(), Integer(5), Root(), Placed(Trained().(lookup := TreeG4().lookup), N(3)));
    FifthRecorded();
  }

  /** Recording node 3 after the first four sequences gives the trained
      lookup table. */
  lemma FifthRecorded()
    ensures Trained().(lookup := TreeG4().lookup).(lookup := TreeG4().lookup + [N(3)]) == Trained()
  {
    assert TreeG4().lookup + [N(3)] == Trained().lookup;
  }

  /** The tree after training [9], [2] and [9]. */
  function TreeG3(): Cpt {
    TreeG2().(lookup := [N(1), N(2), N(1)])
  }

  /** The tree after training [9], [2], [9] and [9]. */
  function TreeG4(): Cpt {
    TreeG2().(lookup := [N(1), N(2), N(1), N(1)])
  }

  lemma TrainG3()
    ensures AddSequence(TreeG2(), [Integer(9)], Root()) == Ok(TreeG3())
  {
    TrainAgain(TreeG2());
    assert [N(1), N(2)] + [N(1)] == TreeG3().lookup;
  }

  lemma TrainG4()
    ensures AddSequence(TreeG3(), [Integer(9)], Root()) == Ok(TreeG4())
  {
    TrainAgain(TreeG3());
    assert TreeG3().lookup + [N(1)] == TreeG4().lookup;
  }

  /** Training the five sequences from the root builds `Trained()`. */
  lemma TrainingBuildsTrained()
    ensures var t1 := AddSequence(Default(), [Integer(9)], Root());
      && t1.Ok? && Valid(t1.value.index)
      && var t2 := AddSequence(t1.value, [Integer(2)], Root());
      && t2.Ok? && Valid(t2.value.index)
      && var t3 := AddSequence(t2.value, [Integer(9)], Root());
      && t3.Ok? && Valid(t3.value.index)
      && var t4 := AddSequence(t3.value, [Integer(9)], Root());
      && t4.Ok? && Valid(t4.value.index)
      && AddSequence(t4.value, [Integer(5)], Root()) == Ok(Trained())
  {
    TrainG1();
    TrainG2();
    TrainG3();
    TrainG4();
    TrainG5();
    TrainedIndexValid();
  }

  lemma TreeG2WellFormed()
    ensures WellFormed(TreeG2())
  {
    DefaultIsWellFormed();
    TrainG1();
    AddSequenceKeepsWellFormed(Default(), [Integer(9)], Root());
    TrainG2();
    AddSequenceKeepsWellFormed(TreeG1(), [Integer(2)], Root());
  }

  lemma TreeG4WellFormed()
    ensures WellFormed(TreeG4())
  {
    TreeG2WellFormed();
    TrainG3();
    AddSequenceKeepsWellFormed(TreeG2(), [Integer(9)], Root());
    TrainG4();
    AddSequenceKeepsWellFormed(TreeG3(), [Integer(9)], Root());
  }

  /** The trained tree is well-formed. */
  lemma TrainedWellFormed()
    ensures WellFormed(Trained())
  {
    TreeG4WellFormed();
    TrainG5();
    AddSequenceKeepsWellFormed(TreeG4(), [Integer(5)], Root());
  }

  /** The leaf of the only sequence holding `Integer(2)` is node 3, the
      second entry of the lookup table; the binary search, misled by the
      unsorted table, answers 4, whose sequence ends at node 4 and holds
      only `Integer(5)`. */
  lemma SearchMissesTheLeaf()
    ensures SequenceIdOf(Trained().lookup, N(2)) == 4
    ensures PositionOf(Trained().lookup, N(2)) == 1
  {
    var probe := (x: NodeId) => CompareIds(x, N(2));
    var l := Trained().lookup;
    assert Halve(l, probe, 4, 4) == NotFound(4);
    assert Halve(l, probe, 3, 4) == NotFound(4);
    assert Halve(l, probe, 3, 5) == NotFound(4);
    assert Halve(l, probe, 0, 5) == NotFound(4);
  }

  /** The prefix `[Integer(2)]` selects one leaf, node 3. */
  lemma PrefixSelectsNodeThree(locate: Locator)
    requires Valid(Trained().index)
    ensures IdsForAll(Trained(), PrefixSet([Integer(2)]), locate) == Ok([locate(Trained().lookup, N(2))])
  {
    var t := Trained();
    SymbolLessIsStrictTotalOrder();
    assert PrefixSet([Integer(2)]) == [Integer(2)];
    DescendFromNodeThree();
    assert Compare(Integer(5), Integer(2)) == Greater;
    assert Locate(t.index.values, Integer(2)) == Found(0);
    assert GetValueIds(t.index, Integer(2)) == Some([N(2)]);
    var r := IdsFor(t, Integer(2), locate);
    assert r.Ok?;
    assert r.value == [locate(t.lookup, N(2))];
    assert IdsForAll(t, [], locate) == Ok([]);
    assert [Integer(2)][1..] == [];
    assert r.value + [] == r.value;
  }

  /** Node 3 is a leaf, so the descent from it stops at once. */
  lemma DescendFromNodeThree()
    ensures Descend(Trained(), [N(2)], Fuel(Trained())) == Ok([N(2)])
  {
    var t := Trained();
    assert Fuel(t) == 5;
    assert AllInRange(t, [N(2)]);
    assert NextLevel(t, [N(2)]) == [];
    assert Descend(t, [], 4) == Ok([]);
    assert Leaves(t, [N(2)]) == [N(2)];
  }

  /** The candidate selection with a locator that sends node 3 to `k`. */
  lemma CandidatesAre(locate: Locator, k: nat)
    requires Valid(Trained().index) && locate(Trained().lookup, N(2)) == k
    ensures Candidates(Trained(), [Integer(2)], 1, locate) == Ok([k])
  {
    var t := Trained();
    PrefixSelectsNodeThree(locate);
    NatLessIsStrictTotalOrder();
    assert Prefix([Integer(2)], 1) == Ok([Integer(2)]);
    assert SortDedup([k], (a: nat, b: nat) => a < b) == [k];
  }

  /** As written, predicting after `[Integer(2)]` on the trained tree walks
      up from node 4 to the data-less root and never returns. */
  lemma PredictDiverges()
    ensures Predict.Predict(Trained(), [Integer(2)], 1) == Err(Diverges)
  {
    TrainedIndexValid();
    BinaryPicksNodeFour();
    DivergesFromNodeFour();
    PipelineStops(Trained(), [Integer(2)], 1, BinaryPosition(), [4]);
  }

  lemma BinaryLocatesFour()
    ensures BinaryPosition()(Trained().lookup, N(2)) == 4
  {
    SearchMissesTheLeaf();
  }

  lemma LinearLocatesOne()
    ensures FirstPosition()(Trained().lookup, N(2)) == 1
  {
    SearchMissesTheLeaf();
  }

  lemma BinaryPicksNodeFour()
    ensures Candidates(Trained(), [Integer(2)], 1, BinaryPosition()) == Ok([4])
  {
    TrainedIndexValid();
    BinaryLocatesFour();
    CandidatesAre(BinaryPosition(), 4);
  }

  lemma DivergesFromNodeFour()
    ensures Consequents(Trained(), [Integer(2)], [4]) == Err(Diverges)
  {
    WalkFromNodeFour();
    assert Trained().lookup[4] == N(3);
    ConsequentsOfOne(Trained(), [Integer(2)], 4);
  }

  /** The walk from node 4 passes `Integer(5)` and stops at the root. */
  lemma WalkFromNodeFour()
    ensures Walk(Trained(), [Integer(2)], N(3), Fuel(Trained())) == Err(Diverges)
  {
    var t := Trained();
    assert Fuel(t) == 5;
    assert Walk(t, [Integer(2)], N(0), 4) == Err(Diverges);
  }

  /** The walk from node 3 stops at once: it holds the query's symbol. */
  lemma WalkFromNodeThree()
    ensures Walk(Trained(), [Integer(2)], N(2), Fuel(Trained())) == Ok([])
  {
    var t := Trained();
    assert InRange(t, N(2)) && t.nodes[2].data == Some(Integer(2));
    assert Integer(2) in [Integer(2)];
  }

  /** The trained index is ordered and parallel. */
  lemma TrainedIndexValid()
    ensures Valid(Trained().index) && Valid(TreeG2().index)
  {
    assert Below(Integer(2), Integer(5)) && Below(Integer(5), Integer(9)) && Below(Integer(2), Integer(9));
  }

  /** With the linear lookup the same prediction returns: the only
      selected sequence ends at node 3, whose symbol is in the query, so
      there is no consequent and nothing to predict. */
  lemma PredictFixedReturns()
    ensures PredictFixed(Trained(), [Integer(2)], 1) == Ok([])
  {
    TrainedIndexValid();
    LinearPicksNodeThree();
    NothingAfterNodeThree();
    PipelineEmpty(Trained(), [Integer(2)], 1, FirstPosition(), [1]);
  }

  lemma LinearPicksNodeThree()
    ensures Candidates(Trained(), [Integer(2)], 1, FirstPosition()) == Ok([1])
  {
    TrainedIndexValid();
    LinearLocatesOne();
    CandidatesAre(FirstPosition(), 1);
  }

  lemma NothingAfterNodeThree()
    ensures Consequents(Trained(), [Integer(2)], [1]) == Ok([])
  {
    WalkFromNodeThree();
    assert Trained().lookup[1] == N(2);
    ConsequentsOfOne(Trained(), [Integer(2)], 1);
  }
}
