/** What `predict` does on a tree built by training (src/cpt.rs,
    `predict`). The leaf descent always ends, because child ids grow
    away from the root. The consequent walk ends at the first node holding
    a query symbol, provided it starts from a leaf found below such a node.
    The as-written lookup is a binary search over a table in training order.
    It can hand the walk a leaf that does not sit below the query, and the
    walk then reaches the data-less root, where the source loops forever.
    With the lookup replaced by a linear search for the leaf, a prediction
    on a well-formed tree succeeds exactly when the prefix fits the query. */
module PredictTermination {
  import opened Common
  import opened DataTypes
  import opened Nodes
  import opened InvertedIndex
  import opened Tree
  import opened TreeInvariant
  import opened Predict

  // ---------------------------------------------------------------------
  // The shape of a well-formed tree
  // ---------------------------------------------------------------------

  /** A child sits later in the arena than its parent. */
  lemma ChildIsLater(t: Cpt, n: NodeId, c: NodeId)
    requires Shaped(t) && InRange(t, n) && c in Children(t, n)
    ensures InRange(t, c) && Index0(n) < Index0(c)
    ensures t.nodes[Index0(c)].parent == Some(n)
  {
    var cs := t.nodes[Index0(n)].children;
    var k :| 0 <= k < |cs| && cs[k] == c;
    assert ChildrenLinked(t, Index0(n));
    assert FromIndex0(Index0(n)) == n;
  }

  /** A node `k` links below an existing node lies in the arena, at least
      `k` places further on. */
  lemma {:induction false} ReachesDepth(t: Cpt, y: NodeId, x: NodeId, k: nat)
    requires Shaped(t) && InRange(t, y) && Reaches(t, y, x, k)
    ensures InRange(t, x) && Index0(y) + k <= Index0(x)
    decreases k
  {
    if k > 0 {
      var c := ReachesStep(t, y, x, k);
      ChildIsLater(t, y, c);
      ReachesDepth(t, c, x, k - 1);
    }
  }

  /** The last link of a path of `k` child links, read from its lower end:
      the node `k` links below `y` has a parent `k - 1` links below `y`. */
  lemma {:induction false} ReachesUp(t: Cpt, y: NodeId, x: NodeId, k: nat) returns (p: NodeId)
    requires Shaped(t) && InRange(t, y) && Reaches(t, y, x, k) && k > 0
    ensures InRange(t, x) && t.nodes[Index0(x)].parent == Some(p) && t.nodes[Index0(x)].data.Some?
    ensures InRange(t, p) && Reaches(t, y, p, k - 1)
    decreases k
  {
    var c := ReachesStep(t, y, x, k);
    ChildIsLater(t, y, c);
    ReachesDepth(t, y, x, k);
    assert LinkedToParent(t, Index0(x));
    if k == 1 {
      assert x == c;
      p := y;
    } else {
      var p' := ReachesUp(t, c, x, k - 1);
      ReachesDepth(t, c, p', k - 2);
      ReachesCons(t, y, c, p', k - 2);
      p := p';
    }
  }

  // ---------------------------------------------------------------------
  // The leaf descent ends
  // ---------------------------------------------------------------------

  /** Every node of `ns` is far enough down the arena for `fuel` rounds. */
  predicate DeepEnough(t: Cpt, ns: seq<NodeId>, fuel: nat) {
    forall i :: 0 <= i < |ns| ==> |t.nodes| <= Index0(ns[i]) + fuel
  }

  /** One round keeps the nodes in the arena and one place further down. */
  lemma NextLevelDeeper(t: Cpt, ns: seq<NodeId>, fuel: nat)
    requires Shaped(t) && AllInRange(t, ns) && DeepEnough(t, ns, fuel) && fuel > 0
    ensures AllInRange(t, NextLevel(t, ns)) && DeepEnough(t, NextLevel(t, ns), fuel - 1)
  {
    var next := NextLevel(t, ns);
    forall j | 0 <= j < |next| ensures InRange(t, next[j]) && |t.nodes| <= Index0(next[j]) + fuel - 1 {
      assert next[j] in next;
      var i :| 0 <= i < |ns| && next[j] in Children(t, ns[i]);
      ChildIsLater(t, ns[i], next[j]);
    }
  }

  /** With enough fuel the descent never gives up. */
  lemma {:induction false} DescendTerminates(t: Cpt, ns: seq<NodeId>, fuel: nat)
    requires Shaped(t) && AllInRange(t, ns) && DeepEnough(t, ns, fuel)
    ensures Descend(t, ns, fuel).Ok?
    decreases fuel
  {
    if ns != [] {
      assert InRange(t, ns[0]) && |t.nodes| <= Index0(ns[0]) + fuel;
      NextLevelDeeper(t, ns, fuel);
      DescendTerminates(t, NextLevel(t, ns), fuel - 1);
      DescendGoesDown(t, ns, fuel);
    }
  }

  /** A descent whose next level completes completes itself. */
  lemma DescendGoesDown(t: Cpt, ns: seq<NodeId>, fuel: nat)
    requires ns != [] && AllInRange(t, ns) && fuel > 0
    requires Descend(t, NextLevel(t, ns), fuel - 1).Ok?
    ensures Descend(t, ns, fuel).Ok?
  {
  }

  /** The bag of a value holds non-root nodes of the arena. */
  lemma BagInArena(t: Cpt, v: Symbol)
    requires WellFormed(t)
    ensures AllInRange(t, Bag(t.index, v)) && DeepEnough(t, Bag(t.index, v), Fuel(t))
  {
    var b := Bag(t.index, v);
    forall i | 0 <= i < |b| ensures InRange(t, b[i]) && |t.nodes| <= Index0(b[i]) + Fuel(t) {
      assert b[i] in b;
      assert Filed(t, b[i], v);
    }
  }

  /** Selecting the training sequences of one symbol never fails on a
      well-formed tree, whatever the lookup. */
  lemma IdsForSucceeds(t: Cpt, v: Symbol, locate: Locator)
    requires WellFormed(t)
    ensures IdsFor(t, v, locate).Ok?
  {
    BagInArena(t, v);
    DescendTerminates(t, Bag(t.index, v), Fuel(t));
  }

  lemma {:induction false} IdsForAllSucceeds(t: Cpt, vs: seq<Symbol>, locate: Locator)
    requires WellFormed(t)
    ensures IdsForAll(t, vs, locate).Ok?
  {
    if vs != [] {
      IdsForSucceeds(t, vs[0], locate);
      IdsForAllSucceeds(t, vs[1..], locate);
    }
  }

  /** On a well-formed tree the candidate selection fails only on a prefix
      longer than the query. */
  lemma CandidatesSucceed(t: Cpt, q: seq<Symbol>, n: nat, locate: Locator)
    requires WellFormed(t)
    ensures Candidates(t, q, n, locate).Ok? <==> n <= |q|
  {
    if n <= |q| {
      IdsForAllSucceeds(t, PrefixSet(Prefix(q, n).value), locate);
    }
  }

  // ---------------------------------------------------------------------
  // The consequent walk ends
  // ---------------------------------------------------------------------

  /** `y` is a non-root node whose data is a symbol of the query. */
  predicate Anchor(t: Cpt, q: seq<Symbol>, y: NodeId) {
    InRange(t, y) && DataAt(t, y).Some? && DataAt(t, y).value in q
  }

  /** A walk from a node below an anchor stops at the anchor at the
      latest, within as many steps as there are links between them. */
  lemma {:induction false} WalkStopsAtAnchor(t: Cpt, q: seq<Symbol>, y: NodeId, x: NodeId, k: nat, fuel: nat)
    requires Shaped(t) && Anchor(t, q, y) && Reaches(t, y, x, k) && k <= fuel
    ensures Walk(t, q, x, fuel).Ok?
    ensures var e := Up(t, x, |Walk(t, q, x, fuel).value|); e.Some? && Anchor(t, q, e.value)
    decreases k
  {
    if k == 0 {
      WalkStopsHere(t, q, x, fuel);
    } else {
      var p := ReachesUp(t, y, x, k);
      WalkStopsAtAnchor(t, q, y, p, k - 1, fuel - 1);
      WalkClimbs(t, q, x, p, fuel);
      if DataAt(t, x).value !in q {
        var rest := Walk(t, q, p, fuel - 1).value;
        assert |Walk(t, q, x, fuel).value| == 1 + |rest|;
        assert Up(t, x, 1 + |rest|) == Up(t, p, |rest|);
      }
    }
  }

  /** A walk from an anchor stops at once. */
  lemma WalkStopsHere(t: Cpt, q: seq<Symbol>, x: NodeId, fuel: nat)
    requires Anchor(t, q, x)
    ensures Walk(t, q, x, fuel) == Ok([])
  {
  }

  /** A walk from a node with data and a parent ends when the walk from
      the parent does. */
  lemma WalkClimbs(t: Cpt, q: seq<Symbol>, x: NodeId, p: NodeId, fuel: nat)
    requires InRange(t, x) && t.nodes[Index0(x)].data.Some? && t.nodes[Index0(x)].parent == Some(p)
    requires fuel > 0 && Walk(t, q, p, fuel - 1).Ok?
    ensures Walk(t, q, x, fuel).Ok?
  {
  }

  /** On a well-shaped arena, with at least as much fuel as the start node's
      position, a walk fails only by climbing to the data-less root, where
      the source's loop spins: the fuel never runs out first. */
  lemma {:induction false} WalkFailsOnlyAtRoot(t: Cpt, q: seq<Symbol>, n: NodeId, fuel: nat)
    requires Shaped(t) && InRange(t, n) && Index0(n) <= fuel
    ensures Walk(t, q, n, fuel).Err? ==> exists k: nat :: k <= Index0(n) && Up(t, n, k) == Some(Root())
    decreases Index0(n)
  {
    if Walk(t, q, n, fuel).Err? {
      if Index0(n) == 0 {
        assert Up(t, n, 0) == Some(Root());
      } else {
        assert LinkedToParent(t, Index0(n));
        var p := t.nodes[Index0(n)].parent.value;
        WalkFailsOnlyAtRoot(t, q, p, fuel - 1);
        var k: nat :| k <= Index0(p) && Up(t, p, k) == Some(Root());
        assert Up(t, n, k + 1) == Up(t, p, k);
      }
    }
  }

  /** So on a well-shaped arena the consequent of any selected sequence,
      whichever lookup chose it, fails only when its walk climbs to the
      root: an `Err(Diverges)` of the model is the source's endless loop. */
  lemma ConsequentFailsOnlyAtRoot(t: Cpt, q: seq<Symbol>, k: nat)
    requires Shaped(t)
    ensures ConsequentOf(t, q, k).Err? ==>
      k < |t.lookup| && exists j: nat :: j <= Index0(t.lookup[k]) && Up(t, t.lookup[k], j) == Some(Root())
  {
    if k < |t.lookup| {
      WalkFailsOnlyAtRoot(t, q, t.lookup[k], Fuel(t));
    }
  }

  /** A leaf found below an anchor starts a walk that ends, and ends at a
      node of the arena holding a query symbol. */
  lemma LeafWalkSucceeds(t: Cpt, q: seq<Symbol>, ys: seq<NodeId>, x: NodeId)
    requires Shaped(t) && LeafBelow(t, ys, x)
    requires forall y :: y in ys ==> Anchor(t, q, y)
    ensures Walk(t, q, x, Fuel(t)).Ok?
    ensures var e := Up(t, x, |Walk(t, q, x, Fuel(t)).value|);
      e.Some? && InRange(t, e.value) && DataAt(t, e.value).Some? && DataAt(t, e.value).value in q
  {
    var y, k :| y in ys && Reaches(t, y, x, k);
    ReachesDepth(t, y, x, k);
    WalkStopsAtAnchor(t, q, y, x, k, Fuel(t));
  }

  /** The nodes of the bag of a query symbol are anchors. */
  lemma BagAnchors(t: Cpt, q: seq<Symbol>, v: Symbol)
    requires WellFormed(t) && v in q
    ensures forall y :: y in Bag(t.index, v) ==> Anchor(t, q, y)
  {
    forall y | y in Bag(t.index, v) ensures Anchor(t, q, y) {
      assert Filed(t, y, v);
    }
  }

  /** The locator that returns the first training sequence ending at the
      leaf. */
  function FirstPosition(): Locator {
    (lookup: seq<NodeId>, leaf: NodeId) => PositionOf(lookup, leaf)
  }

  /** With the linear lookup every selected sequence either lies past the
      table or ends at a leaf below a prefix symbol, so its walk ends. */
  lemma ConsequentsSucceed(t: Cpt, q: seq<Symbol>, n: nat)
    requires WellFormed(t) && Candidates(t, q, n, FirstPosition()).Ok?
    ensures Consequents(t, q, Candidates(t, q, n, FirstPosition()).value).Ok?
  {
    var ks := Candidates(t, q, n, FirstPosition()).value;
    forall i | 0 <= i < |ks| ensures ConsequentOf(t, q, ks[i]).Ok? {
      var k := ks[i];
      assert k in ks;
      var v :| v in q[|q| - n..] && IdsFor(t, v, FirstPosition()).Ok? && k in IdsFor(t, v, FirstPosition()).value;
      var b := Bag(t.index, v);
      var x :| x in Descend(t, b, Fuel(t)).value && k == PositionOf(t.lookup, x);
      if k < |t.lookup| {
        DescendFindsLeaves(t, b, Fuel(t), x);
        BagAnchors(t, q, v);
        LeafWalkSucceeds(t, q, b, x);
        assert t.lookup[k] == x;
        assert ConsequentOf(t, q, k) == Walk(t, q, x, Fuel(t));
      } else {
        assert ConsequentOf(t, q, k) == Ok([]);
      }
    }
  }

  // ---------------------------------------------------------------------
  // Scoring never misses a symbol
  // ---------------------------------------------------------------------

  /** A symbol some node holds is a key of the index. */
  lemma HeldIsIndexed(t: Cpt, d: Symbol)
    requires WellFormed(t) && Held(t, d)
    ensures d in t.index.values
  {
    var i :| 0 <= i < |t.nodes| && t.nodes[i].data == Some(d);
    assert FromIndex0(i) in Bag(t.index, d);
  }

  lemma ScoreSucceeds(t: Cpt, cs: seq<Symbol>)
    requires WellFormed(t) && forall d :: d in cs ==> Held(t, d)
    ensures Predict.Score(t.index, CountAll([], cs)).Ok?
  {
    var m := CountAll([], cs);
    CountAllTallies(cs);
    forall i | 0 <= i < |m| ensures m[i].0 in t.index.values {
      HeldIsIndexed(t, m[i].0);
    }
  }

  // ---------------------------------------------------------------------
  // The corrected prediction
  // ---------------------------------------------------------------------

  /** `predict` with the lookup table searched linearly for the leaf. */
  function PredictFixed(t: Cpt, q: seq<Symbol>, n: nat): (r: Result<seq<Prediction>>)
    requires Valid(t.index)
    ensures n > |q| ==> r == Err(PrefixTooLong)
    ensures r.Ok? ==> BestFirst(r.value)
  {
    PredictWith(t, q, n, FirstPosition())
  }

  /** On a well-formed tree the corrected prediction fails exactly when the
      prefix is longer than the query. */
  lemma PredictFixedSucceeds(t: Cpt, q: seq<Symbol>, n: nat)
    requires WellFormed(t)
    ensures PredictFixed(t, q, n).Ok? <==> n <= |q|
  {
    if n <= |q| {
      CandidatesSucceed(t, q, n, FirstPosition());
      ConsequentsSucceed(t, q, n);
      var cs := Consequents(t, q, Candidates(t, q, n, FirstPosition()).value).value;
      ScoreSucceeds(t, cs);
    }
  }
}
