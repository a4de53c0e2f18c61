/** Prediction of the next symbols of a query (src/cpt.rs, `CPT::predict`):
    the distinct symbols of the query's suffix select nodes through the
    inverted index; the leaves below them select training sequences through
    the lookup table; walking up each selected sequence from its last node
    until a symbol of the query is met yields its consequent; the symbols of
    all consequents are counted (support) and divided by their number of
    occurrences in the tree (confidence), and the items are returned best
    first.

    The three loops of the source that need not stop are bounded by the size
    of the arena: the leaf descent and the walk up report `Diverges` when
    they run out of rounds, and the walk up reports it as soon as it meets a
    node without data, where the source spins forever without moving. */
module Predict {
  import opened Common
  import opened DataTypes
  import opened Nodes
  import opened InvertedIndex
  import opened Search
  import opened Sorting
  import opened Tree

  /** One predicted item with its two scores. */
  datatype Prediction = Prediction(item: Symbol, support: nat, confidence: real)

  /** The source's `count_consequent_values_support`: the count per symbol,
      a hash map modelled as an association list in insertion order. */
  type Support = seq<(Symbol, nat)>

  /** A way of turning a leaf into a training-sequence id. */
  type Locator = (seq<NodeId>, NodeId) -> nat

  /** The number of rounds granted to each loop. */
  function Fuel(t: Cpt): nat {
    |t.nodes| + 1
  }

  // ---------------------------------------------------------------------
  // Prefix
  // ---------------------------------------------------------------------

  /** The last `n` symbols of `q`; asking for more than `q` holds
      underflows the start index and panics. */
  function Prefix(q: seq<Symbol>, n: nat): (r: Result<seq<Symbol>>)
    ensures r.Ok? <==> n <= |q|
    ensures r.Err? ==> r.error == PrefixTooLong
    ensures r.Ok? ==> |r.value| == n && q[..|q| - n] + r.value == q
  {
    if n > |q| then Err(PrefixTooLong) else Ok(q[|q| - n..])
  }

  function SymbolLess(): (Symbol, Symbol) -> bool {
    (a: Symbol, b: Symbol) => Below(a, b)
  }

  lemma SymbolLessIsStrictTotalOrder()
    ensures StrictTotalOrder(SymbolLess())
  {
    forall a: Symbol, b: Symbol, c: Symbol {
      BelowIsStrictTotalOrder(a, b, c);
    }
  }

  /** `prefix_set.sort(); prefix_set.dedup()`: the distinct symbols of the
      prefix, ascending. */
  function PrefixSet(p: seq<Symbol>): (r: seq<Symbol>)
    ensures forall z :: z in r <==> z in p
    ensures StrictlyAscending(r, SymbolLess())
  {
    SymbolLessIsStrictTotalOrder();
    SortDedup(p, SymbolLess())
  }

  // ---------------------------------------------------------------------
  // Leaf descent
  // ---------------------------------------------------------------------

  predicate AllInRange(t: Cpt, ns: seq<NodeId>) {
    forall i :: 0 <= i < |ns| ==> InRange(t, ns[i])
  }

  /** The children of a node, none for an id outside the arena. */
  function Children(t: Cpt, n: NodeId): seq<NodeId> {
    if InRange(t, n) then t.nodes[Index0(n)].children else []
  }

  predicate IsLeaf(t: Cpt, n: NodeId) {
    InRange(t, n) && t.nodes[Index0(n)].children == []
  }

  /** The childless nodes of one round, in order. */
  function Leaves(t: Cpt, ns: seq<NodeId>): seq<NodeId> {
    if ns == [] then []
    else (if IsLeaf(t, ns[0]) then [ns[0]] else []) + Leaves(t, ns[1..])
  }

  /** `Leaves` keeps exactly the childless nodes of the round. */
  lemma {:induction false} LeavesMembers(t: Cpt, ns: seq<NodeId>, x: NodeId)
    ensures x in Leaves(t, ns) <==> x in ns && IsLeaf(t, x)
  {
    if ns != [] {
      assert x in ns <==> x == ns[0] || x in ns[1..];
      LeavesMembers(t, ns[1..], x);
    }
  }

  /** `x` is a child of some node of `ns`. */
  predicate ChildOfSome(t: Cpt, ns: seq<NodeId>, x: NodeId) {
    exists i :: 0 <= i < |ns| && x in Children(t, ns[i])
  }

  lemma ChildOfSomeCons(t: Cpt, ns: seq<NodeId>, x: NodeId)
    requires ns != []
    ensures ChildOfSome(t, ns, x) <==> x in Children(t, ns[0]) || ChildOfSome(t, ns[1..], x)
  {
    if i :| 0 <= i < |ns| && x in Children(t, ns[i]) {
      if i > 0 {
        assert ns[1..][i - 1] == ns[i];
      }
    }
    if i :| 0 <= i < |ns| - 1 && x in Children(t, ns[1..][i]) {
      assert ns[1..][i] == ns[i + 1];
    }
  }

  /** The next round: the children of every node of this one, in order
      (childless nodes contribute nothing, as the source's filter drops
      them). */
  function NextLevel(t: Cpt, ns: seq<NodeId>): (r: seq<NodeId>)
    ensures forall x :: x in r <==> ChildOfSome(t, ns, x)
  {
    if ns == [] then []
    else
      var rest := NextLevel(t, ns[1..]);
      assert forall x :: ChildOfSome(t, ns, x) <==> x in Children(t, ns[0]) || ChildOfSome(t, ns[1..], x) by {
        forall x ensures ChildOfSome(t, ns, x) <==> x in Children(t, ns[0]) || ChildOfSome(t, ns[1..], x) {
          ChildOfSomeCons(t, ns, x);
        }
      }
      Children(t, ns[0]) + rest
  }

  /** The `while current_node_ids.len() > 0` loop: collect the leaves of
      every round, descend to the children of the others. A missing node
      panics on `unwrap`. */
  function Descend(t: Cpt, ns: seq<NodeId>, fuel: nat): (r: Result<seq<NodeId>>)
    ensures r.Err? ==> r.error == NodeNotFound || r.error == Diverges
    ensures ns == [] ==> r == Ok([])
    decreases fuel
  {
    if ns == [] then Ok([])
    else if !AllInRange(t, ns) then Err(NodeNotFound)
    else if fuel == 0 then Err(Diverges)
    else
      var deeper :- Descend(t, NextLevel(t, ns), fuel - 1);
      Ok(Leaves(t, ns) + deeper)
  }

  /** `x` lies `k` child links below `y`. */
  predicate Reaches(t: Cpt, y: NodeId, x: NodeId, k: nat)
    decreases k
  {
    if k == 0 then x == y else exists c :: c in Children(t, y) && Reaches(t, c, x, k - 1)
  }

  /** `x` is a leaf some number of child links below a node of `ns`. */
  ghost predicate LeafBelow(t: Cpt, ns: seq<NodeId>, x: NodeId) {
    IsLeaf(t, x) && exists y, k :: y in ns && Reaches(t, y, x, k)
  }

  /** A completed descent returns exactly the leaves below its start
      nodes. */
  lemma DescendFindsLeaves(t: Cpt, ns: seq<NodeId>, fuel: nat, x: NodeId)
    requires Descend(t, ns, fuel).Ok?
    ensures x in Descend(t, ns, fuel).value <==> LeafBelow(t, ns, x)
  {
    if x in Descend(t, ns, fuel).value {
      DescendSound(t, ns, fuel, Descend(t, ns, fuel).value, x);
    }
    if LeafBelow(t, ns, x) {
      var y, k :| y in ns && Reaches(t, y, x, k);
      DescendComplete(t, ns, fuel, y, x, k);
    }
  }

  lemma ReachesCons(t: Cpt, y: NodeId, c: NodeId, x: NodeId, k: nat)
    requires c in Children(t, y) && Reaches(t, c, x, k)
    ensures Reaches(t, y, x, k + 1)
  {
  }

  /** One round of a completed descent. */
  lemma DescendStep(t: Cpt, ns: seq<NodeId>, fuel: nat)
    requires Descend(t, ns, fuel).Ok? && ns != []
    ensures fuel > 0 && AllInRange(t, ns)
    ensures Descend(t, NextLevel(t, ns), fuel - 1).Ok?
    ensures Descend(t, ns, fuel).value == Leaves(t, ns) + Descend(t, NextLevel(t, ns), fuel - 1).value
  {
  }

  lemma {:induction false} DescendSound(t: Cpt, ns: seq<NodeId>, fuel: nat, r: seq<NodeId>, x: NodeId)
    requires Descend(t, ns, fuel) == Ok(r) && x in r
    ensures LeafBelow(t, ns, x)
    decreases fuel
  {
    var next := NextLevel(t, ns);
    DescendStep(t, ns, fuel);
    var deeper := Descend(t, next, fuel - 1).value;
    if x in Leaves(t, ns) {
      LeavesMembers(t, ns, x);
      assert Reaches(t, x, x, 0);
    } else {
      assert x in deeper;
      DescendSound(t, next, fuel - 1, deeper, x);
      var y', k :| y' in next && Reaches(t, y', x, k);
      assert ChildOfSome(t, ns, y');
      var i :| 0 <= i < |ns| && y' in Children(t, ns[i]);
      ReachesCons(t, ns[i], y', x, k);
      assert ns[i] in ns;
    }
  }

  lemma DescendComplete(t: Cpt, ns: seq<NodeId>, fuel: nat, y: NodeId, x: NodeId, k: nat)
    requires Descend(t, ns, fuel).Ok? && IsLeaf(t, x) && y in ns && Reaches(t, y, x, k)
    ensures x in Descend(t, ns, fuel).value
  {
    ReachesInLevel(t, ns, y, x, k);
    DescendCoversLevel(t, ns, fuel, k, x);
  }

  /** The nodes `j` rounds below `ns`. */
  function Level(t: Cpt, ns: seq<NodeId>, j: nat): seq<NodeId>
    decreases j
  {
    if j == 0 then ns else Level(t, NextLevel(t, ns), j - 1)
  }

  lemma {:induction false} LevelOfNone(t: Cpt, j: nat)
    ensures Level(t, [], j) == []
  {
    if j > 0 {
      assert NextLevel(t, []) == [];
      LevelOfNone(t, j - 1);
    }
  }

  lemma {:induction false} ReachesInLevel(t: Cpt, ns: seq<NodeId>, y: NodeId, x: NodeId, k: nat)
    requires y in ns && Reaches(t, y, x, k)
    ensures x in Level(t, ns, k)
    decreases k
  {
    if k > 0 {
      var c := ReachesStep(t, y, x, k);
      var i :| 0 <= i < |ns| && ns[i] == y;
      assert ChildOfSome(t, ns, c);
      ReachesInLevel(t, NextLevel(t, ns), c, x, k - 1);
    }
  }

  lemma {:induction false} DescendCoversLevel(t: Cpt, ns: seq<NodeId>, fuel: nat, j: nat, x: NodeId)
    requires Descend(t, ns, fuel).Ok? && IsLeaf(t, x) && x in Level(t, ns, j)
    ensures x in Descend(t, ns, fuel).value
    decreases j
  {
    if ns == [] {
      LevelOfNone(t, j);
    } else {
      DescendStep(t, ns, fuel);
      if j == 0 {
        LeavesMembers(t, ns, x);
      } else {
        DescendCoversLevel(t, NextLevel(t, ns), fuel - 1, j - 1, x);
      }
    }
  }

  /** The first link of a non-empty descent. */
  lemma ReachesStep(t: Cpt, y: NodeId, x: NodeId, k: nat) returns (c: NodeId)
    requires Reaches(t, y, x, k) && k > 0
    ensures c in Children(t, y) && Reaches(t, c, x, k - 1)
  {
    c :| c in Children(t, y) && Reaches(t, c, x, k - 1);
  }

  // ---------------------------------------------------------------------
  // From leaves to training sequences
  // ---------------------------------------------------------------------

  /** `sequences_lookup_table.binary_search(leaf).unwrap_or_else(|x| x)`:
      the position of a probe answering `Equal`, else the point where the
      search closed. The table is in training order, not sorted, so the
      answer is only reliable when it happens to be ascending. */
  function SequenceIdOf(lookup: seq<NodeId>, leaf: NodeId): (r: nat)
    ensures r <= |lookup|
    ensures AscendingIds(lookup) && leaf in lookup ==> r < |lookup| && lookup[r] == leaf
  {
    var probe := (x: NodeId) => CompareIds(x, leaf);
    assert AscendingIds(lookup) ==> Partitioned(lookup, probe);
    match BinarySearchBy(lookup, probe)
    case Found(i) => i
    case NotFound(i) => i
  }

  /** The position of the first training sequence ending at `leaf`, or the
      length of the table when none does. */
  function PositionOf(lookup: seq<NodeId>, leaf: NodeId): (r: nat)
    ensures r <= |lookup|
    ensures r < |lookup| ==> lookup[r] == leaf && forall i :: 0 <= i < r ==> lookup[i] != leaf
    ensures r == |lookup| <==> leaf !in lookup
  {
    if lookup == [] then 0
    else if lookup[0] == leaf then 0
    else
      var r := 1 + PositionOf(lookup[1..], leaf);
      assert forall i :: 1 <= i < |lookup| ==> lookup[i] == lookup[1..][i - 1];
      assert leaf in lookup ==> leaf in lookup[1..];
      r
  }

  predicate AscendingIds(lookup: seq<NodeId>) {
    forall i, j :: 0 <= i < j < |lookup| ==> lookup[i].index1 < lookup[j].index1
  }

  /** On an ascending table the binary search names a training sequence
      ending at the leaf exactly when there is one, and then it is the one
      the linear scan finds. When there is none it gives the insertion
      point, which may name another training sequence. */
  lemma SearchAgreesWhenAscending(lookup: seq<NodeId>, leaf: NodeId)
    requires AscendingIds(lookup)
    ensures (SequenceIdOf(lookup, leaf) < |lookup| && lookup[SequenceIdOf(lookup, leaf)] == leaf) <==> leaf in lookup
    ensures leaf in lookup ==> SequenceIdOf(lookup, leaf) == PositionOf(lookup, leaf)
    ensures leaf !in lookup ==>
      (forall i :: 0 <= i < SequenceIdOf(lookup, leaf) ==> lookup[i].index1 < leaf.index1) &&
      (forall i :: SequenceIdOf(lookup, leaf) <= i < |lookup| ==> leaf.index1 < lookup[i].index1)
  {
    var probe := (x: NodeId) => CompareIds(x, leaf);
    assert Partitioned(lookup, probe);
    var r := BinarySearchBy(lookup, probe);
    if r.NotFound? {
      assert forall i :: 0 <= i < |lookup| ==> probe(lookup[i]) != Equal;
    }
  }

  /** The training-sequence ids one prefix symbol selects: none when the
      symbol is not in the tree, else one per leaf below its nodes. */
  function IdsFor(t: Cpt, v: Symbol, locate: Locator): (r: Result<seq<nat>>)
    requires Valid(t.index)
    ensures r.Err? ==> r.error == NodeNotFound || r.error == Diverges
    ensures r.Ok? ==> Descend(t, Bag(t.index, v), Fuel(t)).Ok?
    ensures r.Ok? ==> var leaves := Descend(t, Bag(t.index, v), Fuel(t)).value;
      |r.value| == |leaves| && forall i :: 0 <= i < |leaves| ==> r.value[i] == locate(t.lookup, leaves[i])
    ensures r.Ok? ==> forall k :: k in r.value <==>
      exists x :: x in Descend(t, Bag(t.index, v), Fuel(t)).value && k == locate(t.lookup, x)
  {
    match GetValueIds(t.index, v)
    case None => Ok([])
    case Some(ids) =>
      var leaves :- Descend(t, ids, Fuel(t));
      var r := seq(|leaves|, i requires 0 <= i < |leaves| => locate(t.lookup, leaves[i]));
      assert forall k :: k in r <==> exists x :: x in leaves && k == locate(t.lookup, x) by {
        forall k ensures k in r <==> exists x :: x in leaves && k == locate(t.lookup, x) {
          if k in r {
            var i :| 0 <= i < |r| && r[i] == k;
            assert leaves[i] in leaves;
          }
          if x :| x in leaves && k == locate(t.lookup, x) {
            var i :| 0 <= i < |leaves| && leaves[i] == x;
            assert r[i] == k;
          }
        }
      }
      Ok(r)
  }

  /** `all_match_sequence_ids.concat()`, one part per prefix symbol. */
  function IdsForAll(t: Cpt, vs: seq<Symbol>, locate: Locator): (r: Result<seq<nat>>)
    requires Valid(t.index)
    ensures r.Err? ==> r.error == NodeNotFound || r.error == Diverges
    ensures r.Ok? ==> forall v :: v in vs ==> IdsFor(t, v, locate).Ok?
    ensures r.Ok? ==> forall k :: k in r.value <==> exists v :: v in vs && k in IdsFor(t, v, locate).value
  {
    if vs == [] then Ok([])
    else
      var head :- IdsFor(t, vs[0], locate);
      var tail :- IdsForAll(t, vs[1..], locate);
      assert forall v :: v in vs <==> v == vs[0] || v in vs[1..];
      Ok(head + tail)
  }

  /** `unique_matched_sequence_ids`: the distinct selected ids,
      ascending. */
  function Candidates(t: Cpt, q: seq<Symbol>, n: nat, locate: Locator): (r: Result<seq<nat>>)
    requires Valid(t.index)
    ensures r.Ok? ==> n <= |q|
    ensures n > |q| ==> r == Err(PrefixTooLong)
    ensures r.Err? ==> r.error in {PrefixTooLong, NodeNotFound, Diverges}
    ensures r.Ok? ==> StrictlyAscending(r.value, (a: nat, b: nat) => a < b)
    ensures r.Ok? ==> forall k :: k in r.value <==>
      exists v :: v in q[|q| - n..] && IdsFor(t, v, locate).Ok? && k in IdsFor(t, v, locate).value
  {
    var p :- Prefix(q, n);
    var all :- IdsForAll(t, PrefixSet(p), locate);
    NatLessIsStrictTotalOrder();
    Ok(SortDedup(all, (a: nat, b: nat) => a < b))
  }

  // ---------------------------------------------------------------------
  // Consequents
  // ---------------------------------------------------------------------

  /** The `k`-th ancestor of `n`, following parent links. */
  function Up(t: Cpt, n: NodeId, k: nat): Option<NodeId>
    decreases k
  {
    if k == 0 then Some(n)
    else if InRange(t, n) && t.nodes[Index0(n)].parent.Some? then Up(t, t.nodes[Index0(n)].parent.value, k - 1)
    else None
  }

  /** Some node of the arena holds `d`. */
  predicate Held(t: Cpt, d: Symbol) {
    exists i :: 0 <= i < |t.nodes| && t.nodes[i].data == Some(d)
  }

  /** The `while let Some(current_node) = self.get(..)` loop from one node:
      the data met on the way up, until a node outside the arena, a symbol
      of the query, or a node without parent. A node without data makes
      the source loop forever in place. */
  function Walk(t: Cpt, q: seq<Symbol>, n: NodeId, fuel: nat): (r: Result<seq<Symbol>>)
    ensures r.Err? ==> r.error == Diverges
    ensures r.Ok? ==> forall i :: 0 <= i < |r.value| ==> r.value[i] !in q && Held(t, r.value[i])
    ensures r.Ok? ==> forall i :: 0 <= i < |r.value| ==>
      Up(t, n, i).Some? && InRange(t, Up(t, n, i).value) && DataAt(t, Up(t, n, i).value) == Some(r.value[i])
    ensures r.Ok? ==> var e := Up(t, n, |r.value|);
      e.None? || !InRange(t, e.value) || (DataAt(t, e.value).Some? && DataAt(t, e.value).value in q)
    decreases fuel
  {
    if !InRange(t, n) then Ok([])
    else
      var node := t.nodes[Index0(n)];
      match node.data
      case None => Err(Diverges)
      case Some(d) =>
        if d in q then Ok([])
        else if node.parent.None? then Ok([d])
        else if fuel == 0 then Err(Diverges)
        else
          var rest :- Walk(t, q, node.parent.value, fuel - 1);
          var r := [d] + rest;
          assert forall i :: 1 <= i < |r| ==> r[i] == rest[i - 1] && Up(t, n, i) == Up(t, node.parent.value, i - 1);
          Ok(r)
  }

  /** The consequent of one selected training sequence; an id past the end
      of the table selects nothing. */
  function ConsequentOf(t: Cpt, q: seq<Symbol>, k: nat): (r: Result<seq<Symbol>>)
    ensures r.Err? ==> r.error == Diverges
    ensures k >= |t.lookup| ==> r == Ok([])
    ensures r.Ok? ==> forall i :: 0 <= i < |r.value| ==> r.value[i] !in q && Held(t, r.value[i])
  {
    if k < |t.lookup| then Walk(t, q, t.lookup[k], Fuel(t)) else Ok([])
  }

  /** The consequents of all selected sequences, one after the other. */
  function Consequents(t: Cpt, q: seq<Symbol>, ks: seq<nat>): (r: Result<seq<Symbol>>)
    ensures r.Err? ==> r.error == Diverges
    ensures r.Ok? <==> forall i :: 0 <= i < |ks| ==> ConsequentOf(t, q, ks[i]).Ok?
    ensures r.Ok? ==> forall d :: d in r.value ==> d !in q && Held(t, d)
  {
    if ks == [] then Ok([])
    else
      var head :- ConsequentOf(t, q, ks[0]);
      var tail :- Consequents(t, q, ks[1..]);
      assert forall i :: 1 <= i < |ks| ==> ks[i] == ks[1..][i - 1];
      Ok(head + tail)
  }

  // ---------------------------------------------------------------------
  // Support and confidence
  // ---------------------------------------------------------------------

  function SupportOf(m: Support, d: Symbol): nat {
    if m == [] then 0 else if m[0].0 == d then m[0].1 else SupportOf(m[1..], d)
  }

  function Items(m: Support): seq<Symbol> {
    seq(|m|, i requires 0 <= i < |m| => m[i].0)
  }

  lemma DistinctCons<T>(x: T, s: seq<T>)
    ensures Distinct([x] + s) <==> x !in s && Distinct(s)
  {
    var r := [x] + s;
    assert r[1..] == s;
    if x !in s && Distinct(s) {
      forall i, j | 0 <= i < j < |r| ensures r[i] != r[j] {
        if i > 0 {
          assert r[i] == s[i - 1] && r[j] == s[j - 1];
        } else {
          assert r[j] in s;
        }
      }
    }
    if Distinct(r) {
      forall i, j | 0 <= i < j < |s| ensures s[i] != s[j] {
        assert r[i + 1] == s[i] && r[j + 1] == s[j];
      }
      forall j | 0 <= j < |s| ensures s[j] != x {
        assert r[0] == x && r[j + 1] == s[j];
      }
    }
  }

  lemma ItemsCons(e: (Symbol, nat), m: Support)
    ensures Items([e] + m) == [e.0] + Items(m)
  {
  }

  /** `*count.entry(d).or_insert(0) += 1`. */
  function CountOne(m: Support, d: Symbol): (r: Support)
    ensures SupportOf(r, d) == SupportOf(m, d) + 1
    ensures forall e :: e != d ==> SupportOf(r, e) == SupportOf(m, e)
    ensures forall e :: e in Items(r) <==> e in Items(m) || e == d
    ensures Distinct(Items(m)) ==> Distinct(Items(r))
  {
    if m == [] then
      assert Items([(d, 1)]) == [d];
      [(d, 1)]
    else
      assert m == [m[0]] + m[1..];
      ItemsCons(m[0], m[1..]);
      DistinctCons(m[0].0, Items(m[1..]));
      if m[0].0 == d then
        var r := [(d, m[0].1 + 1)] + m[1..];
        ItemsCons((d, m[0].1 + 1), m[1..]);
        DistinctCons(d, Items(m[1..]));
        r
      else
        var rest := CountOne(m[1..], d);
        var r := [m[0]] + rest;
        assert r[1..] == rest;
        ItemsCons(m[0], rest);
        DistinctCons(m[0].0, Items(rest));
        r
  }

  /** The counting over every consequent symbol, in order. */
  function CountAll(m: Support, xs: seq<Symbol>): (r: Support)
    ensures forall e :: e in Items(r) <==> e in Items(m) || e in xs
    ensures Distinct(Items(m)) ==> Distinct(Items(r))
    decreases |xs|
  {
    if xs == [] then m
    else
      assert forall e :: e in xs <==> e == xs[0] || e in xs[1..];
      CountAll(CountOne(m, xs[0]), xs[1..])
  }

  /** The support of each symbol is its number of occurrences among the
      consequents. */
  lemma {:induction false} CountAllCounts(m: Support, xs: seq<Symbol>, d: Symbol)
    ensures SupportOf(CountAll(m, xs), d) == SupportOf(m, d) + Count(xs, d)
    decreases |xs|
  {
    if xs != [] {
      CountAllCounts(CountOne(m, xs[0]), xs[1..], d);
    }
  }

  /** `support as f32 / bag.len() as f32`, on exact reals. */
  function Confidence(support: nat, size: nat): (r: real)
    requires size > 0
    ensures r * (size as real) == support as real
  {
    support as real / size as real
  }

  /** `scored` carries the item, support and confidence of each entry of `m`. */
  predicate Scores(ix: Index, m: Support, scored: seq<Prediction>)
    requires Valid(ix)
  {
    && |scored| == |m|
    && forall i :: 0 <= i < |m| ==> ScoredFrom(ix, m[i], scored[i])
  }

  /** `p` is the prediction for the count `e`: same item, same support,
      rated against its bag. */
  predicate ScoredFrom(ix: Index, e: (Symbol, nat), p: Prediction)
    requires Valid(ix)
  {
    p.item == e.0 && p.support == e.1 && Rated(ix, p)
  }

  /** The confidence of `p` is its support over the size of its bag. */
  predicate Rated(ix: Index, p: Prediction)
    requires Valid(ix)
  {
    p.confidence * (|Bag(ix, p.item)| as real) == p.support as real
  }

  /** The confidence of each counted item: its support over the size of
      its bag; an item missing from the index panics on `expect`. */
  function Score(ix: Index, m: Support): (r: Result<seq<Prediction>>)
    requires Valid(ix)
    ensures r.Ok? <==> forall i :: 0 <= i < |m| ==> m[i].0 in ix.values
    ensures r.Err? ==> r.error == ValueNotIndexed
    ensures r.Ok? ==> Scores(ix, m, r.value)
  {
    if m == [] then Ok([])
    else if m[0].0 !in ix.values then Err(ValueNotIndexed)
    else
      var head := ScoreOne(ix, m[0]);
      var tail :- Score(ix, m[1..]);
      ScoresCons(ix, m, head, tail);
      Ok([head] + tail)
  }

  /** The prediction for one indexed count. */
  function ScoreOne(ix: Index, e: (Symbol, nat)): (p: Prediction)
    requires Valid(ix) && e.0 in ix.values
    ensures ScoredFrom(ix, e, p)
  {
    Prediction(e.0, e.1, Confidence(e.1, |Bag(ix, e.0)|))
  }

  lemma ScoresCons(ix: Index, m: Support, head: Prediction, tail: seq<Prediction>)
    requires Valid(ix) && m != [] && Scores(ix, m[1..], tail)
    requires ScoredFrom(ix, m[0], head)
    ensures Scores(ix, m, [head] + tail)
  {
    var r := [head] + tail;
    forall i | 1 <= i < |m|
      ensures ScoredFrom(ix, m[i], r[i])
    {
      assert m[i] == m[1..][i - 1] && r[i] == tail[i - 1];
    }
  }

  // ---------------------------------------------------------------------
  // Ranking
  // ---------------------------------------------------------------------

  function SupportKey(): Prediction -> real {
    (p: Prediction) => p.support as real
  }

  function ConfidenceKey(): Prediction -> real {
    (p: Prediction) => p.confidence
  }

  /** Best first: higher support, and among equal supports higher
      confidence. */
  predicate BestFirst(ps: seq<Prediction>) {
    forall i, j :: 0 <= i < j < |ps| ==>
      ps[i].support > ps[j].support || (ps[i].support == ps[j].support && ps[i].confidence >= ps[j].confidence)
  }

  function Reverse<T>(xs: seq<T>): (r: seq<T>)
    ensures |r| == |xs| && forall i :: 0 <= i < |xs| ==> r[i] == xs[|xs| - 1 - i]
    ensures multiset(r) == multiset(xs)
  {
    if xs == [] then []
    else
      var r := Reverse(xs[1..]) + [xs[0]];
      assert xs == [xs[0]] + xs[1..];
      r
  }

  /** The `sort_by` on (support, confidence) followed by `reverse()`. The
      source's comparator never answers `Equal`, so the order among items
      with equal support and confidence is left to the sorting algorithm;
      the model fixes one: confidence first, then support, both stable. */
  function RankPredictions(ps: seq<Prediction>): (r: seq<Prediction>)
    ensures multiset(r) == multiset(ps)
    ensures BestFirst(r)
  {
    var byConfidence := SortBy(ps, ConfidenceKey());
    var ascending := SortBy(byConfidence, SupportKey());
    SecondSortIsPrimary(byConfidence, ConfidenceKey(), SupportKey());
    ReversedIsBestFirst(ascending);
    Reverse(ascending)
  }

  /** Reversing a list sorted by support, then confidence, puts the best
      first. */
  lemma ReversedIsBestFirst(xs: seq<Prediction>)
    requires LexSorted(xs, SupportKey(), ConfidenceKey())
    ensures BestFirst(Reverse(xs))
  {
    var r := Reverse(xs);
    forall i, j | 0 <= i < j < |r|
      ensures r[i].support > r[j].support || (r[i].support == r[j].support && r[i].confidence >= r[j].confidence)
    {
      var a := |r| - 1 - j;
      var b := |r| - 1 - i;
      assert r[i] == xs[b] && r[j] == xs[a] && a < b;
      assert SupportKey()(xs[a]) <= SupportKey()(xs[b]);
      assert SupportKey()(xs[a]) == SupportKey()(xs[b]) ==> ConfidenceKey()(xs[a]) <= ConfidenceKey()(xs[b]);
    }
  }

  // ---------------------------------------------------------------------
  // predict
  // ---------------------------------------------------------------------

  /** The predictions tell, for every symbol of the consequents `cs` and
      nothing else, how often it occurs there and what share of its
      occurrences in the tree that is. */
  predicate Describes(ps: seq<Prediction>, cs: seq<Symbol>, ix: Index, q: seq<Symbol>)
    requires Valid(ix)
  {
    && Explains(ps, cs, ix, q)
    && (forall d :: d in cs ==> exists i :: 0 <= i < |ps| && ps[i].item == d)
    && (forall i, j :: 0 <= i < j < |ps| ==> ps[i].item != ps[j].item)
  }

  /** Each prediction, on its own, is a consequent symbol outside the
      query with its count and confidence. */
  predicate Explains(ps: seq<Prediction>, cs: seq<Symbol>, ix: Index, q: seq<Symbol>)
    requires Valid(ix)
  {
    forall i :: 0 <= i < |ps| ==> Explained(ps[i], cs, ix, q)
  }

  predicate Explained(p: Prediction, cs: seq<Symbol>, ix: Index, q: seq<Symbol>)
    requires Valid(ix)
  {
    && p.item in cs && p.item !in q
    && p.support == Count(cs, p.item)
    && Rated(ix, p)
  }

  /** The prediction pipeline with a given way of locating sequences. */
  function PredictWith(t: Cpt, q: seq<Symbol>, n: nat, locate: Locator): (r: Result<seq<Prediction>>)
    requires Valid(t.index)
    ensures n > |q| ==> r == Err(PrefixTooLong)
    ensures r.Err? ==> r.error in {PrefixTooLong, NodeNotFound, Diverges, ValueNotIndexed}
    ensures r.Ok? ==> BestFirst(r.value)
  {
    var ks :- Candidates(t, q, n, locate);
    var cs :- Consequents(t, q, ks);
    var scored :- Score(t.index, CountAll([], cs));
    Ok(RankPredictions(scored))
  }

  /** A prediction reports exactly the symbols of the consequents of the
      selected sequences, each with its support and confidence. */
  lemma PredictReportsSupport(t: Cpt, q: seq<Symbol>, n: nat, locate: Locator)
    requires Valid(t.index) && PredictWith(t, q, n, locate).Ok?
    ensures Candidates(t, q, n, locate).Ok? && Consequents(t, q, Candidates(t, q, n, locate).value).Ok?
    ensures Describes(PredictWith(t, q, n, locate).value, Consequents(t, q, Candidates(t, q, n, locate).value).value, t.index, q)
  {
    var ks := Candidates(t, q, n, locate).value;
    var cs := Consequents(t, q, ks).value;
    var m := CountAll([], cs);
    var scored := Score(t.index, m).value;
    assert PredictWith(t, q, n, locate).value == RankPredictions(scored);
    CountAllTallies(cs);
    PredictionsDescribeSupport(m, cs, scored, RankPredictions(scored), t.index, q);
  }

  /** What the ranked predictions say about the consequents they were
      counted from. */
  lemma PredictionsDescribeSupport(m: Support, cs: seq<Symbol>, scored: seq<Prediction>, r: seq<Prediction>, ix: Index, q: seq<Symbol>)
    requires Valid(ix) && Tallies(m, cs) && Scores(ix, m, scored)
    requires multiset(r) == multiset(scored)
    requires forall d :: d in cs ==> d !in q
    ensures Describes(r, cs, ix, q)
  {
    ScoredDescribes(m, cs, scored, ix, q);
    DescribesPermutation(r, scored, cs, ix, q);
  }

  /** `m` holds each symbol of `cs` once, with its number of occurrences. */
  predicate Tallies(m: Support, cs: seq<Symbol>) {
    && Distinct(Items(m))
    && (forall j :: 0 <= j < |m| ==> m[j].0 in cs && m[j].1 == Count(cs, m[j].0))
    && (forall d :: d in cs ==> d in Items(m))
  }

  /** The support counting tallies the consequents. */
  lemma CountAllTallies(cs: seq<Symbol>)
    ensures Tallies(CountAll([], cs), cs)
  {
    var m := CountAll([], cs);
    assert Distinct(Items([]));
    forall j | 0 <= j < |m| ensures m[j].0 in cs && m[j].1 == Count(cs, m[j].0) {
      assert Items(m)[j] == m[j].0;
      CountAllCounts([], cs, m[j].0);
      DistinctSupport(m, j);
    }
  }

  /** The scored counts, before ranking, describe the consequents. */
  lemma ScoredDescribes(m: Support, cs: seq<Symbol>, scored: seq<Prediction>, ix: Index, q: seq<Symbol>)
    requires Valid(ix) && Tallies(m, cs) && Scores(ix, m, scored)
    requires forall d :: d in cs ==> d !in q
    ensures Describes(scored, cs, ix, q)
  {
    forall j | 0 <= j < |scored| ensures Explained(scored[j], cs, ix, q) {
    }
    forall d | d in cs ensures exists i :: 0 <= i < |scored| && scored[i].item == d {
      var j :| 0 <= j < |m| && Items(m)[j] == d;
      assert scored[j].item == d;
    }
    forall x, y | 0 <= x < y < |scored| ensures scored[x].item != scored[y].item {
      assert Items(m)[x] != Items(m)[y];
    }
  }

  /** Ranking only reorders, so it keeps the description. */
  lemma DescribesPermutation(r: seq<Prediction>, s: seq<Prediction>, cs: seq<Symbol>, ix: Index, q: seq<Symbol>)
    requires Valid(ix) && Describes(s, cs, ix, q) && multiset(r) == multiset(s)
    ensures Describes(r, cs, ix, q)
  {
    forall i | 0 <= i < |r| ensures Explained(r[i], cs, ix, q) {
      assert r[i] in multiset(s);
      var j :| 0 <= j < |s| && s[j] == r[i];
    }
    forall d | d in cs ensures exists i :: 0 <= i < |r| && r[i].item == d {
      var j :| 0 <= j < |s| && s[j].item == d;
      assert s[j] in multiset(r);
      var i :| 0 <= i < |r| && r[i] == s[j];
    }
    DistinctPermutation(r, s);
    forall i, j | 0 <= i < j < |r| ensures r[i].item != r[j].item {
      assert r[i] in multiset(s) && r[j] in multiset(s);
      var a :| 0 <= a < |s| && s[a] == r[i];
      var b :| 0 <= b < |s| && s[b] == r[j];
    }
  }

  lemma {:induction false} DistinctSupport(m: Support, j: nat)
    requires Distinct(Items(m)) && j < |m|
    ensures SupportOf(m, m[j].0) == m[j].1
  {
    if j > 0 {
      assert Items(m)[0] != Items(m)[j];
      assert Items(m[1..]) == Items(m)[1..];
      DistinctSupport(m[1..], j - 1);
    }
  }

  /** A permutation of a list of distinct values has distinct values. */
  lemma DistinctPermutation(r: seq<Prediction>, s: seq<Prediction>)
    requires multiset(r) == multiset(s)
    requires forall x, y :: 0 <= x < y < |s| ==> s[x] != s[y]
    ensures forall i, j :: 0 <= i < j < |r| ==> r[i] != r[j]
  {
    forall i, j | 0 <= i < j < |r| ensures r[i] != r[j] {
      if r[i] == r[j] {
        assert multiset(r)[r[i]] >= 2 by {
          assert r == r[..j] + r[j..];
          assert r[i] in r[..j];
          assert r[j] in r[j..];
        }
        DistinctMultiplicity(s, r[i]);
        assert false;
      }
    }
  }

  lemma {:induction false} DistinctMultiplicity(s: seq<Prediction>, x: Prediction)
    requires forall a, b :: 0 <= a < b < |s| ==> s[a] != s[b]
    ensures multiset(s)[x] <= 1
  {
    if s != [] {
      assert s == [s[0]] + s[1..];
      DistinctMultiplicity(s[1..], x);
      if s[0] == x {
        assert x !in s[1..];
      }
    }
  }

  /** `CPT::predict`. */
  function Predict(t: Cpt, q: seq<Symbol>, n: nat): (r: Result<seq<Prediction>>)
    requires Valid(t.index)
    ensures n > |q| ==> r == Err(PrefixTooLong)
    ensures r.Ok? ==> BestFirst(r.value)
  {
    PredictWith(t, q, n, BinaryPosition())
  }

  /** The source's locator: the binary search over the lookup table. */
  function BinaryPosition(): Locator {
    (lookup: seq<NodeId>, leaf: NodeId) => SequenceIdOf(lookup, leaf)
  }
}
