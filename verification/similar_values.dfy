/** Scored lookup in the inverted index (src/cpt.rs,
    `InvertedIndex::get_similar_value_ids`). The hash map it returns is
    modelled as an association list in insertion order; every contract below
    speaks of its key set and of the list held under each key, never of the
    order of the keys. */
module SimilarValues {
  import opened Common
  import opened DataTypes
  import opened Nodes
  import opened InvertedIndex

  type Scored = (MatchFunction, Score)

  /** `HashMap<NodeId, Vec<(SequenceMatchFunction, SimilarityScores)>>`. */
  type ScoreTable = seq<(NodeId, seq<Scored>)>

  function Keys(m: ScoreTable): set<NodeId> {
    if m == [] then {} else {m[0].0} + Keys(m[1..])
  }

  function Lookup(m: ScoreTable, n: NodeId): (r: Option<seq<Scored>>)
    ensures r.Some? <==> n in Keys(m)
  {
    if m == [] then None else if m[0].0 == n then Some(m[0].1) else Lookup(m[1..], n)
  }

  /** The list held under `n`, empty when `n` is not a key. */
  function Entries(m: ScoreTable, n: NodeId): seq<Scored> {
    Lookup(m, n).GetOr([])
  }

  /** Keys are distinct and no key holds an empty list. */
  predicate WellFormedTable(m: ScoreTable) {
    m == [] || (m[0].0 !in Keys(m[1..]) && m[0].1 != [] && WellFormedTable(m[1..]))
  }

  lemma {:induction false} KeyHasEntries(m: ScoreTable, n: NodeId)
    requires WellFormedTable(m)
    ensures n in Keys(m) <==> Entries(m, n) != []
  {
    if m != [] && m[0].0 != n {
      KeyHasEntries(m[1..], n);
    }
  }

  /** Every score is of the variant its metric produces. */
  predicate WellTagged(xs: seq<Scored>) {
    forall i :: 0 <= i < |xs| ==> ProducedBy(xs[i].1, xs[i].0)
  }

  predicate TableTagged(m: ScoreTable) {
    forall i :: 0 <= i < |m| ==> WellTagged(m[i].1)
  }

  /** `entry(n).or_insert(vec![]).push(e)`. */
  function Push(m: ScoreTable, n: NodeId, e: Scored): (r: ScoreTable)
    ensures Entries(r, n) == Entries(m, n) + [e]
    ensures forall x :: x != n ==> Lookup(r, x) == Lookup(m, x)
    ensures Keys(r) == Keys(m) + {n}
    ensures WellFormedTable(m) ==> WellFormedTable(r)
    ensures TableTagged(m) && ProducedBy(e.1, e.0) ==> TableTagged(r)
  {
    if m == [] then [(n, [e])]
    else if m[0].0 == n then [(n, m[0].1 + [e])] + m[1..]
    else
      var rest := Push(m[1..], n, e);
      assert ([m[0]] + rest)[1..] == rest;
      [m[0]] + rest
  }

  /** `e` repeated `k` times. */
  function Repeat(e: Scored, k: nat): seq<Scored> {
    if k == 0 then [] else [e] + Repeat(e, k - 1)
  }

  /** Pushing the same entry for every id of a bag, in order. */
  function PushAll(m: ScoreTable, ns: seq<NodeId>, e: Scored): (r: ScoreTable)
    ensures forall x :: x in Keys(r) <==> x in Keys(m) || x in ns
    ensures WellFormedTable(m) ==> WellFormedTable(r)
    ensures TableTagged(m) && ProducedBy(e.1, e.0) ==> TableTagged(r)
    decreases |ns|
  {
    if ns == [] then m else PushAll(Push(m, ns[0], e), ns[1..], e)
  }

  /** Each key receives one copy of the entry per occurrence in the bag. */
  lemma {:induction false} PushAllEntries(m: ScoreTable, ns: seq<NodeId>, e: Scored, x: NodeId)
    ensures Entries(PushAll(m, ns, e), x) == Entries(m, x) + Repeat(e, Count(ns, x))
    decreases |ns|
  {
    if ns != [] {
      var pushed := Push(m, ns[0], e);
      assert PushAll(m, ns, e) == PushAll(pushed, ns[1..], e);
      PushAllEntries(pushed, ns[1..], e, x);
      var extra: seq<Scored> := if x == ns[0] then [e] else [];
      PushedEntries(m, ns[0], e, x);
      RepeatCount(e, ns, x);
      ConcatAssoc(Entries(m, x), extra, Repeat(e, Count(ns[1..], x)));
    }
  }

  /** What one push adds to the list of `x`. */
  lemma PushedEntries(m: ScoreTable, n: NodeId, e: Scored, x: NodeId)
    ensures Entries(Push(m, n, e), x) == Entries(m, x) + (if x == n then [e] else [])
  {
    if x != n {
      assert Entries(m, x) + [] == Entries(m, x);
    }
  }

  /** The copies owed to `x` for a bag: one for its first id if that is
      `x`, then those for the rest. */
  lemma RepeatCount(e: Scored, ns: seq<NodeId>, x: NodeId)
    requires ns != []
    ensures Repeat(e, Count(ns, x)) == (if x == ns[0] then [e] else []) + Repeat(e, Count(ns[1..], x))
  {
    if x != ns[0] {
      assert [] + Repeat(e, Count(ns[1..], x)) == Repeat(e, Count(ns[1..], x));
    }
  }

  /** The symbol whose bag holds `n`, searched from position `i` on. */
  function ValueFrom(ix: Index, n: NodeId, i: nat): (r: Option<Symbol>)
    requires |ix.values| == |ix.nodeIds| && i <= |ix.values|
    ensures r.Some? ==> r.value in ix.values
    ensures r.Some? ==> exists j :: i <= j < |ix.values| && n in ix.nodeIds[j]
    ensures r.None? ==> forall j :: i <= j < |ix.values| ==> n !in ix.nodeIds[j]
    decreases |ix.values| - i
  {
    if i == |ix.values| then None
    else if n in ix.nodeIds[i] then Some(ix.values[i])
    else ValueFrom(ix, n, i + 1)
  }

  /** The symbol stored under node `n` according to the index. */
  function ValueOf(ix: Index, n: NodeId): (r: Option<Symbol>)
    requires |ix.values| == |ix.nodeIds|
    ensures r.Some? <==> n in AllIds(ix)
    ensures r.Some? ==> r.value in ix.values
  {
    var r := ValueFrom(ix, n, 0);
    assert r.Some? ==> n in AllIds(ix) by {
      if r.Some? {
        var j :| 0 <= j < |ix.values| && n in ix.nodeIds[j];
        var k :| 0 <= k < |ix.nodeIds[j]| && ix.nodeIds[j][k] == n;
      }
    }
    assert n in AllIds(ix) ==> r.Some? by {
      if n in AllIds(ix) {
        var a, b :| 0 <= a < |ix.nodeIds| && 0 <= b < |ix.nodeIds[a]| && ix.nodeIds[a][b] == n;
        assert n in ix.nodeIds[a];
      }
    }
    r
  }

  /** Metric `f` can be computed between every stored value and `v`. */
  predicate ComputableFor(ix: Index, f: MatchFunction, v: Symbol) {
    forall i :: 0 <= i < |ix.values| ==> ComputeSimilarity(ix.values[i], f, v).Ok?
  }

  /** Every requested metric can be computed against every stored value
      (only `AlgebraicDistance` can fail, on a `U8`). */
  predicate Computable(ix: Index, fs: seq<MatchFunction>, v: Symbol) {
    forall k :: 0 <= k < |fs| ==> ComputableFor(ix, fs[k], v)
  }

  /** The entry one metric contributes to node `n`: for `StrictEqual`, an
      "equal" tag when the node holds `v` itself; for any other metric, the
      score of the node's own value against `v` whenever the node is in the
      index. */
  function MetricEntry(ix: Index, f: MatchFunction, v: Symbol, n: NodeId): seq<Scored>
    requires Valid(ix) && ComputableFor(ix, f, v)
  {
    if f == StrictEqual then
      (if n in Bag(ix, v) then [(StrictEqual, IsEqual(true))] else [])
    else
      match ValueOf(ix, n)
      case None => []
      case Some(w) => [(f, ComputeSimilarity(w, f, v).value)]
  }

  /** Reference definition, node by node: the entries of the requested
      metrics, in request order. */
  function Expected(ix: Index, fs: seq<MatchFunction>, v: Symbol, n: NodeId): seq<Scored>
    requires Valid(ix) && Computable(ix, fs, v)
  {
    if fs == [] then [] else MetricEntry(ix, fs[0], v, n) + Expected(ix, fs[1..], v, n)
  }

  /** `get_similar_value_ids(fs, v)`. */
  function GetSimilarValueIds(ix: Index, fs: seq<MatchFunction>, v: Symbol): (r: Result<ScoreTable>)
    requires Valid(ix)
    ensures r.Ok? <==> Computable(ix, fs, v)
    ensures r.Err? ==> r.error == CannotCompare
    ensures r.Ok? ==> WellFormedTable(r.value)
    ensures r.Ok? ==> TableTagged(r.value)
    ensures r.Ok? && IdsUnique(ix) ==> forall n :: Entries(r.value, n) == Expected(ix, fs, v, n)
  {
    var r := FoldMetrics(ix, fs, v, []);
    assert r.Ok? && IdsUnique(ix) ==> forall n :: Entries(r.value, n) == Expected(ix, fs, v, n) by {
      if r.Ok? && IdsUnique(ix) {
        forall n ensures Entries(r.value, n) == Expected(ix, fs, v, n) {
          FoldMetricsEntries(ix, fs, v, [], n);
        }
      }
    }
    r
  }

  /** The outer loop over the requested metrics, in request order. */
  function FoldMetrics(ix: Index, fs: seq<MatchFunction>, v: Symbol, acc: ScoreTable): (r: Result<ScoreTable>)
    requires Valid(ix)
    ensures r.Ok? <==> Computable(ix, fs, v)
    ensures r.Err? ==> r.error == CannotCompare
    ensures r.Ok? && WellFormedTable(acc) ==> WellFormedTable(r.value)
    ensures r.Ok? && TableTagged(acc) ==> TableTagged(r.value)
    decreases |fs|
  {
    if fs == [] then Ok(acc)
    else
      ComputableCons(ix, fs, v);
      var next :- AddMetric(ix, fs[0], v, acc);
      FoldMetrics(ix, fs[1..], v, next)
  }

  lemma ComputableCons(ix: Index, fs: seq<MatchFunction>, v: Symbol)
    requires fs != []
    ensures Computable(ix, fs, v) <==> ComputableFor(ix, fs[0], v) && Computable(ix, fs[1..], v)
  {
    assert forall k :: 0 <= k < |fs| - 1 ==> fs[1..][k] == fs[k + 1];
  }

  /** With unique ids, the table holds under each node exactly the entries
      of the reference definition, after whatever it held before. */
  lemma {:induction false} FoldMetricsEntries(ix: Index, fs: seq<MatchFunction>, v: Symbol, acc: ScoreTable, n: NodeId)
    requires Valid(ix) && IdsUnique(ix) && Computable(ix, fs, v)
    ensures FoldMetrics(ix, fs, v, acc).Ok?
    ensures Entries(FoldMetrics(ix, fs, v, acc).value, n) == Entries(acc, n) + Expected(ix, fs, v, n)
    decreases |fs|
  {
    if fs != [] {
      ExpectedStep(ix, fs, v, n);
      var next := AddMetric(ix, fs[0], v, acc).value;
      var m := MetricEntry(ix, fs[0], v, n);
      var rest := Expected(ix, fs[1..], v, n);
      assert Entries(next, n) == Entries(acc, n) + m by {
        AddMetricEntries(ix, fs[0], v, acc, n);
      }
      assert FoldMetrics(ix, fs, v, acc) == FoldMetrics(ix, fs[1..], v, next) by {
        FoldStep(ix, fs, v, acc);
      }
      assert Entries(FoldMetrics(ix, fs[1..], v, next).value, n) == Entries(next, n) + rest by {
        FoldMetricsEntries(ix, fs[1..], v, next, n);
      }
      assert Expected(ix, fs, v, n) == m + rest;
      ConcatAssoc(Entries(acc, n), m, rest);
    }
  }

  lemma ConcatAssoc(a: seq<Scored>, b: seq<Scored>, c: seq<Scored>)
    ensures (a + b) + c == a + (b + c)
  {
  }

  lemma ExpectedStep(ix: Index, fs: seq<MatchFunction>, v: Symbol, n: NodeId)
    requires Valid(ix) && fs != [] && Computable(ix, fs, v)
    ensures ComputableFor(ix, fs[0], v) && Computable(ix, fs[1..], v)
    ensures Expected(ix, fs, v, n) == MetricEntry(ix, fs[0], v, n) + Expected(ix, fs[1..], v, n)
  {
    ComputableCons(ix, fs, v);
  }

  lemma FoldStep(ix: Index, fs: seq<MatchFunction>, v: Symbol, acc: ScoreTable)
    requires Valid(ix) && fs != [] && AddMetric(ix, fs[0], v, acc).Ok?
    ensures FoldMetrics(ix, fs, v, acc) == FoldMetrics(ix, fs[1..], v, AddMetric(ix, fs[0], v, acc).value)
  {
  }

  /** One pass of the outer loop: one requested metric. */
  function AddMetric(ix: Index, f: MatchFunction, v: Symbol, acc: ScoreTable): (r: Result<ScoreTable>)
    requires Valid(ix)
    ensures r.Ok? <==> ComputableFor(ix, f, v)
    ensures r.Err? ==> r.error == CannotCompare
    ensures r.Ok? && WellFormedTable(acc) ==> WellFormedTable(r.value)
    ensures r.Ok? && TableTagged(acc) ==> TableTagged(r.value)
  {
    if f == StrictEqual then
      // fast path: binary search, every hit tagged as equal
      assert ComputableFor(ix, StrictEqual, v);
      match GetValueIds(ix, v)
      case None => Ok(acc)
      case Some(ids) => Ok(PushAll(acc, ids, (StrictEqual, IsEqual(true))))
    else
      // full scan over every stored value
      Scan(ix, f, v, 0, acc)
  }

  lemma AddMetricEntries(ix: Index, f: MatchFunction, v: Symbol, acc: ScoreTable, n: NodeId)
    requires Valid(ix) && IdsUnique(ix) && ComputableFor(ix, f, v)
    ensures AddMetric(ix, f, v, acc).Ok?
    ensures Entries(AddMetric(ix, f, v, acc).value, n) == Entries(acc, n) + MetricEntry(ix, f, v, n)
  {
    if f == StrictEqual {
      if GetValueIds(ix, v).Some? {
        PushAllEntries(acc, Bag(ix, v), (StrictEqual, IsEqual(true)), n);
        BagCountAtMostOne(ix, v, n);
      } else {
        assert Bag(ix, v) == [];
      }
    } else {
      ScanHolds(ix, f, v, 0, acc, n);
      ScanEntriesIsValueOf(ix, f, v, n, 0);
    }
  }

  /** A bag holds a node id at most once when ids are unique. */
  lemma BagCountAtMostOne(ix: Index, v: Symbol, n: NodeId)
    requires Valid(ix) && IdsUnique(ix)
    ensures Repeat((StrictEqual, IsEqual(true)), Count(Bag(ix, v), n)) == if n in Bag(ix, v) then [(StrictEqual, IsEqual(true))] else []
  {
    if v in ix.values {
      var i :| 0 <= i < |ix.values| && ix.values[i] == v;
      assert Bag(ix, v) == ix.nodeIds[i];
      BagDistinct(ix, i);
      DistinctCountAtMostOne(ix.nodeIds[i], n);
    }
  }

  lemma BagDistinct(ix: Index, i: nat)
    requires IdsUnique(ix) && i < |ix.nodeIds|
    ensures Distinct(ix.nodeIds[i])
  {
  }

  lemma {:induction false} DistinctCountAtMostOne(s: seq<NodeId>, x: NodeId)
    requires Distinct(s)
    ensures Count(s, x) <= 1
  {
    if s != [] {
      DistinctCountAtMostOne(s[1..], x);
      if s[0] == x {
        assert x !in s[1..];
      }
    }
  }

  /** The scan of the stored values from position `i` on, for one metric
      other than `StrictEqual`. Each bag is non-empty, so computing the score
      once per value fails exactly when the source's per-id computation
      does. */
  function Scan(ix: Index, f: MatchFunction, v: Symbol, i: nat, acc: ScoreTable): (r: Result<ScoreTable>)
    requires Valid(ix) && i <= |ix.values|
    ensures r.Ok? <==> forall j :: i <= j < |ix.values| ==> ComputeSimilarity(ix.values[j], f, v).Ok?
    ensures r.Err? ==> r.error == CannotCompare
    ensures r.Ok? && WellFormedTable(acc) ==> WellFormedTable(r.value)
    ensures r.Ok? && TableTagged(acc) ==> TableTagged(r.value)
    decreases |ix.values| - i
  {
    if i == |ix.values| then Ok(acc)
    else
      var probe := ix.values[i];
      var ids := GetValueIds(ix, probe).value;
      var s :- ComputeSimilarity(probe, f, v);
      Scan(ix, f, v, i + 1, PushAll(acc, ids, (f, s)))
  }

  lemma {:induction false} ScanHolds(ix: Index, f: MatchFunction, v: Symbol, i: nat, acc: ScoreTable, n: NodeId)
    requires Valid(ix) && i <= |ix.values|
    requires forall j :: i <= j < |ix.values| ==> ComputeSimilarity(ix.values[j], f, v).Ok?
    ensures Scan(ix, f, v, i, acc).Ok?
    ensures Entries(Scan(ix, f, v, i, acc).value, n) == Entries(acc, n) + ScanEntries(ix, f, v, n, i)
    decreases |ix.values| - i
  {
    if i < |ix.values| {
      var e := (f, ComputeSimilarity(ix.values[i], f, v).value);
      var next := PushAll(acc, ix.nodeIds[i], e);
      ScanStep(ix, f, v, i, acc);
      PushAllEntries(acc, ix.nodeIds[i], e, n);
      ScanHolds(ix, f, v, i + 1, next, n);
      var here := Repeat(e, Count(ix.nodeIds[i], n));
      var later := ScanEntries(ix, f, v, n, i + 1);
      assert ScanEntries(ix, f, v, n, i) == here + later;
      assert Entries(Scan(ix, f, v, i, acc).value, n) == (Entries(acc, n) + here) + later;
      ConcatAssoc(Entries(acc, n), here, later);
    }
  }

  /** One step of the scan pushes the bag of position `i`. */
  lemma ScanStep(ix: Index, f: MatchFunction, v: Symbol, i: nat, acc: ScoreTable)
    requires Valid(ix) && i < |ix.values|
    requires ComputeSimilarity(ix.values[i], f, v).Ok?
    ensures Scan(ix, f, v, i, acc) ==
      Scan(ix, f, v, i + 1, PushAll(acc, ix.nodeIds[i], (f, ComputeSimilarity(ix.values[i], f, v).value)))
  {
    assert GetValueIds(ix, ix.values[i]).value == ix.nodeIds[i];
  }

  /** What the scan from position `i` appends for node `n`. */
  function ScanEntries(ix: Index, f: MatchFunction, v: Symbol, n: NodeId, i: nat): seq<Scored>
    requires Valid(ix) && i <= |ix.values|
    requires forall j :: i <= j < |ix.values| ==> ComputeSimilarity(ix.values[j], f, v).Ok?
    decreases |ix.values| - i
  {
    if i == |ix.values| then []
    else
      Repeat((f, ComputeSimilarity(ix.values[i], f, v).value), Count(ix.nodeIds[i], n))
      + ScanEntries(ix, f, v, n, i + 1)
  }

  /** With unique ids, the scan appends exactly one entry for a node in the
      index, scored against the node's value, and nothing otherwise. */
  lemma {:induction false} ScanEntriesIsValueOf(ix: Index, f: MatchFunction, v: Symbol, n: NodeId, i: nat)
    requires Valid(ix) && IdsUnique(ix) && i <= |ix.values| && ComputableFor(ix, f, v)
    ensures ScanEntries(ix, f, v, n, i) ==
      match ValueFrom(ix, n, i)
      case None => []
      case Some(w) => [(f, ComputeSimilarity(w, f, v).value)]
    decreases |ix.values| - i
  {
    if i < |ix.values| {
      ScanEntriesIsValueOf(ix, f, v, n, i + 1);
      if n in ix.nodeIds[i] {
        BagDistinct(ix, i);
        DistinctCountAtMostOne(ix.nodeIds[i], n);
        var e := (f, ComputeSimilarity(ix.values[i], f, v).value);
        assert Repeat(e, Count(ix.nodeIds[i], n)) == [e] + [];
        LaterBagsMiss(ix, n, i);
        ScanEntriesEmpty(ix, f, v, n, i + 1);
      }
    }
  }

  /** With unique ids, a node held in bag `i` is held in no later bag. */
  lemma LaterBagsMiss(ix: Index, n: NodeId, i: nat)
    requires IdsUnique(ix) && i < |ix.nodeIds| && n in ix.nodeIds[i]
    ensures forall j :: i < j < |ix.nodeIds| ==> n !in ix.nodeIds[j]
  {
  }

  lemma {:induction false} ScanEntriesEmpty(ix: Index, f: MatchFunction, v: Symbol, n: NodeId, i: nat)
    requires Valid(ix) && i <= |ix.values|
    requires forall j :: i <= j < |ix.values| ==> ComputeSimilarity(ix.values[j], f, v).Ok?
    requires forall j :: i <= j < |ix.values| ==> n !in ix.nodeIds[j]
    ensures ScanEntries(ix, f, v, n, i) == []
    decreases |ix.values| - i
  {
    if i < |ix.values| {
      ScanEntriesEmpty(ix, f, v, n, i + 1);
    }
  }

  /** Some requested metric other than `StrictEqual`: one that scans every
      stored value. */
  predicate Scans(fs: seq<MatchFunction>) {
    exists f :: f in fs && f != StrictEqual
  }

  /** Which nodes the returned table holds: those holding `v` when
      `StrictEqual` is requested, and every indexed node when any other
      metric is. */
  lemma SimilarKeys(ix: Index, fs: seq<MatchFunction>, v: Symbol, n: NodeId)
    requires Valid(ix) && IdsUnique(ix) && Computable(ix, fs, v)
    ensures GetSimilarValueIds(ix, fs, v).Ok?
    ensures n in Keys(GetSimilarValueIds(ix, fs, v).value) <==>
      (StrictEqual in fs && n in Bag(ix, v)) || (Scans(fs) && n in AllIds(ix))
  {
    var r := GetSimilarValueIds(ix, fs, v).value;
    KeyHasEntries(r, n);
    ExpectedNonEmpty(ix, fs, v, n);
  }

  lemma {:induction false} ExpectedNonEmpty(ix: Index, fs: seq<MatchFunction>, v: Symbol, n: NodeId)
    requires Valid(ix) && Computable(ix, fs, v)
    ensures Expected(ix, fs, v, n) != [] <==>
      (StrictEqual in fs && n in Bag(ix, v)) || (Scans(fs) && n in AllIds(ix))
    decreases |fs|
  {
    if fs != [] {
      ExpectedStep(ix, fs, v, n);
      ExpectedNonEmpty(ix, fs[1..], v, n);
      assert forall f :: f in fs <==> f == fs[0] || f in fs[1..];
      if fs[0] != StrictEqual {
        assert fs[0] in fs;
      }
      if Scans(fs[1..]) {
        var f :| f in fs[1..] && f != StrictEqual;
        assert f in fs;
      }
    }
  }
}
