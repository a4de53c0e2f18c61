/** Ranking of matched paths (src/cpt.rs, `match_sequence`): each path's
    scores are totalled per metric, starting from the metric's zero, and
    the totals are then sorted with one stable sort per requested metric in
    request order, so that the last metric is the primary key and the best
    path comes last. */
module Matching {
  import opened Common
  import opened DataTypes
  import opened InvertedIndex
  import opened SimilarValues
  import opened Tree
  import opened Paths
  import opened Sorting

  /** `Scores`: the running total per metric, a hash map modelled as an
      association list whose order is never looked at. */
  type Totals = seq<(MatchFunction, Score)>

  /** `SequenceMatchResult`: a path with its totals. */
  type Ranked = (Path, Totals)

  function Total(m: Totals, f: MatchFunction): Option<Score> {
    if m == [] then None else if m[0].0 == f then Some(m[0].1) else Total(m[1..], f)
  }

  /** `*entry(f).or_insert(s.get_zero()) += s`. The zero is computed before
      the entry is looked at, so a `None` score panics even when the metric
      already has a total. */
  function Accumulate(m: Totals, f: MatchFunction, s: Score): (r: Result<Totals>)
    ensures r.Ok? <==> !s.NoScore? && (Total(m, f).Some? ==> Summable(Total(m, f).value, s))
    ensures r.Err? ==> r.error == NoZero || r.error == CannotAdd
    ensures r.Ok? ==> Total(r.value, f) == Some(if Total(m, f).Some? then Add(Total(m, f).value, s).value else s)
    ensures r.Ok? ==> forall g :: g != f ==> Total(r.value, g) == Total(m, g)
  {
    var z :- Zero(s);
    if m == [] then
      assert Add(z, s) == Ok(s);
      Ok([(f, s)])
    else if m[0].0 == f then
      var v :- Add(m[0].1, s);
      Ok([(f, v)] + m[1..])
    else
      var rest :- Accumulate(m[1..], f, s);
      assert ([m[0]] + rest)[1..] == rest;
      Ok([m[0]] + rest)
  }

  /** The scores of a path, step after step, each step's list in order. */
  function Flat(p: Path): seq<Scored> {
    if p == [] then [] else p[0].1 + Flat(p[1..])
  }

  /** The nested `for_each` over the scores of a path. */
  function AccumulateAll(m: Totals, xs: seq<Scored>): (r: Result<Totals>)
    ensures r.Err? ==> r.error == NoZero || r.error == CannotAdd
    decreases |xs|
  {
    if xs == [] then Ok(m)
    else
      var m2 :- Accumulate(m, xs[0].0, xs[0].1);
      AccumulateAll(m2, xs[1..])
  }

  /** The totals of one matched path. */
  function PathTotals(p: Path): Result<Totals> {
    AccumulateAll([], Flat(p))
  }

  // ---------------------------------------------------------------------
  // Reference totals
  // ---------------------------------------------------------------------

  /** The scores of metric `f` in `xs`, in order. */
  function Tagged(xs: seq<Scored>, f: MatchFunction): seq<Score> {
    if xs == [] then [] else (if xs[0].0 == f then [xs[0].1] else []) + Tagged(xs[1..], f)
  }

  predicate AllProducedBy(ys: seq<Score>, f: MatchFunction) {
    forall i :: 0 <= i < |ys| ==> ProducedBy(ys[i], f)
  }

  function DistanceSum(ys: seq<Score>): nat {
    if ys == [] then 0 else (if ys[0].Distance? then ys[0].dist else 0) + DistanceSum(ys[1..])
  }

  function LengthSum(ys: seq<Score>): nat {
    if ys == [] then 0 else (if ys[0].Length? then ys[0].len else 0) + LengthSum(ys[1..])
  }

  function AllEqual(ys: seq<Score>): bool {
    ys == [] || ((!ys[0].IsEqual? || ys[0].eq) && AllEqual(ys[1..]))
  }

  /** What a list of one metric's scores adds up to: distances and lengths
      are summed, equality flags conjoined. */
  function Tally(f: MatchFunction, ys: seq<Score>): Score {
    match f
    case StrictEqual => IsEqual(AllEqual(ys))
    case AlgebraicDistance => Distance(DistanceSum(ys))
    case SequenceLength => Length(LengthSum(ys))
  }

  function Opt(o: Option<Score>): seq<Score> {
    if o.Some? then [o.value] else []
  }

  /** The reference total of metric `f` over `ys`: none when there is no
      score, the tally otherwise. */
  function Expect(f: MatchFunction, ys: seq<Score>): Option<Score> {
    if ys == [] then None else Some(Tally(f, ys))
  }

  /** Every total held carries its metric's variant. */
  predicate TotalsTagged(m: Totals) {
    forall g :: Total(m, g).Some? ==> ProducedBy(Total(m, g).value, g)
  }

  /** Merging the first two scores of a list does not change its tally. */
  lemma TallyMerge(f: MatchFunction, a: Score, s: Score, rest: seq<Score>)
    requires ProducedBy(a, f) && ProducedBy(s, f)
    ensures Add(a, s).Ok? && ProducedBy(Add(a, s).value, f)
    ensures Tally(f, [Add(a, s).value] + rest) == Tally(f, [a, s] + rest)
  {
    var v := Add(a, s).value;
    assert ([a, s] + rest)[1..] == [s] + rest;
    assert ([s] + rest)[1..] == rest;
    assert ([v] + rest)[1..] == rest;
    match f
    case StrictEqual =>
      assert AllEqual([a, s] + rest) == (a.eq && AllEqual([s] + rest));
      assert AllEqual([s] + rest) == (s.eq && AllEqual(rest));
      assert AllEqual([v] + rest) == (v.eq && AllEqual(rest));
    case AlgebraicDistance =>
      assert DistanceSum([a, s] + rest) == a.dist + DistanceSum([s] + rest);
      assert DistanceSum([s] + rest) == s.dist + DistanceSum(rest);
      assert DistanceSum([v] + rest) == v.dist + DistanceSum(rest);
    case SequenceLength =>
      assert LengthSum([a, s] + rest) == a.len + LengthSum([s] + rest);
      assert LengthSum([s] + rest) == s.len + LengthSum(rest);
      assert LengthSum([v] + rest) == v.len + LengthSum(rest);
  }

  /** A single score tallies to itself. */
  lemma TallySingle(f: MatchFunction, v: Score)
    requires ProducedBy(v, f)
    ensures Tally(f, [v]) == v
  {
    assert [v][1..] == [];
    match f
    case StrictEqual => assert AllEqual([v]) == v.eq;
    case AlgebraicDistance => assert DistanceSum([v]) == v.dist;
    case SequenceLength => assert LengthSum([v]) == v.len;
  }

  lemma TaggedCons(x: Scored, xs: seq<Scored>, f: MatchFunction)
    ensures Tagged([x] + xs, f) == (if x.0 == f then [x.1] else []) + Tagged(xs, f)
  {
    assert ([x] + xs)[1..] == xs;
  }

  /** Folding `xs` into `m` leaves, for every metric, the reference total of
      what `m` held for it followed by its scores in `xs`. */
  lemma {:induction false} AccumulateAllTally(m: Totals, xs: seq<Scored>, f: MatchFunction)
    requires WellTagged(xs) && TotalsTagged(m)
    ensures AccumulateAll(m, xs).Ok?
    ensures TotalsTagged(AccumulateAll(m, xs).value)
    ensures Total(AccumulateAll(m, xs).value, f) == Expect(f, Opt(Total(m, f)) + Tagged(xs, f))
    decreases |xs|
  {
    if xs == [] {
      assert Opt(Total(m, f)) + [] == Opt(Total(m, f));
      if Total(m, f).Some? {
        assert Opt(Total(m, f)) == [Total(m, f).value];
        TallySingle(f, Total(m, f).value);
      }
    } else {
      var m2 := AccumulateTagged(m, xs[0].0, xs[0].1);
      forall i | 0 <= i < |xs| - 1 ensures ProducedBy(xs[1..][i].1, xs[1..][i].0) {
        assert xs[1..][i] == xs[i + 1];
      }
      AccumulateAllTally(m2, xs[1..], f);
      assert AccumulateAll(m, xs) == AccumulateAll(m2, xs[1..]);
      AccumulateTallyStep(m, m2, xs, f);
    }
  }

  /** One score added to tagged totals keeps them tagged. */
  lemma AccumulateTagged(m: Totals, g: MatchFunction, s: Score) returns (m2: Totals)
    requires TotalsTagged(m) && ProducedBy(s, g)
    ensures Accumulate(m, g, s) == Ok(m2) && TotalsTagged(m2)
  {
    m2 := Accumulate(m, g, s).value;
    forall h | Total(m2, h).Some? ensures ProducedBy(Total(m2, h).value, h) {
      if h == g && Total(m, g).Some? {
        TallyMerge(g, Total(m, g).value, s, []);
      }
    }
  }

  /** Folding the head score into `m` moves it from the list into the
      total without changing the reference total. */
  lemma AccumulateTallyStep(m: Totals, m2: Totals, xs: seq<Scored>, f: MatchFunction)
    requires xs != [] && WellTagged(xs) && TotalsTagged(m)
    requires Accumulate(m, xs[0].0, xs[0].1) == Ok(m2)
    ensures Expect(f, Opt(Total(m2, f)) + Tagged(xs[1..], f)) == Expect(f, Opt(Total(m, f)) + Tagged(xs, f))
  {
    assert ProducedBy(xs[0].1, xs[0].0);
    TaggedCons(xs[0], xs[1..], f);
    assert [xs[0]] + xs[1..] == xs;
    if xs[0].0 != f {
      assert Tagged(xs, f) == Tagged(xs[1..], f);
    } else if Total(m, f).Some? {
      TallyJoins(f, Total(m, f).value, xs[0].1, Tagged(xs[1..], f), Total(m2, f));
    } else {
      TallyStarts(f, xs[0].1, Tagged(xs[1..], f), Total(m2, f));
    }
  }

  /** A score joining an existing total leaves the reference total as it
      was with the score still listed. */
  lemma TallyJoins(f: MatchFunction, a: Score, s: Score, rest: seq<Score>, after: Option<Score>)
    requires ProducedBy(a, f) && ProducedBy(s, f)
    requires Add(a, s).Ok? && after == Some(Add(a, s).value)
    ensures Expect(f, Opt(after) + rest) == Expect(f, Opt(Some(a)) + ([s] + rest))
  {
    TallyMerge(f, a, s, rest);
    assert Opt(after) + rest == [Add(a, s).value] + rest;
    assert Opt(Some(a)) + ([s] + rest) == [a, s] + rest;
  }

  /** A score starting a total is the first element of the list. */
  lemma TallyStarts(f: MatchFunction, s: Score, rest: seq<Score>, after: Option<Score>)
    requires after == Some(s)
    ensures Expect(f, Opt(after) + rest) == Expect(f, Opt(None) + ([s] + rest))
  {
    assert Opt(after) + rest == [s] + rest;
    assert Opt(None) + ([s] + rest) == [s] + rest;
  }

  /** The totals of a path whose scores carry their metrics' variants: one
      per metric that scored it, equal to the tally of that metric's scores
      along the path. */
  lemma PathTotalsTally(p: Path, f: MatchFunction)
    requires WellTagged(Flat(p))
    ensures PathTotals(p).Ok?
    ensures Total(PathTotals(p).value, f) == Expect(f, Tagged(Flat(p), f))
  {
    AccumulateAllTally([], Flat(p), f);
    assert Opt(Total([], f)) + Tagged(Flat(p), f) == Tagged(Flat(p), f);
  }

  // ---------------------------------------------------------------------
  // Sorting
  // ---------------------------------------------------------------------

  function ScoreFor(m: Totals, f: MatchFunction): Score {
    Total(m, f).GetOr(NoScore)
  }

  predicate Ordered(s: Score) {
    s.Similarity? || s.Distance? || s.Length?
  }

  /** The sort key of metric `f`: the rank of the total, or 0 where there is
      none (the sort then panics before it matters). */
  function KeyOf(m: Totals, f: MatchFunction): real {
    var s := ScoreFor(m, f);
    if Ordered(s) then Rank(s) else 0.0
  }

  function MetricKey(f: MatchFunction): Ranked -> real {
    (r: Ranked) => KeyOf(r.1, f)
  }

  /** Every two totals of metric `f` can be compared. */
  predicate RankableBy(rs: seq<Ranked>, f: MatchFunction) {
    forall i, j :: 0 <= i < |rs| && 0 <= j < |rs| ==> Comparable(ScoreFor(rs[i].1, f), ScoreFor(rs[j].1, f))
  }

  /** Rankability depends only on which results there are. */
  lemma RankableOfPermutation(a: seq<Ranked>, b: seq<Ranked>, f: MatchFunction)
    requires multiset(a) == multiset(b) && RankableBy(b, f)
    ensures RankableBy(a, f)
  {
    forall i, j | 0 <= i < |a| && 0 <= j < |a| ensures Comparable(ScoreFor(a[i].1, f), ScoreFor(a[j].1, f)) {
      assert a[i] in multiset(b) && a[j] in multiset(b);
      var k :| 0 <= k < |b| && b[k] == a[i];
      var l :| 0 <= l < |b| && b[l] == a[j];
    }
  }

  /** `sort_by` on the totals of metric `f` with `SimilarityScores::cmp`.
      With two or more results every one takes part in some comparison, so
      the sort panics exactly when some total is missing (`expect`) or two
      totals cannot be compared; which panic comes first depends on the
      sorting algorithm's comparison order. */
  function SortByMetric(rs: seq<Ranked>, f: MatchFunction): (r: Result<seq<Ranked>>)
    ensures r.Ok? <==> |rs| <= 1 || RankableBy(rs, f)
    ensures r.Err? ==> r.error == MetricNotFound || r.error == CannotCompare
    ensures r.Ok? ==> multiset(r.value) == multiset(rs) && |r.value| == |rs|
    ensures r.Ok? ==> SortedBy(r.value, MetricKey(f))
    ensures r.Ok? ==> r.value == SortBy(rs, MetricKey(f))
    ensures r.Ok? && |rs| >= 2 ==> forall i, j :: 0 <= i < j < |rs| ==>
      CompareScores(ScoreFor(r.value[i].1, f), ScoreFor(r.value[j].1, f)) != Ok(Greater)
  {
    if |rs| >= 2 && exists i :: 0 <= i < |rs| && Total(rs[i].1, f).None? then Err(MetricNotFound)
    else if |rs| >= 2 && !RankableBy(rs, f) then Err(CannotCompare)
    else
      var r := SortBy(rs, MetricKey(f));
      assert |rs| >= 2 ==> forall i, j :: 0 <= i < j < |rs| ==>
        CompareScores(ScoreFor(r[i].1, f), ScoreFor(r[j].1, f)) != Ok(Greater) by {
        if |rs| >= 2 {
          RankableOfPermutation(r, rs, f);
          forall i, j | 0 <= i < j < |rs| ensures CompareScores(ScoreFor(r[i].1, f), ScoreFor(r[j].1, f)) != Ok(Greater) {
            assert MetricKey(f)(r[i]) <= MetricKey(f)(r[j]);
            assert Comparable(ScoreFor(r[i].1, f), ScoreFor(r[j].1, f));
          }
        }
      }
      Ok(r)
  }

  /** The loop over the requested metrics: one stable sort per metric, in
      request order. */
  function SortAll(rs: seq<Ranked>, fs: seq<MatchFunction>): (r: Result<seq<Ranked>>)
    ensures r.Err? ==> r.error == MetricNotFound || r.error == CannotCompare
    ensures r.Ok? ==> multiset(r.value) == multiset(rs) && |r.value| == |rs|
    ensures r.Ok? && fs != [] ==> SortedBy(r.value, MetricKey(fs[|fs| - 1]))
    ensures r.Ok? && fs != [] && |rs| >= 2 ==> forall i, j :: 0 <= i < j < |rs| ==>
      CompareScores(ScoreFor(r.value[i].1, fs[|fs| - 1]), ScoreFor(r.value[j].1, fs[|fs| - 1])) != Ok(Greater)
    ensures r.Ok? && |fs| >= 2 ==> LexSorted(r.value, MetricKey(fs[|fs| - 1]), MetricKey(fs[|fs| - 2]))
    decreases |fs|
  {
    if fs == [] then Ok(rs)
    else
      var init := fs[..|fs| - 1];
      var prev :- SortAll(rs, init);
      var r :- SortByMetric(prev, fs[|fs| - 1]);
      if |fs| >= 2 then
        assert init[|init| - 1] == fs[|fs| - 2];
        SecondSortIsPrimary(prev, MetricKey(fs[|fs| - 2]), MetricKey(fs[|fs| - 1]));
        Ok(r)
      else
        Ok(r)
  }

  /** The sorts succeed exactly when there is at most one result or every
      requested metric ranks all results. */
  lemma {:induction false} SortAllOk(rs: seq<Ranked>, fs: seq<MatchFunction>)
    ensures SortAll(rs, fs).Ok? <==> |rs| <= 1 || RankableByAll(rs, fs)
    decreases |fs|
  {
    if fs != [] {
      var init := fs[..|fs| - 1];
      var f := fs[|fs| - 1];
      SortAllOk(rs, init);
      RankableByAllSnoc(rs, init, f);
      assert init + [f] == fs;
      var prior := SortAll(rs, init);
      if prior.Ok? {
        var prev := prior.value;
        assert SortAll(rs, fs).Ok? == SortByMetric(prev, f).Ok?;
        if RankableBy(prev, f) {
          RankableOfPermutation(rs, prev, f);
        }
        if RankableBy(rs, f) {
          RankableOfPermutation(prev, rs, f);
        }
      }
    }
  }

  /** Every requested metric ranks all results. */
  predicate RankableByAll(rs: seq<Ranked>, fs: seq<MatchFunction>) {
    forall k :: 0 <= k < |fs| ==> RankableBy(rs, fs[k])
  }

  lemma RankableByAllSnoc(rs: seq<Ranked>, fs: seq<MatchFunction>, f: MatchFunction)
    ensures RankableByAll(rs, fs + [f]) <==> RankableByAll(rs, fs) && RankableBy(rs, f)
  {
    if RankableByAll(rs, fs) && RankableBy(rs, f) {
      forall k | 0 <= k < |fs| + 1 ensures RankableBy(rs, (fs + [f])[k]) {
        if k < |fs| {
          assert (fs + [f])[k] == fs[k];
        }
      }
    }
    if RankableByAll(rs, fs + [f]) {
      assert (fs + [f])[|fs|] == f;
      forall k | 0 <= k < |fs| ensures RankableBy(rs, fs[k]) {
        assert (fs + [f])[k] == fs[k];
      }
    }
  }

  /** Ranking by `StrictEqual` never works on two or more results: its
      totals are equality flags, which `cmp` refuses to compare. */
  lemma StrictEqualCannotRank(rs: seq<Ranked>, fs: seq<MatchFunction>)
    requires |rs| >= 2 && StrictEqual in fs
    requires forall i :: 0 <= i < |rs| ==> Total(rs[i].1, StrictEqual).None? || Total(rs[i].1, StrictEqual).value.IsEqual?
    ensures SortAll(rs, fs).Err?
  {
    SortAllOk(rs, fs);
    var k :| 0 <= k < |fs| && fs[k] == StrictEqual;
    assert !RankableBy(rs, fs[k]);
    assert !Comparable(ScoreFor(rs[0].1, StrictEqual), ScoreFor(rs[0].1, StrictEqual));
  }

  // ---------------------------------------------------------------------
  // match_sequence
  // ---------------------------------------------------------------------

  /** Each path paired with its totals, in order. */
  function Aggregate(ps: seq<Path>): (r: Result<seq<Ranked>>)
    ensures r.Ok? <==> forall i :: 0 <= i < |ps| ==> PathTotals(ps[i]).Ok?
    ensures r.Err? ==> r.error == NoZero || r.error == CannotAdd
    ensures r.Ok? ==> |r.value| == |ps|
    ensures r.Ok? ==> forall i :: 0 <= i < |ps| ==> r.value[i] == (ps[i], PathTotals(ps[i]).value)
  {
    if ps == [] then Ok([])
    else
      var head :- PathTotals(ps[0]);
      var tail :- Aggregate(ps[1..]);
      assert forall i :: 1 <= i < |ps| ==> ps[i] == ps[1..][i - 1];
      Ok([(ps[0], head)] + tail)
  }

  /** The paths matched in the requested direction. */
  function Matched(t: Cpt, q: seq<Symbol>, backwards: bool, fs: seq<MatchFunction>): Result<seq<Path>>
    requires Valid(t.index)
  {
    if backwards then Backward(t, fs, q) else Forward(t, fs, q)
  }

  /** `match_sequence`. */
  function MatchSequence(t: Cpt, q: seq<Symbol>, backwards: bool, fs: seq<MatchFunction>): (r: Result<seq<Ranked>>)
    requires Valid(t.index)
    ensures r.Ok? ==> Matched(t, q, backwards, fs).Ok? && Aggregate(Matched(t, q, backwards, fs).value).Ok?
    ensures r.Ok? ==> multiset(r.value) == multiset(Aggregate(Matched(t, q, backwards, fs).value).value)
    ensures r.Ok? ==> forall x :: x in r.value ==> x.0 in Matched(t, q, backwards, fs).value && PathTotals(x.0) == Ok(x.1)
    ensures r.Ok? && fs != [] ==> SortedBy(r.value, MetricKey(fs[|fs| - 1]))
    ensures r.Ok? && |fs| >= 2 ==> LexSorted(r.value, MetricKey(fs[|fs| - 1]), MetricKey(fs[|fs| - 2]))
  {
    var paths :- Matched(t, q, backwards, fs);
    var ranked :- Aggregate(paths);
    var r :- SortAll(ranked, fs);
    assert forall x :: x in r ==> x.0 in paths && PathTotals(x.0) == Ok(x.1) by {
      forall x | x in r ensures x.0 in paths && PathTotals(x.0) == Ok(x.1) {
        assert x in multiset(ranked);
        var i :| 0 <= i < |ranked| && ranked[i] == x;
      }
    }
    Ok(r)
  }

  /** The best path comes last: no earlier result ranks strictly above the
      last one under the primary (last requested) metric. */
  lemma BestComesLast(t: Cpt, q: seq<Symbol>, backwards: bool, fs: seq<MatchFunction>)
    requires Valid(t.index) && fs != []
    requires MatchSequence(t, q, backwards, fs).Ok? && |MatchSequence(t, q, backwards, fs).value| >= 2
    ensures BestLast(MatchSequence(t, q, backwards, fs).value, fs[|fs| - 1])
  {
    var paths := Matched(t, q, backwards, fs).value;
    var ranked := Aggregate(paths).value;
    assert MatchSequence(t, q, backwards, fs) == SortAll(ranked, fs);
    SortedBestLast(ranked, fs);
  }

  /** No result of `r` ranks strictly above the last one under `f`, and
      each compares with it. */
  predicate BestLast(r: seq<Ranked>, f: MatchFunction) {
    forall i :: 0 <= i < |r| - 1 ==>
      CompareScores(ScoreFor(r[i].1, f), ScoreFor(r[|r| - 1].1, f)) == Ok(Less) ||
      CompareScores(ScoreFor(r[i].1, f), ScoreFor(r[|r| - 1].1, f)) == Ok(Equal)
  }

  /** After the sorts, no result ranks strictly above the last one under
      the last requested metric. */
  lemma SortedBestLast(ranked: seq<Ranked>, fs: seq<MatchFunction>)
    requires fs != [] && SortAll(ranked, fs).Ok? && |ranked| >= 2
    ensures BestLast(SortAll(ranked, fs).value, fs[|fs| - 1])
  {
    var r := SortAll(ranked, fs).value;
    SortAllOk(ranked, fs);
    var f := fs[|fs| - 1];
    assert RankableBy(ranked, f);
    RankableOfPermutation(r, ranked, f);
    forall i | 0 <= i < |r| - 1
      ensures CompareScores(ScoreFor(r[i].1, f), ScoreFor(r[|r| - 1].1, f)) == Ok(Less) ||
              CompareScores(ScoreFor(r[i].1, f), ScoreFor(r[|r| - 1].1, f)) == Ok(Equal)
    {
      assert Comparable(ScoreFor(r[i].1, f), ScoreFor(r[|r| - 1].1, f));
    }
  }

  // ---------------------------------------------------------------------
  // Totals of matched paths
  // ---------------------------------------------------------------------

  lemma ConcatTagged(a: seq<Scored>, b: seq<Scored>)
    requires WellTagged(a) && WellTagged(b)
    ensures WellTagged(a + b)
  {
    forall i | 0 <= i < |a + b| ensures ProducedBy((a + b)[i].1, (a + b)[i].0) {
      if i >= |a| {
        assert (a + b)[i] == b[i - |a|];
      }
    }
  }

  lemma {:induction false} FlatTagged(p: Path)
    requires forall k :: 0 <= k < |p| ==> WellTagged(p[k].1)
    ensures WellTagged(Flat(p))
  {
    if p != [] {
      assert forall k :: 0 <= k < |p| - 1 ==> p[1..][k] == p[k + 1];
      FlatTagged(p[1..]);
      ConcatTagged(p[0].1, Flat(p[1..]));
    }
  }

  lemma ScoredIsTagged(t: Cpt, fs: seq<MatchFunction>, e: Step, x: Symbol)
    requires ScoredAgainst(t, fs, e, x)
    ensures WellTagged(e.1)
  {
    var sc := ScoreAll(DataAt(t, e.0).value, fs, x);
    forall k | 0 <= k < |e.1| ensures ProducedBy(e.1[k].1, e.1[k].0) {
      assert e.1[k] == sc.value[k];
    }
  }

  /** Every matched path, forward or backward, carries only scores of its
      metrics' variants: anchors come from the scored lookup, later entries
      from scoring stored symbols. */
  lemma MatchedTagged(t: Cpt, q: seq<Symbol>, backwards: bool, fs: seq<MatchFunction>, p: Path)
    requires Valid(t.index) && Matched(t, q, backwards, fs).Ok? && p in Matched(t, q, backwards, fs).value
    ensures WellTagged(Flat(p))
  {
    if !backwards {
      var m := GetSimilarValueIds(t.index, fs, q[0]).value;
      ForwardIsComplete(t, fs, q, p);
      forall k | 0 <= k < |p| ensures WellTagged(p[k].1) {
        if k == 0 {
          var i :| 0 <= i < |m| && m[i] == p[0];
        } else {
          assert ChildStep(t, fs, p[k - 1], p[k], q[1..][k - 1]);
          ScoredIsTagged(t, fs, p[k], q[1..][k - 1]);
        }
      }
    } else {
      var m := GetSimilarValueIds(t.index, fs, q[|q| - 1]).value;
      var ps := Backward(t, fs, q).value;
      var i :| 0 <= i < |ps| && ps[i] == p;
      BackwardWalksUp(t, fs, q);
      assert ParentChain(t, fs, q, m[i], p);
      forall k | 0 <= k < |p| ensures WellTagged(p[k].1) {
        if k < |p| - 1 {
          assert ParentStep(t, fs, p[k], p[k + 1], q[|q| - |p| + k]);
          ScoredIsTagged(t, fs, p[k], q[|q| - |p| + k]);
        }
      }
    }
    FlatTagged(p);
  }

  /** Aggregation of matched paths never panics, and each total is the
      tally of that metric's scores along the path. */
  lemma MatchedTotals(t: Cpt, q: seq<Symbol>, backwards: bool, fs: seq<MatchFunction>)
    requires Valid(t.index) && Matched(t, q, backwards, fs).Ok?
    ensures Aggregate(Matched(t, q, backwards, fs).value).Ok?
    ensures forall x, f :: x in Aggregate(Matched(t, q, backwards, fs).value).value ==>
      Total(x.1, f) == Expect(f, Tagged(Flat(x.0), f))
  {
    var ps := Matched(t, q, backwards, fs).value;
    forall i | 0 <= i < |ps| ensures PathTotals(ps[i]).Ok? {
      MatchedTagged(t, q, backwards, fs, ps[i]);
      PathTotalsTally(ps[i], StrictEqual);
    }
    var rs := Aggregate(ps).value;
    forall x, f | x in rs ensures Total(x.1, f) == Expect(f, Tagged(Flat(x.0), f)) {
      var i :| 0 <= i < |rs| && rs[i] == x;
      MatchedTagged(t, q, backwards, fs, ps[i]);
      PathTotalsTally(ps[i], f);
    }
  }

  /** Ranking by `StrictEqual` panics as soon as two paths match: their
      totals are equality flags, which `cmp` refuses to compare, or missing
      where a path took no `StrictEqual` score at all. */
  lemma StrictEqualRankingFails(t: Cpt, q: seq<Symbol>, backwards: bool, fs: seq<MatchFunction>)
    requires Valid(t.index) && StrictEqual in fs
    requires Matched(t, q, backwards, fs).Ok? && |Matched(t, q, backwards, fs).value| >= 2
    ensures MatchSequence(t, q, backwards, fs).Err?
  {
    var ps := Matched(t, q, backwards, fs).value;
    MatchedTotals(t, q, backwards, fs);
    var rs := Aggregate(ps).value;
    forall i | 0 <= i < |rs| ensures Total(rs[i].1, StrictEqual).None? || Total(rs[i].1, StrictEqual).value.IsEqual? {
      assert rs[i] in rs;
    }
    StrictEqualCannotRank(rs, fs);
    assert MatchSequence(t, q, backwards, fs).Ok? ==> SortAll(rs, fs).Ok?;
  }
}
