/** Symbols, similarity metrics and the similarity-score algebra of the
    prediction tree (src/cpt/data_types.rs). */
module DataTypes {
  import opened Common

  newtype u8 = x: int | 0 <= x < 256

  /** A symbol of a trained or queried sequence. `Integer` carries a machine
      word, modelled as an unbounded natural number. */
  datatype Symbol = Integer(n: nat) | U8(b: u8)

  /** The derived total order: every `Integer` before every `U8`, and by
      payload within a variant. */
  function Compare(a: Symbol, b: Symbol): (r: Ordering)
    ensures r == Equal <==> a == b
  {
    match (a, b)
    case (Integer(x), Integer(y)) => CompareInt(x, y)
    case (Integer(_), U8(_)) => Less
    case (U8(_), Integer(_)) => Greater
    case (U8(x), U8(y)) => CompareInt(x as int, y as int)
  }

  predicate Below(a: Symbol, b: Symbol) {
    Compare(a, b) == Less
  }

  /** `Below` is a strict total order on symbols. */
  lemma BelowIsStrictTotalOrder(a: Symbol, b: Symbol, c: Symbol)
    ensures !Below(a, a)
    ensures Below(a, b) && Below(b, c) ==> Below(a, c)
    ensures a != b ==> Below(a, b) || Below(b, a)
    ensures Below(a, b) ==> !Below(b, a)
    ensures Compare(a, b) == Flip(Compare(b, a))
    ensures Below(a, b) <==> (a.Integer? && b.U8?) || (a.Integer? && b.Integer? && a.n < b.n) || (a.U8? && b.U8? && a.b < b.b)
  {
  }

  datatype MatchFunction = StrictEqual | AlgebraicDistance | SequenceLength

  /** The result of comparing two symbols under one metric. `Distance` is a
      cost (smaller is better), `Similarity` and `Length` are rewards. The
      last variant is the source's `None`. */
  datatype Score =
    | Similarity(sim: real)
    | Distance(dist: nat)
    | Length(len: nat)
    | IsEqual(eq: bool)
    | NoScore

  /** The score variant each metric produces. */
  predicate ProducedBy(s: Score, f: MatchFunction) {
    match f
    case StrictEqual => s.IsEqual?
    case AlgebraicDistance => s.Distance?
    case SequenceLength => s.Length?
  }

  /** Absolute difference, written as the two one-sided cases. */
  predicate IsAbsDiff(d: nat, x: nat, y: nat) {
    x + d == y || y + d == x
  }

  /** `compute_similarity(self, f, other)`. */
  function ComputeSimilarity(self: Symbol, f: MatchFunction, other: Symbol): (r: Result<Score>)
    ensures f == StrictEqual ==> r == Ok(IsEqual(true))
    ensures f == SequenceLength ==> r == Ok(Length(1))
    ensures f == AlgebraicDistance ==> (r.Ok? <==> self.Integer? && other.Integer?)
    ensures r.Err? ==> r.error == CannotCompare
    ensures r.Ok? ==> ProducedBy(r.value, f)
    ensures r.Ok? && f == AlgebraicDistance ==> IsAbsDiff(r.value.dist, self.n, other.n)
  {
    match f
    case StrictEqual => Ok(IsEqual(true))
    case SequenceLength => Ok(Length(1))
    case AlgebraicDistance =>
      match (self, other)
      case (Integer(x), Integer(y)) =>
        if x > y then Ok(Distance(x - y)) else Ok(Distance(y - x))
      case _ => Err(CannotCompare)
  }

  /** Every metric is symmetric in its two symbols. */
  lemma ComputeSimilaritySymmetric(a: Symbol, f: MatchFunction, b: Symbol)
    ensures ComputeSimilarity(a, f, b) == ComputeSimilarity(b, f, a)
  {
  }

  /** Both operands carry a payload of the same ordered variant. */
  predicate Comparable(a: Score, b: Score) {
    || (a.Similarity? && b.Similarity?)
    || (a.Distance? && b.Distance?)
    || (a.Length? && b.Length?)
  }

  /** The position of an ordered score on the "goodness" line: rewards keep
      their value, a cost is negated. */
  function Rank(s: Score): real
    requires s.Similarity? || s.Distance? || s.Length?
  {
    match s
    case Similarity(x) => x
    case Distance(d) => -(d as real)
    case Length(n) => n as real
  }

  /** `SimilarityScores::cmp`: natural order for rewards, reversed for the
      `Distance` cost, a panic for any other pair. */
  function CompareScores(a: Score, b: Score): (r: Result<Ordering>)
    ensures r.Ok? <==> Comparable(a, b)
    ensures r.Err? ==> r.error == CannotCompare
    ensures r.Ok? ==> r.value == CompareReal(Rank(a), Rank(b))
  {
    match (a, b)
    case (Similarity(x), Similarity(y)) => Ok(CompareReal(x, y))
    case (Length(x), Length(y)) => Ok(CompareInt(x, y))
    case (Distance(x), Distance(y)) =>
      if x == y then Ok(Equal) else if x > y then Ok(Less) else Ok(Greater)
    case _ => Err(CannotCompare)
  }

  /** Cost versus reward: a shorter distance ranks higher, a longer length
      ranks higher. */
  lemma CostAndRewardOrdering()
    ensures CompareScores(Distance(2), Distance(5)) == Ok(Greater)
    ensures CompareScores(Length(1), Length(3)) == Ok(Less)
    ensures CompareScores(IsEqual(true), IsEqual(true)).Err?
    ensures CompareScores(Length(1), Distance(1)).Err?
  {
  }

  /** `get_zero`: the neutral element of the score's own variant. */
  function Zero(s: Score): (r: Result<Score>)
    ensures r.Ok? <==> !s.NoScore?
    ensures r.Err? ==> r.error == NoZero
    ensures r.Ok? ==> Add(s, r.value) == Ok(s) && Add(r.value, s) == Ok(s)
  {
    match s
    case Similarity(_) => Ok(Similarity(0.0))
    case Distance(_) => Ok(Distance(0))
    case Length(_) => Ok(Length(0))
    case IsEqual(_) => Ok(IsEqual(true))
    case NoScore => Err(NoZero)
  }

  /** The zero of a score is a right identity for every score of the same
      variant, not only for the score it came from; in particular the zero
      of any `IsEqual` is `IsEqual(true)`. */
  lemma ZeroIsIdentityForVariant(s: Score, x: Score)
    requires Zero(s).Ok? && Summable(x, s)
    ensures Add(x, Zero(s).value) == Ok(x)
  {
  }

  /** Two scores of the same summable variant. */
  predicate Summable(a: Score, b: Score) {
    Comparable(a, b) || (a.IsEqual? && b.IsEqual?)
  }

  /** `+`: adds payloads of matching variants, conjoins `IsEqual` flags, and
      panics otherwise. */
  function Add(a: Score, b: Score): (r: Result<Score>)
    ensures r.Ok? <==> Summable(a, b)
    ensures r.Err? ==> r.error == CannotAdd
    ensures r.Ok? && Comparable(a, b) ==> Comparable(r.value, a) && Rank(r.value) == Rank(a) + Rank(b)
    ensures r.Ok? && a.IsEqual? ==> r.value == IsEqual(a.eq && b.eq)
  {
    match (a, b)
    case (Similarity(x), Similarity(y)) => Ok(Similarity(x + y))
    case (Distance(x), Distance(y)) => Ok(Distance(x + y))
    case (Length(x), Length(y)) => Ok(Length(x + y))
    case (IsEqual(x), IsEqual(y)) => Ok(IsEqual(x && y))
    case _ => Err(CannotAdd)
  }

  lemma AddCommutative(a: Score, b: Score)
    ensures Add(a, b) == Add(b, a)
  {
  }

  lemma AddAssociative(a: Score, b: Score, c: Score)
    requires Add(a, b).Ok? && Add(b, c).Ok?
    ensures Add(Add(a, b).value, c) == Add(a, Add(b, c).value)
  {
  }

  /** `Sum` for an iterator of scores: starts from the `None` score and only
      re-seeds the accumulator for `Similarity` items. */
  function Sum(xs: seq<Score>): Result<Score> {
    SumFrom(NoScore, xs)
  }

  function SumFrom(acc: Score, xs: seq<Score>): Result<Score>
    decreases |xs|
  {
    if xs == [] then Ok(acc)
    else
      var seeded := if xs[0].Similarity? && acc == NoScore then Similarity(0.0) else acc;
      var next :- Add(seeded, xs[0]);
      SumFrom(next, xs[1..])
  }

  /** The real sum of a sequence of similarity scores. */
  function SimilarityTotal(xs: seq<Score>): real
    requires forall i :: 0 <= i < |xs| ==> xs[i].Similarity?
  {
    if xs == [] then 0.0 else xs[0].sim + SimilarityTotal(xs[1..])
  }

  /** Summing nothing yields the `None` score; summing a sequence whose first
      item is not a `Similarity` panics on that item. */
  lemma SumRejectsNonSimilarity(xs: seq<Score>)
    ensures xs == [] ==> Sum(xs) == Ok(NoScore)
    ensures xs != [] && !xs[0].Similarity? ==> Sum(xs) == Err(CannotAdd)
  {
  }

  /** Summing similarities adds them up. */
  lemma {:induction false} SumOfSimilarities(xs: seq<Score>)
    requires xs != []
    requires forall i :: 0 <= i < |xs| ==> xs[i].Similarity?
    ensures Sum(xs) == Ok(Similarity(SimilarityTotal(xs)))
  {
    SumFromSimilarities(Similarity(0.0), xs);
    assert Sum(xs) == SumFrom(Similarity(0.0), xs);
  }

  lemma {:induction false} SumFromSimilarities(acc: Score, xs: seq<Score>)
    requires acc.Similarity?
    requires forall i :: 0 <= i < |xs| ==> xs[i].Similarity?
    ensures SumFrom(acc, xs) == Ok(Similarity(acc.sim + SimilarityTotal(xs)))
    decreases |xs|
  {
    if xs != [] {
      SumFromSimilarities(Similarity(acc.sim + xs[0].sim), xs[1..]);
    }
  }
}
