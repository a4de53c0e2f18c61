/** Binary search over a sequence with a probe, in the halving form that
    `slice::binary_search_by` has in the Rust standard library from version
    1.52 to 1.81: halve the window `[lo, hi)`, return on the first probe that
    answers `Equal`, otherwise report the point where the window closed.
    Earlier and later versions search without an early exit; the forms agree
    on sorted input without duplicates, and the library promises nothing on
    unsorted input. */
module Search {
  import opened Common

  datatype SearchResult = Found(index: nat) | NotFound(insertAt: nat)

  function RankOf(o: Ordering): int {
    match o
    case Less => 0
    case Equal => 1
    case Greater => 2
  }

  /** The probe answers `Less`, then `Equal`, then `Greater` along `xs`: the
      shape a sorted slice gives, and the only one on which the result of a
      binary search means anything. */
  predicate Partitioned<T>(xs: seq<T>, probe: T -> Ordering) {
    forall i, j :: 0 <= i < j < |xs| ==> RankOf(probe(xs[i])) <= RankOf(probe(xs[j]))
  }

  function BinarySearchBy<T>(xs: seq<T>, probe: T -> Ordering): (r: SearchResult)
    ensures r.Found? ==> r.index < |xs| && probe(xs[r.index]) == Equal
    ensures r.NotFound? ==> r.insertAt <= |xs|
    ensures r.NotFound? && Partitioned(xs, probe) ==>
      (forall i :: 0 <= i < r.insertAt ==> probe(xs[i]) == Less) &&
      (forall i :: r.insertAt <= i < |xs| ==> probe(xs[i]) == Greater)
  {
    Halve(xs, probe, 0, |xs|)
  }

  function Halve<T>(xs: seq<T>, probe: T -> Ordering, lo: nat, hi: nat): (r: SearchResult)
    requires lo <= hi <= |xs|
    ensures r.Found? ==> lo <= r.index < hi && probe(xs[r.index]) == Equal
    ensures r.NotFound? ==> lo <= r.insertAt <= hi
    ensures r.NotFound? && Partitioned(xs, probe) ==>
      (forall i :: lo <= i < r.insertAt ==> probe(xs[i]) == Less) &&
      (forall i :: r.insertAt <= i < hi ==> probe(xs[i]) == Greater)
    decreases hi - lo
  {
    if lo >= hi then NotFound(lo)
    else
      var mid := lo + (hi - lo) / 2;
      match probe(xs[mid])
      case Less => Halve(xs, probe, mid + 1, hi)
      case Greater => Halve(xs, probe, lo, mid)
      case Equal => Found(mid)
  }

  /** On a partitioned sequence the search misses only when no element
      answers `Equal`. */
  lemma NotFoundMeansAbsent<T>(xs: seq<T>, probe: T -> Ordering)
    requires Partitioned(xs, probe)
    ensures BinarySearchBy(xs, probe).NotFound? <==> forall i :: 0 <= i < |xs| ==> probe(xs[i]) != Equal
  {
  }
}
