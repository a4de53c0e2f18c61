/** Shared vocabulary: optional values, the failure outcome that stands for a
    panic of the original program, and three-way comparison results. */
module Common {

  datatype Option<+T> = None | Some(value: T) {
    function GetOr(default: T): T {
      match this
      case Some(v) => v
      case None => default
    }
  }

  /** One constructor per place where the original program aborts. */
  datatype Error =
    | CannotCompare     // a similarity or an ordering between incompatible variants
    | CannotAdd         // `+` on mismatched score variants or on `None`
    | NoZero            // `get_zero` of the `None` score
    | ZeroIndex         // a node id built from the value 0
    | NodeNotFound      // `expect`/`unwrap` on a node id outside the arena
    | MissingData       // `expect`/`unwrap` on a node that holds no data
    | MetricNotFound    // ranking by a metric a path has no total for
    | ValueNotIndexed   // `expect` on a value the inverted index does not hold
    | PrefixTooLong     // `predict` with a prefix longer than the query
    | Diverges          // the original loops forever

  /** The outcome of an operation that may abort; usable with `:-`. */
  datatype Result<+T> = Ok(value: T) | Err(error: Error) {
    predicate IsFailure() {
      Err?
    }

    function PropagateFailure<U>(): Result<U>
      requires Err?
    {
      Err(error)
    }

    function Extract(): T
      requires Ok?
    {
      value
    }
  }

  datatype Ordering = Less | Equal | Greater

  /** The ordering seen from the other operand. */
  function Flip(o: Ordering): Ordering {
    match o
    case Less => Greater
    case Equal => Equal
    case Greater => Less
  }

  /** Natural order of two numbers (integers or reals). */
  function CompareReal(x: real, y: real): (r: Ordering)
    ensures r == Equal <==> x == y
    ensures r == Less <==> x < y
  {
    if x == y then Equal else if x > y then Greater else Less
  }

  function CompareInt(x: int, y: int): (r: Ordering)
    ensures r == Equal <==> x == y
    ensures r == Less <==> x < y
  {
    CompareReal(x as real, y as real)
  }

  /** True when every element of `s` occurs in it once. */
  predicate Distinct<T(==)>(s: seq<T>) {
    forall i, j :: 0 <= i < j < |s| ==> s[i] != s[j]
  }

  /** `order` lists each element of `keys` exactly once. */
  predicate Enumerates<T(==)>(order: seq<T>, keys: set<T>) {
    Distinct(order) && (set x | x in order) == keys
  }

  /** Number of occurrences of `x` in `s`. */
  function Count<T(==)>(s: seq<T>, x: T): (n: nat)
    ensures n <= |s|
    ensures n == 0 <==> x !in s
  {
    if s == [] then 0 else (if s[0] == x then 1 else 0) + Count(s[1..], x)
  }

  lemma {:induction false} CountAppend<T>(a: seq<T>, b: seq<T>, x: T)
    ensures Count(a + b, x) == Count(a, x) + Count(b, x)
  {
    if a == [] {
      assert a + b == b;
    } else {
      assert (a + b)[1..] == a[1..] + b;
      CountAppend(a[1..], b, x);
    }
  }

  /** A non-empty sequence is its front followed by its last element. */
  lemma FrontThenLast<T>(q: seq<T>)
    requires q != []
    ensures q[..|q| - 1] + [q[|q| - 1]] == q
  {
  }
}
