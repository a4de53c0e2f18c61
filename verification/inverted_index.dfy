/** The inverted index of the prediction tree (src/cpt.rs, `InvertedIndex`):
    the distinct symbols held anywhere in the tree, strictly ascending, and
    parallel to them the ids of the nodes holding each symbol, in insertion
    order. */
module InvertedIndex {
  import opened Common
  import opened DataTypes
  import opened Nodes
  import opened Search

  datatype Index = Index(values: seq<Symbol>, nodeIds: seq<seq<NodeId>>)

  predicate Ascending(vs: seq<Symbol>) {
    forall i, j :: 0 <= i < j < |vs| ==> Below(vs[i], vs[j])
  }

  /** The invariant of the index's private fields: `values` strictly
      ascending, `node_ids` parallel to it, and no empty bag. */
  predicate Valid(ix: Index) {
    && |ix.values| == |ix.nodeIds|
    && Ascending(ix.values)
    && forall i :: 0 <= i < |ix.nodeIds| ==> ix.nodeIds[i] != []
  }

  /** `InvertedIndex::new()`. */
  function Empty(): (ix: Index)
    ensures Valid(ix) && ix.values == [] && AllIds(ix) == {}
  {
    Index([], [])
  }

  /** Every node id the index holds, whatever its value. */
  function AllIds(ix: Index): set<NodeId> {
    set i, j | 0 <= i < |ix.nodeIds| && 0 <= j < |ix.nodeIds[i]| :: ix.nodeIds[i][j]
  }

  /** No node id occurs twice in the index, neither within one bag nor in
      two bags. */
  predicate IdsUnique(ix: Index) {
    forall i1, j1, i2, j2 ::
      (&& 0 <= i1 < |ix.nodeIds| && 0 <= j1 < |ix.nodeIds[i1]|
       && 0 <= i2 < |ix.nodeIds| && 0 <= j2 < |ix.nodeIds[i2]|
       && ix.nodeIds[i1][j1] == ix.nodeIds[i2][j2])
      ==> i1 == i2 && j1 == j2
  }

  lemma AscendingPartitions(vs: seq<Symbol>, v: Symbol)
    requires Ascending(vs)
    ensures Partitioned(vs, (x: Symbol) => Compare(x, v))
    ensures forall x :: Compare(x, v) == Greater ==> Below(v, x)
  {
    forall i, j | 0 <= i < j < |vs|
      ensures RankOf(Compare(vs[i], v)) <= RankOf(Compare(vs[j], v))
    {
      BelowIsStrictTotalOrder(vs[i], vs[j], v);
      BelowIsStrictTotalOrder(v, vs[i], vs[j]);
    }
    forall x | Compare(x, v) == Greater
      ensures Below(v, x)
    {
      BelowIsStrictTotalOrder(x, v, x);
    }
  }

  /** The binary search both index operations start with. */
  function Locate(vs: seq<Symbol>, v: Symbol): (r: SearchResult)
    requires Ascending(vs)
    ensures r.Found? ==> r.index < |vs| && vs[r.index] == v
    ensures r.NotFound? ==> r.insertAt <= |vs|
    ensures r.NotFound? ==> forall i :: 0 <= i < r.insertAt ==> Below(vs[i], v)
    ensures r.NotFound? ==> forall i :: r.insertAt <= i < |vs| ==> Below(v, vs[i])
  {
    AscendingPartitions(vs, v);
    BinarySearchBy(vs, (x: Symbol) => Compare(x, v))
  }

  /** In an ascending sequence a value sits at one position at most. */
  lemma AscendingPositionUnique(vs: seq<Symbol>, i: nat, j: nat)
    requires Ascending(vs) && i < |vs| && j < |vs| && vs[i] == vs[j]
    ensures i == j
  {
  }

  /** `get_value_ids`: the bag of the nodes holding `v`, or nothing if `v` was
      never inserted. */
  function GetValueIds(ix: Index, v: Symbol): (r: Option<seq<NodeId>>)
    requires Valid(ix)
    ensures r.Some? <==> v in ix.values
    ensures forall i :: 0 <= i < |ix.values| && ix.values[i] == v ==> r == Some(ix.nodeIds[i])
  {
    match Locate(ix.values, v)
    case Found(k) =>
      assert forall i :: 0 <= i < |ix.values| && ix.values[i] == v ==> i == k by {
        forall i | 0 <= i < |ix.values| && ix.values[i] == v ensures i == k {
          AscendingPositionUnique(ix.values, i, k);
        }
      }
      Some(ix.nodeIds[k])
    case NotFound(_) => None
  }

  /** The bag of `v`, empty when `v` is unknown. */
  function Bag(ix: Index, v: Symbol): seq<NodeId>
    requires Valid(ix)
  {
    GetValueIds(ix, v).GetOr([])
  }

  /** `insert_value`: a known value gets `id` appended to its bag; a new value
      gets the bag `[id]`; every other value keeps its bag. */
  function InsertValue(ix: Index, v: Symbol, id: NodeId): (r: Index)
    requires Valid(ix)
    ensures Valid(r)
    ensures GetValueIds(r, v) == Some(Bag(ix, v) + [id])
    ensures forall w :: w != v ==> GetValueIds(r, w) == GetValueIds(ix, w)
    ensures (set x | x in r.values) == (set x | x in ix.values) + {v}
    ensures AllIds(r) == AllIds(ix) + {id}
    ensures IdsUnique(ix) && id !in AllIds(ix) ==> IdsUnique(r)
  {
    match Locate(ix.values, v)
    case Found(i) =>
      var r := Index(ix.values, ix.nodeIds[i := ix.nodeIds[i] + [id]]);
      InsertKnownValue(ix, v, id, i, r);
      r
    case NotFound(k) =>
      var r := Index(ix.values[..k] + [v] + ix.values[k..], ix.nodeIds[..k] + [[id]] + ix.nodeIds[k..]);
      InsertNewValue(ix, v, id, k, r);
      r
  }

  lemma InsertKnownValue(ix: Index, v: Symbol, id: NodeId, i: nat, r: Index)
    requires Valid(ix) && i < |ix.values| && ix.values[i] == v
    requires r == Index(ix.values, ix.nodeIds[i := ix.nodeIds[i] + [id]])
    ensures Valid(r)
    ensures GetValueIds(r, v) == Some(Bag(ix, v) + [id])
    ensures forall w :: w != v ==> GetValueIds(r, w) == GetValueIds(ix, w)
    ensures AllIds(r) == AllIds(ix) + {id}
    ensures IdsUnique(ix) && id !in AllIds(ix) ==> IdsUnique(r)
  {
    forall w | w != v
      ensures GetValueIds(r, w) == GetValueIds(ix, w)
    {
      if w in ix.values {
        var j :| 0 <= j < |ix.values| && ix.values[j] == w;
        assert r.nodeIds[j] == ix.nodeIds[j];
      }
    }
    AppendedIds(ix, id, i, r);
    if IdsUnique(ix) && id !in AllIds(ix) {
      AppendedUnique(ix, id, i, r);
    }
  }

  /** Appending `id` to one bag adds exactly `id` to the ids of the index. */
  lemma AppendedIds(ix: Index, id: NodeId, i: nat, r: Index)
    requires |ix.values| == |ix.nodeIds| && i < |ix.values|
    requires r == Index(ix.values, ix.nodeIds[i := ix.nodeIds[i] + [id]])
    ensures AllIds(r) == AllIds(ix) + {id}
  {
    forall x | x in AllIds(r) ensures x in AllIds(ix) + {id} {
      var a, b :| 0 <= a < |r.nodeIds| && 0 <= b < |r.nodeIds[a]| && r.nodeIds[a][b] == x;
      if a != i || b < |ix.nodeIds[i]| {
        assert ix.nodeIds[a][b] == x;
      }
    }
    forall x | x in AllIds(ix) + {id} ensures x in AllIds(r) {
      if x == id {
        assert r.nodeIds[i][|ix.nodeIds[i]|] == id;
      } else {
        var a, b :| 0 <= a < |ix.nodeIds| && 0 <= b < |ix.nodeIds[a]| && ix.nodeIds[a][b] == x;
        assert r.nodeIds[a][b] == x;
      }
    }
  }

  /** Appending an id the index does not hold keeps ids unique. */
  lemma AppendedUnique(ix: Index, id: NodeId, i: nat, r: Index)
    requires |ix.values| == |ix.nodeIds| && i < |ix.values|
    requires r == Index(ix.values, ix.nodeIds[i := ix.nodeIds[i] + [id]])
    requires IdsUnique(ix) && id !in AllIds(ix)
    ensures IdsUnique(r)
  {
    forall i1, j1, i2, j2 |
      0 <= i1 < |r.nodeIds| && 0 <= j1 < |r.nodeIds[i1]| &&
      0 <= i2 < |r.nodeIds| && 0 <= j2 < |r.nodeIds[i2]| &&
      r.nodeIds[i1][j1] == r.nodeIds[i2][j2]
      ensures i1 == i2 && j1 == j2
    {
      var old1 := i1 != i || j1 < |ix.nodeIds[i]|;
      var old2 := i2 != i || j2 < |ix.nodeIds[i]|;
      if old1 {
        assert r.nodeIds[i1][j1] == ix.nodeIds[i1][j1];
      }
      if old2 {
        assert r.nodeIds[i2][j2] == ix.nodeIds[i2][j2];
      }
    }
  }

  /** `r` is `ix` with the pair `(v, [id])` inserted at position `k`,
      stated pointwise. */
  predicate InsertedAt(ix: Index, r: Index, k: nat, v: Symbol, id: NodeId) {
    && |ix.values| == |ix.nodeIds|
    && k <= |ix.values|
    && |r.values| == |ix.values| + 1 && |r.nodeIds| == |ix.values| + 1
    && (forall i :: 0 <= i < k ==> r.values[i] == ix.values[i] && r.nodeIds[i] == ix.nodeIds[i])
    && r.values[k] == v && r.nodeIds[k] == [id]
    && (forall i :: k < i < |r.values| ==> r.values[i] == ix.values[i - 1] && r.nodeIds[i] == ix.nodeIds[i - 1])
  }

  lemma InsertNewValue(ix: Index, v: Symbol, id: NodeId, k: nat, r: Index)
    requires Valid(ix) && k <= |ix.values|
    requires forall i :: 0 <= i < k ==> Below(ix.values[i], v)
    requires forall i :: k <= i < |ix.values| ==> Below(v, ix.values[i])
    requires r == Index(ix.values[..k] + [v] + ix.values[k..], ix.nodeIds[..k] + [[id]] + ix.nodeIds[k..])
    ensures Valid(r)
    ensures GetValueIds(r, v) == Some(Bag(ix, v) + [id])
    ensures forall w :: w != v ==> GetValueIds(r, w) == GetValueIds(ix, w)
    ensures (set x | x in r.values) == (set x | x in ix.values) + {v}
    ensures AllIds(r) == AllIds(ix) + {id}
    ensures IdsUnique(ix) && id !in AllIds(ix) ==> IdsUnique(r)
  {
    InsertedAtConcat(ix, v, id, k, r);
    InsertedAtValid(ix, r, k, v, id);
    InsertedAtLookup(ix, r, k, v, id);
    InsertedAtIds(ix, r, k, v, id);
    SplicedMembers(ix.values, v, k);
  }

  /** Splicing `v` into a list adds exactly `v` to its members. */
  lemma SplicedMembers<T>(a: seq<T>, v: T, k: nat)
    requires k <= |a|
    ensures (set x | x in a[..k] + [v] + a[k..]) == (set x | x in a) + {v}
  {
    var b := a[..k] + [v] + a[k..];
    forall x ensures x in b <==> x in a || x == v {
      if x in a {
        var i :| 0 <= i < |a| && a[i] == x;
        if i < k {
          assert b[i] == x;
        } else {
          assert b[i + 1] == x;
        }
      }
      if x in b {
        var i :| 0 <= i < |b| && b[i] == x;
        if i < k {
          assert a[i] == x;
        } else if i > k {
          assert a[i - 1] == x;
        }
      }
    }
  }

  lemma InsertedAtConcat(ix: Index, v: Symbol, id: NodeId, k: nat, r: Index)
    requires |ix.values| == |ix.nodeIds| && k <= |ix.values|
    requires r == Index(ix.values[..k] + [v] + ix.values[k..], ix.nodeIds[..k] + [[id]] + ix.nodeIds[k..])
    ensures InsertedAt(ix, r, k, v, id)
  {
  }

  lemma InsertedAtValid(ix: Index, r: Index, k: nat, v: Symbol, id: NodeId)
    requires Valid(ix) && InsertedAt(ix, r, k, v, id)
    requires forall i :: 0 <= i < k ==> Below(ix.values[i], v)
    requires forall i :: k <= i < |ix.values| ==> Below(v, ix.values[i])
    ensures Valid(r)
    ensures v !in ix.values
  {
    forall i, j | 0 <= i < j < |r.values| ensures Below(r.values[i], r.values[j]) {
      if i < k && j > k {
        BelowIsStrictTotalOrder(ix.values[i], v, ix.values[j - 1]);
      }
    }
    forall i | 0 <= i < |ix.values| ensures ix.values[i] != v {
      BelowIsStrictTotalOrder(ix.values[i], v, v);
      BelowIsStrictTotalOrder(v, ix.values[i], v);
    }
  }

  lemma InsertedAtLookup(ix: Index, r: Index, k: nat, v: Symbol, id: NodeId)
    requires Valid(ix) && Valid(r) && InsertedAt(ix, r, k, v, id) && v !in ix.values
    ensures GetValueIds(r, v) == Some(Bag(ix, v) + [id])
    ensures forall w :: w != v ==> GetValueIds(r, w) == GetValueIds(ix, w)
  {
    assert r.values[k] == v;
    assert GetValueIds(ix, v) == None;
    assert Bag(ix, v) + [id] == [id];
    assert GetValueIds(r, v) == Some([id]);
    forall w | w != v
      ensures GetValueIds(r, w) == GetValueIds(ix, w)
    {
      if w in ix.values {
        InsertedAtKeeps(ix, r, k, v, id, w);
      } else {
        InsertedAtMisses(ix, r, k, v, id, w);
      }
    }
  }

  /** A value already in the index keeps its bag after the insertion. */
  lemma InsertedAtKeeps(ix: Index, r: Index, k: nat, v: Symbol, id: NodeId, w: Symbol)
    requires Valid(ix) && Valid(r) && InsertedAt(ix, r, k, v, id) && w in ix.values
    ensures GetValueIds(r, w) == GetValueIds(ix, w)
  {
    var j :| 0 <= j < |ix.values| && ix.values[j] == w;
    if j < k {
      assert r.values[j] == w;
    } else {
      assert r.values[j + 1] == w;
    }
  }

  /** A value other than `v` missing from the index stays missing. */
  lemma InsertedAtMisses(ix: Index, r: Index, k: nat, v: Symbol, id: NodeId, w: Symbol)
    requires Valid(ix) && Valid(r) && InsertedAt(ix, r, k, v, id) && w !in ix.values && w != v
    ensures GetValueIds(r, w) == None
  {
    forall i | 0 <= i < |r.values| ensures r.values[i] != w {
      if i < k {
        assert r.values[i] == ix.values[i];
      } else if i > k {
        assert r.values[i] == ix.values[i - 1];
      }
    }
  }

  lemma InsertedAtIds(ix: Index, r: Index, k: nat, v: Symbol, id: NodeId)
    requires InsertedAt(ix, r, k, v, id)
    ensures AllIds(r) == AllIds(ix) + {id}
    ensures IdsUnique(ix) && id !in AllIds(ix) ==> IdsUnique(r)
  {
    forall x | x in AllIds(r) ensures x in AllIds(ix) + {id} {
      var a, b :| 0 <= a < |r.nodeIds| && 0 <= b < |r.nodeIds[a]| && r.nodeIds[a][b] == x;
      if a < k {
        assert ix.nodeIds[a][b] == x;
      } else if a > k {
        assert ix.nodeIds[a - 1][b] == x;
      }
    }
    forall x | x in AllIds(ix) + {id} ensures x in AllIds(r) {
      if x == id {
        assert r.nodeIds[k][0] == id;
      } else {
        var a, b :| 0 <= a < |ix.nodeIds| && 0 <= b < |ix.nodeIds[a]| && ix.nodeIds[a][b] == x;
        if a < k {
          assert r.nodeIds[a][b] == x;
        } else {
          assert r.nodeIds[a + 1][b] == x;
        }
      }
    }
    if IdsUnique(ix) && id !in AllIds(ix) {
      forall i1, j1, i2, j2 |
        0 <= i1 < |r.nodeIds| && 0 <= j1 < |r.nodeIds[i1]| &&
        0 <= i2 < |r.nodeIds| && 0 <= j2 < |r.nodeIds[i2]| &&
        r.nodeIds[i1][j1] == r.nodeIds[i2][j2]
        ensures i1 == i2 && j1 == j2
      {
        var o1 := if i1 < k then i1 else i1 - 1;
        var o2 := if i2 < k then i2 else i2 - 1;
        if i1 != k {
          assert r.nodeIds[i1][j1] == ix.nodeIds[o1][j1];
        }
        if i2 != k {
          assert r.nodeIds[i2][j2] == ix.nodeIds[o2][j2];
        }
      }
    }
  }
}
