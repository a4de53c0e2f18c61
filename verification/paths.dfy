/** Path matching in the prediction tree (src/cpt.rs,
    `match_sequence_forward` and `match_sequence_backward`). The nodes the
    scored lookup returns for the first (forward) or last (backward) query
    symbol each anchor one path; the paths then grow one node per further
    query symbol, along child links or along parent links, and every node
    taken is scored against its symbol under each requested metric. */
module Paths {
  import opened Common
  import opened DataTypes
  import opened Nodes
  import opened InvertedIndex
  import opened SimilarValues
  import opened Tree

  /** `NodeMatchResult`: a node with its scores. */
  type Step = (NodeId, seq<Scored>)

  type Path = seq<Step>

  /** `element_matching(f, d, x)` for each requested metric `f`, in request
      order; the first metric that cannot compare the two symbols panics. */
  function ScoreAll(d: Symbol, fs: seq<MatchFunction>, x: Symbol): (r: Result<seq<Scored>>)
    ensures r.Ok? <==> forall k :: 0 <= k < |fs| ==> ComputeSimilarity(d, fs[k], x).Ok?
    ensures r.Err? ==> r.error == CannotCompare
    ensures r.Ok? ==> |r.value| == |fs|
    ensures r.Ok? ==> forall k :: 0 <= k < |fs| ==> r.value[k] == (fs[k], ComputeSimilarity(d, fs[k], x).value)
  {
    if fs == [] then Ok([])
    else
      var s :- ComputeSimilarity(d, fs[0], x);
      var rest :- ScoreAll(d, fs[1..], x);
      Ok([(fs[0], s)] + rest)
  }

  /** Every entry of the scored lookup starts a one-node path. */
  function Anchors(m: ScoreTable): (r: seq<Path>)
    ensures |r| == |m|
    ensures forall i :: 0 <= i < |m| ==> r[i] == [m[i]]
  {
    seq(|m|, i requires 0 <= i < |m| => [m[i]])
  }

  predicate NonEmpty(ps: seq<Path>) {
    forall i :: 0 <= i < |ps| ==> ps[i] != []
  }

  /** The node of `e` exists, holds data, and `e` carries that data's scores
      against `x`. */
  predicate ScoredAgainst(t: Cpt, fs: seq<MatchFunction>, e: Step, x: Symbol) {
    && InRange(t, e.0)
    && DataAt(t, e.0).Some?
    && ScoreAll(DataAt(t, e.0).value, fs, x) == Ok(e.1)
  }

  // ---------------------------------------------------------------------
  // Forward
  // ---------------------------------------------------------------------

  /** `b` is a child of `a`, scored against `x`. */
  predicate ChildStep(t: Cpt, fs: seq<MatchFunction>, a: Step, b: Step, x: Symbol) {
    && InRange(t, a.0)
    && b.0 in t.nodes[Index0(a.0)].children
    && ScoredAgainst(t, fs, b, x)
  }

  /** Every child in `cs` exists, and those holding data can be scored
      against `x`: the condition under which scanning them does not panic. */
  predicate ChildrenScorable(t: Cpt, fs: seq<MatchFunction>, cs: seq<NodeId>, x: Symbol) {
    forall k :: 0 <= k < |cs| ==>
      InRange(t, cs[k]) && (DataAt(t, cs[k]).Some? ==> ScoreAll(DataAt(t, cs[k]).value, fs, x).Ok?)
  }

  /** The children in `cs` that exist and hold data, in order. */
  function DataChildren(t: Cpt, cs: seq<NodeId>): seq<NodeId> {
    if cs == [] then []
    else (if InRange(t, cs[0]) && DataAt(t, cs[0]).Some? then [cs[0]] else []) + DataChildren(t, cs[1..])
  }

  /** The inner `filter_map` over the children `cs` of the last node of `p`:
      each child holding data extends a copy of `p`; a child without data is
      skipped; reading a child that does not exist panics. */
  function ExtendByChildren(t: Cpt, fs: seq<MatchFunction>, p: Path, cs: seq<NodeId>, x: Symbol): (r: Result<seq<Path>>)
    ensures r.Ok? <==> ChildrenScorable(t, fs, cs, x)
    ensures r.Err? ==> r.error == NodeNotFound || r.error == CannotCompare
    ensures r.Ok? ==> forall p2: Path :: p2 in r.value <==>
      |p2| == |p| + 1 && p2[..|p|] == p && p2[|p|].0 in cs && ScoredAgainst(t, fs, p2[|p|], x)
  {
    if cs == [] then Ok([])
    else
      var d :- GetData(t, cs[0]);
      assert forall k :: 1 <= k < |cs| ==> cs[k] == cs[1..][k - 1];
      assert forall c :: c in cs <==> c == cs[0] || c in cs[1..];
      if d.None? then
        ExtendByChildren(t, fs, p, cs[1..], x)
      else
        var sc :- ScoreAll(d.value, fs, x);
        var rest :- ExtendByChildren(t, fs, p, cs[1..], x);
        var e := p + [(cs[0], sc)];
        assert e[..|p|] == p && e[|p|] == (cs[0], sc);
        assert forall p2: Path :: p2 == e <==>
          |p2| == |p| + 1 && p2[..|p|] == p && p2[|p|].0 == cs[0] && ScoredAgainst(t, fs, p2[|p|], x) by {
          forall p2: Path | |p2| == |p| + 1 && p2[..|p|] == p && p2[|p|].0 == cs[0] && ScoredAgainst(t, fs, p2[|p|], x)
            ensures p2 == e
          {
            assert p2 == p2[..|p|] + [p2[|p|]];
          }
        }
        Ok([e] + rest)
  }

  /** The extensions come one per existing child holding data, in the
      order of the children, so a child listed twice extends the path twice. */
  lemma {:induction false} ExtendByChildrenCount(t: Cpt, fs: seq<MatchFunction>, p: Path, cs: seq<NodeId>, x: Symbol)
    requires ExtendByChildren(t, fs, p, cs, x).Ok?
    ensures var r := ExtendByChildren(t, fs, p, cs, x).value;
      |r| == |DataChildren(t, cs)| &&
      forall i :: 0 <= i < |r| ==> |r[i]| == |p| + 1 && r[i][|p|].0 == DataChildren(t, cs)[i]
    decreases |cs|
  {
    if cs != [] {
      ExtendByChildrenStep(t, fs, p, cs, x);
      ExtendByChildrenCount(t, fs, p, cs[1..], x);
    }
  }

  /** One child of the scan: it contributes one extension when it holds
      data and none otherwise. */
  lemma ExtendByChildrenStep(t: Cpt, fs: seq<MatchFunction>, p: Path, cs: seq<NodeId>, x: Symbol)
    requires cs != [] && ExtendByChildren(t, fs, p, cs, x).Ok?
    ensures InRange(t, cs[0]) && ExtendByChildren(t, fs, p, cs[1..], x).Ok?
    ensures DataAt(t, cs[0]).Some? ==>
      DataChildren(t, cs) == [cs[0]] + DataChildren(t, cs[1..]) &&
      ScoreAll(DataAt(t, cs[0]).value, fs, x).Ok? &&
      ExtendByChildren(t, fs, p, cs, x).value ==
        [p + [(cs[0], ScoreAll(DataAt(t, cs[0]).value, fs, x).value)]] + ExtendByChildren(t, fs, p, cs[1..], x).value
    ensures DataAt(t, cs[0]).None? ==>
      DataChildren(t, cs) == DataChildren(t, cs[1..]) &&
      ExtendByChildren(t, fs, p, cs, x).value == ExtendByChildren(t, fs, p, cs[1..], x).value
  {
    assert forall k :: 1 <= k < |cs| ==> cs[k] == cs[1..][k - 1];
  }

  /** `p2` is `p` grown by one child step scored against `x`. */
  predicate Grows(t: Cpt, fs: seq<MatchFunction>, p: Path, p2: Path, x: Symbol) {
    && p != []
    && |p2| == |p| + 1
    && p2[..|p|] == p
    && ChildStep(t, fs, p[|p| - 1], p2[|p|], x)
  }

  /** One path of the outer `filter_map`: a path whose last node is not in
      the tree is dropped, otherwise it is replaced by its extensions (none
      when the node has no child with data). */
  function ExtendPath(t: Cpt, fs: seq<MatchFunction>, p: Path, x: Symbol): (r: Result<seq<Path>>)
    requires p != []
    ensures r.Ok? <==> !InRange(t, p[|p| - 1].0) || ChildrenScorable(t, fs, t.nodes[Index0(p[|p| - 1].0)].children, x)
    ensures r.Err? ==> r.error == NodeNotFound || r.error == CannotCompare
    ensures r.Ok? ==> forall p2 :: p2 in r.value <==> Grows(t, fs, p, p2, x)
  {
    match Tree.Get(t, p[|p| - 1].0)
    case None => Ok([])
    case Some(n) => ExtendByChildren(t, fs, p, n.children, x)
  }

  /** One round of the forward loop: every path is replaced by its
      extensions, and the results are concatenated in path order. */
  function ExtendAll(t: Cpt, fs: seq<MatchFunction>, ps: seq<Path>, x: Symbol): (r: Result<seq<Path>>)
    requires NonEmpty(ps)
    ensures r.Ok? <==> forall i :: 0 <= i < |ps| ==> ExtendPath(t, fs, ps[i], x).Ok?
    ensures r.Err? ==> r.error == NodeNotFound || r.error == CannotCompare
    ensures r.Ok? ==> NonEmpty(r.value)
    ensures r.Ok? ==> forall p2 :: p2 in r.value <==> |p2| >= 2 && p2[..|p2| - 1] in ps && Grows(t, fs, p2[..|p2| - 1], p2, x)
  {
    if ps == [] then Ok([])
    else
      var head :- ExtendPath(t, fs, ps[0], x);
      var tail :- ExtendAll(t, fs, ps[1..], x);
      assert forall i :: 1 <= i < |ps| ==> ps[i] == ps[1..][i - 1];
      JoinExtensions(t, fs, ps, x, head, tail);
      Ok(head + tail)
  }

  /** The extensions of the first path followed by those of the rest are
      the extensions of all paths. */
  lemma JoinExtensions(t: Cpt, fs: seq<MatchFunction>, ps: seq<Path>, x: Symbol, head: seq<Path>, tail: seq<Path>)
    requires ps != [] && NonEmpty(ps) && NonEmpty(tail)
    requires forall p2 :: p2 in head <==> Grows(t, fs, ps[0], p2, x)
    requires forall p2 :: p2 in tail <==> |p2| >= 2 && p2[..|p2| - 1] in ps[1..] && Grows(t, fs, p2[..|p2| - 1], p2, x)
    ensures NonEmpty(head + tail)
    ensures forall p2 :: p2 in head + tail <==> |p2| >= 2 && p2[..|p2| - 1] in ps && Grows(t, fs, p2[..|p2| - 1], p2, x)
  {
    assert ps[0] != [];
    forall i | 0 <= i < |head + tail| ensures (head + tail)[i] != [] {
      if i < |head| {
        assert head[i] in head;
      } else {
        assert (head + tail)[i] == tail[i - |head|];
      }
    }
    forall p2 ensures p2 in head + tail <==> |p2| >= 2 && p2[..|p2| - 1] in ps && Grows(t, fs, p2[..|p2| - 1], p2, x) {
      if p2 in head {
        assert Grows(t, fs, ps[0], p2, x);
        assert p2[..|p2| - 1] == ps[0];
      }
      if |p2| >= 2 && p2[..|p2| - 1] in ps && p2[..|p2| - 1] != ps[0] {
        var i :| 0 <= i < |ps| && ps[i] == p2[..|p2| - 1];
        assert ps[1..][i - 1] == ps[i];
      }
    }
  }

  /** Entries `k..` of `p` each follow a child link from the entry before
      and are scored against the matching symbol of `xs`. */
  predicate ChildChain(t: Cpt, fs: seq<MatchFunction>, p: Path, k: nat, xs: seq<Symbol>) {
    && 1 <= k
    && k + |xs| == |p|
    && forall i :: k <= i < |p| ==> ChildStep(t, fs, p[i - 1], p[i], xs[i - k])
  }

  /** The forward loop over the remaining query symbols `xs`. */
  function Extend(t: Cpt, fs: seq<MatchFunction>, ps: seq<Path>, xs: seq<Symbol>): (r: Result<seq<Path>>)
    requires NonEmpty(ps)
    ensures r.Err? ==> r.error == NodeNotFound || r.error == CannotCompare
    decreases |xs|
  {
    if xs == [] then Ok(ps)
    else
      var next :- ExtendAll(t, fs, ps, xs[0]);
      Extend(t, fs, next, xs[1..])
  }

  /** `p2` starts with one of the paths `ps` and continues with one child
      step per symbol of `xs`. */
  predicate Survives(t: Cpt, fs: seq<MatchFunction>, ps: seq<Path>, xs: seq<Symbol>, p2: Path) {
    |p2| > |xs| && p2[..|p2| - |xs|] in ps && ChildChain(t, fs, p2, |p2| - |xs|, xs)
  }

  /** What survives the forward loop: exactly the paths that start with a
      surviving path and continue with one child step per remaining
      symbol. */
  lemma {:induction false} ExtendMatches(t: Cpt, fs: seq<MatchFunction>, ps: seq<Path>, xs: seq<Symbol>, p2: Path)
    requires NonEmpty(ps) && Extend(t, fs, ps, xs).Ok?
    ensures p2 in Extend(t, fs, ps, xs).value <==> Survives(t, fs, ps, xs, p2)
    decreases |xs|
  {
    if xs != [] {
      var next := ExtendAll(t, fs, ps, xs[0]).value;
      assert Extend(t, fs, ps, xs) == Extend(t, fs, next, xs[1..]);
      ExtendMatches(t, fs, next, xs[1..], p2);
      RoundMatches(t, fs, ps, xs, next, p2);
    } else {
      assert p2[..|p2|] == p2;
      if p2 in ps {
        assert p2 != [];
      }
    }
  }

  /** One round of the forward loop turns the description of the paths
      after the round into the description of the paths before it. */
  lemma RoundMatches(t: Cpt, fs: seq<MatchFunction>, ps: seq<Path>, xs: seq<Symbol>, next: seq<Path>, p2: Path)
    requires NonEmpty(ps) && xs != [] && ExtendAll(t, fs, ps, xs[0]) == Ok(next)
    ensures Survives(t, fs, next, xs[1..], p2) <==> Survives(t, fs, ps, xs, p2)
  {
    if |p2| > |xs| {
      var k := |p2| - |xs|;
      PrefixGrows(t, fs, ps, xs[0], p2, k);
      RoundLonger(t, fs, ps, xs, next, p2, k);
    } else if |p2| == |xs| {
      assert |p2[..1]| == 1;
      assert p2[..1] !in next;
    }
  }

  /** The case of `RoundMatches` where `p2` is longer than `xs`, given what
      the round keeps of the first `k + 1` entries. */
  lemma RoundLonger(t: Cpt, fs: seq<MatchFunction>, ps: seq<Path>, xs: seq<Symbol>, next: seq<Path>, p2: Path, k: nat)
    requires xs != [] && k == |p2| - |xs| && k < |p2|
    requires p2[..k + 1] in next <==> 1 <= k && p2[..k] in ps && ChildStep(t, fs, p2[k - 1], p2[k], xs[0])
    ensures Survives(t, fs, next, xs[1..], p2) <==> Survives(t, fs, ps, xs, p2)
  {
    assert |p2| - |xs[1..]| == k + 1;
    ChildChainCons(t, fs, p2, k, xs);
  }

  /** The first `k + 1` entries of `p2` survive a round exactly when the
      first `k` were a path and entry `k` is a child step. */
  lemma PrefixGrows(t: Cpt, fs: seq<MatchFunction>, ps: seq<Path>, x: Symbol, p2: Path, k: nat)
    requires NonEmpty(ps) && ExtendAll(t, fs, ps, x).Ok? && k < |p2|
    ensures p2[..k + 1] in ExtendAll(t, fs, ps, x).value <==>
      1 <= k && p2[..k] in ps && ChildStep(t, fs, p2[k - 1], p2[k], x)
  {
    var q := p2[..k + 1];
    assert q[..|q| - 1] == p2[..k];
    assert q[|q| - 1] == p2[k];
    if p2[..k] in ps {
      assert p2[..k] != [];
    }
    if 1 <= k {
      assert q[k - 1] == p2[k - 1];
    }
  }

  /** Peeling the first symbol off a child chain. */
  lemma ChildChainCons(t: Cpt, fs: seq<MatchFunction>, p: Path, k: nat, xs: seq<Symbol>)
    requires xs != [] && k + |xs| == |p|
    ensures ChildChain(t, fs, p, k, xs) <==>
      1 <= k && ChildStep(t, fs, p[k - 1], p[k], xs[0]) && ChildChain(t, fs, p, k + 1, xs[1..])
  {
    forall j | 0 <= j < |xs| - 1 ensures xs[1..][j] == xs[j + 1] {
    }
  }

  /** `p` is a forward match of query `q` from the anchors `m`: it starts
      at an anchor, has one entry per query symbol, and each later entry is
      a child of the one before, scored against its symbol. */
  predicate ForwardMatch(t: Cpt, fs: seq<MatchFunction>, q: seq<Symbol>, m: ScoreTable, p: Path) {
    && q != []
    && p != []
    && p[0] in m
    && ChildChain(t, fs, p, 1, q[1..])
  }

  /** `match_sequence_forward`. */
  function Forward(t: Cpt, fs: seq<MatchFunction>, q: seq<Symbol>): (r: Result<seq<Path>>)
    requires Valid(t.index)
    ensures q == [] ==> r == Ok([])
    ensures r.Err? ==> r.error == CannotCompare || r.error == NodeNotFound
    ensures r.Ok? && q != [] ==> GetSimilarValueIds(t.index, fs, q[0]).Ok?
  {
    if q == [] then Ok([])
    else
      var m :- GetSimilarValueIds(t.index, fs, q[0]);
      Extend(t, fs, Anchors(m), q[1..])
  }

  /** The forward matches are exactly the paths `ForwardMatch` describes;
      each has as many entries as the query has symbols. */
  lemma ForwardIsComplete(t: Cpt, fs: seq<MatchFunction>, q: seq<Symbol>, p: Path)
    requires Valid(t.index) && q != [] && Forward(t, fs, q).Ok?
    ensures p in Forward(t, fs, q).value <==> ForwardMatch(t, fs, q, GetSimilarValueIds(t.index, fs, q[0]).value, p)
    ensures p in Forward(t, fs, q).value ==> |p| == |q|
  {
    var m := GetSimilarValueIds(t.index, fs, q[0]).value;
    assert Forward(t, fs, q) == Extend(t, fs, Anchors(m), q[1..]);
    ExtendMatches(t, fs, Anchors(m), q[1..], p);
    if |p| > |q| - 1 {
      AnchoredAt(m, p, |p| - (|q| - 1));
    }
  }

  /** A prefix of `p` is an anchor path exactly when it is the first entry
      alone and that entry is in `m`. */
  lemma AnchoredAt(m: ScoreTable, p: Path, k: nat)
    requires 1 <= k <= |p|
    ensures p[..k] in Anchors(m) <==> k == 1 && p[0] in m
  {
    var anchors := Anchors(m);
    if p[..k] in anchors {
      var i :| 0 <= i < |anchors| && anchors[i] == p[..k];
      assert p[..k] == [m[i]];
      assert p[0] == p[..k][0];
    }
    if k == 1 && p[0] in m {
      var i :| 0 <= i < |m| && m[i] == p[0];
      assert p[..1] == [m[i]] == anchors[i];
    }
  }

  // ---------------------------------------------------------------------
  // Backward
  // ---------------------------------------------------------------------

  /** `a` is the parent of `b`, holds data, and is scored against `x`. */
  predicate ParentStep(t: Cpt, fs: seq<MatchFunction>, a: Step, b: Step, x: Symbol) {
    && InRange(t, b.0)
    && t.nodes[Index0(b.0)].parent == Some(a.0)
    && ScoredAgainst(t, fs, a, x)
  }

  /** The walk up stops at `n`: it is not in the tree, it is the root, or
      its parent holds no data. */
  predicate Stuck(t: Cpt, n: NodeId) {
    || !InRange(t, n)
    || t.nodes[Index0(n)].parent.None?
    || (InRange(t, t.nodes[Index0(n)].parent.value) && DataAt(t, t.nodes[Index0(n)].parent.value).None?)
  }

  /** `p` is the walk up from anchor `a` aligned with the end of `s`: it
      ends at `a`, each entry is the parent of the next and is scored
      against the symbol of `s` at the same distance from the end, and the
      walk is as long as `s` unless it got stuck. */
  predicate ParentChain(t: Cpt, fs: seq<MatchFunction>, s: seq<Symbol>, a: Step, p: Path) {
    && 1 <= |p| <= |s|
    && p[|p| - 1] == a
    && (forall i :: 0 <= i < |p| - 1 ==> ParentStep(t, fs, p[i], p[i + 1], s[|s| - |p| + i]))
    && (|p| < |s| ==> Stuck(t, p[0].0))
  }

  /** One path of one round of the backward loop: prepend the parent of the
      first node, scored against `x`, unless the walk is stuck. Reading a
      parent that does not exist panics. */
  function ClimbPath(t: Cpt, fs: seq<MatchFunction>, p: Path, x: Symbol): (r: Result<Path>)
    requires p != []
    ensures r.Err? ==> r.error == NodeNotFound || r.error == CannotCompare
    ensures r.Ok? && Stuck(t, p[0].0) ==> r.value == p
    ensures r.Ok? && !Stuck(t, p[0].0) ==> |r.value| == |p| + 1 && r.value[1..] == p && ParentStep(t, fs, r.value[0], p[0], x)
  {
    match Tree.Get(t, p[0].0)
    case None => Ok(p)
    case Some(n) =>
      match n.parent
      case None => Ok(p)
      case Some(up) =>
        var d :- GetData(t, up);
        if d.None? then Ok(p)
        else
          var sc :- ScoreAll(d.value, fs, x);
          Ok([(up, sc)] + p)
  }

  /** One round of the backward loop: every path climbs, in order; no path
      is dropped. */
  function ClimbEach(t: Cpt, fs: seq<MatchFunction>, ps: seq<Path>, x: Symbol): (r: Result<seq<Path>>)
    requires NonEmpty(ps)
    ensures r.Err? ==> r.error == NodeNotFound || r.error == CannotCompare
    ensures r.Ok? ==> |r.value| == |ps|
    ensures r.Ok? ==> forall i :: 0 <= i < |ps| ==> ClimbPath(t, fs, ps[i], x) == Ok(r.value[i])
  {
    if ps == [] then Ok([])
    else
      var head :- ClimbPath(t, fs, ps[0], x);
      var tail :- ClimbEach(t, fs, ps[1..], x);
      var r := [head] + tail;
      assert forall i :: 1 <= i < |ps| ==> r[i] == tail[i - 1] && ps[i] == ps[1..][i - 1];
      Ok(r)
  }

  /** The backward loop: the remaining symbols `xs` are consumed from the
      last one back. */
  function Climb(t: Cpt, fs: seq<MatchFunction>, ps: seq<Path>, xs: seq<Symbol>): (r: Result<seq<Path>>)
    requires NonEmpty(ps)
    ensures r.Err? ==> r.error == NodeNotFound || r.error == CannotCompare
    ensures r.Ok? ==> |r.value| == |ps|
    decreases |xs|
  {
    if xs == [] then Ok(ps)
    else
      var next :- ClimbEach(t, fs, ps, xs[|xs| - 1]);
      assert NonEmpty(next) by {
        forall i | 0 <= i < |next| ensures next[i] != [] {
          assert ClimbPath(t, fs, ps[i], xs[|xs| - 1]) == Ok(next[i]);
        }
      }
      Climb(t, fs, next, xs[..|xs| - 1])
  }

  /** One climb keeps a walk a walk, now aligned with one more symbol. */
  lemma ClimbStep(t: Cpt, fs: seq<MatchFunction>, s: seq<Symbol>, x: Symbol, a: Step, p: Path)
    requires ParentChain(t, fs, s, a, p) && ClimbPath(t, fs, p, x).Ok?
    ensures ParentChain(t, fs, [x] + s, a, ClimbPath(t, fs, p, x).value)
  {
    var p2 := ClimbPath(t, fs, p, x).value;
    if !Stuck(t, p[0].0) {
      ClimbMoves(t, fs, s, x, a, p, p2);
    } else {
      ClimbStays(t, fs, s, x, a, p);
    }
  }

  /** A walk that is not stuck grows by the parent of its first node. */
  lemma ClimbMoves(t: Cpt, fs: seq<MatchFunction>, s: seq<Symbol>, x: Symbol, a: Step, p: Path, p2: Path)
    requires ParentChain(t, fs, s, a, p) && !Stuck(t, p[0].0)
    requires |p2| == |p| + 1 && p2[1..] == p && ParentStep(t, fs, p2[0], p[0], x)
    ensures ParentChain(t, fs, [x] + s, a, p2)
  {
    var s2 := [x] + s;
    assert |p| == |s|;
    forall i | 0 <= i < |p2| - 1 ensures ParentStep(t, fs, p2[i], p2[i + 1], s2[|s2| - |p2| + i]) {
      if i > 0 {
        assert p2[i] == p[i - 1] && p2[i + 1] == p[i];
        assert s2[|s2| - |p2| + i] == s[|s| - |p| + i - 1];
      } else {
        assert p2[1] == p[0];
      }
    }
  }

  /** A stuck walk stays as it is and stays a walk for the longer query. */
  lemma ClimbStays(t: Cpt, fs: seq<MatchFunction>, s: seq<Symbol>, x: Symbol, a: Step, p: Path)
    requires ParentChain(t, fs, s, a, p) && Stuck(t, p[0].0)
    ensures ParentChain(t, fs, [x] + s, a, p)
  {
    ShiftSteps(t, fs, p, s, [x] + s);
  }

  /** The steps of a walk only look at the last `|p|` symbols, so a longer
      query with the same end aligns them the same way. */
  lemma ShiftSteps(t: Cpt, fs: seq<MatchFunction>, p: Path, s: seq<Symbol>, s2: seq<Symbol>)
    requires |p| <= |s| <= |s2| && s2[|s2| - |s|..] == s
    requires forall i :: 0 <= i < |p| - 1 ==> ParentStep(t, fs, p[i], p[i + 1], s[|s| - |p| + i])
    ensures forall i :: 0 <= i < |p| - 1 ==> ParentStep(t, fs, p[i], p[i + 1], s2[|s2| - |p| + i])
  {
    forall i | 0 <= i < |p| - 1 ensures ParentStep(t, fs, p[i], p[i + 1], s2[|s2| - |p| + i]) {
      assert s2[|s2| - |p| + i] == s2[|s2| - |s|..][|s| - |p| + i];
    }
  }

  lemma {:induction false} ClimbKeepsChains(t: Cpt, fs: seq<MatchFunction>, ps: seq<Path>, xs: seq<Symbol>, s: seq<Symbol>, anchors: seq<Step>)
    requires NonEmpty(ps) && Climb(t, fs, ps, xs).Ok?
    requires |anchors| == |ps|
    requires forall i :: 0 <= i < |ps| ==> ParentChain(t, fs, s, anchors[i], ps[i])
    ensures forall i :: 0 <= i < |ps| ==> ParentChain(t, fs, xs + s, anchors[i], Climb(t, fs, ps, xs).value[i])
    decreases |xs|
  {
    if xs == [] {
      assert xs + s == s;
    } else {
      var x := xs[|xs| - 1];
      var next := ClimbEach(t, fs, ps, x).value;
      forall i | 0 <= i < |ps| ensures ParentChain(t, fs, [x] + s, anchors[i], next[i]) {
        ClimbStep(t, fs, s, x, anchors[i], ps[i]);
      }
      ClimbKeepsChains(t, fs, next, xs[..|xs| - 1], [x] + s, anchors);
      assert xs[..|xs| - 1] + ([x] + s) == xs + s;
    }
  }

  /** `match_sequence_backward`. */
  function Backward(t: Cpt, fs: seq<MatchFunction>, q: seq<Symbol>): (r: Result<seq<Path>>)
    requires Valid(t.index)
    ensures q == [] ==> r == Ok([])
    ensures r.Err? ==> r.error == CannotCompare || r.error == NodeNotFound
    ensures r.Ok? && q != [] ==> GetSimilarValueIds(t.index, fs, q[|q| - 1]).Ok?
    ensures r.Ok? && q != [] ==> |r.value| == |GetSimilarValueIds(t.index, fs, q[|q| - 1]).value|
  {
    if q == [] then Ok([])
    else
      var m :- GetSimilarValueIds(t.index, fs, q[|q| - 1]);
      Climb(t, fs, Anchors(m), q[..|q| - 1])
  }

  /** One walk per anchor, in anchor order, each the parent chain of its
      anchor aligned with the end of the query. */
  lemma BackwardWalksUp(t: Cpt, fs: seq<MatchFunction>, q: seq<Symbol>)
    requires Valid(t.index) && q != [] && Backward(t, fs, q).Ok?
    ensures var m := GetSimilarValueIds(t.index, fs, q[|q| - 1]).value;
      forall i :: 0 <= i < |m| ==> ParentChain(t, fs, q, m[i], Backward(t, fs, q).value[i])
  {
    var m := GetSimilarValueIds(t.index, fs, q[|q| - 1]).value;
    var anchors := Anchors(m);
    var s := [q[|q| - 1]];
    forall i | 0 <= i < |anchors| ensures ParentChain(t, fs, s, m[i], anchors[i]) {
    }
    ClimbKeepsChains(t, fs, anchors, q[..|q| - 1], s, seq(|m|, i requires 0 <= i < |m| => m[i]));
    FrontThenLast(q);
  }

  /** A parent chain is determined by its anchor: two walks from the same
      anchor aligned with the same query are the same walk. */
  lemma ParentChainUnique(t: Cpt, fs: seq<MatchFunction>, s: seq<Symbol>, a: Step, p1: Path, p2: Path)
    requires ParentChain(t, fs, s, a, p1) && ParentChain(t, fs, s, a, p2)
    ensures p1 == p2
  {
    if |p1| <= |p2| {
      ShorterChainIsSame(t, fs, s, a, p1, p2);
    } else {
      ShorterChainIsSame(t, fs, s, a, p2, p1);
    }
  }

  lemma ShorterChainIsSame(t: Cpt, fs: seq<MatchFunction>, s: seq<Symbol>, a: Step, p1: Path, p2: Path)
    requires ParentChain(t, fs, s, a, p1) && ParentChain(t, fs, s, a, p2)
    requires |p1| <= |p2|
    ensures p1 == p2
  {
    SameTail(t, fs, s, a, p1, p2, |p1| - 1);
    InnerNodesClimb(t, fs, s, a, p2);
    assert |p1| == |p2|;
    assert forall j :: 0 <= j < |p1| ==> p1[j] == p2[j];
  }

  /** Every node of a chain but the first has a parent holding data, so the
      walk was not stuck there. */
  lemma InnerNodesClimb(t: Cpt, fs: seq<MatchFunction>, s: seq<Symbol>, a: Step, p: Path)
    requires ParentChain(t, fs, s, a, p)
    ensures forall j :: 1 <= j < |p| ==> !Stuck(t, p[j].0)
  {
    forall j | 1 <= j < |p| ensures !Stuck(t, p[j].0) {
      assert ParentStep(t, fs, p[j - 1], p[j], s[|s| - |p| + j - 1]);
    }
  }

  /** The last `k + 1` entries of two chains from the same anchor agree. */
  lemma {:induction false} SameTail(t: Cpt, fs: seq<MatchFunction>, s: seq<Symbol>, a: Step, p1: Path, p2: Path, k: nat)
    requires ParentChain(t, fs, s, a, p1) && ParentChain(t, fs, s, a, p2)
    requires k < |p1| <= |p2|
    ensures forall j :: |p1| - 1 - k <= j < |p1| ==> p1[j] == p2[j + (|p2| - |p1|)]
  {
    var d := |p2| - |p1|;
    if k > 0 {
      SameTail(t, fs, s, a, p1, p2, k - 1);
      var i := |p1| - 1 - k;
      assert ParentStep(t, fs, p1[i], p1[i + 1], s[|s| - |p1| + i]);
      assert ParentStep(t, fs, p2[i + d], p2[i + d + 1], s[|s| - |p2| + i + d]);
      assert p1[i + 1] == p2[i + 1 + d];
    }
  }
}
