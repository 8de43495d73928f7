/** Completeness of the edge reorderer on closed cells: the edges of a
    cycle, handed over in any order and each in either direction, always
    come back as one chain holding all of them. This is the shape of the
    edges around a site whose region is bounded. */
module CycleReordering {

  import opened Wrappers
  import opened Geometry
  import opened Diagram
  import opened EdgeReorderer

  /** The index after `j` around a cycle of length `m`. */
  function Succ(j: nat, m: nat): (r: nat)
    requires j < m
    ensures r < m
  {
    if j + 1 < m then j + 1 else 0
  }

  /** The edges `cyc` form a cycle through the distinct finite keys `keys`:
      taken in direction `dirs[j]`, edge `j` runs from key `j` to key `j + 1`
      (and the last edge back to key 0). */
  predicate IsCycle(cyc: seq<Edge>, dirs: seq<LR>, keys: seq<Key>, c: Criterion) {
    |cyc| == |dirs| == |keys| > 0
    && (forall i, j :: 0 <= i < j < |cyc| ==> cyc[i] != cyc[j])
    && (forall i, j :: 0 <= i < j < |keys| ==> keys[i] != keys[j])
    && (forall j :: 0 <= j < |keys| ==> !IsInfinity(keys[j]))
    && (forall j {:trigger StartKey(cyc[j], c, dirs[j])} :: 0 <= j < |cyc| ==> StartKey(cyc[j], c, dirs[j]) == keys[j])
    && (forall j {:trigger EndKey(cyc[j], c, dirs[j])} :: 0 <= j < |cyc| ==> EndKey(cyc[j], c, dirs[j]) == keys[Succ(j, |cyc|)])
  }

  /** No edge occurs twice. */
  predicate Distinct(es: seq<Edge>) {
    forall i, j :: 0 <= i < j < |es| ==> es[i] != es[j]
  }

  /** Position `i` of an arc that walks the cycle forwards from `s`. */
  function Forward(s: nat, i: nat, m: nat): (r: nat)
    requires s < m && i < m
    ensures r < m
  {
    if s + i < m then s + i else s + i - m
  }

  /** Position `i` of an arc that walks the cycle backwards from `s`. */
  function Backward(s: nat, i: nat, m: nat): (r: nat)
    requires s < m && i < m
    ensures r < m
  {
    if i <= s then s - i else s + m - i
  }

  /** The two keys of an edge, whatever the direction. */
  lemma KeysOfEdge(e: Edge, c: Criterion, d: LR)
    ensures StartKey(e, c, d) == LeftKey(e, c) || StartKey(e, c, d) == RightKey(e, c)
    ensures EndKey(e, c, d) == LeftKey(e, c) || EndKey(e, c, d) == RightKey(e, c)
    ensures {LeftKey(e, c), RightKey(e, c)} == {StartKey(e, c, d), EndKey(e, c, d)}
  {
  }

  /** Distinct keys sit at distinct positions. */
  lemma SameKey(keys: seq<Key>, i: nat, j: nat)
    requires forall i, j :: 0 <= i < j < |keys| ==> keys[i] != keys[j]
    requires i < |keys| && j < |keys| && keys[i] == keys[j]
    ensures i == j
  {
  }

  /** Two successive positions of `m` are equal only when their
      predecessors are. */
  lemma SuccInjective(i: nat, j: nat, m: nat)
    requires i < m && j < m && Succ(i, m) == Succ(j, m)
    ensures i == j
  {
  }

  /** The only cycle edge, other than edge `j`, that starts where edge `j`
      ends in the cycle's direction is edge `j + 1`, in the cycle's
      direction. */
  lemma StepForward(cyc: seq<Edge>, dirs: seq<LR>, keys: seq<Key>, c: Criterion, j: nat, j': nat, o: LR)
    requires IsCycle(cyc, dirs, keys, c) && j < |cyc| && j' < |cyc|
    requires cyc[j] != cyc[j'] && EndKey(cyc[j], c, dirs[j]) == StartKey(cyc[j'], c, o)
    ensures j' == Succ(j, |cyc|) && o == dirs[j']
  {
    var m := |cyc|;
    if o == dirs[j'] {
      SameKey(keys, j', Succ(j, m));
    } else {
      assert o == Other(dirs[j']);
      assert EndKey(cyc[j'], c, dirs[j']) == keys[Succ(j', m)];
      SameKey(keys, Succ(j', m), Succ(j, m));
      SuccInjective(j', j, m);
      assert false;
    }
  }

  /** The only cycle edge, other than edge `j`, that starts where edge `j`
      ends against the cycle's direction is edge `j - 1`, against the
      cycle's direction. */
  lemma StepBackward(cyc: seq<Edge>, dirs: seq<LR>, keys: seq<Key>, c: Criterion, j: nat, j': nat, o: LR)
    requires IsCycle(cyc, dirs, keys, c) && j < |cyc| && j' < |cyc|
    requires cyc[j] != cyc[j'] && EndKey(cyc[j], c, Other(dirs[j])) == StartKey(cyc[j'], c, o)
    ensures Succ(j', |cyc|) == j && o == Other(dirs[j'])
  {
    var m := |cyc|;
    assert EndKey(cyc[j], c, Other(dirs[j])) == keys[j];
    if o == dirs[j'] {
      SameKey(keys, j', j);
      assert false;
    } else {
      assert o == Other(dirs[j']);
      assert EndKey(cyc[j'], c, dirs[j']) == keys[Succ(j', m)];
      SameKey(keys, Succ(j', m), j);
    }
  }

  /** A linked chain of distinct cycle edges that enters its first edge in
      the cycle's direction walks the cycle forwards, edge after edge. */
  lemma {:induction false} ArcForward(cyc: seq<Edge>, dirs: seq<LR>, keys: seq<Key>, c: Criterion,
                                      es: seq<Edge>, os: seq<LR>, s: nat, n: nat)
    requires IsCycle(cyc, dirs, keys, c)
    requires |es| == |os| && Meets(es, os, c) && Distinct(es) && |es| <= |cyc|
    requires forall k :: 0 <= k < |es| ==> es[k] in cyc
    requires s < |cyc| && 0 < n <= |es| && es[0] == cyc[s] && os[0] == dirs[s]
    ensures forall i :: 0 <= i < n ==> es[i] == cyc[Forward(s, i, |cyc|)] && os[i] == dirs[Forward(s, i, |cyc|)]
    decreases n
  {
    var m := |cyc|;
    if n > 1 {
      ArcForward(cyc, dirs, keys, c, es, os, s, n - 1);
      var j := Forward(s, n - 2, m);
      assert es[n - 1] in cyc;
      var j' :| 0 <= j' < m && cyc[j'] == es[n - 1];
      assert es[n - 2] != es[n - 1];
      assert EndKey(es[n - 2], c, os[n - 2]) == StartKey(es[n - 1], c, os[n - 1]);
      StepForward(cyc, dirs, keys, c, j, j', os[n - 1]);
      assert Succ(j, m) == Forward(s, n - 1, m);
    }
  }

  /** A linked chain of distinct cycle edges that enters its first edge
      against the cycle's direction walks the cycle backwards. */
  lemma {:induction false} ArcBackward(cyc: seq<Edge>, dirs: seq<LR>, keys: seq<Key>, c: Criterion,
                                       es: seq<Edge>, os: seq<LR>, s: nat, n: nat)
    requires IsCycle(cyc, dirs, keys, c)
    requires |es| == |os| && Meets(es, os, c) && Distinct(es) && |es| <= |cyc|
    requires forall k :: 0 <= k < |es| ==> es[k] in cyc
    requires s < |cyc| && 0 < n <= |es| && es[0] == cyc[s] && os[0] == Other(dirs[s])
    ensures forall i :: 0 <= i < n ==> es[i] == cyc[Backward(s, i, |cyc|)] && os[i] == Other(dirs[Backward(s, i, |cyc|)])
    decreases n
  {
    var m := |cyc|;
    if n > 1 {
      ArcBackward(cyc, dirs, keys, c, es, os, s, n - 1);
      var j := Backward(s, n - 2, m);
      assert es[n - 1] in cyc;
      var j' :| 0 <= j' < m && cyc[j'] == es[n - 1];
      assert es[n - 2] != es[n - 1];
      assert EndKey(es[n - 2], c, os[n - 2]) == StartKey(es[n - 1], c, os[n - 1]);
      StepBackward(cyc, dirs, keys, c, j, j', os[n - 1]);
      assert j' == Backward(s, n - 1, m);
    }
  }

  /** A sequence without repeats holds each element at most once. */
  lemma {:induction false} DistinctCountsOnce(es: seq<Edge>, e: Edge)
    requires Distinct(es)
    ensures multiset(es)[e] <= 1
    decreases |es|
  {
    if |es| > 0 {
      assert es == [es[0]] + es[1..];
      DistinctCountsOnce(es[1..], e);
      if es[0] == e {
        assert e !in es[1..];
      }
    }
  }

  /** An element at two positions is counted at least twice. */
  lemma TwiceCounted(es: seq<Edge>, i: nat, j: nat)
    requires i < j < |es| && es[i] == es[j]
    ensures multiset(es)[es[i]] >= 2
  {
    assert es == es[..i] + [es[i]] + es[i + 1..j] + [es[j]] + es[j + 1..];
  }

  /** A part of the cycle's edges has no repeats. */
  lemma PartIsDistinct(cyc: seq<Edge>, es: seq<Edge>)
    requires Distinct(cyc) && multiset(es) <= multiset(cyc)
    ensures Distinct(es)
    ensures forall k :: 0 <= k < |es| ==> es[k] in cyc
  {
    forall i, j | 0 <= i < j < |es|
      ensures es[i] != es[j]
    {
      if es[i] == es[j] {
        TwiceCounted(es, i, j);
        DistinctCountsOnce(cyc, es[i]);
        assert false;
      }
    }
    forall k | 0 <= k < |es|
      ensures es[k] in cyc
    {
      assert es[k] in multiset(es);
    }
  }

  /** No input edge has an end at infinity. */
  lemma CycleIsFinite(cyc: seq<Edge>, dirs: seq<LR>, keys: seq<Key>, c: Criterion, orig: seq<Edge>)
    requires IsCycle(cyc, dirs, keys, c) && multiset(orig) == multiset(cyc)
    ensures forall k :: 0 <= k < |orig| ==> !HasInfiniteEnd(orig[k], c)
  {
    forall k | 0 <= k < |orig|
      ensures !HasInfiniteEnd(orig[k], c)
    {
      assert orig[k] in multiset(cyc);
      var j :| 0 <= j < |cyc| && cyc[j] == orig[k];
      KeysOfEdge(cyc[j], c, dirs[j]);
    }
  }

  /** An edge of the cycle outside the chain with an end at the chain's
      last key would attach, so a stalled chain cannot end there. */
  lemma NotStalledAt(cyc: seq<Edge>, dirs: seq<LR>, keys: seq<Key>, c: Criterion, orig: seq<Edge>, ch: Chain, t: nat)
    requires IsCycle(cyc, dirs, keys, c) && multiset(orig) == multiset(cyc)
    requires t < |cyc| && cyc[t] !in ch.edges
    requires ch.last == StartKey(cyc[t], c, dirs[t]) || ch.last == EndKey(cyc[t], c, dirs[t])
    ensures !Stalled(orig, c, ch)
  {
    KeysOfEdge(cyc[t], c, dirs[t]);
    assert Attach(ch, cyc[t], c).Some?;
    assert cyc[t] in multiset(orig);
    assert cyc[t] !in multiset(ch.edges);
    assert cyc[t] in multiset(orig) - multiset(ch.edges);
  }

  /** The cycle edge just past a forward arc of `n` edges from `s` is
      outside the arc and starts at the arc's last key. */
  lemma PastForwardArc(cyc: seq<Edge>, dirs: seq<LR>, keys: seq<Key>, c: Criterion, ch: Chain, s: nat)
    returns (t: nat)
    requires IsCycle(cyc, dirs, keys, c) && Linked(ch, c) && s < |cyc| && |ch.edges| < |cyc|
    requires forall i :: 0 <= i < |ch.edges| ==>
               ch.edges[i] == cyc[Forward(s, i, |cyc|)] && ch.orientations[i] == dirs[Forward(s, i, |cyc|)]
    ensures t < |cyc| && cyc[t] !in ch.edges && ch.last == StartKey(cyc[t], c, dirs[t])
  {
    var m, n := |cyc|, |ch.edges|;
    var j := Forward(s, n - 1, m);
    t := Forward(s, n, m);
    assert ch.last == EndKey(cyc[j], c, dirs[j]);
    assert Succ(j, m) == t;
  }

  /** The cycle edge just past a backward arc of `n` edges from `s` is
      outside the arc and ends, in the cycle's direction, at the arc's last
      key. */
  lemma PastBackwardArc(cyc: seq<Edge>, dirs: seq<LR>, keys: seq<Key>, c: Criterion, ch: Chain, s: nat)
    returns (t: nat)
    requires IsCycle(cyc, dirs, keys, c) && Linked(ch, c) && s < |cyc| && |ch.edges| < |cyc|
    requires forall i :: 0 <= i < |ch.edges| ==>
               ch.edges[i] == cyc[Backward(s, i, |cyc|)] && ch.orientations[i] == Other(dirs[Backward(s, i, |cyc|)])
    ensures t < |cyc| && cyc[t] !in ch.edges && ch.last == EndKey(cyc[t], c, dirs[t])
  {
    var m, n := |cyc|, |ch.edges|;
    var j := Backward(s, n - 1, m);
    t := Backward(s, n, m);
    assert ch.last == StartKey(cyc[j], c, dirs[j]);
    assert Succ(t, m) == j;
  }

  /** A linked chain of cycle edges, shorter than the cycle, is an arc of
      it: some cycle edge outside the chain has an end at the chain's last
      key. */
  lemma EdgePastTheArc(cyc: seq<Edge>, dirs: seq<LR>, keys: seq<Key>, c: Criterion, ch: Chain) returns (t: nat)
    requires IsCycle(cyc, dirs, keys, c)
    requires Linked(ch, c) && multiset(ch.edges) <= multiset(cyc) && |ch.edges| < |cyc|
    ensures t < |cyc| && cyc[t] !in ch.edges
    ensures ch.last == StartKey(cyc[t], c, dirs[t]) || ch.last == EndKey(cyc[t], c, dirs[t])
  {
    var es, os := ch.edges, ch.orientations;
    PartIsDistinct(cyc, es);
    var s :| 0 <= s < |cyc| && cyc[s] == es[0];
    if os[0] == dirs[s] {
      ArcForward(cyc, dirs, keys, c, es, os, s, |es|);
      t := PastForwardArc(cyc, dirs, keys, c, ch, s);
    } else {
      ArcBackward(cyc, dirs, keys, c, es, os, s, |es|);
      t := PastBackwardArc(cyc, dirs, keys, c, ch, s);
    }
  }

  /** A stalled chain over a cycle is impossible: the chain is an arc of the
      cycle, shorter than the cycle, and the edge just past its last end
      would attach. */
  lemma CycleNeverStalls(cyc: seq<Edge>, dirs: seq<LR>, keys: seq<Key>, c: Criterion, orig: seq<Edge>, ch: Chain)
    requires IsCycle(cyc, dirs, keys, c) && multiset(orig) == multiset(cyc)
    ensures !Stalled(orig, c, ch)
  {
    assert |multiset(orig)| == |multiset(cyc)|;
    if Linked(ch, c) && multiset(ch.edges) <= multiset(orig) && |ch.edges| < |orig| {
      var t := EdgePastTheArc(cyc, dirs, keys, c, ch);
      NotStalledAt(cyc, dirs, keys, c, orig, ch, t);
    }
  }

  /** The edges of a cycle, in any order and each in either direction, come
      back from the reorderer as one chain holding every edge. */
  lemma CycleIsReordered(cyc: seq<Edge>, dirs: seq<LR>, keys: seq<Key>, c: Criterion, orig: seq<Edge>)
    requires IsCycle(cyc, dirs, keys, c) && multiset(orig) == multiset(cyc)
    ensures |orig| == |cyc|
    ensures ReorderEdges(orig, c).Reordered?
    ensures multiset(ReorderEdges(orig, c).result.edges) == multiset(orig)
    ensures |ReorderEdges(orig, c).result.orientations| == |orig|
    ensures Meets(ReorderEdges(orig, c).result.edges, ReorderEdges(orig, c).result.orientations, c)
  {
    assert |multiset(orig)| == |multiset(cyc)|;
    CycleIsFinite(cyc, dirs, keys, c, orig);
    var r := ReorderEdges(orig, c);
    if r.NoProgress? {
      CycleNeverStalls(cyc, dirs, keys, c, orig, r.stuck);
    }
    assert |r.result.edges| > 0;
    assert |multiset(r.result.edges)| == |multiset(orig)|;
  }

  /** The three edges around a triangular cell, the middle one stored
      against the walk's direction. */
  function Triangle(): seq<Edge> {
    [Edge(None, None, VertexId(1), VertexId(2), Point(0.0, 0.0), Point(1.0, 0.0), true),
     Edge(None, None, VertexId(3), VertexId(2), Point(0.0, 1.0), Point(1.0, 0.0), true),
     Edge(None, None, VertexId(3), VertexId(1), Point(0.0, 1.0), Point(0.0, 0.0), true)]
  }

  /** The triangle is a ring through vertices 1, 2 and 3. */
  lemma TriangleIsCycle()
    ensures IsCycle(Triangle(), [LEFT, RIGHT, LEFT],
                    [VertexKey(VertexId(1)), VertexKey(VertexId(2)), VertexKey(VertexId(3))], ByVertex)
  {
  }

  /** Handed over last edge first, the triangle still comes back whole. */
  lemma TriangleIsReordered()
    ensures var orig := [Triangle()[2], Triangle()[0], Triangle()[1]];
            ReorderEdges(orig, ByVertex).Reordered?
            && |ReorderEdges(orig, ByVertex).result.edges| == 3
  {
    var cyc := Triangle();
    var orig := [cyc[2], cyc[0], cyc[1]];
    TriangleIsCycle();
    calc {
      multiset(orig);
      multiset{cyc[2]} + multiset{cyc[0]} + multiset{cyc[1]};
      multiset(cyc);
    }
    CycleIsReordered(cyc, [LEFT, RIGHT, LEFT],
                     [VertexKey(VertexId(1)), VertexKey(VertexId(2)), VertexKey(VertexId(3))], ByVertex, orig);
  }
}
