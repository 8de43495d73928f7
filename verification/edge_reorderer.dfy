/** The edge reorderer: arranges the edges around a site (or along the hull)
    into one chain in which consecutive edges meet, and records for each
    edge the side (LEFT or RIGHT) at which the chain enters it.

    Endpoints are compared by identity: under the vertex criterion the
    edge's two vertex references, under the site criterion its two site
    references. Two unset (null) references compare equal, as they do in
    the C# code.

    The C# loop repeats full passes over the edges until every edge is
    placed and has no progress check, so an edge that can never be attached
    keeps it running forever. The model makes each pass a function and
    stops with `NoProgress` as soon as a pass places nothing: from then on
    the C# loop would repeat the identical pass without end. */
module EdgeReorderer {

  import opened Wrappers
  import opened Geometry
  import opened Diagram

  /** The `Type` argument of the constructor: `typeof(Vertex)`,
      `typeof(Site)` or any other type. */
  datatype CriterionType = VertexType | SiteType | OtherType

  /** The two accepted criteria. */
  datatype Criterion = ByVertex | BySite

  /** An endpoint identity under one of the criteria. */
  datatype Key = VertexKey(v: VertexRef) | SiteKey(s: Option<Site>)

  function LeftKey(e: Edge, c: Criterion): Key {
    if c == ByVertex then VertexKey(e.leftVertex) else SiteKey(e.leftSite)
  }

  function RightKey(e: Edge, c: Criterion): Key {
    if c == ByVertex then VertexKey(e.rightVertex) else SiteKey(e.rightSite)
  }

  /** The key is the vertex at infinity. A site is never that vertex. */
  predicate IsInfinity(k: Key) {
    k == VertexKey(VertexAtInfinity)
  }

  predicate HasInfiniteEnd(e: Edge, c: Criterion) {
    IsInfinity(LeftKey(e, c)) || IsInfinity(RightKey(e, c))
  }

  /** The endpoint at which the chain enters an edge taken with
      orientation `lr`, and the one at which it leaves. */
  function StartKey(e: Edge, c: Criterion, lr: LR): Key {
    if lr == LEFT then LeftKey(e, c) else RightKey(e, c)
  }

  function EndKey(e: Edge, c: Criterion, lr: LR): Key {
    StartKey(e, c, Other(lr))
  }

  /** The chain under construction and its two open ends. */
  datatype Chain = Chain(edges: seq<Edge>, orientations: seq<LR>, first: Key, last: Key)

  /** Consecutive edges meet: each edge leaves at the key where the next
      one is entered. */
  predicate Meets(edges: seq<Edge>, orientations: seq<LR>, c: Criterion)
    requires |edges| == |orientations|
  {
    forall k :: 0 <= k < |edges| - 1 ==>
      EndKey(edges[k], c, orientations[k]) == StartKey(edges[k + 1], c, orientations[k + 1])
  }

  /** A well-formed non-empty chain whose open ends are `first` and `last`. */
  predicate Linked(ch: Chain, c: Criterion) {
    |ch.edges| == |ch.orientations| > 0
    && ch.first == StartKey(ch.edges[0], c, ch.orientations[0])
    && ch.last == EndKey(ch.edges[|ch.edges| - 1], c, ch.orientations[|ch.edges| - 1])
    && Meets(ch.edges, ch.orientations, c)
  }

  /** The edge `e` occurs in the chain with orientation LEFT. */
  predicate HoldsLeft(edges: seq<Edge>, orientations: seq<LR>, e: Edge)
    requires |edges| == |orientations|
  {
    exists p :: 0 <= p < |edges| && edges[p] == e && orientations[p] == LEFT
  }

  /** One attempt to attach an edge, by the first of the four rules that
      applies: its left end continues the back, its right end continues the
      front, its left end continues the front, its right end continues the
      back. */
  function Attach(ch: Chain, e: Edge, c: Criterion): (r: Option<Chain>)
    ensures r.None? <==> LeftKey(e, c) != ch.last && RightKey(e, c) != ch.first
                         && LeftKey(e, c) != ch.first && RightKey(e, c) != ch.last
    ensures r.Some? ==> |r.value.edges| == |ch.edges| + 1
                        && multiset(r.value.edges) == multiset(ch.edges) + multiset{e}
  {
    var l := LeftKey(e, c);
    var rt := RightKey(e, c);
    if l == ch.last then Some(Chain(ch.edges + [e], ch.orientations + [LEFT], ch.first, rt))
    else if rt == ch.first then Some(Chain([e] + ch.edges, [LEFT] + ch.orientations, l, ch.last))
    else if l == ch.first then Some(Chain([e] + ch.edges, [RIGHT] + ch.orientations, rt, ch.last))
    else if rt == ch.last then Some(Chain(ch.edges + [e], ch.orientations + [RIGHT], ch.first, l))
    else None
  }

  /** Attaching keeps the chain linked, keeps its ends as the open ends,
      and keeps every edge it already held with the same orientation. */
  lemma AttachKeepsLinked(ch: Chain, e: Edge, c: Criterion, seed: Edge)
    requires Attach(ch, e, c).Some?
    ensures Linked(ch, c) ==> Linked(Attach(ch, e, c).value, c)
    ensures Linked(ch, c) && HoldsLeft(ch.edges, ch.orientations, seed) ==>
              HoldsLeft(Attach(ch, e, c).value.edges, Attach(ch, e, c).value.orientations, seed)
  {
    if Linked(ch, c) {
      AttachLinkedCase(ch, e, c, seed);
    }
  }

  lemma AttachLinkedCase(ch: Chain, e: Edge, c: Criterion, seed: Edge)
    requires Linked(ch, c) && Attach(ch, e, c).Some?
    ensures Linked(Attach(ch, e, c).value, c)
    ensures HoldsLeft(ch.edges, ch.orientations, seed) ==>
              HoldsLeft(Attach(ch, e, c).value.edges, Attach(ch, e, c).value.orientations, seed)
  {
    var l := LeftKey(e, c);
    var rt := RightKey(e, c);
    if l == ch.last {
      AppendLinked(ch, e, c, LEFT, seed);
    } else if rt == ch.first {
      PrependLinked(ch, e, c, LEFT, seed);
    } else if l == ch.first {
      PrependLinked(ch, e, c, RIGHT, seed);
    } else {
      AppendLinked(ch, e, c, RIGHT, seed);
    }
  }

  /** An edge entered at the chain's last key extends it at the back. */
  lemma AppendLinked(ch: Chain, e: Edge, c: Criterion, o: LR, seed: Edge)
    requires Linked(ch, c) && StartKey(e, c, o) == ch.last
    ensures Linked(Chain(ch.edges + [e], ch.orientations + [o], ch.first, EndKey(e, c, o)), c)
    ensures HoldsLeft(ch.edges, ch.orientations, seed) ==>
              HoldsLeft(ch.edges + [e], ch.orientations + [o], seed)
  {
    var es, os := ch.edges + [e], ch.orientations + [o];
    var n := |ch.edges|;
    forall k | 0 <= k < |es| - 1
      ensures EndKey(es[k], c, os[k]) == StartKey(es[k + 1], c, os[k + 1])
    {
      if k < n - 1 {
        assert es[k] == ch.edges[k] && es[k + 1] == ch.edges[k + 1];
        assert os[k] == ch.orientations[k] && os[k + 1] == ch.orientations[k + 1];
      }
    }
    if HoldsLeft(ch.edges, ch.orientations, seed) {
      var p :| 0 <= p < n && ch.edges[p] == seed && ch.orientations[p] == LEFT;
      assert es[p] == seed && os[p] == LEFT;
    }
  }

  /** An edge left at the chain's first key extends it at the front. */
  lemma PrependLinked(ch: Chain, e: Edge, c: Criterion, o: LR, seed: Edge)
    requires Linked(ch, c) && EndKey(e, c, o) == ch.first
    ensures Linked(Chain([e] + ch.edges, [o] + ch.orientations, StartKey(e, c, o), ch.last), c)
    ensures HoldsLeft(ch.edges, ch.orientations, seed) ==>
              HoldsLeft([e] + ch.edges, [o] + ch.orientations, seed)
  {
    var es, os := [e] + ch.edges, [o] + ch.orientations;
    var n := |ch.edges|;
    forall k | 0 <= k < |es| - 1
      ensures EndKey(es[k], c, os[k]) == StartKey(es[k + 1], c, os[k + 1])
    {
      if k > 0 {
        assert es[k] == ch.edges[k - 1] && es[k + 1] == ch.edges[k];
        assert os[k] == ch.orientations[k - 1] && os[k + 1] == ch.orientations[k];
      }
    }
    if HoldsLeft(ch.edges, ch.orientations, seed) {
      var p :| 0 <= p < n && ch.edges[p] == seed && ch.orientations[p] == LEFT;
      assert es[p + 1] == seed && os[p + 1] == LEFT;
    }
  }

  /** The number of edges marked done. */
  function CountDone(done: seq<bool>): (k: nat)
    ensures k <= |done|
  {
    if |done| == 0 then 0 else (if done[0] then 1 else 0) + CountDone(done[1..])
  }

  /** The edges marked done, as a multiset. */
  function Placed(orig: seq<Edge>, done: seq<bool>): multiset<Edge>
    requires |done| == |orig|
  {
    if |orig| == 0 then multiset{}
    else (if done[0] then multiset{orig[0]} else multiset{}) + Placed(orig[1..], done[1..])
  }

  /** Marking one more edge done adds one to the count and that edge to the
      placed multiset. */
  lemma {:induction false} MarkDone(orig: seq<Edge>, done: seq<bool>, i: nat)
    requires |done| == |orig| && i < |orig| && !done[i]
    ensures CountDone(done[i := true]) == CountDone(done) + 1
    ensures Placed(orig, done[i := true]) == Placed(orig, done) + multiset{orig[i]}
    decreases i
  {
    if i > 0 {
      assert done[i := true][1..] == done[1..][i - 1 := true];
      MarkDone(orig[1..], done[1..], i - 1);
    } else {
      assert done[i := true][1..] == done[1..];
    }
  }

  /** When every edge is done, every edge is placed. */
  lemma {:induction false} AllDone(orig: seq<Edge>, done: seq<bool>)
    requires |done| == |orig| && CountDone(done) == |done|
    ensures Placed(orig, done) == multiset(orig)
    decreases |orig|
  {
    if |orig| > 0 {
      AllDone(orig[1..], done[1..]);
      assert orig == [orig[0]] + orig[1..];
    }
  }

  /** A full count means every flag is set. */
  lemma {:induction false} FullCountAllDone(done: seq<bool>)
    requires CountDone(done) == |done|
    ensures forall k :: 0 <= k < |done| ==> done[k]
    decreases |done|
  {
    if |done| > 0 {
      FullCountAllDone(done[1..]);
      assert forall k :: 1 <= k < |done| ==> done[k] == done[1..][k - 1];
    }
  }

  /** With nothing done, nothing is placed. */
  lemma {:induction false} NoneDone(orig: seq<Edge>)
    ensures CountDone(seq(|orig|, _ => false)) == 0
    ensures Placed(orig, seq(|orig|, _ => false)) == multiset{}
    decreases |orig|
  {
    if |orig| > 0 {
      assert seq(|orig|, _ => false)[1..] == seq(|orig| - 1, _ => false);
      NoneDone(orig[1..]);
    }
  }

  /** The loop state between passes: the done flags agree with the chain,
      the chain is linked and holds input edge 0 with orientation LEFT. */
  predicate Consistent(orig: seq<Edge>, c: Criterion, done: seq<bool>, ch: Chain) {
    |done| == |orig| > 0
    && done[0]
    && Linked(ch, c)
    && |ch.edges| == CountDone(done)
    && multiset(ch.edges) == Placed(orig, done)
    && HoldsLeft(ch.edges, ch.orientations, orig[0])
  }

  /** What one pass of the inner `for` loop ends with. */
  datatype Pass = Scanned(done: seq<bool>, chain: Chain) | MetInfinity(orientations: seq<LR>)

  /** The inner `for` loop from index `i` on: skip done edges, give up with
      an empty edge list on an edge with an end at infinity, and attach
      every other edge that fits. */
  function ScanFrom(orig: seq<Edge>, c: Criterion, done: seq<bool>, ch: Chain, i: nat): (r: Pass)
    requires |done| == |orig| && 1 <= i <= |orig|
    ensures r.Scanned? ==> |r.done| == |orig| && CountDone(r.done) >= CountDone(done)
    ensures r.Scanned? && CountDone(r.done) == CountDone(done) ==> r.done == done && r.chain == ch
    ensures r.Scanned? && Consistent(orig, c, done, ch) ==> Consistent(orig, c, r.done, r.chain)
    ensures r.MetInfinity? <==> exists k :: i <= k < |orig| && !done[k] && HasInfiniteEnd(orig[k], c)
    ensures r.Scanned? && CountDone(r.done) == CountDone(done) ==>
              forall k :: i <= k < |orig| && !done[k] ==> !HasInfiniteEnd(orig[k], c) && Attach(ch, orig[k], c).None?
    decreases |orig| - i
  {
    if i == |orig| then Scanned(done, ch)
    else if done[i] then ScanFrom(orig, c, done, ch, i + 1)
    else if HasInfiniteEnd(orig[i], c) then MetInfinity(ch.orientations)
    else match Attach(ch, orig[i], c)
      case None => ScanFrom(orig, c, done, ch, i + 1)
      case Some(next) =>
        MarkDone(orig, done, i);
        AttachKeepsLinked(ch, orig[i], c, orig[0]);
        ScanFrom(orig, c, done[i := true], next, i + 1)
  }

  /** The reorderer's result: the edge list and the orientation list. */
  datatype Reordering = Reordering(edges: seq<Edge>, orientations: seq<LR>)

  /** Either the loop finished, or it reached a pass that places nothing,
      from which the C# loop never returns. */
  datatype Outcome = Reordered(result: Reordering) | NoProgress(stuck: Chain)

  /** A chain that no remaining edge can extend: it is linked, holds input
      edge 0 with LEFT and part of the input, and every input edge not in it
      has finite ends and fails all four attachment rules. */
  predicate Stalled(orig: seq<Edge>, c: Criterion, ch: Chain) {
    |orig| > 0
    && Linked(ch, c)
    && HoldsLeft(ch.edges, ch.orientations, orig[0])
    && |ch.edges| < |orig|
    && multiset(ch.edges) <= multiset(orig)
    && forall e :: e in multiset(orig) - multiset(ch.edges) ==> !HasInfiniteEnd(e, c) && Attach(ch, e, c).None?
  }

  /** The input edges not yet placed are exactly the ones not marked done. */
  lemma {:induction false} Unplaced(orig: seq<Edge>, done: seq<bool>, e: Edge)
    requires |done| == |orig|
    requires e in multiset(orig) - Placed(orig, done)
    ensures exists k :: 0 <= k < |orig| && !done[k] && orig[k] == e
    decreases |orig|
  {
    assert orig == [orig[0]] + orig[1..];
    if orig[0] == e && !done[0] {
      assert orig[0] == e;
    } else {
      assert e in multiset(orig[1..]) - Placed(orig[1..], done[1..]);
      Unplaced(orig[1..], done[1..], e);
      var k :| 0 <= k < |orig[1..]| && !done[1..][k] && orig[1..][k] == e;
      assert orig[k + 1] == e && !done[k + 1];
    }
  }

  /** The placed edges are part of the input. */
  lemma {:induction false} PlacedWithin(orig: seq<Edge>, done: seq<bool>)
    requires |done| == |orig|
    ensures Placed(orig, done) <= multiset(orig)
    decreases |orig|
  {
    if |orig| > 0 {
      PlacedWithin(orig[1..], done[1..]);
      assert orig == [orig[0]] + orig[1..];
    }
  }

  /** A pass from a consistent state that places nothing leaves a stalled
      chain. */
  lemma StallIsStalled(orig: seq<Edge>, c: Criterion, done: seq<bool>, ch: Chain)
    requires |done| == |orig| && Consistent(orig, c, done, ch) && CountDone(done) < |orig|
    requires ScanFrom(orig, c, done, ch, 1).Scanned?
    requires CountDone(ScanFrom(orig, c, done, ch, 1).done) == CountDone(done)
    ensures Stalled(orig, c, ch)
  {
    PlacedWithin(orig, done);
    forall e | e in multiset(orig) - multiset(ch.edges)
      ensures !HasInfiniteEnd(e, c) && Attach(ch, e, c).None?
    {
      Unplaced(orig, done, e);
      var k :| 0 <= k < |orig| && !done[k] && orig[k] == e;
      assert k != 0;
    }
  }

  /** A full pass that does not meet infinity leaves no edge that is not
      done with an end at infinity. */
  lemma ScannedIsFinite(orig: seq<Edge>, c: Criterion, done: seq<bool>, ch: Chain)
    requires |done| == |orig| > 0 && done[0] && ScanFrom(orig, c, done, ch, 1).Scanned?
    ensures !exists k :: 0 <= k < |orig| && !done[k] && HasInfiniteEnd(orig[k], c)
  {
  }

  /** The outer `while (nDone < n)` loop. */
  function RunPasses(orig: seq<Edge>, c: Criterion, done: seq<bool>, ch: Chain): (r: Outcome)
    requires |done| == |orig|
    requires Consistent(orig, c, done, ch)
    ensures r.Reordered? && |r.result.edges| > 0 ==>
              multiset(r.result.edges) == multiset(orig)
              && |r.result.orientations| == |r.result.edges|
              && Meets(r.result.edges, r.result.orientations, c)
              && HoldsLeft(r.result.edges, r.result.orientations, orig[0])
    ensures r.Reordered? && |r.result.edges| == 0 ==> exists k :: 0 <= k < |orig| && HasInfiniteEnd(orig[k], c)
    ensures r.Reordered? ==> |r.result.edges| <= |r.result.orientations|
    ensures r.NoProgress? ==> Stalled(orig, c, r.stuck)
    ensures (exists k :: 0 <= k < |orig| && !done[k] && HasInfiniteEnd(orig[k], c)) ==>
              r.Reordered? && r.result.edges == []
    decreases |orig| - CountDone(done)
  {
    if CountDone(done) == |orig| then
      AllDone(orig, done);
      FullCountAllDone(done);
      Reordered(Reordering(ch.edges, ch.orientations))
    else match ScanFrom(orig, c, done, ch, 1)
      case MetInfinity(os) => Reordered(Reordering([], os))
      case Scanned(done', ch') =>
        ScannedIsFinite(orig, c, done, ch);
        if CountDone(done') == CountDone(done) then
          StallIsStalled(orig, c, done, ch);
          NoProgress(ch)
        else RunPasses(orig, c, done', ch')
  }

  /** The done flags before the first pass: edge 0 only. */
  function SeedDone(n: nat): (done: seq<bool>)
    requires n > 0
    ensures |done| == n && done[0] && forall k :: 1 <= k < n ==> !done[k]
  {
    [true] + seq(n - 1, _ => false)
  }

  /** The chain before the first pass: edge `e` taken LEFT. */
  function SeedChain(e: Edge, c: Criterion): Chain {
    Chain([e], [LEFT], LeftKey(e, c), RightKey(e, c))
  }

  /** The seeded state is consistent. */
  lemma SeedIsConsistent(orig: seq<Edge>, c: Criterion)
    requires |orig| > 0
    ensures Consistent(orig, c, SeedDone(|orig|), SeedChain(orig[0], c))
    ensures CountDone(SeedDone(|orig|)) == 1
  {
    var done := SeedDone(|orig|);
    NoneDone(orig[1..]);
    assert done[1..] == seq(|orig[1..]|, _ => false);
    assert SeedChain(orig[0], c).edges[0] == orig[0];
  }

  /** `ReorderEdges` on a non-empty list: seed the chain with input edge 0
      taken LEFT, give up at once if it has an end at infinity (keeping
      that one orientation), otherwise run the passes. */
  function ReorderEdges(orig: seq<Edge>, c: Criterion): (r: Outcome)
    requires |orig| > 0
    ensures r.Reordered? && |r.result.edges| > 0 ==>
              multiset(r.result.edges) == multiset(orig)
              && |r.result.orientations| == |r.result.edges|
              && Meets(r.result.edges, r.result.orientations, c)
              && HoldsLeft(r.result.edges, r.result.orientations, orig[0])
    ensures r.Reordered? && |r.result.edges| == 0 ==>
              exists k :: 0 <= k < |orig| && HasInfiniteEnd(orig[k], c)
    ensures r.Reordered? ==> |r.result.edges| <= |r.result.orientations|
    ensures r.NoProgress? ==> Stalled(orig, c, r.stuck)
    ensures (exists k :: 0 <= k < |orig| && HasInfiniteEnd(orig[k], c)) ==>
              r.Reordered? && r.result.edges == []
  {
    if HasInfiniteEnd(orig[0], c) then Reordered(Reordering([], [LEFT]))
    else
      SeedIsConsistent(orig, c);
      RunPasses(orig, c, SeedDone(|orig|), SeedChain(orig[0], c))
  }

  /** The constructor: reject any criterion other than Vertex or Site, leave
      both lists empty for no edges, and reorder otherwise. */
  function NewEdgeReorderer(orig: seq<Edge>, criterion: CriterionType): (r: Result<Outcome, string>)
    ensures r.Failure? <==> criterion == OtherType
    ensures r.Success? && |orig| == 0 ==> r.value == Reordered(Reordering([], []))
    ensures r.Success? && |orig| > 0 ==>
              r.value == ReorderEdges(orig, if criterion == VertexType then ByVertex else BySite)
  {
    if criterion == OtherType then Failure("Edges: criterion must be Vertex or Site")
    else if |orig| == 0 then Success(Reordered(Reordering([], [])))
    else Success(ReorderEdges(orig, if criterion == VertexType then ByVertex else BySite))
  }

  /** Under the site criterion no key is the vertex at infinity, so the
      reorderer never gives up early. */
  lemma SiteCriterionIsFinite(orig: seq<Edge>)
    requires |orig| > 0
    ensures ReorderEdges(orig, BySite).Reordered? ==> |ReorderEdges(orig, BySite).result.edges| == |orig|
  {
    var r := ReorderEdges(orig, BySite);
    if r.Reordered? && |r.result.edges| > 0 {
      assert |multiset(r.result.edges)| == |multiset(orig)|;
    }
  }

  function Lefts(n: nat): seq<LR> {
    seq(n, _ => LEFT)
  }

  /** A list that is already a chain taken left to right: each edge's
      right end is the next edge's left end, and no end is at infinity. */
  predicate AlreadyChained(orig: seq<Edge>, c: Criterion) {
    (forall k :: 0 <= k < |orig| ==> !HasInfiniteEnd(orig[k], c))
    && (forall k :: 0 <= k < |orig| - 1 ==> RightKey(orig[k], c) == LeftKey(orig[k + 1], c))
  }

  /** One step of a pass over an already chained list: edge `i` fits at
      the back of the chain of the first `i` edges. */
  lemma ChainedStep(orig: seq<Edge>, c: Criterion, i: nat)
    requires AlreadyChained(orig, c) && 1 <= i < |orig|
    ensures Attach(Chain(orig[..i], Lefts(i), LeftKey(orig[0], c), RightKey(orig[i - 1], c)), orig[i], c)
         == Some(Chain(orig[..i + 1], Lefts(i + 1), LeftKey(orig[0], c), RightKey(orig[i], c)))
  {
    assert LeftKey(orig[i], c) == RightKey(orig[i - 1], c);
    assert orig[..i] + [orig[i]] == orig[..i + 1];
    assert Lefts(i) + [LEFT] == Lefts(i + 1);
  }

  /** The done flags after marking edge `i` of a prefix-done list. */
  lemma ChainedDone(n: nat, i: nat)
    requires i < n
    ensures (seq(i, _ => true) + seq(n - i, _ => false))[i := true] == seq(i + 1, _ => true) + seq(n - (i + 1), _ => false)
    ensures !(seq(i, _ => true) + seq(n - i, _ => false))[i]
  {
  }

  lemma {:induction false} ScanChained(orig: seq<Edge>, c: Criterion, i: nat)
    requires AlreadyChained(orig, c) && 1 <= i <= |orig|
    ensures ScanFrom(orig, c, seq(i, _ => true) + seq(|orig| - i, _ => false),
                     Chain(orig[..i], Lefts(i), LeftKey(orig[0], c), RightKey(orig[i - 1], c)), i)
         == Scanned(seq(|orig|, _ => true), Chain(orig, Lefts(|orig|), LeftKey(orig[0], c), RightKey(orig[|orig| - 1], c)))
    decreases |orig| - i
  {
    var n := |orig|;
    if i == n {
      assert seq(i, _ => true) + seq(n - i, _ => false) == seq(n, _ => true);
      assert orig[..i] == orig;
    } else {
      ChainedDone(n, i);
      assert !HasInfiniteEnd(orig[i], c);
      ChainedStep(orig, c, i);
      ScanChained(orig, c, i + 1);
    }
  }

  lemma {:induction false} CountAllTrue(n: nat)
    ensures CountDone(seq(n, _ => true)) == n
  {
    if n > 0 {
      assert seq(n, _ => true)[1..] == seq(n - 1, _ => true);
      CountAllTrue(n - 1);
    }
  }

  /** The passes over an already chained list, from the seeded state. */
  lemma ChainedPasses(orig: seq<Edge>, c: Criterion, done: seq<bool>, seed: Chain)
    requires |orig| > 0 && AlreadyChained(orig, c)
    requires done == seq(1, _ => true) + seq(|orig| - 1, _ => false)
    requires seed == Chain(orig[..1], Lefts(1), LeftKey(orig[0], c), RightKey(orig[0], c))
    requires Consistent(orig, c, done, seed)
    ensures RunPasses(orig, c, done, seed) == Reordered(Reordering(orig, Lefts(|orig|)))
  {
    var n := |orig|;
    CountAllTrue(n);
    if n > 1 {
      assert CountDone(done) < n by {
        assert !done[n - 1];
      }
      ScanChained(orig, c, 1);
      var full := Chain(orig, Lefts(n), LeftKey(orig[0], c), RightKey(orig[n - 1], c));
      assert ScanFrom(orig, c, done, seed, 1) == Scanned(seq(n, _ => true), full);
    } else {
      assert done == seq(n, _ => true);
      assert orig[..1] == orig;
    }
  }

  /** A list that already forms a chain from left to right comes back
      unchanged, every edge with orientation LEFT. */
  lemma ChainedInputUnchanged(orig: seq<Edge>, c: Criterion)
    requires |orig| > 0 && AlreadyChained(orig, c)
    ensures ReorderEdges(orig, c) == Reordered(Reordering(orig, Lefts(|orig|)))
  {
    assert !HasInfiniteEnd(orig[0], c);
    SeedIsConsistent(orig, c);
    var done, seed := SeedDone(|orig|), SeedChain(orig[0], c);
    assert ReorderEdges(orig, c) == RunPasses(orig, c, done, seed);
    assert done == seq(1, _ => true) + seq(|orig| - 1, _ => false);
    assert seed == Chain(orig[..1], Lefts(1), LeftKey(orig[0], c), RightKey(orig[0], c));
    ChainedPasses(orig, c, done, seed);
  }

  /** Two edges with four distinct finite vertices: no rule attaches the
      second to the first. */
  function DisconnectedPair(): seq<Edge> {
    [Edge(None, None, VertexId(1), VertexId(2), Point(0.0, 0.0), Point(1.0, 0.0), true),
     Edge(None, None, VertexId(3), VertexId(4), Point(2.0, 0.0), Point(3.0, 0.0), true)]
  }

  /** On `DisconnectedPair` a pass from the seeded state returns exactly that
      state with one of the two edges still not done, so the C# `while`
      loop repeats it forever; the model reports `NoProgress` instead. */
  lemma DisconnectedPairStalls()
    ensures var orig := DisconnectedPair();
            var seed := Chain([orig[0]], [LEFT], VertexKey(VertexId(1)), VertexKey(VertexId(2)));
            ScanFrom(orig, ByVertex, [true, false], seed, 1) == Scanned([true, false], seed)
            && CountDone([true, false]) < |orig|
            && ReorderEdges(orig, ByVertex).NoProgress?
  {
    var orig := DisconnectedPair();
    var seed := Chain([orig[0]], [LEFT], VertexKey(VertexId(1)), VertexKey(VertexId(2)));
    assert [true] + seq(1, _ => false) == [true, false];
    assert Attach(seed, orig[1], ByVertex).None?;
    assert ScanFrom(orig, ByVertex, [true, false], seed, 1) == Scanned([true, false], seed);
  }
}
