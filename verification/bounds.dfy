/** Where a clipped point lies on the border of the plot bounds, and the
    corners inserted to join two clipped points along that border. */
module Bounds {

  import opened Wrappers
  import opened Geometry

  /** The side bits of `BoundsCheck`. */
  const BoundsTop: int := 1
  const BoundsBottom: int := 2
  const BoundsLeft: int := 4
  const BoundsRight: int := 8

  /** Bit `bit` (a power of two) is set in `v`. */
  predicate HasBit(v: int, bit: int)
    requires bit > 0
  {
    (v / bit) % 2 == 1
  }

  /** `BoundsCheck.Check`: one bit for every border line the point lies on.
      The bits are distinct powers of two, so or-ing them is adding them. */
  function BoundsCheck(p: Point, b: Rect): (v: int)
    ensures 0 <= v < 16
    ensures HasBit(v, BoundsLeft) <==> p.x == b.Left()
    ensures HasBit(v, BoundsRight) <==> p.x == b.Right()
    ensures HasBit(v, BoundsTop) <==> p.y == b.Top()
    ensures HasBit(v, BoundsBottom) <==> p.y == b.Bottom()
  {
    (if p.x == b.Left() then BoundsLeft else 0)
    + (if p.x == b.Right() then BoundsRight else 0)
    + (if p.y == b.Top() then BoundsTop else 0)
    + (if p.y == b.Bottom() then BoundsBottom else 0)
  }

  /** A point that lies on no border line gets no bit at all. */
  lemma InteriorHasNoBits(p: Point, b: Rect)
    requires p.x != b.Left() && p.x != b.Right() && p.y != b.Top() && p.y != b.Bottom()
    ensures BoundsCheck(p, b) == 0
  {
  }

  datatype Side = TopSide | BottomSide | LeftSide | RightSide

  /** The side named by a mask with exactly one bit set. */
  function SingleSide(mask: int): (r: Option<Side>)
    ensures r.Some? ==> mask in {BoundsTop, BoundsBottom, BoundsLeft, BoundsRight}
  {
    if mask == BoundsTop then Some(TopSide)
    else if mask == BoundsBottom then Some(BottomSide)
    else if mask == BoundsLeft then Some(LeftSide)
    else if mask == BoundsRight then Some(RightSide)
    else None
  }

  /** The point lies on the border line of side `s`. */
  predicate OnSide(p: Point, s: Side, b: Rect) {
    match s
    case TopSide => p.y == b.Top()
    case BottomSide => p.y == b.Bottom()
    case LeftSide => p.x == b.Left()
    case RightSide => p.x == b.Right()
  }

  /** A point whose mask is a single side lies on that side's line and on
      no other border line. */
  lemma SingleSideIsExact(p: Point, b: Rect, s: Side)
    requires SingleSide(BoundsCheck(p, b)) == Some(s)
    ensures forall t :: OnSide(p, t, b) <==> t == s
  {
  }

  predicate Opposite(s: Side, t: Side) {
    (s == LeftSide && t == RightSide) || (s == RightSide && t == LeftSide)
    || (s == TopSide && t == BottomSide) || (s == BottomSide && t == TopSide)
  }

  predicate Adjacent(s: Side, t: Side) {
    s != t && !Opposite(s, t)
  }

  /** The point is a corner of the rectangle. */
  predicate IsCorner(p: Point, b: Rect) {
    (p.x == b.Left() || p.x == b.Right()) && (p.y == b.Top() || p.y == b.Bottom())
  }

  /** The two points lie on one common border line. */
  predicate ShareSide(p: Point, q: Point, b: Rect) {
    (p.x == b.Left() && q.x == b.Left()) || (p.x == b.Right() && q.x == b.Right())
    || (p.y == b.Top() && q.y == b.Top()) || (p.y == b.Bottom() && q.y == b.Bottom())
  }

  /** Every step of the path runs along one border line. */
  predicate AlongBorder(path: seq<Point>, b: Rect) {
    forall k :: 0 <= k < |path| - 1 ==> ShareSide(path[k], path[k + 1], b)
  }

  /** The corner table of `Connect`: the corners inserted between the last
      point `right` and the next clipped point `newPt` when they lie on
      different border lines. Going between opposite sides, the route runs
      via the top when the two points' summed offsets from the top are below
      the height (via the left when their offsets from the left are below
      the width). */
  function CornerTable(right: Point, newPt: Point, b: Rect): (r: seq<Point>)
    ensures |r| <= 2
    ensures forall k :: 0 <= k < |r| ==> IsCorner(r[k], b)
    ensures SingleSide(BoundsCheck(right, b)).None? || SingleSide(BoundsCheck(newPt, b)).None? ==> r == []
    ensures SingleSide(BoundsCheck(right, b)).Some? && SingleSide(BoundsCheck(newPt, b)).Some? ==>
              var sr := SingleSide(BoundsCheck(right, b)).value;
              var sn := SingleSide(BoundsCheck(newPt, b)).value;
              (|r| == 0 <==> sr == sn) && (|r| == 1 <==> Adjacent(sr, sn)) && (|r| == 2 <==> Opposite(sr, sn))
  {
    var rc := BoundsCheck(right, b);
    var nc := BoundsCheck(newPt, b);
    if rc == BoundsRight then
      if nc == BoundsBottom then [Point(b.Right(), b.Bottom())]
      else if nc == BoundsTop then [Point(b.Right(), b.Top())]
      else if nc == BoundsLeft then
        var py := if right.y - b.y + newPt.y - b.y < b.height then b.Top() else b.Bottom();
        [Point(b.Right(), py), Point(b.Left(), py)]
      else []
    else if rc == BoundsLeft then
      if nc == BoundsBottom then [Point(b.Left(), b.Bottom())]
      else if nc == BoundsTop then [Point(b.Left(), b.Top())]
      else if nc == BoundsRight then
        var py := if right.y - b.y + newPt.y - b.y < b.height then b.Top() else b.Bottom();
        [Point(b.Left(), py), Point(b.Right(), py)]
      else []
    else if rc == BoundsTop then
      if nc == BoundsRight then [Point(b.Right(), b.Top())]
      else if nc == BoundsLeft then [Point(b.Left(), b.Top())]
      else if nc == BoundsBottom then
        var px := if right.x - b.x + newPt.x - b.x < b.width then b.Left() else b.Right();
        [Point(px, b.Top()), Point(px, b.Bottom())]
      else []
    else if rc == BoundsBottom then
      if nc == BoundsRight then [Point(b.Right(), b.Bottom())]
      else if nc == BoundsLeft then [Point(b.Left(), b.Bottom())]
      else if nc == BoundsTop then
        var px := if right.x - b.x + newPt.x - b.x < b.width then b.Left() else b.Right();
        [Point(px, b.Bottom()), Point(px, b.Top())]
      else []
    else []
  }

  /** The corners join the two points along the border: from `right`
      through the inserted corners to `newPt`, every step stays on one
      border line. */
  lemma CornerTableFollowsBorder(right: Point, newPt: Point, b: Rect)
    requires SingleSide(BoundsCheck(right, b)).Some? && SingleSide(BoundsCheck(newPt, b)).Some?
    requires SingleSide(BoundsCheck(right, b)) != SingleSide(BoundsCheck(newPt, b))
    ensures AlongBorder([right] + CornerTable(right, newPt, b) + [newPt], b)
  {
  }

  /** Between opposite sides the corners take the shorter way round: the
      row (or column) of the two corners is the border line with the
      smaller total detour from the two points. */
  lemma CornerTableTakesShorterWay(right: Point, newPt: Point, b: Rect)
    requires SingleSide(BoundsCheck(right, b)).Some? && SingleSide(BoundsCheck(newPt, b)).Some?
    requires Opposite(SingleSide(BoundsCheck(right, b)).value, SingleSide(BoundsCheck(newPt, b)).value)
    ensures var r := CornerTable(right, newPt, b);
            var viaTop := (right.y - b.Top()) + (newPt.y - b.Top());
            var viaBottom := (b.Bottom() - right.y) + (b.Bottom() - newPt.y);
            var viaLeft := (right.x - b.Left()) + (newPt.x - b.Left());
            var viaRight := (b.Right() - right.x) + (b.Right() - newPt.x);
            |r| == 2
            && (r[0].x == r[1].x ==> r[0].x == if viaLeft < viaRight then b.Left() else b.Right())
            && (r[0].y == r[1].y ==> r[0].y == if viaTop < viaBottom then b.Top() else b.Bottom())
  {
  }
}
