/**
  Where things go once a target monitor is chosen: the pointer to the
  monitor's centre, and the focused window to the top-left corner that centres
  it on the monitor. Both use the program's integer division, which truncates
  toward zero (unlike Dafny's `/`, which is Euclidean).
 */
module Placement {
  import opened Geometry

  /** Size of the focused window, as reported by the window-attribute query. */
  datatype Extent = Extent(width: int, height: int)

  /**
    Integer division that truncates toward zero, as 32-bit signed division
    does in the program: the remainder `a - d * q` is smaller than `d` in
    magnitude and never has the opposite sign of `a`.
   */
  function TruncDiv(a: int, d: int): (q: int)
    requires d != 0
    ensures a >= 0 ==> 0 <= a - d * q < if d > 0 then d else -d
    ensures a < 0 ==> (if d > 0 then -d else d) < a - d * q <= 0
  {
    if a >= 0 && d > 0 then a / d
    else if a >= 0 then -(a / -d)
    else if d > 0 then -((-a) / d)
    else (-a) / (-d)
  }

  /** Truncating division is odd in its dividend, which Euclidean division is not. */
  lemma TruncDivNegate(a: int, d: int)
    requires d != 0
    ensures TruncDiv(-a, d) == -TruncDiv(a, d)
  {
  }

  /** Halving an odd negative number: truncation rounds up where Euclidean division rounds down. */
  lemma TruncHalfOfNegativeOdd(a: int)
    requires a < 0 && a % 2 == 1
    ensures TruncDiv(a, 2) == a / 2 + 1
  {
  }

  /**
    The pointer destination: the monitor's centre, each coordinate offset from
    the corner by the truncated half of the size.
   */
  function PointerTarget(m: Monitor): (c: Point)
    ensures m.width >= 0 ==> 0 <= m.width - 2 * (c.x - m.x) <= 1
    ensures m.width < 0 ==> -1 <= m.width - 2 * (c.x - m.x) <= 0
    ensures m.height >= 0 ==> 0 <= m.height - 2 * (c.y - m.y) <= 1
    ensures m.height < 0 ==> -1 <= m.height - 2 * (c.y - m.y) <= 0
  {
    Point(m.x + TruncDiv(m.width, 2), m.y + TruncDiv(m.height, 2))
  }

  /** The centre lies inside the monitor exactly when the monitor has an area. */
  lemma PointerTargetInside(m: Monitor)
    ensures Contains(m, PointerTarget(m)) <==> !Degenerate(m)
  {
  }

  /** For a monitor whose fields and edges fit in i32, the centre fits in i32. */
  lemma PointerTargetFitsI32(m: Monitor)
    requires FitsI32(m)
    ensures IsI32(PointerTarget(m).x) && IsI32(PointerTarget(m).y)
  {
  }

  /**
    The window's new top-left corner: the free space on each axis is split in
    two with truncating division. Nothing is clamped, so a window larger than
    the monitor gets a corner left of or above the monitor's origin.
   */
  function WindowTarget(m: Monitor, e: Extent): (tl: Point)
    ensures m.width >= e.width ==> 0 <= (m.x + m.width - (tl.x + e.width)) - (tl.x - m.x) <= 1
    ensures m.width < e.width ==> -1 <= (m.x + m.width - (tl.x + e.width)) - (tl.x - m.x) <= 0
    ensures m.height >= e.height ==> 0 <= (m.y + m.height - (tl.y + e.height)) - (tl.y - m.y) <= 1
    ensures m.height < e.height ==> -1 <= (m.y + m.height - (tl.y + e.height)) - (tl.y - m.y) <= 0
  {
    Point(m.x + TruncDiv(m.width - e.width, 2), m.y + TruncDiv(m.height - e.height, 2))
  }

  /** A window no larger than the monitor ends up entirely inside it. */
  lemma WindowFitsInside(m: Monitor, e: Extent)
    requires 0 <= e.width <= m.width && 0 <= e.height <= m.height
    ensures m.x <= WindowTarget(m, e).x && WindowTarget(m, e).x + e.width <= m.x + m.width
    ensures m.y <= WindowTarget(m, e).y && WindowTarget(m, e).y + e.height <= m.y + m.height
  {
  }

  /**
    No clamping: the corner moves left of the monitor's origin exactly when the
    window is at least two units wider than the monitor (one unit of excess is
    truncated away), and likewise above the origin for the height.
   */
  lemma WindowMayOverhang(m: Monitor, e: Extent)
    ensures WindowTarget(m, e).x < m.x <==> e.width - m.width >= 2
    ensures WindowTarget(m, e).y < m.y <==> e.height - m.height >= 2
  {
  }

  /**
    The window's own centre (its corner plus its truncated half size) lies
    within one unit of the pointer target on each axis, and on the pointer
    target when both sizes are even.
   */
  lemma {:induction false} WindowCentreNearPointer(m: Monitor, e: Extent)
    ensures -1 <= WindowTarget(m, e).x + TruncDiv(e.width, 2) - PointerTarget(m).x <= 1
    ensures -1 <= WindowTarget(m, e).y + TruncDiv(e.height, 2) - PointerTarget(m).y <= 1
    ensures m.width % 2 == 0 && e.width % 2 == 0 ==>
              WindowTarget(m, e).x + TruncDiv(e.width, 2) == PointerTarget(m).x
    ensures m.height % 2 == 0 && e.height % 2 == 0 ==>
              WindowTarget(m, e).y + TruncDiv(e.height, 2) == PointerTarget(m).y
  {
  }

  /**
    The window centre and the pointer target need not coincide: a 2x2 monitor
    at the origin and a 1x1 window give a window corner of (0, 0) and a
    pointer target of (1, 1).
   */
  lemma WindowCentreCanMissPointer()
    ensures WindowTarget(Monitor(0, 0, 2, 2), Extent(1, 1)) == Point(0, 0)
    ensures PointerTarget(Monitor(0, 0, 2, 2)) == Point(1, 1)
  {
    assert TruncDiv(1, 2) == 0;
    assert TruncDiv(2, 2) == 1;
  }
}
