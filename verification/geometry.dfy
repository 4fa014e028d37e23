/**
  Monitor rectangles in the shared virtual-screen coordinate space and the
  resolver that tells which monitor a point belongs to.

  Coordinates are mathematical integers. The program stores them as 32-bit
  signed integers; `IsI32` and `FitsI32` name that range so that lemmas can
  say when the program's arithmetic cannot overflow.
 */
module Geometry {

  /** One display: top-left corner and size, as reported by the windowing system. */
  datatype Monitor = Monitor(x: int, y: int, width: int, height: int)

  /** A position in the virtual screen (the pointer, or a window's corner). */
  datatype Point = Point(x: int, y: int)

  const I32Min: int := -0x8000_0000
  const I32Max: int := 0x7FFF_FFFF

  predicate IsI32(v: int) {
    I32Min <= v <= I32Max
  }

  /** The monitor's fields and its right and bottom edges are all representable as i32. */
  predicate FitsI32(m: Monitor) {
    && IsI32(m.x) && IsI32(m.y) && IsI32(m.width) && IsI32(m.height)
    && IsI32(m.x + m.width) && IsI32(m.y + m.height)
  }

  /** Half-open containment: x in [m.x, m.x + width) and y in [m.y, m.y + height). */
  predicate Contains(m: Monitor, p: Point) {
    m.x <= p.x < m.x + m.width && m.y <= p.y < m.y + m.height
  }

  /** A monitor with no area: no point lies inside it. */
  predicate Degenerate(m: Monitor) {
    m.width <= 0 || m.height <= 0
  }

  /** The two rectangles share at least one point. */
  predicate Overlap(a: Monitor, b: Monitor) {
    && a.x < b.x + b.width && b.x < a.x + a.width
    && a.y < b.y + b.height && b.y < a.y + a.height
    && !Degenerate(a) && !Degenerate(b)
  }

  /** No two distinct monitors of the layout share a point. */
  predicate NonOverlapping(ms: seq<Monitor>) {
    forall i, j {:trigger Overlap(ms[i], ms[j])} | 0 <= i < j < |ms| :: !Overlap(ms[i], ms[j])
  }

  /** `i` is the lowest index whose monitor contains `p`. */
  predicate IsFirstMatch(ms: seq<Monitor>, p: Point, i: int) {
    && 0 <= i < |ms|
    && Contains(ms[i], p)
    && forall j | 0 <= j < i :: !Contains(ms[j], p)
  }

  predicate SomeContains(ms: seq<Monitor>, p: Point) {
    exists i | 0 <= i < |ms| :: Contains(ms[i], p)
  }

  /**
    The scan of the resolver from position `i` on: the first index at or after
    `i` whose monitor contains `p`, or the fallback 0 when none does.
   */
  function ScanFrom(ms: seq<Monitor>, p: Point, i: nat): (r: nat)
    requires i <= |ms|
    ensures (exists j | i <= j < |ms| :: Contains(ms[j], p)) ==>
              i <= r < |ms| && Contains(ms[r], p) &&
              forall j | i <= j < r :: !Contains(ms[j], p)
    ensures (forall j | i <= j < |ms| :: !Contains(ms[j], p)) ==> r == 0
    decreases |ms| - i
  {
    if i == |ms| then 0
    else if Contains(ms[i], p) then i
    else ScanFrom(ms, p, i + 1)
  }

  /**
    The monitor a point belongs to: the first monitor in enumeration order
    whose half-open rectangle contains it, and 0 when none does (including
    when there are no monitors at all).
   */
  function MonitorIndex(ms: seq<Monitor>, p: Point): (r: nat)
    ensures SomeContains(ms, p) <==> IsFirstMatch(ms, p, r)
    ensures !SomeContains(ms, p) ==> r == 0
    ensures |ms| > 0 ==> r < |ms|
  {
    ScanFrom(ms, p, 0)
  }

  /** A monitor without area never contains a point, so it is never the match. */
  lemma DegenerateNeverMatches(ms: seq<Monitor>, p: Point, i: nat)
    requires i < |ms| && Degenerate(ms[i])
    ensures !Contains(ms[i], p)
    ensures MonitorIndex(ms, p) == i ==> i == 0 && !SomeContains(ms, p)
  {
  }

  /** Two monitors that both contain a point overlap. */
  lemma SharedPointOverlaps(a: Monitor, b: Monitor, p: Point)
    requires Contains(a, p) && Contains(b, p)
    ensures Overlap(a, b)
  {
  }

  /** In a layout without overlaps, a point inside monitor `k` resolves to `k`. */
  lemma {:induction false} ResolveNonOverlapping(ms: seq<Monitor>, p: Point, k: nat)
    requires NonOverlapping(ms)
    requires k < |ms| && Contains(ms[k], p)
    ensures MonitorIndex(ms, p) == k
  {
    var r := MonitorIndex(ms, p);
    assert IsFirstMatch(ms, p, r);
    if r < k {
      SharedPointOverlaps(ms[r], ms[k], p);
      assert false;
    } else if r > k {
      assert false;
    }
  }

  /** Monitors enumerated after the match do not change the resolved index. */
  lemma {:induction false} ResolveIgnoresLaterMonitors(ms: seq<Monitor>, more: seq<Monitor>, p: Point)
    requires SomeContains(ms, p)
    ensures MonitorIndex(ms + more, p) == MonitorIndex(ms, p)
  {
    var r := MonitorIndex(ms, p);
    assert IsFirstMatch(ms, p, r);
    assert (ms + more)[r] == ms[r];
    assert forall j | 0 <= j < r :: (ms + more)[j] == ms[j];
    assert IsFirstMatch(ms + more, p, r);
  }
}
