/** Wire segments and the predicates of check.c and clip.c that compare them.
    Coordinates are exact (`real`); see README.md for what that leaves out. */
module Geometry {

  datatype Point = Point(x: real, y: real)

  datatype Seg = Seg(x1: real, y1: real, x2: real, y2: real)
  {
    function Start(): Point { Point(x1, y1) }
    function End(): Point { Point(x2, y2) }
    predicate Horizontal() { y1 == y2 }
    predicate Vertical() { x1 == x2 }
    predicate Degenerate() { x1 == x2 && y1 == y2 }

    /** What the ORDER macro establishes before a wire is stored. */
    predicate Ordered() { x1 < x2 || (x1 == x2 && y1 <= y2) }

    /** An ordered axis-parallel wire; zero-length wires are included. */
    predicate Ortho() { (x1 < x2 && y1 == y2) || (x1 == x2 && y1 <= y2) }
  }

  /** The point set of a segment: all convex combinations of its endpoints. */
  ghost predicate OnSegment(s: Seg, p: Point) {
    exists t: real :: AtFraction(s, t, p)
  }

  ghost predicate AtFraction(s: Seg, t: real, p: Point) {
    && 0.0 <= t <= 1.0
    && p.x == s.x1 + t * (s.x2 - s.x1)
    && p.y == s.y1 + t * (s.y2 - s.y1)
  }

  /** Membership as a box test, exact for axis-parallel wires (lemma OnIsOnSegment). */
  predicate On(s: Seg, p: Point) {
    s.x1 <= p.x <= s.x2 && s.y1 <= p.y <= s.y2
  }

  predicate Inside(s: Seg, p: Point) {
    On(s, p) && p != s.Start() && p != s.End()
  }

  // ---- the code's predicates ----

  /** check_includes */
  predicate CheckIncludes(a: Seg, b: Seg) {
    && b.x1 >= a.x1 && b.x2 <= a.x2 && b.y1 >= a.y1 && b.y2 <= a.y2
    && (a.x2 - a.x1) * (b.y2 - b.y1) == (b.x2 - b.x1) * (a.y2 - a.y1)
  }

  /** check_breaks */
  predicate CheckBreaks(s: Seg, p: Point) {
    && ((p.x > s.x1 && p.x < s.x2) || (p.y > s.y1 && p.y < s.y2))
    && (s.x2 - s.x1) * (p.y - s.y1) == (p.x - s.x1) * (s.y2 - s.y1)
  }

  /** touch */
  predicate Touch(s: Seg, p: Point) {
    if (s.x2 - s.x1) * (p.y - s.y1) == (s.y2 - s.y1) * (p.x - s.x1) then
      if s.x1 < s.x2 && p.x >= s.x1 && p.x <= s.x2 then true
      else s.x1 == s.x2 && p.y >= s.y1 && p.y <= s.y2
    else false
  }

  /** The parallelism test written out in trim_wires. */
  predicate Parallel(a: Seg, b: Seg) {
    (a.x2 - a.x1) * (b.y2 - b.y1) == (b.x2 - b.x1) * (a.y2 - a.y1)
  }

  // ---- what they mean, for every ordered segment ----

  lemma MulDiv(a: real, b: real)
    requires b != 0.0
    ensures (a / b) * b == a
  {
  }

  lemma ZeroProduct(a: real, b: real)
    ensures a * b == 0.0 <==> a == 0.0 || b == 0.0
  {
  }

  lemma NonNegTimes(a: real, b: real)
    requires a >= 0.0 && b >= 0.0
    ensures a * b >= 0.0
  {
  }

  lemma SignRules(a: real, b: real)
    requires b > 0.0
    ensures a * b > 0.0 <==> a > 0.0
    ensures a * b < 0.0 <==> a < 0.0
  {
  }

  lemma FractionBounds(a: real, b: real)
    requires b > 0.0 && 0.0 <= a <= b
    ensures 0.0 <= a / b <= 1.0
  {
    MulDiv(a, b);
    var t := a / b;
    SignRules(t, b);
    SignRules(t - 1.0, b);
    assert (t - 1.0) * b == a - b;
  }

  lemma MulCommutes(a: real, t: real, b: real)
    ensures a * (t * b) == b * (t * a)
  {
  }

  lemma FractionMonotone(t: real, d: real)
    requires 0.0 <= t <= 1.0 && 0.0 <= d
    ensures 0.0 <= t * d <= d
  {
    var w := (1.0 - t) * d;
    assert w >= 0.0 && t * d >= 0.0;
    assert w == d - t * d;
  }

  lemma Proportional(dx: real, dy: real, px: real, py: real)
    requires dx != 0.0 && dx * py == dy * px
    ensures px == (px / dx) * dx && py == (px / dx) * dy
  {
    var t := px / dx;
    MulDiv(px, dx);
    MulCommutes(dx, t, dy);
    assert dx * py == dx * (t * dy);
    assert dx * (py - t * dy) == 0.0;
    ZeroProduct(dx, py - t * dy);
  }

  /** `touch` is exact on every ordered segment of non-zero length, slanted ones included. */
  lemma TouchIsOnSegment(s: Seg, p: Point)
    requires s.Ordered() && !s.Degenerate()
    ensures Touch(s, p) <==> OnSegment(s, p)
  {
    var dx, dy := s.x2 - s.x1, s.y2 - s.y1;
    if Touch(s, p) {
      if s.x1 < s.x2 {
        var t := (p.x - s.x1) / dx;
        FractionBounds(p.x - s.x1, dx);
        Proportional(dx, dy, p.x - s.x1, p.y - s.y1);
        assert AtFraction(s, t, p);
      } else {
        var t := (p.y - s.y1) / dy;
        FractionBounds(p.y - s.y1, dy);
        Proportional(dy, dx, p.y - s.y1, p.x - s.x1);
        assert AtFraction(s, t, p);
      }
    }
    if OnSegment(s, p) {
      var t :| AtFraction(s, t, p);
      OnSegmentTouches(s, t, p);
    }
  }

  lemma OnSegmentTouches(s: Seg, t: real, p: Point)
    requires s.Ordered() && AtFraction(s, t, p)
    ensures Touch(s, p)
  {
    var dx, dy, px, py := s.x2 - s.x1, s.y2 - s.y1, p.x - s.x1, p.y - s.y1;
    assert px == t * dx && py == t * dy;
    assert dx * py == dy * px by {
      MulCommutes(dx, t, dy);
    }
    if s.x1 < s.x2 {
      FractionMonotone(t, dx);
    } else {
      assert t * dx == 0.0;
      FractionMonotone(t, dy);
    }
  }

  /** On a zero-length wire `touch` looks at the ordinate only: it is wrong exactly
      for the points beside the wire on the same horizontal. */
  lemma TouchOnDegenerate(s: Seg, p: Point)
    requires s.Degenerate()
    ensures Touch(s, p) <==> p.y == s.y1
    ensures OnSegment(s, p) <==> p == s.Start()
  {
    if p == s.Start() {
      assert AtFraction(s, 0.0, p);
    }
    if OnSegment(s, p) {
      var t :| AtFraction(s, t, p);
      assert t * (s.x2 - s.x1) == 0.0 && t * (s.y2 - s.y1) == 0.0;
    }
  }

  /** When the two disagree, over all ordered segments. */
  lemma TouchExactlyWhen(s: Seg, p: Point)
    requires s.Ordered()
    ensures (Touch(s, p) <==> OnSegment(s, p)) <==> !(s.Degenerate() && p.y == s.y1 && p.x != s.x1)
  {
    if s.Degenerate() {
      TouchOnDegenerate(s, p);
    } else {
      TouchIsOnSegment(s, p);
    }
  }

  /** `check_breaks` holds exactly for the points of an ordered segment other than its endpoints. */
  lemma BreaksIsInterior(s: Seg, p: Point)
    requires s.Ordered()
    ensures CheckBreaks(s, p) <==> OnSegment(s, p) && p != s.Start() && p != s.End()
  {
    if s.Degenerate() {
      TouchOnDegenerate(s, p);
    } else {
      TouchIsOnSegment(s, p);
      var dx, dy := s.x2 - s.x1, s.y2 - s.y1;
      var px, py := p.x - s.x1, p.y - s.y1;
      if s.x1 == s.x2 {
        assert dx * py == 0.0;
        assert px * dy == 0.0 <==> px == 0.0;
      } else {
        if dx * py == px * dy {
          InteriorOfSlanted(dx, dy, px, py);
        }
      }
    }
  }

  lemma InteriorOfSlanted(dx: real, dy: real, px: real, py: real)
    requires dx > 0.0 && dx * py == px * dy
    ensures 0.0 < py < dy ==> 0.0 < px < dx
    ensures px == 0.0 ==> py == 0.0
    ensures px == dx ==> py == dy
  {
    if 0.0 < py < dy {
      assert dx * py > 0.0;
      SignRules(px, dy);
      assert dx * (dy - py) > 0.0;
      assert dx * (dy - py) == (dx - px) * dy;
      SignRules(dx - px, dy);
    }
    if px == dx {
      assert dx * (py - dy) == 0.0;
    }
  }

  /** Between axis-parallel wires `check_includes` is inclusion of the point sets. */
  lemma IncludesIsInclusion(a: Seg, b: Seg)
    requires a.Ortho() && b.Ortho()
    ensures CheckIncludes(a, b) <==> forall p :: OnSegment(b, p) ==> OnSegment(a, p)
  {
    IncludesOrtho(a, b);
    if CheckIncludes(a, b) {
      forall p | OnSegment(b, p) ensures OnSegment(a, p) {
        OnIsOnSegment(a, p);
        OnIsOnSegment(b, p);
      }
    }
    if forall p :: OnSegment(b, p) ==> OnSegment(a, p) {
      OnIsOnSegment(b, b.Start());
      OnIsOnSegment(b, b.End());
      OnIsOnSegment(a, b.Start());
      OnIsOnSegment(a, b.End());
    }
  }

  /** For which wires may everything `check_includes` reports be deleted safely?  Exactly those
      not rising from left to right: inside the box of a rising wire lie parallel wires off its line. */
  lemma IncludesSoundExactlyWhen(a: Seg)
    requires a.Ordered()
    ensures (forall b: Seg :: b.Ordered() && CheckIncludes(a, b) ==> forall p :: OnSegment(b, p) ==> OnSegment(a, p))
            <==> !(a.x1 < a.x2 && a.y1 < a.y2)
  {
    if a.x1 < a.x2 && a.y1 < a.y2 {
      var b := RisingCounterexample(a);
      assert b.Ordered() && CheckIncludes(a, b) && OnSegment(b, b.Start()) && !OnSegment(a, b.Start());
    } else {
      forall b: Seg, p | b.Ordered() && CheckIncludes(a, b) && OnSegment(b, p) ensures OnSegment(a, p) {
        if a.x1 < a.x2 && a.y1 > a.y2 {
          FallingIncludesOnlyItself(a, b);
        } else {
          assert a.Ortho();
          assert b.Ortho() by { IncludedIsOrtho(a, b); }
          IncludesIsInclusion(a, b);
        }
      }
    }
  }

  lemma IncludedIsOrtho(a: Seg, b: Seg)
    requires a.Ortho() && b.Ordered() && CheckIncludes(a, b)
    ensures b.Ortho()
  {
    if a.x1 < a.x2 && b.x1 < b.x2 {
      assert (a.x2 - a.x1) * (b.y2 - b.y1) == 0.0;
    }
  }

  lemma FallingIncludesOnlyItself(a: Seg, b: Seg)
    requires a.x1 < a.x2 && a.y1 > a.y2 && b.Ordered() && CheckIncludes(a, b)
    ensures a == b
  {
    var dxa, dya, dxb, dyb := a.x2 - a.x1, a.y1 - a.y2, b.x2 - b.x1, b.y1 - b.y2;
    assert dxa * dyb == dxb * dya by {
      assert (a.x2 - a.x1) * (b.y2 - b.y1) == -(dxa * dyb);
      assert (b.x2 - b.x1) * (a.y2 - a.y1) == -(dxb * dya);
    }
    assert dxb <= dxa && dyb >= dya;
    assert (dxa - dxb) * dya + dxa * (dyb - dya) == 0.0;
    NonNegTimes(dxa - dxb, dya);
    NonNegTimes(dxa, dyb - dya);
    ZeroProduct(dxa - dxb, dya);
    ZeroProduct(dxa, dyb - dya);
  }

  /** A half-length copy of a rising wire slid to the top left corner of its box. */
  lemma RisingCounterexample(a: Seg) returns (b: Seg)
    requires a.x1 < a.x2 && a.y1 < a.y2
    ensures b.Ordered() && CheckIncludes(a, b)
    ensures OnSegment(b, b.Start()) && !OnSegment(a, b.Start())
  {
    var hx, hy := (a.x2 - a.x1) / 2.0, (a.y2 - a.y1) / 2.0;
    b := Seg(a.x1, a.y1 + hy, a.x1 + hx, a.y2);
    assert (a.x2 - a.x1) * (b.y2 - b.y1) == (b.x2 - b.x1) * (a.y2 - a.y1) by {
      assert (2.0 * hx) * hy == hx * (2.0 * hy);
    }
    assert AtFraction(b, 0.0, b.Start());
    TouchIsOnSegment(a, b.Start());
    var dx := a.x2 - a.x1;
    SignRules(dx, hy);
    assert dx * (b.y1 - a.y1) != (a.y2 - a.y1) * (b.x1 - a.x1);
  }

  // ---- the axis-parallel readings used by the wire proofs ----

  lemma OnIsOnSegment(s: Seg, p: Point)
    requires s.Ortho()
    ensures On(s, p) <==> OnSegment(s, p)
  {
    if s.Degenerate() {
      TouchOnDegenerate(s, p);
    } else {
      TouchIsOnSegment(s, p);
      TouchOrtho(s, p);
    }
  }

  lemma TouchOrtho(s: Seg, p: Point)
    requires s.Ortho()
    ensures On(s, p) ==> Touch(s, p)
    ensures !s.Degenerate() ==> (Touch(s, p) <==> On(s, p))
  {
    ZeroProduct(s.x2 - s.x1, p.y - s.y1);
    ZeroProduct(s.y2 - s.y1, p.x - s.x1);
  }

  lemma BreaksOrtho(s: Seg, p: Point)
    requires s.Ortho()
    ensures CheckBreaks(s, p) <==> Inside(s, p)
  {
    BreaksIsInterior(s, p);
    OnIsOnSegment(s, p);
  }

  lemma IncludesOrtho(a: Seg, b: Seg)
    requires a.Ortho() && b.Ortho()
    ensures CheckIncludes(a, b) <==> On(a, b.Start()) && On(a, b.End())
  {
    ZeroProduct(a.x2 - a.x1, b.y2 - b.y1);
    ZeroProduct(b.x2 - b.x1, a.y2 - a.y1);
  }

  lemma ParallelOrtho(a: Seg, b: Seg)
    requires a.Ortho() && b.Ortho()
    ensures Parallel(a, b) <==> (a.Horizontal() && b.Horizontal()) || (a.Vertical() && b.Vertical())
  {
    ZeroProduct(a.x2 - a.x1, b.y2 - b.y1);
    ZeroProduct(b.x2 - b.x1, a.y2 - a.y1);
  }
}
