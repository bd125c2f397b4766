/** clip.c: Cohen-Sutherland clipping and point-to-segment distance, over exact coordinates. */
module Clipping {
  import opened Geometry

  datatype Rect = Rect(x1: real, y1: real, x2: real, y2: real)
  {
    predicate Contains(p: Point) { x1 <= p.x <= x2 && y1 <= p.y <= y2 }
  }

  /** The bits UP, DOWN, RIGHT and LEFT of an outcode. */
  datatype Outcode = Outcode(up: bool, down: bool, right: bool, left: bool)
  {
    predicate Zero() { !up && !down && !right && !left }
    predicate Shares(o: Outcode) { (up && o.up) || (down && o.down) || (right && o.right) || (left && o.left) }
    function Bits(): nat {
      (if up then 1 else 0) + (if down then 1 else 0) + (if right then 1 else 0) + (if left then 1 else 0)
    }
  }

  function OutcodeOf(p: Point, r: Rect): Outcode {
    Outcode(p.y > r.y2, !(p.y > r.y2) && p.y < r.y1, p.x > r.x2, !(p.x > r.x2) && p.x < r.x1)
  }

  /** One coordinate of a segment as a function of the parameter. */
  function Coord(c0: real, dc: real, t: real): real {
    c0 + t * dc
  }

  /** The point of s at parameter t; t from 0 to 1 runs from its first to its second endpoint. */
  function At(s: Seg, t: real): Point {
    Point(Coord(s.x1, s.x2 - s.x1, t), Coord(s.y1, s.y2 - s.y1, t))
  }

  lemma OnSegmentAt(s: Seg, p: Point)
    ensures OnSegment(s, p) <==> exists t :: 0.0 <= t <= 1.0 && p == At(s, t)
  {
    if OnSegment(s, p) {
      var t :| AtFraction(s, t, p);
      assert p == At(s, t);
    }
    if t :| 0.0 <= t <= 1.0 && p == At(s, t) {
      assert AtFraction(s, t, p);
    }
  }

  // ---- one coordinate of a segment ----

  lemma SideOf(dc: real, dt: real, v: real)
    requires v == dt * dc
    ensures v > 0.0 <==> (dt > 0.0 && dc > 0.0) || (dt < 0.0 && dc < 0.0)
    ensures v < 0.0 <==> (dt > 0.0 && dc < 0.0) || (dt < 0.0 && dc > 0.0)
  {
  }

  lemma CoordDifference(c0: real, dc: real, t: real, u: real)
    ensures Coord(c0, dc, t) - Coord(c0, dc, u) == (t - u) * dc
  {
  }

  lemma Between(c0: real, dc: real, ta: real, t: real, tb: real)
    requires ta <= t <= tb
    ensures Coord(c0, dc, ta) <= Coord(c0, dc, t) <= Coord(c0, dc, tb)
        || Coord(c0, dc, ta) >= Coord(c0, dc, t) >= Coord(c0, dc, tb)
  {
    CoordDifference(c0, dc, t, ta);
    CoordDifference(c0, dc, tb, t);
    SideOf(dc, t - ta, Coord(c0, dc, t) - Coord(c0, dc, ta));
    SideOf(dc, tb - t, Coord(c0, dc, tb) - Coord(c0, dc, t));
  }

  /** The parameter at which the stretch from ta to tb meets level l. */
  function CutParameter(ta: real, tb: real, ca: real, cb: real, l: real): real
    requires ca != cb
  {
    ta + (l - ca) / (cb - ca) * (tb - ta)
  }

  lemma CutFraction(ca: real, cb: real, l: real)
    requires ca != cb && (ca <= l <= cb || cb <= l <= ca)
    ensures 0.0 <= (l - ca) / (cb - ca) <= 1.0
  {
    if ca < cb {
      FractionBounds(l - ca, cb - ca);
    } else {
      FractionBounds(ca - l, ca - cb);
      NegQuotient(l - ca, cb - ca);
    }
  }

  lemma NegQuotient(a: real, b: real)
    requires b != 0.0
    ensures a / b == (-a) / (-b)
  {
    MulDiv(a, b);
    MulDiv(-a, -b);
    var q, r := a / b, (-a) / (-b);
    assert q * b == r * b;
    assert (q - r) * b == 0.0;
  }

  lemma CutLevel(c0: real, dc: real, ta: real, tb: real, u: real)
    ensures Coord(c0, dc, ta + u * (tb - ta)) == Coord(c0, dc, ta) + u * (Coord(c0, dc, tb) - Coord(c0, dc, ta))
  {
    var d := tb - ta;
    assert (ta + u * d) * dc == ta * dc + u * (d * dc);
    assert d * dc == tb * dc - ta * dc;
  }

  /** Where the level is met, and on which side of it the rest of the stretch lies. */
  lemma CutMeets(c0: real, dc: real, ta: real, tb: real, l: real)
    requires ta <= tb && Coord(c0, dc, ta) != Coord(c0, dc, tb)
    requires Coord(c0, dc, ta) <= l <= Coord(c0, dc, tb) || Coord(c0, dc, tb) <= l <= Coord(c0, dc, ta)
    ensures var t' := CutParameter(ta, tb, Coord(c0, dc, ta), Coord(c0, dc, tb), l);
            && ta <= t' <= tb && Coord(c0, dc, t') == l
            && (Coord(c0, dc, ta) > l ==> forall t :: ta <= t < t' ==> Coord(c0, dc, t) > l)
            && (Coord(c0, dc, ta) < l ==> forall t :: ta <= t < t' ==> Coord(c0, dc, t) < l)
            && (Coord(c0, dc, tb) > l ==> forall t :: t' < t <= tb ==> Coord(c0, dc, t) > l)
            && (Coord(c0, dc, tb) < l ==> forall t :: t' < t <= tb ==> Coord(c0, dc, t) < l)
  {
    var ca, cb := Coord(c0, dc, ta), Coord(c0, dc, tb);
    var u := (l - ca) / (cb - ca);
    CutFraction(ca, cb, l);
    var t' := CutParameter(ta, tb, ca, cb, l);
    FractionMonotone(u, tb - ta);
    MulDiv(l - ca, cb - ca);
    CutLevel(c0, dc, ta, tb, u);
    forall t: real
      ensures Coord(c0, dc, t) > l <==> (t > t' && dc > 0.0) || (t < t' && dc < 0.0)
      ensures Coord(c0, dc, t) < l <==> (t > t' && dc < 0.0) || (t < t' && dc > 0.0)
    {
      CoordDifference(c0, dc, t, t');
      SideOf(dc, t - t', Coord(c0, dc, t) - l);
    }
  }

  /** The code's expression for the other coordinate of a cut point. */
  function Interpolate(oa: real, ob: real, ca: real, cb: real, l: real): real
    requires ca != cb
  {
    oa + (ob - oa) * (l - ca) / (cb - ca)
  }

  /** It is the coordinate at the parameter of the cut. */
  lemma CutOther(o0: real, dO: real, ta: real, tb: real, ca: real, cb: real, l: real)
    requires ca != cb
    ensures Interpolate(Coord(o0, dO, ta), Coord(o0, dO, tb), ca, cb, l)
            == Coord(o0, dO, CutParameter(ta, tb, ca, cb, l))
  {
    var u, d := (l - ca) / (cb - ca), Coord(o0, dO, tb) - Coord(o0, dO, ta);
    CutLevel(o0, dO, ta, tb, u);
    QuotientCommutes(d, l - ca, cb - ca);
  }

  lemma QuotientCommutes(d: real, n: real, m: real)
    requires m != 0.0
    ensures d * n / m == (n / m) * d
  {
    var x, u := d * n / m, n / m;
    MulDiv(d * n, m);
    MulDiv(n, m);
    assert (u * d) * m == (u * m) * d;
    assert (x - u * d) * m == 0.0;
  }

  // ---- the clipping loop ----

  /** What remains of s is the stretch from ta to tb, and no point of r was cut off. */
  ghost predicate Stretch(s: Seg, r: Rect, ta: real, tb: real, a: Point, b: Point) {
    && 0.0 <= ta <= tb <= 1.0 && a == At(s, ta) && b == At(s, tb)
    && forall t :: 0.0 <= t <= 1.0 && r.Contains(At(s, t)) ==> ta <= t <= tb
  }

  /** Bound on the cuts still to come: none once the next test rejects. */
  function CutsToCome(oa: Outcode, ob: Outcode): nat {
    if oa.Shares(ob) then 0 else oa.Bits() + ob.Bits()
  }

  /** The cut of one pass of the loop, on the side the outcode bits select in the order UP, DOWN, RIGHT, LEFT. */
  function CutPoint(a: Point, b: Point, o: Outcode, r: Rect): Point
    requires o.up || o.down ==> a.y != b.y
    requires !o.up && !o.down ==> a.x != b.x
  {
    if o.up then Point(Interpolate(a.x, b.x, a.y, b.y, r.y2), r.y2)
    else if o.down then Point(Interpolate(a.x, b.x, a.y, b.y, r.y1), r.y1)
    else if o.right then Point(r.x2, Interpolate(a.y, b.y, a.x, b.x, r.x2))
    else Point(r.x1, Interpolate(a.y, b.y, a.x, b.x, r.x1))
  }

  /** The level and the divisor belonging to the selected side; with the endpoints on different sides of it
      the divisor is not zero, and the cut lies on the segment. */
  lemma CutOnSegment(s: Seg, r: Rect, ta: real, tb: real, a: Point, b: Point, o: Outcode)
    requires a == At(s, ta) && b == At(s, tb) && ta <= tb
    requires r.x1 <= r.x2 && r.y1 <= r.y2
    requires o == (if OutcodeOf(a, r).Zero() then OutcodeOf(b, r) else OutcodeOf(a, r))
    requires !o.Zero() && !OutcodeOf(a, r).Shares(OutcodeOf(b, r))
    ensures o.up || o.down ==> a.y != b.y
    ensures !o.up && !o.down ==> a.x != b.x
    ensures exists t' ::
        ta <= t' <= tb && CutPoint(a, b, o, r) == At(s, t') && CutsOff(s, r, ta, t', tb, !OutcodeOf(a, r).Zero())
  {
    var dx, dy := s.x2 - s.x1, s.y2 - s.y1;
    var t';
    if o.up || o.down {
      var l := if o.up then r.y2 else r.y1;
      t' := CutParameter(ta, tb, a.y, b.y, l);
      CutMeets(s.y1, dy, ta, tb, l);
      CutOther(s.x1, dx, ta, tb, a.y, b.y, l);
    } else {
      var l := if o.right then r.x2 else r.x1;
      t' := CutParameter(ta, tb, a.x, b.x, l);
      CutMeets(s.x1, dx, ta, tb, l);
      CutOther(s.y1, dy, ta, tb, a.x, b.x, l);
    }
    assert CutPoint(a, b, o, r) == At(s, t');
  }

  /** No point of r lies on the part of the stretch that a cut at t' removes. */
  ghost predicate CutsOff(s: Seg, r: Rect, ta: real, t': real, tb: real, first: bool) {
    forall t :: (if first then ta <= t < t' else t' < t <= tb) ==> !r.Contains(At(s, t))
  }

  lemma CutStep(s: Seg, r: Rect, ta: real, tb: real, a: Point, b: Point) returns (t': real)
    requires Stretch(s, r, ta, tb, a, b) && r.x1 <= r.x2 && r.y1 <= r.y2
    requires !OutcodeOf(a, r).Shares(OutcodeOf(b, r))
    requires !(OutcodeOf(a, r).Zero() && OutcodeOf(b, r).Zero())
    ensures var oa, ob := OutcodeOf(a, r), OutcodeOf(b, r);
            var o := if oa.Zero() then ob else oa;
            && (o.up || o.down ==> a.y != b.y) && (!o.up && !o.down ==> a.x != b.x)
            && var p := CutPoint(a, b, o, r);
            && (if oa.Zero() then Stretch(s, r, ta, t', a, p) else Stretch(s, r, t', tb, p, b))
            && (if oa.Zero() then CutsToCome(oa, OutcodeOf(p, r))
                else CutsToCome(OutcodeOf(p, r), ob)) < CutsToCome(oa, ob)
  {
    var oa, ob := OutcodeOf(a, r), OutcodeOf(b, r);
    var o := if oa.Zero() then ob else oa;
    CutOnSegment(s, r, ta, tb, a, b, o);
    t' :| ta <= t' <= tb && CutPoint(a, b, o, r) == At(s, t') && CutsOff(s, r, ta, t', tb, !oa.Zero());
    Between(s.x1, s.x2 - s.x1, ta, t', tb);
    Between(s.y1, s.y2 - s.y1, ta, t', tb);
  }

  /** lineclip.  `clip` is the same loop on the rectangle of the drawing area.  The two parameters returned
      locate the clipped endpoints on the given segment. */
  method Lineclip(s: Seg, r: Rect) returns (visible: bool, a: Point, b: Point, ghost ta: real, ghost tb: real,
      ghost cuts: nat)
    requires r.x1 <= r.x2 && r.y1 <= r.y2
    ensures visible ==> 0.0 <= ta <= tb <= 1.0 && a == At(s, ta) && b == At(s, tb)
    ensures visible ==> forall t :: 0.0 <= t <= 1.0 ==> (r.Contains(At(s, t)) <==> ta <= t <= tb)
    ensures visible ==> forall p :: OnSegment(Seg(a.x, a.y, b.x, b.y), p) <==> OnSegment(s, p) && r.Contains(p)
    ensures visible <==> exists p :: OnSegment(s, p) && r.Contains(p)
    ensures cuts <= 4
  {
    a, b, ta, tb, cuts := s.Start(), s.End(), 0.0, 1.0, 0;
    var outa, outb := OutcodeOf(a, r), OutcodeOf(b, r);
    assert Stretch(s, r, ta, tb, a, b);
    while true
      invariant outa == OutcodeOf(a, r) && outb == OutcodeOf(b, r)
      invariant Stretch(s, r, ta, tb, a, b)
      invariant cuts + CutsToCome(outa, outb) <= 4
      decreases CutsToCome(outa, outb)
    {
      if outa.Zero() && outb.Zero() {
        Convex(s, r, ta, tb);
        StretchIsIntersection(s, r, ta, tb);
        return true, a, b, ta, tb, cuts;
      } else if outa.Shares(outb) {
        Outside(s, r, ta, tb);
        NothingVisible(s, r);
        return false, a, b, ta, tb, cuts;
      }
      ghost var t' := CutStep(s, r, ta, tb, a, b);
      var outpoint := if !outa.Zero() then outa else outb;
      var p := CutPoint(a, b, outpoint, r);
      if outpoint == outa {
        a, ta := p, t';
        outa := OutcodeOf(a, r);
      } else {
        b, tb := p, t';
        outb := OutcodeOf(b, r);
      }
      cuts := cuts + 1;
    }
  }

  lemma Convex(s: Seg, r: Rect, ta: real, tb: real)
    requires ta <= tb && r.Contains(At(s, ta)) && r.Contains(At(s, tb))
    ensures forall t :: ta <= t <= tb ==> r.Contains(At(s, t))
  {
    forall t | ta <= t <= tb ensures r.Contains(At(s, t)) {
      Between(s.x1, s.x2 - s.x1, ta, t, tb);
      Between(s.y1, s.y2 - s.y1, ta, t, tb);
    }
  }

  lemma Outside(s: Seg, r: Rect, ta: real, tb: real)
    requires ta <= tb && OutcodeOf(At(s, ta), r).Shares(OutcodeOf(At(s, tb), r))
    ensures forall t :: ta <= t <= tb ==> !r.Contains(At(s, t))
  {
    forall t | ta <= t <= tb ensures !r.Contains(At(s, t)) {
      Between(s.x1, s.x2 - s.x1, ta, t, tb);
      Between(s.y1, s.y2 - s.y1, ta, t, tb);
    }
  }

  /** Parameter u of the stretch from ta to tb, as a parameter of the whole segment. */
  function Blend(ta: real, tb: real, u: real): real {
    ta + u * (tb - ta)
  }

  lemma StretchParameter(ta: real, tb: real, u: real)
    requires ta <= tb && 0.0 <= u <= 1.0
    ensures ta <= Blend(ta, tb, u) <= tb
  {
    var d := tb - ta;
    var w := (1.0 - u) * d;
    assert w >= 0.0 && u * d >= 0.0;
    assert w == d - u * d;
  }

  lemma FractionOf(ta: real, t: real, tb: real) returns (u: real)
    requires ta <= t <= tb
    ensures 0.0 <= u <= 1.0 && Blend(ta, tb, u) == t
  {
    if ta == tb {
      u := 0.0;
    } else {
      u := (t - ta) / (tb - ta);
      FractionBounds(t - ta, tb - ta);
      MulDiv(t - ta, tb - ta);
    }
  }

  lemma StretchPoints(s: Seg, ta: real, tb: real, p: Point)
    requires ta <= tb
    ensures var a, b := At(s, ta), At(s, tb);
            OnSegment(Seg(a.x, a.y, b.x, b.y), p) <==> exists t :: ta <= t <= tb && p == At(s, t)
  {
    hide At, OnSegment, Blend;
    var a, b := At(s, ta), At(s, tb);
    var c := Seg(a.x, a.y, b.x, b.y);
    OnSegmentAt(c, p);
    if u :| 0.0 <= u <= 1.0 && p == At(c, u) {
      StretchAt(s, ta, tb, u);
      StretchParameter(ta, tb, u);
      var t := Blend(ta, tb, u);
      assert ta <= t <= tb && p == At(s, t);
    }
    if t :| ta <= t <= tb && p == At(s, t) {
      var u := FractionOf(ta, t, tb);
      StretchAt(s, ta, tb, u);
      assert p == At(c, u);
    }
  }

  lemma StretchAt(s: Seg, ta: real, tb: real, u: real)
    ensures var a, b := At(s, ta), At(s, tb);
            At(Seg(a.x, a.y, b.x, b.y), u) == At(s, Blend(ta, tb, u))
  {
    CutLevel(s.x1, s.x2 - s.x1, ta, tb, u);
    CutLevel(s.y1, s.y2 - s.y1, ta, tb, u);
  }

  lemma StretchIsIntersection(s: Seg, r: Rect, ta: real, tb: real)
    requires 0.0 <= ta <= tb <= 1.0
    requires forall t :: 0.0 <= t <= 1.0 ==> (r.Contains(At(s, t)) <==> ta <= t <= tb)
    ensures var a, b := At(s, ta), At(s, tb);
            forall p :: OnSegment(Seg(a.x, a.y, b.x, b.y), p) <==> OnSegment(s, p) && r.Contains(p)
    ensures exists p :: OnSegment(s, p) && r.Contains(p)
  {
    var a, b := At(s, ta), At(s, tb);
    forall p ensures OnSegment(Seg(a.x, a.y, b.x, b.y), p) <==> OnSegment(s, p) && r.Contains(p) {
      StretchPoints(s, ta, tb, p);
      OnSegmentAt(s, p);
    }
    OnSegmentAt(s, a);
    assert OnSegment(s, a) && r.Contains(a);
  }

  lemma NothingVisible(s: Seg, r: Rect)
    requires forall t :: 0.0 <= t <= 1.0 ==> !r.Contains(At(s, t))
    ensures !exists p :: OnSegment(s, p) && r.Contains(p)
  {
    forall p | OnSegment(s, p) ensures !r.Contains(p) {
      OnSegmentAt(s, p);
    }
  }

  // ---- distance ----

  function Sq(x: real): real { x * x }

  function SqDistance(p: Point, q: Point): real {
    Sq(p.x - q.x) + Sq(p.y - q.y)
  }

  function Minor(a: real, b: real): real { if a < b then a else b }

  lemma SumOfSquares(a: real, b: real)
    ensures Sq(a) + Sq(b) >= 0.0
    ensures a != 0.0 || b != 0.0 ==> Sq(a) + Sq(b) > 0.0
  {
    SquarePositive(a);
    SquarePositive(b);
  }

  lemma SquarePositive(a: real)
    ensures Sq(a) >= 0.0
    ensures a != 0.0 ==> Sq(a) > 0.0
  {
    SideOf(a, a, Sq(a));
  }

  /** The coefficients of the line through s, as dist computes them. */
  function LineA(s: Seg): real { s.y1 - s.y2 }
  function LineB(s: Seg): real { s.x2 - s.x1 }
  function LineC(s: Seg): real { -LineA(s) * s.x1 - LineB(s) * s.y1 }

  lemma LineNormal(s: Seg)
    requires !s.Degenerate()
    ensures Sq(LineA(s)) + Sq(LineB(s)) > 0.0
  {
    SumOfSquares(LineA(s), LineB(s));
  }

  /** The foot of the perpendicular from p to the line of s, as dist computes it. */
  function Foot(s: Seg, p: Point): Point
    requires !s.Degenerate()
  {
    LineNormal(s);
    var n := Sq(LineA(s)) + Sq(LineB(s));
    Point(NumX(LineA(s), LineB(s), LineC(s), p.x, p.y) / n, NumY(LineA(s), LineB(s), LineC(s), p.x, p.y) / n)
  }

  function NumX(a: real, b: real, c: real, xa: real, ya: real): real { b * b * xa - a * b * ya - c * a }
  function NumY(a: real, b: real, c: real, xa: real, ya: real): real { a * a * ya - a * b * xa - c * b }
  function NumLine(a: real, b: real, c: real, xa: real, ya: real): real { a * xa + b * ya + c }

  /** Its squared distance to p. */
  function LineDistance(s: Seg, p: Point): real
    requires !s.Degenerate()
  {
    LineNormal(s);
    Sq(NumLine(LineA(s), LineB(s), LineC(s), p.x, p.y)) / (Sq(LineA(s)) + Sq(LineB(s)))
  }

  /** dist: the squared distance, by the foot of the perpendicular where it falls within the segment. */
  function Dist(s: Seg, p: Point): real {
    if s.Degenerate() then SqDistance(s.Start(), p)
    else
      var f := Foot(s, p);
      if (if s.x1 < s.x2 then f.x > s.x1 && f.x < s.x2 else f.y > s.y1 && f.y < s.y2) then LineDistance(s, p)
      else Minor(SqDistance(p, s.Start()), SqDistance(p, s.End()))
  }

  function Dot(s: Seg, p: Point): real { (p.x - s.x1) * (s.x2 - s.x1) + (p.y - s.y1) * (s.y2 - s.y1) }
  function Cross(s: Seg, p: Point): real { (p.x - s.x1) * (s.y2 - s.y1) - (p.y - s.y1) * (s.x2 - s.x1) }
  function SqLength(s: Seg): real { Sq(s.x2 - s.x1) + Sq(s.y2 - s.y1) }

  /** Length times distance splits into an along and an across part. */
  lemma DistanceSplits(px: real, py: real, dx: real, dy: real, t: real)
    ensures (Sq(dx) + Sq(dy)) * (Sq(px - t * dx) + Sq(py - t * dy))
            == Sq(t * (Sq(dx) + Sq(dy)) - (px * dx + py * dy)) + Sq(px * dy - py * dx)
  {
    var u, v := px - t * dx, py - t * dy;
    assert t * (Sq(dx) + Sq(dy)) - (px * dx + py * dy) == -(u * dx + v * dy);
    assert px * dy - py * dx == u * dy - v * dx;
    Lagrange(u, v, dx, dy);
  }

  lemma Lagrange(u: real, v: real, dx: real, dy: real)
    ensures (Sq(dx) + Sq(dy)) * (Sq(u) + Sq(v)) == Sq(u * dx + v * dy) + Sq(u * dy - v * dx)
  {
  }

  /** The same, for the point of s at parameter t. */
  lemma DistanceAt(s: Seg, p: Point, t: real)
    ensures SqLength(s) * SqDistance(p, At(s, t)) == Sq(Along(s, p, t)) + Sq(Cross(s, p))
  {
    hide Sq;
    var px, py, dx, dy := p.x - s.x1, p.y - s.y1, s.x2 - s.x1, s.y2 - s.y1;
    DistanceSplits(px, py, dx, dy, t);
    assert p.x - At(s, t).x == px - t * dx && p.y - At(s, t).y == py - t * dy;
    assert SqDistance(p, At(s, t)) == Sq(px - t * dx) + Sq(py - t * dy);
    assert Along(s, p, t) == t * (Sq(dx) + Sq(dy)) - (px * dx + py * dy);
    assert Cross(s, p) == px * dy - py * dx;
    assert SqLength(s) == Sq(dx) + Sq(dy);
  }

  /** How far, scaled by the length, the point of s at parameter t is past the foot of the perpendicular. */
  function Along(s: Seg, p: Point, t: real): real { t * SqLength(s) - Dot(s, p) }

  lemma ScaledOrder(n: real, x: real, y: real)
    requires n > 0.0
    ensures n * x <= n * y <==> x <= y
    ensures n * x == n * y <==> x == y
  {
    if x < y { assert n * (y - x) > 0.0; }
    if y < x { assert n * (x - y) > 0.0; }
  }

  lemma SquareOrder(x: real, y: real)
    requires 0.0 <= x <= y || y <= x <= 0.0
    ensures Sq(x) <= Sq(y)
  {
    if 0.0 <= x { assert (y - x) * (y + x) >= 0.0; } else { assert (x - y) * (-(y + x)) >= 0.0; }
  }

  lemma CloserWhereSmaller(s: Seg, p: Point, t: real, u: real)
    requires SqLength(s) > 0.0
    requires 0.0 <= Along(s, p, t) <= Along(s, p, u) || Along(s, p, u) <= Along(s, p, t) <= 0.0
    ensures SqDistance(p, At(s, t)) <= SqDistance(p, At(s, u))
  {
    DistanceAt(s, p, t);
    DistanceAt(s, p, u);
    SquareOrder(Along(s, p, t), Along(s, p, u));
    ScaledOrder(SqLength(s), SqDistance(p, At(s, t)), SqDistance(p, At(s, u)));
  }

  lemma AtEnds(s: Seg)
    ensures At(s, 0.0) == s.Start() && At(s, 1.0) == s.End()
  {
  }

  lemma LengthPositive(s: Seg)
    requires !s.Degenerate()
    ensures SqLength(s) > 0.0
  {
    SumOfSquares(s.x2 - s.x1, s.y2 - s.y1);
  }

  /** With the foot outside the segment the nearer endpoint is nearest. */
  lemma NearestEnd(s: Seg, p: Point, t: real)
    requires !s.Degenerate() && 0.0 <= t <= 1.0
    ensures Dot(s, p) <= 0.0 ==> SqDistance(p, s.Start()) <= SqDistance(p, At(s, t))
    ensures Dot(s, p) >= SqLength(s) ==> SqDistance(p, s.End()) <= SqDistance(p, At(s, t))
  {
    hide SqLength, Dot, SqDistance, At;
    AtEnds(s);
    LengthPositive(s);
    FractionMonotone(t, SqLength(s));
    if Dot(s, p) <= 0.0 { CloserWhereSmaller(s, p, 0.0, t); }
    if Dot(s, p) >= SqLength(s) { CloserWhereSmaller(s, p, 1.0, t); }
  }

  /** The numerators of the code's foot of the perpendicular, relative to the first endpoint. */
  lemma FootCoordinates(x1: real, y1: real, dx: real, dy: real, xa: real, ya: real, a: real, c: real, n: real,
      dot: real)
    requires a == -dy && c == dy * x1 - dx * y1
    requires n == dx * dx + dy * dy && dot == (xa - x1) * dx + (ya - y1) * dy
    ensures NumX(a, dx, c, xa, ya) == n * x1 + dx * dot
    ensures NumY(a, dx, c, xa, ya) == n * y1 + dy * dot
    ensures NumLine(a, dx, c, xa, ya) == -((xa - x1) * dy - (ya - y1) * dx)
  {
  }

  lemma QuotientBetween(q: real, n: real, z: real, d: real, dot: real)
    requires n > 0.0 && d > 0.0 && q * n == n * z + d * dot
    ensures q > z <==> dot > 0.0
    ensures q < z + d <==> dot < n
  {
    ScaledSign(q - z, n, dot, d);
    ScaledSign(q - z - d, n, dot - n, d);
  }

  lemma ScaledSign(x: real, n: real, y: real, d: real)
    requires n > 0.0 && d > 0.0 && x * n == y * d
    ensures x > 0.0 <==> y > 0.0
    ensures x < 0.0 <==> y < 0.0
  {
    SignRules(x, n);
    SignRules(y, d);
  }

  predicate FootInside(s: Seg, p: Point) {
    0.0 < Dot(s, p) < SqLength(s)
  }

  /** What dist divides, and by what, in terms of the segment. */
  lemma NumReading(s: Seg, p: Point)
    ensures NumX(LineA(s), LineB(s), LineC(s), p.x, p.y) == SqLength(s) * s.x1 + (s.x2 - s.x1) * Dot(s, p)
    ensures NumY(LineA(s), LineB(s), LineC(s), p.x, p.y) == SqLength(s) * s.y1 + (s.y2 - s.y1) * Dot(s, p)
    ensures NumLine(LineA(s), LineB(s), LineC(s), p.x, p.y) == -Cross(s, p)
    ensures Sq(LineA(s)) + Sq(LineB(s)) == SqLength(s)
  {
    hide NumX, NumY, NumLine, LineC, SqLength, Dot, Sq;
    LineReading(s);
    LengthReading(s, p);
    FootCoordinates(s.x1, s.y1, LineB(s), s.y2 - s.y1, p.x, p.y, LineA(s), LineC(s), SqLength(s), Dot(s, p));
  }

  lemma LineReading(s: Seg)
    ensures LineC(s) == (s.y2 - s.y1) * s.x1 - LineB(s) * s.y1
    ensures Sq(LineA(s)) + Sq(LineB(s)) == SqLength(s)
  {
    NegSquare(LineA(s), s.y2 - s.y1);
  }

  lemma LengthReading(s: Seg, p: Point)
    ensures SqLength(s) == LineB(s) * LineB(s) + (s.y2 - s.y1) * (s.y2 - s.y1)
    ensures Dot(s, p) == (p.x - s.x1) * LineB(s) + (p.y - s.y1) * (s.y2 - s.y1)
  {
  }

  lemma LineDistanceReading(s: Seg, p: Point)
    requires !s.Degenerate()
    ensures SqLength(s) > 0.0
    ensures LineDistance(s, p) == Sq(Cross(s, p)) / SqLength(s)
  {
    hide Sq, SqLength, Cross, LineA, LineB, LineC, NumLine;
    LengthPositive(s);
    NumReading(s, p);
    NegSquare(NumLine(LineA(s), LineB(s), LineC(s), p.x, p.y), Cross(s, p));
  }

  lemma FootValue(s: Seg, p: Point)
    requires !s.Degenerate()
    ensures Foot(s, p).x * SqLength(s) == SqLength(s) * s.x1 + (s.x2 - s.x1) * Dot(s, p)
    ensures Foot(s, p).y * SqLength(s) == SqLength(s) * s.y1 + (s.y2 - s.y1) * Dot(s, p)
  {
    hide Sq, Dot, Cross, SqLength, LineA, LineB, LineC, NumX, NumY;
    LengthPositive(s);
    NumReading(s, p);
    MulDiv(NumX(LineA(s), LineB(s), LineC(s), p.x, p.y), SqLength(s));
    MulDiv(NumY(LineA(s), LineB(s), LineC(s), p.x, p.y), SqLength(s));
  }

  lemma FootReading(s: Seg, p: Point)
    requires s.Ordered() && !s.Degenerate()
    ensures s.x1 < s.x2 ==> (s.x1 < Foot(s, p).x < s.x2 <==> FootInside(s, p))
    ensures s.x1 == s.x2 ==> (s.y1 < Foot(s, p).y < s.y2 <==> FootInside(s, p))
  {
    hide Foot, Dot, SqLength;
    FootValue(s, p);
    LengthPositive(s);
    if s.x1 < s.x2 {
      QuotientBetween(Foot(s, p).x, SqLength(s), s.x1, s.x2 - s.x1, Dot(s, p));
    } else {
      QuotientBetween(Foot(s, p).y, SqLength(s), s.y1, s.y2 - s.y1, Dot(s, p));
    }
  }

  lemma NegSquare(x: real, y: real)
    requires y == -x
    ensures Sq(x) == Sq(y)
  {
  }

  /** For every ordered segment and point, `dist` is the least squared distance to a point of the segment. */
  lemma DistIsMinimum(s: Seg, p: Point)
    requires s.Ordered()
    ensures forall q :: OnSegment(s, q) ==> Dist(s, p) <= SqDistance(p, q)
    ensures exists q :: OnSegment(s, q) && Dist(s, p) == SqDistance(p, q)
  {
    if s.Degenerate() {
      TouchOnDegenerate(s, s.Start());
      forall q | OnSegment(s, q) ensures Dist(s, p) == SqDistance(p, q) {
        TouchOnDegenerate(s, q);
        NegSquare(s.x1 - p.x, p.x - s.x1);
        NegSquare(s.y1 - p.y, p.y - s.y1);
      }
      assert OnSegment(s, s.Start());
    } else {
      var t := DistAttained(s, p);
      OnSegmentAt(s, At(s, t));
      forall q | OnSegment(s, q) ensures Dist(s, p) <= SqDistance(p, q) {
        OnSegmentAt(s, q);
        var u :| 0.0 <= u <= 1.0 && q == At(s, u);
        DistBelow(s, p, u);
      }
    }
  }

  lemma DistAttained(s: Seg, p: Point) returns (t: real)
    requires s.Ordered() && !s.Degenerate()
    ensures 0.0 <= t <= 1.0 && Dist(s, p) == SqDistance(p, At(s, t))
  {
    FootReading(s, p);
    LineDistanceReading(s, p);
    if FootInside(s, p) {
      t := Dot(s, p) / SqLength(s);
      FractionBounds(Dot(s, p), SqLength(s));
      MulDiv(Dot(s, p), SqLength(s));
      FootDistance(s, p, t);
    } else {
      t := if SqDistance(p, s.Start()) < SqDistance(p, s.End()) then 0.0 else 1.0;
      assert At(s, 0.0) == s.Start() && At(s, 1.0) == s.End();
    }
  }

  /** Above the foot only the part across is left. */
  lemma FootDistance(s: Seg, p: Point, t: real)
    requires !s.Degenerate() && SqLength(s) > 0.0
    ensures LineDistance(s, p) <= SqDistance(p, At(s, t))
    ensures Along(s, p, t) == 0.0 ==> LineDistance(s, p) == SqDistance(p, At(s, t))
  {
    LineDistanceReading(s, p);
    MulDiv(Sq(Cross(s, p)), SqLength(s));
    DistanceAt(s, p, t);
    SquarePositive(Along(s, p, t));
    ScaledOrder(SqLength(s), LineDistance(s, p), SqDistance(p, At(s, t)));
  }

  lemma DistBelow(s: Seg, p: Point, t: real)
    requires s.Ordered() && !s.Degenerate() && 0.0 <= t <= 1.0
    ensures Dist(s, p) <= SqDistance(p, At(s, t))
  {
    FootReading(s, p);
    LineDistanceReading(s, p);
    if FootInside(s, p) {
      FootDistance(s, p, t);
    } else {
      NearestEnd(s, p, t);
    }
  }

  /** Distance zero and `touch` agree on every ordered segment of non-zero length. */
  lemma DistZeroIffTouch(s: Seg, p: Point)
    requires s.Ordered()
    ensures Dist(s, p) == 0.0 <==> OnSegment(s, p)
    ensures !s.Degenerate() ==> (Dist(s, p) == 0.0 <==> Touch(s, p))
  {
    DistIsMinimum(s, p);
    var q :| OnSegment(s, q) && Dist(s, p) == SqDistance(p, q);
    SumOfSquares(p.x - q.x, p.y - q.y);
    assert SqDistance(p, p) == 0.0;
    if !s.Degenerate() {
      TouchIsOnSegment(s, p);
    }
  }
}
