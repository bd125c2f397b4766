/** The modular square grid of netlist.c that finds the wires near a point. */
module SpatialHash {
  import opened Geometry

  const BOXSIZE: real := 400.0
  const NBOXES: int := 50

  type Cell = (int, int)

  type Table = map<Cell, seq<nat>>

  function Bucket(t: Table, c: Cell): seq<nat> {
    if c in t then t[c] else []
  }

  function Index(v: real): int { (v / BOXSIZE).Floor }

  /** get_square */
  function Square(p: Point): Cell {
    (Index(p.x) % NBOXES, Index(p.y) % NBOXES)
  }

  function Min(a: real, b: real): real { if b < a then b else a }
  function Max(a: real, b: real): real { if b < a then a else b }

  /** Some index from lo up to but not including k falls on residue c. */
  ghost predicate Residue(lo: int, k: int, c: int) {
    exists i :: lo <= i < k && c == i % NBOXES
  }

  function ScanEnd(lo: int, hi: int): int {
    if hi - lo < NBOXES then hi + 1 else lo + NBOXES
  }

  /** Residue c is met by a scan from lo to hi that gives up after NBOXES steps. */
  ghost predicate Met(lo: int, hi: int, c: int) { Residue(lo, ScanEnd(lo, hi), c) }

  lemma ResidueNext(lo: int, k: int)
    requires lo <= k < lo + NBOXES
    ensures !Residue(lo, k, k % NBOXES)
    ensures forall c :: Residue(lo, k + 1, c) <==> Residue(lo, k, c) || c == k % NBOXES
  {
  }

  ghost predicate MetX(s: Seg, c: int) { Met(Index(Min(s.x1, s.x2)), Index(Max(s.x1, s.x2)), c) }
  ghost predicate MetY(s: Seg, c: int) { Met(Index(Min(s.y1, s.y2)), Index(Max(s.y1, s.y2)), c) }

  /** The cells `hash_wire` visits for a wire along s. */
  ghost predicate Visits(s: Seg, c: Cell) { MetX(s, c.0) && MetY(s, c.1) }

  lemma IndexMonotone(a: real, b: real)
    requires a <= b
    ensures Index(a) <= Index(b)
  {
  }

  lemma MetByResidue(lo: int, hi: int, c: int)
    requires lo <= c <= hi
    ensures Met(lo, hi, c % NBOXES)
  {
    var i := lo + (c - lo) % NBOXES;
    var q := (c - lo) / NBOXES;
    assert i == c - q * NBOXES;
    SameResidue(c, q);
    assert lo <= i < ScanEnd(lo, hi) && c % NBOXES == i % NBOXES;
  }

  lemma SameResidue(c: int, q: int)
    ensures (c - q * NBOXES) % NBOXES == c % NBOXES
  {
    var r, d := c % NBOXES, c / NBOXES;
    assert c - q * NBOXES == (d - q) * NBOXES + r;
  }

  /** Every cell holding a point of the wire's box is visited, although the scan stops after
      NBOXES steps and the grid wraps around. */
  lemma PointIsVisited(s: Seg, p: Point)
    requires On(s, p)
    ensures Visits(s, Square(p))
  {
    IndexMonotone(s.x1, p.x);
    IndexMonotone(p.x, s.x2);
    IndexMonotone(s.y1, p.y);
    IndexMonotone(p.y, s.y2);
    MetByResidue(Index(s.x1), Index(s.x2), Index(p.x));
    MetByResidue(Index(s.y1), Index(s.y2), Index(p.y));
  }

  /** Points share a cell if and only if their squares of 400 by 400 units are a multiple of 50 apart both ways. */
  lemma SquareSharedExactlyWhen(p: Point, q: Point)
    ensures Square(p) == Square(q) <==>
            && ((p.x / 400.0).Floor - (q.x / 400.0).Floor) % 50 == 0
            && ((p.y / 400.0).Floor - (q.y / 400.0).Floor) % 50 == 0
  {
    ResiduesEqual(Index(p.x), Index(q.x));
    ResiduesEqual(Index(p.y), Index(q.y));
  }

  lemma ResiduesEqual(a: int, b: int)
    ensures a % NBOXES == b % NBOXES <==> (a - b) % NBOXES == 0
  {
  }

  /** The box of a segment, whichever way it runs. */
  predicate InBox(s: Seg, p: Point) {
    && (s.x1 <= p.x <= s.x2 || s.x2 <= p.x <= s.x1)
    && (s.y1 <= p.y <= s.y2 || s.y2 <= p.y <= s.y1)
  }

  /** The cells visited are those of the points of the box, and no others. */
  lemma VisitsExactlyWhen(s: Seg, c: Cell)
    ensures Visits(s, c) <==> exists p :: InBox(s, p) && Square(p) == c
  {
    var box := Seg(Min(s.x1, s.x2), Min(s.y1, s.y2), Max(s.x1, s.x2), Max(s.y1, s.y2));
    if p :| InBox(s, p) && Square(p) == c {
      PointIsVisited(box, p);
    }
    if Visits(s, c) {
      var x := MetCoordinate(box.x1, box.x2, c.0);
      var y := MetCoordinate(box.y1, box.y2, c.1);
      assert InBox(s, Point(x, y)) && Square(Point(x, y)) == c;
    }
  }

  lemma MetCoordinate(lo: real, hi: real, c: int) returns (v: real)
    requires lo <= hi && Met(Index(lo), Index(hi), c)
    ensures lo <= v <= hi && Index(v) % NBOXES == c
  {
    var i :| Index(lo) <= i < ScanEnd(Index(lo), Index(hi)) && c == i % NBOXES;
    v := if i == Index(lo) then lo else i as real * BOXSIZE;
    assert i <= Index(hi);
    assert i as real * BOXSIZE / BOXSIZE == i as real;
  }

  /** wiredelete: unlink the first entry n. */
  function Unlink(b: seq<nat>, n: nat): (r: seq<nat>)
    ensures forall m :: m in r ==> m in b
    ensures forall m :: m in b && m != n ==> m in r
  {
    if b == [] then []
    else if b[0] == n then b[1..]
    else
      assert b == [b[0]] + b[1..];
      [b[0]] + Unlink(b[1..], n)
  }

  /** It takes away one entry and no more. */
  lemma {:induction false} UnlinkOne(b: seq<nat>, n: nat)
    ensures multiset(Unlink(b, n)) == multiset(b) - multiset{n}
  {
    if b == [] {
    } else {
      assert b == [b[0]] + b[1..];
      UnlinkOne(b[1..], n);
    }
  }
}
