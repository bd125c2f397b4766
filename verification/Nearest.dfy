/** findnet.c: the staged search for the object nearest to the mouse.  The stages share one running
    distance; the winner of a stage is dropped if it is too far or locked. */
module Nearest {
  import opened Geometry
  import opened Clipping
  import opened Options

  datatype Kind = Line | Polygon | Box | Arc | Text | Wire | Element

  datatype Object = Object(kind: Kind, n: nat, col: nat)

  /** One comparison a stage makes: an object, or one edge of a polygon.  `admitted` says that its layer is
      enabled and that the tests before the distance comparison (mouse in the box, angle on the arc) hold;
      `locked` that its lock counts. */
  datatype Candidate = Candidate(obj: Object, dist: real, admitted: bool, locked: bool)

  /** The candidates of one kind in scanning order, and the limit on the winner's distance, if any. */
  datatype Stage = Stage(cands: seq<Candidate>, limit: Option<real>)

  type Position = (nat, nat)

  // ---- the candidates of the code ----

  function Order(s: Seg): Seg {
    if s.x2 < s.x1 || (s.x2 == s.x1 && s.y2 < s.y1) then Seg(s.x2, s.y2, s.x1, s.y1) else s
  }

  const CADWIREMINDIST: real := 12.0

  /** How near, in drawing units, an object without an area must be. */
  function Threshold(zoom: real, scaling: real): real {
    CADWIREMINDIST * zoom * scaling
  }

  function Abs(x: real): real { if x < 0.0 then -x else x }

  /** dist_from_rect */
  function DistFromRect(m: Point, r: Rect): real {
    Sq(Minor(Minor(Minor(Abs(m.x - r.x1), Abs(r.x2 - m.x)), Abs(m.y - r.y1)), Abs(r.y2 - m.y)))
  }

  /** An object of the drawing: its number on its layer, whether that layer is enabled, its lock, its shape. */
  datatype Item<T> = Item(n: nat, col: nat, enabled: bool, locked: bool, shape: T)

  /** What the trigonometry of find_closest_arc yields: the squared distance and whether the angle is on the arc. */
  datatype Curve = Curve(dist: real, onAngle: bool)

  /** The box an instance is looked up by, and the box of its body. */
  datatype Symbol = Symbol(bbox: Rect, body: Rect)

  datatype Scene = Scene(lines: seq<Item<Seg>>, polygons: seq<Item<seq<Point>>>, boxes: seq<Item<Rect>>,
      arcs: seq<Item<Curve>>,
                         texts: seq<Item<Rect>>, wires: seq<Item<Seg>>, elements: seq<Item<Symbol>>)

  function LineCandidate(i: Item<Seg>, m: Point, override: bool): Candidate {
    Candidate(Object(Line, i.n, i.col), Dist(i.shape, m), i.enabled, i.locked && !override)
  }

  function EdgeCandidate(i: Item<seq<Point>>, j: nat, m: Point, override: bool): Candidate
    requires j + 1 < |i.shape|
  {
    var p, q := i.shape[j], i.shape[j + 1];
    Candidate(Object(Polygon, i.n, i.col), Dist(Order(Seg(p.x, p.y, q.x, q.y)), m), i.enabled, i.locked && !override)
  }

  function BoxCandidate(i: Item<Rect>, m: Point, t: real, override: bool): Candidate {
    var r := i.shape;
    var near := Rect(r.x1 - t, r.y1 - t, r.x2 + t, r.y2 + t).Contains(m)
        && !Rect(r.x1 + t, r.y1 + t, r.x2 - t, r.y2 - t).Contains(m);
    Candidate(Object(Box, i.n, i.col), DistFromRect(m, r), i.enabled && near, i.locked && !override)
  }

  /** The lock of an arc counts even when locks are overridden. */
  function ArcCandidate(i: Item<Curve>): Candidate {
    Candidate(Object(Arc, i.n, i.col), i.shape.dist, i.enabled && i.shape.onAngle, i.locked)
  }

  function TextCandidate(i: Item<Rect>, m: Point, override: bool): Candidate {
    Candidate(Object(Text, i.n, 0), DistFromRect(m, i.shape), i.shape.Contains(m), i.locked && !override)
  }

  function WireCandidate(i: Item<Seg>, m: Point, override: bool): Candidate {
    Candidate(Object(Wire, i.n, 0), Dist(i.shape, m), true, i.locked && !override)
  }

  function ElementCandidate(i: Item<Symbol>, m: Point, override: bool): Candidate {
    Candidate(Object(Element, i.n, 0), DistFromRect(m, i.shape.body), i.shape.bbox.Contains(m), i.locked && !override)
  }

  function Each<T>(items: seq<Item<T>>, f: Item<T> -> Candidate): seq<Candidate> {
    seq(|items|, k requires 0 <= k < |items| => f(items[k]))
  }

  function Edges(i: Item<seq<Point>>, m: Point, override: bool): seq<Candidate> {
    if |i.shape| < 2 then []
    else seq(|i.shape| - 1, j requires 0 <= j < |i.shape| - 1 => EdgeCandidate(i, j, m, override))
  }

  function AllEdges(items: seq<Item<seq<Point>>>, m: Point, override: bool): seq<Candidate> {
    if items == [] then [] else AllEdges(items[..|items| - 1], m, override) + Edges(items[|items| - 1], m, override)
  }

  function LineStage(s: Scene, m: Point, t: real, override: bool): Stage {
    Stage(Each(s.lines, i => LineCandidate(i, m, override)), Some(t * t))
  }
  function PolygonStage(s: Scene, m: Point, t: real, override: bool): Stage {
    Stage(AllEdges(s.polygons, m, override), Some(t * t))
  }
  function BoxStage(s: Scene, m: Point, t: real, override: bool): Stage {
    Stage(Each(s.boxes, i => BoxCandidate(i, m, t, override)), None)
  }
  function ArcStage(s: Scene, t: real): Stage { Stage(Each(s.arcs, ArcCandidate), Some(t * t)) }
  function TextStage(s: Scene, m: Point, override: bool): Stage {
    Stage(Each(s.texts, i => TextCandidate(i, m, override)), None)
  }
  function WireStage(s: Scene, m: Point, t: real, override: bool): Stage {
    Stage(Each(s.wires, i => WireCandidate(i, m, override)), Some(t * t))
  }
  function ElementStage(s: Scene, m: Point, override: bool): Stage {
    Stage(Each(s.elements, i => ElementCandidate(i, m, override)), None)
  }

  /** The seven stages, in the order of the calls. */
  function Stages(s: Scene, m: Point, t: real, override: bool): seq<Stage> {
    [LineStage(s, m, t, override), PolygonStage(s, m, t, override), BoxStage(s, m, t, override), ArcStage(s, t),
     TextStage(s, m, override), WireStage(s, m, t, override), ElementStage(s, m, override)]
  }

  /** What the number compared for a wire is: its least squared distance to the mouse, for every ordered wire. */
  lemma WireDistance(i: Item<Seg>, m: Point, override: bool)
    requires i.shape.Ordered()
    ensures var d := WireCandidate(i, m, override).dist;
            && (forall q :: OnSegment(i.shape, q) ==> d <= SqDistance(m, q))
            && (exists q :: OnSegment(i.shape, q) && d == SqDistance(m, q))
  {
    DistIsMinimum(i.shape, m);
  }

  /** The same for the edges of a polygon, which are put in order first. */
  lemma EdgeDistance(i: Item<seq<Point>>, j: nat, m: Point, override: bool)
    requires j + 1 < |i.shape|
    ensures var p, q, d := i.shape[j], i.shape[j + 1], EdgeCandidate(i, j, m, override).dist;
            var s := Seg(p.x, p.y, q.x, q.y);
            && (forall r :: OnSegment(s, r) ==> d <= SqDistance(m, r))
            && (exists r :: OnSegment(s, r) && d == SqDistance(m, r))
  {
    hide Dist, OnSegment;
    var p, q := i.shape[j], i.shape[j + 1];
    var s := Seg(p.x, p.y, q.x, q.y);
    DistIsMinimum(Order(s), m);
    forall r ensures OnSegment(s, r) <==> OnSegment(Order(s), r) {
      OrderPoints(s, r);
    }
  }

  lemma OrderPoints(s: Seg, q: Point)
    ensures OnSegment(s, q) <==> OnSegment(Seg(s.x2, s.y2, s.x1, s.y1), q)
  {
    var r := Seg(s.x2, s.y2, s.x1, s.y1);
    if OnSegment(s, q) {
      var t :| AtFraction(s, t, q);
      assert AtFraction(r, 1.0 - t, q);
    }
    if OnSegment(r, q) {
      var t :| AtFraction(r, t, q);
      assert AtFraction(s, 1.0 - t, q);
    }
  }

  // ---- one stage ----

  /** Closer than the running distance; None stands for the initial DBL_MAX. */
  predicate Less(d: real, best: Option<real>) {
    best.None? || d < best.value
  }

  /** The last candidate to lower the running distance, or -1. */
  function Winner(cands: seq<Candidate>, best: Option<real>): (w: int)
    ensures -1 <= w < |cands|
  {
    if cands == [] then -1
    else
      var n := |cands| - 1;
      var w := Winner(cands[..n], best);
      if cands[n].admitted && Less(cands[n].dist, if w < 0 then best else Some(cands[w].dist)) then n else w
  }

  /** It is the first of the nearest admitted candidates closer than the running distance. */
  lemma {:induction false} WinnerIsFirstNearest(cands: seq<Candidate>, best: Option<real>)
    ensures var w := Winner(cands, best);
            && (w < 0 ==> forall i :: 0 <= i < |cands| && cands[i].admitted ==> !Less(cands[i].dist, best))
            && (w >= 0 ==> && cands[w].admitted && Less(cands[w].dist, best)
                           && forall i :: 0 <= i < |cands| && cands[i].admitted ==>
                                cands[w].dist <= cands[i].dist && (i < w ==> cands[w].dist < cands[i].dist))
  {
    if cands == [] {
    } else {
      var n := |cands| - 1;
      WinnerIsFirstNearest(cands[..n], best);
      var v := Winner(cands[..n], best);
      forall i | 0 <= i < n ensures cands[..n][i] == cands[i] { }
    }
  }

  predicate Accepts(s: Stage, i: int)
    requires 0 <= i < |s.cands|
  {
    !s.cands[i].locked && (s.limit.Some? ==> s.cands[i].dist <= s.limit.value)
  }

  function DistanceOf(stages: seq<Stage>, p: Option<Position>): Option<real> {
    if p.Some? && p.value.0 < |stages| && p.value.1 < |stages[p.value.0].cands|
        then Some(stages[p.value.0].cands[p.value.1].dist)
    else None
  }

  /** The position selected after all the stages. */
  function Search(stages: seq<Stage>): Option<Position> {
    if stages == [] then None
    else
      var n := |stages| - 1;
      var prev := Search(stages[..n]);
      var w := Winner(stages[n].cands, DistanceOf(stages[..n], prev));
      if w >= 0 && Accepts(stages[n], w) then Some((n, w)) else prev
  }

  // ---- what it finds ----

  predicate Occurs(stages: seq<Stage>, k: int, i: int) {
    0 <= k < |stages| && 0 <= i < |stages[k].cands|
  }

  /** Admitted, near enough for its kind, and not locked. */
  predicate Open(stages: seq<Stage>, k: int, i: int) {
    Occurs(stages, k, i) && stages[k].cands[i].admitted && Accepts(stages[k], i)
  }

  predicate Earlier(k: int, i: int, l: int, j: int) {
    k < l || (k == l && i < j)
  }

  /** The first, in scanning order, of the nearest open candidates. */
  ghost predicate FirstNearest(stages: seq<Stage>, k: int, i: int) {
    && Open(stages, k, i)
    && forall l, j :: Open(stages, l, j) ==>
                        && stages[k].cands[i].dist <= stages[l].cands[j].dist
                        && (Earlier(l, j, k, i) ==> stages[k].cands[i].dist < stages[l].cands[j].dist)
  }

  /** A locked candidate of the same kind is nearer, or as near and scanned before. */
  ghost predicate Shadowed(stages: seq<Stage>, k: int, i: int)
    requires Occurs(stages, k, i)
  {
    exists j :: && Occurs(stages, k, j) && stages[k].cands[j].admitted && stages[k].cands[j].locked
                && (stages[k].cands[j].dist < stages[k].cands[i].dist
                    || (stages[k].cands[j].dist == stages[k].cands[i].dist && j < i))
  }

  lemma {:induction false} SearchIsOpen(stages: seq<Stage>)
    ensures Search(stages).Some? ==> Open(stages, Search(stages).value.0, Search(stages).value.1)
  {
    if stages == [] {
    } else {
      var n := |stages| - 1;
      SearchIsOpen(stages[..n]);
      WinnerIsFirstNearest(stages[n].cands, DistanceOf(stages[..n], Search(stages[..n])));
      if Search(stages[..n]).Some? {
        var (k, i) := Search(stages[..n]).value;
        assert stages[..n][k] == stages[k];
      }
    }
  }

  /** For every scene with an open candidate: the search returns the first nearest one if and only if no
      locked candidate of its kind shadows it. */
  lemma {:induction false} FindsFirstNearestExactlyWhen(stages: seq<Stage>, k: nat, i: nat)
    requires FirstNearest(stages, k, i)
    ensures Search(stages) == Some((k, i)) <==> !Shadowed(stages, k, i)
  {
    var n := |stages| - 1;
    var prev := Search(stages[..n]);
    SearchIsOpen(stages[..n]);
    if prev.Some? {
      assert stages[..n][prev.value.0] == stages[prev.value.0];
      assert Open(stages, prev.value.0, prev.value.1);
    }
    WinnerIsFirstNearest(stages[n].cands, DistanceOf(stages[..n], prev));
    if k < n {
      FirstNearestOfPrefix(stages, n, k, i);
      FindsFirstNearestExactlyWhen(stages[..n], k, i);
      var w := Winner(stages[n].cands, DistanceOf(stages[..n], prev));
      if w >= 0 && Accepts(stages[n], w) { assert Open(stages, n, w); }
    } else {
      WinnerAtFirstNearest(stages, i);
    }
  }

  lemma FirstNearestOfPrefix(stages: seq<Stage>, n: nat, k: nat, i: nat)
    requires n <= |stages| && k < n && FirstNearest(stages, k, i)
    ensures FirstNearest(stages[..n], k, i)
    ensures Shadowed(stages[..n], k, i) <==> Shadowed(stages, k, i)
  {
    forall l, j | Open(stages[..n], l, j) ensures Open(stages, l, j) && stages[..n][l] == stages[l] { }
    assert stages[..n][k] == stages[k];
    forall j ensures Occurs(stages[..n], k, j) <==> Occurs(stages, k, j) { }
  }

  /** In its own stage the first nearest open candidate can only lose to a locked one. */
  lemma WinnerAtFirstNearest(stages: seq<Stage>, i: nat)
    requires stages != [] && FirstNearest(stages, |stages| - 1, i)
    ensures var n := |stages| - 1;
            var w := Winner(stages[n].cands, DistanceOf(stages[..n], Search(stages[..n])));
            w >= 0 && (Accepts(stages[n], w) ==> w == i) && (w == i <==> !Shadowed(stages, n, i))
  {
    var n := |stages| - 1;
    var prev := Search(stages[..n]);
    var cands := stages[n].cands;
    SearchIsOpen(stages[..n]);
    if prev.Some? {
      assert stages[..n][prev.value.0] == stages[prev.value.0];
      assert Open(stages, prev.value.0, prev.value.1);
    }
    var best := DistanceOf(stages[..n], prev);
    assert Less(cands[i].dist, best);
    WinnerIsFirstNearest(cands, best);
    var w := Winner(cands, best);
    assert w >= 0;
    if Accepts(stages[n], w) { assert Open(stages, n, w); }
    if w != i {
      assert cands[w].locked;
      assert Occurs(stages, n, w);
    }
  }

  ghost predicate Lockless(stages: seq<Stage>) {
    forall k, i :: Occurs(stages, k, i) ==> !stages[k].cands[i].locked
  }

  /** When no lock counts (locks overridden, and no locked arc): an object of least distance among all that
      pass their kind's tests, ties going to the earlier stage and then the earlier object; none exactly when
      none passes. */
  lemma {:induction false} FindsNearest(stages: seq<Stage>)
    requires Lockless(stages)
    ensures match Search(stages)
            case None => forall k, i :: !Open(stages, k, i)
            case Some(p) => FirstNearest(stages, p.0, p.1)
  {
    if stages == [] {
    } else {
      var n := |stages| - 1;
      var first := stages[..n];
      forall k, i | Occurs(first, k, i) ensures !first[k].cands[i].locked { assert Occurs(stages, k, i); }
      FindsNearest(first);
      forall k, i ensures Open(first, k, i) <==> Open(stages, k, i) && k < n { }
      var best := DistanceOf(first, Search(first));
      WinnerIsFirstNearest(stages[n].cands, best);
      var w := Winner(stages[n].cands, best);
      LastStage(stages, w);
    }
  }

  /** Overriding takes away every lock but those of arcs. */
  lemma OverrideUnlocks(s: Scene, m: Point, t: real)
    ensures forall k, i :: Occurs(Stages(s, m, t, true), k, i) ==>
                             (Stages(s, m, t, true)[k].cands[i].locked <==> k == ARCS && s.arcs[i].locked)
  {
    var stages := Stages(s, m, t, true);
    forall k, i | Occurs(stages, k, i) ensures stages[k].cands[i].locked <==> k == ARCS && s.arcs[i].locked {
      match k
      case 0 => assert stages[k].cands[i] == LineCandidate(s.lines[i], m, true);
      case 1 => EdgesUnlocked(s.polygons, m);
      case 2 => assert stages[k].cands[i] == BoxCandidate(s.boxes[i], m, t, true);
      case 3 => assert stages[k].cands[i] == ArcCandidate(s.arcs[i]);
      case 4 => assert stages[k].cands[i] == TextCandidate(s.texts[i], m, true);
      case 5 => assert stages[k].cands[i] == WireCandidate(s.wires[i], m, true);
      case 6 => assert stages[k].cands[i] == ElementCandidate(s.elements[i], m, true);
    }
  }

  lemma {:induction false} EdgesUnlocked(items: seq<Item<seq<Point>>>, m: Point)
    ensures forall i :: 0 <= i < |AllEdges(items, m, true)| ==> !AllEdges(items, m, true)[i].locked
  {
    if items == [] {
    } else {
      EdgesUnlocked(items[..|items| - 1], m);
    }
  }

  /** Position of the arcs among the stages. */
  const ARCS: nat := 3

  function Unlocked(i: Item<Curve>): Item<Curve> { i.(locked := false) }

  /** The scene overriding is meant to search: the same without the locks of its arcs. */
  function UnlockArcs(s: Scene): Scene {
    s.(arcs := seq(|s.arcs|, i requires 0 <= i < |s.arcs| => Unlocked(s.arcs[i])))
  }

  /** The two scenes give the same candidates but for the locks of the arcs. */
  lemma UnlockedCandidates(s: Scene, m: Point, t: real)
    ensures var actual, meant := Stages(s, m, t, true), Stages(UnlockArcs(s), m, t, true);
            && |actual| == |meant| && |actual[ARCS].cands| == |meant[ARCS].cands| == |s.arcs|
            && (forall k :: 0 <= k < |actual| && k != ARCS ==> actual[k] == meant[k])
            && actual[ARCS].limit == meant[ARCS].limit
            && forall i :: 0 <= i < |s.arcs| ==> meant[ARCS].cands[i] == actual[ARCS].cands[i].(locked := false)
  {
    var actual, meant := Stages(s, m, t, true), Stages(UnlockArcs(s), m, t, true);
    forall i | 0 <= i < |s.arcs| ensures meant[ARCS].cands[i] == actual[ARCS].cands[i].(locked := false) {
      assert actual[ARCS].cands[i] == ArcCandidate(s.arcs[i]);
      assert meant[ARCS].cands[i] == ArcCandidate(Unlocked(s.arcs[i]));
    }
  }

  /** find_closest_obj with locks overridden, on every scene: the nearest object is returned if and only if it
      is not a locked arc, and nothing is returned if no object is near enough. */
  lemma OverrideFindsNearestExactlyWhen(s: Scene, m: Point, t: real)
    ensures var actual, meant := Stages(s, m, t, true), Stages(UnlockArcs(s), m, t, true);
            match Search(meant)
            case None => (forall k, i :: !Open(meant, k, i)) && Search(actual) == None
            case Some(p) =>
              && FirstNearest(meant, p.0, p.1)
              && (p.0 == ARCS ==> p.1 < |s.arcs|)
              && (Search(actual) == Some(p) <==> !(p.0 == ARCS && s.arcs[p.1].locked))
  {
    hide Stages, Search, FirstNearest, Shadowed;
    var actual, meant := Stages(s, m, t, true), Stages(UnlockArcs(s), m, t, true);
    OverrideUnlocks(s, m, t);
    OverrideUnlocks(UnlockArcs(s), m, t);
    UnlockedCandidates(s, m, t);
    FindsNearest(meant);
    SearchIsOpen(actual);
    forall k, i ensures Open(actual, k, i) <==> Open(meant, k, i) && !(k == ARCS && s.arcs[i].locked) {
      assert Occurs(actual, k, i) <==> Occurs(meant, k, i);
    }
    if Search(meant).Some? {
      SearchIsOpen(meant);
      var (k, i) := Search(meant).value;
      if !(k == ARCS && s.arcs[i].locked) {
        StaysFirstNearest(actual, meant, k, i);
        FindsFirstNearestExactlyWhen(actual, k, i);
      }
    }
  }

  /** Locking other candidates does not matter to the first nearest one: none of them is as near. */
  lemma StaysFirstNearest(actual: seq<Stage>, meant: seq<Stage>, k: nat, i: nat)
    requires |actual| == |meant| && FirstNearest(meant, k, i) && Open(actual, k, i)
    requires forall l, j :: Open(actual, l, j) ==> Open(meant, l, j)
    requires forall l :: 0 <= l < |actual| ==>
        |actual[l].cands| == |meant[l].cands| && actual[l].limit == meant[l].limit
    requires forall l, j :: Occurs(actual, l, j) ==> meant[l].cands[j] == actual[l].cands[j].(locked := false)
    ensures FirstNearest(actual, k, i) && !Shadowed(actual, k, i)
  {
    forall l, j ensures Occurs(actual, l, j) <==> Occurs(meant, l, j) { }
    forall j | Occurs(actual, k, j) && actual[k].cands[j].admitted
                 && actual[k].cands[j].dist <= actual[k].cands[i].dist
      ensures Open(meant, k, j)
    {
      assert Occurs(meant, k, j);
    }
  }

  /** Without locks, a stage that selects nothing has no open candidate closer than the running distance. */
  lemma NothingCloser(s: Stage, best: Option<real>, i: nat)
    requires forall j :: 0 <= j < |s.cands| ==> !s.cands[j].locked
    requires i < |s.cands| && s.cands[i].admitted && Accepts(s, i)
    requires Winner(s.cands, best) < 0 || !Accepts(s, Winner(s.cands, best))
    ensures !Less(s.cands[i].dist, best)
  {
    WinnerIsFirstNearest(s.cands, best);
  }

  lemma {:induction false} LastStage(stages: seq<Stage>, w: int)
    requires Lockless(stages) && stages != []
    requires w == Winner(stages[|stages| - 1].cands, DistanceOf(stages[..|stages| - 1], Search(stages[..|stages| - 1])))
    requires match Search(stages[..|stages| - 1])
             case None => forall k, i :: Open(stages, k, i) ==> k == |stages| - 1
             case Some(p) => p.0 < |stages| - 1 && FirstNearest(stages[..|stages| - 1], p.0, p.1)
    ensures match Search(stages)
            case None => forall k, i :: !Open(stages, k, i)
            case Some(p) => FirstNearest(stages, p.0, p.1)
  {
    hide Winner;
    var n := |stages| - 1;
    var first := stages[..n];
    var best := DistanceOf(first, Search(first));
    forall l, j | Open(stages, l, j) && l < n ensures Open(first, l, j) && first[l] == stages[l] { }
    if w >= 0 && Accepts(stages[n], w) {
      WinnerIsFirstNearest(stages[n].cands, best);
      assert Open(stages, n, w);
    } else {
      forall i: nat | Open(stages, n, i) ensures !Less(stages[n].cands[i].dist, best) {
        forall j | 0 <= j < |stages[n].cands| ensures !stages[n].cands[j].locked { assert Occurs(stages, n, j); }
        NothingCloser(stages[n], best, i);
      }
    }
  }

  /** With locks overridden a locked arc is still not selected, and hides a free arc within reach. */
  lemma LockedArcHides()
    ensures var near, far := Item(0, 4, true, true, Curve(1.0, true)), Item(1, 4, true, false, Curve(4.0, true));
            var s := Scene([], [], [], [near, far],
                           [], [], []);
            var m := Point(0.0, 0.0);
            var actual, meant := Stages(s, m, 12.0, true), Stages(UnlockArcs(s), m, 12.0, true);
            Search(meant) == Some((ARCS, 0)) && Open(actual, ARCS, 1) && Search(actual) == None
  {
    var near, far := Item(0, 4, true, true, Curve(1.0, true)), Item(1, 4, true, false, Curve(4.0, true));
    var s, m := Scene([], [], [], [near, far], [], [], []), Point(0.0, 0.0);
    var actual, meant := Stages(s, m, 12.0, true), Stages(UnlockArcs(s), m, 12.0, true);
    assert actual[ARCS].cands == [ArcCandidate(near), ArcCandidate(far)];
    assert meant[ARCS].cands == [ArcCandidate(Unlocked(near)), ArcCandidate(far)];
    LoneStage(actual, ARCS, ArcCandidate(near), ArcCandidate(far));
    LoneStage(meant, ARCS, ArcCandidate(Unlocked(near)), ArcCandidate(far));
  }

  /** The search when only stage k has candidates: two of them, the first one nearer. */
  lemma LoneStage(stages: seq<Stage>, k: nat, a: Candidate, b: Candidate)
    requires k < |stages| && stages[k].cands == [a, b] && a.admitted && a.dist < b.dist
    requires forall l :: 0 <= l < |stages| && l != k ==> stages[l].cands == []
    ensures Search(stages) == if Accepts(stages[k], 0) then Some((k, 0)) else None
  {
    NothingBefore(stages[..k]);
    assert stages[..k + 1][..k] == stages[..k];
    assert [a, b][..1] == [a] && [a][..0] == [];
    assert Winner([a], None) == 0 && Winner([a, b], None) == 0;
    NothingAfter(stages, k + 1);
  }

  lemma {:induction false} NothingBefore(stages: seq<Stage>)
    requires forall l :: 0 <= l < |stages| ==> stages[l].cands == []
    ensures Search(stages) == None
  {
    if stages == [] {
    } else {
      NothingBefore(stages[..|stages| - 1]);
    }
  }

  lemma {:induction false} NothingAfter(stages: seq<Stage>, k: nat)
    requires k <= |stages| && forall l :: k <= l < |stages| ==> stages[l].cands == []
    ensures Search(stages) == Search(stages[..k])
  {
    if |stages| == k {
      assert stages[..k] == stages;
    } else {
      var n := |stages| - 1;
      NothingAfter(stages[..n], k);
      assert stages[..n][..k] == stages[..k];
    }
  }

  lemma DistAtMiddle(y: real)
    ensures Dist(Seg(0.0, y, 10.0, y), Point(5.0, 1.0)) == (1.0 - y) * (1.0 - y)
  {
    var s, p := Seg(0.0, y, 10.0, y), Point(5.0, 1.0);
    assert Foot(s, p).x == 5.0;
    LineDistanceReading(s, p);
    assert Cross(s, p) == -10.0 * (1.0 - y) && SqLength(s) == 100.0;
  }

  /** A locked wire under the mouse hides a free one beside it, although the free one is within reach. */
  lemma LockHides()
    ensures var s := Scene([], [], [], [], [], [Item(0, 0, true, true, Seg(0.0, 0.0, 10.0, 0.0)),
                                                Item(1, 0, true, false, Seg(0.0, 3.0, 10.0, 3.0))], []);
            var stages := Stages(s, Point(5.0, 1.0), 12.0, false);
            FirstNearest(stages, 5, 1) && Search(stages) == None
  {
    hide Dist, Search;
    var near, free := Item(0, 0, true, true, Seg(0.0, 0.0, 10.0, 0.0)),
        Item(1, 0, true, false, Seg(0.0, 3.0, 10.0, 3.0));
    var s, m := Scene([], [], [], [], [], [near, free], []), Point(5.0, 1.0);
    var stages := Stages(s, m, 12.0, false);
    var a, b := WireCandidate(near, m, false), WireCandidate(free, m, false);
    DistAtMiddle(0.0);
    DistAtMiddle(3.0);
    assert stages[5].cands == [a, b];
    LoneStage(stages, 5, a, b);
    forall l, j | Open(stages, l, j) ensures l == 5 && j == 1 { }
  }

  // ---- what that means for the drawing ----

  /** The order in which the kinds are searched. */
  function Rank(k: Kind): nat {
    match k
    case Line => 0 case Polygon => 1 case Box => 2 case Arc => 3 case Text => 4 case Wire => 5 case Element => 6
  }

  /** d is the least squared distance from m to the points of s. */
  ghost predicate LeastToSegment(m: Point, s: Seg, d: real) {
    && (forall q :: OnSegment(s, q) ==> d <= SqDistance(m, q))
    && (exists q :: OnSegment(s, q) && d == SqDistance(m, q))
  }

  /** A point of one of the four lines the sides of r run along. */
  predicate OnSideLine(r: Rect, q: Point) {
    q.x == r.x1 || q.x == r.x2 || q.y == r.y1 || q.y == r.y2
  }

  ghost predicate LeastToSides(m: Point, r: Rect, d: real) {
    && (forall q :: OnSideLine(r, q) ==> d <= SqDistance(m, q))
    && (exists q :: OnSideLine(r, q) && d == SqDistance(m, q))
  }

  ghost predicate PicksLine(i: Item<Seg>, m: Point, t: real, override: bool, d: real) {
    i.enabled && (override || !i.locked) && LeastToSegment(m, i.shape, d) && d <= t * t
  }

  /** The mouse is near enough to the edge from corner j to the next. */
  ghost predicate PicksEdge(i: Item<seq<Point>>, j: int, m: Point, t: real, override: bool, d: real) {
    && 0 <= j && j + 1 < |i.shape| && i.enabled && (override || !i.locked)
    && LeastToSegment(m, Seg(i.shape[j].x, i.shape[j].y, i.shape[j + 1].x, i.shape[j + 1].y), d) && d <= t * t
  }

  /** The mouse is within t of the rectangle, and not t or more inside of all its sides. */
  ghost predicate PicksBox(i: Item<Rect>, m: Point, t: real, override: bool, d: real) {
    var r := i.shape;
    && i.enabled && (override || !i.locked) && LeastToSides(m, r, d)
    && m.x >= r.x1 - t && m.x <= r.x2 + t && m.y >= r.y1 - t && m.y <= r.y2 + t
    && (m.x < r.x1 + t || m.x > r.x2 - t || m.y < r.y1 + t || m.y > r.y2 - t)
  }

  predicate PicksArc(i: Item<Curve>, t: real, d: real) {
    i.enabled && i.shape.onAngle && !i.locked && d == i.shape.dist && d <= t * t
  }

  /** The mouse is in the box of the text. */
  ghost predicate PicksText(i: Item<Rect>, m: Point, override: bool, d: real) {
    var r := i.shape;
    && (override || !i.locked) && LeastToSides(m, r, d)
    && m.x >= r.x1 && m.x <= r.x2 && m.y >= r.y1 && m.y <= r.y2
  }

  ghost predicate PicksWire(i: Item<Seg>, m: Point, t: real, override: bool, d: real) {
    (override || !i.locked) && LeastToSegment(m, i.shape, d) && d <= t * t
  }

  /** The mouse is in the box the instance is looked up by; its distance is to the sides of the body. */
  ghost predicate PicksElement(i: Item<Symbol>, m: Point, override: bool, d: real) {
    var r := i.shape.bbox;
    && (override || !i.locked) && LeastToSides(m, i.shape.body, d)
    && m.x >= r.x1 && m.x <= r.x2 && m.y >= r.y1 && m.y <= r.y2
  }

  /** Object o of the drawing may be picked, being at squared distance d. */
  ghost predicate Pickable(s: Scene, m: Point, t: real, override: bool, o: Object, d: real) {
    match o.kind
    case Line => exists i :: 0 <= i < |s.lines| && o == Object(Line, s.lines[i].n, s.lines[i].col)
                             && PicksLine(s.lines[i], m, t, override, d)
    case Polygon => exists i, j :: 0 <= i < |s.polygons| && o == Object(Polygon, s.polygons[i].n, s.polygons[i].col)
                                   && PicksEdge(s.polygons[i], j, m, t, override, d)
    case Box => exists i :: 0 <= i < |s.boxes| && o == Object(Box, s.boxes[i].n, s.boxes[i].col)
                            && PicksBox(s.boxes[i], m, t, override, d)
    case Arc => exists i :: 0 <= i < |s.arcs| && o == Object(Arc, s.arcs[i].n, s.arcs[i].col)
                            && PicksArc(s.arcs[i], t, d)
    case Text => exists i :: 0 <= i < |s.texts| && o == Object(Text, s.texts[i].n, 0)
                             && PicksText(s.texts[i], m, override, d)
    case Wire => exists i :: 0 <= i < |s.wires| && o == Object(Wire, s.wires[i].n, 0)
                             && PicksWire(s.wires[i], m, t, override, d)
    case Element => exists i :: 0 <= i < |s.elements| && o == Object(Element, s.elements[i].n, 0)
                                && PicksElement(s.elements[i], m, override, d)
  }

  /** Lines and wires are stored with their ends in order. */
  predicate OrderedScene(s: Scene) {
    && (forall i :: 0 <= i < |s.lines| ==> s.lines[i].shape.Ordered())
    && (forall i :: 0 <= i < |s.wires| ==> s.wires[i].shape.Ordered())
  }

  /** Open candidate i of stage k is object o at squared distance d. */
  predicate Offers(stages: seq<Stage>, k: int, i: int, o: Object, d: real) {
    Open(stages, k, i) && stages[k].cands[i].obj == o && stages[k].cands[i].dist == d
  }

  lemma DistIsLeast(m: Point, s: Seg, d: real)
    requires s.Ordered()
    ensures LeastToSegment(m, s, d) <==> d == Dist(s, m)
  {
    hide Dist, OnSegment;
    DistIsMinimum(s, m);
  }

  lemma EdgeIsLeast(m: Point, p: Point, q: Point, d: real)
    ensures LeastToSegment(m, Seg(p.x, p.y, q.x, q.y), d) <==> d == Dist(Order(Seg(p.x, p.y, q.x, q.y)), m)
  {
    hide Dist, OnSegment;
    var s := Seg(p.x, p.y, q.x, q.y);
    DistIsMinimum(Order(s), m);
    forall r ensures OnSegment(s, r) <==> OnSegment(Order(s), r) {
      OrderPoints(s, r);
    }
  }

  lemma AbsSquares(a: real, b: real)
    ensures Abs(a) <= Abs(b) <==> Sq(a) <= Sq(b)
    ensures Sq(a) == Sq(Abs(a)) && Sq(a) == Sq(-a)
  {
    var x, y := Abs(a), Abs(b);
    assert Sq(a) == x * x && Sq(b) == y * y;
    var g, h := y - x, y + x;
    assert g * h == y * y - x * x;
    if x <= y {
      NonNegTimes(g, h);
    } else {
      SignRules(g, h);
      assert g * h < 0.0;
    }
  }

  lemma SideAt(m: Point, r: Rect, q: Point)
    requires OnSideLine(r, q)
    ensures DistFromRect(m, r) <= SqDistance(m, q)
  {
    var least := Minor(Minor(Minor(Abs(m.x - r.x1), Abs(r.x2 - m.x)), Abs(m.y - r.y1)), Abs(r.y2 - m.y));
    AbsSquares(least, m.x - q.x);
    AbsSquares(least, m.y - q.y);
    AbsSquares(r.x2 - m.x, 0.0);
    AbsSquares(r.y2 - m.y, 0.0);
    SumOfSquares(m.x - q.x, 0.0);
    SumOfSquares(m.y - q.y, 0.0);
  }

  /** dist_from_rect: the least squared distance to the lines of the four sides. */
  lemma RectDistance(m: Point, r: Rect, d: real)
    ensures LeastToSides(m, r, d) <==> d == DistFromRect(m, r)
  {
    var a, b, c, e := Abs(m.x - r.x1), Abs(r.x2 - m.x), Abs(m.y - r.y1), Abs(r.y2 - m.y);
    var q := if a <= b && a <= c && a <= e then Point(r.x1, m.y)
             else if b <= c && b <= e then Point(r.x2, m.y)
             else if c <= e then Point(m.x, r.y1) else Point(m.x, r.y2);
    assert OnSideLine(r, q);
    AbsSquares(m.x - r.x1, 0.0);
    AbsSquares(m.y - r.y1, 0.0);
    AbsSquares(r.x2 - m.x, 0.0);
    AbsSquares(r.y2 - m.y, 0.0);
    assert SqDistance(m, q) == DistFromRect(m, r);
    forall p | OnSideLine(r, p) ensures DistFromRect(m, r) <= SqDistance(m, p) {
      SideAt(m, r, p);
    }
  }

  // ---- each stage offers what may be picked of its kind ----

  lemma LineOffered(s: Scene, m: Point, t: real, override: bool, i: int, d: real)
    requires OrderedScene(s)
    ensures var stages := Stages(s, m, t, override);
            && (Occurs(stages, 0, i) <==> 0 <= i < |s.lines|)
            && (Occurs(stages, 0, i) ==> stages[0].cands[i].obj == Object(Line, s.lines[i].n, s.lines[i].col))
            && (Open(stages, 0, i) && stages[0].cands[i].dist == d <==>
                0 <= i < |s.lines| && PicksLine(s.lines[i], m, t, override, d))
  {
    hide Dist, LeastToSegment;
    if 0 <= i < |s.lines| {
      DistIsLeast(m, s.lines[i].shape, d);
      assert Stages(s, m, t, override)[0].cands[i] == LineCandidate(s.lines[i], m, override);
    }
  }

  lemma BoxOffered(s: Scene, m: Point, t: real, override: bool, i: int, d: real)
    ensures var stages := Stages(s, m, t, override);
            && (Occurs(stages, 2, i) <==> 0 <= i < |s.boxes|)
            && (Occurs(stages, 2, i) ==> stages[2].cands[i].obj == Object(Box, s.boxes[i].n, s.boxes[i].col))
            && (Open(stages, 2, i) && stages[2].cands[i].dist == d <==>
                0 <= i < |s.boxes| && PicksBox(s.boxes[i], m, t, override, d))
  {
    hide DistFromRect, LeastToSides;
    if 0 <= i < |s.boxes| {
      RectDistance(m, s.boxes[i].shape, d);
      assert Stages(s, m, t, override)[2].cands[i] == BoxCandidate(s.boxes[i], m, t, override);
    }
  }

  lemma ArcOffered(s: Scene, m: Point, t: real, override: bool, i: int, d: real)
    ensures var stages := Stages(s, m, t, override);
            && (Occurs(stages, 3, i) <==> 0 <= i < |s.arcs|)
            && (Occurs(stages, 3, i) ==> stages[3].cands[i].obj == Object(Arc, s.arcs[i].n, s.arcs[i].col))
            && (Open(stages, 3, i) && stages[3].cands[i].dist == d <==>
                0 <= i < |s.arcs| && PicksArc(s.arcs[i], t, d))
  {
    if 0 <= i < |s.arcs| {
      assert Stages(s, m, t, override)[3].cands[i] == ArcCandidate(s.arcs[i]);
    }
  }

  lemma TextOffered(s: Scene, m: Point, t: real, override: bool, i: int, d: real)
    ensures var stages := Stages(s, m, t, override);
            && (Occurs(stages, 4, i) <==> 0 <= i < |s.texts|)
            && (Occurs(stages, 4, i) ==> stages[4].cands[i].obj == Object(Text, s.texts[i].n, 0))
            && (Open(stages, 4, i) && stages[4].cands[i].dist == d <==>
                0 <= i < |s.texts| && PicksText(s.texts[i], m, override, d))
  {
    hide DistFromRect, LeastToSides;
    if 0 <= i < |s.texts| {
      RectDistance(m, s.texts[i].shape, d);
      assert Stages(s, m, t, override)[4].cands[i] == TextCandidate(s.texts[i], m, override);
    }
  }

  lemma WireOffered(s: Scene, m: Point, t: real, override: bool, i: int, d: real)
    requires OrderedScene(s)
    ensures var stages := Stages(s, m, t, override);
            && (Occurs(stages, 5, i) <==> 0 <= i < |s.wires|)
            && (Occurs(stages, 5, i) ==> stages[5].cands[i].obj == Object(Wire, s.wires[i].n, 0))
            && (Open(stages, 5, i) && stages[5].cands[i].dist == d <==>
                0 <= i < |s.wires| && PicksWire(s.wires[i], m, t, override, d))
  {
    hide Dist, LeastToSegment;
    if 0 <= i < |s.wires| {
      DistIsLeast(m, s.wires[i].shape, d);
      assert Stages(s, m, t, override)[5].cands[i] == WireCandidate(s.wires[i], m, override);
    }
  }

  lemma ElementOffered(s: Scene, m: Point, t: real, override: bool, i: int, d: real)
    ensures var stages := Stages(s, m, t, override);
            && (Occurs(stages, 6, i) <==> 0 <= i < |s.elements|)
            && (Occurs(stages, 6, i) ==> stages[6].cands[i].obj == Object(Element, s.elements[i].n, 0))
            && (Open(stages, 6, i) && stages[6].cands[i].dist == d <==>
                0 <= i < |s.elements| && PicksElement(s.elements[i], m, override, d))
  {
    hide DistFromRect, LeastToSides;
    if 0 <= i < |s.elements| {
      RectDistance(m, s.elements[i].shape.body, d);
      assert Stages(s, m, t, override)[6].cands[i] == ElementCandidate(s.elements[i], m, override);
    }
  }

  /** Candidate i of the polygons is edge j of polygon a. */
  predicate IsEdge(items: seq<Item<seq<Point>>>, m: Point, override: bool, i: int, a: int, j: int) {
    && 0 <= i < |AllEdges(items, m, override)| && 0 <= a < |items| && 0 <= j && j + 1 < |items[a].shape|
    && AllEdges(items, m, override)[i] == EdgeCandidate(items[a], j, m, override)
  }

  lemma {:induction false} EveryCandidateAnEdge(items: seq<Item<seq<Point>>>, m: Point, override: bool, i: nat)
    returns (a: int, j: int)
    requires i < |AllEdges(items, m, override)|
    ensures IsEdge(items, m, override, i, a, j)
  {
    var n := |items| - 1;
    var before := AllEdges(items[..n], m, override);
    if i < |before| {
      a, j := EveryCandidateAnEdge(items[..n], m, override, i);
    } else {
      a, j := n, i - |before|;
    }
  }

  lemma {:induction false} EveryEdgeACandidate(items: seq<Item<seq<Point>>>, m: Point, override: bool, a: nat, j: nat)
    returns (i: int)
    requires a < |items| && j + 1 < |items[a].shape|
    ensures IsEdge(items, m, override, i, a, j)
  {
    var n := |items| - 1;
    if a < n {
      i := EveryEdgeACandidate(items[..n], m, override, a, j);
    } else {
      i := |AllEdges(items[..n], m, override)| + j;
    }
  }

  lemma EdgeOffered(s: Scene, m: Point, t: real, override: bool, i: int, a: int, j: int, d: real)
    requires IsEdge(s.polygons, m, override, i, a, j)
    ensures var stages := Stages(s, m, t, override);
            && Occurs(stages, 1, i)
            && stages[1].cands[i].obj == Object(Polygon, s.polygons[a].n, s.polygons[a].col)
            && (Open(stages, 1, i) && stages[1].cands[i].dist == d <==>
                PicksEdge(s.polygons[a], j, m, t, override, d))
  {
    hide Dist, LeastToSegment;
    EdgeIsLeast(m, s.polygons[a].shape[j], s.polygons[a].shape[j + 1], d);
  }

  /** The stages search the kinds in this order. */
  lemma StagesInOrder(s: Scene, m: Point, t: real, override: bool, k: int, i: int)
    requires OrderedScene(s) && Occurs(Stages(s, m, t, override), k, i)
    ensures Rank(Stages(s, m, t, override)[k].cands[i].obj.kind) == k
  {
    hide OrderedScene;
    match k
    case 0 => LineOffered(s, m, t, override, i, 0.0);
    case 1 =>
      var a, j := EveryCandidateAnEdge(s.polygons, m, override, i);
      EdgeOffered(s, m, t, override, i, a, j, 0.0);
    case 2 => BoxOffered(s, m, t, override, i, 0.0);
    case 3 => ArcOffered(s, m, t, override, i, 0.0);
    case 4 => TextOffered(s, m, t, override, i, 0.0);
    case 5 => WireOffered(s, m, t, override, i, 0.0);
    case 6 => ElementOffered(s, m, t, override, i, 0.0);
  }

  /** For every drawing: an object may be picked at a distance if and only if the stage of its kind has an open
      candidate for it at that distance. */
  lemma PickableExactlyWhen(s: Scene, m: Point, t: real, override: bool, o: Object, d: real)
    requires OrderedScene(s)
    ensures Pickable(s, m, t, override, o, d) <==>
            exists i :: Offers(Stages(s, m, t, override), Rank(o.kind), i, o, d)
  {
    hide PicksLine, PicksEdge, PicksBox, PicksArc, PicksText, PicksWire, PicksElement, OrderedScene, Stages;
    var stages := Stages(s, m, t, override);
    match o.kind
    case Line =>
      assert Rank(o.kind) == 0;
      forall i ensures Offers(stages, 0, i, o, d) <==>
          0 <= i < |s.lines| && o == Object(Line, s.lines[i].n, s.lines[i].col)
          && PicksLine(s.lines[i], m, t, override, d)
      {
        LineOffered(s, m, t, override, i, d);
      }
    case Polygon =>
      assert Rank(o.kind) == 1;
      PolygonPickable(s, m, t, override, o, d);
    case Box =>
      assert Rank(o.kind) == 2;
      forall i ensures Offers(stages, 2, i, o, d) <==>
          0 <= i < |s.boxes| && o == Object(Box, s.boxes[i].n, s.boxes[i].col)
          && PicksBox(s.boxes[i], m, t, override, d)
      {
        BoxOffered(s, m, t, override, i, d);
      }
    case Arc =>
      assert Rank(o.kind) == 3;
      forall i ensures Offers(stages, 3, i, o, d) <==>
          0 <= i < |s.arcs| && o == Object(Arc, s.arcs[i].n, s.arcs[i].col) && PicksArc(s.arcs[i], t, d)
      {
        ArcOffered(s, m, t, override, i, d);
      }
    case Text =>
      assert Rank(o.kind) == 4;
      forall i ensures Offers(stages, 4, i, o, d) <==>
          0 <= i < |s.texts| && o == Object(Text, s.texts[i].n, 0) && PicksText(s.texts[i], m, override, d)
      {
        TextOffered(s, m, t, override, i, d);
      }
    case Wire =>
      assert Rank(o.kind) == 5;
      forall i ensures Offers(stages, 5, i, o, d) <==>
          0 <= i < |s.wires| && o == Object(Wire, s.wires[i].n, 0) && PicksWire(s.wires[i], m, t, override, d)
      {
        WireOffered(s, m, t, override, i, d);
      }
    case Element =>
      assert Rank(o.kind) == 6;
      forall i ensures Offers(stages, 6, i, o, d) <==>
          0 <= i < |s.elements| && o == Object(Element, s.elements[i].n, 0)
          && PicksElement(s.elements[i], m, override, d)
      {
        ElementOffered(s, m, t, override, i, d);
      }
  }

  lemma PolygonPickable(s: Scene, m: Point, t: real, override: bool, o: Object, d: real)
    requires OrderedScene(s) && o.kind == Polygon
    ensures Pickable(s, m, t, override, o, d) <==> exists i :: Offers(Stages(s, m, t, override), 1, i, o, d)
  {
    hide OrderedScene, LeastToSegment, IsEdge;
    var stages := Stages(s, m, t, override);
    if Pickable(s, m, t, override, o, d) {
      var a, j :| 0 <= a < |s.polygons| && o == Object(Polygon, s.polygons[a].n, s.polygons[a].col)
          && PicksEdge(s.polygons[a], j, m, t, override, d);
      var i := EveryEdgeACandidate(s.polygons, m, override, a, j);
      EdgeOffered(s, m, t, override, i, a, j, d);
      assert Offers(stages, 1, i, o, d);
    }
    if i :| Offers(stages, 1, i, o, d) {
      var a, j := EveryCandidateAnEdge(s.polygons, m, override, i);
      EdgeOffered(s, m, t, override, i, a, j, d);
      assert 0 <= a < |s.polygons| by { IsEdgeInRange(s.polygons, m, override, i, a, j); }
    }
  }

  lemma IsEdgeInRange(items: seq<Item<seq<Point>>>, m: Point, override: bool, i: int, a: int, j: int)
    requires IsEdge(items, m, override, i, a, j)
    ensures 0 <= a < |items|
  {
  }

  /** No lock counts: none is set, or only such as are overridden. */
  predicate NoLockCounts(s: Scene, override: bool) {
    && (forall i :: 0 <= i < |s.arcs| ==> !s.arcs[i].locked)
    && (!override ==>
          && (forall i :: 0 <= i < |s.lines| ==> !s.lines[i].locked)
          && (forall i :: 0 <= i < |s.polygons| ==> !s.polygons[i].locked)
          && (forall i :: 0 <= i < |s.boxes| ==> !s.boxes[i].locked)
          && (forall i :: 0 <= i < |s.texts| ==> !s.texts[i].locked)
          && (forall i :: 0 <= i < |s.wires| ==> !s.wires[i].locked)
          && (forall i :: 0 <= i < |s.elements| ==> !s.elements[i].locked))
  }

  lemma EdgeUnlocked(items: seq<Item<seq<Point>>>, m: Point, override: bool, i: nat)
    requires i < |AllEdges(items, m, override)|
    requires !override ==> forall a :: 0 <= a < |items| ==> !items[a].locked
    ensures !AllEdges(items, m, override)[i].locked
  {
    var a, j := EveryCandidateAnEdge(items, m, override, i);
  }

  lemma NoneLocked(s: Scene, m: Point, t: real, override: bool)
    requires NoLockCounts(s, override)
    ensures Lockless(Stages(s, m, t, override))
  {
    hide LeastToSegment, Dist, DistFromRect;
    var stages := Stages(s, m, t, override);
    forall k, i | Occurs(stages, k, i) ensures !stages[k].cands[i].locked {
      match k
      case 0 => assert stages[k].cands[i] == LineCandidate(s.lines[i], m, override);
      case 1 => EdgeUnlocked(s.polygons, m, override, i);
      case 2 => assert stages[k].cands[i] == BoxCandidate(s.boxes[i], m, t, override);
      case 3 => assert stages[k].cands[i] == ArcCandidate(s.arcs[i]);
      case 4 => assert stages[k].cands[i] == TextCandidate(s.texts[i], m, override);
      case 5 => assert stages[k].cands[i] == WireCandidate(s.wires[i], m, override);
      case 6 => assert stages[k].cands[i] == ElementCandidate(s.elements[i], m, override);
    }
  }

  /** Nothing that may be picked is nearer, nor as near and of a kind searched before. */
  ghost predicate PickedNearest(s: Scene, m: Point, t: real, override: bool, o: Object) {
    exists d :: Pickable(s, m, t, override, o, d) && NoneNearer(s, m, t, override, o, d)
  }

  ghost predicate NoneNearer(s: Scene, m: Point, t: real, override: bool, o: Object, d: real) {
    forall o', d' :: Pickable(s, m, t, override, o', d') ==>
                       d <= d' && (Rank(o'.kind) < Rank(o.kind) ==> d < d')
  }

  lemma PicksNearest(s: Scene, m: Point, t: real, override: bool)
    requires OrderedScene(s) && NoLockCounts(s, override)
    ensures var stages := Stages(s, m, t, override);
            match Search(stages)
            case None => forall o, d :: !Pickable(s, m, t, override, o, d)
            case Some(p) => Occurs(stages, p.0, p.1) && PickedNearest(s, m, t, override, stages[p.0].cands[p.1].obj)
  {
    hide Pickable, OrderedScene, NoLockCounts, Stages, Search, Rank;
    var stages := Stages(s, m, t, override);
    NoneLocked(s, m, t, override);
    FindsNearest(stages);
    SearchIsOpen(stages);
    forall o, d | Pickable(s, m, t, override, o, d) ensures exists i :: Offers(stages, Rank(o.kind), i, o, d) {
      PickableExactlyWhen(s, m, t, override, o, d);
    }
    if Search(stages).Some? {
      var (k, i) := Search(stages).value;
      var o, d := stages[k].cands[i].obj, stages[k].cands[i].dist;
      StagesInOrder(s, m, t, override, k, i);
      assert Offers(stages, Rank(o.kind), i, o, d);
      PickableExactlyWhen(s, m, t, override, o, d);
      assert NoneNearer(s, m, t, override, o, d);
    }
  }

  // ---- the code: shared state updated stage by stage ----

  class Finder {
    var distance: Option<real>
    var sel: Option<Object>

    constructor ()
      ensures distance == None && sel == None
    {
      distance, sel := None, None;
    }

    /** The skeleton of each of the seven find_closest_ functions. */
    method RunStage(s: Stage)
      modifies this
      ensures var w := Winner(s.cands, old(distance));
              if w >= 0 && Accepts(s, w) then distance == Some(s.cands[w].dist) && sel == Some(s.cands[w].obj)
              else distance == old(distance) && sel == old(sel)
    {
      var d := distance;
      var w := -1;
      for i := 0 to |s.cands|
        invariant w == Winner(s.cands[..i], distance)
        invariant d == if w < 0 then distance else Some(s.cands[w].dist)
      {
        assert s.cands[..i + 1][..i] == s.cands[..i];
        if s.cands[i].admitted && Less(s.cands[i].dist, d) {
          w, d := i, Some(s.cands[i].dist);
        }
      }
      assert s.cands[..|s.cands|] == s.cands;
      if w != -1 && (s.limit.Some? ==> d.value <= s.limit.value) && !s.cands[w].locked {
        sel := Some(s.cands[w].obj);
        distance := d;
      }
    }

    /** What is selected once the first k stages are done. */
    ghost predicate Reached(stages: seq<Stage>, k: int)
      requires 0 <= k <= |stages|
      reads this
    {
      && distance == DistanceOf(stages[..k], Search(stages[..k]))
      && match Search(stages[..k])
         case None => sel == None
         case Some(p) => Occurs(stages[..k], p.0, p.1) && sel == Some(stages[p.0].cands[p.1].obj)
    }

    method RunNext(s: Stage, ghost stages: seq<Stage>, ghost k: nat)
      requires k < |stages| && s == stages[k] && Reached(stages, k)
      modifies this
      ensures Reached(stages, k + 1)
    {
      assert stages[..k + 1][..k] == stages[..k];
      SearchIsOpen(stages[..k + 1]);
      RunStage(s);
    }

    /** find_closest_obj */
    method FindClosestObj(s: Scene, m: Point, zoom: real, scaling: real, override: bool) returns (found: Option<Object>)
      modifies this
      ensures var stages := Stages(s, m, Threshold(zoom, scaling), override);
              match Search(stages)
              case None => found == None
              case Some(p) => Occurs(stages, p.0, p.1) && found == Some(stages[p.0].cands[p.1].obj)
      ensures OrderedScene(s) && NoLockCounts(s, override) ==>
              var t := 12.0 * zoom * scaling;
              match found
              case None => forall o, d :: !Pickable(s, m, t, override, o, d)
              case Some(o) => PickedNearest(s, m, t, override, o)
    {
      hide Pickable, PickedNearest, OrderedScene, NoLockCounts, Threshold, Stages;
      hide LineStage, PolygonStage, BoxStage, ArcStage, TextStage, WireStage, ElementStage, Search, DistanceOf;
      var t := Threshold(zoom, scaling);
      ghost var stages := Stages(s, m, t, override);
      StagesListed(s, m, t, override);
      sel, distance := None, None;
      NothingSearched(stages);
      RunNext(LineStage(s, m, t, override), stages, 0);
      RunNext(PolygonStage(s, m, t, override), stages, 1);
      RunNext(BoxStage(s, m, t, override), stages, 2);
      RunNext(ArcStage(s, t), stages, 3);
      RunNext(TextStage(s, m, override), stages, 4);
      RunNext(WireStage(s, m, t, override), stages, 5);
      RunNext(ElementStage(s, m, override), stages, 6);
      assert stages[..7] == stages;
      found := sel;
      if OrderedScene(s) && NoLockCounts(s, override) {
        PicksNearest(s, m, t, override);
        ThresholdIs(zoom, scaling);
      }
    }
  }

  lemma ThresholdIs(zoom: real, scaling: real)
    ensures Threshold(zoom, scaling) == 12.0 * zoom * scaling
  {
  }

  lemma StagesListed(s: Scene, m: Point, t: real, override: bool)
    ensures var stages := Stages(s, m, t, override);
            && |stages| == 7
            && stages[0] == LineStage(s, m, t, override) && stages[1] == PolygonStage(s, m, t, override)
            && stages[2] == BoxStage(s, m, t, override) && stages[3] == ArcStage(s, t)
            && stages[4] == TextStage(s, m, override) && stages[5] == WireStage(s, m, t, override)
            && stages[6] == ElementStage(s, m, override)
  {
  }

  lemma NothingSearched(stages: seq<Stage>)
    ensures Search(stages[..0]) == None && DistanceOf(stages[..0], None) == None
  {
  }
}
