/** Electrical connectivity of a set of wires.  Two wires are on one net when a chain of
    wires joins them, each touching the next with an endpoint; wires that merely cross do
    not connect.  The trimming steps of check.c are proved against this definition. */
module Nets {
  import opened Geometry

  ghost predicate AllOrtho(S: set<Seg>) {
    forall s :: s in S ==> s.Ortho()
  }

  predicate IsEndOf(e: Seg, p: Point) {
    p == e.Start() || p == e.End()
  }

  /** p is an endpoint of some wire. */
  ghost predicate HasEnd(S: set<Seg>, p: Point) {
    exists e :: e in S && IsEndOf(e, p)
  }

  predicate Adjacent(u: Seg, v: Seg) {
    On(v, u.Start()) || On(v, u.End()) || On(u, v.Start()) || On(u, v.End())
  }

  ghost predicate Chain(S: set<Seg>, path: seq<Seg>) {
    && |path| > 0
    && (forall k :: 0 <= k < |path| ==> path[k] in S)
    && (forall k :: 0 < k < |path| ==> Adjacent(path[k - 1], path[k]))
  }

  /** u and v are on one net. */
  ghost predicate Connected(S: set<Seg>, u: Seg, v: Seg) {
    exists path :: Chain(S, path) && path[0] == u && path[|path| - 1] == v
  }

  /** p and q are points of wires of one net. */
  ghost predicate Joined(S: set<Seg>, p: Point, q: Point) {
    exists u, v :: u in S && v in S && On(u, p) && On(v, q) && Connected(S, u, v)
  }

  ghost predicate Covered(S: set<Seg>, p: Point) {
    exists s :: s in S && On(s, p)
  }

  ghost predicate SameNets(S: set<Seg>, T: set<Seg>) {
    forall p, q :: Joined(S, p, q) <==> Joined(T, p, q)
  }

  ghost predicate SameCover(S: set<Seg>, T: set<Seg>) {
    forall p :: Covered(S, p) <==> Covered(T, p)
  }

  // ---- chains ----

  lemma ConnectedSelf(S: set<Seg>, u: Seg)
    requires u in S
    ensures Connected(S, u, u)
  {
    assert Chain(S, [u]);
  }

  lemma ConnectedAdjacent(S: set<Seg>, u: Seg, v: Seg)
    requires u in S && v in S && Adjacent(u, v)
    ensures Connected(S, u, v)
  {
    assert Chain(S, [u, v]);
  }

  lemma ConnectedTrans(S: set<Seg>, u: Seg, v: Seg, w: Seg)
    requires Connected(S, u, v) && Connected(S, v, w)
    ensures Connected(S, u, w)
  {
    var a :| Chain(S, a) && a[0] == u && a[|a| - 1] == v;
    var b :| Chain(S, b) && b[0] == v && b[|b| - 1] == w;
    var c := a + b[1..];
    forall k | 0 < k < |c| ensures Adjacent(c[k - 1], c[k]) {
      if k == |a| {
        assert c[k] == b[1] && c[k - 1] == b[0];
      } else if k > |a| {
        assert c[k] == b[k - |a| + 1] && c[k - 1] == b[k - |a|];
      }
    }
    assert Chain(S, c);
    assert c[|c| - 1] == w;
  }

  lemma ConnectedSym(S: set<Seg>, u: Seg, v: Seg)
    requires Connected(S, u, v)
    ensures Connected(S, v, u)
  {
    var a :| Chain(S, a) && a[0] == u && a[|a| - 1] == v;
    var b := seq(|a|, k requires 0 <= k < |a| => a[|a| - 1 - k]);
    forall k | 0 < k < |b| ensures Adjacent(b[k - 1], b[k]) {
      assert Adjacent(a[|a| - 1 - k], a[|a| - k]);
    }
    assert Chain(S, b);
  }

  /** Wires through a common endpoint of the net list are connected. */
  lemma Meet(S: set<Seg>, u: Seg, v: Seg, r: Point)
    requires u in S && v in S && On(u, r) && On(v, r) && HasEnd(S, r)
    ensures Connected(S, u, v)
  {
    var e :| e in S && IsEndOf(e, r);
    ConnectedAdjacent(S, u, e);
    ConnectedAdjacent(S, e, v);
    ConnectedTrans(S, u, e, v);
  }

  // ---- simulation of one wire set by another ----

  /** R relates each wire of S to wires of T: its pieces, or the longer wire it became part of. */
  ghost predicate Simulates(S: set<Seg>, T: set<Seg>, R: (Seg, Seg) -> bool) {
    && (forall s, p :: s in S && On(s, p) ==> exists t :: t in T && R(s, t) && On(t, p))
    && (forall s, t, t' :: s in S && t in T && t' in T && R(s, t) && R(s, t') ==> Connected(T, t, t'))
    && (forall u, v :: u in S && v in S && Adjacent(u, v) ==>
          exists u', v' :: u' in T && v' in T && R(u, u') && R(v, v') && Connected(T, u', v'))
  }

  lemma SimulatedWire(S: set<Seg>, T: set<Seg>, R: (Seg, Seg) -> bool, s: Seg, t: Seg, t': Seg)
    requires Simulates(S, T, R) && s in S && t in T && t' in T && R(s, t) && R(s, t')
    ensures Connected(T, t, t')
  {
  }

  lemma SimulatedStep(S: set<Seg>, T: set<Seg>, R: (Seg, Seg) -> bool, u: Seg, v: Seg) returns (u': Seg, v': Seg)
    requires Simulates(S, T, R) && u in S && v in S && Adjacent(u, v)
    ensures u' in T && v' in T && R(u, u') && R(v, v') && Connected(T, u', v')
  {
    u', v' :| u' in T && v' in T && R(u, u') && R(v, v') && Connected(T, u', v');
  }

  lemma {:induction false} SimulatedChain(S: set<Seg>, T: set<Seg>, R: (Seg, Seg) -> bool, path: seq<Seg>, t: Seg,
      t': Seg)
    requires Simulates(S, T, R) && Chain(S, path)
    requires t in T && R(path[0], t) && t' in T && R(path[|path| - 1], t')
    ensures Connected(T, t, t')
    decreases |path|
  {
    hide Simulates, Connected, Adjacent;
    if |path| == 1 {
      SimulatedWire(S, T, R, path[0], t, t');
    } else {
      var n := |path| - 1;
      var u, v := SimulatedStep(S, T, R, path[n - 1], path[n]);
      SimulatedChain(S, T, R, path[..n], t, u);
      SimulatedWire(S, T, R, path[n], v, t');
      ConnectedTrans(T, t, u, v);
      ConnectedTrans(T, t, v, t');
    }
  }

  lemma SimulationJoins(S: set<Seg>, T: set<Seg>, R: (Seg, Seg) -> bool)
    requires Simulates(S, T, R)
    ensures forall p, q :: Joined(S, p, q) ==> Joined(T, p, q)
    ensures forall p :: Covered(S, p) ==> Covered(T, p)
  {
    forall p, q | Joined(S, p, q) ensures Joined(T, p, q) {
      var u, v :| u in S && v in S && On(u, p) && On(v, q) && Connected(S, u, v);
      var path :| Chain(S, path) && path[0] == u && path[|path| - 1] == v;
      var t :| t in T && R(u, t) && On(t, p);
      var t' :| t' in T && R(v, t') && On(t', q);
      SimulatedChain(S, T, R, path, t, t');
    }
  }

  /** The usual way to meet the third clause: old neighbours share a point that is still an endpoint. */
  lemma AdjacentShare(S: set<Seg>, T: set<Seg>, R: (Seg, Seg) -> bool, u: Seg, v: Seg, r: Point)
    requires forall s, p :: s in S && On(s, p) ==> exists t :: t in T && R(s, t) && On(t, p)
    requires u in S && v in S && On(u, r) && On(v, r) && HasEnd(T, r)
    ensures exists u', v' :: u' in T && v' in T && R(u, u') && R(v, v') && Connected(T, u', v')
  {
    var u' :| u' in T && R(u, u') && On(u', r);
    var v' :| v' in T && R(v, v') && On(v', r);
    Meet(T, u', v', r);
  }

  function SharedEnd(u: Seg, v: Seg): (r: Point)
    requires u.Ortho() && v.Ortho() && Adjacent(u, v)
    ensures On(u, r) && On(v, r) && (IsEndOf(u, r) || IsEndOf(v, r))
  {
    if On(v, u.Start()) then u.Start()
    else if On(v, u.End()) then u.End()
    else if On(u, v.Start()) then v.Start()
    else v.End()
  }

  // ---- the three steps of trim_wires on wire sets ----

  /** No wire has an endpoint of another strictly inside. */
  ghost predicate NoBreaks(S: set<Seg>) {
    forall s, e :: s in S && e in S ==> !Inside(s, e.Start()) && !Inside(s, e.End())
  }

  function Head(w: Seg, p: Point): Seg { Seg(w.x1, w.y1, p.x, p.y) }
  function Tail(w: Seg, p: Point): Seg { Seg(p.x, p.y, w.x2, w.y2) }

  lemma SplitGeometry(w: Seg, p: Point)
    requires w.Ortho() && Inside(w, p)
    ensures Head(w, p).Ortho() && Tail(w, p).Ortho()
    ensures forall q {:trigger On(w, q)} :: On(w, q) <==> On(Head(w, p), q) || On(Tail(w, p), q)
    ensures forall q {:trigger Inside(w, q)} :: Inside(w, q) <==>
        Inside(Head(w, p), q) || Inside(Tail(w, p), q) || q == p
    ensures forall q {:trigger Inside(Head(w, p), q)} :: !(Inside(Head(w, p), q) && Inside(Tail(w, p), q))
    ensures !Inside(Head(w, p), p) && !Inside(Tail(w, p), p)
  {
  }

  /** Cutting w at p, an endpoint of another wire; T may or may not keep another wire equal to w. */
  lemma SplitKeepsNets(S: set<Seg>, T: set<Seg>, w: Seg, p: Point)
    requires AllOrtho(S) && w in S && Inside(w, p) && HasEnd(S, p)
    requires S - {w} <= T <= S + {Head(w, p), Tail(w, p)}
    requires Head(w, p) in T && Tail(w, p) in T
    ensures SameNets(S, T) && SameCover(S, T)
    ensures AllOrtho(T)
    ensures forall q :: HasEnd(S, q) <==> HasEnd(T, q)
  {
    SplitGeometry(w, p);
    SplitEnds(S, T, w, p);
    SplitForward(S, T, w, p);
    forall k | k in S && On(k, p) ensures Connected(S, w, k) {
      Meet(S, w, k, p);
    }
    SplitBackward(S, T, w, p);
  }

  /** Every wire through p is on the net of w. */
  ghost predicate OneNetAt(S: set<Seg>, w: Seg, p: Point) {
    forall k :: k in S && On(k, p) ==> Connected(S, w, k)
  }

  /** Cutting w at any inner point p, as when wires are broken at a clicked point or at a pin: the nets stay
      the same if and only if every wire crossing w at p was on its net before. */
  lemma SplitKeepsNetsExactlyWhen(S: set<Seg>, T: set<Seg>, w: Seg, p: Point)
    requires AllOrtho(S) && w in S && Inside(w, p)
    requires S - {w} <= T <= S + {Head(w, p), Tail(w, p)}
    requires Head(w, p) in T && Tail(w, p) in T
    ensures SameCover(S, T)
    ensures SameNets(S, T) <==> OneNetAt(S, w, p)
  {
    SplitGeometry(w, p);
    SplitEnds(S, T, w, p);
    SplitForward(S, T, w, p);
    SplitCover(S, T, w, p);
    if OneNetAt(S, w, p) {
      SplitBackward(S, T, w, p);
    }
    if SameNets(S, T) {
      forall k | k in S && On(k, p) ensures Connected(S, w, k) {
        SplitConnects(S, T, w, p, k);
      }
    }
  }

  /** Two wires that only cross are two nets; cutting one of them at the crossing makes one net of them. */
  lemma CutAtCrossingShorts()
    ensures var h, v, p := Seg(-1.0, 0.0, 1.0, 0.0), Seg(0.0, -1.0, 0.0, 1.0), Point(0.0, 0.0);
            !SameNets({h, v}, {v, Head(h, p), Tail(h, p)})
  {
    var h, v, p := Seg(-1.0, 0.0, 1.0, 0.0), Seg(0.0, -1.0, 0.0, 1.0), Point(0.0, 0.0);
    var S := {h, v};
    assert v in S && On(v, p);
    if Connected(S, h, v) {
      var a :| Chain(S, a) && a[0] == h && a[|a| - 1] == v;
      StaysOn(S, a, h, |a| - 1);
    }
    SplitKeepsNetsExactlyWhen(S, {v, Head(h, p), Tail(h, p)}, h, p);
  }

  lemma SplitEnds(S: set<Seg>, T: set<Seg>, w: Seg, p: Point)
    requires w in S && S - {w} <= T <= S + {Head(w, p), Tail(w, p)} && Head(w, p) in T && Tail(w, p) in T
    ensures forall q :: HasEnd(T, q) ==> HasEnd(S, q) || q == p
    ensures forall q :: HasEnd(S, q) ==> HasEnd(T, q)
  {
    forall q | HasEnd(T, q) ensures HasEnd(S, q) || q == p {
      var e :| e in T && IsEndOf(e, q);
      assert e in S || q == p || IsEndOf(w, q);
    }
    forall q | HasEnd(S, q) ensures HasEnd(T, q) {
      var e :| e in S && IsEndOf(e, q);
      if e == w { assert IsEndOf(Head(w, p), q) || IsEndOf(Tail(w, p), q); } else { assert e in T; }
    }
  }

  lemma SplitCover(S: set<Seg>, T: set<Seg>, w: Seg, p: Point)
    requires w.Ortho() && w in S && Inside(w, p) && T <= S + {Head(w, p), Tail(w, p)}
    ensures forall q :: Covered(T, q) ==> Covered(S, q)
  {
    SplitGeometry(w, p);
    forall q | Covered(T, q) ensures Covered(S, q) {
      var t :| t in T && On(t, q);
      assert t in S || On(w, q);
    }
  }

  /** After the cut the head ends on every wire through p. */
  lemma SplitConnects(S: set<Seg>, T: set<Seg>, w: Seg, p: Point, k: Seg)
    requires AllOrtho(S) && w in S && k in S && Inside(w, p) && On(k, p)
    requires S - {w} <= T && Head(w, p) in T && SameNets(S, T)
    ensures Connected(S, w, k)
  {
    if k == w {
      ConnectedSelf(S, w);
    } else {
      var a := Head(w, p);
      SplitGeometry(w, p);
      assert k in T && Adjacent(a, k);
      ConnectedAdjacent(T, a, k);
      assert On(a, w.Start()) && On(k, k.Start());
      assert Joined(T, w.Start(), k.Start());
      assert Joined(S, w.Start(), k.Start());
      var u, v :| u in S && v in S && On(u, w.Start()) && On(v, k.Start()) && Connected(S, u, v);
      ConnectedAdjacent(S, w, u);
      ConnectedAdjacent(S, v, k);
      ConnectedTrans(S, w, u, v);
      ConnectedTrans(S, w, v, k);
    }
  }

  lemma SplitForward(S: set<Seg>, T: set<Seg>, w: Seg, p: Point)
    requires AllOrtho(S) && w in S && Inside(w, p)
    requires S - {w} <= T && Head(w, p) in T && Tail(w, p) in T
    requires forall q :: HasEnd(S, q) ==> HasEnd(T, q)
    ensures forall q, r :: Joined(S, q, r) ==> Joined(T, q, r)
    ensures forall q :: Covered(S, q) ==> Covered(T, q)
  {
    var a, b := Head(w, p), Tail(w, p);
    SplitGeometry(w, p);
    var R := (s: Seg, t: Seg) => if s == w then t == a || t == b else t == s;
    forall s, q | s in S && On(s, q) ensures exists t :: t in T && R(s, t) && On(t, q) {
      if s == w { assert R(s, a) && R(s, b); } else { assert R(s, s) && s in T; }
    }
    forall s, t, t' | s in S && t in T && t' in T && R(s, t) && R(s, t') ensures Connected(T, t, t') {
      if t == t' { ConnectedSelf(T, t); } else { ConnectedAdjacent(T, t, t'); }
    }
    forall u, v | u in S && v in S && Adjacent(u, v)
      ensures exists u', v' :: u' in T && v' in T && R(u, u') && R(v, v') && Connected(T, u', v')
    {
      AdjacentShare(S, T, R, u, v, SharedEnd(u, v));
    }
    SimulationJoins(S, T, R);
  }

  lemma SplitBackward(S: set<Seg>, T: set<Seg>, w: Seg, p: Point)
    requires AllOrtho(S) && w in S && Inside(w, p) && OneNetAt(S, w, p)
    requires T <= S + {Head(w, p), Tail(w, p)}
    requires forall q :: HasEnd(T, q) ==> HasEnd(S, q) || q == p
    ensures forall q, r :: Joined(T, q, r) ==> Joined(S, q, r)
    ensures forall q :: Covered(T, q) ==> Covered(S, q)
  {
    var a, b := Head(w, p), Tail(w, p);
    SplitGeometry(w, p);
    var R := (t: Seg, s: Seg) => if t in S then s == t else s == w;
    forall t, q | t in T && On(t, q) ensures exists s :: s in S && R(t, s) && On(s, q) {
      if t in S { assert R(t, t); } else { assert R(t, w); }
    }
    forall t, s, s' | t in T && s in S && s' in S && R(t, s) && R(t, s') ensures Connected(S, s, s') {
      ConnectedSelf(S, s);
    }
    forall u, v | u in T && v in T && Adjacent(u, v)
      ensures exists u', v' :: u' in S && v' in S && R(u, u') && R(v, v') && Connected(S, u', v')
    {
      var r := SharedEnd(u, v);
      assert HasEnd(T, r);
      if HasEnd(S, r) {
        AdjacentShare(T, S, R, u, v, r);
      } else {
        var u' :| u' in S && R(u, u') && On(u', p);
        var v' :| v' in S && R(v, v') && On(v', p);
        ConnectedSym(S, w, u');
        ConnectedTrans(S, u', w, v');
      }
    }
    SimulationJoins(T, S, R);
  }

  /** Both ends of b are on a. */
  predicate Includes(a: Seg, b: Seg) {
    a.x1 <= b.x1 <= a.x2 && a.y1 <= b.y1 <= a.y2 && a.x1 <= b.x2 <= a.x2 && a.y1 <= b.y2 <= a.y2
  }

  lemma IncludesTrans(a: Seg, b: Seg, c: Seg)
    requires Includes(a, b) && Includes(b, c)
    ensures Includes(a, c)
  {
  }

  lemma IncludesPoints(a: Seg, b: Seg)
    requires a.Ortho() && b.Ortho() && Includes(a, b)
    ensures forall p :: On(b, p) ==> On(a, p)
  {
  }

  /** s lies inside one of the wires of T. */
  ghost predicate IncludedIn(T: set<Seg>, s: Seg) {
    exists t :: t in T && Includes(t, s)
  }

  lemma EndSurvives(S: set<Seg>, t: Seg, e: Seg, q: Point)
    requires NoBreaks(S) && e in S && t in S && Includes(t, e) && IsEndOf(e, q)
    ensures IsEndOf(t, q)
  {
    assert !Inside(t, e.Start()) && !Inside(t, e.End());
  }

  lemma DeleteForward(S: set<Seg>, T: set<Seg>)
    requires AllOrtho(S) && AllOrtho(T)
    requires forall s {:trigger IncludedIn(T, s)} :: s in S ==> IncludedIn(T, s)
    requires forall q :: HasEnd(S, q) ==> HasEnd(T, q)
    ensures forall p, q :: Joined(S, p, q) ==> Joined(T, p, q)
    ensures forall p :: Covered(S, p) ==> Covered(T, p)
  {
    var R := (s: Seg, t: Seg) => Includes(t, s);
    forall s, q | s in S && On(s, q) ensures exists t :: t in T && R(s, t) && On(t, q) {
      assert IncludedIn(T, s);
      var t :| t in T && Includes(t, s);
      IncludesPoints(t, s);
      assert R(s, t) && On(t, q);
    }
    forall s, t, t' | s in S && t in T && t' in T && R(s, t) && R(s, t') ensures Connected(T, t, t') {
      assert HasEnd(S, s.Start());
      Meet(T, t, t', s.Start());
    }
    forall u, v | u in S && v in S && Adjacent(u, v)
      ensures exists u', v' :: u' in T && v' in T && R(u, u') && R(v, v') && Connected(T, u', v')
    {
      var r := SharedEnd(u, v);
      assert HasEnd(S, r);
      AdjacentShare(S, T, R, u, v, r);
    }
    SimulationJoins(S, T, R);
  }

  /** Deleting wires included in kept ones, once nothing is left to break. */
  lemma DeleteKeepsNets(S: set<Seg>, T: set<Seg>)
    requires AllOrtho(S) && NoBreaks(S) && T <= S
    requires forall s {:trigger IncludedIn(T, s)} :: s in S ==> IncludedIn(T, s)
    ensures SameNets(S, T) && SameCover(S, T)
  {
    forall q | HasEnd(S, q) ensures HasEnd(T, q) {
      var e :| e in S && IsEndOf(e, q);
      assert IncludedIn(T, e);
      var t :| t in T && Includes(t, e);
      EndSurvives(S, t, e, q);
    }
    DeleteForward(S, T);
    SubsetJoins(T, S);
  }

  lemma SubsetJoins(T: set<Seg>, S: set<Seg>)
    requires T <= S
    ensures forall p, q :: Joined(T, p, q) ==> Joined(S, p, q)
    ensures forall p :: Covered(T, p) ==> Covered(S, p)
  {
    forall p, q | Joined(T, p, q) ensures Joined(S, p, q) {
      var u, v :| u in T && v in T && On(u, p) && On(v, q) && Connected(T, u, v);
      var path :| Chain(T, path) && path[0] == u && path[|path| - 1] == v;
      assert Chain(S, path);
    }
  }

  /** The wire written over wire i when j, starting where i ends, is merged into it. */
  function Merged(i: Seg, j: Seg): Seg { Seg(i.x1, i.y1, j.x2, j.y2) }

  /** i and j are collinear, of non-zero length, and j starts where i ends. */
  predicate Abut(i: Seg, j: Seg) {
    && i.Ortho() && j.Ortho() && !i.Degenerate() && !j.Degenerate()
    && i.End() == j.Start()
    && ((i.Horizontal() && j.Horizontal()) || (i.Vertical() && j.Vertical()))
  }

  lemma MergeGeometry(i: Seg, j: Seg)
    requires Abut(i, j)
    ensures Merged(i, j).Ortho() && !Merged(i, j).Degenerate()
    ensures forall q {:trigger On(Merged(i, j), q)} :: On(Merged(i, j), q) <==> On(i, q) || On(j, q)
    ensures forall q {:trigger Inside(Merged(i, j), q)} :: Inside(Merged(i, j), q) <==>
        Inside(i, q) || Inside(j, q) || q == i.End()
    ensures i != j && Merged(i, j) != i && Merged(i, j) != j
  {
  }

  /** Only i and j pass through their joint. */
  ghost predicate LoneJoint(S: set<Seg>, i: Seg, j: Seg) {
    forall k :: k in S && On(k, i.End()) ==> k == i || k == j
  }

  lemma MergeKeepsNets(S: set<Seg>, i: Seg, j: Seg)
    requires AllOrtho(S) && i in S && j in S && Abut(i, j) && LoneJoint(S, i, j)
    ensures SameNets(S, S - {i, j} + {Merged(i, j)})
    ensures SameCover(S, S - {i, j} + {Merged(i, j)})
  {
    MergeGeometry(i, j);
    MergeForward(S, i, j);
    MergeBackward(S, i, j);
  }

  lemma MergeForward(S: set<Seg>, i: Seg, j: Seg)
    requires AllOrtho(S) && i in S && j in S && Abut(i, j) && LoneJoint(S, i, j)
    ensures forall p, q :: Joined(S, p, q) ==> Joined(S - {i, j} + {Merged(i, j)}, p, q)
    ensures forall p :: Covered(S, p) ==> Covered(S - {i, j} + {Merged(i, j)}, p)
  {
    var m := Merged(i, j);
    var T := S - {i, j} + {m};
    MergeGeometry(i, j);
    var R := (s: Seg, t: Seg) => if s == i || s == j then t == m else t == s;
    forall s, q | s in S && On(s, q) ensures exists t :: t in T && R(s, t) && On(t, q) {
      if s == i || s == j { assert R(s, m); } else { assert R(s, s) && s in T; }
    }
    forall s, t, t' | s in S && t in T && t' in T && R(s, t) && R(s, t') ensures Connected(T, t, t') {
      ConnectedSelf(T, t);
    }
    forall u, v | u in S && v in S && Adjacent(u, v)
      ensures exists u', v' :: u' in T && v' in T && R(u, u') && R(v, v') && Connected(T, u', v')
    {
      var r := SharedEnd(u, v);
      if r == i.End() {
        assert R(u, m) && R(v, m);
        ConnectedSelf(T, m);
      } else {
        var e := if IsEndOf(u, r) then u else v;
        assert IsEndOf(if e == i || e == j then m else e, r);
        AdjacentShare(S, T, R, u, v, r);
      }
    }
    SimulationJoins(S, T, R);
  }

  lemma MergeBackward(S: set<Seg>, i: Seg, j: Seg)
    requires AllOrtho(S) && i in S && j in S && Abut(i, j)
    ensures forall p, q :: Joined(S - {i, j} + {Merged(i, j)}, p, q) ==> Joined(S, p, q)
    ensures forall p :: Covered(S - {i, j} + {Merged(i, j)}, p) ==> Covered(S, p)
  {
    var m := Merged(i, j);
    var T := S - {i, j} + {m};
    MergeGeometry(i, j);
    var R := (t: Seg, s: Seg) => if t == m then s == i || s == j else s == t;
    forall t, q | t in T && On(t, q) ensures exists s :: s in S && R(t, s) && On(s, q) {
      if t == m { assert R(t, i) && R(t, j); } else { assert R(t, t); }
    }
    forall t, s, s' | t in T && s in S && s' in S && R(t, s) && R(t, s') ensures Connected(S, s, s') {
      if s == s' { ConnectedSelf(S, s); } else { ConnectedAdjacent(S, s, s'); }
    }
    forall u, v | u in T && v in T && Adjacent(u, v)
      ensures exists u', v' :: u' in S && v' in S && R(u, u') && R(v, v') && Connected(S, u', v')
    {
      var r := SharedEnd(u, v);
      var e := if IsEndOf(u, r) then u else v;
      if e == m {
        assert IsEndOf(i, r) || IsEndOf(j, r);
      } else {
        assert e in S;
      }
      AdjacentShare(T, S, R, u, v, r);
    }
    SimulationJoins(T, S, R);
  }

  /** The joint must be free: two abutting wires with a third hanging at the joint are one net with
      it, and no longer are once merged over it. */
  lemma MergeNeedsLoneJoint()
    ensures var i, j, k := Seg(0.0, 0.0, 1.0, 0.0), Seg(1.0, 0.0, 2.0, 0.0), Seg(1.0, -1.0, 1.0, 1.0);
            Abut(i, j) && !SameNets({i, j, k}, {i, j, k} - {i, j} + {Merged(i, j)})
  {
    var i, j, k := Seg(0.0, 0.0, 1.0, 0.0), Seg(1.0, 0.0, 2.0, 0.0), Seg(1.0, -1.0, 1.0, 1.0);
    var S, m := {i, j, k}, Merged(i, j);
    var T := S - {i, j} + {m};
    assert T == {k, m};
    var p, q := i.Start(), k.Start();
    ConnectedAdjacent(S, i, k);
    assert Joined(S, p, q);
    if Joined(T, p, q) {
      var u, v :| u in T && v in T && On(u, p) && On(v, q) && Connected(T, u, v);
      var path :| Chain(T, path) && path[0] == u && path[|path| - 1] == v;
      StaysOn(T, path, m, |path| - 1);
      assert false;
    }
  }

  /** Breaking must come first: a short wire lying on a long one may carry the only contact with a
      wire that crosses both at its end, and deleting it cuts the net. */
  lemma DeleteNeedsBreaks()
    ensures var a, b, v := Seg(0.0, 0.0, 10.0, 0.0), Seg(3.0, 0.0, 5.0, 0.0), Seg(3.0, -1.0, 3.0, 1.0);
            Includes(a, b) && !NoBreaks({a, b, v}) && !SameNets({a, b, v}, {a, v})
  {
    var a, b, v := Seg(0.0, 0.0, 10.0, 0.0), Seg(3.0, 0.0, 5.0, 0.0), Seg(3.0, -1.0, 3.0, 1.0);
    var S, T := {a, b, v}, {a, v};
    assert Inside(a, b.Start());
    var p, q := a.Start(), v.Start();
    ConnectedAdjacent(S, a, b);
    ConnectedAdjacent(S, b, v);
    ConnectedTrans(S, a, b, v);
    assert Joined(S, p, q);
    if Joined(T, p, q) {
      var u, w :| u in T && w in T && On(u, p) && On(w, q) && Connected(T, u, w);
      var path :| Chain(T, path) && path[0] == u && path[|path| - 1] == w;
      StaysOn(T, path, a, |path| - 1);
      assert false;
    }
  }

  /** The test by which the netlister lets a net pass from one wire to the next. */
  predicate Touching(u: Seg, v: Seg) {
    Touch(u, v.Start()) || Touch(u, v.End()) || Touch(v, u.Start()) || Touch(v, u.End())
  }

  /** u has no length and v ends at its height. */
  predicate Level(u: Seg, v: Seg) {
    u.Degenerate() && (v.y1 == u.y1 || v.y2 == u.y1)
  }

  /** The netlister's test is adjacency, except that it also lets a zero-length wire touch every wire with an
      endpoint at its height. */
  lemma TouchingExactly(u: Seg, v: Seg)
    requires u.Ortho() && v.Ortho()
    ensures Touching(u, v) <==> Adjacent(u, v) || Level(u, v) || Level(v, u)
  {
    EndTouches(u, v);
    EndTouches(v, u);
  }

  lemma EndTouches(u: Seg, v: Seg)
    requires u.Ortho() && v.Ortho()
    ensures Touch(u, v.Start()) || Touch(u, v.End()) <==> On(u, v.Start()) || On(u, v.End()) || Level(u, v)
  {
    hide Touch;
    TouchOrtho(u, v.Start());
    TouchOrtho(u, v.End());
    if u.Degenerate() {
      TouchOnDegenerate(u, v.Start());
      TouchOnDegenerate(u, v.End());
    }
  }

  /** The box test used in these definitions is membership in the true segment. */
  lemma JoinedMeans(S: set<Seg>, p: Point, q: Point)
    requires AllOrtho(S)
    ensures Joined(S, p, q) <==>
            exists u, v :: u in S && v in S && OnSegment(u, p) && OnSegment(v, q) && Connected(S, u, v)
    ensures Covered(S, p) <==> exists s :: s in S && OnSegment(s, p)
  {
    forall s, r | s in S ensures On(s, r) <==> OnSegment(s, r) {
      OnIsOnSegment(s, r);
    }
  }

  /** A chain cannot leave a wire that is adjacent to no other. */
  lemma {:induction false} StaysOn(T: set<Seg>, path: seq<Seg>, m: Seg, n: nat)
    requires Chain(T, path) && path[0] == m && n < |path|
    requires forall t :: t in T && t != m ==> !Adjacent(m, t)
    ensures path[n] == m
  {
    if n == 0 {
    } else {
      StaysOn(T, path, m, n - 1);
      assert Adjacent(path[n - 1], path[n]);
    }
  }
}
