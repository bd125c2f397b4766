/** The wire array and what trimming does to it, step by step, as relations on sequences. */
module Wires {
  import opened Geometry
  import opened Nets

  const UNSELECTED := 0
  const SELECTED := 1
  const SELECTED1 := 2
  const SELECTED2 := 4

  /** `ignored` is the value of skip_wire(); `prop` stands for prop_ptr, bus, node and flags,
      which a split copies. */
  datatype Wire = Wire(seg: Seg, end1: int, end2: int, sel: int, ignored: bool, prop: string, id: nat)

  predicate Live(ws: seq<Wire>, n: int) {
    0 <= n < |ws| && !ws[n].ignored
  }

  /** The segments of the wires trimming looks at. */
  ghost function Segs(ws: seq<Wire>): set<Seg> {
    set n | 0 <= n < |ws| && Live(ws, n) :: ws[n].seg
  }

  lemma SegsIndex(ws: seq<Wire>, s: Seg) returns (n: nat)
    requires s in Segs(ws)
    ensures Live(ws, n) && ws[n].seg == s
  {
    n :| 0 <= n < |ws| && Live(ws, n) && ws[n].seg == s;
  }

  predicate SameBystander(w: Wire, v: Wire) {
    w.ignored == v.ignored && (w.ignored ==> w == v.(end1 := w.end1, end2 := w.end2))
  }

  /** The wires trimming must leave alone, in order, without their endpoint counters. */
  function Bystanders(ws: seq<Wire>): seq<Wire> {
    if |ws| == 0 then []
    else
      var w := ws[|ws| - 1];
      Bystanders(ws[..|ws| - 1]) + if w.ignored then [w.(end1 := 0, end2 := 0)] else []
  }

  lemma {:induction false} BystandersPointwise(ws: seq<Wire>, ws': seq<Wire>)
    requires |ws| == |ws'| && forall n :: 0 <= n < |ws| ==> SameBystander(ws[n], ws'[n])
    ensures Bystanders(ws) == Bystanders(ws')
  {
    if |ws| == 0 {
    } else {
      BystandersPointwise(ws[..|ws| - 1], ws'[..|ws| - 1]);
      assert SameBystander(ws[|ws| - 1], ws'[|ws| - 1]);
    }
  }

  /** Identities are distinct and none is ahead of the counter that hands them out. */
  ghost predicate FreshIds(ws: seq<Wire>, counter: nat) {
    && (forall n :: 0 <= n < |ws| ==> ws[n].id <= counter)
    && (forall n, m :: 0 <= n < m < |ws| ==> ws[n].id != ws[m].id)
  }

  // ---- splitting ----

  /** Selection of the new head and of the shortened wire when a wire is cut in two. */
  function SplitSel(sel: int): (int, int) {
    if sel == SELECTED1 then (SELECTED1, 0)
    else if sel == SELECTED2 then (0, SELECTED2)
    else if sel == SELECTED then (SELECTED, SELECTED)
    else (0, 0)
  }

  predicate StartSelected(sel: int) { sel == SELECTED || sel == SELECTED1 }
  predicate EndSelected(sel: int) { sel == SELECTED || sel == SELECTED2 }

  /** A cut keeps the two original endpoints selected as they were, and selects the new joint
      exactly when the whole wire was selected. */
  lemma SplitSelKeepsEndpoints(sel: int)
    ensures StartSelected(SplitSel(sel).0) <==> StartSelected(sel)
    ensures EndSelected(SplitSel(sel).1) <==> EndSelected(sel)
    ensures EndSelected(SplitSel(sel).0) <==> sel == SELECTED
    ensures StartSelected(SplitSel(sel).1) <==> sel == SELECTED
  {
  }

  /** The selection a part s of wire w has: that of w if w is selected as a whole, else what is left of a selected
      end. */
  function PartSel(w: Wire, s: Seg): int {
    if w.sel == SELECTED || s == w.seg then w.sel
    else if w.sel == SELECTED1 && s.Start() == w.seg.Start() then SELECTED1
    else if w.sel == SELECTED2 && s.End() == w.seg.End() then SELECTED2
    else UNSELECTED
  }

  lemma PartSelTrans(w: Wire, k: Wire, s: Seg)
    requires Includes(w.seg, k.seg) && Includes(k.seg, s) && k.sel == PartSel(w, k.seg)
    ensures PartSel(k, s) == PartSel(w, s)
  {
    if s == w.seg {
      assert k.seg == w.seg;
    }
  }

  function SplitHead(w: Wire, p: Point, id: nat): Wire {
    w.(seg := Head(w.seg, p), end1 := -1, end2 := -1, sel := SplitSel(w.sel).0, id := id)
  }

  function SplitTail(w: Wire, p: Point): Wire {
    w.(seg := Tail(w.seg, p), end1 := -1, end2 := -1, sel := SplitSel(w.sel).1)
  }

  /** Wire j cut at p: the head is appended, the tail stays at j. */
  function SplitAt(ws: seq<Wire>, j: nat, p: Point, id: nat): seq<Wire>
    requires j < |ws|
  {
    ws[j := SplitTail(ws[j], p)] + [SplitHead(ws[j], p, id)]
  }

  lemma SplitSegs(ws: seq<Wire>, j: nat, p: Point, id: nat)
    requires Live(ws, j)
    ensures var T, w := Segs(SplitAt(ws, j, p, id)), ws[j].seg;
            && Segs(ws) - {w} <= T <= Segs(ws) + {Head(w, p), Tail(w, p)}
            && Head(w, p) in T && Tail(w, p) in T
  {
    var ws' := SplitAt(ws, j, p, id);
    var T, w := Segs(ws'), ws[j].seg;
    forall s | s in Segs(ws) - {w} ensures s in T {
      var n := SegsIndex(ws, s);
      assert ws'[n] == ws[n] && Live(ws', n);
    }
    assert Live(ws', |ws|) && ws'[|ws|].seg == Head(w, p);
    assert Live(ws', j) && ws'[j].seg == Tail(w, p);
    forall s | s in T ensures s in Segs(ws) + {Head(w, p), Tail(w, p)} {
      var n := SegsIndex(ws', s);
      if n != j && n < |ws| { assert Live(ws, n); }
    }
  }

  /** Everything a phase of trimming keeps. */
  ghost predicate Preserved(ws: seq<Wire>, ws': seq<Wire>) {
    && SameNets(Segs(ws), Segs(ws'))
    && SameCover(Segs(ws), Segs(ws'))
    && AllOrtho(Segs(ws'))
    && Bystanders(ws) == Bystanders(ws')
  }

  lemma PreservedTrans(a: seq<Wire>, b: seq<Wire>, c: seq<Wire>)
    requires Preserved(a, b) && Preserved(b, c)
    ensures Preserved(a, c)
  {
    SameNetsTrans(Segs(a), Segs(b), Segs(c));
  }

  lemma SameNetsTrans(A: set<Seg>, B: set<Seg>, C: set<Seg>)
    requires SameNets(A, B) && SameCover(A, B) && SameNets(B, C) && SameCover(B, C)
    ensures SameNets(A, C) && SameCover(A, C)
  {
    forall p, q ensures Joined(A, p, q) <==> Joined(C, p, q) {
      assert Joined(A, p, q) <==> Joined(B, p, q);
    }
    forall p ensures Covered(A, p) <==> Covered(C, p) {
      assert Covered(A, p) <==> Covered(B, p);
    }
  }

  lemma SplitPreserves(ws: seq<Wire>, i: nat, j: nat, p: Point, id: nat)
    requires AllOrtho(Segs(ws)) && Live(ws, i) && Live(ws, j)
    requires IsEndOf(ws[i].seg, p) && Inside(ws[j].seg, p)
    ensures Preserved(ws, SplitAt(ws, j, p, id))
    ensures forall q :: HasEnd(Segs(ws), q) <==> HasEnd(Segs(SplitAt(ws, j, p, id)), q)
  {
    var ws' := SplitAt(ws, j, p, id);
    SplitSegs(ws, j, p, id);
    assert ws[i].seg in Segs(ws) && HasEnd(Segs(ws), p);
    SplitKeepsNets(Segs(ws), Segs(ws'), ws[j].seg, p);
    BystandersPointwise(ws, ws'[..|ws|]);
    assert ws'[..|ws'| - 1] == ws'[..|ws|];
  }

  // ---- why breaking ends ----

  ghost function EndPoints(ws: seq<Wire>): set<Point> {
    (set n | 0 <= n < |ws| && Live(ws, n) :: ws[n].seg.Start())
        + (set n | 0 <= n < |ws| && Live(ws, n) :: ws[n].seg.End())
  }

  lemma EndPointsHas(ws: seq<Wire>, q: Point)
    requires HasEnd(Segs(ws), q)
    ensures q in EndPoints(ws)
  {
    var e :| e in Segs(ws) && IsEndOf(e, q);
    var n := SegsIndex(ws, e);
  }

  ghost function Cuts(w: Wire, E: set<Point>): nat {
    if w.ignored then 0 else |set q | q in E && Inside(w.seg, q)|
  }

  /** The number of places where some endpoint still lies strictly inside a wire. */
  ghost function CutsLeft(ws: seq<Wire>, E: set<Point>): nat {
    if |ws| == 0 then 0 else CutsLeft(ws[..|ws| - 1], E) + Cuts(ws[|ws| - 1], E)
  }

  lemma {:induction false} CutsLeftUpdate(ws: seq<Wire>, j: nat, w: Wire, E: set<Point>)
    requires j < |ws|
    ensures CutsLeft(ws[j := w], E) + Cuts(ws[j], E) == CutsLeft(ws, E) + Cuts(w, E)
  {
    var n := |ws| - 1;
    if j < n {
      assert ws[j := w][..n] == ws[..n][j := w];
      CutsLeftUpdate(ws[..n], j, w, E);
    } else {
      assert ws[j := w][..n] == ws[..n];
    }
  }

  /** A cut uses up the endpoint it is made at and creates no other. */
  lemma SplitUsesACut(ws: seq<Wire>, j: nat, p: Point, id: nat, E: set<Point>)
    requires Live(ws, j) && ws[j].seg.Ortho() && Inside(ws[j].seg, p) && p in E
    ensures CutsLeft(SplitAt(ws, j, p, id), E) < CutsLeft(ws, E)
  {
    var w := ws[j];
    var h, t := SplitHead(w, p, id), SplitTail(w, p);
    SplitGeometry(w.seg, p);
    var whole := set q | q in E && Inside(w.seg, q);
    var inHead, inTail := (set q | q in E && Inside(h.seg, q)), (set q | q in E && Inside(t.seg, q));
    assert whole == inHead + inTail + {p};
    assert inHead !! inTail && p !in inHead + inTail;
    CutsLeftUpdate(ws, j, t, E);
    assert SplitAt(ws, j, p, id)[..|ws|] == ws[j := t];
  }

  // ---- deleting flagged wires ----

  /** wire_delete_compact: the unflagged wires, in order. */
  function Keep(ws: seq<Wire>, flag: seq<bool>): (r: seq<Wire>)
    requires |flag| == |ws|
    ensures |r| <= |ws|
  {
    if |ws| == 0 then []
    else
      var n := |ws| - 1;
      Keep(ws[..n], flag[..n]) + if flag[n] then [] else [ws[n]]
  }

  /** The old number of each wire that is kept. */
  function Origin(flag: seq<bool>): seq<nat> {
    if |flag| == 0 then []
    else
      var n := |flag| - 1;
      Origin(flag[..n]) + if flag[n] then [] else [n]
  }

  lemma {:induction false} OriginSorted(flag: seq<bool>)
    ensures forall a :: 0 <= a < |Origin(flag)| ==> Origin(flag)[a] < |flag| && !flag[Origin(flag)[a]]
    ensures forall a, b :: 0 <= a < b < |Origin(flag)| ==> Origin(flag)[a] < Origin(flag)[b]
  {
    if |flag| == 0 {
    } else {
      OriginSorted(flag[..|flag| - 1]);
    }
  }

  lemma {:induction false} OriginKeeps(ws: seq<Wire>, flag: seq<bool>)
    requires |flag| == |ws|
    ensures |Origin(flag)| == |Keep(ws, flag)|
    ensures forall a :: 0 <= a < |Origin(flag)| ==> Origin(flag)[a] < |ws| && Keep(ws, flag)[a] == ws[Origin(flag)[a]]
  {
    hide Keep, Origin;
    KeepStep(ws, flag);
    if |ws| == 0 {
    } else {
      var n := |ws| - 1;
      OriginKeeps(ws[..n], flag[..n]);
    }
  }

  lemma KeepStep(ws: seq<Wire>, flag: seq<bool>)
    requires |flag| == |ws|
    ensures |ws| == 0 ==> Keep(ws, flag) == [] && Origin(flag) == []
    ensures |ws| > 0 ==> var n := |ws| - 1;
                         && Keep(ws, flag) == Keep(ws[..n], flag[..n]) + (if flag[n] then [] else [ws[n]])
                         && Origin(flag) == Origin(flag[..n]) + (if flag[n] then [] else [n])
  {
  }

  lemma {:induction false} OriginHas(flag: seq<bool>, n: nat)
    requires n < |flag| && !flag[n]
    ensures n in Origin(flag)
  {
    if n == |flag| - 1 {
    } else {
      OriginHas(flag[..|flag| - 1], n);
    }
  }

  /** Keep renumbers the unflagged wires in increasing order and drops no other. */
  lemma KeepOrigin(ws: seq<Wire>, flag: seq<bool>) returns (f: seq<nat>)
    requires |flag| == |ws|
    ensures |f| == |Keep(ws, flag)|
    ensures forall a :: 0 <= a < |f| ==> f[a] < |ws| && !flag[f[a]] && Keep(ws, flag)[a] == ws[f[a]]
    ensures forall a, b :: 0 <= a < b < |f| ==> f[a] < f[b]
    ensures forall n {:trigger n in f} :: 0 <= n < |ws| && !flag[n] ==> n in f
  {
    hide Keep, Origin;
    f := Origin(flag);
    OriginSorted(flag);
    OriginKeeps(ws, flag);
    forall n | 0 <= n < |ws| && !flag[n] ensures n in f {
      OriginHas(flag, n);
    }
  }

  lemma {:induction false} KeepAll(ws: seq<Wire>, flag: seq<bool>)
    requires |flag| == |ws|
    ensures |Keep(ws, flag)| == |ws| <==> forall n :: 0 <= n < |ws| ==> !flag[n]
    ensures |Keep(ws, flag)| == |ws| ==> Keep(ws, flag) == ws
  {
    if |ws| == 0 {
    } else {
      var n := |ws| - 1;
      KeepAll(ws[..n], flag[..n]);
      if |Keep(ws, flag)| == |ws| {
        forall m | 0 <= m < |ws| ensures !flag[m] {
          if m < n { assert !flag[..n][m]; }
        }
      }
    }
  }

  lemma {:induction false} KeepBystanders(ws: seq<Wire>, flag: seq<bool>)
    requires |flag| == |ws| && forall n :: 0 <= n < |ws| && flag[n] ==> Live(ws, n)
    ensures Bystanders(Keep(ws, flag)) == Bystanders(ws)
  {
    if |ws| == 0 {
    } else {
      var n := |ws| - 1;
      forall m | 0 <= m < n && flag[..n][m] ensures Live(ws[..n], m) {
        assert Live(ws, m);
      }
      KeepBystanders(ws[..n], flag[..n]);
      if flag[n] {
        assert Live(ws, n);
        assert Keep(ws, flag) == Keep(ws[..n], flag[..n]);
      } else {
        var kept := Keep(ws, flag);
        assert kept[|kept| - 1] == ws[n] && kept[..|kept| - 1] == Keep(ws[..n], flag[..n]);
      }
    }
  }

  lemma KeepIds(ws: seq<Wire>, flag: seq<bool>, counter: nat)
    requires |flag| == |ws| && FreshIds(ws, counter)
    ensures FreshIds(Keep(ws, flag), counter)
  {
    var f := KeepOrigin(ws, flag);
  }

  predicate Kept(ws: seq<Wire>, flag: seq<bool>, n: int)
    requires |flag| == |ws|
  {
    Live(ws, n) && !flag[n]
  }

  ghost function KeptSegs(ws: seq<Wire>, flag: seq<bool>): set<Seg>
    requires |flag| == |ws|
  {
    set n | 0 <= n < |ws| && Kept(ws, flag, n) :: ws[n].seg
  }

  lemma KeptSegsIndex(ws: seq<Wire>, flag: seq<bool>, s: Seg) returns (n: nat)
    requires |flag| == |ws| && s in KeptSegs(ws, flag)
    ensures Kept(ws, flag, n) && ws[n].seg == s
  {
    n :| 0 <= n < |ws| && Kept(ws, flag, n) && ws[n].seg == s;
  }

  lemma KeepSegs(ws: seq<Wire>, flag: seq<bool>)
    requires |flag| == |ws|
    ensures Segs(Keep(ws, flag)) == KeptSegs(ws, flag)
  {
    var f := KeepOrigin(ws, flag);
    var kept := Keep(ws, flag);
    forall s | s in Segs(kept) ensures s in KeptSegs(ws, flag) {
      var a := SegsIndex(kept, s);
      assert Kept(ws, flag, f[a]);
    }
    forall s | s in KeptSegs(ws, flag) ensures s in Segs(kept) {
      var n := KeptSegsIndex(ws, flag, s);
      assert n in f;
      var a :| 0 <= a < |f| && f[a] == n;
      assert Live(kept, a);
    }
  }

  // ---- the normal form ----

  /** Neither wire breaks or includes the other. */
  predicate Apart(a: Seg, b: Seg) {
    && !Inside(a, b.Start()) && !Inside(a, b.End()) && !Includes(a, b)
    && !Inside(b, a.Start()) && !Inside(b, a.End()) && !Includes(b, a)
  }

  ghost predicate AllApart(ws: seq<Wire>) {
    forall n, m :: Live(ws, n) && Live(ws, m) && n != m ==> Apart(ws[n].seg, ws[m].seg)
  }

  ghost predicate KeptApart(ws: seq<Wire>, flag: seq<bool>)
    requires |flag| == |ws|
  {
    forall n, m :: Kept(ws, flag, n) && Kept(ws, flag, m) && n != m ==> Apart(ws[n].seg, ws[m].seg)
  }

  lemma KeepApart(ws: seq<Wire>, flag: seq<bool>)
    requires |flag| == |ws| && KeptApart(ws, flag)
    ensures AllApart(Keep(ws, flag))
  {
    var f := KeepOrigin(ws, flag);
    var kept := Keep(ws, flag);
    forall a, b | Live(kept, a) && Live(kept, b) && a != b ensures Apart(kept[a].seg, kept[b].seg) {
      assert Kept(ws, flag, f[a]) && Kept(ws, flag, f[b]);
      assert f[a] != f[b] by { if a < b { assert f[a] < f[b]; } else { assert f[b] < f[a]; } }
    }
  }

  lemma ApartNoBreaks(ws: seq<Wire>)
    requires AllApart(ws) && AllOrtho(Segs(ws))
    ensures NoBreaks(Segs(ws))
  {
    forall s, e | s in Segs(ws) && e in Segs(ws) ensures !Inside(s, e.Start()) && !Inside(s, e.End()) {
      var n := SegsIndex(ws, s);
      var m := SegsIndex(ws, e);
      if n != m { assert Apart(s, e); }
    }
  }

  /** Some live wire not parallel to w passes through p. */
  ghost predicate Tapped(ws: seq<Wire>, w: Seg, p: Point) {
    exists k :: Live(ws, k) && On(ws[k].seg, p) && !Parallel(w, ws[k].seg)
  }

  /** What trimming leaves: wires pairwise apart, and every collinear end-to-start joint tapped. */
  ghost predicate Normal(ws: seq<Wire>) {
    && AllApart(ws)
    && forall i, j :: Live(ws, i) && Live(ws, j) && i != j && ws[i].seg.End() == ws[j].seg.Start()
                      && Parallel(ws[i].seg, ws[j].seg)
                      ==> Tapped(ws, ws[i].seg, ws[i].seg.End())
  }

  lemma DeletePreserves(ws: seq<Wire>, flag: seq<bool>)
    requires |flag| == |ws| && AllOrtho(Segs(ws)) && NoBreaks(Segs(ws))
    requires forall n :: 0 <= n < |ws| && flag[n] ==> Live(ws, n) && IncludedIn(KeptSegs(ws, flag), ws[n].seg)
    ensures Preserved(ws, Keep(ws, flag))
  {
    var S, T := Segs(ws), KeptSegs(ws, flag);
    KeepSegs(ws, flag);
    KeepBystanders(ws, flag);
    forall s | s in T ensures s in S {
      var n := KeptSegsIndex(ws, flag, s);
    }
    forall s | s in S ensures IncludedIn(T, s) {
      var n := SegsIndex(ws, s);
      if !flag[n] {
        assert Kept(ws, flag, n) && s in T && Includes(s, s);
      }
    }
    DeleteKeepsNets(S, T);
  }
}
