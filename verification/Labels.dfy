/** Which wires the properties, the identity and the selection of a trimmed wire come from. */
module Labels {
  import opened Geometry
  import opened Nets
  import opened Wires
  import opened Merging

  /** v runs within a wire of ws, carries its properties, and is selected as that part of it was. */
  ghost predicate PartOf(ws: seq<Wire>, v: Wire) {
    exists m :: Live(ws, m) && ws[m].prop == v.prop && Includes(ws[m].seg, v.seg) && v.sel == PartSel(ws[m], v.seg)
  }

  /** v starts where a wire of ws starts, includes it, and carries its properties and identity. */
  ghost predicate StartsWith(ws: seq<Wire>, v: Wire) {
    exists m :: Live(ws, m) && ws[m].prop == v.prop && ws[m].id == v.id && ws[m].seg.Start() == v.seg.Start()
                && Includes(v.seg, ws[m].seg)
  }

  /** v starts on a wire of ws and carries its properties. */
  ghost predicate RootedIn(ws: seq<Wire>, v: Wire) {
    exists m :: Live(ws, m) && ws[m].prop == v.prop && On(ws[m].seg, v.seg.Start())
  }

  ghost predicate NoNewEnds(ws: seq<Wire>, ws': seq<Wire>) {
    forall q :: HasEnd(Segs(ws'), q) ==> HasEnd(Segs(ws), q)
  }

  /** Breaking and deleting leave only parts of wires and no new endpoints, ... */
  ghost predicate Within(ws: seq<Wire>, ws': seq<Wire>) {
    && NoNewEnds(ws, ws')
    && forall n {:trigger PartOf(ws, ws'[n])} :: Live(ws', n) ==> PartOf(ws, ws'[n])
  }

  /** ... merging leaves starts alone, ... */
  ghost predicate SameStarts(ws: seq<Wire>, ws': seq<Wire>) {
    forall n {:trigger StartsWith(ws, ws'[n])} :: Live(ws', n) ==> StartsWith(ws, ws'[n])
  }

  /** ... and so every wire starts at an old endpoint, on a wire it has its properties from. */
  ghost predicate Rooted(ws: seq<Wire>, ws': seq<Wire>) {
    forall n {:trigger RootedIn(ws, ws'[n])} :: Live(ws', n) ==>
      RootedIn(ws, ws'[n]) && HasEnd(Segs(ws), ws'[n].seg.Start())
  }

  /** v is the rest of the wire of ws with its identity, which ends where that one ends. */
  ghost predicate TailOf(ws: seq<Wire>, v: Wire) {
    exists m :: Live(ws, m) && ws[m].id == v.id && Includes(ws[m].seg, v.seg) && ws[m].seg.End() == v.seg.End()
  }

  /** Breaking and deleting leave an identity up to c with the end of its wire. */
  ghost predicate Traced(ws: seq<Wire>, c: nat, ws': seq<Wire>) {
    forall n {:trigger TailOf(ws, ws'[n])} :: Live(ws', n) && ws'[n].id <= c ==> TailOf(ws, ws'[n])
  }

  /** v starts on the wire of ws with its identity and reaches the end of it. */
  ghost predicate Continues(ws: seq<Wire>, v: Wire) {
    exists m :: Live(ws, m) && ws[m].id == v.id && On(ws[m].seg, v.seg.Start()) && On(v.seg, ws[m].seg.End())
  }

  ghost predicate Identified(ws: seq<Wire>, c: nat, ws': seq<Wire>) {
    forall n {:trigger Continues(ws, ws'[n])} :: Live(ws', n) && ws'[n].id <= c ==> Continues(ws, ws'[n])
  }

  /** Every point of v is on the net of wire m of ws. */
  ghost predicate OnNetOf(ws: seq<Wire>, m: int, v: Wire)
    requires Live(ws, m)
  {
    forall p :: On(v.seg, p) ==> exists u :: u in Segs(ws) && On(u, p) && Connected(Segs(ws), ws[m].seg, u)
  }

  /** v carries the properties of a wire of ws and lies on its net. */
  ghost predicate StaysOnNet(ws: seq<Wire>, v: Wire) {
    exists m :: Live(ws, m) && ws[m].prop == v.prop && OnNetOf(ws, m, v)
  }

  ghost predicate LabelsStayOnNets(ws: seq<Wire>, ws': seq<Wire>) {
    forall n {:trigger StaysOnNet(ws, ws'[n])} :: Live(ws', n) ==> StaysOnNet(ws, ws'[n])
  }

  /** Where the nets are kept, a label that is left is on a net that carried it before. */
  lemma RootedStaysOnNet(ws: seq<Wire>, ws': seq<Wire>)
    requires Rooted(ws, ws') && SameNets(Segs(ws), Segs(ws')) && AllOrtho(Segs(ws'))
    ensures LabelsStayOnNets(ws, ws')
  {
    forall n | Live(ws', n) ensures StaysOnNet(ws, ws'[n]) {
      assert RootedIn(ws, ws'[n]);
      var v := ws'[n];
      var m :| Live(ws, m) && ws[m].prop == v.prop && On(ws[m].seg, v.seg.Start());
      assert v.seg in Segs(ws') && ws[m].seg in Segs(ws);
      forall p | On(v.seg, p) ensures exists u :: u in Segs(ws) && On(u, p) && Connected(Segs(ws), ws[m].seg, u) {
        NetThroughEnd(Segs(ws), Segs(ws'), v.seg, ws[m].seg, p);
      }
      assert OnNetOf(ws, m, v);
    }
  }

  /** The points of a new wire are on the net of any old wire through its start, which is an old endpoint. */
  lemma NetThroughEnd(before: set<Seg>, after: set<Seg>, v: Seg, w: Seg, p: Point)
    requires SameNets(before, after) && v in after && v.Ortho() && w in before && On(v, p)
    requires On(w, v.Start()) && HasEnd(before, v.Start())
    ensures exists u :: u in before && On(u, p) && Connected(before, w, u)
  {
    ConnectedSelf(after, v);
    assert Joined(after, v.Start(), p);
    assert Joined(before, v.Start(), p);
    var a, u :| a in before && u in before && On(a, v.Start()) && On(u, p) && Connected(before, a, u);
    Meet(before, w, a, v.Start());
    ConnectedTrans(before, w, a, u);
  }

  /** s is a part of wire m of ws that v is made of. */
  ghost predicate SharedPart(ws: seq<Wire>, v: Seg, m: int, s: Seg) {
    Live(ws, m) && s.Ortho() && Includes(ws[m].seg, s) && Includes(v, s) && SameKind(s, v)
  }

  /** A selected wire has a part that was selected the same way; an unselected one is made of unselected parts. */
  ghost predicate SelectionOf(ws: seq<Wire>, v: Wire) {
    && (v.sel != UNSELECTED ==> exists m, s :: SharedPart(ws, v.seg, m, s) && PartSel(ws[m], s) == v.sel)
    && (v.sel == UNSELECTED ==> forall p :: On(v.seg, p) ==> UnselectedAt(ws, v.seg, p))
  }

  ghost predicate UnselectedAt(ws: seq<Wire>, v: Seg, p: Point) {
    exists m, s :: SharedPart(ws, v, m, s) && On(s, p) && PartSel(ws[m], s) == UNSELECTED
  }

  ghost predicate SelectionKept(ws: seq<Wire>, ws': seq<Wire>) {
    forall n {:trigger SelectionOf(ws, ws'[n])} :: Live(ws', n) ==> SelectionOf(ws, ws'[n])
  }

  /** What one merge phase does to the selection, exactly. */
  ghost predicate Reselected(ws: seq<Wire>, ws': seq<Wire>) {
    forall n {:trigger SelectedFrom(ws, ws'[n])} :: Live(ws', n) ==>
      SelectedFrom(ws, ws'[n]) && Descends(Segs(ws), ws'[n].seg)
  }

  /** Two wires have a stretch in common. */
  ghost predicate Overlap(a: Seg, b: Seg) {
    exists s: Seg :: s.Ortho() && !s.Degenerate() && Includes(a, s) && Includes(b, s)
  }

  /** No selected wire runs along an unselected one, and wires are selected as a whole or not at all. */
  ghost predicate Undisputed(ws: seq<Wire>) {
    && (forall m :: Live(ws, m) ==> ws[m].sel == SELECTED || ws[m].sel == UNSELECTED)
    && (forall m, k :: Live(ws, m) && Live(ws, k) && Overlap(ws[m].seg, ws[k].seg) ==> ws[m].sel == ws[k].sel)
  }

  /** v runs along a selected wire of ws. */
  ghost predicate RunsAlongSelected(ws: seq<Wire>, v: Seg) {
    exists m, s :: SharedPart(ws, v, m, s) && !s.Degenerate() && ws[m].sel == SELECTED
  }

  /** Where no selected wire runs along an unselected one, the wires left are selected exactly where wires were. */
  lemma SelectedExactlyWhen(ws: seq<Wire>, ws': seq<Wire>, n: nat)
    requires SelectionKept(ws, ws') && Undisputed(ws)
    requires Live(ws', n) && ws'[n].seg.Ortho() && !ws'[n].seg.Degenerate()
    ensures ws'[n].sel != UNSELECTED <==> RunsAlongSelected(ws, ws'[n].seg)
  {
    hide Includes, PartSel, Overlap;
    var v := ws'[n];
    assert SelectionOf(ws, v);
    if v.sel != UNSELECTED {
      var m, s :| SharedPart(ws, v.seg, m, s) && PartSel(ws[m], s) == v.sel;
      WholeOrNot(ws[m], s);
    } else if RunsAlongSelected(ws, v.seg) {
      var m, s :| SharedPart(ws, v.seg, m, s) && !s.Degenerate() && ws[m].sel == SELECTED;
      MeetUnselected(ws, v, m, s);
    }
  }

  lemma WholeOrNot(w: Wire, s: Seg)
    requires w.sel == SELECTED || w.sel == UNSELECTED
    ensures PartSel(w, s) == w.sel
  {
  }

  lemma MeetUnselected(ws: seq<Wire>, v: Wire, m: int, s: Seg)
    requires v.seg.Ortho() && !v.seg.Degenerate() && v.sel == UNSELECTED && SelectionOf(ws, v)
    requires SharedPart(ws, v.seg, m, s) && !s.Degenerate()
    ensures exists k :: Live(ws, k) && Overlap(ws[m].seg, ws[k].seg) && (Undisputed(ws) ==> ws[k].sel == UNSELECTED)
  {
    hide PartSel, SelectionOf, Includes, Undisputed;
    var p := Point((s.x1 + s.x2) / 2.0, (s.y1 + s.y2) / 2.0);
    MiddleOn(v.seg, s);
    var k, t := UnselectedPartAt(ws, v, p);
    var both := CommonPart(v.seg, s, t, p);
    IncludesTrans(ws[m].seg, s, both);
    IncludesTrans(ws[k].seg, t, both);
    if Undisputed(ws) {
      WholeIfUndisputed(ws, k);
      WholeOrNot(ws[k], t);
    }
  }

  lemma WholeIfUndisputed(ws: seq<Wire>, k: int)
    requires Undisputed(ws) && Live(ws, k)
    ensures ws[k].sel == SELECTED || ws[k].sel == UNSELECTED
  {
  }

  lemma MiddleOn(v: Seg, s: Seg)
    requires Includes(v, s) && s.Ortho()
    ensures On(v, Point((s.x1 + s.x2) / 2.0, (s.y1 + s.y2) / 2.0))
  {
  }

  lemma UnselectedPartAt(ws: seq<Wire>, v: Wire, p: Point) returns (k: int, t: Seg)
    requires SelectionOf(ws, v) && v.sel == UNSELECTED && On(v.seg, p)
    ensures SharedPart(ws, v.seg, k, t) && On(t, p) && PartSel(ws[k], t) == UNSELECTED
  {
    hide PartSel, On, Includes;
    assert UnselectedAt(ws, v.seg, p);
    k, t :| SharedPart(ws, v.seg, k, t) && On(t, p) && PartSel(ws[k], t) == UNSELECTED;
  }

  /** Two parts of one wire, one through the middle of the other, overlap. */
  lemma CommonPart(v: Seg, s: Seg, t: Seg, p: Point) returns (c: Seg)
    requires v.Ortho() && !v.Degenerate() && s.Ortho() && t.Ortho() && !s.Degenerate()
    requires Includes(v, s) && Includes(v, t) && SameKind(s, v) && SameKind(t, v)
    requires p == Point((s.x1 + s.x2) / 2.0, (s.y1 + s.y2) / 2.0) && On(t, p)
    ensures c.Ortho() && !c.Degenerate() && Includes(s, c) && Includes(t, c)
  {
    c := Seg(if s.x1 < t.x1 then t.x1 else s.x1, if s.y1 < t.y1 then t.y1 else s.y1,
             if s.x2 < t.x2 then s.x2 else t.x2, if s.y2 < t.y2 then s.y2 else t.y2);
  }

  lemma WithinSelection(a: seq<Wire>, b: seq<Wire>)
    requires Within(a, b) && AllOrtho(Segs(b))
    ensures SelectionKept(a, b)
  {
    forall n | Live(b, n) ensures SelectionOf(a, b[n]) {
      assert PartOf(a, b[n]);
      var v := b[n];
      var m :| Live(a, m) && a[m].prop == v.prop && Includes(a[m].seg, v.seg) && v.sel == PartSel(a[m], v.seg);
      assert v.seg in Segs(b);
      assert SharedPart(a, v.seg, m, v.seg);
    }
  }

  lemma SharedPartTrans(a: seq<Wire>, k: Seg, v: Seg, m: int, s: Seg)
    requires SharedPart(a, k, m, s) && Includes(v, k) && SameKind(k, v)
    ensures SharedPart(a, v, m, s)
  {
    IncludesTrans(v, k, s);
  }

  lemma SelectedPart(ws: seq<Wire>, v: Wire) returns (m: int, s: Seg)
    requires SelectionOf(ws, v) && v.sel != UNSELECTED
    ensures SharedPart(ws, v.seg, m, s) && PartSel(ws[m], s) == v.sel
  {
    hide PartSel;
    m, s :| SharedPart(ws, v.seg, m, s) && PartSel(ws[m], s) == v.sel;
  }

  lemma SelectionTrans(a: seq<Wire>, b: seq<Wire>, c: seq<Wire>)
    requires SelectionKept(a, b) && Reselected(b, c) && AllOrtho(Segs(b))
    ensures SelectionKept(a, c)
  {
    hide PartSel, SharedPart, Descends;
    forall n | Live(c, n) ensures SelectionOf(a, c[n]) {
      assert SelectedFrom(b, c[n]);
      var v := c[n];
      if v.sel != UNSELECTED {
        var k :| LastSelected(b, v.seg, k) && b[k].sel == v.sel;
        assert SelectionOf(a, b[k]);
        var m, s := SelectedPart(a, b[k]);
        SharedPartTrans(a, b[k].seg, v.seg, m, s);
      } else {
        forall p | On(v.seg, p) ensures UnselectedAt(a, v.seg, p) {
          SelectionTransAt(a, b, v, p);
        }
      }
    }
  }

  lemma SelectionTransAt(a: seq<Wire>, b: seq<Wire>, v: Wire, p: Point)
    requires SelectionKept(a, b) && SelectedFrom(b, v) && Descends(Segs(b), v.seg) && AllOrtho(Segs(b))
    requires v.sel == UNSELECTED && On(v.seg, p)
    ensures UnselectedAt(a, v.seg, p)
  {
    hide PartSel, Includes, SelectionOf, SharedPart, On, Descends;
    var o := DescendsAt(Segs(b), v.seg, p);
    var k := SegsIndex(b, o);
    PieceIncluded(o, v.seg);
    assert b[k].sel == UNSELECTED;
    assert SelectionOf(a, b[k]);
    var m, s := UnselectedPartAt(a, b[k], p);
    SharedPartTrans(a, o, v.seg, m, s);
  }

  lemma PieceIncluded(o: Seg, m: Seg)
    requires PieceOf(o, m) && o.Ortho()
    ensures Includes(m, o)
  {
  }

  lemma GrownReselected(ws0: seq<Wire>, ws: seq<Wire>, flag: seq<bool>)
    requires Growing(ws0, ws, flag)
    ensures Reselected(ws0, Keep(ws, flag))
  {
    hide Descends, SelectedFrom, SameNets, SameCover;
    var f := KeepOrigin(ws, flag);
    forall a | Live(Keep(ws, flag), a)
      ensures SelectedFrom(ws0, Keep(ws, flag)[a]) && Descends(Segs(ws0), Keep(ws, flag)[a].seg)
    {
      assert Kept(ws, flag, f[a]);
    }
  }

  /** Two equal wires, the second of them selected: the second is deleted, and no wire left is selected. */
  lemma IncludedSelectionIsLost()
    ensures var s := Seg(0.0, 0.0, 1.0, 0.0);
            var ws := [Wire(s, -1, -1, UNSELECTED, false, "", 1), Wire(s, -1, -1, SELECTED, false, "", 2)];
            && CheckIncludes(ws[0].seg, ws[1].seg) && Includes(ws[0].seg, ws[1].seg)
            && Keep(ws, [false, true]) == [ws[0]]
  {
    var s := Seg(0.0, 0.0, 1.0, 0.0);
    KeepFirst(Wire(s, -1, -1, UNSELECTED, false, "", 1), Wire(s, -1, -1, SELECTED, false, "", 2));
  }

  lemma KeepFirst(w: Wire, v: Wire)
    ensures Keep([w, v], [false, true]) == [w]
  {
    hide Keep;
    KeepStep([w, v], [false, true]);
    KeepStep([w], [false]);
    KeepStep([], []);
    assert [w, v][..1] == [w] && [false, true][..1] == [false];
    assert [w][..0] == [] && [false][..0] == [];
  }

  /** A wire from (0,0) to (1,0) without a label, and one from there to (2,0) with label A: they can be merged, and
      once they are no wire carries A. */
  lemma AbsorbedLabelIsLost()
    ensures var ws := [Wire(Seg(0.0, 0.0, 1.0, 0.0), 0, 0, 0, false, "", 1),
        Wire(Seg(1.0, 0.0, 2.0, 0.0), 0, 0, 0, false, "lab=A", 2)];
            && Mergeable(ws, 0, 1)
            && var r := Keep(Absorb(ws, 0, 1), [false, true]);
               |r| == 1 && r[0].prop == "" && r[0].seg == Seg(0.0, 0.0, 2.0, 0.0)
  {
    var ws := [Wire(Seg(0.0, 0.0, 1.0, 0.0), 0, 0, 0, false, "", 1),
        Wire(Seg(1.0, 0.0, 2.0, 0.0), 0, 0, 0, false, "lab=A", 2)];
    var grown := Absorb(ws, 0, 1);
    assert grown == [grown[0], ws[1]];
    KeepFirst(grown[0], ws[1]);
  }

  lemma StartIsEnd(ws: seq<Wire>, n: nat)
    requires Live(ws, n)
    ensures HasEnd(Segs(ws), ws[n].seg.Start())
  {
    assert ws[n].seg in Segs(ws) && IsEndOf(ws[n].seg, ws[n].seg.Start());
  }

  lemma WithinTrans(a: seq<Wire>, b: seq<Wire>, c: seq<Wire>)
    requires Within(a, b) && Within(b, c)
    ensures Within(a, c)
  {
    hide Includes, HasEnd, PartSel;
    forall n | Live(c, n) ensures PartOf(a, c[n]) {
      assert PartOf(b, c[n]);
      var k :| Live(b, k) && b[k].prop == c[n].prop && Includes(b[k].seg, c[n].seg)
          && c[n].sel == PartSel(b[k], c[n].seg);
      assert PartOf(a, b[k]);
      var m :| Live(a, m) && a[m].prop == b[k].prop && Includes(a[m].seg, b[k].seg)
          && b[k].sel == PartSel(a[m], b[k].seg);
      IncludesTrans(a[m].seg, b[k].seg, c[n].seg);
      PartSelTrans(a[m], b[k], c[n].seg);
    }
  }

  lemma WithinSameStarts(a: seq<Wire>, b: seq<Wire>, c: seq<Wire>)
    requires Within(a, b) && SameStarts(b, c)
    ensures Rooted(a, c)
  {
    hide HasEnd;
    forall n | Live(c, n) ensures RootedIn(a, c[n]) && HasEnd(Segs(a), c[n].seg.Start()) {
      assert StartsWith(b, c[n]);
      var k :| Live(b, k) && b[k].prop == c[n].prop && b[k].seg.Start() == c[n].seg.Start();
      assert PartOf(a, b[k]);
      var m :| Live(a, m) && a[m].prop == b[k].prop && Includes(a[m].seg, b[k].seg);
      StartIsEnd(b, k);
    }
  }

  lemma RootedSameStarts(a: seq<Wire>, b: seq<Wire>, c: seq<Wire>)
    requires Rooted(a, b) && SameStarts(b, c)
    ensures Rooted(a, c)
  {
    hide HasEnd;
    forall n | Live(c, n) ensures RootedIn(a, c[n]) && HasEnd(Segs(a), c[n].seg.Start()) {
      assert StartsWith(b, c[n]);
      var k :| Live(b, k) && b[k].prop == c[n].prop && b[k].seg.Start() == c[n].seg.Start();
      assert RootedIn(a, b[k]);
      var m :| Live(a, m) && a[m].prop == b[k].prop && On(a[m].seg, b[k].seg.Start());
    }
  }

  lemma SameStartsTrans(a: seq<Wire>, b: seq<Wire>, c: seq<Wire>)
    requires SameStarts(a, b) && SameStarts(b, c)
    ensures SameStarts(a, c)
  {
    forall n | Live(c, n) ensures StartsWith(a, c[n]) {
      assert StartsWith(b, c[n]);
      var k :| Live(b, k) && b[k].prop == c[n].prop && b[k].id == c[n].id && b[k].seg.Start() == c[n].seg.Start()
          && Includes(c[n].seg, b[k].seg);
      assert StartsWith(a, b[k]);
      var m :| Live(a, m) && a[m].prop == b[k].prop && a[m].id == b[k].id && a[m].seg.Start() == b[k].seg.Start()
          && Includes(b[k].seg, a[m].seg);
      IncludesTrans(c[n].seg, b[k].seg, a[m].seg);
    }
  }

  /** Wires changed in their counters only. */
  lemma UnmovedLabels(ws: seq<Wire>, ws': seq<Wire>)
    requires AllOrtho(Segs(ws)) && |ws| == |ws'| && Segs(ws) == Segs(ws')
    requires forall n :: 0 <= n < |ws| ==>
               ws'[n].seg == ws[n].seg && ws'[n].prop == ws[n].prop && ws'[n].sel == ws[n].sel
               && ws'[n].ignored == ws[n].ignored && ws'[n].id == ws[n].id
    ensures Within(ws, ws') && SameStarts(ws, ws') && Rooted(ws, ws')
    ensures forall c :: Traced(ws, c, ws')
  {
    hide HasEnd;
    forall n | Live(ws', n)
      ensures PartOf(ws, ws'[n]) && StartsWith(ws, ws'[n]) && RootedIn(ws, ws'[n]) && TailOf(ws, ws'[n])
      ensures HasEnd(Segs(ws), ws'[n].seg.Start())
    {
      assert Live(ws, n) && ws[n].seg in Segs(ws);
      StartIsEnd(ws, n);
    }
  }

  lemma SplitWithin(ws: seq<Wire>, i: nat, j: nat, p: Point, id: nat)
    requires AllOrtho(Segs(ws)) && Live(ws, i) && Live(ws, j) && IsEndOf(ws[i].seg, p) && Inside(ws[j].seg, p)
    ensures Within(ws, SplitAt(ws, j, p, id))
  {
    hide HasEnd;
    var ws' := SplitAt(ws, j, p, id);
    SplitPreserves(ws, i, j, p, id);
    forall n | Live(ws', n) ensures PartOf(ws, ws'[n]) {
      var m := if n == |ws| then j else n;
      assert Live(ws, m) && ws[m].seg in Segs(ws);
      assert Includes(ws[m].seg, ws'[n].seg);
    }
  }

  lemma KeepWithin(ws: seq<Wire>, flag: seq<bool>)
    requires |flag| == |ws| && AllOrtho(Segs(ws))
    ensures Within(ws, Keep(ws, flag))
  {
    var f := KeepOrigin(ws, flag);
    KeepSegs(ws, flag);
    KeptEnds(ws, flag);
    forall a | Live(Keep(ws, flag), a) ensures PartOf(ws, Keep(ws, flag)[a]) {
      assert Live(ws, f[a]) && ws[f[a]].seg in Segs(ws);
    }
  }

  lemma KeptEnds(ws: seq<Wire>, flag: seq<bool>)
    requires |flag| == |ws|
    ensures forall q :: HasEnd(KeptSegs(ws, flag), q) ==> HasEnd(Segs(ws), q)
  {
    forall q | HasEnd(KeptSegs(ws, flag), q) ensures HasEnd(Segs(ws), q) {
      var e :| e in KeptSegs(ws, flag) && IsEndOf(e, q);
      var n := KeptSegsIndex(ws, flag, e);
      assert Live(ws, n) && e in Segs(ws);
    }
  }

  lemma TracedTrans(a: seq<Wire>, c0: nat, b: seq<Wire>, c1: nat, ws: seq<Wire>)
    requires Traced(a, c0, b) && Traced(b, c1, ws) && c0 <= c1
    ensures Traced(a, c0, ws)
  {
    hide Includes;
    forall n | Live(ws, n) && ws[n].id <= c0 ensures TailOf(a, ws[n]) {
      assert TailOf(b, ws[n]);
      var k :| Live(b, k) && b[k].id == ws[n].id && Includes(b[k].seg, ws[n].seg) && b[k].seg.End() == ws[n].seg.End();
      assert TailOf(a, b[k]);
      var m :| Live(a, m) && a[m].id == b[k].id && Includes(a[m].seg, b[k].seg) && a[m].seg.End() == b[k].seg.End();
      IncludesTrans(a[m].seg, b[k].seg, ws[n].seg);
    }
  }

  /** The new head takes the new identity, the tail keeps the old one. */
  lemma SplitTraced(ws: seq<Wire>, j: nat, p: Point, id: nat, c: nat)
    requires AllOrtho(Segs(ws)) && Live(ws, j) && Inside(ws[j].seg, p) && c < id
    ensures Traced(ws, c, SplitAt(ws, j, p, id))
  {
    var ws' := SplitAt(ws, j, p, id);
    forall n | Live(ws', n) && ws'[n].id <= c ensures TailOf(ws, ws'[n]) {
      assert Live(ws, n) && ws[n].seg in Segs(ws) && Includes(ws[n].seg, ws'[n].seg);
    }
  }

  lemma KeepTraced(ws: seq<Wire>, flag: seq<bool>, c: nat)
    requires |flag| == |ws| && AllOrtho(Segs(ws))
    ensures Traced(ws, c, Keep(ws, flag))
  {
    var f := KeepOrigin(ws, flag);
    forall a | Live(Keep(ws, flag), a) ensures TailOf(ws, Keep(ws, flag)[a]) {
      assert Live(ws, f[a]) && ws[f[a]].seg in Segs(ws);
    }
  }

  lemma TracedSameStarts(a: seq<Wire>, c: nat, b: seq<Wire>, ws: seq<Wire>)
    requires Traced(a, c, b) && SameStarts(b, ws)
    ensures Identified(a, c, ws)
  {
    forall n | Live(ws, n) && ws[n].id <= c ensures Continues(a, ws[n]) {
      assert StartsWith(b, ws[n]);
      var k :| Live(b, k) && b[k].id == ws[n].id && b[k].seg.Start() == ws[n].seg.Start()
          && Includes(ws[n].seg, b[k].seg);
      assert TailOf(a, b[k]);
      var m :| Live(a, m) && a[m].id == b[k].id && Includes(a[m].seg, b[k].seg) && a[m].seg.End() == b[k].seg.End();
      assert Includes(a[m].seg, b[k].seg);
      assert Includes(ws[n].seg, b[k].seg) && ws[n].seg.Start() == b[k].seg.Start();
      assert On(a[m].seg, ws[n].seg.Start()) && On(ws[n].seg, a[m].seg.End());
    }
  }

  lemma IdentifiedSameStarts(a: seq<Wire>, c: nat, b: seq<Wire>, ws: seq<Wire>)
    requires Identified(a, c, b) && SameStarts(b, ws)
    ensures Identified(a, c, ws)
  {
    forall n | Live(ws, n) && ws[n].id <= c ensures Continues(a, ws[n]) {
      assert StartsWith(b, ws[n]);
      var k :| Live(b, k) && b[k].id == ws[n].id && b[k].seg.Start() == ws[n].seg.Start()
          && Includes(ws[n].seg, b[k].seg);
      assert Continues(a, b[k]);
      var m :| Live(a, m) && a[m].id == b[k].id && On(a[m].seg, b[k].seg.Start()) && On(b[k].seg, a[m].seg.End());
      assert Includes(ws[n].seg, b[k].seg) && ws[n].seg.Start() == b[k].seg.Start();
      assert On(a[m].seg, ws[n].seg.Start()) && On(ws[n].seg, a[m].seg.End());
    }
  }

  /** Merging lengthens wires past their ends and deletes others. */
  lemma GrownSameStarts(ws0: seq<Wire>, ws: seq<Wire>, flag: seq<bool>)
    requires |ws| == |ws0| == |flag|
    requires forall n :: 0 <= n < |ws| ==>
               ws[n].seg.Start() == ws0[n].seg.Start() && ws[n].prop == ws0[n].prop && ws[n].ignored == ws0[n].ignored
               && ws[n].id == ws0[n].id && (Live(ws, n) && !flag[n] ==> Includes(ws[n].seg, ws0[n].seg))
    ensures SameStarts(ws0, Keep(ws, flag))
  {
    var f := KeepOrigin(ws, flag);
    forall a | Live(Keep(ws, flag), a) ensures StartsWith(ws0, Keep(ws, flag)[a]) {
      assert Live(ws0, f[a]);
    }
  }
}
