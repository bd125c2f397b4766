/** Why the merge phase of trim_wires is safe: a joint whose endpoint counters are zero is
    shared by the two merged wires only, and stays so while other wires grow. */
module Merging {
  import opened Geometry
  import opened Nets
  import opened Wires

  predicate SameKind(a: Seg, b: Seg) {
    a.Horizontal() == b.Horizontal() && a.Vertical() == b.Vertical()
  }

  lemma ApartAbut(a: Seg, b: Seg)
    requires a.Ortho() && b.Ortho() && a.End() == b.Start() && Parallel(a, b) && Apart(a, b)
    ensures Abut(a, b)
  {
    ParallelOrtho(a, b);
  }

  /** No third collinear wire can reach the joint of two abutting ones without overlapping one of them. */
  lemma NoThird(a: Seg, b: Seg, c: Seg)
    requires Abut(a, b) && c.Ortho() && Parallel(a, c)
    requires Apart(a, c) && Apart(b, c)
    ensures !On(c, a.End())
  {
    ParallelOrtho(a, c);
  }

  lemma MergedApart(a: Seg, b: Seg, c: Seg)
    requires Abut(a, b) && c.Ortho() && !On(c, a.End())
    requires Apart(a, c) && Apart(b, c)
    ensures Apart(Merged(a, b), c) && Apart(c, Merged(a, b))
  {
    MergeGeometry(a, b);
  }

  /** Every point of m lies on a wire of S inside m and running the same way: m was put together from S. */
  ghost predicate Descends(S: set<Seg>, m: Seg) {
    forall p :: On(m, p) ==> exists o :: o in S && On(o, p) && PieceOf(o, m)
  }

  predicate PieceOf(o: Seg, m: Seg) {
    m.x1 <= o.x1 && m.y1 <= o.y1 && o.x2 <= m.x2 && o.y2 <= m.y2 && SameKind(o, m)
  }

  lemma DescendsAt(S: set<Seg>, m: Seg, p: Point) returns (o: Seg)
    requires Descends(S, m) && On(m, p)
    ensures o in S && On(o, p) && PieceOf(o, m)
  {
    o :| o in S && On(o, p) && PieceOf(o, m);
  }

  lemma PieceOfMerged(i: Seg, j: Seg, o: Seg)
    requires Abut(i, j) && (PieceOf(o, i) || PieceOf(o, j))
    ensures PieceOf(o, Merged(i, j))
  {
  }

  lemma MergedDescendsAt(S: set<Seg>, i: Seg, j: Seg, p: Point) returns (o: Seg)
    requires Abut(i, j) && Descends(S, i) && Descends(S, j) && On(Merged(i, j), p)
    ensures o in S && On(o, p) && PieceOf(o, Merged(i, j))
  {
    MergeGeometry(i, j);
    hide Descends, PieceOf;
    o := DescendsAt(S, if On(i, p) then i else j, p);
    PieceOfMerged(i, j, o);
  }

  lemma MergedDescends(S: set<Seg>, i: Seg, j: Seg)
    requires Abut(i, j) && Descends(S, i) && Descends(S, j)
    ensures Descends(S, Merged(i, j))
  {
    forall p | On(Merged(i, j), p) ensures exists o :: o in S && On(o, p) && PieceOf(o, Merged(i, j)) {
      var o := MergedDescendsAt(S, i, j, p);
    }
  }

  /** What the endpoint counters mean. */
  ghost predicate EndsCounted(ws: seq<Wire>) {
    forall n :: Live(ws, n) ==>
                  && (ws[n].end1 == 0 <==> !Tapped(ws, ws[n].seg, ws[n].seg.Start()))
                  && (ws[n].end2 == 0 <==> !Tapped(ws, ws[n].seg, ws[n].seg.End()))
  }

  predicate Mergeable(ws: seq<Wire>, i: int, j: int) {
    && Live(ws, i) && Live(ws, j) && i != j
    && ws[i].seg.End() == ws[j].seg.Start() && Parallel(ws[i].seg, ws[j].seg)
    && ws[i].end2 == 0 && ws[j].end1 == 0
  }

  predicate Unflagged(flag: seq<bool>) {
    forall n :: 0 <= n < |flag| ==> !flag[n]
  }

  /** The state of the merge phase: ws has been reached from ws0, the flagged wires being absorbed. */
  ghost predicate Growing(ws0: seq<Wire>, ws: seq<Wire>, flag: seq<bool>) {
    && |ws| == |ws0| == |flag|
    && (forall n :: 0 <= n < |ws| ==> Grown(ws0[n], ws[n]))
    && (forall n :: 0 <= n < |ws| && flag[n] ==> Live(ws, n))
    && KeptApart(ws, flag)
    && (forall n :: Kept(ws, flag, n) ==> ws[n].seg.Ortho() && Descends(Segs(ws0), ws[n].seg))
    && SameNets(Segs(ws0), KeptSegs(ws, flag))
    && SameCover(Segs(ws0), KeptSegs(ws, flag))
    && (forall n :: Kept(ws, flag, n) ==> SelectedFrom(ws0, ws[n]) && Includes(ws[n].seg, ws0[n].seg))
    && (Unflagged(flag) ==> ws == ws0)
  }

  /** Wire m is the last of the selected wires that s is made of. */
  ghost predicate LastSelected(ws: seq<Wire>, s: Seg, m: int) {
    && Live(ws, m) && Includes(s, ws[m].seg) && SameKind(ws[m].seg, s) && ws[m].sel != UNSELECTED
    && forall k :: Live(ws, k) && Includes(s, ws[k].seg) && ws[k].sel != UNSELECTED ==>
         ws[k].seg.x2 <= ws[m].seg.x2 && ws[k].seg.y2 <= ws[m].seg.y2
  }

  /** v is unselected if no wire of ws inside it is selected, and selected as the last of those that are. */
  ghost predicate SelectedFrom(ws: seq<Wire>, v: Wire) {
    && (v.sel != UNSELECTED <==>
        exists k :: Live(ws, k) && Includes(v.seg, ws[k].seg) && ws[k].sel != UNSELECTED)
    && (v.sel != UNSELECTED ==> exists m :: LastSelected(ws, v.seg, m) && ws[m].sel == v.sel)
  }

  /** A wire may only have been lengthened past its end, and taken over a selection. */
  predicate Grown(w0: Wire, w: Wire) {
    && w.seg.Start() == w0.seg.Start()
    && w == w0.(seg := w.seg, sel := w.sel)
    && (w.ignored ==> w == w0)
  }

  lemma GrowingStarts(ws: seq<Wire>, flag: seq<bool>)
    requires |flag| == |ws| && Unflagged(flag) && AllOrtho(Segs(ws)) && AllApart(ws)
    ensures Growing(ws, ws, flag)
  {
    hide SelectedFrom, Descends, SameNets, SameCover;
    NoneFlagged(ws, flag);
    SameNetsSelf(Segs(ws));
    forall n | Kept(ws, flag, n)
      ensures ws[n].seg.Ortho() && Descends(Segs(ws), ws[n].seg) && SelectedFrom(ws, ws[n])
      ensures Includes(ws[n].seg, ws[n].seg)
    {
      assert ws[n].seg in Segs(ws);
      DescendsSelf(Segs(ws), ws[n].seg);
      ApartSelected(ws, n);
    }
  }

  lemma NoneFlagged(ws: seq<Wire>, flag: seq<bool>)
    requires |flag| == |ws| && Unflagged(flag)
    ensures KeptSegs(ws, flag) == Segs(ws)
  {
    forall s | s in Segs(ws) ensures s in KeptSegs(ws, flag) {
      var n := SegsIndex(ws, s);
      assert Kept(ws, flag, n);
    }
  }

  lemma SameNetsSelf(S: set<Seg>)
    ensures SameNets(S, S) && SameCover(S, S)
  {
  }

  lemma DescendsSelf(S: set<Seg>, m: Seg)
    requires m in S
    ensures Descends(S, m)
  {
    assert PieceOf(m, m);
  }

  lemma ApartSelected(ws: seq<Wire>, n: nat)
    requires Live(ws, n) && AllOrtho(Segs(ws)) && AllApart(ws)
    ensures SelectedFrom(ws, ws[n])
  {
    assert ws[n].seg in Segs(ws);
    forall k | Live(ws, k) && k != n ensures !Includes(ws[n].seg, ws[k].seg) {
      assert Apart(ws[n].seg, ws[k].seg);
    }
    if ws[n].sel != UNSELECTED {
      assert LastSelected(ws, ws[n].seg, n);
    }
  }

  /** At a joint the counters call free, every kept wire through it is one of the two. */
  lemma JointIsLone(ws0: seq<Wire>, ws: seq<Wire>, flag: seq<bool>, i: nat, j: nat, k: nat)
    requires Growing(ws0, ws, flag) && AllOrtho(Segs(ws0)) && EndsCounted(ws0)
    requires Kept(ws, flag, i) && Kept(ws, flag, j) && Kept(ws, flag, k) && k != i && k != j
    requires ws[i].seg == ws0[i].seg && ws[i].end2 == 0
    requires Abut(ws[i].seg, ws[j].seg)
    ensures !On(ws[k].seg, ws[i].seg.End())
  {
    hide SelectedFrom, SameNets, SameCover, Descends;
    var si, sj, sk := ws[i].seg, ws[j].seg, ws[k].seg;
    if On(sk, si.End()) {
      assert Live(ws0, i) && !Tapped(ws0, si, si.End());
      assert Apart(si, sk) && Apart(sj, sk);
      var o := DescendsAt(Segs(ws0), sk, si.End());
      var n := SegsIndex(ws0, o);
      PieceParallel(si, sk, o);
      NoThird(si, sj, sk);
    }
  }

  lemma PieceParallel(a: Seg, c: Seg, o: Seg)
    requires a.Ortho() && c.Ortho() && o.Ortho() && PieceOf(o, c)
    ensures Parallel(a, o) <==> Parallel(a, c)
  {
    ParallelOrtho(a, o);
    ParallelOrtho(a, c);
  }

  function Absorb(ws: seq<Wire>, i: nat, j: nat): seq<Wire>
    requires i < |ws| && j < |ws|
  {
    ws[i := ws[i].(seg := Merged(ws[i].seg, ws[j].seg), sel := if ws[j].sel != 0 then ws[j].sel else ws[i].sel)]
  }

  lemma AbsorbSegs(ws: seq<Wire>, flag: seq<bool>, i: nat, j: nat)
    requires |flag| == |ws| && KeptApart(ws, flag) && Kept(ws, flag, i) && Kept(ws, flag, j) && i != j
    requires forall n :: Kept(ws, flag, n) ==> ws[n].seg.Ortho()
    ensures KeptSegs(Absorb(ws, i, j), flag[j := true])
            == KeptSegs(ws, flag) - {ws[i].seg, ws[j].seg} + {Merged(ws[i].seg, ws[j].seg)}
  {
    var ws', flag', m := Absorb(ws, i, j), flag[j := true], Merged(ws[i].seg, ws[j].seg);
    var L, R := KeptSegs(ws', flag'), KeptSegs(ws, flag) - {ws[i].seg, ws[j].seg} + {m};
    forall s | s in L ensures s in R {
      var n := KeptSegsIndex(ws', flag', s);
      if n != i {
        assert Kept(ws, flag, n) && Apart(ws[n].seg, ws[i].seg) && Apart(ws[n].seg, ws[j].seg);
      }
    }
    forall s | s in R ensures s in L {
      if s == m {
        assert Kept(ws', flag', i);
      } else {
        var n := KeptSegsIndex(ws, flag, s);
        assert Kept(ws', flag', n);
      }
    }
  }

  lemma AbsorbKeepsNets(ws0: seq<Wire>, ws: seq<Wire>, flag: seq<bool>, i: nat, j: nat)
    requires Growing(ws0, ws, flag) && AllOrtho(Segs(ws0)) && EndsCounted(ws0)
    requires Kept(ws, flag, i) && Kept(ws, flag, j) && i != j
    requires ws[i].seg == ws0[i].seg && ws[i].end2 == 0
    requires Abut(ws[i].seg, ws[j].seg)
    ensures SameNets(Segs(ws0), KeptSegs(Absorb(ws, i, j), flag[j := true]))
    ensures SameCover(Segs(ws0), KeptSegs(Absorb(ws, i, j), flag[j := true]))
  {
    hide SelectedFrom;
    var S, si, sj := KeptSegs(ws, flag), ws[i].seg, ws[j].seg;
    forall k | k in S && On(k, si.End()) ensures k == si || k == sj {
      var n := KeptSegsIndex(ws, flag, k);
      if n != i && n != j {
        JointIsLone(ws0, ws, flag, i, j, n);
      }
    }
    forall s | s in S ensures s.Ortho() {
      var n := KeptSegsIndex(ws, flag, s);
    }
    assert si in S && sj in S;
    MergeKeepsNets(S, si, sj);
    AbsorbSegs(ws, flag, i, j);
    SameNetsTrans(Segs(ws0), S, KeptSegs(Absorb(ws, i, j), flag[j := true]));
  }

  lemma AbsorbKeepsApart(ws0: seq<Wire>, ws: seq<Wire>, flag: seq<bool>, i: nat, j: nat)
    requires Growing(ws0, ws, flag) && AllOrtho(Segs(ws0)) && EndsCounted(ws0)
    requires Kept(ws, flag, i) && Kept(ws, flag, j) && i != j
    requires ws[i].seg == ws0[i].seg && ws[i].end2 == 0
    requires Abut(ws[i].seg, ws[j].seg)
    ensures KeptApart(Absorb(ws, i, j), flag[j := true])
  {
    hide SelectedFrom, SameNets, SameCover;
    var ws', flag' := Absorb(ws, i, j), flag[j := true];
    forall n, m | Kept(ws', flag', n) && Kept(ws', flag', m) && n != m ensures Apart(ws'[n].seg, ws'[m].seg) {
      assert Kept(ws, flag, n) && Kept(ws, flag, m);
      if n == i || m == i {
        var k := if n == i then m else n;
        JointIsLone(ws0, ws, flag, i, j, k);
        assert Apart(ws[i].seg, ws[k].seg) && Apart(ws[j].seg, ws[k].seg);
        MergedApart(ws[i].seg, ws[j].seg, ws[k].seg);
      } else {
        assert Apart(ws[n].seg, ws[m].seg);
      }
    }
  }

  /** A wire inside two merged ones is inside one of them, unless the joint lies strictly inside it. */
  lemma InsideMerged(a: Seg, b: Seg, k: Seg)
    requires Abut(a, b) && k.Ortho() && Includes(Merged(a, b), k) && !Inside(k, a.End())
    ensures Includes(a, k) || Includes(b, k)
  {
  }

  /** The wires inside two merged ones are those inside the one or the other. */
  ghost predicate InsideOneOf(ws: seq<Wire>, a: Seg, b: Seg) {
    forall k :: Live(ws, k) && Includes(Merged(a, b), ws[k].seg) ==> Includes(a, ws[k].seg) || Includes(b, ws[k].seg)
  }

  lemma JointInsideNone(ws: seq<Wire>, i: nat, b: Seg)
    requires AllOrtho(Segs(ws)) && AllApart(ws) && Live(ws, i) && Abut(ws[i].seg, b)
    ensures InsideOneOf(ws, ws[i].seg, b)
  {
    forall k | Live(ws, k) && Includes(Merged(ws[i].seg, b), ws[k].seg)
      ensures Includes(ws[i].seg, ws[k].seg) || Includes(b, ws[k].seg)
    {
      assert ws[k].seg in Segs(ws);
      if k != i {
        assert Apart(ws[i].seg, ws[k].seg);
        InsideMerged(ws[i].seg, b, ws[k].seg);
      }
    }
  }

  lemma MergedIncludes(a: Seg, b: Seg, k: Seg)
    requires Abut(a, b) && (Includes(a, k) || Includes(b, k))
    ensures Includes(Merged(a, b), k)
    ensures SameKind(k, a) || SameKind(k, b) ==> SameKind(k, Merged(a, b))
  {
  }

  lemma LaterIsLast(a: Seg, b: Seg, k: Seg, m: Seg)
    requires Abut(a, b) && Includes(a, k) && Includes(b, m)
    ensures k.x2 <= m.x2 && k.y2 <= m.y2
  {
  }

  lemma MergedSelection(ws: seq<Wire>, a: Wire, b: Wire, v: Wire)
    requires Abut(a.seg, b.seg) && v.seg == Merged(a.seg, b.seg) && InsideOneOf(ws, a.seg, b.seg)
    requires SelectedFrom(ws, a) && SelectedFrom(ws, b)
    requires v.sel == if b.sel != UNSELECTED then b.sel else a.sel
    ensures SelectedFrom(ws, v)
  {
    hide Includes, PieceOf, Abut, Merged;
    var part := if b.sel != UNSELECTED then b else a;
    if v.sel != UNSELECTED {
      var m :| LastSelected(ws, part.seg, m) && ws[m].sel == v.sel;
      MergedIncludes(a.seg, b.seg, ws[m].seg);
      forall k | Live(ws, k) && Includes(v.seg, ws[k].seg) && ws[k].sel != UNSELECTED
        ensures ws[k].seg.x2 <= ws[m].seg.x2 && ws[k].seg.y2 <= ws[m].seg.y2
      {
        if !Includes(part.seg, ws[k].seg) {
          LaterIsLast(a.seg, b.seg, ws[k].seg, ws[m].seg);
        }
      }
      assert LastSelected(ws, v.seg, m);
    }
  }

  lemma AbsorbGrows(ws0: seq<Wire>, ws: seq<Wire>, flag: seq<bool>, i: nat, j: nat)
    requires Growing(ws0, ws, flag) && AllOrtho(Segs(ws0)) && AllApart(ws0) && EndsCounted(ws0)
    requires Kept(ws, flag, i) && Kept(ws, flag, j) && i != j
    requires ws[i].seg == ws0[i].seg && ws[i].end2 == 0
    requires ws[i].seg.End() == ws[j].seg.Start() && Parallel(ws[i].seg, ws[j].seg)
    ensures Growing(ws0, Absorb(ws, i, j), flag[j := true])
  {
    hide SameNets, SameCover, AllOrtho, AllApart, EndsCounted, Descends, Segs, SelectedFrom;
    var ws', flag' := Absorb(ws, i, j), flag[j := true];
    assert Apart(ws[i].seg, ws[j].seg);
    ApartAbut(ws[i].seg, ws[j].seg);
    MergeGeometry(ws[i].seg, ws[j].seg);
    AbsorbKeepsNets(ws0, ws, flag, i, j);
    AbsorbKeepsApart(ws0, ws, flag, i, j);
    forall n | Kept(ws', flag', n) ensures ws'[n].seg.Ortho() && Descends(Segs(ws0), ws'[n].seg) {
      assert Kept(ws, flag, n);
      if n == i {
        MergedDescends(Segs(ws0), ws[i].seg, ws[j].seg);
      }
    }
    forall n | Kept(ws', flag', n) ensures SelectedFrom(ws0, ws'[n]) && Includes(ws'[n].seg, ws0[n].seg) {
      assert Kept(ws, flag, n);
      if n == i {
        JointInsideNone(ws0, i, ws[j].seg);
        MergedSelection(ws0, ws[i], ws[j], ws'[i]);
        MergedIncludes(ws[i].seg, ws[j].seg, ws0[i].seg);
      }
    }
    assert flag'[j];
  }

  /** The merge phase as a whole, once the flagged wires are deleted. */
  lemma GrownPreserves(ws0: seq<Wire>, ws: seq<Wire>, flag: seq<bool>)
    requires Growing(ws0, ws, flag)
    ensures Preserved(ws0, Keep(ws, flag)) && AllApart(Keep(ws, flag))
  {
    KeepSegs(ws, flag);
    forall s | s in KeptSegs(ws, flag) ensures s.Ortho() {
      var n := KeptSegsIndex(ws, flag, s);
    }
    KeepBystanders(ws, flag);
    BystandersPointwise(ws0, ws);
    KeepApart(ws, flag);
  }

  /** With the counters right, "nothing left to merge" and the normal form are the same thing. */
  lemma NormalIffNothingMergeable(ws: seq<Wire>)
    requires AllOrtho(Segs(ws)) && AllApart(ws) && EndsCounted(ws)
    ensures Normal(ws) <==> forall i, j :: !Mergeable(ws, i, j)
  {
    if forall i, j :: !Mergeable(ws, i, j) {
      forall i, j | Live(ws, i) && Live(ws, j) && i != j && ws[i].seg.End() == ws[j].seg.Start()
          && Parallel(ws[i].seg, ws[j].seg)
        ensures Tapped(ws, ws[i].seg, ws[i].seg.End())
      {
        assert !Mergeable(ws, i, j);
        var a, b := ws[i].seg, ws[j].seg;
        assert a in Segs(ws) && b in Segs(ws) && Apart(a, b);
        ApartAbut(a, b);
        if ws[i].end2 == 0 {
          var k :| Live(ws, k) && On(ws[k].seg, b.Start()) && !Parallel(b, ws[k].seg);
          assert ws[k].seg in Segs(ws);
          ParallelOrtho(a, ws[k].seg);
          ParallelOrtho(b, ws[k].seg);
        }
      }
    }
  }
}
