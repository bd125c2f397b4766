/** The wire part of a schematic context and trim_wires, phase by phase. */
module Schematics {
  import opened Geometry
  import opened Nets
  import opened SpatialHash
  import opened Wires
  import opened Merging
  import opened Labels

  /** The grid lists every live wire in each cell its box meets, and only existing indices. */
  ghost predicate Indexed(ws: seq<Wire>, t: Table) {
    && (forall c, n {:trigger n in Bucket(t, c)} :: n in Bucket(t, c) ==> n < |ws|)
    && (forall n, c {:trigger Visits(ws[n].seg, c)} :: Live(ws, n) && Visits(ws[n].seg, c) ==> n in Bucket(t, c))
  }

  lemma IndexedFinds(ws: seq<Wire>, t: Table, n: nat, p: Point)
    requires Indexed(ws, t) && Live(ws, n) && On(ws[n].seg, p)
    ensures n in Bucket(t, Square(p))
  {
    PointIsVisited(ws[n].seg, p);
  }

  /** No live wire has q strictly inside. */
  ghost predicate Settled(ws: seq<Wire>, q: Point) {
    forall n :: Live(ws, n) ==> !Inside(ws[n].seg, q)
  }

  lemma SettledSplit(ws: seq<Wire>, j: nat, p: Point, id: nat)
    requires Live(ws, j) && ws[j].seg.Ortho() && Inside(ws[j].seg, p)
    ensures forall q :: Settled(ws, q) ==> Settled(SplitAt(ws, j, p, id), q)
  {
    SplitGeometry(ws[j].seg, p);
    var ws' := SplitAt(ws, j, p, id);
    forall q, n | Settled(ws, q) && Live(ws', n) ensures !Inside(ws'[n].seg, q) {
      assert !Inside(ws[j].seg, q);
      if n != j && n < |ws| { assert Live(ws, n); }
    }
  }

  /** The breaking loop has reached wire i, starting from ws0 whose endpoints are E.  The wires behind i may
      only be unsettled at an endpoint of wire i itself, which is why visiting i again is enough. */
  ghost predicate Breaking(ws0: seq<Wire>, c: nat, E: set<Point>, ws: seq<Wire>, i: int) {
    && Preserved(ws0, ws) && Within(ws0, ws) && Traced(ws0, c, ws)
    && (forall q :: HasEnd(Segs(ws), q) ==> q in E)
    && (forall k, q :: 0 <= k < i && Live(ws, k) && IsEndOf(ws[k].seg, q) ==>
          Settled(ws, q) || (Live(ws, i) && IsEndOf(ws[i].seg, q)))
  }

  lemma BreakingStarts(ws: seq<Wire>, c: nat)
    requires AllOrtho(Segs(ws))
    ensures Breaking(ws, c, EndPoints(ws), ws, 0)
  {
    UnmovedLabels(ws, ws);
    forall q | HasEnd(Segs(ws), q) ensures q in EndPoints(ws) {
      EndPointsHas(ws, q);
    }
  }

  lemma BreakingCut(ws0: seq<Wire>, c: nat, E: set<Point>, ws: seq<Wire>, i: nat, j: nat, p: Point, id: nat)
    requires Breaking(ws0, c, E, ws, i)
    requires Live(ws, i) && Live(ws, j) && j != i && IsEndOf(ws[i].seg, p) && Inside(ws[j].seg, p) && c < id
    ensures Breaking(ws0, c, E, SplitAt(ws, j, p, id), i)
    ensures CutsLeft(SplitAt(ws, j, p, id), E) < CutsLeft(ws, E)
    ensures !NoBreaks(Segs(ws))
  {
    var ws' := SplitAt(ws, j, p, id);
    assert ws[j].seg in Segs(ws) && ws[i].seg in Segs(ws);
    assert HasEnd(Segs(ws), p);
    SplitPreserves(ws, i, j, p, id);
    PreservedTrans(ws0, ws, ws');
    SplitWithin(ws, i, j, p, id);
    WithinTrans(ws0, ws, ws');
    SplitTraced(ws, j, p, id, c);
    TracedTrans(ws0, c, ws, c, ws');
    SplitUsesACut(ws, j, p, id, E);
    SettledSplit(ws, j, p, id);
    forall k, q | 0 <= k < i && Live(ws', k) && IsEndOf(ws'[k].seg, q)
      ensures Settled(ws', q) || (Live(ws', i) && IsEndOf(ws'[i].seg, q))
    {
      assert Live(ws, k);
      assert q == p || IsEndOf(ws[k].seg, q);
    }
  }

  lemma BreakingNext(ws0: seq<Wire>, c: nat, E: set<Point>, ws: seq<Wire>, i: nat)
    requires Breaking(ws0, c, E, ws, i)
    requires Live(ws, i) ==> Settled(ws, ws[i].seg.Start()) && Settled(ws, ws[i].seg.End())
    ensures Breaking(ws0, c, E, ws, i + 1)
  {
  }

  lemma BreakingDone(ws0: seq<Wire>, c: nat, E: set<Point>, ws: seq<Wire>)
    requires Breaking(ws0, c, E, ws, |ws|)
    ensures NoBreaks(Segs(ws))
  {
    forall s, e | s in Segs(ws) && e in Segs(ws) ensures !Inside(s, e.Start()) && !Inside(s, e.End()) {
      var n := SegsIndex(ws, s);
      var k := SegsIndex(ws, e);
      assert IsEndOf(ws[k].seg, e.Start()) && IsEndOf(ws[k].seg, e.End());
      assert Settled(ws, e.Start()) && Settled(ws, e.End());
    }
  }

  /** Each flagged wire lies inside some wire that is still kept, also along chains and among duplicates. */
  ghost predicate Witnessed(ws: seq<Wire>, flag: seq<bool>)
    requires |flag| == |ws|
  {
    && (forall n :: 0 <= n < |ws| && flag[n] ==> Live(ws, n))
    && (forall n :: 0 <= n < |ws| && flag[n] ==> exists m :: Kept(ws, flag, m) && Includes(ws[m].seg, ws[n].seg))
  }

  /** The first i kept wires include no other kept wire. */
  ghost predicate Reduced(ws: seq<Wire>, flag: seq<bool>, i: int)
    requires |flag| == |ws|
  {
    forall n, m :: 0 <= n < i && Kept(ws, flag, n) && Kept(ws, flag, m) && n != m ==> !Includes(ws[n].seg, ws[m].seg)
  }

  lemma FlagStep(ws: seq<Wire>, flag: seq<bool>, i: nat, j: nat, k: int)
    requires |flag| == |ws| && AllOrtho(Segs(ws)) && Witnessed(ws, flag) && Reduced(ws, flag, k)
    requires Kept(ws, flag, i) && Kept(ws, flag, j) && i != j && Includes(ws[i].seg, ws[j].seg)
    ensures Witnessed(ws, flag[j := true]) && Reduced(ws, flag[j := true], k)
    ensures Kept(ws, flag[j := true], i)
  {
    var flag' := flag[j := true];
    forall n | 0 <= n < |ws| && flag'[n] ensures exists m :: Kept(ws, flag', m) && Includes(ws[m].seg, ws[n].seg) {
      assert Kept(ws, flag', i);
      if n != j {
        var m :| Kept(ws, flag, m) && Includes(ws[m].seg, ws[n].seg);
        if m == j {
          assert ws[i].seg in Segs(ws) && ws[j].seg in Segs(ws);
          IncludesTrans(ws[i].seg, ws[j].seg, ws[n].seg);
        } else {
          assert Kept(ws, flag', m);
        }
      }
    }
    forall n, m | 0 <= n < k && Kept(ws, flag', n) && Kept(ws, flag', m) && n != m
      ensures !Includes(ws[n].seg, ws[m].seg)
    {
      assert Kept(ws, flag, n) && Kept(ws, flag, m);
    }
  }

  /** With nothing left to break, an included wire shares an endpoint with the including one. */
  lemma IncludedTouchesEnd(ws: seq<Wire>, i: nat, n: nat)
    requires Live(ws, i) && Live(ws, n) && NoBreaks(Segs(ws)) && AllOrtho(Segs(ws))
    ensures Includes(ws[i].seg, ws[n].seg) ==> On(ws[n].seg, Tip(ws[i].seg, 1)) || On(ws[n].seg, Tip(ws[i].seg, 2))
  {
    assert ws[i].seg in Segs(ws) && ws[n].seg in Segs(ws);
    assert !Inside(ws[i].seg, ws[n].seg.Start());
  }

  lemma ReducedApart(ws: seq<Wire>, flag: seq<bool>)
    requires |flag| == |ws| && NoBreaks(Segs(ws)) && Reduced(ws, flag, |ws|)
    ensures KeptApart(ws, flag)
  {
    forall n, m | Kept(ws, flag, n) && Kept(ws, flag, m) && n != m ensures Apart(ws[n].seg, ws[m].seg) {
      assert ws[n].seg in Segs(ws) && ws[m].seg in Segs(ws);
    }
  }

  lemma WitnessedIncluded(ws: seq<Wire>, flag: seq<bool>)
    requires |flag| == |ws| && Witnessed(ws, flag)
    ensures forall n :: 0 <= n < |ws| && flag[n] ==> Live(ws, n) && IncludedIn(KeptSegs(ws, flag), ws[n].seg)
    ensures AllApart(ws) ==> Unflagged(flag)
  {
    forall n | 0 <= n < |ws| && flag[n]
      ensures Live(ws, n) && IncludedIn(KeptSegs(ws, flag), ws[n].seg) && !AllApart(ws)
    {
      var m :| Kept(ws, flag, m) && Includes(ws[m].seg, ws[n].seg);
      assert ws[m].seg in KeptSegs(ws, flag);
      assert !Apart(ws[m].seg, ws[n].seg);
    }
  }

  /** The endpoint of w looked at in round k of a scan. */
  function Tip(w: Seg, k: int): Point {
    if k == 1 then w.Start() else w.End()
  }

  /** What wire j adds to the endpoint counter of wire i at p: 2 where p is an inner point of j, 1 where
      it is an endpoint, nothing if the wires are parallel. */
  function TapWeight(ws: seq<Wire>, i: nat, j: nat, p: Point): nat
    requires i < |ws| && j < |ws|
  {
    var a, b := ws[i].seg, ws[j].seg;
    if ws[j].ignored || i == j || !Touch(b, p) || Parallel(a, b) then 0
    else if (p.x != b.x1 && p.x != b.x2) || (p.y != b.y1 && p.y != b.y2) then 2
    else 1
  }

  /** For axis-parallel wires. */
  lemma TapWeightReads(ws: seq<Wire>, i: nat, j: nat, p: Point)
    requires i < |ws| && j < |ws| && ws[i].seg.Ortho() && ws[j].seg.Ortho()
    ensures TapWeight(ws, i, j, p) ==
            if ws[j].ignored || i == j || Parallel(ws[i].seg, ws[j].seg) then 0
            else if Inside(ws[j].seg, p) then 2 else if IsEndOf(ws[j].seg, p) then 1 else 0
  {
    TouchOrtho(ws[j].seg, p);
    ParallelOrtho(ws[i].seg, ws[j].seg);
  }

  predicate AllBelow(b: seq<nat>, bound: nat) {
    forall k :: 0 <= k < |b| ==> b[k] < bound
  }

  function TapCount(ws: seq<Wire>, b: seq<nat>, i: nat, p: Point): nat
    requires i < |ws| && AllBelow(b, |ws|)
  {
    if b == [] then 0
    else
      var j := b[|b| - 1];
      TapCount(ws, b[..|b| - 1], i, p) + TapWeight(ws, i, j, p)
  }

  lemma {:induction false} TapCountZero(ws: seq<Wire>, b: seq<nat>, i: nat, p: Point)
    requires i < |ws| && AllBelow(b, |ws|)
    ensures TapCount(ws, b, i, p) == 0 <==> forall n :: n in b ==> n < |ws| && TapWeight(ws, i, n, p) == 0
  {
    if b == [] {
    } else {
      var m := |b| - 1;
      assert b == b[..m] + [b[m]];
      TapCountZero(ws, b[..m], i, p);
    }
  }

  /** A counter is zero exactly when no wire taps the endpoint. */
  lemma TapCountMeaning(ws: seq<Wire>, t: Table, i: nat, p: Point)
    requires Live(ws, i) && AllOrtho(Segs(ws)) && Indexed(ws, t)
    ensures AllBelow(Bucket(t, Square(p)), |ws|)
    ensures TapCount(ws, Bucket(t, Square(p)), i, p) == 0 <==> !Tapped(ws, ws[i].seg, p)
  {
    var b := Bucket(t, Square(p));
    assert forall k :: 0 <= k < |b| ==> b[k] in b;
    TapCountZero(ws, b, i, p);
    forall n | Live(ws, n)
      ensures TapWeight(ws, i, n, p) == 0 <==> !(On(ws[n].seg, p) && !Parallel(ws[i].seg, ws[n].seg))
    {
      assert ws[n].seg in Segs(ws) && ws[i].seg in Segs(ws);
      TouchOrtho(ws[n].seg, p);
      ParallelOrtho(ws[i].seg, ws[n].seg);
    }
    if Tapped(ws, ws[i].seg, p) {
      var k :| Live(ws, k) && On(ws[k].seg, p) && !Parallel(ws[i].seg, ws[k].seg);
      IndexedFinds(ws, t, k, p);
    }
  }

  /** Equal but for the endpoint counters. */
  ghost predicate SameButEnds(ws: seq<Wire>, ws': seq<Wire>) {
    |ws| == |ws'| && forall n :: 0 <= n < |ws| ==> ws'[n] == ws[n].(end1 := ws'[n].end1, end2 := ws'[n].end2)
  }

  lemma SameButEndsAt(ws: seq<Wire>, ws': seq<Wire>, n: nat, e1: int, e2: int)
    requires SameButEnds(ws, ws') && n < |ws|
    ensures ws'[n].seg == ws[n].seg && ws'[n].ignored == ws[n].ignored
    ensures SameButEnds(ws, ws'[n := ws'[n].(end1 := e1, end2 := e2)])
    ensures SameButEnds(ws', ws'[n := ws'[n].(end1 := e1, end2 := e2)])
  {
  }

  lemma SameButEndsTrans(a: seq<Wire>, b: seq<Wire>, c: seq<Wire>)
    requires SameButEnds(a, b) && SameButEnds(b, c)
    ensures SameButEnds(a, c)
  {
  }

  lemma SameButEndsFacts(ws: seq<Wire>, ws': seq<Wire>)
    requires SameButEnds(ws, ws')
    ensures Segs(ws) == Segs(ws') && Bystanders(ws) == Bystanders(ws')
    ensures AllApart(ws) <==> AllApart(ws')
    ensures Normal(ws) <==> Normal(ws')
    ensures forall t :: Indexed(ws, t) <==> Indexed(ws', t)
    ensures forall c :: FreshIds(ws, c) <==> FreshIds(ws', c)
  {
    forall n ensures Live(ws, n) <==> Live(ws', n) { }
    BystandersPointwise(ws, ws');
    TappedSame(ws, ws');
    SameSegs(ws, ws');
  }

  lemma TappedSame(ws: seq<Wire>, ws': seq<Wire>)
    requires SameButEnds(ws, ws')
    ensures forall w, p :: Tapped(ws, w, p) <==> Tapped(ws', w, p)
  {
    forall w, p ensures Tapped(ws, w, p) <==> Tapped(ws', w, p) {
      if k :| Live(ws, k) && On(ws[k].seg, p) && !Parallel(w, ws[k].seg) {
        assert Live(ws', k);
      }
      if k :| Live(ws', k) && On(ws'[k].seg, p) && !Parallel(w, ws'[k].seg) {
        assert Live(ws, k);
      }
    }
  }

  /** The counters of the first i wires of ws' are right for the wires of ws. */
  ghost predicate CountedUpTo(ws: seq<Wire>, ws': seq<Wire>, i: int)
    requires SameButEnds(ws, ws')
  {
    forall n :: 0 <= n < i && Live(ws, n) ==>
                  && (ws'[n].end1 == 0 <==> !Tapped(ws, ws[n].seg, ws[n].seg.Start()))
                  && (ws'[n].end2 == 0 <==> !Tapped(ws, ws[n].seg, ws[n].seg.End()))
  }

  lemma CountedNext(ws: seq<Wire>, ws': seq<Wire>, i: nat, e1: int, e2: int)
    requires SameButEnds(ws, ws') && CountedUpTo(ws, ws', i) && i < |ws|
    requires ws[i].ignored || (&& (e1 == 0 <==> !Tapped(ws, ws[i].seg, ws[i].seg.Start()))
                               && (e2 == 0 <==> !Tapped(ws, ws[i].seg, ws[i].seg.End())))
    ensures var ws'' := ws'[i := ws'[i].(end1 := e1, end2 := e2)];
            SameButEnds(ws, ws'') && CountedUpTo(ws, ws'', i + 1)
  {
    SameButEndsAt(ws, ws', i, e1, e2);
    hide SameButEnds, Tapped;
  }

  predicate NothingMergeable(ws: seq<Wire>) {
    forall i, j :: 0 <= i < |ws| && 0 <= j < |ws| ==> !Mergeable(ws, i, j)
  }

  /** The merge loop, started on ws0, has reached wire i. */
  ghost predicate MergingAt(ws0: seq<Wire>, ws: seq<Wire>, flag: seq<bool>, i: int) {
    && Growing(ws0, ws, flag)
    && (forall n :: i <= n < |ws| && Kept(ws, flag, n) ==> ws[n].seg == ws0[n].seg)
    && (Unflagged(flag) ==> forall m, j :: 0 <= m < i ==> !Mergeable(ws0, m, j))
    && (NothingMergeable(ws0) ==> Unflagged(flag))
  }

  lemma MergingAbsorbs(ws0: seq<Wire>, ws: seq<Wire>, flag: seq<bool>, i: nat, j: nat)
    requires MergingAt(ws0, ws, flag, i) && AllOrtho(Segs(ws0)) && AllApart(ws0) && EndsCounted(ws0)
    requires Kept(ws, flag, i) && Kept(ws, flag, j) && i != j && Mergeable(ws, i, j)
    ensures MergingAt(ws0, Absorb(ws, i, j), flag[j := true], i + 1)
  {
    hide SelectedFrom, Descends, SameNets, SameCover, AllApart, EndsCounted, AllOrtho;
    AbsorbGrows(ws0, ws, flag, i, j);
    assert flag[j := true][j];
    if Unflagged(flag) {
      assert Mergeable(ws0, i, j) && !NothingMergeable(ws0);
    }
    forall n | i + 1 <= n < |ws| && Kept(Absorb(ws, i, j), flag[j := true], n)
      ensures Absorb(ws, i, j)[n].seg == ws0[n].seg
    {
      assert Kept(ws, flag, n);
    }
  }

  lemma MergingSkips(ws0: seq<Wire>, ws: seq<Wire>, flag: seq<bool>, i: nat)
    requires MergingAt(ws0, ws, flag, i) && i < |ws|
    requires Unflagged(flag) ==> forall j :: !Mergeable(ws0, i, j)
    ensures MergingAt(ws0, ws, flag, i + 1)
  {
  }

  /** Starts do not move while merging, so the grid built for ws0 still finds every candidate. */
  lemma NothingFound(ws0: seq<Wire>, t: Table, ws: seq<Wire>, flag: seq<bool>, i: nat)
    requires MergingAt(ws0, ws, flag, i) && Kept(ws, flag, i) && Indexed(ws0, t) && AllOrtho(Segs(ws0))
    requires forall n :: n in Bucket(t, Square(ws[i].seg.End())) && Kept(ws, flag, n) ==> !Mergeable(ws, i, n)
    ensures Unflagged(flag) ==> forall j :: !Mergeable(ws0, i, j)
  {
    if Unflagged(flag) {
      forall j ensures !Mergeable(ws0, i, j) {
        if Mergeable(ws0, i, j) {
          assert ws0[j].seg in Segs(ws0);
          IndexedFinds(ws0, t, j, ws0[i].seg.End());
        }
      }
    }
  }

  lemma MergingDone(ws0: seq<Wire>, ws: seq<Wire>, flag: seq<bool>)
    requires MergingAt(ws0, ws, flag, |ws|) && AllOrtho(Segs(ws0)) && AllApart(ws0) && EndsCounted(ws0)
    ensures Preserved(ws0, Keep(ws, flag)) && AllApart(Keep(ws, flag))
    ensures Unflagged(flag) <==> Normal(ws0)
    ensures Unflagged(flag) ==> ws == ws0
  {
    GrownPreserves(ws0, ws, flag);
    NormalIffNothingMergeable(ws0);
    if Unflagged(flag) {
      forall i, j ensures !Mergeable(ws0, i, j) { }
    }
  }

  lemma CountedAll(ws: seq<Wire>, ws': seq<Wire>)
    requires SameButEnds(ws, ws') && CountedUpTo(ws, ws', |ws|)
    ensures EndsCounted(ws')
    ensures Segs(ws) == Segs(ws')
    ensures forall t :: Indexed(ws, t) ==> Indexed(ws', t)
    ensures forall c :: FreshIds(ws, c) ==> FreshIds(ws', c)
  {
    SameButEndsFacts(ws, ws');
    TappedSame(ws, ws');
    forall n | Live(ws', n)
      ensures ws'[n].end1 == 0 <==> !Tapped(ws', ws'[n].seg, ws'[n].seg.Start())
      ensures ws'[n].end2 == 0 <==> !Tapped(ws', ws'[n].seg, ws'[n].seg.End())
    {
      assert Live(ws, n);
    }
  }

  lemma Rehash(ws: seq<Wire>, ws': seq<Wire>)
    requires SameButEnds(ws, ws') && AllOrtho(Segs(ws))
    ensures AllOrtho(Segs(ws')) && Preserved(ws, ws')
    ensures Within(ws, ws') && SameStarts(ws, ws') && Rooted(ws, ws')
    ensures forall c :: Traced(ws, c, ws')
    ensures AllApart(ws) <==> AllApart(ws')
    ensures AllApart(ws) ==> NoBreaks(Segs(ws'))
  {
    SameButEndsFacts(ws, ws');
    UnmovedLabels(ws, ws');
    if AllApart(ws) {
      ApartNoBreaks(ws);
    }
  }

  /** A merge phase started on ws1, and wires differing from its outcome in counters only. */
  lemma ReselectedSame(ws0: seq<Wire>, ws1: seq<Wire>, ws2: seq<Wire>, ws3: seq<Wire>)
    requires SameButEnds(ws0, ws1) && Reselected(ws1, ws2) && SameButEnds(ws2, ws3)
    ensures Reselected(ws0, ws3)
  {
    hide Descends, Includes, SameKind;
    SameSegs(ws0, ws1);
    forall n | Live(ws3, n) ensures SelectedFrom(ws0, ws3[n]) && Descends(Segs(ws0), ws3[n].seg) {
      assert SelectedFrom(ws1, ws2[n]);
      SelectedFromSame(ws0, ws1, ws2[n], ws3[n]);
    }
  }

  lemma SelectedFromSame(ws0: seq<Wire>, ws1: seq<Wire>, v: Wire, v': Wire)
    requires SameButEnds(ws0, ws1) && SelectedFrom(ws1, v) && v'.seg == v.seg && v'.sel == v.sel
    ensures SelectedFrom(ws0, v')
  {
    hide Includes, SameKind;
    forall k ensures Live(ws0, k) <==> Live(ws1, k) { }
    if v.sel != UNSELECTED {
      var m :| LastSelected(ws1, v.seg, m) && ws1[m].sel == v.sel;
      assert LastSelected(ws0, v.seg, m);
    }
  }

  lemma {:induction false} KeepSameButEnds(ws: seq<Wire>, ws': seq<Wire>, flag: seq<bool>)
    requires |flag| == |ws| && SameButEnds(ws, ws')
    ensures SameButEnds(Keep(ws, flag), Keep(ws', flag))
    ensures EndsReset(ws') ==> EndsReset(Keep(ws', flag))
  {
    if |ws| == 0 {
    } else {
      var n := |ws| - 1;
      KeepSameButEnds(ws[..n], ws'[..n], flag[..n]);
    }
  }

  /** What the second half of a pass has achieved: ws1 after counting, ws2 after merging, ws3 after the reset. */
  lemma MergePhaseKeeps(ws0: seq<Wire>, ws1: seq<Wire>, ws2: seq<Wire>, ws3: seq<Wire>, flag: seq<bool>)
    requires SameButEnds(ws0, ws1) && AllOrtho(Segs(ws1)) && AllApart(ws1) && EndsCounted(ws1)
    requires MergingAt(ws1, ws2, flag, |ws2|) && SameButEnds(ws2, ws3)
    ensures Preserved(ws0, Keep(ws3, flag)) && AllApart(Keep(ws3, flag))
    ensures SameStarts(ws0, Keep(ws3, flag)) && Reselected(ws0, Keep(ws3, flag))
    ensures EndsReset(ws3) ==> EndsReset(Keep(ws3, flag))
    ensures |Keep(ws3, flag)| == |ws0| <==> Normal(ws0)
    ensures Normal(ws0) ==> SameButEnds(ws0, Keep(ws3, flag))
  {
    assert |ws0| == |ws1| == |ws2| == |ws3| == |flag|;
    hide Preserved, SameStarts, Within, Rooted, AllApart, Normal, Reselected;
    hide EndsCounted, MergingAt, SameButEnds, EndsReset, AllOrtho, NoBreaks;
    var merged, afterReset := Keep(ws2, flag), Keep(ws3, flag);
    MergingDone(ws1, ws2, flag);
    SameButEndsFacts(ws0, ws1);
    KeepSameButEnds(ws2, ws3, flag);
    SameButEndsFacts(merged, afterReset);
    Rehash(ws0, ws1);
    Rehash(merged, afterReset);
    PreservedTrans(ws0, ws1, merged);
    PreservedTrans(ws0, merged, afterReset);
    KeepAll(ws3, flag);
    MergedLabels(ws0, ws1, ws2, ws3, flag);
    MergedSelected(ws1, ws2, flag);
    ReselectedSame(ws0, ws1, merged, afterReset);
    if Normal(ws0) {
      SameButEndsTrans(ws0, ws1, ws3);
    }
  }

  lemma MergedSelected(ws1: seq<Wire>, ws2: seq<Wire>, flag: seq<bool>)
    requires MergingAt(ws1, ws2, flag, |ws2|)
    ensures Reselected(ws1, Keep(ws2, flag))
  {
    hide Growing, Reselected;
    GrownReselected(ws1, ws2, flag);
  }

  lemma MergedLabels(ws0: seq<Wire>, ws1: seq<Wire>, ws2: seq<Wire>, ws3: seq<Wire>, flag: seq<bool>)
    requires SameButEnds(ws0, ws1) && MergingAt(ws1, ws2, flag, |ws2|) && SameButEnds(ws2, ws3)
    ensures SameStarts(ws0, Keep(ws3, flag))
  {
    hide SameNets, SameCover, KeptApart, SameStarts, Descends, SelectedFrom;
    assert forall n :: 0 <= n < |ws2| ==> Grown(ws1[n], ws2[n]);
    GrownSameStarts(ws0, ws3, flag);
  }

  lemma MergedStore(ws0: seq<Wire>, ws1: seq<Wire>, ws2: seq<Wire>, ws3: seq<Wire>, flag: seq<bool>, counter: nat,
      t: Table)
    requires SameButEnds(ws0, ws1) && MergingAt(ws1, ws2, flag, |ws2|) && SameButEnds(ws2, ws3)
    requires FreshIds(ws1, counter) && Indexed(ws1, t)
    ensures FreshIds(Keep(ws3, flag), counter)
    ensures |Keep(ws3, flag)| == |ws3| ==> Indexed(Keep(ws3, flag), t)
  {
    assert FreshIds(ws2, counter);
    SameButEndsFacts(ws2, ws3);
    KeepIds(ws3, flag, counter);
    KeepAll(ws3, flag);
  }

  lemma DeletedIncluded(ws: seq<Wire>, flag: seq<bool>, counter: nat)
    requires AllOrtho(Segs(ws)) && NoBreaks(Segs(ws)) && FreshIds(ws, counter)
    requires |flag| == |ws| && Witnessed(ws, flag) && KeptApart(ws, flag)
    ensures Preserved(ws, Keep(ws, flag)) && AllApart(Keep(ws, flag)) && FreshIds(Keep(ws, flag), counter)
    ensures Within(ws, Keep(ws, flag)) && Traced(ws, counter, Keep(ws, flag))
    ensures |Keep(ws, flag)| == |ws| ==> Keep(ws, flag) == ws
    ensures AllApart(ws) ==> |Keep(ws, flag)| == |ws|
  {
    WitnessedIncluded(ws, flag);
    DeletePreserves(ws, flag);
    KeepApart(ws, flag);
    KeepIds(ws, flag, counter);
    KeepAll(ws, flag);
    KeepWithin(ws, flag);
    KeepTraced(ws, flag, counter);
  }

  lemma SameSegs(ws: seq<Wire>, ws': seq<Wire>)
    requires SameButEnds(ws, ws')
    ensures Segs(ws) == Segs(ws')
  {
    forall s | s in Segs(ws) ensures s in Segs(ws') {
      var n := SegsIndex(ws, s);
      assert Live(ws', n);
    }
    forall s | s in Segs(ws') ensures s in Segs(ws) {
      var n := SegsIndex(ws', s);
      assert Live(ws, n);
    }
  }

  predicate EndsReset(ws: seq<Wire>) {
    forall n :: 0 <= n < |ws| ==> ws[n].end1 == -1 && ws[n].end2 == -1
  }

  /** wireinsert / wiredelete on one cell. */
  function Rehashed(insert: bool, n: nat, b: seq<nat>): seq<nat> {
    if insert then [n] + b else Unlink(b, n)
  }

  /** t' is t after wireinsert / wiredelete of wire n in every cell its segment s visits. */
  ghost predicate RehashedTable(insert: bool, n: nat, s: Seg, t: Table, t': Table) {
    forall c {:trigger Bucket(t', c)} :: Bucket(t', c) == if Visits(s, c) then Rehashed(insert, n, Bucket(t, c))
        else Bucket(t, c)
  }

  /** The grid is exact for the first n wires. */
  ghost predicate IndexedUpTo(ws: seq<Wire>, t: Table, n: int) {
    && (forall c, m {:trigger m in Bucket(t, c)} :: m in Bucket(t, c) ==> m < n)
    && (forall m, c {:trigger Visits(ws[m].seg, c)} :: m < n && Live(ws, m) && Visits(ws[m].seg, c) ==>
        m in Bucket(t, c))
  }

  /** Each cell lists its wires newest first. */
  ghost predicate NewestFirst(t: Table) {
    forall c :: Falling(Bucket(t, c))
  }

  predicate Falling(b: seq<nat>) {
    forall i, j :: 0 <= i < j < |b| ==> b[i] > b[j]
  }

  lemma NewestFirstNext(ws: seq<Wire>, t: Table, t': Table, n: nat)
    requires n < |ws| && IndexedUpTo(ws, t, n) && NewestFirst(t)
    requires if ws[n].ignored then t' == t else RehashedTable(true, n, ws[n].seg, t, t')
    ensures NewestFirst(t')
  {
    hide Visits, Bucket;
    forall c ensures Falling(Bucket(t', c)) {
      var b := Bucket(t, c);
      assert Falling(b);
      forall i | 0 <= i < |b| ensures b[i] < n {
        assert b[i] in Bucket(t, c);
      }
      assert Bucket(t', c) == b || Bucket(t', c) == [n] + b;
    }
  }

  lemma IndexedNone(ws: seq<Wire>)
    ensures IndexedUpTo(ws, map[], 0) && NewestFirst(map[])
  {
  }

  lemma IndexedNext(ws: seq<Wire>, t: Table, t': Table, n: nat)
    requires n < |ws| && IndexedUpTo(ws, t, n)
    requires if ws[n].ignored then t' == t else RehashedTable(true, n, ws[n].seg, t, t')
    ensures IndexedUpTo(ws, t', n + 1)
  {
    hide Visits, Bucket;
  }

  lemma IndexedAll(ws: seq<Wire>, t: Table)
    requires IndexedUpTo(ws, t, |ws|)
    ensures Indexed(ws, t)
  {
    hide Visits, Bucket;
  }

  /** The three updates of the grid that go with a cut keep it exact: the new wire is entered at the head,
      wire j is taken out of and put back into the cells of its tail. */
  lemma SplitIndexed(ws: seq<Wire>, j: nat, p: Point, id: nat, t0: Table, t1: Table, t2: Table, t3: Table)
    requires Live(ws, j) && Indexed(ws, t0)
    requires RehashedTable(true, |ws|, Head(ws[j].seg, p), t0, t1)
    requires RehashedTable(false, j, Tail(ws[j].seg, p), t1, t2)
    requires RehashedTable(true, j, Tail(ws[j].seg, p), t2, t3)
    ensures Indexed(SplitAt(ws, j, p, id), t3)
  {
    hide Visits, Bucket, Head, Tail;
    var ws' := SplitAt(ws, j, p, id);
    forall c, m: nat | m in Bucket(t3, c) ensures m < |ws'| {
      assert m == j || m in Bucket(t2, c);
      assert m == j || m in Bucket(t1, c);
    }
    forall m, c | Live(ws', m) && Visits(ws'[m].seg, c) ensures m in Bucket(t3, c) {
      if m != j {
        if m < |ws| { assert Live(ws, m); }
        assert m in Bucket(t1, c);
        assert m in Bucket(t2, c);
      }
    }
  }

  class Schematic {
    var wire: seq<Wire>
    var wireSpatialTable: Table
    var prepHashWires: bool
    var wireIdCounter: nat
    var modified: bool

    /** The grid, when marked as prepared, is up to date; identities are unique. */
    ghost predicate Valid()
      reads this
    {
      && FreshIds(wire, wireIdCounter)
      && (prepHashWires ==> Indexed(wire, wireSpatialTable))
    }

    constructor (ws: seq<Wire>, counter: nat)
      requires FreshIds(ws, counter)
      ensures Valid() && wire == ws && wireIdCounter == counter && !modified
    {
      wire, wireSpatialTable, prepHashWires, wireIdCounter, modified := ws, map[], false, counter, false;
    }

    /** hash_wire, without its `incremental` mode. */
    method HashWire(insert: bool, n: nat)
      requires n < |wire|
      modifies this`wire, this`wireSpatialTable
      ensures old(wire[n].ignored) ==> wire == old(wire) && wireSpatialTable == old(wireSpatialTable)
      ensures !old(wire[n].ignored) ==> wire == old(wire)[n := old(wire)[n].(end1 := -1, end2 := -1)]
      ensures !old(wire[n].ignored) ==>
          RehashedTable(insert, n, old(wire[n].seg), old(wireSpatialTable), wireSpatialTable)
    {
      hide Unlink, Square;
      if wire[n].ignored {
        return;
      }
      wire := wire[n := wire[n].(end1 := -1, end2 := -1)];
      var s := wire[n].seg;
      ghost var t0 := wireSpatialTable;
      var x1a, x2a := Index(Min(s.x1, s.x2)), Index(Max(s.x1, s.x2));
      var y1a, y2a := Index(Min(s.y1, s.y2)), Index(Max(s.y1, s.y2));
      var i := x1a;
      while i <= x2a && i - x1a < NBOXES
        invariant x1a <= i <= ScanEnd(x1a, x2a) || i == x1a
        invariant wire == old(wire)[n := old(wire)[n].(end1 := -1, end2 := -1)]
        invariant forall c {:trigger Bucket(wireSpatialTable, c)} ::
                    Bucket(wireSpatialTable, c) == if Residue(x1a, i, c.0) && MetY(s, c.1)
                        then Rehashed(insert, n, Bucket(t0, c))
                                                   else Bucket(t0, c)
      {
        var j := y1a;
        ResidueNext(x1a, i);
        while j <= y2a && j - y1a < NBOXES
          invariant y1a <= j <= ScanEnd(y1a, y2a) || j == y1a
          invariant wire == old(wire)[n := old(wire)[n].(end1 := -1, end2 := -1)]
          invariant forall c {:trigger Bucket(wireSpatialTable, c)} ::
                      Bucket(wireSpatialTable, c) == if (Residue(x1a, i, c.0) && MetY(s, c.1))
                          || (c.0 == i % NBOXES && Residue(y1a, j, c.1))
                                                     then Rehashed(insert, n, Bucket(t0, c)) else Bucket(t0, c)
        {
          ResidueNext(y1a, j);
          var c := (i % NBOXES, j % NBOXES);
          ghost var t1 := wireSpatialTable;
          assert Bucket(t1, c) == Bucket(t0, c);
          wireSpatialTable := wireSpatialTable[c := Rehashed(insert, n, Bucket(wireSpatialTable, c))];
          assert forall d {:trigger Bucket(wireSpatialTable, d)} ::
              Bucket(wireSpatialTable, d) == if d.0 == i % NBOXES && d.1 == j % NBOXES
                  then Rehashed(insert, n, Bucket(t0, d))
                                             else Bucket(t1, d);
          j := j + 1;
        }
        i := i + 1;
      }
    }

    /** hash_wires */
    method HashWires()
      requires Valid()
      modifies this`wire, this`wireSpatialTable, this`prepHashWires
      ensures Valid() && prepHashWires && SameButEnds(old(wire), wire)
      ensures Indexed(wire, wireSpatialTable)
      ensures !old(prepHashWires) ==> NewestFirst(wireSpatialTable)
    {
      hide RehashedTable, Indexed, IndexedUpTo, FreshIds, Live, NewestFirst;
      if prepHashWires {
        return;
      }
      SameButEndsFacts(wire, wire);
      wireSpatialTable := map[];
      IndexedNone(wire);
      var n := 0;
      while n < |wire|
        invariant 0 <= n <= |wire| == |old(wire)| && SameButEnds(old(wire), wire)
        invariant IndexedUpTo(old(wire), wireSpatialTable, n) && NewestFirst(wireSpatialTable)
      {
        ghost var t := wireSpatialTable;
        SameButEndsAt(old(wire), wire, n, -1, -1);
        HashWire(true, n);
        IndexedNext(old(wire), t, wireSpatialTable, n);
        NewestFirstNext(old(wire), t, wireSpatialTable, n);
        n := n + 1;
      }
      IndexedAll(old(wire), wireSpatialTable);
      SameButEndsFacts(old(wire), wire);
      prepHashWires := true;
    }

    /** wire_store_split and the caller's update of the wire that was cut. */
    method Split(j: nat, p: Point)
      requires Valid() && Live(wire, j) && Indexed(wire, wireSpatialTable)
      modifies this`wire, this`wireSpatialTable, this`wireIdCounter
      ensures wireIdCounter == old(wireIdCounter) + 1
      ensures wire == SplitAt(old(wire), j, p, wireIdCounter)
      ensures Valid() && Indexed(wire, wireSpatialTable)
    {
      hide RehashedTable, Indexed, Visits, Bucket, Square;
      var w := wire[j];
      var (headSel, tailSel) := SplitSel(w.sel);
      wireIdCounter := wireIdCounter + 1;
      wire := wire + [w.(seg := Head(w.seg, p), end2 := 1, sel := headSel, id := wireIdCounter)];
      HashWire(true, |wire| - 1);
      ghost var t1 := wireSpatialTable;
      wire := wire[j := wire[j].(seg := Tail(w.seg, p), sel := tailSel)];
      HashWire(false, j);
      ghost var t2 := wireSpatialTable;
      HashWire(true, j);
      assert wire == SplitAt(old(wire), j, p, wireIdCounter);
      SplitIndexed(old(wire), j, p, wireIdCounter, old(wireSpatialTable), t1, t2, wireSpatialTable);
    }

    /** One visit of the breaking loop to wire i: the first wire in the cells of its endpoints that such
        an endpoint breaks is cut, and the visit ends there. */
    method BreakAround(i: nat) returns (broke: bool, ghost j: nat, ghost p: Point)
      requires Valid() && Live(wire, i) && Indexed(wire, wireSpatialTable) && AllOrtho(Segs(wire))
      modifies this`wire, this`wireSpatialTable, this`wireIdCounter
      ensures Valid() && Indexed(wire, wireSpatialTable)
      ensures !broke ==> unchanged(this) && Settled(wire, wire[i].seg.Start()) && Settled(wire, wire[i].seg.End())
      ensures broke ==> && Live(old(wire), j) && j != i && IsEndOf(old(wire)[i].seg, p) && Inside(old(wire)[j].seg, p)
                        && wireIdCounter == old(wireIdCounter) + 1
                        && wire == SplitAt(old(wire), j, p, wireIdCounter)
    {
      broke, j, p := false, 0, Point(0.0, 0.0);
      for k := 1 to 3
        invariant unchanged(this)
        invariant k > 1 ==> Settled(wire, wire[i].seg.Start())
        invariant k > 2 ==> Settled(wire, wire[i].seg.End())
      {
        var q := Tip(wire[i].seg, k);
        var b := Bucket(wireSpatialTable, Square(q));
        for m := 0 to |b|
          invariant unchanged(this)
          invariant forall l :: 0 <= l < m && Live(wire, b[l]) ==> !Inside(wire[b[l]].seg, q)
        {
          var n := b[m];
          assert n in b;
          assert Live(wire, n) ==> wire[n].seg in Segs(wire);
          if i != n && !wire[n].ignored && CheckBreaks(wire[n].seg, q) {
            BreaksOrtho(wire[n].seg, q);
            Split(n, q);
            broke, j, p := true, n, q;
            return;
          }
          if Live(wire, n) {
            BreaksOrtho(wire[n].seg, q);
          }
        }
        forall n | Live(wire, n) ensures !Inside(wire[n].seg, q) {
          if Inside(wire[n].seg, q) {
            IndexedFinds(wire, wireSpatialTable, n, q);
          }
        }
      }
    }

    /** The same visit, seen from the breaking loop started on ws0. */
    method VisitWire(i: nat, ghost ws0: seq<Wire>, ghost c: nat, ghost E: set<Point>) returns (broke: bool)
      requires Valid() && Indexed(wire, wireSpatialTable) && i < |wire| && Breaking(ws0, c, E, wire, i)
      requires c <= wireIdCounter
      modifies this`wire, this`wireSpatialTable, this`wireIdCounter
      ensures Valid() && Indexed(wire, wireSpatialTable) && wireIdCounter >= old(wireIdCounter)
      ensures !broke ==> wire == old(wire) && Breaking(ws0, c, E, wire, i + 1)
      ensures broke ==> |wire| == |old(wire)| + 1 && Breaking(ws0, c, E, wire, i)
      ensures broke ==> CutsLeft(wire, E) < CutsLeft(old(wire), E) && !NoBreaks(Segs(old(wire)))
    {
      broke := false;
      if !wire[i].ignored {
        ghost var j, p := 0, Point(0.0, 0.0);
        broke, j, p := BreakAround(i);
        if broke {
          BreakingCut(ws0, c, E, old(wire), i, j, p, wireIdCounter);
          return;
        }
      }
      BreakingNext(ws0, c, E, wire, i);
    }

    /** The first phase: break all wires.  The visit to a wire is repeated until it breaks nothing. */
    method BreakWires() returns (changed: bool)
      requires Valid() && Indexed(wire, wireSpatialTable) && AllOrtho(Segs(wire))
      modifies this`wire, this`wireSpatialTable, this`wireIdCounter
      ensures Valid() && Indexed(wire, wireSpatialTable)
      ensures Preserved(old(wire), wire) && Within(old(wire), wire) && NoBreaks(Segs(wire))
      ensures Traced(old(wire), old(wireIdCounter), wire)
      ensures wireIdCounter >= old(wireIdCounter)
      ensures !changed ==> wire == old(wire)
      ensures NoBreaks(Segs(old(wire))) ==> !changed
    {
      hide Preserved, Within, Traced, Indexed, FreshIds, NoBreaks;
      changed := false;
      ghost var ws0, c, E := wire, wireIdCounter, EndPoints(wire);
      BreakingStarts(wire, wireIdCounter);
      var i := 0;
      while i < |wire|
        invariant 0 <= i <= |wire|
        invariant Valid() && Indexed(wire, wireSpatialTable)
        invariant wireIdCounter >= old(wireIdCounter) && prepHashWires == old(prepHashWires)
        invariant Breaking(ws0, c, E, wire, i)
        invariant !changed ==> wire == ws0
        invariant NoBreaks(Segs(ws0)) ==> !changed
        decreases CutsLeft(wire, E), |wire| - i
      {
        var broke := VisitWire(i, ws0, c, E);
        if broke {
          changed := true;
        } else {
          i := i + 1;
        }
      }
      BreakingDone(ws0, c, E, wire);
    }

    /** The second phase: flag every wire included in another unflagged one. */
    method FlagIncluded(flag: array<bool>)
      requires prepHashWires && Indexed(wire, wireSpatialTable) && AllOrtho(Segs(wire)) && NoBreaks(Segs(wire))
      requires flag.Length == |wire| && Unflagged(flag[..])
      modifies flag
      ensures Witnessed(wire, flag[..]) && KeptApart(wire, flag[..])
    {
      var i := 0;
      while i < |wire|
        invariant 0 <= i <= |wire|
        invariant Witnessed(wire, flag[..]) && Reduced(wire, flag[..], i)
      {
        if !flag[i] && !wire[i].ignored {
          FlagIncludedIn(i, flag);
        }
        i := i + 1;
      }
      ReducedApart(wire, flag[..]);
    }

    method FlagIncludedIn(i: nat, flag: array<bool>)
      requires Indexed(wire, wireSpatialTable) && AllOrtho(Segs(wire)) && NoBreaks(Segs(wire))
      requires flag.Length == |wire| && Kept(wire, flag[..], i)
      requires Witnessed(wire, flag[..]) && Reduced(wire, flag[..], i)
      modifies flag
      ensures Witnessed(wire, flag[..]) && Reduced(wire, flag[..], i + 1)
    {
      FlagAtEnd(i, 1, flag);
      ghost var f := flag[..];
      FlagAtEnd(i, 2, flag);
      forall n | Kept(wire, flag[..], n) && n != i ensures !Includes(wire[i].seg, wire[n].seg) {
        assert Kept(wire, f, n);
        IncludedTouchesEnd(wire, i, n);
      }
    }

    /** Flag the wires in the cell of one endpoint of wire i that wire i includes. */
    method FlagAtEnd(i: nat, k: int, flag: array<bool>)
      requires Indexed(wire, wireSpatialTable) && AllOrtho(Segs(wire))
      requires flag.Length == |wire| && Kept(wire, flag[..], i)
      requires Witnessed(wire, flag[..]) && Reduced(wire, flag[..], i)
      modifies flag
      ensures Kept(wire, flag[..], i) && Witnessed(wire, flag[..]) && Reduced(wire, flag[..], i)
      ensures forall n :: 0 <= n < |wire| && old(flag[n]) ==> flag[n]
      ensures forall n :: Kept(wire, flag[..], n) && n != i && On(wire[n].seg, Tip(wire[i].seg, k)) ==>
          !Includes(wire[i].seg, wire[n].seg)
    {
      hide Bucket, Square, Witnessed, Reduced;
      var q := Tip(wire[i].seg, k);
      var b := Bucket(wireSpatialTable, Square(q));
      for m := 0 to |b|
        invariant Kept(wire, flag[..], i) && Witnessed(wire, flag[..]) && Reduced(wire, flag[..], i)
        invariant forall n :: 0 <= n < |wire| && old(flag[n]) ==> flag[n]
        invariant forall l :: 0 <= l < m && Kept(wire, flag[..], b[l]) && b[l] != i ==>
            !Includes(wire[i].seg, wire[b[l]].seg)
      {
        var n := b[m];
        assert n in b;
        if !wire[n].ignored && i != n && !flag[n] {
          assert wire[i].seg in Segs(wire) && wire[n].seg in Segs(wire);
          IncludesOrtho(wire[i].seg, wire[n].seg);
          if CheckIncludes(wire[i].seg, wire[n].seg) {
            FlagStep(wire, flag[..], i, n, i);
            ghost var f := flag[..];
            flag[n] := true;
            assert flag[..] == f[n := true];
          }
        }
      }
      forall n | Kept(wire, flag[..], n) && n != i && On(wire[n].seg, q) ensures !Includes(wire[i].seg, wire[n].seg) {
        IndexedFinds(wire, wireSpatialTable, n, q);
      }
    }

    /** wire_delete_compact: shift the unflagged wires down over the flagged ones. */
    method DeleteCompact(flag: array<bool>) returns (deleted: nat)
      requires flag.Length == |wire|
      modifies this`wire
      ensures wire == Keep(old(wire), flag[..]) && deleted == |old(wire)| - |wire|
    {
      ghost var ws := wire;
      var i := 0;
      deleted := 0;
      while i < |wire|
        invariant 0 <= i <= |wire| == |ws| && deleted <= i
        invariant wire[i..] == ws[i..]
        invariant wire[..i - deleted] == Keep(ws[..i], flag[..i])
      {
        assert ws[..i + 1][..i] == ws[..i] && flag[..i + 1][..i] == flag[..i];
        assert wire[i] == ws[i] by { assert wire[i..][0] == ws[i..][0]; }
        assert wire[i + 1..] == ws[i + 1..] by {
          assert wire[i + 1..] == wire[i..][1..] && ws[i + 1..] == ws[i..][1..];
        }
        if flag[i] {
          deleted := deleted + 1;
        } else if deleted > 0 {
          wire := wire[i - deleted := wire[i]];
        }
        i := i + 1;
      }
      wire := wire[..|wire| - deleted];
      assert ws[..|ws|] == ws && flag[..|ws|] == flag[..];
    }

    /** The third phase: count, at each end of each wire, the wires not parallel to it. */
    method CountEnds()
      requires Valid() && prepHashWires && AllOrtho(Segs(wire))
      modifies this`wire
      ensures Valid() && SameButEnds(old(wire), wire)
      ensures EndsCounted(wire)
    {
      ghost var ws := wire;
      var i := 0;
      while i < |wire|
        invariant 0 <= i <= |wire| && SameButEnds(ws, wire) && CountedUpTo(ws, wire, i)
      {
        CountWire(i, ws);
        i := i + 1;
      }
      CountedAll(ws, wire);
    }

    method CountWire(i: nat, ghost ws: seq<Wire>)
      requires i < |wire| == |ws| && SameButEnds(ws, wire) && CountedUpTo(ws, wire, i)
      requires Indexed(ws, wireSpatialTable) && AllOrtho(Segs(ws))
      modifies this`wire
      ensures SameButEnds(ws, wire) && CountedUpTo(ws, wire, i + 1)
    {
      hide CountedUpTo, Tapped, Indexed, TapCount, AllBelow, AllOrtho, Segs, Bystanders, FreshIds, Normal, AllApart;
      hide Bucket, Square, SameButEnds;
      ghost var ws1 := wire;
      SameButEndsAt(ws, wire, i, 0, 0);
      wire := wire[i := wire[i].(end1 := 0, end2 := 0)];
      if wire[i].ignored {
        CountedNext(ws, ws1, i, 0, 0);
        return;
      }
      SameButEndsFacts(ws, wire);
      TappedSame(ws, wire);
      var e1 := CountAt(i, 1);
      var e2 := CountAt(i, 2);
      CountedNext(ws, ws1, i, e1, e2);
      wire := wire[i := wire[i].(end1 := e1, end2 := e2)];
      assert wire == ws1[i := ws1[i].(end1 := e1, end2 := e2)];
    }

    method CountAt(i: nat, k: int) returns (e: nat)
      requires Live(wire, i) && Indexed(wire, wireSpatialTable) && AllOrtho(Segs(wire)) && (k == 1 || k == 2)
      ensures var q := Tip(wire[i].seg, k);
              && AllBelow(Bucket(wireSpatialTable, Square(q)), |wire|)
              && e == TapCount(wire, Bucket(wireSpatialTable, Square(q)), i, q)
              && (e == 0 <==> !Tapped(wire, wire[i].seg, q))
    {
      var q := Tip(wire[i].seg, k);
      var b := Bucket(wireSpatialTable, Square(q));
      TapCountMeaning(wire, wireSpatialTable, i, q);
      e := 0;
      for m := 0 to |b|
        invariant AllBelow(b[..m], |wire|) && e == TapCount(wire, b[..m], i, q)
      {
        var j := b[m];
        assert b[..m + 1][..m] == b[..m];
        var a, c := wire[i].seg, wire[j].seg;
        if !wire[j].ignored && i != j && Touch(c, q) && !Parallel(a, c) {
          if (q.x != c.x1 && q.x != c.x2) || (q.y != c.y1 && q.y != c.y2) {
            e := e + 2;
          } else {
            e := e + 1;
          }
        }
      }
      assert b[..|b|] == b;
    }

    /** The fourth phase: lengthen each wire over one that starts where it ends, if the joint is free. */
    method MergeAbutting(flag: array<bool>)
      requires Valid() && prepHashWires && AllOrtho(Segs(wire)) && AllApart(wire) && EndsCounted(wire)
      requires flag.Length == |wire| && Unflagged(flag[..])
      modifies this`wire, flag
      ensures MergingAt(old(wire), wire, flag[..], |wire|)
    {
      hide SelectedFrom, Descends, SameNets, SameCover, AllApart, KeptApart, EndsCounted, AllOrtho, Indexed, FreshIds;
      ghost var ws0 := wire;
      GrowingStarts(wire, flag[..]);
      var i := 0;
      while i < |wire|
        invariant 0 <= i <= |wire| == flag.Length
        invariant MergingAt(ws0, wire, flag[..], i)
      {
        if !flag[i] && !wire[i].ignored {
          MergeAt(i, flag, ws0);
        } else {
          MergingSkips(ws0, wire, flag[..], i);
        }
        i := i + 1;
      }
    }

    method MergeAt(i: nat, flag: array<bool>, ghost ws0: seq<Wire>)
      requires Indexed(ws0, wireSpatialTable) && AllOrtho(Segs(ws0)) && AllApart(ws0) && EndsCounted(ws0)
      requires flag.Length == |wire| && MergingAt(ws0, wire, flag[..], i) && Kept(wire, flag[..], i)
      modifies this`wire, flag
      ensures |wire| == flag.Length && MergingAt(ws0, wire, flag[..], i + 1)
      ensures || (wire == old(wire) && flag[..] == old(flag[..]))
              || exists j :: 0 <= j < |wire| && wire == Absorb(old(wire), i, j) && flag[..] == old(flag[..])[j := true]
    {
      hide AllOrtho, AllApart, EndsCounted, SelectedFrom, NothingMergeable, SameNets, SameCover, Descends;
      hide Bucket, Square;
      var found, j := FindMergeable(i, flag);
      if found {
        MergingAbsorbs(ws0, wire, flag[..], i, j);
        ghost var f := flag[..];
        var a, c := wire[i].seg, wire[j].seg;
        wire := wire[i := wire[i].(seg := Merged(a, c), sel := if wire[j].sel != 0 then wire[j].sel else wire[i].sel)];
        flag[j] := true;
        assert flag[..] == f[j := true];
      } else {
        NothingFound(ws0, wireSpatialTable, wire, flag[..], i);
        MergingSkips(ws0, wire, flag[..], i);
      }
    }

    /** The first wire in the cell of the end of wire i that can be merged into it. */
    method FindMergeable(i: nat, flag: array<bool>) returns (found: bool, j: nat)
      requires flag.Length == |wire| && Kept(wire, flag[..], i)
      requires forall n :: n in Bucket(wireSpatialTable, Square(wire[i].seg.End())) ==> n < |wire|
      requires forall n :: Kept(wire, flag[..], n) ==> wire[n].seg.Ortho()
      ensures found ==> Kept(wire, flag[..], j) && i != j && Mergeable(wire, i, j)
      ensures !found ==> forall n :: n in Bucket(wireSpatialTable, Square(wire[i].seg.End())) && Kept(wire, flag[..], n)
                                     ==> !Mergeable(wire, i, n)
    {
      var q := wire[i].seg.End();
      var b := Bucket(wireSpatialTable, Square(q));
      found, j := false, 0;
      for m := 0 to |b|
        invariant forall l :: 0 <= l < m && Kept(wire, flag[..], b[l]) ==> !Mergeable(wire, i, b[l])
      {
        var n := b[m];
        assert n in b;
        if !wire[n].ignored && i != n && !flag[n] {
          var a, c := wire[i].seg, wire[n].seg;
          assert Kept(wire, flag[..], n);
          TouchOrtho(c, q);
          if Touch(c, q) && Parallel(a, c) && c.x1 == q.x && c.y1 == q.y && wire[i].end2 == 0 && wire[n].end1 == 0 {
            return true, n;
          }
        }
      }
    }

    /** Reset every endpoint counter; they are recomputed when next needed. */
    method ResetEnds()
      modifies this`wire
      ensures SameButEnds(old(wire), wire) && EndsReset(wire)
    {
      var i := 0;
      while i < |wire|
        invariant 0 <= i <= |wire| && SameButEnds(old(wire), wire)
        invariant forall n :: 0 <= n < i ==> wire[n].end1 == -1 && wire[n].end2 == -1
      {
        wire := wire[i := wire[i].(end1 := -1, end2 := -1)];
        i := i + 1;
      }
    }

    /** Delete the included wires; the grid is stale if there were any. */
    method DeleteIncluded() returns (n: nat)
      requires Valid() && prepHashWires && AllOrtho(Segs(wire)) && NoBreaks(Segs(wire))
      modifies this`wire, this`prepHashWires
      ensures Valid() && Preserved(old(wire), wire) && Within(old(wire), wire) && AllApart(wire)
      ensures Traced(old(wire), wireIdCounter, wire)
      ensures n == 0 ==> wire == old(wire)
      ensures AllApart(old(wire)) ==> n == 0
    {
      hide Preserved, Within, Indexed, FreshIds, AllOrtho, NoBreaks, AllApart, KeptApart, Witnessed;
      var flag := new bool[|wire|](_ => false);
      FlagIncluded(flag);
      n := DeleteCompact(flag);
      if n > 0 {
        prepHashWires := false;
      }
      DeletedIncluded(old(wire), flag[..], wireIdCounter);
    }

    /** First half of a pass: break, then delete the included wires. */
    method Reduce() returns (changed: bool)
      requires Valid() && AllOrtho(Segs(wire))
      modifies this`wire, this`wireSpatialTable, this`prepHashWires, this`wireIdCounter
      ensures Valid() && prepHashWires && wireIdCounter >= old(wireIdCounter)
      ensures Preserved(old(wire), wire) && Within(old(wire), wire) && AllApart(wire)
      ensures Traced(old(wire), old(wireIdCounter), wire)
      ensures !changed ==> SameButEnds(old(wire), wire)
      ensures AllApart(old(wire)) ==> !changed
    {
      hide Within, Indexed, FreshIds, NoBreaks, AllApart, SameNets, SameCover, Bystanders;
      HashWires();
      ghost var ws1 := wire;
      Rehash(old(wire), ws1);
      changed := BreakWires();
      ghost var ws2 := wire;
      var n := DeleteIncluded();
      ghost var ws3 := wire;
      if n > 0 {
        changed := true;
      }
      HashWires();
      Rehash(ws3, wire);
      PreservedTrans(old(wire), ws1, ws2);
      PreservedTrans(old(wire), ws2, ws3);
      PreservedTrans(old(wire), ws3, wire);
      WithinTrans(old(wire), ws1, ws2);
      WithinTrans(old(wire), ws2, ws3);
      WithinTrans(old(wire), ws3, wire);
      TracedTrans(old(wire), old(wireIdCounter), ws1, old(wireIdCounter), ws2);
      TracedTrans(old(wire), old(wireIdCounter), ws2, wireIdCounter, ws3);
      TracedTrans(old(wire), old(wireIdCounter), ws3, wireIdCounter, wire);
    }

    /** Second half of a pass: count the endpoints, merge, delete the merged wires. */
    method Merge() returns (changed: bool)
      requires Valid() && prepHashWires && AllOrtho(Segs(wire)) && AllApart(wire)
      modifies this`wire, this`prepHashWires
      ensures Valid()
      ensures Preserved(old(wire), wire) && SameStarts(old(wire), wire) && AllApart(wire) && EndsReset(wire)
      ensures Reselected(old(wire), wire)
      ensures !changed ==> SameButEnds(old(wire), wire)
      ensures changed <==> !Normal(old(wire))
      ensures changed ==> |wire| < |old(wire)|
    {
      hide Preserved, AllOrtho, Bystanders, Normal, AllApart, FreshIds, Indexed, EndsReset, EndsCounted, Mergeable;
      hide Within, SameStarts, Rooted, Reselected;
      CountEnds();
      ghost var ws1 := wire;
      Rehash(old(wire), ws1);
      var flag := new bool[|wire|](_ => false);
      MergeAbutting(flag);
      ghost var ws2 := wire;
      ResetEnds();
      ghost var ws3 := wire;
      var n := DeleteCompact(flag);
      changed := n > 0;
      if n > 0 {
        prepHashWires := false;
      }
      MergePhaseKeeps(old(wire), ws1, ws2, ws3, flag[..]);
      MergedStore(old(wire), ws1, ws2, ws3, flag[..], wireIdCounter, wireSpatialTable);
    }

    /** One pass of the outer loop. */
    method TrimPass() returns (changed: bool)
      requires Valid() && AllOrtho(Segs(wire))
      modifies this
      ensures Valid() && wireIdCounter >= old(wireIdCounter)
      ensures Preserved(old(wire), wire) && AllApart(wire) && EndsReset(wire)
      ensures changed <==> !Normal(old(wire))
      ensures !changed ==> SameButEnds(old(wire), wire) && Normal(wire)
      ensures changed && AllApart(old(wire)) ==> |wire| < |old(wire)|
      ensures modified == (old(modified) || changed)
      ensures Rooted(old(wire), wire)
      ensures AllApart(old(wire)) ==> SameStarts(old(wire), wire) && Reselected(old(wire), wire)
      ensures SelectionKept(old(wire), wire) && Identified(old(wire), old(wireIdCounter), wire)
    {
      hide Segs, AllOrtho, NoBreaks, Bystanders, AllApart, FreshIds;
      hide Indexed, EndsReset, SameNets, SameCover, Within, SameStarts, Rooted, Reselected, SelectionKept;
      hide Traced, Identified;
      changed := Reduce();
      ghost var ws1 := wire;
      assert Normal(old(wire)) ==> AllApart(old(wire));
      assert !changed ==> (Normal(old(wire)) <==> Normal(ws1)) by {
        if !changed { SameButEndsFacts(old(wire), ws1); }
      }
      var merged := Merge();
      changed := changed || merged;
      if changed {
        modified := true;
      }
      PreservedTrans(old(wire), ws1, wire);
      WithinSameStarts(old(wire), ws1, wire);
      TracedSameStarts(old(wire), old(wireIdCounter), ws1, wire);
      WithinSelection(old(wire), ws1);
      SelectionTrans(old(wire), ws1, wire);
      if AllApart(old(wire)) {
        Rehash(old(wire), ws1);
        SameStartsTrans(old(wire), ws1, wire);
        ReselectedSame(old(wire), ws1, wire, wire);
      }
      assert !changed ==> Normal(wire) by {
        if !changed { SameButEndsFacts(old(wire), wire); }
      }
    }

    /** trim_wires.  The loop ends because only its first pass may add wires: from then on the wires are
        pairwise apart, and a pass that changes anything merges, which removes a wire. */
    method TrimWires()
      requires Valid() && AllOrtho(Segs(wire))
      modifies this
      ensures Valid() && wireIdCounter >= old(wireIdCounter)
      ensures SameNets(Segs(old(wire)), Segs(wire))
      ensures SameCover(Segs(old(wire)), Segs(wire))
      ensures Bystanders(wire) == Bystanders(old(wire))
      ensures AllOrtho(Segs(wire)) && Normal(wire)
      ensures forall n :: 0 <= n < |wire| ==> wire[n].end1 == -1 && wire[n].end2 == -1
      ensures Normal(old(wire)) ==> SameButEnds(old(wire), wire)
      ensures modified == (old(modified) || !Normal(old(wire)))
      ensures Rooted(old(wire), wire) && LabelsStayOnNets(old(wire), wire)
      ensures SelectionKept(old(wire), wire) && Identified(old(wire), old(wireIdCounter), wire)
    {
      hide SameNets, SameCover, Segs, AllOrtho, NoBreaks, Bystanders;
      hide Normal, AllApart, FreshIds, Indexed, SameStarts, Rooted;
      hide LabelsStayOnNets, Reselected, SelectionKept, Identified;
      prepHashWires := false;
      var changed, first := true, true;
      Rehash(wire, wire);
      while changed
        invariant Valid() && wireIdCounter >= old(wireIdCounter)
        invariant Preserved(old(wire), wire)
        invariant first ==> changed && wire == old(wire) && modified == old(modified)
        invariant first ==> wireIdCounter == old(wireIdCounter)
        invariant !first ==> AllApart(wire) && EndsReset(wire)
        invariant Rooted(old(wire), wire)
        invariant !first ==> SelectionKept(old(wire), wire) && Identified(old(wire), old(wireIdCounter), wire)
        invariant !first ==> LabelsStayOnNets(old(wire), wire)
        invariant !changed ==> Normal(wire)
        invariant Normal(old(wire)) ==> SameButEnds(old(wire), wire) && modified == old(modified)
        invariant !first && !Normal(old(wire)) ==> modified
        invariant !first && Normal(old(wire)) ==> !changed
        decreases first, |wire|, changed
      {
        ghost var ws := wire;
        changed := TrimPass();
        PreservedTrans(old(wire), ws, wire);
        if !first {
          RootedSameStarts(old(wire), ws, wire);
          SelectionTrans(old(wire), ws, wire);
          IdentifiedSameStarts(old(wire), old(wireIdCounter), ws, wire);
        }
        RootedStaysOnNet(old(wire), wire);
        first := false;
      }
    }
  }
}
