/** callback.c and xinit.c: which window context is active, and the semaphores that mark contexts as busy,
    while events arrive nested in one another and handlers release the semaphore for a while. */
module Windows {

  /** A schematic context.  `toplevel` says that it owns a top-level window of its own; the main window and the
      tabs drawn on its canvas do not. */
  datatype WindowContext = WindowContext(semaphore: int, toplevel: bool, pendingFullzoom: bool, copying: bool)

  datatype Display = Display(tabbed: bool, contexts: map<string, WindowContext>, current: string)
  {
    predicate Valid() { current in contexts }

    /** No semaphore has been released more often than taken. */
    predicate Sound() {
      Valid() && forall w :: w in contexts ==> contexts[w].semaphore >= 0
    }

    predicate TopLevel(w: string) { w in contexts && contexts[w].toplevel }

    function Current(): WindowContext
      requires current in contexts
    {
      contexts[current]
    }

    /** The semaphore of the active context. */
    function Sem(): int
      requires current in contexts
    {
      contexts[current].semaphore
    }

    function Set(s: int): Display
      requires current in contexts
    {
      this.(contexts := contexts[current := Current().(semaphore := s)])
    }

    function Bump(d: int): Display
      requires current in contexts
    {
      Set(Sem() + d)
    }

    /** The same contexts with another one active. */
    function At(w: string): Display {
      this.(current := w)
    }

    /** switch_window, and switch_tab as far as the active context goes: refused while the active context is busy. */
    function Switch(win: string): Display
      requires current in contexts
    {
      if Sem() != 0 || win == current || win !in contexts then this else At(win)
    }

    /** new_schematic("switch_no_tcl_ctx"): in tabbed mode it only switches to contexts with their own window. */
    function SwitchNoTcl(win: string): Display
      requires current in contexts
    {
      if !tabbed || TopLevel(win) then Switch(win) else this
    }
  }

  datatype Kind = Expose | FocusIn | EnterNotify | Other

  /** How a handler holds the semaphore of the active context while part of its work runs: one up and down again;
      one down and up again; one down and then as it was saved; zero and then as it was saved.  What is
      written back goes to whichever context is active by then. */
  datatype Hold = Raised | Lowered | LoweredSaved | Freed

  /** What a handler does as far as windows go: events are handled while it runs, it switches windows itself, or it
      does such things while holding the semaphore differently. */
  datatype Action =
    | Arrive(e: Event)
    | Go(win: string)
    | Holding(hold: Hold, body: seq<Action>)

  /** An event for a window, with the state of the copy file and of mouse_follows_focus when it is handled.  A
      guarded handler does nothing when the semaphore is 2 or more. */
  datatype Event = Event(kind: Kind, win: string, selFile: bool, follow: bool, guarded: bool, handler: seq<Action>)

  // ---- the code as functions ----

  /** handle_window_switching: the new state, and whether the context is only borrowed for a redraw. */
  function Enter(d: Display, e: Event): (r: (Display, bool))
    requires d.Valid()
    ensures r.0.Valid() && r.0 == d.At(r.0.current)
    ensures d.Sem() != 0 ==> r.0 == d
  {
    if (!d.tabbed || d.TopLevel(e.win) || d.Current().toplevel) && e.kind != Other && d.current != e.win then
      if d.Current().pendingFullzoom then (d, false)
      else if e.kind == EnterNotify && e.selFile && d.Current().copying then (d.Switch(e.win), false)
      else if e.kind == EnterNotify && e.win in d.contexts && d.contexts[e.win].copying
          then (d.SwitchNoTcl(e.win), true)
      else if e.kind == Expose || d.Sem() >= 1 then (d.SwitchNoTcl(e.win), true)
      else if (e.kind == EnterNotify && e.follow) || (e.kind == FocusIn && !e.follow) then (d.Switch(e.win), false)
      else (d, false)
    else (d, false)
  }

  /** Increments a call makes on the context it has entered. */
  function Taken(redrawOnly: bool): int { if redrawOnly then 2 else 1 }

  predicate Runs(d: Display, e: Event)
    requires d.Valid()
  {
    !(e.guarded && d.Sem() >= 2)
  }

  function Level(h: Hold, s: int): int {
    match h case Raised => s + 1 case Lowered => s - 1 case LoweredSaved => s - 1 case Freed => 0
  }

  function WrittenBack(h: Hold, saved: int, now: int): int {
    match h case Raised => now - 1 case Lowered => now + 1 case LoweredSaved => saved case Freed => saved
  }

  /** The end of callback: undo the increments, then go back to the context the call was entered in. */
  function Leave(d: Display, redrawOnly: bool, restore: string): (r: Display)
    requires d.Valid()
    ensures r.Valid() && r.contexts.Keys == d.contexts.Keys
  {
    var d1 := if d.Sem() > 0 then d.Bump(-1) else d;
    if redrawOnly then d1.Bump(-1).SwitchNoTcl(restore) else d1
  }

  /** callback */
  function Handle(d: Display, e: Event): (r: Display)
    requires d.Valid()
    ensures r.Valid() && r.contexts.Keys == d.contexts.Keys
    decreases e, 0
  {
    var (d1, redrawOnly) := Enter(d, e);
    var d2 := d1.Bump(Taken(redrawOnly));
    var d3 := if Runs(d2, e) then PerformAll(d2, e.handler) else d2;
    Leave(d3, redrawOnly, d.current)
  }

  function Perform(d: Display, a: Action): (r: Display)
    requires d.Valid()
    ensures r.Valid() && r.contexts.Keys == d.contexts.Keys
    decreases a, 0
  {
    match a
    case Arrive(e) => Handle(d, e)
    case Go(win) => d.Switch(win)
    case Holding(h, body) =>
      var d1 := PerformAll(d.Set(Level(h, d.Sem())), body);
      d1.Set(WrittenBack(h, d.Sem(), d1.Sem()))
  }

  function PerformAll(d: Display, acts: seq<Action>): (r: Display)
    requires d.Valid()
    ensures r.Valid() && r.contexts.Keys == d.contexts.Keys
    decreases acts, 1
  {
    if acts == [] then d else PerformAll(Perform(d, acts[0]), acts[1..])
  }

  function HandleAll(d: Display, es: seq<Event>): (r: Display)
    requires d.Valid()
    ensures r.Valid() && r.contexts.Keys == d.contexts.Keys
    decreases |es|
  {
    if es == [] then d else HandleAll(Handle(d, es[0]), es[1..])
  }

  // ---- the discipline ----

  /** d is x, perhaps with another context active, but for k increments on the active one. */
  predicate Clean(x: Display, k: int, d: Display) {
    d.current in x.contexts && d == x.At(d.current).Bump(k)
  }

  /** Every call of callback in the tree of e returns with all contexts as it found them, and no semaphore is ever
      released more often than taken. */
  ghost predicate CallsEvent(d: Display, e: Event)
    requires d.Valid()
    decreases e, 0
  {
    var (d1, redrawOnly) := Enter(d, e);
    var d2 := d1.Bump(Taken(redrawOnly));
    && (Runs(d2, e) ==> CallsAll(d2, e.handler))
    && Handle(d, e).contexts == d.contexts
  }

  ghost predicate Calls(d: Display, a: Action)
    requires d.Valid()
    decreases a, 0
  {
    match a
    case Arrive(e) => CallsEvent(d, e)
    case Go(_) => true
    case Holding(h, body) => Level(h, d.Sem()) >= 0 && CallsAll(d.Set(Level(h, d.Sem())), body)
  }

  ghost predicate CallsAll(d: Display, acts: seq<Action>)
    requires d.Valid()
    decreases acts, 1
  {
    acts != [] ==> Calls(d, acts[0]) && CallsAll(Perform(d, acts[0]), acts[1..])
  }

  /** The same at every step of every handler: after each of its actions, not only when it returns, the contexts
      differ from those found by the increments of the call alone. */
  ghost predicate SteadyEvent(d: Display, e: Event)
    requires d.Valid()
    decreases e, 0
  {
    var (d1, redrawOnly) := Enter(d, e);
    var d2 := d1.Bump(Taken(redrawOnly));
    && (Runs(d2, e) ==> SteadyAll(d1, Taken(redrawOnly), d2, e.handler))
    && Handle(d, e).contexts == d.contexts
  }

  ghost predicate Steady(d: Display, a: Action)
    requires d.Valid()
    decreases a, 0
  {
    match a
    case Arrive(e) => SteadyEvent(d, e)
    case Go(_) => true
    case Holding(h, body) =>
      var d1 := d.Set(Level(h, d.Sem()));
      Level(h, d.Sem()) >= 0 && SteadyAll(d1, 0, d1, body)
  }

  /** Between the actions nothing differs from x but the k increments. */
  ghost predicate SteadyAll(x: Display, k: int, d: Display, acts: seq<Action>)
    requires d.Valid()
    decreases acts, 1
  {
    acts != [] ==>
      && Steady(d, acts[0]) && Clean(x, k, Perform(d, acts[0]))
      && SteadyAll(x, k, Perform(d, acts[0]), acts[1..])
  }

  // ---- where the focus goes, and when that is safe ----

  /** The window active in the end, if no semaphore is lost on the way. */
  function FocusEvent(d: Display, e: Event): (w: string)
    requires d.Valid()
    ensures w in d.contexts
    decreases e, 0
  {
    var (d1, redrawOnly) := Enter(d, e);
    var w := if Runs(d1.Bump(Taken(redrawOnly)), e) then FocusAll(d1, Taken(redrawOnly), e.handler) else d1.current;
    if redrawOnly then d1.At(w).SwitchNoTcl(d.current).current else w
  }

  function Focus(x: Display, k: int, a: Action): (w: string)
    requires x.Valid()
    ensures w in x.contexts
    decreases a, 0
  {
    match a
    case Arrive(e) => FocusEvent(x.Bump(k), e)
    case Go(win) => x.Bump(k).Switch(win).current
    case Holding(h, body) => FocusAll(x.Set(Level(h, x.Sem() + k)), 0, body)
  }

  function FocusAll(x: Display, k: int, acts: seq<Action>): (w: string)
    requires x.Valid()
    ensures w in x.contexts
    decreases acts, 1
  {
    if acts == [] then x.current else FocusAll(x.At(Focus(x, k, acts[0])), k, acts[1..])
  }

  /** With window w active at its end, a hold loses no semaphore: either the context it was taken on is active again,
      or that one was left with its own value and the write-back gives w its own and the k pending increments. */
  predicate Returns(x: Display, k: int, h: Hold, w: string)
    requires x.Valid() && w in x.contexts
  {
    || w == x.current
    || (&& Level(h, x.Sem() + k) == x.Sem()
        && WrittenBack(h, x.Sem() + k, x.contexts[w].semaphore) == x.contexts[w].semaphore + k)
  }

  /** Every hold in the tree returns in this sense. */
  predicate TameEvent(d: Display, e: Event)
    requires d.Valid()
    decreases e, 0
  {
    var (d1, redrawOnly) := Enter(d, e);
    Runs(d1.Bump(Taken(redrawOnly)), e) ==> TameAll(d1, Taken(redrawOnly), e.handler)
  }

  predicate Tame(x: Display, k: int, a: Action)
    requires x.Valid()
    decreases a, 0
  {
    match a
    case Arrive(e) => TameEvent(x.Bump(k), e)
    case Go(_) => true
    case Holding(h, body) =>
      var l := Level(h, x.Sem() + k);
      l >= 0 && TameAll(x.Set(l), 0, body) && Returns(x, k, h, FocusAll(x.Set(l), 0, body))
  }

  predicate TameAll(x: Display, k: int, acts: seq<Action>)
    requires x.Valid()
    decreases acts, 1
  {
    acts != [] ==> Tame(x, k, acts[0]) && TameAll(x.At(Focus(x, k, acts[0])), k, acts[1..])
  }

  // ---- the focus of a busy context ----

  lemma BumpTwice(d: Display, a: int, b: int)
    requires d.Valid()
    ensures d.Bump(a).Bump(b) == d.Bump(a + b)
    ensures d.Bump(0) == d
  {
    assert d.Bump(0).contexts == d.contexts;
    assert d.Bump(a).Bump(b).contexts == d.Bump(a + b).contexts;
  }

  /** From a busy context a tame tree never moves the focus: every attempt to switch is refused. */
  lemma {:induction false} BusyFocusEvent(d: Display, e: Event)
    requires d.Valid() && d.Sem() > 0 && TameEvent(d, e)
    ensures FocusEvent(d, e) == d.current
    decreases e, 0
  {
    var redrawOnly := Enter(d, e).1;
    if Runs(d.Bump(Taken(redrawOnly)), e) {
      BusyFocusAll(d, Taken(redrawOnly), e.handler);
    }
  }

  lemma {:induction false} BusyFocus(x: Display, k: int, a: Action)
    requires x.Valid() && x.Sem() > 0 && k >= 0 && Tame(x, k, a)
    ensures Focus(x, k, a) == x.current
    decreases a, 0
  {
    match a
    case Arrive(e) => BusyFocusEvent(x.Bump(k), e);
    case Go(_) =>
    case Holding(h, body) =>
      var l := Level(h, x.Sem() + k);
      if l > 0 { BusyFocusAll(x.Set(l), 0, body); }
  }

  lemma {:induction false} BusyFocusAll(x: Display, k: int, acts: seq<Action>)
    requires x.Valid() && x.Sem() > 0 && k >= 0 && TameAll(x, k, acts)
    ensures FocusAll(x, k, acts) == x.current
    decreases acts, 1
  {
    if acts == [] {
    } else {
      BusyFocus(x, k, acts[0]);
      BusyFocusAll(x, k, acts[1..]);
    }
  }

  // ---- exactly when the discipline holds ----

  /** Undoing the increments on the context that is active then. */
  lemma LeaveUndoes(d1: Display, redrawOnly: bool, restore: string)
    requires d1.Valid() && d1.Sem() >= 0
    ensures Leave(d1.Bump(Taken(redrawOnly)), redrawOnly, restore) == if redrawOnly then d1.SwitchNoTcl(restore) else d1
  {
    BumpTwice(d1, 2, -1);
    BumpTwice(d1, 1, -1);
  }

  /** For every tree of events on every display: every step of every handler in it leaves nothing behind if and only
      if every hold in it returns.  Then the whole effect is a move of the focus, and none if the active context was
      busy. */
  lemma {:induction false} SteadyExactlyWhen(d: Display, e: Event)
    requires d.Sound()
    ensures SteadyEvent(d, e) <==> TameEvent(d, e)
    ensures TameEvent(d, e) ==> Handle(d, e) == d.At(FocusEvent(d, e))
    ensures TameEvent(d, e) && d.Sem() > 0 ==> Handle(d, e) == d
    decreases e, 0
  {
    hide Enter, Leave;
    var (d1, redrawOnly) := Enter(d, e);
    var k := Taken(redrawOnly);
    if Runs(d1.Bump(k), e) {
      SteadyAllExactlyWhen(d1, k, e.handler);
    }
    if TameEvent(d, e) {
      var w := if Runs(d1.Bump(k), e) then FocusAll(d1, k, e.handler) else d1.current;
      LeaveUndoes(d1.At(w), redrawOnly, d.current);
      if d.Sem() > 0 { BusyFocusEvent(d, e); }
    }
  }

  lemma {:induction false} SteadyStepExactlyWhen(x: Display, k: int, a: Action)
    requires x.Sound() && k >= 0
    ensures Steady(x.Bump(k), a) && Clean(x, k, Perform(x.Bump(k), a)) <==> Tame(x, k, a)
    ensures Tame(x, k, a) ==> Perform(x.Bump(k), a) == x.At(Focus(x, k, a)).Bump(k)
    decreases a, 0
  {
    match a
    case Arrive(e) =>
      SteadyExactlyWhen(x.Bump(k), e);
      BumpTwice(x, 0, 0);
      if k == 0 { BumpTwice(x.At(Focus(x, k, a)), 0, 0); }
    case Go(win) =>
      BumpTwice(x, 0, 0);
      if k == 0 { BumpTwice(x.At(Focus(x, k, a)), 0, 0); }
    case Holding(h, body) => HoldExactlyWhen(x, k, h, body);
  }

  lemma SetTwice(x: Display, a: int, b: int)
    requires x.Valid()
    ensures x.Set(a).Set(b) == x.Set(b)
  {
    assert x.Set(a).Set(b).contexts == x.Set(b).contexts;
  }

  lemma {:induction false} HoldExactlyWhen(x: Display, k: int, h: Hold, body: seq<Action>)
    requires x.Sound() && k >= 0
    ensures var a := Holding(h, body);
            && (Steady(x.Bump(k), a) && Clean(x, k, Perform(x.Bump(k), a)) <==> Tame(x, k, a))
            && (Tame(x, k, a) ==> Perform(x.Bump(k), a) == x.At(Focus(x, k, a)).Bump(k))
    decreases body, 2
  {
    var s := x.Sem() + k;
    var l := Level(h, s);
    var d1 := x.Set(l);
    SetTwice(x, s, l);
    assert x.Bump(k).Set(l) == d1;
    BumpTwice(d1, 0, 0);
    if l >= 0 {
      SteadyAllExactlyWhen(d1, 0, body);
      if TameAll(d1, 0, body) {
        var w := FocusAll(d1, 0, body);
        BumpTwice(d1.At(w), 0, 0);
        WriteBackExactlyWhen(x, k, h, w);
      }
    }
  }

  /** The write-back at the end of a hold that ends with w active. */
  lemma WriteBackExactlyWhen(x: Display, k: int, h: Hold, w: string)
    requires x.Valid() && w in x.contexts
    ensures var s := x.Sem() + k;
            var d := x.Set(Level(h, s)).At(w);
            var r := d.Set(WrittenBack(h, s, d.Sem()));
            && (Clean(x, k, r) <==> Returns(x, k, h, w))
            && (Returns(x, k, h, w) ==> r == x.At(w).Bump(k))
  {
    var s := x.Sem() + k;
    var d := x.Set(Level(h, s)).At(w);
    var r, t := d.Set(WrittenBack(h, s, d.Sem())), x.At(w).Bump(k);
    if w == x.current {
      assert r.contexts == t.contexts;
    } else {
      assert r.contexts[x.current].semaphore == Level(h, s);
      assert t.contexts[x.current].semaphore == x.Sem();
      assert r.contexts[w].semaphore == WrittenBack(h, s, x.contexts[w].semaphore);
      assert Returns(x, k, h, w) ==> r.contexts == t.contexts;
    }
  }

  lemma {:induction false} SteadyAllExactlyWhen(x: Display, k: int, acts: seq<Action>)
    requires x.Sound() && k >= 0
    ensures SteadyAll(x, k, x.Bump(k), acts) <==> TameAll(x, k, acts)
    ensures TameAll(x, k, acts) ==> PerformAll(x.Bump(k), acts) == x.At(FocusAll(x, k, acts)).Bump(k)
    decreases acts, 1
  {
    if acts == [] {
    } else {
      var w := Focus(x, k, acts[0]);
      SteadyStepExactlyWhen(x, k, acts[0]);
      SteadyAllExactlyWhen(x.At(w), k, acts[1..]);
      SteadyAllElsewhere(x, x.At(w), k, x.At(w).Bump(k), acts[1..]);
    }
  }

  /** Which context is active in x does not matter to Clean. */
  lemma {:induction false} SteadyAllElsewhere(x: Display, y: Display, k: int, d: Display, acts: seq<Action>)
    requires d.Valid() && y == x.At(y.current)
    ensures SteadyAll(x, k, d, acts) <==> SteadyAll(y, k, d, acts)
    decreases |acts|
  {
    if acts == [] {
    } else {
      SteadyAllElsewhere(x, y, k, Perform(d, acts[0]), acts[1..]);
    }
  }

  // ---- every call, for handlers that lower the semaphore once ----

  lemma {:induction false} SteadyCalls(d: Display, e: Event)
    requires d.Valid() && SteadyEvent(d, e)
    ensures CallsEvent(d, e)
    decreases e, 0
  {
    var (d1, redrawOnly) := Enter(d, e);
    var d2 := d1.Bump(Taken(redrawOnly));
    if Runs(d2, e) {
      SteadyCallsAll(d1, Taken(redrawOnly), d2, e.handler);
    }
  }

  lemma {:induction false} SteadyCallsStep(d: Display, a: Action)
    requires d.Valid() && Steady(d, a)
    ensures Calls(d, a)
    decreases a, 0
  {
    match a
    case Arrive(e) => SteadyCalls(d, e);
    case Go(_) =>
    case Holding(h, body) =>
      var d1 := d.Set(Level(h, d.Sem()));
      SteadyCallsAll(d1, 0, d1, body);
  }

  lemma {:induction false} SteadyCallsAll(x: Display, k: int, d: Display, acts: seq<Action>)
    requires d.Valid() && SteadyAll(x, k, d, acts)
    ensures CallsAll(d, acts)
    decreases acts, 1
  {
    if acts == [] {
    } else {
      SteadyCallsStep(d, acts[0]);
      SteadyCallsAll(x, k, Perform(d, acts[0]), acts[1..]);
    }
  }

  /** Every handler in the tree lowers or frees the semaphore at most once, and not while it holds it otherwise;
      dialogs may raise it anywhere. */
  predicate OneLoweringEvent(e: Event)
    decreases e, 0
  {
    OneLowering(e.handler)
  }

  predicate OneLowering(acts: seq<Action>)
    decreases acts, 1
  {
    acts != [] ==>
      if Lowers(acts[0]) then MildAll(acts[0].body) && MildAll(acts[1..])
      else Mild(acts[0]) && OneLowering(acts[1..])
  }

  predicate Lowers(a: Action) { a.Holding? && a.hold != Raised }

  predicate Mild(a: Action)
    decreases a, 0
  {
    match a
    case Arrive(e) => OneLoweringEvent(e)
    case Go(_) => true
    case Holding(h, body) => h == Raised && MildAll(body)
  }

  predicate MildAll(acts: seq<Action>)
    decreases acts, 1
  {
    acts != [] ==> Mild(acts[0]) && MildAll(acts[1..])
  }

  /** For every tree of such handlers on every display: every call in it leaves all contexts as found if and only if
      every hold in it returns. */
  lemma {:induction false} CallsExactlyWhen(d: Display, e: Event)
    requires d.Sound() && OneLoweringEvent(e)
    ensures CallsEvent(d, e) <==> TameEvent(d, e)
    decreases e, 0
  {
    hide Enter, Leave;
    var (d1, redrawOnly) := Enter(d, e);
    var d2 := d1.Bump(Taken(redrawOnly));
    SteadyExactlyWhen(d, e);
    if TameEvent(d, e) {
      SteadyCalls(d, e);
    }
    if CallsEvent(d, e) && Runs(d2, e) {
      OneLoweringTame(d1, redrawOnly, d.current, e.handler);
    }
  }

  lemma {:induction false} MildTame(x: Display, k: int, a: Action)
    requires x.Sound() && k >= 0 && Mild(a) && Calls(x.Bump(k), a)
    ensures Tame(x, k, a)
    decreases a, 0
  {
    match a
    case Arrive(e) => CallsExactlyWhen(x.Bump(k), e);
    case Go(_) =>
    case Holding(h, body) =>
      var d1 := x.Set(Level(h, x.Sem() + k));
      SetTwice(x, x.Sem() + k, Level(h, x.Sem() + k));
      BumpTwice(d1, 0, 0);
      MildAllTame(d1, 0, body);
      BusyFocusAll(d1, 0, body);
  }

  lemma {:induction false} MildAllTame(x: Display, k: int, acts: seq<Action>)
    requires x.Sound() && k >= 0 && MildAll(acts) && CallsAll(x.Bump(k), acts)
    ensures TameAll(x, k, acts)
    decreases acts, 1
  {
    if acts == [] {
    } else {
      MildTame(x, k, acts[0]);
      SteadyStepExactlyWhen(x, k, acts[0]);
      MildAllTame(x.At(Focus(x, k, acts[0])), k, acts[1..]);
    }
  }

  /** A handler that started on x and whose call ends with the contexts of x. */
  lemma {:induction false} OneLoweringTame(x: Display, redrawOnly: bool, restore: string, acts: seq<Action>)
    requires x.Sound() && OneLowering(acts) && CallsAll(x.Bump(Taken(redrawOnly)), acts)
    requires Leave(PerformAll(x.Bump(Taken(redrawOnly)), acts), redrawOnly, restore).contexts == x.contexts
    ensures TameAll(x, Taken(redrawOnly), acts)
    decreases acts, 1
  {
    hide Leave;
    var k := Taken(redrawOnly);
    if acts == [] {
    } else if Lowers(acts[0]) {
      LoweringTame(x, redrawOnly, restore, acts);
    } else {
      MildTame(x, k, acts[0]);
      SteadyStepExactlyWhen(x, k, acts[0]);
      OneLoweringTame(x.At(Focus(x, k, acts[0])), redrawOnly, restore, acts[1..]);
    }
  }

  lemma {:induction false} LoweringTame(x: Display, redrawOnly: bool, restore: string, acts: seq<Action>)
    requires acts != [] && Lowers(acts[0])
    requires x.Sound() && OneLowering(acts) && CallsAll(x.Bump(Taken(redrawOnly)), acts)
    requires Leave(PerformAll(x.Bump(Taken(redrawOnly)), acts), redrawOnly, restore).contexts == x.contexts
    ensures TameAll(x, Taken(redrawOnly), acts)
    decreases acts, 0
  {
    hide Leave, Perform, Calls, Returns, FocusAll, Tame, Focus, Level, WrittenBack, MildAll;
    var k, a, rest := Taken(redrawOnly), acts[0], acts[1..];
    var h := a.hold;
    var w := LoweredBodyTame(x, k, a);
    if Returns(x, k, h, w) {
      MildAllTame(x.At(w), k, rest);
    } else {
      LossStays(Perform(x.Bump(k), a), rest);
      LossShows(x, redrawOnly, restore, h, w);
    }
  }

  /** With a busy context active nothing more happens. */
  lemma LossStays(z: Display, rest: seq<Action>)
    requires z.Sound() && z.Sem() > 0 && MildAll(rest) && CallsAll(z, rest)
    ensures PerformAll(z, rest) == z
    decreases rest, 2
  {
    BumpTwice(z, 0, 0);
    MildAllTame(z, 0, rest);
    SteadyAllExactlyWhen(z, 0, rest);
    BusyFocusAll(z, 0, rest);
  }

  /** A hold that lowers, with window w active at its end. */
  lemma {:induction false} LoweredBodyTame(x: Display, k: int, a: Action) returns (w: string)
    requires x.Sound() && k > 0 && Lowers(a) && MildAll(a.body) && Calls(x.Bump(k), a)
    ensures w in x.contexts && (Tame(x, k, a) <==> Returns(x, k, a.hold, w)) && Focus(x, k, a) == w
    ensures Level(a.hold, x.Sem() + k) >= 0
    ensures var d, r := x.Set(Level(a.hold, x.Sem() + k)).At(w), Perform(x.Bump(k), a);
            && r == d.Set(WrittenBack(a.hold, x.Sem() + k, d.Sem())) && r.Sound() && r.Sem() > 0
            && (Returns(x, k, a.hold, w) ==> r == x.At(w).Bump(k))
    decreases a, 0
  {
    var d1 := x.Set(Level(a.hold, x.Sem() + k));
    w := FocusAll(d1, 0, a.body);
    SetTwice(x, x.Sem() + k, Level(a.hold, x.Sem() + k));
    BumpTwice(d1, 0, 0);
    MildAllTame(d1, 0, a.body);
    SteadyAllExactlyWhen(d1, 0, a.body);
    BumpTwice(d1.At(w), 0, 0);
    WriteBackExactlyWhen(x, k, a.hold, w);
  }

  /** The write-back of a hold that does not return is not undone at the end of the call. */
  lemma LossShows(x: Display, redrawOnly: bool, restore: string, h: Hold, w: string)
    requires x.Sound() && h != Raised && w in x.contexts && !Returns(x, Taken(redrawOnly), h, w)
    requires Level(h, x.Sem() + Taken(redrawOnly)) >= 0
    ensures var d := x.Set(Level(h, x.Sem() + Taken(redrawOnly))).At(w);
            Leave(d.Set(WrittenBack(h, x.Sem() + Taken(redrawOnly), d.Sem())), redrawOnly,
                restore).contexts != x.contexts
  {
    var k := Taken(redrawOnly);
    var s := x.Sem() + k;
    var d := x.Set(Level(h, s)).At(w);
    var z := d.Set(WrittenBack(h, s, d.Sem()));
    var y := z.Bump(-k);
    BumpTwice(y, k, 0);
    BumpTwice(z, -k, k);
    LeaveContexts(z, redrawOnly, restore);
    assert y.contexts[x.current].semaphore == Level(h, s);
    assert y.contexts[w].semaphore == WrittenBack(h, s, x.contexts[w].semaphore) - k;
  }

  lemma LeaveContexts(d: Display, redrawOnly: bool, restore: string)
    requires d.Valid() && d.Sem() > 0
    ensures Leave(d, redrawOnly, restore).contexts == d.Bump(-Taken(redrawOnly)).contexts
  {
    BumpTwice(d, -1, -1);
  }

  // ---- consequences ----

  /** While the active context is busy a tree of events whose holds return changes nothing at all. */
  lemma BusyUnmoved(d: Display, e: Event)
    requires d.Sound() && d.Sem() > 0 && TameEvent(d, e)
    ensures Handle(d, e) == d
  {
    SteadyExactlyWhen(d, e);
  }

  lemma SemaphoresRestored(d: Display, e: Event)
    requires d.Sound() && TameEvent(d, e)
    ensures Handle(d, e).contexts == d.contexts
  {
    SteadyExactlyWhen(d, e);
  }

  // ---- trees that are always tame ----

  /** No handler in the tree lowers the semaphore; dialogs may raise it. */
  predicate QuietEvent(e: Event) { QuietAll(e.handler) }

  predicate Quiet(a: Action)
    decreases a, 0
  {
    match a
    case Arrive(e) => QuietAll(e.handler)
    case Go(_) => true
    case Holding(h, body) => h == Raised && QuietAll(body)
  }

  predicate QuietAll(acts: seq<Action>)
    decreases acts, 1
  {
    acts != [] ==> Quiet(acts[0]) && QuietAll(acts[1..])
  }

  lemma {:induction false} QuietIsTame(d: Display, e: Event)
    requires d.Sound() && QuietEvent(e)
    ensures TameEvent(d, e)
    decreases e, 0
  {
    var (d1, redrawOnly) := Enter(d, e);
    QuietAllTame(d1, Taken(redrawOnly), e.handler);
  }

  lemma {:induction false} QuietTame(x: Display, k: int, a: Action)
    requires x.Sound() && k >= 0 && Quiet(a)
    ensures Tame(x, k, a)
    decreases a, 0
  {
    match a
    case Arrive(e) => QuietIsTame(x.Bump(k), e);
    case Go(_) =>
    case Holding(h, body) =>
      var d1 := x.Set(Level(h, x.Sem() + k));
      QuietAllTame(d1, 0, body);
      BusyFocusAll(d1, 0, body);
  }

  lemma {:induction false} QuietAllTame(x: Display, k: int, acts: seq<Action>)
    requires x.Sound() && k >= 0 && QuietAll(acts)
    ensures TameAll(x, k, acts)
    decreases acts, 1
  {
    if acts == [] {
    } else {
      QuietTame(x, k, acts[0]);
      QuietAllTame(x.At(Focus(x, k, acts[0])), k, acts[1..]);
    }
  }

  /** Only a guarded handler frees the semaphore, and inside a hold it is only raised (NestedLoweringNotTame). */
  predicate DisciplinedEvent(e: Event)
    decreases e, 0
  {
    DisciplinedAll(e.handler, e.guarded, false)
  }

  predicate Disciplined(a: Action, guarded: bool, inside: bool)
    decreases a, 0
  {
    match a
    case Arrive(e) => DisciplinedEvent(e)
    case Go(_) => true
    case Holding(h, body) => (h == Freed ==> guarded) && (inside ==> h == Raised) && DisciplinedAll(body, guarded, true)
  }

  predicate DisciplinedAll(acts: seq<Action>, guarded: bool, inside: bool)
    decreases acts, 1
  {
    acts != [] ==> Disciplined(acts[0], guarded, inside) && DisciplinedAll(acts[1..], guarded, inside)
  }

  /** No context but perhaps the active one is busy. */
  predicate OthersIdle(d: Display) {
    d.Sound() && forall w :: w in d.contexts && w != d.current ==> d.contexts[w].semaphore == 0
  }

  /** The guard is enough: while no other context is busy, every tree of disciplined handlers is tame. */
  lemma {:induction false} DisciplinedIsTame(d: Display, e: Event)
    requires OthersIdle(d) && DisciplinedEvent(e)
    ensures TameEvent(d, e)
    decreases e, 0
  {
    var (d1, redrawOnly) := Enter(d, e);
    if Runs(d1.Bump(Taken(redrawOnly)), e) {
      DisciplinedAllTame(d1, Taken(redrawOnly), e.handler, e.guarded, false);
    }
  }

  lemma {:induction false} DisciplinedTame(x: Display, k: int, a: Action, guarded: bool, inside: bool)
    requires OthersIdle(x) && Disciplined(a, guarded, inside)
    requires if inside then k == 0 else k >= 1 && (guarded ==> x.Sem() + k < 2)
    ensures Tame(x, k, a)
    decreases a, 0
  {
    match a
    case Arrive(e) => DisciplinedIsTame(x.Bump(k), e);
    case Go(_) =>
    case Holding(h, body) =>
      var d1 := x.Set(Level(h, x.Sem() + k));
      DisciplinedAllTame(d1, 0, body, guarded, true);
      if d1.Sem() > 0 { BusyFocusAll(d1, 0, body); }
  }

  lemma {:induction false} DisciplinedAllTame(x: Display, k: int, acts: seq<Action>, guarded: bool, inside: bool)
    requires OthersIdle(x) && DisciplinedAll(acts, guarded, inside)
    requires if inside then k == 0 else k >= 1 && (guarded ==> x.Sem() + k < 2)
    ensures TameAll(x, k, acts)
    decreases acts, 1
  {
    if acts == [] {
    } else {
      DisciplinedTame(x, k, acts[0], guarded, inside);
      if x.Sem() > 0 { BusyFocus(x, k, acts[0]); }
      DisciplinedAllTame(x.At(Focus(x, k, acts[0])), k, acts[1..], guarded, inside);
    }
  }

  /** Lowering inside a freed hold takes the semaphore below zero, also from an idle display. */
  lemma NestedLoweringNotTame(d: Display, h: Hold)
    requires Idle(d) && (h == Lowered || h == LoweredSaved)
    ensures !TameEvent(d, Event(Other, d.current, false, true, true, [Holding(Freed, [Holding(h, [])])]))
  {
    var body := [Holding(h, [])];
    assert !Tame(d.Set(0), 0, body[0]);
    assert !Tame(d, 1, Holding(Freed, body));
    assert [Holding(Freed, body)][0] == Holding(Freed, body);
  }

  /** No context is busy, as between top-level events. */
  predicate Idle(d: Display) {
    d.Valid() && forall w :: w in d.contexts ==> d.contexts[w].semaphore == 0
  }

  /** Any sequence of events handled from an idle display, each with any disciplined tree below it, leaves every
      semaphore at zero. */
  lemma {:induction false} StaysIdle(d: Display, es: seq<Event>)
    requires Idle(d) && forall k :: 0 <= k < |es| ==> DisciplinedEvent(es[k])
    ensures HandleAll(d, es).contexts == d.contexts
    decreases |es|
  {
    if es == [] {
    } else {
      DisciplinedIsTame(d, es[0]);
      SemaphoresRestored(d, es[0]);
      StaysIdle(Handle(d, es[0]), es[1..]);
    }
  }

  /** What the idiom is for: freeing the semaphore from an idle display hands the focus over to another window. */
  lemma FreedSwitchHandsOver(d: Display, win: string)
    requires Idle(d) && win in d.contexts
    ensures Handle(d, Event(Other, d.current, false, true, true, [Holding(Freed, [Go(win)])])) == d.At(win)
  {
    hide Handle, FocusAll, TameEvent, SteadyEvent, DisciplinedAll;
    var acts := [Holding(Freed, [Go(win)])];
    var e := Event(Other, d.current, false, true, true, acts);
    FreedGo(d, win);
    DisciplinedIsTame(d, e);
    SteadyExactlyWhen(d, e);
  }

  lemma FreedGo(d: Display, win: string)
    requires Idle(d) && win in d.contexts
    ensures var acts := [Holding(Freed, [Go(win)])];
            DisciplinedAll(acts, true, false) && FocusAll(d, 1, acts) == win
  {
    var body := [Go(win)];
    var acts := [Holding(Freed, body)];
    assert body[1..] == [] && acts[1..] == [];
    assert DisciplinedAll(body, true, true);
    var x := d.Set(0);
    assert x.contexts == d.contexts;
    BumpTwice(x, 0, 0);
    assert Focus(x, 0, Go(win)) == win;
    assert FocusAll(x, 0, body) == FocusAll(x.At(win), 0, []);
    assert Focus(d, 1, acts[0]) == win;
  }

  // ---- and one that is not ----

  /** Two windows without tabs. */
  function BusyAndIdle(a: int, b: int, current: string): Display {
    Display(false, map["A" := WindowContext(a, false, false, false), "B" := WindowContext(b, false, false, false)],
        current)
  }

  function EnterEvent(win: string): Event { Event(EnterNotify, win, false, true, false, []) }

  /** The semaphore is freed while the mouse enters a window. */
  function FreedEntering(win: string): Action { Holding(Freed, [Arrive(EnterEvent(win))]) }

  function OtherEvent(win: string, handler: seq<Action>): Event { Event(Other, win, false, true, false, handler) }

  /** Ctrl-h opens a link with the semaphore freed and no guard: if the mouse enters B meanwhile, B stays active, A
      is left free and B busy. */
  lemma LauncherLosesSemaphore()
    ensures var d, e := BusyAndIdle(1, 0, "A"), OtherEvent("A", [FreedEntering("B")]);
            Handle(d, e) == BusyAndIdle(0, 1, "B") && !TameEvent(d, e)
  {
    hide Perform, Handle, FreedEntering, TameEvent, SteadyEvent;
    var d, acts := BusyAndIdle(1, 0, "A"), [FreedEntering("B")];
    assert acts[1..] == [];
    FreedEnter("A", "B", 2);
    HandleExample(acts, "B");
    SteadyExactlyWhen(d, OtherEvent("A", acts));
  }

  /** Two such losses in one handler may cancel: then every call in the tree leaves all contexts as found, although
      neither hold returns. */
  lemma LossesCancel()
    ensures var d, e := BusyAndIdle(1, 0, "A"), OtherEvent("A", [FreedEntering("B"), FreedEntering("A")]);
            CallsEvent(d, e) && Handle(d, e) == d && !TameEvent(d, e)
  {
    var d, acts := BusyAndIdle(1, 0, "A"), [FreedEntering("B"), FreedEntering("A")];
    hide Perform, Handle, FreedEntering, Calls;
    FreedEnter("A", "B", 2);
    FreedEnter("B", "A", 2);
    assert acts[1..] == [FreedEntering("A")] && acts[1..][1..] == [];
    HandleExample(acts, "A");
    assert d.At("B").Bump(1).contexts["A"].semaphore == 1;
    assert !Clean(d, 1, Busy("B", 2));
    assert !SteadyAll(d, 1, Busy("A", 2), acts);
    SteadyExactlyWhen(d, OtherEvent("A", acts));
    ExampleSteady(acts);
    FreedCalls("A", "B", 2);
    FreedCalls("B", "A", 2);
    assert CallsAll(Busy("A", 2), acts);
    ExampleCalls(acts);
  }

  lemma FreedCalls(c: string, w: string, s: int)
    requires (c == "A" && w == "B") || (c == "B" && w == "A")
    ensures Calls(Busy(c, s), FreedEntering(w))
  {
    hide Handle, CallsEvent;
    var body := [Arrive(EnterEvent(w))];
    assert body[1..] == [];
    assert Busy(c, s).Set(0).contexts == Busy(c, 0).contexts;
    EnterCalls(c, w);
    assert CallsAll(Busy(c, 0), body);
  }

  lemma EnterCalls(c: string, w: string)
    requires (c == "A" && w == "B") || (c == "B" && w == "A")
    ensures CallsEvent(Busy(c, 0), EnterEvent(w))
  {
    hide Handle, Enter;
    EnterIdle(c, w);
    assert Busy(w, 0).contexts == Busy(c, 0).contexts;
  }

  lemma ExampleCalls(acts: seq<Action>)
    requires CallsAll(Busy("A", 2), acts)
    requires Handle(BusyAndIdle(1, 0, "A"), OtherEvent("A", acts)) == BusyAndIdle(1, 0, "A")
    ensures CallsEvent(BusyAndIdle(1, 0, "A"), OtherEvent("A", acts))
  {
    hide Handle;
    assert BusyAndIdle(1, 0, "A").Bump(1).contexts == Busy("A", 2).contexts;
  }

  lemma ExampleSteady(acts: seq<Action>)
    ensures SteadyEvent(BusyAndIdle(1, 0, "A"), OtherEvent("A", acts)) ==>
        SteadyAll(BusyAndIdle(1, 0, "A"), 1, Busy("A", 2), acts)
  {
    assert BusyAndIdle(1, 0, "A").Bump(1).contexts == Busy("A", 2).contexts;
  }

  /** callback on the busy display, given what the handler does to it. */
  lemma HandleExample(acts: seq<Action>, w: string)
    requires (w == "A" || w == "B") && PerformAll(Busy("A", 2), acts) == Busy(w, 2)
    ensures Handle(BusyAndIdle(1, 0, "A"), OtherEvent("A", acts)) == Busy(w, 1)
  {
    assert BusyAndIdle(1, 0, "A").Bump(1).contexts == Busy("A", 2).contexts;
    assert Busy(w, 2).Bump(-1).contexts == Busy(w, 1).contexts;
  }

  /** A display with only w busy. */
  function Busy(w: string, s: int): Display {
    if w == "A" then BusyAndIdle(s, 0, w) else BusyAndIdle(0, s, w)
  }

  /** The semaphore moves over with the focus. */
  lemma FreedEnter(c: string, w: string, s: int)
    requires (c == "A" && w == "B") || (c == "B" && w == "A")
    ensures Perform(Busy(c, s), FreedEntering(w)) == Busy(w, s)
  {
    hide Handle;
    var body := [Arrive(EnterEvent(w))];
    assert body[1..] == [];
    assert Busy(c, s).Set(0).contexts == Busy(c, 0).contexts;
    EnterIdle(c, w);
    assert PerformAll(Busy(c, 0), body) == Busy(w, 0);
    assert Busy(w, 0).Set(s).contexts == Busy(w, s).contexts;
  }

  lemma EnterIdle(c: string, w: string)
    requires (c == "A" && w == "B") || (c == "B" && w == "A")
    ensures Handle(Busy(c, 0), EnterEvent(w)) == Busy(w, 0)
  {
    hide Leave;
    assert Enter(Busy(c, 0), EnterEvent(w)) == (Busy(w, 0), false);
    LeaveUndoes(Busy(w, 0), false, c);
  }

  // ---- exposures ----

  /** The borrow of an exposed window that cannot be undone: the way back is refused because the borrowed
      context was itself busy, or because in tabbed mode the window left behind is not a top-level one. */
  predicate Stranded(d: Display, win: string)
    requires d.Valid()
  {
    && win != d.current && win in d.contexts && (!d.tabbed || d.TopLevel(win))
    && !d.Current().pendingFullzoom && d.Sem() == 0
    && (d.contexts[win].semaphore != 0 || (d.tabbed && !d.Current().toplevel))
  }

  /** The handler holds the semaphore throughout, as redrawing does; other events may be handled while it runs. */
  predicate HoldsThroughout(e: Event) {
    forall k :: 0 <= k < |e.handler| ==> e.handler[k].Arrive?
  }

  lemma {:induction false} ArrivalsStay(x: Display, k: int, acts: seq<Action>)
    requires x.Sound() && k > 0 && TameAll(x, k, acts) && forall i :: 0 <= i < |acts| ==> acts[i].Arrive?
    ensures FocusAll(x, k, acts) == x.current
  {
    if acts == [] {
    } else {
      BusyFocusEvent(x.Bump(k), acts[0].e);
      ArrivalsStay(x, k, acts[1..]);
    }
  }

  /** A tame tree of events below an Expose: everything is as found, unless the borrow is of that kind; then the
      borrowed window stays active. */
  lemma ExposeExactly(d: Display, e: Event)
    requires d.Sound() && e.kind == Expose && HoldsThroughout(e) && TameEvent(d, e)
    ensures Handle(d, e) == if Stranded(d, e.win) then d.At(e.win) else d
  {
    hide Handle, TameAll, FocusAll, SteadyEvent;
    SteadyExactlyWhen(d, e);
    var (d1, redrawOnly) := Enter(d, e);
    if Runs(d1.Bump(Taken(redrawOnly)), e) {
      ArrivalsStay(d1, Taken(redrawOnly), e.handler);
    }
  }

  /** Nothing is left behind below an Expose, and the display is as found, if and only if every hold returns and the
      borrow can be undone: at every step of every handler in general, and at every call for handlers that lower
      the semaphore at most once. */
  lemma ExposeRestoresExactlyWhen(d: Display, e: Event)
    requires d.Sound() && e.kind == Expose && HoldsThroughout(e)
    ensures SteadyEvent(d, e) && Handle(d, e) == d <==> TameEvent(d, e) && !Stranded(d, e.win)
    ensures OneLoweringEvent(e) ==> (CallsEvent(d, e) && Handle(d, e) == d <==> TameEvent(d, e) && !Stranded(d, e.win))
  {
    hide Handle, Stranded, CallsEvent;
    SteadyExactlyWhen(d, e);
    if OneLoweringEvent(e) {
      CallsExactlyWhen(d, e);
    }
    if TameEvent(d, e) {
      ExposeExactly(d, e);
      StrandedMoves(d, e.win);
    }
  }

  /** Nothing but Expose events, to any depth. */
  predicate ExposesOnly(e: Event)
    decreases e, 0
  {
    e.kind == Expose && AllExpose(e.handler)
  }

  predicate Exposes(a: Action)
    decreases a, 0
  {
    a.Arrive? && ExposesOnly(a.e)
  }

  predicate AllExpose(acts: seq<Action>)
    decreases acts, 1
  {
    acts != [] ==> Exposes(acts[0]) && AllExpose(acts[1..])
  }

  lemma {:induction false} ExposesQuiet(acts: seq<Action>)
    requires AllExpose(acts)
    ensures QuietAll(acts) && forall k :: 0 <= k < |acts| ==> acts[k].Arrive?
    decreases acts, 1
  {
    if acts == [] {
    } else {
      ExposesQuietAction(acts[0]);
      ExposesQuiet(acts[1..]);
    }
  }

  lemma {:induction false} ExposesQuietAction(a: Action)
    requires Exposes(a)
    ensures Quiet(a)
    decreases a, 0
  {
    ExposesQuietEvent(a.e);
  }

  lemma {:induction false} ExposesQuietEvent(e: Event)
    requires ExposesOnly(e)
    ensures QuietEvent(e)
    decreases e, 0
  {
    ExposesQuiet(e.handler);
  }

  /** A tree of Expose events on any display: every call leaves all contexts as found, and the display is as found if
      and only if the outermost borrow can be undone. */
  lemma ExposeTreeExactly(d: Display, e: Event)
    requires d.Sound() && ExposesOnly(e)
    ensures CallsEvent(d, e)
    ensures Handle(d, e) == d <==> !Stranded(d, e.win)
  {
    hide Handle, Stranded, CallsEvent, TameEvent, SteadyEvent;
    ExposesQuiet(e.handler);
    QuietIsTame(d, e);
    SteadyExactlyWhen(d, e);
    SteadyCalls(d, e);
    ExposeExactly(d, e);
    StrandedMoves(d, e.win);
  }

  lemma StrandedMoves(d: Display, win: string)
    requires d.Valid()
    ensures Stranded(d, win) ==> d.At(win) != d
  {
  }

  /** Without tabs, any sequence of exposures handled while idle, each with any disciplined events below it, leaves
      the display as found. */
  lemma {:induction false} ExposuresRestore(d: Display, es: seq<Event>)
    requires Idle(d) && !d.tabbed
    requires forall k :: 0 <= k < |es| ==> es[k].kind == Expose && HoldsThroughout(es[k]) && DisciplinedEvent(es[k])
    ensures HandleAll(d, es) == d
    decreases |es|
  {
    if es == [] {
    } else {
      DisciplinedIsTame(d, es[0]);
      ExposeExactly(d, es[0]);
      ExposuresRestore(d, es[1..]);
    }
  }

  /** With tabs, exposing a detached window while the main window is active moves the focus to it for good. */
  lemma DetachedWindowKeepsFocus()
    ensures var main, detached := WindowContext(0, false, false, false), WindowContext(0, true, false, false);
            var d := Display(true, map[".drw" := main, ".x1.drw" := detached], ".drw");
            Handle(d, Event(Expose, ".x1.drw", false, true, false, [])) == d.At(".x1.drw")
  {
    var main, detached := WindowContext(0, false, false, false), WindowContext(0, true, false, false);
    var d := Display(true, map[".drw" := main, ".x1.drw" := detached], ".drw");
    ExposeExactly(d, Event(Expose, ".x1.drw", false, true, false, []));
  }

  // ---- which events move the focus ----

  /** An event for `win` may switch to it: the window is known and not the active one, the active context is idle and
      has no full zoom pending, and with tabs one of the two windows is a top-level one. */
  predicate CanSwitch(d: Display, win: string) {
    && d.Valid() && win in d.contexts && win != d.current
    && d.contexts[d.current].semaphore == 0 && !d.contexts[d.current].pendingFullzoom
    && (d.tabbed ==> d.contexts[win].toplevel || d.contexts[d.current].toplevel)
  }

  /** The work of the handler leaves the focus alone, so only entering and leaving move it. */
  lemma ArrivalsHandled(d: Display, e: Event)
    requires d.Sound() && HoldsThroughout(e) && TameEvent(d, e)
    ensures var (d1, redrawOnly) := Enter(d, e);
            Handle(d, e) == if redrawOnly then d1.SwitchNoTcl(d.current) else d1
  {
    hide Handle, TameAll, FocusAll, SteadyEvent, Enter;
    SteadyExactlyWhen(d, e);
    var (d1, redrawOnly) := Enter(d, e);
    if Runs(d1.Bump(Taken(redrawOnly)), e) {
      ArrivalsStay(d1, Taken(redrawOnly), e.handler);
    }
  }

  /** Events of other kinds, and events for windows that cannot be switched to, leave everything as found. */
  lemma HandledInPlace(d: Display, e: Event)
    requires d.Sound() && HoldsThroughout(e) && TameEvent(d, e)
    requires e.kind == Other || !CanSwitch(d, e.win)
    ensures Handle(d, e) == d
  {
    hide Handle, TameEvent;
    ArrivalsHandled(d, e);
  }

  /** With nobody copying, the pointer or the focus moves the active window, never both: entering it does while the
      mouse leads the focus, a focus event while it does not.  Nothing else is changed. */
  lemma FocusMovesExactlyWhen(d: Display, e: Event)
    requires d.Sound() && HoldsThroughout(e) && TameEvent(d, e) && CanSwitch(d, e.win) && e.kind != Expose
    requires !d.contexts[d.current].copying && !d.contexts[e.win].copying
    ensures Handle(d, e) == d.At(e.win) <==> (e.kind == EnterNotify && e.follow) || (e.kind == FocusIn && !e.follow)
    ensures Handle(d, e) == d.At(e.win) || Handle(d, e) == d
  {
    hide Handle, TameEvent;
    ArrivalsHandled(d, e);
    assert d.At(e.win).current != d.current;
  }

  /** Entering a window while the active one is copying and has written the copy file: the copy is taken along,
      whoever leads the focus. */
  lemma CopyTakenAlong(d: Display, e: Event)
    requires d.Sound() && HoldsThroughout(e) && TameEvent(d, e) && CanSwitch(d, e.win)
    requires e.kind == EnterNotify && e.selFile && d.contexts[d.current].copying
    ensures Handle(d, e) == d.At(e.win)
  {
    hide Handle, TameEvent;
    ArrivalsHandled(d, e);
  }

  /** Entering the window that is copying otherwise only borrows it, as an Expose does. */
  lemma CopySourceBorrowed(d: Display, e: Event)
    requires d.Sound() && HoldsThroughout(e) && TameEvent(d, e) && CanSwitch(d, e.win)
    requires e.kind == EnterNotify && d.contexts[e.win].copying && !(e.selFile && d.contexts[d.current].copying)
    ensures Handle(d, e) == if Stranded(d, e.win) then d.At(e.win) else d
  {
    hide Handle, TameEvent;
    ArrivalsHandled(d, e);
  }

  /** A guarded handler does nothing in a borrowed window or in one that was busy: only redrawing is allowed there. */
  lemma GuardedSkipped(d: Display, e: Event)
    requires d.Sound() && e.guarded
    requires || d.contexts[d.current].semaphore > 0
             || (e.kind == Expose && CanSwitch(d, e.win))
             || (e.kind == EnterNotify && CanSwitch(d, e.win) && d.contexts[e.win].copying
                 && !(e.selFile && d.contexts[d.current].copying))
    ensures Handle(d, e) == Handle(d, e.(handler := []))
  {
    hide PerformAll;
    var e' := e.(handler := []);
    assert Enter(d, e') == Enter(d, e);
    HandleUnfold(d, e);
    HandleUnfold(d, e');
  }

  /** What switching to another window while holding the semaphore does.  Raised or, unless it was 1, lowered, it
      still refuses the switch; lowered from 1 or freed, the old window is left idle, and the new one gets one more
      or, when the saved value is written back, that. */
  lemma HoldAndSwitch(d: Display, h: Hold, win: string)
    requires d.Valid() && d.Sem() > 0 && win in d.contexts && win != d.current
    ensures var r := Perform(d, Holding(h, [Go(win)]));
            if h == Raised || (h != Freed && d.Sem() != 1) then r == d
            else
              && r.current == win && r.tabbed == d.tabbed
              && r.contexts == d.contexts[d.current := d.Current().(semaphore := 0)]
                  [win := d.contexts[win].(semaphore :=
                       if h == Lowered then d.contexts[win].semaphore + 1 else d.Sem())]
  {
    hide Perform, PerformAll;
    HoldGo(d, h, win);
    var d1 := d.Set(Level(h, d.Sem()));
    if h == Raised || (h != Freed && d.Sem() != 1) {
      SetTwice(d, Level(h, d.Sem()), d.Sem());
      assert d.Set(d.Sem()).contexts == d.contexts;
    }
  }

  /** Raising and lowering again is as if neither were done: from an idle context the switch goes through, and both
      windows are idle afterwards. */
  lemma RaisedThenLowered(d: Display, win: string)
    requires d.Valid() && d.Sem() == 0 && win in d.contexts && win != d.current && d.contexts[win].semaphore == 0
    ensures Perform(d, Holding(Raised, [Holding(Lowered, [Go(win)])])) == d.At(win)
  {
    hide Perform, PerformAll;
    var inner := Holding(Lowered, [Go(win)]);
    var d1 := d.Set(1);
    HoldGo(d1, Lowered, win);
    HoldOne(d, Raised, inner);
    assert d1.Set(0).contexts == d.contexts;
    assert d.At(win).Set(1).Set(0).contexts == d.contexts;
  }

  /** A handler that lowers the semaphore twice can still not leave a window that was busy and has been entered for
      redrawing only; handled in place it can. */
  lemma BusyTakesTwo(d: Display, kind: Kind, win: string, to: string)
    requires d.Sound() && d.Sem() == 1 && win in d.contexts && win != d.current && to in d.contexts && to != d.current
    requires !d.tabbed && !d.contexts[d.current].pendingFullzoom
    ensures var twice := [Holding(Lowered, [Holding(Lowered, [Go(to)])])];
            var r := Handle(d, Event(kind, win, false, true, false, twice));
            r.current == if kind == Other then to else d.current
  {
    hide Perform, PerformAll, Enter;
    var a := Holding(Lowered, [Holding(Lowered, [Go(to)])]);
    var e := Event(kind, win, false, true, false, [a]);
    HandleUnfold(d, e);
    BusyEnter(d, e);
    var d2 := d.Bump(Taken(kind != Other));
    PerformOne(d2, a);
    LoweredTwice(d2, to);
  }

  lemma LoweredTwice(d: Display, to: string)
    requires d.Valid() && d.Sem() >= 2 && to in d.contexts && to != d.current
    ensures Perform(d, Holding(Lowered, [Holding(Lowered, [Go(to)])])).current == if d.Sem() == 2 then to else d.current
  {
    hide Perform, PerformAll;
    HoldOne(d, Lowered, Holding(Lowered, [Go(to)]));
    HoldGo(d.Set(d.Sem() - 1), Lowered, to);
  }

  lemma BusyEnter(d: Display, e: Event)
    requires d.Sound() && d.Sem() == 1 && e.win in d.contexts && e.win != d.current && !d.tabbed
    requires !d.contexts[d.current].pendingFullzoom && !e.selFile
    ensures Enter(d, e) == (d, e.kind != Other)
  {
  }

  lemma PerformOne(d: Display, a: Action)
    requires d.Valid()
    ensures PerformAll(d, [a]) == Perform(d, a)
  {
    assert [a][1..] == [];
    assert PerformAll(d, [a]) == PerformAll(Perform(d, a), []);
  }

  lemma HoldOne(d: Display, h: Hold, a: Action)
    requires d.Valid()
    ensures var d1 := Perform(d.Set(Level(h, d.Sem())), a);
            Perform(d, Holding(h, [a])) == d1.Set(WrittenBack(h, d.Sem(), d1.Sem()))
  {
    PerformOne(d.Set(Level(h, d.Sem())), a);
  }

  lemma HoldGo(d: Display, h: Hold, win: string)
    requires d.Valid()
    ensures var d1 := d.Set(Level(h, d.Sem())).Switch(win);
            Perform(d, Holding(h, [Go(win)])) == d1.Set(WrittenBack(h, d.Sem(), d1.Sem()))
  {
    var body, d0 := [Go(win)], d.Set(Level(h, d.Sem()));
    assert body[1..] == [];
    assert PerformAll(d0, body) == PerformAll(d0.Switch(win), []);
  }

  // ---- the code ----

  lemma HandleUnfold(d: Display, e: Event)
    requires d.Valid()
    ensures var (d1, redrawOnly) := Enter(d, e);
            var d2 := d1.Bump(Taken(redrawOnly));
            Handle(d, e) == Leave(if Runs(d2, e) then PerformAll(d2, e.handler) else d2, redrawOnly, d.current)
  {
  }

  lemma PerformNext(d: Display, acts: seq<Action>, i: nat)
    requires d.Valid() && i < |acts|
    ensures PerformAll(d, acts[i..]) == PerformAll(Perform(d, acts[i]), acts[i + 1..])
  {
    assert acts[i..][1..] == acts[i + 1..];
  }

  lemma PerformNone(d: Display, acts: seq<Action>)
    requires d.Valid()
    ensures PerformAll(d, acts[|acts|..]) == d
  {
  }

  class Session {
    var display: Display

    constructor (d: Display)
      ensures display == d
    {
      display := d;
    }

    /** callback: the window to go back to is a local of each call. */
    method Callback(e: Event)
      requires display.Valid()
      modifies this
      ensures display.Valid() && display == Handle(old(display), e)
      decreases e, 0
    {
      hide Enter, Handle, PerformAll;
      HandleUnfold(display, e);
      var restoreWin := display.current;
      var (entered, redrawOnly) := Enter(display, e);
      display := entered;
      if redrawOnly {
        display := display.Bump(1);
      }
      display := display.Bump(1);
      BumpTwice(entered, 1, 1);
      if !(e.guarded && display.Sem() >= 2) {
        ActAll(e.handler);
      }
      if display.Sem() > 0 {
        display := display.Bump(-1);
      }
      if redrawOnly {
        display := display.Bump(-1);
        display := display.SwitchNoTcl(restoreWin);
      }
    }

    /** The work of a handler. */
    method ActAll(acts: seq<Action>)
      requires display.Valid()
      modifies this
      ensures display.Valid() && display == PerformAll(old(display), acts)
      decreases acts, 1
    {
      hide PerformAll, Perform;
      var i := 0;
      while i < |acts|
        invariant 0 <= i <= |acts| && display.Valid()
        invariant PerformAll(old(display), acts) == PerformAll(display, acts[i..])
      {
        PerformNext(display, acts, i);
        Act(acts[i]);
        i := i + 1;
      }
      PerformNone(display, acts);
    }

    /** One action: what is saved of the semaphore is a local, what is written back goes to the context active then. */
    method Act(a: Action)
      requires display.Valid()
      modifies this
      ensures display.Valid() && display == Perform(old(display), a)
      decreases a, 0
    {
      hide Handle, PerformAll;
      match a
      case Arrive(e) => Callback(e);
      case Go(win) => display := display.Switch(win);
      case Holding(h, body) =>
        var save := display.Sem();
        display := display.Set(Level(h, save));
        ActAll(body);
        display := display.Set(WrittenBack(h, save, display.Sem()));
    }
  }
}
