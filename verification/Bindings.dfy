/** callback.c: the remappable table from input signatures to action ids, and the commands that edit,
    dump and rebuild it. */
module Bindings {
  import opened Options
  import opened Words

  const MAX_INPUT_BINDINGS: nat := 256

  datatype Device = Wheel | Button | Key
  datatype Ctx = Global | Canvas | OverGraph
  datatype Mods = Mods(ctrl: bool, shift: bool, alt: bool, super: bool)

  const WHEEL_UP := 1
  const WHEEL_DOWN := 2

  datatype Signature = Signature(device: Device, code: int, mods: Mods, ctx: Ctx)

  datatype Binding = Binding(sig: Signature, idleOnly: bool, actionId: string)

  datatype Status = Done(result: string) | Failed(message: string)

  // ---- names and their parsers ----

  function ParseDevice(s: string): Option<Device> {
    if s == "wheel" then Some(Wheel)
    else if s == "button" then Some(Button)
    else if s == "key" then Some(Key)
    else None
  }

  function ParseCode(d: Device, s: string): int {
    if d == Wheel then
      if s == "up" then WHEEL_UP else if s == "down" then WHEEL_DOWN else -1
    else Atoi(s)
  }

  const NOMODS := Mods(false, false, false, false)

  function ParseMod(m: Mods, tok: string): Option<Mods> {
    if tok in ["shift", "Shift"] then Some(m.(shift := true))
    else if tok in ["ctrl", "control", "Ctrl", "Control"] then Some(m.(ctrl := true))
    else if tok in ["alt", "Alt", "mod1"] then Some(m.(alt := true))
    else if tok in ["super", "Super", "mod4"] then Some(m.(super := true))
    else None
  }

  function ParseModTokens(m: Mods, toks: seq<string>): Option<Mods>
    decreases |toks|
  {
    if toks == [] then Some(m)
    else match ParseMod(m, toks[0])
      case None => None
      case Some(m') => ParseModTokens(m', toks[1..])
  }

  /** my_strncpy: what fits a buffer of this size with its terminator. */
  function Truncate(s: string, size: nat): (r: string)
    requires size > 0
    ensures r <= s && |r| < size && (r == s || |r| == size - 1)
  {
    if |s| < size then s else s[..size - 1]
  }

  function ParseMods(s: string): Option<Mods> {
    if s in ["", "0", "none"] then Some(NOMODS)
    else ParseModTokens(NOMODS, Tokens(Truncate(s, 128), '+'))
  }

  function ParseCtx(s: string): Option<Ctx> {
    if s in ["", "canvas"] then Some(Canvas)
    else if s == "global" then Some(Global)
    else if s in ["graph", "over_graph"] then Some(OverGraph)
    else None
  }

  function DeviceName(d: Device): string {
    match d case Wheel => "wheel" case Button => "button" case Key => "key"
  }

  function CodeName(d: Device, code: int): string {
    if d == Wheel then if code == WHEEL_UP then "up" else if code == WHEEL_DOWN then "down" else "?"
    else if code >= 0 then Itoa(code) else "-" + Itoa(-code)
  }

  function AddName(buf: string, on: bool, name: string): string {
    if !on then buf else if buf == "" then name else buf + "+" + name
  }

  function ModsName(m: Mods): string {
    if m == NOMODS then "0"
    else AddName(AddName(AddName(AddName("", m.ctrl, "ctrl"), m.shift, "shift"), m.alt, "alt"), m.super, "super")
  }

  function CtxName(c: Ctx): string {
    match c case Global => "global" case Canvas => "canvas" case OverGraph => "graph"
  }

  // ---- parsing undoes naming ----

  function WithWord(ws: seq<string>, on: bool, name: string): seq<string> {
    if on then ws + [name] else ws
  }

  function ModWords(m: Mods): seq<string> {
    WithWord(WithWord(WithWord(WithWord([], m.ctrl, "ctrl"), m.shift, "shift"), m.alt, "alt"), m.super, "super")
  }

  function JoinAll(ws: seq<string>): string {
    if ws == [] then "" else Join(ws, '+')
  }

  predicate Clean(ws: seq<string>) {
    forall w :: w in ws ==> w != "" && '+' !in w && ' ' !in w
  }

  lemma {:induction false} JoinSnoc(ws: seq<string>, name: string)
    requires ws != []
    ensures Join(ws + [name], '+') == Join(ws, '+') + "+" + name
  {
    if |ws| > 1 {
      assert (ws + [name])[1..] == ws[1..] + [name];
      JoinSnoc(ws[1..], name);
    } else {
      assert (ws + [name])[1..] == [name];
    }
  }

  lemma {:induction false} JoinFacts(ws: seq<string>)
    requires ws != [] && Clean(ws)
    ensures Join(ws, '+') != "" && ' ' !in Join(ws, '+')
  {
    assert ws[0] in ws;
    if |ws| <= 1 {
    } else {
      assert forall w :: w in ws[1..] ==> w in ws;
      JoinFacts(ws[1..]);
    }
  }

  lemma AddNameJoins(ws: seq<string>, on: bool, name: string)
    requires Clean(ws) && Clean([name])
    ensures Clean(WithWord(ws, on, name)) && AddName(JoinAll(ws), on, name) == JoinAll(WithWord(ws, on, name))
  {
    assert name in [name];
    if on && ws != [] {
      JoinSnoc(ws, name);
      JoinFacts(ws);
    }
  }

  lemma {:induction false} ParseSnoc(m: Mods, ws: seq<string>, name: string)
    ensures ParseModTokens(m, ws + [name]) ==
            match ParseModTokens(m, ws) case None => None case Some(m') => ParseMod(m', name)
    decreases |ws|
  {
    if ws == [] {
      assert ws + [name] == [name] && [name][1..] == [];
    } else {
      assert (ws + [name])[1..] == ws[1..] + [name];
      if ParseMod(m, ws[0]).Some? {
        ParseSnoc(ParseMod(m, ws[0]).value, ws[1..], name);
      }
    }
  }

  lemma ModsNameJoins(m: Mods)
    ensures Clean(ModWords(m)) && (m != NOMODS ==> ModsName(m) == JoinAll(ModWords(m)))
  {
    hide AddName, WithWord;
    var w1 := WithWord([], m.ctrl, "ctrl");
    var w2 := WithWord(w1, m.shift, "shift");
    var w3 := WithWord(w2, m.alt, "alt");
    AddNameJoins([], m.ctrl, "ctrl");
    AddNameJoins(w1, m.shift, "shift");
    AddNameJoins(w2, m.alt, "alt");
    AddNameJoins(w3, m.super, "super");
  }

  lemma AddModParses(m: Mods, ws: seq<string>, on: bool, name: string, m': Mods)
    requires ParseModTokens(NOMODS, ws) == Some(m)
    requires m' == m || on
    requires on ==> ParseMod(m, name) == Some(m')
    ensures ParseModTokens(NOMODS, WithWord(ws, on, name)) == Some(m')
  {
    ParseSnoc(NOMODS, ws, name);
  }

  lemma ModWordsParse(m: Mods)
    ensures ParseModTokens(NOMODS, ModWords(m)) == Some(m)
    ensures m != NOMODS ==> ModWords(m) != []
  {
    var m1 := NOMODS.(ctrl := m.ctrl);
    var m2 := m1.(shift := m.shift);
    var m3 := m2.(alt := m.alt);
    var w1 := WithWord([], m.ctrl, "ctrl");
    var w2 := WithWord(w1, m.shift, "shift");
    var w3 := WithWord(w2, m.alt, "alt");
    AddModParses(NOMODS, [], m.ctrl, "ctrl", m1);
    AddModParses(m1, w1, m.shift, "shift", m2);
    AddModParses(m2, w2, m.alt, "alt", m3);
    AddModParses(m3, w3, m.super, "super", m);
  }

  lemma ModsNameShort(m: Mods)
    requires m != NOMODS
    ensures |ModsName(m)| < 32 && ModsName(m) !in ["", "0", "none"]
  {
    var b1 := AddName("", m.ctrl, "ctrl");
    var b2 := AddName(b1, m.shift, "shift");
    var b3 := AddName(b2, m.alt, "alt");
    assert b1 == "" || b1[0] == 'c';
    assert b2 == "" || b2[0] in "cs";
    assert b3 == "" || b3[0] in "csa";
    assert ModsName(m)[0] in "csa" || ModsName(m) == "super";
  }

  /** For every modifier combination; the name fits the 32-byte buffer it is built in. */
  lemma ParseModsName(m: Mods)
    ensures ParseMods(ModsName(m)) == Some(m) && ' ' !in ModsName(m) && |ModsName(m)| < 32
  {
    if m != NOMODS {
      var ws := ModWords(m);
      ModsNameJoins(m);
      ModWordsParse(m);
      ModsNameShort(m);
      SplitJoin(ws, '+');
      NonEmptyAll(ws);
      JoinFacts(ws);
    }
  }

  lemma {:induction false} NonEmptyAll(ws: seq<string>)
    requires forall w :: w in ws ==> w != ""
    ensures NonEmpty(ws) == ws
  {
    if ws == [] {
    } else {
      assert forall w :: w in ws[1..] ==> w in ws;
      assert ws[0] in ws;
      NonEmptyAll(ws[1..]);
    }
  }

  // ---- the table as a sequence of rows ----

  type Rows = seq<Binding>

  predicate NoDuplicates(rows: Rows) {
    forall i, j :: 0 <= i < j < |rows| ==> rows[i].sig != rows[j].sig
  }

  /** The row of a signature, or -1. */
  function IndexOf(rows: Rows, sig: Signature): (i: int)
    ensures -1 <= i < |rows|
    ensures i >= 0 ==> rows[i].sig == sig
    ensures i == -1 <==> forall j :: 0 <= j < |rows| ==> rows[j].sig != sig
  {
    if rows == [] then -1
    else if rows[0].sig == sig then 0
    else
      var i := IndexOf(rows[1..], sig);
      if i < 0 then
        assert forall j :: 1 <= j < |rows| ==> rows[j] == rows[1..][j - 1];
        -1
      else i + 1
  }

  /** set_input_binding: replace the id of an existing row, or append. */
  function SetRow(rows: Rows, sig: Signature, id: string): (bool, Rows) {
    var i := IndexOf(rows, sig);
    if i >= 0 then (true, rows[i := rows[i].(actionId := Truncate(id, 64))])
    else if |rows| >= MAX_INPUT_BINDINGS then (false, rows)
    else (true, rows + [Binding(sig, false, Truncate(id, 64))])
  }

  /** unset_input_binding: the last row takes the place of the removed one. */
  function UnsetRow(rows: Rows, sig: Signature): Rows {
    var i := IndexOf(rows, sig);
    if i < 0 then rows else rows[i := rows[|rows| - 1]][..|rows| - 1]
  }

  function SetIdle(rows: Rows, sig: Signature, idle: bool): Rows {
    var i := IndexOf(rows, sig);
    if i < 0 then rows else rows[i := rows[i].(idleOnly := idle)]
  }

  // ---- what the rows mean: a finite map ----

  datatype Target = Target(actionId: string, idleOnly: bool)

  ghost function View(rows: Rows): map<Signature, Target> {
    map i, s | 0 <= i < |rows| && s == rows[i].sig && IndexOf(rows, s) == i ::
        s := Target(rows[i].actionId, rows[i].idleOnly)
  }

  lemma ViewAt(rows: Rows, sig: Signature)
    ensures sig in View(rows) <==> IndexOf(rows, sig) >= 0
    ensures sig in View(rows) ==>
        View(rows)[sig] == Target(rows[IndexOf(rows, sig)].actionId, rows[IndexOf(rows, sig)].idleOnly)
  {
  }

  /** The index is determined by the signature once there are no duplicates. */
  lemma IndexUnique(rows: Rows, i: nat)
    requires NoDuplicates(rows) && i < |rows|
    ensures IndexOf(rows, rows[i].sig) == i
  {
  }

  lemma NoDuplicatesSet(rows: Rows, sig: Signature, id: string)
    requires NoDuplicates(rows)
    ensures NoDuplicates(SetRow(rows, sig, id).1)
  {
  }

  /** The entry of a signature, read off the rows. */
  function EntryOf(rows: Rows, s: Signature): Option<Target> {
    var i := IndexOf(rows, s);
    if i < 0 then None else Some(Target(rows[i].actionId, rows[i].idleOnly))
  }

  function Get(m: map<Signature, Target>, s: Signature): Option<Target> {
    if s in m then Some(m[s]) else None
  }

  lemma ViewEntry(rows: Rows, s: Signature)
    ensures Get(View(rows), s) == EntryOf(rows, s)
  {
    ViewAt(rows, s);
  }

  lemma ViewIs(rows: Rows, m: map<Signature, Target>)
    requires forall s :: EntryOf(rows, s) == Get(m, s)
    ensures View(rows) == m
  {
    hide EntryOf;
    forall s ensures s in View(rows) <==> s in m
             ensures s in m ==> View(rows)[s] == m[s] {
      ViewEntry(rows, s);
    }
  }

  lemma SetRowView(rows: Rows, sig: Signature, id: string)
    requires NoDuplicates(rows)
    ensures var (ok, r) := SetRow(rows, sig, id);
            && NoDuplicates(r)
            && (ok <==> sig in View(rows) || |rows| < MAX_INPUT_BINDINGS)
            && (!ok ==> r == rows)
            && var kept := sig in View(rows) && View(rows)[sig].idleOnly;
               (ok ==> View(r) == View(rows)[sig := Target(Truncate(id, 64), kept)])
  {
    hide View, IndexOf, NoDuplicates;
    var (ok, r) := SetRow(rows, sig, id);
    NoDuplicatesSet(rows, sig, id);
    ViewEntry(rows, sig);
    if ok {
      var m := View(rows)[sig := Target(Truncate(id, 64), sig in View(rows) && View(rows)[sig].idleOnly)];
      forall s ensures EntryOf(r, s) == Get(m, s) {
        ViewEntry(rows, s);
        SetRowIndex(rows, sig, id, s);
      }
      ViewIs(r, m);
    }
  }

  lemma SetRowIndex(rows: Rows, sig: Signature, id: string, s: Signature)
    requires NoDuplicates(rows) && SetRow(rows, sig, id).0
    ensures var r := SetRow(rows, sig, id).1;
            IndexOf(r, s) == if s != sig then IndexOf(rows, s) else if IndexOf(rows, sig) >= 0 then IndexOf(rows, sig)
                else |rows|
  {
    var r := SetRow(rows, sig, id).1;
    NoDuplicatesSet(rows, sig, id);
    var i := if s != sig then IndexOf(rows, s) else if IndexOf(rows, sig) >= 0 then IndexOf(rows, sig) else |rows|;
    if i >= 0 {
      assert r[i].sig == s;
      IndexUnique(r, i);
    }
  }

  lemma SetIdleIndex(rows: Rows, sig: Signature, idle: bool, s: Signature)
    requires NoDuplicates(rows)
    ensures NoDuplicates(SetIdle(rows, sig, idle)) && IndexOf(SetIdle(rows, sig, idle), s) == IndexOf(rows, s)
  {
    if IndexOf(rows, s) >= 0 {
      IndexUnique(SetIdle(rows, sig, idle), IndexOf(rows, s));
    }
  }

  lemma SetIdleView(rows: Rows, sig: Signature, idle: bool)
    requires NoDuplicates(rows) && sig in View(rows)
    ensures NoDuplicates(SetIdle(rows, sig, idle)) && |SetIdle(rows, sig, idle)| == |rows|
    ensures View(SetIdle(rows, sig, idle)) == View(rows)[sig := View(rows)[sig].(idleOnly := idle)]
  {
    hide View, IndexOf, NoDuplicates;
    SetIdleIndex(rows, sig, idle, sig);
    ViewEntry(rows, sig);
    var r, m := SetIdle(rows, sig, idle), View(rows)[sig := View(rows)[sig].(idleOnly := idle)];
    forall s ensures EntryOf(r, s) == Get(m, s) {
      ViewEntry(rows, s);
      SetIdleIndex(rows, sig, idle, s);
    }
    ViewIs(r, m);
  }

  /** Moving the last row into the gap loses nothing else. */
  lemma UnsetRowView(rows: Rows, sig: Signature)
    requires NoDuplicates(rows)
    ensures NoDuplicates(UnsetRow(rows, sig))
    ensures View(UnsetRow(rows, sig)) == View(rows) - {sig}
    ensures |UnsetRow(rows, sig)| == |rows| - if sig in View(rows) then 1 else 0
  {
    hide View, IndexOf, NoDuplicates;
    var r, m := UnsetRow(rows, sig), View(rows) - {sig};
    UnsetRowIndex(rows, sig, sig);
    ViewEntry(rows, sig);
    forall s ensures EntryOf(r, s) == Get(m, s) {
      ViewEntry(rows, s);
      UnsetRowIndex(rows, sig, s);
    }
    ViewIs(r, m);
  }

  lemma UnsetRowIndex(rows: Rows, sig: Signature, s: Signature)
    requires NoDuplicates(rows)
    ensures NoDuplicates(UnsetRow(rows, sig))
    ensures var r, i, g := UnsetRow(rows, sig), IndexOf(rows, s), IndexOf(rows, sig);
            IndexOf(r, s) == if s == sig then -1 else if g >= 0 && i == |rows| - 1 then g else i
  {
    hide IndexOf;
    var r, i, g := UnsetRow(rows, sig), IndexOf(rows, s), IndexOf(rows, sig);
    var k := if s == sig then -1 else if g >= 0 && i == |rows| - 1 then g else i;
    if k >= 0 {
      assert r[k].sig == s;
      IndexUnique(r, k);
    }
  }

  lemma AppendIndex(rows: Rows, s: Signature)
    requires rows != [] && NoDuplicates(rows)
    ensures var n := |rows| - 1;
            && NoDuplicates(rows[..n]) && IndexOf(rows[..n], rows[n].sig) == -1
            && IndexOf(rows, s) == if s == rows[n].sig then n else IndexOf(rows[..n], s)
  {
    var n := |rows| - 1;
    IndexUnique(rows, n);
    var i := IndexOf(rows[..n], s);
    if i >= 0 { IndexUnique(rows, i); }
  }

  lemma {:induction false} ViewSize(rows: Rows)
    requires NoDuplicates(rows)
    ensures |View(rows)| == |rows|
  {
    if rows == [] {
      assert View(rows) == map[];
    } else {
      var n := |rows| - 1;
      var b, prev := rows[n], rows[..n];
      AppendIndex(rows, b.sig);
      ViewSize(prev);
      ViewGrows(rows);
    }
  }

  lemma ViewGrows(rows: Rows)
    requires rows != [] && NoDuplicates(rows)
    ensures var n := |rows| - 1;
            && rows[n].sig !in View(rows[..n])
            && View(rows) == View(rows[..n])[rows[n].sig := Target(rows[n].actionId, rows[n].idleOnly)]
  {
    hide View, IndexOf, NoDuplicates;
    var n := |rows| - 1;
    var m := View(rows[..n])[rows[n].sig := Target(rows[n].actionId, rows[n].idleOnly)];
    AppendIndex(rows, rows[n].sig);
    ViewEntry(rows[..n], rows[n].sig);
    forall s ensures EntryOf(rows, s) == Get(m, s) {
      ViewEntry(rows[..n], s);
      AppendIndex(rows, s);
    }
    ViewIs(rows, m);
  }

  // ---- commands ----

  /** What a command's words ask for, once parsed. */
  datatype Request =
    | Install(sig: Signature, id: string, idle: bool)
    | Remove(sig: Signature)
    | Reject(message: string)

  datatype Command = BindWords(args: seq<string>) | UnbindWords(args: seq<string>)

  /** The words after `xschem bind`: device, code, modifiers, context, action id and perhaps "idle". */
  function ParseBind(args: seq<string>, registry: set<string>): (q: Request)
    ensures !q.Remove?
  {
    if |args| < 5 then Reject("usage: xschem bind <wheel|button|key> <code> <mods> <ctx> <action_id> [idle]")
    else if |args| >= 6 && args[5] != "idle" then Reject("bind: expected 'idle', got '" + args[5] + "'")
    else match ParseDevice(args[0])
      case None => Reject("bind: unknown device")
      case Some(d) =>
        var code := ParseCode(d, args[1]);
        if code < 0 then Reject("bind: bad code")
        else match ParseMods(args[2])
          case None => Reject("bind: bad modifiers")
          case Some(m) => match ParseCtx(args[3])
            case None => Reject("bind: bad context")
            case Some(c) =>
              if args[4] !in registry then Reject("bind: unknown action '" + args[4] + "'")
              else Install(Signature(d, code, m, c), args[4], |args| >= 6)
  }

  function ParseUnbind(args: seq<string>): Request {
    if |args| < 4 then Reject("usage: xschem unbind <device> <code> <mods> <ctx>")
    else
      var d, m, c := ParseDevice(args[0]), ParseMods(args[2]), ParseCtx(args[3]);
      if d == None || ParseCode(d.value, args[1]) < 0 || m == None || c == None then Reject("unbind: bad argument")
      else Remove(Signature(d.value, ParseCode(d.value, args[1]), m.value, c.value))
  }

  function Parse(c: Command, registry: set<string>): Request {
    match c case BindWords(args) => ParseBind(args, registry) case UnbindWords(args) => ParseUnbind(args)
  }

  /** action_cmd_bind and action_cmd_unbind on the rows. */
  function Execute(rows: Rows, q: Request): (Status, Rows) {
    match q
    case Reject(m) => (Failed(m), rows)
    case Install(sig, id, idle) =>
      var (ok, r) := SetRow(rows, sig, id);
      if ok then (Done(""), SetIdle(r, sig, idle)) else (Failed("bind: binding table full"), rows)
    case Remove(sig) =>
      (Done(if IndexOf(rows, sig) >= 0 then "1" else "0"), UnsetRow(rows, sig))
  }

  /** The same commands on a finite map. */
  function ExecuteMap(m: map<Signature, Target>, q: Request): (Status, map<Signature, Target>) {
    match q
    case Reject(e) => (Failed(e), m)
    case Install(sig, id, idle) =>
      if sig in m || |m| < MAX_INPUT_BINDINGS then (Done(""), m[sig := Target(Truncate(id, 64), idle)])
      else (Failed("bind: binding table full"), m)
    case Remove(sig) => (Done(if sig in m then "1" else "0"), m - {sig})
  }

  lemma InstallAgrees(rows: Rows, sig: Signature, id: string, idle: bool)
    requires NoDuplicates(rows) && |rows| <= MAX_INPUT_BINDINGS
    ensures var (st, r) := Execute(rows, Install(sig, id, idle));
            && NoDuplicates(r) && |r| <= MAX_INPUT_BINDINGS
            && (st, View(r)) == ExecuteMap(View(rows), Install(sig, id, idle))
  {
    hide View, IndexOf, NoDuplicates, Truncate;
    ViewSize(rows);
    var (ok, r) := SetRow(rows, sig, id);
    SetRowView(rows, sig, id);
    if ok {
      SetIdleView(r, sig, idle);
      assert View(SetIdle(r, sig, idle)) == View(rows)[sig := Target(Truncate(id, 64), idle)];
    }
  }

  lemma RemoveAgrees(rows: Rows, sig: Signature)
    requires NoDuplicates(rows) && |rows| <= MAX_INPUT_BINDINGS
    ensures var (st, r) := Execute(rows, Remove(sig));
            && NoDuplicates(r) && |r| <= MAX_INPUT_BINDINGS
            && (st, View(r)) == ExecuteMap(View(rows), Remove(sig))
  {
    hide View, NoDuplicates;
    ViewAt(rows, sig);
    UnsetRowView(rows, sig);
  }

  /** One command: the rows stay free of duplicates and within capacity, and do what the map does. */
  lemma ExecuteAgrees(rows: Rows, q: Request)
    requires NoDuplicates(rows) && |rows| <= MAX_INPUT_BINDINGS
    ensures var (st, r) := Execute(rows, q);
            && NoDuplicates(r) && |r| <= MAX_INPUT_BINDINGS
            && (st, View(r)) == ExecuteMap(View(rows), q)
  {
    match q
    case Reject(_) =>
    case Install(sig, id, idle) => InstallAgrees(rows, sig, id, idle);
    case Remove(sig) => RemoveAgrees(rows, sig);
  }

  function Run(rows: Rows, cs: seq<Command>, registry: set<string>): Rows {
    if cs == [] then rows
    else
      var n := |cs| - 1;
      Execute(Run(rows, cs[..n], registry), Parse(cs[n], registry)).1
  }

  function RunMap(m: map<Signature, Target>, cs: seq<Command>, registry: set<string>): map<Signature, Target> {
    if cs == [] then m
    else
      var n := |cs| - 1;
      ExecuteMap(RunMap(m, cs[..n], registry), Parse(cs[n], registry)).1
  }

  /** Any run of bind and unbind commands. */
  lemma {:induction false} RunAgrees(rows: Rows, cs: seq<Command>, registry: set<string>)
    requires NoDuplicates(rows) && |rows| <= MAX_INPUT_BINDINGS
    ensures NoDuplicates(Run(rows, cs, registry)) && |Run(rows, cs, registry)| <= MAX_INPUT_BINDINGS
    ensures View(Run(rows, cs, registry)) == RunMap(View(rows), cs, registry)
    ensures forall sig :: EntryOf(Run(rows, cs, registry), sig) == Get(RunMap(View(rows), cs, registry), sig)
  {
    if cs == [] {
    } else {
      var n := |cs| - 1;
      RunAgrees(rows, cs[..n], registry);
      ExecuteAgrees(Run(rows, cs[..n], registry), Parse(cs[n], registry));
    }
    forall sig ensures EntryOf(Run(rows, cs, registry), sig) == Get(RunMap(View(rows), cs, registry), sig) {
      ViewEntry(Run(rows, cs, registry), sig);
    }
  }

  // ---- dumping and rebuilding ----

  /** Ids are stored in 64 bytes and dumped as one word. */
  predicate GoodRegistry(registry: set<string>) {
    forall id :: id in registry ==> |id| < 64 && ' ' !in id && id != ""
  }

  predicate GoodRow(b: Binding, registry: set<string>) {
    && b.sig.code >= 0 && (b.sig.device == Wheel ==> b.sig.code == WHEEL_UP || b.sig.code == WHEEL_DOWN)
    && b.actionId in registry
  }

  predicate GoodRows(rows: Rows, registry: set<string>) {
    NoDuplicates(rows) && |rows| <= MAX_INPUT_BINDINGS && AllGood(rows, registry)
  }

  function RowWords(b: Binding): seq<string> {
    [DeviceName(b.sig.device), CodeName(b.sig.device, b.sig.code), ModsName(b.sig.mods), CtxName(b.sig.ctx), b.actionId]
    + if b.idleOnly then ["idle"] else []
  }

  /** One element of the list printed by `xschem bindings dump`. */
  function RowText(b: Binding): string { Join(RowWords(b), ' ') }

  function Dump(rows: Rows): seq<string> {
    seq(|rows|, i requires 0 <= i < |rows| => RowText(rows[i]))
  }

  function ReplayCommands(dump: seq<string>): seq<Command> {
    seq(|dump|, i requires 0 <= i < |dump| => BindWords(Split(dump[i], ' ')))
  }

  lemma ParseNames(b: Binding, registry: set<string>)
    requires GoodRegistry(registry) && GoodRow(b, registry)
    ensures ParseDevice(DeviceName(b.sig.device)) == Some(b.sig.device) && ' ' !in DeviceName(b.sig.device)
    ensures ParseCode(b.sig.device, CodeName(b.sig.device, b.sig.code)) == b.sig.code
        && ' ' !in CodeName(b.sig.device, b.sig.code)
    ensures ParseCtx(CtxName(b.sig.ctx)) == Some(b.sig.ctx) && ' ' !in CtxName(b.sig.ctx)
  {
    if b.sig.device != Wheel {
      AtoiItoa(b.sig.code);
    }
  }

  lemma RowRebinds(b: Binding, registry: set<string>)
    requires GoodRegistry(registry) && GoodRow(b, registry)
    ensures ParseBind(Split(RowText(b), ' '), registry) == Install(b.sig, b.actionId, b.idleOnly)
  {
    hide ParseBind, Join, Split, GoodRow, GoodRegistry;
    RowWordsParse(b, registry);
    SplitJoin(RowWords(b), ' ');
  }

  lemma RowWordsParse(b: Binding, registry: set<string>)
    requires GoodRegistry(registry) && GoodRow(b, registry)
    ensures ParseBind(RowWords(b), registry) == Install(b.sig, b.actionId, b.idleOnly)
    ensures forall w :: w in RowWords(b) ==> ' ' !in w
  {
    hide ParseDevice, ParseCode, ParseMods, ParseCtx, DeviceName, CodeName, ModsName, CtxName;
    ParseModsName(b.sig.mods);
    ParseNames(b, registry);
  }

  /** Replaying a dump into an empty table rebuilds the same rows in the same order. */
  lemma {:induction false} ReplayRebuilds(rows: Rows, registry: set<string>, n: nat)
    requires GoodRegistry(registry) && GoodRows(rows, registry) && n <= |rows|
    ensures Run([], ReplayCommands(Dump(rows))[..n], registry) == rows[..n]
    decreases n
  {
    hide Split, RowText, ParseBind, Execute, NoDuplicates, GoodRow;
    var cs := ReplayCommands(Dump(rows));
    if n == 0 {
      assert cs[..0] == [] && rows[..0] == [];
    } else {
      var m := n - 1;
      ReplayRebuilds(rows, registry, m);
      assert cs[..n][..m] == cs[..m];
      var b := rows[m];
      RowRebinds(b, registry);
      assert cs[..n][m] == BindWords(Split(RowText(b), ' '));
      RegisteredIdFits(b, registry);
      RowAppends(rows, m);
    }
  }

  lemma RegisteredIdFits(b: Binding, registry: set<string>)
    requires GoodRegistry(registry) && GoodRow(b, registry)
    ensures |b.actionId| < 64
  {
  }

  lemma RowAppends(rows: Rows, m: nat)
    requires NoDuplicates(rows) && m < |rows| <= MAX_INPUT_BINDINGS && |rows[m].actionId| < 64
    ensures Execute(rows[..m], Install(rows[m].sig, rows[m].actionId, rows[m].idleOnly)) == (Done(""), rows[..m + 1])
  {
    var b := rows[m];
    assert forall j :: 0 <= j < m ==> rows[..m][j].sig != b.sig;
    var r := rows[..m] + [Binding(b.sig, false, b.actionId)];
    assert SetRow(rows[..m], b.sig, b.actionId) == (true, r);
    IndexUnique(r, m);
    assert SetIdle(r, b.sig, b.idleOnly) == rows[..m + 1];
  }

  /** Every table reached by commands can be dumped and rebuilt. */
  lemma {:induction false} RunKeepsGood(rows: Rows, cs: seq<Command>, registry: set<string>)
    requires GoodRegistry(registry) && GoodRows(rows, registry)
    ensures GoodRows(Run(rows, cs, registry), registry)
  {
    if cs == [] {
    } else {
      var n := |cs| - 1;
      RunKeepsGood(rows, cs[..n], registry);
      ExecuteKeepsGood(Run(rows, cs[..n], registry), cs[n], registry);
    }
  }

  predicate AllGood(rows: Rows, registry: set<string>) {
    forall i :: 0 <= i < |rows| ==> GoodRow(rows[i], registry)
  }

  lemma InstallKeepsGood(rows: Rows, sig: Signature, id: string, idle: bool, registry: set<string>)
    requires AllGood(rows, registry) && GoodRow(Binding(sig, idle, id), registry) && |id| < 64
    ensures AllGood(Execute(rows, Install(sig, id, idle)).1, registry)
  {
  }

  lemma RemoveKeepsGood(rows: Rows, sig: Signature, registry: set<string>)
    requires AllGood(rows, registry)
    ensures AllGood(Execute(rows, Remove(sig)).1, registry)
  {
  }

  lemma ParsedIsGood(c: Command, registry: set<string>)
    ensures var q := Parse(c, registry); q.Install? ==> GoodRow(Binding(q.sig, q.idle, q.id), registry)
  {
    hide ParseMods, ParseCtx, Atoi;
  }

  lemma ExecuteKeepsGood(rows: Rows, c: Command, registry: set<string>)
    requires GoodRegistry(registry) && GoodRows(rows, registry)
    ensures GoodRows(Execute(rows, Parse(c, registry)).1, registry)
  {
    hide NoDuplicates, Parse, Execute, View;
    var q := Parse(c, registry);
    ParsedIsGood(c, registry);
    ExecuteAgrees(rows, q);
    match q
    case Reject(m) => RejectKeeps(rows, m);
    case Install(sig, id, idle) => InstallKeepsGood(rows, sig, id, idle, registry);
    case Remove(sig) => RemoveKeepsGood(rows, sig, registry);
  }

  lemma RejectKeeps(rows: Rows, m: string)
    ensures Execute(rows, Reject(m)).1 == rows
  {
  }

  lemma DumpReplay(rows: Rows, cs: seq<Command>, registry: set<string>)
    requires GoodRegistry(registry) && GoodRows(rows, registry)
    ensures var table := Run(rows, cs, registry);
            Run([], ReplayCommands(Dump(table)), registry) == table
  {
    var table := Run(rows, cs, registry);
    RunKeepsGood(rows, cs, registry);
    ReplayRebuilds(table, registry, |table|);
    var rs := ReplayCommands(Dump(table));
    assert rs[..|table|] == rs && table[..|table|] == table;
  }

  // ---- what a command's words ask for ----

  const SHIFT_NAMES := {"shift", "Shift"}
  const CTRL_NAMES := {"ctrl", "control", "Ctrl", "Control"}
  const ALT_NAMES := {"alt", "Alt", "mod1"}
  const SUPER_NAMES := {"super", "Super", "mod4"}

  /** One of the words names the modifier. */
  predicate Names(toks: seq<string>, names: set<string>) {
    exists t :: t in toks && t in names
  }

  /** Every word is the name of a modifier. */
  predicate AllModifiers(toks: seq<string>) {
    forall t :: t in toks ==> t in SHIFT_NAMES + CTRL_NAMES + ALT_NAMES + SUPER_NAMES
  }

  lemma {:induction false} ModTokensExactly(m: Mods, toks: seq<string>)
    ensures ParseModTokens(m, toks).Some? <==> AllModifiers(toks)
    ensures AllModifiers(toks) ==>
        ParseModTokens(m, toks).value == Mods(m.ctrl || Names(toks, CTRL_NAMES), m.shift || Names(toks, SHIFT_NAMES),
            m.alt || Names(toks, ALT_NAMES), m.super || Names(toks, SUPER_NAMES))
    decreases |toks|
  {
    if toks == [] {
    } else {
      var w, rest := toks[0], toks[1..];
      assert toks == [w] + rest;
      ModTokenExactly(m, w);
      forall names ensures Names(toks, names) <==> w in names || Names(rest, names) {
        if w in names { assert w in toks; }
        if Names(rest, names) {
          var t :| t in rest && t in names;
          assert t in toks;
        }
      }
      assert AllModifiers(toks) ==> w in toks;
      if ParseMod(m, w).Some? {
        ModTokensExactly(ParseMod(m, w).value, rest);
      }
    }
  }

  lemma ModTokenExactly(m: Mods, w: string)
    ensures ParseMod(m, w).Some? <==> AllModifiers([w])
    ensures ParseMod(m, w).Some? ==>
        ParseMod(m, w).value == Mods(m.ctrl || w in CTRL_NAMES, m.shift || w in SHIFT_NAMES,
            m.alt || w in ALT_NAMES, m.super || w in SUPER_NAMES)
  {
    assert w in [w];
  }

  /** The words of a modifier argument, cut to the 127 characters that fit the buffer. */
  function ModArgs(s: string): seq<string> { Tokens(Truncate(s, 128), '+') }

  predicate NoModifier(s: string) { s == "" || s == "0" || s == "none" }

  /** For every string: it is refused if and only if one of its words is no modifier, and asks for exactly those
      modifiers one of its words names. */
  lemma ParseModsExactly(s: string)
    ensures ParseMods(s).Some? <==> NoModifier(s) || AllModifiers(ModArgs(s))
    ensures ParseMods(s).Some? ==>
        var m, named := ParseMods(s).value, !NoModifier(s);
        && (m.ctrl <==> named && Names(ModArgs(s), CTRL_NAMES))
        && (m.shift <==> named && Names(ModArgs(s), SHIFT_NAMES))
        && (m.alt <==> named && Names(ModArgs(s), ALT_NAMES))
        && (m.super <==> named && Names(ModArgs(s), SUPER_NAMES))
  {
    ModTokensExactly(NOMODS, ModArgs(s));
  }

  /** The four words of a signature parse. */
  predicate GoodWords(args: seq<string>)
    requires |args| >= 4
  {
    && args[0] in {"wheel", "button", "key"}
    && (if args[0] == "wheel" then args[1] in {"up", "down"} else Atoi(args[1]) >= 0)
    && (NoModifier(args[2]) || AllModifiers(ModArgs(args[2])))
    && args[3] in {"", "canvas", "global", "graph", "over_graph"}
  }

  /** What each word of a signature that parses stands for. */
  lemma WordsRead(args: seq<string>)
    requires ParseUnbind(args).Remove?
    ensures var sig := ParseUnbind(args).sig;
            && sig.device == (if args[0] == "wheel" then Wheel else if args[0] == "button" then Button else Key)
            && sig.code == (if args[0] != "wheel" then Atoi(args[1]) else if args[1] == "up" then 1 else 2)
            && ParseMods(args[2]) == Some(sig.mods)
            && sig.ctx == if args[3] == "global" then Global
                          else if args[3] in {"", "canvas"} then Canvas else OverGraph
  {
    hide ParseMods, Atoi;
  }

  /** unbind fails, and then changes nothing, if and only if one of the four words does not parse; otherwise it
      succeeds whether or not there was a row. */
  lemma UnbindRefusedExactlyWhen(rows: Rows, args: seq<string>)
    ensures var (st, r) := Execute(rows, ParseUnbind(args));
            && (st.Failed? <==> |args| < 4 || !GoodWords(args))
            && (st.Failed? ==> r == rows)
  {
    hide AllModifiers, ModArgs, Atoi, ParseMods, UnsetRow;
    if |args| >= 4 {
      ParseModsExactly(args[2]);
    }
  }

  /** bind fails, and then changes nothing, if and only if a word does not parse, the action is unknown, or the
      signature is new and the table full. */
  lemma BindRefusedExactlyWhen(rows: Rows, args: seq<string>, registry: set<string>)
    ensures var q := ParseBind(args, registry);
            var (st, r) := Execute(rows, q);
            && (st.Failed? <==>
                || |args| < 5 || !GoodWords(args) || args[4] !in registry || (|args| >= 6 && args[5] != "idle")
                || (q.Install? && |rows| >= 256 && !Bound(rows, q.sig)))
            && (st.Failed? ==> r == rows)
  {
    hide AllModifiers, ModArgs, Atoi, ParseMods, SetIdle, IndexOf, Bound;
    if |args| >= 4 {
      ParseModsExactly(args[2]);
    }
    if ParseBind(args, registry).Install? {
      BoundIndex(rows, ParseBind(args, registry).sig);
    }
  }

  /** The text of a dumped row. */
  lemma RowTextReads(b: Binding)
    ensures RowText(b) == DeviceName(b.sig.device) + " " + CodeName(b.sig.device, b.sig.code) + " "
        + ModsName(b.sig.mods) + " " + CtxName(b.sig.ctx) + " " + b.actionId + (if b.idleOnly then " idle" else "")
  {
    hide Join, DeviceName, CodeName, ModsName, CtxName;
    var last := if b.idleOnly then [b.actionId, "idle"] else [b.actionId];
    var d, c, m := DeviceName(b.sig.device), CodeName(b.sig.device, b.sig.code), ModsName(b.sig.mods);
    var x := CtxName(b.sig.ctx);
    assert RowWords(b) == [d] + ([c] + ([m] + ([x] + last)));
    JoinCons(d, [c] + ([m] + ([x] + last)));
    JoinCons(c, [m] + ([x] + last));
    JoinCons(m, [x] + last);
    JoinCons(x, last);
    JoinLast(b.actionId);
  }

  lemma JoinCons(w: string, ws: seq<string>)
    requires ws != []
    ensures Join([w] + ws, ' ') == w + " " + Join(ws, ' ')
  {
    assert ([w] + ws)[1..] == ws;
  }

  lemma JoinLast(id: string)
    ensures Join([id], ' ') == id && Join([id, "idle"], ' ') == id + " idle"
  {
    assert [id, "idle"][1..] == ["idle"];
  }

  /** A button or key code is named by its decimal number, with a sign only if it is negative. */
  lemma CodeNameReads(d: Device, code: int)
    requires d != Wheel
    ensures Atoi(CodeName(d, code)) == code && (CodeName(d, code)[..1] == "-" <==> code < 0)
  {
    var n: nat := if code < 0 then -code else code;
    AtoiReads("", if code < 0 then "-" else "", n, "");
    ItoaDigits(n);
    assert Itoa(n)[0] in Itoa(n);
    assert "" + "-" + Itoa(n) + "" == "-" + Itoa(n) && "" + "" + Itoa(n) + "" == Itoa(n);
  }

  /** Modifiers are named in this order. */
  lemma ModsNameOrder()
    ensures ModsName(Mods(true, true, true, true)) == "ctrl+shift+alt+super"
    ensures ModsName(Mods(false, false, false, false)) == "0"
  {
  }

  /** Bind and unbind read the same signature out of the same words. */
  lemma SameSignature(args: seq<string>, registry: set<string>)
    requires ParseBind(args, registry).Install?
    ensures |args| >= 4 && ParseUnbind(args) == Remove(ParseBind(args, registry).sig)
    ensures ParseUnbind(args[..4]) == Remove(ParseBind(args, registry).sig)
  {
  }

  /** The first four words of a dumped row, given to unbind, remove that row and no other, wherever it stands; the
      answer says whether there was one. */
  lemma UnbindDumped(rows: Rows, b: Binding, registry: set<string>)
    requires NoDuplicates(rows) && GoodRegistry(registry) && GoodRow(b, registry)
    ensures |Split(RowText(b), ' ')| >= 4 && ParseUnbind(Split(RowText(b), ' ')[..4]) == Remove(b.sig)
    ensures |Split(RowText(b), ' ')| >= 4 &&
            var (st, r) := Execute(rows, ParseUnbind(Split(RowText(b), ' ')[..4]));
            && (forall x :: x in r <==> x in rows && x.sig != b.sig)
            && View(r) == View(rows) - {b.sig}
            && st == Done(if exists x :: x in rows && x.sig == b.sig then "1" else "0")
  {
    hide View, Split, RowText, ParseBind, ParseUnbind, GoodRow, GoodRegistry;
    RowRebinds(b, registry);
    SameSignature(Split(RowText(b), ' '), registry);
    UnsetRowView(rows, b.sig);
    UnsetRowRows(rows, b.sig);
    if x :| x in rows && x.sig == b.sig {
      var j :| 0 <= j < |rows| && rows[j] == x;
    }
  }

  lemma UnsetRowRows(rows: Rows, sig: Signature)
    requires NoDuplicates(rows)
    ensures forall x :: x in UnsetRow(rows, sig) <==> x in rows && x.sig != sig
    ensures IndexOf(rows, sig) >= 0 ==> exists x :: x in rows && x.sig == sig
  {
    var r, i, n := UnsetRow(rows, sig), IndexOf(rows, sig), |rows| - 1;
    if i >= 0 {
      assert rows[i] in rows;
      forall x | x in rows && x.sig != sig ensures x in r {
        var j :| 0 <= j < |rows| && rows[j] == x;
        assert r[if j == n then i else j] == x;
      }
      forall x | x in r ensures x in rows && x.sig != sig {
        var j :| 0 <= j < |r| && r[j] == x;
        assert x == rows[if j == i then n else j];
        assert i != (if j == i then n else j);
      }
    }
  }

  // ---- which row an event runs ----

  function DispatchIndex(rows: Rows, sig: Signature): int {
    if IndexOf(rows, sig) >= 0 then IndexOf(rows, sig) else IndexOf(rows, sig.(ctx := Global))
  }

  predicate Bound(rows: Rows, sig: Signature) {
    exists b :: b in rows && b.sig == sig
  }

  /** The row of the event's own context if there is one, else the context-independent one; none if neither is bound. */
  lemma DispatchPrefersOwnContext(rows: Rows, sig: Signature)
    ensures var i, everywhere := DispatchIndex(rows, sig), Signature(sig.device, sig.code, sig.mods, Global);
            && -1 <= i < |rows|
            && (i >= 0 <==> Bound(rows, sig) || Bound(rows, everywhere))
            && (i >= 0 ==> rows[i].sig == if Bound(rows, sig) then sig else everywhere)
  {
    BoundIndex(rows, sig);
    BoundIndex(rows, sig.(ctx := Global));
  }

  lemma BoundIndex(rows: Rows, sig: Signature)
    ensures IndexOf(rows, sig) >= 0 <==> Bound(rows, sig)
  {
    var i := IndexOf(rows, sig);
    if i >= 0 { assert rows[i] in rows; }
  }

  /** What is bound to a signature is what its events run; once it is unbound they run what is bound to the signature
      everywhere, if anything. */
  lemma DispatchAfterCommand(rows: Rows, sig: Signature, id: string, idle: bool)
    requires NoDuplicates(rows) && |rows| <= MAX_INPUT_BINDINGS
    ensures var (st, r) := Execute(rows, Install(sig, id, idle));
            st == Done("") ==>
              var i := DispatchIndex(r, sig);
              i >= 0 && r[i] == Binding(sig, idle, Truncate(id, 64))
    ensures sig.ctx != Global ==>
              var r := Execute(rows, Remove(sig)).1;
              var i, j := DispatchIndex(r, sig), IndexOf(rows, sig.(ctx := Global));
              if j >= 0 then i >= 0 && r[i] == rows[j] else i < 0
  {
    hide View, IndexOf, NoDuplicates, Truncate, SetRow, SetIdle, UnsetRow;
    ExecuteAgrees(rows, Install(sig, id, idle));
    ExecuteAgrees(rows, Remove(sig));
    var bound, unbound := Execute(rows, Install(sig, id, idle)).1, Execute(rows, Remove(sig)).1;
    var everywhere := sig.(ctx := Global);
    ViewAt(bound, sig);
    ViewAt(unbound, sig);
    ViewAt(unbound, everywhere);
    ViewAt(rows, everywhere);
  }

  // ---- the table itself ----

  class BindingTable {
    const rows: array<Binding>
    var num: nat

    ghost predicate Valid()
      reads this, rows
    {
      num <= rows.Length == MAX_INPUT_BINDINGS && NoDuplicates(rows[..num])
    }

    ghost function Contents(): Rows
      reads this, rows
      requires num <= rows.Length
    {
      rows[..num]
    }

    constructor ()
      ensures Valid() && Contents() == [] && fresh(rows) && rows.Length == 256
    {
      rows := new Binding[MAX_INPUT_BINDINGS](_ => Binding(Signature(Wheel, 0, NOMODS, Global), false, ""));
      num := 0;
    }

    /** find_binding */
    method FindBinding(sig: Signature) returns (i: int)
      requires num <= rows.Length
      ensures i == IndexOf(rows[..num], sig)
    {
      i := 0;
      while i < num
        invariant 0 <= i <= num
        invariant forall j :: 0 <= j < i ==> rows[j].sig != sig
      {
        if rows[i].sig == sig {
          FirstIndex(rows[..num], i);
          return;
        }
        i := i + 1;
      }
      i := -1;
    }

    /** set_input_binding */
    method SetInputBinding(sig: Signature, id: string) returns (ok: bool)
      requires Valid()
      modifies this, rows
      ensures Valid() && (ok, Contents()) == SetRow(old(Contents()), sig, id)
    {
      NoDuplicatesSet(Contents(), sig, id);
      var i := FindBinding(sig);
      if i >= 0 {
        rows[i] := rows[i].(actionId := Truncate(id, 64));
        assert Contents() == SetRow(old(Contents()), sig, id).1;
        return true;
      }
      if num >= MAX_INPUT_BINDINGS {
        return false;
      }
      rows[num] := Binding(sig, false, Truncate(id, 64));
      num := num + 1;
      assert Contents() == old(Contents()) + [Binding(sig, false, Truncate(id, 64))];
      return true;
    }

    /** unset_input_binding */
    method UnsetInputBinding(sig: Signature) returns (removed: nat)
      requires Valid()
      modifies this, rows
      ensures Valid() && Contents() == UnsetRow(old(Contents()), sig)
      ensures removed == if IndexOf(old(Contents()), sig) >= 0 then 1 else 0
    {
      hide NoDuplicates, IndexOf;
      UnsetRowIndex(Contents(), sig, sig);
      var i := FindBinding(sig);
      if i < 0 {
        return 0;
      }
      num := num - 1;
      rows[i] := rows[num];
      assert Contents() == old(Contents())[i := old(Contents())[num]][..num];
      return 1;
    }

    /** action_cmd_bind: the idle flag is set to the value asked for, also on a replaced row. */
    method Bind(args: seq<string>, registry: set<string>) returns (st: Status)
      requires Valid()
      modifies this, rows
      ensures Valid() && (st, Contents()) == Execute(old(Contents()), ParseBind(args, registry))
    {
      hide ParseBind, View, ExecuteMap, IndexOf, NoDuplicates, Truncate;
      ExecuteAgrees(Contents(), ParseBind(args, registry));
      var q := ParseBind(args, registry);
      if q.Reject? {
        return Failed(q.message);
      }
      var ok := SetInputBinding(q.sig, q.id);
      if !ok {
        return Failed("bind: binding table full");
      }
      var i := FindBinding(q.sig);
      if i >= 0 {
        ghost var r := Contents();
        rows[i] := rows[i].(idleOnly := q.idle);
        assert Contents() == r[i := r[i].(idleOnly := q.idle)];
      }
      return Done("");
    }

    /** action_cmd_unbind */
    method Unbind(args: seq<string>) returns (st: Status)
      requires Valid()
      modifies this, rows
      ensures Valid() && (st, Contents()) == Execute(old(Contents()), ParseUnbind(args))
    {
      var q := ParseUnbind(args);
      if q.Reject? {
        return Failed(q.message);
      }
      var removed := UnsetInputBinding(q.sig);
      return Done(if removed == 1 then "1" else "0");
    }

    /** action_cmd_bindings */
    method DumpRows() returns (dump: seq<string>)
      requires Valid()
      ensures dump == Dump(Contents())
    {
      dump := [];
      for i := 0 to num
        invariant dump == Dump(rows[..i])
      {
        assert rows[..i + 1] == rows[..i] + [rows[i]];
        dump := dump + [RowText(rows[i])];
      }
    }

    /** The lookup of dispatch_input_action: the event's own context first, then the context-independent row. */
    method Dispatch(sig: Signature) returns (i: int)
      requires Valid()
      ensures i == DispatchIndex(Contents(), sig)
    {
      i := FindBinding(sig);
      if i < 0 && sig.ctx != Global {
        i := FindBinding(sig.(ctx := Global));
      }
    }
  }

  lemma {:induction false} FirstIndex(rows: Rows, i: nat)
    requires i < |rows| && forall j :: 0 <= j < i ==> rows[j].sig != rows[i].sig
    ensures IndexOf(rows, rows[i].sig) == i
  {
    if i == 0 {
    } else {
      assert rows[0].sig != rows[i].sig;
      forall j | 0 <= j < i - 1 ensures rows[1..][j].sig != rows[1..][i - 1].sig { assert rows[1..][j] == rows[j + 1]; }
      FirstIndex(rows[1..], i - 1);
    }
  }
}
