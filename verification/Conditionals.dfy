/** Conditional processing in `didepend`: a stack of flags, proved to evaluate the tree of nested conditionals. */
module Conditionals {
  import opened Basics
  import opened Defines

  const MAX_DEF_DEPTH := 5

  /**
   * Commands outside the conditional family. An unknown token is fatal only if executed; a known one with too
   * few arguments always is.
   */
  datatype Cmd = Define(arg: string) | Undef(arg: string) | Known(text: string) | Unknown(token: string)
    | Malformed(text: string)

  datatype Line = If(want: bool, sym: string) | Else | End | Plain(cmd: Cmd)

  /** What processing changes: the defined names and the commands executed so far. */
  datatype World = World(env: set<string>, done: seq<Cmd>)

  // ---------- the reference: recursive evaluation of the tree ----------

  datatype Script =
    | Nil
    | Do(cmd: Cmd, rest: Script)
    | Cond(want: bool, sym: string, body: Script, orElse: Option<Script>, rest: Script)

  /** The effect of one executed command; `None` is a fatal exit. */
  function Execute(w: World, c: Cmd): Option<World> {
    match c
    case Define(arg) => Some(World(w.env + {NameOf(arg)}, w.done + [c]))
    case Undef(arg) => Some(World(w.env - {NameOf(arg)}, w.done + [c]))
    case Known(_) => Some(w.(done := w.done + [c]))
    case Unknown(_) => None
    case Malformed(_) => None
  }

  function Eval(s: Script, w: World): Option<World> {
    match s
    case Nil => Some(w)
    case Do(c, rest) =>
      (match Execute(w, c)
       case None => None
       case Some(w') => Eval(rest, w'))
    case Cond(want, sym, body, orElse, rest) =>
      var chosen :=
        if (sym in w.env) == want then Eval(body, w)
        else if orElse.Some? then Eval(orElse.value, w)
        else Some(w);
      match chosen
      case None => None
      case Some(w') => Eval(rest, w')
  }

  function Max(a: nat, b: nat): nat { if a < b then b else a }

  /** How deeply conditionals are nested. */
  function Depth(s: Script): nat {
    match s
    case Nil => 0
    case Do(_, rest) => Depth(rest)
    case Cond(_, _, body, orElse, rest) =>
      Max(1 + Max(Depth(body), if orElse.Some? then Depth(orElse.value) else 0), Depth(rest))
  }

  /** A known command with missing arguments, in whatever branch. */
  predicate Broken(s: Script) {
    match s
    case Nil => false
    case Do(c, rest) => c.Malformed? || Broken(rest)
    case Cond(_, _, body, orElse, rest) => Broken(body) || (orElse.Some? && Broken(orElse.value)) || Broken(rest)
  }

  /** The lines of a script, followed by `k`. */
  function Lines(s: Script, k: seq<Line>): seq<Line> {
    match s
    case Nil => k
    case Do(c, rest) => [Plain(c)] + Lines(rest, k)
    case Cond(want, sym, body, orElse, rest) =>
      var tail := [End] + Lines(rest, k);
      [If(want, sym)] + Lines(body, if orElse.Some? then [Else] + Lines(orElse.value, tail) else tail)
  }

  // ---------- the flag-stack machine ----------

  datatype Frame = Frame(canElse: bool, canEnd: bool, skip: bool)

  /** The frames in use, outermost first; the first is the file's own and never closes. */
  datatype Machine = Machine(frames: seq<Frame>, world: World)

  predicate Wf(m: Machine) {
    1 <= |m.frames| && m.frames[0] == Frame(false, false, false)
  }

  function Top(m: Machine): Frame
    requires Wf(m)
  {
    m.frames[|m.frames| - 1]
  }

  function Level(m: Machine): nat
    requires Wf(m)
  {
    |m.frames| - 1
  }

  /** One line through `get_execute_token`; `None` is a fatal exit. */
  function Step(m: Machine, l: Line): (r: Option<Machine>)
    requires Wf(m)
    ensures r.Some? ==> Wf(r.value)
  {
    var n := Level(m);
    match l
    case If(want, sym) =>
      if n > MAX_DEF_DEPTH then None else
        Some(m.(frames := m.frames + [Frame(true, true, Top(m).skip || (sym in m.world.env) != want)]))
    case Else =>
      if !Top(m).canElse || n > MAX_DEF_DEPTH then None else
        Some(m.(frames := m.frames[n := Frame(false, Top(m).canEnd, !Top(m).skip || m.frames[n - 1].skip)]))
    case End =>
      if !Top(m).canEnd || n > MAX_DEF_DEPTH then None else Some(m.(frames := m.frames[..n]))
    case Plain(c) =>
      if c.Malformed? then None
      else if Top(m).skip then Some(m)
      else
        match Execute(m.world, c)
        case None => None
        case Some(w) => Some(m.(world := w))
  }

  function Run(m: Machine, ls: seq<Line>): (r: Option<Machine>)
    requires Wf(m)
    ensures r.Some? ==> Wf(r.value)
    decreases |ls|
  {
    if ls == [] then Some(m) else
      match Step(m, ls[0])
      case None => None
      case Some(m') => Run(m', ls[1..])
  }

  // ---------- the machine evaluates the tree ----------

  /** The whole effect of a script on a machine at any level, skipping or not. */
  function After(m: Machine, s: Script): (r: Option<Machine>)
    requires Wf(m)
    ensures r.Some? ==> Wf(r.value) && r.value.frames == m.frames
  {
    if Broken(s) || (Depth(s) > 0 && Level(m) + Depth(s) > MAX_DEF_DEPTH) then None
    else if Top(m).skip then Some(m)
    else
      match Eval(s, m.world)
      case None => None
      case Some(w) => Some(m.(world := w))
  }

  function Then(r: Option<Machine>, k: seq<Line>): Option<Machine>
    requires r.Some? ==> Wf(r.value)
  {
    match r
    case None => None
    case Some(m) => Run(m, k)
  }

  lemma RunCons(m: Machine, l: Line, k: seq<Line>)
    requires Wf(m)
    ensures Run(m, [l] + k) == Then(Step(m, l), k)
  {
    assert ([l] + k)[1..] == k;
  }

  lemma {:induction false} RunScript(m: Machine, s: Script, k: seq<Line>)
    requires Wf(m)
    ensures Run(m, Lines(s, k)) == Then(After(m, s), k)
    decreases s, 1
  {
    match s
    case Nil =>
    case Do(c, rest) =>
      RunCons(m, Plain(c), Lines(rest, k));
      var r := Step(m, Plain(c));
      if r.Some? { RunScript(r.value, rest, k); }
    case Cond(want, sym, body, orElse, rest) => RunCond(m, s, k);
  }

  /** `#endif` and what follows it, from inside a conditional that `m` opened. */
  lemma {:induction false} RunEnd(m: Machine, f: Frame, w: World, rest: Script, k: seq<Line>)
    requires Wf(m) && f.canEnd
    ensures Run(m.(frames := m.frames + [f], world := w), [End] + Lines(rest, k))
         == if Level(m) >= MAX_DEF_DEPTH then None else Then(After(m.(world := w), rest), k)
    decreases rest, 2
  {
    var inside := m.(frames := m.frames + [f], world := w);
    RunCons(inside, End, Lines(rest, k));
    if Level(m) < MAX_DEF_DEPTH {
      assert Step(inside, End) == Some(m.(world := w));
      RunScript(m.(world := w), rest, k);
    }
  }

  /** `#else`, the second branch and what follows it. */
  lemma {:induction false} RunElse(m: Machine, f: Frame, w: World, alt: Script, rest: Script, k: seq<Line>)
    requires Wf(m) && f.canElse && f.canEnd
    ensures Run(m.(frames := m.frames + [f], world := w), [Else] + Lines(alt, [End] + Lines(rest, k))) ==
      if Level(m) >= MAX_DEF_DEPTH then None
      else Then(After(Machine(m.frames + [Frame(false, true, !f.skip || Top(m).skip)], w), alt), [End] + Lines(rest, k))
    decreases alt, 2
  {
    var inside := m.(frames := m.frames + [f], world := w);
    var g := Frame(false, true, !f.skip || Top(m).skip);
    var after := [End] + Lines(rest, k);
    RunCons(inside, Else, Lines(alt, after));
    if Level(m) < MAX_DEF_DEPTH {
      assert Step(inside, Else) == Some(Machine(m.frames + [g], w)) by {
        assert inside.frames[Level(inside) := g] == m.frames + [g];
      }
      RunScript(Machine(m.frames + [g], w), alt, after);
    }
  }

  /** What the pieces of a conditional do, one after the other. */
  function CondParts(m: Machine, s: Script): (r: Option<Machine>)
    requires Wf(m) && s.Cond? && Level(m) < MAX_DEF_DEPTH
    ensures r.Some? ==> Wf(r.value)
  {
    var f := Frame(true, true, Top(m).skip || (s.sym in m.world.env) != s.want);
    match After(m.(frames := m.frames + [f]), s.body)
    case None => None
    case Some(m1) =>
      if s.orElse.None? then After(m.(world := m1.world), s.rest) else
        match After(Machine(m.frames + [Frame(false, true, !f.skip || Top(m).skip)], m1.world), s.orElse.value)
        case None => None
        case Some(m2) => After(m.(world := m2.world), s.rest)
  }

  lemma CondPartsAfter(m: Machine, s: Script)
    requires Wf(m) && s.Cond? && Level(m) < MAX_DEF_DEPTH
    ensures CondParts(m, s) == After(m, s)
  {
  }

  lemma {:induction false} RunCond(m: Machine, s: Script, k: seq<Line>)
    requires Wf(m) && s.Cond?
    ensures Run(m, Lines(s, k)) == Then(After(m, s), k)
    decreases s, 0, 1
  {
    var after := [End] + Lines(s.rest, k);
    var tail := if s.orElse.Some? then [Else] + Lines(s.orElse.value, after) else after;
    RunCons(m, If(s.want, s.sym), Lines(s.body, tail));
    var f := Frame(true, true, Top(m).skip || (s.sym in m.world.env) != s.want);
    if Level(m) <= MAX_DEF_DEPTH {
      RunScript(m.(frames := m.frames + [f]), s.body, tail);
      RunTail(m, f, After(m.(frames := m.frames + [f]), s.body), s, k);
      if Level(m) < MAX_DEF_DEPTH { CondPartsAfter(m, s); }
    }
  }

  /** The lines of a conditional after its first branch. */
  lemma {:induction false} RunTail(m: Machine, f: Frame, r1: Option<Machine>, s: Script, k: seq<Line>)
    requires Wf(m) && s.Cond? && f.canElse && f.canEnd
    requires r1.Some? ==> r1.value.frames == m.frames + [f]
    ensures var after := [End] + Lines(s.rest, k);
            var tail := if s.orElse.Some? then [Else] + Lines(s.orElse.value, after) else after;
            var g := Frame(false, true, !f.skip || Top(m).skip);
            Then(r1, tail) ==
              if r1.None? || Level(m) >= MAX_DEF_DEPTH then None
              else if s.orElse.None? then Then(After(m.(world := r1.value.world), s.rest), k)
              else match After(Machine(m.frames + [g], r1.value.world), s.orElse.value)
                case None => None
                case Some(m2) => Then(After(m.(world := m2.world), s.rest), k)
    decreases s, 0, 0
  {
    if r1.Some? {
      var w := r1.value.world;
      assert r1.value == m.(frames := m.frames + [f], world := w);
      if s.orElse.None? {
        RunEnd(m, f, w, s.rest, k);
      } else {
        RunElse(m, f, w, s.orElse.value, s.rest, k);
        var g := Frame(false, true, !f.skip || Top(m).skip);
        var r2 := After(Machine(m.frames + [g], w), s.orElse.value);
        if r2.Some? { RunEnd(m, g, r2.value.world, s.rest, k); }
      }
    }
  }

  const Start: Machine := Machine([Frame(false, false, false)], World({}, []))

  /** Evaluation, with the two reasons for which a whole file is refused. */
  function EvaluatesTo(s: Script, w: World): Option<World> {
    if Depth(s) > MAX_DEF_DEPTH || Broken(s) then None else Eval(s, w)
  }

  /**
   * Conditional processing is tree evaluation: a well-nested file runs to the end exactly when it is
   * nested at most five deep, has no malformed command anywhere and its evaluation meets no unknown
   * token, and it then executes the commands that the evaluation executes and leaves its definitions.
   */
  lemma RefinesTree(s: Script, w: World)
    ensures var r := Run(Start.(world := w), Lines(s, []));
      if EvaluatesTo(s, w).None? then r.None? else r == Some(Start.(world := EvaluatesTo(s, w).value))
  {
    RunScript(Start.(world := w), s, []);
  }

  // ---------- the commands alone decide ----------

  /** Whether the last #define or #undef of `n` among `cs` is a #define; `was` when there is none. */
  function LastSays(cs: seq<Cmd>, n: string, was: bool): bool {
    if cs == [] then was
    else
      match cs[|cs| - 1]
      case Define(arg) => if NameOf(arg) == n then true else LastSays(cs[..|cs| - 1], n, was)
      case Undef(arg) => if NameOf(arg) == n then false else LastSays(cs[..|cs| - 1], n, was)
      case _ => LastSays(cs[..|cs| - 1], n, was)
  }

  /** The commands executed once those of `s` follow `done`: a test looks back at what has been executed, and at the
      names `given` at the start; `None` at a command that cannot be executed. */
  function Executed(s: Script, done: seq<Cmd>, given: set<string>): Option<seq<Cmd>> {
    match s
    case Nil => Some(done)
    case Do(c, rest) => if c.Unknown? || c.Malformed? then None else Executed(rest, done + [c], given)
    case Cond(want, sym, body, orElse, rest) =>
      var chosen :=
        if LastSays(done, sym, sym in given) == want then Executed(body, done, given)
        else if orElse.Some? then Executed(orElse.value, done, given)
        else Some(done);
      match chosen
      case None => None
      case Some(more) => Executed(rest, more, given)
  }

  /** The names are those that the executed commands say. */
  ghost predicate NamesFollow(w: World, given: set<string>) {
    forall n :: n in w.env <==> LastSays(w.done, n, n in given)
  }

  lemma StepFollows(w: World, c: Cmd, given: set<string>)
    requires NamesFollow(w, given)
    ensures Execute(w, c).None? <==> c.Unknown? || c.Malformed?
    ensures Execute(w, c).Some? ==> Execute(w, c).value.done == w.done + [c] && NamesFollow(Execute(w, c).value, given)
  {
    if Execute(w, c).Some? {
      var w' := Execute(w, c).value;
      assert w'.done[..|w.done|] == w.done;
      forall n ensures n in w'.env <==> LastSays(w'.done, n, n in given) {
        assert n in w.env <==> LastSays(w.done, n, n in given);
      }
    }
  }

  /** Evaluation executes the commands that the executed commands themselves call for, and leaves the names that they
      leave. */
  lemma {:induction false} CommandsDecide(s: Script, w: World, given: set<string>)
    requires NamesFollow(w, given)
    ensures Eval(s, w).None? <==> Executed(s, w.done, given).None?
    ensures Eval(s, w).Some? ==>
      Executed(s, w.done, given) == Some(Eval(s, w).value.done) && NamesFollow(Eval(s, w).value, given)
  {
    match s
    case Nil =>
    case Do(c, rest) =>
      StepFollows(w, c, given);
      if Execute(w, c).Some? { CommandsDecide(rest, Execute(w, c).value, given); }
    case Cond(want, sym, body, orElse, rest) =>
      assert sym in w.env <==> LastSays(w.done, sym, sym in given);
      var chosen := Some(w);
      if (sym in w.env) == want {
        CommandsDecide(body, w, given);
        chosen := Eval(body, w);
      } else if orElse.Some? {
        CommandsDecide(orElse.value, w, given);
        chosen := Eval(orElse.value, w);
      }
      if chosen.Some? { CommandsDecide(rest, chosen.value, given); }
  }

  /**
   * What a well-nested file executes, without reference to any table of names: it runs to its end exactly when it is
   * at most five deep, has no malformed command and its commands can be executed, and then those are executed, and a
   * name is defined exactly when its last #define or #undef was a #define, or there was none and it was given.
   */
  lemma FileExecutes(s: Script, given: set<string>)
    ensures var r := Run(Start.(world := World(given, [])), Lines(s, []));
      && (r.Some? <==> Depth(s) <= MAX_DEF_DEPTH && !Broken(s) && Executed(s, [], given).Some?)
      && (r.Some? ==> Executed(s, [], given) == Some(r.value.world.done) && NamesFollow(r.value.world, given))
  {
    RefinesTree(s, World(given, []));
    CommandsDecide(s, World(given, []), given);
  }

  // ---------- every file the machine closes is a tree ----------

  /** The longest script at the head of some lines, and the lines that no script can absorb. */
  datatype Parsed = Parsed(script: Script, rest: seq<Line>)

  function Parse(ls: seq<Line>): (r: Parsed)
    ensures |r.rest| <= |ls|
    decreases |ls|
  {
    if ls == [] || ls[0].Else? || ls[0].End? then Parsed(Nil, ls)
    else if ls[0].Plain? then
      var r := Parse(ls[1..]);
      Parsed(Do(ls[0].cmd, r.script), r.rest)
    else
      var b := Parse(ls[1..]);
      if b.rest == [] || b.rest[0].If? || b.rest[0].Plain? then Parsed(Nil, ls)
      else if b.rest[0].End? then
        var r := Parse(b.rest[1..]);
        Parsed(Cond(ls[0].want, ls[0].sym, b.script, None, r.script), r.rest)
      else
        var e := Parse(b.rest[1..]);
        if e.rest == [] || !e.rest[0].End? then Parsed(Nil, ls)
        else
          var r := Parse(e.rest[1..]);
          Parsed(Cond(ls[0].want, ls[0].sym, b.script, Some(e.script), r.script), r.rest)
  }

  lemma Uncons(ls: seq<Line>)
    requires ls != []
    ensures ls == [ls[0]] + ls[1..]
  {
  }

  /** Parsing loses no line, and does not stop before it has to. */
  lemma {:induction false} ParseLines(ls: seq<Line>)
    ensures ls == Lines(Parse(ls).script, Parse(ls).rest)
    ensures Parse(Parse(ls).rest) == Parsed(Nil, Parse(ls).rest)
    decreases |ls|
  {
    if ls != [] && (ls[0].Plain? || ls[0].If?) {
      Uncons(ls);
      ParseLines(ls[1..]);
      if ls[0].If? { ParseIf(ls, Parse(ls[1..])); }
    }
  }

  lemma {:induction false} ParseIf(ls: seq<Line>, b: Parsed)
    requires ls != [] && ls[0].If? && b == Parse(ls[1..])
    requires ls == [ls[0]] + Lines(b.script, b.rest)
    ensures ls == Lines(Parse(ls).script, Parse(ls).rest)
    ensures Parse(Parse(ls).rest) == Parsed(Nil, Parse(ls).rest)
    decreases |ls|, 0
  {
    if b.rest != [] && (b.rest[0].End? || b.rest[0].Else?) {
      Uncons(b.rest);
      ParseLines(b.rest[1..]);
      var e := Parse(b.rest[1..]);
      if b.rest[0].Else? && e.rest != [] && e.rest[0].End? {
        Uncons(e.rest);
        ParseLines(e.rest[1..]);
      }
    }
  }

  /** Where lines are stuck, the machine either exits or stays inside a conditional it opened. */
  lemma {:induction false} StuckStaysOpen(m: Machine, ls: seq<Line>)
    requires Wf(m) && ls != [] && ls[0].If? && Parse(ls).script.Nil?
    ensures Run(m, ls).Some? ==> |Run(m, ls).value.frames| > |m.frames|
    decreases |ls|
  {
    var inside := Step(m, ls[0]);
    if inside.Some? {
      var b := Parse(ls[1..]);
      ParseLines(ls[1..]);
      RunScript(inside.value, b.script, b.rest);
      var r1 := After(inside.value, b.script);
      if r1.Some? && b.rest != [] {
        if b.rest[0].Else? {
          StuckAfterElse(r1.value, b.rest);
        } else {
          StuckStaysOpen(r1.value, b.rest);
        }
      }
    }
  }

  lemma {:induction false} StuckAfterElse(m: Machine, ls: seq<Line>)
    requires Wf(m) && ls != [] && ls[0].Else?
    requires var e := Parse(ls[1..]); e.rest == [] || !e.rest[0].End?
    ensures Run(m, ls).Some? ==> |Run(m, ls).value.frames| >= |m.frames|
    decreases |ls|
  {
    var m1 := Step(m, Else);
    if m1.Some? {
      var e := Parse(ls[1..]);
      ParseLines(ls[1..]);
      RunScript(m1.value, e.script, e.rest);
      var r2 := After(m1.value, e.script);
      if r2.Some? && e.rest != [] && e.rest[0].If? {
        StuckStaysOpen(r2.value, e.rest);
      }
    }
  }

  /** The machine reaches the end of the lines with every conditional closed. */
  predicate Closes(ls: seq<Line>, w: World) {
    var r := Run(Start.(world := w), ls);
    r.Some? && Level(r.value) == 0
  }

  /**
   * For every list of lines: the machine reaches the end with every conditional closed exactly when the
   * lines are those of a tree, at most five deep, with no malformed command, that evaluates to an end.
   */
  lemma ClosesExactlyTrees(ls: seq<Line>, w: World)
    ensures Closes(ls, w) <==> Parse(ls).rest == [] && EvaluatesTo(Parse(ls).script, w).Some?
    ensures Parse(ls).rest == [] ==> ls == Lines(Parse(ls).script, [])
  {
    var m := Start.(world := w);
    var p := Parse(ls);
    ParseLines(ls);
    RunScript(m, p.script, p.rest);
    var r := After(m, p.script);
    if r.Some? && p.rest != [] && p.rest[0].If? {
      StuckStaysOpen(r.value, p.rest);
    }
  }

  // ---------- the code ----------

  class Processor {
    const defState: array<Frame>
    var defdepth: nat
    const symbols: SymbolTable
    var executed: seq<Cmd>

    /** The array has ten slots; a level of six is the deepest a file can reach. */
    ghost predicate Valid()
      reads this, defState
    {
      defState.Length == 10 && defdepth <= MAX_DEF_DEPTH + 1 && defState[0] == Frame(false, false, false)
    }

    ghost function View(): (m: Machine)
      reads this, defState, symbols
      requires Valid()
      ensures Wf(m)
    {
      Machine(defState[..defdepth + 1], World(DefinedNames(symbols.entries), executed))
    }

    constructor (table: SymbolTable)
      ensures Valid() && symbols == table && fresh(defState)
      ensures View() == Start.(world := World(DefinedNames(table.entries), []))
    {
      defState := new Frame[10](_ => Frame(false, false, false));
      defdepth := 0;
      symbols := table;
      executed := [];
    }

    /** `do_ifdef` and `do_ifndef`: the symbol is looked up even where the answer cannot matter. */
    method DoIf(want: bool, sym: string) returns (ok: bool)
      requires Valid()
      modifies this`defdepth, defState
      ensures Valid()
      ensures var r := Step(old(View()), If(want, sym)); ok == r.Some? && (ok ==> View() == r.value)
    {
      ok := defdepth <= MAX_DEF_DEPTH;
      if ok {
        ghost var was := defState[..defdepth + 1];
        var skip := defState[defdepth].skip;
        defdepth := defdepth + 1;
        var def := symbols.SymbolDefined(sym);
        if (want && !def) || (!want && def) { skip := true; }
        defState[defdepth] := Frame(true, true, skip);
        assert defState[..defdepth + 1] == was + [defState[defdepth]];
      }
    }

    method DoElse() returns (ok: bool)
      requires Valid()
      modifies defState
      ensures Valid()
      ensures var r := Step(old(View()), Else); ok == r.Some? && (ok ==> View() == r.value)
    {
      var f := defState[defdepth];
      ok := f.canElse && defdepth <= MAX_DEF_DEPTH;
      if ok {
        f := f.(canElse := false);
        f := f.(skip := !f.skip);
        f := f.(skip := f.skip || defState[defdepth - 1].skip);
        defState[defdepth] := f;
      }
    }

    method DoEndif() returns (ok: bool)
      requires Valid()
      modifies this`defdepth, defState
      ensures Valid()
      ensures var r := Step(old(View()), End); ok == r.Some? && (ok ==> View() == r.value)
    {
      ok := defState[defdepth].canEnd && defdepth <= MAX_DEF_DEPTH;
      if ok {
        defState[defdepth] := defState[defdepth].(canEnd := false);
        defdepth := defdepth - 1;
      }
    }

    /** The remaining commands, dispatched unless the innermost frame says to skip. */
    method DoCommand(c: Cmd) returns (ok: bool)
      requires Valid()
      modifies this`executed, symbols
      ensures Valid()
      ensures var r := Step(old(View()), Plain(c)); ok == r.Some? && (ok ==> View() == r.value)
    {
      if c.Malformed? { return false; }
      if defState[defdepth].skip { return true; }
      match c {
        case Define(arg) => symbols.DefineSymbol(arg, ForthDefine);
        case Undef(arg) => symbols.DefineSymbol(arg, ForthUndef);
        case Known(_) =>
        case _ => return false;
      }
      executed := executed + [c];
      return true;
    }

    method Process(l: Line) returns (ok: bool)
      requires Valid()
      modifies this, defState, symbols
      ensures Valid()
      ensures var r := Step(old(View()), l); ok == r.Some? && (ok ==> View() == r.value)
    {
      match l
      case If(want, sym) => ok := DoIf(want, sym);
      case Else => ok := DoElse();
      case End => ok := DoEndif();
      case Plain(c) => ok := DoCommand(c);
    }

    /** A whole file, line by line, up to its end or the first fatal exit. */
    method ProcessFile(ls: seq<Line>) returns (ok: bool)
      requires Valid()
      modifies this, defState, symbols
      ensures Valid()
      ensures var r := Run(old(View()), ls); ok == r.Some? && (ok ==> View() == r.value)
    {
      ok := true;
      var i := 0;
      while i < |ls|
        invariant 0 <= i <= |ls| && Valid()
        invariant Run(old(View()), ls) == Run(View(), ls[i..])
      {
        ok := Process(ls[i]);
        if !ok { return; }
        assert ls[i..][1..] == ls[i + 1..];
        i := i + 1;
      }
    }
  }
}
