/** The loops that feed a session (`script.rs`, `repl.rs`): scripts, `-c` batches, the REPL, and
    what holds over runs that mix them. */
module Frontends {
  import opened Strings
  import opened Words
  import opened Sessions

  type Bound = seq<(nat, string)>

  /** Why a script stopped; no line when it ran none. */
  datatype Stop = Stop(line: Option<nat>, message: string)

  /** The engine with its reader of scripts, which parses a text and binds its parameters. */
  datatype World = World(oracle: Oracle, bind: (string, Parameters) -> Result<Bound, Stop>)

  // ----- a script -----

  /** One line as it ran. */
  datatype Shown = Shown(number: nat, line: string, action: Action)

  predicate Stops(a: Action) {
    Fails(a) || a.Quit?
  }

  datatype Ran = Ran(mind: Mind, shown: seq<Shown>, stop: Option<Stop>)

  /** One evaluation, as a function of the session before it. */
  type Step = (Mind, string) -> (Mind, Action)

  function Evaluating(oracle: Oracle): Step {
    (m: Mind, text: string) => Evaluated(oracle, m, text)
  }

  function Prefixed(first: Shown, r: Ran): Ran {
    r.(shown := [first] + r.shown)
  }

  /** A bound script, line by line, up to its first error or `quit`. */
  function RunLines(eval: Step, m: Mind, lines: Bound): Ran
    decreases |lines|
  {
    if lines == [] then Ran(m, [], None)
    else
      var (number, line) := lines[0];
      var (next, action) := eval(m, line);
      var shown := Shown(number, line, action);
      if Fails(action) then Ran(next, [shown], Some(Stop(Some(number), action.result.error)))
      else if action.Quit? then Ran(next, [shown], None)
      else Prefixed(shown, RunLines(eval, next, lines[1..]))
  }

  /** The session after all these lines, each evaluated once and in order. */
  function After(eval: Step, m: Mind, lines: Bound): Mind
    decreases |lines|
  {
    if lines == [] then m else After(eval, eval(m, lines[0].1).0, lines[1..])
  }

  /** What each of these lines answers when they are evaluated once each and in order. */
  function Answers(eval: Step, m: Mind, lines: Bound): (shown: seq<Shown>)
    ensures |shown| == |lines|
    decreases |lines|
  {
    if lines == [] then [] else
      var (next, action) := eval(m, lines[0].1);
      [Shown(lines[0].0, lines[0].1, action)] + Answers(eval, next, lines[1..])
  }

  /** A script evaluates exactly a prefix of its lines, once each and in order. */
  lemma {:induction false} ScriptRunsPrefix(eval: Step, m: Mind, lines: Bound, r: Ran)
    requires r == RunLines(eval, m, lines)
    ensures |r.shown| <= |lines|
    ensures r.shown == Answers(eval, m, lines[..|r.shown|])
    ensures r.mind == After(eval, m, lines[..|r.shown|])
    decreases |lines|
  {
    if lines != [] {
      var (next, action) := eval(m, lines[0].1);
      if Stops(action) {
        assert lines[..1] == [lines[0]];
        assert After(eval, m, [lines[0]]) == After(eval, next, []);
        assert Answers(eval, m, [lines[0]]) == r.shown;
      } else {
        var rest := RunLines(eval, next, lines[1..]);
        ScriptRunsPrefix(eval, next, lines[1..], rest);
        assert lines[..|r.shown|][1..] == lines[1..][..|rest.shown|];
      }
    }
  }

  /** Where that prefix ends: at the first error or `quit`, or with the script. */
  predicate EndsRightly(lines: Bound, r: Ran) {
    && (forall k :: 0 <= k < |r.shown| - 1 ==> !Stops(r.shown[k].action))
    && (|r.shown| < |lines| ==> r.shown != [] && Stops(r.shown[|r.shown| - 1].action))
    && r.stop == FailureOf(r.shown)
  }

  /** The failure a run of lines ends with, and its line's number. */
  function FailureOf(shown: seq<Shown>): Option<Stop> {
    if shown == [] || !Fails(shown[|shown| - 1].action) then None
    else Some(Stop(Some(shown[|shown| - 1].number), shown[|shown| - 1].action.result.error))
  }

  /** The prefix ends at the first error or `quit`, or with the script; the script fails exactly
      when its last evaluated line is an error, and says which. */
  lemma {:induction false} ScriptStopsAtFirst(eval: Step, m: Mind, lines: Bound, r: Ran)
    requires r == RunLines(eval, m, lines)
    ensures EndsRightly(lines, r)
    decreases |lines|
  {
    if lines != [] {
      var (next, action) := eval(m, lines[0].1);
      if !Stops(action) {
        var rest := RunLines(eval, next, lines[1..]);
        ScriptStopsAtFirst(eval, next, lines[1..], rest);
        PrefixedEndsRightly(lines, Shown(lines[0].0, lines[0].1, action), rest);
      }
    }
  }

  lemma PrefixedEndsRightly(lines: Bound, first: Shown, rest: Ran)
    requires lines != [] && !Stops(first.action) && EndsRightly(lines[1..], rest)
    ensures EndsRightly(lines, Prefixed(first, rest))
  {
  }

  /** A script that begins unrefused never evaluates a line while refusing, and leaves the
      session refusing only by failing. */
  lemma {:induction false} ScriptNeverAsksRefusing(oracle: Oracle, m: Mind, lines: Bound, r: Ran)
    requires !m.refusing && r == RunLines(Evaluating(oracle), m, lines)
    ensures r.mind.refusedAsks == m.refusedAsks && (r.mind.refusing ==> r.stop.Some?)
    decreases |lines|
  {
    if lines != [] {
      var (next, action) := Evaluated(oracle, m, lines[0].1);
      AskingUnrefused(oracle, m, lines[0].1);
      if !Stops(action) {
        ScriptNeverAsksRefusing(oracle, next, lines[1..], RunLines(Evaluating(oracle), next, lines[1..]));
      }
    }
  }

  lemma AskingUnrefused(oracle: Oracle, m: Mind, text: string)
    requires !m.refusing
    ensures var (next, action) := Evaluated(oracle, m, text);
      next.refusedAsks == m.refusedAsks && (next.refusing ==> Fails(action))
  {
  }

  lemma {:induction false} ScriptKeepsSound(oracle: Oracle, m: Mind, lines: Bound)
    requires Sound(m)
    ensures Sound(RunLines(Evaluating(oracle), m, lines).mind)
    decreases |lines|
  {
    if lines != [] {
      EvalKeepsSound(oracle, m, lines[0].1);
      ScriptKeepsSound(oracle, Evaluated(oracle, m, lines[0].1).0, lines[1..]);
    }
  }

  /** `script::run`. */
  function RunText(w: World, m: Mind, text: string, given: Parameters): Ran {
    match w.bind(text, given)
    case Err(e) => Ran(m, [], Some(e))
    case Ok(lines) => RunLines(Evaluating(w.oracle), m, lines)
  }

  /** `run_command`: the stored script is read through the engine, as any read is. */
  function RunStored(w: World, m: Mind, invocation: Result<Invocation, Fault>): Ran {
    match invocation
    case Err(_) => Ran(m, [], Some(Stop(None, "malformed")))
    case Ok(i) =>
      var (next, answer) := Evaluated(w.oracle, m, "source " + i.iri);
      match answer
      case Output(_, Ok(text)) => RunText(w, next, text, i.params)
      case _ => Ran(next, [], Some(Stop(None, "cannot read the script")))
  }

  lemma SourceIsNotCap(iri: string)
    ensures !IsCap(Trim("source " + iri))
  {
    var s := "source " + iri;
    assert TrimStart(s) == s;
    SourceHead(TrimEnd(s), iri);
  }

  lemma SourceHead(line: string, iri: string)
    requires line == TrimEnd("source " + iri)
    ensures Head(line).0 != "cap"
  {
    TrimEndIsPrefix("source " + iri);
    TrimEndReaches("source " + iri, 5);
    assert line[0] == 's';
    var at := FindWhite(line);
    assert at > 0;
    assert SplitWhite(line).Some? ==> SplitWhite(line).value.0[0] == 's';
    assert "cap"[0] == 'c';
  }

  lemma {:induction false} TrimEndIsPrefix(s: string)
    ensures TrimEnd(s) == s[..|TrimEnd(s)|]
  {
    if s != [] && IsWhite(s[|s| - 1]) {
      TrimEndIsPrefix(s[..|s| - 1]);
    }
  }

  lemma {:induction false} TrimEndReaches(s: string, k: nat)
    requires k < |s| && !IsWhite(s[k])
    ensures |TrimEnd(s)| > k
  {
    if IsWhite(s[|s| - 1]) {
      TrimEndReaches(s[..|s| - 1], k);
    }
  }

  // ----- batches and the REPL -----

  /** What one command did: the session after it, whether it failed, and whether it was `quit`. */
  datatype Done = Done(mind: Mind, failed: bool, quits: bool)

  type Doing = (Mind, string) -> Done

  /** A `script` command runs what is stored; a `quit` inside it ends only the script. */
  function Obeyed(w: World, m: Mind, command: string): Done {
    match Command(command)
    case Some(invocation) =>
      var r := RunStored(w, m, invocation);
      Done(r.mind, r.stop.Some?, false)
    case None =>
      var (next, action) := Evaluated(w.oracle, m, command);
      Done(next, Fails(action), action.Quit?)
  }

  function Obeying(w: World): Doing {
    (m: Mind, command: string) => Obeyed(w, m, command)
  }

  /** A batch also ends at a failure that leaves the session refusing. */
  predicate BatchHalts(d: Done) {
    d.quits || (d.failed && d.mind.refusing)
  }

  predicate ReplHalts(d: Done) {
    d.quits
  }

  /** What a loop over commands does, one entry for each command it takes. */
  function Fed(does: Doing, halts: Done -> bool, m: Mind, commands: seq<string>): seq<Done>
    decreases |commands|
  {
    if commands == [] then [] else
      var d := does(m, commands[0]);
      if halts(d) then [d] else [d] + Fed(does, halts, d.mind, commands[1..])
  }

  function Before(m: Mind, done: seq<Done>, k: nat): Mind
    requires k <= |done|
  {
    if k == 0 then m else done[k - 1].mind
  }

  /** A run of the loop, told by its entries alone: each command once and in order, each from the
      session the one before left, up to the first that halts and no further. */
  predicate IsRun(does: Doing, halts: Done -> bool, m: Mind, commands: seq<string>, done: seq<Done>) {
    && |done| <= |commands|
    && Steps(does, m, commands, done)
    && Unhalted(halts, done)
    && (|done| < |commands| ==> done != [] && halts(done[|done| - 1]))
  }

  predicate Steps(does: Doing, m: Mind, commands: seq<string>, done: seq<Done>)
    requires |done| <= |commands|
  {
    forall k :: 0 <= k < |done| ==> done[k] == does(Before(m, done, k), commands[k])
  }

  predicate Unhalted(halts: Done -> bool, done: seq<Done>) {
    forall k :: 0 <= k < |done| - 1 ==> !halts(done[k])
  }

  lemma {:induction false} FedIsRun(does: Doing, halts: Done -> bool, m: Mind, commands: seq<string>)
    ensures IsRun(does, halts, m, commands, Fed(does, halts, m, commands))
    decreases |commands|
  {
    if commands != [] {
      var d := does(m, commands[0]);
      if !halts(d) {
        var rest := Fed(does, halts, d.mind, commands[1..]);
        FedIsRun(does, halts, d.mind, commands[1..]);
        StepsExtend(does, m, commands, d, rest);
        UnhaltedExtends(halts, d, rest);
      }
    }
  }

  lemma StepsExtend(does: Doing, m: Mind, commands: seq<string>, d: Done, rest: seq<Done>)
    requires commands != [] && |rest| < |commands|
    ensures Steps(does, m, commands, [d] + rest)
      <==> d == does(m, commands[0]) && Steps(does, d.mind, commands[1..], rest)
  {
    var done := [d] + rest;
    forall k | 0 <= k < |rest|
      ensures done[k + 1] == rest[k] && Before(m, done, k + 1) == Before(d.mind, rest, k)
    {
    }
    if Steps(does, m, commands, done) {
      assert done[0] == does(Before(m, done, 0), commands[0]);
      forall k | 0 <= k < |rest|
        ensures rest[k] == does(Before(d.mind, rest, k), commands[1..][k])
      {
        assert done[k + 1] == does(Before(m, done, k + 1), commands[k + 1]);
      }
    }
    if d == does(m, commands[0]) && Steps(does, d.mind, commands[1..], rest) {
      forall k | 0 <= k < |done|
        ensures done[k] == does(Before(m, done, k), commands[k])
      {
        if k > 0 {
          assert rest[k - 1] == does(Before(d.mind, rest, k - 1), commands[1..][k - 1]);
        }
      }
    }
  }

  lemma UnhaltedExtends(halts: Done -> bool, d: Done, rest: seq<Done>)
    ensures Unhalted(halts, [d] + rest) <==> Unhalted(halts, rest) && (rest != [] ==> !halts(d))
  {
    var done := [d] + rest;
    assert rest != [] ==> done[0] == d;
    assert forall k :: 0 <= k < |rest| ==> done[k + 1] == rest[k];
    if Unhalted(halts, done) {
      forall k | 0 <= k < |rest| - 1 ensures !halts(rest[k]) {
        assert !halts(done[k + 1]);
      }
    }
  }

  /** There is exactly one run. */
  lemma {:induction false} RunIsFed(does: Doing, halts: Done -> bool, m: Mind, commands: seq<string>, done: seq<Done>)
    ensures IsRun(does, halts, m, commands, done) <==> done == Fed(does, halts, m, commands)
    decreases |commands|
  {
    FedIsRun(does, halts, m, commands);
    if IsRun(does, halts, m, commands, done) && commands != [] {
      var d, rest := done[0], done[1..];
      assert done == [d] + rest;
      StepsExtend(does, m, commands, d, rest);
      UnhaltedExtends(halts, d, rest);
      if !halts(d) {
        RunIsFed(does, halts, d.mind, commands[1..], rest);
      }
    }
  }

  function End(m: Mind, done: seq<Done>): Mind {
    Before(m, done, |done|)
  }

  /** The exit code: 1 exactly when something failed. */
  function Code(done: seq<Done>): int {
    if exists k :: 0 <= k < |done| && done[k].failed then 1 else 0
  }

  // ----- what a command keeps -----

  lemma StoredKeepsSound(w: World, m: Mind, invocation: Result<Invocation, Fault>)
    requires Sound(m)
    ensures Sound(RunStored(w, m, invocation).mind)
  {
    if invocation.Ok? {
      var line := "source " + invocation.value.iri;
      EvalKeepsSound(w.oracle, m, line);
      var (next, answer) := Evaluated(w.oracle, m, line);
      if answer.Output? && answer.result.Ok? {
        TextKeepsSound(w, next, answer.result.value, invocation.value.params);
      }
    }
  }

  lemma TextKeepsSound(w: World, m: Mind, text: string, given: Parameters)
    requires Sound(m)
    ensures Sound(RunText(w, m, text, given).mind)
  {
    var bound := w.bind(text, given);
    if bound.Ok? {
      ScriptKeepsSound(w.oracle, m, bound.value);
    }
  }

  lemma CommandKeepsSound(w: World, m: Mind, command: string)
    requires Sound(m)
    ensures Sound(Obeyed(w, m, command).mind)
  {
    match Command(command)
    case Some(invocation) => StoredKeepsSound(w, m, invocation);
    case None => EvalKeepsSound(w.oracle, m, command);
  }

  lemma {:induction false} FedKeepsSound(w: World, halts: Done -> bool, m: Mind, commands: seq<string>)
    requires Sound(m)
    ensures Sound(End(m, Fed(Obeying(w), halts, m, commands)))
    decreases |commands|
  {
    if commands != [] {
      var d := Obeyed(w, m, commands[0]);
      CommandKeepsSound(w, m, commands[0]);
      if !halts(d) {
        FedKeepsSound(w, halts, d.mind, commands[1..]);
        EndOfRest(m, d, Fed(Obeying(w), halts, d.mind, commands[1..]));
      }
    }
  }

  lemma EndOfRest(m: Mind, d: Done, rest: seq<Done>)
    ensures End(m, [d] + rest) == End(d.mind, rest)
  {
  }

  /** A command begun unrefused evaluates nothing while refusing, a stored script included, and
      leaves the session refusing only by failing. */
  lemma CommandNeverAsksRefusing(w: World, m: Mind, command: string)
    requires !m.refusing
    ensures var d := Obeyed(w, m, command); d.mind.refusedAsks == m.refusedAsks && (d.mind.refusing ==> d.failed)
  {
    match Command(command)
    case Some(invocation) => StoredNeverAsksRefusing(w, m, invocation);
    case None => AskingUnrefused(w.oracle, m, command);
  }

  lemma StoredNeverAsksRefusing(w: World, m: Mind, invocation: Result<Invocation, Fault>)
    requires !m.refusing
    ensures var r := RunStored(w, m, invocation);
      r.mind.refusedAsks == m.refusedAsks && (r.mind.refusing ==> r.stop.Some?)
  {
    if invocation.Ok? {
      var line := "source " + invocation.value.iri;
      AskingUnrefused(w.oracle, m, line);
      SourceIsNotCap(invocation.value.iri);
      var (next, answer) := Evaluated(w.oracle, m, line);
      if answer.Output? && answer.result.Ok? {
        TextNeverAsksRefusing(w, next, answer.result.value, invocation.value.params);
      }
    }
  }

  lemma TextNeverAsksRefusing(w: World, m: Mind, text: string, given: Parameters)
    requires !m.refusing
    ensures var r := RunText(w, m, text, given);
      r.mind.refusedAsks == m.refusedAsks && (r.mind.refusing ==> r.stop.Some?)
  {
    var bound := w.bind(text, given);
    if bound.Ok? {
      ScriptNeverAsksRefusing(w.oracle, m, bound.value, RunLines(Evaluating(w.oracle), m, bound.value));
    }
  }

  /** A batch never evaluates anything while refusing, and one that ends refusing says 1. */
  lemma {:induction false} BatchNeverAsksRefusing(w: World, m: Mind, commands: seq<string>, done: seq<Done>)
    requires !m.refusing && done == Fed(Obeying(w), BatchHalts, m, commands)
    ensures End(m, done).refusedAsks == m.refusedAsks
    ensures End(m, done).refusing ==> Code(done) == 1
    decreases |commands|
  {
    if commands != [] {
      var d := Obeyed(w, m, commands[0]);
      CommandNeverAsksRefusing(w, m, commands[0]);
      if BatchHalts(d) {
        assert done == [d] && done[0].failed == d.failed;
      } else {
        var rest := Fed(Obeying(w), BatchHalts, d.mind, commands[1..]);
        BatchNeverAsksRefusing(w, d.mind, commands[1..], rest);
        EndOfRest(m, d, rest);
        CodeOfRest(d, rest);
      }
    }
  }

  lemma CodeOfRest(d: Done, rest: seq<Done>)
    ensures Code([d] + rest) == if d.failed then 1 else Code(rest)
  {
    var done := [d] + rest;
    assert done[0] == d;
    if exists k :: 0 <= k < |rest| && rest[k].failed {
      var k :| 0 <= k < |rest| && rest[k].failed;
      assert done[k + 1].failed;
    }
    if !d.failed && exists k :: 0 <= k < |done| && done[k].failed {
      var k :| 0 <= k < |done| && done[k].failed;
      assert rest[k - 1].failed;
    }
  }

  // ----- what a command does, and where the loops end -----

  /** A malformed invocation runs nothing. A well-formed one evaluates `source` on its IRI; if that
      answers no text, nothing more; otherwise it evaluates, once each and in order, a prefix of
      what that text binds to with the invocation's own parameters, ending as a script does. */
  lemma StoredRunsAsTyped(w: World, m: Mind, i: Invocation)
    ensures forall fault :: var r := RunStored(w, m, Err(fault)); r.mind == m && r.shown == [] && r.stop.Some?
    ensures var r := RunStored(w, m, Ok(i)); var eval := Evaluating(w.oracle);
      var (read, answer) := Evaluated(w.oracle, m, "source " + i.iri);
      if !(answer.Output? && answer.result.Ok?) then r.mind == read && r.shown == [] && r.stop.Some?
      else match w.bind(answer.result.value, i.params)
        case Err(e) => r == Ran(read, [], Some(e))
        case Ok(lines) =>
          && |r.shown| <= |lines| && EndsRightly(lines, r)
          && r.mind == After(eval, read, lines[..|r.shown|]) && r.shown == Answers(eval, read, lines[..|r.shown|])
  {
    var (read, answer) := Evaluated(w.oracle, m, "source " + i.iri);
    if answer.Output? && answer.result.Ok? {
      var bound := w.bind(answer.result.value, i.params);
      if bound.Ok? {
        var r := RunLines(Evaluating(w.oracle), read, bound.value);
        ScriptRunsPrefix(Evaluating(w.oracle), read, bound.value, r);
        ScriptStopsAtFirst(Evaluating(w.oracle), read, bound.value, r);
      }
    }
  }

  /** A `script` command fails when its script does and never quits the loop; any other line is
      evaluated once, fails when it answers an error, and quits when it answers that. */
  lemma CommandDoes(w: World, m: Mind, command: string)
    ensures var d := Obeyed(w, m, command);
      if Command(command).Some? then
        var r := RunStored(w, m, Command(command).value);
        d.mind == r.mind && (d.failed <==> r.stop.Some?) && !d.quits
      else
        var (next, action) := Evaluated(w.oracle, m, command);
        && d.mind == next && (d.quits <==> action == Action.Quit)
        && (d.failed <==> action.Output? && action.result.Err?)
  {
  }

  /** The REPL takes every line up to the first `quit`, whatever fails before it. */
  lemma ReplGoesOn(w: World, m: Mind, lines: seq<string>, done: seq<Done>)
    requires done == Fed(Obeying(w), ReplHalts, m, lines)
    ensures |done| <= |lines| && (forall k :: 0 <= k < |done| - 1 ==> !done[k].quits)
    ensures |done| < |lines| ==> done != [] && done[|done| - 1].quits
  {
    FedIsRun(Obeying(w), ReplHalts, m, lines);
  }

  /** A batch takes every command up to the first `quit`, or the first failure that leaves the
      session refusing; other failures do not end it. */
  lemma BatchGoesOn(w: World, m: Mind, commands: seq<string>, done: seq<Done>)
    requires done == Fed(Obeying(w), BatchHalts, m, commands)
    ensures |done| <= |commands|
    ensures forall k :: 0 <= k < |done| - 1 ==> !done[k].quits && !(done[k].failed && done[k].mind.refusing)
    ensures |done| < |commands| ==>
      done != [] && var last := done[|done| - 1]; last.quits || (last.failed && last.mind.refusing)
  {
    FedIsRun(Obeying(w), BatchHalts, m, commands);
  }

  // ----- runs that mix every way in -----

  datatype Way =
    | Typed(text: string)
    | Scratch(src: string)
    | Script(text: string, given: Parameters)
    | Stored(invocation: Result<Invocation, Fault>)
    | Batch(commands: seq<string>)
    | Repl(lines: seq<string>)

  function Went(w: World, m: Mind, way: Way): Mind {
    match way
    case Typed(text) => Evaluated(w.oracle, m, text).0
    case Scratch(src) => EvaluatedLisp(w.oracle, m, src).0
    case Script(text, given) => RunText(w, m, text, given).mind
    case Stored(invocation) => RunStored(w, m, invocation).mind
    case Batch(commands) => End(m, Fed(Obeying(w), BatchHalts, m, commands))
    case Repl(lines) => End(m, Fed(Obeying(w), ReplHalts, m, lines))
  }

  function WentAll(w: World, m: Mind, ways: seq<Way>): Mind
    decreases |ways|
  {
    if ways == [] then m else WentAll(w, Went(w, m, ways[0]), ways[1..])
  }

  lemma WayKeepsSound(w: World, m: Mind, way: Way)
    requires Sound(m)
    ensures Sound(Went(w, m, way))
  {
    match way
    case Typed(text) => EvalKeepsSound(w.oracle, m, text);
    case Scratch(src) => LispKeepsSound(w.oracle, m, src);
    case Script(text, given) => TextKeepsSound(w, m, text, given);
    case Stored(invocation) => StoredKeepsSound(w, m, invocation);
    case Batch(commands) => FedKeepsSound(w, BatchHalts, m, commands);
    case Repl(lines) => FedKeepsSound(w, ReplHalts, m, lines);
  }

  lemma {:induction false} WaysKeepSound(w: World, m: Mind, ways: seq<Way>)
    requires Sound(m)
    ensures Sound(WentAll(w, m, ways))
    decreases |ways|
  {
    if ways != [] {
      WayKeepsSound(w, m, ways[0]);
      WaysKeepSound(w, Went(w, m, ways[0]), ways[1..]);
    }
  }

  lemma FreshIsSound()
    ensures Sound(FRESH)
  {
  }

  /** In every run, however it mixes the ways in, and whatever the engine answers: between a
      failed `cap` and the next successful recovery the engine is given only recoveries. */
  lemma EveryRunIsGuarded(w: World, ways: seq<Way>)
    ensures Guarded(WentAll(w, FRESH, ways).log) && GuardedOnText(WentAll(w, FRESH, ways).log)
  {
    FreshIsSound();
    WaysKeepSound(w, FRESH, ways);
    GuardedIsWritten(WentAll(w, FRESH, ways).log);
  }

  // ----- the loops themselves -----

  /** `script::run`, of a script already bound. */
  method RunBound(s: Session, lines: Bound) returns (shown: seq<Shown>, stop: Option<Stop>)
    requires Sound(s.State())
    modifies s, s.engine
    ensures Sound(s.State())
    ensures Ran(s.State(), shown, stop) == RunLines(Evaluating(s.engine.oracle), old(s.State()), lines)
  {
    shown := [];
    ghost var eval := Evaluating(s.engine.oracle);
    ghost var whole := RunLines(eval, s.State(), lines);
    for i := 0 to |lines|
      invariant Sound(s.State())
      invariant whole == Resumed(shown, RunLines(eval, s.State(), lines[i..]))
    {
      var (number, line) := lines[i];
      ghost var rest := RunLines(eval, s.State(), lines[i..]);
      assert lines[i..][0] == lines[i] && lines[i..][1..] == lines[i + 1..];
      var action := s.Eval(line);
      var next := Shown(number, line, action);
      ghost var past := shown;
      shown := shown + [next];
      if Fails(action) {
        return shown, Some(Stop(Some(number), action.result.error));
      }
      if action.Quit? {
        return shown, None;
      }
      ResumedNext(past, next, RunLines(eval, s.State(), lines[i + 1..]));
    }
    stop := None;
  }

  ghost function Resumed(shown: seq<Shown>, rest: Ran): Ran {
    rest.(shown := shown + rest.shown)
  }

  lemma ResumedNext(shown: seq<Shown>, next: Shown, rest: Ran)
    ensures Resumed(shown, Prefixed(next, rest)) == Resumed(shown + [next], rest)
  {
    assert shown + ([next] + rest.shown) == shown + [next] + rest.shown;
  }

  /** `script::run`. */
  method RunScript(s: Session, w: World, text: string, given: Parameters)
    returns (shown: seq<Shown>, stop: Option<Stop>)
    requires Sound(s.State()) && w.oracle == s.engine.oracle
    modifies s, s.engine
    ensures Sound(s.State())
    ensures Ran(s.State(), shown, stop) == RunText(w, old(s.State()), text, given)
  {
    match w.bind(text, given) {
      case Err(e) => return [], Some(e);
      case Ok(lines) => shown, stop := RunBound(s, lines);
    }
  }

  /** `script::run_command`. */
  method RunInvocation(s: Session, w: World, invocation: Result<Invocation, Fault>)
    returns (shown: seq<Shown>, stop: Option<Stop>)
    requires Sound(s.State()) && w.oracle == s.engine.oracle
    modifies s, s.engine
    ensures Sound(s.State())
    ensures Ran(s.State(), shown, stop) == RunStored(w, old(s.State()), invocation)
  {
    match invocation {
      case Err(_) => return [], Some(Stop(None, "malformed"));
      case Ok(i) =>
        var answer := s.Eval("source " + i.iri);
        match answer {
          case Output(_, Ok(text)) => shown, stop := RunScript(s, w, text, i.params);
          case _ => return [], Some(Stop(None, "cannot read the script"));
        }
    }
  }

  /** The body both loops share: a `script` command or a line for the session. */
  method Obey(s: Session, w: World, command: string) returns (failed: bool, quits: bool)
    requires Sound(s.State()) && w.oracle == s.engine.oracle
    modifies s, s.engine
    ensures Sound(s.State())
    ensures Done(s.State(), failed, quits) == Obeying(w)(old(s.State()), command)
  {
    match Command(command) {
      case Some(invocation) =>
        var _, stop := RunInvocation(s, w, invocation);
        return stop.Some?, false;
      case None =>
        var action := s.Eval(command);
        return Fails(action), action.Quit?;
    }
  }

  /** Partway through a run: what is done, and the session it left. */
  ghost predicate Underway(does: Doing, halts: Done -> bool, start: Mind, commands: seq<string>, i: nat,
                           done: seq<Done>, m: Mind)
    requires i <= |commands|
  {
    && Fed(does, halts, start, commands) == done + Fed(does, halts, m, commands[i..])
    && m == End(start, done)
  }

  ghost predicate Over(does: Doing, halts: Done -> bool, start: Mind, commands: seq<string>, done: seq<Done>, m: Mind) {
    done == Fed(does, halts, start, commands) && m == End(start, done)
  }

  lemma UnderwayStarts(does: Doing, halts: Done -> bool, start: Mind, commands: seq<string>)
    ensures Underway(does, halts, start, commands, 0, [], start)
  {
    assert commands[0..] == commands;
  }

  lemma UnderwayNext(does: Doing, halts: Done -> bool, start: Mind, commands: seq<string>, i: nat,
                     done: seq<Done>, m: Mind, d: Done)
    requires i < |commands| && Underway(does, halts, start, commands, i, done, m) && d == does(m, commands[i])
    ensures if halts(d) then Over(does, halts, start, commands, done + [d], d.mind)
      else Underway(does, halts, start, commands, i + 1, done + [d], d.mind)
  {
    assert commands[i..][0] == commands[i] && commands[i..][1..] == commands[i + 1..];
    assert done + ([d] + Fed(does, halts, d.mind, commands[i + 1..]))
      == done + [d] + Fed(does, halts, d.mind, commands[i + 1..]);
  }

  lemma UnderwayEnds(does: Doing, halts: Done -> bool, start: Mind, commands: seq<string>, done: seq<Done>, m: Mind)
    requires Underway(does, halts, start, commands, |commands|, done, m)
    ensures Over(does, halts, start, commands, done, m)
  {
  }

  lemma CodeOfLast(past: seq<Done>, d: Done)
    ensures Code(past + [d]) == if d.failed then 1 else Code(past)
  {
    var done := past + [d];
    assert done[|past|] == d;
    if exists k :: 0 <= k < |past| && past[k].failed {
      var k :| 0 <= k < |past| && past[k].failed;
      assert done[k].failed;
    }
    if !d.failed && exists k :: 0 <= k < |done| && done[k].failed {
      var k :| 0 <= k < |done| && done[k].failed;
      assert past[k].failed;
    }
  }

  /** `run_commands`: a `-c` batch. */
  method FeedBatch(s: Session, w: World, commands: seq<string>) returns (code: int, ghost done: seq<Done>)
    requires Sound(s.State()) && s.engine.oracle == w.oracle
    modifies s, s.engine
    ensures Sound(s.State())
    ensures Over(Obeying(w), BatchHalts, old(s.State()), commands, done, s.State()) && code == Code(done)
  {
    code, done := 0, [];
    ghost var start := s.State();
    UnderwayStarts(Obeying(w), BatchHalts, start, commands);
    for i := 0 to |commands|
      invariant Sound(s.State())
      invariant Underway(Obeying(w), BatchHalts, start, commands, i, done, s.State()) && code == Code(done)
    {
      ghost var m := s.State();
      var failed, quits := Obey(s, w, commands[i]);
      ghost var d := Done(s.State(), failed, quits);
      UnderwayNext(Obeying(w), BatchHalts, start, commands, i, done, m, d);
      CodeOfLast(done, d);
      done := done + [d];
      if failed {
        code := 1;
        if s.refusing {
          return;
        }
      }
      if quits {
        return;
      }
    }
    UnderwayEnds(Obeying(w), BatchHalts, start, commands, done, s.State());
  }

  /** `run`: the REPL, over the lines it reads. */
  method FeedRepl(s: Session, w: World, lines: seq<string>) returns (code: int, ghost done: seq<Done>)
    requires Sound(s.State()) && s.engine.oracle == w.oracle
    modifies s, s.engine
    ensures Sound(s.State())
    ensures Over(Obeying(w), ReplHalts, old(s.State()), lines, done, s.State()) && code == Code(done)
  {
    code, done := 0, [];
    ghost var start := s.State();
    UnderwayStarts(Obeying(w), ReplHalts, start, lines);
    for i := 0 to |lines|
      invariant Sound(s.State())
      invariant Underway(Obeying(w), ReplHalts, start, lines, i, done, s.State()) && code == Code(done)
    {
      ghost var m := s.State();
      var failed, quits := Obey(s, w, lines[i]);
      ghost var d := Done(s.State(), failed, quits);
      UnderwayNext(Obeying(w), ReplHalts, start, lines, i, done, m, d);
      CodeOfLast(done, d);
      done := done + [d];
      if quits {
        return;
      }
      if failed {
        code := 1;
      }
    }
    UnderwayEnds(Obeying(w), ReplHalts, start, lines, done, s.State());
  }

  /** A batch on the session it makes for itself: nothing is ever evaluated while refusing, and
      the code is 1 exactly when something failed. */
  method RunCommands(w: World, commands: seq<string>) returns (code: int, s: Session)
    ensures fresh(s) && fresh(s.engine) && Sound(s.State())
    ensures s.State().refusedAsks == 0
    ensures s.State() == End(FRESH, Fed(Obeying(w), BatchHalts, FRESH, commands))
    ensures code == Code(Fed(Obeying(w), BatchHalts, FRESH, commands))
  {
    s := new Session(w.oracle);
    FreshIsSound();
    ghost var done: seq<Done>;
    code, done := FeedBatch(s, w, commands);
    BatchNeverAsksRefusing(w, FRESH, commands, done);
  }

  /** The REPL on the session it makes for itself. */
  method RunRepl(w: World, lines: seq<string>) returns (code: int, s: Session)
    ensures fresh(s) && fresh(s.engine) && Sound(s.State())
    ensures s.State() == End(FRESH, Fed(Obeying(w), ReplHalts, FRESH, lines))
    ensures code == Code(Fed(Obeying(w), ReplHalts, FRESH, lines))
  {
    s := new Session(w.oracle);
    FreshIsSound();
    ghost var done: seq<Done>;
    code, done := FeedRepl(s, w, lines);
  }

  /** `run_script`'s exit code: 0 when every line ran, 1 at a line that failed, 2 when none ran
      for a reason that is no line's. */
  function ScriptCode(stop: Option<Stop>): int {
    match stop
    case None => 0
    case Some(s) => if s.line.Some? then 1 else 2
  }

  /** A script that binds exits 0 or 1, and 1 exactly when its last evaluated line failed. */
  lemma ScriptCodeTells(w: World, m: Mind, text: string, given: Parameters)
    ensures var r := RunText(w, m, text, given); var bound := w.bind(text, given);
      && (ScriptCode(r.stop) == 2 <==> bound.Err? && bound.error.line.None?)
      && (bound.Err? ==> r.mind == m && r.shown == [])
      && (bound.Ok? ==> (ScriptCode(r.stop) == 1 <==> r.shown != [] && Fails(r.shown[|r.shown| - 1].action)))
  {
    var bound := w.bind(text, given);
    if bound.Ok? {
      ScriptStopsAtFirst(Evaluating(w.oracle), m, bound.value, RunText(w, m, text, given));
    }
  }
}
