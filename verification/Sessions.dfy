/** The evaluation policy every front end shares (`session.rs`): after a failed `cap` nothing
    but a recovery reaches the engine. */
module Sessions {
  import opened Strings

  /** What an evaluation answers. An output's cache tally is not part of this model. */
  datatype Action =
    | Output(input: string, result: Result<string, string>)
    | Help | Clear | Quit | Noop

  predicate Fails(a: Action) {
    a.Output? && a.result.Err?
  }

  /** One evaluation the engine was given, and its answer. */
  datatype Call = Line(line: string, answer: Action) | Lisp(src: string, answer: Action)

  /** The engine is any function of everything it has been given before and what it is given
      now; all it is trusted with is that a refused `cap` leaves the capability as it was. */
  datatype Oracle = Oracle(line: (seq<Call>, string) -> Action, lisp: (seq<Call>, string) -> Action)

  const REFUSAL := "session is refusing after a failed `cap`"

  /** The first word of a trimmed line, and the trimmed rest. */
  function Head(line: string): (string, string) {
    match SplitWhite(line)
    case None => (line, [])
    case Some(cut) => (cut.0, Trim(cut.1))
  }

  predicate IsCap(line: string) {
    Head(line).0 == "cap"
  }

  /** A `cap` that supplies a replacement narrowing: not a query, not a bare `seal`. */
  predicate IsRecovery(line: string) {
    IsCap(line) && Head(line).1 != [] && Head(line).1 != "seal"
  }

  /** What a refusing session answers by itself. */
  function Refused(line: string): Action {
    var command := Head(line).0;
    if command == "quit" || command == "exit" then Quit
    else if command == "help" || command == "?" then Help
    else if command == "clear" || command == "cls" then Clear
    else if command == [] || command == "#" then Noop
    else if TrimStart(line) != [] && TrimStart(line)[0] == '#' then Noop
    else Output(line, Err(REFUSAL))
  }

  /** What a session is: what its engine has been given, whether it is refusing, and how many
      evaluations were asked of it while it was. */
  datatype Mind = Mind(log: seq<Call>, refusing: bool, refusedAsks: nat)

  const FRESH: Mind := Mind([], false, 0)

  function Blocked(m: Mind): Mind {
    m.(refusedAsks := m.refusedAsks + if m.refusing then 1 else 0)
  }

  /** `Session::eval`. */
  function Evaluated(oracle: Oracle, m: Mind, text: string): (Mind, Action) {
    var line := Trim(text);
    var asked := Blocked(m);
    if m.refusing && !IsRecovery(line) then (asked, Refused(line))
    else
      var answer := oracle.line(m.log, line);
      var refusing := if !IsCap(line) then m.refusing
        else if Fails(answer) then true
        else if answer.Output? && IsRecovery(line) then false
        else m.refusing;
      (asked.(log := m.log + [Line(line, answer)], refusing := refusing), answer)
  }

  /** `Session::eval_lisp`. */
  function EvaluatedLisp(oracle: Oracle, m: Mind, src: string): (Mind, Action) {
    if m.refusing then (Blocked(m), Output(src, Err(REFUSAL)))
    else
      var answer := oracle.lisp(m.log, src);
      (m.(log := m.log + [Lisp(src, answer)]), answer)
  }

  // ----- the promise, on what the engine was given -----

  predicate FailedCap(c: Call) {
    c.Line? && IsCap(c.line) && Fails(c.answer)
  }

  predicate Recovered(c: Call) {
    c.Line? && IsRecovery(c.line) && c.answer.Output? && !Fails(c.answer)
  }

  /** Before the position `j` something opened and nothing since has closed. */
  predicate Open(log: seq<Call>, opens: Call -> bool, closes: Call -> bool, j: nat)
    requires j <= |log|
  {
    exists i :: 0 <= i < j && opens(log[i]) && StillOpen(log, closes, i, j)
  }

  predicate StillOpen(log: seq<Call>, closes: Call -> bool, i: nat, j: nat)
    requires i < j <= |log|
  {
    forall k :: i < k < j ==> !closes(log[k])
  }

  /** Before the call `j`, the latest `cap` that settled anything was a refused one. */
  predicate Unsettled(log: seq<Call>, j: nat)
    requires j <= |log|
  {
    Open(log, FailedCap, Recovered, j)
  }

  /** Between a failed `cap` and the next successful recovery the engine is given nothing but
      recovery attempts. */
  predicate Guarded(log: seq<Call>) {
    forall j :: 0 <= j < |log| && Unsettled(log, j) ==> log[j].Line? && IsRecovery(log[j].line)
  }

  /** Every line the engine is given has been trimmed. */
  predicate Trimmed(log: seq<Call>) {
    forall k :: 0 <= k < |log| && log[k].Line? ==> log[k].line == [] || Tidy(log[k].line)
  }

  /** The flag is exactly that state. */
  predicate Sound(m: Mind) {
    Guarded(m.log) && Trimmed(m.log) && (m.refusing <==> Unsettled(m.log, |m.log|))
  }

  lemma OpenPrefix(log: seq<Call>, c: Call, opens: Call -> bool, closes: Call -> bool, j: nat)
    requires j <= |log|
    ensures Open(log + [c], opens, closes, j) <==> Open(log, opens, closes, j)
  {
    var more := log + [c];
    if Open(log, opens, closes, j) {
      var i :| 0 <= i < j && opens(log[i]) && StillOpen(log, closes, i, j);
      assert opens(more[i]) && StillOpen(more, closes, i, j);
    }
    if Open(more, opens, closes, j) {
      var i :| 0 <= i < j && opens(more[i]) && StillOpen(more, closes, i, j);
      assert forall k :: i < k < j ==> more[k] == log[k];
      assert opens(log[i]) && StillOpen(log, closes, i, j);
    }
  }

  lemma OpenNext(log: seq<Call>, c: Call, opens: Call -> bool, closes: Call -> bool)
    ensures Open(log + [c], opens, closes, |log| + 1)
      <==> opens(c) || (Open(log, opens, closes, |log|) && !closes(c))
  {
    var more := log + [c];
    if opens(c) {
      assert opens(more[|log|]) && StillOpen(more, closes, |log|, |log| + 1);
    } else if Open(log, opens, closes, |log|) && !closes(c) {
      var i :| 0 <= i < |log| && opens(log[i]) && StillOpen(log, closes, i, |log|);
      assert opens(more[i]) && StillOpen(more, closes, i, |log| + 1);
    }
    if Open(more, opens, closes, |log| + 1) && !opens(c) {
      var i :| 0 <= i < |log| + 1 && opens(more[i]) && StillOpen(more, closes, i, |log| + 1);
      assert !closes(more[|log|]);
      assert forall k :: i < k < |log| ==> more[k] == log[k];
      assert opens(log[i]) && StillOpen(log, closes, i, |log|);
    }
  }

  /** One more call keeps the log guarded when it is a recovery or nothing is unsettled. */
  lemma GuardedNext(log: seq<Call>, c: Call)
    requires Guarded(log) && (Unsettled(log, |log|) ==> c.Line? && IsRecovery(c.line))
    ensures Guarded(log + [c])
  {
    forall j | 0 <= j < |log| + 1 && Unsettled(log + [c], j)
      ensures (log + [c])[j].Line? && IsRecovery((log + [c])[j].line)
    {
      OpenPrefix(log, c, FailedCap, Recovered, j);
    }
  }

  /** Every evaluation keeps the promise and the flag's meaning, whatever the engine answers. */
  lemma EvalKeepsSound(oracle: Oracle, m: Mind, text: string)
    requires Sound(m)
    ensures Sound(Evaluated(oracle, m, text).0)
  {
    var line := Trim(text);
    var _, _ := TrimSplits(text);
    if !(m.refusing && !IsRecovery(line)) {
      var c := Line(line, oracle.line(m.log, line));
      GuardedNext(m.log, c);
      OpenNext(m.log, c, FailedCap, Recovered);
    }
  }

  lemma LispKeepsSound(oracle: Oracle, m: Mind, src: string)
    requires Sound(m)
    ensures Sound(EvaluatedLisp(oracle, m, src).0)
  {
    if !m.refusing {
      var c := Lisp(src, oracle.lisp(m.log, src));
      GuardedNext(m.log, c);
      OpenNext(m.log, c, FailedCap, Recovered);
    }
  }

  /** An evaluation makes a session refuse only by answering with an error. */
  lemma OnlyErrorsRefuse(oracle: Oracle, m: Mind, text: string)
    requires !m.refusing && Evaluated(oracle, m, text).0.refusing
    ensures Fails(Evaluated(oracle, m, text).1)
  {
  }

  /** While refusing, anything but a recovery leaves the engine alone. */
  lemma RefusingIsSilent(oracle: Oracle, m: Mind, text: string)
    requires m.refusing
    ensures Evaluated(oracle, m, text).0.log != m.log <==> IsRecovery(Trim(text))
    ensures EvaluatedLisp(oracle, m, text).0.log == m.log
  {
  }

  // ----- which lines, on their texts -----

  /** `cap` and something after it, whatever whitespace is between. */
  ghost predicate CapOf(line: string, gap: string, asked: string) {
    gap != [] && AllWhite(gap) && Tidy(asked) && line == "cap" + (gap + asked)
  }

  /** A line that supplies a narrowing: `cap` and anything but `seal` alone. */
  ghost predicate AsksToNarrow(line: string) {
    exists gap, asked :: CapOf(line, gap, asked) && asked != "seal"
  }

  /** `cap` alone, or before whitespace. */
  predicate CapLine(line: string) {
    |line| >= 3 && line[..3] == "cap" && (|line| == 3 || IsWhite(line[3]))
  }

  lemma CapIsWritten(line: string)
    ensures IsCap(line) <==> CapLine(line)
  {
    var at := FindWhite(line);
    if CapLine(line) {
      assert line[0] == 'c' && line[1] == 'a' && line[2] == 'p';
      if |line| == 3 {
        assert FindWhite(line) == 3;
      } else {
        CutAt(line, 3);
        SplitWhiteUnique(line[..3], line[3], line[4..]);
      }
    }
  }

  lemma CutAt(s: string, k: nat)
    requires k < |s|
    ensures s == s[..k] + [s[k]] + s[k + 1..]
  {
  }

  /** The lines the code calls recoveries are exactly those that supply a narrowing. */
  lemma RecoveryIsWritten(line: string)
    requires line == [] || Tidy(line)
    ensures IsRecovery(line) <==> AsksToNarrow(line)
  {
    if gap, asked :| CapOf(line, gap, asked) && asked != "seal" {
      CapReads(line, gap, asked);
    }
    if IsRecovery(line) {
      var gap := RecoveryReads(line);
      assert CapOf(line, gap, Head(line).1);
    }
  }

  lemma RecoveryReads(line: string) returns (gap: string)
    requires Tidy(line) && IsCap(line) && Head(line).1 != []
    ensures CapOf(line, gap, Head(line).1)
  {
    var at := FindWhite(line);
    var rest := line[at + 1..];
    assert line[..at] == "cap" && Head(line).1 == Trim(rest);
    gap := GapBefore(line, line[..at], line[at], rest);
  }

  /** A trimmed line's last word runs to its end. */
  lemma GapBefore(line: string, head: string, c: char, rest: string) returns (gap: string)
    requires Tidy(line) && IsWhite(c) && Trim(rest) != [] && line == head + ([c] + rest)
    ensures gap != [] && AllWhite(gap) && Tidy(Trim(rest)) && line == head + (gap + Trim(rest))
  {
    var before, after := TrimSplits(rest);
    gap := [c] + before;
    Regrouped(head, [c], before, Trim(rest), after);
    NothingAfter(head + (gap + Trim(rest)), after);
    assert head + (gap + Trim(rest)) + [] == head + (gap + Trim(rest));
    forall x | x in gap ensures IsWhite(x) {
    }
  }

  lemma Regrouped(a: string, b: string, c: string, d: string, e: string)
    ensures a + (b + (c + d + e)) == a + ((b + c) + d) + e
  {
  }

  lemma NothingAfter(s: string, after: string)
    requires AllWhite(after) && s + after != [] && !IsWhite((s + after)[|s + after| - 1])
    ensures after == []
  {
  }

  lemma CapReads(line: string, gap: string, asked: string)
    requires CapOf(line, gap, asked)
    ensures Head(line) == ("cap", asked)
  {
    assert gap[0] in gap && forall c :: c in gap[1..] ==> c in gap;
    assert line == "cap" + [gap[0]] + (gap[1..] + asked);
    SplitWhiteUnique("cap", gap[0], gap[1..] + asked);
    TrimDrops(gap[1..], asked, []);
    assert gap[1..] + asked + [] == gap[1..] + asked;
  }

  /** One way to write each narrowing: `cap`, `cap seal` and what is no `cap` ask for none. */
  lemma NoNarrowing(line: string, gap: string)
    requires line == "cap" || CapOf(line, gap, "seal") || !CapLine(line)
    ensures !AsksToNarrow(line)
  {
    if g, asked :| CapOf(line, g, asked) && asked != "seal" {
      assert g[0] in g && line[..3] == "cap" && line[3] == g[0];
      CapReads(line, g, asked);
      if line != "cap" && CapLine(line) {
        CapReads(line, gap, "seal");
      }
    }
  }

  /** An unrefused session gives the engine every line, trimmed; it refuses after it exactly when
      the line is a `cap` answered by an error. */
  lemma UnrefusedPasses(oracle: Oracle, m: Mind, text: string)
    requires !m.refusing
    ensures var (next, action) := Evaluated(oracle, m, text); var line := Trim(text);
      && action == oracle.line(m.log, line) && next.log == m.log + [Line(line, action)]
      && (next.refusing <==> CapLine(line) && action.Output? && action.result.Err?)
  {
    CapIsWritten(Trim(text));
  }

  /** A refusing session gives the engine a narrowing, whatever whitespace is around it, and stops
      refusing exactly when it is answered by an output without an error. */
  lemma RefusingPassesNarrowing(oracle: Oracle, m: Mind, before: string, gap: string, asked: string, after: string)
    requires m.refusing && AllWhite(before) && AllWhite(after) && gap != [] && AllWhite(gap)
    requires Tidy(asked) && asked != "seal"
    ensures var line := "cap" + (gap + asked); var (next, action) := Evaluated(oracle, m, before + line + after);
      && action == oracle.line(m.log, line) && next.log == m.log + [Line(line, action)]
      && (next.refusing <==> !(action.Output? && action.result.Ok?))
  {
    var line := "cap" + (gap + asked);
    assert Tidy(line);
    TrimDrops(before, line, after);
    CapReads(line, gap, asked);
  }

  /** What a refusing session says by itself to a line that begins with the word `word`. */
  function Says(line: string, word: string): Action {
    if word == "quit" || word == "exit" then Quit
    else if word == "help" || word == "?" then Help
    else if word == "clear" || word == "cls" then Clear
    else if line != [] && line[0] == '#' then Noop
    else Output(line, Err(REFUSAL))
  }

  /** To every other line a refusing session answers by itself, and stays as it was: `cap`, `cap
      seal` and whatever is no `cap` never reach the engine. */
  lemma RefusingKeepsTheRest(oracle: Oracle, m: Mind, before: string, word: string, rest: string, after: string)
    requires m.refusing && AllWhite(before) && AllWhite(after)
    requires Inky(word) && (rest == [] || (IsWhite(rest[0]) && !IsWhite(rest[|rest| - 1])))
    requires word != "cap" || rest == [] || exists gap :: AllWhite(gap) && rest == gap + "seal"
    ensures Evaluated(oracle, m, before + (word + rest) + after)
      == (m.(refusedAsks := m.refusedAsks + 1), Says(word + rest, word))
  {
    var line := word + rest;
    assert Tidy(line) && line[0] == word[0];
    TrimDrops(before, line, after);
    WordHeads(word, rest);
    RestIsNoRecovery(word, rest);
    RefusedSays(line, word);
  }

  lemma RestIsNoRecovery(word: string, rest: string)
    requires Inky(word) && (rest == [] || IsWhite(rest[0]))
    requires word != "cap" || rest == [] || exists gap :: AllWhite(gap) && rest == gap + "seal"
    ensures !IsRecovery(word + rest)
  {
    WordHeads(word, rest);
    if word == "cap" && rest != [] {
      var gap :| AllWhite(gap) && rest == gap + "seal";
      assert gap != [];
      CapReads(word + rest, gap, "seal");
    }
  }

  lemma RefusedSays(line: string, word: string)
    requires Tidy(line) && word != [] && word[0] == line[0] && Head(line).0 == word
    ensures Refused(line) == Says(line, word)
  {
    assert TrimStart(line) == line;
  }

  lemma WordHeads(word: string, rest: string)
    requires Inky(word) && (rest == [] || IsWhite(rest[0]))
    ensures Head(word + rest).0 == word && (rest == [] ==> Head(word + rest).1 == [])
  {
    if rest == [] {
      assert word + rest == word;
      assert FindWhite(word) == |word|;
    } else {
      assert word + rest == word + [rest[0]] + rest[1..];
      SplitWhiteUnique(word, rest[0], rest[1..]);
    }
  }

  /** A scratch evaluation reaches the engine exactly when the session is not refusing, and never
      changes whether it is. */
  lemma LispPassesUnrefused(oracle: Oracle, m: Mind, src: string)
    ensures var (next, action) := EvaluatedLisp(oracle, m, src);
      && next.refusing == m.refusing
      && (if m.refusing then next.log == m.log && action == Output(src, Err(REFUSAL))
          else next.log == m.log + [Lisp(src, action)] && action == oracle.lisp(m.log, src))
  {
  }

  /** A blank line is nothing. */
  lemma RefusingIgnoresBlanks(oracle: Oracle, m: Mind, blank: string)
    requires m.refusing && AllWhite(blank)
    ensures Evaluated(oracle, m, blank) == (m.(refusedAsks := m.refusedAsks + 1), Noop)
  {
    TrimBlank(blank);
  }

  // ----- the promise, on their texts -----

  predicate RefusedCap(c: Call) {
    c.Line? && CapLine(c.line) && c.answer.Output? && c.answer.result.Err?
  }

  ghost predicate Narrowed(c: Call) {
    c.Line? && AsksToNarrow(c.line) && c.answer.Output? && c.answer.result.Ok?
  }

  /** After a `cap` that was answered by an error, and until a narrowing that was not, the engine is
      given narrowings alone. */
  ghost predicate GuardedOnText(log: seq<Call>) {
    forall i, j :: 0 <= i < j < |log| && RefusedCap(log[i]) && (forall k :: i < k < j ==> !Narrowed(log[k])) ==>
      log[j].Line? && AsksToNarrow(log[j].line)
  }

  lemma GuardedIsWritten(log: seq<Call>)
    requires Guarded(log) && Trimmed(log)
    ensures GuardedOnText(log)
  {
    forall i, j | 0 <= i < j < |log| && RefusedCap(log[i]) && (forall k :: i < k < j ==> !Narrowed(log[k]))
      ensures log[j].Line? && AsksToNarrow(log[j].line)
    {
      CapIsWritten(log[i].line);
      forall k | i < k < j ensures !Recovered(log[k]) {
        CallIsWritten(log[k]);
      }
      assert FailedCap(log[i]) && StillOpen(log, Recovered, i, j);
      assert Unsettled(log, j);
      CallIsWritten(log[j]);
    }
  }

  lemma CallIsWritten(c: Call)
    requires c.Line? ==> c.line == [] || Tidy(c.line)
    ensures c.Line? ==> (IsRecovery(c.line) <==> AsksToNarrow(c.line))
    ensures Recovered(c) <==> Narrowed(c)
  {
    if c.Line? {
      RecoveryIsWritten(c.line);
    }
  }

  // ----- the session itself -----

  /** The engine, as the session uses it. */
  class Engine {
    const oracle: Oracle
    var log: seq<Call>

    constructor (oracle: Oracle)
      ensures this.oracle == oracle && log == []
    {
      this.oracle := oracle;
      log := [];
    }

    method EvalLine(line: string) returns (answer: Action)
      modifies this
      ensures answer == oracle.line(old(log), line) && log == old(log) + [Line(line, answer)]
    {
      answer := oracle.line(log, line);
      log := log + [Line(line, answer)];
    }

    method EvalLisp(src: string) returns (answer: Action)
      modifies this
      ensures answer == oracle.lisp(old(log), src) && log == old(log) + [Lisp(src, answer)]
    {
      answer := oracle.lisp(log, src);
      log := log + [Lisp(src, answer)];
    }
  }

  class Session {
    const engine: Engine
    var refusing: bool
    ghost var refusedAsks: nat

    ghost function State(): Mind
      reads this, engine
    {
      Mind(engine.log, refusing, refusedAsks)
    }

    constructor (oracle: Oracle)
      ensures fresh(engine) && engine.oracle == oracle && State() == FRESH
    {
      engine := new Engine(oracle);
      refusing := false;
      refusedAsks := 0;
    }

    method Eval(text: string) returns (action: Action)
      requires Sound(State())
      modifies this, engine
      ensures Sound(State())
      ensures (State(), action) == Evaluated(engine.oracle, old(State()), text)
    {
      EvalKeepsSound(engine.oracle, State(), text);
      var line := Trim(text);
      var (command, rest) := Head(line);
      var cap := command == "cap";
      var recovery := cap && rest != [] && rest != "seal";
      refusedAsks := refusedAsks + if refusing then 1 else 0;
      if refusing && !recovery {
        return Refused(line);
      }
      action := engine.EvalLine(line);
      if cap {
        match action {
          case Output(_, result) =>
            if result.Err? {
              refusing := true;
            } else if recovery {
              refusing := false;
            }
          case _ =>
        }
      }
    }

    method EvalLisp(src: string) returns (action: Action)
      requires Sound(State())
      modifies this, engine
      ensures Sound(State())
      ensures (State(), action) == EvaluatedLisp(engine.oracle, old(State()), src)
    {
      LispKeepsSound(engine.oracle, State(), src);
      refusedAsks := refusedAsks + if refusing then 1 else 0;
      if refusing {
        return Output(src, Err(REFUSAL));
      }
      action := engine.EvalLisp(src);
    }
  }
}
