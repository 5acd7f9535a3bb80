/** The REPL's `script` line (`script.rs`): its quoted words, and the invocation they make. */
module Words {
  import opened Strings

  datatype Fault =
    | OpenQuote
    | OpenEscape
    | Usage
    | ParameterFirst(iri: string)
    | NotAnIri(iri: string)
    | NotAParameter(arg: string)
    | Nameless(arg: string)
    | Twice(name: string)

  // ----- words -----

  function Prepend(words: seq<string>, r: Result<seq<string>, Fault>): Result<seq<string>, Fault> {
    match r
    case Ok(more) => Ok(words + more)
    case Err(e) => Err(e)
  }

  function Pending(word: Option<string>): seq<string> {
    match word case None => [] case Some(w) => [w]
  }

  function Begun(word: Option<string>): string {
    match word case None => [] case Some(w) => w
  }

  /** The words of `s`, `word` being the one begun before it, outside quotes. */
  function Outside(s: string, word: Option<string>): Result<seq<string>, Fault>
    decreases |s|
  {
    if s == [] then Ok(Pending(word))
    else if IsWhite(s[0]) then Prepend(Pending(word), Outside(s[1..], None))
    else if s[0] == '"' then Inside(s[1..], Begun(word))
    else Outside(s[1..], Some(Begun(word) + [s[0]]))
  }

  /** The same inside quotes. */
  function Inside(s: string, word: string): Result<seq<string>, Fault>
    decreases |s|
  {
    if s == [] then Err(OpenQuote)
    else if s[0] == '"' then Outside(s[1..], Some(word))
    else if s[0] != '\\' then Inside(s[1..], word + [s[0]])
    else if |s| == 1 then Err(OpenEscape)
    else if s[1] == '"' || s[1] == '\\' then Inside(s[2..], word + [s[1]])
    else Inside(s[2..], word + ['\\', s[1]])
  }

  /** The inner loop: a quoted span from just after its opening quote, onto the word begun. */
  method ReadSpan(text: string, start: nat, begun: string) returns (r: Result<(nat, string), Fault>)
    requires start <= |text|
    ensures r.Ok? ==> start < r.value.0 <= |text|
    ensures Inside(text[start..], begun)
      == if r.Ok? then Outside(text[r.value.0..], Some(r.value.1)) else Err(r.error)
  {
    var i, w := start, begun;
    while true
      invariant start <= i <= |text|
      invariant Inside(text[start..], begun) == Inside(text[i..], w)
      decreases |text| - i
    {
      if i == |text| {
        return Err(OpenQuote);
      }
      var q := text[i];
      i := i + 1;
      assert text[i - 1..][1..] == text[i..];
      if q == '"' {
        return Ok((i, w));
      } else if q == '\\' {
        if i == |text| {
          return Err(OpenEscape);
        }
        var e := text[i];
        i := i + 1;
        assert text[i - 2..][2..] == text[i..];
        w := if e == '"' || e == '\\' then w + [e] else w + ['\\', e];
      } else {
        w := w + [q];
      }
    }
  }

  /** `words`: the two nested loops over the characters. */
  method SplitWords(text: string) returns (r: Result<seq<string>, Fault>)
    ensures r == Outside(text, None)
  {
    var words: seq<string> := [];
    var word: Option<string> := None;
    var i := 0;
    assert text[0..] == text;
    PrependNothing(Outside(text, None));
    while i < |text|
      invariant i <= |text|
      invariant Outside(text, None) == Prepend(words, Outside(text[i..], word))
    {
      var c := text[i];
      i := i + 1;
      assert text[i - 1..][1..] == text[i..];
      if IsWhite(c) {
        PrependTwice(words, Pending(word), Outside(text[i..], None));
        words, word := words + Pending(word), None;
      } else if c == '"' {
        var span := ReadSpan(text, i, Begun(word));
        if span.Err? {
          return Err(span.error);
        }
        i, word := span.value.0, Some(span.value.1);
      } else {
        word := Some(Begun(word) + [c]);
      }
    }
    r := Ok(words + Pending(word));
  }

  lemma PrependNothing(r: Result<seq<string>, Fault>)
    ensures Prepend([], r) == r
  {
    if r.Ok? {
      assert [] + r.value == r.value;
    }
  }

  lemma PrependTwice(a: seq<string>, b: seq<string>, r: Result<seq<string>, Fault>)
    ensures Prepend(a, Prepend(b, r)) == Prepend(a + b, r)
  {
    if r.Ok? {
      assert a + (b + r.value) == a + b + r.value;
    }
  }

  // ----- printing words -----

  /** A quote and a backslash, escaped. */
  function Escape(w: string): string {
    if w == [] then []
    else (if w[0] == '"' || w[0] == '\\' then ['\\', w[0]] else [w[0]]) + Escape(w[1..])
  }

  function Quote(w: string): string {
    "\"" + (Escape(w) + "\"")
  }

  /** Words quoted and separated by spaces. */
  function Print(words: seq<string>): string {
    if words == [] then []
    else if |words| == 1 then Quote(words[0])
    else Quote(words[0]) + (" " + Print(words[1..]))
  }

  lemma {:induction false} EscapeReads(w: string, begun: string, rest: string)
    ensures Inside(Escape(w) + ("\"" + rest), begun) == Outside(rest, Some(begun + w))
  {
    var s := Escape(w) + ("\"" + rest);
    if w == [] {
      assert s == "\"" + rest && s[1..] == rest;
      assert begun + w == begun;
    } else {
      var more := Escape(w[1..]) + ("\"" + rest);
      EscapeReads(w[1..], begun + [w[0]], rest);
      assert begun + [w[0]] + w[1..] == begun + w;
      if w[0] == '"' || w[0] == '\\' {
        assert s == ['\\', w[0]] + more && s[2..] == more;
      } else {
        assert s == [w[0]] + more && s[1..] == more;
      }
    }
  }

  /** A quoted word begins a word with its text, whatever is in it and whatever follows. */
  lemma QuoteReads(w: string, rest: string)
    ensures Outside(Quote(w) + rest, None) == Outside(rest, Some(w))
  {
    var s := Quote(w) + rest;
    assert s[1..] == Escape(w) + ("\"" + rest);
    EscapeReads(w, [], rest);
    assert [] + w == w;
  }

  lemma LastWord(w: string)
    ensures Outside(Quote(w), None) == Ok([w])
  {
    QuoteReads(w, []);
    assert Quote(w) + [] == Quote(w);
  }

  lemma FirstWord(w: string, more: string)
    ensures Outside(Quote(w) + (" " + more), None) == Prepend([w], Outside(more, None))
  {
    QuoteReads(w, " " + more);
    assert (" " + more)[1..] == more;
  }

  /** Printing then splitting is the identity on every list of words: empty words and ones
      holding quotes, backslashes or spaces included. */
  lemma {:induction false} WordsReadBack(words: seq<string>)
    ensures Outside(Print(words), None) == Ok(words)
  {
    if |words| == 1 {
      LastWord(words[0]);
      assert words == [words[0]];
    } else if words != [] {
      FirstWord(words[0], Print(words[1..]));
      WordsReadBack(words[1..]);
      assert words == [words[0]] + words[1..];
    }
  }

  /** A word that needs no quotes. */
  predicate Plain(w: string) {
    forall k :: 0 <= k < |w| ==> !IsWhite(w[k]) && w[k] != '"'
  }

  lemma {:induction false} PlainReads(w: string, begun: string, rest: string)
    requires Plain(w)
    ensures Outside(w + rest, Some(begun)) == Outside(rest, Some(begun + w))
  {
    if w == [] {
      assert w + rest == rest && begun + w == begun;
    } else {
      assert (w + rest)[1..] == w[1..] + rest;
      PlainReads(w[1..], begun + [w[0]], rest);
      assert begun + [w[0]] + w[1..] == begun + w;
    }
  }

  lemma PlainBegins(w: string, rest: string)
    requires Plain(w) && w != []
    ensures Outside(w + rest, None) == Outside(rest, Some(w))
  {
    var s := w + rest;
    assert s[0] == w[0] && !IsWhite(w[0]) && w[0] != '"';
    assert s[1..] == w[1..] + rest;
    assert Begun(None) + [w[0]] == [w[0]];
    PlainReads(w[1..], [w[0]], rest);
    assert [w[0]] + w[1..] == w;
  }

  /** A quoted span goes on with the word it follows: `who="two words"` is one word. */
  lemma SpanJoinsItsWord(name: string, value: string, rest: string)
    requires Plain(name) && name != []
    ensures Outside(name + (Quote(value) + rest), None) == Outside(rest, Some(name + value))
  {
    PlainBegins(name, Quote(value) + rest);
    var s := Quote(value) + rest;
    assert s[1..] == Escape(value) + ("\"" + rest);
    EscapeReads(value, name, rest);
  }

  lemma {:induction false} GapSkips(gap: string, rest: string)
    requires AllWhite(gap)
    ensures Outside(gap + rest, None) == Outside(rest, None)
  {
    if gap == [] {
      assert gap + rest == rest;
    } else {
      assert gap[0] in gap;
      assert (gap + rest)[1..] == gap[1..] + rest;
      assert forall c :: c in gap[1..] ==> c in gap;
      GapSkips(gap[1..], rest);
      PrependNothing(Outside(gap[1..] + rest, None));
    }
  }

  lemma GapEndsWord(w: string, gap: string, rest: string)
    requires AllWhite(gap) && gap != []
    ensures Outside(gap + rest, Some(w)) == Prepend([w], Outside(rest, None))
  {
    assert gap[0] in gap;
    assert (gap + rest)[1..] == gap[1..] + rest;
    assert forall c :: c in gap[1..] ==> c in gap;
    GapSkips(gap[1..], rest);
  }

  /** Plain words need no quotes, and any whitespace between them does. */
  lemma {:induction false} PlainWordsReadBack(words: seq<string>, gap: string)
    requires forall k :: 0 <= k < |words| ==> Plain(words[k]) && words[k] != []
    requires AllWhite(gap) && gap != []
    ensures Outside(Joined(words, gap), None) == Ok(words)
  {
    if words != [] {
      var w := words[0];
      if |words| == 1 {
        PlainBegins(w, []);
        assert w + [] == w && words == [w];
      } else {
        var more := Joined(words[1..], gap);
        PlainBegins(w, gap + more);
        GapEndsWord(w, gap, more);
        PlainWordsReadBack(words[1..], gap);
        assert w + gap + more == w + (gap + more);
        assert words == [w] + words[1..];
      }
    }
  }

  // ----- parameters -----

  type Parameters = map<string, string>

  /** One `name=value` argument, taken into `given`. */
  function Given(given: Parameters, arg: string): Result<Parameters, Fault> {
    match SplitOnce(arg, '=')
    case None => Err(NotAParameter(arg))
    case Some(cut) =>
      if cut.0 == [] then Err(Nameless(arg))
      else if cut.0 in given then Err(Twice(cut.0))
      else Ok(given[cut.0 := cut.1])
  }

  function ParamsOf(args: seq<string>): Result<Parameters, Fault> {
    if args == [] then Ok(map[]) else
      match ParamsOf(args[..|args| - 1])
      case Err(e) => Err(e)
      case Ok(given) => Given(given, args[|args| - 1])
  }

  /** An error stays the answer whatever arguments follow. */
  lemma {:induction false} FaultStays(args: seq<string>, k: nat)
    requires k <= |args| && ParamsOf(args[..k]).Err?
    ensures ParamsOf(args) == ParamsOf(args[..k])
  {
    if k < |args| {
      assert args[..|args| - 1][..k] == args[..k];
      FaultStays(args[..|args| - 1], k);
    } else {
      assert args[..k] == args;
    }
  }

  /** `params`: the loop over the arguments. */
  method ReadParams(args: seq<string>) returns (r: Result<Parameters, Fault>)
    ensures r == ParamsOf(args)
  {
    var given: Parameters := map[];
    for i := 0 to |args|
      invariant ParamsOf(args[..i]) == Ok(given)
    {
      assert args[..i + 1][..i] == args[..i];
      var cut := SplitOnce(args[i], '=');
      if cut.None? {
        FaultStays(args, i + 1);
        return Err(NotAParameter(args[i]));
      }
      var (name, value) := cut.value;
      if name == [] {
        FaultStays(args, i + 1);
        return Err(Nameless(args[i]));
      }
      if name in given {
        FaultStays(args, i + 1);
        return Err(Twice(name));
      }
      given := given[name := value];
    }
    assert args[..|args|] == args;
    return Ok(given);
  }

  predicate IsParameter(arg: string) {
    SplitOnce(arg, '=').Some? && SplitOnce(arg, '=').value.0 != []
  }

  function NameOf(arg: string): string
    requires IsParameter(arg)
  {
    SplitOnce(arg, '=').value.0
  }

  function ValueOf(arg: string): string
    requires IsParameter(arg)
  {
    SplitOnce(arg, '=').value.1
  }

  predicate AllParameters(args: seq<string>) {
    forall k :: 0 <= k < |args| ==> IsParameter(args[k])
  }

  /** The names and values the arguments give, in order. */
  function PairsOf(args: seq<string>): (pairs: seq<(string, string)>)
    requires AllParameters(args)
    ensures |pairs| == |args|
    ensures forall k :: 0 <= k < |args| ==> pairs[k] == (NameOf(args[k]), ValueOf(args[k]))
  {
    seq(|args|, k requires 0 <= k < |args| => (NameOf(args[k]), ValueOf(args[k])))
  }

  predicate NamesDiffer(pairs: seq<(string, string)>) {
    forall i, j :: 0 <= i < j < |pairs| ==> pairs[i].0 != pairs[j].0
  }

  predicate HasName(pairs: seq<(string, string)>, name: string) {
    exists k :: 0 <= k < |pairs| && pairs[k].0 == name
  }

  /** The map holds each pair, and no other name. */
  predicate Records(pairs: seq<(string, string)>, given: Parameters) {
    && (forall k :: 0 <= k < |pairs| ==> pairs[k].0 in given && given[pairs[k].0] == pairs[k].1)
    && forall name :: name in given ==> HasName(pairs, name)
  }

  lemma RecordsMore(pairs: seq<(string, string)>, given: Parameters, last: (string, string))
    requires NamesDiffer(pairs) && Records(pairs, given)
    ensures last.0 in given <==> !NamesDiffer(pairs + [last])
    ensures last.0 !in given ==> Records(pairs + [last], given[last.0 := last.1])
  {
    var all := pairs + [last];
    assert all[|pairs|] == last;
    if last.0 in given {
      var k :| 0 <= k < |pairs| && pairs[k].0 == last.0;
      assert all[k].0 == all[|pairs|].0;
    } else {
      forall name | name in given[last.0 := last.1] ensures HasName(all, name) {
        if name != last.0 {
          var k :| 0 <= k < |pairs| && pairs[k].0 == name;
          assert all[k].0 == name;
        }
      }
    }
  }

  /** The arguments a script's parameters can be given by. */
  predicate Acceptable(args: seq<string>) {
    AllParameters(args) && NamesDiffer(PairsOf(args))
  }

  lemma GivenExact(given: Parameters, arg: string)
    ensures Given(given, arg).Ok? <==> IsParameter(arg) && NameOf(arg) !in given
    ensures Given(given, arg).Ok? ==> Given(given, arg).value == given[NameOf(arg) := ValueOf(arg)]
  {
  }

  lemma TakenExact(init: seq<string>, given: Parameters, last: string, r: Result<Parameters, Fault>)
    requires Acceptable(init) && Records(PairsOf(init), given) && r == Given(given, last)
    ensures r.Ok? <==> Acceptable(init + [last])
    ensures r.Ok? ==> Records(PairsOf(init + [last]), r.value)
  {
    GivenExact(given, last);
    assert (init + [last])[|init|] == last;
    if IsParameter(last) {
      RecordsMore(PairsOf(init), given, (NameOf(last), ValueOf(last)));
      assert PairsOf(init + [last]) == PairsOf(init) + [(NameOf(last), ValueOf(last))];
    }
  }

  /** Arguments are taken exactly when every one is `name=value` and no name comes twice; the
      map is then exactly what they give. */
  lemma {:induction false} ParamsExact(args: seq<string>)
    ensures ParamsOf(args).Ok? <==> Acceptable(args)
    ensures ParamsOf(args).Ok? ==> Records(PairsOf(args), ParamsOf(args).value)
  {
    if args != [] {
      var init, last := args[..|args| - 1], args[|args| - 1];
      ParamsExact(init);
      PrefixAcceptable(args);
      assert args == init + [last];
      if ParamsOf(init).Ok? {
        TakenExact(init, ParamsOf(init).value, last, ParamsOf(args));
      }
    }
  }

  lemma PrefixAcceptable(args: seq<string>)
    requires args != []
    ensures AllParameters(args) <==> AllParameters(args[..|args| - 1]) && IsParameter(args[|args| - 1])
    ensures Acceptable(args) ==> Acceptable(args[..|args| - 1])
  {
    var init := args[..|args| - 1];
    assert forall k :: 0 <= k < |init| ==> init[k] == args[k];
    if Acceptable(args) {
      assert PairsOf(init) == PairsOf(args)[..|args| - 1];
    }
  }

  // ----- the command -----

  const COMMAND := "script"

  datatype Invocation = Invocation(iri: string, params: Parameters)

  predicate Blank(c: char) {
    IsWhite(c) || c == '"'
  }

  function InvocationOf(words: seq<string>): Result<Invocation, Fault> {
    if words == [] then Err(Usage)
    else if '=' in words[0] && ':' !in words[0] then Err(ParameterFirst(words[0]))
    else if exists k :: 0 <= k < |words[0]| && Blank(words[0][k]) then Err(NotAnIri(words[0]))
    else
      match ParamsOf(words[1..])
      case Err(e) => Err(e)
      case Ok(given) => Ok(Invocation(words[0], given))
  }

  /** `invocation`. */
  function Invoked(rest: string): Result<Invocation, Fault> {
    match Outside(rest, None)
    case Err(e) => Err(e)
    case Ok(words) => InvocationOf(words)
  }

  /** `command`: `None` for any line that is not the `script` command. */
  function Command(line: string): Option<Result<Invocation, Fault>> {
    var line := Trim(line);
    match SplitWhite(line)
    case Some(cut) => if cut.0 == COMMAND then Some(Invoked(cut.1)) else None
    case None => if line == COMMAND then Some(Invoked([])) else None
  }

  lemma {:induction false} PrintEnds(words: seq<string>)
    requires words != []
    ensures Print(words) != [] && Print(words)[|Print(words)| - 1] == '"'
  {
    if |words| > 1 {
      PrintEnds(words[1..]);
    }
  }

  lemma CommandLine(rest: string)
    requires rest != [] && !IsWhite(rest[|rest| - 1])
    ensures Command(COMMAND + [' '] + rest) == Some(Invoked(rest))
  {
    TrimKeeps(COMMAND + [' '] + rest);
    SplitWhiteUnique(COMMAND, ' ', rest);
  }

  /** What a caller can name: an IRI with no blank or quote in it, and no lone parameter. */
  predicate Named(iri: string) {
    && ('=' in iri ==> ':' in iri)
    && forall k :: 0 <= k < |iri| ==> !Blank(iri[k])
  }

  /** A printed invocation is read back exactly: it is accepted when, and only when, its IRI can
      be named and its arguments can be taken, and then carries that IRI and those parameters. */
  lemma CommandReadsBack(iri: string, args: seq<string>)
    ensures var read := Command(COMMAND + [' '] + Print([iri] + args));
      && read.Some?
      && (read.value.Ok? <==> Named(iri) && Acceptable(args))
      && (read.value.Ok? ==> read.value.value.iri == iri && Records(PairsOf(args), read.value.value.params))
  {
    var words := [iri] + args;
    PrintEnds(words);
    CommandLine(Print(words));
    WordsReadBack(words);
    assert words[0] == iri && words[1..] == args;
    ParamsExact(args);
  }

  /** A name a parameter can be given by. */
  predicate Nameable(name: string) {
    name != [] && '=' !in name
  }

  /** A map's names, each once, in some order. */
  ghost predicate NamesOf(names: seq<string>, m: Parameters) {
    && (forall i, j :: 0 <= i < j < |names| ==> names[i] != names[j])
    && forall name :: name in names <==> name in m
  }

  /** The arguments that give a map, `name=value` each. */
  function Arguments(names: seq<string>, m: Parameters): seq<string>
    requires forall name :: name in names ==> name in m
  {
    seq(|names|, k requires 0 <= k < |names| => names[k] + ['='] + m[names[k]])
  }

  lemma ArgumentReads(name: string, value: string)
    requires Nameable(name)
    ensures IsParameter(name + ['='] + value)
    ensures NameOf(name + ['='] + value) == name && ValueOf(name + ['='] + value) == value
  {
    SplitOnceUnique(name, '=', value);
  }

  /** Arguments made from nameable names give back the map. */
  lemma ArgumentsGiveMap(names: seq<string>, m: Parameters)
    requires NamesOf(names, m) && forall k :: 0 <= k < |names| ==> Nameable(names[k])
    ensures Acceptable(Arguments(names, m))
    ensures forall given :: Records(PairsOf(Arguments(names, m)), given) ==> given == m
  {
    var args := Arguments(names, m);
    forall k | 0 <= k < |args|
      ensures IsParameter(args[k]) && NameOf(args[k]) == names[k] && ValueOf(args[k]) == m[names[k]]
    {
      ArgumentReads(names[k], m[names[k]]);
    }
    forall given | Records(PairsOf(args), given) ensures given == m {
      RecordedMap(names, m, PairsOf(args), given);
    }
  }

  lemma RecordedMap(names: seq<string>, m: Parameters, pairs: seq<(string, string)>, given: Parameters)
    requires NamesOf(names, m) && |pairs| == |names|
    requires forall k :: 0 <= k < |names| ==> pairs[k] == (names[k], m[names[k]])
    requires Records(pairs, given)
    ensures given == m
  {
    forall name | name in m ensures name in given && given[name] == m[name] {
      var k :| 0 <= k < |names| && names[k] == name;
      assert pairs[k].0 == name;
    }
    forall name | name in given ensures name in m {
      var k :| 0 <= k < |pairs| && pairs[k].0 == name;
      assert names[k] in names;
    }
    assert given.Keys == m.Keys;
  }

  /** A map some of whose names hold `=`, or are empty, is not what its arguments give. */
  lemma UnnameableIsLost(names: seq<string>, m: Parameters)
    requires NamesOf(names, m) && Acceptable(Arguments(names, m)) && Records(PairsOf(Arguments(names, m)), m)
    ensures forall k :: 0 <= k < |names| ==> Nameable(names[k])
  {
    var args := Arguments(names, m);
    var pairs := PairsOf(args);
    forall k | 0 <= k < |names| && Nameable(names[k]) ensures pairs[k].0 == names[k] {
      ArgumentReads(names[k], m[names[k]]);
    }
    forall k | 0 <= k < |names| ensures Nameable(names[k]) {
      assert IsParameter(args[k]);
      var short := NameOf(args[k]);
      assert Nameable(short) && pairs[k].0 == short && short in m;
      var j :| 0 <= j < |names| && names[j] == short;
      assert pairs[j].0 == short && j == k;
    }
  }

  /** Any nameable IRI with any parameter map, its names in any order, is read back as that IRI
      and that map; if and only if every name can be given. */
  lemma InvocationReadsBack(iri: string, m: Parameters, names: seq<string>)
    requires NamesOf(names, m)
    ensures Command(COMMAND + [' '] + Print([iri] + Arguments(names, m))) == Some(Ok(Invocation(iri, m)))
      <==> Named(iri) && forall name :: name in m ==> Nameable(name)
  {
    var args := Arguments(names, m);
    CommandReadsBack(iri, args);
    var read := Command(COMMAND + [' '] + Print([iri] + args));
    assert forall k :: 0 <= k < |names| ==> names[k] in m;
    if Named(iri) && forall name :: name in m ==> Nameable(name) {
      ArgumentsGiveMap(names, m);
      assert read.value.value.params == m;
    }
    if read == Some(Ok(Invocation(iri, m))) {
      UnnameableIsLost(names, m);
      assert forall name :: name in m ==> name in names;
    }
  }

  // ----- what is refused, on the texts -----

  /** Inside quotes only a quote and a backslash are escaped; a backslash before anything else is
      kept with it. */
  lemma OtherEscapesStay(c: char, rest: string, begun: string)
    requires c != '"' && c != '\\'
    ensures Inside(['\\', c] + rest, begun) == Inside(rest, begun + ['\\', c])
  {
    assert (['\\', c] + rest)[2..] == rest;
  }

  /** A quote that is not closed is refused, and so is one that ends in a lone backslash. */
  lemma {:induction false} QuotesMustClose(w: string, begun: string)
    ensures Inside(Escape(w), begun) == Err(OpenQuote)
    ensures Inside(Escape(w) + ['\\'], begun) == Err(OpenEscape)
  {
    var s := Escape(w);
    if w == [] {
      assert s + ['\\'] == ['\\'];
    } else {
      var more := Escape(w[1..]);
      QuotesMustClose(w[1..], begun + [w[0]]);
      if w[0] == '"' || w[0] == '\\' {
        assert s == ['\\', w[0]] + more && s[2..] == more;
        assert (s + ['\\'])[2..] == more + ['\\'];
      } else {
        assert s == [w[0]] + more && s[1..] == more;
        assert (s + ['\\'])[1..] == more + ['\\'];
      }
    }
  }

  /** A line is taken for the command exactly when its first word is `script`. */
  lemma OnlyScriptIsTaken(before: string, word: string, rest: string, after: string)
    requires AllWhite(before) && AllWhite(after)
    requires Inky(word) && (rest == [] || (IsWhite(rest[0]) && !IsWhite(rest[|rest| - 1])))
    ensures Command(before + (word + rest) + after).Some? <==> word == "script"
  {
    var line := word + rest;
    assert Tidy(line);
    TrimDrops(before, line, after);
    if rest == [] {
      assert line == word && FindWhite(word) == |word|;
    } else {
      assert line == word + [rest[0]] + rest[1..];
      SplitWhiteUnique(word, rest[0], rest[1..]);
    }
  }

  lemma BlankIsNoCommand(blank: string)
    requires AllWhite(blank)
    ensures Command(blank).None?
  {
    TrimBlank(blank);
  }
}
