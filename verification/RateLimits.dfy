/** The HTTP door's rate rules (`rate_limits.rs`): the defaults, overridden by what the config
    home says. */
module RateLimits {
  import opened Strings
  import opened Numbers
  import opened Utf8

  /** At most `max` requests in `secs` seconds. */
  datatype Rate = Rate(max: nat, secs: nat)

  /** A line of the config home. */
  datatype Entry = Entry(key: string, value: string)

  datatype Setting = Rule(prefix: string, rate: Option<Rate>) | Sources(n: nat)

  datatype Fault =
    | NotARule(value: string)
    | NotWhole(value: string)
    | Zero(value: string)
    | TooLarge(value: string)
    | TooMany(max: nat)
    | NamedTwice(prefix: string)
    | SourcesTwice
    | UnknownKey(key: string)

  const RULE_KEY := "http.rate_limit"
  const SOURCES_KEY := "http.rate_limit_sources"
  const DEFAULT_MAX_SOURCES: nat := 4096

  const CONTACT := "urn:contact:submit"
  const BOOKING := "urn:booking:submit"
  const PASSKEY := "urn:passkey:challenge"

  // ----- one line -----

  function Unscored(value: string): (digits: string)
    ensures '_' !in digits
  {
    if value == [] then []
    else if value[0] == '_' then Unscored(value[1..])
    else [value[0]] + Unscored(value[1..])
  }

  /** `whole_number`. */
  function WholeNumber(value: string): (r: Result<nat, Fault>)
    ensures r.Ok? ==> 1 <= r.value <= U64_MAX
  {
    var digits := Unscored(value);
    if digits == [] || !Every(digits, IsDigit) then Err(NotWhole(value))
    else if DigitsValue(digits) > U64_MAX then Err(TooLarge(value))
    else if DigitsValue(digits) == 0 then Err(Zero(value))
    else Ok(DigitsValue(digits))
  }

  /** `str::split_whitespace`. */
  function SpaceWords(s: string): seq<string>
    decreases |s|
  {
    if s == [] then []
    else if IsWhite(s[0]) then SpaceWords(s[1..])
    else [s[..FindWhite(s)]] + SpaceWords(s[FindWhite(s)..])
  }

  function ReadRate(value: string, rate: string): (r: Result<Rate, Fault>)
    ensures r.Ok? ==> 1 <= r.value.max <= U32_MAX && 1 <= r.value.secs <= U64_MAX
  {
    match SplitOnce(rate, '/')
    case None => Err(NotARule(value))
    case Some(cut) =>
      match WholeNumber(cut.0)
      case Err(e) => Err(e)
      case Ok(max) =>
        if max > U32_MAX then Err(TooMany(max)) else
          match WholeNumber(cut.1)
          case Err(e) => Err(e)
          case Ok(secs) => Ok(Rate(max, secs))
  }

  /** `parse_rule`. */
  function ParseRule(value: string): (r: Result<(string, Option<Rate>), Fault>)
    ensures r.Ok? && r.value.1.Some? ==>
      1 <= r.value.1.value.max <= U32_MAX && 1 <= r.value.1.value.secs <= U64_MAX
  {
    var words := SpaceWords(value);
    if |words| != 2 || ':' !in words[0] then Err(NotARule(value))
    else if words[1] == "off" then Ok((words[0], None))
    else
      match ReadRate(value, words[1])
      case Err(e) => Err(e)
      case Ok(rate) => Ok((words[0], Some(rate)))
  }

  function Read(e: Entry): Result<Setting, Fault> {
    if e.key == RULE_KEY then
      (match ParseRule(e.value)
       case Err(f) => Err(f)
       case Ok(rule) => Ok(Rule(rule.0, rule.1)))
    else if e.key == SOURCES_KEY then
      (match WholeNumber(e.value)
       case Err(f) => Err(f)
       case Ok(n) => Ok(Sources(n)))
    else Err(UnknownKey(e.key))
  }

  // ----- a rule as it is written -----

  lemma {:induction false} DigitsAreUnscored(digits: string)
    requires Every(digits, IsDigit)
    ensures Unscored(digits) == digits
  {
    if digits != [] {
      assert IsDigit(digits[0]) && Every(digits[1..], IsDigit);
      DigitsAreUnscored(digits[1..]);
    }
  }

  lemma WholeReadsBack(n: nat)
    requires 1 <= n <= U64_MAX
    ensures WholeNumber(Decimal(n)) == Ok(n)
  {
    DigitsAreUnscored(Decimal(n));
    DecimalValue(n);
  }

  lemma OneWord(s: string)
    requires Inky(s)
    ensures SpaceWords(s) == [s]
  {
    assert s[..FindWhite(s)] == s;
  }

  lemma TwoWords(a: string, c: char, b: string)
    requires Inky(a) && IsWhite(c) && Inky(b)
    ensures SpaceWords(a + [c] + b) == [a, b]
  {
    var s := a + [c] + b;
    FindWhiteUnique(a, c, b);
    assert s[0] == a[0];
    assert s[..|a|] == a && s[|a|..] == [c] + b;
    assert ([c] + b)[1..] == b;
    OneWord(b);
  }

  function RateText(rate: Option<Rate>): string {
    match rate
    case None => "off"
    case Some(r) => Decimal(r.max) + ['/'] + Decimal(r.secs)
  }

  predicate Sayable(rate: Option<Rate>) {
    rate.Some? ==> 1 <= rate.value.max <= U32_MAX && 1 <= rate.value.secs <= U64_MAX
  }

  /** Every prefix with a colon and every rate within the widths can be written, and is read back
      exactly; and nothing else is ever read. */
  lemma RuleReadsBack(prefix: string, c: char, rate: Option<Rate>)
    requires Inky(prefix) && IsWhite(c) && Sayable(rate)
    ensures ParseRule(prefix + [c] + RateText(rate)).Ok? <==> ':' in prefix
    ensures ':' in prefix ==> ParseRule(prefix + [c] + RateText(rate)) == Ok((prefix, rate))
  {
    var text := RateText(rate);
    RateIsInky(rate);
    TwoWords(prefix, c, text);
    if rate.Some? {
      RateReadsBack(rate.value);
    }
    TwoWordsParse(prefix + [c] + text, prefix, text, rate);
  }

  lemma TwoWordsParse(value: string, prefix: string, text: string, rate: Option<Rate>)
    requires SpaceWords(value) == [prefix, text]
    requires if rate.None? then text == "off" else text != "off" && ReadRate(value, text) == Ok(rate.value)
    ensures ParseRule(value) == if ':' in prefix then Ok((prefix, rate)) else Err(NotARule(value))
  {
  }

  lemma RateIsInky(rate: Option<Rate>)
    requires Sayable(rate)
    ensures Inky(RateText(rate))
  {
    if rate.Some? {
      var (a, b) := (Decimal(rate.value.max), Decimal(rate.value.secs));
      forall k | 0 <= k < |a + ['/'] + b| ensures !IsWhite((a + ['/'] + b)[k]) {
        if k < |a| {
          assert IsDigit(a[k]);
        } else if k > |a| {
          assert IsDigit(b[k - |a| - 1]);
        }
      }
    } else {
      assert forall k :: 0 <= k < 3 ==> "off"[k] in ['o', 'f'];
    }
  }

  lemma RateReadsBack(rate: Rate)
    requires Sayable(Some(rate))
    ensures RateText(Some(rate)) != "off"
    ensures forall value :: ReadRate(value, RateText(Some(rate))) == Ok(rate)
  {
    var text := RateText(Some(rate));
    var a := Decimal(rate.max);
    assert text[0] == a[0] && IsDigit(a[0]);
    assert forall k :: 0 <= k < |a| ==> IsDigit(a[k]);
    SplitOnceUnique(a, '/', Decimal(rate.secs));
    WholeReadsBack(rate.max);
    WholeReadsBack(rate.secs);
  }

  // ----- what else a line can be -----

  lemma {:induction false} UnscoredJoins(a: string, b: string)
    ensures Unscored(a + b) == Unscored(a) + Unscored(b)
  {
    if a == [] {
      assert a + b == b;
    } else {
      assert (a + b)[1..] == a[1..] + b;
      UnscoredJoins(a[1..], b);
    }
  }

  /** An underscore in a number, anywhere in it, changes nothing. */
  lemma SeparatorsAreNothing(a: string, b: string)
    ensures WholeNumber(a + ['_'] + b).Ok? <==> WholeNumber(a + b).Ok?
    ensures WholeNumber(a + b).Ok? ==> WholeNumber(a + ['_'] + b).value == WholeNumber(a + b).value
  {
    UnscoredJoins(a, b);
    UnscoredJoins(a + ['_'], b);
    UnscoredJoins(a, ['_']);
    assert ['_'][1..] == [] && Unscored(['_']) == Unscored([]);
    assert Unscored(a) + [] == Unscored(a);
    assert Unscored(a + ['_'] + b) == Unscored(a + b);
  }

  lemma {:induction false} UnscoredHas(value: string, c: char)
    ensures c in Unscored(value) <==> c in value && c != '_'
  {
    if value != [] {
      UnscoredHas(value[1..], c);
    }
  }

  /** Whatever has any other character is no number; nor are underscores alone. */
  lemma OnlyDigitsCount(value: string)
    ensures WholeNumber(value) == Err(NotWhole(value))
      <==> (forall c :: c in value ==> c == '_') || exists c :: c in value && c != '_' && !('0' <= c <= '9')
  {
    var digits := Unscored(value);
    forall c ensures c in digits <==> c in value && c != '_' {
      UnscoredHas(value, c);
    }
    if digits != [] {
      assert digits[0] in digits;
    }
    if !Every(digits, IsDigit) {
      var k :| 0 <= k < |digits| && !IsDigit(digits[k]);
      assert digits[k] in digits;
    }
  }

  lemma {:induction false} GapIsNoWord(gap: string, rest: string)
    requires AllWhite(gap)
    ensures SpaceWords(gap + rest) == SpaceWords(rest)
  {
    if gap == [] {
      assert gap + rest == rest;
    } else {
      assert gap[0] in gap && (gap + rest)[1..] == gap[1..] + rest;
      assert forall c :: c in gap[1..] ==> c in gap;
      GapIsNoWord(gap[1..], rest);
    }
  }

  lemma WordThenGap(w: string, gap: string, rest: string)
    requires Inky(w) && AllWhite(gap) && (gap != [] || rest == [])
    ensures SpaceWords(w + (gap + rest)) == [w] + SpaceWords(rest)
  {
    if gap == [] {
      assert w + (gap + rest) == w;
      OneWord(w);
    } else {
      var s := w + (gap + rest);
      assert gap[0] in gap && s == w + [gap[0]] + (gap[1..] + rest);
      FindWhiteUnique(w, gap[0], gap[1..] + rest);
      assert s[0] == w[0] && s[..|w|] == w && s[|w|..] == gap + rest;
      GapIsNoWord(gap, rest);
    }
  }

  /** A rule reads the same whatever whitespace is around and between its two words. */
  lemma SpacesAreNothing(before: string, prefix: string, gap: string, rate: string, after: string)
    requires AllWhite(before) && AllWhite(gap) && gap != [] && AllWhite(after) && Inky(prefix) && Inky(rate)
    ensures SpaceWords(before + (prefix + (gap + (rate + after)))) == [prefix, rate]
  {
    GapIsNoWord(before, prefix + (gap + (rate + after)));
    WordThenGap(prefix, gap, rate + after);
    assert after + [] == after;
    WordThenGap(rate, after, []);
  }

  /** Two words are needed, the first with a colon; any other number of them is no rule. */
  lemma RuleIsTwoWords(value: string)
    requires |SpaceWords(value)| != 2 || ':' !in SpaceWords(value)[0]
    ensures ParseRule(value) == Err(NotARule(value))
  {
  }

  /** The keys that are known. */
  lemma KeysAre(value: string, key: string)
    ensures Read(Entry("http.rate_limit", value)).Ok? <==> ParseRule(value).Ok?
    ensures ParseRule(value).Ok? ==>
      Read(Entry("http.rate_limit", value)) == Ok(Rule(ParseRule(value).value.0, ParseRule(value).value.1))
    ensures Read(Entry("http.rate_limit_sources", value)).Ok? <==> WholeNumber(value).Ok?
    ensures WholeNumber(value).Ok? ==>
      Read(Entry("http.rate_limit_sources", value)) == Ok(Sources(WholeNumber(value).value))
    ensures key != "http.rate_limit" && key != "http.rate_limit_sources" ==>
      Read(Entry(key, value)) == Err(UnknownKey(key))
  {
    assert |RULE_KEY| != |SOURCES_KEY|;
  }

  // ----- the whole configuration -----

  type Table = map<string, Option<Rate>>

  function Defaults(): Table {
    map[CONTACT := Some(Rate(10, 3600)), BOOKING := Some(Rate(10, 3600)), PASSKEY := Some(Rate(30, 120))]
  }

  /** A line as it was read. */
  type Line = Result<Setting, Fault>

  function Each<A, B>(f: A -> B, items: seq<A>): seq<B> {
    seq(|items|, i requires 0 <= i < |items| => f(items[i]))
  }

  function LinesOf(entries: seq<Entry>): seq<Line> {
    Each(Read, entries)
  }

  /** Two lines that cannot both be given. */
  predicate Clash(a: Line, b: Line) {
    a.Ok? && b.Ok? &&
    ((a.value.Rule? && b.value.Rule? && a.value.prefix == b.value.prefix) || (a.value.Sources? && b.value.Sources?))
  }

  /** Every line reads, no prefix is named twice, and the table's size is set at most once. */
  predicate Acceptable(lines: seq<Line>) {
    && (forall k :: 0 <= k < |lines| ==> lines[k].Ok?)
    && (forall j, k :: 0 <= j < k < |lines| ==> !Clash(lines[j], lines[k]))
  }

  /** What the lines say of each prefix. */
  function Asked(lines: seq<Line>): Table {
    if lines == [] then map[] else
      var before := Asked(lines[..|lines| - 1]);
      match lines[|lines| - 1]
      case Ok(Rule(prefix, rate)) => before[prefix := rate]
      case _ => before
  }

  function MaxSources(lines: seq<Line>): nat {
    if lines == [] then DEFAULT_MAX_SOURCES else
      match lines[|lines| - 1]
      case Ok(Sources(n)) => n
      case _ => MaxSources(lines[..|lines| - 1])
  }

  function On(table: Table): map<string, Rate> {
    map p | p in table && table[p].Some? :: table[p].value
  }

  /** The rules that are not off, after the lines have overridden the defaults. */
  function Effective(lines: seq<Line>): map<string, Rate> {
    On(Defaults() + Asked(lines))
  }

  /** The lines' own table is exactly what they say. */
  lemma {:induction false} AskedSays(lines: seq<Line>, prefix: string, rate: Option<Rate>)
    requires Acceptable(lines)
    ensures prefix in Asked(lines) && Asked(lines)[prefix] == rate <==> Ok(Rule(prefix, rate)) in lines
  {
    if lines != [] {
      var n := |lines| - 1;
      AskedSays(lines[..n], prefix, rate);
      InLast(lines, Ok(Rule(prefix, rate)));
      if Ok(Rule(prefix, rate)) in lines[..n] {
        EarlierDiffers(lines, Ok(Rule(prefix, rate)));
      }
    }
  }

  lemma InLast(lines: seq<Line>, line: Line)
    requires lines != []
    ensures line in lines <==> line in lines[..|lines| - 1] || line == lines[|lines| - 1]
  {
    assert lines == lines[..|lines| - 1] + [lines[|lines| - 1]];
  }

  lemma EarlierDiffers(lines: seq<Line>, line: Line)
    requires Acceptable(lines) && lines != [] && line in lines[..|lines| - 1]
    ensures !Clash(line, lines[|lines| - 1])
  {
    var before := lines[..|lines| - 1];
    var k :| 0 <= k < |before| && before[k] == line;
    assert !Clash(lines[k], lines[|lines| - 1]);
  }

  lemma {:induction false} MaxSourcesSays(lines: seq<Line>, n: nat)
    requires Acceptable(lines)
    ensures MaxSources(lines) == n
      <==> Ok(Sources(n)) in lines || (n == DEFAULT_MAX_SOURCES && forall m :: Ok(Sources(m)) !in lines)
  {
    if lines != [] {
      var last := |lines| - 1;
      var before := lines[..last];
      MaxSourcesSays(before, n);
      assert lines == before + [lines[last]];
      if lines[last].value.Sources? {
        assert forall k :: 0 <= k < last ==> !Clash(lines[k], lines[last]);
      } else {
        assert forall m :: Ok(Sources(m)) in lines <==> Ok(Sources(m)) in before;
      }
    }
  }

  /** A rule is in force exactly when a line gives it, or it is a default no line names. */
  lemma EffectiveSays(lines: seq<Line>, prefix: string, rate: Rate)
    requires Acceptable(lines)
    ensures prefix in Effective(lines) && Effective(lines)[prefix] == rate
      <==> || Ok(Rule(prefix, Some(rate))) in lines
           || ((forall any :: Ok(Rule(prefix, any)) !in lines)
               && prefix in Defaults() && Defaults()[prefix] == Some(rate))
  {
    AskedSays(lines, prefix, Some(rate));
    if prefix in Asked(lines) {
      AskedSays(lines, prefix, Asked(lines)[prefix]);
    }
    forall any ensures Ok(Rule(prefix, any)) in lines ==> prefix in Asked(lines) {
      AskedSays(lines, prefix, any);
    }
  }

  /** What holds when the config home says nothing. */
  lemma DefaultsAre()
    ensures Effective([]) == map["urn:contact:submit" := Rate(10, 3600), "urn:booking:submit" := Rate(10, 3600),
                                 "urn:passkey:challenge" := Rate(30, 120)]
    ensures MaxSources([]) == 4096
  {
    assert Defaults() + map[] == Defaults();
  }

  // ----- the order of the lines does not matter -----

  lemma {:induction false} EachBag<A, B>(f: A -> B, a: seq<A>, b: seq<A>)
    requires multiset(a) == multiset(b)
    ensures multiset(Each(f, a)) == multiset(Each(f, b))
  {
    if a == [] {
      assert |multiset(b)| == 0;
    } else {
      assert a[0] in multiset(b);
      var k :| 0 <= k < |b| && b[k] == a[0];
      RestBag(a, b, k);
      EachBag(f, a[1..], b[..k] + b[k + 1..]);
      EachWithout(f, a, 0);
      EachWithout(f, b, k);
      assert a[..0] + a[0 + 1..] == a[1..];
      WholeBag(Each(f, a), Each(f, b), k);
    }
  }

  lemma RestBag<A>(a: seq<A>, b: seq<A>, k: nat)
    requires a != [] && k < |b| && a[0] == b[k] && multiset(a) == multiset(b)
    ensures multiset(a[1..]) == multiset(b[..k] + b[k + 1..])
  {
    BagWithout(a, 0);
    BagWithout(b, k);
    assert a[..0] + a[0 + 1..] == a[1..];
    SameRest(multiset(a[1..]), multiset(b[..k] + b[k + 1..]), a[0]);
  }

  lemma WholeBag<A>(a: seq<A>, b: seq<A>, k: nat)
    requires a != [] && k < |b| && a[0] == b[k]
    requires multiset(a[..0] + a[0 + 1..]) == multiset(b[..k] + b[k + 1..])
    ensures multiset(a) == multiset(b)
  {
    BagWithout(a, 0);
    BagWithout(b, k);
  }

  lemma SameRest<A>(x: multiset<A>, y: multiset<A>, e: A)
    requires x + multiset{e} == y + multiset{e}
    ensures x == y
  {
    assert x + multiset{e} - multiset{e} == x && y + multiset{e} - multiset{e} == y;
  }

  lemma BagWithout<A>(s: seq<A>, k: nat)
    requires k < |s|
    ensures multiset(s) == multiset(s[..k] + s[k + 1..]) + multiset{s[k]}
  {
    assert s == s[..k] + [s[k]] + s[k + 1..];
  }

  lemma EachWithout<A, B>(f: A -> B, s: seq<A>, k: nat)
    requires k < |s|
    ensures Each(f, s[..k] + s[k + 1..]) == Each(f, s)[..k] + Each(f, s)[k + 1..]
  {
  }

  /** What makes lines acceptable, without their order. */
  predicate AcceptableBag(bag: multiset<Line>) {
    && (forall e :: e in bag ==> e.Ok? && bag[e] == 1)
    && (forall a, b :: a in bag && b in bag && a != b ==> !Clash(a, b))
  }

  lemma BagDecides(lines: seq<Line>)
    ensures Acceptable(lines) <==> AcceptableBag(multiset(lines))
  {
    if Acceptable(lines) {
      AcceptableMakesBag(lines);
    }
    if AcceptableBag(multiset(lines)) {
      BagMakesAcceptable(lines);
    }
  }

  lemma AcceptableMakesBag(lines: seq<Line>)
    requires Acceptable(lines)
    ensures AcceptableBag(multiset(lines))
  {
    var bag := multiset(lines);
    forall e | e in bag ensures e.Ok? && bag[e] == 1 {
      assert e in lines;
      OnceInBag(lines, e);
    }
    forall a, b | a in bag && b in bag && a != b ensures !Clash(a, b) {
      assert a in lines && b in lines;
      var j :| 0 <= j < |lines| && lines[j] == a;
      var k :| 0 <= k < |lines| && lines[k] == b;
      assert if j < k then !Clash(lines[j], lines[k]) else !Clash(lines[k], lines[j]);
    }
  }

  lemma BagMakesAcceptable(lines: seq<Line>)
    requires AcceptableBag(multiset(lines))
    ensures Acceptable(lines)
  {
    forall k | 0 <= k < |lines| ensures lines[k].Ok? {
      assert lines[k] in multiset(lines);
    }
    forall j, k | 0 <= j < k < |lines| ensures !Clash(lines[j], lines[k]) {
      assert lines[j] in multiset(lines) && lines[k] in multiset(lines);
      if lines[j] == lines[k] {
        TwoPlaces(lines, j, k);
      }
    }
  }

  lemma TwoPlaces(lines: seq<Line>, j: nat, k: nat)
    requires j < k < |lines| && lines[j] == lines[k]
    ensures multiset(lines)[lines[j]] >= 2
  {
    assert lines == lines[..k] + [lines[k]] + lines[k + 1..];
    assert lines[j] == lines[..k][j];
    assert lines[j] in multiset(lines[..k]);
  }

  lemma {:induction false} OnceInBag(lines: seq<Line>, e: Line)
    requires Acceptable(lines)
    ensures multiset(lines)[e] <= 1
  {
    if lines != [] {
      var n := |lines| - 1;
      var before := lines[..n];
      assert lines == before + [lines[n]];
      OnceInBag(before, e);
      if lines[n] == e {
        forall k | 0 <= k < n ensures before[k] != e {
          assert !Clash(lines[k], lines[n]);
        }
        assert e !in before;
      }
    }
  }

  /** Any permutation of the lines is accepted or refused alike, and makes the same rules and the
      same table size. */
  lemma OrderIsNothing(a: seq<Entry>, b: seq<Entry>)
    requires multiset(a) == multiset(b)
    ensures Acceptable(LinesOf(a)) <==> Acceptable(LinesOf(b))
    ensures Acceptable(LinesOf(a)) ==>
      Effective(LinesOf(a)) == Effective(LinesOf(b)) && MaxSources(LinesOf(a)) == MaxSources(LinesOf(b))
  {
    EachBag(Read, a, b);
    BagDecides(LinesOf(a));
    BagDecides(LinesOf(b));
    if Acceptable(LinesOf(a)) {
      SameBagSameRules(LinesOf(a), LinesOf(b));
    }
  }

  lemma SameBagSameRules(a: seq<Line>, b: seq<Line>)
    requires Acceptable(a) && Acceptable(b) && multiset(a) == multiset(b)
    ensures Asked(a) == Asked(b) && MaxSources(a) == MaxSources(b)
  {
    assert forall e :: e in a ==> e in multiset(a);
    assert forall e :: e in b ==> e in multiset(b);
    TableWithin(a, b);
    TableWithin(b, a);
    SourcesWithin(a, b);
  }

  lemma TableWithin(a: seq<Line>, b: seq<Line>)
    requires Acceptable(a) && Acceptable(b) && forall e :: e in a ==> e in b
    ensures forall p :: p in Asked(a) ==> p in Asked(b) && Asked(b)[p] == Asked(a)[p]
  {
    forall p | p in Asked(a) ensures p in Asked(b) && Asked(b)[p] == Asked(a)[p] {
      AskedSays(a, p, Asked(a)[p]);
      AskedSays(b, p, Asked(a)[p]);
    }
  }

  lemma SourcesWithin(a: seq<Line>, b: seq<Line>)
    requires Acceptable(a) && Acceptable(b)
    requires forall e :: e in a <==> e in b
    ensures MaxSources(a) == MaxSources(b)
  {
    MaxSourcesSays(a, MaxSources(a));
    MaxSourcesSays(b, MaxSources(a));
  }

  // ----- the loop -----

  datatype Limits = Limits(rules: seq<(string, Rate)>, maxSources: nat)

  /** A list that holds a table: each of its entries once, and nothing else. */
  ghost predicate Tabulates<V(!new)>(rules: seq<(string, V)>, table: map<string, V>) {
    && (forall j, k :: 0 <= j < k < |rules| ==> rules[j].0 != rules[k].0)
    && (forall r :: r in rules <==> r.0 in table && table[r.0] == r.1)
  }

  function SlotOf(rules: seq<(string, Option<Rate>)>, prefix: string): (slot: nat)
    ensures slot <= |rules|
    ensures forall k :: 0 <= k < slot ==> rules[k].0 != prefix
    ensures slot < |rules| ==> rules[slot].0 == prefix
  {
    if rules == [] || rules[0].0 == prefix then 0 else 1 + SlotOf(rules[1..], prefix)
  }

  lemma TabulatesSet<V(!new)>(rules: seq<(string, V)>, table: map<string, V>, k: nat, v: V)
    requires Tabulates(rules, table) && k < |rules|
    ensures Tabulates(rules[k := (rules[k].0, v)], table[rules[k].0 := v])
  {
    var p := rules[k].0;
    var next := rules[k := (p, v)];
    forall r ensures r in next <==> r.0 in table[p := v] && table[p := v][r.0] == r.1 {
      assert next[k] == (p, v);
      if r.0 != p && r in rules {
        var j :| 0 <= j < |rules| && rules[j] == r;
        assert next[j] == r;
      }
      if r.0 != p && r in next {
        var j :| 0 <= j < |next| && next[j] == r;
        assert rules[j] == r;
      }
    }
  }

  lemma TabulatesPush<V(!new)>(rules: seq<(string, V)>, table: map<string, V>, p: string, v: V)
    requires Tabulates(rules, table) && forall k :: 0 <= k < |rules| ==> rules[k].0 != p
    ensures Tabulates(rules + [(p, v)], table[p := v])
  {
    assert p in table ==> (p, table[p]) in rules;
    var next := rules + [(p, v)];
    forall r ensures r in next <==> r.0 in table[p := v] && table[p := v][r.0] == r.1 {
      assert r in next <==> r in rules || r == (p, v);
    }
  }

  /** The rules that are not off, in the list's order. */
  function Kept(rules: seq<(string, Option<Rate>)>): seq<(string, Rate)> {
    if rules == [] then [] else
      var last := rules[|rules| - 1];
      Kept(rules[..|rules| - 1]) + if last.1.Some? then [(last.0, last.1.value)] else []
  }

  lemma {:induction false} KeptHas(rules: seq<(string, Option<Rate>)>, p: string, rate: Rate)
    ensures (p, rate) in Kept(rules) <==> (p, Some(rate)) in rules
  {
    if rules != [] {
      var n := |rules| - 1;
      KeptHas(rules[..n], p, rate);
      assert rules == rules[..n] + [rules[n]];
    }
  }

  lemma {:induction false} KeptIsDistinct(rules: seq<(string, Option<Rate>)>)
    requires forall j, k :: 0 <= j < k < |rules| ==> rules[j].0 != rules[k].0
    ensures forall j, k :: 0 <= j < k < |Kept(rules)| ==> Kept(rules)[j].0 != Kept(rules)[k].0
  {
    if rules != [] {
      var n := |rules| - 1;
      var before := Kept(rules[..n]);
      KeptIsDistinct(rules[..n]);
      forall j | 0 <= j < |before| ensures before[j].0 != rules[n].0 {
        KeptHas(rules[..n], before[j].0, before[j].1);
      }
    }
  }

  lemma KeptTabulates(rules: seq<(string, Option<Rate>)>, table: Table)
    requires Tabulates(rules, table)
    ensures Tabulates(Kept(rules), On(table))
  {
    KeptIsDistinct(rules);
    forall r: (string, Rate) ensures r in Kept(rules) <==> r.0 in On(table) && On(table)[r.0] == r.1 {
      KeptHas(rules, r.0, r.1);
      assert (r.0, Some(r.1)) in rules <==> r.0 in table && table[r.0] == Some(r.1);
    }
  }

  predicate SourcesSet(lines: seq<Line>) {
    exists k :: 0 <= k < |lines| && lines[k].Ok? && lines[k].value.Sources?
  }

  /** What the loop holds after these lines. */
  ghost predicate Held(lines: seq<Line>, rules: seq<(string, Option<Rate>)>, named: seq<string>, sources: nat,
                       seen: bool)
  {
    && Acceptable(lines)
    && Tabulates(rules, Defaults() + Asked(lines))
    && (forall p :: p in named <==> p in Asked(lines))
    && sources == MaxSources(lines)
    && (seen <==> SourcesSet(lines))
  }

  lemma AcceptableNext(lines: seq<Line>, line: Line)
    requires Acceptable(lines)
    ensures Acceptable(lines + [line])
      <==> line.Ok? && (line.value.Rule? ==> line.value.prefix !in Asked(lines))
           && (line.value.Sources? ==> !SourcesSet(lines))
  {
    var next := lines + [line];
    if line.Ok? && line.value.Rule? {
      RuleClashes(lines, line);
    }
    assert forall j :: 0 <= j < |lines| ==> next[j] == lines[j];
    assert next[|lines|] == line;
    if Acceptable(next) {
      assert forall j :: 0 <= j < |lines| ==> !Clash(next[j], next[|lines|]);
    }
  }

  lemma RuleClashes(lines: seq<Line>, line: Line)
    requires Acceptable(lines) && line.Ok? && line.value.Rule?
    ensures line.value.prefix in Asked(lines) <==> exists j :: 0 <= j < |lines| && Clash(lines[j], line)
  {
    var p := line.value.prefix;
    if p in Asked(lines) {
      AskedSays(lines, p, Asked(lines)[p]);
      var j :| 0 <= j < |lines| && lines[j] == Ok(Rule(p, Asked(lines)[p]));
      assert Clash(lines[j], line);
    }
    if exists j :: 0 <= j < |lines| && Clash(lines[j], line) {
      var j :| 0 <= j < |lines| && Clash(lines[j], line);
      AskedSays(lines, p, lines[j].value.rate);
    }
  }

  lemma AcceptablePrefix(lines: seq<Line>, n: nat)
    requires n <= |lines| && Acceptable(lines)
    ensures Acceptable(lines[..n])
  {
  }

  lemma HeldAtFirst(rules: seq<(string, Option<Rate>)>)
    requires rules == [(CONTACT, Some(Rate(10, 3600))), (BOOKING, Some(Rate(10, 3600))), (PASSKEY, Some(Rate(30, 120)))]
    ensures Held([], rules, [], DEFAULT_MAX_SOURCES, false)
  {
    assert CONTACT[4] == 'c' && BOOKING[4] == 'b' && PASSKEY[4] == 'p';
    assert Defaults() + map[] == Defaults();
  }

  /** A prefix's slot overwritten, or a slot added for it. */
  function Placed(rules: seq<(string, Option<Rate>)>, prefix: string, rate: Option<Rate>): seq<(string, Option<Rate>)> {
    var slot := SlotOf(rules, prefix);
    if slot < |rules| then rules[slot := (prefix, rate)] else rules + [(prefix, rate)]
  }

  lemma HeldRule(lines: seq<Line>, rules: seq<(string, Option<Rate>)>, named: seq<string>, sources: nat, seen: bool,
                 prefix: string, rate: Option<Rate>)
    requires Held(lines, rules, named, sources, seen) && prefix !in named
    ensures Held(lines + [Ok(Rule(prefix, rate))], Placed(rules, prefix, rate), named + [prefix], sources, seen)
  {
    var line := Ok(Rule(prefix, rate));
    AcceptableNext(lines, line);
    RuleNext(lines, prefix, rate);
    PlacedTabulates(rules, Defaults() + Asked(lines), prefix, rate);
    SourcesSetNext(lines, line);
  }

  lemma RuleNext(lines: seq<Line>, prefix: string, rate: Option<Rate>)
    ensures var next := lines + [Ok(Rule(prefix, rate))];
      && Asked(next) == Asked(lines)[prefix := rate]
      && Defaults() + Asked(next) == (Defaults() + Asked(lines))[prefix := rate]
      && MaxSources(next) == MaxSources(lines)
  {
    var next := lines + [Ok(Rule(prefix, rate))];
    assert next[..|lines|] == lines;
    OverriddenNext(Defaults(), Asked(lines), prefix, rate);
  }

  lemma OverriddenNext(a: Table, b: Table, prefix: string, rate: Option<Rate>)
    ensures a + b[prefix := rate] == (a + b)[prefix := rate]
  {
  }

  lemma PlacedTabulates(rules: seq<(string, Option<Rate>)>, table: Table, prefix: string, rate: Option<Rate>)
    requires Tabulates(rules, table)
    ensures Tabulates(Placed(rules, prefix, rate), table[prefix := rate])
  {
    var slot := SlotOf(rules, prefix);
    if slot < |rules| {
      TabulatesSet(rules, table, slot, rate);
    } else {
      TabulatesPush(rules, table, prefix, rate);
    }
  }

  lemma SourcesSetNext(lines: seq<Line>, line: Line)
    ensures SourcesSet(lines + [line]) <==> SourcesSet(lines) || (line.Ok? && line.value.Sources?)
  {
    var next := lines + [line];
    assert next[|lines|] == line;
    if SourcesSet(lines) {
      var k :| 0 <= k < |lines| && lines[k].Ok? && lines[k].value.Sources?;
      assert next[k].Ok? && next[k].value.Sources?;
    }
  }

  lemma HeldSources(lines: seq<Line>, rules: seq<(string, Option<Rate>)>, named: seq<string>, sources: nat, n: nat)
    requires Held(lines, rules, named, sources, false)
    ensures Held(lines + [Ok(Sources(n))], rules, named, n, true)
  {
    var line := Ok(Sources(n));
    AcceptableNext(lines, line);
    assert (lines + [line])[..|lines|] == lines;
    SourcesSetNext(lines, line);
  }

  /** What the configuration amounts to: no limits exactly when every rule is off. */
  ghost predicate Amounts(limits: Option<Limits>, lines: seq<Line>) {
    && (limits.None? <==> Effective(lines) == map[])
    && (limits.Some? ==>
          Tabulates(limits.value.rules, Effective(lines)) && limits.value.maxSources == MaxSources(lines))
  }

  /** The fault of a line that cannot follow the ones before it; a second table size is refused
      before it is read. */
  function FaultAfter(before: seq<Line>, e: Entry): Fault {
    if e.key == SOURCES_KEY && SourcesSet(before) then SourcesTwice
    else
      match Read(e)
      case Err(fault) => fault
      case Ok(setting) => if setting.Rule? then NamedTwice(setting.prefix) else SourcesTwice
  }

  /** The first line that cannot be taken, and why. */
  predicate FaultsAt(entries: seq<Entry>, k: nat, fault: Fault)
    requires k < |entries|
  {
    && Acceptable(LinesOf(entries)[..k])
    && !Acceptable(LinesOf(entries)[..k + 1])
    && fault == FaultAfter(LinesOf(entries)[..k], entries[k])
  }

  ghost predicate Stops(entries: seq<Entry>, k: nat, fault: Fault)
    requires k < |entries|
  {
    FaultsAt(entries, k, fault) && !Acceptable(LinesOf(entries))
  }

  lemma LinesNext(entries: seq<Entry>, i: nat)
    requires i < |entries|
    ensures LinesOf(entries)[..i + 1] == LinesOf(entries)[..i] + [Read(entries[i])]
  {
  }

  lemma LineStops(entries: seq<Entry>, i: nat)
    requires i < |entries| && Acceptable(LinesOf(entries)[..i])
    requires var before, e := LinesOf(entries)[..i], entries[i];
      !(Read(e).Ok? && (Read(e).value.Rule? ==> Read(e).value.prefix !in Asked(before))
        && (Read(e).value.Sources? ==> !SourcesSet(before)))
    ensures Stops(entries, i, FaultAfter(LinesOf(entries)[..i], entries[i]))
  {
    var lines := LinesOf(entries);
    LinesNext(entries, i);
    AcceptableNext(lines[..i], Read(entries[i]));
    if Acceptable(lines) {
      AcceptablePrefix(lines, i + 1);
    }
  }

  lemma RuleLine(entries: seq<Entry>, i: nat, parsed: Result<(string, Option<Rate>), Fault>)
    requires i < |entries| && Acceptable(LinesOf(entries)[..i])
    requires entries[i].key == RULE_KEY && parsed == ParseRule(entries[i].value)
    ensures parsed.Err? ==> Stops(entries, i, parsed.error)
    ensures parsed.Ok? && parsed.value.0 in Asked(LinesOf(entries)[..i]) ==>
      Stops(entries, i, NamedTwice(parsed.value.0))
    ensures parsed.Ok? ==>
      LinesOf(entries)[..i + 1] == LinesOf(entries)[..i] + [Ok(Rule(parsed.value.0, parsed.value.1))]
  {
    assert |RULE_KEY| != |SOURCES_KEY|;
    LinesNext(entries, i);
    if parsed.Err? || parsed.value.0 in Asked(LinesOf(entries)[..i]) {
      LineStops(entries, i);
    }
  }

  lemma SourcesLine(entries: seq<Entry>, i: nat, n: Result<nat, Fault>)
    requires i < |entries| && Acceptable(LinesOf(entries)[..i])
    requires entries[i].key == SOURCES_KEY && n == WholeNumber(entries[i].value)
    ensures SourcesSet(LinesOf(entries)[..i]) ==> Stops(entries, i, SourcesTwice)
    ensures !SourcesSet(LinesOf(entries)[..i]) && n.Err? ==> Stops(entries, i, n.error)
    ensures n.Ok? ==> LinesOf(entries)[..i + 1] == LinesOf(entries)[..i] + [Ok(Sources(n.value))]
  {
    assert |RULE_KEY| != |SOURCES_KEY|;
    LinesNext(entries, i);
    if SourcesSet(LinesOf(entries)[..i]) || n.Err? {
      LineStops(entries, i);
    }
  }

  lemma OtherLine(entries: seq<Entry>, i: nat)
    requires i < |entries| && Acceptable(LinesOf(entries)[..i])
    requires entries[i].key != RULE_KEY && entries[i].key != SOURCES_KEY
    ensures Stops(entries, i, UnknownKey(entries[i].key))
  {
    LineStops(entries, i);
  }

  /** `limits_from`: accepted exactly when the lines are acceptable, and then the defaults
      overridden by them; refused at the first line that is not. */
  method LimitsFrom(entries: seq<Entry>) returns (r: Result<Option<Limits>, Fault>)
    ensures r.Ok? <==> Acceptable(LinesOf(entries))
    ensures r.Ok? ==> Amounts(r.value, LinesOf(entries))
    ensures r.Err? ==> exists k :: 0 <= k < |entries| && FaultsAt(entries, k, r.error)
  {
    var rules := [(CONTACT, Some(Rate(10, 3600))), (BOOKING, Some(Rate(10, 3600))), (PASSKEY, Some(Rate(30, 120)))];
    var named: seq<string> := [];
    var sources := DEFAULT_MAX_SOURCES;
    var seen := false;
    ghost var lines := LinesOf(entries);
    HeldAtFirst(rules);
    for i := 0 to |entries|
      invariant Held(lines[..i], rules, named, sources, seen)
    {
      var e := entries[i];
      if e.key == RULE_KEY {
        var parsed := ParseRule(e.value);
        RuleLine(entries, i, parsed);
        if parsed.Err? {
          return Err(parsed.error);
        }
        var (prefix, rate) := parsed.value;
        if prefix in named {
          return Err(NamedTwice(prefix));
        }
        HeldRule(lines[..i], rules, named, sources, seen, prefix, rate);
        named := named + [prefix];
        var slot := SlotOf(rules, prefix);
        if slot < |rules| {
          rules := rules[slot := (prefix, rate)];
        } else {
          rules := rules + [(prefix, rate)];
        }
      } else if e.key == SOURCES_KEY {
        SourcesLine(entries, i, WholeNumber(e.value));
        if seen {
          return Err(SourcesTwice);
        }
        seen := true;
        var n := WholeNumber(e.value);
        if n.Err? {
          return Err(n.error);
        }
        HeldSources(lines[..i], rules, named, sources, n.value);
        sources := n.value;
      } else {
        OtherLine(entries, i);
        return Err(UnknownKey(e.key));
      }
    }
    assert lines[..|entries|] == lines;
    var kept := Kept(rules);
    KeptAmounts(lines, rules, named, sources, seen);
    if kept == [] {
      return Ok(None);
    }
    return Ok(Some(Limits(kept, sources)));
  }

  lemma KeptAmounts(lines: seq<Line>, rules: seq<(string, Option<Rate>)>, named: seq<string>, sources: nat, seen: bool)
    requires Held(lines, rules, named, sources, seen)
    ensures Amounts(if Kept(rules) == [] then None else Some(Limits(Kept(rules), sources)), lines)
  {
    KeptTabulates(rules, Defaults() + Asked(lines));
    TabulatesNothing(Kept(rules), Effective(lines));
  }

  lemma TabulatesNothing<V(!new)>(rules: seq<(string, V)>, table: map<string, V>)
    requires Tabulates(rules, table)
    ensures rules == [] <==> table == map[]
  {
    assert forall p :: p in table ==> (p, table[p]) in rules;
    assert rules != [] ==> rules[0] in rules;
  }

  // ----- which rule governs -----

  /** The first rule whose prefix the target begins with. */
  function FirstMatch(rules: seq<(string, Rate)>, target: string): Option<Rate> {
    if rules == [] then None
    else if HasPrefix(target, rules[0].0) then Some(rules[0].1)
    else FirstMatch(rules[1..], target)
  }

  predicate LongestFirst(rules: seq<(string, Rate)>) {
    forall j, k :: 0 <= j < k < |rules| ==> Len(rules[j].0) >= Len(rules[k].0)
  }

  /** The longest prefix of the target in the table. */
  ghost predicate Governs(table: map<string, Rate>, target: string, p: string) {
    && p in table && HasPrefix(target, p)
    && forall q :: q in table && HasPrefix(target, q) && q != p ==> Len(q) < Len(p)
  }

  lemma SamePrefix(target: string, p: string, q: string)
    requires HasPrefix(target, p) && HasPrefix(target, q) && p != q
    ensures Len(p) != Len(q)
  {
    var (short, long) := if |p| <= |q| then (p, q) else (q, p);
    assert long[..|short|] == short;
    assert long == short + long[|short|..];
    LenConcat(short, long[|short|..]);
    LenAtLeast(long[|short|..]);
  }

  /** Sorted longest first, in whatever order among equals, the first match is the rule of the
      longest prefix: which rule governs depends on the table alone. */
  lemma {:induction false} LongestGoverns(rules: seq<(string, Rate)>, table: map<string, Rate>, target: string)
    requires Tabulates(rules, table) && LongestFirst(rules)
    ensures FirstMatch(rules, target).None? <==> forall p :: p in table ==> !HasPrefix(target, p)
    ensures forall p :: Governs(table, target, p) ==> FirstMatch(rules, target) == Some(table[p])
    ensures FirstMatch(rules, target).Some? ==> exists p :: Governs(table, target, p)
  {
    FirstMatchAt(rules, target);
    if k :| 0 <= k < |rules| && HasPrefix(target, rules[k].0) && Unmatched(rules, target, k) {
      MatchGoverns(rules, table, target, k);
    } else {
      forall q | q in table ensures !HasPrefix(target, q) {
        assert (q, table[q]) in rules;
      }
    }
  }

  lemma MatchGoverns(rules: seq<(string, Rate)>, table: map<string, Rate>, target: string, k: nat)
    requires Tabulates(rules, table) && LongestFirst(rules)
    requires k < |rules| && HasPrefix(target, rules[k].0) && Unmatched(rules, target, k)
    ensures Governs(table, target, rules[k].0) && table[rules[k].0] == rules[k].1
    ensures forall p :: Governs(table, target, p) ==> p == rules[k].0
  {
    var p := rules[k].0;
    assert rules[k] in rules;
    forall q | q in table && HasPrefix(target, q) && q != p ensures Len(q) < Len(p) {
      assert (q, table[q]) in rules;
      var j :| 0 <= j < |rules| && rules[j] == (q, table[q]);
      SamePrefix(target, p, q);
    }
  }

  predicate Unmatched(rules: seq<(string, Rate)>, target: string, k: nat)
    requires k <= |rules|
  {
    forall j :: 0 <= j < k ==> !HasPrefix(target, rules[j].0)
  }

  lemma {:induction false} FirstMatchAt(rules: seq<(string, Rate)>, target: string)
    ensures FirstMatch(rules, target).None? <==> Unmatched(rules, target, |rules|)
    ensures FirstMatch(rules, target).Some? ==>
      exists k :: 0 <= k < |rules| && HasPrefix(target, rules[k].0) && Unmatched(rules, target, k)
    ensures forall k :: 0 <= k < |rules| && HasPrefix(target, rules[k].0) && Unmatched(rules, target, k) ==>
      FirstMatch(rules, target) == Some(rules[k].1)
  {
    if rules != [] && !HasPrefix(target, rules[0].0) {
      var rest := rules[1..];
      FirstMatchAt(rest, target);
      forall k | 0 <= k <= |rest| ensures Unmatched(rest, target, k) <==> Unmatched(rules, target, k + 1) {
        if Unmatched(rest, target, k) {
          forall j | 0 <= j < k + 1 ensures !HasPrefix(target, rules[j].0) {
            assert j > 0 ==> rules[j] == rest[j - 1];
          }
        }
        if Unmatched(rules, target, k + 1) {
          assert forall j :: 0 <= j < k ==> rest[j] == rules[j + 1];
        }
      }
    }
  }

  /** So the same lines in any order govern every target alike. */
  lemma OrderGovernsNothing(a: seq<Entry>, b: seq<Entry>, ra: seq<(string, Rate)>, rb: seq<(string, Rate)>,
                            target: string)
    requires multiset(a) == multiset(b) && Acceptable(LinesOf(a))
    requires Tabulates(ra, Effective(LinesOf(a))) && LongestFirst(ra)
    requires Tabulates(rb, Effective(LinesOf(b))) && LongestFirst(rb)
    ensures FirstMatch(ra, target) == FirstMatch(rb, target)
  {
    OrderIsNothing(a, b);
    LongestGoverns(ra, Effective(LinesOf(a)), target);
    LongestGoverns(rb, Effective(LinesOf(a)), target);
  }
}
