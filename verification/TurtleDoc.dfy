/** Turtle statements: a reader for the part of section 6.5 of RDF 1.1 Turtle that the layer's
    entries are written in (prefix directives, and one subject with `;`-separated predicates
    and objects), and the proof that what is said reads back as it was meant. */
module TurtleDoc {
  import opened Strings
  import opened Turtle

  const RDF_TYPE := "http://www.w3.org/1999/02/22-rdf-syntax-ns#type"

  datatype Term = Node(iri: string) | Text(value: string)

  datatype Triple = Triple(subject: string, property: string, value: Term)

  type Prefixes = map<string, string>

  // ----- tokens -----

  predicate IsSpace(c: char) {
    c == ' ' || c == '\t' || c == '\n' || c == '\r'
  }

  function Skip(s: string): (rest: string)
    ensures |rest| <= |s|
  {
    if s != [] && IsSpace(s[0]) then Skip(s[1..]) else s
  }

  predicate NameChar(c: char) {
    'a' <= c <= 'z' || 'A' <= c <= 'Z' || '0' <= c <= '9' || c == '_' || c == '-'
  }

  /** The longest run of characters that satisfy `p` at the front of `s`. */
  function RunOf(s: string, p: char -> bool): (n: nat)
    ensures n <= |s|
  {
    if s != [] && p(s[0]) then 1 + RunOf(s[1..], p) else 0
  }

  /** A prefixed name, resolved. */
  function ReadName(env: Prefixes, s: string): (r: Option<(string, string)>)
    ensures r.Some? ==> |r.value.1| < |s|
  {
    var n := RunOf(s, NameChar);
    if n == |s| || s[n] != ':' || s[..n] !in env then None
    else
      var local := s[n + 1..];
      var m := RunOf(local, NameChar);
      Some((env[s[..n]] + local[..m], local[m..]))
  }

  /** The rest of an IRI reference after its `<`. */
  function ReadIri(s: string): (r: Option<(string, string)>)
    ensures r.Some? ==> |r.value.1| < |s|
  {
    if s == [] then None
    else if s[0] == '>' then Some(([], s[1..]))
    else if IriChar(s[0]) then Then(s[0], ReadIri(s[1..]))
    else None
  }

  function ReadTerm(env: Prefixes, s: string): (r: Option<(Term, string)>)
    ensures r.Some? ==> |r.value.1| < |s|
  {
    if s == [] then None
    else if s[0] == '"' then
      match ReadQuoted(s) {
        case None => None
        case Some((text, rest)) => Some((Text(text), rest))
      }
    else if s[0] == '<' then
      match ReadIri(s[1..]) {
        case None => None
        case Some((iri, rest)) => Some((Node(iri), rest))
      }
    else if IsDigit(s[0]) then
      var n := RunOf(s, IsDigit);
      Some((Text(s[..n]), s[n..]))
    else
      match ReadName(env, s)
      case None => None
      case Some((iri, rest)) => Some((Node(iri), rest))
  }

  function ReadVerb(env: Prefixes, s: string): (r: Option<(string, string)>)
    ensures r.Some? ==> |r.value.1| < |s|
  {
    if |s| > 1 && s[0] == 'a' && IsSpace(s[1]) then Some((RDF_TYPE, s[1..]))
    else ReadName(env, s)
  }

  /** A verb and its object. */
  function ReadPair(env: Prefixes, subject: string, s: string): (r: Option<(Triple, string)>)
    ensures r.Some? ==> |r.value.1| < |s|
  {
    match ReadVerb(env, Skip(s))
    case None => None
    case Some((property, rest)) =>
      match ReadTerm(env, Skip(rest))
      case None => None
      case Some((value, after)) => Some((Triple(subject, property, value), after))
  }

  /** The pairs about one subject, up to the full stop. */
  function ReadPairs(env: Prefixes, subject: string, s: string): (r: Option<(seq<Triple>, string)>)
    ensures r.Some? ==> |r.value.1| < |s|
    decreases |s|
  {
    match ReadPair(env, subject, s)
    case None => None
    case Some((triple, after)) =>
      var rest := Skip(after);
      if rest == [] then None
      else if rest[0] == '.' then Some(([triple], rest[1..]))
      else if rest[0] == ';' then
        match ReadPairs(env, subject, rest[1..]) {
          case None => None
          case Some((more, last)) => Some(([triple] + more, last))
        }
      else None
  }

  /** `@prefix name: <iri> .` after its `@prefix`. */
  function ReadPrefix(s: string): (r: Option<((string, string), string)>)
    ensures r.Some? ==> |r.value.1| < |s|
  {
    var named := Skip(s);
    var n := RunOf(named, NameChar);
    if n == |named| || named[n] != ':' then None
    else
      var open := Skip(named[n + 1..]);
      if open == [] || open[0] != '<' then None
      else
        match ReadIri(open[1..])
        case None => None
        case Some((iri, rest)) =>
          var stop := Skip(rest);
          if stop == [] || stop[0] != '.' then None else Some(((named[..n], iri), stop[1..]))
  }

  /** A document's triples, in order. */
  function ReadDoc(env: Prefixes, text: string): Option<seq<Triple>>
    decreases |text|
  {
    var s := Skip(text);
    if s == [] then Some([])
    else if HasPrefix(s, "@prefix") then
      match ReadPrefix(s[7..]) {
        case None => None
        case Some((bound, rest)) => ReadDoc(env[bound.0 := bound.1], rest)
      }
    else if s[0] == '<' then
      match ReadIri(s[1..]) {
        case None => None
        case Some((subject, rest)) =>
          match ReadPairs(env, subject, rest) {
            case None => None
            case Some((triples, after)) =>
              match ReadDoc(env, after) {
                case None => None
                case Some(more) => Some(triples + more)
              }
          }
      }
    else None
  }

  // ----- what is said -----

  datatype Verb = IsA | Named(prefix: string, local: string)

  datatype Object =
    | Quoted(text: string)
    | Ref(iri: string)
    | Number(digits: string)
    | Class(prefix: string, local: string)

  datatype Saying = Saying(verb: Verb, said: Object)

  function WriteVerb(v: Verb): string {
    match v
    case IsA => "a"
    case Named(prefix, local) => prefix + ":" + local
  }

  function WriteObject(o: Object): string {
    match o
    case Quoted(text) => Literal(text)
    case Ref(iri) => "<" + iri + ">"
    case Number(digits) => digits
    case Class(prefix, local) => prefix + ":" + local
  }

  /** One `predicate object`. */
  function Write(s: Saying): string {
    WriteVerb(s.verb) + " " + WriteObject(s.said)
  }

  predicate Bound(env: Prefixes, prefix: string, local: string) {
    prefix in env && prefix != [] && Every(prefix, NameChar) && Every(local, NameChar) && !IsDigit(prefix[0])
  }

  /** What can be said under these prefixes. */
  predicate Sayable(env: Prefixes, s: Saying) {
    && (match s.verb
        case IsA => true
        case Named(prefix, local) => Bound(env, prefix, local))
    && (match s.said
        case Quoted(_) => true
        case Ref(iri) => Every(iri, IriChar)
        case Number(digits) => digits != [] && Every(digits, IsDigit)
        case Class(prefix, local) => Bound(env, prefix, local))
  }

  function MeansVerb(env: Prefixes, v: Verb): string
    requires v.Named? ==> v.prefix in env
  {
    match v
    case IsA => RDF_TYPE
    case Named(prefix, local) => env[prefix] + local
  }

  function MeansObject(env: Prefixes, o: Object): Term
    requires o.Class? ==> o.prefix in env
  {
    match o
    case Quoted(text) => Text(text)
    case Ref(iri) => Node(iri)
    case Number(digits) => Text(digits)
    case Class(prefix, local) => Node(env[prefix] + local)
  }

  function Means(env: Prefixes, subject: string, s: Saying): Triple
    requires Sayable(env, s)
  {
    Triple(subject, MeansVerb(env, s.verb), MeansObject(env, s.said))
  }

  // ----- reading back -----

  lemma {:induction false} RunStops(s: string, rest: string, p: char -> bool)
    requires Every(s, p) && (rest == [] || !p(rest[0]))
    ensures RunOf(s + rest, p) == |s|
  {
    if s == [] {
      assert s + rest == rest;
    } else {
      assert (s + rest)[1..] == s[1..] + rest;
      RunStops(s[1..], rest, p);
    }
  }

  lemma NameReads(env: Prefixes, prefix: string, local: string, rest: string)
    requires Bound(env, prefix, local) && rest != [] && rest[0] == ' '
    ensures ReadName(env, prefix + ":" + local + rest) == Some((env[prefix] + local, rest))
  {
    var s := prefix + ":" + local + rest;
    assert s == prefix + (":" + local + rest);
    RunStops(prefix, ":" + local + rest, NameChar);
    assert s[..|prefix|] == prefix;
    assert s[|prefix| + 1..] == local + rest;
    RunStops(local, rest, NameChar);
    assert (local + rest)[..|local|] == local && (local + rest)[|local|..] == rest;
  }

  lemma {:induction false} IriReads(iri: string, rest: string)
    requires Every(iri, IriChar)
    ensures ReadIri(iri + ">" + rest) == Some((iri, rest))
  {
    if iri == [] {
      assert (iri + ">" + rest)[1..] == rest;
    } else {
      assert (iri + ">" + rest)[1..] == iri[1..] + ">" + rest;
      IriReads(iri[1..], rest);
      assert [iri[0]] + iri[1..] == iri;
    }
  }

  lemma QuotedReads(env: Prefixes, text: string, rest: string)
    requires rest != [] && rest[0] == ' '
    ensures ReadTerm(env, Literal(text) + rest) == Some((Text(text), rest))
  {
    LiteralReadsBack(text, rest);
    assert (Literal(text) + rest)[0] == '"';
  }

  lemma RefReads(env: Prefixes, iri: string, rest: string)
    requires Every(iri, IriChar)
    ensures ReadTerm(env, "<" + iri + ">" + rest) == Some((Node(iri), rest))
  {
    IriReads(iri, rest);
    assert ("<" + iri + ">" + rest)[1..] == iri + ">" + rest;
  }

  lemma NumberReads(env: Prefixes, digits: string, rest: string)
    requires digits != [] && Every(digits, IsDigit) && rest != [] && rest[0] == ' '
    ensures ReadTerm(env, digits + rest) == Some((Text(digits), rest))
  {
    RunStops(digits, rest, IsDigit);
    assert (digits + rest)[..|digits|] == digits && (digits + rest)[|digits|..] == rest;
  }

  lemma ClassReads(env: Prefixes, prefix: string, local: string, rest: string)
    requires Bound(env, prefix, local) && rest != [] && rest[0] == ' '
    ensures ReadTerm(env, prefix + ":" + local + rest) == Some((Node(env[prefix] + local), rest))
  {
    NameReads(env, prefix, local, rest);
    assert (prefix + ":" + local + rest)[0] == prefix[0];
  }

  lemma ObjectReads(env: Prefixes, o: Object, rest: string)
    requires Sayable(env, Saying(IsA, o)) && rest != [] && rest[0] == ' '
    ensures ReadTerm(env, WriteObject(o) + rest) == Some((MeansObject(env, o), rest))
  {
    match o {
      case Quoted(text) => QuotedReads(env, text, rest);
      case Ref(iri) => RefReads(env, iri, rest);
      case Number(digits) => NumberReads(env, digits, rest);
      case Class(prefix, local) => ClassReads(env, prefix, local, rest);
    }
  }

  lemma ObjectStarts(env: Prefixes, o: Object)
    requires Sayable(env, Saying(IsA, o))
    ensures WriteObject(o) != [] && !IsSpace(WriteObject(o)[0])
  {
    match o
    case Class(prefix, local) => assert WriteObject(o)[0] == prefix[0];
    case _ =>
  }

  lemma VerbReads(env: Prefixes, v: Verb, rest: string)
    requires v.Named? ==> Bound(env, v.prefix, v.local)
    requires rest != [] && rest[0] == ' '
    ensures ReadVerb(env, WriteVerb(v) + rest) == Some((MeansVerb(env, v), rest))
    ensures WriteVerb(v) != [] && !IsSpace(WriteVerb(v)[0])
  {
    var s := WriteVerb(v) + rest;
    match v {
      case IsA =>
        assert s[1..] == rest;
      case Named(prefix, local) =>
        NameReads(env, prefix, local, rest);
        assert s[0] == prefix[0];
        assert s[1] == if |prefix| > 1 then prefix[1] else ':';
    }
  }

  lemma SkipsOne(t: string)
    requires t != [] && !IsSpace(t[0])
    ensures Skip(t) == t && Skip(" " + t) == t
  {
    assert (" " + t)[1..] == t;
  }

  lemma Regroup(a: string, b: string, c: string, d: string)
    ensures a + b + c + d == a + (b + (c + d))
  {
  }

  /** A verb's text and an object's text that each read back make a pair that does. */
  lemma PairComposes(env: Prefixes, subject: string, verb: string, property: string, said: string, value: Term,
                     rest: string)
    requires verb != [] && !IsSpace(verb[0]) && said != [] && !IsSpace(said[0])
    requires ReadVerb(env, verb + (" " + (said + rest))) == Some((property, " " + (said + rest)))
    requires ReadTerm(env, said + rest) == Some((value, rest))
    ensures ReadPair(env, subject, " " + (verb + (" " + (said + rest))))
      == Some((Triple(subject, property, value), rest))
  {
    SkipsOne(verb + (" " + (said + rest)));
    SkipsOne(said + rest);
  }

  /** A pair after a space reads back, whatever follows its own space. */
  lemma PairReads(env: Prefixes, subject: string, said: Saying, rest: string)
    requires Sayable(env, said) && rest != [] && rest[0] == ' '
    ensures ReadPair(env, subject, " " + (Write(said) + rest)) == Some((Means(env, subject, said), rest))
  {
    var verb, value := WriteVerb(said.verb), WriteObject(said.said);
    VerbReads(env, said.verb, " " + (value + rest));
    ObjectReads(env, said.said, rest);
    ObjectStarts(env, said.said);
    PairComposes(env, subject, verb, MeansVerb(env, said.verb), value, MeansObject(env, said.said), rest);
    Regroup(verb, " ", value, rest);
  }

  lemma PairsEnd(env: Prefixes, subject: string, s: string, triple: Triple, rest: string)
    requires ReadPair(env, subject, s) == Some((triple, " " + ("." + rest)))
    ensures ReadPairs(env, subject, s) == Some(([triple], rest))
  {
    SkipsOne("." + rest);
    assert ("." + rest)[1..] == rest;
  }

  lemma PairsMore(env: Prefixes, subject: string, s: string, triple: Triple, more: string,
                  triples: seq<Triple>, rest: string)
    requires ReadPair(env, subject, s) == Some((triple, " " + (";" + more)))
    requires ReadPairs(env, subject, more) == Some((triples, rest))
    ensures ReadPairs(env, subject, s) == Some(([triple] + triples, rest))
  {
    SkipsOne(";" + more);
    assert (";" + more)[1..] == more;
  }

  function Written(said: seq<Saying>): (w: seq<string>)
    ensures |w| == |said|
  {
    if said == [] then [] else [Write(said[0])] + Written(said[1..])
  }

  predicate AllSayable(env: Prefixes, said: seq<Saying>) {
    forall k :: 0 <= k < |said| ==> Sayable(env, said[k])
  }

  function Meant(env: Prefixes, subject: string, said: seq<Saying>): (t: seq<Triple>)
    requires AllSayable(env, said)
    ensures |t| == |said|
  {
    if said == [] then [] else [Means(env, subject, said[0])] + Meant(env, subject, said[1..])
  }

  lemma JoinMore(parts: seq<string>, stop: string)
    requires |parts| > 1
    ensures Joined(parts, " ; ") + stop == parts[0] + (" " + (";" + (" " + (Joined(parts[1..], " ; ") + stop))))
  {
    Regroup(parts[0], " ; ", Joined(parts[1..], " ; "), stop);
    Regroup(" ", ";", " ", Joined(parts[1..], " ; ") + stop);
    assert " " + ";" + " " == " ; ";
    Regroup([], parts[0], " ; ", Joined(parts[1..], " ; ") + stop);
  }

  /** What a list of pairs is on paper, after a space and before ` .`. */
  function Paragraph(parts: seq<string>, rest: string): string {
    " " + (Joined(parts, " ; ") + (" " + ("." + rest)))
  }

  lemma PairsStep(env: Prefixes, subject: string, first: Saying, parts: seq<string>, triples: seq<Triple>, rest: string)
    requires Sayable(env, first) && parts != []
    requires ReadPairs(env, subject, Paragraph(parts, rest)) == Some((triples, rest))
    ensures ReadPairs(env, subject, Paragraph([Write(first)] + parts, rest))
      == Some(([Means(env, subject, first)] + triples, rest))
  {
    var after := " " + (";" + Paragraph(parts, rest));
    PairReads(env, subject, first, after);
    PairsMore(env, subject, " " + (Write(first) + after), Means(env, subject, first), Paragraph(parts, rest),
              triples, rest);
    JoinMore([Write(first)] + parts, " " + ("." + rest));
    assert ([Write(first)] + parts)[1..] == parts;
  }

  /** Pairs joined by ` ; ` and ended by ` .` read back in order, whatever follows. */
  lemma {:induction false} PairsRead(env: Prefixes, subject: string, said: seq<Saying>, rest: string)
    requires said != [] && AllSayable(env, said)
    ensures ReadPairs(env, subject, Paragraph(Written(said), rest)) == Some((Meant(env, subject, said), rest))
  {
    if |said| == 1 {
      assert Written(said) == [Write(said[0])] && Meant(env, subject, said) == [Means(env, subject, said[0])];
      PairReads(env, subject, said[0], " " + ("." + rest));
      PairsEnd(env, subject, Paragraph(Written(said), rest), Means(env, subject, said[0]), rest);
    } else {
      PairsRead(env, subject, said[1..], rest);
      PairsStep(env, subject, said[0], Written(said[1..]), Meant(env, subject, said[1..]), rest);
    }
  }
}
