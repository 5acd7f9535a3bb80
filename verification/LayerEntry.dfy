/** The layer entries of `layer.rs`: composing one in Turtle, and reading one back with its size
    and digest checked. */
module LayerEntry {
  import opened Strings
  import opened Turtle
  import opened TurtleDoc

  const IK := "https://ikigai-rs.dev/ns#"
  const DCTERMS := "http://purl.org/dc/terms/"
  const NEW := "urn:layer:new"

  // ----- composing -----

  /** The entry an entry answers or replaces, both optional. */
  datatype Thread = Thread(inReplyTo: Option<string>, supersedes: Option<string>)

  /** One optional link of a thread. */
  function Link(local: string, target: Option<string>): Result<seq<string>, Refusal> {
    match target
    case None => Ok([])
    case Some(value) =>
      match Iri(value)
      case Err(e) => Err(e)
      case Ok(iri) => Ok([WriteVerb(Named("ik", local)) + " " + iri])
  }

  function Directive(name: string, iri: string): string {
    "@prefix " + (name + (": <" + (iri + "> .\n")))
  }

  /** One subject and what is said of it. */
  function About(subject: string, said: seq<string>): string {
    "<" + (subject + (">" + Paragraph(said, "\n")))
  }

  /** `entry`: the Turtle of one entry of class `ik:{kind}` about the new entry. */
  function Entry(kind: string, statements: seq<string>, thread: Thread): Result<string, Refusal> {
    match (Link("inReplyTo", thread.inReplyTo), Link("supersedes", thread.supersedes))
    case (Ok(reply), Ok(replaced)) =>
      var said := [Write(Saying(IsA, Class("ik", kind)))] + statements + reply + replaced;
      var terms := if AnyBegins(said, "dcterms" + ":") then Directive("dcterms", DCTERMS) else [];
      Ok(Directive("ik", IK) + (terms + About(NEW, said)))
    case (Err(e), _) => Err(e)
    case (_, Err(e)) => Err(e)
  }

  const ENV: Prefixes := map["ik" := IK, "dcterms" := DCTERMS]

  /** What the entry's callers say: names of the two vocabularies, classes of the layer's own. */
  predicate Layers(s: Saying) {
    Sayable(ENV, s) && (s.said.Class? ==> s.said.prefix == "ik")
  }

  function Ik(local: string, said: Object): Saying {
    Saying(Named("ik", local), said)
  }

  function Links(property: string, target: Option<string>): seq<Saying> {
    match target
    case None => []
    case Some(value) => [Ik(property, Ref(value))]
  }

  /** Everything an entry says, in order. */
  function AllSaid(kind: string, statements: seq<Saying>, thread: Thread): seq<Saying> {
    [Saying(IsA, Class("ik", kind))] + statements
    + Links("inReplyTo", thread.inReplyTo) + Links("supersedes", thread.supersedes)
  }

  predicate Threaded(thread: Thread) {
    && (thread.inReplyTo.Some? ==> IriText(thread.inReplyTo.value))
    && (thread.supersedes.Some? ==> IriText(thread.supersedes.value))
  }

  // ----- an entry reads back -----

  lemma SkipsAhead(env: Prefixes, text: string)
    ensures ReadDoc(env, "\n" + text) == ReadDoc(env, text)
  {
    assert ("\n" + text)[1..] == text;
    assert Skip("\n" + text) == Skip(text);
    SkipTwice(text);
  }

  lemma {:induction false} SkipTwice(s: string)
    ensures Skip(s) == [] || !IsSpace(Skip(s)[0])
  {
    if s != [] && IsSpace(s[0]) {
      SkipTwice(s[1..]);
    }
  }

  /** A prefix directive binds its prefix for the rest of the document. */
  lemma DirectiveReads(env: Prefixes, name: string, iri: string, rest: string)
    requires name != [] && Every(name, NameChar) && Every(iri, IriChar)
    ensures ReadDoc(env, Directive(name, iri) + rest) == ReadDoc(env[name := iri], rest)
  {
    var stop := " " + (".\n" + rest);
    var open := "<" + (iri + (">" + stop));
    var named := name + (":" + (" " + open));
    var text := Directive(name, iri) + rest;
    assert text == "@prefix" + (" " + named);
    assert text[..7] == "@prefix" && text[7..] == " " + named;
    PrefixReads(name, iri, "\n" + rest);
    SkipsAhead(env[name := iri], rest);
    assert stop == " " + ("." + ("\n" + rest));
  }

  lemma PrefixReads(name: string, iri: string, rest: string)
    requires name != [] && Every(name, NameChar) && Every(iri, IriChar)
    ensures ReadPrefix(" " + (name + (":" + (" " + ("<" + (iri + (">" + (" " + ("." + rest)))))))))
      == Some(((name, iri), rest))
  {
    var stop := " " + ("." + rest);
    var open := "<" + (iri + (">" + stop));
    var named := name + (":" + (" " + open));
    assert named[0] == name[0];
    SkipsOne(named);
    RunStops(name, ":" + (" " + open), NameChar);
    assert named[..|name|] == name && named[|name| + 1..] == " " + open;
    SkipsOne(open);
    assert open[1..] == iri + ">" + stop;
    IriReads(iri, stop);
    SkipsOne("." + rest);
    assert ("." + rest)[1..] == rest;
  }

  lemma SubjectReads(env: Prefixes, subject: string, said: seq<Saying>)
    requires said != [] && AllSayable(env, said) && Every(subject, IriChar)
    ensures ReadDoc(env, About(subject, Written(said))) == Some(Meant(env, subject, said))
  {
    PairsRead(env, subject, said, "\n");
    SubjectOf(env, subject, Paragraph(Written(said), "\n"), Meant(env, subject, said));
  }

  lemma SubjectOf(env: Prefixes, subject: string, rest: string, triples: seq<Triple>)
    requires Every(subject, IriChar) && ReadPairs(env, subject, rest) == Some((triples, "\n"))
    ensures ReadDoc(env, "<" + (subject + (">" + rest))) == Some(triples)
  {
    var tail := subject + (">" + rest);
    assert tail == subject + ">" + rest;
    IriReads(subject, rest);
    DocEnds(env);
    DocComposes(env, "<" + tail, tail, subject, rest, triples, "\n");
  }

  lemma DocComposes(env: Prefixes, text: string, tail: string, subject: string, rest: string,
                    triples: seq<Triple>, after: string)
    requires text == "<" + tail && ReadIri(tail) == Some((subject, rest))
    requires ReadPairs(env, subject, rest) == Some((triples, after)) && ReadDoc(env, after) == Some([])
    ensures ReadDoc(env, text) == Some(triples)
  {
    assert text[1..] == tail;
    assert Skip(text) == text;
    StartsElsewhere(text, "@prefix");
    assert triples + [] == triples;
  }

  lemma DocEnds(env: Prefixes)
    ensures ReadDoc(env, "\n") == Some([])
  {
    assert "\n"[1..] == [];
    assert Skip("\n") == [];
  }

  /** The text of a statement begins with `dcterms:` exactly when its property does. */
  lemma BeginsWithTerms(s: Saying)
    requires Layers(s)
    ensures HasPrefix(Write(s), "dcterms" + ":") <==> s.verb.Named? && s.verb.prefix == "dcterms"
  {
    match s.verb
    case IsA => StartsElsewhere(Write(s), "dcterms" + ":");
    case Named(prefix, local) =>
      if prefix == "dcterms" {
        NameBegins(prefix, local, " " + WriteObject(s.said));
      } else {
        assert prefix == "ik";
        assert Write(s)[0] == prefix[0];
        StartsElsewhere(Write(s), "dcterms" + ":");
      }
  }

  lemma NameBegins(prefix: string, local: string, rest: string)
    ensures HasPrefix(prefix + ":" + local + rest, prefix + ":")
  {
    Regroup(prefix, ":", local, rest);
    assert (prefix + ":" + local + rest)[..|prefix| + 1] == prefix + ":";
  }

  lemma StartsElsewhere(s: string, prefix: string)
    requires s != [] && prefix != [] && s[0] != prefix[0]
    ensures !HasPrefix(s, prefix)
  {
    assert |prefix| <= |s| ==> s[..|prefix|][0] == s[0];
  }

  predicate TermsAt(said: seq<Saying>, k: nat)
    requires k < |said|
  {
    said[k].verb.Named? && said[k].verb.prefix == "dcterms"
  }

  predicate UsesTerms(said: seq<Saying>) {
    exists k :: 0 <= k < |said| && TermsAt(said, k)
  }

  lemma {:induction false} MeantUnder(env: Prefixes, other: Prefixes, subject: string, said: seq<Saying>)
    requires AllSayable(env, said) && AllSayable(other, said)
    requires forall p :: p in env && p in other ==> env[p] == other[p]
    ensures Meant(env, subject, said) == Meant(other, subject, said)
  {
    if said != [] {
      MeantUnder(env, other, subject, said[1..]);
    }
  }

  lemma {:induction false} WrittenAppend(a: seq<Saying>, b: seq<Saying>)
    ensures Written(a + b) == Written(a) + Written(b)
  {
    if a == [] {
      assert a + b == b;
    } else {
      assert (a + b)[1..] == a[1..] + b;
      WrittenAppend(a[1..], b);
    }
  }

  lemma {:induction false} WrittenAt(said: seq<Saying>, k: nat)
    requires k < |said|
    ensures Written(said)[k] == Write(said[k])
  {
    if k > 0 {
      WrittenAt(said[1..], k - 1);
    }
  }

  /** The statements of an entry as text are the sayings' texts. */
  lemma SaidIsWritten(kind: string, statements: seq<Saying>, thread: Thread)
    requires Threaded(thread)
    ensures var reply, replaced := Link("inReplyTo", thread.inReplyTo), Link("supersedes", thread.supersedes);
      && reply.Ok? && replaced.Ok?
      && [Write(Saying(IsA, Class("ik", kind)))] + Written(statements) + reply.value + replaced.value
        == Written(AllSaid(kind, statements, thread))
  {
    var first := [Saying(IsA, Class("ik", kind))];
    var reply, replaced := Links("inReplyTo", thread.inReplyTo), Links("supersedes", thread.supersedes);
    LinkIsWritten("inReplyTo", thread.inReplyTo);
    LinkIsWritten("supersedes", thread.supersedes);
    WrittenAppend(first + statements + reply, replaced);
    WrittenAppend(first + statements, reply);
    WrittenAppend(first, statements);
    WrittenOne(first[0]);
  }

  lemma WrittenOne(s: Saying)
    ensures Written([s]) == [Write(s)]
  {
    assert Written([s]) == [Write(s)] + Written([]);
  }

  lemma LinkIsWritten(local: string, target: Option<string>)
    requires target.Some? ==> IriText(target.value)
    ensures Link(local, target) == Ok(Written(Links(local, target)))
  {
    if target.Some? {
      WrittenOne(Ik(local, Ref(target.value)));
    }
  }

  lemma AllSaidLayers(kind: string, statements: seq<Saying>, thread: Thread)
    requires Every(kind, NameChar) && Threaded(thread) && AllLayers(statements)
    ensures AllLayers(AllSaid(kind, statements, thread))
  {
    assert Bound(ENV, "ik", kind);
    assert Bound(ENV, "ik", "inReplyTo") && Bound(ENV, "ik", "supersedes");
    assert thread.inReplyTo.Some? ==> Every(thread.inReplyTo.value, IriChar);
    assert thread.supersedes.Some? ==> Every(thread.supersedes.value, IriChar);
  }

  predicate AllLayers(said: seq<Saying>) {
    forall k :: 0 <= k < |said| ==> Layers(said[k])
  }

  predicate AnyBegins(texts: seq<string>, prefix: string) {
    exists k :: 0 <= k < |texts| && HasPrefix(texts[k], prefix)
  }

  lemma {:induction false} TermsDeclared(said: seq<Saying>)
    requires AllLayers(said)
    ensures UsesTerms(said) <==> AnyBegins(Written(said), "dcterms" + ":")
  {
    forall k | 0 <= k < |said|
      ensures HasPrefix(Written(said)[k], "dcterms" + ":") <==> TermsAt(said, k)
    {
      WrittenAt(said, k);
      BeginsWithTerms(said[k]);
    }
  }

  lemma LayersUnder(env: Prefixes, said: seq<Saying>)
    requires AllLayers(said)
    requires "ik" in env && (UsesTerms(said) ==> "dcterms" in env)
    ensures AllSayable(env, said)
  {
    forall k | 0 <= k < |said| ensures Sayable(env, said[k]) {
      assert Layers(said[k]);
      assert TermsAt(said, k) ==> UsesTerms(said);
    }
  }

  lemma VocabularyIris()
    ensures Every(IK, IriChar) && Every(DCTERMS, IriChar) && Every(NEW, IriChar)
  {
  }

  /** Parsing a composed entry gives back exactly its class, its statements and its thread,
      whatever the texts in them hold; composing fails exactly when a link is not an IRI. */
  lemma EntryReads(kind: string, statements: seq<Saying>, thread: Thread, r: Result<string, Refusal>)
    requires Every(kind, NameChar) && AllLayers(statements)
    requires r == Entry(kind, Written(statements), thread)
    ensures r.Ok? <==> Threaded(thread)
    ensures r.Ok? ==>
      AllSayable(ENV, AllSaid(kind, statements, thread)) &&
      ReadDoc(map[], r.value) == Some(Meant(ENV, NEW, AllSaid(kind, statements, thread)))
  {
    if Threaded(thread) {
      var said := AllSaid(kind, statements, thread);
      SaidIsWritten(kind, statements, thread);
      AllSaidLayers(kind, statements, thread);
      TermsDeclared(said);
      VocabularyIris();
      LayersUnder(ENV, said);
      EntryTextReads(IK, DCTERMS, NEW, said, r.value);
    }
  }

  lemma EntryTextReads(ik: string, terms: string, subject: string, said: seq<Saying>, text: string)
    requires said != [] && AllLayers(said)
    requires Every(ik, IriChar) && Every(terms, IriChar) && Every(subject, IriChar)
    requires text == Directive("ik", ik)
      + ((if UsesTerms(said) then Directive("dcterms", terms) else []) + About(subject, Written(said)))
    ensures var env: Prefixes := map["ik" := ik, "dcterms" := terms];
      AllSayable(env, said) && ReadDoc(map[], text) == Some(Meant(env, subject, said))
  {
    var one: Prefixes := map["ik" := ik];
    var env: Prefixes := map["ik" := ik, "dcterms" := terms];
    var body := About(subject, Written(said));
    LayersUnder(env, said);
    assert map["ik" := ik] == one;
    if UsesTerms(said) {
      DirectiveReads(map[], "ik", ik, Directive("dcterms", terms) + body);
      DirectiveReads(one, "dcterms", terms, body);
      assert one["dcterms" := terms] == env;
      SubjectReads(env, subject, said);
    } else {
      assert [] + body == body;
      DirectiveReads(map[], "ik", ik, body);
      LayersUnder(one, said);
      SubjectReads(one, subject, said);
      MeantUnder(one, env, subject, said);
    }
  }
}
