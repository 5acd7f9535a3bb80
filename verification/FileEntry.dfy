/** A file as a layer entry (`layer.rs`): its content as text or base64, what the entry states of
    it, and what a reader checks before giving the bytes back. */
module FileEntry {
  import opened Strings
  import opened Numbers
  import opened Utf8
  import opened Turtle
  import opened TurtleDoc
  import opened LayerEntry
  import Base64

  /** The libraries the code calls: a digest, the rule for safe file names, a table of media
      types by extension. Nothing is assumed of them. */
  datatype Libraries = Libraries(
    sha256: seq<byte> -> seq<byte>,
    safeName: string -> bool,
    mime: string -> Option<string>)

  /** The most a Rust slice can hold. */
  const ISIZE_MAX: nat := 0x7FFF_FFFF_FFFF_FFFF

  // ----- digest, content, media type -----

  function HexLower(v: nat): char
    requires v < 16
  {
    if v < 10 then Digit(v) else (v - 10 + 'a' as int) as char
  }

  function Hex(hash: seq<byte>): string {
    if hash == [] then [] else Hex(hash[..|hash| - 1]) + HexByte(hash[|hash| - 1])
  }

  function HexByte(b: byte): string {
    [HexLower(b / 16), HexLower(b % 16)]
  }

  /** Two lowercase digits for each byte, the high one first. */
  lemma {:induction false} HexSpells(hash: seq<byte>, k: nat)
    requires k < |hash|
    ensures |Hex(hash)| == 2 * |hash|
    ensures Hex(hash)[2 * k] == "0123456789abcdef"[hash[k] / 16]
    ensures Hex(hash)[2 * k + 1] == "0123456789abcdef"[hash[k] % 16]
  {
    var n := |hash| - 1;
    if n > 0 {
      HexSpells(hash[..n], if k < n then k else 0);
    } else {
      assert Hex(hash[..0]) == [];
    }
    HexLowerSpells(hash[k] / 16);
    HexLowerSpells(hash[k] % 16);
  }

  lemma HexLowerSpells(v: nat)
    requires v < 16
    ensures HexLower(v) == "0123456789abcdef"[v]
  {
  }

  lemma HexLowerInjective(v: nat, w: nat)
    requires v < 16 && w < 16 && HexLower(v) == HexLower(w)
    ensures v == w
  {
  }

  /** The text determines the hash. */
  lemma {:induction false} HexInjective(a: seq<byte>, b: seq<byte>)
    requires Hex(a) == Hex(b)
    ensures a == b
  {
    if a != [] && b != [] {
      var m, n := |a| - 1, |b| - 1;
      var x, y := Hex(a), Hex(b);
      assert x[|x| - 2..] == HexByte(a[m]) && y[|y| - 2..] == HexByte(b[n]);
      assert x[..|x| - 2] == Hex(a[..m]) && y[..|y| - 2] == Hex(b[..n]);
      HexInjective(a[..m], b[..n]);
      assert HexByte(a[m])[0] == HexByte(b[n])[0] && HexByte(a[m])[1] == HexByte(b[n])[1];
      HexLowerInjective((a[m] / 16) as nat, (b[n] / 16) as nat);
      HexLowerInjective((a[m] % 16) as nat, (b[n] % 16) as nat);
      assert a == a[..m] + [a[m]] && b == b[..n] + [b[n]];
    }
  }

  /** What a file entry names its bytes by. */
  function Digest(lib: Libraries, data: seq<byte>): string {
    "sha256:" + Hex(lib.sha256(data))
  }

  /** `digest`: the loop over the hash. */
  method WriteDigest(lib: Libraries, data: seq<byte>) returns (out: string)
    ensures out == Digest(lib, data)
  {
    var hash := lib.sha256(data);
    out := "sha256:";
    for i := 0 to |hash|
      invariant out == "sha256:" + Hex(hash[..i])
    {
      assert hash[..i + 1][..i] == hash[..i];
      out := out + HexByte(hash[i]);
    }
    assert hash[..|hash|] == hash;
  }

  predicate ControlCharacter(c: char) {
    (c as int < 0x20 && c != '\t' && c != '\n' && c != '\r') || c as int == 0x7F
  }

  datatype Encoding = AsText | AsBase64

  /** `encode`: the text itself when the bytes are UTF-8 with no control character but tab,
      newline and carriage return, else their base64. */
  function EncodeContent(data: seq<byte>): (Encoding, string) {
    match Utf8.Decode(data)
    case Some(text) =>
      if exists k :: 0 <= k < |text| && ControlCharacter(text[k]) then (AsBase64, Base64.Encode(data))
      else (AsText, text)
    case None => (AsBase64, Base64.Encode(data))
  }

  function EncodingName(e: Encoding): string {
    match e case AsText => "text" case AsBase64 => "base64"
  }

  function AsciiLower(s: string): (lower: string)
    ensures |lower| == |s|
  {
    seq(|s|, k requires 0 <= k < |s| => if 'A' <= s[k] <= 'Z' then (s[k] as int + 32) as char else s[k])
  }

  predicate MediaChar(c: char) {
    || 'a' <= c <= 'z' || '0' <= c <= '9' || c == '!' || c == '$' || c == '&' || c == '^'
    || c == '_' || c == '.' || c == '+' || c == '-'
  }

  predicate MediaToken(t: string) {
    t != [] && ('a' <= t[0] <= 'z' || '0' <= t[0] <= '9') && Every(t, MediaChar)
  }

  /** `is_media_type`. */
  predicate IsMediaType(value: string) {
    Len(value) <= 127 &&
    match SplitOnce(value, '/')
    case None => false
    case Some(cut) => MediaToken(cut.0) && MediaToken(cut.1)
  }

  predicate HasSuffix(s: string, suffix: string) {
    |suffix| <= |s| && s[|s| - |suffix|..] == suffix
  }

  /** `guess_media_type`. */
  function GuessMediaType(lib: Libraries, name: string, encoding: Encoding): string {
    var lower := AsciiLower(name);
    var guessed := if HasSuffix(lower, ".md") || HasSuffix(lower, ".markdown") then Some("text/markdown")
      else match lib.mime(name) case None => None case Some(m) => Some(AsciiLower(m));
    if guessed.Some? && IsMediaType(guessed.value) then guessed.value
    else if encoding.AsText? then "text/plain"
    else "application/octet-stream"
  }

  // ----- the entry -----

  datatype Failure =
    | UnsafeName(name: string)
    | NotAMediaType(media: string)
    | BadLink(refusal: Refusal)
    | Unparsable
    | NoSuchEntry
    | Missing(local: string)
    | Several(local: string)
    | BadBase64
    | UnknownEncoding(name: string)
    | WrongSize(says: string)
    | WrongDigest(says: string)

  datatype Composed = Composed(turtle: string, encoding: Encoding, content: string)

  /** What a file entry states. */
  function FileSaid(name: string, media: string, digest: string, size: string, encoding: string, content: string):
    seq<Saying>
  {
    [Ik("fileName", Quoted(name)), Ik("mediaType", Quoted(media)), Ik("contentHash", Quoted(digest)),
     Ik("byteSize", Number(size)), Ik("encoding", Quoted(encoding)), Ik("content", Quoted(content))]
  }

  function ChosenMedia(lib: Libraries, name: string, data: seq<byte>, media: Option<string>): string {
    match media
    case Some(m) => AsciiLower(m)
    case None => GuessMediaType(lib, name, EncodeContent(data).0)
  }

  /** `file_entry`. */
  function ComposeFile(lib: Libraries, name: string, data: seq<byte>, media: Option<string>, thread: Thread):
    Result<Composed, Failure>
  {
    var (encoding, content) := EncodeContent(data);
    var chosen := ChosenMedia(lib, name, data, media);
    if !lib.safeName(name) then Err(UnsafeName(name))
    else if media.Some? && !IsMediaType(chosen) then Err(NotAMediaType(chosen))
    else
      var said := FileSaid(name, chosen, Digest(lib, data), Decimal(|data|), EncodingName(encoding), content);
      match Entry("File", Written(said), thread)
      case Err(e) => Err(BadLink(e))
      case Ok(turtle) => Ok(Composed(turtle, encoding, content))
  }

  // ----- reading one back -----

  /** One entry, as the statements about it. */
  datatype EntryNode = EntryNode(iri: string, types: seq<string>, values: seq<(string, string)>)

  /** One triple about the entry, taken into its node. */
  function Take(node: EntryNode, t: Triple): EntryNode {
    if t.property == RDF_TYPE then
      if t.value.Node? then node.(types := node.types + [t.value.iri]) else node
    else if t.value.Text? then node.(values := node.values + [(t.property, t.value.value)])
    else node
  }

  function NodeOf(iri: string, triples: seq<Triple>): (EntryNode, bool) {
    if triples == [] then (EntryNode(iri, [], []), false)
    else
      var last := triples[|triples| - 1];
      var (node, found) := NodeOf(iri, triples[..|triples| - 1]);
      if last.subject == iri then (Take(node, last), true) else (node, found)
  }

  /** What a reader makes of the door's answer for an entry. */
  function Answer(turtle: string, iri: string): Result<EntryNode, Failure> {
    match ReadDoc(map[], turtle)
    case None => Err(Unparsable)
    case Some(triples) =>
      var (node, found) := NodeOf(iri, triples);
      if found then Ok(node) else Err(NoSuchEntry)
  }

  /** `Node::of`: the loop over the triples. */
  method ReadNode(turtle: string, iri: string) returns (r: Result<EntryNode, Failure>)
    ensures r == Answer(turtle, iri)
  {
    var parsed := ReadDoc(map[], turtle);
    if parsed.None? {
      return Err(Unparsable);
    }
    var triples := parsed.value;
    var node, found := EntryNode(iri, [], []), false;
    for i := 0 to |triples|
      invariant (node, found) == NodeOf(iri, triples[..i])
    {
      assert triples[..i + 1][..i] == triples[..i];
      if triples[i].subject == iri {
        found := true;
        node := Take(node, triples[i]);
      }
    }
    assert triples[..|triples|] == triples;
    r := if found then Ok(node) else Err(NoSuchEntry);
  }

  /** The values of one property, in order. */
  function ValuesOf(values: seq<(string, string)>, property: string): seq<string> {
    if values == [] then [] else
      ValuesOf(values[..|values| - 1], property)
      + if values[|values| - 1].0 == property then [values[|values| - 1].1] else []
  }

  /** `Node::one`. */
  function One(node: EntryNode, local: string): Result<string, Failure> {
    var found := ValuesOf(node.values, IK + local);
    if |found| == 1 then Ok(found[0])
    else if found == [] then Err(Missing(local))
    else Err(Several(local))
  }

  function DecodeContent(encoding: string, content: string): Result<seq<byte>, Failure> {
    if encoding == "text" then Ok(Utf8.Encode(content))
    else if encoding == "base64" then
      match Base64.Decode(content) {
        case None => Err(BadBase64)
        case Some(data) => Ok(data)
      }
    else Err(UnknownEncoding(encoding))
  }

  function CheckedBytes(lib: Libraries, node: EntryNode, data: seq<byte>): Result<seq<byte>, Failure> {
    match One(node, "byteSize")
    case Err(e) => Err(e)
    case Ok(size) =>
      if ParseUsize(size) != Some(|data|) then Err(WrongSize(size))
      else
        match One(node, "contentHash")
        case Err(e) => Err(e)
        case Ok(expected) => if Digest(lib, data) != expected then Err(WrongDigest(expected)) else Ok(data)
  }

  /** `Node::bytes`: a file entry's bytes, after checking its size and its digest. */
  function Bytes(lib: Libraries, node: EntryNode): Result<seq<byte>, Failure> {
    match One(node, "content")
    case Err(e) => Err(e)
    case Ok(content) =>
      match One(node, "encoding")
      case Err(e) => Err(e)
      case Ok(encoding) =>
        match DecodeContent(encoding, content)
        case Err(e) => Err(e)
        case Ok(data) => CheckedBytes(lib, node, data)
  }

  // ----- a composed file reads back to its bytes -----

  /** Whatever the bytes are, what they are encoded as decodes to them. */
  lemma ContentDecodes(data: seq<byte>)
    ensures var (encoding, content) := EncodeContent(data);
      DecodeContent(EncodingName(encoding), content) == Ok(data)
  {
    Base64.DecodeEncode(data);
    if Utf8.Decode(data).Some? {
      Utf8.EncodeDecode(data);
    }
  }

  /** A statement of the layer's vocabulary whose object is a literal. */
  datatype Fact = Fact(local: string, text: string)

  /** The values a node holds of these facts, under the vocabulary `ik`. */
  function FactValues(ik: string, facts: seq<Fact>): (values: seq<(string, string)>)
    ensures |values| == |facts|
    ensures forall k :: 0 <= k < |facts| ==> values[k] == (ik + facts[k].local, facts[k].text)
  {
    seq(|facts|, k requires 0 <= k < |facts| => (ik + facts[k].local, facts[k].text))
  }

  function FactTriples(ik: string, iri: string, facts: seq<Fact>): (triples: seq<Triple>)
    ensures |triples| == |facts|
    ensures forall k :: 0 <= k < |facts| ==> triples[k] == Triple(iri, ik + facts[k].local, Text(facts[k].text))
  {
    seq(|facts|, k requires 0 <= k < |facts| => Triple(iri, ik + facts[k].local, Text(facts[k].text)))
  }

  /** A vocabulary none of whose properties is `rdf:type`. */
  ghost predicate NoType(ik: string) {
    forall local: string :: Qualified(ik, local) != RDF_TYPE
  }

  function Qualified(ik: string, local: string): string {
    ik + local
  }

  lemma IkHasNoType()
    ensures NoType(IK)
  {
    forall local: string ensures Qualified(IK, local) != RDF_TYPE {
      assert Qualified(IK, local)[4] == IK[4] == 's';
      assert RDF_TYPE[4] == ':';
    }
  }

  lemma NodeOfNext(iri: string, triples: seq<Triple>, t: Triple, node: EntryNode, found: bool)
    requires t.subject == iri && NodeOf(iri, triples) == (node, found)
    ensures NodeOf(iri, triples + [t]) == (Take(node, t), true)
  {
    assert (triples + [t])[..|triples|] == triples;
  }

  lemma FactsNext(ik: string, iri: string, facts: seq<Fact>)
    requires facts != []
    ensures var init, last := facts[..|facts| - 1], facts[|facts| - 1];
      && FactTriples(ik, iri, facts) == FactTriples(ik, iri, init) + [Triple(iri, ik + last.local, Text(last.text))]
      && FactValues(ik, facts) == FactValues(ik, init) + [(ik + last.local, last.text)]
  {
  }

  lemma NodeOfFact(ik: string, iri: string, triples: seq<Triple>, fact: Fact, node: EntryNode)
    requires NoType(ik) && NodeOf(iri, triples) == (node, true)
    ensures NodeOf(iri, triples + [Triple(iri, ik + fact.local, Text(fact.text))])
      == (node.(values := node.values + [(ik + fact.local, fact.text)]), true)
  {
    assert Qualified(ik, fact.local) != RDF_TYPE;
    NodeOfNext(iri, triples, Triple(iri, ik + fact.local, Text(fact.text)), node, true);
  }

  lemma {:induction false} FactsTaken(ik: string, iri: string, triples: seq<Triple>, facts: seq<Fact>, node: EntryNode)
    requires NoType(ik) && NodeOf(iri, triples) == (node, true)
    ensures NodeOf(iri, triples + FactTriples(ik, iri, facts))
      == (node.(values := node.values + FactValues(ik, facts)), true)
  {
    if facts == [] {
      assert triples + FactTriples(ik, iri, facts) == triples;
      assert node.values + FactValues(ik, facts) == node.values;
    } else {
      var init, last := facts[..|facts| - 1], facts[|facts| - 1];
      var before, values := triples + FactTriples(ik, iri, init), node.values + FactValues(ik, init);
      var t, v := Triple(iri, ik + last.local, Text(last.text)), (ik + last.local, last.text);
      FactsTaken(ik, iri, triples, init, node);
      NodeOfFact(ik, iri, before, last, node.(values := values));
      FactsNext(ik, iri, facts);
      Associate(triples, FactTriples(ik, iri, init), [t]);
      Associate(node.values, FactValues(ik, init), [v]);
    }
  }

  lemma Associate<T>(a: seq<T>, b: seq<T>, c: seq<T>)
    ensures a + b + c == a + (b + c)
  {
  }

  predicate Distinct(facts: seq<Fact>) {
    forall i, j :: 0 <= i < j < |facts| ==> facts[i].local != facts[j].local
  }

  lemma SameLocal(ik: string, a: string, b: string)
    ensures ik + a == ik + b <==> a == b
  {
    assert (ik + a)[|ik|..] == a && (ik + b)[|ik|..] == b;
  }

  /** Each of several facts is the one value of its property. */
  lemma {:induction false} FactIsOne(ik: string, facts: seq<Fact>, local: string)
    requires Distinct(facts)
    ensures var found := ValuesOf(FactValues(ik, facts), ik + local);
      && (forall k :: 0 <= k < |facts| && facts[k].local == local ==> found == [facts[k].text])
      && ((forall k :: 0 <= k < |facts| ==> facts[k].local != local) ==> found == [])
  {
    if facts != [] {
      var init, last := facts[..|facts| - 1], facts[|facts| - 1];
      FactIsOne(ik, init, local);
      SameLocal(ik, last.local, local);
      assert FactValues(ik, facts)[..|init|] == FactValues(ik, init);
      assert forall k :: 0 <= k < |init| ==> init[k] == facts[k];
    }
  }

  lemma FactIs(node: EntryNode, facts: seq<Fact>, k: nat)
    requires Distinct(facts) && k < |facts| && node.values == FactValues(IK, facts)
    ensures One(node, facts[k].local) == Ok(facts[k].text)
  {
    FactIsOne(IK, facts, facts[k].local);
  }

  // ----- from what is said to what is answered -----

  lemma {:induction false} MeantAt(env: Prefixes, subject: string, said: seq<Saying>, k: nat)
    requires AllSayable(env, said) && k < |said|
    ensures Meant(env, subject, said)[k] == Means(env, subject, said[k])
  {
    if k > 0 {
      MeantAt(env, subject, said[1..], k - 1);
    }
  }

  lemma {:induction false} MeantAppend(env: Prefixes, subject: string, a: seq<Saying>, b: seq<Saying>)
    requires AllSayable(env, a) && AllSayable(env, b)
    ensures AllSayable(env, a + b)
    ensures Meant(env, subject, a + b) == Meant(env, subject, a) + Meant(env, subject, b)
  {
    if a == [] {
      assert a + b == b;
    } else {
      assert (a + b)[1..] == a[1..] + b;
      MeantAppend(env, subject, a[1..], b);
    }
  }

  /** A saying that states a fact: a property of the layer's and a literal. */
  predicate States(s: Saying, f: Fact) {
    && s.verb == Named("ik", f.local)
    && (s.said == Quoted(f.text) || s.said == Number(f.text))
  }

  predicate AllState(said: seq<Saying>, facts: seq<Fact>) {
    |said| == |facts| && forall k :: 0 <= k < |said| ==> States(said[k], facts[k])
  }

  lemma FactsMeant(env: Prefixes, subject: string, said: seq<Saying>, facts: seq<Fact>)
    requires "ik" in env && AllSayable(env, said) && AllState(said, facts)
    ensures Meant(env, subject, said) == FactTriples(env["ik"], subject, facts)
  {
    forall k | 0 <= k < |said|
      ensures Meant(env, subject, said)[k] == FactTriples(env["ik"], subject, facts)[k]
    {
      MeantAt(env, subject, said, k);
      assert States(said[k], facts[k]);
    }
  }

  /** A link adds nothing to a node's values. */
  lemma LinkTaken(env: Prefixes, subject: string, triples: seq<Triple>, local: string,
                  target: Option<string>, node: EntryNode)
    requires "ik" in env && NoType(env["ik"]) && NodeOf(subject, triples) == (node, true)
    requires AllSayable(env, Links(local, target))
    ensures NodeOf(subject, triples + Meant(env, subject, Links(local, target))) == (node, true)
  {
    var meant := Meant(env, subject, Links(local, target));
    if target.Some? {
      var t := Triple(subject, Qualified(env["ik"], local), Node(target.value));
      MeantAt(env, subject, Links(local, target), 0);
      assert meant == [t];
      NodeOfNext(subject, triples, t, node, true);
    } else {
      assert triples + meant == triples;
    }
  }

  lemma ClassTaken(env: Prefixes, subject: string, kind: string)
    requires Bound(env, "ik", kind)
    ensures AllSayable(env, [Saying(IsA, Class("ik", kind))])
    ensures NodeOf(subject, Meant(env, subject, [Saying(IsA, Class("ik", kind))]))
      == (EntryNode(subject, [env["ik"] + kind], []), true)
  {
    var t := Triple(subject, RDF_TYPE, Node(env["ik"] + kind));
    MeantAt(env, subject, [Saying(IsA, Class("ik", kind))], 0);
    assert Meant(env, subject, [Saying(IsA, Class("ik", kind))]) == [] + [t];
    assert NodeOf(subject, []) == (EntryNode(subject, [], []), false);
    NodeOfNext(subject, [], t, EntryNode(subject, [], []), false);
    assert [] + [env["ik"] + kind] == [env["ik"] + kind];
  }

  /** What a class, some facts and a thread amount to for a reader of the entry. */
  lemma SaidAnswers(env: Prefixes, subject: string, kind: string, said: seq<Saying>, facts: seq<Fact>, thread: Thread)
    requires "ik" in env && NoType(env["ik"]) && Bound(env, "ik", kind)
    requires AllSayable(env, said) && AllState(said, facts)
    requires AllSayable(env, Links("inReplyTo", thread.inReplyTo))
    requires AllSayable(env, Links("supersedes", thread.supersedes))
    ensures AllSayable(env, AllSaid(kind, said, thread))
    ensures NodeOf(subject, Meant(env, subject, AllSaid(kind, said, thread)))
      == (EntryNode(subject, [env["ik"] + kind], FactValues(env["ik"], facts)), true)
  {
    var first := [Saying(IsA, Class("ik", kind))];
    var reply, replaced := Links("inReplyTo", thread.inReplyTo), Links("supersedes", thread.supersedes);
    var start := EntryNode(subject, [env["ik"] + kind], []);
    var node := EntryNode(subject, [env["ik"] + kind], FactValues(env["ik"], facts));
    ClassTaken(env, subject, kind);
    FactsMeant(env, subject, said, facts);
    FactsTaken(env["ik"], subject, Meant(env, subject, first), facts, start);
    assert start.values + FactValues(env["ik"], facts) == node.values;
    MeantAppend(env, subject, first, said);
    LinkTaken(env, subject, Meant(env, subject, first + said), "inReplyTo", thread.inReplyTo, node);
    MeantAppend(env, subject, first + said, reply);
    LinkTaken(env, subject, Meant(env, subject, first + said + reply), "supersedes", thread.supersedes, node);
    MeantAppend(env, subject, first + said + reply, replaced);
  }

  /** What a composed entry of facts reads back as: its class and its facts. */
  lemma EntryAnswers(kind: string, said: seq<Saying>, facts: seq<Fact>, thread: Thread, r: Result<string, Refusal>)
    requires Every(kind, NameChar) && AllLayers(said) && AllState(said, facts)
    requires r == Entry(kind, Written(said), thread) && r.Ok?
    ensures Answer(r.value, NEW) == Ok(EntryNode(NEW, [IK + kind], FactValues(IK, facts)))
  {
    EntryReads(kind, said, thread, r);
    AllSaidLayers(kind, said, thread);
    LayersUnder(ENV, said);
    IkHasNoType();
    ThreadSayable(thread);
    SaidAnswers(ENV, NEW, kind, said, facts, thread);
  }

  lemma ThreadSayable(thread: Thread)
    requires Threaded(thread)
    ensures AllSayable(ENV, Links("inReplyTo", thread.inReplyTo))
    ensures AllSayable(ENV, Links("supersedes", thread.supersedes))
  {
    AllSaidLayers([], [], thread);
    var said := AllSaid([], [], thread);
    forall k | 0 <= k < |said| ensures Sayable(ENV, said[k]) {
      assert Layers(said[k]);
    }
    assert thread.inReplyTo.Some? ==> said[1] == Links("inReplyTo", thread.inReplyTo)[0];
    assert thread.supersedes.Some? ==> said[|said| - 1] == Links("supersedes", thread.supersedes)[0];
  }

  function FileFacts(name: string, media: string, digest: string, size: string, encoding: string, content: string):
    seq<Fact>
  {
    [Fact("fileName", name), Fact("mediaType", media), Fact("contentHash", digest),
     Fact("byteSize", size), Fact("encoding", encoding), Fact("content", content)]
  }

  lemma FileLocalsDiffer(name: string, media: string, digest: string, size: string, encoding: string, content: string)
    ensures Distinct(FileFacts(name, media, digest, size, encoding, content))
  {
    var facts := FileFacts(name, media, digest, size, encoding, content);
    assert facts[0].local[0] == 'f' && facts[1].local[0] == 'm' && facts[3].local[0] == 'b' && facts[4].local[0] == 'e';
    assert facts[2].local[0] == 'c' && |facts[2].local| == 11 && facts[5].local[0] == 'c' && |facts[5].local| == 7;
  }

  lemma FileSaidStates(name: string, media: string, digest: string, size: string, encoding: string, content: string)
    requires size != [] && Every(size, IsDigit)
    ensures AllLayers(FileSaid(name, media, digest, size, encoding, content))
    ensures AllState(FileSaid(name, media, digest, size, encoding, content),
                     FileFacts(name, media, digest, size, encoding, content))
  {
    var said := FileSaid(name, media, digest, size, encoding, content);
    FactLayers("fileName", Quoted(name));
    FactLayers("mediaType", Quoted(media));
    FactLayers("contentHash", Quoted(digest));
    FactLayers("byteSize", Number(size));
    FactLayers("encoding", Quoted(encoding));
    FactLayers("content", Quoted(content));
  }

  lemma FactLayers(local: string, said: Object)
    requires Every(local, NameChar)
    requires said.Quoted? || (said.Number? && said.digits != [] && Every(said.digits, IsDigit))
    ensures Layers(Ik(local, said))
  {
  }

  /** A text whose only characters below 0x20 are tab, newline and carriage return, without 0x7F. */
  predicate Sendable(text: string) {
    forall k :: 0 <= k < |text| ==>
      var n := text[k] as int; (n >= 0x20 || n == 9 || n == 10 || n == 13) && n != 0x7F
  }

  /** These bytes are a text that can be sent as it is. */
  ghost predicate IsSendable(data: seq<byte>) {
    exists text :: Utf8.Encode(text) == data && Sendable(text)
  }

  /** Bytes are sent as text exactly when they are one that can be, and then as that text; any
      others as their base64. */
  lemma SentAsText(data: seq<byte>)
    ensures EncodeContent(data).0.AsText? <==> IsSendable(data)
    ensures EncodeContent(data).0.AsText? ==>
      Utf8.Encode(EncodeContent(data).1) == data && Sendable(EncodeContent(data).1)
    ensures EncodeContent(data).0.AsBase64? ==> EncodeContent(data).1 == Base64.Encode(data)
  {
    if text :| Utf8.Encode(text) == data && Sendable(text) {
      Utf8.DecodeEncode(text);
    }
    if Utf8.Decode(data).Some? {
      Utf8.EncodeDecode(data);
    }
  }

  /** For every byte string and accepted name, the entry that is composed, read back, is a file
      of that name whose checked bytes are exactly those bytes, sent as text exactly when they are
      one that can be. */
  lemma FileReadsBack(lib: Libraries, name: string, data: seq<byte>, media: Option<string>, thread: Thread)
    requires |data| <= ISIZE_MAX
    ensures var r := ComposeFile(lib, name, data, media, thread);
      r.Ok? ==> var answer := Answer(r.value.turtle, NEW);
        && IsThatFile(lib, answer, name, ChosenMedia(lib, name, data, media), data)
        && One(answer.value, "encoding") == Ok(if IsSendable(data) then "text" else "base64")
        && One(answer.value, "content") == Ok(r.value.content)
        && (r.value.encoding.AsText? <==> IsSendable(data))
  {
    var r := ComposeFile(lib, name, data, media, thread);
    if r.Ok? {
      SentAsText(data);
      ComposedReadsBack(lib, name, data, media, thread, r.value.turtle);
      assert r.value.encoding == EncodeContent(data).0 && r.value.content == EncodeContent(data).1;
    }
  }

  predicate IsThatFile(lib: Libraries, answer: Result<EntryNode, Failure>, name: string, media: string,
                       data: seq<byte>)
  {
    && answer.Ok? && answer.value.types == [IK + "File"]
    && One(answer.value, "fileName") == Ok(name)
    && One(answer.value, "mediaType") == Ok(media) && IsMediaType(media)
    && Bytes(lib, answer.value) == Ok(data)
  }

  lemma ComposedReadsBack(lib: Libraries, name: string, data: seq<byte>, media: Option<string>, thread: Thread,
                          turtle: string)
    requires |data| <= ISIZE_MAX
    requires ComposeFile(lib, name, data, media, thread).Ok?
    requires ComposeFile(lib, name, data, media, thread).value.turtle == turtle
    ensures IsThatFile(lib, Answer(turtle, NEW), name, ChosenMedia(lib, name, data, media), data)
    ensures One(Answer(turtle, NEW).value, "encoding") == Ok(EncodingName(EncodeContent(data).0))
    ensures One(Answer(turtle, NEW).value, "content") == Ok(EncodeContent(data).1)
  {
    var chosen := ChosenMedia(lib, name, data, media);
    var (encoding, content) := EncodeContent(data);
    var node := FileAnswers(name, chosen, Digest(lib, data), Decimal(|data|), EncodingName(encoding), content,
                            thread, turtle);
    ContentDecodes(data);
    DecimalParses(|data|);
    if media.None? {
      GuessIsMediaType(lib, name, encoding);
    }
    assert CheckedBytes(lib, node, data) == Ok(data);
  }

  /** Composing fails exactly for an unsafe name, a media type no layer takes, or a link that is
      not an IRI: no content is ever refused. */
  lemma ComposesExactly(lib: Libraries, name: string, data: seq<byte>, media: Option<string>, thread: Thread)
    ensures ComposeFile(lib, name, data, media, thread).Ok?
      <==> lib.safeName(name) && (media.Some? ==> IsMediaType(AsciiLower(media.value))) && Threaded(thread)
  {
    var chosen := ChosenMedia(lib, name, data, media);
    var (encoding, content) := EncodeContent(data);
    var said := FileSaid(name, chosen, Digest(lib, data), Decimal(|data|), EncodingName(encoding), content);
    FileSaidStates(name, chosen, Digest(lib, data), Decimal(|data|), EncodingName(encoding), content);
    FileIsName();
    EntryReads("File", said, thread, Entry("File", Written(said), thread));
  }

  lemma FileIsName()
    ensures Every("File", NameChar)
  {
    assert forall k :: 0 <= k < 4 ==> NameChar("File"[k]);
  }

  lemma FileAnswers(name: string, media: string, digest: string, size: string, encoding: string, content: string,
                    thread: Thread, turtle: string) returns (node: EntryNode)
    requires size != [] && Every(size, IsDigit)
    requires Entry("File", Written(FileSaid(name, media, digest, size, encoding, content)), thread) == Ok(turtle)
    ensures Answer(turtle, NEW) == Ok(node) && node.types == [IK + "File"]
    ensures One(node, "fileName") == Ok(name) && One(node, "mediaType") == Ok(media)
    ensures One(node, "contentHash") == Ok(digest) && One(node, "byteSize") == Ok(size)
    ensures One(node, "encoding") == Ok(encoding) && One(node, "content") == Ok(content)
  {
    var said := FileSaid(name, media, digest, size, encoding, content);
    var facts := FileFacts(name, media, digest, size, encoding, content);
    node := EntryNode(NEW, [IK + "File"], FactValues(IK, facts));
    FileSaidStates(name, media, digest, size, encoding, content);
    FileLocalsDiffer(name, media, digest, size, encoding, content);
    EntryAnswers("File", said, facts, thread, Ok(turtle));
    FactIs(node, facts, 0);
    FactIs(node, facts, 1);
    FactIs(node, facts, 2);
    FactIs(node, facts, 3);
    FactIs(node, facts, 4);
    FactIs(node, facts, 5);
  }

  /** A guessed media type is always one a layer takes. */
  lemma GuessIsMediaType(lib: Libraries, name: string, encoding: Encoding)
    ensures IsMediaType(GuessMediaType(lib, name, encoding))
  {
    PlainTextIsMediaType();
    OctetsAreMediaType();
  }

  /** What a file without a media type is given: markdown for its two extensions, the table's type
      when a layer takes it, and otherwise plain text for what is sent as text and
      `application/octet-stream` for the rest. */
  lemma GuessFallsBack(lib: Libraries, name: string, data: seq<byte>)
    ensures var guess := ChosenMedia(lib, name, data, None); var lower := AsciiLower(name);
      if EndsIn(lower, ".md") || EndsIn(lower, ".markdown") then guess == "text/markdown"
      else if lib.mime(name).Some? && IsMediaType(AsciiLower(lib.mime(name).value)) then
        guess == AsciiLower(lib.mime(name).value)
      else guess == if IsSendable(data) then "text/plain" else "application/octet-stream"
  {
    SentAsText(data);
    EndsInSuffix(AsciiLower(name), ".md");
    EndsInSuffix(AsciiLower(name), ".markdown");
    if IsMarkdown(name) {
      MarkdownIsGuessed(lib, name, EncodeContent(data).0);
    } else {
      TableIsGuessed(lib, name, EncodeContent(data).0);
    }
  }

  predicate IsMarkdown(name: string) {
    HasSuffix(AsciiLower(name), ".md") || HasSuffix(AsciiLower(name), ".markdown")
  }

  lemma MarkdownIsGuessed(lib: Libraries, name: string, encoding: Encoding)
    requires IsMarkdown(name)
    ensures GuessMediaType(lib, name, encoding) == "text/markdown"
  {
    MarkdownIsMediaType();
  }

  lemma TableIsGuessed(lib: Libraries, name: string, encoding: Encoding)
    requires !IsMarkdown(name)
    ensures GuessMediaType(lib, name, encoding)
      == if lib.mime(name).Some? && IsMediaType(AsciiLower(lib.mime(name).value)) then AsciiLower(lib.mime(name).value)
         else if encoding.AsText? then "text/plain" else "application/octet-stream"
  {
  }

  lemma MarkdownIsMediaType()
    ensures IsMediaType("text/markdown")
  {
    PlainIsMediaType("text", "markdown", "text/markdown");
  }

  ghost predicate EndsIn(s: string, suffix: string) {
    exists before :: s == before + suffix
  }

  lemma EndsInSuffix(s: string, suffix: string)
    ensures EndsIn(s, suffix) <==> HasSuffix(s, suffix)
  {
    if HasSuffix(s, suffix) {
      assert s == s[..|s| - |suffix|] + suffix;
    }
  }

  /** A media type on its characters: lowercase `type/subtype` in at most 127 bytes. */
  lemma MediaTypeLooks(kind: string, sub: string)
    requires '/' !in kind
    ensures IsMediaType(kind + ['/'] + sub)
      <==> MediaToken(kind) && MediaToken(sub) && Len(kind + ['/'] + sub) <= 127
  {
    SplitOnceUnique(kind, '/', sub);
  }

  lemma PlainTextIsMediaType()
    ensures IsMediaType("text/plain")
  {
    PlainIsMediaType("text", "plain", "text/plain");
  }

  lemma OctetsAreMediaType()
    ensures IsMediaType("application/octet-stream")
  {
    PlainIsMediaType("application", "octet-stream", "application/octet-stream");
  }

  lemma PlainIsMediaType(kind: string, sub: string, media: string)
    requires MediaToken(kind) && MediaToken(sub) && |kind| + |sub| < 30 && media == kind + ['/'] + sub
    ensures IsMediaType(media)
  {
    assert !MediaChar('/');
    SplitOnceUnique(kind, '/', sub);
    OffsetAtMost(media, |media|);
  }

  lemma {:induction false} OffsetAtMost(s: string, i: nat)
    requires i <= |s|
    ensures Offset(s, i) <= 4 * i
  {
    if i > 0 {
      OffsetAtMost(s, i - 1);
    }
  }

  /** Whenever a reader gets bytes at all, they have the one size and the one hash the entry
      states, whoever answered. */
  lemma BytesAreAsStated(lib: Libraries, node: EntryNode, data: seq<byte>)
    requires Bytes(lib, node) == Ok(data)
    ensures One(node, "byteSize").Ok? && ParseUsize(One(node, "byteSize").value) == Some(|data|)
    ensures One(node, "contentHash") == Ok(Digest(lib, data))
    ensures forall stated :: One(node, "contentHash") == Ok("sha256:" + Hex(stated)) ==> lib.sha256(data) == stated
  {
    forall stated | One(node, "contentHash") == Ok("sha256:" + Hex(stated)) ensures lib.sha256(data) == stated {
      Cancels("sha256:", Hex(lib.sha256(data)), Hex(stated));
      HexInjective(lib.sha256(data), stated);
    }
  }

  lemma Cancels(before: string, a: string, b: string)
    requires before + a == before + b
    ensures a == b
  {
    assert a == (before + a)[|before|..] && b == (before + b)[|before|..];
  }

  // ----- the size refusal -----

  /** `too_large`: whether the encoded content is over the bound, in bytes of the escaped
      literal without its quotes. */
  function TooLarge(content: string, bound: nat): (over: bool)
  {
    Len(Literal(content)) - 2 > bound
  }

  lemma LiteralLength(content: string)
    ensures Len(Literal(content)) == Len(Escaped(content)) + 2
  {
    LenConcat("\"" + Escaped(content), "\"");
    LenConcat("\"", Escaped(content));
    assert Offset("\"", 1) == Offset("\"", 0) + Width('"');
  }

  lemma {:induction false} EscapedAtLeast(text: string)
    ensures |text| <= Len(text) <= Len(Escaped(text))
  {
    LenAtLeast(text);
    if text != [] {
      assert text == [text[0]] + text[1..];
      LenConcat([text[0]], text[1..]);
      LenConcat(Escape(text[0]), Escaped(text[1..]));
      EscapeAtLeast(text[0]);
      EscapedAtLeast(text[1..]);
    }
  }

  lemma EscapeAtLeast(c: char)
    ensures Len([c]) == Width(c) <= Len(Escape(c))
  {
    assert Offset([c], 1) == Offset([c], 0) + Width(c);
    LenAtLeast(Escape(c));
  }

  lemma {:induction false} Base64IsNotEscaped(text: string)
    requires forall k :: 0 <= k < |text| ==> Base64.IsSymbol(text[k]) || text[k] == '='
    ensures Escaped(text) == text && Len(text) == |text|
  {
    if text != [] {
      Base64IsNotEscaped(text[1..]);
      assert text == [text[0]] + text[1..];
      LenConcat([text[0]], text[1..]);
      EscapeAtLeast(text[0]);
    }
  }

  /** For a file sent as base64 the refusal is exact: it passes if and only if it has at most
      the bytes the refusal names. */
  lemma Base64BoundIsExact(data: seq<byte>, bound: nat)
    requires EncodeContent(data).0.AsBase64?
    ensures !TooLarge(EncodeContent(data).1, bound) <==> |data| <= bound / 4 * 3
  {
    var content := Base64.Encode(data);
    Base64.EncodeLength(data);
    assert forall k :: 0 <= k < |content| ==> content[k] in content;
    Base64IsNotEscaped(content);
    LiteralLength(content);
    var groups := (|data| + 2) / 3;
    assert groups * 4 <= bound <==> groups <= bound / 4;
  }

  /** The bytes escaping adds: one for each quote, backslash, newline, carriage return and tab, and
      five for any other control character. */
  function Added(text: string): nat {
    if text == [] then 0 else
      var n := text[0] as int;
      (if n == 0x22 || n == 0x5C || n == 10 || n == 13 || n == 9 then 1 else if n < 0x20 || n == 0x7F then 5 else 0)
      + Added(text[1..])
  }

  lemma {:induction false} EscapedLength(text: string)
    ensures Len(Escaped(text)) == Len(text) + Added(text)
  {
    if text != [] {
      assert text == [text[0]] + text[1..];
      LenConcat([text[0]], text[1..]);
      LenConcat(Escape(text[0]), Escaped(text[1..]));
      EscapeLength(text[0]);
      EscapedLength(text[1..]);
    }
  }

  lemma EscapeLength(c: char)
    ensures Len(Escape(c)) == Len([c]) + Added([c])
  {
    var e := Escape(c);
    assert forall k :: 0 <= k < |e| && |e| > 1 ==> e[k] as int < 0x80;
    if |e| > 1 {
      NarrowLength(e, |e|);
    }
    NarrowLength([c], if c as int < 0x80 then 1 else 0);
  }

  lemma {:induction false} NarrowLength(s: string, i: nat)
    requires i <= |s| && forall k :: 0 <= k < i ==> s[k] as int < 0x80
    ensures Offset(s, i) == i
  {
    if i > 0 {
      NarrowLength(s, i - 1);
    }
  }

  /** Any content passes exactly when its bytes and those escaping adds are within the bound. */
  lemma BoundIsExact(content: string, bound: nat)
    ensures !TooLarge(content, bound) <==> Len(content) + Added(content) <= bound
  {
    LiteralLength(content);
    EscapedLength(content);
  }

  /** For any content, passing implies its characters, and its bytes, are within the bound. */
  lemma PassingFits(content: string, bound: nat)
    requires !TooLarge(content, bound)
    ensures |content| <= bound && Len(content) <= bound
  {
    LiteralLength(content);
    EscapedAtLeast(content);
  }

  // ----- what a reader takes from an answer -----

  /** The literals stated of one property of one entry, in the document's order. */
  function Stated(triples: seq<Triple>, iri: string, property: string): seq<string> {
    if triples == [] then [] else
      StatedBy(triples[0], iri, property) + Stated(triples[1..], iri, property)
  }

  /** The classes stated of it. */
  function Classes(triples: seq<Triple>, iri: string): seq<string> {
    if triples == [] then [] else
      ClassesBy(triples[0], iri) + Classes(triples[1..], iri)
  }

  function StatedBy(t: Triple, iri: string, property: string): seq<string> {
    if t.subject == iri && t.property == property && t.value.Text? then [t.value.value] else []
  }

  function ClassesBy(t: Triple, iri: string): seq<string> {
    if t.subject == iri && t.property == RDF_TYPE && t.value.Node? then [t.value.iri] else []
  }

  lemma {:induction false} StatedLast(triples: seq<Triple>, t: Triple, iri: string, property: string)
    ensures Stated(triples + [t], iri, property) == Stated(triples, iri, property) + StatedBy(t, iri, property)
  {
    if triples == [] {
      assert triples + [t] == [t] && [t][1..] == [];
      assert Stated([t], iri, property) == StatedBy(t, iri, property) + Stated([], iri, property);
    } else {
      var rest := triples[1..];
      assert (triples + [t])[1..] == rest + [t];
      StatedLast(rest, t, iri, property);
      Associate(StatedBy(triples[0], iri, property), Stated(rest, iri, property), StatedBy(t, iri, property));
    }
  }

  lemma {:induction false} ClassesLast(triples: seq<Triple>, t: Triple, iri: string)
    ensures Classes(triples + [t], iri) == Classes(triples, iri) + ClassesBy(t, iri)
  {
    if triples == [] {
      assert triples + [t] == [t] && [t][1..] == [];
      assert Classes([t], iri) == ClassesBy(t, iri) + Classes([], iri);
    } else {
      var rest := triples[1..];
      assert (triples + [t])[1..] == rest + [t];
      ClassesLast(rest, t, iri);
      Associate(ClassesBy(triples[0], iri), Classes(rest, iri), ClassesBy(t, iri));
    }
  }

  lemma ValuesOfLast(values: seq<(string, string)>, v: (string, string), property: string)
    ensures ValuesOf(values + [v], property) == ValuesOf(values, property) + if v.0 == property then [v.1] else []
  {
    assert (values + [v])[..|values|] == values;
  }

  ghost predicate Collects(node: EntryNode, found: bool, triples: seq<Triple>, iri: string, property: string) {
    && node.iri == iri && node.types == Classes(triples, iri)
    && ValuesOf(node.values, property) == Stated(triples, iri, property)
    && (found <==> exists k :: 0 <= k < |triples| && triples[k].subject == iri)
  }

  /** A node holds exactly what is stated of its own entry: its classes, and the literals of each
      property but `rdf:type`, in the document's order; and it is found when anything is. */
  lemma {:induction false} NodeHolds(triples: seq<Triple>, iri: string, property: string)
    requires property != RDF_TYPE
    ensures Collects(NodeOf(iri, triples).0, NodeOf(iri, triples).1, triples, iri, property)
  {
    if triples != [] {
      var n := |triples| - 1;
      var (node, found) := NodeOf(iri, triples[..n]);
      NodeHolds(triples[..n], iri, property);
      assert triples == triples[..n] + [triples[n]];
      CollectsLast(node, found, triples[..n], triples[n], iri, property);
    }
  }

  lemma CollectsLast(node: EntryNode, found: bool, triples: seq<Triple>, t: Triple, iri: string, property: string)
    requires property != RDF_TYPE && Collects(node, found, triples, iri, property)
    ensures Collects(if t.subject == iri then Take(node, t) else node, found || t.subject == iri,
                     triples + [t], iri, property)
  {
    StatedLast(triples, t, iri, property);
    ClassesLast(triples, t, iri);
    if t.subject == iri {
      TakeHolds(node, t, property);
    }
    FoundLast(triples, t, iri);
  }

  lemma FoundLast(triples: seq<Triple>, t: Triple, iri: string)
    ensures (exists k :: 0 <= k < |triples + [t]| && (triples + [t])[k].subject == iri)
      <==> t.subject == iri || exists k :: 0 <= k < |triples| && triples[k].subject == iri
  {
    var more := triples + [t];
    assert more[|triples|] == t && forall k :: 0 <= k < |triples| ==> more[k] == triples[k];
  }

  lemma TakeHolds(node: EntryNode, t: Triple, property: string)
    requires property != RDF_TYPE
    ensures Take(node, t).iri == node.iri && Take(node, t).types == node.types + ClassesBy(t, t.subject)
    ensures ValuesOf(Take(node, t).values, property)
      == ValuesOf(node.values, property) + StatedBy(t, t.subject, property)
  {
    if t.property != RDF_TYPE && t.value.Text? {
      ValuesOfLast(node.values, (t.property, t.value.value), property);
    }
  }

  /** A property is read only when it has one value; none and several are different refusals. */
  lemma OneExactly(node: EntryNode, local: string)
    ensures var found := ValuesOf(node.values, IK + local);
      && (One(node, local).Ok? <==> |found| == 1)
      && (|found| == 1 ==> One(node, local) == Ok(found[0]))
      && (found == [] ==> One(node, local) == Err(Missing(local)))
      && (|found| > 1 ==> One(node, local) == Err(Several(local)))
  {
  }

  /** The bytes are given back exactly when the entry has one content and one encoding, the content
      decodes to them under it, and the one size and the one hash it states are theirs. */
  lemma BytesExactly(lib: Libraries, node: EntryNode, data: seq<byte>)
    ensures Bytes(lib, node) == Ok(data) <==>
      && One(node, "content").Ok? && One(node, "encoding").Ok?
      && One(node, "byteSize").Ok? && One(node, "contentHash").Ok?
      && (if One(node, "encoding").value == "text" then data == Utf8.Encode(One(node, "content").value)
          else One(node, "encoding").value == "base64" && Base64.Decode(One(node, "content").value) == Some(data))
      && ParseUsize(One(node, "byteSize").value) == Some(|data|)
      && One(node, "contentHash").value == "sha256:" + Hex(lib.sha256(data))
  {
    assert |"text"| != |"base64"|;
  }
}
