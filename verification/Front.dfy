/** The HTTPS front's router (`front.rs`): which resource a request names, with which arguments. */
module Front {
  import opened Strings
  import opened Utf8

  datatype Verb = Source | Sink | Delete

  /** A request as the router reads it; `override` is its `X-HTTP-Method-Override` header. */
  datatype Request = Request(httpMethod: string, path: string, query: seq<(string, string)>,
                             override: Option<string>, body: seq<byte>)

  type Arg = (string, seq<byte>)

  datatype Routed = Routed(verb: Verb, iri: string, args: seq<Arg>, writeLayer: Option<string>)

  /** What is answered here instead: 404, 400 for an override, 405 with its `Allow`, and the
      typed error for an argument named twice. */
  datatype Refusal = NotFound | BadOverride(value: string) | NotAllowed(allow: seq<string>) | GivenTwice(name: string)

  const LD := "application/ld+json"
  const JSON := "application/json"

  predicate IsRead(m: string) {
    m == "GET" || m == "HEAD"
  }

  predicate LayerChar(c: char) {
    'a' <= c <= 'z' || '0' <= c <= '9' || c == '-'
  }

  predicate SegmentChar(c: char) {
    'a' <= c <= 'z' || 'A' <= c <= 'Z' || '0' <= c <= '9' || c == '.' || c == '_' || c == '-' || c == '~'
  }

  /** Every character is one byte, so characters are what is counted. */
  predicate IsLayer(name: string) {
    1 <= |name| <= 24 && forall k :: 0 <= k < |name| ==> LayerChar(name[k])
  }

  predicate IsSegment(id: string) {
    1 <= |id| <= 128 && forall k :: 0 <= k < |id| ==> SegmentChar(id[k])
  }

  function NonEmpty(parts: seq<string>): (r: seq<string>)
    ensures forall p :: p in r <==> p in parts && p != []
  {
    if parts == [] then []
    else if parts[0] == [] then NonEmpty(parts[1..])
    else [parts[0]] + NonEmpty(parts[1..])
  }

  function Segments(path: string): seq<string> {
    NonEmpty(SplitOn(path, '/'))
  }

  // ----- the table -----

  /** A row of the table, once it is chosen: the method it takes, what it asks of which resource,
      the face it has by default, and the layer a body is written under. */
  datatype Row = Row(reading: bool, verb: Verb, iri: string, face: Option<string>, writeLayer: Option<string>)

  function Reading(iri: string, face: Option<string>): Row {
    Row(true, Source, iri, face, None)
  }

  function At(layer: string, local: string): string {
    "urn:layer:" + layer + ":" + local
  }

  predicate Asks(query: seq<(string, string)>, name: string) {
    exists k :: 0 <= k < |query| && query[k].0 == name
  }

  /** One tuple is a graph; a list of them is a list. */
  function Tuples(layer: string, query: seq<(string, string)>): Row {
    Reading(At(layer, "tuples"), Some(if Asks(query, "tuple") then LD else JSON))
  }

  function Lower(c: char): char {
    if 'A' <= c <= 'Z' then c - 'A' + 'a' else c
  }

  predicate SameIgnoringCase(a: string, b: string) {
    |a| == |b| && forall k :: 0 <= k < |a| ==> Lower(a[k]) == Lower(b[k])
  }

  function OwnName(req: Request, layer: string): Result<Row, Refusal> {
    if IsRead(req.httpMethod) then Ok(Tuples(layer, req.query))
    else
      match req.override
      case None => Ok(Row(false, Sink, At(layer, "tuples"), Some(JSON), Some(layer)))
      case Some(o) =>
        if SameIgnoringCase(Trim(o), "DELETE") then Ok(Row(false, Delete, At(layer, "tuples"), Some(LD), None))
        else Err(BadOverride(o))
  }

  function LayerRow(req: Request, layer: string, local: string): Result<Row, Refusal> {
    if local == "context" then Ok(Reading(At(layer, local), None))
    else if local == "entries" || local == "latest" then Ok(Reading(At(layer, local), Some(LD)))
    else if local == "feed" then Ok(Reading(At(layer, local), Some(JSON)))
    else if local == "rd" then Ok(Tuples(layer, req.query))
    else if local == "say" then Ok(Row(false, Sink, At(layer, local), Some(JSON), Some(layer)))
    else if local == "out" then Ok(Row(false, Sink, At(layer, "tuples"), Some(JSON), Some(layer)))
    else if local == "take" then Ok(Row(false, Delete, At(layer, "tuples"), Some(LD), None))
    else if local == "tuples" then OwnName(req, layer)
    else Err(NotFound)
  }

  /** The rows whose last segment names one of many. */
  predicate IsCollection(name: string) {
    name == "entry" || name == "graph" || name == "receipt"
  }

  predicate IsLayers(segments: seq<string>) {
    |segments| == 2 && segments[0] == "layers" && (segments[1] == "me" || segments[1] == "feed")
  }

  predicate IsLayerPath(segments: seq<string>) {
    |segments| >= 2 && segments[0] == "layer" && IsLayer(segments[1])
  }

  function Chosen(req: Request, segments: seq<string>): Result<Row, Refusal> {
    if IsLayers(segments) then Ok(Reading("urn:layers:" + segments[1], Some(JSON)))
    else if !IsLayerPath(segments) then Err(NotFound)
    else if |segments| == 3 then LayerRow(req, segments[1], segments[2])
    else if |segments| == 4 && IsCollection(segments[2]) && IsSegment(segments[3]) then
      Ok(Reading(At(segments[1], segments[2] + ":" + segments[3]), Some(LD)))
    else Err(NotFound)
  }

  predicate Takes(row: Row, m: string) {
    if row.reading then IsRead(m) else m == "POST"
  }

  /** The `Allow` of a 405: by the last segment's name, then by the row. */
  function AllowOf(segments: seq<string>, row: Row): seq<string> {
    if segments != [] && segments[|segments| - 1] == "tuples" then ["GET", "HEAD", "POST"]
    else if row.reading then ["GET", "HEAD"]
    else ["POST"]
  }

  // ----- the arguments -----

  /** The query, without what the caller may not name. */
  function Given(query: seq<(string, string)>): (args: seq<Arg>)
    ensures forall a :: a in args ==> a.0 != "principal" && a.0 != "content"
  {
    if query == [] then [] else
      var last := query[|query| - 1];
      Given(query[..|query| - 1])
      + if last.0 == "principal" || last.0 == "content" then [] else [(last.0, Encode(last.1))]
  }

  predicate Named(args: seq<Arg>, name: string) {
    exists k :: 0 <= k < |args| && args[k].0 == name
  }

  predicate Repeats(args: seq<Arg>, k: nat)
    requires k < |args|
  {
    Named(args[..k], args[k].0)
  }

  /** The first repeated argument at or after `k`. */
  function FirstRepeat(args: seq<Arg>, k: nat): Option<string>
    requires k <= |args|
    decreases |args| - k
  {
    if k == |args| then None
    else if Repeats(args, k) then Some(args[k].0)
    else FirstRepeat(args, k + 1)
  }

  function WithFace(args: seq<Arg>, face: Option<string>): seq<Arg> {
    if face.Some? && !Named(args, "as") then args + [("as", Encode(face.value))] else args
  }

  function Arguments(req: Request, row: Row): seq<Arg> {
    WithFace(Given(req.query), row.face) + if row.verb.Sink? then [("content", req.body)] else []
  }

  /** What becomes of a request whose row is chosen. */
  function Settled(req: Request, segments: seq<string>, row: Row): Result<Routed, Refusal> {
    if !Takes(row, req.httpMethod) then Err(NotAllowed(AllowOf(segments, row)))
    else
      match FirstRepeat(Given(req.query), 0)
      case Some(name) => Err(GivenTwice(name))
      case None => Ok(Routed(row.verb, row.iri, Arguments(req, row), row.writeLayer))
  }

  function RouteOf(req: Request): Result<Routed, Refusal> {
    var segments := Segments(req.path);
    match Chosen(req, segments)
    case Err(e) => Err(e)
    case Ok(row) => Settled(req, segments, row)
  }

  /** `route`, with the loop that looks for a repeated name. */
  method Route(req: Request) returns (r: Result<Routed, Refusal>)
    ensures r == RouteOf(req)
  {
    var segments := Segments(req.path);
    var chosen := Chosen(req, segments);
    if chosen.Err? {
      return Err(chosen.error);
    }
    var row := chosen.value;
    if !Takes(row, req.httpMethod) {
      return Err(NotAllowed(AllowOf(segments, row)));
    }
    var args := Given(req.query);
    var seen: seq<string> := [];
    for k := 0 to |args|
      invariant |seen| == k && forall j :: 0 <= j < k ==> seen[j] == args[j].0
      invariant FirstRepeat(args, 0) == FirstRepeat(args, k)
    {
      SeenIsNamed(args, seen, k);
      if args[k].0 in seen {
        return Err(GivenTwice(args[k].0));
      }
      seen := seen + [args[k].0];
    }
    return Ok(Routed(row.verb, row.iri, Arguments(req, row), row.writeLayer));
  }

  lemma SeenIsNamed(args: seq<Arg>, seen: seq<string>, k: nat)
    requires k < |args| && |seen| == k && forall j :: 0 <= j < k ==> seen[j] == args[j].0
    ensures args[k].0 in seen <==> Repeats(args, k)
  {
    var past := args[..k];
    if args[k].0 in seen {
      var j :| 0 <= j < k && seen[j] == args[k].0;
      assert past[j].0 == args[k].0;
    }
    if Repeats(args, k) {
      var j :| 0 <= j < |past| && past[j].0 == args[k].0;
      assert seen[j] == args[k].0;
    }
  }

  // ----- the resource -----

  /** `rd`, `out` and `take` name verbs, not resources. */
  predicate IsVerbName(segments: seq<string>) {
    |segments| == 3 && (segments[2] == "rd" || segments[2] == "out" || segments[2] == "take")
  }

  function Resource(segments: seq<string>): seq<string> {
    if IsVerbName(segments) then segments[..2] + ["tuples"] else segments
  }

  /** Every accepted route's IRI is `urn:` and its path's segments joined by colons (a verb name
      standing for `tuples`), and splitting the IRI gives those segments back. */
  lemma IriIsThePath(req: Request)
    ensures RouteOf(req).Ok? ==>
      var names := Resource(Segments(req.path));
      && RouteOf(req).value.iri == "urn:" + Joined(names, [':'])
      && SplitOn(RouteOf(req).value.iri, ':') == ["urn"] + names
  {
    if RouteOf(req).Ok? {
      IriJoins(req, Segments(req.path));
      SplitsBack(Resource(Segments(req.path)));
    }
  }

  lemma SplitsBack(names: seq<string>)
    requires names != [] && Free(names, ':')
    ensures SplitOn("urn:" + Joined(names, [':']), ':') == ["urn"] + names
  {
    SplitsAfter("urn", names);
    assert "urn" + [':'] == "urn:";
  }

  lemma SplitsAfter(scheme: string, names: seq<string>)
    requires names != [] && Free(names, ':') && ':' !in scheme
    ensures SplitOn(scheme + [':'] + Joined(names, [':']), ':') == [scheme] + names
  {
    var all := [scheme] + names;
    assert all[1..] == names;
    assert forall k :: 0 < k < |all| ==> all[k] == names[k - 1];
    SplitOnUnique(all, ':');
  }

  lemma IriJoins(req: Request, segments: seq<string>)
    requires Chosen(req, segments).Ok?
    ensures Resource(segments) != [] && Free(Resource(segments), ':')
    ensures Chosen(req, segments).value.iri == "urn:" + Joined(Resource(segments), [':'])
  {
    if IsLayers(segments) {
      assert segments == [segments[0], segments[1]];
      JoinedTwo(segments[0], segments[1]);
      assert "urn:layers:" == "urn:" + "layers" + [':'];
    } else if |segments| == 3 {
      LayerRowNames(req, segments[1], segments[2]);
      ThreeJoin(segments[0], segments[1], Resource(segments)[2]);
      assert Resource(segments) == [segments[0], segments[1], Resource(segments)[2]];
    } else {
      assert segments == [segments[0], segments[1], segments[2], segments[3]];
      FourJoin(segments[0], segments[1], segments[2], segments[3]);
    }
  }

  lemma ThreeJoin(a: string, layer: string, local: string)
    requires a == "layer"
    ensures At(layer, local) == "urn:" + Joined([a, layer, local], [':'])
  {
    JoinedThree(a, layer, local);
    AtJoins(layer, local);
  }

  lemma FourJoin(a: string, layer: string, local: string, id: string)
    requires a == "layer"
    ensures At(layer, local + ":" + id) == "urn:" + Joined([a, layer, local, id], [':'])
  {
    JoinedFour(a, layer, local, id);
    Nested(local, id);
    AtJoins(layer, local + [':'] + id);
    assert layer + [':'] + (local + [':'] + id) == layer + [':'] + (local + ([':'] + id));
  }

  /** A path written from segments is read as those segments. */
  lemma PathIsItsSegments(names: seq<string>)
    requires names != [] && [] !in names && Free(names, '/')
    ensures Segments(['/'] + Joined(names, ['/'])) == names
  {
    var all := [[]] + names;
    assert all[1..] == names;
    assert Joined(all, ['/']) == [] + ['/'] + Joined(names, ['/']) == ['/'] + Joined(names, ['/']);
    assert forall k :: 0 < k < |all| ==> all[k] == names[k - 1];
    SplitOnUnique(all, '/');
    NonEmptyKeeps(names);
  }

  lemma {:induction false} NonEmptyKeeps(names: seq<string>)
    requires [] !in names
    ensures NonEmpty(names) == names
  {
    if names != [] {
      NonEmptyKeeps(names[1..]);
    }
  }

  lemma AtJoins(layer: string, local: string)
    ensures At(layer, local) == "urn:" + ("layer" + [':'] + (layer + [':'] + local))
  {
  }

  lemma Nested(a: string, b: string)
    ensures a + ":" + b == a + [':'] + b
  {
  }

  lemma JoinedTwo(a: string, b: string)
    ensures Joined([a, b], [':']) == a + [':'] + b
  {
    assert [a, b][1..] == [b];
  }

  lemma JoinedThree(a: string, b: string, c: string)
    ensures Joined([a, b, c], [':']) == a + [':'] + (b + [':'] + c)
  {
    assert [a, b, c][1..] == [b, c];
    JoinedTwo(b, c);
  }

  lemma JoinedFour(a: string, b: string, c: string, d: string)
    ensures Joined([a, b, c, d], [':']) == a + [':'] + (b + [':'] + (c + [':'] + d))
  {
    assert [a, b, c, d][1..] == [b, c, d];
    JoinedThree(b, c, d);
  }

  /** A layer's row is for the resource its name says, or for its tuples. */
  lemma LayerRowNames(req: Request, layer: string, local: string)
    requires LayerRow(req, layer, local).Ok?
    ensures LayerRow(req, layer, local).value.iri
      == At(layer, if local == "rd" || local == "out" || local == "take" then "tuples" else local)
    ensures ':' !in local
  {
  }

  // ----- the arguments -----

  predicate DistinctNames(args: seq<Arg>) {
    forall j, k :: 0 <= j < k < |args| ==> args[j].0 != args[k].0
  }

  lemma {:induction false} NoRepeatIsDistinct(args: seq<Arg>, k: nat)
    requires k <= |args|
    ensures FirstRepeat(args, k).None? <==> forall j :: k <= j < |args| ==> !Repeats(args, j)
    decreases |args| - k
  {
    if k < |args| && !Repeats(args, k) {
      NoRepeatIsDistinct(args, k + 1);
    }
  }

  lemma DistinctIsUnrepeated(args: seq<Arg>)
    ensures DistinctNames(args) <==> forall j :: 0 <= j < |args| ==> !Repeats(args, j)
  {
    forall k | 0 <= k < |args|
      ensures Repeats(args, k) <==> exists j :: 0 <= j < k && args[j].0 == args[k].0
    {
      var past := args[..k];
      if Repeats(args, k) {
        var j :| 0 <= j < |past| && past[j].0 == args[k].0;
        assert args[j].0 == args[k].0;
      }
      if exists j :: 0 <= j < k && args[j].0 == args[k].0 {
        var j :| 0 <= j < k && args[j].0 == args[k].0;
        assert past[j].0 == args[k].0;
      }
    }
  }

  /** A routed request's arguments have one value each, never name the principal, and carry the
      body as `content` exactly when it is written; a request is refused for a repeat exactly
      when what it may name is named twice. */
  lemma ArgumentsAreSafe(req: Request)
    ensures RouteOf(req).Ok? ==> Safe(req, RouteOf(req).value)
  {
    if RouteOf(req).Ok? {
      SettledIsSafe(req, Segments(req.path), Chosen(req, Segments(req.path)).value);
    }
  }

  ghost predicate Safe(req: Request, routed: Routed) {
    && DistinctNames(Given(req.query))
    && DistinctNames(routed.args)
    && !Named(routed.args, "principal")
    && (Named(routed.args, "content") <==> routed.verb.Sink?)
    && (routed.verb.Sink? ==> routed.args[|routed.args| - 1] == ("content", req.body))
    && Given(req.query) <= routed.args
  }

  lemma SettledIsSafe(req: Request, segments: seq<string>, row: Row)
    requires Settled(req, segments, row).Ok?
    ensures Safe(req, Settled(req, segments, row).value)
  {
    var given := Given(req.query);
    NoRepeatIsDistinct(given, 0);
    DistinctIsUnrepeated(given);
    ArgumentsKeep(given, row.face, row.verb, req.body);
  }

  lemma ArgumentsKeep(given: seq<Arg>, face: Option<string>, verb: Verb, body: seq<byte>)
    requires DistinctNames(given) && !Named(given, "principal") && !Named(given, "content")
    ensures var args := WithFace(given, face) + if verb.Sink? then [("content", body)] else [];
      && DistinctNames(args)
      && !Named(args, "principal")
      && (Named(args, "content") <==> verb.Sink?)
      && given <= args
  {
    FaceKeeps(given, face);
    var faced := WithFace(given, face);
    OneMore(faced, ("content", body), "principal");
    OneMore(faced, ("content", body), "content");
    assert faced + [] == faced;
  }

  lemma OneMore(args: seq<Arg>, a: Arg, name: string)
    ensures Named(args + [a], name) <==> Named(args, name) || a.0 == name
    ensures DistinctNames(args + [a]) <==> DistinctNames(args) && !Named(args, a.0)
  {
    var more := args + [a];
    assert more[|args|] == a && forall k :: 0 <= k < |args| ==> more[k] == args[k];
    if Named(args, name) {
      var k :| 0 <= k < |args| && args[k].0 == name;
      assert more[k].0 == name;
    }
  }

  lemma FaceKeeps(given: seq<Arg>, face: Option<string>)
    requires DistinctNames(given) && !Named(given, "principal") && !Named(given, "content")
    ensures var faced := WithFace(given, face);
      DistinctNames(faced) && !Named(faced, "principal") && !Named(faced, "content") && given <= faced
  {
    if face.Some? {
      OneMore(given, ("as", Encode(face.value)), "principal");
      OneMore(given, ("as", Encode(face.value)), "content");
    }
  }

  predicate WellFormed(row: Row, segments: seq<string>) {
    && (row.verb.Source? <==> row.reading)
    && (row.writeLayer.Some? <==> row.verb.Sink?)
    && (row.writeLayer.Some? ==> IsLayerPath(segments) && row.writeLayer.value == segments[1])
  }

  lemma ChosenIsWellFormed(req: Request, segments: seq<string>)
    requires Chosen(req, segments).Ok?
    ensures WellFormed(Chosen(req, segments).value, segments)
  {
  }

  lemma SettledTakes(req: Request, segments: seq<string>, row: Row)
    requires WellFormed(row, segments) && Settled(req, segments, row).Ok?
    ensures var routed := Settled(req, segments, row).value;
      && routed.verb == row.verb && routed.writeLayer == row.writeLayer
      && (row.reading <==> IsRead(req.httpMethod)) && (!row.reading <==> req.httpMethod == "POST")
  {
  }

  /** Reading reads: only a POST writes or takes, and what is written is under the path's layer. */
  lemma OnlyPostWrites(req: Request)
    ensures RouteOf(req).Ok? ==>
      var routed := RouteOf(req).value; var segments := Segments(req.path);
      && (routed.verb.Source? <==> IsRead(req.httpMethod))
      && (!routed.verb.Source? <==> req.httpMethod == "POST")
      && (routed.writeLayer.Some? <==> routed.verb.Sink?)
      && (routed.writeLayer.Some? ==> IsLayerPath(segments) && routed.writeLayer.value == segments[1])
  {
    if RouteOf(req).Ok? {
      var segments := Segments(req.path);
      ChosenIsWellFormed(req, segments);
      SettledTakes(req, segments, Chosen(req, segments).value);
    }
  }

  // ----- the verbs -----

  predicate OverridesToDelete(req: Request) {
    req.override.Some? && SameIgnoringCase(Trim(req.override.value), "DELETE")
  }

  predicate OwnNamed(segments: seq<string>) {
    |segments| == 3 && segments[2] == "tuples"
  }

  predicate AsksToTake(req: Request, segments: seq<string>) {
    |segments| == 3 &&
    (segments[2] == "take" || (OwnNamed(segments) && !IsRead(req.httpMethod) && OverridesToDelete(req)))
  }

  predicate AsksToWrite(req: Request, segments: seq<string>) {
    |segments| == 3 &&
    (segments[2] == "say" || segments[2] == "out"
     || (OwnNamed(segments) && !IsRead(req.httpMethod) && req.override.None?))
  }

  /** What a routed request does: it takes under `take`, and under the tuples' own name when it
      overrides to DELETE; it writes under `say` and `out`, and under the tuples' own name by a
      POST that overrides nothing; otherwise it reads. */
  lemma VerbByName(req: Request)
    ensures RouteOf(req).Ok? ==>
      var verb := RouteOf(req).value.verb; var segments := Segments(req.path);
      (verb.Delete? <==> AsksToTake(req, segments)) && (verb.Sink? <==> AsksToWrite(req, segments))
  {
    if RouteOf(req).Ok? {
      var segments := Segments(req.path);
      ChosenVerb(req, segments);
      SettledVerb(req, segments, Chosen(req, segments).value);
    }
  }

  lemma SettledVerb(req: Request, segments: seq<string>, row: Row)
    requires Settled(req, segments, row).Ok?
    ensures Settled(req, segments, row).value.verb == row.verb
  {
  }

  lemma ChosenVerb(req: Request, segments: seq<string>)
    requires Chosen(req, segments).Ok?
    ensures var verb := Chosen(req, segments).value.verb;
      (verb.Delete? <==> AsksToTake(req, segments)) && (verb.Sink? <==> AsksToWrite(req, segments))
  {
  }

  /** What is answered as a graph by default: entries one by one or together, what is taken, and
      one tuple. */
  predicate AnswersGraph(req: Request, segments: seq<string>) {
    || |segments| == 4
    || AsksToTake(req, segments)
    || (|segments| == 3 && (segments[2] == "entries" || segments[2] == "latest"
                            || (segments[2] == "rd" && Asks(req.query, "tuple"))
                            || (OwnNamed(segments) && IsRead(req.httpMethod) && Asks(req.query, "tuple"))))
  }

  /** The default face: none for a layer's context, JSON-LD for a graph, JSON for the rest; and
      only where the query names none. */
  lemma FaceByName(req: Request)
    ensures RouteOf(req).Ok? ==>
      var routed := RouteOf(req).value; var segments := Segments(req.path); var given := Given(req.query);
      var context := |segments| == 3 && segments[2] == "context";
      if Named(given, "as") || context then
        routed.args == given + (if routed.verb.Sink? then [("content", req.body)] else [])
      else
        |given| < |routed.args|
        && routed.args[|given|] == ("as", Encode(if AnswersGraph(req, segments) then LD else JSON))
  {
    if RouteOf(req).Ok? {
      var segments := Segments(req.path);
      ChosenFace(req, segments);
      SettledFace(req, segments, Chosen(req, segments).value);
    }
  }

  lemma ChosenFace(req: Request, segments: seq<string>)
    requires Chosen(req, segments).Ok?
    ensures Chosen(req, segments).value.face
      == if |segments| == 3 && segments[2] == "context" then None
         else Some(if AnswersGraph(req, segments) then LD else JSON)
  {
  }

  lemma SettledFace(req: Request, segments: seq<string>, row: Row)
    requires Settled(req, segments, row).Ok?
    ensures var routed := Settled(req, segments, row).value; var given := Given(req.query);
      && routed.verb == row.verb
      && (if Named(given, "as") || row.face.None? then
            routed.args == given + (if row.verb.Sink? then [("content", req.body)] else [])
          else |given| < |routed.args| && routed.args[|given|] == ("as", Encode(row.face.value)))
  {
  }

  /** The tuples' own name is `rd`, `out` and `take` by another name: a request to it routes as
      the one to the verb's name, whatever else it says. */
  lemma OwnNameIsTheVerbs(req: Request, named: Request, segments: seq<string>, verb: string)
    requires segments == Segments(req.path) && IsLayerPath(segments) && OwnNamed(segments)
    requires Segments(named.path) == segments[2 := verb] && named == req.(path := named.path)
    requires if IsRead(req.httpMethod) then verb == "rd"
             else if req.override.None? then verb == "out"
             else verb == "take" && OverridesToDelete(req)
    ensures RouteOf(named).Ok? <==> RouteOf(req).Ok?
    ensures RouteOf(req).Ok? ==> RouteOf(named) == RouteOf(req)
  {
    OwnRow(req, named, segments, verb);
    SameRowRoutes(req, named, segments, segments[2 := verb], Chosen(req, segments).value);
  }

  lemma OwnRow(req: Request, named: Request, segments: seq<string>, verb: string)
    requires IsLayerPath(segments) && OwnNamed(segments)
    requires named == req.(path := named.path)
    requires if IsRead(req.httpMethod) then verb == "rd"
             else if req.override.None? then verb == "out"
             else verb == "take" && OverridesToDelete(req)
    ensures Chosen(req, segments).Ok? && Chosen(named, segments[2 := verb]) == Chosen(req, segments)
  {
    assert |"take"| != |"tuples"|;
  }

  lemma SameRowRoutes(req: Request, named: Request, segments: seq<string>, others: seq<string>, row: Row)
    requires named == req.(path := named.path)
    ensures Settled(named, others, row).Ok? <==> Settled(req, segments, row).Ok?
    ensures Settled(req, segments, row).Ok? ==> Settled(named, others, row) == Settled(req, segments, row)
  {
  }

  // ----- methods -----

  /** HEAD routes as GET, on every request. */
  lemma HeadIsGet(req: Request)
    ensures RouteOf(req.(httpMethod := "HEAD")) == RouteOf(req.(httpMethod := "GET"))
  {
    var head, get := req.(httpMethod := "HEAD"), req.(httpMethod := "GET");
    var segments := Segments(req.path);
    assert IsRead("HEAD") && IsRead("GET");
    assert Chosen(head, segments) == Chosen(get, segments);
  }

  predicate IsRefusedMethod(req: Request) {
    RouteOf(req).Err? && RouteOf(req).error.NotAllowed?
  }

  /** One of many that happens to be called `tuples`. */
  predicate Misnamed(segments: seq<string>) {
    |segments| == 4 && segments[3] == "tuples"
  }

  /** A 405's `Allow` names exactly the methods this request would be let through with, if and
      only if its path does not end in an entry, graph or receipt called `tuples`. */
  lemma AllowIsExact(req: Request)
    requires IsRefusedMethod(req)
    ensures (forall m :: m in RouteOf(req).error.allow <==> !IsRefusedMethod(req.(httpMethod := m)))
      <==> !Misnamed(Segments(req.path))
  {
    var segments := Segments(req.path);
    if Misnamed(segments) {
      MisnamedRefusesPost(req, segments);
    } else {
      forall m ensures m in RouteOf(req).error.allow <==> !IsRefusedMethod(req.(httpMethod := m)) {
        AllowTells(req, segments, m);
      }
    }
  }

  lemma MisnamedRefusesPost(req: Request, segments: seq<string>)
    requires IsRefusedMethod(req) && segments == Segments(req.path) && Misnamed(segments)
    ensures "POST" in RouteOf(req).error.allow && IsRefusedMethod(req.(httpMethod := "POST"))
  {
    MethodMatters(req, "POST", segments);
    var row := Chosen(req, segments).value;
    MisnamedReads(req, segments);
    AllowIsWide(req, segments, row);
    TakesTells(req.(httpMethod := "POST"), segments, row);
  }

  lemma MisnamedReads(req: Request, segments: seq<string>)
    requires Misnamed(segments) && Chosen(req, segments).Ok?
    ensures Chosen(req, segments).value.reading
  {
  }

  lemma AllowIsWide(req: Request, segments: seq<string>, row: Row)
    requires Settled(req, segments, row).Err? && Settled(req, segments, row).error.NotAllowed?
    requires segments != [] && segments[|segments| - 1] == "tuples"
    ensures Settled(req, segments, row).error.allow == ["GET", "HEAD", "POST"]
  {
  }

  lemma AllowTells(req: Request, segments: seq<string>, m: string)
    requires IsRefusedMethod(req) && segments == Segments(req.path) && !Misnamed(segments)
    ensures m in RouteOf(req).error.allow <==> !IsRefusedMethod(req.(httpMethod := m))
  {
    var other := req.(httpMethod := m);
    var row := Chosen(req, segments).value;
    if |segments| == 3 && segments[2] == "tuples" {
      OwnNameTakes(req, segments);
      OwnNameTakes(other, segments);
    } else {
      MethodMatters(req, m, segments);
      AllowOfRow(req, segments, row);
      TakesTells(other, segments, row);
    }
  }

  /** The method decides the row only under the resource's own name. */
  lemma MethodMatters(req: Request, m: string, segments: seq<string>)
    requires !(|segments| == 3 && segments[2] == "tuples")
    ensures Chosen(req.(httpMethod := m), segments) == Chosen(req, segments)
  {
  }

  lemma OwnNameTakes(req: Request, segments: seq<string>)
    requires segments == Segments(req.path) && IsLayerPath(segments)
    requires |segments| == 3 && segments[2] == "tuples"
    ensures IsRefusedMethod(req) <==> Chosen(req, segments).Ok? && !IsRead(req.httpMethod) && req.httpMethod != "POST"
    ensures IsRefusedMethod(req) ==> RouteOf(req).error.allow == ["GET", "HEAD", "POST"]
  {
  }

  lemma AllowOfRow(req: Request, segments: seq<string>, row: Row)
    requires Settled(req, segments, row).Err? && Settled(req, segments, row).error.NotAllowed?
    requires segments != [] && segments[|segments| - 1] != "tuples"
    ensures Settled(req, segments, row).error.allow == if row.reading then ["GET", "HEAD"] else ["POST"]
  {
  }

  lemma TakesTells(req: Request, segments: seq<string>, row: Row)
    ensures Settled(req, segments, row).Err? && Settled(req, segments, row).error.NotAllowed?
      <==> !Takes(row, req.httpMethod)
  {
  }

  /** POST to a layer's entry, graph or receipt called `tuples` is refused with an `Allow` that
      names POST. */
  lemma MisnamedEntry(req: Request, segments: seq<string>)
    requires req.httpMethod == "POST" && segments == Segments(req.path)
    requires |segments| == 4 && segments[0] == "layer" && IsLayer(segments[1])
    requires IsCollection(segments[2]) && segments[3] == "tuples"
    ensures RouteOf(req) == Err(NotAllowed(["GET", "HEAD", "POST"]))
  {
    MisnamedRow(req, segments);
    TakesTells(req, segments, Chosen(req, segments).value);
    AllowIsWide(req, segments, Chosen(req, segments).value);
  }

  lemma MisnamedRow(req: Request, segments: seq<string>)
    requires |segments| == 4 && segments[0] == "layer" && IsLayer(segments[1])
    requires IsCollection(segments[2]) && segments[3] == "tuples"
    ensures Chosen(req, segments).Ok? && Chosen(req, segments).value.reading
  {
    assert forall k :: 0 <= k < 6 ==> SegmentChar("tuples"[k]);
  }

  // ----- which requests are accepted -----

  /** `[a-z0-9-]`, 1 to 24 of them. */
  predicate LayerNamed(l: string) {
    1 <= |l| <= 24 && forall k :: 0 <= k < |l| ==> 'a' <= l[k] <= 'z' || '0' <= l[k] <= '9' || l[k] == '-'
  }

  /** Unreserved characters, 1 to 128 of them. */
  predicate IdNamed(id: string) {
    1 <= |id| <= 128 &&
    forall k :: 0 <= k < |id| ==>
      || 'a' <= id[k] <= 'z' || 'A' <= id[k] <= 'Z' || '0' <= id[k] <= '9'
      || id[k] == '.' || id[k] == '_' || id[k] == '-' || id[k] == '~'
  }

  predicate ReadName(name: string) {
    name == "context" || name == "entries" || name == "latest" || name == "feed" || name == "rd"
  }

  predicate PostName(name: string) {
    name == "say" || name == "out" || name == "take"
  }

  /** The paths of the documented table. */
  predicate Listed(segments: seq<string>) {
    || segments == ["layers", "me"]
    || segments == ["layers", "feed"]
    || (|segments| == 3 && segments[0] == "layer" && LayerNamed(segments[1])
        && (ReadName(segments[2]) || PostName(segments[2]) || segments[2] == "tuples"))
    || (|segments| == 4 && segments[0] == "layer" && LayerNamed(segments[1]) && IdNamed(segments[3])
        && (segments[2] == "entry" || segments[2] == "graph" || segments[2] == "receipt"))
  }

  /** The methods its row takes: POST for the three that write or take, either for the tuples' own
      name, GET and HEAD for the rest. */
  predicate TakesMethod(segments: seq<string>, m: string) {
    if |segments| == 3 && PostName(segments[2]) then m == "POST"
    else if |segments| == 3 && segments[2] == "tuples" then m == "GET" || m == "HEAD" || m == "POST"
    else m == "GET" || m == "HEAD"
  }

  /** An override that is not DELETE, where one is read. */
  predicate OverridesBadly(req: Request, segments: seq<string>) {
    && |segments| == 3 && segments[2] == "tuples" && req.httpMethod != "GET" && req.httpMethod != "HEAD"
    && req.override.Some? && !SameIgnoringCase(Trim(req.override.value), "DELETE")
  }

  lemma NamesAreNames(name: string)
    ensures IsLayer(name) <==> LayerNamed(name)
    ensures IsSegment(name) <==> IdNamed(name)
  {
    assert forall k :: 0 <= k < |name| ==> (LayerChar(name[k]) <==>
                                            'a' <= name[k] <= 'z' || '0' <= name[k] <= '9' || name[k] == '-');
  }

  lemma LayersAreTwo(segments: seq<string>)
    ensures IsLayers(segments) <==> segments == ["layers", "me"] || segments == ["layers", "feed"]
  {
    assert |segments| == 2 ==> segments == [segments[0], segments[1]];
  }

  lemma LayerRowListed(req: Request, layer: string, local: string)
    ensures LayerRow(req, layer, local) == Err(NotFound) <==> !(ReadName(local) || PostName(local) || local == "tuples")
    ensures LayerRow(req, layer, local).Err? && local != "tuples" ==> LayerRow(req, layer, local) == Err(NotFound)
  {
  }

  lemma ChosenIsListed(req: Request, segments: seq<string>)
    ensures Chosen(req, segments) == Err(NotFound) <==> !Listed(segments)
  {
    LayersAreTwo(segments);
    if |segments| >= 2 {
      NamesAreNames(segments[1]);
    }
    if |segments| == 3 {
      LayerRowListed(req, segments[1], segments[2]);
    }
    if |segments| == 4 {
      NamesAreNames(segments[3]);
    }
  }

  lemma ChosenOverride(req: Request, segments: seq<string>)
    requires Listed(segments)
    ensures Chosen(req, segments).Err? <==> OverridesBadly(req, segments)
    ensures Chosen(req, segments).Err? ==> Chosen(req, segments) == Err(BadOverride(req.override.value))
  {
    ChosenIsListed(req, segments);
  }

  lemma ChosenTakes(req: Request, segments: seq<string>)
    requires Listed(segments) && Chosen(req, segments).Ok?
    ensures Takes(Chosen(req, segments).value, req.httpMethod) <==> TakesMethod(segments, req.httpMethod)
  {
    ChosenIsListed(req, segments);
  }

  lemma SettledAccepts(req: Request, segments: seq<string>, row: Row)
    ensures Settled(req, segments, row).Ok? <==> Takes(row, req.httpMethod) && DistinctNames(Given(req.query))
    ensures Settled(req, segments, row).Err? && Takes(row, req.httpMethod) ==>
      Settled(req, segments, row).error.GivenTwice?
    ensures Settled(req, segments, row) != Err(NotFound)
  {
    NoRepeatIsDistinct(Given(req.query), 0);
    DistinctIsUnrepeated(Given(req.query));
  }

  /** A path off the table is not found. On it, a request is accepted exactly when its override is
      none or a DELETE where one is read, its row takes its method, and it names nothing it may
      name twice; and what is wrong is answered in that order. */
  lemma AcceptedExactly(req: Request)
    ensures var r := RouteOf(req); var segments := Segments(req.path);
      && (r == Err(NotFound) <==> !Listed(segments))
      && (r.Ok? <==> Listed(segments) && !OverridesBadly(req, segments) && TakesMethod(segments, req.httpMethod)
                     && DistinctNames(Given(req.query)))
      && (Listed(segments) && OverridesBadly(req, segments) ==> r == Err(BadOverride(req.override.value)))
      && (Listed(segments) && !OverridesBadly(req, segments) && !TakesMethod(segments, req.httpMethod) ==>
            r.Err? && r.error.NotAllowed?)
  {
    var segments := Segments(req.path);
    ChosenIsListed(req, segments);
    if Listed(segments) {
      ChosenOverride(req, segments);
      if !OverridesBadly(req, segments) {
        ChosenTakes(req, segments);
        SettledAccepts(req, segments, Chosen(req, segments).value);
        TakesTells(req, segments, Chosen(req, segments).value);
      }
    }
  }

  /** DELETE in any mix of cases. */
  lemma DeleteInAnyCase(o: string)
    ensures SameIgnoringCase(o, "DELETE") <==>
      && |o| == 6 && (o[0] == 'D' || o[0] == 'd') && (o[1] == 'E' || o[1] == 'e') && (o[2] == 'L' || o[2] == 'l')
      && (o[3] == 'E' || o[3] == 'e') && (o[4] == 'T' || o[4] == 't') && (o[5] == 'E' || o[5] == 'e')
  {
    var d := "DELETE";
    assert d[0] == 'D' && d[1] == 'E' && d[2] == 'L' && d[3] == 'E' && d[4] == 'T' && d[5] == 'E';
    if SameIgnoringCase(o, d) {
      assert Lower(o[0]) == Lower(d[0]) && Lower(o[1]) == Lower(d[1]) && Lower(o[2]) == Lower(d[2]);
      assert Lower(o[3]) == Lower(d[3]) && Lower(o[4]) == Lower(d[4]) && Lower(o[5]) == Lower(d[5]);
    }
  }

  // ----- what of the query is forwarded -----

  predicate Forwarded(name: string) {
    name != "principal" && name != "content"
  }

  lemma {:induction false} GivenHas(query: seq<(string, string)>, a: Arg)
    ensures a in Given(query)
      <==> exists k :: 0 <= k < |query| && Forwarded(query[k].0) && a == (query[k].0, Encode(query[k].1))
  {
    if query != [] {
      var n := |query| - 1;
      GivenHas(query[..n], a);
      assert forall k :: 0 <= k < n ==> query[..n][k] == query[k];
    }
  }

  /** In the query's order. */
  lemma {:induction false} GivenJoins(a: seq<(string, string)>, b: seq<(string, string)>)
    ensures Given(a + b) == Given(a) + Given(b)
  {
    if b == [] {
      assert a + b == a;
    } else {
      var n := |b| - 1;
      assert (a + b)[..|a| + n] == a + b[..n];
      GivenJoins(a, b[..n]);
    }
  }

  /** Every parameter of the query but `principal` and `content` is an argument with its value in
      UTF-8, in the query's order; the only others are the default face and a write's body. */
  lemma QueryIsForwarded(req: Request, a: Arg)
    ensures RouteOf(req).Ok? ==>
      var args := RouteOf(req).value.args;
      var asked := exists k :: 0 <= k < |req.query| && Forwarded(req.query[k].0)
                               && a == (req.query[k].0, Encode(req.query[k].1));
      && (asked ==> a in args[..|Given(req.query)|])
      && (a in args && !asked ==> a.0 == "as" || a == ("content", req.body))
  {
    if RouteOf(req).Ok? {
      var row := Chosen(req, Segments(req.path)).value;
      GivenHas(req.query, a);
      SettledForwards(req, Segments(req.path), row);
      ArgumentsAre(req, row, a);
    }
  }

  lemma SettledForwards(req: Request, segments: seq<string>, row: Row)
    requires Settled(req, segments, row).Ok?
    ensures Settled(req, segments, row).value.args == Arguments(req, row)
  {
  }

  lemma ArgumentsAre(req: Request, row: Row, a: Arg)
    ensures a in Arguments(req, row) ==> a in Given(req.query) || a.0 == "as" || a == ("content", req.body)
    ensures Arguments(req, row)[..|Given(req.query)|] == Given(req.query)
  {
  }

  // ----- paths -----

  lemma {:induction false} NonEmptyJoins(a: seq<string>, b: seq<string>)
    ensures NonEmpty(a + b) == NonEmpty(a) + NonEmpty(b)
  {
    if a == [] {
      assert a + b == b;
    } else {
      assert (a + b)[1..] == a[1..] + b;
      NonEmptyJoins(a[1..], b);
    }
  }

  lemma {:induction false} JoinedJoins(a: seq<string>, b: seq<string>, sep: string)
    requires a != [] && b != []
    ensures Joined(a + b, sep) == Joined(a, sep) + sep + Joined(b, sep)
    decreases |a|
  {
    assert (a + b)[1..] == a[1..] + b;
    if |a| > 1 {
      JoinedJoins(a[1..], b, sep);
    } else {
      assert a[1..] + b == b;
    }
  }

  /** A slash separates segments, wherever it is and however many there are. */
  lemma SlashesSeparate(a: string, b: string)
    ensures Segments(a + ['/'] + b) == Segments(a) + Segments(b)
  {
    var x, y := SplitOn(a, '/'), SplitOn(b, '/');
    JoinedJoins(x, y, ['/']);
    SplitOnUnique(x + y, '/');
    NonEmptyJoins(x, y);
  }

  /** What has no slash is one segment, or none when there is nothing of it. */
  lemma OneSegment(s: string)
    requires '/' !in s
    ensures Segments(s) == if s == [] then [] else [s]
  {
    assert SplitOn(s, '/') == [s] && [s][1..] == [];
    assert NonEmpty([s][1..]) == [];
  }

  // ----- which name is refused -----

  /** The name refused is the first that was given before. */
  lemma {:induction false} FirstRepeatIsFirst(args: seq<Arg>, k: nat, j: nat)
    requires k <= j < |args| && Repeats(args, j) && forall i :: k <= i < j ==> !Repeats(args, i)
    ensures FirstRepeat(args, k) == Some(args[j].0)
    decreases j - k
  {
    if k < j {
      FirstRepeatIsFirst(args, k + 1, j);
    }
  }

  lemma RepeatedNameIsTold(req: Request, j: nat)
    requires RouteOf(req).Err? && RouteOf(req).error.GivenTwice?
    requires var given := Given(req.query);
      j < |given| && Repeats(given, j) && forall i :: 0 <= i < j ==> !Repeats(given, i)
    ensures RouteOf(req) == Err(GivenTwice(Given(req.query)[j].0))
  {
    FirstRepeatIsFirst(Given(req.query), 0, j);
  }
}
