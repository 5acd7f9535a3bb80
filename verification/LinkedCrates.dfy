/** The walk of `build.rs` over a Cargo lock: which packages a build links and with which
    features, features unified the way Cargo unifies them. */
module LinkedCrates {
  import opened Strings

  type Features = set<string>

  /** One `[[package]]` of the lock; `path` when it has no `source`. */
  datatype Locked = Locked(name: string, version: string, path: bool, dependencies: seq<string>)

  /** One normal dependency of a manifest, already resolved through the workspace's table. */
  datatype Dependency = Dependency(
    key: string, package: string, optional: bool, defaultFeatures: bool, features: seq<string>)

  /** What the walk reads of a manifest: its `[features]` table and its normal dependencies. */
  datatype Manifest = Manifest(table: map<string, seq<string>>, dependencies: seq<Dependency>)

  datatype Workspace = Workspace(
    packages: seq<Locked>,
    members: map<string, Manifest>,
    registry: map<(string, string), Manifest>)

  /** How a package is walked. */
  datatype Walk = ByManifest(manifest: Manifest) | ByEdges | NoManifest

  function WalkOf(ws: Workspace, at: nat): Walk
    requires at < |ws.packages|
  {
    var p := ws.packages[at];
    if p.path then
      if p.name in ws.members then ByManifest(ws.members[p.name]) else NoManifest
    else if HasPrefix(p.name, "ikigai-") && (p.name, p.version) in ws.registry then
      ByManifest(ws.registry[(p.name, p.version)])
    else
      ByEdges
  }

  // ----- the features table -----

  ghost predicate TableClosed(table: map<string, seq<string>>, on: Features) {
    forall f, g :: f in on && f in table && g in table[f] ==> g in on
  }

  ghost function Brought(table: map<string, seq<string>>, on: Features): Features {
    set f, g | f in on && f in table && g in table[f] :: g
  }

  ghost function Listed(table: map<string, seq<string>>): Features {
    set f, g | f in table && g in table[f] :: g
  }

  /** The least set holding `requested` and everything its features list, recursively. */
  ghost function Closure(table: map<string, seq<string>>, requested: Features): (on: Features)
    ensures requested <= on && TableClosed(table, on)
    ensures on <= requested + Listed(table)
    decreases Listed(table) - requested
  {
    var next := requested + Brought(table, requested);
    if next == requested then
      assert TableClosed(table, requested) by {
        forall f, g | f in requested && f in table && g in table[f] ensures g in requested {
          assert g in Brought(table, requested);
        }
      }
      requested
    else
      assert exists g :: g in Brought(table, requested) && g !in requested;
      assert Brought(table, requested) <= Listed(table);
      Closure(table, next)
  }

  lemma {:induction false} ClosureLeast(table: map<string, seq<string>>, requested: Features, on: Features)
    requires requested <= on && TableClosed(table, on)
    ensures Closure(table, requested) <= on
    decreases Listed(table) - requested
  {
    var next := requested + Brought(table, requested);
    if next != requested {
      assert exists g :: g in Brought(table, requested) && g !in requested;
      assert Brought(table, requested) <= Listed(table);
      ClosureLeast(table, next, on);
    }
  }

  /** Asking for more brings no less. */
  lemma ClosureMonotone(table: map<string, seq<string>>, a: Features, b: Features)
    requires a <= b
    ensures Closure(table, a) <= Closure(table, b)
  {
    ClosureLeast(table, a, Closure(table, b));
  }

  /** Why a package's features can be grown one request at a time, in any order. */
  lemma ClosureUnion(table: map<string, seq<string>>, a: Features, b: Features)
    ensures Closure(table, a + b) == Closure(table, a) + Closure(table, b)
  {
    ClosureLeast(table, a + b, Closure(table, a) + Closure(table, b));
    ClosureMonotone(table, a, a + b);
    ClosureMonotone(table, b, a + b);
  }

  /** The elements of `requested` as a work list. */
  method Elements(requested: Features) returns (work: seq<string>)
    ensures forall f :: f in work <==> f in requested
  {
    work := [];
    var rest := requested;
    while rest != {}
      invariant rest <= requested
      invariant forall f :: f in work <==> f in requested && f !in rest
      decreases |rest|
    {
      var f :| f in rest;
      work, rest := work + [f], rest - {f};
    }
  }

  /** `closure`: pops a feature, keeps it if new, and queues what it lists. Ends on every
      table, cyclic ones included. */
  method ExpandFeatures(table: map<string, seq<string>>, requested: Features) returns (on: Features)
    ensures on == Closure(table, requested)
  {
    on := {};
    var work := Elements(requested);
    ghost var all := Closure(table, requested);
    while work != []
      invariant on <= all && forall f :: f in work ==> f in all
      invariant forall f :: f in requested ==> f in on || f in work
      invariant forall f, g :: f in on && f in table && g in table[f] ==> g in on || g in work
      decreases all - on, |work|
    {
      var feature := work[|work| - 1];
      ghost var before := work;
      work := work[..|work| - 1];
      assert forall f :: f in before <==> f in work || f == feature;
      if feature in on {
        continue;
      }
      on := on + {feature};
      if feature in table {
        work := work + table[feature];
      }
    }
    ClosureLeast(table, requested, on);
  }

  // ----- features and dependencies -----

  /** `dep:key`. */
  predicate NamesDep(feature: string, key: string) {
    HasPrefix(feature, "dep:") && feature[4..] == key
  }

  /** `key/feature`, the key read exactly (so not the weak `key?/feature`). */
  predicate NamesFeatureOf(feature: string, key: string) {
    SplitOnce(feature, '/').Some? && SplitOnce(feature, '/').value.0 == key
  }

  predicate TurnsOn(features: Features, key: string) {
    exists f :: f in features && (f == key || NamesDep(f, key) || NamesFeatureOf(f, key))
  }

  /** `str::trim_end_matches('?')`. */
  function TrimQuestion(s: string): string {
    if s != [] && s[|s| - 1] == '?' then TrimQuestion(s[..|s| - 1]) else s
  }

  /** The feature `key/wanted` or `key?/wanted` asks of the dependency keyed `key`. */
  function Forward(feature: string, key: string): Option<string> {
    match SplitOnce(feature, '/')
    case None => None
    case Some(cut) => if TrimQuestion(cut.0) == key then Some(cut.1) else None
  }

  predicate Active(dep: Dependency, features: Features) {
    !dep.optional || TurnsOn(features, dep.key)
  }

  /** What `dep`'s own entry asks for. */
  function OwnRequest(dep: Dependency): Features {
    (set f | f in dep.features) + if dep.defaultFeatures then {"default"} else {}
  }

  /** What the features enabled so far ask of `dep`'s package, beside its own request. */
  ghost function Forwarded(key: string, features: Features): Features {
    set f | f in features && Forward(f, key).Some? :: Forward(f, key).value
  }

  lemma ForwardedOneMore(key: string, features: Features, feature: string)
    ensures Forwarded(key, features + {feature}) == Forwarded(key, features)
      + (if Forward(feature, key).Some? then {Forward(feature, key).value} else {})
  {
    if Forward(feature, key).Some? {
      assert Forward(feature, key).value in Forwarded(key, features + {feature});
    }
  }

  /** What a package with `features` on asks of the package `dep` names. */
  ghost function Asked(dep: Dependency, features: Features): Features {
    OwnRequest(dep) + Forwarded(dep.key, features)
  }

  lemma ActiveMonotone(dep: Dependency, a: Features, b: Features)
    requires a <= b
    requires Active(dep, a)
    ensures Active(dep, b)
  {
  }

  lemma AskedMonotone(dep: Dependency, a: Features, b: Features)
    requires a <= b
    ensures Asked(dep, a) <= Asked(dep, b)
  {
  }

  /** A weak `key?/feature` never turns its dependency on. */
  lemma WeakNeverActivates(features: Features, key: string, wanted: string)
    ensures TurnsOn(features + {key + "?/" + wanted}, key) == TurnsOn(features, key)
  {
    var weak := key + "?/" + wanted;
    assert |weak| > |key| && weak[|key|] == '?';
    if NamesDep(weak, key) {
      DepRepeats(weak, key, |key|);
    }
    if '/' !in key {
      assert weak == (key + "?") + ['/'] + wanted;
      SplitOnceUnique(key + "?", '/', wanted);
      assert |key + "?"| != |key|;
    }
  }

  /** A feature that both begins with the key and is `dep:` and the key repeats `dep:` as far as
      the key goes. */
  lemma {:induction false} DepRepeats(feature: string, key: string, i: nat)
    requires NamesDep(feature, key) && HasPrefix(feature, key) && i <= |key|
    ensures feature[i] == "dep:"[i % 4]
  {
    if i < 4 {
      assert feature[i] == feature[..4][i];
    } else {
      DepRepeats(feature, key, i - 4);
      assert feature[i] == feature[4..][i - 4] == key[i - 4] == feature[..|key|][i - 4];
      assert i % 4 == (i - 4) % 4;
    }
  }

  method ForwardAll(key: string, features: Features) returns (asked: Features)
    ensures asked == Forwarded(key, features)
  {
    asked := {};
    var rest := features;
    while rest != {}
      invariant rest <= features
      invariant asked == Forwarded(key, features - rest)
      decreases |rest|
    {
      var feature :| feature in rest;
      ForwardedOneMore(key, features - rest, feature);
      var forward := Forward(feature, key);
      if forward.Some? {
        asked := asked + {forward.value};
      }
      assert features - (rest - {feature}) == (features - rest) + {feature};
      rest := rest - {feature};
    }
    assert features - rest == features;
  }

  // ----- lock edges -----

  /** Whether a lock entry (`name`, `name version` or `name version (source)`) names `p`. */
  predicate Names(entry: string, p: Locked) {
    match SplitOnce(entry, ' ')
    case None => p.name == entry
    case Some(cut) => p.name == cut.0 && p.version == cut.1[..Find(cut.1, ' ')]
  }

  function LockTargets(packages: seq<Locked>, entry: string): (targets: seq<nat>)
    ensures forall to: nat :: to in targets <==> to < |packages| && Names(entry, packages[to])
  {
    if packages == [] then [] else
      var last := |packages| - 1;
      LockTargets(packages[..last], entry) + if Names(entry, packages[last]) then [last] else []
  }

  // ----- the activation rules -----

  /** What a walk has reached: the packages walked by manifest with their features, and the
      packages walked by their lock edges. */
  datatype Reached = Reached(features: map<nat, Features>, edges: set<nat>)

  datatype Request = Request(to: nat, asked: Features)

  ghost predicate Edge(ws: Workspace, at: nat, to: nat) {
    && at < |ws.packages|
    && to < |ws.packages|
    && exists entry :: entry in ws.packages[at].dependencies && Names(entry, ws.packages[to])
  }

  /** Some dependency of `m`, active under `features`, makes this request. */
  ghost predicate DependencyAsks(ws: Workspace, m: Manifest, features: Features, q: Request)
    requires q.to < |ws.packages|
  {
    exists dep :: dep in m.dependencies && RequestOf(ws, dep, features, q)
  }

  ghost predicate RequestOf(ws: Workspace, dep: Dependency, features: Features, q: Request)
    requires q.to < |ws.packages|
  {
    && ws.packages[q.to].name == dep.package
    && Active(dep, features)
    && q.asked == Asked(dep, features)
  }

  /** The package `at`, as far as it is reached in `r`, makes the request `q`. */
  ghost predicate Asks(ws: Workspace, r: Reached, at: nat, q: Request) {
    && Edge(ws, at, q.to)
    && match WalkOf(ws, at)
       case NoManifest => false
       case ByEdges => at in r.edges && q.asked == {"default"}
       case ByManifest(m) => at in r.features && DependencyAsks(ws, m, r.features[at], q)
  }

  /** The request `q` is granted in `r`. */
  ghost predicate Holds(ws: Workspace, r: Reached, q: Request) {
    && q.to < |ws.packages|
    && match WalkOf(ws, q.to)
       case NoManifest => false
       case ByEdges => q.to in r.edges
       case ByManifest(m) => q.to in r.features && Closure(m.table, q.asked) <= r.features[q.to]
  }

  ghost predicate Closed(ws: Workspace, start: Request, r: Reached) {
    && Holds(ws, r, start)
    && forall at, q :: Asks(ws, r, at, q) ==> Holds(ws, r, q)
  }

  ghost predicate Below(r: Reached, other: Reached) {
    && r.edges <= other.edges
    && r.features.Keys <= other.features.Keys
    && forall at :: at in r.features ==> r.features[at] <= other.features[at]
  }

  /** The least fixed point of the activation rules. */
  ghost predicate IsLeast(ws: Workspace, start: Request, r: Reached) {
    && Closed(ws, start, r)
    && forall other :: Closed(ws, start, other) ==> Below(r, other)
  }

  /** There is at most one, so what the walk answers cannot depend on the order it pops. */
  lemma LeastIsUnique(ws: Workspace, start: Request, a: Reached, b: Reached)
    requires IsLeast(ws, start, a) && IsLeast(ws, start, b)
    ensures a == b
  {
    assert Below(a, b) && Below(b, a);
    forall at | at in a.features ensures a.features[at] == b.features[at] {
      assert a.features[at] <= b.features[at] <= a.features[at];
    }
  }

  /** More reached asks no less: each request grows into one that covers it. */
  lemma AsksMonotone(ws: Workspace, r: Reached, other: Reached, at: nat, q: Request)
    requires Below(r, other) && Asks(ws, r, at, q)
    ensures exists wider: Request :: Asks(ws, other, at, wider) && wider.to == q.to && q.asked <= wider.asked
  {
    match WalkOf(ws, at)
    case ByEdges => assert Asks(ws, other, at, q);
    case ByManifest(m) =>
      var dep :| dep in m.dependencies && RequestOf(ws, dep, r.features[at], q);
      var wider := Request(q.to, Asked(dep, other.features[at]));
      ActiveMonotone(dep, r.features[at], other.features[at]);
      AskedMonotone(dep, r.features[at], other.features[at]);
      assert RequestOf(ws, dep, other.features[at], wider);
      assert Asks(ws, other, at, wider);
  }

  lemma HoldsMonotone(ws: Workspace, r: Reached, other: Reached, q: Request)
    requires Below(r, other) && Holds(ws, r, q)
    ensures Holds(ws, other, q)
  {
  }

  /** A fixed point above `r` grants whatever `r` asks. */
  lemma ClosedGrants(ws: Workspace, start: Request, r: Reached, closed: Reached, at: nat, q: Request)
    requires Closed(ws, start, closed) && Below(r, closed) && Asks(ws, r, at, q)
    ensures Holds(ws, closed, q)
  {
    AsksMonotone(ws, r, closed, at, q);
    var wider: Request :| Asks(ws, closed, at, wider) && wider.to == q.to && q.asked <= wider.asked;
    match WalkOf(ws, q.to)
    case ByManifest(m) => ClosureMonotone(m.table, q.asked, wider.asked);
    case _ =>
  }

  // ----- the requests one visit queues -----

  method EdgeRequests(ws: Workspace, at: nat) returns (asks: seq<Request>)
    requires at < |ws.packages|
    ensures forall q :: q in asks <==> Edge(ws, at, q.to) && q.asked == {"default"}
  {
    asks := [];
    var deps := ws.packages[at].dependencies;
    for i := 0 to |deps|
      invariant forall q :: q in asks <==>
        q.asked == {"default"} && q.to < |ws.packages| && exists k :: 0 <= k < i && Names(deps[k], ws.packages[q.to])
    {
      var targets := LockTargets(ws.packages, deps[i]);
      ghost var before := asks;
      for j := 0 to |targets|
        invariant forall q :: q in asks <==> q in before || (q.asked == {"default"} && q.to in targets[..j])
      {
        asks := asks + [Request(targets[j], {"default"})];
      }
      assert targets[..|targets|] == targets;
    }
  }

  method ManifestRequests(ws: Workspace, at: nat, m: Manifest, features: Features)
    returns (asks: seq<Request>)
    requires at < |ws.packages|
    ensures forall q :: q in asks <==> Edge(ws, at, q.to) && DependencyAsks(ws, m, features, q)
  {
    asks := [];
    for i := 0 to |m.dependencies|
      invariant forall q :: q in asks <==>
        Edge(ws, at, q.to) && exists k :: 0 <= k < i && RequestOf(ws, m.dependencies[k], features, q)
    {
      var dep := m.dependencies[i];
      if dep.optional && !TurnsOn(features, dep.key) {
        continue;
      }
      var forwarded := ForwardAll(dep.key, features);
      var asked := OwnRequest(dep) + forwarded;
      var targets := TargetsNamed(ws, at, dep.package);
      ghost var before := asks;
      for j := 0 to |targets|
        invariant forall q :: q in asks <==> q in before || (q.asked == asked && q.to in targets[..j])
      {
        asks := asks + [Request(targets[j], asked)];
      }
      assert targets[..|targets|] == targets;
    }
  }

  /** The packages named `package` that `at`'s lock edges lead to. */
  method TargetsNamed(ws: Workspace, at: nat, package: string) returns (targets: seq<nat>)
    requires at < |ws.packages|
    ensures forall to: nat :: to in targets <==> Edge(ws, at, to) && ws.packages[to].name == package
  {
    targets := [];
    var deps := ws.packages[at].dependencies;
    for i := 0 to |deps|
      invariant forall to: nat :: to in targets <==>
        to < |ws.packages| && ws.packages[to].name == package &&
        exists k :: 0 <= k < i && Names(deps[k], ws.packages[to])
    {
      var named := LockTargets(ws.packages, deps[i]);
      ghost var before := targets;
      for j := 0 to |named|
        invariant forall to: nat :: to in targets <==>
          to in before || (to in named[..j] && to < |ws.packages| && ws.packages[to].name == package)
      {
        assert named[j] in named;
        if ws.packages[named[j]].name == package {
          targets := targets + [named[j]];
        }
      }
      assert named[..|named|] == named;
    }
  }

  // ----- the walk -----

  /** Whatever is asked and not granted yet is still queued. */
  ghost predicate Pending(ws: Workspace, start: Request, r: Reached, work: seq<Request>) {
    && (Holds(ws, r, start) || start in work)
    && forall at, q :: Asks(ws, r, at, q) ==> Holds(ws, r, q) || q in work
  }

  /** Every fixed point is above what is reached and grants what is queued. */
  ghost predicate Forced(ws: Workspace, start: Request, r: Reached, work: seq<Request>) {
    forall closed :: Closed(ws, start, closed) ==>
      Below(r, closed) && forall q :: q in work ==> Holds(ws, closed, q)
  }

  /** One visit: the package `at` grows from `r` to `next`, granting `q` and asking `asks`. */
  ghost predicate Visit(ws: Workspace, r: Reached, next: Reached, q: Request, asks: seq<Request>) {
    && Below(r, next)
    && Holds(ws, next, q)
    && (forall closed :: Below(r, closed) && Holds(ws, closed, q) ==> Below(next, closed))
    && (forall p :: p in asks ==> Asks(ws, next, q.to, p))
    && forall at, p :: Asks(ws, next, at, p) ==> Asks(ws, r, at, p) || p in asks
  }

  lemma VisitKeepsPending(ws: Workspace, start: Request, r: Reached, work: seq<Request>,
                          q: Request, next: Reached, asks: seq<Request>)
    requires Pending(ws, start, r, work + [q]) && Visit(ws, r, next, q, asks)
    ensures Pending(ws, start, next, work + asks)
  {
    forall p | Holds(ws, r, p) ensures Holds(ws, next, p) {
      HoldsMonotone(ws, r, next, p);
    }
  }

  lemma VisitKeepsForced(ws: Workspace, start: Request, r: Reached, work: seq<Request>,
                         q: Request, next: Reached, asks: seq<Request>)
    requires Forced(ws, start, r, work + [q]) && Visit(ws, r, next, q, asks)
    ensures Forced(ws, start, next, work + asks)
  {
    forall closed | Closed(ws, start, closed)
      ensures Below(next, closed) && forall p :: p in work + asks ==> Holds(ws, closed, p)
    {
      assert q in work + [q];
      forall p | p in work + asks ensures Holds(ws, closed, p) {
        if p in work {
          assert p in work + [q];
        } else {
          ClosedGrants(ws, start, next, closed, q.to, p);
        }
      }
    }
  }

  // ----- why it ends -----

  /** A set of feature names closed under everything the walk can do to a name. */
  ghost predicate Spans(ws: Workspace, names: Features) {
    && "default" in names
    && (forall f, key :: f in names && Forward(f, key).Some? ==> Forward(f, key).value in names)
    && forall at: nat :: at < |ws.packages| && WalkOf(ws, at).ByManifest? ==>
         SpansManifest(WalkOf(ws, at).manifest, names)
  }

  ghost predicate SpansManifest(m: Manifest, names: Features) {
    && Listed(m.table) <= names
    && forall dep :: dep in m.dependencies ==> OwnRequest(dep) <= names
  }

  /** The names a workspace and a first request mention. */
  ghost function Mentioned(ws: Workspace, first: Features): Features {
    var manifests := set at: nat | 0 <= at < |ws.packages| && WalkOf(ws, at).ByManifest? :: WalkOf(ws, at).manifest;
    first + {"default"}
    + (set m, f | m in manifests && f in Listed(m.table) :: f)
    + (set m, dep, f | m in manifests && dep in m.dependencies && f in OwnRequest(dep) :: f)
  }

  ghost function Tail(s: string, i: nat): string
    requires i <= |s|
  {
    s[i..]
  }

  ghost function Suffixes(names: Features): (all: Features)
    ensures names <= all
  {
    var all := set f, i | f in names && 0 <= i <= |f| :: Tail(f, i);
    assert forall f :: f in names ==> Tail(f, 0) == f;
    all
  }

  lemma TailOfTail(whole: string, i: nat, before: string, after: string)
    requires i <= |whole| && Tail(whole, i) == before + ['/'] + after
    ensures i + |before| + 1 <= |whole| && Tail(whole, i + |before| + 1) == after
  {
    assert |Tail(whole, i)| == |whole| - i;
  }

  lemma SuffixesForward(names: Features, f: string, key: string)
    requires f in Suffixes(names) && Forward(f, key).Some?
    ensures Forward(f, key).value in Suffixes(names)
  {
    var whole, i :| whole in names && 0 <= i <= |whole| && f == Tail(whole, i);
    var cut := SplitOnce(f, '/').value;
    TailOfTail(whole, i, cut.0, cut.1);
  }

  lemma NamesInPlay(ws: Workspace, first: Features) returns (names: Features)
    ensures Spans(ws, names) && first <= names
  {
    var mentioned := Mentioned(ws, first);
    names := Suffixes(mentioned);
    forall f, key | f in names && Forward(f, key).Some? ensures Forward(f, key).value in names {
      SuffixesForward(mentioned, f, key);
    }
    forall at: nat | at < |ws.packages| && WalkOf(ws, at).ByManifest?
      ensures SpansManifest(WalkOf(ws, at).manifest, names)
    {
      assert SpansManifest(WalkOf(ws, at).manifest, mentioned);
    }
  }

  /** Whether `slot` of the package `at` is filled: the visit itself, or one feature. */
  ghost predicate Filled(r: Reached, at: nat, slot: Option<string>) {
    match slot
    case None => at in r.features || at in r.edges
    case Some(f) => at in r.features && f in r.features[at]
  }

  /** What a walk can still fill. */
  ghost function Unfilled(ws: Workspace, names: Features, r: Reached): set<(nat, Option<string>)> {
    (set at: nat | 0 <= at < |ws.packages| && !Filled(r, at, None) :: (at, None))
    + (set at: nat, f | 0 <= at < |ws.packages| && f in names && !Filled(r, at, Some(f)) :: (at, Some(f)))
  }

  lemma FillingShrinks(ws: Workspace, names: Features, r: Reached, next: Reached, at: nat, slot: Option<string>)
    requires Below(r, next) && at < |ws.packages| && (slot.Some? ==> slot.value in names)
    requires !Filled(r, at, slot) && Filled(next, at, slot)
    ensures Unfilled(ws, names, next) < Unfilled(ws, names, r)
  {
    assert (at, slot) in Unfilled(ws, names, r);
    assert (at, slot) !in Unfilled(ws, names, next);
  }

  lemma AskedWithin(ws: Workspace, names: Features, r: Reached, at: nat, q: Request)
    requires Spans(ws, names) && Asks(ws, r, at, q)
    requires forall k :: k in r.features ==> r.features[k] <= names
    ensures q.asked <= names
  {
  }

  lemma ProperIsSmaller<T>(a: set<T>, b: set<T>)
    requires a <= b && |a| == |b|
    ensures a == b
  {
    assert b == a + (b - a);
    assert |b| == |a| + |b - a|;
  }

  lemma GrowthShrinks(ws: Workspace, names: Features, r: Reached, next: Reached, at: nat,
                      first: bool, known: Features, features: Features)
    requires at < |ws.packages| && WalkOf(ws, at).ByManifest? && features <= names
    requires next == r.(features := r.features[at := features]) && known <= features
    requires if first then at !in r.features && known == {} else at in r.features && r.features[at] == known
    requires first ==> at !in r.edges
    requires first || |features| != |known|
    ensures Unfilled(ws, names, next) < Unfilled(ws, names, r)
  {
    if first {
      FillingShrinks(ws, names, r, next, at, None);
    } else {
      assert features != known;
      assert exists f :: f in features && f !in known;
      var f :| f in features && f !in known;
      FillingShrinks(ws, names, r, next, at, Some(f));
    }
  }

  ghost predicate WellTyped(ws: Workspace, names: Features, r: Reached) {
    && (forall at :: at in r.features ==>
          at < |ws.packages| && WalkOf(ws, at).ByManifest? && r.features[at] <= names)
    && forall at :: at in r.edges ==> at < |ws.packages| && WalkOf(ws, at).ByEdges?
  }

  lemma ManifestGrowthVisits(ws: Workspace, m: Manifest, r: Reached, next: Reached, q: Request, asks: seq<Request>)
    requires q.to < |ws.packages| && WalkOf(ws, q.to) == ByManifest(m)
    requires q.to in next.features && next == r.(features := r.features[q.to := next.features[q.to]])
    requires next.features[q.to] ==
      (if q.to in r.features then r.features[q.to] else {}) + Closure(m.table, q.asked)
    requires forall p :: p in asks <==>
      Edge(ws, q.to, p.to) && DependencyAsks(ws, m, next.features[q.to], p)
    ensures Visit(ws, r, next, q, asks)
  {
    forall at, p | Asks(ws, next, at, p) ensures Asks(ws, r, at, p) || p in asks {
      if at != q.to {
        assert at in next.features ==> at in r.features && r.features[at] == next.features[at];
      }
    }
  }

  /** One turn of the loop on a package walked by its lock edges: they are queued once. */
  method VisitByEdges(ws: Workspace, reached: Reached, q: Request, ghost names: Features)
    returns (next: Reached, asks: seq<Request>)
    requires q.to < |ws.packages| && WalkOf(ws, q.to).ByEdges?
    requires WellTyped(ws, names, reached)
    ensures Visit(ws, reached, next, q, asks) && WellTyped(ws, names, next)
    ensures (next == reached && asks == []) || Unfilled(ws, names, next) < Unfilled(ws, names, reached)
  {
    next, asks := reached, [];
    if q.to !in reached.edges {
      next := reached.(edges := reached.edges + {q.to});
      asks := EdgeRequests(ws, q.to);
      FillingShrinks(ws, names, reached, next, q.to, None);
    }
  }

  /** One turn of the loop on a package walked by its manifest: its dependencies are asked
      again whenever its feature set grows. */
  method VisitByManifest(ws: Workspace, m: Manifest, reached: Reached, q: Request, ghost names: Features)
    returns (next: Reached, asks: seq<Request>)
    requires q.to < |ws.packages| && WalkOf(ws, q.to) == ByManifest(m) && q.asked <= names
    requires Spans(ws, names) && WellTyped(ws, names, reached)
    ensures Visit(ws, reached, next, q, asks) && WellTyped(ws, names, next)
    ensures (next == reached && asks == []) || Unfilled(ws, names, next) < Unfilled(ws, names, reached)
  {
    next, asks := reached, [];
    var first := q.to !in reached.features;
    var known := if first then {} else reached.features[q.to];
    var expanded := ExpandFeatures(m.table, q.asked);
    var features := known + expanded;
    assert SpansManifest(m, names);
    if first || |features| != |known| {
      next := reached.(features := reached.features[q.to := features]);
      asks := ManifestRequests(ws, q.to, m, features);
      GrowthShrinks(ws, names, reached, next, q.to, first, known, features);
      ManifestGrowthVisits(ws, m, reached, next, q, asks);
    } else {
      ProperIsSmaller(known, features);
    }
  }

  /** `linked`'s worklist. It answers the least fixed point of the activation rules, or, when
      there is none, a package that needs a manifest and has none. */
  method WalkLock(ws: Workspace, start: Request) returns (r: Result<Reached, nat>)
    requires start.to < |ws.packages|
    ensures r.Ok? ==> IsLeast(ws, start, r.value)
    ensures r.Err? ==> r.error < |ws.packages| && WalkOf(ws, r.error).NoManifest?
    ensures r.Err? ==> forall any :: !Closed(ws, start, any)
  {
    var reached := Reached(map[], {});
    var work := [start];
    ghost var names := NamesInPlay(ws, start.asked);
    while work != []
      invariant Pending(ws, start, reached, work) && Forced(ws, start, reached, work)
      invariant forall q :: q in work ==> q.to < |ws.packages| && q.asked <= names
      invariant WellTyped(ws, names, reached)
      decreases Unfilled(ws, names, reached), |work|
    {
      var q := work[|work| - 1];
      var rest := work[..|work| - 1];
      assert work == rest + [q];
      var next, asks;
      match WalkOf(ws, q.to) {
        case NoManifest =>
          assert forall any :: Closed(ws, start, any) ==> Holds(ws, any, q);
          return Err(q.to);
        case ByEdges =>
          next, asks := VisitByEdges(ws, reached, q, names);
        case ByManifest(m) =>
          next, asks := VisitByManifest(ws, m, reached, q, names);
      }
      VisitKeepsPending(ws, start, reached, rest, q, next, asks);
      VisitKeepsForced(ws, start, reached, rest, q, next, asks);
      forall p | p in asks ensures p.asked <= names {
        AskedWithin(ws, names, next, q.to, p);
      }
      reached, work := next, rest + asks;
    }
    return Ok(reached);
  }

  // ----- the record -----

  /** Where the walk starts: the first member with this name and version. */
  function Position(packages: seq<Locked>, name: string, version: string): (at: nat)
    ensures at <= |packages|
    ensures at < |packages| ==>
      packages[at].path && packages[at].name == name && packages[at].version == version
    ensures forall k :: 0 <= k < at ==>
      !(packages[k].path && packages[k].name == name && packages[k].version == version)
  {
    if packages == [] || (packages[0].path && packages[0].name == name && packages[0].version == version)
    then 0 else 1 + Position(packages[1..], name, version)
  }

  /** The `ikigai-*` crates reached, the start excluded, by name and version. */
  function Record(ws: Workspace, start: nat, r: Reached): set<(string, string)> {
    set at | at in r.features.Keys + r.edges && at != start && at < |ws.packages|
             && HasPrefix(ws.packages[at].name, "ikigai-")
      :: (ws.packages[at].name, ws.packages[at].version)
  }

  datatype Unknown = NotInLock | MissingManifest(member: string)

  /** A package every set closed under the rules reaches: one no build of the start can do
      without. */
  ghost predicate Needed(ws: Workspace, request: Request, at: nat) {
    forall any :: Closed(ws, request, any) ==> at in any.features || at in any.edges
  }

  /** An `ikigai-*` package that the build needs and that is not the one being built. */
  ghost predicate LinksTo(ws: Workspace, request: Request, at: nat) {
    && at < |ws.packages| && at != request.to
    && |ws.packages[at].name| >= 7 && ws.packages[at].name[..7] == "ikigai-"
    && Needed(ws, request, at)
  }

  ghost predicate LinksAs(ws: Workspace, request: Request, at: nat, name: string, version: string) {
    LinksTo(ws, request, at) && ws.packages[at].name == name && ws.packages[at].version == version
  }

  lemma LeastIsNeeded(ws: Workspace, request: Request, r: Reached, at: nat)
    requires IsLeast(ws, request, r)
    ensures Needed(ws, request, at) <==> at in r.features || at in r.edges
  {
    if at in r.features || at in r.edges {
      forall any | Closed(ws, request, any) ensures at in any.features || at in any.edges {
        assert Below(r, any);
      }
    }
  }

  lemma RecordIsLinked(ws: Workspace, request: Request, r: Reached, name: string, version: string)
    requires IsLeast(ws, request, r)
    ensures (name, version) in Record(ws, request.to, r) <==> exists at: nat :: LinksAs(ws, request, at, name, version)
  {
    if (name, version) in Record(ws, request.to, r) {
      var at :| at in r.features.Keys + r.edges && at != request.to && at < |ws.packages|
        && HasPrefix(ws.packages[at].name, "ikigai-")
        && (ws.packages[at].name, ws.packages[at].version) == (name, version);
      LeastIsNeeded(ws, request, r, at);
      assert LinksAs(ws, request, at, name, version);
    }
    if at: nat :| LinksAs(ws, request, at, name, version) {
      LeastIsNeeded(ws, request, r, at);
      assert at in r.features.Keys + r.edges;
    }
  }

  /** `linked`: exactly the `ikigai-*` packages a build of the start needs, by name and version, the
      start itself left out. It fails exactly when the package is not in the lock or no set of
      features and packages obeys the rules. */
  method Linked(ws: Workspace, name: string, version: string, enabled: Features)
    returns (r: Result<set<(string, string)>, Unknown>)
    ensures r == Err(NotInLock) <==>
      forall p :: p in ws.packages ==> !(p.path && p.name == name && p.version == version)
    ensures r.Ok? <==>
      Position(ws.packages, name, version) < |ws.packages| &&
      exists any :: Closed(ws, Request(Position(ws.packages, name, version), enabled), any)
    ensures r.Ok? ==>
      var request := Request(Position(ws.packages, name, version), enabled);
      forall n, v :: (n, v) in r.value <==> exists at: nat :: LinksAs(ws, request, at, n, v)
    ensures r.Ok? && Lone(ws.packages, name, version) ==> (name, version) !in r.value
    ensures r.Err? && r.error.MissingManifest? ==> r.error.member !in ws.members
  {
    var start := Position(ws.packages, name, version);
    if start == |ws.packages| {
      return Err(NotInLock);
    }
    var walked := WalkLock(ws, Request(start, enabled));
    match walked
    case Ok(reached) =>
      assert Closed(ws, Request(start, enabled), reached);
      r := Ok(Record(ws, start, reached));
      forall n, v
        ensures (n, v) in r.value <==> exists at: nat :: LinksAs(ws, Request(start, enabled), at, n, v)
      {
        RecordIsLinked(ws, Request(start, enabled), reached, n, v);
      }
    case Err(at) =>
      r := Err(MissingManifest(ws.packages[at].name));
  }

  /** At most one package of the lock has this name and version. */
  predicate Lone(packages: seq<Locked>, name: string, version: string) {
    forall i, j :: 0 <= i < j < |packages| ==>
      !(packages[i].name == packages[j].name == name && packages[i].version == packages[j].version == version)
  }

  // ----- what the entries say, on their texts -----

  /** A feature turns on the dependency `key` exactly when it is `key`, `dep:key`, or `key/` and
      anything, for a key without a slash. */
  lemma TurnsOnBy(feature: string, key: string)
    requires '/' !in key
    ensures TurnsOn({feature}, key)
      <==> feature == key || feature == "dep:" + key || exists wanted :: feature == key + ['/'] + wanted
  {
    if exists wanted :: feature == key + ['/'] + wanted {
      var wanted :| feature == key + ['/'] + wanted;
      SplitOnceUnique(key, '/', wanted);
      assert NamesFeatureOf(feature, key);
    }
    assert feature == "dep:" + key ==> feature[..4] == "dep:" && feature[4..] == key;
    assert NamesDep(feature, key) ==> feature == feature[..4] + feature[4..];
  }

  /** Enabling more at once turns on what each would. */
  lemma TurnsOnJoins(a: Features, b: Features, key: string)
    ensures TurnsOn(a + b, key) <==> TurnsOn(a, key) || TurnsOn(b, key)
  {
  }

  /** `key/wanted` and the weak `key?/wanted` forward `wanted` to that key alone. */
  lemma ForwardsTo(key: string, wanted: string, other: string)
    requires '/' !in key && (key != [] ==> key[|key| - 1] != '?') && (other != [] ==> other[|other| - 1] != '?')
    ensures Forward(key + ['/'] + wanted, other) == if other == key then Some(wanted) else None
    ensures Forward(key + ['?', '/'] + wanted, other) == if other == key then Some(wanted) else None
  {
    SplitOnceUnique(key, '/', wanted);
    SplitOnceUnique(key + ['?'], '/', wanted);
    assert key + ['?', '/'] + wanted == (key + ['?']) + ['/'] + wanted;
    assert (key + ['?'])[..|key|] == key;
  }

  /** Nothing without a slash forwards. */
  lemma PlainForwardsNothing(feature: string, key: string)
    requires '/' !in feature
    ensures Forward(feature, key) == None
  {
  }

  /** A dependency asks for its own features, for `default` unless it declines it, and for what is
      forwarded to it. */
  lemma AskedFor(dep: Dependency, features: Features, f: string)
    ensures f in Asked(dep, features)
      <==> f in dep.features || (dep.defaultFeatures && f == "default")
           || exists from :: from in features && Forward(from, dep.key) == Some(f)
  {
  }

  /** An optional dependency is asked only when turned on; any other always is. */
  lemma AsksWhen(dep: Dependency, features: Features)
    ensures Active(dep, features) <==> !dep.optional || TurnsOn(features, dep.key)
  {
  }

  /** The three ways a lock entry names a package. */
  lemma EntryNames(name: string, version: string, source: string, p: Locked)
    requires ' ' !in name && ' ' !in version
    ensures Names(name, p) <==> p.name == name
    ensures Names(name + [' '] + version, p) <==> p.name == name && p.version == version
    ensures Names(name + [' '] + (version + [' '] + source), p) <==> p.name == name && p.version == version
  {
    SplitOnceUnique(name, ' ', version);
    SplitOnceUnique(name, ' ', version + [' '] + source);
    FindUnique(version, ' ', source);
    assert (version + [' '] + source)[..|version|] == version;
    assert Find(version, ' ') == |version| by {
      assert version[..|version|] == version;
    }
    assert version[..|version|] == version;
  }

  /** A path member is walked by the manifest of its name and is an error without one; another
      package by its edges, unless it is an `ikigai-*` crate whose manifest is at hand. */
  lemma WalkedBy(ws: Workspace, at: nat)
    requires at < |ws.packages|
    ensures var p := ws.packages[at];
      && (p.path ==> WalkOf(ws, at) == if p.name in ws.members then ByManifest(ws.members[p.name]) else NoManifest)
      && (!p.path && (|p.name| < 7 || p.name[..7] != "ikigai-") ==> WalkOf(ws, at) == ByEdges)
      && (!p.path && |p.name| >= 7 && p.name[..7] == "ikigai-" ==>
            WalkOf(ws, at) == if (p.name, p.version) in ws.registry then ByManifest(ws.registry[(p.name, p.version)])
                              else ByEdges)
  {
  }

  /** What a package reached by its manifest asks of another: along a lock edge, for a dependency
      declared under that package's name, that is not optional or is turned on, and for exactly its
      own features, `default` unless declined, and what is forwarded. A package walked by its edges
      asks each for `default`. */
  lemma AsksAre(ws: Workspace, r: Reached, at: nat, q: Request)
    ensures WalkOfIs(ws, at, NoManifest) ==> !Asks(ws, r, at, q)
    ensures WalkOfIs(ws, at, ByEdges) ==>
      (Asks(ws, r, at, q) <==> Edge(ws, at, q.to) && at in r.edges && q.asked == {"default"})
    ensures forall m :: WalkOfIs(ws, at, ByManifest(m)) ==>
      (Asks(ws, r, at, q) <==>
         Edge(ws, at, q.to) && at in r.features
         && exists dep :: dep in m.dependencies && DeclaredFor(ws, dep, r.features[at], q))
  {
    forall m | WalkOfIs(ws, at, ByManifest(m)) && q.to < |ws.packages| && at in r.features
      ensures DependencyAsks(ws, m, r.features[at], q)
        <==> exists dep :: dep in m.dependencies && DeclaredFor(ws, dep, r.features[at], q)
    {
      forall dep ensures RequestOf(ws, dep, r.features[at], q) <==> DeclaredFor(ws, dep, r.features[at], q) {
        SameFeatures(dep, r.features[at], q.asked);
      }
      if dep :| dep in m.dependencies && DeclaredFor(ws, dep, r.features[at], q) {
        assert RequestOf(ws, dep, r.features[at], q);
      }
      if dep :| dep in m.dependencies && RequestOf(ws, dep, r.features[at], q) {
        assert DeclaredFor(ws, dep, r.features[at], q);
      }
    }
  }

  ghost predicate WalkOfIs(ws: Workspace, at: nat, walk: Walk) {
    at < |ws.packages| && WalkOf(ws, at) == walk
  }

  ghost predicate DeclaredFor(ws: Workspace, dep: Dependency, features: Features, q: Request) {
    && q.to < |ws.packages| && ws.packages[q.to].name == dep.package
    && (dep.optional ==> TurnsOn(features, dep.key))
    && forall f :: f in q.asked <==> IsAsked(dep, features, f)
  }

  ghost predicate IsAsked(dep: Dependency, features: Features, f: string) {
    || f in dep.features
    || (dep.defaultFeatures && f == "default")
    || exists from :: from in features && Forward(from, dep.key) == Some(f)
  }

  lemma SameFeatures(dep: Dependency, features: Features, asked: Features)
    ensures asked == Asked(dep, features) <==> forall f :: f in asked <==> IsAsked(dep, features, f)
  {
    forall f ensures f in Asked(dep, features) <==> IsAsked(dep, features, f) {
      AskedFor(dep, features, f);
    }
  }
}
