/** The argument loops of `main.rs` that give each mount its certificates: the REPL's, and the
    one `serve` and `mcp` share, which inherits more than the REPL's rule says. */
module Mounts {
  import opened Strings

  datatype Kind = Alias | Override | Prefer

  datatype CertFlag = CertDir | ServerCert | ServerKey | ClientCert | ClientKey

  datatype Certs = Certs(certDir: Option<string>, serverCert: Option<string>, serverKey: Option<string>,
                         clientCert: Option<string>, clientKey: Option<string>)

  const NO_CERTS := Certs(None, None, None, None, None)

  function Field(c: Certs, f: CertFlag): Option<string> {
    match f
    case CertDir => c.certDir
    case ServerCert => c.serverCert
    case ServerKey => c.serverKey
    case ClientCert => c.clientCert
    case ClientKey => c.clientKey
  }

  function With(c: Certs, f: CertFlag, path: string): (r: Certs)
    ensures forall g :: Field(r, g) == if g == f then Some(path) else Field(c, g)
  {
    match f
    case CertDir => c.(certDir := Some(path))
    case ServerCert => c.(serverCert := Some(path))
    case ServerKey => c.(serverKey := Some(path))
    case ClientCert => c.(clientCert := Some(path))
    case ClientKey => c.(clientKey := Some(path))
  }

  datatype Mount = Mount(kind: Kind, prefix: string, target: string, certs: Certs)

  datatype Fault =
    | MissingPath(flag: string)
    | MissingSpec(flag: string)
    | NotASpec(spec: string)
    | EmptyPrefix(prefix: string)
    | Twice(part: string)
    | KernelPrefix(part: string)
    | Elsewhere(message: string)

  // ----- the prefixes of one mount -----

  const KERNEL_NAMESPACE := "urn:kernel:"

  predicate IsKernel(prefix: string) {
    HasPrefix(prefix, KERNEL_NAMESPACE) || prefix == "urn:kernel"
  }

  /** The first fault in a list of prefixes at or after `i`, a repeat being looked for first. */
  function FaultFrom(parts: seq<string>, i: nat): (r: Option<Fault>)
    requires i <= |parts|
    ensures r.None? <==> forall k :: i <= k < |parts| ==> parts[k] !in parts[..k] && !IsKernel(parts[k])
    decreases |parts| - i
  {
    if i == |parts| then None
    else if parts[i] in parts[..i] then Some(Twice(parts[i]))
    else if IsKernel(parts[i]) then Some(KernelPrefix(parts[i]))
    else FaultFrom(parts, i + 1)
  }

  predicate Distinct(parts: seq<string>) {
    forall j, k :: 0 <= j < k < |parts| ==> parts[j] != parts[k]
  }

  predicate Mountable(parts: seq<string>) {
    && Distinct(parts)
    && (forall k :: 0 <= k < |parts| ==> !IsKernel(parts[k]))
    && (|parts| > 1 ==> [] !in parts)
  }

  /** `mount_prefixes`: the comma-separated list, refused for an empty one among several, for a
      repeat, and for one the kernel answers itself. */
  function MountPrefixes(prefix: string): (r: Result<seq<string>, Fault>)
    ensures r.Ok? <==> Mountable(SplitOn(prefix, ','))
    ensures r.Ok? ==> r.value == SplitOn(prefix, ',')
  {
    var parts := SplitOn(prefix, ',');
    if ',' !in prefix then
      assert parts == [prefix];
      if IsKernel(prefix) then Err(KernelPrefix(prefix)) else Ok([prefix])
    else if [] in parts then
      assert |parts| > 1;
      Err(EmptyPrefix(prefix))
    else
      match FaultFrom(parts, 0)
      case Some(fault) =>
        assert exists k :: 0 <= k < |parts| && (parts[k] in parts[..k] || IsKernel(parts[k]));
        Err(fault)
      case None => Ok(parts)
  }

  /** `mount_spec`. */
  function MountSpec(spec: string): Result<(string, string), Fault> {
    match SplitOnce(spec, '=')
    case None => Err(NotASpec(spec))
    case Some(cut) =>
      match MountPrefixes(cut.0)
      case Err(e) => Err(e)
      case Ok(_) => Ok(cut)
  }

  // ----- the words -----

  datatype Item = Cert(flag: CertFlag, path: string) | Mounted(kind: Kind, prefix: string, target: string) | Other

  /** Every other argument: how many words it takes after itself, or why it stops the parse. */
  type Others = seq<string> -> Result<nat, string>

  function FlagOf(arg: string): Option<CertFlag> {
    if arg == "--cert-dir" then Some(CertDir)
    else if arg == "--server-cert" then Some(ServerCert)
    else if arg == "--server-key" then Some(ServerKey)
    else if arg == "--client-cert" then Some(ClientCert)
    else if arg == "--client-key" then Some(ClientKey)
    else None
  }

  function KindOf(arg: string): Option<Kind> {
    if arg == "--mount" then Some(Alias)
    else if arg == "--override" then Some(Override)
    else if arg == "--prefer" then Some(Prefer)
    else None
  }

  /** The next argument and what follows it. */
  function ReadItem(others: Others, argv: seq<string>): (r: Result<(Item, seq<string>), Fault>)
    requires argv != []
    ensures r.Ok? ==> |r.value.1| < |argv|
  {
    match FlagOf(argv[0])
    case Some(flag) =>
      if |argv| == 1 then Err(MissingPath(argv[0])) else Ok((Cert(flag, argv[1]), argv[2..]))
    case None =>
      match KindOf(argv[0])
      case Some(kind) =>
        if |argv| == 1 then Err(MissingSpec(argv[0])) else
          (match MountSpec(argv[1])
           case Err(e) => Err(e)
           case Ok(spec) => Ok((Mounted(kind, spec.0, spec.1), argv[2..])))
      case None =>
        match others(argv)
        case Err(e) => Err(Elsewhere(e))
        case Ok(n) => Ok((Other, argv[1 + if n < |argv| then n else |argv| - 1..]))
  }

  /** The arguments of a command line, or the first that is refused. */
  function Items(others: Others, argv: seq<string>): Result<seq<Item>, Fault>
    decreases |argv|
  {
    if argv == [] then Ok([])
    else
      match ReadItem(others, argv)
      case Err(e) => Err(e)
      case Ok((item, rest)) => Following([item], Items(others, rest))
  }

  function Following(done: seq<Item>, rest: Result<seq<Item>, Fault>): Result<seq<Item>, Fault> {
    match rest
    case Err(e) => Err(e)
    case Ok(items) => Ok(done + items)
  }

  // ----- what a line says -----

  type Flags = seq<(CertFlag, string)>

  datatype Group = Group(kind: Kind, prefix: string, target: string, flags: Flags)

  /** The certificate flags before the first mount, and each mount with the flags that follow it. */
  datatype Line = Line(lead: Flags, groups: seq<Group>)

  function FlagItems(flags: Flags): seq<Item> {
    seq(|flags|, i requires 0 <= i < |flags| => Cert(flags[i].0, flags[i].1))
  }

  function GroupItems(groups: seq<Group>): seq<Item>
    decreases |groups|
  {
    if groups == [] then [] else
      var last := groups[|groups| - 1];
      GroupItems(groups[..|groups| - 1]) + [Mounted(last.kind, last.prefix, last.target)] + FlagItems(last.flags)
  }

  function LineItems(line: Line): seq<Item> {
    FlagItems(line.lead) + GroupItems(line.groups)
  }

  function WithoutOthers(items: seq<Item>): seq<Item> {
    if items == [] then [] else
      WithoutOthers(items[..|items| - 1])
      + if items[|items| - 1].Other? then [] else [items[|items| - 1]]
  }

  function AddFlag(line: Line, flag: (CertFlag, string)): Line {
    if line.groups == [] then line.(lead := line.lead + [flag]) else
      var n := |line.groups| - 1;
      line.(groups := line.groups[n := line.groups[n].(flags := line.groups[n].flags + [flag])])
  }

  function Added(line: Line, item: Item): Line {
    match item
    case Other => line
    case Mounted(kind, prefix, target) => line.(groups := line.groups + [Group(kind, prefix, target, [])])
    case Cert(flag, path) => AddFlag(line, (flag, path))
  }

  /** The line a list of arguments makes. */
  function Grouped(items: seq<Item>): Line {
    if items == [] then Line([], []) else Added(Grouped(items[..|items| - 1]), items[|items| - 1])
  }

  /** Grouping loses nothing and reorders nothing: the mounts and flags of the arguments are
      exactly those of the line, in its order. */
  lemma {:induction false} GroupedSaysAll(items: seq<Item>)
    ensures LineItems(Grouped(items)) == WithoutOthers(items)
  {
    if items != [] {
      GroupedSaysAll(items[..|items| - 1]);
      AddedSays(Grouped(items[..|items| - 1]), items[|items| - 1]);
    }
  }

  lemma AddedSays(line: Line, item: Item)
    ensures LineItems(Added(line, item)) == LineItems(line) + if item.Other? then [] else [item]
  {
    match item
    case Other =>
    case Mounted(kind, prefix, target) =>
      var groups := line.groups + [Group(kind, prefix, target, [])];
      assert groups[..|groups| - 1] == line.groups;
    case Cert(flag, path) =>
      if line.groups == [] {
        assert FlagItems(line.lead + [(flag, path)]) == FlagItems(line.lead) + [item];
      } else {
        var n := |line.groups| - 1;
        var more := line.groups[n].flags + [(flag, path)];
        assert FlagItems(more) == FlagItems(line.groups[n].flags) + [item];
        assert AddFlag(line, (flag, path)).groups[..n] == line.groups[..n];
      }
  }

  /** And a line written out is grouped back into itself. */
  lemma {:induction false} LineIsGrouped(line: Line)
    ensures Grouped(LineItems(line)) == line
    decreases |line.groups|
  {
    if line.groups == [] {
      FlagsAreAdded(Line([], []), [], line.lead);
      assert LineItems(line) == [] + FlagItems(line.lead);
    } else {
      var n := |line.groups| - 1;
      var last := line.groups[n];
      var before := Line(line.lead, line.groups[..n]);
      LineIsGrouped(before);
      var mounted := Mounted(last.kind, last.prefix, last.target);
      GroupedNext(LineItems(before), mounted);
      FlagsAreAdded(Added(before, mounted), LineItems(before) + [mounted], last.flags);
      LineEnds(line);
      var empty := last.(flags := []);
      assert last.flags == [] + last.flags;
      assert (before.groups + [empty])[n := last] == line.groups;
    }
  }

  lemma LineEnds(line: Line)
    requires line.groups != []
    ensures var n := |line.groups| - 1; var last := line.groups[n];
      LineItems(line)
      == LineItems(Line(line.lead, line.groups[..n])) + [Mounted(last.kind, last.prefix, last.target)]
         + FlagItems(last.flags)
  {
  }

  /** A line with flags appended where the next flag goes. */
  function WithFlags(line: Line, flags: Flags): Line {
    if line.groups == [] then line.(lead := line.lead + flags) else
      var n := |line.groups| - 1;
      line.(groups := line.groups[n := line.groups[n].(flags := line.groups[n].flags + flags)])
  }

  lemma {:induction false} FlagsAreAdded(line: Line, items: seq<Item>, flags: Flags)
    requires Grouped(items) == line
    ensures Grouped(items + FlagItems(flags)) == WithFlags(line, flags)
    decreases |flags|
  {
    if flags == [] {
      assert items + FlagItems(flags) == items;
      assert line.groups != [] ==> line.groups[|line.groups| - 1].flags + [] == line.groups[|line.groups| - 1].flags;
    } else {
      var n := |flags| - 1;
      FlagsAreAdded(line, items, flags[..n]);
      var item := Cert(flags[n].0, flags[n].1);
      GroupedNext(items + FlagItems(flags[..n]), item);
      assert items + FlagItems(flags) == items + FlagItems(flags[..n]) + [item];
      assert flags == flags[..n] + [flags[n]];
      assert line.groups != [] ==>
          line.groups[|line.groups| - 1].flags + flags
          == line.groups[|line.groups| - 1].flags + flags[..n] + [flags[n]];
    }
  }

  // ----- what the flags give -----

  /** The last path given for `f`. */
  function Latest(flags: Flags, f: CertFlag): Option<string> {
    if flags == [] then None
    else if flags[|flags| - 1].0 == f then Some(flags[|flags| - 1].1)
    else Latest(flags[..|flags| - 1], f)
  }

  function Or<T>(a: Option<T>, b: Option<T>): Option<T> {
    if a.Some? then a else b
  }

  lemma {:induction false} LatestJoin(a: Flags, b: Flags, f: CertFlag)
    ensures Latest(a + b, f) == Or(Latest(b, f), Latest(a, f))
  {
    if b == [] {
      assert a + b == a;
    } else {
      assert (a + b)[..|a + b| - 1] == a + b[..|b| - 1];
      LatestJoin(a, b[..|b| - 1], f);
    }
  }

  lemma SameFields(a: Certs, b: Certs)
    requires forall f :: Field(a, f) == Field(b, f)
    ensures a == b
  {
    assert Field(a, CertDir) == Field(b, CertDir) && Field(a, ServerCert) == Field(b, ServerCert);
    assert Field(a, ServerKey) == Field(b, ServerKey) && Field(a, ClientCert) == Field(b, ClientCert);
    assert Field(a, ClientKey) == Field(b, ClientKey);
  }

  // ----- the two rules -----

  /** A command line's own certificates and its mounts. */
  datatype Parsed = Parsed(own: Certs, mounts: seq<Mount>)

  predicate Names(m: Mount, g: Group) {
    m.kind == g.kind && m.prefix == g.prefix && m.target == g.target
  }

  /** Each certificate is the last path `flags` give for it, or else the last `base` gives. */
  ghost predicate Gives(c: Certs, flags: Flags, base: Flags) {
    forall f :: Field(c, f) == Or(Latest(flags, f), Latest(base, f))
  }

  lemma GivesOne(a: Certs, b: Certs, flags: Flags, base: Flags)
    requires Gives(a, flags, base) && Gives(b, flags, base)
    ensures a == b
  {
    forall f ensures Field(a, f) == Field(b, f) {
    }
    SameFields(a, b);
  }

  lemma GivesMore(c: Certs, flags: Flags, base: Flags, flag: CertFlag, path: string)
    requires Gives(c, flags, base)
    ensures Gives(With(c, flag, path), flags + [(flag, path)], base)
    ensures flags == [] ==> Gives(With(c, flag, path), [], base + [(flag, path)])
  {
    assert (flags + [(flag, path)])[..|flags|] == flags;
    assert (base + [(flag, path)])[..|base|] == base;
  }

  /** The REPL's rule: the own set is exactly the flags before the first mount, and each mount
      has that set overridden, field by field, by the flags between it and the next. */
  ghost predicate ReplRule(line: Line, p: Parsed) {
    && |p.mounts| == |line.groups|
    && Gives(p.own, [], line.lead)
    && (forall k :: 0 <= k < |p.mounts| ==> Names(p.mounts[k], line.groups[k]))
    && (forall k :: 0 <= k < |p.mounts| ==> Gives(p.mounts[k].certs, line.groups[k].flags, line.lead))
  }

  /** The flags of the first `n` mounts, in order. */
  function GivenBy(groups: seq<Group>, n: nat): Flags
    requires n <= |groups|
  {
    if n == 0 then [] else GivenBy(groups, n - 1) + groups[n - 1].flags
  }

  /** What `serve` and `mcp` do: everything before the next mount, for each mount; and all of it
      for the own set. */
  ghost predicate ServeRule(line: Line, p: Parsed) {
    && |p.mounts| == |line.groups|
    && Gives(p.own, GivenBy(line.groups, |line.groups|), line.lead)
    && (forall k :: 0 <= k < |p.mounts| ==> Names(p.mounts[k], line.groups[k]))
    && (forall k :: 0 <= k < |p.mounts| ==> Gives(p.mounts[k].certs, GivenBy(line.groups, k + 1), line.lead))
  }

  /** Each rule settles the whole outcome. */
  lemma ReplRuleSettles(line: Line, p: Parsed, q: Parsed)
    requires ReplRule(line, p) && ReplRule(line, q)
    ensures p == q
  {
    GivesOne(p.own, q.own, [], line.lead);
    forall k | 0 <= k < |p.mounts| ensures p.mounts[k] == q.mounts[k] {
      GivesOne(p.mounts[k].certs, q.mounts[k].certs, line.groups[k].flags, line.lead);
      assert Names(p.mounts[k], line.groups[k]) && Names(q.mounts[k], line.groups[k]);
    }
  }

  lemma ServeRuleSettles(line: Line, p: Parsed, q: Parsed)
    requires ServeRule(line, p) && ServeRule(line, q)
    ensures p == q
  {
    GivesOne(p.own, q.own, GivenBy(line.groups, |line.groups|), line.lead);
    forall k | 0 <= k < |p.mounts| ensures p.mounts[k] == q.mounts[k] {
      GivesOne(p.mounts[k].certs, q.mounts[k].certs, GivenBy(line.groups, k + 1), line.lead);
      assert Names(p.mounts[k], line.groups[k]) && Names(q.mounts[k], line.groups[k]);
    }
  }

  // ----- where they differ -----

  /** An earlier mount's flag that a later one without its own would take over. */
  predicate Leaks(line: Line, n: nat, f: CertFlag)
    requires n <= |line.groups|
  {
    var before := Latest(GivenBy(line.groups, n), f);
    before.Some? && before != Latest(line.lead, f)
  }

  /** `serve` gives a mount the REPL's certificates exactly when every field an earlier mount
      changed is given again after it; and keeps its own set exactly when no mount changes it. */
  lemma ServeAgrees(line: Line, p: Parsed, q: Parsed)
    requires ReplRule(line, p) && ServeRule(line, q)
    ensures forall k :: 0 <= k < |line.groups| ==>
      (p.mounts[k] == q.mounts[k] <==> forall f :: Leaks(line, k, f) ==> Latest(line.groups[k].flags, f).Some?)
    ensures p.own == q.own <==> forall f :: !Leaks(line, |line.groups|, f)
  {
    forall k | 0 <= k < |line.groups|
      ensures p.mounts[k] == q.mounts[k] <==> forall f :: Leaks(line, k, f) ==> Latest(line.groups[k].flags, f).Some?
    {
      MountAgrees(line, p, q, k);
    }
    var given := GivenBy(line.groups, |line.groups|);
    assert given + [] == given;
    GivesAgree(line, |line.groups|, [], p.own, q.own);
    assert forall f :: Latest([], f) == None;
  }

  /** The REPL's set and `serve`'s, after the same mounts. */
  lemma GivesAgree(line: Line, n: nat, flags: Flags, p: Certs, q: Certs)
    requires n <= |line.groups| && Gives(p, flags, line.lead)
    requires Gives(q, GivenBy(line.groups, n) + flags, line.lead)
    ensures p == q <==> forall f :: Leaks(line, n, f) ==> Latest(flags, f).Some?
  {
    forall f
      ensures Field(p, f) == Field(q, f) <==> (Leaks(line, n, f) ==> Latest(flags, f).Some?)
    {
      LatestJoin(GivenBy(line.groups, n), flags, f);
    }
    if forall f :: Leaks(line, n, f) ==> Latest(flags, f).Some? {
      forall f ensures Field(p, f) == Field(q, f) {
        assert Leaks(line, n, f) ==> Latest(flags, f).Some?;
      }
      SameFields(p, q);
    }
  }

  lemma MountAgrees(line: Line, p: Parsed, q: Parsed, k: nat)
    requires ReplRule(line, p) && ServeRule(line, q) && k < |line.groups|
    ensures p.mounts[k] == q.mounts[k] <==> forall f :: Leaks(line, k, f) ==> Latest(line.groups[k].flags, f).Some?
  {
    assert GivenBy(line.groups, k + 1) == GivenBy(line.groups, k) + line.groups[k].flags;
    assert Gives(q.mounts[k].certs, GivenBy(line.groups, k + 1), line.lead);
    GivesAgree(line, k, line.groups[k].flags, p.mounts[k].certs, q.mounts[k].certs);
    assert Names(p.mounts[k], line.groups[k]) && Names(q.mounts[k], line.groups[k]);
  }

  /** `--mount a=x --cert-dir d --mount b=y`: the REPL leaves the second mount and the own set
      without the directory; `serve` gives it to both. */
  lemma ServeLeaks(a: Group, b: Group, dir: string, p: Parsed, q: Parsed)
    requires a.flags == [(CertDir, dir)] && b.flags == []
    requires ReplRule(Line([], [a, b]), p) && ServeRule(Line([], [a, b]), q)
    ensures p.mounts[1].certs == NO_CERTS && p.own == NO_CERTS
    ensures q.mounts[1].certs.certDir == Some(dir) && q.own.certDir == Some(dir)
  {
    var line := Line([], [a, b]);
    assert GivenBy(line.groups, 1) == [] + a.flags;
    assert GivenBy(line.groups, 2) == GivenBy(line.groups, 1) + b.flags;
    assert Latest(GivenBy(line.groups, 2), CertDir) == Some(dir);
    forall f ensures Field(p.mounts[1].certs, f) == Field(NO_CERTS, f) {
      assert Latest(line.groups[1].flags, f) == None && Latest(line.lead, f) == None;
    }
    forall f ensures Field(p.own, f) == Field(NO_CERTS, f) {
    }
    SameFields(p.mounts[1].certs, NO_CERTS);
    SameFields(p.own, NO_CERTS);
    assert Field(q.mounts[1].certs, CertDir) == Some(dir) && Field(q.own, CertDir) == Some(dir);
  }

  // ----- the loops -----

  lemma ReplTakesFlag(line: Line, p: Parsed, flag: CertFlag, path: string)
    requires ReplRule(line, p)
    ensures line.groups == [] ==> ReplRule(AddFlag(line, (flag, path)), p.(own := With(p.own, flag, path)))
    ensures line.groups != [] ==>
      var n := |p.mounts| - 1;
      ReplRule(AddFlag(line, (flag, path)),
               p.(mounts := p.mounts[n := p.mounts[n].(certs := With(p.mounts[n].certs, flag, path))]))
  {
    if line.groups == [] {
      GivesMore(p.own, [], line.lead, flag, path);
    } else {
      var n := |p.mounts| - 1;
      GivesMore(p.mounts[n].certs, line.groups[n].flags, line.lead, flag, path);
      assert Names(p.mounts[n], line.groups[n]);
    }
  }

  lemma ReplTakesMount(line: Line, p: Parsed, kind: Kind, prefix: string, target: string)
    requires ReplRule(line, p)
    ensures ReplRule(Added(line, Mounted(kind, prefix, target)),
                     p.(mounts := p.mounts + [Mount(kind, prefix, target, p.own)]))
  {
  }

  /** The REPL arm of `parse_argv`. */
  method ReplCerts(others: Others, argv: seq<string>) returns (r: Result<Parsed, Fault>)
    ensures match Items(others, argv)
      case Err(e) => r == Err(e)
      case Ok(items) => r.Ok? && ReplRule(Grouped(items), r.value)
  {
    var own, mounts := NO_CERTS, [];
    var rest := argv;
    ghost var done: seq<Item> := [];
    FollowingNothing(Items(others, argv));
    while rest != []
      invariant Items(others, argv) == Following(done, Items(others, rest))
      invariant ReplRule(Grouped(done), Parsed(own, mounts))
      decreases |rest|
    {
      var read := ReadItem(others, rest);
      if read.Err? {
        return Err(read.error);
      }
      var (item, after) := read.value;
      FollowingNext(done, item, Items(others, after));
      GroupedNext(done, item);
      match item {
        case Other =>
        case Cert(flag, path) =>
          ReplTakesFlag(Grouped(done), Parsed(own, mounts), flag, path);
          if mounts == [] {
            own := With(own, flag, path);
          } else {
            var n := |mounts| - 1;
            mounts := mounts[n := mounts[n].(certs := With(mounts[n].certs, flag, path))];
          }
        case Mounted(kind, prefix, target) =>
          ReplTakesMount(Grouped(done), Parsed(own, mounts), kind, prefix, target);
          mounts := mounts + [Mount(kind, prefix, target, own)];
      }
      done := done + [item];
      rest := after;
    }
    assert done + [] == done;
    return Ok(Parsed(own, mounts));
  }

  lemma FollowingNothing(rest: Result<seq<Item>, Fault>)
    ensures Following([], rest) == rest
  {
    assert rest.Ok? ==> [] + rest.value == rest.value;
  }

  lemma FollowingNext(done: seq<Item>, item: Item, rest: Result<seq<Item>, Fault>)
    ensures Following(done, Following([item], rest)) == Following(done + [item], rest)
  {
    assert rest.Ok? ==> done + ([item] + rest.value) == done + [item] + rest.value;
  }

  lemma GroupedNext(done: seq<Item>, item: Item)
    ensures Grouped(done + [item]) == Added(Grouped(done), item)
  {
    assert (done + [item])[..|done|] == done;
  }

  /** The mounts a change leaves alone are given the same flags. */
  lemma {:induction false} GivenBySame(a: seq<Group>, b: seq<Group>, n: nat)
    requires n <= |a| && n <= |b| && forall k :: 0 <= k < n ==> a[k] == b[k]
    ensures GivenBy(a, n) == GivenBy(b, n)
  {
    if n > 0 {
      GivenBySame(a, b, n - 1);
    }
  }

  lemma ServeTakesFlag(line: Line, p: Parsed, flag: CertFlag, path: string)
    requires ServeRule(line, p)
    ensures var own := With(p.own, flag, path); var n := |p.mounts| - 1;
      ServeRule(AddFlag(line, (flag, path)),
                if p.mounts == [] then Parsed(own, [])
                else Parsed(own, p.mounts[n := p.mounts[n].(certs := own)]))
  {
    var next := AddFlag(line, (flag, path));
    GivesMore(p.own, GivenBy(line.groups, |line.groups|), line.lead, flag, path);
    if line.groups != [] {
      var n := |p.mounts| - 1;
      var own := With(p.own, flag, path);
      var q := Parsed(own, p.mounts[n := p.mounts[n].(certs := own)]);
      GivenMore(line.groups, next.groups, n, (flag, path));
      assert Names(p.mounts[n], line.groups[n]);
      forall k | 0 <= k < |q.mounts|
        ensures Gives(q.mounts[k].certs, GivenBy(next.groups, k + 1), next.lead)
      {
        if k < n {
          GivenBySame(line.groups, next.groups, k + 1);
          assert Gives(p.mounts[k].certs, GivenBy(line.groups, k + 1), line.lead);
        }
      }
    }
  }

  lemma GivenMore(a: seq<Group>, b: seq<Group>, n: nat, flag: (CertFlag, string))
    requires n < |a| && n < |b| && forall k :: 0 <= k < n ==> a[k] == b[k]
    requires b[n].flags == a[n].flags + [flag]
    ensures GivenBy(b, n + 1) == GivenBy(a, n + 1) + [flag]
  {
    GivenBySame(a, b, n);
    assert GivenBy(a, n) + (a[n].flags + [flag]) == GivenBy(a, n) + a[n].flags + [flag];
  }

  lemma ServeTakesMount(line: Line, p: Parsed, kind: Kind, prefix: string, target: string)
    requires ServeRule(line, p)
    ensures ServeRule(Added(line, Mounted(kind, prefix, target)),
                      p.(mounts := p.mounts + [Mount(kind, prefix, target, p.own)]))
  {
    var next := Added(line, Mounted(kind, prefix, target));
    var n := |line.groups|;
    var q := p.(mounts := p.mounts + [Mount(kind, prefix, target, p.own)]);
    GivenBySame(line.groups, next.groups, n);
    assert GivenBy(next.groups, n + 1) == GivenBy(line.groups, n);
    forall k | 0 <= k < |q.mounts|
      ensures Gives(q.mounts[k].certs, GivenBy(next.groups, k + 1), next.lead)
    {
      if k < n {
        GivenBySame(line.groups, next.groups, k + 1);
        assert Gives(p.mounts[k].certs, GivenBy(line.groups, k + 1), line.lead);
      }
    }
  }

  /** The loop `serve` and `mcp` run: one set of certificates for the whole line. */
  method ServeCerts(others: Others, argv: seq<string>) returns (r: Result<Parsed, Fault>)
    ensures match Items(others, argv)
      case Err(e) => r == Err(e)
      case Ok(items) => r.Ok? && ServeRule(Grouped(items), r.value)
  {
    var certs, mounts := NO_CERTS, [];
    var rest := argv;
    ghost var done: seq<Item> := [];
    FollowingNothing(Items(others, argv));
    while rest != []
      invariant Items(others, argv) == Following(done, Items(others, rest))
      invariant ServeRule(Grouped(done), Parsed(certs, mounts))
      decreases |rest|
    {
      var read := ReadItem(others, rest);
      if read.Err? {
        return Err(read.error);
      }
      var (item, after) := read.value;
      FollowingNext(done, item, Items(others, after));
      GroupedNext(done, item);
      match item {
        case Other =>
        case Cert(flag, path) =>
          ServeTakesFlag(Grouped(done), Parsed(certs, mounts), flag, path);
          certs := With(certs, flag, path);
          if mounts != [] {
            var n := |mounts| - 1;
            mounts := mounts[n := mounts[n].(certs := certs)];
          }
        case Mounted(kind, prefix, target) =>
          ServeTakesMount(Grouped(done), Parsed(certs, mounts), kind, prefix, target);
          mounts := mounts + [Mount(kind, prefix, target, certs)];
      }
      done := done + [item];
      rest := after;
    }
    assert done + [] == done;
    return Ok(Parsed(certs, mounts));
  }

  // ----- what the words say -----

  function FlagText(f: CertFlag): string {
    match f
    case CertDir => "--cert-dir"
    case ServerCert => "--server-cert"
    case ServerKey => "--server-key"
    case ClientCert => "--client-cert"
    case ClientKey => "--client-key"
  }

  function KindText(kind: Kind): string {
    match kind
    case Alias => "--mount"
    case Override => "--override"
    case Prefer => "--prefer"
  }

  lemma TextsRead(f: CertFlag, kind: Kind)
    ensures FlagOf(FlagText(f)) == Some(f)
    ensures FlagOf(KindText(kind)) == None && KindOf(KindText(kind)) == Some(kind)
  {
  }

  /** A prefix that can stand before the `=` of a mount, and that is not refused. */
  predicate CanStand(prefix: string) {
    '=' !in prefix && MountPrefixes(prefix).Ok?
  }

  /** The words of one argument. */
  function Words(item: Item): seq<string> {
    match item
    case Cert(f, path) => [FlagText(f), path]
    case Mounted(kind, prefix, target) => [KindText(kind), prefix + ['='] + target]
    case Other => []
  }

  /** A certificate flag takes the next word for its path, whatever it is; a mount flag takes it for
      its spec, split at the first `=`; and each is refused without one. */
  lemma ArgumentReads(others: Others, item: Item, rest: seq<string>)
    requires !item.Other? && (item.Mounted? ==> CanStand(item.prefix))
    ensures ReadItem(others, Words(item) + rest) == Ok((item, rest))
    ensures ReadItem(others, Words(item)[..1]).Err?
  {
    var argv := Words(item) + rest;
    assert argv[2..] == rest;
    match item
    case Cert(f, _) => TextsRead(f, Alias);
    case Mounted(kind, prefix, target) =>
      TextsRead(CertDir, kind);
      SplitOnceUnique(prefix, '=', target);
  }

  /** A spec without `=`, or whose prefixes are refused, stops the parse. */
  lemma SpecsRefused(others: Others, kind: Kind, spec: string, rest: seq<string>)
    ensures '=' !in spec ==> ReadItem(others, [KindText(kind), spec] + rest) == Err(NotASpec(spec))
    ensures forall prefix, target :: spec == prefix + ['='] + target && '=' !in prefix && MountPrefixes(prefix).Err? ==>
      ReadItem(others, [KindText(kind), spec] + rest) == Err(MountPrefixes(prefix).error)
  {
    TextsRead(CertDir, kind);
    forall prefix, target | spec == prefix + ['='] + target && '=' !in prefix && MountPrefixes(prefix).Err?
      ensures ReadItem(others, [KindText(kind), spec] + rest) == Err(MountPrefixes(prefix).error)
    {
      SplitOnceUnique(prefix, '=', target);
    }
  }

  /** Any word but the eight flags is another argument's. */
  lemma OthersRead(others: Others, argv: seq<string>)
    requires argv != [] && forall f, kind :: argv[0] != FlagText(f) && argv[0] != KindText(kind)
    ensures ReadItem(others, argv).Ok? <==> others(argv).Ok?
    ensures ReadItem(others, argv).Ok? ==> ReadItem(others, argv).value.0 == Other
  {
    assert argv[0] != FlagText(CertDir) && argv[0] != KindText(Alias);
    assert argv[0] != FlagText(ServerCert) && argv[0] != KindText(Override);
    assert argv[0] != FlagText(ServerKey) && argv[0] != KindText(Prefer);
    assert argv[0] != FlagText(ClientCert) && argv[0] != FlagText(ClientKey);
  }

  function AllWords(items: seq<Item>): seq<string> {
    if items == [] then [] else Words(items[0]) + AllWords(items[1..])
  }

  /** A command line of mounts and certificate flags, written out, is read as exactly those. */
  lemma {:induction false} WrittenLineReads(others: Others, items: seq<Item>)
    requires forall k :: 0 <= k < |items| ==> !items[k].Other? && (items[k].Mounted? ==> CanStand(items[k].prefix))
    ensures Items(others, AllWords(items)) == Ok(items)
  {
    if items != [] {
      var rest := AllWords(items[1..]);
      ArgumentReads(others, items[0], rest);
      WrittenLineReads(others, items[1..]);
      assert items == [items[0]] + items[1..];
    }
  }

  /** The kernel's own prefixes. */
  lemma KernelsOwn(prefix: string)
    ensures IsKernel(prefix) <==> prefix == "urn:kernel" || exists rest :: prefix == "urn:kernel:" + rest
  {
    if IsKernel(prefix) && prefix != "urn:kernel" {
      assert prefix == "urn:kernel:" + prefix[11..];
    }
    if rest :| prefix == "urn:kernel:" + rest {
      assert prefix[..11] == "urn:kernel:";
    }
  }

  /** Which fault a list of prefixes has: an empty one among several before all else, and then the
      first that repeats an earlier one or is the kernel's. */
  lemma FaultIsFirst(prefix: string)
    ensures var parts := SplitOn(prefix, ',');
      && (|parts| > 1 && [] in parts ==> MountPrefixes(prefix) == Err(EmptyPrefix(prefix)))
      && (!(|parts| > 1 && [] in parts) ==>
            forall k :: 0 <= k < |parts| && Mountable(parts[..k]) && (parts[k] in parts[..k] || IsKernel(parts[k])) ==>
              MountPrefixes(prefix) == Err(if parts[k] in parts[..k] then Twice(parts[k]) else KernelPrefix(parts[k])))
  {
    var parts := SplitOn(prefix, ',');
    if ',' !in prefix {
      assert parts == [prefix];
    }
    if !(|parts| > 1 && [] in parts) {
      forall k | 0 <= k < |parts| && Mountable(parts[..k]) && (parts[k] in parts[..k] || IsKernel(parts[k]))
        ensures MountPrefixes(prefix) == Err(if parts[k] in parts[..k] then Twice(parts[k]) else KernelPrefix(parts[k]))
      {
        FaultReached(parts, 0, k);
      }
    }
  }

  lemma {:induction false} FaultReached(parts: seq<string>, i: nat, k: nat)
    requires i <= k < |parts| && Mountable(parts[..k]) && (parts[k] in parts[..k] || IsKernel(parts[k]))
    ensures FaultFrom(parts, i) == Some(if parts[k] in parts[..k] then Twice(parts[k]) else KernelPrefix(parts[k]))
    decreases k - i
  {
    if i < k {
      assert parts[..k][i] == parts[i];
      assert forall j :: 0 <= j < i ==> parts[..i][j] == parts[..k][j];
      FaultReached(parts, i + 1, k);
    }
  }
}
