/** The live narrowing of an MCP session (`mcp_reloaded` and the grants poller in `main.rs`). */
module McpReload {
  import opened Strings

  /** Root holds every scope. */
  datatype Capability = Root | Scoped(scopes: set<string>)

  datatype Filter = Filter(show: seq<string>, hide: seq<string>)

  function Attenuate(c: Capability, asked: set<string>): Capability {
    match c
    case Root => Scoped(asked)
    case Scoped(scopes) => Scoped(scopes * asked)
  }

  predicate Within(a: Capability, b: Capability) {
    b.Root? || (a.Scoped? && a.scopes <= b.scopes)
  }

  /** `mcp_reloaded`: what a reading leaves, and what only a restart would grant. */
  function Reloaded(baseline: Capability, reading: Capability): (Capability, set<string>) {
    match reading
    case Root => (baseline, {})
    case Scoped(asked) =>
      var kept := Attenuate(baseline, asked);
      (kept, set s | s in asked && s !in kept.scopes)
  }

  /** The most that is within both the start and the reading; and nothing waits but what the
      reading asks for past the start. */
  lemma ReloadedIsTheMeet(baseline: Capability, reading: Capability)
    ensures var (kept, waiting) := Reloaded(baseline, reading);
      && Within(kept, baseline) && Within(kept, reading)
      && (forall c :: Within(c, baseline) && Within(c, reading) ==> Within(c, kept))
      && (forall s :: s in waiting <==> reading.Scoped? && s in reading.scopes && !Within(Scoped({s}), baseline))
  {
  }

  /** One wake of the poller: the file's time, and what reading it would come to. */
  datatype Poll = Poll(time: Option<nat>, session: Result<Capability, string>, filter: Result<Filter, string>)

  /** The wakes that find the file changed. */
  function Taken(last: Option<nat>, polls: seq<Poll>): seq<Poll> {
    if polls == [] then [] else
      var n := |polls| - 1;
      Taken(last, polls[..n]) + if polls[n].time != LastTime(last, polls[..n]) then [polls[n]] else []
  }

  function LastTime(last: Option<nat>, polls: seq<Poll>): Option<nat> {
    if polls == [] then last else polls[|polls| - 1].time
  }

  function Authority(baseline: Capability, session: Result<Capability, string>): Capability {
    match session
    case Ok(reading) => Reloaded(baseline, reading).0
    case Err(_) => Scoped({})
  }

  /** The authority after these readings: the latest decides, and only it. */
  function AuthorityAfter(baseline: Capability, taken: seq<Poll>): Capability {
    if taken == [] then baseline else Authority(baseline, taken[|taken| - 1].session)
  }

  /** The filter of the latest reading that had one. */
  function FilterAfter(start: Filter, taken: seq<Poll>): Filter {
    if taken == [] then start else
      match taken[|taken| - 1].filter
      case Ok(filter) => filter
      case Err(_) => FilterAfter(start, taken[..|taken| - 1])
  }

  /** The client is told of a wake exactly when it changed what the session may do or show. */
  predicate Told(baseline: Capability, start: Filter, taken: seq<Poll>)
    requires taken != []
  {
    var before := taken[..|taken| - 1];
    AuthorityAfter(baseline, taken) != AuthorityAfter(baseline, before)
    || FilterAfter(start, taken) != FilterAfter(start, before)
  }

  /** Whatever was read on the way, the session is never wider than it started; a failed reading
      leaves it nothing, and a reading gives back all it started with exactly when it covers that. */
  lemma NeverWider(baseline: Capability, taken: seq<Poll>)
    ensures Within(AuthorityAfter(baseline, taken), baseline)
    ensures taken != [] && taken[|taken| - 1].session.Err? ==> AuthorityAfter(baseline, taken) == Scoped({})
    ensures taken != [] && taken[|taken| - 1].session.Ok? ==>
      (AuthorityAfter(baseline, taken) == baseline <==> Within(baseline, taken[|taken| - 1].session.value))
  {
    if taken != [] && taken[|taken| - 1].session.Ok? {
      ReloadedIsTheMeet(baseline, taken[|taken| - 1].session.value);
    }
  }

  class Poller {
    const baseline: Capability
    var capability: Capability
    var filter: Filter
    var last: Option<nat>

    constructor (baseline: Capability, filter: Filter, time: Option<nat>)
      ensures this.baseline == baseline && capability == baseline && this.filter == filter && last == time
    {
      this.baseline, capability, this.filter, last := baseline, baseline, filter, time;
    }

    /** One wake; `told` when the client is sent a new tool list, and `waiting` the scopes it
        reports as only a restart's to grant. */
    method Wake(poll: Poll) returns (told: bool, waiting: set<string>)
      modifies this
      ensures last == poll.time
      ensures forall s :: s in waiting <==>
          && poll.time != old(last) && poll.session.Ok? && poll.session.value.Scoped?
          && s in poll.session.value.scopes && !Within(Scoped({s}), baseline)
      ensures poll.time == old(last) ==> !told && capability == old(capability) && filter == old(filter)
      ensures poll.time != old(last) ==>
        && capability == Authority(baseline, poll.session)
        && filter == (if poll.filter.Ok? then poll.filter.value else old(filter))
        && (told <==> capability != old(capability) || filter != old(filter))
    {
      if poll.time == last {
        return false, {};
      }
      last := poll.time;
      waiting := {};
      var reading: Capability;
      match poll.session {
        case Ok(session) =>
          ReloadedIsTheMeet(baseline, session);
          reading, waiting := Reloaded(baseline, session).0, Reloaded(baseline, session).1;
        case Err(_) =>
          reading := Scoped({});
      }
      var shown := filter;
      if poll.filter.Ok? {
        shown := poll.filter.value;
      }
      var capChanged, filterChanged := reading != capability, shown != filter;
      if capChanged {
        capability := reading;
      }
      if filterChanged {
        filter := shown;
      }
      told := capChanged || filterChanged;
    }

    /** Any run of wakes: the authority is the latest reading's, whatever came before; one
        notice for each wake that changed something, and no other. */
    method Watch(polls: seq<Poll>) returns (notices: seq<Poll>)
      requires capability == baseline
      modifies this
      ensures capability == AuthorityAfter(baseline, Taken(old(last), polls))
      ensures Within(capability, baseline)
      ensures filter == FilterAfter(old(filter), Taken(old(last), polls))
      ensures notices == Notices(baseline, old(filter), Taken(old(last), polls))
    {
      notices := [];
      ghost var start, first := filter, last;
      for i := 0 to |polls|
        invariant last == LastTime(first, polls[..i])
        invariant capability == AuthorityAfter(baseline, Taken(first, polls[..i]))
        invariant filter == FilterAfter(start, Taken(first, polls[..i]))
        invariant notices == Notices(baseline, start, Taken(first, polls[..i]))
      {
        assert polls[..i + 1][..i] == polls[..i];
        ghost var before := Taken(first, polls[..i]);
        ghost var after := Taken(first, polls[..i + 1]);
        assert after != before ==> after == before + [polls[i]] && after[..|before|] == before;
        var told, _ := Wake(polls[i]);
        if told {
          notices := notices + [polls[i]];
        }
      }
      assert polls[..|polls|] == polls;
      NeverWider(baseline, Taken(first, polls));
    }
  }

  function Notices(baseline: Capability, start: Filter, taken: seq<Poll>): seq<Poll> {
    if taken == [] then [] else
      var n := |taken| - 1;
      Notices(baseline, start, taken[..n]) + if Told(baseline, start, taken) then [taken[n]] else []
  }
}
