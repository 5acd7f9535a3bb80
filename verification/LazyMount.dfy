/** A mount that connects on first use (`LazyResolver` in `main.rs`): every interleaving of its
    calls, each one's locks taken and dropped where the code takes and drops them, and the calls
    themselves. */
module LazyMount {
  import opened Strings

  /** A live connection; which one is all that matters of it. */
  type Peer = nat

  datatype Who = Resolving | Enumerating

  /** A finished dial: when it began and ended, and what it reached. */
  datatype Dial = Dial(who: Who, began: nat, ended: nat, reached: Option<Peer>)

  /** Where a caller is between two steps that other callers can come between. */
  datatype Pc =
    | Idle
    | Looking                           // `try_entries`, before its first look
    | Consulting                        // nothing connected; before the negative cache
    | Getting(who: Who)                 // `get`, before its look
    | Dialing(who: Who, began: nat)     // outside every lock
    | Keeping(who: Who, peer: Peer)     // reached; before it is kept
    | Clearing                          // before the negative cache is cleared
    | Stamping                          // an enumeration's dial failed; before the clock is read
    | Stamped(at: nat)                  // before the stamp is written

  /** The resolver's two cells, its callers, the clock, and the dials that have ended. */
  datatype World = World(now: nat, inner: Option<Peer>, failed: Option<nat>, callers: seq<Pc>, dials: seq<Dial>)

  const REDIAL_AFTER: nat := 30

  /** Time passes, an idle caller calls, a caller takes its next step (`reached` is what a dial
      that ends with that step came to), or someone probes: `is_cached` and `transport` are one
      look under the lock. */
  datatype Event =
    | Tick(seconds: nat)
    | Call(caller: nat, who: Who)
    | Go(caller: nat, reached: Option<Peer>)
    | Probe

  function At(c: World, p: nat, pc: Pc): World
    requires p < |c.callers|
  {
    c.(callers := c.callers[p := pc])
  }

  function Gone(c: World, p: nat, reached: Option<Peer>): World
    requires p < |c.callers|
  {
    match c.callers[p]
    case Idle => c
    case Looking => At(c, p, if c.inner.Some? then Idle else Consulting)
    case Consulting =>
      if c.failed.Some? && c.now - c.failed.value < REDIAL_AFTER then At(c, p, Idle)
      else At(c, p, Getting(Enumerating))
    case Getting(who) =>
      if c.inner.None? then At(c, p, Dialing(who, c.now))
      else At(c, p, if who.Enumerating? then Clearing else Idle)
    case Dialing(who, began) =>
      var ended := c.(dials := c.dials + [Dial(who, began, c.now, reached)]);
      (match reached
       case Some(peer) => At(ended, p, Keeping(who, peer))
       case None => At(ended, p, if who.Enumerating? then Stamping else Idle))
    case Keeping(who, peer) =>
      At(c.(inner := Some(peer)), p, if who.Enumerating? then Clearing else Idle)
    case Clearing => At(c.(failed := None), p, Idle)
    case Stamping => At(c, p, Stamped(c.now))
    case Stamped(at) => At(c.(failed := Some(at)), p, Idle)
  }

  function Stepped(c: World, e: Event): World {
    match e
    case Tick(seconds) => c.(now := c.now + seconds)
    case Call(p, who) =>
      if p < |c.callers| && c.callers[p].Idle? then At(c, p, if who.Enumerating? then Looking else Getting(who)) else c
    case Go(p, reached) => if p < |c.callers| then Gone(c, p, reached) else c
    case Probe => c
  }

  function Run(c: World, events: seq<Event>): World
    decreases |events|
  {
    if events == [] then c else Run(Stepped(c, events[0]), events[1..])
  }

  function Fresh(callers: nat): World {
    World(0, None, None, seq(callers, _ => Idle), [])
  }

  // ----- connections -----

  predicate Moves(e: Event, p: nat) {
    (e.Call? || e.Go?) && e.caller == p
  }

  /** A step moves at most one caller, and neither the clock nor the record goes back. */
  lemma StepFrame(c: World, e: Event)
    ensures var next := Stepped(c, e);
      && c.now <= next.now && c.dials <= next.dials && |next.callers| == |c.callers|
      && forall p :: 0 <= p < |c.callers| && !Moves(e, p) ==> next.callers[p] == c.callers[p]
  {
  }

  predicate Reached(dials: seq<Dial>, peer: Peer) {
    exists d :: d in dials && d.reached == Some(peer)
  }

  predicate TimelyCaller(c: World, pc: Pc) {
    && (pc.Dialing? ==> pc.began <= c.now)
    && (pc.Stamped? ==> pc.at <= c.now)
    && (pc.Keeping? ==> Reached(c.dials, pc.peer))
  }

  predicate TimelyCells(c: World) {
    && (forall d :: d in c.dials ==> d.began <= d.ended <= c.now)
    && (c.failed.Some? ==> c.failed.value <= c.now)
    && (c.inner.Some? ==> Reached(c.dials, c.inner.value))
  }

  /** No clock runs ahead, and a connection is always one that was reached. */
  predicate Timely(c: World) {
    TimelyCells(c) && forall p :: 0 <= p < |c.callers| ==> TimelyCaller(c, c.callers[p])
  }

  lemma ReachedStays(a: seq<Dial>, b: seq<Dial>, peer: Peer)
    requires Reached(a, peer) && a <= b
    ensures Reached(b, peer)
  {
    var r :| r in a && r.reached == Some(peer);
    assert r in b;
  }

  lemma TimelyStays(c: World, next: World, pc: Pc)
    requires TimelyCaller(c, pc) && c.now <= next.now && c.dials <= next.dials
    ensures TimelyCaller(next, pc)
  {
    if pc.Keeping? {
      ReachedStays(c.dials, next.dials, pc.peer);
    }
  }

  lemma GoneIsTimely(c: World, p: nat, reached: Option<Peer>)
    requires TimelyCells(c) && p < |c.callers| && TimelyCaller(c, c.callers[p])
    ensures var next := Gone(c, p, reached); TimelyCells(next) && TimelyCaller(next, next.callers[p])
  {
    var next := Gone(c, p, reached);
    match c.callers[p]
    case Dialing(who, began) =>
      var d := Dial(who, began, c.now, reached);
      assert next.dials == c.dials + [d] && d in next.dials;
      if c.inner.Some? {
        ReachedStays(c.dials, next.dials, c.inner.value);
      }
    case _ =>
  }

  lemma StepKeepsTimely(c: World, e: Event)
    requires Timely(c)
    ensures Timely(Stepped(c, e))
  {
    var next := Stepped(c, e);
    StepFrame(c, e);
    if e.Go? && e.caller < |c.callers| {
      GoneIsTimely(c, e.caller, e.reached);
    }
    forall p | 0 <= p < |next.callers| ensures TimelyCaller(next, next.callers[p]) {
      if !Moves(e, p) || e.Call? {
        TimelyStays(c, next, c.callers[p]);
      }
    }
  }

  /** Once connected, connected whatever anyone does next, and no dial begins again: those still
      to end had begun before. */
  lemma {:induction false} StaysConnected(c: World, events: seq<Event>)
    requires Timely(c) && c.inner.Some?
    ensures var end := Run(c, events);
      && end.inner.Some? && Timely(end) && c.dials <= end.dials
      && (forall k :: |c.dials| <= k < |end.dials| ==> end.dials[k].began <= c.now)
      && (forall p :: 0 <= p < |end.callers| && end.callers[p].Dialing? ==>
            p < |c.callers| && end.callers[p].began <= c.now)
    decreases |events|
  {
    ConnectedFrom(c, events, |c.dials|, c.now);
  }

  /** Every dial still running, or ended since, began by then. */
  predicate BegunBy(c: World, since: nat, time: nat) {
    && since <= |c.dials|
    && (forall k :: since <= k < |c.dials| ==> c.dials[k].began <= time)
    && (forall p :: 0 <= p < |c.callers| && c.callers[p].Dialing? ==> c.callers[p].began <= time)
  }

  lemma {:induction false} ConnectedFrom(c: World, events: seq<Event>, since: nat, time: nat)
    requires Timely(c) && c.inner.Some? && BegunBy(c, since, time)
    ensures var end := Run(c, events);
      && end.inner.Some? && Timely(end) && c.dials <= end.dials && |end.callers| == |c.callers|
      && BegunBy(end, since, time)
    decreases |events|
  {
    if events != [] {
      var next := Stepped(c, events[0]);
      StepKeepsTimely(c, events[0]);
      StepStaysConnected(c, events[0], since, time);
      ConnectedFrom(next, events[1..], since, time);
    }
  }

  lemma StepStaysConnected(c: World, e: Event, since: nat, time: nat)
    requires c.inner.Some? && BegunBy(c, since, time)
    ensures var next := Stepped(c, e);
      next.inner.Some? && c.dials <= next.dials && |next.callers| == |c.callers| && BegunBy(next, since, time)
  {
  }

  // ----- the negative cache -----

  /** A caller in an enumeration that the negative cache has let through. */
  predicate PastCache(pc: Pc) {
    match pc
    case Getting(who) => who.Enumerating?
    case Dialing(who, _) => who.Enumerating?
    case Keeping(who, _) => who.Enumerating?
    case Clearing => true
    case Stamping => true
    case Stamped(_) => true
    case _ => false
  }

  predicate Missed(d: Dial) {
    d.who.Enumerating? && d.reached.None?
  }

  /** An enumeration dials no sooner than thirty seconds after any earlier one's dial failed. */
  predicate Spaced(dials: seq<Dial>) {
    forall j, k :: 0 <= j < k < |dials| && Missed(dials[j]) && dials[k].who.Enumerating? ==>
      dials[k].began >= dials[j].ended + REDIAL_AFTER
  }

  /** At most one enumeration is past the negative cache; others may be on their way to it, and
      resolutions run as they will. */
  predicate OnePast(c: World) {
    forall p, q :: 0 <= p < q < |c.callers| ==> !(PastCache(c.callers[p]) && PastCache(c.callers[q]))
  }

  /** A run in which that is so throughout. */
  predicate OneAtATime(c: World, events: seq<Event>)
    decreases |events|
  {
    OnePast(c) && (events != [] ==> OneAtATime(Stepped(c, events[0]), events[1..]))
  }

  /** A failed dial is not forgotten: a connection has made it moot, the stamp covers it, or a
      caller is about to write a stamp that will. */
  predicate Remembered(c: World, d: Dial) {
    || c.inner.Some?
    || (c.failed.Some? && c.failed.value >= d.ended)
    || exists p :: 0 <= p < |c.callers| && (c.callers[p].Stamping? || c.callers[p].Stamped?)
  }

  /** What a caller in an enumeration knows of a failed dial. */
  predicate Knows(c: World, pc: Pc, d: Dial) {
    && (pc == Getting(Enumerating) ==> c.inner.Some? || c.now >= d.ended + REDIAL_AFTER)
    && (pc.Dialing? && pc.who.Enumerating? ==> pc.began >= d.ended + REDIAL_AFTER)
    && (pc.Stamped? ==> pc.at >= d.ended)
  }

  predicate AllKnown(c: World, pc: Pc) {
    && (pc.Clearing? ==> c.inner.Some?)
    && forall d :: d in c.dials && Missed(d) ==> Knows(c, pc, d)
  }

  predicate AllRemembered(c: World) {
    forall d :: d in c.dials && Missed(d) ==> Remembered(c, d)
  }

  predicate Patient(c: World) {
    && Timely(c) && OnePast(c) && Spaced(c.dials) && AllRemembered(c)
    && forall p :: 0 <= p < |c.callers| ==> AllKnown(c, c.callers[p])
  }

  /** The next step of the one enumeration past the cache. */
  lemma GoneKnows(c: World, p: nat, reached: Option<Peer>)
    requires Patient(c) && p < |c.callers| && PastCache(c.callers[p])
    ensures var next := Gone(c, p, reached);
      AllKnown(next, next.callers[p]) && AllRemembered(next) && Spaced(next.dials)
  {
    var next := Gone(c, p, reached);
    assert AllKnown(c, c.callers[p]);
    Alone(c, p);
    if c.callers[p].Dialing? {
      DialEnds(c, p, reached);
    } else {
      assert c.callers[p].Stamping? ==> next.callers[p].Stamped?;
      forall d | d in next.dials && Missed(d) ensures Knows(next, next.callers[p], d) && Remembered(next, d) {
        assert Knows(c, c.callers[p], d) && Remembered(c, d);
      }
    }
  }

  /** Nobody else is about to write a stamp. */
  lemma Alone(c: World, p: nat)
    requires OnePast(c) && p < |c.callers| && PastCache(c.callers[p])
    ensures forall q :: 0 <= q < |c.callers| && q != p ==> !PastCache(c.callers[q])
  {
    forall q | 0 <= q < |c.callers| && q != p ensures !PastCache(c.callers[q]) {
      var (a, b) := if p < q then (p, q) else (q, p);
      assert !(PastCache(c.callers[a]) && PastCache(c.callers[b]));
    }
  }

  lemma DialEnds(c: World, p: nat, reached: Option<Peer>)
    requires Patient(c) && p < |c.callers| && c.callers[p].Dialing? && c.callers[p].who.Enumerating?
    ensures var next := Gone(c, p, reached);
      AllKnown(next, next.callers[p]) && AllRemembered(next) && Spaced(next.dials)
  {
    var next := Gone(c, p, reached);
    var pc := c.callers[p];
    assert AllKnown(c, pc);
    Alone(c, p);
    var d := Dial(Enumerating, pc.began, c.now, reached);
    assert next.dials == c.dials + [d];
    forall m | m in c.dials && Missed(m) ensures d.began >= m.ended + REDIAL_AFTER {
      assert Knows(c, pc, m);
    }
    forall m | m in next.dials && Missed(m) ensures Remembered(next, m) {
      if reached.None? {
        assert next.callers[p].Stamping?;
      } else {
        assert m in c.dials && Remembered(c, m);
      }
    }
  }

  /** Whoever the cache lets through, with nobody else past it, has seen every stamp there is to
      come: each failed dial is thirty seconds old. */
  lemma CacheLetsThrough(c: World, p: nat, reached: Option<Peer>)
    requires Patient(c) && p < |c.callers| && c.callers[p].Consulting? && OnePast(Gone(c, p, reached))
    ensures AllKnown(Gone(c, p, reached), Gone(c, p, reached).callers[p])
  {
    var next := Gone(c, p, reached);
    if next.callers[p] == Getting(Enumerating) {
      Alone(next, p);
      forall q | 0 <= q < |c.callers| ensures !PastCache(c.callers[q]) {
        assert q != p ==> next.callers[q] == c.callers[q];
      }
      forall d | d in next.dials && Missed(d) ensures Knows(next, next.callers[p], d) {
        assert Remembered(c, d);
      }
    }
  }

  /** Any other step, and time, disturb nothing that enumeration knows. */
  lemma OthersDisturbNothing(c: World, e: Event)
    requires Patient(c) && OnePast(Stepped(c, e))
    requires e.Go? && e.caller < |c.callers| ==> !PastCache(c.callers[e.caller])
    ensures var next := Stepped(c, e);
      && AllRemembered(next) && Spaced(next.dials)
      && forall p :: 0 <= p < |c.callers| ==> AllKnown(next, next.callers[p])
  {
    var next := Stepped(c, e);
    StepFrame(c, e);
    MissedStay(c, e);
    forall d | d in next.dials && Missed(d) ensures Remembered(next, d) {
      assert Remembered(c, d);
      if p :| 0 <= p < |c.callers| && (c.callers[p].Stamping? || c.callers[p].Stamped?) {
        assert next.callers[p] == c.callers[p];
      }
    }
    forall p | 0 <= p < |c.callers| ensures AllKnown(next, next.callers[p]) {
      if e.Go? && e.caller == p && c.callers[p].Consulting? {
        CacheLetsThrough(c, p, e.reached);
      } else {
        assert AllKnown(c, c.callers[p]);
        forall d | d in next.dials && Missed(d) ensures Knows(next, next.callers[p], d) {
          assert Knows(c, c.callers[p], d);
        }
      }
    }
  }

  /** A resolution's dial is no missed enumeration. */
  lemma MissedStay(c: World, e: Event)
    requires Spaced(c.dials)
    requires e.Go? && e.caller < |c.callers| ==> !PastCache(c.callers[e.caller])
    ensures var next := Stepped(c, e);
      && Spaced(next.dials)
      && (c.inner.Some? ==> next.inner.Some?)
      && (next.failed == c.failed)
      && forall d :: d in next.dials && Missed(d) ==> d in c.dials
  {
  }

  lemma StepKeepsPatient(c: World, e: Event)
    requires Patient(c) && OnePast(Stepped(c, e))
    ensures Patient(Stepped(c, e))
  {
    StepKeepsTimely(c, e);
    if e.Go? && e.caller < |c.callers| && PastCache(c.callers[e.caller]) {
      GoneKnows(c, e.caller, e.reached);
      RestKnow(c, e.caller, e.reached);
    } else {
      OthersDisturbNothing(c, e);
    }
  }

  /** Callers not past the cache have nothing to know. */
  lemma RestKnow(c: World, p: nat, reached: Option<Peer>)
    requires Patient(c) && p < |c.callers| && PastCache(c.callers[p])
    ensures var next := Gone(c, p, reached);
      forall q :: 0 <= q < |next.callers| && q != p ==> AllKnown(next, next.callers[q])
  {
    Alone(c, p);
  }

  /** While no two enumerations are past the cache together, however they and the resolutions
      interleave, none dials within thirty seconds of a failed one. */
  lemma {:induction false} EnumerationsAreSpaced(c: World, events: seq<Event>)
    requires Patient(c) && OneAtATime(c, events)
    ensures Patient(Run(c, events))
    decreases |events|
  {
    if events != [] {
      StepKeepsPatient(c, events[0]);
      EnumerationsAreSpaced(Stepped(c, events[0]), events[1..]);
    }
  }

  lemma FreshIsPatient(callers: nat)
    ensures Patient(Fresh(callers))
  {
  }

  /** Each of two callers' next steps, twice over, every dial failing. */
  function Turns(p: nat, q: nat): seq<Event> {
    [Go(p, None), Go(q, None), Go(p, None), Go(q, None)]
  }

  /** Two enumerations past the cache together can always fail together: from any unconnected
      world, whatever came before. */
  lemma OverlapBreaksSpacing(c: World, p: nat, q: nat)
    requires p < |c.callers| && q < |c.callers| && p != q && c.inner.None?
    requires c.callers[p] == Getting(Enumerating) && c.callers[q] == Getting(Enumerating)
    ensures !Spaced(Run(c, Turns(p, q)).dials)
  {
    var events := Turns(p, q);
    var c1 := Stepped(c, events[0]);
    var c2 := Stepped(c1, events[1]);
    var c3 := Stepped(c2, events[2]);
    var c4 := Stepped(c3, events[3]);
    RunFour(c, events);
    var n := |c.dials|;
    assert c4.dials[n] == Dial(Enumerating, c.now, c.now, None);
    assert c4.dials[n + 1] == Dial(Enumerating, c.now, c.now, None);
  }

  /** Two callers list at once on a new resolver whose peer is away. */
  function BothList(p: nat, q: nat): seq<Event> {
    [Call(p, Enumerating), Call(q, Enumerating)] + (Turns(p, q) + Turns(p, q))
  }

  /** Then both dial at once, and the dials fail zero seconds apart. */
  lemma BothListFails(callers: nat, p: nat, q: nat)
    requires p < callers && q < callers && p != q
    ensures !Spaced(Run(Fresh(callers), BothList(p, q)).dials)
  {
    var calls := [Call(p, Enumerating), Call(q, Enumerating)];
    var called := Stepped(Stepped(Fresh(callers), calls[0]), calls[1]);
    RunJoin(Fresh(callers), calls, Turns(p, q) + Turns(p, q));
    assert calls[1..] == [calls[1]];
    assert Run(Stepped(Fresh(callers), calls[0]), [calls[1]]) == Run(called, []);
    RunJoin(called, Turns(p, q), Turns(p, q));
    RunFour(called, Turns(p, q));
    var past := Run(called, Turns(p, q));
    assert past.callers[p] == Getting(Enumerating) && past.callers[q] == Getting(Enumerating);
    OverlapBreaksSpacing(past, p, q);
  }

  lemma {:induction false} RunJoin(c: World, a: seq<Event>, b: seq<Event>)
    ensures Run(c, a + b) == Run(Run(c, a), b)
    decreases |a|
  {
    if a == [] {
      assert a + b == b;
    } else {
      assert (a + b)[1..] == a[1..] + b;
      RunJoin(Stepped(c, a[0]), a[1..], b);
    }
  }

  /** Only these callers ever list. */
  predicate EnumerateOnly(events: seq<Event>, who: set<nat>) {
    forall k :: 0 <= k < |events| && events[k].Call? && events[k].who.Enumerating? ==> events[k].caller in who
  }

  predicate InEnumeration(pc: Pc) {
    pc.Looking? || pc.Consulting? || PastCache(pc)
  }

  lemma TwoAreTwo(who: set<nat>, p: nat, q: nat)
    requires p in who && q in who && p != q
    ensures |who| >= 2
  {
    var both := {p, q};
    assert both <= who && |both| == 2;
    assert who == both + (who - both);
  }

  /** One caller cannot list twice at once. */
  lemma {:induction false} OneListsAtATime(c: World, events: seq<Event>, who: set<nat>)
    requires |who| <= 1 && EnumerateOnly(events, who)
    requires forall p :: 0 <= p < |c.callers| && InEnumeration(c.callers[p]) ==> p in who
    ensures OneAtATime(c, events)
    decreases |events|
  {
    forall p, q | 0 <= p < q < |c.callers| ensures !(PastCache(c.callers[p]) && PastCache(c.callers[q])) {
      if p in who && q in who {
        TwoAreTwo(who, p, q);
      }
    }
    if events != [] {
      var next := Stepped(c, events[0]);
      StepFrame(c, events[0]);
      forall p | 0 <= p < |next.callers| && InEnumeration(next.callers[p]) ensures p in who {
        EntersByCalling(c, events[0], p);
      }
      assert forall k :: 0 <= k < |events| - 1 ==> events[1..][k] == events[k + 1];
      OneListsAtATime(next, events[1..], who);
    }
  }

  lemma EntersByCalling(c: World, e: Event, p: nat)
    requires p < |c.callers| && InEnumeration(Stepped(c, e).callers[p])
    ensures InEnumeration(c.callers[p]) || e == Call(p, Enumerating)
  {
    StepFrame(c, e);
  }

  /** Exactly when the thirty seconds are kept: on a new resolver, in every run in which only the
      callers `who` list, however they and everyone's resolutions interleave, if and only if no
      two callers do. */
  lemma SpacedExactly(callers: nat, who: set<nat>)
    requires forall p :: p in who ==> p < callers
    ensures (forall events :: EnumerateOnly(events, who) ==> Spaced(Run(Fresh(callers), events).dials)) <==> |who| <= 1
  {
    if |who| <= 1 {
      forall events | EnumerateOnly(events, who) ensures Spaced(Run(Fresh(callers), events).dials) {
        FreshIsPatient(callers);
        OneListsAtATime(Fresh(callers), events, who);
        EnumerationsAreSpaced(Fresh(callers), events);
      }
    } else {
      var p :| p in who;
      assert |who - {p}| >= 1;
      var q :| q in who - {p};
      BothListFails(callers, p, q);
      assert EnumerateOnly(BothList(p, q), who);
    }
  }

  lemma RunFour(c: World, events: seq<Event>)
    requires |events| == 4
    ensures Run(c, events)
      == Stepped(Stepped(Stepped(Stepped(c, events[0]), events[1]), events[2]), events[3])
  {
    var c1 := Stepped(c, events[0]);
    var c2 := Stepped(c1, events[1]);
    var c3 := Stepped(c2, events[2]);
    assert Run(c, events) == Run(c1, events[1..]);
    assert Run(c1, events[1..]) == Run(c2, events[1..][1..]);
    assert events[1..][1..][0] == events[2] && events[1..][1..][1..][0] == events[3];
    assert Run(c2, events[1..][1..]) == Run(c3, events[1..][1..][1..]);
    assert events[1..][1..][1..][1..] == [];
  }

  // ----- one caller -----

  /** How long a dial takes and what it reaches, given the dials before it and when it begins. */
  type Outcome = (seq<Dial>, nat) -> (nat, Option<Peer>)

  function Dialed(outcome: Outcome, c: World, who: Who): World {
    var (took, reached) := outcome(c.dials, c.now);
    c.(now := c.now + took, dials := c.dials + [Dial(who, c.now, c.now + took, reached)],
       inner := if reached.Some? then reached else c.inner)
  }

  predicate Asleep(c: World) {
    c.failed.Some? && c.now - c.failed.value < REDIAL_AFTER
  }

  /** A resolution, with nobody else about. */
  function Resolved(outcome: Outcome, c: World): World {
    if c.inner.Some? then c else Dialed(outcome, c, Resolving)
  }

  /** An enumeration, with nobody else about. */
  function Enumerated(outcome: Outcome, c: World): World {
    if c.inner.Some? || Asleep(c) then c else
      var next := Dialed(outcome, c, Enumerating);
      next.(failed := if next.inner.Some? then None else Some(next.now))
  }

  /** The steps such a call takes; a step with nothing left to do does nothing. */
  function Steps(outcome: Outcome, c: World, who: Who): seq<Event> {
    var (took, reached) := outcome(c.dials, c.now);
    var dials := c.inner.None? && (who.Enumerating? ==> !Asleep(c));
    var wait := Tick(if dials then took else 0);
    if who.Resolving? then [Call(0, who), Go(0, None), wait, Go(0, reached), Go(0, None)]
    else [Call(0, who), Go(0, None), Go(0, None), Go(0, None), wait, Go(0, reached), Go(0, None), Go(0, None)]
  }

  /** A call by itself is one of the interleaved runs. */
  lemma ResolvedIsARun(outcome: Outcome, c: World)
    requires c.callers == [Idle]
    ensures Run(c, Steps(outcome, c, Resolving)) == Resolved(outcome, c)
  {
    var es := Steps(outcome, c, Resolving);
    RunFive(c, es);
    var looked := Stepped(Stepped(c, es[0]), es[1]);
    assert looked.callers == [if c.inner.Some? then Idle else Dialing(Resolving, c.now)];
    var reached := es[3].reached;
    var ended := Stepped(Stepped(looked, es[2]), es[3]);
    assert ended.callers == [if c.inner.None? && reached.Some? then Keeping(Resolving, reached.value) else Idle];
  }

  lemma RunFive(c: World, es: seq<Event>)
    requires |es| == 5
    ensures Run(c, es) == Stepped(Stepped(Stepped(Stepped(Stepped(c, es[0]), es[1]), es[2]), es[3]), es[4])
  {
    RunFour(Stepped(c, es[0]), es[1..]);
  }

  lemma EnumeratedIsARun(outcome: Outcome, c: World)
    requires c.callers == [Idle]
    ensures Run(c, Steps(outcome, c, Enumerating)) == Enumerated(outcome, c)
  {
    var es := Steps(outcome, c, Enumerating);
    var stays := c.inner.Some? || Asleep(c);
    RunApproach(c, es);
    if stays {
      RunFive(c, es[3..]);
    } else {
      RunFive(At(c, 0, Getting(Enumerating)), es[3..]);
      DialsThenStamps(outcome, c);
    }
  }

  lemma RunApproach(c: World, es: seq<Event>)
    requires c.callers == [Idle] && |es| == 8
    requires es[0] == Call(0, Enumerating) && es[1] == es[2] == Go(0, None)
    ensures Run(c, es) == Run(if c.inner.Some? || Asleep(c) then c else At(c, 0, Getting(Enumerating)), es[3..])
  {
    var c1 := Stepped(c, es[0]);
    var c2 := Stepped(c1, es[1]);
    var c3 := Stepped(c2, es[2]);
    assert Run(c, es) == Run(c1, es[1..]);
    assert Run(c1, es[1..]) == Run(c2, es[1..][1..]);
    assert es[1..][1..] == es[2..];
    assert Run(c2, es[2..]) == Run(c3, es[2..][1..]);
    assert es[2..][1..] == es[3..];
    assert c1 == c.(callers := [Looking]);
    assert c2.callers == [if c.inner.Some? then Idle else Consulting];
    assert c3.callers == [if c.inner.Some? || Asleep(c) then Idle else Getting(Enumerating)];
    var end := if c.inner.Some? || Asleep(c) then c else At(c, 0, Getting(Enumerating));
    assert end.callers == c3.callers && end.now == c3.now && end.inner == c3.inner;
    assert c3 == end;
  }

  /** From past the negative cache to the end of the enumeration. */
  lemma DialsThenStamps(outcome: Outcome, c: World)
    requires c.callers == [Idle] && c.inner.None? && !Asleep(c)
    ensures var (took, reached) := outcome(c.dials, c.now);
      Stepped(Stepped(Stepped(Stepped(Stepped(At(c, 0, Getting(Enumerating)),
        Go(0, None)), Tick(took)), Go(0, reached)), Go(0, None)), Go(0, None)) == Enumerated(outcome, c)
  {
    var (took, reached) := outcome(c.dials, c.now);
    var dialing := Stepped(At(c, 0, Getting(Enumerating)), Go(0, None));
    assert dialing.callers == [Dialing(Enumerating, c.now)];
    var ended := Stepped(Stepped(dialing, Tick(took)), Go(0, reached));
    assert ended.callers == [if reached.Some? then Keeping(Enumerating, reached.value) else Stamping];
    var last := Stepped(ended, Go(0, None));
    assert last.callers == [if reached.Some? then Clearing else Stamped(ended.now)];
  }

  lemma {:induction false} OneCallerIsOnePast(c: World, events: seq<Event>)
    requires |c.callers| == 1
    ensures OneAtATime(c, events)
    decreases |events|
  {
    if events != [] {
      StepFrame(c, events[0]);
      OneCallerIsOnePast(Stepped(c, events[0]), events[1..]);
    }
  }

  /** What holds of the resolver between calls. */
  predicate Quiet(c: World) {
    && Patient(c) && c.callers == [Idle]
    && (forall k :: 0 <= k < |c.dials| - 1 ==> c.dials[k].reached.None?)
    && c.inner == LastReached(c.dials)
  }

  function LastReached(dials: seq<Dial>): Option<Peer> {
    if dials == [] then None else dials[|dials| - 1].reached
  }

  /** A call by itself keeps that: at most one dial ever succeeds, the last, and it is what the
      resolver holds. */
  lemma CallsKeepQuiet(outcome: Outcome, c: World)
    requires Quiet(c)
    ensures Quiet(Resolved(outcome, c)) && Quiet(Enumerated(outcome, c))
  {
    ResolvedIsARun(outcome, c);
    OneCallerIsOnePast(c, Steps(outcome, c, Resolving));
    EnumerationsAreSpaced(c, Steps(outcome, c, Resolving));
    EnumeratedIsARun(outcome, c);
    OneCallerIsOnePast(c, Steps(outcome, c, Enumerating));
    EnumerationsAreSpaced(c, Steps(outcome, c, Enumerating));
    if c.inner.None? {
      DialedIsLast(outcome, c);
    }
  }

  lemma DialedIsLast(outcome: Outcome, c: World)
    requires c.inner.None? && LastReached(c.dials).None?
    requires (forall k :: 0 <= k < |c.dials| - 1 ==> c.dials[k].reached.None?)
    ensures forall who :: var next := Dialed(outcome, c, who);
      && (forall k :: 0 <= k < |next.dials| - 1 ==> next.dials[k].reached.None?)
      && next.inner == LastReached(next.dials)
  {
  }

  lemma TimeKeepsQuiet(c: World, seconds: nat)
    requires Quiet(c)
    ensures Quiet(Stepped(c, Tick(seconds)))
  {
    StepKeepsPatient(c, Tick(seconds));
  }

  /** What a lone user of the resolver does with it, and the time between. */
  datatype Use = Resolve | List | Wait(seconds: nat)

  function Used(outcome: Outcome, c: World, uses: seq<Use>): World {
    if uses == [] then c else
      var before := Used(outcome, c, uses[..|uses| - 1]);
      match uses[|uses| - 1]
      case Resolve => Resolved(outcome, before)
      case List => Enumerated(outcome, before)
      case Wait(seconds) => Stepped(before, Tick(seconds))
  }

  /** Over every sequence of uses of a new resolver, whatever the peer does: lists dial at least
      thirty seconds after a failed list, at most one dial ever succeeds, the last, and its
      connection is the one held. */
  lemma {:induction false} EveryUseIsQuiet(outcome: Outcome, uses: seq<Use>)
    ensures var c := Used(outcome, Fresh(1), uses); Quiet(c) && Spaced(c.dials)
  {
    if uses == [] {
      FreshIsPatient(1);
    } else {
      var init := uses[..|uses| - 1];
      EveryUseIsQuiet(outcome, init);
      CallsKeepQuiet(outcome, Used(outcome, Fresh(1), init));
      if uses[|uses| - 1].Wait? {
        TimeKeepsQuiet(Used(outcome, Fresh(1), init), uses[|uses| - 1].seconds);
      }
    }
  }

  // ----- when a call dials -----

  /** Nothing failed for an enumeration within the last thirty seconds, as far as the stamp says. */
  predicate Rested(now: nat, failed: Option<nat>) {
    failed.None? || now - failed.value >= 30
  }

  /** An enumeration that finds nothing connected dials, once, exactly when it is rested; and what
      it holds after is what the dial reached. A resolution dials whenever nothing is connected. */
  lemma CallsDialWhen(outcome: Outcome, c: World)
    ensures var next := Enumerated(outcome, c); var (took, reached) := outcome(c.dials, c.now);
      if c.inner.None? && Rested(c.now, c.failed) then
        && next.dials == c.dials + [Dial(Enumerating, c.now, c.now + took, reached)] && next.inner == reached
        && next.now == c.now + took && next.failed == if reached.Some? then None else Some(next.now)
      else next == c
    ensures var next := Resolved(outcome, c); var (took, reached) := outcome(c.dials, c.now);
      if c.inner.None? then
        && next.dials == c.dials + [Dial(Resolving, c.now, c.now + took, reached)] && next.inner == reached
        && next.now == c.now + took && next.failed == c.failed
      else next == c
  {
  }

  /** Among any others, a caller at the cache goes on to dial exactly when it is rested and nothing
      has connected by its next step; and a resolution never stops at the cache. */
  lemma CacheOpensAfterThirty(c: World, p: nat)
    requires p < |c.callers| && c.callers[p].Consulting? && c.inner.None?
    ensures Run(c, [Go(p, None), Go(p, None)]).callers
      == c.callers[p := if Rested(c.now, c.failed) then Dialing(Enumerating, c.now) else Idle]
  {
    var next := Stepped(c, Go(p, None));
    assert [Go(p, None), Go(p, None)][1..] == [Go(p, None)];
    assert [Go(p, None)][1..] == [];
    assert Run(next, [Go(p, None)]) == Run(Stepped(next, Go(p, None)), []);
  }

  lemma ResolutionsPassTheCache(c: World, p: nat)
    requires p < |c.callers| && c.callers[p].Idle? && c.inner.None?
    ensures Run(c, [Call(p, Resolving), Go(p, None)]).callers == c.callers[p := Dialing(Resolving, c.now)]
  {
    var next := Stepped(c, Call(p, Resolving));
    assert [Call(p, Resolving), Go(p, None)][1..] == [Go(p, None)];
    assert [Go(p, None)][1..] == [];
    assert Run(next, [Go(p, None)]) == Run(Stepped(next, Go(p, None)), []);
  }

  /** A stamp is when some enumeration's dial failed. */
  predicate StampIsReal(c: World) {
    c.inner.None? && c.failed.Some? ==> exists d :: d in c.dials && Missed(d) && d.ended == c.failed.value
  }

  lemma {:induction false} StampStaysReal(outcome: Outcome, uses: seq<Use>)
    ensures StampIsReal(Used(outcome, Fresh(1), uses))
  {
    if uses != [] {
      var init := uses[..|uses| - 1];
      var before := Used(outcome, Fresh(1), init);
      StampStaysReal(outcome, init);
      StampKept(outcome, before);
    }
  }

  lemma StampKept(outcome: Outcome, c: World)
    requires StampIsReal(c)
    ensures StampIsReal(Resolved(outcome, c)) && StampIsReal(Enumerated(outcome, c))
  {
    var resolved, listed := Resolved(outcome, c), Enumerated(outcome, c);
    assert forall d :: d in c.dials ==> d in resolved.dials && d in listed.dials;
    if listed != c {
      assert listed.dials[|c.dials|] in listed.dials;
    }
  }

  /** Over every sequence of uses of a new resolver: a list dials if and only if nothing has been
      reached and no list's dial failed under thirty seconds ago, and a resolution if and only if
      nothing has been reached. So a list that was turned away dials again once the time is up. */
  lemma ListDialsExactly(outcome: Outcome, uses: seq<Use>)
    ensures var c := Used(outcome, Fresh(1), uses); var away := forall d :: d in c.dials ==> d.reached.None?;
      && (|Enumerated(outcome, c).dials| == |c.dials| + 1
          <==> away && forall d :: d in c.dials && d.who.Enumerating? ==> c.now - d.ended >= 30)
      && (|Resolved(outcome, c).dials| == |c.dials| + 1 <==> away)
  {
    var c := Used(outcome, Fresh(1), uses);
    EveryUseIsQuiet(outcome, uses);
    StampStaysReal(outcome, uses);
    CallsDialWhen(outcome, c);
    assert c.dials != [] ==> c.dials[|c.dials| - 1] in c.dials;
    if c.inner.None? {
      assert forall d :: d in c.dials && Missed(d) ==> Remembered(c, d);
    }
  }

  // ----- probes -----

  function WithoutProbes(events: seq<Event>): seq<Event> {
    if events == [] then []
    else if events[0].Probe? then WithoutProbes(events[1..])
    else [events[0]] + WithoutProbes(events[1..])
  }

  /** Probes can be taken out of any run, wherever they fall in it: they dial nothing, change
      nothing, and no caller is the wiser. */
  lemma {:induction false} ProbesChangeNothing(c: World, events: seq<Event>)
    ensures Run(c, WithoutProbes(events)) == Run(c, events)
    decreases |events|
  {
    if events != [] {
      ProbesChangeNothing(Stepped(c, events[0]), events[1..]);
      if !events[0].Probe? {
        var rest := WithoutProbes(events[1..]);
        assert ([events[0]] + rest)[1..] == rest;
      }
    }
  }

  // ----- the resolver -----

  /** The clock and the peer, as the resolver sees them. */
  class Network {
    const outcome: Outcome
    var now: nat
    var dials: seq<Dial>

    constructor (outcome: Outcome)
      ensures this.outcome == outcome && now == 0 && dials == []
    {
      this.outcome := outcome;
      now, dials := 0, [];
    }

    method Connect(who: Who) returns (reached: Option<Peer>)
      modifies this
      ensures var (took, peer) := outcome(old(dials), old(now));
        reached == peer && now == old(now) + took && dials == old(dials) + [Dial(who, old(now), now, peer)]
    {
      var (took, peer) := outcome(dials, now);
      dials := dials + [Dial(who, now, now + took, peer)];
      now := now + took;
      reached := peer;
    }
  }

  class LazyResolver {
    const network: Network
    var inner: Option<Peer>
    var entriesFailed: Option<nat>

    ghost function State(): World
      reads this, network
    {
      World(network.now, inner, entriesFailed, [Idle], network.dials)
    }

    constructor (network: Network)
      requires network.now == 0 && network.dials == []
      ensures this.network == network && State() == Fresh(1) && Quiet(State())
    {
      this.network := network;
      inner, entriesFailed := None, None;
    }

    /** `get`: the live connection, dialing when there is none. */
    method Get(who: Who) returns (peer: Option<Peer>)
      modifies this`inner, network
      ensures State() == if old(inner).Some? then old(State()) else Dialed(network.outcome, old(State()), who)
      ensures peer == inner
    {
      if inner.Some? {
        return inner;
      }
      var reached := network.Connect(who);
      if reached.None? {
        return None;
      }
      inner := reached;
      return inner;
    }

    /** Any resolution: it goes to the connection, or fails as unavailable. */
    method Issue() returns (peer: Option<Peer>)
      requires Quiet(State())
      modifies this`inner, network
      ensures Quiet(State())
      ensures State() == Resolved(network.outcome, old(State())) && peer == inner
    {
      CallsKeepQuiet(network.outcome, State());
      peer := Get(Resolving);
    }

    /** `is_cached` and `transport`: whom they ask, which is whoever the last dial reached. */
    method Connected() returns (peer: Option<Peer>)
      requires Quiet(State())
      ensures State() == old(State()) && peer == LastReached(network.dials)
    {
      peer := inner;
    }

    /** `try_entries`: whose entries are listed. */
    method TryEntries() returns (peer: Option<Peer>)
      requires Quiet(State())
      modifies this, network
      ensures Quiet(State())
      ensures State() == Enumerated(network.outcome, old(State())) && peer == inner
      ensures |network.dials| == |old(network.dials)|
        + if old(inner).None? && Rested(old(network.now), old(entriesFailed)) then 1 else 0
    {
      CallsKeepQuiet(network.outcome, State());
      if inner.Some? {
        return inner;
      }
      if entriesFailed.Some? && network.now - entriesFailed.value < REDIAL_AFTER {
        return None;
      }
      peer := Get(Enumerating);
      if peer.Some? {
        entriesFailed := None;
      } else {
        entriesFailed := Some(network.now);
      }
    }
  }
}
