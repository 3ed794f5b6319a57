/** Settings published while connections are being served: which settings a connection uses,
    whose balancers its marks reach, and what a publication does to a quarantine. Balancers live
    in a store and settings refer to them, as the settings objects do. */
module Generations {
  import opened Numbers
  import opened Backends
  import opened Supervisor

  type Ref = nat

  // The host and the pattern a balancer belongs to.
  type Key = (string, string)

  datatype Stored = Stored(balancer: Balancer, interval: u64)

  // One published value: what to serve, and the balancer of each host and pattern.
  datatype Settings = Settings(content: Content, balancers: map<Key, Ref>)

  // A connection reads the published settings once, when it is handled.
  datatype Connection = Accepted | Handled(generation: nat) | Closed

  // `history` is every value ever published; the last one is the one to be read.
  datatype State = State(clock: u64, history: seq<Settings>, store: map<Ref, Stored>, connections: seq<Connection>)

  datatype Event =
    | Tick(now: u64)
    | Publish(settings: Settings, balancers: map<Ref, Stored>)       // a reload, with its new balancers
    | Accept
    | Read(c: nat)
    | Look(c: nat, key: Key, b: nat, cursor: nat)                    // a scan looks at backend b
    | Mark(c: nat, key: Key, b: nat, mark: AliveState)
    | Close(c: nat)

  function Published(s: State): Settings
    requires s.history != []
  {
    s.history[|s.history| - 1]
  }

  // The settings a connection works with.
  function Using(s: State, c: nat): Settings
    requires c < |s.connections| && s.connections[c].Handled? && s.connections[c].generation < |s.history|
  {
    s.history[s.connections[c].generation]
  }

  // The connection comes to backend b of its own settings.
  predicate CanTouch(s: State, c: nat, key: Key, b: nat) {
    && c < |s.connections| && s.connections[c].Handled? && s.connections[c].generation < |s.history|
    && key in Using(s, c).balancers && Using(s, c).balancers[key] in s.store
    && b < |s.store[Using(s, c).balancers[key]].balancer.states|
  }

  // A balancer as it is built: all backends alive, the cursor at 0.
  predicate AsBuilt(stored: Stored, clock: u64) {
    && stored.balancer.cursor == 0
    && forall i | 0 <= i < |stored.balancer.states| ::
         stored.balancer.states[i].Alive? && stored.balancer.states[i].stamp <= clock
  }

  predicate CanPublish(s: State, settings: Settings, balancers: map<Ref, Stored>) {
    && settings.balancers.Values == balancers.Keys && balancers.Keys !! s.store.Keys
    && (forall key, other | key in settings.balancers && other in settings.balancers && key != other ::
          settings.balancers[key] != settings.balancers[other])
    && (forall ref | ref in balancers :: AsBuilt(balancers[ref], s.clock))
  }

  predicate Enabled(s: State, e: Event) {
    match e
    case Tick(now) => s.clock <= now
    case Publish(settings, balancers) => CanPublish(s, settings, balancers)
    case Accept => true
    case Read(c) => c < |s.connections| && s.connections[c].Accepted? && s.history != []
    case Look(c, key, b, _) => CanTouch(s, c, key, b)
    case Mark(c, key, b, _) => CanTouch(s, c, key, b)
    case Close(c) => c < |s.connections|
  }

  function Put(stored: Stored, b: nat, st: AliveState, cursor: nat): Stored
    requires b < |stored.balancer.states|
  {
    stored.(balancer := Balancer(stored.balancer.states[b := st], cursor))
  }

  function Apply(s: State, e: Event): State
    requires Enabled(s, e)
  {
    match e
    case Tick(now) => s.(clock := now)
    case Publish(settings, balancers) => s.(history := s.history + [settings], store := s.store + balancers)
    case Accept => s.(connections := s.connections + [Accepted])
    case Read(c) => s.(connections := s.connections[c := Handled(|s.history| - 1)])
    case Look(c, key, b, cursor) =>
      var ref := Using(s, c).balancers[key];
      var stored := s.store[ref];
      s.(store := s.store[ref := Put(stored, b, AfterVisit(stored.balancer.states[b], stored.interval, s.clock), cursor)])
    case Mark(c, key, b, mark) =>
      var ref := Using(s, c).balancers[key];
      s.(store := s.store[ref := Put(s.store[ref], b, mark, s.store[ref].balancer.cursor)])
    case Close(c) => s.(connections := s.connections[c := Closed])
  }

  /* ---- runs ---- */

  // The generations share no balancer, and every connection works with one that was published.
  ghost predicate Inv(s: State) {
    && (forall g | 0 <= g < |s.history| :: s.history[g].balancers.Values <= s.store.Keys)
    && (forall g, h | 0 <= g < h < |s.history| :: s.history[g].balancers.Values !! s.history[h].balancers.Values)
    && (forall g | 0 <= g < |s.history| :: OneEach(s.history[g]))
    && (forall c | 0 <= c < |s.connections| && s.connections[c].Handled? :: s.connections[c].generation < |s.history|)
  }

  ghost predicate OneEach(settings: Settings) {
    forall key, other | key in settings.balancers && other in settings.balancers && key != other ::
      settings.balancers[key] != settings.balancers[other]
  }

  const START := State(0, [], map[], [])

  ghost predicate Run(tr: seq<State>, evs: seq<Event>) {
    && |tr| == |evs| + 1 && tr[0] == START
    && (forall k | 0 <= k < |evs| :: Enabled(tr[k], evs[k]))
    && (forall k | 0 <= k < |evs| :: Follows(tr, evs, k))
  }

  ghost predicate Follows(tr: seq<State>, evs: seq<Event>, k: nat)
    requires |tr| == |evs| + 1 && k < |evs| && Enabled(tr[k], evs[k])
  {
    tr[k + 1] == Apply(tr[k], evs[k])
  }

  lemma StepKeepsInv(s: State, e: Event)
    requires Inv(s) && Enabled(s, e)
    ensures Inv(Apply(s, e))
  {
    if e.Publish? {
      var s' := Apply(s, e);
      forall g, h | 0 <= g < h < |s'.history| ensures s'.history[g].balancers.Values !! s'.history[h].balancers.Values {
        if h == |s.history| {
          assert s.history[g].balancers.Values <= s.store.Keys;
        }
      }
    }
  }

  lemma {:induction false} EveryRunKeepsInv(tr: seq<State>, evs: seq<Event>, k: nat)
    requires Run(tr, evs) && k < |tr|
    ensures Inv(tr[k])
  {
    if k > 0 {
      EveryRunKeepsInv(tr, evs, k - 1);
      assert Follows(tr, evs, k - 1);
      StepKeepsInv(tr[k - 1], evs[k - 1]);
    }
  }

  /* ---- one settings value for each connection ---- */

  // A connection that is being handled has read the settings exactly once, at a moment when they
  // were the published ones, and has worked with that value ever since.
  lemma {:induction false} ConnectionUsesWhatItRead(tr: seq<State>, evs: seq<Event>, j: nat, c: nat) returns (i: nat)
    requires Run(tr, evs) && j < |tr| && c < |tr[j].connections| && tr[j].connections[c].Handled?
    ensures i < j && evs[i] == Read(c) && tr[i].history != []
    ensures forall k | 0 <= k < j && k != i :: evs[k] != Read(c)
    ensures forall k | i < k <= j :: Works(tr[k], c, Published(tr[i]))
    decreases j
  {
    assert Follows(tr, evs, j - 1);
    EveryRunKeepsInv(tr, evs, j);
    if evs[j - 1] == Read(c) {
      i := j - 1;
      ReadOnlyOnce(tr, evs, j - 1, c);
    } else {
      i := ConnectionUsesWhatItRead(tr, evs, j - 1, c);
      assert Works(tr[j - 1], c, Published(tr[i]));
    }
  }

  // The connection is being handled, with the given settings.
  predicate Works(s: State, c: nat, settings: Settings) {
    && c < |s.connections| && s.connections[c].Handled? && s.connections[c].generation < |s.history|
    && Using(s, c) == settings
  }

  lemma {:induction false} ReadOnlyOnce(tr: seq<State>, evs: seq<Event>, j: nat, c: nat)
    requires Run(tr, evs) && j < |tr| && (c < |tr[j].connections| ==> tr[j].connections[c].Accepted?)
    ensures forall k | 0 <= k < j :: evs[k] != Read(c)
    decreases j
  {
    if j > 0 {
      assert Follows(tr, evs, j - 1);
      ReadOnlyOnce(tr, evs, j - 1, c);
    }
  }

  /* ---- marks stay in their generation ---- */

  // The balancers of a generation, as they are.
  ghost function Balancers(s: State, g: nat): map<Key, Stored>
    requires Inv(s) && g < |s.history|
  {
    map key | key in s.history[g].balancers :: s.store[s.history[g].balancers[key]]
  }

  predicate Touches(e: Event) {
    e.Look? || e.Mark?
  }

  predicate TouchesGeneration(s: State, e: Event, g: nat) {
    Touches(e) && e.c < |s.connections| && s.connections[e.c] == Handled(g)
  }

  // Whatever a step does, it leaves the balancers of every generation alone but that of the
  // connection that makes it.
  lemma OnlyItsOwnGeneration(s: State, e: Event, g: nat)
    requires Inv(s) && Enabled(s, e) && g < |s.history| && !TouchesGeneration(s, e, g)
    ensures Inv(Apply(s, e)) && g < |Apply(s, e).history|
    ensures Balancers(Apply(s, e), g) == Balancers(s, g)
  {
    StepKeepsInv(s, e);
    var s' := Apply(s, e);
    assert s'.history[g] == s.history[g];
    if Touches(e) {
      var own := s.connections[e.c].generation;
      assert s.history[own].balancers[e.key] in s.history[own].balancers.Values;
      assert s.history[own].balancers[e.key] !in s.history[g].balancers.Values;
    }
    forall key | key in s.history[g].balancers
      ensures s'.store[s'.history[g].balancers[key]] == s.store[s.history[g].balancers[key]]
    {
      assert s.history[g].balancers[key] in s.history[g].balancers.Values;
    }
  }

  // Over any part of a run in which no connection that read generation g selects or marks, its
  // balancers are as they were, whatever is published and whatever the connections of other
  // generations do.
  lemma {:induction false} GenerationsAreIsolated(tr: seq<State>, evs: seq<Event>, i: nat, j: nat, g: nat)
    requires Run(tr, evs) && i <= j < |tr| && g < |tr[i].history|
    requires forall k | i <= k < j :: !TouchesGeneration(tr[k], evs[k], g)
    ensures Inv(tr[i]) && Inv(tr[j]) && g < |tr[j].history|
    ensures Balancers(tr[j], g) == Balancers(tr[i], g)
    decreases j
  {
    EveryRunKeepsInv(tr, evs, i);
    if i < j {
      GenerationsAreIsolated(tr, evs, i, j - 1, g);
      assert Follows(tr, evs, j - 1);
      OnlyItsOwnGeneration(tr[j - 1], evs[j - 1], g);
    }
  }

  // A newly published generation has all its backends alive until some connection that has read it
  // acts: no health mark of the old ones carries over.
  lemma NewGenerationStartsAlive(tr: seq<State>, evs: seq<Event>, i: nat, j: nat)
    requires Run(tr, evs) && i < j < |tr| && evs[i].Publish?
    requires forall k | i < k < j :: !TouchesGeneration(tr[k], evs[k], |tr[i].history|)
    ensures Inv(tr[j]) && |tr[i].history| < |tr[j].history|
    ensures Balancers(tr[j], |tr[i].history|).Keys == evs[i].settings.balancers.Keys
    ensures forall key | key in evs[i].settings.balancers :: AsBuilt(Balancers(tr[j], |tr[i].history|)[key], tr[i].clock)
  {
    assert Follows(tr, evs, i) && Enabled(tr[i], evs[i]);
    GenerationsAreIsolated(tr, evs, i + 1, j, |tr[i].history|);
    forall key | key in evs[i].settings.balancers
      ensures evs[i].settings.balancers[key] in evs[i].balancers
    {
      assert evs[i].settings.balancers[key] in evs[i].settings.balancers.Values;
    }
  }

  /* ---- quarantine and publication ---- */

  // A connection that reads the settings now finds backend b of the given balancer.
  ghost predicate Finds(s: State, key: Key, b: nat) {
    && s.history != [] && key in Published(s).balancers && Published(s).balancers[key] in s.store
    && b < |s.store[Published(s).balancers[key]].balancer.states|
  }

  ghost function FoundBalancer(s: State, key: Key, b: nat): Stored
    requires Finds(s, key, b)
  {
    s.store[Published(s).balancers[key]]
  }

  // And may be handed it.
  ghost predicate Offers(s: State, key: Key, b: nat)
    requires Finds(s, key, b)
  {
    var stored := FoundBalancer(s, key, b);
    Selectable(stored.balancer.states[b], stored.interval, s.clock)
  }

  predicate MarksBackend(e: Event, key: Key, b: nat) {
    e.Mark? && e.key == key && e.b == b
  }

  // Reloads go on wanting the backend.
  ghost predicate KeepsBackend(e: Event, key: Key, b: nat) {
    e.Publish? ==>
      && key in e.settings.balancers && e.settings.balancers[key] in e.balancers
      && b < |e.balancers[e.settings.balancers[key]].balancer.states|
  }

  // The backend is as it was marked, in the generation of the mark, or alive in a later one.
  ghost predicate MarkedOrRenewed(s: State, key: Key, b: nat, mark: AliveState, interval: u64, generations: nat) {
    && Finds(s, key, b) && generations <= |s.history|
    && var stored := FoundBalancer(s, key, b);
       if |s.history| == generations then stored.balancer.states[b] == mark && stored.interval == interval
       else stored.balancer.states[b].Alive?
  }

  lemma MarkedOrRenewedStep(s: State, e: Event, key: Key, b: nat, mark: AliveState, interval: u64, generations: nat)
    requires Inv(s) && Enabled(s, e) && MarkedOrRenewed(s, key, b, mark, interval, generations)
    requires mark.Dead? && mark.since + interval < U64 && s.clock <= mark.since + interval
    requires !MarksBackend(e, key, b) && KeepsBackend(e, key, b)
    ensures MarkedOrRenewed(Apply(s, e), key, b, mark, interval, generations)
  {
    if Touches(e) {
      var ref, touched := Published(s).balancers[key], Using(s, e.c).balancers[e.key];
      if touched == ref {
        assert ref in Published(s).balancers.Values && ref in Using(s, e.c).balancers.Values;
        assert Using(s, e.c) == Published(s);
        assert e.key == key;
      }
    }
  }

  lemma {:induction false} ClockOnlyAdvances(tr: seq<State>, evs: seq<Event>, i: nat, j: nat)
    requires Run(tr, evs) && i <= j < |tr|
    ensures tr[i].clock <= tr[j].clock && |tr[i].history| <= |tr[j].history|
    ensures |tr[i].history| < |tr[j].history| <==> exists k :: i <= k < j && evs[k].Publish?
    decreases j
  {
    if i < j {
      ClockOnlyAdvances(tr, evs, i, j - 1);
      assert Follows(tr, evs, j - 1);
    }
  }

  lemma {:induction false} MarkedOrRenewedStays(tr: seq<State>, evs: seq<Event>, i: nat, j: nat, key: Key, b: nat,
                                                mark: AliveState, interval: u64, generations: nat)
    requires Run(tr, evs) && i <= j < |tr| && MarkedOrRenewed(tr[i], key, b, mark, interval, generations)
    requires mark.Dead? && mark.since + interval < U64 && tr[j].clock <= mark.since + interval
    requires forall k | i <= k < j :: !MarksBackend(evs[k], key, b) && KeepsBackend(evs[k], key, b)
    ensures MarkedOrRenewed(tr[j], key, b, mark, interval, generations)
    decreases j
  {
    if i < j {
      ClockOnlyAdvances(tr, evs, j - 1, j);
      MarkedOrRenewedStays(tr, evs, i, j - 1, key, b, mark, interval, generations);
      EveryRunKeepsInv(tr, evs, j - 1);
      assert Follows(tr, evs, j - 1);
      MarkedOrRenewedStep(tr[j - 1], evs[j - 1], key, b, mark, interval, generations);
    }
  }

  // A backend of the published settings is marked dead at time d, with no further mark on it. Up
  // to d + interval it is kept from new connections, whatever scans look at it, iff nothing has
  // been published since: every publication, be it of the same configuration, offers it again.
  lemma QuarantineLastsIffNothingIsPublished(tr: seq<State>, evs: seq<Event>, i: nat, j: nat, interval: u64)
    requires Run(tr, evs) && i < j < |tr| && evs[i].Mark? && evs[i].mark.Dead?
    requires evs[i].c < |tr[i].connections| && tr[i].connections[evs[i].c] == Handled(|tr[i].history| - 1)
    requires Finds(tr[i], evs[i].key, evs[i].b) && FoundBalancer(tr[i], evs[i].key, evs[i].b).interval == interval
    requires evs[i].mark.since + interval < U64 && tr[j].clock <= evs[i].mark.since + interval
    requires forall k | i < k < j :: !MarksBackend(evs[k], evs[i].key, evs[i].b) && KeepsBackend(evs[k], evs[i].key, evs[i].b)
    ensures Finds(tr[j], evs[i].key, evs[i].b)
    ensures !Offers(tr[j], evs[i].key, evs[i].b) <==> !exists k :: i < k < j && evs[k].Publish?
  {
    assert Follows(tr, evs, i);
    var generations := |tr[i].history|;
    assert MarkedOrRenewed(tr[i + 1], evs[i].key, evs[i].b, evs[i].mark, interval, generations);
    MarkedOrRenewedStays(tr, evs, i + 1, j, evs[i].key, evs[i].b, evs[i].mark, interval, generations);
    ClockOnlyAdvances(tr, evs, i + 1, j);
  }

  /* ---- an example ---- */

  const KEY: Key := ("host", "*")

  function OneBackend(stamp: u64): Stored {
    Stored(Balancer([Alive(stamp)], 0), 60)
  }

  function Publication(content: Content, ref: Ref, stamp: u64): Event {
    Publish(Settings(content, map[KEY := ref]), map[ref := OneBackend(stamp)])
  }

  ghost predicate StepsTo(s: State, e: Event, s': State) {
    Enabled(s, e) && Apply(s, e) == s'
  }

  function FirstPublished(content: Content, clock: u64, st: AliveState, connections: seq<Connection>): State {
    State(clock, [Settings(content, map[KEY := 0])], map[0 := Stored(Balancer([st], 0), 60)], connections)
  }

  // The same configuration published again at 105 offers a backend that was marked dead at 100
  // with an interval of 60.
  lemma RepublishingEndsQuarantine(content: Content) returns (tr: seq<State>, evs: seq<Event>)
    ensures Run(tr, evs) && |evs| == 7
    ensures evs[4] == Mark(0, KEY, 0, Dead(100, 1)) && evs[0].Publish? && evs[6].Publish?
    ensures evs[0].settings.content == evs[6].settings.content
    ensures tr[7].clock == 105 && Finds(tr[7], KEY, 0) && Offers(tr[7], KEY, 0)
  {
    var s1, s2 := FirstPublished(content, 0, Alive(0), []), FirstPublished(content, 0, Alive(0), [Accepted]);
    var s3, s4 := FirstPublished(content, 0, Alive(0), [Handled(0)]), FirstPublished(content, 100, Alive(0), [Handled(0)]);
    var s5 := FirstPublished(content, 100, Dead(100, 1), [Handled(0)]);
    var s6 := FirstPublished(content, 105, Dead(100, 1), [Handled(0)]);
    PublishesFirst(content);
    ReadsIt(content);
    MarksIt(content);
    var s7 := PublishesAgain(content);
    tr := [START, s1, s2, s3, s4, s5, s6, s7];
    evs := [Publication(content, 0, 0), Accept, Read(0), Tick(100), Mark(0, KEY, 0, Dead(100, 1)), Tick(105),
            Publication(content, 1, 105)];
    StepsMakeARun(tr, evs);
  }

  lemma StepsMakeARun(tr: seq<State>, evs: seq<Event>)
    requires |tr| == |evs| + 1 && tr[0] == START
    requires forall k | 0 <= k < |evs| :: StepsTo(tr[k], evs[k], tr[k + 1])
    ensures Run(tr, evs)
  {
    forall k | 0 <= k < |evs| ensures Enabled(tr[k], evs[k]) && Follows(tr, evs, k) {
      assert StepsTo(tr[k], evs[k], tr[k + 1]);
    }
  }

  lemma ReadsIt(content: Content)
    ensures StepsTo(FirstPublished(content, 0, Alive(0), []), Accept, FirstPublished(content, 0, Alive(0), [Accepted]))
    ensures StepsTo(FirstPublished(content, 0, Alive(0), [Accepted]), Read(0), FirstPublished(content, 0, Alive(0), [Handled(0)]))
    ensures StepsTo(FirstPublished(content, 0, Alive(0), [Handled(0)]), Tick(100),
                    FirstPublished(content, 100, Alive(0), [Handled(0)]))
    ensures StepsTo(FirstPublished(content, 100, Dead(100, 1), [Handled(0)]), Tick(105),
                    FirstPublished(content, 105, Dead(100, 1), [Handled(0)]))
  {
  }

  lemma PublishesOne(s: State, content: Content, ref: Ref, stamp: u64)
    requires ref !in s.store && stamp <= s.clock
    ensures Enabled(s, Publication(content, ref, stamp))
  {
    var balancers: map<Key, Ref>, stored: map<Ref, Stored> := map[KEY := ref], map[ref := OneBackend(stamp)];
    assert KEY in balancers && balancers.Values == {ref} == stored.Keys;
  }

  lemma PublishesFirst(content: Content)
    ensures StepsTo(START, Publication(content, 0, 0), FirstPublished(content, 0, Alive(0), []))
  {
    PublishesOne(START, content, 0, 0);
  }

  lemma MarksIt(content: Content)
    ensures StepsTo(FirstPublished(content, 100, Alive(0), [Handled(0)]), Mark(0, KEY, 0, Dead(100, 1)),
                    FirstPublished(content, 100, Dead(100, 1), [Handled(0)]))
  {
    var s, s' := FirstPublished(content, 100, Alive(0), [Handled(0)]), FirstPublished(content, 100, Dead(100, 1), [Handled(0)]);
    assert Put(s.store[0], 0, Dead(100, 1), 0) == s'.store[0];
    assert s.store[0 := s'.store[0]] == s'.store;
  }

  lemma PublishesAgain(content: Content) returns (s': State)
    ensures StepsTo(FirstPublished(content, 105, Dead(100, 1), [Handled(0)]), Publication(content, 1, 105), s')
    ensures s'.clock == 105 && Finds(s', KEY, 0) && Offers(s', KEY, 0)
  {
    PublishesOne(FirstPublished(content, 105, Dead(100, 1), [Handled(0)]), content, 1, 105);
    s' := Apply(FirstPublished(content, 105, Dead(100, 1), [Handled(0)]), Publication(content, 1, 105));
  }
}
