/** The select / connect / mark loop of one proxied request that has the balancer to itself. */
module ProxyLoops {
  import opened Numbers
  import opened Wrappers
  import opened Backends
  import opened IpHash
  import opened Rings
  import opened ReverseProxyStates
  import opened Fairness

  // Everything outside the program. In round r the j-th backend is probed at clock(r, j) for
  // j < n, attempt a runs from clock(r, n + a) to clock(r, n + a + 1) and succeeds iff
  // connects(r, a); destination tells what building a destination from an address comes to.
  datatype Environment = Environment(
    clock: (nat, nat) -> u64,
    connects: (nat, nat) -> bool,
    destination: Url -> Destination)

  datatype Destination = Usable | Malformed | TooLong

  datatype Ending =
    | Served(index: nat)
    | Refused(error: BalancerError)
    | BadDestination(problem: Destination)
    | StillRunning

  ghost predicate Monotone(env: Environment) {
    && (forall r: nat, i: nat, j: nat | i <= j :: env.clock(r, i) <= env.clock(r, j))
    && (forall r: nat, s: nat, i: nat, j: nat | r < s :: env.clock(r, i) <= env.clock(s, j))
  }

  ghost predicate NeverOverflows(env: Environment, interval: u64) {
    forall r: nat, i: nat :: env.clock(r, i) + interval < U64
  }

  // Time passes only inside connection attempts, at most `timeout` seconds in each.
  ghost predicate OnlyAttemptsTakeTime(env: Environment, n: nat, retries: u64, timeout: u64) {
    forall r: nat :: RoundTimed(env, r, n, retries, timeout)
  }

  ghost predicate RoundTimed(env: Environment, r: nat, n: nat, retries: u64, timeout: u64) {
    && (forall j: nat | j <= n :: env.clock(r, j) == env.clock(r, 0))
    && (forall i: nat, j: nat | n <= i < n + retries && j == i + 1 :: env.clock(r, j) <= env.clock(r, i) + timeout)
    && env.clock(r + 1, 0) == env.clock(r, n + retries)
  }

  ghost predicate AllFail(env: Environment, r: nat, attempts: nat) {
    forall a: nat | a < attempts :: !env.connects(r, a)
  }

  /* ---- the ledger of picks ---- */

  // The earliest time of the mark that follows the c-th pick of a backend.
  function Earliest(start: u64, c: nat, interval: u64): int
    requires c > 0
  {
    start + (c - 1) * (interval + 1)
  }

  // After c picks of a backend: dead since its last mark, which cannot have come early.
  ghost predicate Entry(st: AliveState, c: nat, start: u64, interval: u64, now: u64) {
    c > 0 ==> st.Dead? && Earliest(start, c, interval) <= st.since <= now
  }

  // Every backend picked so far is dead since its last mark, which cannot have come early.
  ghost predicate Ledger(states: seq<AliveState>, picks: seq<nat>, start: u64, interval: u64, now: u64) {
    forall b | 0 <= b < |states| :: Entry(states[b], Count(picks, b), start, interval, now)
  }

  ghost predicate PicksSpaced(picks: seq<nat>, n: nat, start: u64, interval: u64, last: u64) {
    forall b | 0 <= b < n && Count(picks, b) > 0 :: Earliest(start, Count(picks, b), interval) <= last
  }

  // A backend that was passed over, or not reached, keeps its entry.
  lemma BystanderKeepsEntry(before: AliveState, after: AliveState, clock: nat -> u64, n: nat, c: nat,
                            start: u64, interval: u64, now: u64, last: u64)
    requires PassedOver(before, after, clock, n) && Entry(before, c, start, interval, now)
    requires now <= last && forall j | 0 <= j < n :: now <= clock(j) <= last
    ensures Entry(after, c, start, interval, last)
  {
  }

  // A backend that is picked again is picked more than an interval after its mark.
  lemma PickComesLate(state: AliveState, interval: u64, clock: nat -> u64, j: nat, c: nat, start: u64, now: u64, last: u64)
    requires Selectable(state, interval, clock(j)) && Entry(state, c, start, interval, now)
    requires start <= now <= clock(j) <= last && last + interval < U64
    ensures Earliest(start, c + 1, interval) <= last
  {
    if c > 0 {
      EarliestStep(start, c, interval);
    }
  }

  lemma RoundKeepsLedger(before: seq<AliveState>, mid: seq<AliveState>, interval: u64, clock: nat -> u64, b: nat,
                         mark: AliveState, picks: seq<nat>, start: u64, now: u64, last: u64)
    requires HandsOut(before, mid, interval, clock, b) && Ledger(before, picks, start, interval, now)
    requires start <= now <= last && forall j | 0 <= j < |before| :: now <= clock(j) <= last
    requires last + interval < U64
    requires mark.Dead? && mark.since >= last
    ensures Ledger(mid[b := mark], picks + [b], start, interval, mark.since)
    ensures Earliest(start, Count(picks + [b], b), interval) <= last
  {
    assert (picks + [b])[..|picks|] == picks;
    var j: nat :| j < |before| && Selectable(before[b], interval, clock(j));
    PickComesLate(before[b], interval, clock, j, Count(picks, b), start, now, last);
    forall i | 0 <= i < |before| && i != b
      ensures Entry(mid[i], Count(picks, i), start, interval, last)
    {
      BystanderKeepsEntry(before[i], mid[i], clock, |before|, Count(picks, i), start, interval, now, last);
    }
  }

  lemma EarliestStep(start: u64, c: nat, interval: u64)
    requires c > 0
    ensures Earliest(start, c + 1, interval) == Earliest(start, c, interval) + interval + 1
  {
  }

  // If no index below n occurs more than q times, there are at most n * q picks.
  lemma BoundedCounts(picks: seq<nat>, n: nat, q: nat)
    requires forall i | 0 <= i < |picks| :: picks[i] < n
    requires forall b | 0 <= b < n :: Count(picks, b) <= q
    ensures |picks| <= n * q
  {
    var all := AllTrue(n);
    assert Tally(picks, n) == |picks| by {
      TallyIsLength(picks, n);
    }
    assert Tally(picks, n) <= q * NumAlive(all[..n]) by {
      TallyAtMost(picks, all, n, q, n);
    }
    assert all[..n] == all;
    Commute(q, n);
  }

  lemma Commute(a: nat, b: nat)
    ensures a * b == b * a
  {
  }

  function AllTrue(n: nat): (all: seq<bool>)
    ensures |all| == n && (forall i | 0 <= i < n :: all[i]) && NumAlive(all) == n
  {
    if n == 0 then []
    else
      var all := AllTrue(n - 1) + [true];
      assert all[..n - 1] == AllTrue(n - 1);
      all
  }

  // Amortised bound: picks spaced more than an interval apart for each backend.
  lemma SpacedPicksAreFew(picks: seq<nat>, n: nat, start: u64, interval: u64, last: u64)
    requires forall i | 0 <= i < |picks| :: picks[i] < n
    requires PicksSpaced(picks, n, start, interval, last) && start <= last
    ensures |picks| <= n * (1 + (last - start) / (interval + 1))
  {
    var q := (last - start) / (interval + 1);
    forall b | 0 <= b < n ensures Count(picks, b) <= 1 + q {
      if Count(picks, b) > 0 {
        DivBound(Count(picks, b) - 1, interval + 1, last - start);
      }
    }
    BoundedCounts(picks, n, 1 + q);
  }

  lemma DivBound(c: nat, d: nat, x: nat)
    requires d > 0 && c * d <= x
    ensures c <= x / d
  {
    var q := x / d;
    assert (q + 1) * d == q * d + d > x;
    if q < c {
      Scale(q + 1, c, d);
    }
  }

  lemma Scale(a: nat, b: nat, d: nat)
    requires a <= b
    ensures a * d <= b * d
  {
  }

  lemma QuickPicksAreDistinct(picks: seq<nat>, n: nat, start: u64, interval: u64, last: u64)
    requires forall i | 0 <= i < |picks| :: picks[i] < n
    requires PicksSpaced(picks, n, start, interval, last) && start <= last <= start + interval
    ensures |picks| <= n
  {
    forall b | 0 <= b < n ensures Count(picks, b) <= 1 {
      if Count(picks, b) > 1 {
        Scale(1, Count(picks, b) - 1, interval + 1);
      }
    }
    BoundedCounts(picks, n, 1);
  }

  lemma OnePickMore(picks: seq<nat>, b: nat, n: nat, start: u64, interval: u64, earlier: u64, last: u64)
    requires PicksSpaced(picks, n, start, interval, earlier) && earlier <= last
    requires Earliest(start, Count(picks + [b], b), interval) <= last
    ensures PicksSpaced(picks + [b], n, start, interval, last)
  {
  }

  // A full round of attempts at the slowest backend, for each of n backends, fits the interval.
  ghost predicate Brisk(env: Environment, n: nat, options: ReverseProxyOptions, own: ReverseProxyOptions) {
    && OnlyAttemptsTakeTime(env, n, options.lbRetries, options.lbTimeout)
    && n * (options.lbRetries * options.lbTimeout) <= own.lbInterval
  }

  lemma {:induction false} AttemptsTakeTime(env: Environment, r: nat, n: nat, retries: u64, timeout: u64, a: nat)
    requires RoundTimed(env, r, n, retries, timeout) && a <= retries
    ensures env.clock(r, n + a) <= env.clock(r, 0) + a * timeout
    decreases a
  {
    if a > 0 {
      AttemptsTakeTime(env, r, n, retries, timeout, a - 1);
      assert env.clock(r, n + a) <= env.clock(r, n + (a - 1)) + timeout;
      assert a * timeout == (a - 1) * timeout + timeout;
    }
  }

  lemma {:induction false} RoundsTakeTime(env: Environment, r: nat, n: nat, retries: u64, timeout: u64)
    requires OnlyAttemptsTakeTime(env, n, retries, timeout)
    ensures env.clock(r, n) == env.clock(r, 0) <= env.clock(0, 0) + r * (retries * timeout)
    decreases r
  {
    assert RoundTimed(env, r, n, retries, timeout);
    if r > 0 {
      RoundsTakeTime(env, r - 1, n, retries, timeout);
      assert RoundTimed(env, r - 1, n, retries, timeout);
      AttemptsTakeTime(env, r - 1, n, retries, timeout, retries);
      assert r * (retries * timeout) == (r - 1) * (retries * timeout) + retries * timeout;
    }
  }

  // The latest moment at which the r-th round can have picked.
  function LastPick(env: Environment, n: nat, r: nat): u64 {
    if r == 0 then env.clock(0, 0) else env.clock(r - 1, n)
  }

  lemma BriskPicksAreDistinct(env: Environment, picks: seq<nat>, n: nat, options: ReverseProxyOptions, own: ReverseProxyOptions)
    requires forall i | 0 <= i < |picks| :: picks[i] < n
    requires Monotone(env) && Brisk(env, n, options, own) && 0 < |picks| <= n + 1
    requires PicksSpaced(picks, n, env.clock(0, 0), own.lbInterval, LastPick(env, n, |picks|))
    ensures |picks| <= n
  {
    RoundsTakeTime(env, |picks| - 1, n, options.lbRetries, options.lbTimeout);
    Scale(|picks| - 1, n, options.lbRetries * options.lbTimeout);
    QuickPicksAreDistinct(picks, n, env.clock(0, 0), own.lbInterval, env.clock(|picks| - 1, n));
  }

  /* ---- the loop ---- */

  ghost predicate Timed(env: Environment, interval: u64) {
    Monotone(env) && NeverOverflows(env, interval)
  }

  // What the rounds so far have established about the picks, at the start of round |picks|.
  ghost predicate Spaced(env: Environment, states: seq<AliveState>, picks: seq<nat>, interval: u64) {
    && Ledger(states, picks, env.clock(0, 0), interval, env.clock(|picks|, 0))
    && PicksSpaced(picks, |states|, env.clock(0, 0), interval, LastPick(env, |states|, |picks|))
  }

  // After picking b in round |picks| the picks are spaced, and so they stay whatever mark is
  // left behind when the round fails.
  ghost predicate PickIsSpaced(env: Environment, states: seq<AliveState>, picks: seq<nat>, b: nat, interval: u64, retries: u64) {
    var r, n := |picks|, |states|;
    && PicksSpaced(picks + [b], n, env.clock(0, 0), interval, env.clock(r, n))
    && b < n
    && forall mark: AliveState | mark.Dead? && mark.since == env.clock(r, n + retries) ::
         Spaced(env, states[b := mark], picks + [b], interval)
  }

  lemma RoundKeepsSpaced(before: seq<AliveState>, mid: seq<AliveState>, b: nat, picks: seq<nat>, env: Environment,
                         clock: nat -> u64, interval: u64, retries: u64)
    requires HandsOut(before, mid, interval, clock, b) && forall j: nat :: clock(j) == env.clock(|picks|, j)
    requires Timed(env, interval) && Spaced(env, before, picks, interval)
    ensures PickIsSpaced(env, mid, picks, b, interval, retries)
  {
    var r, n, start := |picks|, |before|, env.clock(0, 0);
    forall mark: AliveState | mark.Dead? && mark.since == env.clock(r, n + retries)
      ensures PicksSpaced(picks + [b], n, start, interval, env.clock(r, n))
      ensures Spaced(env, mid[b := mark], picks + [b], interval)
    {
      RoundKeepsLedger(before, mid, interval, clock, b, mark, picks, start, env.clock(r, 0), env.clock(r, n));
      OnePickMore(picks, b, n, start, interval, LastPick(env, n, r), env.clock(r, n));
    }
    var mark := Dead(env.clock(r, n + retries), 0);
    assert mark.Dead? && mark.since == env.clock(r, n + retries);
  }

  // The clock as the probes of round r read it.
  function ClockOf(env: Environment, r: nat): nat -> u64 {
    (j: nat) => env.clock(r, j)
  }

  // Select a backend in round r = |picks|.
  method Select(lb: ReverseProxyState, addr: IpAddr, retries: u64, env: Environment, ghost picks: seq<nat>, r: nat)
    returns (selection: Selection)
    requires lb.Valid() && r == |picks|
    modifies lb`currentBackend, lb.aliveStates
    ensures lb.Valid()
    ensures Selected(lb.urls, selection)
    ensures selection.Err? ==> lb.Refuses(addr, ClockOf(env, r), selection.error)
    ensures selection == Err(NoHealthyBackends) <==> old(lb.NoneSelectable(addr, ClockOf(env, r)))
    ensures selection.Ok? && Timed(env, lb.options.lbInterval) && old(Spaced(env, lb.aliveStates[..], picks, lb.options.lbInterval)) ==>
              PickIsSpaced(env, lb.aliveStates[..], picks, selection.value.index, lb.options.lbInterval, retries)
  {
    ghost var before, cursor := lb.aliveStates[..], lb.currentBackend;
    var clock := ClockOf(env, r);
    selection := lb.GetNextBackend(addr, clock);
    if selection.Ok? && Timed(env, lb.options.lbInterval) && Spaced(env, before, picks, lb.options.lbInterval) {
      if lb.policy == RoundRobin {
        ScanHandsOut(lb.urls, lb.options.lbInterval, clock, cursor, before, lb.aliveStates[..], selection.value);
      } else {
        var ring := Ring(|lb.urls|);
        RingScanHandsOut(lb.urls, lb.options.lbInterval, clock, Fnv1a(Octets(addr)) % ring, ring, before, lb.aliveStates[..],
                         selection.value);
      }
      RoundKeepsSpaced(before, lb.aliveStates[..], selection.value.index, picks, env, clock, lb.options.lbInterval, retries);
    }
  }

  // Connect to the selected backend, trying again while retries remain.
  method Connect(env: Environment, r: nat, lbRetries: u64) returns (connected: bool, tried: nat)
    ensures connected ==> 0 < tried <= lbRetries && env.connects(r, tried - 1) && AllFail(env, r, tried - 1)
    ensures !connected ==> tried == lbRetries && AllFail(env, r, lbRetries)
  {
    var retries := lbRetries;
    tried := 0;
    while retries > 0
      invariant 0 <= retries <= lbRetries && tried == lbRetries - retries && AllFail(env, r, tried)
    {
      tried := tried + 1;
      if env.connects(r, tried - 1) {
        return true, tried;
      }
      retries := retries - 1;
    }
    connected := false;
  }

  // The connection attempts that `rounds` rounds can make.
  function Budget(rounds: nat, retries: u64): nat {
    if rounds == 0 then 0 else Budget(rounds - 1, retries) + retries
  }

  lemma {:induction false} BudgetIsProduct(rounds: nat, retries: u64)
    ensures Budget(rounds, retries) == rounds * retries
  {
    if rounds > 0 {
      BudgetIsProduct(rounds - 1, retries);
      assert rounds * retries == (rounds - 1) * retries + retries;
    }
  }

  lemma AttemptsAreFew(rounds: nat, n: nat, retries: u64, attempts: nat)
    requires attempts <= Budget(rounds, retries)
    ensures attempts <= rounds * retries
    ensures rounds <= n ==> attempts <= n * retries
  {
    BudgetIsProduct(rounds, retries);
    if rounds <= n {
      Scale(rounds, n, retries);
    }
  }

  // At most n * (1 + T div (interval + 1)) picks in a loop that spans T seconds.
  ghost predicate FewPicks(env: Environment, picks: seq<nat>, n: nat, interval: u64) {
    |picks| > 0 ==> |picks| <= n * (1 + (env.clock(|picks| - 1, n) - env.clock(0, 0)) / (interval + 1))
  }

  lemma LoopPicksAreFew(env: Environment, picks: seq<nat>, n: nat, interval: u64)
    requires Monotone(env) && forall i | 0 <= i < |picks| :: picks[i] < n
    requires PicksSpaced(picks, n, env.clock(0, 0), interval, LastPick(env, n, |picks|))
    ensures FewPicks(env, picks, n, interval)
  {
    if |picks| > 0 {
      SpacedPicksAreFew(picks, n, env.clock(0, 0), interval, env.clock(|picks| - 1, n));
    }
  }

  // In round r the destination was usable, and every attempt to connect to it failed.
  ghost predicate Unreachable(url: Url, env: Environment, retries: u64, r: nat) {
    env.destination(url) == Usable && AllFail(env, r, retries)
  }

  ghost predicate RoundsFailed(urls: seq<Url>, env: Environment, retries: u64, picks: seq<nat>, rounds: nat) {
    rounds <= |picks| && forall r | 0 <= r < rounds :: picks[r] < |urls| && Unreachable(urls[picks[r]], env, retries, r)
  }

  // How the request ended after picking `picks`: every round but the last failed. What was asked
  // for is the address picked.
  ghost predicate EndedBy(lb: ReverseProxyState, addr: IpAddr, env: Environment, retries: u64, picks: seq<nat>, end: Ending)
    requires lb.Valid()
    reads lb, lb.aliveStates
  {
    && (forall i | 0 <= i < |picks| :: picks[i] < |lb.urls|)
    && match end
       case Served(b) =>
         && |picks| > 0 && b == picks[|picks| - 1] && RoundsFailed(lb.urls, env, retries, picks, |picks| - 1)
         && env.destination(lb.urls[b]) == Usable && !AllFail(env, |picks| - 1, retries) && lb.aliveStates[b].Alive?
       case BadDestination(problem) =>
         && |picks| > 0 && RoundsFailed(lb.urls, env, retries, picks, |picks| - 1)
         && problem == env.destination(lb.urls[picks[|picks| - 1]]) && problem != Usable
       case Refused(error) =>
         RoundsFailed(lb.urls, env, retries, picks, |picks|) && lb.Refuses(addr, ClockOf(env, |picks|), error)
       case StillRunning => RoundsFailed(lb.urls, env, retries, picks, |picks|)
  }

  // Connect to the selected backend and leave a mark.
  method ConnectAndMark(lb: ReverseProxyState, live: LiveBackend, options: ReverseProxyOptions, env: Environment, r: nat)
    returns (end: Ending, tried: nat)
    requires lb.Valid() && live.index < |lb.urls|
    modifies lb.aliveStates
    ensures lb.Valid() && tried <= options.lbRetries
    ensures end == if AllFail(env, r, options.lbRetries) then StillRunning else Served(live.index)
    ensures lb.aliveStates[..] == old(lb.aliveStates[..])[live.index :=
              if end == StillRunning then Dead(env.clock(r, |lb.urls| + options.lbRetries), lb.options.lbRetries)
              else Alive(env.clock(r, |lb.urls| + tried))]
  {
    var connected: bool;
    connected, tried := Connect(env, r, options.lbRetries);
    if connected {
      lb.SetAliveBackend(live, env.clock(r, |lb.urls| + tried));
      end := Served(live.index);
    } else {
      lb.SetDeadBackend(live, env.clock(r, |lb.urls| + options.lbRetries));
      end := StillRunning;
    }
  }

  ghost predicate Left(lb: ReverseProxyState, i: nat, mark: AliveState)
    reads lb, lb.aliveStates
  {
    i < lb.aliveStates.Length && lb.aliveStates[i] == mark
  }

  // One round: select, connect, mark.
  method Round(lb: ReverseProxyState, addr: IpAddr, options: ReverseProxyOptions, env: Environment, picks: seq<nat>)
    returns (end: Ending, picks': seq<nat>, tried: nat)
    requires lb.Valid() && EndedBy(lb, addr, env, options.lbRetries, picks, StillRunning)
    modifies lb`currentBackend, lb.aliveStates
    ensures lb.Valid() && EndedBy(lb, addr, env, options.lbRetries, picks', end)
    ensures end == Refused(NoHealthyBackends) <==> old(lb.NoneSelectable(addr, ClockOf(env, |picks|)))
    ensures tried <= options.lbRetries
    ensures if end.Refused? then picks' == picks && tried == 0 else |picks'| == |picks| + 1 && picks'[..|picks|] == picks
    // the mark that the round leaves
    ensures end.Served? ==> Left(lb, end.index, Alive(env.clock(|picks|, |lb.urls| + tried)))
    ensures end == StillRunning ==>
              Left(lb, picks'[|picks|], Dead(env.clock(|picks|, |lb.urls| + options.lbRetries), lb.options.lbRetries))
    ensures Timed(env, lb.options.lbInterval) && old(Spaced(env, lb.aliveStates[..], picks, lb.options.lbInterval)) ==>
              && PicksSpaced(picks', |lb.urls|, env.clock(0, 0), lb.options.lbInterval, LastPick(env, |lb.urls|, |picks'|))
              && (end == StillRunning ==> Spaced(env, lb.aliveStates[..], picks', lb.options.lbInterval))
  {
    var r := |picks|;
    var selection := Select(lb, addr, options.lbRetries, env, picks, r);
    if selection.Err? {
      return Refused(selection.error), picks, 0;
    }
    var live := selection.value;
    picks' := picks + [live.index];
    var destination := env.destination(live.address);
    if destination != Usable {
      return BadDestination(destination), picks', 0;
    }
    end, tried := ConnectAndMark(lb, live, options, env, r);
  }

  // The steps of the request are watched for at most `rounds` rounds. `options` are those of
  // the directive that matched; the balancer has its own.
  method ProxyLoop(lb: ReverseProxyState, addr: IpAddr, options: ReverseProxyOptions, env: Environment, rounds: nat)
    returns (end: Ending, picks: seq<nat>, attempts: nat)
    requires lb.Valid()
    modifies lb`currentBackend, lb.aliveStates
    ensures lb.Valid() && EndedBy(lb, addr, env, options.lbRetries, picks, end)
    ensures rounds > 0 ==>
              (picks == [] && end == Refused(NoHealthyBackends) <==> old(lb.NoneSelectable(addr, ClockOf(env, 0))))
    ensures end == StillRunning ==> |picks| == rounds
    ensures attempts <= |picks| * options.lbRetries
    // the amortised bound
    ensures Timed(env, lb.options.lbInterval) ==> FewPicks(env, picks, |lb.urls|, lb.options.lbInterval)
    // real termination
    ensures Timed(env, lb.options.lbInterval) && Brisk(env, |lb.urls|, options, lb.options) ==>
              && |picks| <= |lb.urls| && attempts <= |lb.urls| * options.lbRetries
              && (end == StillRunning ==> rounds <= |lb.urls|)
  {
    var n := |lb.urls|;
    ghost var timed := Timed(env, lb.options.lbInterval);
    ghost var brisk := timed && Brisk(env, n, options, lb.options);
    ghost var before, cursor := lb.aliveStates[..], lb.currentBackend;
    ghost var hopeless := lb.NoneSelectable(addr, ClockOf(env, 0));
    picks, attempts, end := [], 0, StillRunning;
    while |picks| < rounds && end == StillRunning
      invariant lb.Valid() && |picks| <= rounds
      invariant EndedBy(lb, addr, env, options.lbRetries, picks, end)
      invariant if picks == [] && end == StillRunning then lb.aliveStates[..] == before && lb.currentBackend == cursor
                else picks == [] && end == Refused(NoHealthyBackends) <==> hopeless
      invariant attempts <= Budget(|picks|, options.lbRetries)
      invariant timed && end == StillRunning ==> Spaced(env, lb.aliveStates[..], picks, lb.options.lbInterval)
      invariant timed ==> PicksSpaced(picks, n, env.clock(0, 0), lb.options.lbInterval, LastPick(env, n, |picks|))
      invariant brisk ==> |picks| <= n
      decreases rounds - |picks|, end == StillRunning
    {
      var tried: nat;
      end, picks, tried := Round(lb, addr, options, env, picks);
      attempts := attempts + tried;
      if brisk && |picks| > 0 {
        BriskPicksAreDistinct(env, picks, n, options, lb.options);
      }
    }
    AttemptsAreFew(|picks|, n, options.lbRetries, attempts);
    if timed {
      LoopPicksAreFew(env, picks, n, lb.options.lbInterval);
    }
  }
}
