/** The balancer's data, the life of one backend, and what one scan over the
    backends means, independently of how the scan is carried out. */
module Backends {
  import opened Numbers
  import opened Wrappers

  type Url = seq<byte>

  // Capacity in bytes of the fixed-size string that carries a selected address.
  const MAX_ADDRESS: nat := 100

  datatype AliveState =
    | Alive(stamp: u64)
    | Dead(since: u64, retriesLeft: u64)

  datatype LoadBalancePolicy = RoundRobin | IPHash

  datatype ReverseProxyOptions = ReverseProxyOptions(
    lbRetries: u64,
    lbInterval: u64,
    lbTimeout: u64,
    lbPolicy: Option<LoadBalancePolicy>)

  datatype LiveBackend = LiveBackend(address: Url, index: nat)

  datatype BalancerError =
    | NoHealthyBackends
    | HeaplessError         // the address does not fit the fixed-size string
    | IPv6NotSupported
    | DivisionByZero        // the program panics

  type Selection = Result<LiveBackend, BalancerError>

  // What the locks protect: every backend's state, and the round-robin cursor.
  datatype Balancer = Balancer(states: seq<AliveState>, cursor: nat)

  predicate FitsAddress(url: Url) {
    |url| <= MAX_ADDRESS
  }

  /* ---- one backend ---- */

  predicate Due(since: u64, interval: u64, now: u64) {
    now > WrapAdd(since, interval)
  }

  predicate Selectable(s: AliveState, interval: u64, now: u64) {
    s.Alive? || (Due(s.since, interval, now) && s.retriesLeft > 0)
  }

  // What one visit at time `now` leaves behind.
  function AfterVisit(s: AliveState, interval: u64, now: u64): AliveState {
    if s.Alive? || !Due(s.since, interval, now) then s
    else if s.retriesLeft > 0 then Alive(now)
    else Dead(now, 0)
  }

  // The interval test waits the whole interval exactly when the sum does not
  // overflow. On overflow a backend is due again in the second it was marked.
  lemma DueWaitsTheIntervalIffSumFits(since: u64, interval: u64)
    ensures (forall now: u64 | since <= now :: Due(since, interval, now) ==> now > since + interval)
       <==> since + interval < U64
  {
    if since + interval >= U64 {
      assert Due(since, interval, since);
    }
  }

  // A backend that is passed over stays dead, keeps its retries, and is changed
  // only when it has no retries left.
  lemma PassingOver(s: AliveState, interval: u64, now: u64)
    requires !Selectable(s, interval, now)
    ensures AfterVisit(s, interval, now).Dead? && s.Dead?
    ensures AfterVisit(s, interval, now).retriesLeft == s.retriesLeft
    ensures AfterVisit(s, interval, now) != s ==> s.retriesLeft == 0 && AfterVisit(s, interval, now) == Dead(now, 0)
    ensures Due(s.since, interval, now) ==> AfterVisit(s, interval, now) == Dead(now, 0)
  {
  }

  // A backend that is taken is left alone if it was alive, and comes back to life with the time of
  // the visit if it was dead.
  lemma Taking(s: AliveState, interval: u64, now: u64)
    requires Selectable(s, interval, now)
    ensures AfterVisit(s, interval, now) == if s.Alive? then s else Alive(now)
  {
  }

  /* ---- positions on the ring of n backends ---- */

  // The index k places after `home`.
  function At(home: nat, k: nat, n: nat): (i: nat)
    requires home < n && k <= n
    ensures i < n
    ensures k == n ==> i == home
  {
    if home + k < n then home + k else home + k - n
  }

  // How many places `i` lies after `home`.
  function Distance(home: nat, i: nat, n: nat): (k: nat)
    requires home < n && i < n
    ensures k < n && At(home, k, n) == i
  {
    if home <= i then i - home else i + n - home
  }

  lemma AtIsModular(home: nat, k: nat, n: nat)
    requires home < n && k <= n
    ensures At(home, k, n) == (home + k) % n
    ensures k < n ==> (At(home, k, n) + 1) % n == At(home, k + 1, n)
  {
    ModSmall(home + k, n);
    if k < n {
      ModSmall(At(home, k, n) + 1, n);
    }
  }

  lemma ModSmall(x: nat, n: nat)
    requires 0 < n && x < 2 * n
    ensures x % n == if x < n then x else x - n
  {
  }

  /* ---- one scan ---- */

  // The number of backends probed before the first selectable one, the j-th
  // probe happening at time clock(j); n when there is none.
  function FirstProbe(states: seq<AliveState>, interval: u64, clock: nat -> u64, home: nat): (k: nat)
    requires home < |states|
    ensures k <= |states|
    ensures forall j | 0 <= j < k :: !Selectable(states[At(home, j, |states|)], interval, clock(j))
    ensures k < |states| ==> Selectable(states[At(home, k, |states|)], interval, clock(k))
  {
    FirstProbeFrom(states, interval, clock, home, 0)
  }

  function FirstProbeFrom(states: seq<AliveState>, interval: u64, clock: nat -> u64, home: nat, from: nat): (k: nat)
    requires home < |states| && from <= |states|
    ensures from <= k <= |states|
    ensures forall j | from <= j < k :: !Selectable(states[At(home, j, |states|)], interval, clock(j))
    ensures k < |states| ==> Selectable(states[At(home, k, |states|)], interval, clock(k))
    decreases |states| - from
  {
    if from == |states| || Selectable(states[At(home, from, |states|)], interval, clock(from)) then from
    else FirstProbeFrom(states, interval, clock, home, from + 1)
  }

  // The first probe is the only number of probes with its two properties.
  lemma FirstProbeIs(states: seq<AliveState>, interval: u64, clock: nat -> u64, home: nat, k: nat)
    requires home < |states| && k <= |states|
    requires forall j | 0 <= j < k :: !Selectable(states[At(home, j, |states|)], interval, clock(j))
    requires k < |states| ==> Selectable(states[At(home, k, |states|)], interval, clock(k))
    ensures FirstProbe(states, interval, clock, home) == k
  {
  }

  // Exactly the first k probed backends have been visited.
  ghost predicate VisitedUpTo(before: seq<AliveState>, after: seq<AliveState>,
                              interval: u64, clock: nat -> u64, home: nat, k: nat)
    requires home < |before| && k <= |before|
  {
    && |after| == |before|
    && (forall j | 0 <= j < k :: after[At(home, j, |before|)] == AfterVisit(before[At(home, j, |before|)], interval, clock(j)))
    && (forall j | k <= j < |before| :: after[At(home, j, |before|)] == before[At(home, j, |before|)])
  }

  // A scan starting at `home` probes up to the first selectable backend, whose
  // address it hands out if that fits.
  ghost predicate Scans(urls: seq<Url>, interval: u64, clock: nat -> u64, home: nat,
                        before: seq<AliveState>, after: seq<AliveState>, out: Selection)
    requires home < |urls| == |before|
  {
    var n := |urls|;
    var k := FirstProbe(before, interval, clock, home);
    && VisitedUpTo(before, after, interval, clock, home, if k < n then k + 1 else n)
    && out == if k == n then Err(NoHealthyBackends)
              else Address(urls, At(home, k, n))
  }

  function Address(urls: seq<Url>, i: nat): (out: Selection)
    requires i < |urls|
    ensures out.Ok? <==> |urls[i]| <= 100
    ensures out.Ok? ==> out.value.index == i && out.value.address == urls[i]
    ensures out.Err? ==> out.error == HeaplessError
  {
    if FitsAddress(urls[i]) then Ok(LiveBackend(urls[i], i)) else Err(HeaplessError)
  }

  ghost predicate WellFormed(urls: seq<Url>, lb: Balancer) {
    && |lb.states| == |urls|
    && (if |urls| == 0 then lb.cursor == 0 else lb.cursor < |urls|)
  }

  // One round-robin call. The cursor ends one past the backend handed out, on
  // a backend whose address does not fit, or where it began.
  ghost predicate RoundRobinCall(urls: seq<Url>, interval: u64, clock: nat -> u64,
                                 before: Balancer, after: Balancer, out: Selection)
    requires WellFormed(urls, before)
  {
    var n := |urls|;
    if n == 0 then after == before && out == Err(NoHealthyBackends)
    else
      var k := FirstProbe(before.states, interval, clock, before.cursor);
      && Scans(urls, interval, clock, before.cursor, before.states, after.states, out)
      && after.cursor == if out == Err(HeaplessError) then At(before.cursor, k, n)
                         else if k == n then before.cursor
                         else At(before.cursor, k + 1, n)
  }

  // One address-hash call from the place the hash chose. The cursor is not used.
  ghost predicate HashCall(urls: seq<Url>, interval: u64, clock: nat -> u64, home: nat,
                           before: Balancer, after: Balancer, out: Selection)
    requires WellFormed(urls, before) && home < |urls|
  {
    && Scans(urls, interval, clock, home, before.states, after.states, out)
    && after.cursor == before.cursor
  }

  // A backend that is alive, or dead, due and with retries left at every probe, is
  // found; the call fails for want of a healthy one iff none is selectable when probed.
  lemma ScanFailsIffNoneSelectable(urls: seq<Url>, interval: u64, clock: nat -> u64, home: nat,
                                   before: seq<AliveState>, after: seq<AliveState>, out: Selection)
    requires home < |urls| == |before|
    requires Scans(urls, interval, clock, home, before, after, out)
    ensures out == Err(NoHealthyBackends)
       <==> forall i | 0 <= i < |urls| :: !Selectable(before[i], interval, clock(Distance(home, i, |urls|)))
  {
  }

  // Every backend other than the one handed out keeps its state, or is dead without
  // retries both before and after; the one handed out is left alive.
  lemma ScanChanges(urls: seq<Url>, interval: u64, clock: nat -> u64, home: nat,
                    before: seq<AliveState>, after: seq<AliveState>, out: Selection)
    requires home < |urls| == |before|
    requires Scans(urls, interval, clock, home, before, after, out)
    ensures |after| == |before|
    ensures out.Ok? ==> out.value.index < |urls| && after[out.value.index].Alive?
    ensures out.Ok? ==> exists j: nat :: j < |urls| && Selectable(before[out.value.index], interval, clock(j))
                                      && after[out.value.index] == AfterVisit(before[out.value.index], interval, clock(j))
    ensures forall i | 0 <= i < |urls| && out != Err(HeaplessError) && (out.Ok? ==> i != out.value.index) ::
              after[i] == before[i] || (before[i].Dead? && after[i].Dead? && before[i].retriesLeft == 0 == after[i].retriesLeft)
  {
    var n := |urls|;
    var k := FirstProbe(before, interval, clock, home);
    if out.Ok? {
      assert out.value.index == At(home, k, n);
    }
    forall i | 0 <= i < n && out != Err(HeaplessError) && (out.Ok? ==> i != out.value.index)
      ensures after[i] == before[i] || (before[i].Dead? && after[i].Dead? && before[i].retriesLeft == 0 == after[i].retriesLeft)
    {
      var j := Distance(home, i, n);
      assert i == At(home, j, n);
      if j < k {
        PassingOver(before[i], interval, clock(j));
      }
    }
  }
}
