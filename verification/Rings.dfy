/** A scan over a ring that is shorter than the list: with 2^32 or more backends the address hash
    goes round the places that 32 bits can count, several times. */
module Rings {
  import opened Numbers
  import opened Wrappers
  import opened Backends

  // The place j steps after `home`, going round the ring as often as it takes.
  function Place(home: nat, j: nat, ring: nat): (i: nat)
    requires home < ring
    ensures i < ring
  {
    if j == 0 then home else (Place(home, j - 1, ring) + 1) % ring
  }

  // What the first k probes make of the state of place i.
  function Visited(s: AliveState, interval: u64, clock: nat -> u64, home: nat, ring: nat, i: nat, k: nat): AliveState
    requires home < ring
  {
    if k == 0 then s
    else
      var earlier := Visited(s, interval, clock, home, ring, i, k - 1);
      if Place(home, k - 1, ring) == i then AfterVisit(earlier, interval, clock(k - 1)) else earlier
  }

  // The first probe that finds its place selectable as it was before the scan; the number of
  // backends when there is none.
  function FirstRingProbe(states: seq<AliveState>, interval: u64, clock: nat -> u64, home: nat, ring: nat, from: nat): (k: nat)
    requires home < ring <= |states| && from <= |states|
    ensures from <= k <= |states|
    ensures forall j | from <= j < k :: !Selectable(states[Place(home, j, ring)], interval, clock(j))
    ensures k < |states| ==> Selectable(states[Place(home, k, ring)], interval, clock(k))
    decreases |states| - from
  {
    if from == |states| || Selectable(states[Place(home, from, ring)], interval, clock(from)) then from
    else FirstRingProbe(states, interval, clock, home, ring, from + 1)
  }

  ghost predicate RingVisited(before: seq<AliveState>, after: seq<AliveState>, interval: u64, clock: nat -> u64,
                              home: nat, ring: nat, k: nat)
    requires home < ring
  {
    |after| == |before| && forall i | 0 <= i < |before| :: after[i] == Visited(before[i], interval, clock, home, ring, i, k)
  }

  // As many probes as there are backends, on the places of the ring.
  ghost predicate RingScans(urls: seq<Url>, interval: u64, clock: nat -> u64, home: nat, ring: nat,
                            before: seq<AliveState>, after: seq<AliveState>, out: Selection)
    requires home < ring <= |urls| == |before|
  {
    var n := |urls|;
    var k := FirstRingProbe(before, interval, clock, home, ring, 0);
    && RingVisited(before, after, interval, clock, home, ring, if k < n then k + 1 else n)
    && out == if k == n then Err(NoHealthyBackends) else Address(urls, Place(home, k, ring))
  }

  /* ---- one probe after the other ---- */

  // A probe that does not take the backend leaves it as selectable as it was.
  ghost predicate Kin(before: AliveState, now: AliveState) {
    now == before || (before.Dead? && now.Dead? && before.retriesLeft == 0 == now.retriesLeft)
  }

  // After k probes, none of which found a selectable backend.
  ghost predicate Probing(before: seq<AliveState>, now: seq<AliveState>, interval: u64, clock: nat -> u64,
                          home: nat, k: nat, ring: nat, at: nat) {
    && home < ring <= |before| && k <= |before| && at == Place(home, k, ring)
    && RingVisited(before, now, interval, clock, home, ring, k)
    && (forall i | 0 <= i < |before| :: Kin(before[i], now[i]))
    && forall j | 0 <= j < k :: !Selectable(before[Place(home, j, ring)], interval, clock(j))
  }

  lemma RingVisitedGoesOn(before: seq<AliveState>, mid: seq<AliveState>, after: seq<AliveState>, interval: u64,
                          clock: nat -> u64, home: nat, k: nat, ring: nat, at: nat)
    requires home < ring && at == Place(home, k, ring) < |before|
    requires RingVisited(before, mid, interval, clock, home, ring, k)
    requires after == mid[at := AfterVisit(mid[at], interval, clock(k))]
    ensures RingVisited(before, after, interval, clock, home, ring, k + 1)
  {
  }

  lemma ProbingGoesOn(before: seq<AliveState>, mid: seq<AliveState>, after: seq<AliveState>, interval: u64,
                      clock: nat -> u64, home: nat, k: nat, ring: nat, at: nat)
    requires Probing(before, mid, interval, clock, home, k, ring, at) && k < |before|
    requires !Selectable(mid[at], interval, clock(k)) && after == mid[at := AfterVisit(mid[at], interval, clock(k))]
    ensures Probing(before, after, interval, clock, home, k + 1, ring, (at + 1) % ring)
  {
    RingVisitedGoesOn(before, mid, after, interval, clock, home, k, ring, at);
    assert Kin(before[at], mid[at]);
  }

  lemma ProbingFinds(urls: seq<Url>, before: seq<AliveState>, mid: seq<AliveState>, after: seq<AliveState>, interval: u64,
                     clock: nat -> u64, home: nat, k: nat, ring: nat, at: nat)
    requires Probing(before, mid, interval, clock, home, k, ring, at) && k < |before| == |urls|
    requires Selectable(mid[at], interval, clock(k)) && after == mid[at := AfterVisit(mid[at], interval, clock(k))]
    ensures FirstRingProbe(before, interval, clock, home, ring, 0) == k
    ensures RingScans(urls, interval, clock, home, ring, before, after, Address(urls, at))
  {
    RingVisitedGoesOn(before, mid, after, interval, clock, home, k, ring, at);
    assert Kin(before[at], mid[at]);
  }

  lemma ProbingFindsNone(urls: seq<Url>, before: seq<AliveState>, after: seq<AliveState>, interval: u64,
                         clock: nat -> u64, home: nat, ring: nat, at: nat)
    requires Probing(before, after, interval, clock, home, |before|, ring, at) && |before| == |urls|
    ensures FirstRingProbe(before, interval, clock, home, ring, 0) == |urls|
    ensures RingScans(urls, interval, clock, home, ring, before, after, Err(NoHealthyBackends))
  {
  }

  /* ---- what a scan of a ring means ---- */

  lemma {:induction false} BeyondTheRing(s: AliveState, interval: u64, clock: nat -> u64, home: nat, ring: nat, i: nat, k: nat)
    requires home < ring <= i
    ensures Visited(s, interval, clock, home, ring, i, k) == s
  {
    if k > 0 {
      BeyondTheRing(s, interval, clock, home, ring, i, k - 1);
    }
  }

  // No backend beyond the ring is handed out or changed.
  lemma RingScanStaysInside(urls: seq<Url>, interval: u64, clock: nat -> u64, home: nat, ring: nat,
                            before: seq<AliveState>, after: seq<AliveState>, out: Selection)
    requires home < ring <= |urls| == |before| && RingScans(urls, interval, clock, home, ring, before, after, out)
    ensures |after| == |before| && forall i | ring <= i < |before| :: after[i] == before[i]
    ensures out.Ok? ==> out.value.index < ring
  {
    var k := FirstRingProbe(before, interval, clock, home, ring, 0);
    forall i | ring <= i < |before| ensures after[i] == before[i] {
      BeyondTheRing(before[i], interval, clock, home, ring, i, if k < |urls| then k + 1 else |urls|);
    }
  }

  lemma {:induction false} PlaceIsAt(home: nat, j: nat, n: nat)
    requires home < n && j <= n
    ensures Place(home, j, n) == At(home, j, n)
  {
    if j > 0 {
      PlaceIsAt(home, j - 1, n);
      AtIsModular(home, j - 1, n);
    }
  }

  // Round a ring of all n backends n probes come by each place once.
  lemma {:induction false} VisitedOnce(s: AliveState, interval: u64, clock: nat -> u64, home: nat, n: nat, j: nat, k: nat)
    requires home < n && j < n && k <= n
    ensures Visited(s, interval, clock, home, n, At(home, j, n), k) == if j < k then AfterVisit(s, interval, clock(j)) else s
  {
    if k > 0 {
      VisitedOnce(s, interval, clock, home, n, j, k - 1);
      PlaceIsAt(home, k - 1, n);
    }
  }

  lemma WholeRingVisited(before: seq<AliveState>, after: seq<AliveState>, interval: u64, clock: nat -> u64, home: nat, k: nat)
    requires home < |before| && k <= |before|
    ensures RingVisited(before, after, interval, clock, home, |before|, k)
       <==> VisitedUpTo(before, after, interval, clock, home, k)
  {
    var n := |before|;
    forall j | 0 <= j < n
      ensures Visited(before[At(home, j, n)], interval, clock, home, n, At(home, j, n), k) ==
              if j < k then AfterVisit(before[At(home, j, n)], interval, clock(j)) else before[At(home, j, n)]
    {
      VisitedOnce(before[At(home, j, n)], interval, clock, home, n, j, k);
    }
    if VisitedUpTo(before, after, interval, clock, home, k) {
      forall i | 0 <= i < n ensures after[i] == Visited(before[i], interval, clock, home, n, i, k) {
        assert i == At(home, Distance(home, i, n), n);
      }
    }
  }

  // On a ring that is the whole list this is one scan.
  lemma WholeRingScans(urls: seq<Url>, interval: u64, clock: nat -> u64, home: nat,
                       before: seq<AliveState>, after: seq<AliveState>, out: Selection)
    requires home < |urls| == |before|
    ensures FirstRingProbe(before, interval, clock, home, |urls|, 0) == FirstProbe(before, interval, clock, home)
    ensures RingScans(urls, interval, clock, home, |urls|, before, after, out)
       <==> Scans(urls, interval, clock, home, before, after, out)
  {
    var n := |urls|;
    var k := FirstRingProbe(before, interval, clock, home, n, 0);
    forall j | 0 <= j <= n ensures Place(home, j, n) == At(home, j, n) {
      PlaceIsAt(home, j, n);
    }
    FirstProbeIs(before, interval, clock, home, k);
    WholeRingVisited(before, after, interval, clock, home, if k < n then k + 1 else n);
  }

  /* ---- what a scan that hands out a backend does to the others ---- */

  // Passed over in a scan of n probes: as before, or dead before and after with a new stamp.
  ghost predicate PassedOver(before: AliveState, now: AliveState, clock: nat -> u64, n: nat) {
    now == before || (Kin(before, now) && exists j: nat :: j < n && now.since == clock(j))
  }

  ghost predicate HandsOut(before: seq<AliveState>, after: seq<AliveState>, interval: u64, clock: nat -> u64, i: nat) {
    && |after| == |before| && i < |before|
    && (exists j: nat :: j < |before| && Selectable(before[i], interval, clock(j)))
    && forall b | 0 <= b < |before| && b != i :: PassedOver(before[b], after[b], clock, |before|)
  }

  lemma {:induction false} NotTakenIsPassedOver(s: AliveState, interval: u64, clock: nat -> u64, home: nat, ring: nat,
                                                i: nat, k: nat, n: nat)
    requires home < ring && k <= n
    requires forall j | 0 <= j < k && Place(home, j, ring) == i :: !Selectable(s, interval, clock(j))
    ensures PassedOver(s, Visited(s, interval, clock, home, ring, i, k), clock, n)
  {
    if k > 0 {
      NotTakenIsPassedOver(s, interval, clock, home, ring, i, k - 1, n);
    }
  }

  // The backend handed out was selectable when it was probed, all others were passed over.
  lemma RingScanHandsOut(urls: seq<Url>, interval: u64, clock: nat -> u64, home: nat, ring: nat,
                         before: seq<AliveState>, after: seq<AliveState>, live: LiveBackend)
    requires home < ring <= |urls| == |before| && RingScans(urls, interval, clock, home, ring, before, after, Ok(live))
    ensures HandsOut(before, after, interval, clock, live.index)
  {
    var k := FirstRingProbe(before, interval, clock, home, ring, 0);
    assert live.index == Place(home, k, ring);
    forall b | 0 <= b < |before| && b != live.index ensures PassedOver(before[b], after[b], clock, |before|) {
      NotTakenIsPassedOver(before[b], interval, clock, home, ring, b, k + 1, |before|);
    }
  }

  lemma ScanHandsOut(urls: seq<Url>, interval: u64, clock: nat -> u64, home: nat,
                     before: seq<AliveState>, after: seq<AliveState>, live: LiveBackend)
    requires home < |urls| == |before| && Scans(urls, interval, clock, home, before, after, Ok(live))
    ensures HandsOut(before, after, interval, clock, live.index)
  {
    WholeRingScans(urls, interval, clock, home, before, after, Ok(live));
    RingScanHandsOut(urls, interval, clock, home, |urls|, before, after, live);
  }

  /* ---- what the answer of a scan says ---- */

  // The address handed out is that of the backend handed out, and fits the fixed-size string.
  ghost predicate Selected(urls: seq<Url>, out: Selection) {
    out.Ok? ==> out.value.index < |urls| && out.value.address == urls[out.value.index] && |out.value.address| <= 100
  }

  // No backend is selectable when its turn comes.
  ghost predicate NoneInTurn(states: seq<AliveState>, interval: u64, clock: nat -> u64, home: nat, ring: nat)
    requires home < ring <= |states|
  {
    forall j: nat | j < |states| :: !Selectable(states[Place(home, j, ring)], interval, clock(j))
  }

  ghost predicate AliveButTooLong(urls: seq<Url>, states: seq<AliveState>) {
    |states| == |urls| && exists i | 0 <= i < |urls| :: states[i].Alive? && |urls[i]| > 100
  }

  // An error of a scan, read off the states it leaves.
  ghost predicate Explains(urls: seq<Url>, after: seq<AliveState>, interval: u64, clock: nat -> u64, home: nat, ring: nat,
                           error: BalancerError)
    requires home < ring <= |after|
  {
    match error
    case NoHealthyBackends => NoneInTurn(after, interval, clock, home, ring)
    case HeaplessError => AliveButTooLong(urls, after)
    case _ => false
  }

  // A scan that takes no backend leaves none that it would have taken.
  lemma NoneIsLeft(before: seq<AliveState>, after: seq<AliveState>, interval: u64, clock: nat -> u64, home: nat, ring: nat)
    requires home < ring <= |before| && RingVisited(before, after, interval, clock, home, ring, |before|)
    requires NoneInTurn(before, interval, clock, home, ring)
    ensures |after| == |before| && NoneInTurn(after, interval, clock, home, ring)
  {
    forall j: nat | j < |before| ensures !Selectable(after[Place(home, j, ring)], interval, clock(j)) {
      var i := Place(home, j, ring);
      NotTakenIsPassedOver(before[i], interval, clock, home, ring, i, |before|, |before|);
    }
  }

  lemma RingScanAnswers(urls: seq<Url>, interval: u64, clock: nat -> u64, home: nat, ring: nat,
                        before: seq<AliveState>, after: seq<AliveState>, out: Selection)
    requires home < ring <= |urls| == |before| && RingScans(urls, interval, clock, home, ring, before, after, out)
    ensures |after| == |before| && Selected(urls, out)
    ensures out == Err(NoHealthyBackends) <==> NoneInTurn(before, interval, clock, home, ring)
    ensures out.Err? ==> Explains(urls, after, interval, clock, home, ring, out.error)
  {
    var k := FirstRingProbe(before, interval, clock, home, ring, 0);
    if k == |urls| {
      NoneIsLeft(before, after, interval, clock, home, ring);
    } else {
      assert Selectable(before[Place(home, k, ring)], interval, clock(k));
      var i := Place(home, k, ring);
      NotTakenIsPassedOver(before[i], interval, clock, home, ring, i, k, |urls|);
      assert after[i].Alive?;
    }
  }

  lemma ScanAnswers(urls: seq<Url>, interval: u64, clock: nat -> u64, home: nat,
                    before: seq<AliveState>, after: seq<AliveState>, out: Selection)
    requires home < |urls| == |before| && Scans(urls, interval, clock, home, before, after, out)
    ensures |after| == |before| && Selected(urls, out)
    ensures out == Err(NoHealthyBackends) <==> NoneInTurn(before, interval, clock, home, |urls|)
    ensures out.Err? ==> Explains(urls, after, interval, clock, home, |urls|, out.error)
  {
    WholeRingScans(urls, interval, clock, home, before, after, out);
    RingScanAnswers(urls, interval, clock, home, |urls|, before, after, out);
  }
}
