/** The two models of the balancer agree: in every run, whatever the other requests do and
    however time passes in between, each call of get_next_backend is one call as the balancer
    object makes it, on the states that its looks found. */
module Calls {
  import opened Numbers
  import opened Wrappers
  import opened Backends
  import opened ReverseProxyStates
  import opened Interleavings
  import opened InterleavingProofs

  predicate InScan(s: State, t: nat) {
    t < |s.tasks| && (s.tasks[t].pc.Scanning? || s.tasks[t].pc.Looking?)
  }

  // In state k request t looks at the backend q places after `home`, and does not take it.
  ghost predicate PassesOver(cfg: Config, tr: seq<State>, evs: seq<Event>, t: nat, home: nat, k: nat, q: nat) {
    && LooksAt(cfg, tr, evs, t, home, k, q) && |tr[k].states| == |cfg.urls|
    && !Selectable(tr[k].states[At(home, q, |cfg.urls|)], cfg.options.lbInterval, tr[k].clock)
  }

  ghost predicate LooksAt(cfg: Config, tr: seq<State>, evs: seq<Event>, t: nat, home: nat, k: nat, q: nat) {
    && Run(cfg, tr, evs) && k < |evs| && evs[k] == Step(t, Look) && Enabled(cfg, tr[k], evs[k])
    && q < |cfg.urls| && home < |cfg.urls| && tr[k].tasks[t].pc.at == At(home, q, |cfg.urls|)
  }

  // The looks of request t between states i and j, each of them passing over a backend.
  ghost predicate Passed(cfg: Config, tr: seq<State>, evs: seq<Event>, i: nat, j: nat, t: nat, home: nat, looks: seq<nat>) {
    && (forall q | 0 <= q < |looks| :: i <= looks[q] < j && PassesOver(cfg, tr, evs, t, home, looks[q], q))
    && (forall p, q | 0 <= p < q < |looks| :: looks[p] < looks[q])
  }

  // Request t has probed k backends and comes to the next.
  ghost predicate Reached(cfg: Config, s: State, t: nat, home: nat, k: nat) {
    && InScan(s, t) && s.tasks[t].pc.probed == k < |cfg.urls| && home < |cfg.urls|
    && s.tasks[t].pc.at == At(home, k, |cfg.urls|)
  }

  lemma ScanStep(cfg: Config, s: State, e: Event, t: nat, home: nat, k: nat)
    requires Inv(cfg, s) && Enabled(cfg, s, e) && Reached(cfg, s, t, home, k) && InScan(Apply(cfg, s, e), t)
    ensures Reached(cfg, Apply(cfg, s, e), t, home, if e == Step(t, Look) then k + 1 else k)
    ensures e == Step(t, Look) ==> !Selectable(s.states[At(home, k, |cfg.urls|)], cfg.options.lbInterval, s.clock)
  {
    StepKeepsInv(cfg, s, e);
  }

  // One event more: a look of request t is added.
  lemma PassedGrows(cfg: Config, tr: seq<State>, evs: seq<Event>, i: nat, j: nat, t: nat, home: nat, looks: seq<nat>)
    returns (looks': seq<nat>)
    requires i < j <= |evs| && Passed(cfg, tr, evs, i, j - 1, t, home, looks)
    requires evs[j - 1] == Step(t, Look) ==> PassesOver(cfg, tr, evs, t, home, j - 1, |looks|)
    ensures Passed(cfg, tr, evs, i, j, t, home, looks')
    ensures |looks'| == |looks| + if evs[j - 1] == Step(t, Look) then 1 else 0
  {
    looks' := if evs[j - 1] == Step(t, Look) then looks + [j - 1] else looks;
    forall q | 0 <= q < |looks'| ensures i <= looks'[q] < j && PassesOver(cfg, tr, evs, t, home, looks'[q], q) {
      if q < |looks| {
        assert looks'[q] == looks[q] && PassesOver(cfg, tr, evs, t, home, looks[q], q);
      }
    }
  }

  lemma OneMoreEvent(cfg: Config, tr: seq<State>, evs: seq<Event>, j: nat, t: nat, home: nat, k: nat)
    requires Run(cfg, tr, evs) && j < |evs| && Reached(cfg, tr[j], t, home, k) && InScan(tr[j + 1], t)
    ensures Reached(cfg, tr[j + 1], t, home, if evs[j] == Step(t, Look) then k + 1 else k)
    ensures evs[j] == Step(t, Look) ==> PassesOver(cfg, tr, evs, t, home, j, k)
  {
    assert Follows(cfg, tr, evs, j);
    ScanStep(cfg, tr[j], evs[j], t, home, k);
  }

  // The looks of a scan that began in state i and is still going on in state j.
  lemma {:induction false} ScanSoFar(cfg: Config, tr: seq<State>, evs: seq<Event>, i: nat, j: nat, t: nat, home: nat)
    returns (looks: seq<nat>)
    requires Run(cfg, tr, evs) && i <= j < |tr| && home < |cfg.urls|
    requires t < |tr[i].tasks| && tr[i].tasks[t].pc == Scanning(0, home)
    requires forall k | i <= k <= j :: InScan(tr[k], t)
    ensures Passed(cfg, tr, evs, i, j, t, home, looks)
    ensures Reached(cfg, tr[j], t, home, |looks|)
    decreases j
  {
    if i == j {
      looks := [];
    } else {
      looks := ScanSoFar(cfg, tr, evs, i, j - 1, t, home);
      OneMoreEvent(cfg, tr, evs, j - 1, t, home, |looks|);
      looks := PassedGrows(cfg, tr, evs, i, j, t, home, looks);
    }
  }

  /* ---- what a call found and left ---- */

  ghost predicate Timed(tr: seq<State>, looks: seq<nat>, n: nat) {
    forall q | 0 <= q < |looks| :: looks[q] + 1 < |tr| && |tr[looks[q]].states| == n == |tr[looks[q] + 1].states|
  }

  // Every backend as its look found it; those not looked at as they are in `rest`.
  ghost function Found(tr: seq<State>, looks: seq<nat>, home: nat, rest: seq<AliveState>): (found: seq<AliveState>)
    requires home < |rest| && Timed(tr, looks, |rest|)
    ensures |found| == |rest|
  {
    seq(|rest|, b requires 0 <= b < |rest| =>
      var q := Distance(home, b, |rest|); if q < |looks| then tr[looks[q]].states[b] else rest[b])
  }

  // And as its look left it.
  ghost function Left(tr: seq<State>, looks: seq<nat>, home: nat, rest: seq<AliveState>): (left: seq<AliveState>)
    requires home < |rest| && Timed(tr, looks, |rest|)
    ensures |left| == |rest|
  {
    seq(|rest|, b requires 0 <= b < |rest| =>
      var q := Distance(home, b, |rest|); if q < |looks| then tr[looks[q] + 1].states[b] else rest[b])
  }

  lemma FoundAt(tr: seq<State>, looks: seq<nat>, home: nat, rest: seq<AliveState>, q: nat)
    requires home < |rest| && Timed(tr, looks, |rest|) && q < |looks| && q < |rest|
    ensures Found(tr, looks, home, rest)[At(home, q, |rest|)] == tr[looks[q]].states[At(home, q, |rest|)]
    ensures Left(tr, looks, home, rest)[At(home, q, |rest|)] == tr[looks[q] + 1].states[At(home, q, |rest|)]
  {
  }

  // clock(q) is the time of the q-th look.
  ghost predicate ClockOf(tr: seq<State>, looks: seq<nat>, clock: nat -> u64) {
    forall q | 0 <= q < |looks| && looks[q] < |tr| :: clock(q) == tr[looks[q]].clock
  }

  ghost function Clock(tr: seq<State>, looks: seq<nat>): (clock: nat -> u64)
    ensures ClockOf(tr, looks, clock)
  {
    (q: nat) => if q < |looks| && looks[q] < |tr| then tr[looks[q]].clock else 0
  }

  // What the place where a request arrives says about the answer it was given.
  predicate Answered(task: Task, out: Selection) {
    match out
    case Ok(live) => task.pc == Connecting(live.index, task.attempts)
    case Err(_) => task.pc.Finished?
  }

  // A look leaves the backend as a visit does.
  lemma LookLeaves(cfg: Config, tr: seq<State>, evs: seq<Event>, t: nat, home: nat, k: nat, q: nat)
    requires LooksAt(cfg, tr, evs, t, home, k, q)
    ensures k + 1 < |tr| && |tr[k].states| == |cfg.urls| == |tr[k + 1].states|
    ensures var b := At(home, q, |cfg.urls|);
            tr[k + 1].states[b] == AfterVisit(tr[k].states[b], cfg.options.lbInterval, tr[k].clock)
  {
    assert Follows(cfg, tr, evs, k);
  }

  ghost predicate AllLooks(cfg: Config, tr: seq<State>, evs: seq<Event>, t: nat, home: nat, looks: seq<nat>) {
    forall q | 0 <= q < |looks| :: LooksAt(cfg, tr, evs, t, home, looks[q], q)
  }

  lemma LooksVisit(cfg: Config, tr: seq<State>, evs: seq<Event>, t: nat, home: nat, looks: seq<nat>,
                   rest: seq<AliveState>, clock: nat -> u64)
    requires AllLooks(cfg, tr, evs, t, home, looks) && home < |cfg.urls| == |rest| && |looks| <= |rest|
    requires ClockOf(tr, looks, clock)
    ensures Timed(tr, looks, |rest|)
    ensures VisitedUpTo(Found(tr, looks, home, rest), Left(tr, looks, home, rest),
                        cfg.options.lbInterval, clock, home, |looks|)
  {
    forall q | 0 <= q < |looks|
      ensures looks[q] + 1 < |tr| && |tr[looks[q]].states| == |rest| == |tr[looks[q] + 1].states|
    {
      LookLeaves(cfg, tr, evs, t, home, looks[q], q);
    }
    var n := |rest|;
    forall q | 0 <= q < |looks|
      ensures Left(tr, looks, home, rest)[At(home, q, n)] ==
              AfterVisit(Found(tr, looks, home, rest)[At(home, q, n)], cfg.options.lbInterval, clock(q))
    {
      assert LooksAt(cfg, tr, evs, t, home, looks[q], q);
      LookLeaves(cfg, tr, evs, t, home, looks[q], q);
      FoundAt(tr, looks, home, rest, q);
    }
  }

  // k backends passed over, and one more looked at, make a scan.
  lemma ScanEnds(urls: seq<Url>, interval: u64, clock: nat -> u64, home: nat, found: seq<AliveState>, left: seq<AliveState>, k: nat)
    requires home < |urls| == |found| && k < |urls|
    requires VisitedUpTo(found, left, interval, clock, home, k + 1)
    requires forall q | 0 <= q < k :: !Selectable(found[At(home, q, |urls|)], interval, clock(q))
    requires Selectable(found[At(home, k, |urls|)], interval, clock(k)) || k + 1 == |urls|
    ensures var taken := Selectable(found[At(home, k, |urls|)], interval, clock(k));
            && FirstProbe(found, interval, clock, home) == (if taken then k else |urls|)
            && Scans(urls, interval, clock, home, found, left,
                     if taken then Address(urls, At(home, k, |urls|)) else Err(NoHealthyBackends))
  {
    if Selectable(found[At(home, k, |urls|)], interval, clock(k)) {
      FirstProbeIs(found, interval, clock, home, k);
    } else {
      FirstProbeIs(found, interval, clock, home, |urls|);
    }
  }

  // Request t starts its scan at `home` in state i and ends it with look j.
  ghost predicate IsScan(cfg: Config, tr: seq<State>, evs: seq<Event>, i: nat, j: nat, t: nat, home: nat) {
    && Run(cfg, tr, evs) && i <= j < |evs| && home < |cfg.urls|
    && t < |tr[i].tasks| && tr[i].tasks[t].pc == Scanning(0, home)
    && (forall k | i <= k <= j :: InScan(tr[k], t))
    && evs[j] == Step(t, Look) && !InScan(tr[j + 1], t)
  }

  // All its looks, in order, the last being j.
  ghost predicate LooksOfScan(cfg: Config, tr: seq<State>, evs: seq<Event>, i: nat, j: nat, t: nat, home: nat, looks: seq<nat>) {
    && 0 < |looks| <= |cfg.urls| && looks[|looks| - 1] == j
    && AllLooks(cfg, tr, evs, t, home, looks)
    && (forall p, q | 0 <= p < q < |looks| :: i <= looks[p] < looks[q])
  }

  lemma ScanLooks(cfg: Config, tr: seq<State>, evs: seq<Event>, i: nat, j: nat, t: nat, home: nat) returns (passed: seq<nat>)
    requires IsScan(cfg, tr, evs, i, j, t, home)
    ensures Passed(cfg, tr, evs, i, j, t, home, passed) && Reached(cfg, tr[j], t, home, |passed|)
    ensures LooksOfScan(cfg, tr, evs, i, j, t, home, passed + [j])
  {
    passed := ScanSoFar(cfg, tr, evs, i, j, t, home);
    var looks := passed + [j];
    assert LooksAt(cfg, tr, evs, t, home, j, |passed|);
    forall q | 0 <= q < |looks| ensures LooksAt(cfg, tr, evs, t, home, looks[q], q) {
      if q < |passed| {
        assert PassesOver(cfg, tr, evs, t, home, passed[q], q);
      }
    }
  }

  lemma FoundByLooks(cfg: Config, tr: seq<State>, evs: seq<Event>, i: nat, j: nat, t: nat, home: nat, passed: seq<nat>)
    requires IsScan(cfg, tr, evs, i, j, t, home) && Passed(cfg, tr, evs, i, j, t, home, passed)
    requires Reached(cfg, tr[j], t, home, |passed|) && |tr[j].states| == |cfg.urls|
    requires Timed(tr, passed + [j], |cfg.urls|)
    ensures var found, clock, n := Found(tr, passed + [j], home, tr[j].states), Clock(tr, passed + [j]), |cfg.urls|;
            && (forall q | 0 <= q < |passed| :: !Selectable(found[At(home, q, n)], cfg.options.lbInterval, clock(q)))
            && found[At(home, |passed|, n)] == tr[j].states[At(home, |passed|, n)] && clock(|passed|) == tr[j].clock
  {
    var looks := passed + [j];
    assert looks[|passed|] == j;
    forall q | 0 <= q < |passed|
      ensures !Selectable(Found(tr, looks, home, tr[j].states)[At(home, q, |cfg.urls|)], cfg.options.lbInterval, Clock(tr, looks)(q))
    {
      assert looks[q] == passed[q] && PassesOver(cfg, tr, evs, t, home, passed[q], q);
      FoundAt(tr, looks, home, tr[j].states, q);
    }
    FoundAt(tr, looks, home, tr[j].states, |passed|);
  }

  // Where a call that stopped after k backends leaves the cursor.
  function CursorAfter(cfg: Config, home: nat, k: nat, out: Selection, cursor: nat): nat
    requires home < |cfg.urls| && k <= |cfg.urls|
  {
    if cfg.policy == IPHash then cursor
    else if out == Err(HeaplessError) then At(home, k, |cfg.urls|)
    else if k == |cfg.urls| then home
    else At(home, k + 1, |cfg.urls|)
  }

  predicate Takes(cfg: Config, s: State, b: nat) {
    b < |s.states| && Selectable(s.states[b], cfg.options.lbInterval, s.clock)
  }

  function AnswerOf(cfg: Config, s: State, b: nat): Selection
    requires b < |cfg.urls|
  {
    if Takes(cfg, s, b) then Address(cfg.urls, b) else Err(NoHealthyBackends)
  }

  // The last look of a scan, and what becomes of the request.
  lemma LastLook(cfg: Config, tr: seq<State>, evs: seq<Event>, i: nat, j: nat, t: nat, home: nat, k: nat)
    requires IsScan(cfg, tr, evs, i, j, t, home) && Reached(cfg, tr[j], t, home, k)
    ensures var s, s', n, b := tr[j], tr[j + 1], |cfg.urls|, At(home, k, |cfg.urls|);
            && |s.states| == n && (Takes(cfg, s, b) || k + 1 == n)
            && t < |s'.tasks| && Answered(s'.tasks[t], AnswerOf(cfg, s, b))
            && s'.cursor == CursorAfter(cfg, home, if Takes(cfg, s, b) then k else n, AnswerOf(cfg, s, b), s.cursor)
  {
    assert Follows(cfg, tr, evs, j);
  }

  // The call answered `out` is a scan by the balancer object over what its looks found and left.
  ghost predicate IsCall(cfg: Config, tr: seq<State>, j: nat, t: nat, home: nat, looks: seq<nat>, out: Selection) {
    && j + 1 < |tr| && home < |cfg.urls| == |tr[j].states| && Timed(tr, looks, |cfg.urls|)
    && t < |tr[j + 1].tasks| && Answered(tr[j + 1].tasks[t], out)
    && var found, clock := Found(tr, looks, home, tr[j].states), Clock(tr, looks);
       && Scans(cfg.urls, cfg.options.lbInterval, clock, home, found, Left(tr, looks, home, tr[j].states), out)
       && tr[j + 1].cursor == CursorAfter(cfg, home, FirstProbe(found, cfg.options.lbInterval, clock, home), out, tr[j].cursor)
  }

  lemma CallScans(cfg: Config, tr: seq<State>, evs: seq<Event>, i: nat, j: nat, t: nat, home: nat)
    returns (looks: seq<nat>, out: Selection)
    requires IsScan(cfg, tr, evs, i, j, t, home)
    ensures LooksOfScan(cfg, tr, evs, i, j, t, home, looks)
    ensures IsCall(cfg, tr, j, t, home, looks, out)
  {
    var passed := ScanLooks(cfg, tr, evs, i, j, t, home);
    looks, out := passed + [j], AnswerOf(cfg, tr[j], At(home, |passed|, |cfg.urls|));
    LastLook(cfg, tr, evs, i, j, t, home, |passed|);
    LooksVisit(cfg, tr, evs, t, home, looks, tr[j].states, Clock(tr, looks));
    FoundByLooks(cfg, tr, evs, i, j, t, home, passed);
    ScanEnds(cfg.urls, cfg.options.lbInterval, Clock(tr, looks), home, Found(tr, looks, home, tr[j].states),
             Left(tr, looks, home, tr[j].states), |passed|);
  }

  // Round-robin: from the cursor of state i to look j it is one RoundRobinCall.
  lemma EveryRoundRobinCall(cfg: Config, tr: seq<State>, evs: seq<Event>, i: nat, j: nat, t: nat)
    returns (looks: seq<nat>, out: Selection)
    requires i < |tr| && IsScan(cfg, tr, evs, i, j, t, tr[i].cursor) && cfg.policy == RoundRobin
    ensures LooksOfScan(cfg, tr, evs, i, j, t, tr[i].cursor, looks)
    ensures IsCall(cfg, tr, j, t, tr[i].cursor, looks, out)
    ensures RoundRobinCall(cfg.urls, cfg.options.lbInterval, Clock(tr, looks),
                           Balancer(Found(tr, looks, tr[i].cursor, tr[j].states), tr[i].cursor),
                           Balancer(Left(tr, looks, tr[i].cursor, tr[j].states), tr[j + 1].cursor), out)
  {
    looks, out := CallScans(cfg, tr, evs, i, j, t, tr[i].cursor);
  }

  // Address hash: the scan of a request is one HashCall from the place its address hashed to.
  lemma EveryHashCall(cfg: Config, tr: seq<State>, evs: seq<Event>, i: nat, j: nat, t: nat, home: nat)
    returns (looks: seq<nat>, out: Selection)
    requires IsScan(cfg, tr, evs, i, j, t, home) && cfg.policy == IPHash
    ensures LooksOfScan(cfg, tr, evs, i, j, t, home, looks)
    ensures IsCall(cfg, tr, j, t, home, looks, out)
    ensures HashCall(cfg.urls, cfg.options.lbInterval, Clock(tr, looks), home,
                     Balancer(Found(tr, looks, home, tr[j].states), tr[j].cursor),
                     Balancer(Left(tr, looks, home, tr[j].states), tr[j + 1].cursor), out)
  {
    looks, out := CallScans(cfg, tr, evs, i, j, t, home);
  }
}
