/** Fairness of round-robin over any number of consecutive calls while the set of
    live backends does not change. */
module Fairness {
  import opened Numbers
  import opened Wrappers
  import opened Backends

  /* ---- runs of calls ---- */

  // Call i takes the balancer from lbs[i] to lbs[i + 1], reading clocks[i], and answers outs[i].
  ghost predicate Run(urls: seq<Url>, interval: u64, lbs: seq<Balancer>, clocks: seq<nat -> u64>, outs: seq<Selection>) {
    && |lbs| == |outs| + 1 == |clocks| + 1
    && (forall i | 0 <= i < |lbs| :: WellFormed(urls, lbs[i]))
    && (forall i | 0 <= i < |outs| :: RoundRobinCall(urls, interval, clocks[i], lbs[i], lbs[i + 1], outs[i]))
  }

  ghost predicate ReadsUpTo(clocks: seq<nat -> u64>, until: u64) {
    forall i, j: nat | 0 <= i < |clocks| :: clocks[i](j) <= until
  }

  // The flagged backends are alive; the others are dead and cannot be revived up to `until`.
  ghost predicate Steady(states: seq<AliveState>, alive: seq<bool>, interval: u64, until: u64) {
    && |alive| == |states|
    && forall i | 0 <= i < |states| ::
         if alive[i] then states[i].Alive?
         else states[i].Dead? && (states[i].retriesLeft == 0 || !Due(states[i].since, interval, until))
  }

  ghost predicate AliveFit(urls: seq<Url>, alive: seq<bool>) {
    forall i | 0 <= i < |alive| && i < |urls| && alive[i] :: FitsAddress(urls[i])
  }

  // The backends handed out, in order.
  function Picks(outs: seq<Selection>): (picks: seq<nat>) {
    if outs == [] then []
    else Picks(outs[..|outs| - 1]) + match outs[|outs| - 1] case Ok(live) => [live.index] case Err(_) => []
  }

  function Count(picks: seq<nat>, x: nat): nat {
    if picks == [] then 0
    else Count(picks[..|picks| - 1], x) + if picks[|picks| - 1] == x then 1 else 0
  }

  function NumAlive(alive: seq<bool>): nat {
    if alive == [] then 0
    else NumAlive(alive[..|alive| - 1]) + if alive[|alive| - 1] then 1 else 0
  }

  /* ---- one call ---- */

  // A scan changes nothing the assumption speaks about, and takes the first live backend.
  lemma SteadyScan(urls: seq<Url>, interval: u64, alive: seq<bool>, until: u64, clock: nat -> u64, home: nat,
                   before: seq<AliveState>, after: seq<AliveState>, out: Selection)
    requires home < |urls| == |before| && Scans(urls, interval, clock, home, before, after, out)
    requires Steady(before, alive, interval, until) && forall j: nat :: clock(j) <= until
    ensures Steady(after, alive, interval, until)
    ensures var n := |urls|;
            var k := FirstProbe(before, interval, clock, home);
            && (forall j | 0 <= j < k :: !alive[At(home, j, n)])
            && (k < n ==> alive[At(home, k, n)] && out == Address(urls, At(home, k, n)))
            && (k == n ==> out == Err(NoHealthyBackends))
  {
    var n := |urls|;
    forall i | 0 <= i < n
      ensures if alive[i] then after[i].Alive?
              else after[i].Dead? && (after[i].retriesLeft == 0 || !Due(after[i].since, interval, until))
    {
      assert i == At(home, Distance(home, i, n), n);
    }
  }

  // The answer concerns the first live backend at or after the cursor; nothing the
  // assumption speaks about changes.
  lemma SteadyCall(urls: seq<Url>, interval: u64, alive: seq<bool>, until: u64, clock: nat -> u64,
                   before: Balancer, after: Balancer, out: Selection)
    requires WellFormed(urls, before) && RoundRobinCall(urls, interval, clock, before, after, out)
    requires Steady(before.states, alive, interval, until) && (exists x :: 0 <= x < |alive| && alive[x])
    requires forall j: nat :: clock(j) <= until
    ensures Steady(after.states, alive, interval, until)
    ensures var n := |urls|;
            var k := FirstProbe(before.states, interval, clock, before.cursor);
            && k < n && alive[At(before.cursor, k, n)]
            && (forall j | 0 <= j < k :: !alive[At(before.cursor, j, n)])
            && out == Address(urls, At(before.cursor, k, n))
            && after.cursor == At(before.cursor, if out.Ok? then k + 1 else k, n)
  {
    var n := |urls|;
    var k := FirstProbe(before.states, interval, clock, before.cursor);
    var x :| 0 <= x < |alive| && alive[x];
    assert At(before.cursor, Distance(before.cursor, x, n), n) == x;
    SteadyScan(urls, interval, alive, until, clock, before.cursor, before.states, after.states, out);
  }

  /* ---- counting ---- */

  function Below(x: nat, cursor: nat): int {
    if x < cursor then 1 else 0
  }

  // Each live backend, and no other, has been picked once per lap of the cursor, give or take
  // the ends.
  ghost predicate PerLap(picks: seq<nat>, alive: seq<bool>, laps: int, cursor: nat, start: nat) {
    && (forall i | 0 <= i < |picks| :: picks[i] < |alive| && alive[picks[i]])
    && (forall x | 0 <= x < |alive| && alive[x] :: Count(picks, x) == laps + Below(x, cursor) - Below(x, start))
  }

  // That is what m calls do.
  lemma {:induction false} CountsFollowTheCursor(urls: seq<Url>, interval: u64, alive: seq<bool>, until: u64,
                                lbs: seq<Balancer>, clocks: seq<nat -> u64>, outs: seq<Selection>, m: nat)
    returns (laps: int)
    requires Run(urls, interval, lbs, clocks, outs) && ReadsUpTo(clocks, until) && m <= |outs|
    requires Steady(lbs[0].states, alive, interval, until) && (exists x :: 0 <= x < |alive| && alive[x])
    requires AliveFit(urls, alive)
    ensures Steady(lbs[m].states, alive, interval, until)
    ensures forall i | 0 <= i < m :: outs[i].Ok?
    ensures PerLap(Picks(outs[..m]), alive, laps, lbs[m].cursor, lbs[0].cursor)
    decreases m
  {
    if m == 0 {
      laps := 0;
    } else {
      laps := CountsFollowTheCursor(urls, interval, alive, until, lbs, clocks, outs, m - 1);
      assert RoundRobinCall(urls, interval, clocks[m - 1], lbs[m - 1], lbs[m - 1 + 1], outs[m - 1]);
      laps := OneMoreCall(urls, interval, alive, until, clocks[m - 1], lbs[m - 1], lbs[m], outs[m - 1],
                          lbs[0].cursor, Picks(outs[..m - 1]), laps);
      assert outs[..m][..m - 1] == outs[..m - 1];
    }
  }

  lemma OneMoreCall(urls: seq<Url>, interval: u64, alive: seq<bool>, until: u64, clock: nat -> u64,
                    before: Balancer, after: Balancer, out: Selection, start: nat, picks: seq<nat>, laps: int)
    returns (laps': int)
    requires WellFormed(urls, before) && RoundRobinCall(urls, interval, clock, before, after, out)
    requires Steady(before.states, alive, interval, until) && (exists x :: 0 <= x < |alive| && alive[x])
    requires AliveFit(urls, alive) && forall j: nat :: clock(j) <= until
    requires PerLap(picks, alive, laps, before.cursor, start)
    ensures Steady(after.states, alive, interval, until) && out.Ok?
    ensures PerLap(picks + [out.value.index], alive, laps', after.cursor, start)
  {
    SteadyCall(urls, interval, alive, until, clock, before, after, out);
    laps' := OneMorePick(alive, |urls|, before.cursor, FirstProbe(before.states, interval, clock, before.cursor),
                         start, picks, laps);
  }

  lemma OneMorePick(alive: seq<bool>, n: nat, cursor: nat, k: nat, start: nat, picks: seq<nat>, laps: int)
    returns (laps': int)
    requires cursor < n == |alive| && k < n
    requires alive[At(cursor, k, n)] && forall j | 0 <= j < k :: !alive[At(cursor, j, n)]
    requires PerLap(picks, alive, laps, cursor, start)
    ensures PerLap(picks + [At(cursor, k, n)], alive, laps', At(cursor, k + 1, n), start)
  {
    var b := At(cursor, k, n);
    laps' := if cursor + k + 1 < n then laps else laps + 1;
    assert (picks + [b])[..|picks|] == picks;
    forall x | 0 <= x < n && alive[x]
      ensures Count(picks + [b], x) == laps' + Below(x, At(cursor, k + 1, n)) - Below(x, start)
    {
      assert x == At(cursor, Distance(cursor, x, n), n);
      assert Distance(cursor, x, n) >= k;
    }
  }

  // The counts of the first n indices, added up.
  function Tally(picks: seq<nat>, n: nat): nat {
    if n == 0 then 0 else Tally(picks, n - 1) + Count(picks, n - 1)
  }

  lemma {:induction false} TallyExtend(picks: seq<nat>, b: nat, n: nat)
    ensures Tally(picks + [b], n) == Tally(picks, n) + if b < n then 1 else 0
  {
    if n > 0 {
      TallyExtend(picks, b, n - 1);
      assert (picks + [b])[..|picks|] == picks;
    }
  }

  lemma {:induction false} TallyOfNothing(n: nat)
    ensures Tally([], n) == 0
  {
    if n > 0 {
      TallyOfNothing(n - 1);
    }
  }

  lemma {:induction false} TallyIsLength(picks: seq<nat>, n: nat)
    requires forall i | 0 <= i < |picks| :: picks[i] < n
    ensures Tally(picks, n) == |picks|
  {
    if picks == [] {
      TallyOfNothing(n);
    } else {
      var m := |picks| - 1;
      assert picks == picks[..m] + [picks[m]];
      TallyIsLength(picks[..m], n);
      TallyExtend(picks[..m], picks[m], n);
    }
  }

  lemma {:induction false} OnlyPicksCount(picks: seq<nat>, x: nat)
    requires forall i | 0 <= i < |picks| :: picks[i] != x
    ensures Count(picks, x) == 0
  {
    if picks != [] {
      OnlyPicksCount(picks[..|picks| - 1], x);
    }
  }

  // With every live count at most hi and every other count zero, the tally is at most hi
  // times the number of live backends, and less if one live count is less.
  lemma {:induction false} TallyAtMost(picks: seq<nat>, alive: seq<bool>, n: nat, hi: nat, x: nat)
    requires n <= |alive|
    requires forall i | 0 <= i < n :: Count(picks, i) <= if alive[i] then hi else 0
    ensures Tally(picks, n) <= hi * NumAlive(alive[..n])
    ensures x < n && alive[x] && Count(picks, x) < hi ==> Tally(picks, n) < hi * NumAlive(alive[..n])
  {
    if n > 0 {
      TallyAtMost(picks, alive, n - 1, hi, x);
      CountOneMore(alive, n, hi);
    }
  }

  lemma {:induction false} TallyAtLeast(picks: seq<nat>, alive: seq<bool>, n: nat, lo: nat, x: nat)
    requires n <= |alive|
    requires forall i | 0 <= i < n && alive[i] :: lo <= Count(picks, i)
    ensures lo * NumAlive(alive[..n]) <= Tally(picks, n)
    ensures x < n && alive[x] && lo < Count(picks, x) ==> lo * NumAlive(alive[..n]) < Tally(picks, n)
  {
    if n > 0 {
      TallyAtLeast(picks, alive, n - 1, lo, x);
      CountOneMore(alive, n, lo);
    }
  }

  lemma CountOneMore(alive: seq<bool>, n: nat, times: nat)
    requires 0 < n <= |alive|
    ensures times * NumAlive(alive[..n]) == times * NumAlive(alive[..n - 1]) + if alive[n - 1] then times else 0
  {
    assert alive[..n][..n - 1] == alive[..n - 1];
    var c := NumAlive(alive[..n - 1]);
    assert times * (c + 1) == times * c + times;
  }

  // Counts of live backends that differ by at most one and add up to m per live backend are all m.
  lemma EqualShares(picks: seq<nat>, alive: seq<bool>, m: nat)
    requires forall i | 0 <= i < |picks| :: picks[i] < |alive| && alive[picks[i]]
    requires forall x, y | 0 <= x < |alive| && 0 <= y < |alive| && alive[x] && alive[y] :: Count(picks, x) <= Count(picks, y) + 1
    requires |picks| == m * NumAlive(alive)
    ensures forall x | 0 <= x < |alive| && alive[x] :: Count(picks, x) == m
  {
    TallyIsLength(picks, |alive|);
    assert alive[..|alive|] == alive;
    forall x | 0 <= x < |alive| && !alive[x] ensures Count(picks, x) == 0 {
      OnlyPicksCount(picks, x);
    }
    forall x | 0 <= x < |alive| && alive[x] ensures Count(picks, x) == m {
      if Count(picks, x) < m {
        TallyAtMost(picks, alive, |alive|, m, x);
      } else if Count(picks, x) > m {
        TallyAtLeast(picks, alive, |alive|, m, x);
      }
    }
  }

  /* ---- the results ---- */

  // Only live backends, two of them equally often up to one, and m times as many picks as live
  // backends are exactly m of each.
  ghost predicate Fair(picks: seq<nat>, alive: seq<bool>, m: nat) {
    && (forall i | 0 <= i < |picks| :: picks[i] < |alive| && alive[picks[i]])
    && (forall x, y | 0 <= x < |alive| && 0 <= y < |alive| && alive[x] && alive[y] ::
          Count(picks, x) <= Count(picks, y) + 1)
    && (|picks| == m * NumAlive(alive) ==> forall x | 0 <= x < |alive| && alive[x] :: Count(picks, x) == m)
  }

  lemma {:induction false} EachCallPicks(outs: seq<Selection>)
    requires forall i | 0 <= i < |outs| :: outs[i].Ok?
    ensures |Picks(outs)| == |outs|
  {
    if outs != [] {
      EachCallPicks(outs[..|outs| - 1]);
    }
  }

  lemma PerLapIsFair(picks: seq<nat>, alive: seq<bool>, laps: int, cursor: nat, start: nat, m: nat)
    requires PerLap(picks, alive, laps, cursor, start)
    ensures Fair(picks, alive, m)
  {
    if |picks| == m * NumAlive(alive) {
      EqualShares(picks, alive, m);
    }
  }

  // Over any number of consecutive calls every call hands out a backend, and fairly so.
  lemma RoundRobinIsFair(urls: seq<Url>, interval: u64, alive: seq<bool>, until: u64,
                         lbs: seq<Balancer>, clocks: seq<nat -> u64>, outs: seq<Selection>, m: nat)
    requires Run(urls, interval, lbs, clocks, outs) && ReadsUpTo(clocks, until)
    requires Steady(lbs[0].states, alive, interval, until) && (exists x :: 0 <= x < |alive| && alive[x])
    requires AliveFit(urls, alive)
    ensures forall i | 0 <= i < |outs| :: outs[i].Ok?
    ensures |Picks(outs)| == |outs| && Fair(Picks(outs), alive, m)
  {
    var laps := CountsFollowTheCursor(urls, interval, alive, until, lbs, clocks, outs, |outs|);
    assert outs[..|outs|] == outs;
    EachCallPicks(outs);
    PerLapIsFair(Picks(outs), alive, laps, lbs[|outs|].cursor, lbs[0].cursor, m);
  }

  // A live backend whose address does not fit stops the rotation: the cursor rests on it
  // and every later call fails.
  lemma {:induction false} OversizedAddressStopsRotation(urls: seq<Url>, interval: u64,
                                        lbs: seq<Balancer>, clocks: seq<nat -> u64>, outs: seq<Selection>)
    requires Run(urls, interval, lbs, clocks, outs) && |urls| > 0
    requires lbs[0].states[lbs[0].cursor].Alive? && !FitsAddress(urls[lbs[0].cursor])
    ensures forall i | 0 <= i < |outs| :: outs[i] == Err(HeaplessError) && lbs[i + 1] == lbs[0]
    decreases |outs|
  {
    if outs != [] {
      var n, lb := |urls|, lbs[0];
      assert At(lb.cursor, 0, n) == lb.cursor;
      assert FirstProbe(lb.states, interval, clocks[0], lb.cursor) == 0;
      forall i | 0 <= i < n ensures lbs[1].states[i] == lb.states[i] {
        assert i == At(lb.cursor, Distance(lb.cursor, i, n), n);
      }
      assert lbs[1].states == lb.states;
      OversizedAddressStopsRotation(urls, interval, lbs[1..], clocks[1..], outs[1..]);
      forall i | 0 <= i < |outs| ensures outs[i] == Err(HeaplessError) && lbs[i + 1] == lb {
        if i > 0 {
          assert outs[i] == outs[1..][i - 1] && lbs[i + 1] == lbs[1..][i];
        }
      }
    }
  }

  // Without an oversized address no call fails; with one, some call among the first n does.
  lemma RotationServesIffAddressesFit(urls: seq<Url>, interval: u64, alive: seq<bool>, until: u64,
                                      lbs: seq<Balancer>, clocks: seq<nat -> u64>, outs: seq<Selection>)
    requires Run(urls, interval, lbs, clocks, outs) && ReadsUpTo(clocks, until)
    requires Steady(lbs[0].states, alive, interval, until) && (exists x :: 0 <= x < |alive| && alive[x])
    requires |outs| >= |urls|
    ensures (forall i | 0 <= i < |outs| :: outs[i].Ok?) <==> AliveFit(urls, alive)
  {
    if AliveFit(urls, alive) {
      var _ := CountsFollowTheCursor(urls, interval, alive, until, lbs, clocks, outs, |outs|);
    } else if forall i | 0 <= i < |outs| :: outs[i].Ok? {
      var x :| 0 <= x < |alive| && alive[x] && !FitsAddress(urls[x]);
      CursorApproaches(urls, interval, alive, until, lbs, clocks, outs, x);
    }
  }

  lemma {:induction false} CursorApproaches(urls: seq<Url>, interval: u64, alive: seq<bool>, until: u64,
                           lbs: seq<Balancer>, clocks: seq<nat -> u64>, outs: seq<Selection>, x: nat)
    requires Run(urls, interval, lbs, clocks, outs) && ReadsUpTo(clocks, until)
    requires Steady(lbs[0].states, alive, interval, until) && x < |alive| && alive[x] && !FitsAddress(urls[x])
    requires forall i | 0 <= i < |outs| :: outs[i].Ok?
    ensures |outs| <= Distance(lbs[0].cursor, x, |urls|)
    decreases |outs|
  {
    if outs != [] {
      var n, c := |urls|, lbs[0].cursor;
      SteadyCall(urls, interval, alive, until, clocks[0], lbs[0], lbs[1], outs[0]);
      CursorApproaches(urls, interval, alive, until, lbs[1..], clocks[1..], outs[1..], x);
      assert x == At(c, Distance(c, x, n), n);
      assert Distance(c, x, n) > FirstProbe(lbs[0].states, interval, clocks[0], c);
    }
  }
}
