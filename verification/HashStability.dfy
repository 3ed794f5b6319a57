/** How stable the mapping from addresses to backends is under the address-hash policy. */
module HashStability {
  import opened Numbers
  import opened Wrappers
  import opened Backends
  import opened Fairness

  // The backend reached by linear probing from `home` over the selectable ones.
  function Choice(selectable: seq<bool>, home: nat): (choice: Option<nat>)
    requires home < |selectable|
    ensures choice.Some? ==> choice.value < |selectable| && selectable[choice.value]
    ensures choice.Some? ==> forall j | 0 <= j < Distance(home, choice.value, |selectable|) :: !selectable[At(home, j, |selectable|)]
    ensures choice.None? ==> forall j | 0 <= j < |selectable| :: !selectable[At(home, j, |selectable|)]
  {
    ChoiceFrom(selectable, home, 0)
  }

  function ChoiceFrom(selectable: seq<bool>, home: nat, from: nat): (choice: Option<nat>)
    requires home < |selectable| && from <= |selectable|
    requires forall j | 0 <= j < from :: !selectable[At(home, j, |selectable|)]
    ensures choice.Some? ==> choice.value < |selectable| && selectable[choice.value]
    ensures choice.Some? ==> forall j | 0 <= j < Distance(home, choice.value, |selectable|) :: !selectable[At(home, j, |selectable|)]
    ensures choice.None? ==> forall j | 0 <= j < |selectable| :: !selectable[At(home, j, |selectable|)]
    decreases |selectable| - from
  {
    var n := |selectable|;
    if from == n then None
    else if selectable[At(home, from, n)] then Some(At(home, from, n))
    else ChoiceFrom(selectable, home, from + 1)
  }

  // Probing has one result: the selectable backend before which none is selectable.
  lemma ChoiceIs(selectable: seq<bool>, home: nat, i: nat)
    requires home < |selectable| && i < |selectable| && selectable[i]
    requires forall j | 0 <= j < Distance(home, i, |selectable|) :: !selectable[At(home, j, |selectable|)]
    ensures Choice(selectable, home) == Some(i)
  {
    var n, c := |selectable|, Choice(selectable, home);
    assert i == At(home, Distance(home, i, n), n) && c.value == At(home, Distance(home, c.value, n), n);
  }

  lemma NoneSelectable(selectable: seq<bool>, home: nat)
    requires home < |selectable| && Choice(selectable, home).None?
    ensures forall i | 0 <= i < |selectable| :: !selectable[i]
  {
    forall i | 0 <= i < |selectable| ensures !selectable[i] {
      assert i == At(home, Distance(home, i, |selectable|), |selectable|);
    }
  }

  // Losing backend b moves exactly the addresses that were mapped to b, and these go where
  // an address whose place is right behind b goes.
  lemma LosingABackendMovesOnlyItsAddresses(selectable: seq<bool>, b: nat, home: nat)
    requires home < |selectable| && b < |selectable| && selectable[b]
    ensures var without := selectable[b := false];
            && (Choice(selectable, home) != Some(b) ==> Choice(without, home) == Choice(selectable, home))
            && (Choice(selectable, home) == Some(b) ==> Choice(without, home) == Choice(without, At(b, 1, |selectable|)))
  {
    assert b == At(home, Distance(home, b, |selectable|), |selectable|);
    var n, without, c := |selectable|, selectable[b := false], Choice(selectable, home).value;
    if c != b {
      ChoiceIs(without, home, c);
    } else {
      var next := At(b, 1, n);
      var d := Choice(without, next);
      if d.Some? {
        forall j | 0 <= j < Distance(home, d.value, n) ensures !without[At(home, j, n)] {
          var i := At(home, j, n);
          assert i == At(next, Distance(next, i, n), n);
        }
        ChoiceIs(without, home, d.value);
      } else {
        NoneSelectable(without, next);
      }
    }
  }

  // Gaining backend b moves addresses only to b.
  lemma GainingABackendMovesOnlyToIt(selectable: seq<bool>, b: nat, home: nat)
    requires home < |selectable| && b < |selectable| && !selectable[b]
    ensures var with := selectable[b := true];
            Choice(with, home) == Some(b) || Choice(with, home) == Choice(selectable, home)
  {
  }

  /* ---- over runs of calls ---- */

  // Call i comes from an address whose hash chose homes[i].
  ghost predicate HashRun(urls: seq<Url>, interval: u64, lbs: seq<Balancer>, homes: seq<nat>,
                          clocks: seq<nat -> u64>, outs: seq<Selection>) {
    && |lbs| == |outs| + 1 == |clocks| + 1 == |homes| + 1
    && (forall i | 0 <= i < |lbs| :: WellFormed(urls, lbs[i]))
    && (forall i | 0 <= i < |homes| :: homes[i] < |urls|)
    && (forall i | 0 <= i < |outs| :: HashCall(urls, interval, clocks[i], homes[i], lbs[i], lbs[i + 1], outs[i]))
  }

  function Answer(urls: seq<Url>, choice: Option<nat>): Selection
    requires choice.Some? ==> choice.value < |urls|
  {
    if choice.None? then Err(NoHealthyBackends) else Address(urls, choice.value)
  }

  // Without marks, each call answers by probing the same flags, so the same address gets
  // the same backend every time.
  lemma {:induction false} SameAddressSameBackend(urls: seq<Url>, interval: u64, alive: seq<bool>, until: u64,
                                 lbs: seq<Balancer>, homes: seq<nat>, clocks: seq<nat -> u64>, outs: seq<Selection>, m: nat)
    requires HashRun(urls, interval, lbs, homes, clocks, outs) && ReadsUpTo(clocks, until) && m <= |outs|
    requires Steady(lbs[0].states, alive, interval, until) && |alive| == |urls|
    ensures Steady(lbs[m].states, alive, interval, until)
    ensures forall i | 0 <= i < m :: outs[i] == Answer(urls, Choice(alive, homes[i]))
  {
    if m > 0 {
      SameAddressSameBackend(urls, interval, alive, until, lbs, homes, clocks, outs, m - 1);
      var home, lb, n := homes[m - 1], lbs[m - 1], |urls|;
      assert HashCall(urls, interval, clocks[m - 1], home, lb, lbs[m - 1 + 1], outs[m - 1]);
      SteadyScan(urls, interval, alive, until, clocks[m - 1], home, lb.states, lbs[m].states, outs[m - 1]);
      var k := FirstProbe(lb.states, interval, clocks[m - 1], home);
      if k < n {
        ChoiceIs(alive, home, At(home, k, n));
      } else {
        assert forall i | 0 <= i < n :: i == At(home, Distance(home, i, n), n);
      }
    }
  }

  // Mark b dead, serve any calls while it is not due, mark it alive: every address maps to
  // the backend it was mapped to before, for calls up to the end of the period.
  lemma RevivalRestoresTheMap(urls: seq<Url>, interval: u64, alive: seq<bool>, until: u64, before: Balancer, b: nat,
                              since: u64, retries: u64, stamp: u64,
                              lbs: seq<Balancer>, homes: seq<nat>, clocks: seq<nat -> u64>, outs: seq<Selection>,
                              lbs': seq<Balancer>, clocks': seq<nat -> u64>, outs': seq<Selection>)
    requires WellFormed(urls, before) && b < |urls| && |alive| == |urls| && alive[b]
    requires Steady(before.states, alive, interval, until) && !Due(since, interval, until)
    requires HashRun(urls, interval, lbs, homes, clocks, outs) && ReadsUpTo(clocks, until)
    requires lbs[0] == before.(states := before.states[b := Dead(since, retries)])
    requires HashRun(urls, interval, lbs', homes, clocks', outs') && ReadsUpTo(clocks', until)
    requires lbs'[0] == lbs[|outs|].(states := lbs[|outs|].states[b := Alive(stamp)])
    ensures forall i | 0 <= i < |outs| :: outs[i] == Answer(urls, Choice(alive[b := false], homes[i]))
    ensures forall i | 0 <= i < |outs| :: outs'[i] == Answer(urls, Choice(alive, homes[i]))
    ensures forall i | 0 <= i < |outs| && outs'[i] != Address(urls, b) :: outs[i] == outs'[i]
  {
    SameAddressSameBackend(urls, interval, alive[b := false], until, lbs, homes, clocks, outs, |outs|);
    SameAddressSameBackend(urls, interval, alive, until, lbs', homes, clocks', outs', |outs|);
    forall i | 0 <= i < |outs| && outs'[i] != Address(urls, b) ensures outs[i] == outs'[i] {
      LosingABackendMovesOnlyItsAddresses(alive, b, homes[i]);
    }
  }
}
