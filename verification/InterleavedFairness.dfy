/** Fairness of round-robin when any number of requests take their steps in any order. */
module InterleavedFairness {
  import opened Wrappers
  import opened Backends
  import opened Interleavings
  import IP = InterleavingProofs
  import opened Fairness

  // Throughout the run the flagged backends are alive and the others cannot be selected.
  ghost predicate LiveSetFixed(cfg: Config, tr: seq<State>, alive: seq<bool>) {
    |alive| == |cfg.urls| && forall k | 0 <= k < |tr| :: LiveSet(cfg, tr[k], alive)
  }

  ghost predicate LiveSet(cfg: Config, s: State, alive: seq<bool>) {
    && |s.states| == |alive|
    && forall b | 0 <= b < |alive| ::
         if alive[b] then s.states[b].Alive? else !Selectable(s.states[b], cfg.options.lbInterval, s.clock)
  }

  function Picked(b: Option<nat>): seq<nat> {
    if b.Some? then [b.value] else []
  }

  // The backends handed out by the first m steps, to whichever request.
  ghost function HandOuts(cfg: Config, tr: seq<State>, evs: seq<Event>, m: nat): seq<nat>
    requires IP.Run(cfg, tr, evs) && m <= |evs|
  {
    if m == 0 then []
    else HandOuts(cfg, tr, evs, m - 1) + Picked(HandsOut(cfg, tr[m - 1], evs[m - 1]))
  }

  // A look moves the cursor by one and hands out what it stood on, if that is alive; nothing
  // else moves the cursor or hands out anything.
  lemma OneStep(cfg: Config, s: State, e: Event, alive: seq<bool>)
    requires Inv(cfg, s) && Enabled(cfg, s, e) && cfg.policy == RoundRobin && cfg.urls != []
    requires LiveSet(cfg, s, alive) && |alive| == |cfg.urls| && AliveFit(cfg.urls, alive)
    ensures if e.Step? && e.move == Look
            then Apply(cfg, s, e).cursor == At(s.cursor, 1, |cfg.urls|)
                 && HandsOut(cfg, s, e) == if alive[s.cursor] then Some(s.cursor) else None
            else Apply(cfg, s, e).cursor == s.cursor && HandsOut(cfg, s, e) == None
  {
  }

  // Each live backend has been handed out once per lap of the cursor, give or take the ends.
  lemma {:induction false} HandOutsFollowTheCursor(cfg: Config, tr: seq<State>, evs: seq<Event>, alive: seq<bool>, m: nat)
    returns (laps: int)
    requires IP.Run(cfg, tr, evs) && m <= |evs| && cfg.policy == RoundRobin && cfg.urls != []
    requires LiveSetFixed(cfg, tr, alive) && AliveFit(cfg.urls, alive)
    ensures PerLap(HandOuts(cfg, tr, evs, m), alive, laps, tr[m].cursor, tr[0].cursor)
    decreases m
  {
    if m == 0 {
      laps := 0;
    } else {
      laps := HandOutsFollowTheCursor(cfg, tr, evs, alive, m - 1);
      laps := OneMoreEvent(cfg, tr, evs, alive, m, HandOuts(cfg, tr, evs, m - 1), laps);
    }
  }

  lemma OneMoreLook(alive: seq<bool>, cursor: nat, start: nat, picks: seq<nat>, laps: int) returns (laps': int)
    requires cursor < |alive| && PerLap(picks, alive, laps, cursor, start)
    ensures PerLap(picks + if alive[cursor] then [cursor] else [], alive, laps', At(cursor, 1, |alive|), start)
  {
    laps' := if cursor + 1 < |alive| then laps else laps + 1;
    assert (picks + [cursor])[..|picks|] == picks && picks + [] == picks;
  }

  lemma OneMoreStep(cfg: Config, s: State, e: Event, alive: seq<bool>, start: nat, picks: seq<nat>, laps: int)
    returns (laps': int)
    requires Inv(cfg, s) && Enabled(cfg, s, e) && cfg.policy == RoundRobin && cfg.urls != []
    requires LiveSet(cfg, s, alive) && |alive| == |cfg.urls| && AliveFit(cfg.urls, alive)
    requires PerLap(picks, alive, laps, s.cursor, start)
    ensures PerLap(picks + Picked(HandsOut(cfg, s, e)), alive, laps', Apply(cfg, s, e).cursor, start)
  {
    OneStep(cfg, s, e, alive);
    assert picks + [] == picks;
    laps' := laps;
    if e.Step? && e.move == Look {
      laps' := OneMoreLook(alive, s.cursor, start, picks, laps);
    }
  }

  lemma OneMoreEvent(cfg: Config, tr: seq<State>, evs: seq<Event>, alive: seq<bool>, m: nat, picks: seq<nat>, laps: int)
    returns (laps': int)
    requires IP.Run(cfg, tr, evs) && 0 < m <= |evs| && cfg.policy == RoundRobin && cfg.urls != []
    requires LiveSetFixed(cfg, tr, alive) && AliveFit(cfg.urls, alive)
    requires PerLap(picks, alive, laps, tr[m - 1].cursor, tr[0].cursor)
    ensures PerLap(picks + Picked(HandsOut(cfg, tr[m - 1], evs[m - 1])), alive, laps', tr[m].cursor, tr[0].cursor)
  {
    assert IP.Follows(cfg, tr, evs, m - 1);
    assert LiveSet(cfg, tr[m - 1], alive);
    laps' := OneMoreStep(cfg, tr[m - 1], evs[m - 1], alive, tr[0].cursor, picks, laps);
  }

  // Over any part of any run, however the requests interleave, the hand-outs are fair.
  lemma InterleavedRoundRobinIsFair(cfg: Config, tr: seq<State>, evs: seq<Event>, alive: seq<bool>, m: nat)
    requires IP.Run(cfg, tr, evs) && cfg.policy == RoundRobin && cfg.urls != []
    requires LiveSetFixed(cfg, tr, alive) && AliveFit(cfg.urls, alive)
    ensures Fair(HandOuts(cfg, tr, evs, |evs|), alive, m)
  {
    var laps := HandOutsFollowTheCursor(cfg, tr, evs, alive, |evs|);
    PerLapIsFair(HandOuts(cfg, tr, evs, |evs|), alive, laps, tr[|evs|].cursor, tr[0].cursor, m);
  }
}
