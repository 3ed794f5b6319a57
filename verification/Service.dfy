/** Whether a request can be served is decided by its own attempts, not by the balancer's. */
module Service {
  import opened Numbers
  import opened Wrappers
  import opened Backends
  import opened Interleavings
  import opened InterleavingProofs

  // At the end of the run some request with so many attempts is being served.
  ghost predicate Serves(cfg: Config, tr: seq<State>, evs: seq<Event>, attempts: u64) {
    && Run(cfg, tr, evs) && Init(cfg, tr[0])
    && exists t :: 0 <= t < |tr[|evs|].tasks| && tr[|evs|].tasks[t].attempts == attempts && tr[|evs|].tasks[t].pc.Serving?
  }

  function Fresh(n: nat): State {
    State(0, seq(n, _ => Alive(0)), 0, None, seq(n, _ => None), [])
  }

  // The only request, somewhere in its first round.
  function One(n: nat, h: nat, cursor: nat, cursorOwner: Option<nat>, owner: Option<nat>, attempts: u64, pc: Pc): State
    requires h < n
  {
    State(0, seq(n, _ => Alive(0)), cursor, cursorOwner, seq(n, _ => None)[h := owner], [Task(h, attempts, pc)])
  }

  // Where the request comes to: the cursor starts at 0, a hash may be anything.
  predicate Place(cfg: Config, h: nat) {
    h < |cfg.urls| && (cfg.policy == RoundRobin ==> h == 0)
  }

  ghost predicate Moves(cfg: Config, s: State, e: Event, s': State) {
    Inv(cfg, s) && Inv(cfg, s') && Enabled(cfg, s, e) && Apply(cfg, s, e) == s'
  }

  lemma ArrivalMoves(cfg: Config, h: nat, attempts: u64)
    requires Place(cfg, h)
    ensures Moves(cfg, Fresh(|cfg.urls|), Arrive(h, attempts), One(|cfg.urls|, h, 0, None, None, attempts, Begin(cfg, h)))
    ensures Init(cfg, Fresh(|cfg.urls|))
  {
  }

  lemma CursorMoves(cfg: Config, h: nat, attempts: u64)
    requires Place(cfg, h) && cfg.policy == RoundRobin
    ensures Moves(cfg, One(|cfg.urls|, h, 0, None, None, attempts, WantCursor), Step(0, TakeCursor),
                  One(|cfg.urls|, h, 0, Some(0), None, attempts, Scanning(0, h)))
  {
  }

  function Holder(cfg: Config): Option<nat> {
    if cfg.policy == RoundRobin then Some(0) else None
  }

  lemma LockMoves(cfg: Config, h: nat, attempts: u64)
    requires Place(cfg, h)
    ensures Moves(cfg, One(|cfg.urls|, h, 0, Holder(cfg), None, attempts, Scanning(0, h)), Step(0, LockBackend),
                  One(|cfg.urls|, h, 0, Holder(cfg), Some(0), attempts, Looking(0, h)))
  {
  }

  function CursorAfter(cfg: Config): nat
    requires cfg.urls != []
  {
    if cfg.policy == RoundRobin then Next(cfg, 0) else 0
  }

  lemma LookMoves(cfg: Config, h: nat, attempts: u64)
    requires Place(cfg, h) && FitsAddress(cfg.urls[h])
    ensures Moves(cfg, One(|cfg.urls|, h, 0, Holder(cfg), Some(0), attempts, Looking(0, h)), Step(0, Look),
                  One(|cfg.urls|, h, CursorAfter(cfg), None, None, attempts, Connecting(h, attempts)))
  {
    var s, s' := One(|cfg.urls|, h, 0, Holder(cfg), Some(0), attempts, Looking(0, h)),
                 One(|cfg.urls|, h, CursorAfter(cfg), None, None, attempts, Connecting(h, attempts));
    assert s.states[h := Alive(0)] == s.states && s.owners[h := None] == s'.owners;
  }

  lemma ConnectMoves(cfg: Config, h: nat, attempts: u64)
    requires Place(cfg, h) && attempts > 0
    ensures Moves(cfg, One(|cfg.urls|, h, CursorAfter(cfg), None, None, attempts, Connecting(h, attempts)), Step(0, ConnectOk),
                  One(|cfg.urls|, h, CursorAfter(cfg), None, None, attempts, WantMark(h, Alive(0))))
  {
  }

  lemma LockMarkMoves(cfg: Config, h: nat, attempts: u64)
    requires Place(cfg, h)
    ensures Moves(cfg, One(|cfg.urls|, h, CursorAfter(cfg), None, None, attempts, WantMark(h, Alive(0))), Step(0, LockMark),
                  One(|cfg.urls|, h, CursorAfter(cfg), None, Some(0), attempts, Marking(h, Alive(0))))
  {
  }

  lemma WriteMoves(cfg: Config, h: nat, attempts: u64)
    requires Place(cfg, h)
    ensures Moves(cfg, One(|cfg.urls|, h, CursorAfter(cfg), None, Some(0), attempts, Marking(h, Alive(0))), Step(0, Write),
                  One(|cfg.urls|, h, CursorAfter(cfg), None, None, attempts, Serving(h)))
  {
    var s, s' := One(|cfg.urls|, h, CursorAfter(cfg), None, Some(0), attempts, Marking(h, Alive(0))),
                 One(|cfg.urls|, h, CursorAfter(cfg), None, None, attempts, Serving(h));
    assert s.states[h := Alive(0)] == s.states && s.owners[h := None] == s'.owners;
  }

  ghost predicate MovesAlong(cfg: Config, tr: seq<State>, evs: seq<Event>) {
    |tr| == |evs| + 1 && forall k | 0 <= k < |evs| :: Moves(cfg, tr[k], evs[k], tr[k + 1])
  }

  lemma MovesMakeARun(cfg: Config, tr: seq<State>, evs: seq<Event>)
    requires MovesAlong(cfg, tr, evs) && evs != []
    ensures Run(cfg, tr, evs)
  {
    forall k | 0 <= k < |tr| ensures Inv(cfg, tr[k]) {
      assert k < |evs| ==> Moves(cfg, tr[k], evs[k], tr[k + 1]);
      assert k > 0 ==> Moves(cfg, tr[k - 1], evs[k - 1], tr[k - 1 + 1]);
    }
    forall k | 0 <= k < |evs| ensures Enabled(cfg, tr[k], evs[k]) && Follows(cfg, tr, evs, k) {
      assert Moves(cfg, tr[k], evs[k], tr[k + 1]);
    }
  }

  // The stages of the request; without a cursor to take it goes from the first to the third.
  function Stage(cfg: Config, h: nat, attempts: u64, k: nat): State
    requires Place(cfg, h)
  {
    var n, cursor := |cfg.urls|, CursorAfter(cfg);
    if k == 0 then Fresh(n)
    else if k == 1 then One(n, h, 0, None, None, attempts, WantCursor)
    else if k == 2 then One(n, h, 0, Holder(cfg), None, attempts, Scanning(0, h))
    else if k == 3 then One(n, h, 0, Holder(cfg), Some(0), attempts, Looking(0, h))
    else if k == 4 then One(n, h, cursor, None, None, attempts, Connecting(h, attempts))
    else if k == 5 then One(n, h, cursor, None, None, attempts, WantMark(h, Alive(0)))
    else if k == 6 then One(n, h, cursor, None, Some(0), attempts, Marking(h, Alive(0)))
    else One(n, h, cursor, None, None, attempts, Serving(h))
  }

  function StageEvent(h: nat, attempts: u64, k: nat): Event {
    if k == 0 then Arrive(h, attempts)
    else if k == 1 then Step(0, TakeCursor)
    else if k == 2 then Step(0, LockBackend)
    else if k == 3 then Step(0, Look)
    else if k == 4 then Step(0, ConnectOk)
    else if k == 5 then Step(0, LockMark)
    else Step(0, Write)
  }

  lemma StageMoves(cfg: Config, h: nat, attempts: u64, k: nat)
    requires Place(cfg, h) && FitsAddress(cfg.urls[h]) && attempts > 0 && k < 7
    requires cfg.policy == RoundRobin || k >= 2
    ensures Moves(cfg, Stage(cfg, h, attempts, k), StageEvent(h, attempts, k), Stage(cfg, h, attempts, k + 1))
  {
    if k == 0 {
      ArrivalMoves(cfg, h, attempts);
    } else if k == 1 {
      CursorMoves(cfg, h, attempts);
    } else if k == 2 {
      LockMoves(cfg, h, attempts);
    } else if k == 3 {
      LookMoves(cfg, h, attempts);
    } else if k == 4 {
      ConnectMoves(cfg, h, attempts);
    } else if k == 5 {
      LockMarkMoves(cfg, h, attempts);
    } else {
      WriteMoves(cfg, h, attempts);
    }
  }

  lemma AttemptsServe(cfg: Config, h: nat, attempts: u64) returns (tr: seq<State>, evs: seq<Event>)
    requires Place(cfg, h) && FitsAddress(cfg.urls[h]) && attempts > 0
    ensures Serves(cfg, tr, evs, attempts)
  {
    ArrivalMoves(cfg, h, attempts);
    var skip := if cfg.policy == RoundRobin then 0 else 1;
    tr := [Stage(cfg, h, attempts, 0)] + seq(7 - skip, k requires 0 <= k => Stage(cfg, h, attempts, k + 1 + skip));
    evs := [StageEvent(h, attempts, 0)] + seq(6 - skip, k requires 0 <= k => StageEvent(h, attempts, k + 1 + skip));
    forall k | 0 <= k < |evs| ensures Moves(cfg, tr[k], evs[k], tr[k + 1]) {
      assert tr[k + 1] == Stage(cfg, h, attempts, k + 1 + skip);
      if k > 0 {
        assert tr[k] == Stage(cfg, h, attempts, k + skip) && evs[k] == StageEvent(h, attempts, k + skip);
        StageMoves(cfg, h, attempts, k + skip);
      } else {
        assert tr[1] == One(|cfg.urls|, h, 0, None, None, attempts, Begin(cfg, h));
      }
    }
    MovesMakeARun(cfg, tr, evs);
    assert tr[|evs|] == Stage(cfg, h, attempts, 7);
    assert tr[|evs|].tasks[0].pc.Serving?;
  }

  /* ---- balancers that serve nobody ---- */

  // Some backend can be handed out: the one the cursor starts on, or any that an address may
  // hash to.
  predicate CanHandOut(cfg: Config) {
    exists h: nat | h < |cfg.urls| :: Place(cfg, h) && FitsAddress(cfg.urls[h])
  }

  predicate NotThrough(pc: Pc) {
    pc.WantCursor? || pc.Scanning? || pc.Looking? || pc.Finished?
  }

  // Nobody has got past an address that does not fit.
  ghost predicate Blocked(cfg: Config, s: State) {
    && (forall t | 0 <= t < |s.tasks| :: NotThrough(s.tasks[t].pc))
    && (cfg.policy == RoundRobin && cfg.urls != [] ==> s.cursor == 0 && 0 < |s.states| && s.states[0].Alive?)
  }

  lemma StepStaysBlocked(cfg: Config, s: State, e: Event)
    requires Inv(cfg, s) && Enabled(cfg, s, e) && Blocked(cfg, s) && !CanHandOut(cfg)
    ensures Blocked(cfg, Apply(cfg, s, e))
  {
    if cfg.policy == RoundRobin && cfg.urls != [] {
      assert !FitsAddress(cfg.urls[0]) by {
        assert Place(cfg, 0);
      }
    } else {
      assert forall h: nat | h < |cfg.urls| :: Place(cfg, h) && !FitsAddress(cfg.urls[h]);
    }
  }

  lemma {:induction false} StaysBlocked(cfg: Config, tr: seq<State>, evs: seq<Event>, k: nat)
    requires Run(cfg, tr, evs) && Init(cfg, tr[0]) && k < |tr| && !CanHandOut(cfg)
    ensures Blocked(cfg, tr[k])
  {
    if k > 0 {
      StaysBlocked(cfg, tr, evs, k - 1);
      assert Follows(cfg, tr, evs, k - 1);
      StepStaysBlocked(cfg, tr[k - 1], evs[k - 1]);
    }
  }

  // For every balancer, whatever its own lb_retries: a request is served in some run iff the
  // directive that triggered it allows attempts, and the first address fits (round-robin) or
  // some address fits (address hash).
  lemma ServedIffItMakesAttempts(cfg: Config, attempts: u64)
    ensures (exists tr, evs :: Serves(cfg, tr, evs, attempts)) <==> attempts > 0 && CanHandOut(cfg)
  {
    if attempts > 0 && CanHandOut(cfg) {
      var h: nat :| h < |cfg.urls| && Place(cfg, h) && FitsAddress(cfg.urls[h]);
      var tr, evs := AttemptsServe(cfg, h, attempts);
    } else if tr, evs :| Serves(cfg, tr, evs, attempts) {
      NoAttemptsNoService(cfg, tr, evs, |evs|);
      if !CanHandOut(cfg) {
        StaysBlocked(cfg, tr, evs, |evs|);
      }
    }
  }
}
