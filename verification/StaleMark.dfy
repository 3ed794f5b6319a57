/** Why the quarantine needs later marks not to be older: a run in which they are. Two
    requests are handed the only backend at 100. The first gives up at 100, reads the clock
    and waits for the lock; the second gives up at 150 and stores its mark; then the first
    stores its own, older one. */
module StaleMark {
  import opened Numbers
  import opened Wrappers
  import opened Backends
  import opened Interleavings
  import opened InterleavingProofs

  const CROSSING := Config([[]], RoundRobin, ReverseProxyOptions(1, 60, 1, Some(RoundRobin)))

  function Solo(clock: u64, st: AliveState, cursorOwner: Option<nat>, owner: Option<nat>, tasks: seq<Task>): State {
    State(clock, [st], 0, cursorOwner, [owner], tasks)
  }

  function CrossingState(k: nat): State {
    if k == 0 then Solo(100, Alive(100), None, None, [])
    else if k == 1 then Solo(100, Alive(100), None, None, [Task(0, 1, WantCursor)])
    else if k == 2 then Solo(100, Alive(100), Some(0), None, [Task(0, 1, Scanning(0, 0))])
    else if k == 3 then Solo(100, Alive(100), Some(0), Some(0), [Task(0, 1, Looking(0, 0))])
    else if k == 4 then Solo(100, Alive(100), None, None, [Task(0, 1, Connecting(0, 1))])
    else if k == 5 then Solo(100, Alive(100), None, None, [Task(0, 1, Connecting(0, 1)), Task(0, 1, WantCursor)])
    else if k == 6 then Solo(100, Alive(100), Some(1), None, [Task(0, 1, Connecting(0, 1)), Task(0, 1, Scanning(0, 0))])
    else if k == 7 then Solo(100, Alive(100), Some(1), Some(1), [Task(0, 1, Connecting(0, 1)), Task(0, 1, Looking(0, 0))])
    else if k == 8 then Solo(100, Alive(100), None, None, [Task(0, 1, Connecting(0, 1)), Task(0, 1, Connecting(0, 1))])
    else if k == 9 then Solo(100, Alive(100), None, None, [Task(0, 1, Connecting(0, 0)), Task(0, 1, Connecting(0, 1))])
    else if k == 10 then Solo(100, Alive(100), None, None, [Task(0, 1, WantMark(0, Dead(100, 1))), Task(0, 1, Connecting(0, 1))])
    else if k == 11 then Solo(150, Alive(100), None, None, [Task(0, 1, WantMark(0, Dead(100, 1))), Task(0, 1, Connecting(0, 1))])
    else if k == 12 then Solo(150, Alive(100), None, None, [Task(0, 1, WantMark(0, Dead(100, 1))), Task(0, 1, Connecting(0, 0))])
    else if k == 13 then Solo(150, Alive(100), None, None, [Task(0, 1, WantMark(0, Dead(100, 1))), Task(0, 1, WantMark(0, Dead(150, 1)))])
    else if k == 14 then Solo(150, Alive(100), None, Some(1), [Task(0, 1, WantMark(0, Dead(100, 1))), Task(0, 1, Marking(0, Dead(150, 1)))])
    else if k == 15 then Solo(150, Dead(150, 1), None, None, [Task(0, 1, WantMark(0, Dead(100, 1))), Task(0, 1, WantCursor)])
    else if k == 16 then Solo(150, Dead(150, 1), None, Some(0), [Task(0, 1, Marking(0, Dead(100, 1))), Task(0, 1, WantCursor)])
    else if k == 17 then Solo(150, Dead(100, 1), None, None, [Task(0, 1, WantCursor), Task(0, 1, WantCursor)])
    else if k == 18 then Solo(161, Dead(100, 1), None, None, [Task(0, 1, WantCursor), Task(0, 1, WantCursor)])
    else if k == 19 then Solo(161, Dead(100, 1), Some(1), None, [Task(0, 1, WantCursor), Task(0, 1, Scanning(0, 0))])
    else if k == 20 then Solo(161, Dead(100, 1), Some(1), Some(1), [Task(0, 1, WantCursor), Task(0, 1, Looking(0, 0))])
    else Solo(161, Alive(161), None, None, [Task(0, 1, WantCursor), Task(0, 1, Connecting(0, 1))])
  }

  function CrossingEvent(k: nat): Event {
    if k == 0 then Arrive(0, 1)
    else if k == 1 then Step(0, TakeCursor)
    else if k == 2 then Step(0, LockBackend)
    else if k == 3 then Step(0, Look)
    else if k == 4 then Arrive(0, 1)
    else if k == 5 then Step(1, TakeCursor)
    else if k == 6 then Step(1, LockBackend)
    else if k == 7 then Step(1, Look)
    else if k == 8 then Step(0, ConnectFail)
    else if k == 9 then Step(0, GiveUp)
    else if k == 10 then Tick(150)
    else if k == 11 then Step(1, ConnectFail)
    else if k == 12 then Step(1, GiveUp)
    else if k == 13 then Step(1, LockMark)
    else if k == 14 then Step(1, Write)
    else if k == 15 then Step(0, LockMark)
    else if k == 16 then Step(0, Write)
    else if k == 17 then Tick(161)
    else if k == 18 then Step(1, TakeCursor)
    else if k == 19 then Step(1, LockBackend)
    else Step(1, Look)
  }

  lemma FirstSelects(k: nat)
    requires 0 <= k < 4
    ensures Inv(CROSSING, CrossingState(k)) && Enabled(CROSSING, CrossingState(k), CrossingEvent(k))
    ensures CrossingState(k + 1) == Apply(CROSSING, CrossingState(k), CrossingEvent(k))
  {
    if k == 0 {
    } else if k == 1 {
    } else if k == 2 {
    }
  }

  lemma SecondSelects(k: nat)
    requires 4 <= k < 8
    ensures Inv(CROSSING, CrossingState(k)) && Enabled(CROSSING, CrossingState(k), CrossingEvent(k))
    ensures CrossingState(k + 1) == Apply(CROSSING, CrossingState(k), CrossingEvent(k))
  {
    if k == 4 {
    } else if k == 5 {
    } else if k == 6 {
    }
  }

  lemma FirstGivesUp(k: nat)
    requires 8 <= k < 12
    ensures Inv(CROSSING, CrossingState(k)) && Enabled(CROSSING, CrossingState(k), CrossingEvent(k))
    ensures CrossingState(k + 1) == Apply(CROSSING, CrossingState(k), CrossingEvent(k))
  {
    if k == 8 {
    } else if k == 9 {
    } else if k == 10 {
    }
  }

  lemma SecondWantsMark(k: nat)
    requires 12 <= k < 14
    ensures Inv(CROSSING, CrossingState(k)) && Enabled(CROSSING, CrossingState(k), CrossingEvent(k))
    ensures CrossingState(k + 1) == Apply(CROSSING, CrossingState(k), CrossingEvent(k))
  {
    if k == 12 {
    }
  }

  lemma SecondMarks(k: nat)
    requires k == 14
    ensures Inv(CROSSING, CrossingState(k)) && Enabled(CROSSING, CrossingState(k), CrossingEvent(k))
    ensures CrossingState(k + 1) == Apply(CROSSING, CrossingState(k), CrossingEvent(k))
  {
  }

  lemma FirstWantsMark(k: nat)
    requires k == 15
    ensures Inv(CROSSING, CrossingState(k)) && Enabled(CROSSING, CrossingState(k), CrossingEvent(k))
    ensures CrossingState(k + 1) == Apply(CROSSING, CrossingState(k), CrossingEvent(k))
  {
  }

  lemma OlderMarkWins(k: nat)
    requires 16 <= k < 18
    ensures Inv(CROSSING, CrossingState(k)) && Enabled(CROSSING, CrossingState(k), CrossingEvent(k))
    ensures CrossingState(k + 1) == Apply(CROSSING, CrossingState(k), CrossingEvent(k))
  {
    if k == 16 {
    }
  }

  lemma HandedOutAgain(k: nat)
    requires 18 <= k < 21
    ensures Inv(CROSSING, CrossingState(k)) && Enabled(CROSSING, CrossingState(k), CrossingEvent(k))
    ensures CrossingState(k + 1) == Apply(CROSSING, CrossingState(k), CrossingEvent(k))
  {
    if k == 18 {
    } else if k == 19 {
    }
  }

  lemma CrossingStep(k: nat)
    requires k < 21
    ensures Inv(CROSSING, CrossingState(k)) && Enabled(CROSSING, CrossingState(k), CrossingEvent(k))
    ensures CrossingState(k + 1) == Apply(CROSSING, CrossingState(k), CrossingEvent(k))
  {
    if k < 4 {
      FirstSelects(k);
    } else if k < 8 {
      SecondSelects(k);
    } else if k < 12 {
      FirstGivesUp(k);
    } else if k < 14 {
      SecondWantsMark(k);
    } else if k < 15 {
      SecondMarks(k);
    } else if k < 16 {
      FirstWantsMark(k);
    } else if k < 18 {
      OlderMarkWins(k);
    } else {
      HandedOutAgain(k);
    }
  }

  function Crossing(): seq<State> {
    seq(22, k requires 0 <= k => CrossingState(k))
  }

  function CrossingEvents(): seq<Event> {
    seq(21, k requires 0 <= k => CrossingEvent(k))
  }

  lemma CrossingIsRun()
    ensures Run(CROSSING, Crossing(), CrossingEvents())
  {
    var tr, evs := Crossing(), CrossingEvents();
    forall k | 0 <= k < 22 ensures Inv(CROSSING, tr[k]) {
      if k < 21 {
        CrossingStep(k);
      }
    }
    forall k | 0 <= k < 21 ensures Enabled(CROSSING, tr[k], evs[k]) && tr[k + 1] == Apply(CROSSING, tr[k], evs[k]) {
      CrossingStep(k);
    }
  }

  lemma CrossingMarks(k: nat)
    requires 14 <= k < 20
    ensures Marks(CrossingState(k), CrossingEvent(k), 0) ==
            if k == 14 then Some(Dead(150, 1)) else if k == 16 then Some(Dead(100, 1)) else None
  {
  }

  // The backend is handed out at 161 although it was marked dead at 150, the interval is 60
  // and nobody has marked it alive since.
  lemma StaleMarkShortensQuarantine() returns (tr: seq<State>, evs: seq<Event>, i: nat, j: nat)
    ensures Run(CROSSING, tr, evs) && Init(CROSSING, tr[0]) && i < j < |evs|
    ensures Marks(tr[i], evs[i], 0) == Some(Dead(150, 1)) && CROSSING.options.lbInterval == 60
    ensures forall k | i < k < j && Marks(tr[k], evs[k], 0).Some? :: Marks(tr[k], evs[k], 0).value.Dead?
    ensures HandsOut(CROSSING, tr[j], evs[j]) == Some(0) && tr[j].clock == 161
  {
    CrossingIsRun();
    tr, evs, i, j := Crossing(), CrossingEvents(), 14, 20;
    forall k | i <= k < j
      ensures Marks(tr[k], evs[k], 0) ==
              if k == 14 then Some(Dead(150, 1)) else if k == 16 then Some(Dead(100, 1)) else None
    {
      CrossingMarks(k);
    }
    CrossingStep(20);
  }
}
