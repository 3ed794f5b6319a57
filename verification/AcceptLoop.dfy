/** The accept loop of a worker, its connection permits, and the two-step stop request, as a
    transition system. */
module AcceptLoop {

  datatype LoopPc =
    | CheckFlag
    | InSelect(accepting: bool)     // an accept error switches its branch off until select! ends
    | WantPermit                    // a connection has been accepted
    | Exited

  datatype Stop = NotRequested | FlagCleared | Notified

  datatype State = State(
    pc: LoopPc,
    running: bool,
    notified: bool,                 // the stored notification
    available: nat,
    handlers: nat,                  // each holds one permit
    stop: Stop,
    acceptedSinceStop: nat)

  datatype Event =
    | Check
    | TakeNotification
    | Accept
    | AcceptFails
    | TakePermit
    | HandlerEnds
    | ClearFlag
    | Notify

  predicate IsLoopStep(e: Event) {
    e.Check? || e.TakeNotification? || e.Accept? || e.AcceptFails? || e.TakePermit?
  }

  predicate Enabled(s: State, e: Event) {
    match e
    case Check => s.pc.CheckFlag?
    case TakeNotification => s.pc.InSelect? && s.notified
    case Accept => s.pc.InSelect? && s.pc.accepting
    case AcceptFails => s.pc.InSelect? && s.pc.accepting
    case TakePermit => s.pc.WantPermit? && s.available > 0
    case HandlerEnds => s.handlers > 0
    case ClearFlag => s.stop.NotRequested?
    case Notify => s.stop.FlagCleared?
  }

  function Apply(s: State, e: Event): State
    requires Enabled(s, e)
  {
    match e
    case Check => s.(pc := if s.running then InSelect(true) else Exited)
    case TakeNotification => s.(pc := Exited, notified := false)
    case Accept =>
      s.(pc := WantPermit, acceptedSinceStop := if s.stop.NotRequested? then 0 else s.acceptedSinceStop + 1)
    case AcceptFails => s.(pc := InSelect(false))
    case TakePermit => s.(pc := CheckFlag, available := s.available - 1, handlers := s.handlers + 1)
    case HandlerEnds => s.(available := s.available + 1, handlers := s.handlers - 1)
    case ClearFlag => s.(running := false, stop := FlagCleared)
    case Notify => s.(notified := true, stop := Notified)
  }

  function Init(maxConnections: nat): State {
    State(CheckFlag, true, false, maxConnections, 0, NotRequested, 0)
  }

  ghost predicate Run(tr: seq<State>, evs: seq<Event>) {
    && |tr| == |evs| + 1
    && forall k | 0 <= k < |evs| :: Enabled(tr[k], evs[k]) && tr[k + 1] == Apply(tr[k], evs[k])
  }

  // A completed stop request is on its way to the loop: the loop is parked in select! only
  // with the notification stored.
  predicate StopPending(s: State) {
    && (s.running <==> s.stop.NotRequested?)
    && (s.notified ==> s.stop.Notified?)
    && (s.stop.Notified? && s.pc.InSelect? ==> s.notified)
  }

  // Permits are conserved, and at most one connection gets in after a stop request.
  predicate Inv(maxConnections: nat, s: State) {
    && s.available + s.handlers == maxConnections
    && StopPending(s)
    && s.acceptedSinceStop <= 1
    && (s.acceptedSinceStop == 1 ==> !s.stop.NotRequested? && !s.pc.InSelect?)
  }

  lemma {:induction false} EveryRunKeepsInv(maxConnections: nat, tr: seq<State>, evs: seq<Event>, k: nat)
    requires Run(tr, evs) && tr[0] == Init(maxConnections) && k < |tr|
    ensures Inv(maxConnections, tr[k])
    ensures tr[k].handlers <= maxConnections
  {
    if k > 0 {
      EveryRunKeepsInv(maxConnections, tr, evs, k - 1);
      assert Enabled(tr[k - 1], evs[k - 1]);
      assert tr[k - 1 + 1] == Apply(tr[k - 1], evs[k - 1]);
    }
  }

  // Some step of the loop or the end of a handler is possible.
  ghost predicate CanProceed(s: State) {
    exists e :: (IsLoopStep(e) || e.HandlerEnds?) && Enabled(s, e)
  }

  lemma StoppedLoopProceeds(maxConnections: nat, s: State)
    requires maxConnections > 0 && Inv(maxConnections, s) && s.stop.Notified? && !s.pc.Exited?
    ensures CanProceed(s)
  {
    var e := match s.pc
             case CheckFlag => Check
             case InSelect(_) => TakeNotification
             case WantPermit => if s.available > 0 then TakePermit else HandlerEnds;
    assert (IsLoopStep(e) || e.HandlerEnds?) && Enabled(s, e);
  }

  predicate Stopping(maxConnections: nat, s: State) {
    Inv(maxConnections, s) && s.stop.Notified? && !s.pc.Exited?
  }

  function Starved(): State {
    State(WantPermit, false, true, 0, 0, Notified, 1)
  }

  lemma StarvedIsStuck()
    ensures Stopping(0, Starved()) && !CanProceed(Starved())
  {
  }

  // With a stop request completed and the loop not gone, the loop can proceed in every state
  // the invariant allows, exactly if connections are allowed at all. (With none allowed, an
  // accepted connection waits for a permit that never comes.)
  lemma StoppedLoopIsNeverStuckIffConnectionsAllowed(maxConnections: nat)
    ensures (forall s | Stopping(maxConnections, s) :: CanProceed(s)) <==> maxConnections > 0
  {
    if maxConnections > 0 {
      forall s | Stopping(maxConnections, s) ensures CanProceed(s) {
        StoppedLoopProceeds(maxConnections, s);
      }
    } else {
      StarvedIsStuck();
    }
  }

  // The stuck state is reachable when no connections are allowed.
  lemma NoConnectionsAllowedGetsStuck() returns (tr: seq<State>, evs: seq<Event>)
    ensures Run(tr, evs) && tr[0] == Init(0) && tr[|evs|] == Starved()
    ensures forall e :: !Enabled(tr[|evs|], e)
  {
    evs := [Check, ClearFlag, Accept, Notify];
    var s1 := Apply(Init(0), Check);
    var s2 := Apply(s1, ClearFlag);
    var s3 := Apply(s2, Accept);
    tr := [Init(0), s1, s2, s3, Apply(s3, Notify)];
  }

  function LoopSteps(evs: seq<Event>): nat {
    if evs == [] then 0
    else LoopSteps(evs[..|evs| - 1]) + if IsLoopStep(evs[|evs| - 1]) then 1 else 0
  }

  function StepsLeft(s: State): nat {
    match s.pc
    case Exited => 0
    case CheckFlag => 1
    case WantPermit => 2
    case InSelect(accepting) => if accepting then 3 else 1
  }

  // After a completed stop request the loop takes at most three more steps, and is gone when
  // it has taken them.
  lemma {:induction false} StopTakesEffect(maxConnections: nat, tr: seq<State>, evs: seq<Event>, k: nat)
    requires Run(tr, evs) && Inv(maxConnections, tr[0]) && tr[0].stop.Notified? && k < |tr|
    ensures Inv(maxConnections, tr[k]) && tr[k].stop.Notified?
    ensures LoopSteps(evs[..k]) + StepsLeft(tr[k]) <= StepsLeft(tr[0]) <= 3
    ensures LoopSteps(evs[..k]) == 3 ==> tr[k].pc.Exited?
  {
    if k > 0 {
      StopTakesEffect(maxConnections, tr, evs, k - 1);
      assert evs[..k][..k - 1] == evs[..k - 1];
      assert Enabled(tr[k - 1], evs[k - 1]);
      assert tr[k - 1 + 1] == Apply(tr[k - 1], evs[k - 1]);
    }
  }

  // After one failing accept the worker accepts nothing any more: the loop leaves that
  // select! only through a stop request.
  lemma {:induction false} FailedAcceptDeafensTheWorker(maxConnections: nat, tr: seq<State>, evs: seq<Event>, k: nat)
    requires Run(tr, evs) && Inv(maxConnections, tr[0]) && tr[0].pc == InSelect(false) && k < |tr|
    ensures Inv(maxConnections, tr[k])
    ensures tr[k].pc == InSelect(false) || (tr[k].pc.Exited? && tr[k].stop.Notified?)
    ensures forall j | 0 <= j < k :: evs[j] != Accept
  {
    if k > 0 {
      FailedAcceptDeafensTheWorker(maxConnections, tr, evs, k - 1);
      assert Enabled(tr[k - 1], evs[k - 1]);
      assert tr[k - 1 + 1] == Apply(tr[k - 1], evs[k - 1]);
    }
  }

  // As long as no stop is requested the worker is up, and deaf iff some accept has failed.
  lemma {:induction false} DeafIffAcceptFailed(maxConnections: nat, tr: seq<State>, evs: seq<Event>, k: nat)
    requires Run(tr, evs) && tr[0] == Init(maxConnections) && k < |tr| && ClearFlag !in evs
    ensures Inv(maxConnections, tr[k]) && tr[k].stop.NotRequested? && !tr[k].pc.Exited?
    ensures tr[k].pc == InSelect(false) <==> AcceptFails in evs[..k]
  {
    if k > 0 {
      DeafIffAcceptFailed(maxConnections, tr, evs, k - 1);
      assert evs[..k] == evs[..k - 1] + [evs[k - 1]];
      assert Enabled(tr[k - 1], evs[k - 1]);
      assert tr[k - 1 + 1] == Apply(tr[k - 1], evs[k - 1]);
      assert evs[k - 1] in evs;
    }
  }

  // The run goes on, without a stop request, to accept a connection.
  ghost predicate GoesOnToAccept(s: State, tr: seq<State>, evs: seq<Event>) {
    Run(tr, evs) && tr[0] == s && ClearFlag !in evs && Accept in evs
  }

  lemma AcceptAhead(maxConnections: nat, s: State) returns (tr: seq<State>, evs: seq<Event>)
    requires maxConnections > 0 && Inv(maxConnections, s) && s.stop.NotRequested?
    requires !s.pc.Exited? && s.pc != InSelect(false)
    ensures GoesOnToAccept(s, tr, evs) && |evs| <= 4
  {
    tr, evs := [s], [];
    if s.pc.WantPermit? && s.available == 0 {
      tr, evs := tr + [Apply(tr[|evs|], HandlerEnds)], evs + [HandlerEnds];
    }
    if s.pc.WantPermit? {
      tr, evs := tr + [Apply(tr[|evs|], TakePermit)], evs + [TakePermit];
    }
    if !s.pc.InSelect? {
      tr, evs := tr + [Apply(tr[|evs|], Check)], evs + [Check];
    }
    tr, evs := tr + [Apply(tr[|evs|], Accept)], evs + [Accept];
    assert evs[|evs| - 1] == Accept;
  }

  // After any run without a stop request the worker can accept another connection, without one
  // being requested, exactly if no accept has failed.
  lemma AcceptsAgainIffNoAcceptFailed(maxConnections: nat, tr: seq<State>, evs: seq<Event>)
    requires maxConnections > 0 && Run(tr, evs) && tr[0] == Init(maxConnections) && ClearFlag !in evs
    ensures (exists tr', evs' :: GoesOnToAccept(tr[|evs|], tr', evs')) <==> AcceptFails !in evs
  {
    DeafIffAcceptFailed(maxConnections, tr, evs, |evs|);
    assert evs[..|evs|] == evs;
    if AcceptFails !in evs {
      var tr', evs' := AcceptAhead(maxConnections, tr[|evs|]);
    } else if tr', evs' :| GoesOnToAccept(tr[|evs|], tr', evs') {
      FailedAcceptDeafensTheWorker(maxConnections, tr', evs', |evs'|);
    }
  }

  // The deaf state is reachable, with any number of connections allowed.
  lemma AcceptCanFail(maxConnections: nat) returns (tr: seq<State>, evs: seq<Event>)
    ensures Run(tr, evs) && tr[0] == Init(maxConnections) && ClearFlag !in evs
    ensures tr[|evs|].pc == InSelect(false) && tr[|evs|].stop.NotRequested?
  {
    var s1 := Apply(Init(maxConnections), Check);
    tr, evs := [Init(maxConnections), s1, Apply(s1, AcceptFails)], [Check, AcceptFails];
  }
}
