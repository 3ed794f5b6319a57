/** Any number of requests sharing one load balancer, as a transition system whose steps
    are lock acquisitions, the work done under a lock, connection outcomes and clock ticks. */
module Interleavings {
  import opened Numbers
  import opened Wrappers
  import opened Backends

  // The options are those of the balancer, that is, of the directive that set it up.
  datatype Config = Config(urls: seq<Url>, policy: LoadBalancePolicy, options: ReverseProxyOptions)

  // Where a request stands in the select / connect / mark loop.
  datatype Pc =
    | WantCursor                            // waits for the cursor lock
    | Scanning(probed: nat, at: nat)        // waits for the lock of backend `at`
    | Looking(probed: nat, at: nat)         // holds the lock of backend `at`
    | Connecting(at: nat, left: u64)        // holds no lock
    | WantMark(at: nat, mark: AliveState)   // waits for the lock of backend `at` to store `mark`
    | Marking(at: nat, mark: AliveState)    // holds it
    | Serving(at: nat)
    | Finished

  // A request that was sent to the balancer by some directive, whose lb_retries are its attempts.
  datatype Task = Task(home: nat, attempts: u64, pc: Pc)

  datatype State = State(
    clock: u64,
    states: seq<AliveState>,
    cursor: nat,
    cursorOwner: Option<nat>,
    owners: seq<Option<nat>>,
    tasks: seq<Task>)

  datatype Move =
    | TakeCursor
    | LockBackend
    | Look
    | ConnectOk
    | ConnectFail
    | GiveUp
    | LockMark
    | Write
    | Leave                                 // an error outside the loop, or the end of the relay

  datatype Event =
    | Tick(now: u64)
    | Arrive(home: nat, attempts: u64)
    | Step(t: nat, move: Move)

  /* ---- steps ---- */

  function Next(cfg: Config, i: nat): nat
    requires i < |cfg.urls|
  {
    At(i, 1, |cfg.urls|)
  }

  // The start of a call to get_next_backend.
  function Begin(cfg: Config, home: nat): Pc {
    if |cfg.urls| == 0 then Finished
    else if cfg.policy == RoundRobin then WantCursor
    else Scanning(0, home)
  }

  predicate Enabled(cfg: Config, s: State, e: Event) {
    match e
    case Tick(now) => s.clock <= now
    case Arrive(home, _) => |cfg.urls| > 0 ==> home < |cfg.urls|
    case Step(t, move) => t < |s.tasks| && CanMove(s, s.tasks[t], move)
  }

  predicate CanMove(s: State, task: Task, move: Move) {
    var pc := task.pc;
    match move
    case TakeCursor => pc.WantCursor? && s.cursorOwner.None?
    case LockBackend => pc.Scanning? && Free(s, pc.at)
    case Look => pc.Looking?
    case ConnectOk => pc.Connecting? && pc.left > 0
    case ConnectFail => pc.Connecting? && pc.left > 0
    case GiveUp => pc.Connecting? && pc.left == 0
    case LockMark => pc.WantMark? && Free(s, pc.at)
    case Write => pc.Marking?
    case Leave => pc.Serving? || (pc.Connecting? && pc.left == task.attempts)
  }

  predicate Free(s: State, i: nat) {
    i < |s.owners| && s.owners[i].None?
  }

  function Goto(s: State, t: nat, pc: Pc): State
    requires t < |s.tasks|
  {
    s.(tasks := s.tasks[t := s.tasks[t].(pc := pc)])
  }

  function Apply(cfg: Config, s: State, e: Event): State
    requires Inv(cfg, s) && Enabled(cfg, s, e)
  {
    match e
    case Tick(now) => s.(clock := now)
    case Arrive(home, attempts) => s.(tasks := s.tasks + [Task(home, attempts, Begin(cfg, home))])
    case Step(t, move) => ApplyMove(cfg, s, t, move)
  }

  function ApplyMove(cfg: Config, s: State, t: nat, move: Move): State
    requires Inv(cfg, s) && Enabled(cfg, s, Step(t, move))
  {
    var pc := s.tasks[t].pc;
    match move
    case TakeCursor => Goto(s.(cursorOwner := Some(t)), t, Scanning(0, s.cursor))
    case LockBackend => Goto(s.(owners := s.owners[pc.at := Some(t)]), t, Looking(pc.probed, pc.at))
    case Look => ApplyLook(cfg, s, t)
    case ConnectOk => Goto(s, t, WantMark(pc.at, Alive(s.clock)))
    case ConnectFail => Goto(s, t, Connecting(pc.at, pc.left - 1))
    case GiveUp => Goto(s, t, WantMark(pc.at, Dead(s.clock, cfg.options.lbRetries)))
    case LockMark => Goto(s.(owners := s.owners[pc.at := Some(t)]), t, Marking(pc.at, pc.mark))
    case Write =>
      Goto(s.(owners := s.owners[pc.at := None], states := s.states[pc.at := pc.mark]), t,
           if pc.mark.Alive? then Serving(pc.at) else Begin(cfg, s.tasks[t].home))
    case Leave => Goto(s, t, Finished)
  }

  // One iteration of the scan, under the lock of the backend.
  function ApplyLook(cfg: Config, s: State, t: nat): State
    requires Inv(cfg, s) && t < |s.tasks| && s.tasks[t].pc.Looking?
  {
    var n, at, probed := |cfg.urls|, s.tasks[t].pc.at, s.tasks[t].pc.probed;
    var s' := s.(owners := s.owners[at := None],
                 states := s.states[at := AfterVisit(s.states[at], cfg.options.lbInterval, s.clock)]);
    var taken := Selectable(s.states[at], cfg.options.lbInterval, s.clock);
    if taken && !FitsAddress(cfg.urls[at]) then
      Goto(s'.(cursorOwner := if cfg.policy == RoundRobin then None else s.cursorOwner), t, Finished)
    else
      var pc := if taken then Connecting(at, s.tasks[t].attempts)
                else if probed + 1 == n then Finished
                else Scanning(probed + 1, Next(cfg, at));
      if cfg.policy == RoundRobin then
        Goto(s'.(cursor := Next(cfg, at), cursorOwner := if pc.Scanning? then s.cursorOwner else None), t, pc)
      else
        Goto(s', t, pc)
  }

  /* ---- what one step does ---- */

  // The backend a step hands out to a request.
  function HandsOut(cfg: Config, s: State, e: Event): Option<nat>
    requires Inv(cfg, s) && Enabled(cfg, s, e)
  {
    if e.Step? && e.move == Look && Apply(cfg, s, e).tasks[e.t].pc.Connecting? then Some(s.tasks[e.t].pc.at) else None
  }

  // Whether a step ends a call to get_next_backend.
  predicate EndsCall(cfg: Config, s: State, e: Event)
    requires Inv(cfg, s) && Enabled(cfg, s, e)
  {
    e.Step? && e.move == Look && !Apply(cfg, s, e).tasks[e.t].pc.Scanning?
  }

  // The mark a step stores in backend b.
  function Marks(s: State, e: Event, b: nat): Option<AliveState> {
    if e.Step? && e.move == Write && e.t < |s.tasks| && s.tasks[e.t].pc.Marking? && s.tasks[e.t].pc.at == b
    then Some(s.tasks[e.t].pc.mark) else None
  }

  /* ---- the invariant ---- */

  predicate MarkOk(cfg: Config, clock: u64, st: AliveState) {
    match st
    case Alive(stamp) => stamp <= clock
    case Dead(since, retriesLeft) => since <= clock && retriesLeft == cfg.options.lbRetries
  }

  predicate PcOk(cfg: Config, s: State, t: nat, task: Task) {
    var n := |cfg.urls|;
    match task.pc
    case WantCursor => n > 0 && cfg.policy == RoundRobin
    case Scanning(probed, at) =>
      probed < n && at < n && (cfg.policy == RoundRobin ==> s.cursorOwner == Some(t) && at == s.cursor)
    case Looking(probed, at) =>
      && probed < n && at < n && (cfg.policy == RoundRobin ==> s.cursorOwner == Some(t) && at == s.cursor)
      && at < |s.owners| && s.owners[at] == Some(t)
    case Connecting(at, left) => at < n && left <= task.attempts
    case WantMark(at, mark) => at < n && MarkOk(cfg, s.clock, mark)
    case Marking(at, mark) => at < n && MarkOk(cfg, s.clock, mark) && at < |s.owners| && s.owners[at] == Some(t)
    case Serving(at) => at < n
    case Finished => true
  }

  predicate Inv(cfg: Config, s: State) {
    var n := |cfg.urls|;
    && |s.states| == |s.owners| == n
    && (n > 0 ==> s.cursor < n)
    && (forall i | 0 <= i < n :: MarkOk(cfg, s.clock, s.states[i]))
    && (forall t | 0 <= t < |s.tasks| :: PcOk(cfg, s, t, s.tasks[t]) && (n > 0 ==> s.tasks[t].home < n))
    && (s.cursorOwner.Some? ==>
          && cfg.policy == RoundRobin && s.cursorOwner.value < |s.tasks|
          && (s.tasks[s.cursorOwner.value].pc.Scanning? || s.tasks[s.cursorOwner.value].pc.Looking?))
    && (forall i | 0 <= i < n && s.owners[i].Some? ::
          && s.owners[i].value < |s.tasks|
          && (s.tasks[s.owners[i].value].pc.Looking? || s.tasks[s.owners[i].value].pc.Marking?)
          && s.tasks[s.owners[i].value].pc.at == i)
  }

  predicate Init(cfg: Config, s: State) {
    && |s.states| == |s.owners| == |cfg.urls|
    && s.cursor == 0 && s.cursorOwner == None && s.tasks == []
    && (forall i | 0 <= i < |s.states| :: s.states[i] == Alive(s.clock) && s.owners[i] == None)
  }

  lemma StepKeepsInv(cfg: Config, s: State, e: Event)
    requires Inv(cfg, s) && Enabled(cfg, s, e)
    ensures Inv(cfg, Apply(cfg, s, e))
  {
    if e.Step? {
      match e.move
      case TakeCursor =>
      case LockBackend => LockingKeepsInv(cfg, s, e.t, e.move);
      case Look => LookKeepsInv(cfg, s, e.t);
      case ConnectOk => ConnectingKeepsInv(cfg, s, e.t, e.move);
      case ConnectFail => ConnectingKeepsInv(cfg, s, e.t, e.move);
      case GiveUp => ConnectingKeepsInv(cfg, s, e.t, e.move);
      case LockMark => LockingKeepsInv(cfg, s, e.t, e.move);
      case Write => WriteKeepsInv(cfg, s, e.t);
      case Leave => ConnectingKeepsInv(cfg, s, e.t, e.move);
    }
  }

  lemma LockingKeepsInv(cfg: Config, s: State, t: nat, move: Move)
    requires Inv(cfg, s) && Enabled(cfg, s, Step(t, move)) && (move == LockBackend || move == LockMark)
    ensures Inv(cfg, ApplyMove(cfg, s, t, move))
  {
  }

  lemma ConnectingKeepsInv(cfg: Config, s: State, t: nat, move: Move)
    requires Inv(cfg, s) && Enabled(cfg, s, Step(t, move)) && move in {ConnectOk, ConnectFail, GiveUp, Leave}
    ensures Inv(cfg, ApplyMove(cfg, s, t, move))
  {
  }

  lemma WriteKeepsInv(cfg: Config, s: State, t: nat)
    requires Inv(cfg, s) && Enabled(cfg, s, Step(t, Write))
    ensures Inv(cfg, ApplyMove(cfg, s, t, Write))
  {
  }

  lemma LookKeepsInv(cfg: Config, s: State, t: nat)
    requires Inv(cfg, s) && Enabled(cfg, s, Step(t, Look))
    ensures Inv(cfg, ApplyLook(cfg, s, t))
  {
  }
}
