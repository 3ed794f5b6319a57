/** What holds over every run of requests sharing one load balancer. */
module InterleavingProofs {
  import opened Numbers
  import opened Wrappers
  import opened Backends
  import opened Interleavings

  /* ---- runs ---- */

  ghost predicate Run(cfg: Config, tr: seq<State>, evs: seq<Event>) {
    && |tr| == |evs| + 1
    && (forall k | 0 <= k < |tr| :: Inv(cfg, tr[k]))
    && (forall k | 0 <= k < |evs| :: Enabled(cfg, tr[k], evs[k]))
    && (forall k | 0 <= k < |evs| :: Follows(cfg, tr, evs, k))
  }

  // Event k leads from state k to the next.
  ghost predicate Follows(cfg: Config, tr: seq<State>, evs: seq<Event>, k: nat)
    requires |tr| == |evs| + 1 && k < |evs| && Inv(cfg, tr[k]) && Enabled(cfg, tr[k], evs[k])
  {
    tr[k + 1] == Apply(cfg, tr[k], evs[k])
  }

  // The states passed through from s; the last one is where an event is not enabled.
  function Exec(cfg: Config, s: State, evs: seq<Event>): (tr: seq<State>)
    requires Inv(cfg, s)
    ensures |tr| >= 1 && tr[0] == s
    decreases evs
  {
    if evs == [] || !Enabled(cfg, s, evs[0]) then [s]
    else
      StepKeepsInv(cfg, s, evs[0]);
      [s] + Exec(cfg, Apply(cfg, s, evs[0]), evs[1..])
  }

  // Reachable states satisfy the invariant: the cursor is in range, each lock has the one
  // owner that is inside it, every stored mark carries lb_retries and a past timestamp.
  lemma EveryRunKeepsInv(cfg: Config, s: State, evs: seq<Event>)
    requires Init(cfg, s)
    ensures Inv(cfg, s)
    ensures |Exec(cfg, s, evs)| == |evs| + 1 ==> Run(cfg, Exec(cfg, s, evs), evs)
  {
    ExecIsRun(cfg, s, evs);
  }

  lemma {:induction false} ExecIsRun(cfg: Config, s: State, evs: seq<Event>)
    requires Inv(cfg, s)
    ensures |Exec(cfg, s, evs)| == |evs| + 1 ==> Run(cfg, Exec(cfg, s, evs), evs)
    decreases evs
  {
    if evs != [] && Enabled(cfg, s, evs[0]) {
      StepKeepsInv(cfg, s, evs[0]);
      var s' := Apply(cfg, s, evs[0]);
      ExecIsRun(cfg, s', evs[1..]);
      var tr := Exec(cfg, s, evs);
      assert tr[1..] == Exec(cfg, s', evs[1..]);
      if |tr| == |evs| + 1 {
        forall k | 0 <= k < |evs| ensures Enabled(cfg, tr[k], evs[k]) && Follows(cfg, tr, evs, k) {
          if k > 0 {
            assert tr[k] == tr[1..][k - 1] && tr[k + 1] == tr[1..][k] && evs[k] == evs[1..][k - 1];
            assert Follows(cfg, tr[1..], evs[1..], k - 1);
          }
        }
      }
    }
  }

  // A request may come at any time, whatever the others do; one to a balancer without backends is
  // over at once.
  lemma RequestsMayCome(cfg: Config, s: State, home: nat, attempts: u64)
    requires Inv(cfg, s) && (cfg.urls != [] ==> home < |cfg.urls|)
    ensures Enabled(cfg, s, Arrive(home, attempts))
    ensures var s' := Apply(cfg, s, Arrive(home, attempts));
            && |s'.tasks| == |s.tasks| + 1 && s'.tasks[..|s.tasks|] == s.tasks && s'.tasks[|s.tasks|].attempts == attempts
            && (s'.tasks[|s.tasks|].pc.Finished? <==> cfg.urls == [])
  {
  }

  /* ---- no deadlock ---- */

  function Owner(s: State, i: nat): nat
    requires i < |s.owners| && s.owners[i].Some?
  {
    s.owners[i].value
  }

  // Some unfinished request can always take a step: the locks never deadlock.
  lemma SomeTaskCanMove(cfg: Config, s: State, t: nat) returns (u: nat, move: Move)
    requires Inv(cfg, s) && t < |s.tasks| && !s.tasks[t].pc.Finished?
    ensures u < |s.tasks| && !s.tasks[u].pc.Finished? && Enabled(cfg, s, Step(u, move))
  {
    u := t;
    if s.tasks[u].pc.WantCursor? {
      if s.cursorOwner.None? {
        return u, TakeCursor;
      }
      u := s.cursorOwner.value;
    }
    var pc := s.tasks[u].pc;
    if (pc.Scanning? || pc.WantMark?) && s.owners[pc.at].Some? {
      u := Owner(s, pc.at);
    }
    match s.tasks[u].pc
    case Scanning(_, _) => move := LockBackend;
    case Looking(_, _) => move := Look;
    case Connecting(_, left) => move := if left > 0 then ConnectFail else GiveUp;
    case WantMark(_, _) => move := LockMark;
    case Marking(_, _) => move := Write;
    case Serving(_) => move := Leave;
  }

  // In every reachable state a dead backend is selectable again once the interval after
  // its mark is over, exactly if the configuration allows at least one retry.
  lemma DeadBackendRecoversIffRetriesConfigured(cfg: Config, s: State, i: nat)
    requires Inv(cfg, s) && i < |s.states| && s.states[i].Dead?
    requires s.states[i].since + cfg.options.lbInterval + 1 < U64
    ensures (exists now: u64 :: s.clock <= now && Selectable(s.states[i], cfg.options.lbInterval, now))
       <==> cfg.options.lbRetries > 0
  {
    var st := s.states[i];
    var due := st.since + cfg.options.lbInterval + 1;
    var now: u64 := if due < s.clock then s.clock else due;
    assert MarkOk(cfg, s.clock, st);
    assert Due(st.since, cfg.options.lbInterval, now);
    if cfg.options.lbRetries > 0 {
      assert Selectable(st, cfg.options.lbInterval, now);
    }
  }

  // A request that makes no attempt reaches no backend.
  lemma {:induction false} NoAttemptsNoService(cfg: Config, tr: seq<State>, evs: seq<Event>, k: nat)
    requires Run(cfg, tr, evs) && Init(cfg, tr[0]) && k < |tr|
    ensures forall t | 0 <= t < |tr[k].tasks| && tr[k].tasks[t].attempts == 0 :: HoldsNoLiveMark(tr[k].tasks[t].pc)
  {
    if k > 0 {
      NoAttemptsNoService(cfg, tr, evs, k - 1);
      assert Follows(cfg, tr, evs, k - 1);
    }
  }

  predicate HoldsNoLiveMark(pc: Pc) {
    !pc.Serving? && ((pc.WantMark? || pc.Marking?) ==> pc.mark.Dead?)
  }

  // The request was handed backend b and has not stored its mark yet.
  predicate Holds(pc: Pc, b: nat) {
    (pc.Connecting? || pc.WantMark? || pc.Marking?) && pc.at == b
  }

  predicate IsAttempt(e: Event, t: nat) {
    e == Step(t, ConnectFail)
  }

  // The failed attempts of request t among some events.
  function Fails(evs: seq<Event>, t: nat): nat
    decreases |evs|
  {
    if evs == [] then 0
    else Fails(evs[..|evs| - 1], t) + if IsAttempt(evs[|evs| - 1], t) then 1 else 0
  }

  predicate ConnectsTo(s: State, t: nat, b: nat, attempts: u64, left: int) {
    t < |s.tasks| && s.tasks[t].attempts == attempts && s.tasks[t].pc.Connecting? && s.tasks[t].pc.at == b && s.tasks[t].pc.left == left
  }

  lemma ConnectingStep(cfg: Config, s: State, e: Event, t: nat, b: nat, attempts: u64, left: u64)
    requires Inv(cfg, s) && Enabled(cfg, s, e) && ConnectsTo(Apply(cfg, s, e), t, b, attempts, left)
    ensures if e == Step(t, Look) then HandsOut(cfg, s, e) == Some(b) && left == attempts
            else ConnectsTo(s, t, b, attempts, left + if e == Step(t, ConnectFail) then 1 else 0)
  {
  }

  // Event i hands backend b to request t.
  ghost predicate IsHanded(cfg: Config, tr: seq<State>, evs: seq<Event>, i: nat, t: nat, b: nat)
    requires Run(cfg, tr, evs) && i < |evs|
  {
    evs[i] == Step(t, Look) && HandsOut(cfg, tr[i], evs[i]) == Some(b)
  }

  // One step back from a state in which the request connects to b.
  lemma ConnectingBefore(cfg: Config, tr: seq<State>, evs: seq<Event>, j: nat, t: nat, b: nat, attempts: u64, left: u64)
    requires Run(cfg, tr, evs) && Init(cfg, tr[0]) && j < |tr| && ConnectsTo(tr[j], t, b, attempts, left)
    ensures j > 0
    ensures if evs[j - 1] == Step(t, Look) then IsHanded(cfg, tr, evs, j - 1, t, b) && left == attempts
            else ConnectsTo(tr[j - 1], t, b, attempts, left + if IsAttempt(evs[j - 1], t) then 1 else 0)
                 && left + (if IsAttempt(evs[j - 1], t) then 1 else 0) <= attempts
  {
    assert Follows(cfg, tr, evs, j - 1);
    ConnectingStep(cfg, tr[j - 1], evs[j - 1], t, b, attempts, left);
    if evs[j - 1] != Step(t, Look) {
      assert PcOk(cfg, tr[j - 1], t, tr[j - 1].tasks[t]);
    }
  }

  // Event i - 1 starts it, and up to event j so many attempts of the request have failed.
  ghost predicate FailedSince(evs: seq<Event>, i: nat, j: nat, t: nat, fails: int)
    requires i <= j <= |evs|
  {
    Fails(evs[i..j], t) == fails && Step(t, Look) !in evs[i..j]
  }

  lemma FailsOneMore(evs: seq<Event>, i: nat, j: nat, t: nat, fails: int)
    requires i <= j < |evs| && FailedSince(evs, i, j, t, fails) && evs[j] != Step(t, Look)
    ensures FailedSince(evs, i, j + 1, t, fails + if IsAttempt(evs[j], t) then 1 else 0)
  {
    assert evs[i..j + 1] == evs[i..j] + [evs[j]];
    assert evs[i..j + 1][..j - i] == evs[i..j];
  }

  // The attempts that request t has left for backend b; -1 when it is not connecting to it.
  function Left(s: State, t: nat, b: nat, attempts: u64): int {
    if t < |s.tasks| && s.tasks[t].attempts == attempts && s.tasks[t].pc.Connecting? && s.tasks[t].pc.at == b
    then s.tasks[t].pc.left else -1
  }

  ghost predicate CountsDown(evs: seq<Event>, t: nat, attempts: int, lefts: seq<int>, k: nat)
    requires k < |lefts| == |evs| + 1
  {
    k > 0 && if evs[k - 1] == Step(t, Look) then lefts[k] == attempts
             else lefts[k - 1] == lefts[k] + if IsAttempt(evs[k - 1], t) then 1 else 0
  }

  // Counting back along the events to the last look.
  lemma {:induction false} CountBack(evs: seq<Event>, t: nat, j: nat, attempts: int, lefts: seq<int>) returns (i: nat)
    requires j < |lefts| == |evs| + 1 && lefts[j] >= 0
    requires forall k | 0 <= k < |lefts| && lefts[k] >= 0 :: CountsDown(evs, t, attempts, lefts, k)
    ensures i < j && evs[i] == Step(t, Look) && lefts[i + 1] == attempts
    ensures FailedSince(evs, i + 1, j, t, attempts - lefts[j])
    decreases j
  {
    assert CountsDown(evs, t, attempts, lefts, j);
    if evs[j - 1] == Step(t, Look) {
      i := j - 1;
      assert evs[i + 1..j] == [];
    } else {
      i := CountBack(evs, t, j - 1, attempts, lefts);
      FailsOneMore(evs, i + 1, j - 1, t, attempts - lefts[j - 1]);
    }
  }

  lemma LeftCountsDown(cfg: Config, tr: seq<State>, evs: seq<Event>, t: nat, b: nat, attempts: u64, lefts: seq<int>, k: nat)
    requires Run(cfg, tr, evs) && Init(cfg, tr[0]) && |lefts| == |tr| && k < |tr|
    requires forall m | 0 <= m < |tr| :: lefts[m] == Left(tr[m], t, b, attempts)
    requires lefts[k] >= 0
    ensures CountsDown(evs, t, attempts, lefts, k)
    ensures evs[k - 1] == Step(t, Look) ==> IsHanded(cfg, tr, evs, k - 1, t, b)
  {
    ConnectingBefore(cfg, tr, evs, k, t, b, attempts, lefts[k]);
  }

  // Since request t was handed the backend it is connecting to, as many attempts have failed as
  // it has not left: it gives up, and marks the backend dead, only after all of them.
  lemma GivesUpAfterAllAttempts(cfg: Config, tr: seq<State>, evs: seq<Event>, j: nat, t: nat, b: nat, attempts: u64, left: u64)
    returns (i: nat)
    requires Run(cfg, tr, evs) && Init(cfg, tr[0]) && j < |tr| && ConnectsTo(tr[j], t, b, attempts, left)
    ensures i < j && IsHanded(cfg, tr, evs, i, t, b) && FailedSince(evs, i + 1, j, t, attempts - left)
  {
    var lefts := seq(|tr|, k requires 0 <= k < |tr| => Left(tr[k], t, b, attempts));
    forall k | 0 <= k < |lefts| && lefts[k] >= 0 ensures CountsDown(evs, t, attempts, lefts, k) {
      LeftCountsDown(cfg, tr, evs, t, b, attempts, lefts, k);
    }
    i := CountBack(evs, t, j, attempts, lefts);
    LeftCountsDown(cfg, tr, evs, t, b, attempts, lefts, i + 1);
  }

  // Every dead mark of a request follows as many failed attempts as its directive allows, all of
  // them since it was handed that backend.
  lemma DeadMarkMeansAllAttemptsFailed(cfg: Config, tr: seq<State>, evs: seq<Event>, j: nat, t: nat) returns (i: nat)
    requires Run(cfg, tr, evs) && Init(cfg, tr[0]) && j < |evs| && evs[j] == Step(t, GiveUp)
    ensures t < |tr[j].tasks| && tr[j].tasks[t].pc.Connecting?
    ensures i < j && IsHanded(cfg, tr, evs, i, t, tr[j].tasks[t].pc.at)
    ensures FailedSince(evs, i + 1, j, t, tr[j].tasks[t].attempts)
  {
    i := GivesUpAfterAllAttempts(cfg, tr, evs, j, t, tr[j].tasks[t].pc.at, tr[j].tasks[t].attempts, 0);
  }

  predicate Carries(pc: Pc, mark: AliveState) {
    (pc.WantMark? || pc.Marking?) && pc.mark == mark
  }

  lemma BystanderIsLeftAlone(cfg: Config, s: State, e: Event, t: nat)
    requires Inv(cfg, s) && Enabled(cfg, s, e) && t < |Apply(cfg, s, e).tasks| && !(e.Step? && e.t == t)
    ensures t < |s.tasks| ==> Apply(cfg, s, e).tasks[t] == s.tasks[t]
    ensures t >= |s.tasks| ==> Apply(cfg, s, e).tasks[t].pc == Begin(cfg, Apply(cfg, s, e).tasks[t].home)
  {
  }

  lemma CarryingStep(cfg: Config, s: State, e: Event, t: nat, mark: AliveState)
    requires Inv(cfg, s) && Enabled(cfg, s, e)
    requires t < |Apply(cfg, s, e).tasks| && Carries(Apply(cfg, s, e).tasks[t].pc, mark)
    ensures t < |s.tasks|
    ensures if e == Step(t, ConnectOk) then mark == Alive(s.clock)
            else if e == Step(t, GiveUp) then mark == Dead(s.clock, cfg.options.lbRetries)
            else Carries(s.tasks[t].pc, mark)
  {
    if !(e.Step? && e.t == t) {
      BystanderIsLeftAlone(cfg, s, e, t);
    }
  }

  // A mark on its way is a live one from the moment an attempt succeeded, or a dead one from the
  // moment the request gave up, with that time.
  lemma {:induction false} MarkCarriesItsTime(cfg: Config, tr: seq<State>, evs: seq<Event>, j: nat, t: nat, mark: AliveState)
    returns (i: nat)
    requires Run(cfg, tr, evs) && Init(cfg, tr[0]) && j < |tr| && t < |tr[j].tasks| && Carries(tr[j].tasks[t].pc, mark)
    ensures i < j
    ensures || (evs[i] == Step(t, ConnectOk) && mark == Alive(tr[i].clock))
            || (evs[i] == Step(t, GiveUp) && mark == Dead(tr[i].clock, cfg.options.lbRetries))
    decreases j
  {
    assert Follows(cfg, tr, evs, j - 1);
    CarryingStep(cfg, tr[j - 1], evs[j - 1], t, mark);
    if evs[j - 1] == Step(t, ConnectOk) || evs[j - 1] == Step(t, GiveUp) {
      i := j - 1;
    } else {
      i := MarkCarriesItsTime(cfg, tr, evs, j - 1, t, mark);
    }
  }

  // A request that holds a backend has held it since it was handed it.
  lemma {:induction false} HeldSinceHandedOut(cfg: Config, tr: seq<State>, evs: seq<Event>, j: nat, t: nat, b: nat) returns (i: nat)
    requires Run(cfg, tr, evs) && Init(cfg, tr[0]) && j < |tr|
    requires t < |tr[j].tasks| && Holds(tr[j].tasks[t].pc, b)
    ensures i < j && HandsOut(cfg, tr[i], evs[i]) == Some(b) && evs[i].t == t
    ensures forall k | i < k <= j :: t < |tr[k].tasks| && Holds(tr[k].tasks[t].pc, b)
    decreases j
  {
    var s, e := tr[j - 1], evs[j - 1];
    assert Follows(cfg, tr, evs, j - 1);
    if t < |s.tasks| && Holds(s.tasks[t].pc, b) {
      i := HeldSinceHandedOut(cfg, tr, evs, j - 1, t, b);
    } else {
      HoldingStarts(cfg, s, e, t, b);
      i := j - 1;
    }
  }

  lemma HoldingStarts(cfg: Config, s: State, e: Event, t: nat, b: nat)
    requires Inv(cfg, s) && Enabled(cfg, s, e)
    requires t < |Apply(cfg, s, e).tasks| && Holds(Apply(cfg, s, e).tasks[t].pc, b)
    requires t < |s.tasks| ==> !Holds(s.tasks[t].pc, b)
    ensures HandsOut(cfg, s, e) == Some(b) && e.t == t
  {
  }

  // A balancer with lb_retries = 0 revives no backend by itself: a dead one comes back exactly
  // when a live mark is stored in it.
  lemma RevivedIffMarkedAlive(cfg: Config, s: State, e: Event, b: nat)
    requires Inv(cfg, s) && Enabled(cfg, s, e) && cfg.options.lbRetries == 0
    requires b < |s.states| && s.states[b].Dead?
    ensures b < |Apply(cfg, s, e).states|
    ensures Apply(cfg, s, e).states[b].Alive? <==> Marks(s, e, b).Some? && Marks(s, e, b).value.Alive?
  {
    assert MarkOk(cfg, s.clock, s.states[b]);
  }

  // And such a mark comes from a request that makes attempts and was handed the backend
  // while it was still alive.
  lemma OnlyAHolderRevives(cfg: Config, tr: seq<State>, evs: seq<Event>, j: nat, b: nat) returns (t: nat, i: nat)
    requires Run(cfg, tr, evs) && Init(cfg, tr[0]) && j < |evs| && cfg.options.lbRetries == 0
    requires b < |cfg.urls| && tr[j].states[b].Dead? && tr[j + 1].states[b].Alive?
    ensures evs[j] == Step(t, Write) && t < |tr[j].tasks| && tr[j].tasks[t].attempts > 0
    ensures i < j && HandsOut(cfg, tr[i], evs[i]) == Some(b) && evs[i].t == t && tr[i].states[b].Alive?
    ensures forall k | i < k <= j :: t < |tr[k].tasks| && Holds(tr[k].tasks[t].pc, b)
  {
    assert Follows(cfg, tr, evs, j);
    RevivedIffMarkedAlive(cfg, tr[j], evs[j], b);
    t := evs[j].t;
    NoAttemptsNoService(cfg, tr, evs, j);
    i := HeldSinceHandedOut(cfg, tr, evs, j, t, b);
    assert MarkOk(cfg, tr[i].clock, tr[i].states[b]);
  }

  /* ---- quarantine ---- */

  // Since the mark at time d the backend is dead with a stamp no earlier, or the interval is over.
  ghost predicate Quarantined(cfg: Config, s: State, b: nat, d: u64) {
    || (b < |s.states| && s.states[b].Dead? && s.states[b].since >= d)
    || s.clock > d + cfg.options.lbInterval
  }

  lemma MarkQuarantines(cfg: Config, s: State, e: Event, b: nat)
    requires Inv(cfg, s) && Enabled(cfg, s, e) && Marks(s, e, b).Some? && Marks(s, e, b).value.Dead?
    ensures Quarantined(cfg, Apply(cfg, s, e), b, Marks(s, e, b).value.since)
  {
  }

  lemma QuarantineStep(cfg: Config, s: State, e: Event, b: nat, d: u64)
    requires Inv(cfg, s) && Enabled(cfg, s, e) && Quarantined(cfg, s, b, d)
    requires s.clock + cfg.options.lbInterval < U64
    requires Marks(s, e, b).Some? ==> Marks(s, e, b).value.Dead? && Marks(s, e, b).value.since >= d
    ensures HandsOut(cfg, s, e) == Some(b) ==> s.clock > d + cfg.options.lbInterval
    ensures Quarantined(cfg, Apply(cfg, s, e), b, d)
  {
    if b < |s.states| {
      assert MarkOk(cfg, s.clock, s.states[b]);
    }
  }

  lemma {:induction false} ClockOnlyAdvances(cfg: Config, tr: seq<State>, evs: seq<Event>, i: nat, j: nat)
    requires Run(cfg, tr, evs) && i <= j < |tr|
    ensures tr[i].clock <= tr[j].clock
    decreases j
  {
    if i < j {
      ClockOnlyAdvances(cfg, tr, evs, i, j - 1);
      assert Follows(cfg, tr, evs, j - 1);
    }
  }

  // After a dead mark with stamp d, whatever any number of requests do in between, the
  // backend is handed out only after d + lb_interval, provided every later mark on it is
  // again dead and not stamped earlier than d.
  lemma {:induction false} QuarantineHolds(cfg: Config, tr: seq<State>, evs: seq<Event>, i: nat, j: nat, b: nat, d: u64)
    requires Run(cfg, tr, evs) && i < j < |evs|
    requires Marks(tr[i], evs[i], b).Some? && Marks(tr[i], evs[i], b).value.Dead? && Marks(tr[i], evs[i], b).value.since == d
    requires forall k | i < k < j && Marks(tr[k], evs[k], b).Some? ::
               Marks(tr[k], evs[k], b).value.Dead? && Marks(tr[k], evs[k], b).value.since >= d
    requires tr[j].clock + cfg.options.lbInterval < U64
    ensures Quarantined(cfg, tr[j], b, d)
    ensures HandsOut(cfg, tr[j], evs[j]) == Some(b) ==> tr[j].clock > d + cfg.options.lbInterval
    decreases j
  {
    if j == i + 1 {
      assert Follows(cfg, tr, evs, i);
      MarkQuarantines(cfg, tr[i], evs[i], b);
    } else {
      ClockOnlyAdvances(cfg, tr, evs, j - 1, j);
      QuarantineHolds(cfg, tr, evs, i, j - 1, b, d);
      QuarantineStep(cfg, tr[j - 1], evs[j - 1], b, d);
      assert Follows(cfg, tr, evs, j - 1);
    }
    if HandsOut(cfg, tr[j], evs[j]) == Some(b) {
      HandOutIsDue(cfg, tr[j], evs[j], b, d);
    }
  }

  lemma HandOutIsDue(cfg: Config, s: State, e: Event, b: nat, d: u64)
    requires Inv(cfg, s) && Enabled(cfg, s, e) && Quarantined(cfg, s, b, d)
    requires s.clock + cfg.options.lbInterval < U64
    requires HandsOut(cfg, s, e) == Some(b)
    ensures s.clock > d + cfg.options.lbInterval
  {
  }

  lemma StepKeepsMark(cfg: Config, s: State, e: Event, b: nat)
    requires Inv(cfg, s) && Enabled(cfg, s, e) && cfg.options.lbRetries > 0
    requires b < |cfg.urls| && FitsAddress(cfg.urls[b]) && s.states[b].Dead?
    requires Marks(s, e, b).None? && HandsOut(cfg, s, e) != Some(b)
    ensures Apply(cfg, s, e).states[b] == s.states[b]
  {
    assert MarkOk(cfg, s.clock, s.states[b]);
  }

  // A dead mark stays as it was stored until another mark is stored or the backend is taken.
  lemma {:induction false} MarkStays(cfg: Config, tr: seq<State>, evs: seq<Event>, i: nat, j: nat, b: nat)
    requires Run(cfg, tr, evs) && i < j < |tr| && cfg.options.lbRetries > 0
    requires b < |cfg.urls| && FitsAddress(cfg.urls[b])
    requires Marks(tr[i], evs[i], b).Some? && Marks(tr[i], evs[i], b).value.Dead?
    requires forall k | i < k < j :: Marks(tr[k], evs[k], b).None? && HandsOut(cfg, tr[k], evs[k]) != Some(b)
    ensures tr[j].states[b] == Marks(tr[i], evs[i], b).value
    decreases j
  {
    assert Follows(cfg, tr, evs, j - 1);
    if i < j - 1 {
      MarkStays(cfg, tr, evs, i, j - 1, b);
      StepKeepsMark(cfg, tr[j - 1], evs[j - 1], b);
    }
  }

  // The stamp of the last mark alone decides: the next request to look at the backend is
  // handed it iff the interval after that stamp is over, be the stamp older than earlier ones.
  lemma HandedOutIffLastMarkIsOver(cfg: Config, tr: seq<State>, evs: seq<Event>, i: nat, j: nat, b: nat, d: u64, t: nat)
    requires Run(cfg, tr, evs) && i < j < |evs| && cfg.options.lbRetries > 0
    requires b < |cfg.urls| && FitsAddress(cfg.urls[b]) && d + cfg.options.lbInterval < U64
    requires Marks(tr[i], evs[i], b).Some? && Marks(tr[i], evs[i], b).value.Dead? && Marks(tr[i], evs[i], b).value.since == d
    requires forall k | i < k < j :: Marks(tr[k], evs[k], b).None? && HandsOut(cfg, tr[k], evs[k]) != Some(b)
    requires evs[j] == Step(t, Look) && t < |tr[j].tasks| && tr[j].tasks[t].pc.Looking? && tr[j].tasks[t].pc.at == b
    ensures HandsOut(cfg, tr[j], evs[j]) == Some(b) <==> tr[j].clock > d + cfg.options.lbInterval
  {
    MarkStays(cfg, tr, evs, i, j, b);
    assert MarkOk(cfg, tr[j].clock, tr[j].states[b]);
  }

  /* ---- no starvation ---- */

  predicate IsLook(e: Event) {
    e.Step? && e.move == Look
  }

  function Looks(evs: seq<Event>): nat {
    if evs == [] then 0 else Looks(evs[..|evs| - 1]) + if IsLook(evs[|evs| - 1]) then 1 else 0
  }

  lemma LooksOneMore(evs: seq<Event>, m: nat)
    requires m < |evs|
    ensures Looks(evs[..m + 1]) == Looks(evs[..m]) + if IsLook(evs[m]) then 1 else 0
  {
    assert evs[..m + 1][..m] == evs[..m];
  }

  ghost function EndedCalls(cfg: Config, tr: seq<State>, evs: seq<Event>, m: nat): nat
    requires Run(cfg, tr, evs) && m <= |evs|
  {
    if m == 0 then 0
    else EndedCalls(cfg, tr, evs, m - 1) + if EndsCall(cfg, tr[m - 1], evs[m - 1]) then 1 else 0
  }

  // While b stays alive every look either hands out b or brings the cursor one place closer.
  lemma LookApproaches(cfg: Config, s: State, e: Event, b: nat)
    requires Inv(cfg, s) && Enabled(cfg, s, e) && b < |cfg.urls| && cfg.policy == RoundRobin
    requires s.states[b].Alive? && forall i | 0 <= i < |cfg.urls| :: FitsAddress(cfg.urls[i])
    ensures HandsOut(cfg, s, e) == Some(b) ||
            Distance(Apply(cfg, s, e).cursor, b, |cfg.urls|) ==
              Distance(s.cursor, b, |cfg.urls|) - if IsLook(e) then 1 else 0
  {
    StepKeepsInv(cfg, s, e);
  }

  lemma StepApproaches(cfg: Config, tr: seq<State>, evs: seq<Event>, b: nat, m: nat)
    requires Run(cfg, tr, evs) && m < |evs| && b < |cfg.urls| && cfg.policy == RoundRobin
    requires forall i | 0 <= i < |cfg.urls| :: FitsAddress(cfg.urls[i])
    requires tr[m].states[b].Alive? && HandsOut(cfg, tr[m], evs[m]) != Some(b)
    ensures Distance(tr[m + 1].cursor, b, |cfg.urls|) == Distance(tr[m].cursor, b, |cfg.urls|) - if IsLook(evs[m]) then 1 else 0
    ensures EndedCalls(cfg, tr, evs, m + 1) <= EndedCalls(cfg, tr, evs, m) + if IsLook(evs[m]) then 1 else 0
  {
    assert Follows(cfg, tr, evs, m);
    LookApproaches(cfg, tr[m], evs[m], b);
  }

  lemma {:induction false} CursorApproaches(cfg: Config, tr: seq<State>, evs: seq<Event>, b: nat, m: nat)
    requires Run(cfg, tr, evs) && m <= |evs| && b < |cfg.urls| && cfg.policy == RoundRobin
    requires forall i | 0 <= i < |cfg.urls| :: FitsAddress(cfg.urls[i])
    requires forall k | 0 <= k < |tr| :: tr[k].states[b].Alive?
    requires forall k | 0 <= k < m :: HandsOut(cfg, tr[k], evs[k]) != Some(b)
    ensures Distance(tr[m].cursor, b, |cfg.urls|) == Distance(tr[0].cursor, b, |cfg.urls|) - Looks(evs[..m])
    ensures EndedCalls(cfg, tr, evs, m) <= Looks(evs[..m])
  {
    if m > 0 {
      CursorApproaches(cfg, tr, evs, b, m - 1);
      LooksOneMore(evs, m - 1);
      StepApproaches(cfg, tr, evs, b, m - 1);
    }
  }

  // A backend that stays alive is handed out among any n round-robin calls that end,
  // however the steps of all the requests interleave.
  lemma NoStarvation(cfg: Config, tr: seq<State>, evs: seq<Event>, b: nat)
    requires Run(cfg, tr, evs) && b < |cfg.urls| && cfg.policy == RoundRobin
    requires forall i | 0 <= i < |cfg.urls| :: FitsAddress(cfg.urls[i])
    requires forall k | 0 <= k < |tr| :: tr[k].states[b].Alive?
    requires EndedCalls(cfg, tr, evs, |evs|) >= |cfg.urls|
    ensures exists k :: 0 <= k < |evs| && HandsOut(cfg, tr[k], evs[k]) == Some(b)
  {
    if forall k | 0 <= k < |evs| :: HandsOut(cfg, tr[k], evs[k]) != Some(b) {
      CursorApproaches(cfg, tr, evs, b, |evs|);
    }
  }
}
