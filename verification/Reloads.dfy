/** The supervisor's loop: one pass for each configuration it is sent, until a pass fails and
    ends the process. */
module Reloads {
  import opened Numbers
  import opened Servers
  import opened Supervisor

  datatype Reload = Reload(servers: map<u16, Server>, loader: TlsLoader)

  // The process and what its workers are to serve; an exited process has none.
  datatype Process = Running(contents: Contents) | Exited

  // The process has a worker for the port.
  predicate Held(process: Process, p: u16) {
    process.Running? && p in process.contents
  }

  // The port is wanted and can be loaded.
  predicate CanServe(reload: Reload, p: u16) {
    p in reload.servers && Loads(reload.loader, reload.servers[p].tls)
  }

  // A port that the earlier reload could serve is wanted by the later one, which cannot load it.
  predicate Breaks(earlier: Reload, later: Reload) {
    exists p :: CanServe(earlier, p) && p in later.servers && !CanServe(later, p)
  }

  predicate Unbroken(reloads: seq<Reload>) {
    forall i | 0 < i < |reloads| :: !Breaks(reloads[i - 1], reloads[i])
  }

  function Serving(reload: Reload): Contents {
    Loadable(reload.servers, reload.loader)
  }

  /* ---- runs ---- */

  // What one pass makes of the process. A failed pass exits, whatever it has done before.
  predicate Passed(before: Process, reload: Reload, after: Process) {
    if before.Running? && Passes(before.contents.Keys, reload.servers, reload.loader)
    then after == Running(Serving(reload))
    else after == Exited
  }

  // The process before, between and after the passes of a run.
  predicate Run(states: seq<Process>, reloads: seq<Reload>) {
    && |states| == |reloads| + 1 && states[0] == Running(map[])
    && forall i | 0 <= i < |reloads| :: PassedAt(states, reloads, i)
  }

  predicate PassedAt(states: seq<Process>, reloads: seq<Reload>, i: nat)
    requires i < |reloads| && |states| == |reloads| + 1
  {
    Passed(states[i], reloads[i], states[i + 1])
  }

  // What the last of the reloads can serve.
  function LastServing(reloads: seq<Reload>): Contents {
    if reloads == [] then map[] else Serving(reloads[|reloads| - 1])
  }

  // While the process lives it holds exactly what the last reload wants and can load; and it
  // lives as long as no port it holds is broken by a reload.
  lemma {:induction false} LivesWhileUnbroken(states: seq<Process>, reloads: seq<Reload>, n: nat)
    requires Run(states, reloads) && n < |states|
    ensures states[n] == if Unbroken(reloads[..n]) then Running(LastServing(reloads[..n])) else Exited
    decreases n
  {
    if n > 0 {
      LivesWhileUnbroken(states, reloads, n - 1);
      assert PassedAt(states, reloads, n - 1);
      OneMoreReload(reloads, n - 1);
    }
  }

  // The next pass succeeds iff its reload breaks nothing.
  lemma OneMoreReload(reloads: seq<Reload>, i: nat)
    requires i < |reloads|
    ensures Unbroken(reloads[..i + 1]) <==>
              Unbroken(reloads[..i]) && Passes(LastServing(reloads[..i]).Keys, reloads[i].servers, reloads[i].loader)
    ensures LastServing(reloads[..i + 1]) == Serving(reloads[i])
    ensures Unbroken(reloads) ==> Unbroken(reloads[..i + 1])
  {
    var shorter, longer := reloads[..i], reloads[..i + 1];
    assert forall j | 0 <= j < i :: longer[j] == shorter[j];
    if i > 0 {
      BreaksIffPassFails(shorter[i - 1], reloads[i]);
      assert longer[i] == reloads[i] && longer[i - 1] == shorter[i - 1];
    }
  }

  lemma BreaksIffPassFails(earlier: Reload, later: Reload)
    ensures Breaks(earlier, later) <==> !Passes(Serving(earlier).Keys, later.servers, later.loader)
  {
    if !Passes(Serving(earlier).Keys, later.servers, later.loader) {
      var p :| p in Serving(earlier).Keys && p in later.servers && !Loads(later.loader, later.servers[p].tls);
      assert CanServe(earlier, p) && !CanServe(later, p);
    }
  }

  // Once a reload breaks a port that is held nothing is held ever after, not even what that
  // reload could load.
  lemma BrokenPortEndsEverything(states: seq<Process>, reloads: seq<Reload>, i: nat, n: nat, p: u16)
    requires Run(states, reloads) && 0 < i < n < |states| && Breaks(reloads[i - 1], reloads[i])
    ensures states[n] == Exited && !Held(states[n], p)
  {
    LivesWhileUnbroken(states, reloads, n);
    assert reloads[..n][i] == reloads[i] && reloads[..n][i - 1] == reloads[i - 1];
  }

  // A port is held after a reload iff that reload can serve it and none so far broke a port
  // that was held: nothing of the earlier reloads remains.
  lemma HeldIffLoadableAndUnbroken(states: seq<Process>, reloads: seq<Reload>, n: nat, p: u16)
    requires Run(states, reloads) && 0 < n < |states|
    ensures Held(states[n], p) <==> CanServe(reloads[n - 1], p) && Unbroken(reloads[..n])
  {
    LivesWhileUnbroken(states, reloads, n);
  }

  // Sending the same configuration again is never what ends the process, and keeps ports and
  // contents. (The settings are new all the same, with their balancers.)
  lemma ReapplyingKeepsContents(states: seq<Process>, reloads: seq<Reload>, n: nat)
    requires Run(states, reloads) && 0 < n < |reloads| && reloads[n] == reloads[n - 1]
    ensures states[n + 1] == states[n]
  {
    assert PassedAt(states, reloads, n);
    LivesWhileUnbroken(states, reloads, n);
    BreaksIffPassFails(reloads[n - 1], reloads[n]);
  }

  /* ---- listening ---- */

  // The reload starts a worker for the port.
  predicate StartsAt(reloads: seq<Reload>, i: nat, p: u16)
    requires i < |reloads|
  {
    CanServe(reloads[i], p) && (i == 0 || !CanServe(reloads[i - 1], p))
  }

  // Those are the ports that have a worker only from that reload on.
  lemma StartsIffNewlyHeld(states: seq<Process>, reloads: seq<Reload>, i: nat, p: u16)
    requires Run(states, reloads) && i < |reloads| && states[i + 1].Running?
    ensures StartsAt(reloads, i, p) <==> Held(states[i + 1], p) && !Held(states[i], p)
  {
    LivesWhileUnbroken(states, reloads, i);
    LivesWhileUnbroken(states, reloads, i + 1);
    OneMoreReload(reloads, i);
  }

  // Whether the port is listened on after n reloads. binds(i, p) tells whether the worker that
  // reload i starts can bind its port; if it cannot, it stays, and later reloads only update it.
  predicate Listens(reloads: seq<Reload>, binds: (nat, u16) -> bool, n: nat, p: u16)
    requires n <= |reloads|
  {
    && n > 0 && CanServe(reloads[n - 1], p)
    && (Listens(reloads, binds, n - 1, p) || (StartsAt(reloads, n - 1, p) && binds(n - 1, p)))
  }

  // The worker that was started by reload i, bound its port, and has been kept since.
  predicate BoundAtStart(reloads: seq<Reload>, binds: (nat, u16) -> bool, n: nat, p: u16, i: int)
    requires n <= |reloads|
  {
    0 <= i < n && StartsAt(reloads, i, p) && binds(i, p) && forall k | i <= k < n :: CanServe(reloads[k], p)
  }

  lemma {:induction false} ListensIffBoundAtStart(reloads: seq<Reload>, binds: (nat, u16) -> bool, n: nat, p: u16)
    requires n <= |reloads|
    ensures Listens(reloads, binds, n, p) <==> exists i :: BoundAtStart(reloads, binds, n, p, i)
    decreases n
  {
    if n > 0 {
      ListensIffBoundAtStart(reloads, binds, n - 1, p);
      if Listens(reloads, binds, n, p) {
        if Listens(reloads, binds, n - 1, p) {
          var i :| BoundAtStart(reloads, binds, n - 1, p, i);
          assert BoundAtStart(reloads, binds, n, p, i);
        } else {
          assert BoundAtStart(reloads, binds, n, p, n - 1);
        }
      }
      if i :| BoundAtStart(reloads, binds, n, p, i) {
        assert i < n - 1 ==> BoundAtStart(reloads, binds, n - 1, p, i);
        assert CanServe(reloads[n - 1], p);
      }
    }
  }

  // A port is answered after n reloads iff the process lives and the port's worker bound it when
  // it was started, whatever reloads came since.
  lemma AnsweredIffBoundAtStart(states: seq<Process>, reloads: seq<Reload>, binds: (nat, u16) -> bool, n: nat, p: u16)
    requires Run(states, reloads) && n < |states|
    ensures Held(states[n], p) && Listens(reloads, binds, n, p) <==>
            Unbroken(reloads[..n]) && exists i :: BoundAtStart(reloads, binds, n, p, i)
  {
    LivesWhileUnbroken(states, reloads, n);
    ListensIffBoundAtStart(reloads, binds, n, p);
  }

  /* ---- the loop ---- */

  // The supervisor is sent the reloads one by one, the i-th at clock(i). It ends as its runs do.
  method Supervise(reloads: seq<Reload>, clock: nat -> u64) returns (process: Process, sup: ServerSupervisor)
    requires forall i | 0 <= i < |reloads| :: WellKeyed(reloads[i].servers)
    ensures process == if Unbroken(reloads) then Running(LastServing(reloads)) else Exited
    ensures process.Running? ==> process.contents == ContentsOf(sup.View())
  {
    sup := new ServerSupervisor();
    for i := 0 to |reloads|
      invariant fresh(sup) && sup.Valid() && forall p | p in sup.View() :: fresh(sup.View()[p].worker)
      invariant Unbroken(reloads[..i]) && ContentsOf(sup.View()) == LastServing(reloads[..i])
    {
      var ok: bool;
      ghost var left, born;
      OneMoreReload(reloads, i);
      assert sup.workers.Keys == ContentsOf(sup.View()).Keys;
      ghost var was := sup.View();
      ok, left, born := sup.ProcessWorkers(reloads[i].servers, reloads[i].loader, clock(i));
      WorkersAreKnown(was, sup.View(), reloads[i].servers, reloads[i].loader, left, born);
      if !ok {
        return Exited, sup;
      }
    }
    assert reloads[..|reloads|] == reloads;
    process := Running(LastServing(reloads));
  }
}
