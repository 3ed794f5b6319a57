/** Workers with their hot-swapped settings, and the supervisor that reconciles the running
    workers with a new configuration. */
module Supervisor {
  import opened Numbers
  import opened Wrappers
  import opened Backends
  import opened ReverseProxyStates
  import opened Directives
  import opened Servers

  // Whether certificate and key files can be loaded.
  type TlsLoader = (string, string) -> bool

  predicate Loads(loader: TlsLoader, tls: TlsFiles) {
    tls.cert.Some? && tls.key.Some? ==> loader(tls.cert.value, tls.key.value)
  }

  // The files of the acceptor that is built; none unless both are given.
  function Acceptor(tls: TlsFiles): Option<(string, string)> {
    if tls.cert.Some? && tls.key.Some? then Some((tls.cert.value, tls.key.value)) else None
  }

  // What a worker is to serve.
  datatype Content = Content(hosts: map<string, seq<Directive>>, acceptor: Option<(string, string)>)

  function Desired(server: Server): Content {
    Content(server.hosts, Acceptor(server.tls))
  }

  // A server is served over TLS, with the files of the last tls directive of the last host on its
  // port, iff there is one.
  lemma TlsOfLastHostIsServed(config: Config, order: seq<string>, i: nat, k: int)
    requires forall g | g in order :: g in config
    requires i < |order| && forall j | i < j < |order| :: PortOf(order[j], config[order[j]]) != PortOf(order[i], config[order[i]])
    ensures PortOf(order[i], config[order[i]]) in Build(config, order)
    ensures var ds := config[order[i]];
            var acceptor := Desired(Build(config, order)[PortOf(order[i], ds)]).acceptor;
            && (IsLastTls(ds, k) ==> acceptor == Some((ds[k].cert, ds[k].key)))
            && ((forall d | d in ds :: !d.Tls?) ==> acceptor == None)
  {
    TlsOfThePort(config, order, i);
    TlsIsThatOfLast(config[order[i]]);
  }

  /* ---- proxy states of one host ---- */

  // The last reverse_proxy directive with the pattern.
  function LastProxy(ds: seq<Directive>, pattern: string): (d: Option<Directive>)
    ensures d.Some? ==> d.value in ds && d.value.ReverseProxy? && d.value.pattern == pattern
    ensures d.None? <==> forall i | 0 <= i < |ds| && ds[i].ReverseProxy? :: ds[i].pattern != pattern
    decreases |ds|
  {
    if ds == [] then None
    else
      var d := ds[|ds| - 1];
      if d.ReverseProxy? && d.pattern == pattern then Some(d) else LastProxy(ds[..|ds| - 1], pattern)
  }

  function PolicyOf(options: ReverseProxyOptions): LoadBalancePolicy {
    match options.lbPolicy
    case Some(policy) => policy
    case None => RoundRobin
  }

  type ProxyStates = map<string, ReverseProxyState>

  // Every pattern has its balancer, set up by the last directive that has the pattern.
  ghost predicate SetUp(states: ProxyStates, ds: seq<Directive>) {
    forall p :: if LastProxy(ds, p).None? then p !in states
                else p in states && SetUpBy(states[p], LastProxy(ds, p).value)
  }

  // The address hash is used iff the directive asks for it.
  predicate SetUpBy(state: ReverseProxyState, d: Directive)
    requires d.ReverseProxy?
  {
    && state.urls == d.destinations && state.options == d.options
    && (state.policy == IPHash <==> d.options.lbPolicy == Some(IPHash))
  }

  // A balancer as it starts: all backends alive, the cursor at 0.
  ghost predicate Starts(state: ReverseProxyState, now: u64)
    reads state, state.aliveStates
  {
    state.Valid() && state.currentBackend == 0 && forall i | 0 <= i < state.aliveStates.Length :: state.aliveStates[i] == Alive(now)
  }

  method InitProxyStates(ds: seq<Directive>, now: u64) returns (states: ProxyStates)
    ensures SetUp(states, ds)
    ensures forall p | p in states :: fresh(states[p]) && fresh(states[p].aliveStates) && Starts(states[p], now)
  {
    states := map[];
    for i := 0 to |ds|
      invariant SetUp(states, ds[..i])
      invariant forall p | p in states :: fresh(states[p]) && fresh(states[p].aliveStates) && Starts(states[p], now)
    {
      assert ds[..i + 1][..i] == ds[..i];
      if ds[i].ReverseProxy? {
        var state := new ReverseProxyState(ds[i].destinations, PolicyOf(ds[i].options), ds[i].options, now);
        states := states[ds[i].pattern := state];
      }
    }
    assert ds[..|ds|] == ds;
  }

  /* ---- settings ---- */

  class ServerSettings {
    const content: Content
    const proxyStates: map<string, ProxyStates>   // per host

    constructor (content: Content, proxyStates: map<string, ProxyStates>)
      ensures this.content == content && this.proxyStates == proxyStates
    {
      this.content := content;
      this.proxyStates := proxyStates;
    }

    // Every host has its balancers.
    ghost predicate Complete() {
      && proxyStates.Keys == content.hosts.Keys
      && forall h | h in proxyStates :: SetUp(proxyStates[h], content.hosts[h])
    }

    // The settings with all their balancers.
    ghost function Objects(): set<object> {
      {this}
      + (set h, p | h in proxyStates && p in proxyStates[h] :: proxyStates[h][p])
      + (set h, p | h in proxyStates && p in proxyStates[h] :: proxyStates[h][p].aliveStates)
    }
  }

  // Of these objects, all that are balancers are as they start.
  ghost predicate AllStart(objects: set<object>, now: u64)
    reads set b: ReverseProxyState | b in objects :: b
    reads set b: ReverseProxyState | b in objects :: b.aliveStates
  {
    forall b: ReverseProxyState | b in objects :: Starts(b, now)
  }

  lemma AllStartTogether(some: set<object>, more: set<object>, now: u64)
    requires AllStart(some, now) && AllStart(more, now)
    ensures AllStart(some + more, now)
  {
  }

  // The balancers of every host.
  method BuildDetails(hosts: map<string, seq<Directive>>, now: u64) returns (details: map<string, ProxyStates>)
    ensures details.Keys == hosts.Keys
    ensures forall h | h in details :: SetUp(details[h], hosts[h])
    ensures forall h, p | h in details && p in details[h] ::
              fresh(details[h][p]) && fresh(details[h][p].aliveStates) && Starts(details[h][p], now)
  {
    details := map[];
    var todo := hosts.Keys;
    while todo != {}
      invariant todo <= hosts.Keys && details.Keys == hosts.Keys - todo
      invariant forall h | h in details :: SetUp(details[h], hosts[h])
      invariant forall h, p | h in details && p in details[h] ::
                  fresh(details[h][p]) && fresh(details[h][p].aliveStates) && Starts(details[h][p], now)
      decreases |todo|
    {
      var h :| h in todo;
      var states := InitProxyStates(hosts[h], now);
      details := details[h := states];
      todo := todo - {h};
    }
  }

  method BuildSettings(hosts: map<string, seq<Directive>>, tls: TlsFiles, loader: TlsLoader, now: u64)
    returns (settings: Option<ServerSettings>)
    ensures settings.None? <==> tls.cert.Some? && tls.key.Some? && !loader(tls.cert.value, tls.key.value)
    ensures settings.Some? ==>
              && settings.value.content == Content(hosts, Acceptor(tls)) && settings.value.Complete()
              && AllStart(settings.value.Objects(), now) && fresh(settings.value.Objects())
  {
    if !Loads(loader, tls) {
      return None;
    }
    var details := BuildDetails(hosts, now);
    var built := new ServerSettings(Content(hosts, Acceptor(tls)), details);
    settings := Some(built);
  }

  /* ---- workers ---- */

  class ServerWorker {
    const port: u16
    var settings: ServerSettings      // behind the settings lock
    var isRunning: bool
    var stopNotified: bool

    constructor (port: u16, settings: ServerSettings)
      ensures this.port == port && this.settings == settings && isRunning && !stopNotified
    {
      this.port := port;
      this.settings := settings;
      isRunning := true;
      stopNotified := false;
    }

    // Publish new settings, unless they cannot be built.
    method Update(hosts: map<string, seq<Directive>>, tls: TlsFiles, loader: TlsLoader, now: u64) returns (ok: bool)
      modifies `settings
      ensures ok == Loads(loader, tls)
      ensures ok ==> settings.content == Content(hosts, Acceptor(tls)) && settings.Complete() && AllStart(settings.Objects(), now)
      ensures ok ==> fresh(settings.Objects())
      ensures !ok ==> settings == old(settings)
    {
      var built := BuildSettings(hosts, tls, loader, now);
      ok := built.Some?;
      if ok {
        settings := built.value;
      }
    }

    // Clear the flag, then leave a notification.
    method Stop()
      modifies `isRunning, `stopNotified
      ensures !isRunning && stopNotified
    {
      isRunning := false;
      stopNotified := true;
    }
  }

  // A worker for the server, unless its files cannot be loaded.
  method NewWorker(server: Server, loader: TlsLoader, now: u64)
    returns (worker: Option<ServerWorker>, ghost born: set<object>)
    ensures worker.Some? <==> Loads(loader, server.tls)
    ensures fresh(born) && AllStart(born, now)
    ensures worker.Some? ==>
              && worker.value in born && worker.value.port == server.port
              && worker.value.isRunning && !worker.value.stopNotified
              && worker.value.settings.content == Desired(server) && worker.value.settings.Complete()
              && worker.value.settings.Objects() <= born
  {
    var settings := BuildSettings(server.hosts, server.tls, loader, now);
    if settings.None? {
      return None, {};
    }
    var built := new ServerWorker(server.port, settings.value);
    worker, born := Some(built), settings.value.Objects() + {built};
  }

  /* ---- reconciliation ---- */

  type Contents = map<u16, Content>

  // Every server whose files can be loaded, each with what it is to serve.
  function Loadable(servers: map<u16, Server>, loader: TlsLoader): Contents {
    map p | p in servers && Loads(loader, servers[p].tls) :: Desired(servers[p])
  }

  predicate SomeBroken(ports: set<u16>, servers: map<u16, Server>, loader: TlsLoader) {
    exists p :: p in ports && p in servers && !Loads(loader, servers[p].tls)
  }

  // A pass succeeds iff the files of every worker that is kept can be loaded.
  predicate Passes(ports: set<u16>, servers: map<u16, Server>, loader: TlsLoader) {
    forall p | p in ports && p in servers :: Loads(loader, servers[p].tls)
  }

  // A worker as it stands.
  datatype Seen = Seen(worker: ServerWorker, settings: ServerSettings, isRunning: bool, stopNotified: bool)

  type View = map<u16, Seen>

  ghost function ContentsOf(view: View): Contents {
    map p | p in view :: view[p].settings.content
  }

  // Settings that are what the server wants; they and all their balancers are among `born`.
  ghost predicate Carries(settings: ServerSettings, server: Server, born: set<object>) {
    settings.content == Desired(server) && settings.Complete() && settings.Objects() <= born
  }

  // How a wanted port stands: left as it was, or brought up to date. Kept workers are the same
  // objects, running on; others are started if their files can be loaded.
  ghost predicate Stands(was: View, view: View, p: u16, server: Server, loads: bool, left: bool, born: set<object>) {
    if left then
      (p in view <==> p in was) && (p in was ==> view[p] == was[p])
    else
      && (p in view <==> loads)
      && (p in was ==> p in view && view[p] == was[p].(settings := view[p].settings))
      && (p in view && p !in was ==> view[p].worker in born && view[p].isRunning && !view[p].stopNotified)
      && (p in view ==> Carries(view[p].settings, server, born))
  }

  ghost predicate AllStand(was: View, view: View, servers: map<u16, Server>, loader: TlsLoader, left: set<u16>,
                           born: set<object>) {
    && view.Keys <= servers.Keys
    && forall p | p in servers :: Stands(was, view, p, servers[p], Loads(loader, servers[p].tls), p in left, born)
  }

  lemma ContentsAreLoadable(view: View, servers: map<u16, Server>, loader: TlsLoader)
    requires forall p :: p in view <==> p in servers && Loads(loader, servers[p].tls)
    requires forall p | p in view :: view[p].settings.content == Desired(servers[p])
    ensures ContentsOf(view) == Loadable(servers, loader)
  {
  }

  // Ports that all stand and of which none is left serve exactly what can be loaded, and with
  // settings that are all new.
  lemma StandingContents(was: View, view: View, servers: map<u16, Server>, loader: TlsLoader, born: set<object>)
    requires AllStand(was, view, servers, loader, {}, born)
    ensures ContentsOf(view) == Loadable(servers, loader)
    ensures forall p | p in view :: view[p].settings in born
  {
    forall p | p in servers
      ensures p in view <==> Loads(loader, servers[p].tls)
      ensures p in view ==> view[p].settings.content == Desired(servers[p]) && view[p].settings in born
    {
      assert Stands(was, view, p, servers[p], Loads(loader, servers[p].tls), false, born);
    }
    ContentsAreLoadable(view, servers, loader);
  }

  // The views agree on every port but one.
  ghost predicate SameBut(port: u16, before: View, after: View) {
    forall p | p != port :: (p in after <==> p in before) && (p in before ==> after[p] == before[p])
  }

  // Bringing one port up to date leaves the others as they stand.
  lemma OneMoreStands(was: View, before: View, after: View, servers: map<u16, Server>, loader: TlsLoader, left: set<u16>,
                      port: u16, ok: bool, born: set<object>, more: set<object>)
    requires AllStand(was, before, servers, loader, left, born) && port in servers && port in left
    requires SameBut(port, before, after)
    requires Stands(before, after, port, servers[port], Loads(loader, servers[port].tls), !ok, more)
    ensures AllStand(was, after, servers, loader, if ok then left - {port} else left, born + more)
  {
    var left' := if ok then left - {port} else left;
    forall p | p in servers
      ensures Stands(was, after, p, servers[p], Loads(loader, servers[p].tls), p in left', born + more)
    {
      assert Stands(was, before, p, servers[p], Loads(loader, servers[p].tls), p in left, born);
    }
  }

  // The view has what it had on the given ports, and nothing else.
  ghost predicate Restricted(was: View, view: View, ports: set<u16>) {
    forall p :: (p in view <==> p in was && p in ports) && (p in view ==> view[p] == was[p])
  }

  // No worker comes from anywhere else.
  lemma WorkersAreKnown(was: View, view: View, servers: map<u16, Server>, loader: TlsLoader, left: set<u16>,
                        born: set<object>)
    requires AllStand(was, view, servers, loader, left, born)
    ensures forall p | p in view :: view[p].worker in born || (p in was && view[p].worker == was[p].worker)
  {
    forall p | p in view
      ensures view[p].worker in born || (p in was && view[p].worker == was[p].worker)
    {
      assert Stands(was, view, p, servers[p], Loads(loader, servers[p].tls), p in left, born);
    }
  }

  // What stands with respect to the kept workers stands with respect to all there were.
  lemma KeptStand(was: View, kept: View, view: View, servers: map<u16, Server>, loader: TlsLoader, left: set<u16>,
                  born: set<object>)
    requires Restricted(was, kept, servers.Keys) && AllStand(kept, view, servers, loader, left, born)
    ensures AllStand(was, view, servers, loader, left, born)
    ensures left == {} ==> Passes(was.Keys, servers, loader)
    ensures SomeBroken(kept.Keys * left, servers, loader) ==> !Passes(was.Keys, servers, loader)
  {
    forall p | p in servers
      ensures Stands(was, view, p, servers[p], Loads(loader, servers[p].tls), p in left, born)
    {
      assert Stands(kept, view, p, servers[p], Loads(loader, servers[p].tls), p in left, born);
    }
  }

  class ServerSupervisor {
    var workers: map<u16, ServerWorker>

    constructor ()
      ensures workers == map[]
    {
      workers := map[];
    }

    ghost predicate Valid()
      reads this
    {
      forall p | p in workers :: workers[p].port == p
    }

    ghost function View(): (view: View)
      reads this, workers.Values
      ensures view.Keys == workers.Keys
    {
      map p | p in workers :: Seen(workers[p], workers[p].settings, workers[p].isRunning, workers[p].stopNotified)
    }

    // Stop the workers whose port is no longer wanted.
    method StopUnwanted(servers: map<u16, Server>)
      requires Valid()
      modifies this, workers.Values
      ensures Valid() && Restricted(old(View()), View(), servers.Keys)
      ensures forall p | p in old(workers) && p !in servers :: Halted(old(workers[p]))
    {
      ghost var all, was := workers, View();
      var todo: set<u16> := set p | p in workers && p !in servers;
      ghost var unwanted := todo;
      while todo != {}
        invariant todo <= unwanted
        invariant forall p | p in workers :: p in all && workers[p] == all[p]
        invariant forall p | p in all :: p in workers <==> p !in unwanted || p in todo
        invariant forall p | p in all :: if p in workers then unchanged(all[p]) else Halted(all[p])
        decreases |todo|
      {
        var port: u16 :| port in todo;
        StopOne(port, all);
        todo := todo - {port};
      }
    }

    method StopOne(port: u16, ghost all: map<u16, ServerWorker>)
      requires port in workers && port in all && workers[port] == all[port]
      requires forall p | p in all :: all[p].port == p
      modifies this, workers[port]
      ensures forall p | p in workers :: p in old(workers) && workers[p] == old(workers)[p]
      ensures forall p | p in old(workers) :: p in workers <==> p != port
      ensures Halted(all[port])
      ensures forall p | p in all && p != port :: unchanged(all[p])
    {
      var worker := workers[port];
      workers := workers - {port};
      worker.Stop();
    }

    // Update the worker on the port, or start one. Fails only if a running worker cannot load
    // its files.
    method ApplyServer(port: u16, server: Server, loader: TlsLoader, now: u64)
      returns (ok: bool, ghost born: set<object>)
      requires Valid() && server.port == port
      modifies this, (if port in workers then {workers[port]} else {})`settings
      ensures Valid()
      ensures ok <==> port in old(workers) ==> Loads(loader, server.tls)
      ensures fresh(born) && AllStart(born, now) && SameBut(port, old(View()), View())
      ensures Stands(old(View()), View(), port, server, Loads(loader, server.tls), !ok, born)
    {
      ok, born := true, {};
      if port in workers {
        var worker := workers[port];
        ok := worker.Update(server.hosts, server.tls, loader, now);
        if ok {
          born := worker.settings.Objects();
        }
      } else {
        var worker: Option<ServerWorker>;
        worker, born := NewWorker(server, loader, now);
        if worker.Some? {
          workers := workers[port := worker.value];
        }
      }
    }

    // The same, seen from the whole pass: what was born earlier is as it starts still.
    method ApplyNext(port: u16, server: Server, loader: TlsLoader, now: u64, ghost earlier: set<object>)
      returns (ok: bool, ghost born: set<object>)
      requires Valid() && server.port == port && AllStart(earlier, now)
      modifies this, (if port in workers then {workers[port]} else {})`settings
      ensures Valid()
      ensures ok <==> port in old(workers) ==> Loads(loader, server.tls)
      ensures fresh(born) && AllStart(earlier + born, now) && SameBut(port, old(View()), View())
      ensures Stands(old(View()), View(), port, server, Loads(loader, server.tls), !ok, born)
    {
      ok, born := ApplyServer(port, server, loader, now);
      forall b: ReverseProxyState | b in earlier ensures Starts(b, now) {
        assert old(Starts(b, now));
      }
      AllStartTogether(earlier, born, now);
    }

    // Bring every wanted server up to date, in whatever order the map yields them, until one
    // fails. Those `left` are as they were.
    method ApplyServers(servers: map<u16, Server>, loader: TlsLoader, now: u64)
      returns (ok: bool, ghost left: set<u16>, ghost born: set<object>)
      requires Valid() && WellKeyed(servers)
      requires workers.Keys <= servers.Keys
      modifies this, workers.Values`settings
      ensures Valid() && left <= servers.Keys
      ensures if ok then left == {} else SomeBroken(old(View()).Keys * left, servers, loader)
      ensures fresh(born) && AllStart(born, now) && AllStand(old(View()), View(), servers, loader, left, born)
    {
      ghost var was := View();
      var todo: set<u16> := servers.Keys;
      ok, born := true, {};
      while ok && todo != {}
        invariant todo <= servers.Keys && Valid()
        invariant fresh(born) && AllStart(born, now) && AllStand(was, View(), servers, loader, todo, born)
        invariant !ok ==> SomeBroken(was.Keys * todo, servers, loader)
        decreases |todo|, ok
      {
        var port: u16 :| port in todo;
        ghost var before, more := View(), {};
        ok, more := ApplyNext(port, servers[port], loader, now, born);
        OneMoreStands(was, before, View(), servers, loader, todo, port, ok, born, more);
        born := born + more;
        if ok {
          todo := todo - {port};
        }
      }
      left := todo;
    }

    // One pass over the workers for a new configuration.
    method ProcessWorkers(servers: map<u16, Server>, loader: TlsLoader, now: u64)
      returns (ok: bool, ghost left: set<u16>, ghost born: set<object>)
      requires Valid() && WellKeyed(servers)
      modifies this, workers.Values
      ensures Valid() && (ok <==> Passes(old(workers).Keys, servers, loader))
      ensures forall p | p in old(workers) && p !in servers :: Halted(old(workers[p]))
      ensures left <= servers.Keys && (ok ==> left == {})
      ensures fresh(born) && AllStart(born, now) && AllStand(old(View()), View(), servers, loader, left, born)
      ensures ok ==> ContentsOf(View()) == Loadable(servers, loader)
      ensures ok ==> forall p | p in View() :: View()[p].settings in born
    {
      ghost var was := View();
      StopUnwanted(servers);
      ghost var kept := View();
      ok, left, born := ApplyServers(servers, loader, now);
      KeptStand(was, kept, View(), servers, loader, left, born);
      if ok {
        StandingContents(was, View(), servers, loader, born);
      }
    }
  }

  // The worker has been told to stop.
  predicate Halted(worker: ServerWorker)
    reads worker
  {
    !worker.isRunning && worker.stopNotified
  }
}
