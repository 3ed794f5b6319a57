/** Building the servers, one per port, from the configured hosts. */
module Servers {
  import opened Numbers
  import opened Wrappers
  import opened Decimals
  import opened Routing
  import opened Directives

  datatype TlsFiles = TlsFiles(cert: Option<string>, key: Option<string>)

  datatype Server = Server(port: u16, hosts: map<string, seq<Directive>>, tls: TlsFiles)

  type Config = map<string, seq<Directive>>

  /* ---- one host ---- */

  datatype ParsedHost = ParsedHost(host: string, port: Option<u16>)

  function FirstColon(s: string): (i: nat)
    ensures i <= |s| && ':' !in s[..i]
    ensures i < |s| ==> s[i] == ':'
  {
    if s == "" || s[0] == ':' then 0
    else
      var i := 1 + FirstColon(s[1..]);
      assert s[..i] == [s[0]] + s[1..][..i - 1];
      i
  }

  // Split at the first colon; a port that is no number counts as absent.
  function ParseHost(s: string): ParsedHost {
    var i := FirstColon(s);
    if i == |s| then ParsedHost(s, None) else ParsedHost(s[..i], ParseUnsigned(s[i + 1..], U16))
  }

  lemma HostKeepsNameIffNoColon(s: string)
    ensures ParseHost(s).host == s <==> ':' !in s
  {
  }

  // The port is the number after the first colon.
  lemma HostNamesItsPort(name: string, port: string)
    requires ':' !in name
    ensures ParseHost(name + ":" + port) == ParsedHost(name, ParseUnsigned(port, 65536))
  {
    var s := name + ":" + port;
    assert s[|name|] == ':' && s[..|name|] == name && s[|name| + 1..] == port;
    assert FirstColon(s) == |name| by {
      assert forall i | 0 <= i < |name| :: s[..|name|][i] == s[i] && name[i] in name;
    }
  }

  // The files of the last tls directive.
  function TlsOf(ds: seq<Directive>): TlsFiles
    decreases |ds|
  {
    if ds == [] then TlsFiles(None, None)
    else
      var d := ds[|ds| - 1];
      if d.Tls? then TlsFiles(Some(d.cert), Some(d.key)) else TlsOf(ds[..|ds| - 1])
  }

  function PortOf(host: string, ds: seq<Directive>): u16 {
    match ParseHost(host).port
    case Some(port) => port
    case None => if TlsOf(ds).cert.Some? then 443 else 80
  }

  ghost predicate IsLastTls(ds: seq<Directive>, i: int) {
    0 <= i < |ds| && ds[i].Tls? && forall j | i < j < |ds| :: !ds[j].Tls?
  }

  lemma {:induction false} TlsIsThatOfLast(ds: seq<Directive>)
    ensures (forall d | d in ds :: !d.Tls?) ==> TlsOf(ds) == TlsFiles(None, None)
    ensures forall i | IsLastTls(ds, i) :: TlsOf(ds) == TlsFiles(Some(ds[i].cert), Some(ds[i].key))
    decreases |ds|
  {
    if ds != [] && !ds[|ds| - 1].Tls? {
      var front := ds[..|ds| - 1];
      TlsIsThatOfLast(front);
      forall i | IsLastTls(ds, i) ensures TlsOf(ds) == TlsFiles(Some(ds[i].cert), Some(ds[i].key)) {
        assert IsLastTls(front, i);
      }
    }
  }

  // Without a number of its own a host is on 443 if it has a tls directive, on 80 otherwise; with
  // one it is on that port.
  lemma PortOfHost(host: string, ds: seq<Directive>)
    ensures ':' !in host ==> PortOf(host, ds) == if exists d :: d in ds && d.Tls? then 443 else 80
    ensures forall name, port: u16 | ':' !in name && host == name + ":" + ToString(port) :: PortOf(host, ds) == port
  {
    TlsIsThatOfLast(ds);
    if exists d :: d in ds && d.Tls? {
      SomeLastTls(ds);
    }
    forall name, port: u16 | ':' !in name && host == name + ":" + ToString(port) ensures PortOf(host, ds) == port {
      HostNamesItsPort(name, ToString(port));
      ParseOfToString(port, 65536);
    }
  }

  lemma {:induction false} SomeLastTls(ds: seq<Directive>)
    requires exists d :: d in ds && d.Tls?
    ensures exists i :: IsLastTls(ds, i)
    decreases |ds|
  {
    var m := |ds| - 1;
    if ds[m].Tls? {
      assert IsLastTls(ds, m);
    } else {
      assert ds == ds[..m] + [ds[m]];
      SomeLastTls(ds[..m]);
      var i :| IsLastTls(ds[..m], i);
      assert IsLastTls(ds, i);
    }
  }

  /* ---- all hosts, in the order the map yields them ---- */

  // The first host on a port is entered under its name without the port, a later one
  // under its full text; the last one decides the tls files.
  function Insert(servers: map<u16, Server>, host: string, ds: seq<Directive>): map<u16, Server> {
    var port := PortOf(host, ds);
    if port in servers then
      servers[port := servers[port].(hosts := servers[port].hosts[host := ds], tls := TlsOf(ds))]
    else
      servers[port := Server(port, map[ParseHost(host).host := ds], TlsOf(ds))]
  }

  function Build(config: Config, order: seq<string>): map<u16, Server>
    requires forall h | h in order :: h in config
  {
    if order == [] then map[]
    else
      var h := order[|order| - 1];
      Insert(Build(config, order[..|order| - 1]), h, config[h])
  }

  method BuildServers(config: Config, order: seq<string>) returns (servers: map<u16, Server>)
    requires IsOrder(order, config.Keys)
    ensures servers == Build(config, order)
  {
    servers := map[];
    for i := 0 to |order|
      invariant servers == Build(config, order[..i])
    {
      assert order[..i + 1][..i] == order[..i];
      var host := order[i];
      var ds := config[host];
      var port: u16, tls := 80, TlsFiles(None, None);
      for j := 0 to |ds|
        invariant tls == TlsOf(ds[..j])
        invariant port == if tls.cert.Some? then 443 else 80
      {
        assert ds[..j + 1][..j] == ds[..j];
        if ds[j].Tls? {
          port, tls := 443, TlsFiles(Some(ds[j].cert), Some(ds[j].key));
        }
      }
      assert ds[..|ds|] == ds;
      var parsed := ParseHost(host);
      if parsed.port.Some? {
        port := parsed.port.value;
      }
      if port in servers {
        var hosts := servers[port].hosts[host := ds];
        servers := servers[port := servers[port].(hosts := hosts, tls := tls)];
      } else {
        servers := servers[port := Server(port, map[parsed.host := ds], tls)];
      }
    }
    assert order[..|order|] == order;
  }

  ghost predicate WellKeyed(servers: map<u16, Server>) {
    forall p | p in servers :: servers[p].port == p
  }

  lemma {:induction false} BuildIsWellKeyed(config: Config, order: seq<string>)
    requires forall h | h in order :: h in config
    ensures WellKeyed(Build(config, order))
    ensures forall p :: p in Build(config, order) <==> exists h :: h in order && PortOf(h, config[h]) == p
    decreases |order|
  {
    if order != [] {
      var h := order[|order| - 1];
      var front := order[..|order| - 1];
      BuildIsWellKeyed(config, front);
      assert order == front + [h];
    }
  }

  // On the port of h the directives of h are entered under its name.
  ghost predicate IsServed(config: Config, order: seq<string>, h: string)
    requires forall g | g in order :: g in config
  {
    var servers := Build(config, order);
    h in config && var p := PortOf(h, config[h]); p in servers && h in servers[p].hosts && servers[p].hosts[h] == config[h]
  }

  // A host without a port in its name is served under that name, unless another host of its port
  // has the name before its colon.
  lemma {:induction false} PlainHostIsServed(config: Config, order: seq<string>, h: string)
    requires forall g | g in order :: g in config
    requires h in order && ':' !in h
    requires forall g | g in order && g != h && PortOf(g, config[g]) == PortOf(h, config[h]) :: ParseHost(g).host != h
    ensures IsServed(config, order, h)
    decreases |order|
  {
    var g, front := order[|order| - 1], order[..|order| - 1];
    assert order == front + [g];
    HostKeepsNameIffNoColon(h);
    if g != h {
      PlainHostIsServed(config, front, h);
    }
  }

  // The tls files of a port are those of the last host on it.
  lemma {:induction false} TlsOfThePort(config: Config, order: seq<string>, i: nat)
    requires forall g | g in order :: g in config
    requires i < |order| && forall j | i < j < |order| :: PortOf(order[j], config[order[j]]) != PortOf(order[i], config[order[i]])
    ensures var p := PortOf(order[i], config[order[i]]);
            p in Build(config, order) && Build(config, order)[p].tls == TlsOf(config[order[i]])
    decreases |order|
  {
    if i < |order| - 1 {
      var front := order[..|order| - 1];
      assert forall j | 0 <= j < |front| :: front[j] == order[j];
      TlsOfThePort(config, front, i);
    }
  }

  /* ---- when the order does not matter ---- */

  ghost predicate SharePort(config: Config, g: string, h: string) {
    g in config && h in config && g != h && PortOf(g, config[g]) == PortOf(h, config[h])
  }

  // Hosts that share a port name no port and agree on the tls files.
  ghost predicate Unambiguous(config: Config) {
    forall g, h | SharePort(config, g, h) ::
      ':' !in g && ':' !in h && TlsOf(config[g]) == TlsOf(config[h])
  }

  // Some host of `order` is on port p, entered under the name k.
  ghost predicate HasHost(config: Config, order: seq<string>, p: u16, k: string)
    requires forall h | h in order :: h in config
  {
    exists h :: h in order && PortOf(h, config[h]) == p && ParseHost(h).host == k
  }

  // Host h is entered on its port, under its name without the port.
  ghost predicate Hosts(config: Config, h: string, servers: map<u16, Server>)
    requires h in config
  {
    var p, key := PortOf(h, config[h]), ParseHost(h).host;
    && p in servers && servers[p].port == p && servers[p].tls == TlsOf(config[h])
    && key in servers[p].hosts && servers[p].hosts[key] == config[h]
  }

  // What the servers are after the hosts of `order`, when the configuration is unambiguous.
  ghost predicate Serves(config: Config, order: seq<string>, servers: map<u16, Server>)
    requires forall h | h in order :: h in config
  {
    && (forall p | p in servers :: servers[p].hosts != map[])
    && (forall h {:trigger Hosts(config, h, servers)} | h in order :: Hosts(config, h, servers))
    && (forall p, k {:trigger HasHost(config, order, p, k)} | p in servers && k in servers[p].hosts :: HasHost(config, order, p, k))
  }

  // On a port that is taken, an unambiguous host names no port.
  lemma TakenPortMeansNoColon(config: Config, order: seq<string>, h: string, servers: map<u16, Server>)
    requires Unambiguous(config) && h in config && h !in order && forall f | f in order :: f in config
    requires Serves(config, order, servers) && PortOf(h, config[h]) in servers
    ensures ParseHost(h).host == h
  {
    var p := PortOf(h, config[h]);
    var k :| k in servers[p].hosts;
    assert HasHost(config, order, p, k);
    var f :| f in order && PortOf(f, config[f]) == p && ParseHost(f).host == k;
    assert SharePort(config, f, h);
    HostKeepsNameIffNoColon(h);
  }

  lemma InsertHosts(config: Config, order: seq<string>, h: string, servers: map<u16, Server>)
    requires Unambiguous(config) && h in config && h !in order && forall f | f in order :: f in config
    requires Serves(config, order, servers)
    requires forall p | p in servers :: servers[p].port == p
    ensures Hosts(config, h, Insert(servers, h, config[h]))
  {
    if PortOf(h, config[h]) in servers {
      TakenPortMeansNoColon(config, order, h, servers);
    }
  }

  lemma InsertKeepsHosts(config: Config, order: seq<string>, h: string, servers: map<u16, Server>, g: string)
    requires Unambiguous(config) && h in config && h !in order && forall f | f in order :: f in config
    requires g in order && Hosts(config, g, servers)
    ensures Hosts(config, g, Insert(servers, h, config[h]))
  {
    if PortOf(g, config[g]) == PortOf(h, config[h]) {
      assert SharePort(config, g, h);
      HostKeepsNameIffNoColon(g);
    }
  }

  lemma InsertAddsOnlyHost(config: Config, order: seq<string>, h: string, servers: map<u16, Server>, q: u16, k: string)
    requires Unambiguous(config) && h in config && h !in order && forall f | f in order :: f in config
    requires Serves(config, order, servers)
    requires var servers' := Insert(servers, h, config[h]); q in servers' && k in servers'[q].hosts
    ensures HasHost(config, order + [h], q, k)
  {
    if q in servers && k in servers[q].hosts {
      assert HasHost(config, order, q, k);
      var f :| f in order && PortOf(f, config[f]) == q && ParseHost(f).host == k;
      assert f in order + [h];
    } else {
      assert h in order + [h];
      if q in servers {
        TakenPortMeansNoColon(config, order, h, servers);
      }
    }
  }

  lemma {:induction false} BuildServes(config: Config, order: seq<string>)
    requires Unambiguous(config)
    requires forall h | h in order :: h in config
    requires forall i, j | 0 <= i < j < |order| :: order[i] != order[j]
    ensures Serves(config, order, Build(config, order))
    decreases |order|
  {
    if order != [] {
      var h, front := order[|order| - 1], order[..|order| - 1];
      BuildServes(config, front);
      assert order == front + [h];
      var servers, servers' := Build(config, front), Build(config, order);
      assert h !in front;
      BuildIsWellKeyed(config, front);
      InsertHosts(config, front, h, servers);
      forall g | g in order ensures Hosts(config, g, servers') {
        if g != h {
          assert Hosts(config, g, servers);
          InsertKeepsHosts(config, front, h, servers, g);
        }
      }
      forall p, k | p in servers' && k in servers'[p].hosts ensures HasHost(config, order, p, k) {
        InsertAddsOnlyHost(config, front, h, servers, p, k);
      }
      forall p | p in servers' ensures servers'[p].hosts != map[] {
        if p == PortOf(h, config[h]) {
          assert Hosts(config, h, servers');
        }
      }
    }
  }

  lemma ServesDetermines(config: Config, o1: seq<string>, o2: seq<string>, s1: map<u16, Server>, s2: map<u16, Server>, p: u16)
    requires IsOrder(o1, config.Keys) && IsOrder(o2, config.Keys)
    requires Serves(config, o1, s1) && Serves(config, o2, s2) && p in s1
    ensures p in s2 && s1[p].port == s2[p].port && s1[p].tls == s2[p].tls
    ensures forall k | k in s1[p].hosts :: k in s2[p].hosts && s2[p].hosts[k] == s1[p].hosts[k]
  {
    var l :| l in s1[p].hosts;
    forall k | k in s1[p].hosts
      ensures p in s2 && k in s2[p].hosts && s2[p].hosts[k] == s1[p].hosts[k]
      ensures s1[p].port == s2[p].port && s1[p].tls == s2[p].tls
    {
      assert HasHost(config, o1, p, k);
      var h :| h in o1 && PortOf(h, config[h]) == p && ParseHost(h).host == k;
      assert Hosts(config, h, s1) && Hosts(config, h, s2);
    }
    assert l in s2[p].hosts;
  }

  lemma UnambiguousIsOrderFree(config: Config, o1: seq<string>, o2: seq<string>)
    requires Unambiguous(config) && IsOrder(o1, config.Keys) && IsOrder(o2, config.Keys)
    ensures Build(config, o1) == Build(config, o2)
  {
    BuildServes(config, o1);
    BuildServes(config, o2);
    SameServers(config, o1, o2, Build(config, o1), Build(config, o2));
  }

  lemma SameServer(config: Config, o1: seq<string>, o2: seq<string>, s1: map<u16, Server>, s2: map<u16, Server>, p: u16)
    requires IsOrder(o1, config.Keys) && IsOrder(o2, config.Keys)
    requires Serves(config, o1, s1) && Serves(config, o2, s2) && p in s1
    ensures p in s2 && s1[p] == s2[p]
  {
    ServesDetermines(config, o1, o2, s1, s2, p);
    ServesDetermines(config, o2, o1, s2, s1, p);
    assert s1[p].hosts == s2[p].hosts;
  }

  lemma SameServers(config: Config, o1: seq<string>, o2: seq<string>, s1: map<u16, Server>, s2: map<u16, Server>)
    requires IsOrder(o1, config.Keys) && IsOrder(o2, config.Keys)
    requires Serves(config, o1, s1) && Serves(config, o2, s2)
    ensures s1 == s2
  {
    assert forall p | p in s1 :: p in s2 && s1[p] == s2[p] by {
      forall p | p in s1 ensures p in s2 && s1[p] == s2[p] {
        SameServer(config, o1, o2, s1, s2, p);
      }
    }
    assert forall p | p in s2 :: p in s1 by {
      forall p | p in s2 ensures p in s1 {
        SameServer(config, o2, o1, s2, s1, p);
      }
    }
  }

  lemma InsertOnTakenPort(servers: map<u16, Server>, h: string, ds: seq<Directive>, p: u16)
    requires p in servers
    ensures p in Insert(servers, h, ds)
    ensures Insert(servers, h, ds)[p].hosts.Keys == servers[p].hosts.Keys + if PortOf(h, ds) == p then {h} else {}
  {
  }

  function OnPort(config: Config, order: seq<string>, p: u16): set<string>
    requires forall h | h in order :: h in config
  {
    set h | h in order && PortOf(h, config[h]) == p
  }

  lemma OnPortExtends(config: Config, front: seq<string>, h: string, p: u16)
    requires h in config && forall g | g in front :: g in config
    ensures forall g | g in front + [h] :: g in config
    ensures OnPort(config, front + [h], p) == OnPort(config, front, p) + if PortOf(h, config[h]) == p then {h} else {}
  {
  }

  lemma BuildExtends(config: Config, front: seq<string>, h: string)
    requires h in config && forall g | g in front :: g in config
    ensures forall g | g in front + [h] :: g in config
    ensures Build(config, front + [h]) == Insert(Build(config, front), h, config[h])
  {
  }

  // The names on the port of `first`, when it comes first: later hosts keep their full text.
  ghost predicate FirstLosesItsPort(config: Config, first: string, rest: seq<string>)
    requires first in config && forall h | h in rest :: h in config
  {
    var p, servers := PortOf(first, config[first]), Build(config, [first] + rest);
    p in servers && servers[p].hosts.Keys == {ParseHost(first).host} + OnPort(config, rest, p)
  }

  lemma {:induction false} LaterHostsKeepTheirText(config: Config, first: string, rest: seq<string>)
    requires first in config && forall h | h in rest :: h in config
    ensures FirstLosesItsPort(config, first, rest)
    decreases |rest|
  {
    if rest == [] {
      OnlyHostLosesItsPort(config, first);
    } else {
      var front, h := rest[..|rest| - 1], rest[|rest| - 1];
      assert rest == front + [h];
      LaterHostsKeepTheirText(config, first, front);
      OneMoreLaterHost(config, first, front, h);
    }
  }

  lemma OnlyHostLosesItsPort(config: Config, first: string)
    requires first in config
    ensures FirstLosesItsPort(config, first, [])
  {
    BuildExtends(config, [], first);
    assert [first] + [] == [] + [first];
    assert OnPort(config, [], PortOf(first, config[first])) == {};
  }

  lemma OneMoreLaterHost(config: Config, first: string, front: seq<string>, h: string)
    requires first in config && h in config && forall g | g in front :: g in config
    requires FirstLosesItsPort(config, first, front)
    ensures forall g | g in front + [h] :: g in config
    ensures FirstLosesItsPort(config, first, front + [h])
  {
    var p := PortOf(first, config[first]);
    BuildExtends(config, [first] + front, h);
    assert [first] + (front + [h]) == [first] + front + [h];
    InsertOnTakenPort(Build(config, [first] + front), h, config[h], p);
    OnPortExtends(config, front, h, p);
  }

  lemma OrderStartingWith(keys: set<string>, k: string) returns (rest: seq<string>)
    requires k in keys
    ensures IsOrder([k] + rest, keys) && IsOrder(rest + [k], keys)
    ensures forall l :: l in rest <==> l in keys && l != k
  {
    rest := SomeOrder(keys - {k});
  }

  // A host that names its port, sharing it with another, is entered differently first and last.
  lemma ColonMakesOrderMatter(config: Config, g: string, h: string) returns (o1: seq<string>, o2: seq<string>)
    requires SharePort(config, g, h) && ':' in g
    ensures IsOrder(o1, config.Keys) && IsOrder(o2, config.Keys) && Build(config, o1) != Build(config, o2)
  {
    var r1 := OrderStartingWith(config.Keys, g);
    var r2 := OrderStartingWith(config.Keys, h);
    o1, o2 := [g] + r1, [h] + r2;
    var p := PortOf(g, config[g]);
    assert p in Build(config, o1) && g !in Build(config, o1)[p].hosts by {
      LaterHostsKeepTheirText(config, g, r1);
      HostKeepsNameIffNoColon(g);
    }
    assert p in Build(config, o2) && g in Build(config, o2)[p].hosts by {
      LaterHostsKeepTheirText(config, h, r2);
    }
  }

  // Of two hosts on a port with different tls files, the last one wins.
  lemma TlsMakesOrderMatter(config: Config, g: string, h: string) returns (o1: seq<string>, o2: seq<string>)
    requires SharePort(config, g, h) && TlsOf(config[g]) != TlsOf(config[h])
    ensures IsOrder(o1, config.Keys) && IsOrder(o2, config.Keys) && Build(config, o1) != Build(config, o2)
  {
    var r1 := OrderStartingWith(config.Keys, g);
    var r2 := OrderStartingWith(config.Keys, h);
    o1, o2 := r1 + [g], r2 + [h];
    LastHostDecidesTls(config, r1, g);
    LastHostDecidesTls(config, r2, h);
  }

  lemma LastHostDecidesTls(config: Config, front: seq<string>, h: string)
    requires h in config && forall g | g in front + [h] :: g in config
    ensures var p := PortOf(h, config[h]);
            p in Build(config, front + [h]) && Build(config, front + [h])[p].tls == TlsOf(config[h])
  {
  }

  // The servers are the same for every iteration order iff hosts that share a port name no
  // port and agree on their tls files; in particular when no two hosts share a port.
  lemma ServersAreOrderFreeIffUnambiguous(config: Config)
    ensures (forall o1, o2 | IsOrder(o1, config.Keys) && IsOrder(o2, config.Keys) :: Build(config, o1) == Build(config, o2))
       <==> Unambiguous(config)
  {
    if Unambiguous(config) {
      forall o1, o2 | IsOrder(o1, config.Keys) && IsOrder(o2, config.Keys)
        ensures Build(config, o1) == Build(config, o2)
      {
        UnambiguousIsOrderFree(config, o1, o2);
      }
    } else {
      var g, h :| SharePort(config, g, h) && !(':' !in g && ':' !in h && TlsOf(config[g]) == TlsOf(config[h]));
      var o1, o2;
      if ':' in g {
        o1, o2 := ColonMakesOrderMatter(config, g, h);
      } else if ':' in h {
        o1, o2 := ColonMakesOrderMatter(config, h, g);
      } else {
        o1, o2 := TlsMakesOrderMatter(config, g, h);
      }
    }
  }
}
