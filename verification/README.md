# cblt, modelled in Dafny

cblt is a small HTTP server: static files, redirects, and a reverse proxy with a reactive load
balancer that learns about its backends only from the requests it forwards. This project models
its core and proves what it does, for all inputs and over all runs.

**The load balancer** is modelled twice. `ReverseProxyState` is the object with its array of
backend states and its cursor, updated in place by real loops; its methods are proved against
`RoundRobinCall` and `HashCall`, which say what one call means without saying how the scan is
carried out. `Interleavings` is a transition system for any number of requests at once, whose
steps are lock acquisitions, the work done under a lock, connection outcomes and clock ticks.
`Calls` proves that the two agree: in every run each call is one call of the object on what its
looks found. Fairness, starvation, quarantine, deadlock freedom, the
stability of the address hash, and the bounds on the retry loop are theorems about these.

**Around it** stand the worker (accept loop, permits, stop handshake), the supervisor that
reconciles the workers with a new configuration, the directive interpreter with its declarative
meaning, the framing and printing of requests, the relay, byte ranges, and path resolution.

| file | content |
|---|---|
| `Wrappers`, `Numbers`, `Decimals` | options and results; machine integers with wrap-around; decimal text |
| `Backends`, `Rings`, `ReverseProxyState` | one backend, one scan and what it means; the balancer object |
| `Fairness`, `HashStability`, `IpHash` | runs of calls under either policy; FNV-1a |
| `Interleavings`, `InterleavingProofs`, `InterleavedFairness`, `StaleMark`, `Service`, `Calls` | many requests at once |
| `ProxyLoop`, `Relay`, `ProxyReply` | the select / connect / mark loop of one request, the relay, and the reply made of both |
| `Supervisor`, `Reloads`, `Generations` | reconciliation, the supervisor's loop, settings published under running connections |
| `AcceptLoop`, `Servers`, `Routing` | accepting and stopping, servers from hosts, map iteration order |
| `Directives`, `RebuiltStates`, `FileServer`, `Paths`, `Ranges` | the interpreter, static files, paths, ranges |
| `Utf8`, `Framing`, `RequestText`, `Reprinting`, `PlainRequest`, `Connection` | requests off a connection, the printer and its round trip, from plain text and bytes to reply |

## Where the code falls short of what one would expect

Each of these is a theorem. Where a property fails, the exact condition under which it holds is
proved, or a concrete run shows the failure.

- The decrement of `retries_left` is overwritten on the next line (`src/reverse_proxy.rs:392-393`,
  `448-449`), so every stored `Dead` carries the balancer's `lb_retries` and a dead backend recovers
  after every interval, for ever, iff they are not 0.
- `set_dead_backend` reads the clock before it waits for the lock (`src/reverse_proxy.rs:345-347`),
  so an older mark can overwrite a newer one and cut the quarantine short. The last stored stamp
  alone decides.
- In a release build `since + lb_interval` wraps around; on overflow there is no quarantine at all.
- A live backend whose address is longer than 100 bytes stops the rotation for good: the cursor
  rests on it and every call fails (`src/reverse_proxy.rs:375-378`).
- The number of attempts is that of the directive that triggers the proxy, not that of the balancer
  it reaches (`src/reverse_proxy.rs:22-28`, `85`, against `src/server.rs:173-180`). A request with
  0 attempts reaches no backend, one with more can be served by a balancer with `lb_retries = 0`;
  in such a balancer a dead backend comes back only through a live mark of a request that was
  handed it while it was alive.
- After one failing `accept` the pattern `Ok(..)` of `select!` disables that branch, and the worker
  accepts nothing more until it is stopped (`src/server.rs:223-227`). Without a stop request it can
  go on to accept iff no accept has failed.
- With `max_connections = 0` an accepted connection waits for ever, and so does a stop request.
- One running port whose certificate a reload cannot load ends the whole program, and with it every
  other port: the first failing update fails the pass (`src/main.rs:193-205`), and a failed pass
  exits (`src/main.rs:108-114`).
- A worker whose port could not be bound when it was started (`src/server.rs:220`) is kept and
  updated by later reloads, and the port stays unanswered (`src/main.rs:193-205`).
- Every publication of settings, even of the same configuration (every 5 seconds in Docker mode,
  `src/main.rs:127-155`), comes with new balancers: a backend marked dead is offered to new
  connections again before its interval is over iff something has been published since.
- `build_servers` depends on the iteration order of a hash map unless hosts on one port name no
  port and agree on their TLS files; pattern and host lookup depend on it unless patterns are
  disjoint and at most one host starts with `*`.
- A cookie counts as present if its name occurs anywhere in the Cookie header, be it in another name
  or in a value (`src/directive.rs:214-219`).
- A suffix range longer than the file is accepted with a wrapped-around start. A bound that is no
  number counts as absent, so `bytes=x-5` is a suffix range.
- A partial response's body runs to the end of the file, whatever its Content-Length
  (`src/response.rs:63`).
- When a relay fails after the backend's head has begun to be forwarded, a 502 is attempted on the
  same connection (`src/directive.rs:137-178`). It never gets through: a write has failed, or the
  copy has closed the writing half (`src/reverse_proxy.rs:176`). The client receives part of at most
  one response, and the request ends in an error.
- A request of which more body bytes were read than Content-Length says is forwarded with them; the
  backend may read fewer. Such a request is received alike for every split into reads iff there are
  no such bytes.
- The client-to-backend copy decides with the other one: if it fails, a response that was delivered
  to the last byte still counts as 502 (`src/reverse_proxy.rs:180-193`).
- A `reverse_proxy` after `file_server` is not dead: its balancer can be the one that an earlier
  directive sends requests to.
- With 2^32 or more backends the address hash uses only the first n mod 2^32, and goes round them
  more than once.

## Model

| member | source | states |
|---|---|---|
| Numbers.WrapIsModular | src/reverse_proxy.rs:389 | 64-bit sums and differences are taken modulo 2^64 |
| Backends.DueWaitsTheIntervalIffSumFits | src/reverse_proxy.rs:389 | The test for a dead backend waits out the whole interval, at every later time, iff the sum of stamp and interval fits 64 bits |
| Backends.PassingOver | src/reverse_proxy.rs:383-407 | A backend that is passed over was dead, stays dead with the same retries, and is stamped with the time of the visit iff it was due, which it then was without retries |
| Backends.Taking | src/reverse_proxy.rs:374-404 | A backend that is taken is left alone if it was alive, and comes back with the time of the visit if it was dead |
| Backends.AtIsModular | src/reverse_proxy.rs:380 | The model's ring positions are the code's remainders, and stepping by one is the code's step |
| Backends.FirstProbe | src/reverse_proxy.rs:370-409 | The number of probes before the first selectable backend: none before it is selectable at its probe time, it is |
| Backends.Address | src/reverse_proxy.rs:375-378 | What is handed out is the index with its own address, iff that has at most 100 bytes |
| Backends.ScanFailsIffNoneSelectable | src/reverse_proxy.rs:370-413 | A scan answers "No healthy backends" iff no backend on the whole ring is selectable when its turn comes |
| Backends.ScanChanges | src/reverse_proxy.rs:370-409 | The backend handed out ends alive and was selectable; every other one is unchanged, or dead without retries before and after |
| ReverseProxyStates.ReverseProxyState.constructor | src/reverse_proxy.rs:322-342 | All backends start alive with the given stamp, the cursor at 0 |
| ReverseProxyStates.ReverseProxyState.SetDeadBackend | src/reverse_proxy.rs:344-352 | Exactly the one backend becomes dead, with the time and the full number of retries |
| ReverseProxyStates.ReverseProxyState.SetAliveBackend | src/reverse_proxy.rs:355-360 | Exactly the one backend becomes alive |
| ReverseProxyStates.ReverseProxyState.Visit | src/reverse_proxy.rs:372-408 | One iteration takes the backend iff it is selectable, and leaves exactly the state after a visit: as it was, alive now if taken, or dead now without retries; no other backend changes |
| ReverseProxyStates.ReverseProxyState.ScanFromCursor | src/reverse_proxy.rs:367-414 | The in-place loop is one RoundRobinCall: first selectable backend from the cursor, cursor one past it, back where it began if there is none, on the backend if its address does not fit |
| ReverseProxyStates.ReverseProxyState.ScanFromHash | src/reverse_proxy.rs:425-466 | The in-place loop is one RingScans from the hashed place, over the places that 32 bits can count; for lists that fit 32 bits that is one HashCall |
| ReverseProxyStates.ReverseProxyState.NextByHash | src/reverse_proxy.rs:415-467 | The address-hash policy: IPv6 and an empty ring change nothing, otherwise one RingScans, one HashCall for lists that fit |
| ReverseProxyStates.ReverseProxyState.GetNextBackend | src/reverse_proxy.rs:364-469 | Both policies for lists of any length, each with answer and new state. The address handed out is that of the index; "No healthy backends" iff none is selectable when its turn comes; IPv6 and the panic on no place only under the address hash; an oversized address only if a live backend has one |
| Rings.WholeRingScans | src/reverse_proxy.rs:425-461 | On a ring that is the whole list the probes of the loop are one scan: same answer, same states |
| Rings.RingScanStaysInside | src/reverse_proxy.rs:415-426 | However long the list, no backend beyond the ring is handed out or changed |
| Rings.RingScanHandsOut | src/reverse_proxy.rs:427-461 | Over several laps as over one: the backend handed out was selectable as it was before the scan, and every other one is as it was, or dead before and after without retries and stamped during the scan |
| Rings.RingScanAnswers | src/reverse_proxy.rs:427-466 | What the answer says, over one lap or several: the address of the index, none healthy iff none is selectable in turn, and then none is afterwards either |
| IpHash.XorUndoes | src/reverse_proxy.rs:484 | Exclusive or, defined bit by bit, is its own inverse |
| IpHash.MulPrimeInvertible | src/reverse_proxy.rs:479-485 | Wrapping multiplication by the FNV prime is undone by multiplication with its inverse modulo 2^64 |
| IpHash.AbsorbInjective | src/reverse_proxy.rs:483-486 | One step of the hash is injective in the state and in the octet |
| IpHash.OneOctetChangesHash | src/reverse_proxy.rs:481-486 | Inputs that differ in exactly one octet have different 64-bit hashes |
| IpHash.OfNothing | src/reverse_proxy.rs:478 | The hash of nothing is the 64-bit offset basis |
| IpHash.OfOneLetter | src/reverse_proxy.rs:479-486 | The published value for the letter a: exclusive or comes before the multiplication |
| IpHash.OfOneAddress | src/reverse_proxy.rs:481-486 | The value for 10.0.0.1, octets from left to right |
| IpHash.GenerateNumberFromOctet | src/reverse_proxy.rs:481-489 | The loop computes FNV-1a reduced to a valid index; it panics exactly for no backends |
| Fairness.SteadyScan | src/reverse_proxy.rs:367-466 | With the live set fixed, a scan takes the first live backend and keeps the set fixed |
| Fairness.SteadyCall | src/reverse_proxy.rs:367-414 | With the live set fixed and not empty, a call answers about the first live backend at or after the cursor |
| Fairness.CountsFollowTheCursor | src/reverse_proxy.rs:367-414 | Any number of calls with a fixed live set all succeed and pick live backends only, each once per lap of the cursor, give or take the two ends |
| Fairness.EqualShares | src/reverse_proxy.rs:380-381 | Counts that differ by at most one and add up to m per live backend are all m |
| Fairness.RoundRobinIsFair | src/reverse_proxy.rs:367-414 | Over any run of calls with a fixed live set each call picks one live backend, two counts differ by at most one, and m times as many calls as live backends pick each exactly m times |
| InterleavedFairness.HandOutsFollowTheCursor | src/reverse_proxy.rs:367-409 | Over any interleaving with the live set fixed, the hand-outs to whichever requests follow the laps of the cursor |
| InterleavedFairness.InterleavedRoundRobinIsFair | src/reverse_proxy.rs:367-409 | Over any part of any run, however the requests' steps interleave: only live backends are handed out, counts differ by at most one, m times as many hand-outs as live backends are m of each |
| Fairness.OversizedAddressStopsRotation | src/reverse_proxy.rs:374-381 | Once the cursor is on a live backend with an oversized address, every later call fails and changes nothing |
| Fairness.RotationServesIffAddressesFit | src/reverse_proxy.rs:370-382 | Over n or more calls, all succeed iff every live address fits |
| HashStability.Choice | src/reverse_proxy.rs:425-461 | Linear probing ends at a selectable backend before which none is, or there is none |
| HashStability.LosingABackendMovesOnlyItsAddresses | src/reverse_proxy.rs:425-461 | Losing a backend moves only its own addresses, and says where to |
| HashStability.GainingABackendMovesOnlyToIt | src/reverse_proxy.rs:425-461 | Gaining a backend moves addresses only to it |
| HashStability.SameAddressSameBackend | src/reverse_proxy.rs:415-466 | Over any run of calls without marks, the answer is a function of the address alone |
| HashStability.RevivalRestoresTheMap | src/reverse_proxy.rs:344-466 | Mark dead, serve any calls, mark alive: every address is back where it was, and only the lost backend's addresses had moved |
| Interleavings.StepKeepsInv | src/reverse_proxy.rs:344-466 | Every step of every request keeps: cursor in range, one owner inside each lock, stored dead marks carry lb_retries, stamps not in the future |
| InterleavingProofs.EveryRunKeepsInv | src/reverse_proxy.rs:34-210 | Every run from a fresh balancer satisfies that invariant throughout |
| InterleavingProofs.RequestsMayCome | src/reverse_proxy.rs:34-35 | A request may come at any time and changes nothing for the others; without backends it is over at once |
| InterleavingProofs.SomeTaskCanMove | src/reverse_proxy.rs:344-372 | With any request unfinished some unfinished request can step: the locks never deadlock |
| InterleavingProofs.DeadBackendRecoversIffRetriesConfigured | src/reverse_proxy.rs:344-404 | In every reachable state a dead backend becomes selectable at some later time iff lb_retries > 0 |
| InterleavingProofs.NoAttemptsNoService | src/reverse_proxy.rs:85-115 | In every run a request with 0 attempts never holds a live mark and is never served, whatever the balancer's options |
| InterleavingProofs.GivesUpAfterAllAttempts | src/reverse_proxy.rs:85-115 | In every run: since a request was handed the backend it connects to, as many attempts have failed as it has not left |
| InterleavingProofs.DeadMarkMeansAllAttemptsFailed | src/reverse_proxy.rs:85-115 | So a request marks a backend dead only after all attempts that its directive allows have failed, all since it was handed that backend |
| InterleavingProofs.MarkCarriesItsTime | src/reverse_proxy.rs:344-360 | In every run a mark on its way is a live one with the time its attempt succeeded, or a dead one with the time its request gave up and the full retries |
| Service.ServedIffItMakesAttempts | src/reverse_proxy.rs:22-120 | For every balancer: some run serves a request iff the directive that triggered it allows attempts and the first address fits (round-robin) or some address fits (address hash) |
| InterleavingProofs.HeldSinceHandedOut | src/reverse_proxy.rs:35-208 | A request that holds a backend was handed it and has held it since |
| InterleavingProofs.RevivedIffMarkedAlive | src/reverse_proxy.rs:383-406 | In a balancer with lb_retries = 0 a step revives a dead backend iff it stores a live mark in it |
| InterleavingProofs.OnlyAHolderRevives | src/reverse_proxy.rs:117-120 | Over every run: that mark comes from a request with attempts that was handed the backend while it was alive and has held it since |
| InterleavingProofs.QuarantineHolds | src/reverse_proxy.rs:344-459 | After a dead mark at d, over any interleaving, the backend is handed out only after d + lb_interval, unless a live mark or an older dead one comes in between |
| InterleavingProofs.HandedOutIffLastMarkIsOver | src/reverse_proxy.rs:344-459 | The request that looks at a backend next is handed it iff the interval after the last stored stamp is over |
| InterleavingProofs.MarkStays | src/reverse_proxy.rs:344-459 | A stored dead mark stays, over any steps of any requests, until another mark or a hand-out of that backend |
| InterleavingProofs.NoStarvation | src/reverse_proxy.rs:368-409 | A backend that stays alive is handed out among any n round-robin calls that end, whatever the other requests do |
| StaleMark.StaleMarkShortensQuarantine | src/reverse_proxy.rs:344-352 | A run from a fresh balancer in which a backend marked dead at 150 with interval 60 is handed out at 161, with no live mark in between |
| Calls.CallScans | src/reverse_proxy.rs:364-469 | In every run, with other requests' steps and time passing between its looks, a call is one scan of the balancer object over the states its looks found and left, each look at its own time; it ends with that scan's answer and cursor |
| Calls.EveryRoundRobinCall | src/reverse_proxy.rs:367-414 | Under round-robin that is one RoundRobinCall from the cursor at its start |
| Calls.EveryHashCall | src/reverse_proxy.rs:425-466 | Under the address hash it is one HashCall from the hashed place |
| ProxyLoops.RoundKeepsLedger | src/reverse_proxy.rs:34-208 | A failed round keeps: each picked backend is dead since a mark that cannot have come before (picks - 1) intervals had passed |
| ProxyLoops.SpacedPicksAreFew | src/reverse_proxy.rs:34-208 | Picks spaced more than an interval apart per backend number at most n * (1 + T div (interval + 1)) |
| ProxyLoops.Connect | src/reverse_proxy.rs:85-115 | Succeeds at the first attempt that does, within lb_retries; fails iff all of them fail |
| ProxyLoops.ConnectAndMark | src/reverse_proxy.rs:85-208 | The backend is marked, and no other: alive if an attempt succeeds, else dead with the balancer's retries and the time after the last attempt |
| ProxyLoops.Round | src/reverse_proxy.rs:35-209 | One round of select, connect, mark. It is refused with "No healthy backends" iff no backend is selectable in turn, and any refusal says why; the destination asked for is the address of the backend picked; which mark is left; the spacing of picks kept |
| ProxyLoops.ProxyLoop | src/reverse_proxy.rs:34-210 | The amortised bound on selections for both policies and lists of any length; if n * lb_retries * lb_timeout <= lb_interval the loop ends after at most n selections and n * lb_retries attempts; every round but the last reached a usable destination and failed in all its attempts; each way to end says why, and the first round is refused for want of a healthy backend iff none is selectable |
| AcceptLoop.EveryRunKeepsInv | src/server.rs:217-272 | Free and held permits add up to max_connections; at most one connection gets in after a stop request; a completed stop never finds the loop parked without its notification |
| AcceptLoop.StoppedLoopIsNeverStuckIffConnectionsAllowed | src/server.rs:222-272 | A stopped loop can always proceed iff max_connections > 0 |
| AcceptLoop.NoConnectionsAllowedGetsStuck | src/server.rs:222-228 | With max_connections = 0 a run reaches a state in which nothing can happen |
| AcceptLoop.StopTakesEffect | src/server.rs:222-272 | After a completed stop the loop takes at most three more steps and is gone after them |
| AcceptLoop.FailedAcceptDeafensTheWorker | src/server.rs:223-227 | After one failing accept no connection is accepted any more, and only a stop ends the wait |
| AcceptLoop.DeafIffAcceptFailed | src/server.rs:222-228 | Over every run without a stop request: the loop is up, and waits for nothing but a stop iff some accept has failed |
| AcceptLoop.AcceptsAgainIffNoAcceptFailed | src/server.rs:222-244 | After any such run, with max_connections > 0, the worker can go on to accept another connection without a stop request iff no accept has failed |
| AcceptLoop.AcceptCanFail | src/server.rs:223-227 | A run from the start that reaches that wait |
| Routing.OverlapIsACommonPath | src/main.rs:279-287 | Whether two patterns have a common path is decided by comparing their literal parts |
| Routing.PatternsMatch | src/main.rs:279-287 | A trailing `*` makes the rest a prefix, anything else is literal |
| Routing.FindProxyState | src/reverse_proxy.rs:32-214 | The search finds the first matching pattern of the iteration order, and nothing iff no pattern matches |
| Routing.RoutingIsOrderFreeIffDisjoint | src/reverse_proxy.rs:32-33 | Every iteration order routes every path alike iff no two patterns overlap |
| Routing.SelectHost | src/directive.rs:46-64 | Any host that starts with `*` comes before the exact name; neither means forbidden |
| Routing.StarHosts | src/directive.rs:47 | The hosts that come first are those whose name starts with `*`, the bare `*` among them |
| Routing.HostIsOrderFreeIffOneStar | src/directive.rs:47 | Every iteration order selects the same host iff at most one starts with `*` |
| Servers.HostKeepsNameIffNoColon | src/main.rs:296-309 | Parsing a host leaves its text whole iff it has no colon |
| Servers.HostNamesItsPort | src/main.rs:296-309 | The name is what comes before the first colon, the port the number after it |
| Servers.TlsIsThatOfLast | src/main.rs:218-226 | The files are those of the last tls directive |
| Servers.PortOfHost | src/main.rs:218-229 | A host is on the port it names, otherwise on 443 if it has a tls directive and on 80 if not |
| Servers.BuildServers | src/main.rs:212-257 | The nested loops compute Build, the fold of Insert over the iteration order |
| Servers.BuildIsWellKeyed | src/main.rs:228-254 | Every server is stored under its own port, and the ports are exactly those of the hosts |
| Servers.PlainHostIsServed | src/main.rs:236-254 | A host that names no port is served under its name with its directives, unless another host of its port has the name before its colon |
| Servers.TlsOfThePort | src/main.rs:236-254 | The files of a port are those of the last host on it |
| Servers.ColonMakesOrderMatter | src/main.rs:237-243 | A host that names its port and shares it is entered under two different names, depending on the order |
| Servers.TlsMakesOrderMatter | src/main.rs:240-241 | Of hosts on one port with different TLS files the last one wins |
| Servers.ServersAreOrderFreeIffUnambiguous | src/main.rs:212-257 | The servers are the same for every iteration order iff hosts that share a port name no port and agree on TLS |
| Supervisor.InitProxyStates | src/server.rs:162-208 | One new balancer per pattern, set up by the last directive with that pattern, with its destinations and options, under the address hash iff the directive says so, and with all backends alive |
| Supervisor.BuildDetails | src/server.rs:84-92 | Balancers for exactly the hosts given, all new |
| Supervisor.BuildSettings | src/server.rs:80-106 | Settings are built iff the TLS files load; they are complete, share nothing with what was there, and all their backends start alive |
| Supervisor.TlsOfLastHostIsServed | src/server.rs:62-74 | A port is served over TLS, with the files of the last tls directive of its last host, iff there is one |
| Supervisor.NewWorker | src/server.rs:80-109 | A worker is built iff the TLS files load, running, with settings that carry what was asked and balancers as they start |
| Supervisor.ServerWorker.Update | src/server.rs:128-158 | Publishes new settings that carry what was asked, with balancers as they start, or fails and leaves the published ones |
| Supervisor.ServerWorker.Stop | src/main.rs:185-188 | The flag is cleared and a notification stored |
| Supervisor.ServerSupervisor.StopUnwanted | src/main.rs:177-191 | Exactly the workers whose port is not wanted are removed and stopped; all others are untouched |
| Supervisor.ServerSupervisor.ApplyServer | src/main.rs:194-204 | One server: its port stands up to date with new settings, or as it was if a running worker cannot load its files; every other port is as it was |
| Supervisor.ServerSupervisor.ApplyServers | src/main.rs:193-205 | Whatever the order: the ports reached are up to date, the ones left are as they were, and some are left only if a kept one cannot be loaded |
| Supervisor.ServerSupervisor.ProcessWorkers | src/main.rs:172-208 | A pass succeeds iff every kept worker's files load; kept workers are the same running objects, removed ones are stopped, new ones run; after a success the workers hold exactly what can be loaded, and the settings of every port are new, with all backends alive |
| Supervisor.StandingContents | src/main.rs:193-205 | When no port is left, the workers hold exactly the servers whose files load, whatever they held before, all with new settings |
| Generations.EveryRunKeepsInv | src/server.rs:33-48 | Over every run of publications, connections, scans and marks: no two generations share a balancer, and every connection works with a published one |
| Generations.ConnectionUsesWhatItRead | src/server.rs:229-232 | A connection reads the settings exactly once, gets the value published at that moment, and works with that value ever since |
| Generations.OnlyItsOwnGeneration | src/reverse_proxy.rs:344-360 | A selection or mark leaves the balancers of all generations but its connection's own as they were |
| Generations.GenerationsAreIsolated | src/server.rs:33-48 | Over any part of a run in which no connection of a generation acts, its balancers stay as they were, whatever is published and whatever others do |
| Generations.NewGenerationStartsAlive | src/server.rs:145-157 | A published generation has every backend alive and every cursor at 0 until a connection that read it acts: no old mark carries over |
| Generations.QuarantineLastsIffNothingIsPublished | src/server.rs:137-157 | A backend of the published settings marked dead at d, with no further mark on it, is kept from new connections up to d + lb_interval iff nothing is published in between |
| Generations.RepublishingEndsQuarantine | src/main.rs:127-155 | A run in which the same configuration, published again at 105, offers a backend that was marked dead at 100 with an interval of 60 |
| Reloads.ReapplyingKeepsContents | src/main.rs:105-120 | Sending the same configuration again never ends the process, and keeps ports and contents |
| Reloads.LivesWhileUnbroken | src/main.rs:105-120 | Over every run of reloads: the process lives iff no reload so far broke a port that the one before it could serve, and then holds exactly what the last one wants and can load |
| Reloads.HeldIffLoadableAndUnbroken | src/main.rs:105-120 | A port has a worker after a reload iff that reload can serve it and none so far broke a port that had one |
| Reloads.BrokenPortEndsEverything | src/main.rs:108-114 | After a reload that breaks a port the process has exited for good and no port has a worker |
| Reloads.StartsIffNewlyHeld | src/main.rs:193-205 | A reload starts a worker for exactly the ports that have one after it and had none before |
| Reloads.ListensIffBoundAtStart | src/main.rs:193-205 | A port is listened on iff the reload that started its worker could bind it and every reload since could serve it: no later reload tries again |
| Reloads.AnsweredIffBoundAtStart | src/server.rs:217-221 | Over every run: a port is answered iff the process lives and that holds |
| Reloads.Supervise | src/main.rs:100-121 | The supervisor's loop over any reloads ends as those runs say, and its workers' contents are what is claimed to be held |
| Directives.FirstDecisive | src/directive.rs:69-239 | The first directive that settles the request; none before it does |
| Directives.LastRoot | src/directive.rs:71-82 | The root in force is that of the last matching root directive |
| Directives.HasCookieIffItOccurs | src/directive.rs:209-219 | A cookie is found iff its name holds no semicolon and occurs somewhere in the text of the header |
| Directives.UriIsReplaced | src/directive.rs:182 | Every `{uri}` of a destination is replaced by the path, from the left |
| Directives.NoUriNothingReplaced | src/directive.rs:182 | A destination without one is kept |
| Directives.RepliesOfRedirects | src/directive.rs:181-248 | 302 for a redirect, an error if its target is no header, 404 for the end of the list |
| Directives.RedirectsWithoutCookie | src/directive.rs:199-232 | A request without the cookie is redirected with 302, one with it goes on to the rest of the list |
| Directives.RepliesOfFiles | src/directive.rs:69-129 | A file_server below a root answers with the reply for the file, whatever follows it; 404 for a path that is not granted |
| Directives.Interpret | src/directive.rs:66-247 | The loop with its carried root, early returns and break computes the declarative meaning |
| Directives.AnswerIsMeaning | src/directive.rs:66-247 | The meaning agrees with a step-by-step reading of the list under any starting root |
| Directives.SimplifyKeepsMeaning | src/directive.rs:69-239 | Dropping tls, roots that do not match, and everything after the first file_server or redir never changes the reply as long as the proxy states are the same |
| RebuiltStates.SimplifyIsSafeIffChoiceIsKept | src/server.rs:162-208 | With the proxy states rebuilt from the simplified list, the reply is the same for every behaviour iff the chosen balancer is the same or the request comes to no reverse_proxy |
| RebuiltStates.ProxyAfterFileServerMatters | src/server.rs:161-208 | A list whose last directive, a reverse_proxy after file_server, sets up the balancer that the first one's requests go to |
| Directives.NoProxyNoSecondHead | src/directive.rs:66-247 | Without reverse_proxy no request has two heads begun, and at most one reaches the client |
| Directives.DirectiveProcess | src/directive.rs:17-250 | 400 for an unreadable request, 403 for an unknown host, otherwise the meaning of the selected host's list |
| Directives.RepliesWithoutAHost | src/directive.rs:27-62 | 400 for a request that cannot be read, 403 for a host that is not there, either with an error |
| ProxyReplies.Conclude | src/reverse_proxy.rs:117-208 | From the end of the loop and the two connections to the reply: heads begun, heads of which something gets through, status, and whether the connection still takes an error reply |
| ProxyReplies.AnswerProxied | src/directive.rs:130-178 | With the error reply on the same connection: what the client receives is part of the backend's response or part of the error response, never of both |
| ProxyReplies.ProxyDirective | src/reverse_proxy.rs:12-215 | The whole directive: not matched iff no pattern matches; otherwise the loop on the balancer of the first matching pattern, and the reply that its end and the relay come to; without a selectable backend that is 502; the client has received part of the backend's response or nothing |
| ProxyReplies.HeadsOfAProxiedRequest | src/reverse_proxy.rs:34-208 | The heads begun by how the loop ended: the backend's, followed by a 502 if the relay fails; 502 for every refusal; none for the two errors of the program itself |
| ProxyReplies.SecondHeadIffRelayFailsAfterHead | src/directive.rs:137-178 | A second head is attempted iff the settling directive is a proxy that reached a backend, sent the request, began to forward a completed head, and then a write, a read or either copy failed; then the request ends in an error |
| ProxyReplies.AtMostOneHeadReachesTheClient | src/reverse_proxy.rs:138-193 | For every list of directives and every behaviour of files, backends and connections, something of at most one response head reaches the client |
| ProxyReplies.ClientThatGoesAwayGetsOneHead | src/reverse_proxy.rs:138-192 | A concrete stream and client for which two heads are begun, 200 and 502, and only the first gets through |
| FileServer.FileHeads | src/file_server.rs:14-94 | A file reply begins exactly one head when it is sent, none when the caller is to answer, at most one when it fails; at most that one reaches the client |
| FileServer.RepliesWithoutAFile | src/file_server.rs:23-68 | 500 without a root, passed over when the path is not granted, 404 when neither the file, or the index of the directory, nor the fallback can be opened |
| FileServer.RepliesWithAFile | src/file_server.rs:70-94 | 200 without a Range header, 400 for one that is no text or malformed, 416 for one outside the file, 206 otherwise |
| FileServer.JoinIsConcat | src/file_server.rs:45-47 | Joining a fallback to the root is reading the two texts with a `/` between them |
| FileServer.ReplyDependsOnRootOnly | src/file_server.rs:29-60 | For every request the reply is the same whatever lies outside the root directory |
| Paths.TrimmedRequestIsRelative | src/file_server.rs:29-32 | A request path stripped of leading slashes has no root component |
| Paths.ComponentsAreReadable | src/file_server.rs:122-124 | Whatever the text: a component that counts as a name is not empty, neither `.` nor `..`, and holds no `/` |
| Paths.ReadWritten | src/file_server.rs:122-124 | Names and `..` written with `/` between them are read back, `..` as the parent |
| Paths.ComponentsOfPiece | src/file_server.rs:122-124 | How one piece without a `/` is read |
| Paths.ComponentsOfConcat | src/file_server.rs:122-124 | Pieces are read one by one: empty ones and an inner `.` vanish, nothing else does |
| Paths.SanitizePath | src/file_server.rs:120-142 | The push and pop loop computes Sanitized; what it grants is the base and, below it, plain names only |
| Paths.SanitizedIs | src/file_server.rs:120-142 | Exactly which relative requests are accepted, and the result, in terms of the request's lexical normal form |
| Paths.AcceptedIsBaseAndNames | src/file_server.rs:137-141 | An accepted path is the base followed by plain names |
| Paths.GrantedTextStaysBelow | src/file_server.rs:120-142 | For every request text: what is granted is the base followed by names that are neither empty nor `.` nor `..` and hold no `/` |
| Paths.AcceptedEverywhereIffNeverClimbs | src/file_server.rs:120-142 | A request is accepted under every base iff it never climbs above its start, and then is base plus lexical normal form |
| Paths.SanitizedIsIdempotent | src/file_server.rs:120-142 | Asking again for what was granted grants the same |
| Ranges.AcceptedRangeIsInFileIffSuffixFits | src/request.rs:152-186 | An accepted range lies in the file iff it is not a suffix longer than the file |
| Ranges.SuffixCanExceedFile | src/request.rs:176 | `bytes=-5` of a 3-byte file is accepted with a wrapped-around start |
| Ranges.ClosedRangeRoundTrip | src/request.rs:152-186 | Printed `bytes=s-e` reads back as s to e, or is refused with 416, exactly by whether that lies in the file |
| Ranges.OpenRangeRoundTrip | src/request.rs:152-186 | Printed `bytes=s-` reads back as s to the last byte |
| Ranges.SuffixRangeRoundTrip | src/request.rs:152-186 | Printed `bytes=-k` reads back as the last k bytes when there are k |
| Ranges.MalformedBoundIsAbsent | src/request.rs:170-176 | A bound that is no number is read as absent, on either side of the dash |
| Ranges.XIsMalformed | src/request.rs:170-176 | `bytes=x-n` asks for the last n bytes |
| Ranges.MalformedIffNotOneDash | src/request.rs:154-168 | A header is answered as malformed iff it does not start with `bytes=` or has not exactly one dash after that |
| Ranges.RangedFileResponse | src/response.rs:73-116 | None iff the seek fails; the headers always fit 200 bytes; Content-Length is the size of the range; the body starts with the range and is as long as announced iff the range ends with the file; Content-Range reads back |
| Ranges.ContentRangeRoundTrip | src/response.rs:87-105 | A client reading Content-Range gets start, end and size |
| Decimals.ParseOfToString | src/request.rs:170-171 | Every number of the type is read back from its decimal text |
| Decimals.DigitsAreDecimal | src/request.rs:170-171 | Digits are read from left to right in base ten |
| Decimals.NumbersAreDigits | src/request.rs:170-171 | What is read as a number is an optional plus sign and digits, with a value below the limit of the type |
| Decimals.JoinOfSplit | src/request.rs:162 | The parts of a split text hold no separator and join to the text |
| Decimals.SplitOfJoin | src/request.rs:162 | Parts without separator that are joined are the parts again |
| Decimals.SplitCounts | src/request.rs:162-168 | There is one part more than there are separators |
| Framing.SocketToRequest | src/request.rs:15-64 | The read loop computes Receive, for every sequence of reads |
| Framing.ParseRequestHeaders | src/request.rs:67-149 | The last numeric Content-Length decides; as many of the bytes that follow as the head declares are the body, all of them if there are fewer, none if it declares nothing |
| Framing.ContentLengthIsSpelled | src/request.rs:115 | The name is Content-Length in whatever case, and no other |
| Framing.WrittenNumberIsRead | src/request.rs:116-117 | A value of decimal digits with white space around them is that number |
| Framing.LastWrittenLengthDecides | src/request.rs:108-122 | A header of that name with the digits of n gives n, unless a later one counts |
| Framing.NoLengthWithoutTheName | src/request.rs:108-122 | Headers of other names never count |
| Framing.FinishReadsDeclaredBody | src/request.rs:124-145 | The body is what the head declares of the bytes that follow |
| Framing.ReceiveFrames | src/request.rs:22-134 | However the stream is cut, the head is the same and the body a prefix of the rest: all of it up to Content-Length, otherwise at least that much |
| Framing.FramingIsIndependentOfReads | src/request.rs:22-134 | A head and exactly Content-Length bytes give the same request for every split into reads |
| Framing.ShortBodyIsAccepted | src/request.rs:127-134 | A stream that ends early still makes a request, with what there was as body |
| Framing.OtherTextIsRefused | src/request.rs:75-83 | A head that is not UTF-8 is refused for every split into reads |
| Framing.HeadNeverComes | src/request.rs:22-64 | A request without a head fails as truncated if the stream ends first, and as malformed if the parser rejects what there is, for every split |
| Utf8.ConcatIsUtf8 | src/request.rs:75 | Well-formed texts concatenate to a well-formed text |
| Utf8.WellFormedIffEncoded | src/request.rs:75 | A text is well-formed iff it is the encoding of some sequence of Unicode scalar values |
| RequestText.RequestToBytes | src/reverse_proxy.rs:217-245 | The printer's loop writes request line, the headers as the header map yields them, and body |
| RequestText.ParseHeadExtends | src/request.rs:31-57 | Once the strict grammar accepts or rejects a buffer, more bytes change nothing |
| RequestText.StrictIsStable | src/request.rs:31-46 | The strict grammar is a parser of the kind the framing asks for |
| RequestText.ParsedWhollyIsHead | src/request.rs:31-50 | Of a buffer that is parsed to its end every proper prefix is incomplete |
| RequestText.ParsePrintedHead | src/reverse_proxy.rs:217-239 | Parsing a printed head of up to 32 headers gives it back with version 1.1 and names in lower case |
| PlainRequests.CharactersOfAHead | src/request.rs:31-57 | The characters of a token, of a target, of a value, and the blanks, as one writes them |
| PlainRequests.TargetsAreAbsolutePaths | src/request.rs:95-98 | A target starts with `/` and has only such characters |
| PlainRequests.PrintedHeadIsText | src/reverse_proxy.rs:217-239 | The printer writes `verb target HTTP/1.1`, a line `name: value` for each header, and an empty line |
| PlainRequests.WrittenHeadIsRead | src/request.rs:84-122 | Text of that form with up to 32 headers is read as it is written, names in lower case |
| PlainRequests.HeadIsReadIffAtMost32Headers | src/request.rs:84 | A head is read iff it has at most 32 headers |
| PlainRequests.VersionsAreRead | src/request.rs:99-106 | `HTTP/1.1` and `HTTP/1.0` are read, and no other version |
| PlainRequests.BadPiecesAreRejected | src/request.rs:31-57 | A complete verb, target, header name or value that is not of its kind rejects the buffer at once |
| PlainRequests.WrittenRequestIsReceived | src/request.rs:15-149 | A request written in plain text, its body declared by a Content-Length, is received as it is written for every split into reads |
| RequestText.PrintedRequestIsReceived | src/reverse_proxy.rs:217-245 | What the proxy prints of a request with a readable head and no surplus body, in whatever order the header map yields the names, is received for every split into reads as the same request: same body, same values of every header, version 1.1 |
| RequestText.ContentLengthByValues | src/request.rs:108-122 | The Content-Length that counts depends only on the values of that header, so regrouping does not change it |
| RequestText.IterationIsWellFormed | src/reverse_proxy.rs:233-238 | What the header map yields of well-formed headers can be printed |
| Utf8.CutIsUtf8 | src/request.rs:75 | A well-formed text cut out at an ASCII byte leaves two well-formed texts |
| Reprinting.ReadHeadIsPrintable | src/request.rs:67-122 | Every head that the strict grammar reads from UTF-8 can be printed: trimmed UTF-8 values, token names, at most 32 headers |
| Reprinting.ReceivedIsPrintable | src/request.rs:15-149 | So can every request that was received, for any reads |
| Reprinting.ReadPrintReadIffNoSurplus | src/reverse_proxy.rs:217-245 | A request that was received and is printed is received again as the same one, for every split into reads, iff no more body bytes were read than Content-Length says |
| Connections.HandleConnection | src/directive.rs:17-250 | From the reads to the reply: the interpreter is given what was received |
| PlainRequests.ViewShowsTheRequest | src/directive.rs:41-44 | The interpreter is given the target up to its query, and the first Host, Cookie and Range header, each name in whatever case |
| Connections.AnswerIsIndependentOfReads | src/directive.rs:26-250 | A head and exactly Content-Length bytes get the same reply for every split into reads |
| Connections.ProxiedRequestIsAnsweredAlike | src/reverse_proxy.rs:123-130 | A request that was received and is proxied to a second instance is answered there as that instance would have answered the original bytes |
| Connections.OtherTextGets400 | src/directive.rs:27-39 | A head that is not UTF-8 gets 400, whatever the directives |
| Relay.GetHeaderLen | src/reverse_proxy.rs:248-282 | Reads up to the first decision of the parser and keeps every byte read |
| Relay.SendHead | src/reverse_proxy.rs:138-153 | The head and what was read beyond it are written in order; success iff both writes are taken |
| Relay.Copy | src/reverse_proxy.rs:170-178 | Everything not yet written follows in order, a prefix of it if a write fails, and the writing half ends closed; success iff every write is taken and no read fails |
| Relay.RelayResponse | src/reverse_proxy.rs:133-193 | The client receives the backend's bytes in order, all of them when every write is taken, a prefix in any case, something iff a head is completed and the first write takes some; once a head was begun the connection takes nothing more; success iff besides no read fails and the other copy succeeds |

## Left out

Assumptions, and contracts weaker than a reader might expect:

- ReverseProxyStates.ReverseProxyState.constructor: the error for a clock before 1970 is not modelled.
- InterleavingProofs.QuarantineHolds: asks that later dead marks are not older, because the property is false otherwise (StaleMark); and that stamp plus interval fits 64 bits, as it is false otherwise (DueWaitsTheIntervalIffSumFits).
- InterleavingProofs.NoStarvation: addresses must fit 100 bytes, as the rotation stops otherwise (OversizedAddressStopsRotation); so too InterleavedRoundRobinIsFair.
- InterleavingProofs.HandedOutIffLastMarkIsOver: for a balancer with lb_retries > 0; with 0 a dead backend is never taken (RevivedIffMarkedAlive).
- InterleavingProofs.DeadBackendRecoversIffRetriesConfigured: the end of the interval must be a 64-bit time at all.
- InterleavingProofs.EveryRunKeepsInv: under the address hash for fewer than 2^32 backends, where the places form one ring; a request to an empty balancer ends at once, as the panic does.
- Fairness.RoundRobinIsFair: whole calls one after the other; InterleavedRoundRobinIsFair is the statement for interleaved requests.
- ProxyLoops.ProxyLoop: one request that has the balancer to itself; `rounds` only limits how long it is watched. What building a destination address comes to is a parameter.
- ProxyReplies.SecondHeadIffRelayFailsAfterHead: what happens to the proxied request is fixed for each set of options, as one request reaches at most one balancer.
- Directives.SimplifyKeepsMeaning: with the proxy states the same; RebuiltStates.SimplifyIsSafeIffChoiceIsKept is the statement with the states rebuilt.
- Framing.SocketToRequest: httparse is a parameter that must not change its mind about a complete head when more bytes follow; trimming of Content-Length knows ASCII white space only.
- RequestText.PrintedRequestIsReceived: a strict grammar with origin-form targets; absolute-form and `*` targets, fragments, and what else httparse and the http crate tolerate are not modelled.
- Relay.RelayResponse: a read of no bytes is the end of the stream, so the reads before it are non-empty; the parser finds no head that is empty or longer than its buffer; each read is one write of the copy. Of the copy from the client only its success is modelled. A connection of which a write has failed, or whose writing half was closed, takes nothing more.
- Ranges.RangedFileResponse: the file does not change between the look at its size and the copy.
- Paths.SanitizePath: Unix paths; Windows prefixes and symbolic links are not modelled.
- Supervisor.ServerSupervisor.ProcessWorkers: settings that cannot be built because the clock is before 1970 are not modelled. Whether a new worker binds its port is a parameter of Reloads.AnsweredIffBoundAtStart.
- Reloads.Supervise: the reloads are those the supervisor sees; a newer configuration may replace one it has not taken yet.
- Generations.QuarantineLastsIffNothingIsPublished: for connections that read the published settings; what marks that follow come to is InterleavingProofs.HandedOutIffLastMarkIsOver.
- Reprinting.ReadPrintReadIffNoSurplus: the reads end with the end of the stream.

Not modelled at all:

- Debug builds, in which integer overflow panics; the model wraps around as release builds do.
- Time finer than a second; the clock reads 0 instead of failing, and otherwise never goes back.
- TLS handshakes and the loading of PEM files (an oracle says whether files load), TCP, the tokio runtime, panics of handlers.
- Parsing of configuration files and Docker labels; the watch channel and the reload file.
- gzip encoding, MIME types, logging and tracing, error texts.
