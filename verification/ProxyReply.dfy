/** The reply of a reverse_proxy directive: which balancer, how the select / connect / mark loop
    ended, what the relay came to, and what the interpreter makes of it on the same connection. */
module ProxyReplies {
  import opened Wrappers
  import opened Backends
  import opened IpHash
  import opened ReverseProxyStates
  import opened ProxyLoops
  import opened Routing
  import opened Utf8
  import FR = Framing
  import opened Relay
  import opened FileServer
  import opened Directives

  // The two connections of a proxied request. `code` is the status in the backend's head.
  datatype Wire = Wire(
    status: Bytes -> FR.Status,
    requestSent: bool,
    stream: Stream,
    sink: Sink,
    otherCopy: bool,
    code: nat)

  ghost predicate Sound(wire: Wire) {
    FR.NonEmpty(wire.stream.chunks) && FindsHeads(wire.status)
  }

  // What happened to a request in the proxy.
  datatype Exchange = Unmatched | Ended(end: Ending, wire: Wire)

  // The backend's head begins to be forwarded.
  ghost predicate Forwards(wire: Wire) {
    wire.requestSent && FindsHead(wire.status, wire.stream)
  }

  ghost predicate RelaySucceeds(wire: Wire) {
    wire.requestSent && Relays(wire.status, wire.stream, wire.sink, wire.otherCopy)
  }

  // What becomes of the first write to the client.
  function First(sink: Sink): Delivery {
    match sink(0)
    case None => Whole
    case Some(n) => if n == 0 then Nothing else Part
  }

  // Once a head has been forwarded nothing more gets through: either a write has failed, or the
  // copy to the client has ended and closed the writing half.
  ghost function ReplyOf(exchange: Exchange): FileReply {
    match exchange
    case Unmatched => Unsent(NotMatched)
    case Ended(Served(_), wire) =>
      var begun := if Forwards(wire) then [wire.code] else [];
      FileReply(begun, Reaching(begun, First(wire.sink)),
                if RelaySucceeds(wire) then Sent(OK) else FileResult.Refused(BAD_GATEWAY),
                if Forwards(wire) then Nothing else First(wire.sink))
    case Ended(Refused(error), wire) =>
      if error == DivisionByZero then Unsent(Failed) else Reject(BAD_GATEWAY, First(wire.sink))
    case Ended(BadDestination(problem), wire) =>
      if problem == TooLong then Unsent(Failed) else Reject(BAD_GATEWAY, First(wire.sink))
    case Ended(StillRunning, _) => Unsent(Failed)
  }

  // The steps after the loop. Either the backend's head has been forwarded and the client cannot
  // be written to any more, or nothing has been written.
  method Conclude(end: Ending, wire: Wire, client: Client) returns (reply: FileReply)
    requires Sound(wire) && end != StillRunning && client.Untouched() && client.sink == wire.sink
    modifies client
    ensures reply == ReplyOf(Ended(end, wire))
    ensures if end.Served? && Forwards(wire)
            then !client.open && client.received <= FR.Flatten(wire.stream.chunks) else client.Untouched()
    ensures client.received != [] <==> reply.reached != []
  {
    match end
    case Refused(error) =>
      reply := if error == DivisionByZero then Unsent(Failed) else Reject(BAD_GATEWAY, First(wire.sink));
    case BadDestination(problem) =>
      reply := if problem == TooLong then Unsent(Failed) else Reject(BAD_GATEWAY, First(wire.sink));
    case Served(_) =>
      if !wire.requestSent {
        return Reject(BAD_GATEWAY, First(wire.sink));
      }
      var ok := RelayResponse(wire.status, wire.stream, client, wire.otherCopy);
      var begun := if client.writes > 0 then [wire.code] else [];
      reply := FileReply(begun, Reaching(begun, First(wire.sink)), if ok then Sent(OK) else FileResult.Refused(BAD_GATEWAY),
                         if client.open then First(wire.sink) else Nothing);
  }

  // The interpreter's part: an error is answered on the same connection, with `error`. What the
  // client receives is part of the backend's response or part of the error response, never of
  // both.
  method AnswerProxied(end: Ending, wire: Wire, client: Client, error: Bytes) returns (outcome: Outcome)
    requires Sound(wire) && end != StillRunning && client.Untouched() && client.sink == wire.sink && error != []
    modifies client
    ensures outcome == Settle(ReplyOf(Ended(end, wire)))
    ensures client.received <= FR.Flatten(wire.stream.chunks) || client.received <= error
    ensures end.Served? && Forwards(wire) ==> client.received <= FR.Flatten(wire.stream.chunks)
    ensures client.received != [] <==> outcome.reached != []
  {
    var reply := Conclude(end, wire, client);
    match reply.result
    case Sent(_) => outcome := Outcome(reply.begun, reply.reached, true);
    case Refused(status) =>
      var ok := client.WriteAll(error);
      var delivery := if ok then Whole else if |client.received| > 0 && reply.begun == [] then Part else Nothing;
      outcome := Outcome(reply.begun + [status], reply.reached + Reaching([status], delivery), ok);
    case Failed => outcome := Outcome(reply.begun, reply.reached, false);
  }

  // The whole directive: the first pattern of the map that matches, the loop on its balancer,
  // the relay. There is no reply while the loop goes on.
  method ProxyDirective(order: seq<string>, states: map<string, ReverseProxyState>, path: string, addr: IpAddr,
                        options: ReverseProxyOptions, env: Environment, rounds: nat, wire: Wire, client: Client)
    returns (reply: Option<FileReply>, ghost exchange: Exchange, ghost picks: seq<nat>)
    requires IsOrder(order, states.Keys) && Sound(wire) && client.Untouched() && client.sink == wire.sink
    requires forall p | p in states :: states[p].Valid()
    modifies set p | p in states :: states[p], set p | p in states :: states[p].aliveStates
    modifies client
    ensures reply == if exchange == Ended(StillRunning, wire) then None else Some(ReplyOf(exchange))
    ensures match FirstSuch(order, Matcher(path))
            case None => exchange == Unmatched
            case Some(p) =>
              && p in states && exchange.Ended? && exchange.wire == wire && states[p].Valid()
              && EndedBy(states[p], addr, env, options.lbRetries, picks, exchange.end)
    ensures if exchange.Ended? && exchange.end.Served? && Forwards(wire)
            then !client.open && client.received <= FR.Flatten(wire.stream.chunks) else client.Untouched()
    // without a backend that can be selected the answer is 502
    ensures var first := FirstSuch(order, Matcher(path));
            first.Some? && first.value in states && rounds > 0 && old(states[first.value].NoneSelectable(addr, ClockOf(env, 0))) ==>
              reply.Some? && reply.value.begun == [] && reply.value.result == FileResult.Refused(502) && client.Untouched()
  {
    var found := FindProxyState(order, path);
    picks := [];
    if found.None? {
      exchange := Unmatched;
      return Some(Unsent(NotMatched)), exchange, picks;
    }
    var end, picked, attempts := ProxyLoop(states[found.value], addr, options, env, rounds);
    exchange, picks := Ended(end, wire), picked;
    if end == StillRunning {
      return None, exchange, picks;
    }
    var concluded := Conclude(end, wire, client);
    reply := Some(concluded);
  }

  /* ---- response heads ---- */

  // The heads begun for a request that reaches the loop, by how the loop ended: 502 for every
  // refusal but the two that are errors of the program itself.
  lemma HeadsOfAProxiedRequest(end: Ending, wire: Wire)
    requires end != StillRunning
    ensures var outcome := Settle(ReplyOf(Ended(end, wire)));
            if end.Served? && Forwards(wire) then
              outcome.begun == (if RelaySucceeds(wire) then [wire.code] else [wire.code, 502]) && outcome.ok == RelaySucceeds(wire)
            else if end == Ending.Refused(DivisionByZero) || end == BadDestination(TooLong) then
              outcome == Outcome([], [], false)
            else
              outcome.begun == [502] && (outcome.ok <==> wire.sink(0).None?)
    // the first of them reaches the client unless its first write takes nothing
    ensures var outcome := Settle(ReplyOf(Ended(end, wire)));
            outcome.reached == if outcome.begun == [] || wire.sink(0) == Some(0) then [] else outcome.begun[..1]
  {
  }

  // A backend was reached, its head was completed and begun to be sent on, and then that write or
  // a later one, a read from the backend, or the copy from the client failed.
  ghost predicate FailsAfterHead(exchange: Exchange) {
    exchange.Ended? && exchange.end.Served? && Forwards(exchange.wire) && !RelaySucceeds(exchange.wire)
  }

  // With the proxy's replies as above, a second response head is begun iff the directive that
  // settles the request is a reverse_proxy whose relay fails after the head; that attempt
  // always fails, and the request with it.
  lemma SecondHeadIffRelayFailsAfterHead(ds: seq<Directive>, request: RequestView, world: World,
                                         exchanges: ReverseProxyOptions -> Exchange)
    requires forall o :: world.proxy(o) == ReplyOf(exchanges(o))
    ensures var outcome, i := Meaning(ds, request, world), FirstDecisive(ds, request, world);
            && |outcome.begun| <= 2
            && (|outcome.begun| == 2 <==> i < |ds| && ds[i].ReverseProxy? && FailsAfterHead(exchanges(ds[i].options)))
            && (|outcome.begun| == 2 ==> !outcome.ok)
  {
    SecondHeadIffProxyFailsAfterItsHead(ds, request, world);
  }

  // Something of at most one response head reaches the client, for every list of directives and
  // every behaviour of files, backends and connections.
  lemma AtMostOneHeadReachesTheClient(ds: seq<Directive>, request: RequestView, world: World,
                                      exchanges: ReverseProxyOptions -> Exchange)
    requires forall o :: world.proxy(o) == ReplyOf(exchanges(o))
    ensures |Meaning(ds, request, world).reached| <= 1
  {
    SecondHeadIffProxyFailsAfterItsHead(ds, request, world);
  }

  /* ---- an example ---- */

  function Recognises(head: Bytes): Bytes -> FR.Status {
    b => if head <= b then FR.Complete(|head|) else FR.Partial
  }

  // The backend sends its head and one byte.
  function ShortResponse(head: Bytes, sink: Sink, code: nat): Wire {
    Wire(Recognises(head), true, Stream([head, [33]], false), sink, true, code)
  }

  lemma ShortResponseHasHead(head: Bytes, chunks: seq<Bytes>)
    requires head != [] && chunks == [head, [33]]
    ensures FR.Flatten(chunks[..1]) == head && HeadAfter(Recognises(head), chunks, 1)
  {
    assert chunks[..1] == [head] && FR.Flatten(chunks[..1]) == head + FR.Flatten([]) == head;
  }

  lemma ShortResponseForwards(head: Bytes, sink: Sink, code: nat)
    requires head != []
    ensures Sound(ShortResponse(head, sink, code)) && Forwards(ShortResponse(head, sink, code))
    ensures RelaySucceeds(ShortResponse(head, sink, code)) <==> sink(0).None? && sink(1).None?
  {
    var chunks: seq<Bytes> := [head, [33]];
    ShortResponseHasHead(head, chunks);
    DeliversIff(Recognises(head), chunks, sink, 1);
    assert Writes(Recognises(head), chunks, 1) == 2;
  }

  function TakesOneWrite(i: nat): Option<nat> {
    if i == 0 then None else Some(0)
  }

  // A client that takes the head and then goes away: a second head is begun, in vain.
  lemma ClientThatGoesAwayGetsOneHead(head: Bytes, pattern: string, url: Url, options: ReverseProxyOptions,
                                      request: RequestView, world: World)
    requires head != []
    requires forall o :: world.proxy(o) == ReplyOf(Ended(Served(0), ShortResponse(head, TakesOneWrite, OK)))
    ensures Meaning([ReverseProxy(pattern, [url], options)], request, world) == Outcome([OK, BAD_GATEWAY], [OK], false)
  {
    ShortResponseForwards(head, TakesOneWrite, OK);
  }
}
