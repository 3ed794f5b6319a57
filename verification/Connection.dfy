/** One connection from its bytes to its reply: what is read off it is what the interpreter is
    given. */
module Connections {
  import opened Numbers
  import opened Wrappers
  import opened Utf8
  import opened Routing
  import opened Framing
  import opened RequestText
  import opened Reprinting
  import opened FileServer
  import opened Directives

  /* ---- how the interpreter sees a request ---- */

  const QUESTION_MARK: byte := 63

  const HOST: Bytes := [104, 111, 115, 116]
  const COOKIE: Bytes := [99, 111, 111, 107, 105, 101]
  const RANGE: Bytes := [114, 97, 110, 103, 101]

  function Ascii(s: Bytes): string {
    seq(|s|, i requires 0 <= i < |s| => s[i] as char)
  }

  // A value is text if all of it is visible.
  predicate IsVisible(s: Bytes) {
    forall b | b in s :: 32 <= b < 127 || b == TAB
  }

  // The first value of a header.
  function FirstValue(headers: seq<Header>, name: Bytes): HeaderText {
    var values := ValuesOf(headers, name);
    if values == [] then Absent
    else if IsVisible(values[0]) then Text(Ascii(values[0]))
    else Opaque
  }

  function PathOf(target: Bytes): string {
    match Until(target, QUESTION_MARK)
    case None => Ascii(target)
    case Some(i) => Ascii(target[..i])
  }

  function View(request: Request): RequestView {
    var headers := request.head.headers;
    RequestView(PathOf(request.head.target), FirstValue(headers, HOST), FirstValue(headers, COOKIE), FirstValue(headers, RANGE))
  }

  function ViewOf(result: Result<Request, RequestError>): Option<RequestView> {
    match result
    case Ok(request) => Some(View(request))
    case Err(_) => None
  }

  // A request is seen alike whatever order the names of its headers come in, and whatever its
  // body is.
  lemma IterationIsSeenAlike(request: Request, stored: seq<Header>, version: nat, body: Bytes)
    requires IsIteration(stored, request.head.headers)
    ensures View(Request(request.head.(headers := stored, version := version), body)) == View(request)
  {
  }

  /* ---- the connection ---- */

  // `order` is the one in which the map yields the hosts.
  method HandleConnection(p: HeadParser, chunks: seq<Bytes>, hosts: map<string, seq<Directive>>, order: seq<string>,
                          world: World)
    returns (outcome: Outcome)
    requires Stable(p) && IsOrder(order, hosts.Keys)
    ensures outcome == Reply(ViewOf(Receive(p, [], chunks)), hosts, order, world)
  {
    var result := SocketToRequest(p, chunks);
    outcome := DirectiveProcess(ViewOf(result), hosts, order, world);
  }

  // A request of a head and exactly Content-Length bytes is answered alike however it is cut
  // into reads.
  lemma AnswerIsIndependentOfReads(p: HeadParser, h: Bytes, head: Head, body: Bytes, one: seq<Bytes>, other: seq<Bytes>,
                                   hosts: map<string, seq<Directive>>, order: seq<string>, world: World)
    requires Stable(p) && IsHead(p, h) && p.read(h) == Some(head) && IsOrder(order, hosts.Keys)
    requires ContentLength(head.headers) == Some(|body|) || (ContentLength(head.headers) == None && body == [])
    requires NonEmpty(one) && NonEmpty(other) && Flatten(one) == Flatten(other) == h + body
    ensures Reply(ViewOf(Receive(p, [], one)), hosts, order, world) == Reply(ViewOf(Receive(p, [], other)), hosts, order, world)
  {
    FramingIsIndependentOfReads(p, h, head, body, one);
    FramingIsIndependentOfReads(p, h, head, body, other);
  }

  // A request that was read and is proxied to a second instance is answered there as that
  // instance would have answered the original bytes.
  lemma ProxiedRequestIsAnsweredAlike(original: seq<Bytes>, request: Request, stored: seq<Header>, chunks: seq<Bytes>,
                                      hosts: map<string, seq<Directive>>, order: seq<string>, world: World)
    requires Receive(Strict(), [], original) == Ok(request) && IsIteration(stored, request.head.headers)
    requires NonEmpty(chunks) && Flatten(chunks) == Reprinted(request, stored) && IsOrder(order, hosts.Keys)
    ensures Reply(ViewOf(Receive(Strict(), [], chunks)), hosts, order, world) ==
            Reply(ViewOf(Receive(Strict(), [], original)), hosts, order, world)
  {
    ReceivedIsPrintable([], original);
    var body := ReprintedHeadIsReceived(request, stored, chunks);
    IterationIsSeenAlike(request, stored, 1, body);
  }

  // A head that is not UTF-8 gets 400, whatever the directives.
  lemma OtherTextGets400(p: HeadParser, h: Bytes, chunks: seq<Bytes>, hosts: map<string, seq<Directive>>, order: seq<string>,
                         world: World)
    requires Stable(p) && IsHeadButForText(p, h) && !IsUtf8(h) && IsOrder(order, hosts.Keys)
    requires NonEmpty(chunks) && h <= Flatten(chunks)
    ensures Reply(ViewOf(Receive(p, [], chunks)), hosts, order, world) ==
            Outcome([BAD_REQUEST], Reaching([BAD_REQUEST], world.env.response), false)
  {
    assert [] + Flatten(chunks) == Flatten(chunks);
    OtherTextIsRefused(p, h, [], chunks);
  }
}
