/** Relaying a backend's response to the client. */
module Relay {
  import opened Framing
  import opened Utf8
  import opened Wrappers

  // What the client's socket does with the i-th write: None takes all of it, Some(n) takes
  // the first n bytes and fails.
  type Sink = nat -> Option<nat>

  function Taken(data: Bytes, cut: Option<nat>): Bytes {
    if cut.Some? && cut.value < |data| then data[..cut.value] else data
  }

  // Reads until the head is complete; what was read beyond it stays in the buffer.
  method GetHeaderLen(status: Bytes -> Status, chunks: seq<Bytes>)
    returns (headerLen: Option<nat>, buf: Bytes, used: nat)
    requires NonEmpty(chunks)
    ensures used <= |chunks| && buf == Flatten(chunks[..used])
    ensures headerLen.Some? ==> used > 0 && status(buf) == Complete(headerLen.value)
    ensures forall k | 0 < k < used :: status(Flatten(chunks[..k])) == Partial
    ensures headerLen.None? && used > 0 ==> !status(buf).Complete?
    ensures headerLen.None? ==> used == |chunks| || (used > 0 && status(buf) == Invalid)
  {
    buf, used := [], 0;
    while used < |chunks|
      invariant used <= |chunks| && buf == Flatten(chunks[..used])
      invariant forall k | 0 < k <= used :: status(Flatten(chunks[..k])) == Partial
    {
      FlattenOneMore(chunks, used);
      buf := buf + chunks[used];
      used := used + 1;
      match status(buf)
      case Complete(n) => return Some(n), buf, used;
      case Partial =>
      case Invalid => return None, buf, used;
    }
    headerLen := None;
  }

  lemma {:induction false} FlattenOneMore(chunks: seq<Bytes>, k: nat)
    requires k < |chunks|
    ensures Flatten(chunks[..k + 1]) == Flatten(chunks[..k]) + chunks[k]
    decreases k
  {
    if k > 0 {
      FlattenOneMore(chunks[1..], k - 1);
      assert chunks[1..][..k] == chunks[..k + 1][1..] && chunks[1..][..k - 1] == chunks[..k][1..];
    } else {
      assert chunks[..1] == [chunks[0]];
    }
  }

  lemma {:induction false} FlattenPrefix(chunks: seq<Bytes>, k: nat)
    requires k <= |chunks|
    ensures Flatten(chunks[..k]) <= Flatten(chunks)
    decreases k
  {
    if k > 0 {
      FlattenPrefix(chunks[1..], k - 1);
      assert chunks[1..][..k - 1] == chunks[..k][1..];
    }
  }

  // The k-th read is the first after which the parser has decided, and it has found a head.
  ghost predicate HeadAfter(status: Bytes -> Status, chunks: seq<Bytes>, k: int) {
    && 0 < k <= |chunks| && status(Flatten(chunks[..k])).Complete?
    && forall j | 0 < j < k :: status(Flatten(chunks[..j])) == Partial
  }

  // The backend's side of the connection: what its reads deliver, and whether they end with an
  // error instead of the end of the stream.
  datatype Stream = Stream(chunks: seq<Bytes>, broken: bool)

  // The writes up to and including the i-th take everything.
  predicate TakesAll(sink: Sink, from: nat, until: nat) {
    forall i | from <= i < until :: sink(i).None?
  }

  // The client's side of the connection. Once a write has failed, or the writing half has been
  // shut down, nothing more gets through.
  class Client {
    const sink: Sink
    var writes: nat
    var open: bool
    var received: Bytes

    constructor (sink: Sink)
      ensures this.sink == sink && Untouched()
    {
      this.sink := sink;
      writes, open, received := 0, true, [];
    }

    ghost predicate Untouched()
      reads this
    {
      writes == 0 && open && received == []
    }

    method WriteAll(data: Bytes) returns (ok: bool)
      modifies this
      ensures received == old(received) + if old(open) then Taken(data, sink(old(writes))) else []
      ensures ok <==> old(open) && sink(old(writes)).None?
      ensures open == ok && writes == old(writes) + 1
    {
      if open {
        received := received + Taken(data, sink(writes));
      }
      ok := open && sink(writes).None?;
      open, writes := ok, writes + 1;
    }

    method Shutdown()
      modifies `open
      ensures !open
    {
      open := false;
    }
  }

  // Copy the remaining reads to the client, then close the writing half.
  method Copy(stream: Stream, start: nat, client: Client) returns (ok: bool)
    requires start <= |stream.chunks| && client.open && client.received == Flatten(stream.chunks[..start])
    modifies client
    ensures old(client.received) <= client.received <= Flatten(stream.chunks)
    ensures !client.open && client.writes >= old(client.writes)
    ensures TakesAll(client.sink, old(client.writes), old(client.writes) + (|stream.chunks| - start)) ==>
              client.received == Flatten(stream.chunks)
    ensures ok <==> !stream.broken
                    && TakesAll(client.sink, old(client.writes), old(client.writes) + (|stream.chunks| - start))
  {
    ghost var first := client.writes;
    var chunks := stream.chunks;
    var copied := start;
    FlattenPrefix(chunks, start);
    ok := true;
    while ok && copied < |chunks|
      invariant start <= copied <= |chunks| && old(client.received) <= client.received <= Flatten(chunks)
      invariant client.writes >= first
      invariant ok ==> client.open && client.received == Flatten(chunks[..copied]) && client.writes == first + (copied - start)
      invariant ok ==> TakesAll(client.sink, first, first + (copied - start))
      invariant !ok ==> !TakesAll(client.sink, first, first + (|chunks| - start))
      decreases |chunks| - copied, ok
    {
      FlattenOneMore(chunks, copied);
      FlattenPrefix(chunks, copied + 1);
      var taken := client.WriteAll(chunks[copied]);
      if taken {
        copied := copied + 1;
      } else {
        ok := false;
      }
    }
    assert chunks[..|chunks|] == chunks;
    client.Shutdown();
    ok := ok && !stream.broken;
  }

  // The number of writes to the client when the head is complete after k reads: the head, what
  // was read beyond it, and every further read.
  function Writes(status: Bytes -> Status, chunks: seq<Bytes>, k: nat): nat
    requires k <= |chunks|
  {
    var buf := Flatten(chunks[..k]);
    (if status(buf).Complete? && |buf| == status(buf).headLen then 1 else 2) + (|chunks| - k)
  }

  // A head is completed, and the client takes every write.
  ghost predicate Delivers(status: Bytes -> Status, chunks: seq<Bytes>, sink: Sink) {
    exists k :: HeadAfter(status, chunks, k) && TakesAll(sink, 0, Writes(status, chunks, k))
  }

  // Besides, no read fails and the copy in the other direction succeeds.
  ghost predicate Relays(status: Bytes -> Status, stream: Stream, sink: Sink, otherCopy: bool) {
    Delivers(status, stream.chunks, sink) && !stream.broken && otherCopy
  }

  // The backend's head is completed, so that it begins to be sent on.
  ghost predicate FindsHead(status: Bytes -> Status, stream: Stream) {
    exists k :: HeadAfter(status, stream.chunks, k)
  }

  // And some of it reaches the client.
  ghost predicate BeginsHead(status: Bytes -> Status, stream: Stream, sink: Sink) {
    sink(0) != Some(0) && FindsHead(status, stream)
  }

  ghost predicate FindsHeads(status: Bytes -> Status) {
    forall b: Bytes | status(b).Complete? :: 0 < status(b).headLen <= |b|
  }

  lemma DeliversIff(status: Bytes -> Status, chunks: seq<Bytes>, sink: Sink, k: nat)
    requires HeadAfter(status, chunks, k)
    ensures Delivers(status, chunks, sink) <==> TakesAll(sink, 0, Writes(status, chunks, k))
  {
    assert forall l | HeadAfter(status, chunks, l) :: l == k;
  }

  // Write the head, and what was read beyond it.
  method SendHead(client: Client, buf: Bytes, headerLen: nat) returns (ok: bool)
    requires 0 < headerLen <= |buf| && client.Untouched()
    modifies client
    ensures client.received <= buf && (ok ==> client.received == buf)
    ensures client.open == ok && client.writes > 0
    ensures ok ==> client.writes == if |buf| == headerLen then 1 else 2
    ensures ok <==> TakesAll(client.sink, 0, if |buf| == headerLen then 1 else 2)
    ensures client.received != [] <==> client.sink(0) != Some(0)
  {
    var head, rest := buf[..headerLen], buf[headerLen..];
    assert buf == head + rest;
    ok := client.WriteAll(head);
    assert client.received == Taken(head, client.sink(0));
    if ok && |buf| > headerLen {
      ok := client.WriteAll(rest);
    }
  }

  lemma NoHead(status: Bytes -> Status, chunks: seq<Bytes>, used: nat)
    requires used <= |chunks| && !status(Flatten(chunks[..used])).Complete?
    requires forall k | 0 < k < used :: status(Flatten(chunks[..k])) == Partial
    requires used == |chunks| || (used > 0 && status(Flatten(chunks[..used])) != Partial)
    ensures forall k :: !HeadAfter(status, chunks, k)
  {
  }

  // From the complete head in the buffer on.
  method RelayFrom(status: Bytes -> Status, stream: Stream, used: nat, buf: Bytes, client: Client) returns (ok: bool)
    requires HeadAfter(status, stream.chunks, used) && buf == Flatten(stream.chunks[..used])
    requires FindsHeads(status) && client.Untouched()
    modifies client
    ensures client.received <= Flatten(stream.chunks) && !client.open && client.writes > 0
    ensures var taken := TakesAll(client.sink, 0, Writes(status, stream.chunks, used));
            (taken ==> client.received == Flatten(stream.chunks)) && (ok <==> taken && !stream.broken)
    ensures client.received != [] <==> client.sink(0) != Some(0)
  {
    FlattenPrefix(stream.chunks, used);
    ok := SendHead(client, buf, status(buf).headLen);
    if ok {
      WritesAdd(client.sink, client.writes, |stream.chunks| - used);
      ok := Copy(stream, used, client);
    }
  }

  // The backend's bytes reach the client in order, none lost and none repeated: all of them
  // when every write is taken, a prefix in any case, something iff a head is completed and the
  // first write takes something. A failing read while a head is awaited is the end of the
  // stream; later it fails the relay, as does the copy from the client. Unless no head was
  // found, and nothing written, the client cannot be written to any more.
  method RelayResponse(status: Bytes -> Status, stream: Stream, client: Client, otherCopy: bool) returns (ok: bool)
    requires NonEmpty(stream.chunks) && FindsHeads(status) && client.Untouched()
    modifies client
    ensures client.received <= Flatten(stream.chunks)
    ensures Delivers(status, stream.chunks, client.sink) ==> client.received == Flatten(stream.chunks)
    ensures ok <==> Relays(status, stream, client.sink, otherCopy)
    ensures client.received != [] <==> BeginsHead(status, stream, client.sink)
    ensures if FindsHead(status, stream) then !client.open && client.writes > 0 else client.Untouched()
  {
    var headerLen, buf, used := GetHeaderLen(status, stream.chunks);
    if headerLen.None? {
      NoHead(status, stream.chunks, used);
      return false;
    }
    assert HeadAfter(status, stream.chunks, used);
    DeliversIff(status, stream.chunks, client.sink, used);
    ok := RelayFrom(status, stream, used, buf, client);
    ok := ok && otherCopy;
  }

  lemma WritesAdd(sink: Sink, m: nat, n: nat)
    requires TakesAll(sink, 0, m)
    ensures TakesAll(sink, 0, m + n) <==> TakesAll(sink, m, m + n)
  {
  }
}
