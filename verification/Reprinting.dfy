/** What the strict grammar has read can be printed and read again. */
module Reprinting {
  import opened Wrappers
  import opened Utf8
  import opened Framing
  import opened RequestText

  /* ---- text that is cut at delimiters stays text ---- */

  lemma {:induction false} TrimStartKeepsText(s: Bytes)
    requires IsUtf8(s) && IsFieldValue(s)
    ensures var t := TrimStart(s); IsUtf8(t) && IsFieldValue(t) && (t != [] ==> !IsBlank(t[0]))
    decreases |s|
  {
    if s != [] && IsBlank(s[0]) {
      CutIsUtf8(s, 0);
      assert forall b | b in s[1..] :: b in s;
      TrimStartKeepsText(s[1..]);
    }
  }

  lemma {:induction false} TrimEndKeepsText(s: Bytes)
    requires IsUtf8(s) && IsFieldValue(s) && (s != [] ==> !IsBlank(s[0]))
    ensures var t := TrimEnd(s);
            IsUtf8(t) && IsFieldValue(t) && (t != [] ==> !IsBlank(t[0]) && !IsBlank(t[|t| - 1]))
    decreases |s|
  {
    if s != [] && IsBlank(s[|s| - 1]) {
      CutIsUtf8(s, |s| - 1);
      var t := s[..|s| - 1];
      assert forall b | b in t :: b in s;
      TrimEndKeepsText(t);
    }
  }

  lemma TrimKeepsText(s: Bytes, value: Bytes)
    requires IsUtf8(s) && IsFieldValue(s) && value == TrimEnd(TrimStart(s))
    ensures IsUtf8(value) && IsFieldValue(value)
    ensures value != [] ==> !IsBlank(value[0]) && !IsBlank(value[|value| - 1])
  {
    TrimStartKeepsText(s);
    TrimEndKeepsText(TrimStart(s));
  }

  // The line without its end, and the text that is left after it.
  lemma ReadRest(name: Bytes, buf: Bytes, before: nat, parsed: Parsed<Header>) returns (line: Bytes, rest: Bytes)
    requires IsUtf8(buf) && parsed == ParseValue(name, buf, before) && parsed.Done?
    ensures IsUtf8(line) && IsFieldValue(line) && parsed.value == Header(name, TrimEnd(TrimStart(line)))
    ensures before <= parsed.used <= before + |buf| && rest == buf[parsed.used - before..] && IsUtf8(rest)
  {
    var j := Until(buf, LF).value;
    CutIsUtf8(buf, j);
    var whole := buf[..j];
    CutIsUtf8(whole, j - 1);
    line, rest := buf[..j - 1], buf[j + 1..];
    assert whole[..j - 1] == line;
  }

  lemma TrimmedIsHeaderLine(name: Bytes, line: Bytes)
    requires IsToken(name) && IsUtf8(line) && IsFieldValue(line)
    ensures IsHeaderLine(Header(Lower(name), TrimEnd(TrimStart(line))))
  {
    LowerIsToken(name);
    TrimKeepsText(line, TrimEnd(TrimStart(line)));
  }

  // The name, and the text that is left after it.
  lemma ReadName(buf: Bytes, parsed: Parsed<Header>) returns (name: Bytes, rest: Bytes, before: nat)
    requires IsUtf8(buf) && parsed == ParseLine(buf) && parsed.Done?
    ensures IsToken(name) && before <= |buf| && rest == buf[before..] && IsUtf8(rest)
    ensures parsed == ParseValue(Lower(name), rest, before)
  {
    var i := Until(buf, COLON).value;
    CutIsUtf8(buf, i);
    name, rest, before := buf[..i], buf[i + 1..], i + 1;
  }

  lemma ReadLineIsText(buf: Bytes, parsed: Parsed<Header>)
    requires IsUtf8(buf) && parsed == ParseLine(buf) && parsed.Done?
    ensures IsHeaderLine(parsed.value) && IsUtf8(buf[parsed.used..])
  {
    var name, afterName, before := ReadName(buf, parsed);
    var line, rest := ReadRest(Lower(name), afterName, before, parsed);
    TrimmedIsHeaderLine(name, line);
    assert rest == buf[parsed.used..];
  }

  // What the line parser takes off a text is a header line, and leaves a text.
  ghost predicate TakesText(line: LineParser) {
    forall buf: Bytes | IsUtf8(buf) && line(buf).Done? ::
      line(buf).used <= |buf| && IsHeaderLine(line(buf).value) && IsUtf8(buf[line(buf).used..])
  }

  lemma ParseLineTakesText()
    ensures TakesText(ParseLine)
  {
    forall buf: Bytes | IsUtf8(buf) && ParseLine(buf).Done?
      ensures IsHeaderLine(ParseLine(buf).value) && IsUtf8(buf[ParseLine(buf).used..])
    {
      ReadLineIsText(buf, ParseLine(buf));
    }
  }

  lemma {:induction false} ReadHeadersAreLines(line: LineParser, buf: Bytes, room: nat)
    requires TakesText(line) && IsUtf8(buf) && ParseHeaders(line, buf, room).Fields?
    ensures |ParseHeaders(line, buf, room).headers| <= room
    ensures forall h | h in ParseHeaders(line, buf, room).headers :: IsHeaderLine(h)
    decreases |buf|
  {
    if buf[..2] != CRLF {
      var used, header := line(buf).used, line(buf).value;
      ReadHeadersAreLines(line, buf[used..], room - 1);
      var rest := ParseHeaders(line, buf[used..], room - 1);
      assert ParseHeaders(line, buf, room).headers == [header] + rest.headers;
      assert IsHeaderLine(header);
    }
  }

  // The verb, and the text that is left after it.
  lemma ReadVerb(buf: Bytes, parsed: Parsed<Head>) returns (verb: Bytes, rest: Bytes, before: nat)
    requires IsUtf8(buf) && parsed == ParseStart(buf) && parsed.Done?
    ensures IsToken(verb) && before <= |buf| && rest == buf[before..] && IsUtf8(rest)
    ensures parsed == ParseTarget(verb, rest, before)
  {
    var i := Until(buf, SP).value;
    CutIsUtf8(buf, i);
    verb, rest, before := buf[..i], buf[i + 1..], i + 1;
  }

  // The target, and the text that is left after it.
  lemma ReadTarget(verb: Bytes, buf: Bytes, before: nat, parsed: Parsed<Head>) returns (target: Bytes, rest: Bytes, more: nat)
    requires IsUtf8(buf) && parsed == ParseTarget(verb, buf, before) && parsed.Done?
    ensures IsOriginForm(target) && more <= |buf| && rest == buf[more..] && IsUtf8(rest)
    ensures parsed == ParseVersion(verb, target, rest, before + more)
  {
    var j := Until(buf, SP).value;
    CutIsUtf8(buf, j);
    target, rest, more := buf[..j], buf[j + 1..], j + 1;
  }

  lemma ReadVersionLeavesText(verb: Bytes, target: Bytes, buf: Bytes, before: nat, parsed: Parsed<Head>)
    requires IsUtf8(buf) && parsed == ParseVersion(verb, target, buf, before) && parsed.Done?
    ensures parsed.value.verb == verb && parsed.value.target == target
    ensures parsed.used == before + 10 && |buf| >= 10 && IsUtf8(buf[10..])
  {
    assert buf[..10][9] == buf[9];
    CutIsUtf8(buf, 9);
  }

  lemma ReadStartLeavesText(buf: Bytes, parsed: Parsed<Head>)
    requires IsUtf8(buf) && parsed == ParseStart(buf) && parsed.Done?
    ensures IsToken(parsed.value.verb) && IsOriginForm(parsed.value.target) && IsUtf8(buf[parsed.used..])
  {
    var verb, afterVerb, i := ReadVerb(buf, parsed);
    var target, version, j := ReadTarget(verb, afterVerb, i, parsed);
    ReadVersionLeavesText(verb, target, version, i + j, parsed);
    assert version[10..] == buf[parsed.used..];
  }

  lemma ReadHeadIsPrintable(h: Bytes)
    requires IsUtf8(h) && ParseHead(h).Done?
    ensures PrintableHead(ParseHead(h).value)
  {
    var start := ParseStart(h);
    ReadStartLeavesText(h, start);
    ParseLineTakesText();
    var rest := h[start.used..];
    ReadHeadersAreLines(ParseLine, rest, HEADER_BUF_SIZE);
    var headers := ParseHead(h).value.headers;
    assert forall i | 0 <= i < |headers| :: headers[i] in headers;
  }

  // What was received has a printable head, and a body only with a Content-Length.
  lemma {:induction false} ReceivedIsPrintable(buf: Bytes, chunks: seq<Bytes>)
    requires Receive(Strict(), buf, chunks).Ok?
    ensures var request := Receive(Strict(), buf, chunks).value;
            PrintableHead(request.head) && (ContentLength(request.head.headers).None? ==> request.body == [])
    decreases chunks
  {
    var buf' := buf + chunks[0];
    match Strict().status(buf')
    case Complete(headLen) => ReadHeadIsPrintable(buf'[..headLen]);
    case Partial => ReceivedIsPrintable(buf', chunks[1..]);
  }

  /* ---- reading, printing and reading again ---- */

  function Reprinted(request: Request, stored: seq<Header>): Bytes {
    PrintHead(request.head.(headers := stored)) + request.body
  }

  ghost predicate IsReceivedAs(text: Bytes, request: Request) {
    forall chunks | NonEmpty(chunks) && Flatten(chunks) == text :: Receive(Strict(), [], chunks) == Ok(request)
  }

  // A body that is too long is cut when the reads fall so.
  lemma SurplusIsCut(p: HeadParser, h: Bytes, request: Request, n: nat) returns (chunks: seq<Bytes>)
    requires Stable(p) && IsHead(p, h) && p.read(h) == Some(request.head)
    requires ContentLength(request.head.headers) == Some(n) && n < |request.body|
    ensures NonEmpty(chunks) && Flatten(chunks) == h + request.body
    ensures Receive(p, [], chunks) == Ok(request.(body := request.body[..n]))
  {
    var first, rest := h + request.body[..n], request.body[n..];
    chunks := [first, rest];
    assert chunks[1..] == [rest] && [rest][1..] == [];
    assert Flatten([rest]) == rest + Flatten([]);
    assert request.body[..n] + rest == request.body;
    assert [] + first == first && p.status(first) == Complete(|h|);
    assert first[..|h|] == h && first[|h|..] == request.body[..n];
  }

  // A request that was read and is printed is read as the same request, whatever the reads, if
  // and only if no more bytes of a body were read than Content-Length says.
  lemma ReadPrintReadIffNoSurplus(original: seq<Bytes>, request: Request, stored: seq<Header>)
    requires Receive(Strict(), [], original) == Ok(request) && IsIteration(stored, request.head.headers)
    ensures IsReceivedAs(Reprinted(request, stored), request.(head := request.head.(version := 1, headers := stored)))
            <==> HasNoSurplus(request)
  {
    ReceivedIsPrintable([], original);
    if HasNoSurplus(request) {
      forall chunks | NonEmpty(chunks) && Flatten(chunks) == Reprinted(request, stored)
        ensures Receive(Strict(), [], chunks) == Ok(request.(head := request.head.(version := 1, headers := stored)))
      {
        PrintedRequestIsReceived(request, stored, chunks);
      }
    } else {
      var h := PrintedHeadIsHead(request.head, stored);
      var again := Request(request.head.(version := 1, headers := stored), request.body);
      var chunks := SurplusIsCut(Strict(), h, again, ContentLength(stored).value);
    }
  }

  // The head is read alike in any case.
  lemma ReprintedHeadIsReceived(request: Request, stored: seq<Header>, chunks: seq<Bytes>) returns (body: Bytes)
    requires PrintableHead(request.head) && IsIteration(stored, request.head.headers)
    requires NonEmpty(chunks) && Flatten(chunks) == Reprinted(request, stored)
    ensures Receive(Strict(), [], chunks) == Ok(Request(request.head.(version := 1, headers := stored), body))
  {
    var h := PrintedHeadIsHead(request.head, stored);
    assert [] + Flatten(chunks) == h + request.body;
    body := ReceiveFrames(Strict(), h, request.head.(version := 1, headers := stored), [], chunks);
  }
}
