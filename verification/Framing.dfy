/** Reading a request off a connection that delivers its bytes in arbitrary pieces, and
    relaying a response piece by piece. The parser of message heads is a parameter. */
module Framing {
  import opened Numbers
  import opened Wrappers
  import opened Decimals
  import opened Utf8

  datatype Header = Header(name: Bytes, value: Bytes)

  // version is the minor version of HTTP/1
  datatype Head = Head(verb: Bytes, target: Bytes, version: nat, headers: seq<Header>)

  datatype Request = Request(head: Head, body: Bytes)

  datatype RequestError = Malformed | BadHead | Truncated

  datatype Status = Partial | Complete(headLen: nat) | Invalid

  // status looks for the end of a head at the front of a buffer; read interprets a head.
  datatype HeadParser = HeadParser(status: Bytes -> Status, read: Bytes -> Option<Head>)

  // Extending a buffer that holds a head changes nothing.
  ghost predicate Stable(p: HeadParser) {
    forall a: Bytes, b: Bytes | p.status(a).Complete? :: p.status(a).headLen <= |a| && p.status(a + b) == p.status(a)
  }

  // h is a head of UTF-8 text, recognised as complete only when the last byte is there.
  ghost predicate IsHead(p: HeadParser, h: Bytes) {
    IsHeadButForText(p, h) && IsUtf8(h)
  }

  ghost predicate IsHeadButForText(p: HeadParser, h: Bytes) {
    && h != [] && p.status(h) == Complete(|h|)
    && forall k | 0 < k < |h| :: p.status(h[..k]) == Partial
  }

  /* ---- content length ---- */

  // content-length
  const CONTENT_LENGTH: Bytes := [99, 111, 110, 116, 101, 110, 116, 45, 108, 101, 110, 103, 116, 104]

  function LowerByte(b: byte): byte {
    if 65 <= b <= 90 then b + 32 else b
  }

  function Lower(s: Bytes): Bytes {
    seq(|s|, i requires 0 <= i < |s| => LowerByte(s[i]))
  }

  // ASCII text; other bytes become a character that is no digit.
  function AsText(s: Bytes): string {
    seq(|s|, i requires 0 <= i < |s| => if s[i] < 128 then s[i] as char else '?')
  }

  predicate IsSpace(c: char) {
    c == ' ' || '\t' <= c <= '\r'
  }

  function TrimText(s: string): string {
    if s != "" && IsSpace(s[0]) then TrimText(s[1..])
    else if s != "" && IsSpace(s[|s| - 1]) then TrimText(s[..|s| - 1])
    else s
  }

  predicate IsContentLength(h: Header) {
    Lower(h.name) == CONTENT_LENGTH && ParseUnsigned(TrimText(AsText(h.value)), U64).Some?
  }

  // The last Content-Length header that is a number decides.
  function ContentLength(headers: seq<Header>): Option<nat> {
    if headers == [] then None
    else
      var h := headers[|headers| - 1];
      if IsContentLength(h) then ParseUnsigned(TrimText(AsText(h.value)), U64)
      else ContentLength(headers[..|headers| - 1])
  }

  /* ---- names and numbers as they are written ---- */

  // The same letter in upper or lower case, or the same character.
  predicate Matches(b: byte, c: char) {
    || b as int == c as int
    || ('A' <= c <= 'Z' && b as int == c as int + 32)
    || ('a' <= c <= 'z' && b as int == c as int - 32)
  }

  predicate Spells(name: Bytes, word: string) {
    |name| == |word| && forall i | 0 <= i < |name| :: Matches(name[i], word[i])
  }

  lemma SpellsIffLower(name: Bytes, word: string, lower: Bytes)
    requires |word| == |lower| && forall i | 0 <= i < |word| :: Matches(lower[i], word[i]) && LowerByte(lower[i]) == lower[i]
    ensures Lower(name) == lower <==> Spells(name, word)
  {
    if Spells(name, word) {
      forall i | 0 <= i < |name| ensures Lower(name)[i] == lower[i] {
        assert Matches(name[i], word[i]) && Matches(lower[i], word[i]);
      }
    }
  }

  lemma ContentLengthIsSpelled(name: Bytes)
    ensures Lower(name) == CONTENT_LENGTH <==> Spells(name, "Content-Length")
  {
    SpellsIffLower(name, "Content-Length", CONTENT_LENGTH);
  }

  predicate IsPadding(s: string) {
    forall i | 0 <= i < |s| :: s[i] == ' ' || 9 <= s[i] as int <= 13
  }

  lemma {:induction false} TrimPadded(before: string, s: string, after: string)
    requires IsPadding(before) && IsPadding(after) && s != "" && !IsSpace(s[0]) && !IsSpace(s[|s| - 1])
    ensures TrimText(before + s + after) == s
    decreases |before| + |after|
  {
    var text := before + s + after;
    if before != "" {
      assert text[1..] == before[1..] + s + after;
      TrimPadded(before[1..], s, after);
    } else if after != "" {
      assert text[..|text| - 1] == before + s + after[..|after| - 1] && text[0] == s[0];
      TrimPadded(before, s, after[..|after| - 1]);
    } else {
      assert text == s;
    }
  }

  predicate AreBytesOf(value: Bytes, s: string) {
    |value| == |s| && forall i | 0 <= i < |s| :: value[i] as int == s[i] as int
  }

  // The digits of n, with white space around them.
  ghost predicate WritesNumber(value: Bytes, n: nat) {
    exists before: string, after: string | IsPadding(before) && IsPadding(after) ::
      AreBytesOf(value, before + ToString(n) + after)
  }

  lemma WrittenNumberIsRead(value: Bytes, n: nat)
    requires WritesNumber(value, n) && n < U64
    ensures ParseUnsigned(TrimText(AsText(value)), U64) == Some(n)
  {
    var before: string, after: string :|
      IsPadding(before) && IsPadding(after) && AreBytesOf(value, before + ToString(n) + after);
    var digits := ToString(n);
    var text := before + digits + after;
    forall i | 0 <= i < |text| ensures text[i] < 128 as char {
      assert text[i] in before || text[i] in digits || text[i] in after;
    }
    assert AsText(value) == text;
    assert digits[0] in digits && digits[|digits| - 1] in digits;
    TrimPadded(before, digits, after);
    ParseOfToString(n, U64);
  }

  // A header that is spelled Content-Length, in whatever case, and writes a number decides, if no
  // later one does.
  lemma {:induction false} LastWrittenLengthDecides(headers: seq<Header>, i: nat, n: nat)
    requires i < |headers| && Spells(headers[i].name, "Content-Length") && WritesNumber(headers[i].value, n) && n < U64
    requires forall j | i < j < |headers| :: !IsContentLength(headers[j])
    ensures ContentLength(headers) == Some(n)
    decreases |headers|
  {
    if i == |headers| - 1 {
      ContentLengthIsSpelled(headers[i].name);
      WrittenNumberIsRead(headers[i].value, n);
    } else {
      LastWrittenLengthDecides(headers[..|headers| - 1], i, n);
    }
  }

  // Headers of other names never count.
  lemma OtherNamesDoNotCount(h: Header)
    requires !Spells(h.name, "Content-Length")
    ensures !IsContentLength(h)
  {
    ContentLengthIsSpelled(h.name);
  }

  lemma {:induction false} NoLengthWithoutTheName(headers: seq<Header>)
    requires forall i | 0 <= i < |headers| :: !Spells(headers[i].name, "Content-Length")
    ensures ContentLength(headers) == None
    decreases |headers|
  {
    if headers != [] {
      OtherNamesDoNotCount(headers[|headers| - 1]);
      NoLengthWithoutTheName(headers[..|headers| - 1]);
    }
  }

  // Among the headers there is exactly one of that name, and it writes n.
  ghost predicate DeclaresLength(headers: seq<Header>, n: nat) {
    exists i | 0 <= i < |headers| ::
      && Spells(headers[i].name, "Content-Length") && WritesNumber(headers[i].value, n)
      && forall j | 0 <= j < |headers| && j != i :: !Spells(headers[j].name, "Content-Length")
  }

  lemma DeclaredLengthIsRead(headers: seq<Header>, n: nat)
    requires DeclaresLength(headers, n) && n < U64
    ensures ContentLength(headers) == Some(n)
  {
    var i :| 0 <= i < |headers| && Spells(headers[i].name, "Content-Length") && WritesNumber(headers[i].value, n)
             && forall j | 0 <= j < |headers| && j != i :: !Spells(headers[j].name, "Content-Length");
    forall j | i < j < |headers| ensures !IsContentLength(headers[j]) {
      OtherNamesDoNotCount(headers[j]);
    }
    LastWrittenLengthDecides(headers, i, n);
  }

  /* ---- receiving ---- */

  function Flatten(chunks: seq<Bytes>): Bytes {
    if chunks == [] then [] else chunks[0] + Flatten(chunks[1..])
  }

  predicate NonEmpty(chunks: seq<Bytes>) {
    forall i | 0 <= i < |chunks| :: chunks[i] != []
  }

  // A read of nothing, like the end of the list, is the end of the stream.
  predicate Ended(chunks: seq<Bytes>) {
    chunks == [] || chunks[0] == []
  }

  function Fill(body: Bytes, length: nat, chunks: seq<Bytes>): Bytes
    decreases chunks
  {
    if |body| >= length || Ended(chunks) then body else Fill(body + chunks[0], length, chunks[1..])
  }

  // What is made of a buffer with a complete head at its front and more reads to come.
  function Finish(p: HeadParser, buf: Bytes, headLen: nat, chunks: seq<Bytes>): Result<Request, RequestError>
    requires headLen <= |buf|
  {
    if !IsUtf8(buf[..headLen]) then Err(BadHead)
    else
      match p.read(buf[..headLen])
      case None => Err(BadHead)
      case Some(head) =>
        match ContentLength(head.headers)
        case None => Ok(Request(head, []))
        case Some(length) => Ok(Request(head, Fill(buf[headLen..], length, chunks)))
  }

  function Receive(p: HeadParser, buf: Bytes, chunks: seq<Bytes>): Result<Request, RequestError>
    decreases chunks
  {
    if Ended(chunks) then Err(Truncated)
    else
      var buf' := buf + chunks[0];
      match p.status(buf')
      case Complete(headLen) => if headLen <= |buf'| then Finish(p, buf', headLen, chunks[1..]) else Err(Malformed)
      case Partial => Receive(p, buf', chunks[1..])
      case Invalid => Err(Malformed)
  }

  method SocketToRequest(p: HeadParser, chunks: seq<Bytes>) returns (result: Result<Request, RequestError>)
    requires Stable(p)
    ensures result == Receive(p, [], chunks)
  {
    var buf: Bytes := [];
    var used := 0;
    while used < |chunks|
      invariant used <= |chunks|
      invariant Receive(p, [], chunks) == Receive(p, buf, chunks[used..])
    {
      var bytesRead := |chunks[used]|;
      if bytesRead == 0 {
        break;
      }
      assert chunks[used..][1..] == chunks[used + 1..];
      buf := buf + chunks[used];
      used := used + 1;
      match p.status(buf)
      case Complete(headLen) =>
        assert p.status(buf + []) == p.status(buf);
        result := ParseRequestHeaders(p, headLen, buf, chunks, used);
        return;
      case Partial =>
      case Invalid =>
        return Err(Malformed);
    }
    result := Err(Truncated);
  }

  method ParseRequestHeaders(p: HeadParser, headLen: nat, buf: Bytes, chunks: seq<Bytes>, start: nat)
    returns (result: Result<Request, RequestError>)
    requires headLen <= |buf| && start <= |chunks|
    ensures result == Finish(p, buf, headLen, chunks[start..])
    ensures result.Ok? && NonEmpty(chunks[start..]) ==> HasDeclaredBody(result.value, buf[headLen..] + Flatten(chunks[start..]))
  {
    if !IsUtf8(buf[..headLen]) {
      return Err(BadHead);
    }
    var parsed := p.read(buf[..headLen]);
    if parsed.None? {
      return Err(BadHead);
    }
    var contentLengthOpt: Option<nat> := None;
    for i := 0 to |parsed.value.headers|
      invariant contentLengthOpt == ContentLength(parsed.value.headers[..i])
    {
      assert parsed.value.headers[..i + 1][..i] == parsed.value.headers[..i];
      if IsContentLength(parsed.value.headers[i]) {
        contentLengthOpt := ParseUnsigned(TrimText(AsText(parsed.value.headers[i].value)), U64);
      }
    }
    assert parsed.value.headers[..|parsed.value.headers|] == parsed.value.headers;
    if NonEmpty(chunks[start..]) {
      FinishReadsDeclaredBody(p, buf, headLen, chunks[start..]);
    }
    if contentLengthOpt.None? {
      return Ok(Request(parsed.value, []));
    }
    var body, used := buf[headLen..], start;
    while |body| < contentLengthOpt.value && used < |chunks|
      invariant start <= used <= |chunks|
      invariant Fill(buf[headLen..], contentLengthOpt.value, chunks[start..]) ==
                Fill(body, contentLengthOpt.value, chunks[used..])
    {
      if chunks[used] == [] {
        break;
      }
      assert chunks[used..][1..] == chunks[used + 1..];
      body := body + chunks[used];
      used := used + 1;
    }
    result := Ok(Request(parsed.value, body));
  }

  // Of the bytes that follow the head, as many as it declares are the body, as far as there are
  // so many; none, if it declares nothing.
  ghost predicate HasDeclaredBody(request: Request, rest: Bytes) {
    && (forall n: nat | n < U64 && DeclaresLength(request.head.headers, n) ::
          && request.body <= rest
          && (|rest| <= n ==> request.body == rest)
          && (n <= |rest| ==> n <= |request.body|))
    && ((forall i | 0 <= i < |request.head.headers| :: !Spells(request.head.headers[i].name, "Content-Length")) ==>
          request.body == [])
  }

  lemma FinishReadsDeclaredBody(p: HeadParser, buf: Bytes, headLen: nat, chunks: seq<Bytes>)
    requires headLen <= |buf| && NonEmpty(chunks) && Finish(p, buf, headLen, chunks).Ok?
    ensures HasDeclaredBody(Finish(p, buf, headLen, chunks).value, buf[headLen..] + Flatten(chunks))
  {
    var request := Finish(p, buf, headLen, chunks).value;
    forall n: nat | n < U64 && DeclaresLength(request.head.headers, n)
      ensures var rest := buf[headLen..] + Flatten(chunks);
              request.body <= rest && (|rest| <= n ==> request.body == rest) && (n <= |rest| ==> n <= |request.body|)
    {
      DeclaredLengthIsRead(request.head.headers, n);
      FillTakesAPrefix(buf[headLen..], n, chunks);
    }
    if forall i | 0 <= i < |request.head.headers| :: !Spells(request.head.headers[i].name, "Content-Length") {
      NoLengthWithoutTheName(request.head.headers);
    }
  }

  /* ---- independence of the pieces ---- */

  lemma {:induction false} FillTakesAPrefix(body: Bytes, length: nat, chunks: seq<Bytes>)
    requires NonEmpty(chunks)
    ensures var full := body + Flatten(chunks); var out := Fill(body, length, chunks);
            && out <= full
            && (length <= |full| ==> length <= |out|)
            && (|full| <= length ==> out == full)
    decreases chunks
  {
    if |body| < length && chunks != [] {
      FillTakesAPrefix(body + chunks[0], length, chunks[1..]);
      assert body + chunks[0] + Flatten(chunks[1..]) == body + Flatten(chunks);
    } else if chunks == [] {
      assert body + [] == body;
    }
  }

  // However a stream that starts with a valid head is cut into reads, the head is the same,
  // and the body is a prefix of what follows: everything, when that is no more than
  // Content-Length; otherwise at least Content-Length bytes.
  lemma {:induction false} ReceiveFrames(p: HeadParser, h: Bytes, head: Head, buf: Bytes, chunks: seq<Bytes>)
    returns (body: Bytes)
    requires Stable(p) && IsHead(p, h) && p.read(h) == Some(head)
    requires NonEmpty(chunks) && |buf| < |h| && h <= buf + Flatten(chunks)
    ensures Receive(p, buf, chunks) == Ok(Request(head, body))
    ensures var rest := (buf + Flatten(chunks))[|h|..];
            match ContentLength(head.headers)
            case None => body == []
            case Some(length) =>
              && body <= rest
              && (|rest| <= length ==> body == rest)
              && (length <= |rest| ==> length <= |body|)
    decreases chunks
  {
    var stream := buf + Flatten(chunks);
    var buf' := buf + chunks[0];
    assert stream == buf' + Flatten(chunks[1..]);
    if |buf'| < |h| {
      assert buf' == h[..|buf'|];
      body := ReceiveFrames(p, h, head, buf', chunks[1..]);
    } else {
      assert buf' == h + buf'[|h|..];
      assert p.status(buf') == Complete(|h|);
      assert buf'[..|h|] == h;
      var rest := stream[|h|..];
      assert rest == buf'[|h|..] + Flatten(chunks[1..]);
      match ContentLength(head.headers)
      case None => body := [];
      case Some(length) =>
        body := Fill(buf'[|h|..], length, chunks[1..]);
        FillTakesAPrefix(buf'[|h|..], length, chunks[1..]);
    }
  }

  // A head and exactly Content-Length bytes give one request, whatever the reads.
  lemma FramingIsIndependentOfReads(p: HeadParser, h: Bytes, head: Head, body: Bytes, chunks: seq<Bytes>)
    requires Stable(p) && IsHead(p, h) && p.read(h) == Some(head)
    requires ContentLength(head.headers) == Some(|body|) || (ContentLength(head.headers) == None && body == [])
    requires NonEmpty(chunks) && Flatten(chunks) == h + body
    ensures Receive(p, [], chunks) == Ok(Request(head, body))
  {
    assert [] + Flatten(chunks) == h + body;
    var got := ReceiveFrames(p, h, head, [], chunks);
    assert (h + body)[|h|..] == body;
  }

  // Too few bytes still make a request: the end of the stream ends the body.
  lemma ShortBodyIsAccepted(p: HeadParser, h: Bytes, head: Head, rest: Bytes, chunks: seq<Bytes>)
    requires Stable(p) && IsHead(p, h) && p.read(h) == Some(head)
    requires ContentLength(head.headers).Some? && |rest| < ContentLength(head.headers).value
    requires NonEmpty(chunks) && Flatten(chunks) == h + rest
    ensures Receive(p, [], chunks) == Ok(Request(head, rest))
  {
    assert [] + Flatten(chunks) == h + rest;
    var got := ReceiveFrames(p, h, head, [], chunks);
    assert (h + rest)[|h|..] == rest;
  }

  // How a request without a head fails: the stream ends first, or the parser rejects what there is.
  lemma {:induction false} HeadNeverComes(p: HeadParser, buf: Bytes, chunks: seq<Bytes>, n: nat)
    requires NonEmpty(chunks) && n <= |chunks|
    requires forall k | 0 < k <= n :: p.status(buf + Flatten(chunks[..k])) == Partial
    ensures n == |chunks| ==> Receive(p, buf, chunks) == Err(Truncated)
    ensures n < |chunks| && p.status(buf + Flatten(chunks[..n + 1])) == Invalid ==> Receive(p, buf, chunks) == Err(Malformed)
    decreases n
  {
    if chunks != [] {
      FirstChunk(chunks);
      assert buf + (chunks[0] + []) == buf + chunks[0];
      if n > 0 {
        var buf', rest := buf + chunks[0], chunks[1..];
        assert p.status(buf + Flatten(chunks[..1])) == Partial;
        forall k | 0 <= k < |chunks| ensures buf' + Flatten(rest[..k]) == buf + Flatten(chunks[..k + 1]) {
          assert chunks[..k + 1][1..] == rest[..k];
        }
        HeadNeverComes(p, buf', rest, n - 1);
      }
    }
  }

  lemma FirstChunk(chunks: seq<Bytes>)
    requires chunks != []
    ensures Flatten(chunks[..1]) == chunks[0] + []
  {
    assert chunks[..1] == [chunks[0]] && [chunks[0]][1..] == [];
  }

  // A head that is not UTF-8 is refused, whatever the reads and whatever follows it.
  lemma {:induction false} OtherTextIsRefused(p: HeadParser, h: Bytes, buf: Bytes, chunks: seq<Bytes>)
    requires Stable(p) && IsHeadButForText(p, h) && !IsUtf8(h)
    requires NonEmpty(chunks) && |buf| < |h| && h <= buf + Flatten(chunks)
    ensures Receive(p, buf, chunks) == Err(BadHead)
    decreases chunks
  {
    var buf' := buf + chunks[0];
    assert buf + Flatten(chunks) == buf' + Flatten(chunks[1..]);
    if |buf'| < |h| {
      assert buf' == h[..|buf'|];
      OtherTextIsRefused(p, h, buf', chunks[1..]);
    } else {
      assert buf' == h + buf'[|h|..];
      assert p.status(buf') == Complete(|h|) && buf'[..|h|] == h;
    }
  }
}
