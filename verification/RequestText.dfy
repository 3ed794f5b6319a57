/** The text of a request head: a strict grammar, the printer the proxy uses, and the round trip. */
module RequestText {
  import opened Numbers
  import opened Wrappers
  import opened Decimals
  import opened Framing
  import opened Utf8

  const TAB: byte := 9
  const LF: byte := 10
  const CR: byte := 13
  const SP: byte := 32
  const SLASH: byte := 47
  const COLON: byte := 58

  const CRLF: Bytes := [CR, LF]
  const HTTP_10: Bytes := [72, 84, 84, 80, 47, 49, 46, 48, CR, LF]
  const HTTP_11: Bytes := [72, 84, 84, 80, 47, 49, 46, 49, CR, LF]

  // The size of the table of headers.
  const HEADER_BUF_SIZE: nat := 32

  /* ---- the printer ---- */

  function PrintHeaders(headers: seq<Header>): Bytes {
    if headers == [] then CRLF
    else headers[0].name + [COLON, SP] + headers[0].value + CRLF + PrintHeaders(headers[1..])
  }

  function PrintHead(head: Head): Bytes {
    head.verb + [SP] + head.target + [SP] + HTTP_11 + PrintHeaders(head.headers)
  }

  // The values of a header, in order.
  function ValuesOf(headers: seq<Header>, name: Bytes): seq<Bytes> {
    if headers == [] then []
    else ValuesOf(headers[..|headers| - 1], name)
         + if Lower(headers[|headers| - 1].name) == name then [headers[|headers| - 1].value] else []
  }

  // A header map holds the values of each name in order, the names in lower case; it may yield
  // the names in any order.
  ghost predicate IsIteration(stored: seq<Header>, headers: seq<Header>) {
    && |stored| == |headers|
    && (forall i | 0 <= i < |stored| :: Lower(stored[i].name) == stored[i].name)
    && (forall name :: ValuesOf(stored, name) == ValuesOf(headers, name))
  }

  // `stored` is what the header map of the request yields.
  method RequestToBytes(request: Request, stored: seq<Header>) returns (buf: Bytes)
    requires IsIteration(stored, request.head.headers)
    ensures buf == PrintHead(request.head.(headers := stored)) + request.body
  {
    var head := request.head;
    buf := head.verb + [SP] + head.target + [SP] + HTTP_11;
    ghost var start := buf;
    for i := 0 to |stored|
      invariant start + PrintHeaders(stored) == buf + PrintHeaders(stored[i..])
    {
      assert stored[i..][1..] == stored[i + 1..];
      var line := stored[i].name + [COLON, SP] + stored[i].value + CRLF;
      assert buf + (line + PrintHeaders(stored[i + 1..])) == buf + line + PrintHeaders(stored[i + 1..]);
      buf := buf + line;
    }
    assert stored[|stored|..] == [];
    buf := buf + CRLF;
    buf := buf + request.body;
  }

  /* ---- the grammar ---- */

  // The number of bytes before the first occurrence of c.
  function Until(s: Bytes, c: byte): (i: Option<nat>)
    ensures i.Some? ==> i.value < |s| && s[i.value] == c && c !in s[..i.value]
    ensures i.None? ==> c !in s
  {
    if s == [] then None
    else if s[0] == c then Some(0)
    else
      match Until(s[1..], c)
      case None => None
      case Some(i) =>
        assert s[..i + 1] == [s[0]] + s[1..][..i];
        Some(i + 1)
  }

  lemma UntilIs(a: Bytes, c: byte, b: Bytes)
    requires c !in a
    ensures Until(a + [c] + b, c) == Some(|a|)
  {
    var s := a + [c] + b;
    assert s[|a|] == c && s[..|a|] == a;
  }

  // The characters of a token, section 5.6.2 of RFC 9110.
  predicate IsTokenByte(b: byte) {
    || b == 33 || 35 <= b <= 39 || 42 <= b <= 43 || 45 <= b <= 46 || 48 <= b <= 57
    || 65 <= b <= 90 || 94 <= b <= 122 || b == 124 || b == 126
  }

  predicate IsToken(s: Bytes) {
    s != [] && forall b | b in s :: IsTokenByte(b)
  }

  // The characters of a path and a query, sections 3.3 and 3.4 of RFC 3986.
  predicate IsTargetByte(b: byte) {
    b == 33 || 36 <= b <= 59 || b == 61 || 63 <= b <= 90 || b == 95 || 97 <= b <= 122 || b == 126
  }

  // Origin form: a path, possibly with a query, and no fragment.
  predicate IsOriginForm(s: Bytes) {
    s != [] && s[0] == SLASH && forall b | b in s :: IsTargetByte(b)
  }

  predicate IsBlank(b: byte) {
    b == SP || b == TAB
  }

  function TrimStart(s: Bytes): Bytes {
    if s != [] && IsBlank(s[0]) then TrimStart(s[1..]) else s
  }

  function TrimEnd(s: Bytes): Bytes {
    if s != [] && IsBlank(s[|s| - 1]) then TrimEnd(s[..|s| - 1]) else s
  }

  predicate IsFieldValue(s: Bytes) {
    forall b | b in s :: (b >= SP || b == TAB) && b != 127
  }

  datatype Parsed<T> = More | Wrong | Done(value: T, used: nat)

  datatype ParsedFields = MoreFields | WrongFields | Fields(headers: seq<Header>, used: nat)

  type LineParser = Bytes -> Parsed<Header>

  // One header line, with its end.
  function ParseLine(buf: Bytes): (parsed: Parsed<Header>)
    ensures parsed.Done? ==> 0 < parsed.used <= |buf|
  {
    match Until(buf, COLON)
    case None => More
    case Some(i) => if IsToken(buf[..i]) then ParseValue(Lower(buf[..i]), buf[i + 1..], i + 1) else Wrong
  }

  function ParseValue(name: Bytes, buf: Bytes, before: nat): (parsed: Parsed<Header>)
    ensures parsed.Done? ==> before < parsed.used <= before + |buf|
  {
    match Until(buf, LF)
    case None => More
    case Some(j) =>
      if j == 0 || buf[j - 1] != CR || !IsFieldValue(buf[..j - 1]) then Wrong
      else Done(Header(name, TrimEnd(TrimStart(buf[..j - 1]))), before + j + 1)
  }

  // Header lines, as `line` reads them, up to the empty line.
  function ParseHeaders(line: LineParser, buf: Bytes, room: nat): (parsed: ParsedFields)
    ensures parsed.Fields? ==> 0 < parsed.used <= |buf|
    decreases |buf|
  {
    if |buf| < 2 then MoreFields
    else if buf[..2] == CRLF then Fields([], 2)
    else if room == 0 then WrongFields
    else
      match line(buf)
      case More => MoreFields
      case Wrong => WrongFields
      case Done(header, used) =>
        if used == 0 || used > |buf| then WrongFields
        else
          match ParseHeaders(line, buf[used..], room - 1)
          case Fields(headers, more) => Fields([header] + headers, used + more)
          case other => other
  }

  // The request line, as a head without headers.
  function ParseStart(buf: Bytes): (parsed: Parsed<Head>)
    ensures parsed.Done? ==> 0 < parsed.used <= |buf|
  {
    match Until(buf, SP)
    case None => More
    case Some(i) => if IsToken(buf[..i]) then ParseTarget(buf[..i], buf[i + 1..], i + 1) else Wrong
  }

  function ParseTarget(verb: Bytes, buf: Bytes, before: nat): (parsed: Parsed<Head>)
    ensures parsed.Done? ==> before < parsed.used <= before + |buf|
  {
    match Until(buf, SP)
    case None => More
    case Some(j) => if IsOriginForm(buf[..j]) then ParseVersion(verb, buf[..j], buf[j + 1..], before + j + 1) else Wrong
  }

  function ParseVersion(verb: Bytes, target: Bytes, buf: Bytes, before: nat): (parsed: Parsed<Head>)
    ensures parsed.Done? ==> before < parsed.used <= before + |buf|
  {
    if |buf| < 10 then More
    else if buf[..10] == HTTP_11 then Done(Head(verb, target, 1, []), before + 10)
    else if buf[..10] == HTTP_10 then Done(Head(verb, target, 0, []), before + 10)
    else Wrong
  }

  function ParseHead(buf: Bytes): (parsed: Parsed<Head>)
    ensures parsed.Done? ==> 0 < parsed.used <= |buf|
  {
    match ParseStart(buf)
    case More => More
    case Wrong => Wrong
    case Done(head, used) =>
      match ParseHeaders(ParseLine, buf[used..], HEADER_BUF_SIZE)
      case MoreFields => More
      case WrongFields => Wrong
      case Fields(headers, more) => Done(head.(headers := headers), used + more)
  }

  /* ---- what is decided stays decided ---- */

  lemma {:induction false} UntilExtends(a: Bytes, ab: Bytes, c: byte)
    requires a <= ab && Until(a, c).Some?
    ensures Until(ab, c) == Until(a, c)
    decreases |a|
  {
    assert a[0] == ab[0];
    if a[0] != c {
      UntilExtends(a[1..], ab[1..], c);
    }
  }

  lemma ParseLineExtends(a: Bytes, ab: Bytes)
    requires a <= ab && !ParseLine(a).More?
    ensures ParseLine(ab) == ParseLine(a)
  {
    var i := Until(a, COLON).value;
    UntilExtends(a, ab, COLON);
    assert ab[..i] == a[..i];
    if IsToken(a[..i]) {
      ParseValueExtends(Lower(a[..i]), a[i + 1..], ab[i + 1..], i + 1);
    }
  }

  lemma ParseValueExtends(name: Bytes, a: Bytes, ab: Bytes, before: nat)
    requires a <= ab && !ParseValue(name, a, before).More?
    ensures ParseValue(name, ab, before) == ParseValue(name, a, before)
  {
    var j := Until(a, LF).value;
    UntilExtends(a, ab, LF);
    if j > 0 {
      assert ab[..j - 1] == a[..j - 1];
    }
  }

  // More bytes do not change what the line parser has decided, by the bytes there were.
  ghost predicate LineIsStable(line: LineParser) {
    && (forall a: Bytes | line(a).Done? :: 0 < line(a).used <= |a|)
    && forall a: Bytes, ab: Bytes | a <= ab && !line(a).More? :: line(ab) == line(a)
  }

  lemma ParseLineIsStable()
    ensures LineIsStable(ParseLine)
  {
    forall a: Bytes, ab: Bytes | a <= ab && !ParseLine(a).More? ensures ParseLine(ab) == ParseLine(a) {
      ParseLineExtends(a, ab);
    }
  }

  lemma DropOfPrefix(a: Bytes, ab: Bytes, k: nat)
    requires a <= ab && k <= |a|
    ensures a[k..] <= ab[k..]
  {
  }

  lemma {:induction false} ParseHeadersExtends(line: LineParser, a: Bytes, ab: Bytes, room: nat)
    requires LineIsStable(line) && a <= ab && !ParseHeaders(line, a, room).MoreFields?
    ensures ParseHeaders(line, ab, room) == ParseHeaders(line, a, room)
    decreases |a|
  {
    assert ab[..2] == a[..2];
    if a[..2] != CRLF && room > 0 && !line(a).More? {
      assert line(ab) == line(a);
      if line(a).Done? {
        var used := line(a).used;
        DropOfPrefix(a, ab, used);
        ParseHeadersExtends(line, a[used..], ab[used..], room - 1);
      }
    }
  }

  lemma ParseTargetExtends(verb: Bytes, a: Bytes, ab: Bytes, before: nat)
    requires a <= ab && !ParseTarget(verb, a, before).More?
    ensures ParseTarget(verb, ab, before) == ParseTarget(verb, a, before)
  {
    var j := Until(a, SP).value;
    UntilExtends(a, ab, SP);
    assert ab[..j] == a[..j];
    if IsOriginForm(a[..j]) {
      assert ab[j + 1..][..10] == a[j + 1..][..10];
    }
  }

  lemma ParseStartExtends(a: Bytes, ab: Bytes)
    requires a <= ab && !ParseStart(a).More?
    ensures ParseStart(ab) == ParseStart(a)
  {
    var i := Until(a, SP).value;
    UntilExtends(a, ab, SP);
    assert ab[..i] == a[..i];
    if IsToken(a[..i]) {
      ParseTargetExtends(a[..i], a[i + 1..], ab[i + 1..], i + 1);
    }
  }

  // Once a buffer is accepted or rejected, more bytes change nothing.
  lemma ParseHeadExtends(a: Bytes, ab: Bytes)
    requires a <= ab && !ParseHead(a).More?
    ensures ParseHead(ab) == ParseHead(a)
  {
    ParseStartExtends(a, ab);
    var start := ParseStart(a);
    if start.Done? {
      ParseLineIsStable();
      ParseHeadersExtends(ParseLine, a[start.used..], ab[start.used..], HEADER_BUF_SIZE);
    }
  }

  function StrictStatus(buf: Bytes): Status {
    match ParseHead(buf)
    case More => Partial
    case Wrong => Invalid
    case Done(_, used) => Complete(used)
  }

  function StrictRead(buf: Bytes): Option<Head> {
    match ParseHead(buf)
    case Done(head, _) => Some(head)
    case _ => None
  }

  function Strict(): HeadParser {
    HeadParser(StrictStatus, StrictRead)
  }

  // The strict parser meets what the framing asks of a parser.
  lemma StrictIsStable()
    ensures Stable(Strict())
  {
    var p := Strict();
    forall a: Bytes, b: Bytes | p.status(a).Complete?
      ensures p.status(a).headLen <= |a| && p.status(a + b) == p.status(a)
    {
      ParseHeadExtends(a, a + b);
    }
  }

  // A buffer that is parsed completely is a head: nothing shorter is.
  lemma ParsedWhollyIsHead(h: Bytes)
    requires ParseHead(h).Done? && ParseHead(h).used == |h|
    ensures IsHeadButForText(Strict(), h)
  {
    forall k | 0 < k < |h| ensures StrictStatus(h[..k]) == Partial {
      if !ParseHead(h[..k]).More? {
        ParseHeadExtends(h[..k], h);
      }
    }
  }

  /* ---- the round trip ---- */

  predicate AreHeaderLines(headers: seq<Header>) {
    headers == [] || (IsHeaderLine(headers[0]) && AreHeaderLines(headers[1..]))
  }

  predicate IsHeaderLine(h: Header) {
    && IsToken(h.name)
    && IsFieldValue(h.value) && IsUtf8(h.value)
    && (h.value != [] ==> !IsBlank(h.value[0]) && !IsBlank(h.value[|h.value| - 1]))
  }

  // Names are read in lower case.
  function Lowered(headers: seq<Header>): seq<Header> {
    if headers == [] then [] else [Header(Lower(headers[0].name), headers[0].value)] + Lowered(headers[1..])
  }

  predicate WellFormedHead(head: Head) {
    && IsToken(head.verb) && IsOriginForm(head.target)
    && |head.headers| <= HEADER_BUF_SIZE
    && AreHeaderLines(head.headers)
  }

  lemma TrimValue(value: Bytes)
    requires value != [] ==> !IsBlank(value[0]) && !IsBlank(value[|value| - 1])
    ensures TrimEnd(TrimStart([SP] + value)) == value
  {
  }

  lemma ParsePrintedValue(name: Bytes, h: Header, more: Bytes, before: nat)
    requires IsHeaderLine(h)
    ensures ParseValue(name, [SP] + h.value + CRLF + more, before) == Done(Header(name, h.value), before + |h.value| + 3)
  {
    var buf := [SP] + h.value + CRLF + more;
    var line := [SP] + h.value + [CR];
    assert buf == line + [LF] + more;
    UntilIs(line, LF, more);
    assert buf[..|line| - 1] == [SP] + h.value && buf[|line| - 1] == CR;
    assert IsFieldValue([SP] + h.value);
    TrimValue(h.value);
  }

  lemma ParsePrintedLine(h: Header, more: Bytes)
    requires IsHeaderLine(h)
    ensures ParseLine(h.name + [COLON, SP] + h.value + CRLF + more) ==
            Done(Header(Lower(h.name), h.value), |h.name| + |h.value| + 4)
  {
    var text := h.name + [COLON, SP] + h.value + CRLF + more;
    var rest := [SP] + h.value + CRLF + more;
    assert text == h.name + [COLON] + rest;
    UntilIs(h.name, COLON, rest);
    assert text[..|h.name|] == h.name && text[|h.name| + 1..] == rest;
    ParsePrintedValue(Lower(h.name), h, more, |h.name| + 1);
  }

  // The line parser reads back the printed header line.
  ghost predicate ReadsBack(line: LineParser, h: Header) {
    forall more: Bytes ::
      line(h.name + [COLON, SP] + h.value + CRLF + more) == Done(Header(Lower(h.name), h.value), |h.name| + |h.value| + 4)
  }

  lemma ParseLineReadsBack(h: Header)
    requires IsHeaderLine(h)
    ensures ReadsBack(ParseLine, h)
  {
    forall more: Bytes {
      ParsePrintedLine(h, more);
    }
  }

  lemma {:induction false} ParsePrintedHeaders(line: LineParser, headers: seq<Header>, room: nat)
    requires |headers| <= room && AreHeaderLines(headers)
    requires forall h | h in headers :: ReadsBack(line, h)
    ensures ParseHeaders(line, PrintHeaders(headers), room) == Fields(Lowered(headers), |PrintHeaders(headers)|)
    decreases |headers|
  {
    if headers == [] {
      assert CRLF[..2] == CRLF;
    } else {
      var h, more := headers[0], PrintHeaders(headers[1..]);
      ParsePrintedHeaders(line, headers[1..], room - 1);
      OneMoreHeader(line, h, Lowered(headers[1..]), more, h.name + [COLON, SP] + h.value + CRLF + more, room);
    }
  }

  lemma OneMoreHeader(line: LineParser, h: Header, rest: seq<Header>, more: Bytes, text: Bytes, room: nat)
    requires IsToken(h.name) && ReadsBack(line, h) && room > 0
    requires ParseHeaders(line, more, room - 1) == Fields(rest, |more|)
    requires text == h.name + [COLON, SP] + h.value + CRLF + more
    ensures ParseHeaders(line, text, room) == Fields([Header(Lower(h.name), h.value)] + rest, |text|)
  {
    assert text[..2][0] == h.name[0] && h.name[0] in h.name;
    assert text[|h.name| + |h.value| + 4..] == more;
  }

  lemma ParsePrintedTarget(verb: Bytes, target: Bytes, fields: Bytes, text: Bytes, before: nat)
    requires IsOriginForm(target) && text == target + [SP] + (HTTP_11 + fields)
    ensures ParseTarget(verb, text, before) == Done(Head(verb, target, 1, []), before + |target| + 11)
  {
    UntilIs(target, SP, HTTP_11 + fields);
    assert text[..|target|] == target && text[|target| + 1..] == HTTP_11 + fields;
    assert (HTTP_11 + fields)[..10] == HTTP_11;
  }

  lemma ParsePrintedVerb(verb: Bytes, more: Bytes, text: Bytes)
    requires IsToken(verb) && text == verb + [SP] + more
    ensures ParseStart(text) == ParseTarget(verb, more, |verb| + 1)
  {
    UntilIs(verb, SP, more);
    assert text[..|verb|] == verb && text[|verb| + 1..] == more;
  }

  lemma ParsePrintedStart(head: Head, fields: Bytes)
    requires IsToken(head.verb) && IsOriginForm(head.target)
    ensures ParseStart(head.verb + [SP] + head.target + [SP] + HTTP_11 + fields) ==
            Done(Head(head.verb, head.target, 1, []), |head.verb| + |head.target| + 12)
  {
    var text := head.verb + [SP] + head.target + [SP] + HTTP_11 + fields;
    var afterVerb := head.target + [SP] + (HTTP_11 + fields);
    assert text == head.verb + [SP] + afterVerb;
    ParsePrintedVerb(head.verb, afterVerb, text);
    ParsePrintedTarget(head.verb, head.target, fields, afterVerb, |head.verb| + 1);
  }

  lemma StartThenHeaders(start: Bytes, text: Bytes, head: Head, rest: Bytes, headers: seq<Header>)
    requires text == start + rest && ParseStart(text) == Done(head, |start|)
    requires ParseHeaders(ParseLine, rest, HEADER_BUF_SIZE) == Fields(headers, |rest|)
    ensures ParseHead(text) == Done(head.(headers := headers), |text|)
  {
    assert text[|start|..] == rest;
  }

  lemma {:induction false} MemberIsHeaderLine(headers: seq<Header>, h: Header)
    requires AreHeaderLines(headers) && h in headers
    ensures IsHeaderLine(h)
    decreases |headers|
  {
    if h != headers[0] {
      MemberIsHeaderLine(headers[1..], h);
    }
  }

  lemma AllReadBack(headers: seq<Header>)
    requires AreHeaderLines(headers)
    ensures forall h | h in headers :: ReadsBack(ParseLine, h)
  {
    forall h | h in headers ensures ReadsBack(ParseLine, h) {
      MemberIsHeaderLine(headers, h);
      ParseLineReadsBack(h);
    }
  }

  // Parsing a printed head gives it back, with names in lower case and the version normalised to
  // 1.1.
  lemma ParsePrintedHead(head: Head)
    requires WellFormedHead(head)
    ensures ParseHead(PrintHead(head)) == Done(head.(version := 1, headers := Lowered(head.headers)), |PrintHead(head)|)
  {
    var fields := PrintHeaders(head.headers);
    ParsePrintedStart(head, fields);
    PrintedHeadersParse(head.headers);
    var start := head.verb + [SP] + head.target + [SP] + HTTP_11;
    StartThenHeaders(start, start + fields, Head(head.verb, head.target, 1, []), fields, Lowered(head.headers));
  }

  lemma PrintedHeadersParse(headers: seq<Header>)
    requires AreHeaderLines(headers) && |headers| <= HEADER_BUF_SIZE
    ensures ParseHeaders(ParseLine, PrintHeaders(headers), HEADER_BUF_SIZE) == Fields(Lowered(headers), |PrintHeaders(headers)|)
  {
    AllReadBack(headers);
    ParsePrintedHeaders(ParseLine, headers, HEADER_BUF_SIZE);
  }

  lemma {:induction false} PrintedHeadersAreUtf8(headers: seq<Header>)
    requires AreHeaderLines(headers)
    ensures IsUtf8(PrintHeaders(headers))
    decreases |headers|
  {
    AsciiIsUtf8(CRLF);
    if headers != [] {
      var h := headers[0];
      AsciiIsUtf8(h.name + [COLON, SP]);
      ConcatIsUtf8(h.name + [COLON, SP], h.value);
      ConcatIsUtf8(h.name + [COLON, SP] + h.value, CRLF);
      PrintedHeadersAreUtf8(headers[1..]);
      ConcatIsUtf8(h.name + [COLON, SP] + h.value + CRLF, PrintHeaders(headers[1..]));
    }
  }

  lemma PrintedHeadIsUtf8(head: Head)
    requires WellFormedHead(head)
    ensures IsUtf8(PrintHead(head))
  {
    var start := head.verb + [SP] + head.target + [SP] + HTTP_11;
    forall b | b in start ensures b < 0x80 {
      assert b in head.verb || b in [SP] || b in head.target || b in HTTP_11;
    }
    AsciiIsUtf8(start);
    PrintedHeadersAreUtf8(head.headers);
    ConcatIsUtf8(start, PrintHeaders(head.headers));
  }

  /* ---- through the header map ---- */

  lemma {:induction false} ValueHasItsHeader(headers: seq<Header>, name: Bytes, value: Bytes) returns (i: nat)
    requires value in ValuesOf(headers, name)
    ensures i < |headers| && Lower(headers[i].name) == name && headers[i].value == value
  {
    var m := |headers| - 1;
    if Lower(headers[m].name) == name && headers[m].value == value {
      i := m;
    } else {
      i := ValueHasItsHeader(headers[..m], name, value);
    }
  }

  lemma {:induction false} HeaderHasItsValue(headers: seq<Header>, i: nat)
    requires i < |headers|
    ensures headers[i].value in ValuesOf(headers, Lower(headers[i].name))
  {
    var m := |headers| - 1;
    if i < m {
      HeaderHasItsValue(headers[..m], i);
    }
  }

  lemma {:induction false} EachIsHeaderLine(headers: seq<Header>)
    requires forall i | 0 <= i < |headers| :: IsHeaderLine(headers[i])
    ensures AreHeaderLines(headers)
    decreases |headers|
  {
    if headers != [] {
      EachIsHeaderLine(headers[1..]);
    }
  }

  lemma LowerIsToken(name: Bytes)
    requires IsToken(name)
    ensures IsToken(Lower(name)) && Lower(Lower(name)) == Lower(name)
  {
    forall b | b in Lower(name) ensures IsTokenByte(b) {
      var i :| 0 <= i < |name| && b == LowerByte(name[i]);
      assert name[i] in name;
    }
  }

  lemma {:induction false} LoweredIsSame(headers: seq<Header>)
    requires forall i | 0 <= i < |headers| :: Lower(headers[i].name) == headers[i].name
    ensures Lowered(headers) == headers
    decreases |headers|
  {
    if headers != [] {
      LoweredIsSame(headers[1..]);
    }
  }

  // What the map yields can be printed if what was put into it could be.
  lemma IterationIsWellFormed(stored: seq<Header>, headers: seq<Header>)
    requires IsIteration(stored, headers) && forall i | 0 <= i < |headers| :: IsHeaderLine(headers[i])
    ensures AreHeaderLines(stored) && Lowered(stored) == stored
  {
    LoweredIsSame(stored);
    forall i | 0 <= i < |stored| ensures IsHeaderLine(stored[i]) {
      HeaderHasItsValue(stored, i);
      var j := ValueHasItsHeader(headers, Lower(stored[i].name), stored[i].value);
      assert IsHeaderLine(headers[j]);
      assert stored[i] == Header(Lower(headers[j].name), headers[j].value);
      LowerIsToken(headers[j].name);
    }
    EachIsHeaderLine(stored);
  }

  // The last of the values that is a number.
  function LastNumber(values: seq<Bytes>): Option<nat> {
    if values == [] then None
    else
      var n := ParseUnsigned(TrimText(AsText(values[|values| - 1])), U64);
      if n.Some? then n else LastNumber(values[..|values| - 1])
  }

  lemma {:induction false} ContentLengthByValues(headers: seq<Header>)
    ensures ContentLength(headers) == LastNumber(ValuesOf(headers, CONTENT_LENGTH))
    decreases |headers|
  {
    if headers != [] {
      var m := |headers| - 1;
      ContentLengthByValues(headers[..m]);
      var values := ValuesOf(headers[..m], CONTENT_LENGTH);
      if Lower(headers[m].name) == CONTENT_LENGTH {
        assert (values + [headers[m].value])[..|values|] == values;
      } else {
        assert values + [] == values;
      }
    }
  }

  // What may be handed to the printer: a head as it was read.
  ghost predicate PrintableHead(head: Head) {
    && IsToken(head.verb) && IsOriginForm(head.target) && |head.headers| <= HEADER_BUF_SIZE
    && (forall i | 0 <= i < |head.headers| :: IsHeaderLine(head.headers[i]))
  }

  // The body is not longer than Content-Length says.
  predicate HasNoSurplus(request: Request) {
    match ContentLength(request.head.headers)
    case None => request.body == []
    case Some(length) => |request.body| <= length
  }

  // The head that is read of a printed request: the same values of every header, the version
  // normalised to 1.1.
  lemma PrintedHeadIsHead(head: Head, stored: seq<Header>) returns (h: Bytes)
    requires PrintableHead(head) && IsIteration(stored, head.headers)
    ensures h == PrintHead(head.(headers := stored)) && IsHead(Strict(), h)
    ensures Strict().read(h) == Some(head.(version := 1, headers := stored))
    ensures Stable(Strict()) && ContentLength(stored) == ContentLength(head.headers)
  {
    IterationIsWellFormed(stored, head.headers);
    h := PrintHead(head.(headers := stored));
    ParsePrintedHead(head.(headers := stored));
    ParsedWhollyIsHead(h);
    PrintedHeadIsUtf8(head.(headers := stored));
    StrictIsStable();
    ContentLengthByValues(stored);
    ContentLengthByValues(head.headers);
  }

  lemma ReceivedWithoutSurplus(p: HeadParser, h: Bytes, request: Request, chunks: seq<Bytes>)
    requires Stable(p) && IsHead(p, h) && p.read(h) == Some(request.head) && HasNoSurplus(request)
    requires NonEmpty(chunks) && Flatten(chunks) == h + request.body
    ensures Receive(p, [], chunks) == Ok(request)
  {
    var length := ContentLength(request.head.headers);
    if length.Some? && |request.body| < length.value {
      ShortBodyIsAccepted(p, h, request.head, request.body, chunks);
    } else {
      FramingIsIndependentOfReads(p, h, request.head, request.body, chunks);
    }
  }

  // What the proxy prints is read back, whatever the reads on the way, as the same request.
  lemma PrintedRequestIsReceived(request: Request, stored: seq<Header>, chunks: seq<Bytes>)
    requires PrintableHead(request.head) && HasNoSurplus(request) && IsIteration(stored, request.head.headers)
    requires NonEmpty(chunks) && Flatten(chunks) == PrintHead(request.head.(headers := stored)) + request.body
    ensures Receive(Strict(), [], chunks) == Ok(request.(head := request.head.(version := 1, headers := stored)))
  {
    var h := PrintedHeadIsHead(request.head, stored);
    ReceivedWithoutSurplus(Strict(), h, Request(request.head.(version := 1, headers := stored), request.body), chunks);
  }
}
