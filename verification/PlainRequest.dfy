/** Requests as one writes them: the grammar, the printer and the interpreter's view against plain
    text. */
module PlainRequests {
  import opened Numbers
  import opened Wrappers
  import opened Utf8
  import opened Framing
  import opened RequestText
  import opened FileServer
  import opened Connections

  /* ---- characters ---- */

  predicate IsAlphanumeric(c: char) {
    'a' <= c <= 'z' || 'A' <= c <= 'Z' || '0' <= c <= '9'
  }

  // The characters of a token, of a path with a query, of a blank, of a value.
  lemma CharactersOfAHead(c: char, b: byte)
    requires c as int == b as int < 128
    ensures IsTokenByte(b) <==> IsAlphanumeric(c) || c in "!#$%&'*+-.^_`|~"
    ensures IsTargetByte(b) <==> IsAlphanumeric(c) || c in "!$&'()*+,;=:@%/?-._~"
    ensures IsBlank(b) <==> c == ' ' || c == '\t'
    ensures IsFieldValue([b]) <==> ' ' <= c <= '~' || c == '\t'
    ensures IsVisible([b]) <==> ' ' <= c <= '~' || c == '\t'
  {
    assert forall d | d in [b] :: d == b;
    assert b in [b];
  }

  // A target is a path: it starts with `/`.
  lemma TargetsAreAbsolutePaths(target: string, bytes: Bytes)
    requires AreBytesOf(bytes, target)
    ensures IsOriginForm(bytes) <==>
            && target != "" && target[0] == '/'
            && forall i | 0 <= i < |target| :: IsAlphanumeric(target[i]) || target[i] in "!$&'()*+,;=:@%/?-._~"
  {
    forall i | 0 <= i < |target|
      ensures IsTargetByte(bytes[i]) <==> IsAlphanumeric(target[i]) || target[i] in "!$&'()*+,;=:@%/?-._~"
    {
      if target[i] as int < 128 {
        CharactersOfAHead(target[i], bytes[i]);
      }
    }
    assert forall i | 0 <= i < |bytes| :: bytes[i] in bytes;
  }

  /* ---- lines ---- */

  // A header as text.
  datatype Line = Line(name: string, value: string)

  function LinesText(lines: seq<Line>): string {
    if lines == [] then "\r\n" else lines[0].name + ": " + lines[0].value + "\r\n" + LinesText(lines[1..])
  }

  ghost predicate AreLines(headers: seq<Header>, lines: seq<Line>) {
    && |headers| == |lines|
    && forall i | 0 <= i < |lines| :: AreBytesOf(headers[i].name, lines[i].name) && AreBytesOf(headers[i].value, lines[i].value)
  }

  lemma ConcatOfBytes(a: Bytes, s: string, b: Bytes, t: string)
    requires AreBytesOf(a, s) && AreBytesOf(b, t)
    ensures AreBytesOf(a + b, s + t)
  {
  }

  lemma OneLine(h: Header, line: Line, rest: Bytes, more: string)
    requires AreBytesOf(h.name, line.name) && AreBytesOf(h.value, line.value) && AreBytesOf(rest, more)
    ensures AreBytesOf(h.name + [COLON, SP] + h.value + CRLF + rest, line.name + ": " + line.value + "\r\n" + more)
  {
    assert AreBytesOf([COLON, SP], ": ") && AreBytesOf(CRLF, "\r\n");
    ConcatOfBytes(h.name, line.name, [COLON, SP], ": ");
    ConcatOfBytes(h.name + [COLON, SP], line.name + ": ", h.value, line.value);
    ConcatOfBytes(h.name + [COLON, SP] + h.value, line.name + ": " + line.value, CRLF, "\r\n");
    ConcatOfBytes(h.name + [COLON, SP] + h.value + CRLF, line.name + ": " + line.value + "\r\n", rest, more);
  }

  lemma {:induction false} PrintedLines(headers: seq<Header>, lines: seq<Line>)
    requires AreLines(headers, lines)
    ensures AreBytesOf(PrintHeaders(headers), LinesText(lines))
    decreases |headers|
  {
    if headers != [] {
      PrintedLines(headers[1..], lines[1..]);
      OneLine(headers[0], lines[0], PrintHeaders(headers[1..]), LinesText(lines[1..]));
    }
  }

  /* ---- heads ---- */

  function HeadText(verb: string, target: string, lines: seq<Line>): string {
    verb + " " + target + " HTTP/1.1\r\n" + LinesText(lines)
  }

  ghost predicate IsWritten(head: Head, verb: string, target: string, lines: seq<Line>) {
    AreBytesOf(head.verb, verb) && AreBytesOf(head.target, target) && AreLines(head.headers, lines)
  }

  lemma PrintedLineOne(head: Head, verb: string, target: string)
    requires AreBytesOf(head.verb, verb) && AreBytesOf(head.target, target)
    ensures AreBytesOf(head.verb + [SP] + head.target + [SP] + HTTP_11, verb + " " + target + " HTTP/1.1\r\n")
  {
    assert AreBytesOf([SP], " ") && AreBytesOf([SP] + HTTP_11, " HTTP/1.1\r\n");
    ConcatOfBytes(head.verb, verb, [SP], " ");
    ConcatOfBytes(head.verb + [SP], verb + " ", head.target, target);
    ConcatOfBytes(head.verb + [SP] + head.target, verb + " " + target, [SP] + HTTP_11, " HTTP/1.1\r\n");
    assert head.verb + [SP] + head.target + ([SP] + HTTP_11) == head.verb + [SP] + head.target + [SP] + HTTP_11;
  }

  // The printer writes the request line, a line for each header, and the empty line.
  lemma PrintedHeadIsText(head: Head, verb: string, target: string, lines: seq<Line>)
    requires IsWritten(head, verb, target, lines)
    ensures AreBytesOf(PrintHead(head), HeadText(verb, target, lines))
  {
    PrintedLineOne(head, verb, target);
    PrintedLines(head.headers, lines);
    ConcatOfBytes(head.verb + [SP] + head.target + [SP] + HTTP_11, verb + " " + target + " HTTP/1.1\r\n",
                  PrintHeaders(head.headers), LinesText(lines));
  }

  lemma SameBytes(a: Bytes, b: Bytes, s: string)
    requires AreBytesOf(a, s) && AreBytesOf(b, s)
    ensures a == b
  {
  }

  // Text of that form, with at most 32 headers, is read as it is written, with names in lower case.
  lemma WrittenHeadIsRead(h: Bytes, head: Head, verb: string, target: string, lines: seq<Line>)
    requires IsWritten(head, verb, target, lines) && AreBytesOf(h, HeadText(verb, target, lines))
    requires IsToken(head.verb) && IsOriginForm(head.target) && AreHeaderLines(head.headers) && |lines| <= 32
    ensures ParseHead(h) == Done(head.(version := 1, headers := Lowered(head.headers)), |h|)
  {
    PrintedHeadIsText(head, verb, target, lines);
    SameBytes(h, PrintHead(head), HeadText(verb, target, lines));
    ParsePrintedHead(head);
  }

  lemma {:induction false} LoweredAt(headers: seq<Header>)
    ensures |Lowered(headers)| == |headers|
    ensures forall i | 0 <= i < |headers| :: Lowered(headers)[i] == Header(Lower(headers[i].name), headers[i].value)
    decreases |headers|
  {
    if headers != [] {
      LoweredAt(headers[1..]);
    }
  }

  lemma {:induction false} SameLength(headers: seq<Header>, others: seq<Header>)
    requires |headers| == |others|
    requires forall i | 0 <= i < |headers| :: others[i] == Header(Lower(headers[i].name), headers[i].value)
    ensures ContentLength(others) == ContentLength(headers)
    decreases |headers|
  {
    if headers != [] {
      var m := |headers| - 1;
      assert Lower(Lower(headers[m].name)) == Lower(headers[m].name);
      SameLength(headers[..m], others[..m]);
    }
  }

  predicate MentionsLength(headers: seq<Header>) {
    exists i | 0 <= i < |headers| :: Spells(headers[i].name, "Content-Length")
  }

  lemma ReceiveHead(p: HeadParser, h: Bytes, request: Request, chunks: seq<Bytes>)
    requires Stable(p) && IsHead(p, h) && p.read(h) == Some(request.head)
    requires ContentLength(request.head.headers) == Some(|request.body|) || (ContentLength(request.head.headers) == None && request.body == [])
    requires NonEmpty(chunks) && Flatten(chunks) == h + request.body
    ensures Receive(p, [], chunks) == Ok(request)
  {
    FramingIsIndependentOfReads(p, h, request.head, request.body, chunks);
  }

  // A request written in plain text, its body declared by a Content-Length, is received as it is
  // written, for every split into reads.
  lemma WrittenRequestIsReceived(h: Bytes, head: Head, body: Bytes, verb: string, target: string, lines: seq<Line>,
                                 chunks: seq<Bytes>)
    requires IsWritten(head, verb, target, lines) && AreBytesOf(h, HeadText(verb, target, lines))
    requires IsToken(head.verb) && IsOriginForm(head.target) && AreHeaderLines(head.headers) && |lines| <= 32
    requires if body == [] && !MentionsLength(head.headers) then true else |body| < U64 && DeclaresLength(head.headers, |body|)
    requires NonEmpty(chunks) && Flatten(chunks) == h + body
    ensures Receive(Strict(), [], chunks) == Ok(Request(head.(version := 1, headers := Lowered(head.headers)), body))
  {
    WrittenHeadIsRead(h, head, verb, target, lines);
    PrintedHeadIsText(head, verb, target, lines);
    SameBytes(h, PrintHead(head), HeadText(verb, target, lines));
    PrintedHeadIsUtf8(head);
    ParsedWhollyIsHead(h);
    StrictIsStable();
    LoweredAt(head.headers);
    SameLength(head.headers, Lowered(head.headers));
    if body == [] && !MentionsLength(head.headers) {
      NoLengthWithoutTheName(head.headers);
    } else {
      DeclaredLengthIsRead(head.headers, |body|);
    }
    ReceiveHead(Strict(), h, Request(head.(version := 1, headers := Lowered(head.headers)), body), chunks);
  }

  lemma {:induction false} TooManyLines(line: LineParser, headers: seq<Header>, room: nat)
    requires |headers| > room && AreHeaderLines(headers) && forall h | h in headers :: ReadsBack(line, h)
    ensures ParseHeaders(line, PrintHeaders(headers), room) == WrongFields
    decreases |headers|
  {
    var h, more := headers[0], PrintHeaders(headers[1..]);
    var text := h.name + [COLON, SP] + h.value + CRLF + more;
    assert text[0] == h.name[0] && h.name[0] in h.name;
    assert text[..2][0] == text[0];
    if room > 0 {
      assert h in headers && ReadsBack(line, h);
      assert line(text) == Done(Header(Lower(h.name), h.value), |h.name| + |h.value| + 4);
      TooManyLines(line, headers[1..], room - 1);
      assert text[|h.name| + |h.value| + 4..] == more;
    }
  }

  // There is room for 32 headers.
  lemma HeadIsReadIffAtMost32Headers(head: Head)
    requires IsToken(head.verb) && IsOriginForm(head.target) && AreHeaderLines(head.headers)
    ensures ParseHead(PrintHead(head)).Done? <==> |head.headers| <= 32
  {
    if |head.headers| <= 32 {
      ParsePrintedHead(head);
    } else {
      var fields := PrintHeaders(head.headers);
      ParsePrintedStart(head, fields);
      AllReadBack(head.headers);
      TooManyLines(ParseLine, head.headers, HEADER_BUF_SIZE);
      var start := head.verb + [SP] + head.target + [SP] + HTTP_11;
      assert (start + fields)[|start|..] == fields;
    }
  }

  // The two versions, and no other.
  lemma VersionsAreRead(verb: Bytes, target: Bytes, buf: Bytes, before: nat)
    ensures |buf| >= 10 && AreBytesOf(buf[..10], "HTTP/1.1\r\n") ==>
              ParseVersion(verb, target, buf, before) == Done(Head(verb, target, 1, []), before + 10)
    ensures |buf| >= 10 && AreBytesOf(buf[..10], "HTTP/1.0\r\n") ==>
              ParseVersion(verb, target, buf, before) == Done(Head(verb, target, 0, []), before + 10)
    ensures ParseVersion(verb, target, buf, before).Done? ==>
              |buf| >= 10 && (AreBytesOf(buf[..10], "HTTP/1.1\r\n") || AreBytesOf(buf[..10], "HTTP/1.0\r\n"))
  {
    assert AreBytesOf(HTTP_11, "HTTP/1.1\r\n") && AreBytesOf(HTTP_10, "HTTP/1.0\r\n");
    if |buf| >= 10 {
      if AreBytesOf(buf[..10], "HTTP/1.1\r\n") {
        SameBytes(buf[..10], HTTP_11, "HTTP/1.1\r\n");
      }
      if AreBytesOf(buf[..10], "HTTP/1.0\r\n") {
        SameBytes(buf[..10], HTTP_10, "HTTP/1.0\r\n");
        assert HTTP_10[7] != HTTP_11[7];
      }
    }
  }

  // A piece that is complete and not of its kind rejects the buffer at once: a verb, a target, the
  // name or the value of a header.
  lemma BadPiecesAreRejected(a: Bytes, b: Bytes, name: Bytes, before: nat)
    ensures ' ' as byte !in a && !IsToken(a) ==> ParseStart(a + [' ' as byte] + b) == Wrong
    ensures ' ' as byte !in a && !IsOriginForm(a) ==> ParseTarget(name, a + [' ' as byte] + b, before) == Wrong
    ensures ':' as byte !in a && !IsToken(a) ==> ParseLine(a + [':' as byte] + b) == Wrong
    ensures '\n' as byte !in a && (a == [] || a[|a| - 1] != '\r' as byte || !IsFieldValue(a[..|a| - 1])) ==>
              ParseValue(name, a + ['\n' as byte] + b, before) == Wrong
  {
    var space, colon, line := a + [SP] + b, a + [COLON] + b, a + [LF] + b;
    assert space[..|a|] == a && colon[..|a|] == a && line[..|a|] == a;
    if SP !in a {
      UntilIs(a, SP, b);
    }
    if COLON !in a {
      UntilIs(a, COLON, b);
    }
    if LF !in a {
      UntilIs(a, LF, b);
      assert a != [] ==> line[..|a| - 1] == a[..|a| - 1];
    }
  }

  /* ---- what the interpreter sees ---- */

  ghost predicate IsFirst(headers: seq<Header>, word: string, i: int) {
    0 <= i < |headers| && Spells(headers[i].name, word) && forall j | 0 <= j < i :: !Spells(headers[j].name, word)
  }

  ghost predicate IsReadAs(text: HeaderText, value: Bytes) {
    match text
    case Absent => false
    case Opaque => exists b | b in value :: !(32 <= b <= 126 || b == 9)
    case Text(s) => AreBytesOf(value, s) && forall b | b in value :: 32 <= b <= 126 || b == 9
  }

  // The text is the first value of the header with that name, whatever the case of its letters.
  ghost predicate Shows(text: HeaderText, headers: seq<Header>, word: string) {
    && (text == Absent <==> forall i | 0 <= i < |headers| :: !Spells(headers[i].name, word))
    && forall i | IsFirst(headers, word, i) :: IsReadAs(text, headers[i].value)
  }

  lemma {:induction false} FirstValueIs(headers: seq<Header>, word: string, name: Bytes, i: nat)
    requires IsFirst(headers, word, i) && forall n: Bytes :: Lower(n) == name <==> Spells(n, word)
    ensures ValuesOf(headers, name) != [] && ValuesOf(headers, name)[0] == headers[i].value
    decreases |headers|
  {
    var m := |headers| - 1;
    if i < m {
      FirstValueIs(headers[..m], word, name, i);
    } else {
      NoValueBefore(headers[..m], word, name);
    }
  }

  lemma {:induction false} NoValueBefore(headers: seq<Header>, word: string, name: Bytes)
    requires forall n: Bytes :: Lower(n) == name <==> Spells(n, word)
    requires forall i | 0 <= i < |headers| :: !Spells(headers[i].name, word)
    ensures ValuesOf(headers, name) == []
    decreases |headers|
  {
    if headers != [] {
      NoValueBefore(headers[..|headers| - 1], word, name);
    }
  }

  lemma FirstValueShows(headers: seq<Header>, word: string, name: Bytes)
    requires forall n: Bytes :: Lower(n) == name <==> Spells(n, word)
    ensures Shows(FirstValue(headers, name), headers, word)
  {
    if forall i | 0 <= i < |headers| :: !Spells(headers[i].name, word) {
      NoValueBefore(headers, word, name);
    } else {
      var i :| 0 <= i < |headers| && Spells(headers[i].name, word);
      HeaderHasItsValue(headers, i);
      assert ValuesOf(headers, name) != [];
    }
    forall i | IsFirst(headers, word, i) ensures IsReadAs(FirstValue(headers, name), headers[i].value) {
      FirstValueIs(headers, word, name, i);
    }
  }

  lemma NamesAreSpelled()
    ensures forall n: Bytes :: Lower(n) == HOST <==> Spells(n, "Host")
    ensures forall n: Bytes :: Lower(n) == COOKIE <==> Spells(n, "Cookie")
    ensures forall n: Bytes :: Lower(n) == RANGE <==> Spells(n, "Range")
  {
    forall n: Bytes
      ensures Lower(n) == HOST <==> Spells(n, "Host")
      ensures Lower(n) == COOKIE <==> Spells(n, "Cookie")
      ensures Lower(n) == RANGE <==> Spells(n, "Range")
    {
      SpellsIffLower(n, "Host", HOST);
      SpellsIffLower(n, "Cookie", COOKIE);
      SpellsIffLower(n, "Range", RANGE);
    }
  }

  // The path is the target up to its query.
  ghost predicate IsPathOf(path: string, target: Bytes) {
    && |path| <= |target| && AreBytesOf(target[..|path|], path) && '?' !in path
    && (|path| < |target| ==> target[|path|] == '?' as byte)
  }

  lemma PathIsUpToQuery(target: Bytes)
    ensures IsPathOf(PathOf(target), target)
  {
    var path := PathOf(target);
    var end := match Until(target, QUESTION_MARK) case None => |target| case Some(i) => i;
    assert QUESTION_MARK !in target[..end];
    forall i | 0 <= i < |path| ensures path[i] != '?' {
      assert target[..end][i] != QUESTION_MARK;
    }
  }

  // The interpreter is given the path and the headers that the request came with.
  lemma ViewShowsTheRequest(request: Request)
    ensures var view, headers := View(request), request.head.headers;
            && IsPathOf(view.path, request.head.target)
            && Shows(view.host, headers, "Host") && Shows(view.cookie, headers, "Cookie") && Shows(view.range, headers, "Range")
  {
    NamesAreSpelled();
    PathIsUpToQuery(request.head.target);
    FirstValueShows(request.head.headers, "Host", HOST);
    FirstValueShows(request.head.headers, "Cookie", COOKIE);
    FirstValueShows(request.head.headers, "Range", RANGE);
  }
}
