/** Serving a static file: which file, which status, and whether a response head was begun. */
module FileServer {
  import opened Numbers
  import opened Wrappers
  import opened Paths
  import opened Ranges

  const OK: nat := 200
  const PARTIAL_CONTENT: nat := 206
  const FOUND: nat := 302
  const BAD_REQUEST: nat := 400
  const FORBIDDEN: nat := 403
  const NOT_FOUND: nat := 404
  const RANGE_NOT_SATISFIABLE: nat := 416
  const INTERNAL_SERVER_ERROR: nat := 500
  const BAD_GATEWAY: nat := 502

  // A header that may be missing or not be text.
  datatype HeaderText = Absent | Opaque | Text(value: string)

  datatype RequestView = RequestView(path: string, host: HeaderText, cookie: HeaderText, range: HeaderText)

  // What the file system and the client connection do during one request.
  datatype Surroundings = Surroundings(
    isDir: Path -> bool,
    size: Path -> Option<Option<u64>>,   // None: cannot be opened; Some(None): opened, size unknown
    seeks: u64 -> bool,                  // the start of a range can be sought
    file: Delivery,                      // of the head and body of a file
    response: Delivery)                  // of a response built in memory

  // How much of what is sent reaches the client. Sending succeeds if all of it does.
  datatype Delivery = Nothing | Part | Whole

  function Reaching(heads: seq<nat>, delivery: Delivery): seq<nat> {
    if delivery.Nothing? then [] else heads
  }

  // The response heads whose sending was begun, those of which something reached the client,
  // and what would become of a response sent next.
  datatype FileReply = FileReply(begun: seq<nat>, reached: seq<nat>, result: FileResult, next: Delivery)

  datatype FileResult =
    | Sent(status: nat)
    | Refused(status: nat)
    | NotMatched
    | Failed

  function Join(base: Path, rel: Path): Path {
    if base == [] then rel else base + if rel != [] && rel[0] == CurDir then rel[1..] else rel
  }

  function RangeStatus(e: RangeError): nat {
    match e
    case BadRequest => BAD_REQUEST
    case RangeNotSatisfiable => RANGE_NOT_SATISFIABLE
  }

  function Send(status: nat, env: Surroundings): FileReply {
    FileReply([status], Reaching([status], env.file), if env.file.Whole? then Sent(status) else Failed, Nothing)
  }

  function Reject(status: nat, response: Delivery): FileReply {
    FileReply([], [], Refused(status), response)
  }

  function Unsent(result: FileResult): FileReply {
    FileReply([], [], result, Nothing)
  }

  // The file to send: the one asked for, or else the fallback.
  function Opened(base: Path, path: Path, fallback: Option<string>, env: Surroundings): Option<Option<u64>> {
    var filePath := if env.isDir(path) then path + [Normal("index.html")] else path;
    if env.size(filePath).Some? then env.size(filePath)
    else if fallback.Some? then env.size(Join(base, Components(TrimSlashes(fallback.value))))
    else None
  }

  function FileDirective(root: Option<string>, fallback: Option<string>, request: RequestView, env: Surroundings): FileReply {
    if root.None? then Reject(INTERNAL_SERVER_ERROR, env.response)
    else
      var base := Components(root.value);
      match Sanitized(base, Components(TrimSlashes(request.path)))
      case None => Unsent(NotMatched)
      case Some(path) =>
        match Opened(base, path, fallback, env)
        case None => Reject(NOT_FOUND, env.response)
        case Some(None) => Unsent(Failed)
        case Some(Some(size)) => SendFile(size, request.range, env)
  }

  function SendFile(size: u64, range: HeaderText, env: Surroundings): FileReply {
    match range
    case Absent => Send(OK, env)
    case Opaque => Reject(BAD_REQUEST, env.response)
    case Text(text) =>
      match ParseRangeHeader(text, size)
      case Ok((start, _)) => if env.seeks(start) then Send(PARTIAL_CONTENT, env) else Unsent(Failed)
      case Err(e) => Reject(RangeStatus(e), env.response)
  }

  // At most one head is begun, and none when the caller is told to answer itself.
  predicate OneHead(reply: FileReply) {
    match reply.result
    case Sent(status) => reply.begun == reply.reached == [status]
    case Failed => |reply.begun| <= 1 && reply.reached <= reply.begun
    case _ => reply.begun == reply.reached == []
  }

  lemma SendFileHeads(size: u64, range: HeaderText, env: Surroundings)
    ensures OneHead(SendFile(size, range, env))
  {
  }

  lemma FileHeads(root: Option<string>, fallback: Option<string>, request: RequestView, env: Surroundings)
    ensures OneHead(FileDirective(root, fallback, request, env))
  {
    if root.Some? {
      var base := Components(root.value);
      var path := Sanitized(base, Components(TrimSlashes(request.path)));
      if path.Some? {
        var file := Opened(base, path.value, fallback, env);
        if file.Some? && file.value.Some? {
          SendFileHeads(file.value.value, request.range, env);
        }
      }
    }
  }

  /* ---- which reply, in plain numbers ---- */

  // The file asked for, or `index.html` in it if it is a directory.
  ghost predicate Asks(path: Path, env: Surroundings, file: Path) {
    file == if env.isDir(path) then path + [Normal("index.html")] else path
  }

  // What is opened: the file asked for if it can be, and else the fallback below the root.
  ghost predicate Opens(base: Path, path: Path, fallback: Option<string>, env: Surroundings, size: Option<u64>) {
    exists file | Asks(path, env, file) ::
      || env.size(file) == Some(size)
      || (env.size(file) == None && fallback.Some? && env.size(Join(base, Components(TrimSlashes(fallback.value)))) == Some(size))
  }

  lemma OpenedIff(base: Path, path: Path, fallback: Option<string>, env: Surroundings, size: Option<u64>)
    ensures Opened(base, path, fallback, env) == Some(size) <==> Opens(base, path, fallback, env, size)
  {
    var file := if env.isDir(path) then path + [Normal("index.html")] else path;
    assert Asks(path, env, file);
  }

  lemma NothingOpensIff(base: Path, path: Path, fallback: Option<string>, env: Surroundings)
    ensures Opened(base, path, fallback, env) == None <==> forall size :: !Opens(base, path, fallback, env, size)
  {
    forall size ensures Opened(base, path, fallback, env) == Some(size) <==> Opens(base, path, fallback, env, size) {
      OpenedIff(base, path, fallback, env, size);
    }
  }

  // Without a root 500; a path that is not granted is passed over; without a file 404.
  lemma RepliesWithoutAFile(root: Option<string>, fallback: Option<string>, request: RequestView, env: Surroundings)
    ensures root.None? ==> FileDirective(root, fallback, request, env) == FileReply([], [], Refused(500), env.response)
    ensures root.Some? ==>
              var base, path := Components(root.value), Sanitized(Components(root.value), Components(TrimSlashes(request.path)));
              && (path.None? ==> FileDirective(root, fallback, request, env).result == NotMatched)
              && (path.Some? && (forall size :: !Opens(base, path.value, fallback, env, size)) ==>
                    FileDirective(root, fallback, request, env) == FileReply([], [], Refused(404), env.response))
  {
    if root.Some? {
      var path := Sanitized(Components(root.value), Components(TrimSlashes(request.path)));
      if path.Some? {
        NothingOpensIff(Components(root.value), path.value, fallback, env);
      }
    }
  }

  // The reply for a file, by what comes of its Range header.
  lemma RepliesWithAFile(root: string, fallback: Option<string>, request: RequestView, env: Surroundings, path: Path, size: u64)
    requires Sanitized(Components(root), Components(TrimSlashes(request.path))) == Some(path)
    requires Opens(Components(root), path, fallback, env, Some(size))
    ensures var reply := FileDirective(Some(root), fallback, request, env);
            match request.range
            case Absent => Sends(reply, 200, env)
            case Opaque => reply == FileReply([], [], Refused(400), env.response)
            case Text(text) =>
              match ParseRangeHeader(text, size)
              case Err(BadRequest) => reply == FileReply([], [], Refused(400), env.response)
              case Err(RangeNotSatisfiable) => reply == FileReply([], [], Refused(416), env.response)
              case Ok((start, _)) => if env.seeks(start) then Sends(reply, 206, env) else reply.begun == [] && reply.result == Failed
  {
    OpenedIff(Components(root), path, fallback, env, Some(size));
  }

  ghost predicate Sends(reply: FileReply, status: nat, env: Surroundings) {
    && reply.begun == [status] && reply.reached == (if env.file == Nothing then [] else [status])
    && reply.result == if env.file == Whole then Sent(status) else Failed
  }

  lemma FileRepliesAnswerOnSame(root: string, fallback: Option<string>, request: RequestView, env: Surroundings)
    ensures var reply := FileDirective(Some(root), fallback, request, env); reply.result.Refused? ==> reply.next == env.response
  {
    var base := Components(root);
    var path := Sanitized(base, Components(TrimSlashes(request.path)));
    if path.Some? {
      var file := Opened(base, path.value, fallback, env);
      if file.Some? && file.value.Some? {
        SendFileHeads(file.value.value, request.range, env);
      }
    }
  }

  // Joining a fallback to the root is reading the two texts with a `/` between them.
  lemma JoinIsConcat(root: string, text: string)
    requires root != "" && (text == "" || text[0] != '/')
    ensures Join(Components(root), Components(text)) == Components(root + "/" + text)
  {
    ComponentsOfConcat(root, text);
    RootHasComponents(root);
    NoRootWithoutSlash(text);
  }

  /* ---- only the root is looked at ---- */

  // The two agree on every path below the base.
  ghost predicate AgreeBelow(base: Path, one: Surroundings, other: Surroundings) {
    && (forall p | base <= p :: one.isDir(p) == other.isDir(p) && one.size(p) == other.size(p))
    && one.seeks == other.seeks && one.file == other.file && one.response == other.response
  }

  lemma JoinIsBelow(base: Path, text: string)
    ensures base <= Join(base, Components(text))
  {
  }

  lemma LookAlike(base: Path, path: Path, more: Path, one: Surroundings, other: Surroundings)
    requires AgreeBelow(base, one, other) && base <= path
    ensures one.isDir(path + more) == other.isDir(path + more) && one.size(path + more) == other.size(path + more)
  {
    assert base <= path + more;
  }

  lemma OpenedBelow(base: Path, path: Path, fallback: Option<string>, one: Surroundings, other: Surroundings)
    requires AgreeBelow(base, one, other) && base <= path
    ensures Opened(base, path, fallback, one) == Opened(base, path, fallback, other)
  {
    LookAlike(base, path, [], one, other);
    assert path + [] == path;
    LookAlike(base, path, [Normal("index.html")], one, other);
    if fallback.Some? {
      JoinIsBelow(base, TrimSlashes(fallback.value));
      var spare := Join(base, Components(TrimSlashes(fallback.value)));
      assert one.size(spare) == other.size(spare);
    }
  }

  lemma SendFileAlike(size: u64, range: HeaderText, one: Surroundings, other: Surroundings)
    requires one.seeks == other.seeks && one.file == other.file && one.response == other.response
    ensures SendFile(size, range, one) == SendFile(size, range, other)
  {
  }

  // Whatever the request, the reply depends on nothing outside the root directory.
  lemma ReplyDependsOnRootOnly(root: string, fallback: Option<string>, request: RequestView, one: Surroundings, other: Surroundings)
    requires AgreeBelow(Components(root), one, other)
    ensures FileDirective(Some(root), fallback, request, one) == FileDirective(Some(root), fallback, request, other)
  {
    var base := Components(root);
    var path := Sanitized(base, Components(TrimSlashes(request.path)));
    if path.Some? {
      OpenedBelow(base, path.value, fallback, one, other);
      var file := Opened(base, path.value, fallback, one);
      if file.Some? && file.value.Some? {
        SendFileAlike(file.value.value, request.range, one, other);
      }
    }
  }

  // A status that the program sends of itself.
  predicate OwnStatus(status: nat) {
    || status == OK || status == PARTIAL_CONTENT || status == FOUND || status == BAD_REQUEST
    || status == NOT_FOUND || status == RANGE_NOT_SATISFIABLE || status == INTERNAL_SERVER_ERROR
  }

  predicate OwnReply(reply: FileReply) {
    && (forall i | 0 <= i < |reply.begun| :: OwnStatus(reply.begun[i]))
    && (reply.result.Refused? ==> OwnStatus(reply.result.status))
  }

  lemma SentFileIsOwn(size: u64, range: HeaderText, env: Surroundings)
    ensures OwnReply(SendFile(size, range, env))
  {
  }

  lemma FileReplyIsOwn(root: Option<string>, fallback: Option<string>, request: RequestView, env: Surroundings)
    ensures OwnReply(FileDirective(root, fallback, request, env))
  {
    if root.Some? {
      var base := Components(root.value);
      var path := Sanitized(base, Components(TrimSlashes(request.path)));
      if path.Some? {
        var file := Opened(base, path.value, fallback, env);
        if file.Some? && file.value.Some? {
          SentFileIsOwn(file.value.value, request.range, env);
        }
      }
    }
  }
}
