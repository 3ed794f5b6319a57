/** The directive interpreter: an ordered list of rules with carried state, and what such a
    list means. */
module Directives {
  import opened Wrappers
  import opened Decimals
  import opened Routing
  import opened FileServer
  import opened Backends

  datatype Directive =
    | Root(pattern: string, path: string, fallback: Option<string>)
    | ServeFiles
    | ReverseProxy(pattern: string, destinations: seq<Url>, options: ReverseProxyOptions)
    | Redir(destination: string)
    | RedirIfNotCookie(cookieName: string, destination: string)
    | Tls(cert: string, key: string)

  // What else influences the answer. The proxy states are held fixed: a reverse_proxy
  // directive answers according to its options.
  datatype World = World(
    env: Surroundings,
    proxy: ReverseProxyOptions -> FileReply,
    validHeader: string -> bool)

  // The heads begun, those of which something reached the client, and whether the request was
  // handled without an error.
  datatype Outcome = Outcome(begun: seq<nat>, reached: seq<nat>, ok: bool)

  datatype RootState = RootState(path: Option<string>, fallback: Option<string>)

  const NO_ROOT := RootState(None, None)

  /* ---- pieces of one directive ---- */

  function ReplaceUri(s: string, uri: string): string {
    if "{uri}" <= s then uri + ReplaceUri(s[5..], uri)
    else if s == "" then ""
    else [s[0]] + ReplaceUri(s[1..], uri)
  }

  predicate Contains(s: string, sub: string) {
    exists i | 0 <= i <= |s| :: sub <= s[i..]
  }

  predicate HasCookie(cookie: HeaderText, name: string) {
    InSomePart(Split(if cookie.Text? then cookie.value else "", ';'), name)
  }

  predicate InSomePart(parts: seq<string>, sub: string) {
    exists i | 0 <= i < |parts| :: Contains(parts[i], sub)
  }

  lemma ContainsStep(s: string, sub: string)
    ensures if s == "" then Contains(s, sub) <==> sub == "" else Contains(s, sub) <==> sub <= s || Contains(s[1..], sub)
  {
    if s == "" {
      assert Contains(s, sub) ==> sub <= s[0..];
      assert sub == "" ==> sub <= s[0..];
    } else {
      assert s[0..] == s;
      if sub <= s {
        assert sub <= s[0..];
      }
      if Contains(s[1..], sub) {
        var i :| 0 <= i <= |s[1..]| && sub <= s[1..][i..];
        assert s[1..][i..] == s[i + 1..];
      }
      if Contains(s, sub) && !(sub <= s) {
        var i :| 0 <= i <= |s| && sub <= s[i..];
        assert s[1..][i - 1..] == s[i..];
      }
    }
  }

  lemma InFirstOrRest(first: string, rest: seq<string>, sub: string)
    ensures InSomePart([first] + rest, sub) <==> Contains(first, sub) || InSomePart(rest, sub)
  {
    var parts := [first] + rest;
    if i :| 0 <= i < |rest| && Contains(rest[i], sub) {
      assert parts[i + 1] == rest[i];
    }
    if Contains(first, sub) {
      assert Contains(parts[0], sub);
    }
  }

  // What holds no separator occurs in a text iff it occurs in one of its parts.
  lemma {:induction false} OccursInAPart(s: string, c: char, sub: string)
    requires c !in sub
    ensures Contains(s, sub) <==> InSomePart(Split(s, c), sub)
    decreases |s|
  {
    ContainsStep(s, sub);
    if s == "" {
      assert Split(s, c)[0] == "";
    } else {
      var rest := Split(s[1..], c);
      OccursInAPart(s[1..], c, sub);
      FirstPartEndsAtSeparator(s, c);
      assert rest == [rest[0]] + rest[1..];
      InFirstOrRest(rest[0], rest[1..], sub);
      if s[0] == c {
        InFirstOrRest("", rest, sub);
        ContainsStep("", sub);
        assert sub != "" && sub <= s ==> sub[0] in sub;
        ContainsStep(s[1..], sub);
      } else {
        var first := [s[0]] + rest[0];
        InFirstOrRest(first, rest[1..], sub);
        ContainsStep(first, sub);
        assert first[1..] == rest[0];
        assert sub <= s && |first| < |sub| ==> sub[|first|] in sub;
      }
    }
  }

  lemma SubtextHasNoMore(s: string, sub: string, c: char)
    requires Contains(s, sub) && c in sub
    ensures c in s
  {
    var k :| 0 <= k <= |s| && sub <= s[k..];
    var j :| 0 <= j < |sub| && sub[j] == c;
    assert s[k + j] == c;
  }

  // The cookie text has the name somewhere in it, be it in another name or in a value.
  lemma HasCookieIffItOccurs(cookie: HeaderText, name: string)
    ensures HasCookie(cookie, name) <==> ';' !in name && Contains(if cookie.Text? then cookie.value else "", name)
  {
    var text := if cookie.Text? then cookie.value else "";
    if ';' !in name {
      OccursInAPart(text, ';', name);
    } else {
      JoinOfSplit(text, ';');
      forall i | 0 <= i < |Split(text, ';')| ensures !Contains(Split(text, ';')[i], name) {
        if Contains(Split(text, ';')[i], name) {
          SubtextHasNoMore(Split(text, ';')[i], name, ';');
        }
      }
    }
  }

  // Every `{uri}` is replaced, from the left; what holds none is kept.
  lemma {:induction false} UriIsReplaced(before: string, after: string, uri: string)
    requires forall k | 0 <= k < |before| :: !("{uri}" <= (before + "{uri}" + after)[k..])
    ensures ReplaceUri(before + "{uri}" + after, uri) == before + uri + ReplaceUri(after, uri)
    decreases |before|
  {
    var s := before + "{uri}" + after;
    if before == "" {
      assert s[5..] == after;
    } else {
      assert s[0..] == s;
      assert s[1..] == before[1..] + "{uri}" + after;
      assert forall k | 0 <= k < |before| - 1 :: s[1..][k..] == s[k + 1..];
      UriIsReplaced(before[1..], after, uri);
    }
  }

  lemma {:induction false} NoUriNothingReplaced(s: string, uri: string)
    requires !Contains(s, "{uri}")
    ensures ReplaceUri(s, uri) == s
    decreases |s|
  {
    ContainsStep(s, "{uri}");
    if s != "" {
      NoUriNothingReplaced(s[1..], uri);
    }
  }

  function Respond(status: nat, world: World): Outcome {
    Outcome([status], Reaching([status], world.env.response), world.env.response.Whole?)
  }

  function Redirect(destination: string, request: RequestView, world: World): Outcome {
    if world.validHeader(ReplaceUri(destination, request.path)) then Respond(FOUND, world) else Outcome([], [], false)
  }

  // The outcome of a file or proxy reply that settles the request.
  function Settle(reply: FileReply): Outcome
    requires !reply.result.NotMatched?
  {
    match reply.result
    case Sent(_) => Outcome(reply.begun, reply.reached, true)
    case Refused(status) =>
      Outcome(reply.begun + [status], reply.reached + Reaching([status], reply.next), reply.next.Whole?)
    case Failed => Outcome(reply.begun, reply.reached, false)
  }

  function Files(root: RootState, request: RequestView, world: World): Outcome {
    var reply := FileDirective(root.path, root.fallback, request, world.env);
    if reply.result.NotMatched? then Respond(NOT_FOUND, world) else Settle(reply)
  }

  /* ---- the meaning of a list ---- */

  // Whether a directive settles the request, whatever precedes it.
  predicate Decisive(d: Directive, request: RequestView, world: World) {
    match d
    case Root(_, _, _) => false
    case ServeFiles => true
    case ReverseProxy(_, _, options) => !world.proxy(options).result.NotMatched?
    case Redir(_) => true
    case RedirIfNotCookie(name, destination) =>
      !world.validHeader(ReplaceUri(destination, request.path)) || !HasCookie(request.cookie, name)
    case Tls(_, _) => false
  }

  // What a decisive directive answers under the given root.
  function Verdict(d: Directive, root: RootState, request: RequestView, world: World): Outcome
    requires Decisive(d, request, world)
  {
    match d
    case ServeFiles => Files(root, request, world)
    case ReverseProxy(_, _, options) => Settle(world.proxy(options))
    case Redir(destination) => Redirect(destination, request, world)
    case RedirIfNotCookie(_, destination) => Redirect(destination, request, world)
  }

  // The position of the first decisive directive, or the length of the list.
  function FirstDecisive(ds: seq<Directive>, request: RequestView, world: World): (i: nat)
    decreases |ds|
    ensures i <= |ds|
    ensures i < |ds| ==> Decisive(ds[i], request, world)
    ensures forall j | 0 <= j < i :: !Decisive(ds[j], request, world)
  {
    if ds == [] || Decisive(ds[0], request, world) then 0 else 1 + FirstDecisive(ds[1..], request, world)
  }

  predicate SetsRoot(d: Directive, path: string) {
    d.Root? && MatchesPattern(d.pattern, path)
  }

  ghost predicate IsLastRoot(ds: seq<Directive>, path: string, i: int) {
    && 0 <= i < |ds| && SetsRoot(ds[i], path)
    && forall j | i < j < |ds| :: !SetsRoot(ds[j], path)
  }

  // The root in force after a list: that of its last matching root directive.
  function LastRoot(ds: seq<Directive>, path: string): (root: RootState)
    decreases |ds|
    ensures root == NO_ROOT ==> forall d | d in ds :: !SetsRoot(d, path)
    ensures root != NO_ROOT ==> exists i :: IsLastRoot(ds, path, i) && root == RootState(Some(ds[i].path), ds[i].fallback)
  {
    if ds == [] then NO_ROOT
    else
      var d := ds[|ds| - 1];
      if SetsRoot(d, path) then
        assert IsLastRoot(ds, path, |ds| - 1);
        RootState(Some(d.path), d.fallback)
      else
        var root := LastRoot(ds[..|ds| - 1], path);
        assert forall i | IsLastRoot(ds[..|ds| - 1], path, i) :: IsLastRoot(ds, path, i) && ds[..|ds| - 1][i] == ds[i];
        root
  }

  // The first decisive directive answers, under the last matching root before it; without
  // one the answer is 404.
  function Meaning(ds: seq<Directive>, request: RequestView, world: World): Outcome {
    var i := FirstDecisive(ds, request, world);
    if i == |ds| then Respond(NOT_FOUND, world)
    else Verdict(ds[i], LastRoot(ds[..i], request.path), request, world)
  }

  /* ---- the interpreter ---- */

  // The loop over the directives, with its carried root and fallback.
  method Interpret(ds: seq<Directive>, request: RequestView, world: World) returns (outcome: Outcome)
    ensures outcome == Meaning(ds, request, world)
  {
    var rootPath: Option<string>, fallbackFile: Option<string> := None, None;
    for i := 0 to |ds|
      invariant RootState(rootPath, fallbackFile) == LastRoot(ds[..i], request.path)
      invariant forall j | 0 <= j < i :: !Decisive(ds[j], request, world)
    {
      assert ds[..i + 1][..i] == ds[..i];
      FirstDecisiveIs(ds, request, world, i);
      match ds[i]
      case Root(pattern, path, fallback) =>
        if MatchesPattern(pattern, request.path) {
          rootPath := Some(path);
          fallbackFile := fallback;
        }
      case ServeFiles =>
        var reply := FileDirective(rootPath, fallbackFile, request, world.env);
        match reply.result {
          case Sent(_) => return Outcome(reply.begun, reply.reached, true);
          case Refused(status) =>
            return Outcome(reply.begun + [status], reply.reached + Reaching([status], reply.next), reply.next.Whole?);
          case Failed => return Outcome(reply.begun, reply.reached, false);
          case NotMatched => break;
        }
      case ReverseProxy(_, _, options) =>
        var reply := world.proxy(options);
        match reply.result {
          case Sent(_) => return Outcome(reply.begun, reply.reached, true);
          case Refused(status) =>
            return Outcome(reply.begun + [status], reply.reached + Reaching([status], reply.next), reply.next.Whole?);
          case Failed => return Outcome(reply.begun, reply.reached, false);
          case NotMatched =>
        }
      case Redir(destination) =>
        if !world.validHeader(ReplaceUri(destination, request.path)) {
          return Outcome([], [], false);
        }
        return Respond(FOUND, world);
      case RedirIfNotCookie(name, destination) =>
        if !world.validHeader(ReplaceUri(destination, request.path)) {
          return Outcome([], [], false);
        }
        if !HasCookie(request.cookie, name) {
          return Respond(FOUND, world);
        }
      case Tls(_, _) =>
    }
    if forall j | 0 <= j < |ds| :: !Decisive(ds[j], request, world) {
      FirstDecisiveIs(ds, request, world, |ds|);
    }
    outcome := Respond(NOT_FOUND, world);
  }

  lemma {:induction false} FirstDecisiveIs(ds: seq<Directive>, request: RequestView, world: World, i: nat)
    requires i <= |ds| && forall j | 0 <= j < i :: !Decisive(ds[j], request, world)
    ensures i == |ds| || Decisive(ds[i], request, world) ==> FirstDecisive(ds, request, world) == i
  {
  }

  /* ---- what does not matter ---- */

  // The interpreter read as a recursion: the answer of a list under a given root.
  function Answer(ds: seq<Directive>, root: RootState, request: RequestView, world: World): Outcome
    decreases |ds|
  {
    if ds == [] then Respond(NOT_FOUND, world)
    else if Decisive(ds[0], request, world) then Verdict(ds[0], root, request, world)
    else
      Answer(ds[1..], if SetsRoot(ds[0], request.path) then RootState(Some(ds[0].path), ds[0].fallback) else root,
             request, world)
  }

  function Override(root: RootState, later: RootState): RootState {
    if later == NO_ROOT then root else later
  }

  lemma {:induction false} LastRootOfTail(ds: seq<Directive>, path: string)
    requires ds != []
    ensures LastRoot(ds, path) ==
            Override(if SetsRoot(ds[0], path) then RootState(Some(ds[0].path), ds[0].fallback) else NO_ROOT,
                     LastRoot(ds[1..], path))
    decreases |ds|
  {
    if |ds| > 1 {
      var front, tail := ds[..|ds| - 1], ds[1..];
      assert front[1..] == tail[..|tail| - 1] && front[0] == ds[0];
      assert tail[|tail| - 1] == ds[|ds| - 1];
      LastRootOfTail(front, path);
    }
  }

  lemma {:induction false} AnswerIsMeaning(ds: seq<Directive>, root: RootState, request: RequestView, world: World)
    ensures var i := FirstDecisive(ds, request, world);
            Answer(ds, root, request, world) ==
              if i == |ds| then Respond(NOT_FOUND, world)
              else Verdict(ds[i], Override(root, LastRoot(ds[..i], request.path)), request, world)
    decreases |ds|
  {
    if ds != [] && !Decisive(ds[0], request, world) {
      var root' := if SetsRoot(ds[0], request.path) then RootState(Some(ds[0].path), ds[0].fallback) else root;
      AnswerIsMeaning(ds[1..], root', request, world);
      var i := FirstDecisive(ds, request, world);
      assert ds[..i][1..] == ds[1..][..i - 1];
      LastRootOfTail(ds[..i], request.path);
    }
  }

  // Drop tls directives, root directives that do not match, and everything after the first
  // file_server or redir.
  function Simplify(ds: seq<Directive>, path: string): seq<Directive>
    decreases |ds|
  {
    if ds == [] then []
    else if ds[0].ServeFiles? || ds[0].Redir? then [ds[0]]
    else if ds[0].Tls? || (ds[0].Root? && !SetsRoot(ds[0], path)) then Simplify(ds[1..], path)
    else [ds[0]] + Simplify(ds[1..], path)
  }

  lemma {:induction false} SimplifyKeepsAnswer(ds: seq<Directive>, root: RootState, request: RequestView, world: World)
    ensures Answer(Simplify(ds, request.path), root, request, world) == Answer(ds, root, request, world)
    decreases |ds|
  {
    if ds != [] {
      var root' := if SetsRoot(ds[0], request.path) then RootState(Some(ds[0].path), ds[0].fallback) else root;
      SimplifyKeepsAnswer(ds[1..], root, request, world);
      SimplifyKeepsAnswer(ds[1..], root', request, world);
    }
  }

  // Simplification preserves the reply, for every request and every behaviour of the files,
  // the backends and the connection.
  lemma SimplifyKeepsMeaning(ds: seq<Directive>, request: RequestView, world: World)
    ensures Meaning(Simplify(ds, request.path), request, world) == Meaning(ds, request, world)
  {
    SimplifyKeepsAnswer(ds, NO_ROOT, request, world);
    AnswerIsMeaning(ds, NO_ROOT, request, world);
    AnswerIsMeaning(Simplify(ds, request.path), NO_ROOT, request, world);
  }

  /* ---- response heads ---- */

  lemma FilesBeginOneHead(root: RootState, request: RequestView, world: World)
    ensures |Files(root, request, world).begun| <= 1
    ensures Files(root, request, world).reached <= Files(root, request, world).begun
  {
    FileHeads(root.path, root.fallback, request, world.env);
  }

  // The first head is forwarded and a second one is tried.
  predicate RefusesAfterHead(reply: FileReply) {
    reply.result.Refused? && reply.begun != []
  }

  predicate BeginsOne(reply: FileReply) {
    |reply.begun| <= 1 && reply.reached <= reply.begun
  }

  // A second response head is begun for one request exactly if the directive that settles it is
  // a reverse_proxy that had already begun to forward a head when it failed with an error.
  lemma SecondHeadIffProxyFailsAfterItsHead(ds: seq<Directive>, request: RequestView, world: World)
    requires forall o :: BeginsOne(world.proxy(o))
    ensures var outcome, i := Meaning(ds, request, world), FirstDecisive(ds, request, world);
            if i < |ds| && ds[i].ReverseProxy?
            then outcome == Settle(world.proxy(ds[i].options))
                 && (|outcome.begun| == 2 <==> RefusesAfterHead(world.proxy(ds[i].options))) && |outcome.begun| <= 2
            else |outcome.begun| <= 1 && outcome.reached <= outcome.begun
  {
    var i := FirstDecisive(ds, request, world);
    if i < |ds| && ds[i].ServeFiles? {
      FilesBeginOneHead(LastRoot(ds[..i], request.path), request, world);
    } else if i < |ds| && ds[i].ReverseProxy? {
      assert BeginsOne(world.proxy(ds[i].options));
    }
  }

  // Without a reverse_proxy directive no second response head is ever begun.
  lemma NoProxyNoSecondHead(ds: seq<Directive>, request: RequestView, world: World)
    requires forall d | d in ds :: !d.ReverseProxy?
    ensures |Meaning(ds, request, world).begun| <= 1
    ensures Meaning(ds, request, world).reached <= Meaning(ds, request, world).begun
  {
    var i := FirstDecisive(ds, request, world);
    if i < |ds| {
      assert ds[i] in ds;
      if ds[i].ServeFiles? {
        FilesBeginOneHead(LastRoot(ds[..i], request.path), request, world);
      }
    }
  }

  /* ---- the replies in plain numbers ---- */

  // A response of the program itself, and what becomes of it.
  ghost predicate Replies(outcome: Outcome, status: nat, world: World) {
    outcome == Outcome([status], if world.env.response == Nothing then [] else [status], world.env.response == Whole)
  }

  // Nothing settles the request: 404. A redirect: 302 with the target written out, or an error if
  // that is no header.
  lemma RepliesOfRedirects(destination: string, rest: seq<Directive>, request: RequestView, world: World)
    ensures Replies(Meaning([], request, world), 404, world)
    ensures world.validHeader(ReplaceUri(destination, request.path)) ==>
              Replies(Meaning([Redir(destination)] + rest, request, world), 302, world)
    ensures !world.validHeader(ReplaceUri(destination, request.path)) ==>
              Meaning([Redir(destination)] + rest, request, world) == Outcome([], [], false)
  {
  }

  // A file_server below a root answers with the reply for the file, whatever comes after it; a path
  // that is not granted gets 404.
  lemma RepliesOfFiles(path: string, fallback: Option<string>, rest: seq<Directive>, request: RequestView, world: World)
    ensures var outcome := Meaning([Root("*", path, fallback), ServeFiles] + rest, request, world);
            var reply := FileDirective(Some(path), fallback, request, world.env);
            match reply.result
            case NotMatched => Replies(outcome, 404, world)
            case Sent(_) => outcome == Outcome(reply.begun, reply.reached, true)
            case Refused(status) => Replies(outcome, status, world)
            case Failed => outcome == Outcome(reply.begun, reply.reached, false)
  {
    var ds := [Root("*", path, fallback), ServeFiles] + rest;
    AnswerIsMeaning(ds, NO_ROOT, request, world);
    assert ds[1..] == [ServeFiles] + rest;
    FileHeads(Some(path), fallback, request, world.env);
    FileRepliesAnswerOnSame(path, fallback, request, world.env);
  }

  // A request with the cookie goes on to the rest of the list, one without it is redirected.
  lemma RedirectsWithoutCookie(name: string, destination: string, rest: seq<Directive>, request: RequestView, world: World)
    requires world.validHeader(ReplaceUri(destination, request.path))
    ensures var ds := [RedirIfNotCookie(name, destination)] + rest;
            if ';' !in name && Contains(if request.cookie.Text? then request.cookie.value else "", name) then
              Meaning(ds, request, world) == Meaning(rest, request, world)
            else
              Replies(Meaning(ds, request, world), 302, world)
  {
    var ds := [RedirIfNotCookie(name, destination)] + rest;
    HasCookieIffItOccurs(request.cookie, name);
    AnswerIsMeaning(ds, NO_ROOT, request, world);
    AnswerIsMeaning(rest, NO_ROOT, request, world);
    assert ds[1..] == rest;
  }

  /* ---- one connection ---- */

  // A connection whose request could not be read gets 400, one for an unknown host 403; both
  // also end in an error. Any host that starts with `*` comes before the one that was named.
  function Reply(incoming: Option<RequestView>, hosts: map<string, seq<Directive>>, order: seq<string>, world: World): Outcome
    requires forall h | h in order :: h in hosts
  {
    if incoming.None? then Outcome([BAD_REQUEST], Reaching([BAD_REQUEST], world.env.response), false)
    else
      var host := if incoming.value.host.Text? then incoming.value.host.value else "";
      match FirstSuch(order, IsStarHost)
      case Some(star) => Meaning(hosts[star], incoming.value, world)
      case None => if host in hosts then Meaning(hosts[host], incoming.value, world)
                else Outcome([FORBIDDEN], Reaching([FORBIDDEN], world.env.response), false)
  }

  // A request that could not be read, and one for a host that is not there.
  lemma RepliesWithoutAHost(incoming: Option<RequestView>, hosts: map<string, seq<Directive>>, order: seq<string>, world: World)
    requires forall h | h in order :: h in hosts
    requires forall h | h in order :: h == "" || h[0] != '*'
    requires incoming.Some? ==> (if incoming.value.host.Text? then incoming.value.host.value else "") !in hosts
    ensures Reply(incoming, hosts, order, world) ==
            var status := if incoming.None? then 400 else 403;
            Outcome([status], if world.env.response == Nothing then [] else [status], false)
  {
  }

  method DirectiveProcess(incoming: Option<RequestView>, hosts: map<string, seq<Directive>>, order: seq<string>, world: World)
    returns (outcome: Outcome)
    requires IsOrder(order, hosts.Keys)
    ensures outcome == Reply(incoming, hosts, order, world)
  {
    if incoming.None? {
      return Outcome([BAD_REQUEST], Reaching([BAD_REQUEST], world.env.response), false);
    }
    var request := incoming.value;
    var selected := SelectHost(order, if request.host.Text? then request.host.value else "");
    if selected.None? {
      return Outcome([FORBIDDEN], Reaching([FORBIDDEN], world.env.response), false);
    }
    outcome := Interpret(hosts[selected.value], request, world);
  }
}
