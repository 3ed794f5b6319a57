/** Simplifying a list of directives when its proxy states are built from the simplified list. */
module RebuiltStates {
  import opened Wrappers
  import opened Backends
  import opened Routing
  import opened ProxyLoops
  import opened FileServer
  import opened Directives
  import opened ProxyReplies
  import opened Supervisor

  function Patterns(ds: seq<Directive>): set<string> {
    set d | d in ds && d.ReverseProxy? :: d.pattern
  }

  // The directive whose balancer a request is sent to, whichever reverse_proxy sends it there:
  // the last one with the first matching pattern that the map yields.
  function Chosen(ds: seq<Directive>, order: seq<string>, path: string): Option<Directive> {
    match FirstSuch(order, Matcher(path))
    case None => None
    case Some(pattern) => LastProxy(ds, pattern)
  }

  // What influences the reply besides the states: what happens in the proxy is decided by the
  // balancer and by the options of the directive that sends the request.
  datatype Behaviour = Behaviour(
    env: Surroundings,
    exchange: (Directive, ReverseProxyOptions) -> Exchange,
    validHeader: string -> bool)

  // A balancer that has been chosen answers, over connections that deliver what they should.
  ghost predicate Answers(b: Behaviour) {
    forall d: Directive, o: ReverseProxyOptions ::
      b.exchange(d, o).Ended? && b.exchange(d, o).end != StillRunning && Sound(b.exchange(d, o).wire)
  }

  ghost function WorldOf(b: Behaviour, chosen: Option<Directive>): World {
    World(b.env, o => ReplyOf(if chosen.None? then Unmatched else b.exchange(chosen.value, o)), b.validHeader)
  }

  // The request gets past the directive, unless that is a proxy.
  predicate PassesBy(d: Directive, request: RequestView) {
    match d
    case ServeFiles => false
    case Redir(_) => false
    case RedirIfNotCookie(name, _) => HasCookie(request.cookie, name)
    case _ => true
  }

  // The request may come to a reverse_proxy directive, the first of them at j.
  ghost predicate Consults(ds: seq<Directive>, request: RequestView, j: int) {
    && 0 <= j < |ds| && ds[j].ReverseProxy?
    && forall i | 0 <= i < j :: PassesBy(ds[i], request) && !ds[i].ReverseProxy?
  }

  ghost predicate Consulted(ds: seq<Directive>, request: RequestView) {
    exists j :: Consults(ds, request, j)
  }

  // A list whose proxies are not consulted has a meaning that does not depend on them.
  lemma {:induction false} UnconsultedProxiesDoNotMatter(ds: seq<Directive>, root: RootState, request: RequestView,
                                                         b: Behaviour, one: Option<Directive>, other: Option<Directive>)
    requires !Consulted(ds, request)
    ensures Answer(ds, root, request, WorldOf(b, one)) == Answer(ds, root, request, WorldOf(b, other))
    decreases |ds|
  {
    if ds != [] {
      assert !Consults(ds, request, 0);
      if PassesBy(ds[0], request) && Consulted(ds[1..], request) {
        var j :| Consults(ds[1..], request, j);
        assert Consults(ds, request, j + 1);
      }
      if PassesBy(ds[0], request) {
        var root' := if SetsRoot(ds[0], request.path) then RootState(Some(ds[0].path), ds[0].fallback) else root;
        UnconsultedProxiesDoNotMatter(ds[1..], root', request, b, one, other);
      }
    }
  }

  function TakesEverything(i: nat): Option<nat> {
    None
  }

  const MARKED := 201
  const UNMARKED := 202

  // Every balancer is reached and relays a response, whose status tells which one it is.
  function Revealing(mark: Option<Directive>): Behaviour {
    Behaviour(Surroundings(_ => false, _ => None, _ => true, Whole, Whole),
              (d, o) => Ended(Served(0), ShortResponse([33], TakesEverything, if Some(d) == mark then MARKED else UNMARKED)),
              _ => true)
  }

  ghost predicate OwnHeads(outcome: Outcome) {
    forall i | 0 <= i < |outcome.begun| :: OwnStatus(outcome.begun[i])
  }

  lemma FilesSendOwnHeads(root: RootState, request: RequestView, world: World)
    ensures OwnHeads(Files(root, request, world))
  {
    FileReplyIsOwn(root.path, root.fallback, request, world.env);
  }

  lemma {:induction false} NoMatchOwnHeads(ds: seq<Directive>, root: RootState, request: RequestView, world: World)
    requires forall o :: world.proxy(o).result.NotMatched?
    ensures OwnHeads(Answer(ds, root, request, world))
    decreases |ds|
  {
    if ds != [] {
      if ds[0].ServeFiles? {
        FilesSendOwnHeads(root, request, world);
      } else if !Decisive(ds[0], request, world) {
        var root' := if SetsRoot(ds[0], request.path) then RootState(Some(ds[0].path), ds[0].fallback) else root;
        NoMatchOwnHeads(ds[1..], root', request, world);
      }
    }
  }

  lemma RevealedReply(mark: Option<Directive>, d: Directive, o: ReverseProxyOptions)
    ensures Sound(Revealing(mark).exchange(d, o).wire)
    ensures ReplyOf(Revealing(mark).exchange(d, o)) ==
            var code := if Some(d) == mark then MARKED else UNMARKED; FileReply([code], [code], Sent(OK), Nothing)
  {
    ShortResponseForwards([33], TakesEverything, if Some(d) == mark then MARKED else UNMARKED);
  }

  lemma {:induction false} ConsultedProxyIsSeen(ds: seq<Directive>, root: RootState, request: RequestView,
                                                mark: Option<Directive>, chosen: Option<Directive>, j: int)
    requires Consults(ds, request, j)
    ensures var outcome := Answer(ds, root, request, WorldOf(Revealing(mark), chosen));
            if chosen.None? then OwnHeads(outcome) else outcome.begun == [if chosen == mark then MARKED else UNMARKED]
    decreases |ds|
  {
    if chosen.None? {
      assert forall o :: WorldOf(Revealing(mark), chosen).proxy(o) == ReplyOf(Unmatched);
      NoMatchOwnHeads(ds, root, request, WorldOf(Revealing(mark), chosen));
    } else if j == 0 {
      RevealedReply(mark, chosen.value, ds[0].options);
    } else {
      assert PassesBy(ds[0], request) && !ds[0].ReverseProxy?;
      forall i | 0 <= i < j - 1 ensures PassesBy(ds[1..][i], request) && !ds[1..][i].ReverseProxy? {
        assert PassesBy(ds[i + 1], request);
      }
      assert Consults(ds[1..], request, j - 1);
      var root' := if SetsRoot(ds[0], request.path) then RootState(Some(ds[0].path), ds[0].fallback) else root;
      ConsultedProxyIsSeen(ds[1..], root', request, mark, chosen, j - 1);
    }
  }

  lemma MeaningIsAnswer(ds: seq<Directive>, request: RequestView, world: World)
    ensures Meaning(ds, request, world) == Answer(ds, NO_ROOT, request, world)
  {
    AnswerIsMeaning(ds, NO_ROOT, request, world);
  }

  ghost predicate SameReply(ds: seq<Directive>, one: Option<Directive>, es: seq<Directive>, other: Option<Directive>,
                            request: RequestView, b: Behaviour) {
    Meaning(ds, request, WorldOf(b, one)) == Meaning(es, request, WorldOf(b, other))
  }

  // With the states rebuilt, simplification preserves the reply to a request, for every behaviour
  // of files, balancers and connections, iff it leaves the choice of the balancer alone or the
  // request comes to no reverse_proxy. In particular a reverse_proxy after file_server may
  // matter: its balancer can be the one that an earlier directive sends the request to.
  lemma SimplifyIsSafeIffChoiceIsKept(ds: seq<Directive>, request: RequestView, o1: seq<string>, o2: seq<string>)
    requires IsOrder(o1, Patterns(ds)) && IsOrder(o2, Patterns(Simplify(ds, request.path)))
    ensures var one, other := Chosen(ds, o1, request.path), Chosen(Simplify(ds, request.path), o2, request.path);
            (forall b: Behaviour | Answers(b) :: SameReply(ds, one, Simplify(ds, request.path), other, request, b))
              <==> one == other || !Consulted(ds, request)
  {
    var one, other := Chosen(ds, o1, request.path), Chosen(Simplify(ds, request.path), o2, request.path);
    if one == other || !Consulted(ds, request) {
      forall b: Behaviour | Answers(b) ensures SameReply(ds, one, Simplify(ds, request.path), other, request, b) {
        SimplifyKeepsMeaning(ds, request, WorldOf(b, other));
        MeaningIsAnswer(ds, request, WorldOf(b, one));
        MeaningIsAnswer(ds, request, WorldOf(b, other));
        if one != other {
          UnconsultedProxiesDoNotMatter(ds, NO_ROOT, request, b, one, other);
        }
      }
    } else {
      ChoiceIsSeen(ds, request, one, other);
    }
  }

  lemma RevealingAnswers(mark: Option<Directive>)
    ensures Answers(Revealing(mark))
  {
    forall d: Directive, o: ReverseProxyOptions ensures Sound(Revealing(mark).exchange(d, o).wire) {
      RevealedReply(mark, d, o);
    }
  }

  lemma StatusesTell(outcome: Outcome, status: nat)
    requires OwnHeads(outcome) && !OwnStatus(status)
    ensures outcome.begun != [status]
  {
    assert |outcome.begun| > 0 ==> OwnStatus(outcome.begun[0]);
  }

  lemma AnswersDiffer(ds: seq<Directive>, request: RequestView, one: Option<Directive>, other: Option<Directive>)
    requires one != other && Consulted(ds, request)
    ensures Answer(ds, NO_ROOT, request, WorldOf(Revealing(one), one))
         != Answer(ds, NO_ROOT, request, WorldOf(Revealing(one), other))
  {
    var j :| Consults(ds, request, j);
    ConsultedProxyIsSeen(ds, NO_ROOT, request, one, one, j);
    ConsultedProxyIsSeen(ds, NO_ROOT, request, one, other, j);
    if one.None? {
      StatusesTell(Answer(ds, NO_ROOT, request, WorldOf(Revealing(one), one)), UNMARKED);
    } else if other.None? {
      StatusesTell(Answer(ds, NO_ROOT, request, WorldOf(Revealing(one), other)), MARKED);
    }
  }

  lemma ChoiceIsSeen(ds: seq<Directive>, request: RequestView, one: Option<Directive>, other: Option<Directive>)
    requires one != other && Consulted(ds, request)
    ensures Answers(Revealing(one)) && !SameReply(ds, one, Simplify(ds, request.path), other, request, Revealing(one))
  {
    RevealingAnswers(one);
    AnswersDiffer(ds, request, one, other);
    SimplifyKeepsMeaning(ds, request, WorldOf(Revealing(one), other));
    MeaningIsAnswer(ds, request, WorldOf(Revealing(one), one));
    MeaningIsAnswer(ds, request, WorldOf(Revealing(one), other));
  }

  // It does matter when it sets up the pattern again: requests of the first directive go to the
  // balancer of the last.
  lemma ProxyAfterFileServerMatters(first: seq<Url>, last: seq<Url>, options: ReverseProxyOptions, request: RequestView)
    requires first != last
    ensures var ds := [ReverseProxy("*", first, options), ServeFiles, ReverseProxy("*", last, options)];
            && Simplify(ds, request.path) == ds[..2] && Consulted(ds, request)
            && Patterns(ds) == Patterns(ds[..2]) == {"*"} && IsOrder(["*"], {"*"})
            && Chosen(ds, ["*"], request.path) == Some(ds[2])
            && Chosen(ds[..2], ["*"], request.path) == Some(ds[0])
  {
    var ds := [ReverseProxy("*", first, options), ServeFiles, ReverseProxy("*", last, options)];
    assert Consults(ds, request, 0);
    assert ds[..2] == [ds[0], ds[1]] && ds[..2][..1] == [ds[0]];
    assert Simplify(ds[1..], request.path) == [ds[1]];
    assert ds[0] in ds && ds[0] in ds[..2];
  }
}
