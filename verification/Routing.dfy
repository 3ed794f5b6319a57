/** Which entry of a hash map a request is routed to: proxy states by path pattern, hosts by
    name. Hash maps are iterated in an unspecified order. */
module Routing {
  import opened Wrappers

  /* ---- iteration orders ---- */

  ghost predicate IsOrder(order: seq<string>, keys: set<string>) {
    && (forall k :: k in order <==> k in keys)
    && (forall i, j | 0 <= i < j < |order| :: order[i] != order[j])
  }

  // The first key of an order with a property.
  function FirstSuch(order: seq<string>, p: string -> bool): (first: Option<string>)
    ensures first.Some? ==> first.value in order && p(first.value)
    ensures first.None? <==> forall k | k in order :: !p(k)
  {
    if order == [] then None
    else if p(order[0]) then Some(order[0])
    else FirstSuch(order[1..], p)
  }

  lemma {:induction false} SomeOrder(keys: set<string>) returns (order: seq<string>)
    ensures IsOrder(order, keys)
  {
    if keys == {} {
      order := [];
    } else {
      var k :| k in keys;
      order := SomeOrder(keys - {k});
      order := [k] + order;
    }
  }

  ghost predicate OrdersAgree(keys: set<string>, p: string -> bool) {
    forall o1, o2 | IsOrder(o1, keys) && IsOrder(o2, keys) :: FirstSuch(o1, p) == FirstSuch(o2, p)
  }

  // Every iteration order finds the same key iff no two keys have the property.
  lemma OrdersAgreeIffUnique(keys: set<string>, p: string -> bool)
    ensures OrdersAgree(keys, p) <==> forall k, l | k in keys && l in keys && p(k) && p(l) :: k == l
  {
    if OrdersAgree(keys, p) {
      forall k, l | k in keys && l in keys && p(k) && p(l) ensures k == l {
        var o1 := SomeOrder(keys - {k});
        var o2 := SomeOrder(keys - {l});
        assert IsOrder([k] + o1, keys) && IsOrder([l] + o2, keys);
        assert FirstSuch([k] + o1, p) == Some(k) && FirstSuch([l] + o2, p) == Some(l);
      }
    }
  }

  /* ---- path patterns ---- */

  // `*` matches everything, a trailing `*` makes the rest a prefix, anything else is literal.
  predicate MatchesPattern(pattern: string, path: string) {
    if pattern == "*" then true
    else if IsPrefixPattern(pattern) then Stem(pattern) <= path
    else pattern == path
  }

  predicate IsPrefixPattern(pattern: string) {
    |pattern| > 0 && pattern[|pattern| - 1] == '*'
  }

  function Stem(pattern: string): string {
    if IsPrefixPattern(pattern) then pattern[..|pattern| - 1] else pattern
  }

  lemma PatternsMatch(stem: string, path: string)
    ensures MatchesPattern(stem + "*", path) <==> stem <= path
    ensures (stem == "" || stem[|stem| - 1] != '*') ==> (MatchesPattern(stem, path) <==> stem == path)
  {
    assert (stem + "*")[..|stem|] == stem;
    assert [] <= path;
  }

  // Decided from the two patterns alone.
  predicate Overlap(p: string, q: string) {
    || (IsPrefixPattern(p) && Stem(p) <= Stem(q))
    || (IsPrefixPattern(q) && Stem(q) <= Stem(p))
    || p == q
  }

  lemma CommonPathMeansOverlap(p: string, q: string, path: string)
    requires MatchesPattern(p, path) && MatchesPattern(q, path)
    ensures Overlap(p, q)
  {
  }

  lemma OverlapIsACommonPath(p: string, q: string)
    ensures Overlap(p, q) <==> exists path :: MatchesPattern(p, path) && MatchesPattern(q, path)
  {
    if Overlap(p, q) {
      var path := if |Stem(p)| <= |Stem(q)| then Stem(q) else Stem(p);
      assert MatchesPattern(p, path) && MatchesPattern(q, path);
    }
    if path :| MatchesPattern(p, path) && MatchesPattern(q, path) {
      CommonPathMeansOverlap(p, q, path);
    }
  }

  function Matcher(path: string): string -> bool {
    pattern => MatchesPattern(pattern, path)
  }

  // The search of proxy_directive for the state to use.
  method FindProxyState(order: seq<string>, path: string) returns (found: Option<string>)
    ensures found == FirstSuch(order, Matcher(path))
    ensures found.None? <==> forall pattern | pattern in order :: !MatchesPattern(pattern, path)
  {
    var p := Matcher(path);
    for i := 0 to |order|
      invariant FirstSuch(order, p) == FirstSuch(order[i..], p)
    {
      assert order[i..][1..] == order[i + 1..];
      if MatchesPattern(order[i], path) {
        return Some(order[i]);
      }
    }
    assert order[|order|..] == [];
    return None;
  }

  ghost predicate RoutesAlike(patterns: set<string>, path: string) {
    OrdersAgree(patterns, Matcher(path))
  }

  // Every order of the map sends every path to the same state iff no two of the patterns
  // overlap.
  lemma RoutingIsOrderFreeIffDisjoint(patterns: set<string>)
    ensures (forall path :: RoutesAlike(patterns, path))
       <==> forall p, q | p in patterns && q in patterns && p != q :: !Overlap(p, q)
  {
    if forall path :: RoutesAlike(patterns, path) {
      forall p, q | p in patterns && q in patterns && p != q ensures !Overlap(p, q) {
        OverlapIsACommonPath(p, q);
        if path :| MatchesPattern(p, path) && MatchesPattern(q, path) {
          assert RoutesAlike(patterns, path);
          OrdersAgreeIffUnique(patterns, Matcher(path));
        }
      }
    }
    if forall p, q | p in patterns && q in patterns && p != q :: !Overlap(p, q) {
      forall path ensures RoutesAlike(patterns, path) {
        forall p, q | p in patterns && q in patterns && MatchesPattern(p, path) && MatchesPattern(q, path) ensures p == q {
          CommonPathMeansOverlap(p, q, path);
        }
        OrdersAgreeIffUnique(patterns, Matcher(path));
      }
    }
  }

  /* ---- hosts ---- */

  predicate IsStarHost(name: string) {
    |name| > 0 && name[0] == '*'
  }

  lemma StarHosts(name: string)
    ensures IsStarHost("*" + name)
    ensures name == "" || name[0] != '*' ==> !IsStarHost(name)
  {
  }

  // The host whose directives a request gets: any one that starts with `*`, else its own.
  method SelectHost(order: seq<string>, host: string) returns (selected: Option<string>)
    ensures selected == match FirstSuch(order, IsStarHost)
                        case Some(star) => Some(star)
                        case None => if host in order then Some(host) else None
  {
    for i := 0 to |order|
      invariant FirstSuch(order, IsStarHost) == FirstSuch(order[i..], IsStarHost)
    {
      assert order[i..][1..] == order[i + 1..];
      if IsStarHost(order[i]) {
        return Some(order[i]);
      }
    }
    assert order[|order|..] == [];
    selected := if host in order then Some(host) else None;
  }

  // Which of the starred hosts answers does not depend on the order iff there is at most one.
  lemma HostIsOrderFreeIffOneStar(hosts: set<string>)
    ensures OrdersAgree(hosts, IsStarHost)
       <==> forall h, g | h in hosts && g in hosts && IsStarHost(h) && IsStarHost(g) :: h == g
  {
    OrdersAgreeIffUnique(hosts, IsStarHost);
  }
}
