/** The load balancer object: backends with their states, and the round-robin cursor,
    all updated in place. */
module ReverseProxyStates {
  import opened Numbers
  import opened Wrappers
  import opened Backends
  import opened IpHash
  import opened Rings

  // The number of backends as the address hash sees it, cut to 32 bits.
  function Ring(n: nat): (ring: nat)
    ensures ring <= n && ring < U32
    ensures n < U32 ==> ring == n
  {
    n % U32
  }

  class ReverseProxyState {
    const urls: seq<Url>
    const aliveStates: array<AliveState>
    const policy: LoadBalancePolicy
    const options: ReverseProxyOptions
    var currentBackend: nat

    ghost predicate Valid()
      reads this, aliveStates
    {
      && aliveStates.Length == |urls|
      && WellFormed(urls, Value())
    }

    ghost function Value(): Balancer
      reads this, aliveStates
    {
      Balancer(aliveStates[..], currentBackend)
    }

    // The address hash has nothing to choose from: the address is no IPv4 address, or no place is
    // left after the cut to 32 bits.
    predicate Unhashable(addr: IpAddr) {
      policy == IPHash && (addr.V6? || |urls| % 0x1_0000_0000 == 0)
    }

    // Where a call begins to look, and how many places it goes round.
    ghost function Home(addr: IpAddr): nat
      requires !Unhashable(addr)
      reads this
    {
      if policy == RoundRobin then currentBackend else Fnv1a(Octets(addr)) % Places()
    }

    ghost function Places(): nat {
      if policy == RoundRobin then |urls| else |urls| % 0x1_0000_0000
    }

    // No backend is selectable when its turn comes.
    ghost predicate NoneSelectable(addr: IpAddr, clock: nat -> u64)
      requires Valid()
      reads this, aliveStates
    {
      && !Unhashable(addr)
      && (urls != [] ==> NoneInTurn(aliveStates[..], options.lbInterval, clock, Home(addr), Places()))
    }

    // What an error says about the backends, as the call has left them.
    ghost predicate Refuses(addr: IpAddr, clock: nat -> u64, error: BalancerError)
      requires Valid()
      reads this, aliveStates
    {
      match error
      case IPv6NotSupported => policy == IPHash && addr.V6?
      case DivisionByZero => policy == IPHash && addr.V4? && |urls| % 0x1_0000_0000 == 0
      case NoHealthyBackends => NoneSelectable(addr, clock)
      case HeaplessError => !Unhashable(addr) && AliveButTooLong(urls, aliveStates[..])
    }

    constructor (urls: seq<Url>, policy: LoadBalancePolicy, options: ReverseProxyOptions, now: u64)
      ensures Valid() && fresh(this) && fresh(aliveStates)
      ensures this.urls == urls && this.policy == policy && this.options == options
      ensures Value() == Balancer(seq(|urls|, _ => Alive(now)), 0)
    {
      this.urls := urls;
      this.aliveStates := new AliveState[|urls|](_ => Alive(now));
      this.policy := policy;
      this.options := options;
      this.currentBackend := 0;
    }

    method SetDeadBackend(live: LiveBackend, now: u64)
      requires Valid() && live.index < |urls|
      modifies aliveStates
      ensures Valid()
      ensures Value() == old(Value()).(states := old(Value()).states[live.index := Dead(now, options.lbRetries)])
    {
      aliveStates[live.index] := Dead(now, options.lbRetries);
    }

    method SetAliveBackend(live: LiveBackend, now: u64)
      requires Valid() && live.index < |urls|
      modifies aliveStates
      ensures Valid()
      ensures Value() == old(Value()).(states := old(Value()).states[live.index := Alive(now)])
    {
      aliveStates[live.index] := Alive(now);
    }

    // clock(j) is what the system clock shows when the j-th backend is probed.
    method GetNextBackend(addr: IpAddr, clock: nat -> u64) returns (out: Selection)
      requires Valid()
      modifies `currentBackend, aliveStates
      ensures Valid() && Selected(urls, out)
      ensures out.Err? ==> Refuses(addr, clock, out.error)
      ensures out == Err(NoHealthyBackends) <==> old(NoneSelectable(addr, clock))
      ensures policy == RoundRobin ==>
                RoundRobinCall(urls, options.lbInterval, clock, old(Value()), Value(), out)
      ensures policy == IPHash && addr.V6? ==>
                out == Err(IPv6NotSupported) && Value() == old(Value())
      ensures policy == IPHash && addr.V4? && Ring(|urls|) == 0 ==>
                out == Err(DivisionByZero) && Value() == old(Value())
      ensures policy == IPHash && addr.V4? && Ring(|urls|) > 0 ==>
                && RingScans(urls, options.lbInterval, clock, Fnv1a(Octets(addr)) % Ring(|urls|), Ring(|urls|),
                             old(aliveStates[..]), aliveStates[..], out)
                && currentBackend == old(currentBackend)
      ensures policy == IPHash && addr.V4? && 0 < |urls| < U32 ==>
                HashCall(urls, options.lbInterval, clock, Fnv1a(Octets(addr)) % |urls|, old(Value()), Value(), out)
    {
      ghost var home, before := currentBackend, aliveStates[..];
      match policy
      case RoundRobin =>
        out := ScanFromCursor(clock);
        if urls != [] {
          ScanAnswers(urls, options.lbInterval, clock, home, before, aliveStates[..], out);
        }
      case IPHash =>
        out := NextByHash(addr, clock);
        if !Unhashable(addr) {
          RingScanAnswers(urls, options.lbInterval, clock, Home(addr), Places(), before, aliveStates[..], out);
        }
    }

    method NextByHash(addr: IpAddr, clock: nat -> u64) returns (out: Selection)
      requires Valid()
      modifies aliveStates
      ensures Valid()
      ensures addr.V6? ==> out == Err(IPv6NotSupported) && aliveStates[..] == old(aliveStates[..])
      ensures addr.V4? && Ring(|urls|) == 0 ==> out == Err(DivisionByZero) && aliveStates[..] == old(aliveStates[..])
      ensures addr.V4? && Ring(|urls|) > 0 ==>
                RingScans(urls, options.lbInterval, clock, Fnv1a(Octets(addr)) % Ring(|urls|), Ring(|urls|),
                          old(aliveStates[..]), aliveStates[..], out)
      ensures addr.V4? && 0 < |urls| < U32 ==>
                HashCall(urls, options.lbInterval, clock, Fnv1a(Octets(addr)) % |urls|, old(Value()), Value(), out)
    {
      if addr.V6? {
        return Err(IPv6NotSupported);
      }
      var number := GenerateNumberFromOctet(Octets(addr), Ring(|urls|));
      if number.None? {
        return Err(DivisionByZero);
      }
      out := ScanFromHash(number.value, clock);
    }

    // The body of one iteration, under the lock of backend `i`: whether the backend is taken.
    method Visit(i: nat, now: u64) returns (taken: bool)
      requires Valid() && i < |urls|
      modifies aliveStates
      ensures Valid()
      ensures taken == old(Selectable(aliveStates[i], options.lbInterval, now))
      ensures aliveStates[..] == old(aliveStates[..])[i := old(AfterVisit(aliveStates[i], options.lbInterval, now))]
      ensures aliveStates[i] == old(aliveStates[i]) || aliveStates[i] == if taken then Alive(now) else Dead(now, 0)
    {
      match aliveStates[i]
      case Alive(_) =>
        taken := true;
      case Dead(since, retriesLeft) =>
        taken := false;
        if now > WrapAdd(since, options.lbInterval) {
          if retriesLeft > 0 {
            aliveStates[i] := Dead(since, retriesLeft - 1);
            aliveStates[i] := Alive(now);
            taken := true;
          } else {
            aliveStates[i] := Dead(now, retriesLeft);
          }
        }
    }

    method ScanFromCursor(clock: nat -> u64) returns (out: Selection)
      requires Valid()
      modifies `currentBackend, aliveStates
      ensures Valid()
      ensures RoundRobinCall(urls, options.lbInterval, clock, old(Value()), Value(), out)
    {
      var n, interval := |urls|, options.lbInterval;
      ghost var home, before := currentBackend, aliveStates[..];
      for k := 0 to n
        invariant aliveStates.Length == n && (n == 0 ==> currentBackend == 0)
        invariant n > 0 ==> Probing(before, aliveStates[..], interval, clock, home, k, n, currentBackend)
      {
        ghost var earlier := aliveStates[..];
        var taken := Visit(currentBackend, clock(k));
        if taken {
          CursorFinds(urls, before, earlier, aliveStates[..], interval, clock, home, k, currentBackend);
          if !FitsAddress(urls[currentBackend]) {
            return Err(HeaplessError);
          }
          out := Ok(LiveBackend(urls[currentBackend], currentBackend));
          currentBackend := (currentBackend + 1) % n;
          return;
        }
        ProbingGoesOn(before, earlier, aliveStates[..], interval, clock, home, k, n, currentBackend);
        currentBackend := (currentBackend + 1) % n;
      }
      if n > 0 {
        CursorFindsNone(urls, before, aliveStates[..], interval, clock, home, currentBackend);
      }
      return Err(NoHealthyBackends);
    }

    method ScanFromHash(number: nat, clock: nat -> u64) returns (out: Selection)
      requires Valid() && number < Ring(|urls|)
      modifies aliveStates
      ensures Valid()
      ensures RingScans(urls, options.lbInterval, clock, number, Ring(|urls|), old(aliveStates[..]), aliveStates[..], out)
      ensures |urls| < U32 ==> HashCall(urls, options.lbInterval, clock, number, old(Value()), Value(), out)
    {
      var n, ring, interval := |urls|, Ring(|urls|), options.lbInterval;
      var backendIdx: nat := number;
      ghost var before := aliveStates[..];
      for k := 0 to n
        invariant aliveStates.Length == n
        invariant Probing(before, aliveStates[..], interval, clock, number, k, ring, backendIdx)
      {
        ghost var earlier := aliveStates[..];
        var taken := Visit(backendIdx, clock(k));
        if taken {
          ProbingFinds(urls, before, earlier, aliveStates[..], interval, clock, number, k, ring, backendIdx);
          WholeListIsRing(urls, interval, clock, number, before, aliveStates[..], Address(urls, backendIdx));
          if !FitsAddress(urls[backendIdx]) {
            return Err(HeaplessError);
          }
          return Ok(LiveBackend(urls[backendIdx], backendIdx));
        }
        ProbingGoesOn(before, earlier, aliveStates[..], interval, clock, number, k, ring, backendIdx);
        backendIdx := (backendIdx + 1) % ring;
      }
      ProbingFindsNone(urls, before, aliveStates[..], interval, clock, number, ring, backendIdx);
      WholeListIsRing(urls, interval, clock, number, before, aliveStates[..], Err(NoHealthyBackends));
      return Err(NoHealthyBackends);
    }
  }

  // A list that fits 32 bits is the ring.
  lemma WholeListIsRing(urls: seq<Url>, interval: u64, clock: nat -> u64, home: nat,
                        before: seq<AliveState>, after: seq<AliveState>, out: Selection)
    requires home < Ring(|urls|) && |urls| == |before|
    requires RingScans(urls, interval, clock, home, Ring(|urls|), before, after, out)
    ensures |urls| < U32 ==> Scans(urls, interval, clock, home, before, after, out)
  {
    if |urls| < U32 {
      WholeRingScans(urls, interval, clock, home, before, after, out);
    }
  }

  lemma CursorFinds(urls: seq<Url>, before: seq<AliveState>, mid: seq<AliveState>, after: seq<AliveState>, interval: u64,
                    clock: nat -> u64, home: nat, k: nat, at: nat)
    requires Probing(before, mid, interval, clock, home, k, |before|, at) && k < |before| == |urls|
    requires Selectable(mid[at], interval, clock(k)) && after == mid[at := AfterVisit(mid[at], interval, clock(k))]
    ensures FirstProbe(before, interval, clock, home) == k && at == At(home, k, |urls|)
    ensures (at + 1) % |urls| == At(home, k + 1, |urls|)
    ensures Scans(urls, interval, clock, home, before, after, Address(urls, at))
  {
    ProbingFinds(urls, before, mid, after, interval, clock, home, k, |urls|, at);
    WholeRingScans(urls, interval, clock, home, before, after, Address(urls, at));
    PlaceIsAt(home, k, |urls|);
    AtIsModular(home, k, |urls|);
  }

  lemma CursorFindsNone(urls: seq<Url>, before: seq<AliveState>, after: seq<AliveState>, interval: u64,
                        clock: nat -> u64, home: nat, at: nat)
    requires Probing(before, after, interval, clock, home, |before|, |before|, at) && |before| == |urls|
    ensures FirstProbe(before, interval, clock, home) == |urls| && at == home
    ensures Scans(urls, interval, clock, home, before, after, Err(NoHealthyBackends))
  {
    ProbingFindsNone(urls, before, after, interval, clock, home, |urls|, at);
    WholeRingScans(urls, interval, clock, home, before, after, Err(NoHealthyBackends));
    PlaceIsAt(home, |urls|, |urls|);
  }
}
