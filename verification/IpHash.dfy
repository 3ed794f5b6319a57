/** The address hash of the balancer: FNV-1a over the four octets of an IPv4 address. */
module IpHash {
  import opened Numbers
  import opened Wrappers

  type Octet = x: int | 0 <= x < 0x100

  datatype IpAddr = V4(a: Octet, b: Octet, c: Octet, d: Octet) | V6

  const FNV_OFFSET_BASIS: u64 := 0xcbf29ce484222325
  const FNV_PRIME: u64 := 0x100000001b3

  // The multiplicative inverse of the prime modulo 2^64.
  const PRIME_INVERSE: int := 0xce965057aff6957b

  /* ---- exclusive or ---- */

  // Bitwise exclusive or of two natural numbers.
  function Xor(x: nat, y: nat): nat {
    if x == 0 && y == 0 then 0
    else 2 * Xor(x / 2, y / 2) + if x % 2 == y % 2 then 0 else 1
  }

  lemma {:induction false} XorUndoes(x: nat, y: nat)
    ensures Xor(Xor(x, y), y) == x
  {
    if x != 0 || y != 0 {
      XorUndoes(x / 2, y / 2);
      var z := Xor(x, y);
      assert z / 2 == Xor(x / 2, y / 2);
      assert z % 2 == if x % 2 == y % 2 then 0 else 1;
    }
  }

  lemma {:induction false} XorCommutes(x: nat, y: nat)
    ensures Xor(x, y) == Xor(y, x)
  {
    if x != 0 || y != 0 {
      XorCommutes(x / 2, y / 2);
    }
  }

  function Pow2(k: nat): nat {
    if k == 0 then 1 else 2 * Pow2(k - 1)
  }

  lemma {:induction false} XorFits(x: nat, y: nat, k: nat)
    requires x < Pow2(k) && y < Pow2(k)
    ensures Xor(x, y) < Pow2(k)
    decreases k
  {
    if k > 0 {
      XorFits(x / 2, y / 2, k - 1);
    }
  }

  lemma {:induction false} Pow2Adds(a: nat, b: nat)
    ensures Pow2(a + b) == Pow2(a) * Pow2(b)
  {
    if a > 0 {
      Pow2Adds(a - 1, b);
      assert Pow2(a + b) == 2 * (Pow2(a - 1) * Pow2(b)) == (2 * Pow2(a - 1)) * Pow2(b);
    }
  }

  lemma WordsHave64Bits()
    ensures Pow2(64) == U64
  {
    assert Pow2(2) == 4;
    Pow2Adds(2, 2);
    Pow2Adds(4, 4);
    Pow2Adds(8, 8);
    Pow2Adds(16, 16);
    Pow2Adds(32, 32);
  }

  /* ---- the hash ---- */

  function XorOctet(h: u64, octet: Octet): u64 {
    WordsHave64Bits();
    XorFits(h, octet, 64);
    Xor(h, octet)
  }

  // `h.wrapping_mul(FNV_PRIME)`
  function MulPrime(h: u64): u64 {
    (h * FNV_PRIME) % U64
  }

  function Absorb(h: u64, octet: Octet): u64 {
    MulPrime(XorOctet(h, octet))
  }

  function Fnv1aFrom(h: u64, octets: seq<Octet>): u64
    decreases |octets|
  {
    if octets == [] then h else Fnv1aFrom(Absorb(h, octets[0]), octets[1..])
  }

  function Fnv1a(octets: seq<Octet>): u64 {
    Fnv1aFrom(FNV_OFFSET_BASIS, octets)
  }

  function Octets(addr: IpAddr): seq<Octet>
    requires addr.V4?
  {
    [addr.a, addr.b, addr.c, addr.d]
  }

  /* ---- reference values ---- */

  lemma OfNothing()
    ensures Fnv1a([]) == 0xcbf29ce484222325
  {
  }

  // q with k bits below it.
  function Above(q: nat, k: nat): nat {
    if k == 0 then q else 2 * Above(q, k - 1)
  }

  // The bits above the octet are kept.
  lemma {:induction false} XorLow(q: nat, r: nat, y: nat, k: nat)
    requires r < Pow2(k) && y < Pow2(k)
    ensures Xor(Above(q, k) + r, y) == Above(q, k) + Xor(r, y)
    decreases k
  {
    if k == 0 {
      XorZero(q);
    } else {
      XorLow(q, r / 2, y / 2, k - 1);
      XorBit(Above(q, k) + r, y);
      XorBit(r, y);
      assert (Above(q, k) + r) / 2 == Above(q, k - 1) + r / 2;
    }
  }

  lemma {:induction false} XorZero(q: nat)
    ensures Xor(q, 0) == q
  {
    if q > 0 {
      XorZero(q / 2);
    }
  }

  lemma XorBit(x: nat, y: nat)
    ensures Xor(x, y) == 2 * Xor(x / 2, y / 2) + if x % 2 == y % 2 then 0 else 1
  {
  }

  lemma EightAbove(q: nat)
    ensures Above(q, 8) == 0x100 * q && Pow2(8) == 0x100
  {
    assert Above(q, 1) == 2 * q && Above(q, 2) == 2 * Above(q, 1) && Above(q, 3) == 2 * Above(q, 2);
    assert Above(q, 4) == 2 * Above(q, 3) && Above(q, 5) == 2 * Above(q, 4) && Above(q, 6) == 2 * Above(q, 5);
    assert Above(q, 7) == 2 * Above(q, 6) && Above(q, 8) == 2 * Above(q, 7);
  }

  lemma XorOfLow(high: nat, low: Octet, octet: Octet)
    ensures Xor(0x100 * high + low, octet) == 0x100 * high + Xor(low, octet)
  {
    EightAbove(high);
    XorLow(high, low, octet, 8);
  }

  lemma MulPrimeIs(h: u64, k: nat, h': u64)
    requires h * 0x100000001b3 == k * 0x1_0000_0000_0000_0000 + h'
    ensures MulPrime(h) == h'
  {
    ModOfSum(h', k);
  }

  // One step, which changes the low octet and then drops k carries.
  lemma AbsorbIs(h: u64, octet: Octet, high: nat, low: Octet, low': nat, k: nat, h': u64)
    requires h == 0x100 * high + low && Xor(low, octet) == low'
    requires (0x100 * high + low') * 0x100000001b3 == k * 0x1_0000_0000_0000_0000 + h'
    ensures Absorb(h, octet) == h'
  {
    XorOfLow(high, low, octet);
    MulPrimeIs(XorOctet(h, octet), k, h');
  }

  lemma StepIs(h: u64, octet: Octet, rest: seq<Octet>, h': u64)
    requires Absorb(h, octet) == h'
    ensures Fnv1aFrom(h, [octet] + rest) == Fnv1aFrom(h', rest)
  {
    assert ([octet] + rest)[1..] == rest;
  }

  lemma HighBitsOfLetter(high: nat)
    requires high == 0x6
    ensures Xor(0x2, high) == 0x4
  {
    XorBit(0x2, high);
    XorBit(0x1, high / 2);
    XorBit(0x0, high / 4);
  }

  lemma LowOctetOfLetter(letter: Octet)
    requires letter == 0x61
    ensures Xor(0x25, letter) == 0x44
  {
    HighBitsOfLetter(letter / 16);
    XorBit(0x25, letter);
    XorBit(0x12, letter / 2);
    XorBit(0x9, letter / 4);
    XorBit(0x4, letter / 8);
  }

  // The letter a.
  lemma OfOneLetter(letter: Octet)
    requires letter == 0x61
    ensures Fnv1a([letter]) == 0xaf63dc4c8601ec8c
  {
    LowOctetOfLetter(letter);
    AbsorbIs(0xcbf29ce484222325, letter, 0xcbf29ce4842223, 0x25, 0x44, 0xcbf29ce5de, 0xaf63dc4c8601ec8c);
    StepIs(0xcbf29ce484222325, letter, [], 0xaf63dc4c8601ec8c);
    assert [letter] == [letter] + [];
  }

  lemma FourSteps(h: u64, a: Octet, b: Octet, c: Octet, d: Octet, h1: u64, h2: u64, h3: u64, h4: u64)
    requires Absorb(h, a) == h1 && Absorb(h1, b) == h2 && Absorb(h2, c) == h3 && Absorb(h3, d) == h4
    ensures Fnv1aFrom(h, [a, b, c, d]) == h4
  {
    assert [a, b, c, d] == [a] + [b, c, d] && [b, c, d] == [b] + [c, d] && [c, d] == [c] + [d] && [d] == [d] + [];
    StepIs(h, a, [b, c, d], h1);
    StepIs(h1, b, [c, d], h2);
    StepIs(h2, c, [d], h3);
    StepIs(h3, d, [], h4);
  }

  // The octets of 10.0.0.1 before and after each step.
  lemma LowOctets(ten: Octet, zero: Octet, one: Octet)
    requires ten == 10 && zero == 0 && one == 1
    ensures Xor(0x25, ten) == 0x2f && Xor(0xdd, zero) == 0xdd && Xor(0x87, zero) == 0x87 && Xor(0x65, one) == 0x64
  {
    XorBit(0x25, ten);
    XorBit(0x12, ten / 2);
    XorBit(0x9, ten / 4);
    XorBit(0x4, ten / 8);
    XorBit(0x65, one);
    XorZero(0x2);
    XorZero(0x32);
    XorZero(0xdd);
    XorZero(0x87);
  }

  lemma OfOneAddress(addr: IpAddr)
    requires addr == V4(10, 0, 0, 1)
    ensures Fnv1a(Octets(addr)) == 0x8cf02dd2fbe76fec
  {
    LowOctets(addr.a, addr.b, addr.d);
    AbsorbIs(0xcbf29ce484222325, addr.a, 0xcbf29ce4842223, 0x25, 0x2f, 0xcbf29ce5de, 0xaf63c74c8601c8dd);
    AbsorbIs(0xaf63c74c8601c8dd, addr.b, 0xaf63c74c8601c8, 0xdd, 0xdd, 0xaf63c74db0, 0x08548407b5084f87);
    AbsorbIs(0x08548407b5084f87, addr.c, 0x8548407b5084f, 0x87, 0x87, 0x8548407c3, 0x2febe0189d1f2265);
    AbsorbIs(0x2febe0189d1f2265, addr.d, 0x2febe0189d1f22, 0x65, 0x64, 0x2febe018ee, 0x8cf02dd2fbe76fec);
    FourSteps(0xcbf29ce484222325, addr.a, addr.b, addr.c, addr.d,
              0xaf63c74c8601c8dd, 0x08548407b5084f87, 0x2febe0189d1f2265, 0x8cf02dd2fbe76fec);
  }

  const CARRY: int := (FNV_PRIME * PRIME_INVERSE - 1) / U64

  // Multiplication by the prime can be undone modulo 2^64.
  lemma MulPrimeInvertible(h: u64)
    ensures (MulPrime(h) * PRIME_INVERSE) % U64 == h
  {
    var q := (h * FNV_PRIME) / U64;
    var m := MulPrime(h);
    assert FNV_PRIME * PRIME_INVERSE == 1 + CARRY * U64;
    assert h * FNV_PRIME == q * U64 + m;
    assert m * PRIME_INVERSE == h + (h * CARRY - q * PRIME_INVERSE) * U64;
    ModOfSum(h, h * CARRY - q * PRIME_INVERSE);
  }

  lemma ModOfSum(h: u64, k: int)
    ensures (h + k * U64) % U64 == h
  {
  }

  // A step of the hash loses nothing: equal results from equal octets mean equal
  // inputs, and equal results from equal inputs mean equal octets.
  lemma AbsorbInjective(h1: u64, o1: Octet, h2: u64, o2: Octet)
    requires Absorb(h1, o1) == Absorb(h2, o2)
    ensures o1 == o2 ==> h1 == h2
    ensures h1 == h2 ==> o1 == o2
  {
    MulPrimeInvertible(XorOctet(h1, o1));
    MulPrimeInvertible(XorOctet(h2, o2));
    assert Xor(h1, o1) == Xor(h2, o2);
    XorUndoes(h1, o1);
    XorUndoes(h2, o2);
    XorCommutes(h1, o1);
    XorCommutes(h2, o2);
    XorUndoes(o1, h1);
    XorUndoes(o2, h2);
  }

  lemma {:induction false} Fnv1aFromInjective(h1: u64, h2: u64, octets: seq<Octet>)
    requires Fnv1aFrom(h1, octets) == Fnv1aFrom(h2, octets)
    ensures h1 == h2
    decreases |octets|
  {
    if octets != [] {
      Fnv1aFromInjective(Absorb(h1, octets[0]), Absorb(h2, octets[0]), octets[1..]);
      AbsorbInjective(h1, octets[0], h2, octets[0]);
    }
  }

  // Inputs of any length that differ in exactly one octet have different hashes.
  lemma {:induction false} OneOctetChangesHash(h: u64, xs: seq<Octet>, ys: seq<Octet>, i: nat)
    requires i < |xs| == |ys| && xs[i] != ys[i]
    requires forall j | 0 <= j < |xs| && j != i :: xs[j] == ys[j]
    ensures Fnv1aFrom(h, xs) != Fnv1aFrom(h, ys)
    decreases |xs|
  {
    if i == 0 {
      assert xs[1..] == ys[1..];
      if Fnv1aFrom(h, xs) == Fnv1aFrom(h, ys) {
        Fnv1aFromInjective(Absorb(h, xs[0]), Absorb(h, ys[0]), xs[1..]);
        AbsorbInjective(h, xs[0], h, ys[0]);
      }
    } else {
      OneOctetChangesHash(Absorb(h, xs[0]), xs[1..], ys[1..], i - 1);
    }
  }

  // Reduction to one of `max` backends, and the panic on `% 0`.
  method GenerateNumberFromOctet(octets: seq<Octet>, max: nat) returns (number: Option<nat>)
    requires max < U32
    ensures max == 0 ==> number == None
    ensures max > 0 ==> number == Some(Fnv1a(octets) % max) && number.value < max
  {
    var hash: u64 := FNV_OFFSET_BASIS;
    for i := 0 to |octets|
      invariant Fnv1a(octets) == Fnv1aFrom(hash, octets[i..])
    {
      assert octets[i..][1..] == octets[i + 1..];
      hash := XorOctet(hash, octets[i]);
      hash := MulPrime(hash);
    }
    if max == 0 {
      return None;
    }
    return Some(hash % max);
  }
}
