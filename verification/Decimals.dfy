/** Decimal numbers as text: printing, and parsing as the standard library's unsigned types do. */
module Decimals {
  import opened Wrappers

  predicate IsDigit(c: char) {
    '0' <= c <= '9'
  }

  function DigitValue(c: char): nat
    requires IsDigit(c)
  {
    c as int - '0' as int
  }

  function DigitChar(d: nat): (c: char)
    requires d < 10
    ensures IsDigit(c) && DigitValue(c) == d
  {
    "0123456789"[d]
  }

  function ToString(n: nat): (s: string)
    ensures s != [] && forall c | c in s :: IsDigit(c)
  {
    if n < 10 then [DigitChar(n)] else ToString(n / 10) + [DigitChar(n % 10)]
  }

  // The value of a string of digits.
  function Value(digits: string): nat
    requires forall c | c in digits :: IsDigit(c)
  {
    if digits == [] then 0
    else Value(digits[..|digits| - 1]) * 10 + DigitValue(digits[|digits| - 1])
  }

  predicate AllDigits(s: string) {
    s != [] && forall c | c in s :: IsDigit(c)
  }

  // An optional `+`, digits, and a value below the limit of the type.
  function ParseUnsigned(s: string, limit: nat): (n: Option<nat>)
    ensures n.Some? ==> n.value < limit
  {
    var digits := if s != [] && s[0] == '+' then s[1..] else s;
    if AllDigits(digits) && Value(digits) < limit then Some(Value(digits)) else None
  }

  // Digits are read from left to right, in base ten.
  lemma DigitsAreDecimal(digits: string, k: nat)
    requires k < 10 && forall c | c in digits :: IsDigit(c)
    ensures IsDigit("0123456789"[k]) && Value("") == 0
    ensures Value(digits + ["0123456789"[k]]) == 10 * Value(digits) + k
  {
    var longer := digits + ["0123456789"[k]];
    assert longer[..|longer| - 1] == digits;
  }

  // What is read as a number: an optional sign and digits.
  lemma NumbersAreDigits(s: string, limit: nat)
    ensures ParseUnsigned(s, limit).Some? ==>
              s != "" && s != "+" && s[0] in "+0123456789" && forall i | 0 < i < |s| :: s[i] in "0123456789"
    ensures (s != "" && forall i | 0 <= i < |s| :: s[i] in "0123456789") ==>
              ParseUnsigned(s, limit) == ParseUnsigned("+" + s, limit) == if Value(s) < limit then Some(Value(s)) else None
  {
    assert ("+" + s)[1..] == s;
    if s != "" && forall i | 0 <= i < |s| :: s[i] in "0123456789" {
      assert AllDigits(s) && s[0] != '+';
    }
    if ParseUnsigned(s, limit).Some? {
      var digits := if s != [] && s[0] == '+' then s[1..] else s;
      assert digits[0] in digits;
      forall i | 0 < i < |s| ensures s[i] in "0123456789" {
        assert s[i] in digits;
        DigitsAreTen(s[i]);
      }
      DigitsAreTen(digits[0]);
    }
  }

  lemma DigitsAreTen(c: char)
    ensures IsDigit(c) <==> c in "0123456789"
  {
    if IsDigit(c) {
      assert c == "0123456789"[c as int - '0' as int];
    }
  }

  lemma {:induction false} ValueOfToString(n: nat)
    ensures Value(ToString(n)) == n
  {
    if n >= 10 {
      ValueOfToString(n / 10);
      var s := ToString(n);
      assert s[..|s| - 1] == ToString(n / 10);
    }
  }

  // Printing and parsing back gives the number, for every number of the type.
  lemma ParseOfToString(n: nat, limit: nat)
    requires n < limit
    ensures ParseUnsigned(ToString(n), limit) == Some(n)
  {
    ValueOfToString(n);
    var s := ToString(n);
    assert s[0] in s;
  }

  function Pow10(k: nat): nat {
    if k == 0 then 1 else 10 * Pow10(k - 1)
  }

  lemma {:induction false} ToStringLength(n: nat, k: nat)
    requires k > 0 && n < Pow10(k)
    ensures |ToString(n)| <= k
    decreases k
  {
    if n >= 10 {
      assert k > 1;
      ToStringLength(n / 10, k - 1);
    }
  }

  /* ---- splitting ---- */

  function Split(s: string, c: char): (parts: seq<string>)
    ensures parts != []
  {
    if s == [] then [""]
    else
      var rest := Split(s[1..], c);
      if s[0] == c then [""] + rest else [[s[0]] + rest[0]] + rest[1..]
  }

  lemma {:induction false} SplitNone(s: string, c: char)
    requires c !in s
    ensures Split(s, c) == [s]
  {
    if s != [] {
      SplitNone(s[1..], c);
      assert [s[0]] + s[1..] == s;
    }
  }

  lemma {:induction false} SplitOnce(a: string, c: char, b: string)
    requires c !in a && c !in b
    ensures Split(a + [c] + b, c) == [a, b]
  {
    var s := a + [c] + b;
    if a == [] {
      assert s[1..] == b;
      SplitNone(b, c);
    } else {
      assert s[1..] == a[1..] + [c] + b;
      SplitOnce(a[1..], c, b);
      assert [a[0]] + a[1..] == a;
    }
  }

  // The parts with the separator between them.
  function Joined(parts: seq<string>, c: char): string {
    if parts == [] then ""
    else if |parts| == 1 then parts[0]
    else parts[0] + [c] + Joined(parts[1..], c)
  }

  lemma {:induction false} JoinOfSplit(s: string, c: char)
    ensures Joined(Split(s, c), c) == s
    ensures forall i | 0 <= i < |Split(s, c)| :: c !in Split(s, c)[i]
  {
    if s != [] {
      var rest := Split(s[1..], c);
      JoinOfSplit(s[1..], c);
      assert s == [s[0]] + s[1..];
      if s[0] == c {
        assert Split(s, c)[1..] == rest;
      } else {
        assert Split(s, c)[1..] == rest[1..];
      }
    }
  }

  lemma {:induction false} SplitOfConcat(a: string, c: char, b: string)
    ensures Split(a + [c] + b, c) == Split(a, c) + Split(b, c)
  {
    var s := a + [c] + b;
    if a == [] {
      assert s[1..] == b;
    } else {
      assert s[1..] == a[1..] + [c] + b;
      SplitOfConcat(a[1..], c, b);
    }
  }

  lemma {:induction false} SplitOfJoin(parts: seq<string>, c: char)
    requires parts != [] && forall i | 0 <= i < |parts| :: c !in parts[i]
    ensures Split(Joined(parts, c), c) == parts
    decreases |parts|
  {
    SplitNone(parts[0], c);
    if |parts| > 1 {
      SplitOfJoin(parts[1..], c);
      SplitOfConcat(parts[0], c, Joined(parts[1..], c));
      assert parts == [parts[0]] + parts[1..];
    }
  }

  lemma {:induction false} FirstPartEndsAtSeparator(s: string, c: char)
    ensures var part := Split(s, c)[0]; part <= s && (|part| < |s| ==> s[|part|] == c)
  {
    if s != "" {
      FirstPartEndsAtSeparator(s[1..], c);
    }
  }

  // There is one part more than there are separators.
  lemma {:induction false} SplitCounts(s: string, c: char)
    ensures |Split(s, c)| == 1 + multiset(s)[c]
  {
    if s != [] {
      SplitCounts(s[1..], c);
      assert s == [s[0]] + s[1..];
      assert multiset(s) == multiset{s[0]} + multiset(s[1..]);
    }
  }
}
