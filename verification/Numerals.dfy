/** Positional numerals: the number a digit sequence denotes (most significant digit first),
    and the shortest digit sequence denoting a number. These are the reference definitions
    that the radix conversions of base58.c and format.c are proved against. */
module Numerals {

  function Pow(base: nat, n: nat): nat {
    if n == 0 then 1 else base * Pow(base, n - 1)
  }

  /** The number denoted by s in the given base. */
  function Value(base: nat, s: seq<nat>): nat {
    if s == [] then 0 else Value(base, s[..|s| - 1]) * base + s[|s| - 1]
  }

  /** The digits of n without leading zeros; nothing for 0. */
  function Digits(base: nat, n: nat): (s: seq<nat>)
    requires base >= 2
    ensures IsNumeral(base, s)
    ensures s != [] ==> s[0] != 0
    ensures s == [] <==> n == 0
  {
    if n == 0 then [] else
      DivShrinks(base, n);
      Digits(base, n / base) + [n % base]
  }

  ghost predicate IsNumeral(base: nat, s: seq<nat>) {
    forall i :: 0 <= i < |s| ==> s[i] < base
  }

  /** The number of leading zeros of s. */
  function LeadingZeros(s: seq<nat>): (k: nat)
    ensures k <= |s|
    ensures forall i :: 0 <= i < k ==> s[i] == 0
    ensures k < |s| ==> s[k] != 0
  {
    if s == [] || s[0] != 0 then 0 else 1 + LeadingZeros(s[1..])
  }

  function Zeros(k: nat): (s: seq<nat>)
    ensures |s| == k && forall i :: 0 <= i < k ==> s[i] == 0
  {
    seq(k, _ => 0)
  }

  lemma MulMonotone(a: int, b: int, c: nat)
    ensures a <= b ==> a * c <= b * c
  {
  }

  lemma MulAssociative(a: int, b: int, c: int)
    ensures a * (b * c) == (a * b) * c
  {
  }

  lemma DivShrinks(base: nat, n: nat)
    requires base >= 2 && n > 0
    ensures n / base < n && n == (n / base) * base + n % base
  {
    assert n == (n / base) * base + n % base;
    MulMonotone(n, n / base, base);
    MulMonotone(2, base, n);
  }

  // One step of the definitions, for proofs that hide them.
  lemma PowStep(base: nat, n: nat)
    ensures Pow(base, 0) == 1 && Pow(base, n + 1) == base * Pow(base, n)
  {
  }

  lemma EmptyValue(base: nat)
    ensures Value(base, []) == 0 && Pow(base, 0) == 1
  {
  }

  lemma ValueSnoc(base: nat, s: seq<nat>, d: nat)
    ensures Value(base, s + [d]) == Value(base, s) * base + d
  {
    assert (s + [d])[..|s|] == s;
  }

  lemma {:induction false} PowAdd(base: nat, m: nat, n: nat)
    ensures Pow(base, m + n) == Pow(base, m) * Pow(base, n)
  {
    hide Pow;
    PowStep(base, n);
    if m > 0 {
      PowAdd(base, m - 1, n);
      PowStep(base, m - 1 + n);
      PowStep(base, m - 1);
      MulAssociative(base, Pow(base, m - 1), Pow(base, n));
    }
  }

  lemma {:induction false} PowPositive(base: nat, n: nat)
    requires base > 0
    ensures Pow(base, n) > 0
  {
    if n > 0 { PowPositive(base, n - 1); }
  }

  lemma {:induction false} PowMonotone(base: nat, m: nat, n: nat)
    requires base > 0 && m <= n
    ensures Pow(base, m) <= Pow(base, n)
  {
    hide Pow;
    if m < n {
      PowMonotone(base, m, n - 1);
      PowStep(base, n - 1);
      MulMonotone(1, base, Pow(base, n - 1));
    }
  }

  /** Larger powers have larger exponents. */
  lemma PowLess(base: nat, m: nat, n: nat)
    requires base > 0 && Pow(base, m) < Pow(base, n)
    ensures m < n
  {
    if n <= m { PowMonotone(base, n, m); }
  }

  lemma {:induction false} ValueConcat(base: nat, s: seq<nat>, t: seq<nat>)
    ensures Value(base, s + t) == Value(base, s) * Pow(base, |t|) + Value(base, t)
  {
    hide Value, Pow;
    EmptyValue(base);
    if t == [] {
      assert s + t == s;
    } else {
      var t', d := t[..|t| - 1], t[|t| - 1];
      assert s + t == (s + t') + [d] && t == t' + [d];
      ValueSnoc(base, s + t', d);
      ValueSnoc(base, t', d);
      ValueConcat(base, s, t');
      PowStep(base, |t'|);
      Shift(Value(base, s), Pow(base, |t'|), Value(base, t'), base);
    }
  }

  lemma Shift(v: nat, p: nat, w: nat, base: nat)
    ensures (v * p + w) * base == v * (base * p) + w * base
  {
  }

  lemma {:induction false} ValueBound(base: nat, s: seq<nat>)
    requires IsNumeral(base, s)
    ensures Value(base, s) < Pow(base, |s|)
  {
    hide Value, Pow;
    EmptyValue(base);
    if s != [] {
      var s', d := s[..|s| - 1], s[|s| - 1];
      assert s == s' + [d];
      ValueBound(base, s');
      ValueSnoc(base, s', d);
      PowStep(base, |s'|);
      BoundStep(Value(base, s'), Pow(base, |s'|), base, d);
    }
  }

  lemma BoundStep(v: nat, p: nat, base: nat, d: nat)
    requires v < p && d < base
    ensures v * base + d < base * p
  {
    MulMonotone(v + 1, p, base);
  }

  lemma {:induction false} ValueZeros(base: nat, s: seq<nat>)
    requires forall i :: 0 <= i < |s| ==> s[i] == 0
    ensures Value(base, s) == 0
  {
    if s != [] { ValueZeros(base, s[..|s| - 1]); }
  }

  /** Leading zeros do not change the number. */
  lemma ValueSkipZeros(base: nat, s: seq<nat>, k: nat)
    requires k <= |s| && forall i :: 0 <= i < k ==> s[i] == 0
    ensures Value(base, s) == Value(base, s[k..])
  {
    hide Value, Pow;
    assert s == s[..k] + s[k..];
    ValueConcat(base, s[..k], s[k..]);
    ValueZeros(base, s[..k]);
  }

  lemma ValueCons(base: nat, d: nat, s: seq<nat>)
    ensures Value(base, [d] + s) == d * Pow(base, |s|) + Value(base, s)
  {
    hide Value, Pow;
    ValueConcat(base, [d], s);
    EmptyValue(base);
    ValueSnoc(base, [], d);
    assert [] + [d] == [d];
  }

  /** A nonzero leading digit pins the length from below. */
  lemma ValueLowerBound(base: nat, s: seq<nat>)
    requires base > 0 && s != [] && s[0] != 0
    ensures Pow(base, |s| - 1) <= s[0] * Pow(base, |s| - 1) <= Value(base, s)
  {
    hide Value, Pow;
    assert s == [s[0]] + s[1..];
    ValueCons(base, s[0], s[1..]);
    PowPositive(base, |s| - 1);
    MulMonotone(1, s[0], Pow(base, |s| - 1));
  }

  /** Digits inverts Value: the number is recovered. */
  lemma {:induction false} ValueOfDigits(base: nat, n: nat)
    requires base >= 2
    ensures Value(base, Digits(base, n)) == n
  {
    hide Value;
    if n == 0 {
      EmptyValue(base);
    } else {
      DivShrinks(base, n);
      ValueOfDigits(base, n / base);
      ValueSnoc(base, Digits(base, n / base), n % base);
    }
  }

  lemma DigitsSnoc(base: nat, q: nat, r: nat)
    requires base >= 2 && r < base && q * base + r > 0
    ensures Digits(base, q * base + r) == Digits(base, q) + [r]
  {
    DivModUnique(base, q, r);
  }

  /** Value inverts Digits: a numeral without leading zeros is the numeral of its number. */
  lemma {:induction false} DigitsOfValue(base: nat, s: seq<nat>)
    requires base >= 2 && IsNumeral(base, s) && (s != [] ==> s[0] != 0)
    ensures Digits(base, Value(base, s)) == s
  {
    hide Value, Digits;
    EmptyValue(base);
    if s != [] {
      var s', d := s[..|s| - 1], s[|s| - 1];
      assert s == s' + [d];
      DigitsOfValue(base, s');
      ValueLowerBound(base, s);
      PowPositive(base, |s| - 1);
      ValueSnoc(base, s', d);
      DigitsSnoc(base, Value(base, s'), d);
    }
  }

  lemma DivModUnique(base: nat, q: nat, r: nat)
    requires r < base
    ensures (q * base + r) / base == q && (q * base + r) % base == r
  {
    var n := q * base + r;
    var q', r' := n / base, n % base;
    assert n == q' * base + r';
    MulMonotone(q' + 1, q, base);
    MulMonotone(q + 1, q', base);
  }

  lemma SplitZeros(s: seq<nat>)
    ensures s == Zeros(LeadingZeros(s)) + s[LeadingZeros(s)..]
  {
  }

  /** A numeral, its leading zeros kept and the rest replaced by the numeral of its number,
      is unchanged. */
  lemma Normalise(base: nat, s: seq<nat>)
    requires base >= 2 && IsNumeral(base, s)
    ensures Zeros(LeadingZeros(s)) + Digits(base, Value(base, s)) == s
  {
    hide Value, Digits, LeadingZeros;
    var k := LeadingZeros(s);
    SplitZeros(s);
    ValueSkipZeros(base, s, k);
    DigitsOfValue(base, s[k..]);
  }

  /** k zeros and then no zero: exactly k zeros lead. */
  lemma {:induction false} LeadingZerosUnique(s: seq<nat>, k: nat)
    requires k <= |s| && (forall i :: 0 <= i < k ==> s[i] == 0)
    requires k < |s| ==> s[k] != 0
    ensures LeadingZeros(s) == k
  {
    if k > 0 { LeadingZerosUnique(s[1..], k - 1); }
  }

  /** The shortest numeral is no longer than any power bounding the number. */
  lemma DigitsLength(base: nat, n: nat, m: nat)
    requires base >= 2 && n < Pow(base, m)
    ensures |Digits(base, n)| <= m
  {
    hide Value, Digits;
    var s := Digits(base, n);
    if s != [] {
      ValueOfDigits(base, n);
      ValueLowerBound(base, s);
      PowLess(base, |s| - 1, m);
    }
  }

  lemma TwoDigits(base: nat, n: nat)
    requires base >= 2
    ensures |Digits(base, n)| >= 2 <==> n >= base
  {
    if n > 0 { DivShrinks(base, n); }
  }
}
