/** Decimal text for the screens (src/common/format.c). */
module Format {
  import opened Bytes
  import opened Numerals
  import opened Splices

  function DigitChar(d: nat): (c: char)
    requires d < 10
    ensures '0' <= c <= '9' && c as int == '0' as int + d
  {
    (d + '0' as int) as char
  }

  function DigitText(digits: seq<nat>): (text: string)
    requires IsNumeral(10, digits)
    ensures |text| == |digits|
    ensures forall i :: 0 <= i < |digits| ==> text[i] == DigitChar(digits[i])
  {
    seq(|digits|, i requires 0 <= i < |digits| => DigitChar(digits[i]))
  }

  ghost predicate IsDigitText(text: string) {
    forall i :: 0 <= i < |text| ==> '0' <= text[i] <= '9'
  }

  /** The digits a text of digits is made of. */
  ghost function DigitsIn(text: string): (digits: seq<nat>)
    requires IsDigitText(text)
    ensures |digits| == |text| && IsNumeral(10, digits)
  {
    seq(|text|, i requires 0 <= i < |text| => text[i] as int - '0' as int)
  }

  /** The decimal digits of n; 0 has the one digit 0. */
  function DecimalDigits(n: nat): (digits: seq<nat>)
    ensures IsNumeral(10, digits) && digits != []
  {
    if n == 0 then [0] else Digits(10, n)
  }

  function DecimalText(n: nat): (text: string)
    ensures text != [] && IsDigitText(text)
  {
    DigitText(DecimalDigits(n))
  }

  function IntText(v: int): string {
    if v < 0 then "-" + DecimalText(-v) else DecimalText(v)
  }

  /** The text of value / 10^decimals: at least one digit on either side of the point. */
  ghost function FixedText(value: nat, decimals: nat): string {
    var text := DecimalText(value);
    if |text| <= decimals then "0." + Fill(decimals - |text|, '0') + text
    else text[..|text| - decimals] + "." + (if decimals == 0 then "0" else text[|text| - decimals..])
  }

  /** The shortest destination format_fpu64 accepts. */
  ghost function FixedNeeds(value: nat, decimals: nat): nat {
    var digits := |DecimalText(value)|;
    if digits <= decimals then 3 + decimals - digits else digits + 2 + decimals
  }

  // ---------------------------------------------------------------- format_u64

  lemma DecimalStep(n: nat)
    requires n > 9
    ensures DecimalDigits(n) == DecimalDigits(n / 10) + [n % 10]
  {
    assert n / 10 > 0;
  }

  lemma DecimalLength(n: u64)
    ensures |DecimalText(n)| <= 20
  {
    assert Pow(10, 10) == 10000000000;
    PowAdd(10, 10, 10);
    DigitsLength(10, n, 20);
  }

  /** The characters of the digits, last digit first. */
  ghost function Backwards(digits: seq<nat>): (text: string)
    requires IsNumeral(10, digits)
    ensures |text| == |digits|
    ensures forall k :: 0 <= k < |digits| ==> text[k] == DigitChar(digits[|digits| - 1 - k])
  {
    seq(|digits|, k requires 0 <= k < |digits| => DigitChar(digits[|digits| - 1 - k]))
  }

  lemma BackwardsStep(d: nat, digits: seq<nat>)
    requires d < 10 && IsNumeral(10, digits)
    ensures Backwards([d] + digits) == Backwards(digits) + [DigitChar(d)]
  {
  }

  /** The digit loop of format_u64: all digits but the first, last to first; false when out of room. */
  method PutLowDigits(output: array<char>, room: nat, input: u64) returns (ok: bool, i: nat, first: nat)
    requires room < output.Length
    modifies output
    ensures ok <==> room >= |DecimalDigits(input)| || |DecimalDigits(input)| == 1
    ensures ok ==> first <= 9 && i + 1 == |DecimalDigits(input)| && DecimalDigits(input)[0] == first
    ensures ok ==> output[..] == Splice(old(output[..]), 0, Backwards(DecimalDigits(input)[1..]))
  {
    hide Splice, DecimalDigits, Backwards;
    ghost var start, digits := output[..], DecimalDigits(input);
    ghost var low: seq<nat> := [];
    first, i := input, 0;
    SpliceNothing(start, 0);
    assert Backwards(low) == [];
    while first > 9
      invariant |low| == i && (i == 0 || i + 1 <= room) && IsNumeral(10, low)
      invariant digits == DecimalDigits(first) + low
      invariant output[..] == Splice(start, 0, Backwards(low))
      decreases first
    {
      DecimalStep(first);
      BackwardsStep(first % 10, low);
      SpliceStep(start, 0, Backwards(low), DigitChar(first % 10));
      ghost var before := output[..];
      output[i] := DigitChar(first % 10);
      assert output[..] == before[i := DigitChar(first % 10)];
      low := [first % 10] + low;
      first := first / 10;
      i := i + 1;
      assert digits == DecimalDigits(first) + low;
      if i + 1 > room {
        return false, i, first;
      }
    }
    OneDigit(first);
    assert digits[1..] == low;
    return true, i, first;
  }

  /** Asked for one character, it writes a digit and the terminator behind it all the same. */
  method FormatU64(output: array<char>, outLen: nat, input: u64) returns (ok: bool)
    requires outLen <= output.Length && (outLen == 1 ==> output.Length > 1)
    modifies output
    ensures ok <==> outLen > |DecimalText(input)| || (outLen == 1 && |DecimalText(input)| == 1)
    ensures ok ==> output[..] == Splice(old(output[..]), 0, DecimalText(input) + "\0")
  {
    hide Splice, DecimalDigits, Backwards;
    ghost var start, digits := output[..], DecimalDigits(input);
    if outLen == 0 {
      return false;
    }
    var i, first;
    ok, i, first := PutLowDigits(output, outLen - 1, input);
    if ok {
      FinishDigits(output, i, first, start, digits);
    }
  }

  /** The first digit and the terminator; then the text is turned round. */
  method FinishDigits(output: array<char>, i: nat, first: nat, ghost start: string, ghost digits: seq<nat>)
    requires IsNumeral(10, digits) && i + 1 == |digits| < output.Length == |start| && first == digits[0]
    requires output[..] == Splice(start, 0, Backwards(digits[1..]))
    modifies output
    ensures output[..] == Splice(start, 0, DigitText(digits) + "\0")
  {
    hide Splice, Backwards;
    ghost var low := Backwards(digits[1..]);
    ghost var before := output[..];
    output[i] := DigitChar(first);
    output[i + 1] := '\0';
    assert output[..] == before[i := DigitChar(first)][i + 1 := '\0'];
    assert digits == [first] + digits[1..];
    BackwardsStep(first, digits[1..]);
    SpliceStep(start, 0, low, DigitChar(first));
    SpliceStep(start, 0, low + [DigitChar(first)], '\0');
    assert low + [DigitChar(first)] + ['\0'] == Backwards(digits) + "\0";
    SpliceReads(start, 0, Backwards(digits) + "\0");
    assert output[0..i + 2] == Backwards(digits) + "\0";
    Reverse(output, i, Backwards(digits));
    SpliceReplace(start, Backwards(digits), Mirror(Backwards(digits)), "\0", output[..]);
    Turned(digits);
  }

  lemma Turned(digits: seq<nat>)
    requires IsNumeral(10, digits)
    ensures Mirror(Backwards(digits)) == DigitText(digits)
  {
  }

  ghost function Mirror(text: string): (r: string)
    ensures |r| == |text| && forall k :: 0 <= k < |text| ==> r[k] == text[|text| - 1 - k]
  {
    seq(|text|, k requires 0 <= k < |text| => text[|text| - 1 - k])
  }

  lemma OneDigit(n: nat)
    requires n <= 9
    ensures DecimalDigits(n) == [n]
  {
    if n > 0 { assert Digits(10, n) == Digits(10, 0) + [n]; }
  }

  /** The swap loop that puts the text written so far in order. */
  method Reverse(output: array<char>, last: nat, ghost text: string)
    requires last + 1 == |text| <= output.Length && output[..last + 1] == text
    modifies output
    ensures output[..last + 1] == Mirror(text) && output[last + 1..] == old(output[..])[last + 1..]
  {
    var i, j := last, 0;
    ghost var before := output[..];
    while j < i
      invariant 0 <= j && i + j == last && j <= i + 1
      invariant forall k :: 0 <= k < j ==> output[k] == before[last - k] && output[last - k] == before[k]
      invariant forall k :: j <= k <= i ==> output[k] == before[k]
      invariant output[last + 1..] == before[last + 1..]
    {
      output[j], output[i] := output[i], output[j];
      i := i - 1;
      j := j + 1;
    }
    assert forall k :: 0 <= k <= last ==> output[k] == before[last - k] == text[last - k];
  }

  // ---------------------------------------------------------------- format_fpu64

  /** What n characters hold of a text: its start, or all of it and NULs. */
  ghost function Padded(text: string, n: nat): (r: string)
    ensures |r| == n
  {
    if |text| >= n then text[..n] else text + Fill(n - |text|, '\0')
  }

  ghost predicate NoNul(text: string) {
    forall i :: 0 <= i < |text| ==> text[i] != '\0'
  }

  method StrLen(s: array<char>, ghost text: string) returns (n: nat)
    requires |text| < s.Length && NoNul(text) && s[..|text|] == text && s[|text|] == '\0'
    ensures n == |text|
  {
    n := 0;
    assert forall k :: 0 <= k < |text| ==> s[k] == text[k];
    while s[n] != '\0'
      invariant n <= |text|
      decreases |text| - n
    {
      n := n + 1;
    }
  }

  /** The copying part of strncpy: up to n characters, or up to the NUL. */
  method CopyText(dst: array<char>, at: nat, src: array<char>, from: nat, n: nat, ghost text: string) returns (i: nat)
    requires dst != src && at + n <= dst.Length && from + |text| <= src.Length
    requires NoNul(text) && src[from..from + |text|] == text
    requires |text| >= n || (from + |text| < src.Length && src[from + |text|] == '\0')
    modifies dst
    ensures i == (if |text| < n then |text| else n)
    ensures dst[..] == Splice(old(dst[..]), at, text[..i])
  {
    hide Splice;
    ghost var start := dst[..];
    SpliceNothing(start, at);
    i := 0;
    while i < n && src[from + i] != '\0'
      invariant i <= n && i <= |text|
      invariant src[from..from + |text|] == text && (i < |text| ==> src[from + i] == text[i])
      invariant |text| >= n || src[from + |text|] == '\0'
      invariant dst[..] == Splice(start, at, text[..i])
    {
      SpliceStep(start, at, text[..i], text[i]);
      assert text[..i] + [text[i]] == text[..i + 1];
      ghost var before := dst[..];
      dst[at + i] := src[from + i];
      assert dst[..] == before[at + i := text[i]];
      i := i + 1;
    }
  }

  method StrNCpy(dst: array<char>, at: nat, src: array<char>, from: nat, n: nat, ghost text: string)
    requires dst != src && at + n <= dst.Length && from + |text| <= src.Length
    requires NoNul(text) && src[from..from + |text|] == text
    requires |text| >= n || (from + |text| < src.Length && src[from + |text|] == '\0')
    modifies dst
    ensures dst[..] == Splice(old(dst[..]), at, Padded(text, n))
  {
    hide Splice, Padded;
    ghost var start := dst[..];
    var i := CopyText(dst, at, src, from, n, text);
    PaddedPrefix(text, i);
    while i < n
      invariant i <= n && (n <= |text| ==> i == n) && (|text| <= n ==> |text| <= i)
      invariant dst[..] == Splice(start, at, Padded(text, i))
    {
      SpliceStep(start, at, Padded(text, i), '\0');
      PaddedStep(text, i);
      ghost var before := dst[..];
      dst[at + i] := '\0';
      assert dst[..] == before[at + i := '\0'];
      i := i + 1;
    }
  }

  lemma PaddedPrefix(text: string, i: nat)
    requires i <= |text|
    ensures Padded(text, i) == text[..i]
  {
  }

  lemma PaddedStep(text: string, i: nat)
    requires i >= |text|
    ensures Padded(text, i) + "\0" == Padded(text, i + 1)
  {
  }

  /** What is written: a fraction as strncpy does, any other text without a terminator. */
  ghost function FixedWritten(value: nat, decimals: nat, n: nat): string {
    if |DecimalText(value)| <= decimals then Padded(FixedText(value, decimals), n) else FixedText(value, decimals)
  }

  lemma WrittenCases(value: nat, decimals: nat, n: nat)
    ensures var text := DecimalText(value); var point := |text| - decimals;
            && (point <= 0 ==>
                  FixedNeeds(value, decimals) == 3 - point
                  && FixedWritten(value, decimals, n) == Padded("0." + Fill(-point, '0') + text, n)
                  && |FixedWritten(value, decimals, n)| == n)
            && (point > 0 ==>
                  FixedNeeds(value, decimals) == |text| + 2 + decimals
                  && FixedWritten(value, decimals, n)
                     == text[..point] + "." + (if decimals == 0 then "0" else text[point..])
                  && |FixedWritten(value, decimals, n)| <= FixedNeeds(value, decimals))
  {
    hide DecimalText, Padded;
  }

  method FormatFpu64(dst: array<char>, dstLen: nat, value: u64, decimals: byte) returns (ok: bool)
    requires dstLen <= dst.Length
    modifies dst
    ensures ok <==> dstLen >= FixedNeeds(value, decimals)
    ensures ok ==> |FixedWritten(value, decimals, dstLen)| <= dstLen
    ensures dst[..] == if ok then Splice(old(dst[..]), 0, FixedWritten(value, decimals, dstLen)) else old(dst[..])
  {
    hide DecimalText, Splice, Padded, FixedText, FixedNeeds, FixedWritten;
    ghost var text := DecimalText(value);
    WrittenCases(value, decimals, dstLen);
    var buffer := new char[21](_ => '\0');
    DecimalLength(value);
    TextHasNoNul(value);
    assert buffer[..] == Fill(21, '\0');
    var formatted := FormatU64(buffer, buffer.Length, value);
    assert formatted;
    SpliceReads(Fill(21, '\0'), 0, text + "\0");
    assert buffer[..|text| + 1] == text + "\0";
    assert buffer[..|text|] == text && buffer[|text|] == '\0';
    var digits := StrLen(buffer, text);

    if digits <= decimals {
      if dstLen <= 2 + decimals - digits {
        return false;
      }
      PutFraction(dst, dstLen, buffer, digits, decimals, text);
    } else {
      if dstLen <= digits + 1 + decimals {
        return false;
      }
      PutPoint(dst, dstLen, buffer, digits, decimals, text);
    }
    return true;
  }

  /** "0.", zeros, and all the digits. */
  method PutFraction(dst: array<char>, dstLen: nat, buffer: array<char>, digits: nat, decimals: nat, ghost text: string)
    requires dst != buffer && |text| == digits <= decimals && 2 + decimals - digits < dstLen <= dst.Length
    requires NoNul(text) && digits < buffer.Length && buffer[..digits] == text && buffer[digits] == '\0'
    modifies dst
    ensures dst[..] == Splice(old(dst[..]), 0, Padded("0." + Fill(decimals - digits, '0') + text, dstLen))
  {
    hide Padded;
    ghost var start := dst[..];
    var zeros := decimals - digits;
    dst[0] := '0';
    dst[1] := '.';
    forall i | 0 <= i < zeros {
      dst[2 + i] := '0';
    }
    ghost var front := "0." + Fill(zeros, '0');
    assert dst[..2 + zeros] == front && dst[2 + zeros..] == start[2 + zeros..];
    assert dst[..] == Splice(start, 0, front);
    hide Splice;
    assert buffer[0..|text|] == text;
    StrNCpy(dst, 2 + zeros, buffer, 0, dstLen - (2 + zeros), text);
    SpliceMore(start, 0, front, Padded(text, dstLen - (2 + zeros)));
    PaddedConcat(front, text, dstLen);
  }

  /** The digits before the point, the point, and the digits behind it. */
  method PutPoint(dst: array<char>, dstLen: nat, buffer: array<char>, digits: nat, decimals: nat, ghost text: string)
    requires dst != buffer && |text| == digits > decimals && digits + 1 + decimals < dstLen <= dst.Length
    requires NoNul(text) && digits < buffer.Length && buffer[..digits] == text && buffer[digits] == '\0'
    modifies dst
    ensures dst[..] == Splice(old(dst[..]), 0,
              text[..digits - decimals] + "." + (if decimals == 0 then "0" else text[digits - decimals..]))
  {
    hide Splice, Padded;
    ghost var start := dst[..];
    var shift := digits - decimals;
    PutFront(dst, buffer, shift, text);
    ghost var front := text[..shift] + ".";
    ghost var fraction := if decimals == 0 then "0" else text[shift..];
    if decimals == 0 {
      SpliceStep(start, 0, front, '0');
      ghost var before := dst[..];
      dst[shift + 1] := '0';
      assert dst[..] == before[shift + 1 := '0'];
    } else {
      assert buffer[shift..shift + decimals] == fraction;
      PaddedPrefix(fraction, decimals);
      assert fraction[..decimals] == fraction;
      StrNCpy(dst, shift + 1, buffer, shift, decimals, fraction);
      SpliceMore(start, 0, front, fraction);
    }
  }

  method PutFront(dst: array<char>, buffer: array<char>, shift: nat, ghost text: string)
    requires dst != buffer && shift <= |text| <= buffer.Length && buffer[..|text|] == text && shift < dst.Length
    modifies dst
    ensures dst[..] == Splice(old(dst[..]), 0, text[..shift] + ".")
  {
    ghost var start := dst[..];
    forall i | 0 <= i < shift {
      dst[i] := buffer[i];
    }
    dst[shift] := '.';
    assert dst[..shift] == text[..shift] && dst[shift + 1..] == start[shift + 1..];
    assert dst[..] == dst[..shift] + "." + dst[shift + 1..];
  }

  /** In a zeroed destination, as all callers pass, the text is terminated wherever it leaves room. */
  lemma WrittenOverNuls(value: nat, decimals: nat, start: string, n: nat)
    requires FixedNeeds(value, decimals) <= n <= |start| && forall i :: 0 <= i < n ==> start[i] == '\0'
    ensures |FixedWritten(value, decimals, n)| <= n
    ensures Splice(start, 0, FixedWritten(value, decimals, n))
            == Splice(start, 0, Padded(FixedText(value, decimals), n))
  {
    hide DecimalText, Splice, Padded;
    if |DecimalText(value)| > decimals { PaddedBy(FixedText(value, decimals), start, n); }
  }

  /** Text over NULs is padded text. */
  lemma PaddedBy(text: string, start: string, n: nat)
    requires |text| <= n <= |start| && forall i :: 0 <= i < n ==> start[i] == '\0'
    ensures Splice(start, 0, text) == Splice(start, 0, Padded(text, n))
  {
    assert start[|text|..] == Fill(n - |text|, '\0') + start[n..];
  }

  lemma TextHasNoNul(n: nat)
    ensures NoNul(DecimalText(n))
  {
  }

  lemma PaddedConcat(a: string, b: string, n: nat)
    requires |a| <= n
    ensures Padded(a + b, n) == a + Padded(b, n - |a|)
  {
  }

  // ---------------------------------------------------------------- what the text means

  lemma DigitsOfText(digits: seq<nat>)
    requires IsNumeral(10, digits)
    ensures IsDigitText(DigitText(digits)) && DigitsIn(DigitText(digits)) == digits
  {
  }

  lemma DecimalReadsBack(n: nat)
    ensures IsDigitText(DecimalText(n)) && Value(10, DigitsIn(DecimalText(n))) == n
    ensures DecimalText(n)[0] == '0' ==> DecimalText(n) == "0"
  {
    hide Value, Digits;
    DigitsOfText(DecimalDigits(n));
    ValueOfDigits(10, n);
    EmptyValue(10);
    ValueSnoc(10, [], 0);
    assert [] + [0] == [0];
  }

  /** A text of digits around one point, read as the integer of all its digits and the number of
      digits behind the point. */
  ghost predicate Denotes(text: string, point: nat, number: nat, scale: nat) {
    0 < point && point + 1 + scale == |text| && text[point] == '.'
    && IsDigitText(text[..point]) && IsDigitText(text[point + 1..])
    && Value(10, DigitsIn(text[..point]) + DigitsIn(text[point + 1..])) == number
  }

  lemma DigitsOfConcat(a: string, b: string)
    requires IsDigitText(a) && IsDigitText(b)
    ensures IsDigitText(a + b) && DigitsIn(a + b) == DigitsIn(a) + DigitsIn(b)
  {
  }

  /** The text denotes value / 10^decimals exactly, with exactly that many fraction digits. */
  lemma FixedTextIsExact(value: nat, decimals: nat)
    requires decimals > 0
    ensures var text := FixedText(value, decimals);
            |text| > decimals + 1 && Denotes(text, |text| - decimals - 1, value, decimals)
  {
    hide Value, DecimalText;
    var text, whole := DecimalText(value), FixedText(value, decimals);
    DecimalReadsBack(value);
    if |text| <= decimals {
      FractionDenotes(text, decimals);
    } else {
      SplitDenotes(text, decimals);
    }
  }

  lemma FractionDenotes(text: string, decimals: nat)
    requires IsDigitText(text) && |text| <= decimals
    ensures Denotes("0." + Fill(decimals - |text|, '0') + text, 1, Value(10, DigitsIn(text)), decimals)
  {
    hide Value;
    var zeros := Fill(decimals - |text|, '0');
    var whole := "0." + zeros + text;
    assert whole[..1] == "0" && whole[2..] == zeros + text;
    DigitsOfConcat(zeros, text);
    var all := DigitsIn("0") + DigitsIn(zeros + text);
    ValueSkipZeros(10, all, 1 + |zeros|);
    assert all[1 + |zeros|..] == DigitsIn(text);
  }

  lemma SplitDenotes(text: string, decimals: nat)
    requires IsDigitText(text) && 0 < decimals < |text|
    ensures Denotes(text[..|text| - decimals] + "." + text[|text| - decimals..], |text| - decimals,
                    Value(10, DigitsIn(text)), decimals)
  {
    hide Value;
    var point := |text| - decimals;
    var whole := text[..point] + "." + text[point..];
    assert whole[..point] == text[..point] && whole[point + 1..] == text[point..];
    assert text == text[..point] + text[point..];
    DigitsOfConcat(text[..point], text[point..]);
  }

  /** Without decimals the text is the number and ".0". */
  lemma WholeTextIsExact(value: nat)
    ensures FixedText(value, 0) == DecimalText(value) + ".0"
    ensures Value(10, DigitsIn(DecimalText(value))) == value
  {
    hide Value, DecimalText;
    DecimalReadsBack(value);
    var text := DecimalText(value);
    assert text != [] by { DecimalReadsBack(value); }
    assert text[..|text| - 0] == text && text + "." + "0" == text + ".0";
  }

  /** Different numbers have different texts. */
  lemma FixedTextInjective(a: nat, b: nat, decimals: nat)
    ensures FixedText(a, decimals) == FixedText(b, decimals) <==> a == b
  {
    hide Value, DecimalText, FixedText;
    if FixedText(a, decimals) == FixedText(b, decimals) {
      if decimals > 0 {
        FixedTextIsExact(a, decimals);
        FixedTextIsExact(b, decimals);
      } else {
        WholeTextIsExact(a);
        WholeTextIsExact(b);
        var s, t := DecimalText(a), DecimalText(b);
        assert (s + ".0")[..|s|] == s && (t + ".0")[..|t|] == t;
      }
    }
  }

  /** decimals + 22 characters always hold the whole text; only twenty digits without decimals can
      fill them up and leave no room for the terminator. */
  lemma AlwaysFits(value: u64, decimals: nat, dstLen: nat)
    requires dstLen >= decimals + 22
    ensures dstLen >= FixedNeeds(value, decimals) && dstLen >= |FixedText(value, decimals)|
    ensures dstLen == |FixedText(value, decimals)| <==>
            decimals == 0 && dstLen == 22 && |DecimalText(value)| == 20
  {
    hide DecimalText;
    DecimalLength(value);
  }

  /** For 8 decimals 30 characters are just enough. */
  lemma ThirtyIsJustEnough()
    ensures forall value: u64 :: FixedNeeds(value, 8) <= 30 && |FixedText(value, 8)| < 30
    ensures FixedNeeds(0xFFFF_FFFF_FFFF_FFFF, 8) == 30
  {
    forall value: u64 ensures FixedNeeds(value, 8) <= 30 && |FixedText(value, 8)| < 30 {
      AlwaysFits(value, 8, 30);
    }
    LengthAtLeast(0xFFFF_FFFF_FFFF_FFFF);
    DecimalLength(0xFFFF_FFFF_FFFF_FFFF);
  }

  lemma LengthAtLeast(n: nat)
    requires n >= 10000000000000000000
    ensures |DecimalText(n)| >= 20
  {
    hide Value, Digits;
    assert Pow(10, 9) == 1000000000 && Pow(10, 10) == 10000000000;
    PowAdd(10, 9, 10);
    ValueOfDigits(10, n);
    ValueBound(10, Digits(10, n));
    PowLess(10, 19, |Digits(10, n)|);
  }

  /** A success is a complete, terminated text exactly when the destination is longer than the
      text; FixedNeeds does not ask for that much. */
  lemma AcceptedButCutShort(value: nat, decimals: nat, dstLen: nat)
    ensures dstLen >= FixedNeeds(value, decimals) && dstLen <= |FixedText(value, decimals)| <==>
            var digits := |DecimalText(value)|;
            if digits <= decimals then 3 + decimals - digits <= dstLen <= 2 + decimals
            else decimals == 0 && dstLen == digits + 2
  {
    hide DecimalText;
  }

  lemma CutShortExample()
    ensures FixedNeeds(100, 8) <= 8 < |FixedText(100, 8)|
  {
    DecimalStep(100);
    DecimalStep(10);
    OneDigit(1);
  }

  // ---------------------------------------------------------------- format_i64

  // Division and remainder of C, which truncate.
  function TruncatedDiv(n: int, d: nat): int
    requires d > 0
  {
    if n >= 0 then n / d else -((-n) / d)
  }

  function TruncatedMod(n: int, d: nat): int
    requires d > 0
  {
    n - d * TruncatedDiv(n, d)
  }

  /** The last digit and the digits before it, for either sign. */
  lemma TruncatedDigit(num: int, sign: int)
    requires sign == (if num < 0 then -1 else 1)
    ensures TruncatedMod(num, 10) * sign == (num * sign) % 10
    ensures TruncatedDiv(num, 10) * sign == (num * sign) / 10
  {
  }

  lemma DigitsStep(n: nat)
    requires n > 0
    ensures Digits(10, n) == Digits(10, n / 10) + [n % 10]
  {
  }

  lemma MagnitudeLength(n: nat)
    requires n <= 0x8000_0000_0000_0000
    ensures |Digits(10, n)| <= 19
  {
    assert Pow(10, 9) == 1000000000 && Pow(10, 10) == 10000000000;
    PowAdd(10, 9, 10);
    DigitsLength(10, n, 19);
  }

  /** The digit loop of format_i64: the digits of the magnitude, last first; nothing for 0. */
  method PutDigits(temp: array<char>, value: s64) returns (ptr: nat)
    requires temp.Length >= 20
    modifies temp
    ensures var digits := Digits(10, if value < 0 then -(value as int) else value);
            ptr == |digits| <= 19 && temp[..] == Splice(old(temp[..]), 0, Backwards(digits))
  {
    hide Digits, TruncatedDiv, TruncatedMod, Splice, Backwards;
    var num: int := value;
    var sign := if value < 0 then -1 else 1;
    ghost var magnitude, start := num * sign, temp[..];
    MagnitudeLength(magnitude);
    ghost var low: seq<nat> := [];
    ptr := 0;
    SpliceNothing(start, 0);
    assert Backwards(low) == [];
    while num != 0
      invariant num * sign >= 0 && |low| == ptr <= 19 && IsNumeral(10, low)
      invariant Digits(10, magnitude) == Digits(10, num * sign) + low
      invariant temp[..] == Splice(start, 0, Backwards(low))
      decreases num * sign
    {
      ghost var left := num * sign;
      TruncatedDigit(num, sign);
      DigitsStep(left);
      BackwardsStep(left % 10, low);
      SpliceStep(start, 0, Backwards(low), DigitChar(left % 10));
      low := [left % 10] + low;
      assert Digits(10, magnitude) == Digits(10, left / 10) + low;
      ghost var before := temp[..];
      temp[ptr] := DigitChar(TruncatedMod(num, 10) * sign);
      assert temp[..] == before[ptr := DigitChar(left % 10)];
      ptr := ptr + 1;
      num := TruncatedDiv(num, 10);
    }
    assert Digits(10, magnitude) == low;
  }

  method FormatI64(dst: array<char>, dstLen: nat, value: s64) returns (ok: bool)
    requires dstLen <= dst.Length < 0x8000_0000
    modifies dst
    ensures ok <==> dstLen > |IntText(value)|
    ensures dst[..] == if ok then Splice(old(dst[..]), 0, IntText(value) + "\0") else old(dst[..])
  {
    hide Digits, IntText;
    var temp := new char[21](_ => '\0');
    var ptr := PutInt(temp, value);
    assert dst[..] == old(dst[..]);
    if dstLen < ptr + 1 {
      return false;
    }
    CopyReversed(dst, temp, ptr, IntText(value));
    return true;
  }

  /** The whole text of an integer, last character first. */
  method PutInt(temp: array<char>, value: s64) returns (ptr: nat)
    requires temp.Length == 21
    modifies temp
    ensures var text := IntText(value);
            ptr == |text| <= 20 && forall k :: 0 <= k < ptr ==> temp[k] == text[ptr - 1 - k]
  {
    hide Digits, Splice, Backwards, DecimalText, IntText;
    ghost var start, digits := temp[..], Digits(10, if value < 0 then -(value as int) else value);
    ptr := PutDigits(temp, value);
    SpliceReads(start, 0, Backwards(digits));
    assert temp[0..ptr] == Backwards(digits);
    if value < 0 {
      temp[ptr] := '-';
      ptr := ptr + 1;
    } else if value == 0 {
      temp[ptr] := '0';
      ptr := ptr + 1;
    }
    IntBackwards(value, digits);
    assert temp[..ptr] == Mirror(IntText(value));
  }

  lemma IntBackwards(value: int, digits: seq<nat>)
    requires digits == Digits(10, if value < 0 then -value else value)
    ensures Mirror(IntText(value)) ==
            Backwards(digits) + (if value < 0 then "-" else if value == 0 then "0" else "")
  {
    hide Digits;
  }

  /** The characters collected last to first, in order and terminated. */
  method CopyReversed(dst: array<char>, temp: array<char>, n: nat, ghost text: string)
    requires dst != temp && n == |text| <= temp.Length && n < dst.Length
    requires forall k :: 0 <= k < n ==> temp[k] == text[n - 1 - k]
    modifies dst
    ensures dst[..] == Splice(old(dst[..]), 0, text + "\0")
  {
    hide Splice;
    ghost var start := dst[..];
    SpliceNothing(start, 0);
    var ptr, index := n, 0;
    while ptr > 0
      invariant 0 <= ptr && index + ptr == n
      invariant dst[..] == Splice(start, 0, text[..index])
    {
      ptr := ptr - 1;
      SpliceStep(start, 0, text[..index], text[index]);
      assert text[..index] + [text[index]] == text[..index + 1];
      ghost var before := dst[..];
      dst[index] := temp[ptr];
      assert dst[..] == before[index := text[index]];
      index := index + 1;
    }
    assert text[..index] == text;
    SpliceStep(start, 0, text, '\0');
    ghost var before := dst[..];
    dst[index] := '\0';
    assert dst[..] == before[index := '\0'];
  }

  /** The text of an integer determines it. */
  lemma IntTextInjective(a: int, b: int)
    ensures IntText(a) == IntText(b) <==> a == b
  {
    hide DecimalText;
    var m, n := if a < 0 then -a else a, if b < 0 then -b else b;
    DecimalReadsBack(m);
    DecimalReadsBack(n);
    assert DecimalText(m) == (if a < 0 then IntText(a)[1..] else IntText(a));
    assert DecimalText(n) == (if b < 0 then IntText(b)[1..] else IntText(b));
    assert a < 0 <==> IntText(a)[0] == '-';
    assert b < 0 <==> IntText(b)[0] == '-';
  }

  /** A minus sign exactly for a negative number; the rest reads as its magnitude. */
  lemma IntTextReadsBack(v: int)
    ensures IntText(v)[0] == '-' <==> v < 0
    ensures var digits := if v < 0 then IntText(v)[1..] else IntText(v);
            IsDigitText(digits) && Value(10, DigitsIn(digits)) == if v < 0 then -v else v
  {
    hide DecimalText, Value;
    DecimalReadsBack(if v < 0 then -v else v);
    assert '0' <= DecimalText(if v < 0 then -v else v)[0] <= '9';
  }
}
