/** base58_encode and base58_decode (src/common/base58.c), proved against the numerals of
    Numerals.dfy, and their round trips. */
module Base58 {
  import opened Bytes
  import opened Numerals
  import opened Base58Alphabet
  import opened PowerBounds
  import opened Splices

  const MAX_ENC_INPUT_SIZE := 120
  const MAX_DEC_INPUT_SIZE := 164

  function Letters(digits: seq<nat>): (text: string)
    requires IsNumeral(58, digits)
    ensures |text| == |digits|
    ensures forall i :: 0 <= i < |digits| ==> text[i] == BASE58_ALPHABET[digits[i]]
  {
    seq(|digits|, i requires 0 <= i < |digits| => BASE58_ALPHABET[digits[i]])
  }

  function LetterDigits(text: string): (digits: seq<byte>)
    ensures |digits| == |text|
    ensures forall i :: 0 <= i < |text| ==> digits[i] == CharDigit(text[i])
  {
    seq(|text|, i requires 0 <= i < |text| => CharDigit(text[i]))
  }

  ghost predicate IsBase58(text: string) {
    forall i :: 0 <= i < |text| ==> CharDigit(text[i]) != 0xFF
  }

  /** Leading zero bytes become leading '1's; the rest is the shortest numeral of the same number. */
  ghost function EncodedDigits(data: seq<byte>): (digits: seq<nat>)
    ensures IsNumeral(58, digits)
  {
    Zeros(LeadingZeros(data)) + Digits(58, Value(256, data))
  }

  ghost function Encoding(data: seq<byte>): string {
    Letters(EncodedDigits(data))
  }

  ghost predicate Decodable(text: string) {
    2 <= |text| <= MAX_DEC_INPUT_SIZE && IsBase58(text)
  }

  ghost function Decoding(text: string): seq<byte> {
    var digits := LetterDigits(text);
    Zeros(LeadingZeros(digits)) + Digits(256, Value(58, digits))
  }

  // ---------------------------------------------------------------- round trips

  lemma DigitsOfLetters(digits: seq<nat>)
    requires IsNumeral(58, digits)
    ensures LetterDigits(Letters(digits)) == digits && IsBase58(Letters(digits))
  {
    forall i | 0 <= i < |digits| ensures CharDigit(Letters(digits)[i]) == digits[i] {
      TableInvertsAlphabet(digits[i]);
    }
  }

  lemma LettersOfDigits(text: string)
    requires IsBase58(text)
    ensures IsNumeral(58, LetterDigits(text)) && Letters(LetterDigits(text)) == text
  {
    forall i | 0 <= i < |text|
      ensures CharDigit(text[i]) < 58 && BASE58_ALPHABET[CharDigit(text[i])] == text[i]
    {
      AlphabetInvertsTable(text[i]);
    }
  }

  /** Changing the radix and back, leading zeros kept, is the identity. */
  lemma RadixRoundTrip(from: nat, to: nat, s: seq<nat>)
    requires from >= 2 && to >= 2 && IsNumeral(from, s)
    ensures var t := Zeros(LeadingZeros(s)) + Digits(to, Value(from, s));
            LeadingZeros(t) == LeadingZeros(s) && Value(to, t) == Value(from, s)
            && Zeros(LeadingZeros(t)) + Digits(from, Value(to, t)) == s
  {
    var k, d := LeadingZeros(s), Digits(to, Value(from, s));
    var t := Zeros(k) + d;
    LeadingZerosUnique(t, k);
    ValueSkipZeros(to, t, k);
    assert t[k..] == d;
    ValueOfDigits(to, Value(from, s));
    Normalise(from, s);
  }

  lemma EncodingIsFaithful(data: seq<byte>)
    ensures IsBase58(Encoding(data)) && Decoding(Encoding(data)) == data
  {
    DigitsOfLetters(EncodedDigits(data));
    RadixRoundTrip(256, 58, data);
  }

  lemma DecodingIsFaithful(text: string)
    requires IsBase58(text)
    ensures Encoding(Decoding(text)) == text
  {
    LettersOfDigits(text);
    RadixRoundTrip(58, 256, LetterDigits(text));
  }

  lemma EncodingInjective(a: seq<byte>, b: seq<byte>)
    requires Encoding(a) == Encoding(b)
    ensures a == b
  {
    EncodingIsFaithful(a);
    EncodingIsFaithful(b);
  }

  lemma EncodingLength(data: seq<byte>)
    requires |data| <= 120
    ensures |Encoding(data)| <= 164
  {
    var z := LeadingZeros(data);
    var n := |data| - z;
    ValueSkipZeros(256, data, z);
    ValueBound(256, data[z..]);
    TightPower(n);
    DigitsLength(58, Value(256, data), n + 44);
  }

  lemma LongMeansLarge(data: seq<byte>)
    requires |data| >= 2 && data[0] != 0
    ensures Value(256, data) >= 256
  {
    ValueLowerBound(256, data);
    PowMonotone(256, 1, |data| - 1);
    assert Pow(256, 1) == 256;
  }

  lemma TwoCharacters(data: seq<byte>)
    ensures |EncodedDigits(data)| >= 2 <==> |data| >= 2 || (|data| == 1 && data[0] >= 58)
  {
    var z, v := LeadingZeros(data), Value(256, data);
    TwoDigits(58, v);
    ValueSkipZeros(256, data, z);
    if z == 0 && |data| >= 2 {
      LongMeansLarge(data);
    } else if z == 1 && |data| >= 2 {
      ValueLowerBound(256, data[z..]);
      PowPositive(256, |data| - z - 1);
    } else if |data| == 1 {
      assert Value(256, data) == Value(256, []) * 256 + data[0];
    }
  }

  /** Every byte string of at most 120 bytes is decoded back exactly when its text has the two
      characters base58_decode insists on. */
  lemma DecodeUndoesEncode(data: seq<byte>)
    requires |data| <= 120
    ensures Decodable(Encoding(data)) <==> |data| >= 2 || (|data| == 1 && data[0] >= 58)
    ensures Decoding(Encoding(data)) == data
  {
    EncodingIsFaithful(data);
    EncodingLength(data);
    TwoCharacters(data);
  }

  // ---------------------------------------------------------------- base58_encode

  /** One position of the carry loop: what the suffix denotes, carry included, is kept. */
  lemma CarryStep(suffix: seq<nat>, before: seq<nat>, d: nat, carry: nat, add: nat, q: nat, r: nat)
    requires |suffix| == |before|
    requires Value(58, suffix) + carry * Pow(58, |suffix|) == 256 * Value(58, before) + add
    requires carry + 256 * d == 58 * q + r
    ensures Value(58, [r] + suffix) + q * Pow(58, |suffix| + 1) == 256 * Value(58, [d] + before) + add
  {
    hide Value, Pow;
    ValueCons(58, r, suffix);
    ValueCons(58, d, before);
    PowStep(58, |suffix|);
    CarryArithmetic(Value(58, suffix), Value(58, before), Pow(58, |suffix|), d, carry, add, q, r);
  }

  lemma CarryArithmetic(v: nat, w: nat, p: nat, d: nat, carry: nat, add: nat, q: nat, r: nat)
    requires v + carry * p == 256 * w + add
    requires carry + 256 * d == 58 * q + r
    ensures r * p + v + q * (58 * p) == 256 * (d * p + w) + add
  {
    assert (carry + 256 * d) * p == (58 * q + r) * p;
  }

  lemma Distribute(a: nat, b: nat, c: nat, p: nat)
    ensures (a * b + c) * p == a * (b * p) + c * p
  {
  }

  /** What the carry loop keeps: the digits right of j and the carry together denote the digits
      they replace, times 256, plus the added byte. */
  ghost predicate Carried(after: seq<nat>, before: seq<nat>, j: int, carry: int, add: nat) {
    -1 <= j < |before| == |after| && 0 <= carry <= 255
    && IsNumeral(58, after)
    && (forall i :: 0 <= i <= j ==> after[i] == before[i])
    && Value(58, after[j + 1..]) + carry * Pow(58, |after| - 1 - j) == 256 * Value(58, before[j + 1..]) + add
  }

  lemma CarryStart(before: seq<nat>, add: byte)
    requires IsNumeral(58, before)
    ensures Carried(before, before, |before| - 1, add, add)
  {
    assert before[|before|..] == [];
  }

  lemma CarryMove(after: seq<nat>, before: seq<nat>, j: nat, carry: int, add: nat)
    requires Carried(after, before, j, carry, add)
    ensures var sum := carry + 256 * after[j];
            Carried(after[j := sum % 58], before, j - 1, sum / 58, add)
    ensures after[j] == 0 ==> (carry + 256 * after[j]) / 58 <= 4
  {
    hide Value, Pow;
    var sum := carry + 256 * after[j];
    assert sum <= 255 + 256 * 57;
    CarryStep(after[j + 1..], before[j + 1..], before[j], carry, add, sum / 58, sum % 58);
    assert before[j..] == [before[j]] + before[j + 1..];
    assert after[j := sum % 58][j..] == [sum % 58] + after[j + 1..];
  }

  /** With the carry spent, the whole number has been multiplied and added to. */
  lemma CarrySpent(after: seq<nat>, before: seq<nat>, j: int, add: nat)
    requires Carried(after, before, j, 0, add)
    requires forall i :: 0 <= i <= j ==> before[i] == 0
    ensures Value(58, after) == 256 * Value(58, before) + add
  {
    hide Value, Pow;
    ValueSkipZeros(58, before, j + 1);
    ValueSkipZeros(58, after, j + 1);
    Distribute(0, 0, 0, Pow(58, |after| - 1 - j));
  }

  /** The carry is spent before the digits run out. */
  lemma CarryFits(after: seq<nat>, before: seq<nat>, carry: int, add: nat)
    requires Carried(after, before, -1, carry, add)
    requires 256 * Value(58, before) + add < Pow(58, |before|)
    ensures carry == 0
  {
    hide Value, Pow;
    assert after[0..] == after && before[0..] == before;
    NoOverflow(Value(58, after), carry, Pow(58, |after|));
  }

  /** The inner loop of base58_encode: multiply the number in buffer[..size] by 256 and add a
      byte, touching only what changes. Returns the loop's final j. */
  method MultiplyAdd(buffer: array<byte>, size: nat, stopAt: nat, input: byte) returns (stop: int)
    requires 1 <= stopAt < size <= buffer.Length
    requires IsNumeral(58, buffer[..size])
    requires forall i :: 0 <= i < stopAt ==> buffer[i] == 0
    requires 256 * Value(58, buffer[..size]) + input < Pow(58, size)
    modifies buffer
    ensures 0 <= stop < stopAt
    ensures IsNumeral(58, buffer[..size])
    ensures forall i :: 0 <= i < stop ==> buffer[i] == 0
    ensures Value(58, buffer[..size]) == 256 * Value(58, old(buffer[..size])) + input
    ensures stop == stopAt - 1 || (stop == stopAt - 2 && buffer[stop] != 0)
  {
    hide Value, Pow, Carried;
    ghost var before := buffer[..size];
    var carry: nat := input;
    var j := size - 1;
    CarryStart(before, input);
    while j >= 0
      invariant Carried(buffer[..size], before, j, carry, input)
      invariant -1 <= j < size && 0 <= carry <= 255
      invariant forall i :: 0 <= i < size ==> buffer[i] < 58
      invariant forall i :: 0 <= i < stopAt && i <= j ==> buffer[i] == 0
      invariant j < stopAt - 1 ==> j == stopAt - 2 && 1 <= carry <= 4
    {
      CarryMove(buffer[..size], before, j, carry, input);
      ghost var digits: seq<nat> := buffer[..size];
      var digit: nat := buffer[j];
      carry := carry + 256 * digit;
      buffer[j] := carry % 58;
      assert buffer[..size] == digits[j := carry % 58];
      carry := carry / 58;
      if j <= stopAt - 1 && carry == 0 {
        break;
      }
      j := j - 1;
    }
    if j == -1 { CarryFits(buffer[..size], before, carry, input); }
    CarrySpent(buffer[..size], before, j - 1, input);
    stop := j;
  }

  lemma NoOverflow(v: nat, carry: nat, p: nat)
    requires v + carry * p < p
    ensures carry == 0
  {
  }

  /** How far left the loop can have reached after k of the n significant bytes. */
  lemma ReachBound(stop: nat, stopAt: nat, n: nat, k: nat, digits: seq<nat>)
    requires k < n && |digits| == 138 * n / 100 + 1
    requires 138 * n / 100 - 138 * k / 100 <= stopAt
    requires stop < |digits| && forall i :: 0 <= i < stop ==> digits[i] == 0
    requires stop == stopAt - 1 || digits[stop] != 0
    requires Value(58, digits) < Pow(256, k + 1)
    ensures 138 * n / 100 - 138 * (k + 1) / 100 <= stop
  {
    if digits[stop] != 0 {
      ValueSkipZeros(58, digits, stop);
      ValueLowerBound(58, digits[stop..]);
      SizeEstimate(k + 1);
      PowLess(58, |digits| - stop - 1, 138 * (k + 1) / 100 + 1);
    }
  }

  /** The outer loop of base58_encode: the significant bytes, most significant first, are pushed
      into the zeroed buffer. */
  method ToBase58(buffer: array<byte>, input: seq<byte>, zeroCount: nat)
    requires zeroCount <= |input|
    requires (|input| - zeroCount) * 138 / 100 + 1 <= buffer.Length
    requires forall i :: 0 <= i < buffer.Length ==> buffer[i] == 0
    modifies buffer
    ensures IsNumeral(58, buffer[..(|input| - zeroCount) * 138 / 100 + 1])
    ensures Value(58, buffer[..(|input| - zeroCount) * 138 / 100 + 1]) == Value(256, input[zeroCount..])
  {
    hide Value, Pow;
    var n := |input| - zeroCount;
    var outputSize := n * 138 / 100 + 1;
    var stopAt := outputSize - 1;
    ValueZeros(58, buffer[..outputSize]);
    EmptyValue(256);
    assert input[zeroCount..zeroCount] == [];
    for startAt := zeroCount to |input|
      invariant 0 <= stopAt < outputSize
      invariant IsNumeral(58, buffer[..outputSize])
      invariant forall i :: 0 <= i < stopAt ==> buffer[i] == 0
      invariant 138 * n / 100 - 138 * (startAt - zeroCount) / 100 <= stopAt
      invariant Value(58, buffer[..outputSize]) == Value(256, input[zeroCount..startAt])
    {
      var k := startAt - zeroCount;
      PushFits(input[zeroCount..startAt], input[startAt], outputSize);
      assert input[zeroCount..startAt + 1] == input[zeroCount..startAt] + [input[startAt]];
      var j := MultiplyAdd(buffer, outputSize, stopAt, input[startAt]);
      ReachBound(j, stopAt, n, k, buffer[..outputSize]);
      stopAt := j;
    }
    assert input[zeroCount..|input|] == input[zeroCount..];
  }

  lemma PushFits(pushed: seq<byte>, add: byte, size: nat)
    requires 138 * (|pushed| + 1) / 100 + 1 <= size
    ensures Value(256, pushed + [add]) == 256 * Value(256, pushed) + add
    ensures Value(256, pushed + [add]) < Pow(256, |pushed| + 1) <= Pow(58, size)
  {
    ValueSnoc(256, pushed, add);
    ValueBound(256, pushed + [add]);
    SizeEstimate(|pushed| + 1);
    PowMonotone(58, 138 * (|pushed| + 1) / 100 + 1, size);
  }

  lemma EncodedDigitsAre(input: seq<byte>, zeroCount: nat, numeral: seq<nat>, j: nat)
    requires zeroCount == LeadingZeros(input) && j == LeadingZeros(numeral)
    requires IsNumeral(58, numeral) && Value(58, numeral) == Value(256, input[zeroCount..])
    ensures EncodedDigits(input) == Zeros(zeroCount) + numeral[j..]
  {
    hide Value, Digits;
    ValueSkipZeros(58, numeral, j);
    DigitsOfValue(58, numeral[j..]);
    ValueSkipZeros(256, input, zeroCount);
  }

  method Base58Encode(input: seq<byte>, output: array<char>, outLen: nat) returns (r: int)
    requires outLen <= output.Length
    modifies output
    ensures r == if |input| > 120 || outLen < |Encoding(input)| then -1 else |Encoding(input)|
    ensures output[..] == if r < 0 then old(output[..]) else Splice(old(output[..]), 0, Encoding(input))
  {
    hide Value, Pow, Digits, LeadingZeros, EncodedDigits, Splice;
    var buffer := new byte[MAX_ENC_INPUT_SIZE * 138 / 100 + 1](_ => 0);
    if |input| > MAX_ENC_INPUT_SIZE {
      return -1;
    }

    var zeroCount := 0;
    while zeroCount < |input| && input[zeroCount] == 0
      invariant zeroCount <= |input|
      invariant forall i :: 0 <= i < zeroCount ==> input[i] == 0
    {
      zeroCount := zeroCount + 1;
    }
    LeadingZerosUnique(input, zeroCount);

    var outputSize := (|input| - zeroCount) * 138 / 100 + 1;
    ToBase58(buffer, input, zeroCount);

    ghost var numeral := buffer[..outputSize];
    var j := 0;
    while j < outputSize && buffer[j] == 0
      invariant j <= outputSize
      invariant forall i :: 0 <= i < j ==> buffer[i] == 0
    {
      j := j + 1;
    }
    LeadingZerosUnique(numeral, j);
    EncodedDigitsAre(input, zeroCount, numeral, j);
    assert buffer[j..outputSize] == numeral[j..];
    assert output[..] == old(output[..]);
    if outLen < zeroCount + outputSize - j {
      return -1;
    }
    r := PutLetters(output, zeroCount, buffer, j, outputSize);
  }

  lemma NextLetter(start: string, text: string, i: nat)
    requires i < |text| <= |start|
    ensures Splice(start, 0, text[..i])[i := text[i]] == Splice(start, 0, text[..i + 1])
  {
    SpliceStep(start, 0, text[..i], text[i]);
    assert text[..i] + [text[i]] == text[..i + 1];
  }

  /** A '1' for each leading zero byte, then the letters of the digits buffer[from..to]. */
  method PutLetters(output: array<char>, zeroCount: nat, buffer: array<byte>, from: nat, to: nat) returns (i: nat)
    requires from <= to <= buffer.Length && zeroCount + (to - from) <= output.Length
    requires IsNumeral(58, buffer[from..to])
    modifies output
    ensures i == zeroCount + (to - from)
    ensures IsNumeral(58, Zeros(zeroCount) + buffer[from..to])
    ensures output[..] == Splice(old(output[..]), 0, Letters(Zeros(zeroCount) + buffer[from..to]))
  {
    hide Splice;
    ghost var start, digits := output[..], Zeros(zeroCount) + buffer[from..to];
    ghost var text := Letters(digits);
    PutOnes(output, zeroCount);
    assert Fill(zeroCount, BASE58_ALPHABET[0]) == text[..zeroCount];
    var j := from;
    i := zeroCount;
    while j < to
      invariant from <= j <= to && i == zeroCount + (j - from)
      invariant forall k :: j <= k < to ==> buffer[k] == digits[zeroCount + (k - from)]
      invariant output[..] == Splice(start, 0, text[..i])
    {
      NextLetter(start, text, i);
      ghost var before := output[..];
      output[i] := BASE58_ALPHABET[buffer[j]];
      assert output[..] == before[i := text[i]];
      i := i + 1;
      j := j + 1;
    }
    assert text[..i] == text;
  }

  method PutOnes(output: array<char>, n: nat)
    requires n <= output.Length
    modifies output
    ensures output[..] == Splice(old(output[..]), 0, Fill(n, BASE58_ALPHABET[0]))
  {
    forall i | 0 <= i < n {
      output[i] := BASE58_ALPHABET[0];
    }
  }

  // ---------------------------------------------------------------- base58_decode

  /** One division round: the quotient by 256 replaces tmp[startAt..], the remainder is returned.
      The leading digit of the quotient is always 0. */
  method DivideRound(tmp: array<byte>, startAt: nat, inLen: nat) returns (remainder: byte)
    requires startAt < inLen <= tmp.Length
    requires forall i :: startAt <= i < inLen ==> tmp[i] < 58
    modifies tmp
    ensures forall i :: startAt <= i < inLen ==> tmp[i] < 58
    ensures tmp[startAt] == 0
    ensures 256 * Value(58, tmp[startAt..inLen]) + remainder == Value(58, old(tmp[startAt..inLen]))
  {
    hide Value, Pow;
    ghost var before := tmp[..];
    remainder := 0;
    EmptyValue(58);
    assert tmp[startAt..startAt] == [];
    for i := startAt to inLen
      invariant forall k :: startAt <= k < inLen ==> tmp[k] < 58
      invariant i > startAt ==> tmp[startAt] == 0
      invariant i == startAt ==> remainder == 0
      invariant tmp[i..] == before[i..]
      invariant 256 * Value(58, tmp[startAt..i]) + remainder == Value(58, before[startAt..i])
    {
      ghost var quotient := tmp[startAt..i];
      assert tmp[i] == before[i];
      var tmpDiv: int := remainder * 58 + tmp[i];
      assert 0 <= tmpDiv < 58 * 256;
      ValueSnoc(58, before[startAt..i], before[i]);
      assert before[startAt..i + 1] == before[startAt..i] + [before[i]];
      ValueSnoc(58, quotient, tmpDiv / 256);
      tmp[i] := tmpDiv / 256;
      remainder := tmpDiv % 256;
      assert tmp[startAt..i + 1] == quotient + [tmp[i]];
      assert tmp[i + 1..] == before[i + 1..];
    }
  }

  /** The first loop of base58_decode: every character is looked up, any unknown one rejected. */
  method ReadLetters(input: string, tmp: array<byte>) returns (ok: bool)
    requires |input| <= tmp.Length
    modifies tmp
    ensures ok <==> IsBase58(input)
    ensures ok ==> tmp[..|input|] == LetterDigits(input) && forall i :: 0 <= i < |input| ==> tmp[i] < 58
  {
    hide LetterDigits, TableEntry;
    for i := 0 to |input|
      invariant forall k :: 0 <= k < i ==> tmp[k] == CharDigit(input[k]) != 0xFF
    {
      if input[i] as int >= TABLE_SIZE {
        return false;
      }
      tmp[i] := TableEntry(input[i] as int);
      if tmp[i] == 0xFF {
        return false;
      }
    }
    LettersOfDigits(input);
    return true;
  }

  lemma RoundStep(quotient: nat, remainder: byte, low: seq<byte>, dividend: nat)
    requires 256 * quotient + remainder == dividend
    ensures quotient * Pow(256, |low| + 1) + Value(256, [remainder] + low)
            == dividend * Pow(256, |low|) + Value(256, low)
  {
    hide Value, Pow;
    ValueCons(256, remainder, low);
    PowStep(256, |low|);
    Distribute(quotient, 256, remainder, Pow(256, |low|));
  }

  /** The outer loop of base58_decode: exactly inLen - zeroCount division rounds, each moving one
      byte of the number from tmp into buffer, after which the quotient is used up. */
  method DivideRounds(tmp: array<byte>, buffer: array<byte>, inLen: nat, zeroCount: nat) returns (j: nat)
    requires zeroCount <= inLen <= tmp.Length == buffer.Length && tmp != buffer
    requires forall i :: zeroCount <= i < inLen ==> tmp[i] < 58
    requires forall i :: 0 <= i < inLen ==> buffer[i] == 0
    modifies tmp, buffer
    ensures j == zeroCount
    ensures forall i :: 0 <= i < zeroCount ==> buffer[i] == 0
    ensures Value(256, buffer[zeroCount..inLen]) == Value(58, old(tmp[zeroCount..inLen]))
  {
    hide Value, Pow;
    ghost var number := Value(58, tmp[zeroCount..inLen]);
    j := inLen;
    var startAt := zeroCount;
    EmptyValue(256);
    EmptyValue(58);
    assert buffer[j..inLen] == [];
    while startAt < inLen
      invariant zeroCount <= startAt <= inLen
      invariant j + startAt == inLen + zeroCount
      invariant forall i :: startAt <= i < inLen ==> tmp[i] < 58
      invariant forall i :: 0 <= i < j ==> buffer[i] == 0
      invariant Value(58, tmp[startAt..inLen]) * Pow(256, inLen - j) + Value(256, buffer[j..inLen]) == number
    {
      ghost var low := buffer[j..inLen];
      ghost var dividend := Value(58, tmp[startAt..inLen]);
      var remainder := DivideRound(tmp, startAt, inLen);
      ghost var quotient := tmp[startAt..inLen];
      ValueSkipZeros(58, quotient, 1);
      assert tmp[startAt + 1..inLen] == quotient[1..];
      RoundStep(Value(58, quotient), remainder, low, dividend);
      if tmp[startAt] == 0 {
        startAt := startAt + 1;
      }
      j := j - 1;
      buffer[j] := remainder;
      assert buffer[j..inLen] == [remainder] + low;
    }
    assert tmp[startAt..inLen] == [];
  }

  lemma DecodingIs(input: string, zeroCount: nat, all: seq<byte>, j: nat)
    requires IsBase58(input)
    requires zeroCount == LeadingZeros(LetterDigits(input))
    requires zeroCount <= j <= |all| && (forall i :: 0 <= i < j ==> all[i] == 0) && (j < |all| ==> all[j] != 0)
    requires Value(256, all[zeroCount..]) == Value(58, LetterDigits(input)[zeroCount..])
    ensures Decoding(input) == all[j - zeroCount..]
  {
    hide Value, Digits, LeadingZeros;
    ValueSkipZeros(58, LetterDigits(input), zeroCount);
    ValueSkipZeros(256, all, zeroCount);
    ValueSkipZeros(256, all, j);
    DigitsOfValue(256, all[j..]);
    assert all[j - zeroCount..] == Zeros(zeroCount) + all[j..];
  }

  method Base58Decode(input: string, output: array<byte>, outLen: nat) returns (r: int)
    requires outLen <= output.Length
    modifies output
    ensures r == if !(2 <= |input| <= 164 && IsBase58(input)) || outLen < |Decoding(input)| then -1
                 else |Decoding(input)|
    ensures output[..] == if r < 0 then old(output[..]) else Splice(old(output[..]), 0, Decoding(input))
  {
    hide Value, Pow, Digits, LeadingZeros, Decoding, CharDigit, LetterDigits, Splice;
    var inLen := |input|;
    var tmp := new byte[MAX_DEC_INPUT_SIZE](_ => 0);
    var buffer := new byte[MAX_DEC_INPUT_SIZE](_ => 0);
    if inLen > MAX_DEC_INPUT_SIZE || inLen < 2 {
      return -1;
    }
    var ok := ReadLetters(input, tmp);
    assert output[..] == old(output[..]);
    if !ok {
      return -1;
    }
    ghost var digits := LetterDigits(input);

    var zeroCount := 0;
    while zeroCount < inLen && tmp[zeroCount] == 0
      invariant zeroCount <= inLen
      invariant forall i :: 0 <= i < zeroCount ==> digits[i] == 0
    {
      assert digits[zeroCount] == tmp[zeroCount];
      zeroCount := zeroCount + 1;
    }
    LeadingZerosUnique(digits, zeroCount);
    assert digits[zeroCount..] == tmp[zeroCount..inLen];
    var j := DivideRounds(tmp, buffer, inLen, zeroCount);

    ghost var all := buffer[..inLen];
    assert all[zeroCount..] == buffer[zeroCount..inLen];
    while j < inLen && buffer[j] == 0
      invariant zeroCount <= j <= inLen
      invariant forall i :: 0 <= i < j ==> all[i] == 0
    {
      j := j + 1;
    }
    DecodingIs(input, zeroCount, all, j);
    assert output[..] == old(output[..]);

    var length := inLen - (j - zeroCount);
    if outLen < length {
      return -1;
    }
    assert buffer[j - zeroCount..inLen] == all[j - zeroCount..];
    CopyBytes(output, buffer, j - zeroCount, length);
    return length;
  }

  method CopyBytes(output: array<byte>, buffer: array<byte>, from: nat, n: nat)
    requires output != buffer && from + n <= buffer.Length && n <= output.Length
    modifies output
    ensures output[..] == Splice(old(output[..]), 0, buffer[from..from + n])
  {
    forall i | 0 <= i < n {
      output[i] := buffer[from + i];
    }
  }
}
