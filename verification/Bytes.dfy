/** Bytes, fixed-width integers, and the numbers byte strings denote. */
module Bytes {
  import opened Numerals

  type byte = b: int | 0 <= b < 256
  type u16 = n: int | 0 <= n < 0x1_0000
  type u32 = n: int | 0 <= n < 0x1_0000_0000
  type u64 = n: int | 0 <= n < 0x1_0000_0000_0000_0000
  type s8 = n: int | -0x80 <= n < 0x80
  type s16 = n: int | -0x8000 <= n < 0x8000
  type s32 = n: int | -0x8000_0000 <= n < 0x8000_0000
  type s64 = n: int | -0x8000_0000_0000_0000 <= n < 0x8000_0000_0000_0000

  /** The length of a script hash (src/transaction/types.h:8). */
  const UINT160_LEN := 20

  datatype Option<+T> = None | Some(value: T) {
    predicate IsFailure() { None? }
    function PropagateFailure<U>(): Option<U> requires None? { None }
    function Extract(): T requires Some? { value }
  }

  /** The number a byte string denotes, least significant byte first. */
  function Le(s: seq<byte>): nat {
    if s == [] then 0 else s[0] + 256 * Le(s[1..])
  }

  /** The number a byte string denotes, most significant byte first. */
  function Be(s: seq<byte>): nat {
    Value(256, s)
  }

  /** The low n bytes of v, least significant first. */
  function LeBytes(v: nat, n: nat): (s: seq<byte>)
    ensures |s| == n
  {
    if n == 0 then [] else [v % 256] + LeBytes(v / 256, n - 1)
  }

  /** The low n bytes of v, most significant first. */
  function BeBytes(v: nat, n: nat): (s: seq<byte>)
    ensures |s| == n
  {
    if n == 0 then [] else BeBytes(v / 256, n - 1) + [v % 256]
  }

  /** Two's complement: the n-byte unsigned v read as a signed number. */
  function Signed(v: nat, n: nat): int {
    if 2 * v < Pow(256, n) then v else v - Pow(256, n)
  }

  /** The n-byte two's complement form of v, as an unsigned number. */
  function Unsigned(v: int, n: nat): int {
    if v >= 0 then v else v + Pow(256, n)
  }

  lemma {:induction false} LeOfBytes(v: nat, n: nat)
    ensures Pow(256, n) > 0 && Le(LeBytes(v, n)) == v % Pow(256, n)
  {
    if n > 0 {
      LeOfBytes(v / 256, n - 1);
      ModStep(v, Pow(256, n - 1));
    }
  }

  lemma ModStep(v: nat, c: nat)
    requires c > 0
    ensures v % (256 * c) == v % 256 + 256 * ((v / 256) % c)
  {
    var q, r := (v / 256) / c, (v / 256) % c;
    assert v / 256 == q * c + r;
    assert v == q * (256 * c) + (v % 256 + 256 * r);
    DivModUnique(256 * c, q, v % 256 + 256 * r);
  }

  lemma {:induction false} BytesOfLe(s: seq<byte>)
    ensures LeBytes(Le(s), |s|) == s
    ensures Le(s) < Pow(256, |s|)
  {
    if s != [] { BytesOfLe(s[1..]); }
  }

  lemma {:induction false} BytesOfBe(s: seq<byte>)
    ensures BeBytes(Be(s), |s|) == s
    ensures Be(s) < Pow(256, |s|)
  {
    if s != [] { BytesOfBe(s[..|s| - 1]); }
  }
}
