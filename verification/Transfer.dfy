/** The NEP-17 transfer scripts try_parse_transfer_script recognises (src/transaction/tx_utils.c):
    their syntax, byte form and recogniser. */
module Transfer {
  import opened Bytes
  import opened Numerals
  import opened Varint
  import opened Address

  const PUSHNULL: seq<byte> := [0x0B]
  const PUSH_HASH: seq<byte> := [0x0C, 0x14]
  // PUSH4 PACK PUSH15 PUSHDATA1(8) "transfer" PUSHDATA1(20)
  const SEQUENCE: seq<byte> :=
    [0x14, 0xC0, 0x1F, 0x0C, 0x08, 0x74, 0x72, 0x61, 0x6E, 0x73, 0x66, 0x65, 0x72, 0x0C, 0x14]
  const NEO_SCRIPT_HASH: ScriptHash :=
    [0xF5, 0x63, 0xEA, 0x40, 0xBC, 0x28, 0x3D, 0x4D, 0x0E, 0x05,
     0xC4, 0x8E, 0xA3, 0x05, 0xB3, 0xF2, 0xA0, 0x73, 0x40, 0xEF]
  const GAS_SCRIPT_HASH: ScriptHash :=
    [0xCF, 0x76, 0xE2, 0x8B, 0xD0, 0x06, 0x2C, 0x4A, 0x47, 0x8E,
     0xE3, 0x55, 0x61, 0x01, 0x13, 0x19, 0xF3, 0xCF, 0xA4, 0xD2]
  // SYSCALL System.Contract.Call
  const SYSCALL: seq<byte> := [0x41, 0x62, 0x7D, 0x5B, 0x52]

  /** The supported integer pushes. */
  datatype Push =
    | Small(n: nat)
    | Int8(b: byte)
    | Int16(v16: s16)
    | Int32(v32: s32)
    | Int64(v64: s64)

  datatype Transfer = Transfer(push: Push, destination: ScriptHash, source: ScriptHash, neo: bool)

  predicate ValidPush(p: Push) {
    p.Small? ==> p.n <= 16
  }

  /** The amount the device takes from a push: PUSHINT8 is read as an unsigned byte. */
  function Amount(p: Push): s64
    requires ValidPush(p)
  {
    match p
    case Small(n) => n
    case Int8(b) => b
    case Int16(v) => v
    case Int32(v) => v
    case Int64(v) => v
  }

  /** The number the virtual machine pushes: the operand of PUSHINT8 is signed like the others. */
  function Pushed(p: Push): int {
    match p
    case Small(n) => n
    case Int8(b) => Signed(b, 1)
    case Int16(v) => v
    case Int32(v) => v
    case Int64(v) => v
  }

  ghost function PushBytes(p: Push): seq<byte>
    requires ValidPush(p)
  {
    match p
    case Small(n) => [0x10 + n]
    case Int8(b) => [0x00, b]
    case Int16(v) => [0x01] + LeBytes(Unsigned(v, 2), 2)
    case Int32(v) => [0x02] + LeBytes(Unsigned(v, 4), 4)
    case Int64(v) => [0x03] + LeBytes(Unsigned(v, 8), 8)
  }

  ghost function ScriptBytes(t: Transfer): seq<byte>
    requires ValidPush(t.push)
  {
    PUSHNULL + (PushBytes(t.push) + (PUSH_HASH + (t.destination + (PUSH_HASH + (t.source
      + (SEQUENCE + ((if t.neo then NEO_SCRIPT_HASH else GAS_SCRIPT_HASH) + SYSCALL)))))))
  }

  ghost function Expect(s: seq<byte>, wanted: seq<byte>): Option<seq<byte>> {
    if wanted <= s then Some(s[|wanted|..]) else None
  }

  ghost function TakeHash(s: seq<byte>): Option<(ScriptHash, seq<byte>)> {
    if |s| < UINT160_LEN then None else Some((s[..UINT160_LEN], s[UINT160_LEN..]))
  }

  ghost function TakePushedHash(s: seq<byte>): Option<(ScriptHash, seq<byte>)> {
    var s1 :- Expect(s, PUSH_HASH);
    TakeHash(s1)
  }

  ghost function SignedAt(s: seq<byte>, n: nat): int
    requires n <= |s|
  {
    Signed(Le(s[..n]), n)
  }

  ghost function TakePush(s: seq<byte>): Option<(Push, seq<byte>)>
    ensures TakePush(s).Some? ==> ValidPush(TakePush(s).value.0)
  {
    if s == [] then None
    else if 0x10 <= s[0] <= 0x20 then Some((Small(s[0] - 0x10), s[1..]))
    else if s[0] == 0x00 then (if |s| < 2 then None else Some((Int8(s[1]), s[2..])))
    else if s[0] == 0x01 then
      (if |s| < 3 then None else SignedRange(s[1..], 2); Some((Int16(SignedAt(s[1..], 2)), s[3..])))
    else if s[0] == 0x02 then
      (if |s| < 5 then None else SignedRange(s[1..], 4); Some((Int32(SignedAt(s[1..], 4)), s[5..])))
    else if s[0] == 0x03 then
      (if |s| < 9 then None else SignedRange(s[1..], 8); Some((Int64(SignedAt(s[1..], 8)), s[9..])))
    else None
  }

  /** The arguments: null data, the amount, and the two addresses. */
  ghost function TakeArguments(s: seq<byte>): Option<((Push, ScriptHash, ScriptHash), seq<byte>)>
    ensures TakeArguments(s).Some? ==> ValidPush(TakeArguments(s).value.0.0)
  {
    var s1 :- Expect(s, PUSHNULL);
    var (push, s2) :- TakePush(s1);
    var (destination, s3) :- TakePushedHash(s2);
    var (source, s4) :- TakePushedHash(s3);
    Some(((push, destination, source), s4))
  }

  /** The call, with nothing behind it: whether the contract called is NEO rather than GAS. */
  ghost function TakeCall(s: seq<byte>): Option<bool> {
    var s1 :- Expect(s, SEQUENCE);
    var (asset, s2) :- TakeHash(s1);
    if asset != NEO_SCRIPT_HASH && asset != GAS_SCRIPT_HASH then None else
      var s3 :- Expect(s2, SYSCALL);
      if s3 != [] then None else Some(asset == NEO_SCRIPT_HASH)
  }

  /** The transfer a script is, if it is one and nothing else. */
  ghost function Recognised(s: seq<byte>): (t: Option<Transfer>)
    ensures t.Some? ==> ValidPush(t.value.push)
  {
    var ((push, destination, source), s1) :- TakeArguments(s);
    var neo :- TakeCall(s1);
    Some(Transfer(push, destination, source, neo))
  }

  // What a script leaves in the transfer fields, recognised or not.

  ghost function AmountLeft(s: seq<byte>, before: s64): s64 {
    var s1 := Expect(s, PUSHNULL);
    if s1.None? || TakePush(s1.value).None? then before else Amount(TakePush(s1.value).value.0)
  }

  /** The destination, once the script has been followed that far. */
  ghost function DestinationLeft(s: seq<byte>): Option<ScriptHash> {
    var s1 :- Expect(s, PUSHNULL);
    var (push, s2) :- TakePush(s1);
    var (destination, s3) :- TakePushedHash(s2);
    Some(destination)
  }

  /** The contract is NEO, whatever follows. */
  ghost predicate NeoCalled(s: seq<byte>) {
    var s1 := Expect(s, SEQUENCE);
    s1.Some? && TakeHash(s1.value).Some? && TakeHash(s1.value).value.0 == NEO_SCRIPT_HASH
  }

  ghost predicate NeoReached(s: seq<byte>) {
    TakeArguments(s).Some? && NeoCalled(TakeArguments(s).value.1)
  }

  lemma LeftByRecognised(s: seq<byte>)
    requires Recognised(s).Some?
    ensures forall before :: AmountLeft(s, before) == Amount(Recognised(s).value.push)
    ensures DestinationLeft(s) == Some(Recognised(s).value.destination)
    ensures NeoReached(s) == Recognised(s).value.neo
  {
    hide Expect, TakePush, TakePushedHash, TakeHash;
  }

  lemma SignedRange(s: seq<byte>, n: nat)
    requires n <= |s|
    ensures Pow(256, n) > 0 && 0 <= 2 * SignedAt(s, n) + Pow(256, n) < 2 * Pow(256, n)
    ensures Pow(256, 2) == 0x1_0000 && Pow(256, 4) == 0x1_0000_0000 && Pow(256, 8) == 0x1_0000_0000_0000_0000
  {
    BytesOfLe(s[..n]);
    Capacities();
  }

  lemma SignedBytes(v: int, n: nat, rest: seq<byte>)
    requires 0 <= 2 * v + Pow(256, n) < 2 * Pow(256, n)
    ensures Unsigned(v, n) >= 0 && SignedAt(LeBytes(Unsigned(v, n), n) + rest, n) == v
  {
    hide Le, LeBytes, Pow;
    var u := Unsigned(v, n);
    LeOfBytes(u, n);
    DivModUnique(Pow(256, n), 0, u);
    assert (LeBytes(Unsigned(v, n), n) + rest)[..n] == LeBytes(Unsigned(v, n), n);
  }

  lemma BytesOfSigned(s: seq<byte>, n: nat)
    requires n <= |s|
    ensures Unsigned(SignedAt(s, n), n) >= 0 && s == LeBytes(Unsigned(SignedAt(s, n), n), n) + s[n..]
  {
    BytesOfLe(s[..n]);
  }

  lemma PushComplete(p: Push, rest: seq<byte>)
    requires ValidPush(p)
    ensures TakePush(PushBytes(p) + rest) == Some((p, rest))
  {
    hide Le, LeBytes, SignedAt, Unsigned;
    Capacities();
    var s := PushBytes(p) + rest;
    match p
    case Small(n) =>
    case Int8(b) =>
    case Int16(v) =>
      SignedBytes(v, 2, rest);
      assert s[1..] == LeBytes(Unsigned(v, 2), 2) + rest;
    case Int32(v) =>
      SignedBytes(v, 4, rest);
      assert s[1..] == LeBytes(Unsigned(v, 4), 4) + rest;
    case Int64(v) =>
      SignedBytes(v, 8, rest);
      assert s[1..] == LeBytes(Unsigned(v, 8), 8) + rest;
  }

  lemma PushSound(s: seq<byte>)
    requires TakePush(s).Some?
    ensures s == PushBytes(TakePush(s).value.0) + TakePush(s).value.1
  {
    hide Le, LeBytes, SignedAt, Unsigned;
    assert s == [s[0]] + s[1..];
    if s[0] == 0x01 { BytesOfSigned(s[1..], 2); }
    if s[0] == 0x02 { BytesOfSigned(s[1..], 4); }
    if s[0] == 0x03 { BytesOfSigned(s[1..], 8); }
  }

  lemma ExpectComplete(wanted: seq<byte>, rest: seq<byte>)
    ensures Expect(wanted + rest, wanted) == Some(rest)
  {
  }

  lemma HashComplete(h: ScriptHash, rest: seq<byte>)
    ensures TakeHash(h + rest) == Some((h, rest))
  {
  }

  /** Every transfer, with any amount its push can hold, is recognised as itself. */
  lemma RecognisedComplete(t: Transfer)
    requires ValidPush(t.push)
    ensures Recognised(ScriptBytes(t)) == Some(t)
  {
    hide Expect, TakePush, TakeHash, PushBytes;
    var asset := if t.neo then NEO_SCRIPT_HASH else GAS_SCRIPT_HASH;
    var s7 := asset + SYSCALL;
    var s6 := SEQUENCE + s7;
    var s5 := t.source + s6;
    var s4 := PUSH_HASH + s5;
    var s3 := t.destination + s4;
    var s2 := PUSH_HASH + s3;
    var s1 := PushBytes(t.push) + s2;
    ExpectComplete(PUSHNULL, s1);
    PushComplete(t.push, s2);
    ExpectComplete(PUSH_HASH, s3);
    HashComplete(t.destination, s4);
    ExpectComplete(PUSH_HASH, s5);
    HashComplete(t.source, s6);
    ExpectComplete(SEQUENCE, s7);
    HashComplete(asset, SYSCALL);
    assert SYSCALL + [] == SYSCALL;
    ExpectComplete(SYSCALL, []);
    assert NEO_SCRIPT_HASH[0] != GAS_SCRIPT_HASH[0];
  }

  lemma ExpectSound(s: seq<byte>, wanted: seq<byte>)
    requires Expect(s, wanted).Some?
    ensures s == wanted + Expect(s, wanted).value
  {
  }

  lemma HashSound(s: seq<byte>)
    requires TakeHash(s).Some?
    ensures s == TakeHash(s).value.0 + TakeHash(s).value.1
  {
  }

  /** A recognised script is the byte form of the transfer it is recognised as, so a script is
      recognised exactly when it is such a byte form, and then amount, asset and addresses are
      determined. */
  lemma RecognisedSound(s: seq<byte>)
    requires Recognised(s).Some?
    ensures ValidPush(Recognised(s).value.push) && s == ScriptBytes(Recognised(s).value)
  {
    hide Expect, TakePush, TakeHash, PushBytes;
    ExpectSound(s, PUSHNULL);
    var s1 := Expect(s, PUSHNULL).value;
    PushSound(s1);
    var s2 := TakePush(s1).value.1;
    ExpectSound(s2, PUSH_HASH);
    var s3 := Expect(s2, PUSH_HASH).value;
    HashSound(s3);
    var s4 := TakeHash(s3).value.1;
    ExpectSound(s4, PUSH_HASH);
    var s5 := Expect(s4, PUSH_HASH).value;
    HashSound(s5);
    var s6 := TakeHash(s5).value.1;
    ExpectSound(s6, SEQUENCE);
    var s7 := Expect(s6, SEQUENCE).value;
    HashSound(s7);
    var s8 := TakeHash(s7).value.1;
    ExpectSound(s8, SYSCALL);
    assert SYSCALL + [] == SYSCALL;
  }

  /** The amount the device reads is the amount the script pushes, except for a PUSHINT8 operand
      with its top bit set. */
  lemma AmountIsPushed(p: Push)
    requires ValidPush(p)
    ensures Amount(p) == Pushed(p) <==> !(p.Int8? && p.b >= 0x80)
  {
    assert Pow(256, 1) == 256;
  }

  // ---------------------------------------------------------------- byte by byte

  /** The integer pushes, n bytes long, and the amounts the device takes from them. */
  ghost predicate PushesAmount(push: seq<byte>, amount: int) {
    if |push| == 1 then 0x10 <= push[0] <= 0x20 && amount == push[0] - 0x10
    else if |push| == 2 then push[0] == 0x00 && amount == push[1]
    else if |push| == 3 then push[0] == 0x01 && SignExtended(push[1..], amount)
    else if |push| == 5 then push[0] == 0x02 && SignExtended(push[1..], amount)
    else |push| == 9 && push[0] == 0x03 && SignExtended(push[1..], amount)
  }

  /** Two's complement, least significant byte first: negative when the top bit is set. */
  ghost predicate SignExtended(s: seq<byte>, amount: int)
    requires s != []
  {
    amount == (if s[|s| - 1] < 0x80 then Le(s) else Le(s) - Pow(256, |s|))
  }

  /** The script is a transfer of this amount, to and from these script hashes, of NEO or GAS. */
  ghost predicate TransferScript(s: seq<byte>, push: seq<byte>, destination: seq<byte>, source: seq<byte>, neo: bool) {
    s == [0x0B] + (push + ([0x0C, 0x14] + (destination + ([0x0C, 0x14] + (source
         + ([0x14, 0xC0, 0x1F, 0x0C, 0x08, 0x74, 0x72, 0x61, 0x6E, 0x73, 0x66, 0x65, 0x72, 0x0C, 0x14]
         + ((if neo then [0xF5, 0x63, 0xEA, 0x40, 0xBC, 0x28, 0x3D, 0x4D, 0x0E, 0x05]
                         + [0xC4, 0x8E, 0xA3, 0x05, 0xB3, 0xF2, 0xA0, 0x73, 0x40, 0xEF]
             else [0xCF, 0x76, 0xE2, 0x8B, 0xD0, 0x06, 0x2C, 0x4A, 0x47, 0x8E]
                  + [0xE3, 0x55, 0x61, 0x01, 0x13, 0x19, 0xF3, 0xCF, 0xA4, 0xD2])
         + [0x41, 0x62, 0x7D, 0x5B, 0x52])))))))
  }

  lemma SignedIsExtended(s: seq<byte>)
    requires s != []
    ensures SignExtended(s, Signed(Le(s), |s|))
  {
    hide Le, Pow;
    TopBitSet(s);
  }

  lemma {:induction false} TopBitSet(s: seq<byte>)
    requires s != []
    ensures 2 * Le(s) < Pow(256, |s|) <==> s[|s| - 1] < 0x80
    ensures Le(s) < Pow(256, |s|)
  {
    if |s| > 1 { TopBitSet(s[1..]); }
  }

  lemma PushBytewise(p: Push)
    requires ValidPush(p)
    ensures PushesAmount(PushBytes(p), Amount(p))
  {
    hide Le, LeBytes, Pow, Signed;
    Capacities();
    match p
    case Small(n) =>
    case Int8(b) =>
    case Int16(v) => OperandBytes(v, 2);
    case Int32(v) => OperandBytes(v, 4);
    case Int64(v) => OperandBytes(v, 8);
  }

  lemma OperandBytes(v: int, n: nat)
    requires n > 0 && 0 <= 2 * v + Pow(256, n) < 2 * Pow(256, n)
    ensures Unsigned(v, n) >= 0 && SignExtended(LeBytes(Unsigned(v, n), n), v)
    ensures forall c: byte :: ([c] + LeBytes(Unsigned(v, n), n))[1..] == LeBytes(Unsigned(v, n), n)
  {
    hide Le, LeBytes, Pow;
    SignedBytes(v, n, []);
    var s := LeBytes(Unsigned(v, n), n);
    assert (s + [])[..n] == s;
    SignedIsExtended(s);
  }

  lemma AssetHashes()
    ensures NEO_SCRIPT_HASH == [0xF5, 0x63, 0xEA, 0x40, 0xBC, 0x28, 0x3D, 0x4D, 0x0E, 0x05]
                               + [0xC4, 0x8E, 0xA3, 0x05, 0xB3, 0xF2, 0xA0, 0x73, 0x40, 0xEF]
    ensures GAS_SCRIPT_HASH == [0xCF, 0x76, 0xE2, 0x8B, 0xD0, 0x06, 0x2C, 0x4A, 0x47, 0x8E]
                               + [0xE3, 0x55, 0x61, 0x01, 0x13, 0x19, 0xF3, 0xCF, 0xA4, 0xD2]
  {
  }

  lemma ScriptSpelled(s: seq<byte>, t: Transfer)
    requires ValidPush(t.push)
    ensures TransferScript(s, PushBytes(t.push), t.destination, t.source, t.neo) <==> s == ScriptBytes(t)
  {
    hide PushBytes;
    AssetHashes();
  }

  /** What a script is recognised as is what its bytes say. */
  lemma RecognisedBytewise(s: seq<byte>)
    requires Recognised(s).Some?
    ensures var t := Recognised(s).value;
            TransferScript(s, PushBytes(t.push), t.destination, t.source, t.neo)
            && PushesAmount(PushBytes(t.push), Amount(t.push))
  {
    hide PushBytes, PushesAmount, Recognised, ScriptBytes, TransferScript;
    RecognisedSound(s);
    ScriptSpelled(s, Recognised(s).value);
    PushBytewise(Recognised(s).value.push);
  }

  lemma PushFound(push: seq<byte>, amount: int) returns (p: Push)
    requires PushesAmount(push, amount)
    ensures ValidPush(p) && PushBytes(p) == push && Amount(p) == amount
  {
    hide Le, LeBytes, Pow, Signed;
    Capacities();
    if |push| == 1 {
      p := Small(push[0] - 0x10);
    } else if |push| == 2 {
      p := Int8(push[1]);
      assert push == [push[0]] + [push[1]];
    } else {
      OperandFound(push[1..], amount);
      assert push == [push[0]] + push[1..];
      p := if |push| == 3 then Int16(amount) else if |push| == 5 then Int32(amount) else Int64(amount);
    }
  }

  lemma OperandFound(s: seq<byte>, amount: int)
    requires s != [] && SignExtended(s, amount)
    ensures 0 <= 2 * amount + Pow(256, |s|) < 2 * Pow(256, |s|)
    ensures Unsigned(amount, |s|) >= 0 && LeBytes(Unsigned(amount, |s|), |s|) == s
  {
    hide Le, LeBytes, Pow;
    TopBitSet(s);
    BytesOfLe(s);
  }

  /** A script is recognised exactly when it is that of a transfer, byte for byte. */
  lemma RecognisedIff(s: seq<byte>)
    ensures Recognised(s).Some? <==>
            exists push, amount, destination: ScriptHash, source: ScriptHash, neo ::
              PushesAmount(push, amount) && TransferScript(s, push, destination, source, neo)
  {
    hide PushBytes, PushesAmount, Recognised, ScriptBytes, TransferScript;
    if Recognised(s).Some? {
      RecognisedBytewise(s);
    }
    if exists push, amount, destination: ScriptHash, source: ScriptHash, neo ::
         PushesAmount(push, amount) && TransferScript(s, push, destination, source, neo) {
      var push, amount, destination: ScriptHash, source: ScriptHash, neo :|
        PushesAmount(push, amount) && TransferScript(s, push, destination, source, neo);
      var p := PushFound(push, amount);
      ScriptSpelled(s, Transfer(p, destination, source, neo));
      RecognisedComplete(Transfer(p, destination, source, neo));
    }
  }
}
