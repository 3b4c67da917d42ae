/** NEO addresses (src/ui/utils.c). The hash functions are parameters: nothing is assumed of
    them but the length of their digests. */
module Address {
  import opened Bytes
  import opened Numerals
  import opened Base58Alphabet
  import opened Base58
  import opened Write
  import opened Splices

  type Digest = d: seq<byte> | |d| == 32 witness seq(32, _ => 0)
  type ScriptHash = h: seq<byte> | |h| == UINT160_LEN witness seq(UINT160_LEN, _ => 0)
  type Hash = seq<byte> -> Digest
  type Hash160 = seq<byte> -> ScriptHash

  const ADDRESS_VERSION: byte := 0x35
  const CHECKSUM_LEN := 4
  const ADDRESS_LEN := 34
  const VERIFICATION_SCRIPT_LENGTH := 40

  /** Version byte, script hash, and the first bytes of the twice hashed version and script hash. */
  function AddressBytes(sha256: Hash, scriptHash: ScriptHash): (bytes: seq<byte>)
    ensures |bytes| == 1 + UINT160_LEN + CHECKSUM_LEN
  {
    var payload := [ADDRESS_VERSION] + scriptHash;
    payload + sha256(sha256(payload))[..CHECKSUM_LEN]
  }

  ghost function AddressText(sha256: Hash, scriptHash: ScriptHash): string {
    Encoding(AddressBytes(sha256, scriptHash))
  }

  /** The result of base58_encode is ignored; it is a failure only for a too small output. */
  method ScriptHashToAddress(sha256: Hash, output: array<char>, outLen: nat, scriptHash: ScriptHash)
    requires outLen <= output.Length
    modifies output
    ensures |AddressText(sha256, scriptHash)| == ADDRESS_LEN
    ensures output[..] == if outLen < ADDRESS_LEN then old(output[..])
                          else Splice(old(output[..]), 0, AddressText(sha256, scriptHash))
  {
    var address: seq<byte> := [ADDRESS_VERSION] + scriptHash;
    var hash1 := sha256(address);
    var hash2 := sha256(hash1);
    address := address + hash2[..CHECKSUM_LEN];
    AddressShape(sha256, scriptHash);
    var written := Base58Encode(address, output, outLen);
  }

  type PublicKey = k: seq<byte> | |k| == 64 witness seq(64, _ => 0)

  /** The x-coordinate, behind a byte telling whether the y-coordinate is odd. */
  function Compressed(publicKey: PublicKey): seq<byte> {
    [if publicKey[63] % 2 == 1 then 0x03 else 0x02] + publicKey[..32]
  }

  // PUSHDATA1(33) key SYSCALL System.Crypto.CheckSig
  function RedeemScript(publicKey: PublicKey): (script: seq<byte>)
    ensures |script| == VERIFICATION_SCRIPT_LENGTH
  {
    [0x0C, 0x21] + Compressed(publicKey) + [0x41, 0x56, 0xE7, 0xB3, 0x27]
  }

  method CreateSignatureRedeemScript(publicKey: PublicKey, output: array<byte>, outLen: nat) returns (ok: bool)
    requires outLen <= output.Length
    modifies output
    ensures ok == (outLen == 40)
    ensures output[..] == if ok then Splice(old(output[..]), 0, RedeemScript(publicKey)) else old(output[..])
  {
    if outLen != VERIFICATION_SCRIPT_LENGTH {
      return false;
    }
    hide LeBytes;
    ghost var start := output[..];
    var compressed := [if publicKey[63] % 2 == 1 then 0x03 else 0x02] + publicKey[..32];
    output[0] := 0x0C;
    output[1] := 0x21;
    forall i | 0 <= i < 33 {
      output[2 + i] := compressed[i];
    }
    output[35] := 0x41;
    assert output[2..35] == compressed;
    assert output[..36] == [0x0C, 0x21] + compressed + [0x41] && output[40..] == start[40..];
    LeBytes4(0x27B3E756);
    WriteU32Le(output, 36, 0x27B3E756);
    assert output[..40] == RedeemScript(publicKey) && output[40..] == start[40..];
    return true;
  }

  method AddressFromPubkey(sha256: Hash, ripemd160: Hash160, publicKey: PublicKey, output: array<char>, outLen: nat)
    returns (ok: bool)
    requires outLen <= output.Length
    modifies output
    ensures ok
    ensures var address := AddressText(sha256, ripemd160(sha256(RedeemScript(publicKey))));
            |address| == ADDRESS_LEN
            && output[..] == if outLen < ADDRESS_LEN then old(output[..]) else Splice(old(output[..]), 0, address)
  {
    var script := new byte[VERIFICATION_SCRIPT_LENGTH](_ => 0);
    ok := CreateSignatureRedeemScript(publicKey, script, script.Length);
    assert script[..] == RedeemScript(publicKey);
    var scriptHash := ripemd160(sha256(script[..]));
    ScriptHashToAddress(sha256, output, outLen, scriptHash);
  }

  /** The redeem script keeps the x-coordinate and the parity of the y-coordinate, and only those. */
  lemma RedeemScriptKeepsKey(a: PublicKey, b: PublicKey)
    ensures RedeemScript(a) == RedeemScript(b) <==> a[..32] == b[..32] && a[63] % 2 == b[63] % 2
  {
    var s, t := RedeemScript(a), RedeemScript(b);
    assert s[3..35] == a[..32] && t[3..35] == b[..32];
    assert s[2] == Compressed(a)[0] && t[2] == Compressed(b)[0];
  }

  /** A number between d and d + 1 times a power has that power's length and leads with d. */
  lemma LeadingDigit(base: nat, n: nat, d: nat, m: nat)
    requires base >= 2 && 0 < d < base
    requires d * Pow(base, m) <= n < (d + 1) * Pow(base, m)
    ensures |Digits(base, n)| == m + 1 && Digits(base, n)[0] == d
  {
    hide Digits, Value;
    var s, p := Digits(base, n), Pow(base, m);
    PowPositive(base, m);
    MulMonotone(1, d, p);
    ValueOfDigits(base, n);
    ValueLowerBound(base, s);
    ValueBound(base, s);
    MulMonotone(d + 1, base, p);
    assert Pow(base, m + 1) == base * p;
    PowLess(base, m, |s|);
    PowLess(base, |s| - 1, m + 1);
    assert |s| == m + 1;
    assert s == s[..1] + s[1..];
    ValueConcat(base, s[..1], s[1..]);
    ValueSnoc(base, [], s[0]);
    EmptyValue(base);
    assert s[..1] == [] + [s[0]];
    ValueBound(base, s[1..]);
    assert s[0] * p <= n < (s[0] + 1) * p;
    MulMonotone(s[0] + 1, d, p);
    MulMonotone(d + 1, s[0], p);
  }

  lemma Powers()
    ensures 21 * Pow(58, 33) <= 53 * Pow(256, 24) && 54 * Pow(256, 24) <= 22 * Pow(58, 33)
  {
    assert Pow(256, 8) == 18446744073709551616;
    PowAdd(256, 8, 8);
    PowAdd(256, 8, 16);
    assert Pow(58, 11) == 24986644000165537792;
    PowAdd(58, 11, 11);
    PowAdd(58, 11, 22);
  }

  /** Every address has 34 characters and starts with 'N'. */
  lemma AddressShape(sha256: Hash, scriptHash: ScriptHash)
    ensures |AddressText(sha256, scriptHash)| == 34
    ensures AddressText(sha256, scriptHash)[0] == 'N'
  {
    hide Value, Digits;
    var bytes: seq<byte> := AddressBytes(sha256, scriptHash);
    LeadingZerosUnique(bytes, 0);
    assert bytes == [ADDRESS_VERSION] + bytes[1..];
    ValueCons(256, ADDRESS_VERSION, bytes[1..]);
    ValueBound(256, bytes[1..]);
    Powers();
    LeadingDigit(58, Value(256, bytes), 21, 33);
    assert EncodedDigits(bytes) == Digits(58, Value(256, bytes));
    AlphabetClosedForm(21);
  }

  /** Different script hashes have different addresses, whatever the hash function. */
  lemma AddressInjective(sha256: Hash, a: ScriptHash, b: ScriptHash)
    ensures AddressText(sha256, a) == AddressText(sha256, b) <==> a == b
  {
    var p, q := AddressBytes(sha256, a), AddressBytes(sha256, b);
    assert p[1..1 + UINT160_LEN] == a && q[1..1 + UINT160_LEN] == b;
    if AddressText(sha256, a) == AddressText(sha256, b) {
      EncodingInjective(p, q);
    }
  }

  /** Base58Check, on the text alone: it decodes to the version 0x35, the script hash, and the first
      four bytes of the double SHA-256 of these; for every hash function and every script hash. */
  lemma AddressReadsBack(sha256: Hash, scriptHash: ScriptHash)
    ensures var b := Decoding(AddressText(sha256, scriptHash));
            && |b| == 25 && b[0] == 0x35 && b[1..21] == scriptHash && b[21..] == sha256(sha256(b[..21]))[..4]
  {
    hide Encoding, Decoding;
    EncodingIsFaithful(AddressBytes(sha256, scriptHash));
    var b := AddressBytes(sha256, scriptHash);
    assert b[..21] == [ADDRESS_VERSION] + scriptHash;
  }

  /** The script that checks a signature of the key: push of the compressed key, whose first byte is 2 or
      3 as y is even or odd and the rest x, and the system call. */
  lemma RedeemScriptBytewise(publicKey: PublicKey)
    ensures RedeemScript(publicKey)
            == [0x0C, 0x21] + ([2 + Be(publicKey[32..]) % 2] + publicKey[..32]) + [0x41, 0x56, 0xE7, 0xB3, 0x27]
  {
    hide Value;
    var y := publicKey[32..];
    ValueSnoc(256, y[..31], y[31]);
    assert y[..31] + [y[31]] == y && y[31] == publicKey[63];
    LastBit(Value(256, y[..31]), y[31]);
  }

  lemma LastBit(v: nat, b: nat)
    ensures (v * 256 + b) % 2 == b % 2
  {
  }
}
