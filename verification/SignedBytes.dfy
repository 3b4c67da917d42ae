/** From the signed bytes to the screen: what the review showed before a signature, read back as numbers
    and compared with the bytes that were signed. */
module SignedBytes {
  import opened Bytes
  import opened Numerals
  import opened Address
  import opened Base58
  import opened Bip44
  import opened Format
  import opened Texts
  import opened Grammar
  import opened GrammarTheorems
  import opened Transfer
  import opened Layout
  import opened Pages
  import opened Drawing
  import opened Session
  import opened SessionInvariant
  import opened SessionTheorems

  /** A fee reads as fee / 10^8 GAS, with exactly eight fraction digits. */
  lemma FeeReadsBack(fee: u64)
    ensures |FeeText(fee)| > 13 && FeeText(fee)[..4] == "GAS "
    ensures Denotes(FeeText(fee)[4..], |FeeText(fee)| - 13, fee, 8)
  {
    hide FixedText, Denotes;
    FixedTextIsExact(fee, 8);
    assert FeeText(fee)[4..] == FixedText(fee, 8);
  }

  /** GAS amounts read likewise; NEO amounts as whole numbers, with ".0" behind. The number is the amount,
      and for a negative amount 2^64 more. */
  lemma AmountReadsBack(amount: s64, neo: bool)
    ensures var text := AmountText(amount, neo);
            var number := if amount >= 0 then amount else amount + 0x1_0000_0000_0000_0000;
            && |text| > 6 && text[..4] == (if neo then "NEO " else "GAS ")
            && (neo ==> text[|text| - 2..] == ".0" && IsDigitText(text[4..|text| - 2])
                        && Value(10, DigitsIn(text[4..|text| - 2])) == number)
            && (!neo ==> |text| > 13 && Denotes(text[4..], |text| - 13, number, 8))
  {
    hide FixedText, Denotes, DecimalText, Value;
    var number := AsU64(amount);
    var text := AmountText(amount, neo);
    if neo {
      WholeTextIsExact(number);
      DecimalReadsBack(number);
      assert text[4..] == DecimalText(number) + ".0";
      assert text[4..|text| - 2] == DecimalText(number);
    } else {
      FixedTextIsExact(number, 8);
      assert text[4..] == FixedText(number, 8);
    }
  }

  /** The magic that is signed is, byte for byte, the one that was sent. */
  lemma MagicBytes(data: seq<byte>)
    requires |data| >= 4
    ensures LeBytes(MagicIn(data), 4) == data[..4]
  {
    hide Le, LeBytes;
    BytesOfLe(data[..4]);
  }

  /** The texts of a fee, of network and height, of the transfer. */
  ghost predicate FeeReads(text: string, fee: nat) {
    |text| > 13 && text[..4] == "GAS " && Denotes(text[4..], |text| - 13, fee, 8)
  }

  ghost predicate AmountReads(text: string, amount: int, neo: bool) {
    var number := if amount >= 0 then amount else amount + 0x1_0000_0000_0000_0000;
    && number >= 0 && |text| > 6 && text[..4] == (if neo then "NEO " else "GAS ")
    && (neo ==> text[|text| - 2..] == ".0" && IsDigitText(text[4..|text| - 2])
                && Value(10, DigitsIn(text[4..|text| - 2])) == number)
    && (!neo ==> |text| > 13 && Denotes(text[4..], |text| - 13, number, 8))
  }

  ghost predicate NumberReads(text: string, number: nat) {
    IsDigitText(text) && Value(10, DigitsIn(text)) == number
  }

  ghost predicate NetworkReads(text: string, magic: nat) {
    (text == "MainNet" <==> magic == 860833102) && (text == "TestNet" <==> magic == 877933390)
    && (magic != 860833102 && magic != 877933390 ==> (NumberReads(text, magic) <==> magic < 0x8000_0000))
  }

  /** Base58Check: the text decodes to 0x35, the script hash and the checksum of both. */
  ghost predicate AddressReads(sha256: Hash, text: string, scriptHash: seq<byte>) {
    var b := Decoding(text);
    |b| == 25 && b[0] == 0x35 && b[1..21] == scriptHash && b[21..] == sha256(sha256(b[..21]))[..4]
  }

  lemma NumberForReads(v: u32)
    ensures NumberReads(NumberFor(v), v) <==> v < 0x8000_0000
    ensures NetworkReads(NetworkFor(v), v)
  {
    hide DecimalText, Value, PercentD;
    DecimalReadsBack(v);
    NetworksSpelled(v);
    NetworkShown(v);
    assert !IsDigitText("-" + DecimalText(Kept(v))) by {
      assert ("-" + DecimalText(Kept(v)))[0] == '-';
    }
  }

  lemma ShownReads(env: Env, t: Transaction, magic: u32)
    requires WellFormedHeader(t.header)
    ensures var shown := ShownFor(env, t, magic);
            && FeeReads(shown.systemFee, t.header.systemFee) && FeeReads(shown.networkFee, t.header.networkFee)
            && FeeReads(shown.totalFees, t.header.systemFee + t.header.networkFee)
            && (NumberReads(shown.validUntil, t.header.validUntilBlock) <==> t.header.validUntilBlock < 0x8000_0000)
            && NetworkReads(shown.network, magic)
            && (Recognised(t.script).Some? ==>
                  var x := Recognised(t.script).value;
                  shown.transfer.Some? && AddressReads(env.sha256, shown.transfer.value.address, x.destination)
                  && AmountReads(shown.transfer.value.amount, Amount(x.push), x.neo))
  {
    hide FeeText, AmountText, AddressText, Denotes, Recognised, NumberReads, NetworkReads, NumberFor, NetworkFor,
         Decoding, Value, DigitsIn, IsDigitText;
    FeeReadsBack(t.header.systemFee);
    FeeReadsBack(t.header.networkFee);
    FeeReadsBack(t.header.systemFee + t.header.networkFee);
    NumberForReads(t.header.validUntilBlock);
    NumberForReads(magic);
    if Recognised(t.script).Some? {
      var x := Recognised(t.script).value;
      AddressReadsBack(env.sha256, x.destination);
      AmountReadsBack(Amount(x.push), x.neo);
    }
  }

  /** At every call of crypto_sign_tx in a run: the bytes that are signed end in the script of a transfer
      (push, destination, source, asset), byte for byte; and the review p that led to it showed
      - an address that is Base58Check of the destination in those bytes,
      - the amount of the push, in the asset called,
      - as system fee the eight bytes at 5, as network fee those at 13, as total their sum, all in GAS,
      - as height the four bytes at 21, exactly when below 2^31,
      - as network the magic that is signed, by name or number, a number exactly when below 2^31. */
  lemma ScreenReadsSignedBytes(env: Env, ds: seq<Device>, events: seq<Event>, outs: seq<Option<Outcome>>, i: nat)
    returns (p: nat, shown: Shown, transfer: TransferShown, code: seq<byte>, x: Transfer)
    requires Run(env, ds, events, outs) && i < |events| && Signs(ds[i], events[i])
    ensures var sent := SentBy(events[..i]); var raw := sent.raw;
            && p < i && outs[p] == Some(Presented(shown)) && (forall k :: p < k < i ==> !events[k].Command?)
            && 25 < |raw| <= 1024 && raw[0] == 0 && |code| <= |raw| - 25 && raw[|raw| - |code|..] == code
            && ValidPush(x.push) && TransferScript(code, PushBytes(x.push), x.destination, x.source, x.neo)
            && PushesAmount(PushBytes(x.push), Amount(x.push))
            && shown.transfer == Some(transfer)
            && AddressReads(env.sha256, transfer.address, x.destination)
            && AmountReads(transfer.amount, Amount(x.push), x.neo)
            && FeeReads(shown.systemFee, Le(raw[5..13])) && FeeReads(shown.networkFee, Le(raw[13..21]))
            && FeeReads(shown.totalFees, Le(raw[5..13]) + Le(raw[13..21]))
            && (NumberReads(shown.validUntil, Le(raw[21..25])) <==> Le(raw[21..25]) < 0x8000_0000)
            && NetworkReads(shown.network, sent.magic)
            && outs[i] == match env.sign(Stored(sent.pathData), env.sha256(LeBytes(sent.magic, 4) + env.sha256(raw)))
                          case None => Some(Answered(SwSignFail))
                          case Some(signature) => Some(SignatureSent(signature))
  {
    hide Run, Signs, SentBy, Serialize, WellFormed, Parsing, Recognised, TransferScript, PushesAmount, AddressReads,
         AmountReads, FeeReads, NumberReads, NetworkReads, ShownFor, AllPages, ShapesFor, Walk, Shows, Le, LeBytes,
         PushBytes, NetworkFor, NumberFor, TrueNetwork, Keys, WasAt;
    var t, presses;
    p, t, presses := SignedIsShown(env, ds, events, outs, i);
    var sent := SentBy(events[..i]);
    FromGrammar(t, sent.raw);
    code, x := t.script, Recognised(t.script).value;
    RecognisedBytewise(t.script);
    shown := ShownFor(env, t, sent.magic);
    ShownReads(env, t, sent.magic);
    transfer := shown.transfer.value;
  }

  lemma FromGrammar(t: Transaction, raw: seq<byte>)
    requires WellFormed(t) && Serialize(t) == raw && |raw| <= MAX_TRANSACTION_LEN
    ensures WellFormedHeader(t.header)
    ensures 25 < |raw| <= 1024 && raw[0] == 0 && |t.script| <= |raw| - 25 && raw[|raw| - |t.script|..] == t.script
    ensures t.header.systemFee == Le(raw[5..13]) && t.header.networkFee == Le(raw[13..21])
    ensures t.header.validUntilBlock == Le(raw[21..25])
  {
    hide Parsing, Serialize, Le;
    ParseOfSerialize(t);
    AcceptedBytewise(raw);
  }
}
