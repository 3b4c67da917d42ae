/** The handlers, working on the global context (src/handler/sign_tx.c, src/handler/get_public_key.c,
    src/ui/action/validate.c, ui_display_transaction of src/ui/display.c), each proved to do what the
    relations of Session.dfy say. */
module Handlers {
  import opened Bytes
  import opened Address
  import opened Bip44
  import opened Buffers
  import opened Splices
  import opened Write
  import opened Grammar
  import opened Deserialize
  import opened Format
  import opened Texts
  import opened Session

  // Long enough for any amount or fee with 8 decimals.
  const NUMBER_LEN := 30

  /** format_fpu64 into a zeroed buffer, and the text snprintf takes out of it. */
  method NumberText(value: u64, decimals: byte) returns (text: string)
    requires decimals <= 8
    ensures text == FixedText(value, decimals)
  {
    hide FixedText, FixedNeeds;
    var number := new char[NUMBER_LEN](_ => '\0');
    ghost var start := number[..];
    AlwaysFits(value, decimals, NUMBER_LEN);
    FixedTextHasNoNul(value, decimals);
    var ok := FormatFpu64(number, NUMBER_LEN, value, decimals);
    WrittenOverNuls(value, decimals, start, NUMBER_LEN);
    SpliceReads(start, 0, Padded(FixedText(value, decimals), NUMBER_LEN));
    assert number[..] == Padded(FixedText(value, decimals), NUMBER_LEN);
    var n := StrLen(number, FixedText(value, decimals));
    text := number[..n];
  }

  /** ui_display_address, up to the flow: the text for a key. That it fails is not possible. */
  method AddressOfKey(env: Env, key: PublicKey) returns (text: string)
    ensures text == AddressText(env.sha256, env.ripemd160(env.sha256(RedeemScript(key))))
  {
    hide AddressText;
    var address := new char[ADDRESS_LEN](_ => '\0');
    ghost var start := address[..];
    var ok := AddressFromPubkey(env.sha256, env.ripemd160, key, address, ADDRESS_LEN);
    SpliceReads(start, 0, AddressText(env.sha256, env.ripemd160(env.sha256(RedeemScript(key)))));
    text := address[..];
    assert text == text[0..ADDRESS_LEN];
  }

  lemma FixedTextHasNoNul(value: nat, decimals: nat)
    ensures NoNul(FixedText(value, decimals))
  {
    hide DecimalText;
    TextHasNoNul(value);
  }

  /** G_context. */
  class Context {
    var state: State
    var reqType: RequestType
    // Shared by the transaction and, in its first 64 bytes, the public key.
    const rawTx: array<byte>
    var rawTxLen: nat
    const transaction: TransactionStruct
    var hash: Digest
    var networkMagic: u32
    const bip44Path: array<u32>

    ghost function Parts(): set<object> {
      {this, rawTx, transaction, transaction.dstAddress, bip44Path}
    }

    ghost predicate Shaped()
      reads this, transaction
    {
      rawTx.Length == MAX_TRANSACTION_LEN && rawTxLen <= MAX_TRANSACTION_LEN
      && bip44Path.Length == BIP44_PATH_LEN && transaction.Valid()
    }

    ghost function Abs(): Ctx
      reads this, rawTx, transaction, transaction.dstAddress, bip44Path
      requires Shaped()
    {
      Ctx(state, reqType, rawTx[..rawTxLen], transaction.Value(), hash, networkMagic, bip44Path[..])
    }

    constructor ()
      ensures Shaped() && fresh(Parts()) && Abs() == BOOTED.ctx
    {
      state, reqType := StateNone, ConfirmAddress;
      rawTx, rawTxLen := new byte[MAX_TRANSACTION_LEN](_ => 0), 0;
      transaction := new TransactionStruct();
      hash, networkMagic := NoHash(), 0;
      bip44Path := new u32[BIP44_PATH_LEN](_ => 0);
    }

    /** explicit_bzero(&G_context, sizeof(G_context)). */
    method Reset()
      requires Shaped()
      modifies Parts()
      ensures Shaped() && Abs() == Zeroed(StateNone, ConfirmAddress, NO_PATH)
    {
      state, reqType := StateNone, ConfirmAddress;
      rawTxLen, hash, networkMagic := 0, NoHash(), 0;
      forall i | 0 <= i < rawTx.Length { rawTx[i] := 0; }
      forall i | 0 <= i < bip44Path.Length { bip44Path[i] := 0; }
      transaction.Clear();
    }

    /** handler_sign_tx: chunk 0 starts over with a path, chunk 1 brings the magic, the others the
        transaction. */
    method HandlerSignTx(env: Env, cdata: Buffer, chunk: byte, more: bool) returns (out: Outcome)
      requires Shaped() && cdata.Valid() && cdata.offset == 0 && cdata !in Parts()
      modifies Parts(), cdata
      ensures Shaped() && SignTx(env, old(Abs()), cdata.ptr, chunk, more, Abs(), out)
    {
      hide StoredOver, StatusOf, LastChunk;
      if chunk == 0 {
        Reset();
        reqType := ConfirmTransaction;
        var ok, status := BufferReadAndValidateBip44(cdata, bip44Path);
        if !ok { return PathRefused(status); }
        state := StateBip44Ok;
        out := Answered(SwOk);
      } else if chunk == 1 {
        out := ReceiveMagic(cdata);
      } else {
        out := ReceiveTransaction(env, cdata, more);
      }
    }

    method ReceiveMagic(cdata: Buffer) returns (out: Outcome)
      requires Shaped() && cdata.Valid() && cdata.offset == 0 && cdata !in Parts()
      modifies this`state, this`networkMagic, cdata
      ensures Shaped() && MagicChunk(old(Abs()), cdata.ptr, Abs(), out)
    {
      if reqType != ConfirmTransaction && state != StateBip44Ok { return Answered(SwBadState); }
      assert cdata.Rest() == cdata.ptr;
      var ok;
      ok, networkMagic := cdata.ReadU32(false);
      if !ok { return Answered(SwMagicParsingFail); }
      state := StateMagicOk;
      return Answered(SwOk);
    }

    method ReceiveTransaction(env: Env, cdata: Buffer, more: bool) returns (out: Outcome)
      requires Shaped() && cdata.Valid() && cdata.offset == 0 && cdata !in Parts()
      modifies Parts(), cdata
      ensures Shaped() && TxChunk(env, old(Abs()), cdata.ptr, more, Abs(), out)
    {
      hide Deserialized;
      ghost var before := Abs();
      if reqType != ConfirmTransaction && state != StateMagicOk { return Answered(SwBadState); }
      var ok := Append(cdata);
      if !ok { return Answered(SwWrongTxLength); }
      if more { return Answered(SwOk); }
      ghost var stored := Abs();
      out := ParseAndDisplay(env);
      ghost var status, tx :| ParsedInto(env, stored, stored.raw, status, tx, Abs(), out);
      assert ParsedInto(env, before, before.raw + cdata.ptr, status, tx, Abs(), out);
    }

    /** Room for the data, then the data. */
    method Append(cdata: Buffer) returns (ok: bool)
      requires Shaped() && cdata.Valid() && cdata.offset == 0 && cdata !in Parts()
      modifies rawTx, this`rawTxLen, cdata
      ensures Shaped() && ok == (|old(Abs()).raw| + |cdata.ptr| <= MAX_TRANSACTION_LEN)
      ensures Abs() == if ok then old(Abs()).(raw := old(Abs()).raw + cdata.ptr) else old(Abs())
    {
      if rawTxLen + |cdata.ptr| > MAX_TRANSACTION_LEN { return false; }
      assert cdata.Rest() == cdata.ptr;
      ok := cdata.Move(rawTx, rawTxLen, |cdata.ptr|);
      if !ok { return; }
      rawTxLen := rawTxLen + |cdata.ptr|;
    }

    /** The end of the last chunk: the stored bytes are parsed, hashed and shown. */
    method ParseAndDisplay(env: Env) returns (out: Outcome)
      requires Shaped()
      modifies Parts()
      ensures Shaped()
      ensures exists status, tx :: ParsedInto(env, old(Abs()), old(Abs()).raw, status, tx, Abs(), out)
    {
      hide Deserialized, ShownOf;
      ghost var before := Abs();
      var buf := new Buffer(rawTx[..rawTxLen]);
      var status := transaction.TransactionDeserialize(env.sha256, buf);
      ghost var tx := transaction.Value();
      if status != ParsingOk {
        out := ParsingFailed(status);
      } else {
        state := StateParsed;
        hash := env.sha256(rawTx[..rawTxLen]);
        out := UiDisplayTransaction();
      }
      assert ParsedInto(env, before, before.raw, status, tx, Abs(), out);
    }

    /** ui_display_transaction, up to the flow. That format_fpu64 fails is not possible. */
    method UiDisplayTransaction() returns (out: Outcome)
      requires Shaped()
      modifies this`state
      ensures Shaped() && DisplayTransaction(old(Abs()), Abs(), out)
    {
      hide FixedText;
      if reqType != ConfirmTransaction || state != StateParsed {
        state := StateNone;
        return Answered(SwBadState);
      }
      var transfer: Option<TransferShown> := None;
      if transaction.isSystemAssetTransfer {
        var number := NumberText(AsU64(transaction.amount), if transaction.isNeo then 0 else 8);
        var amount := Cut(G_TEXT_LEN, (if transaction.isNeo then "NEO " else "GAS ") + number);
        transfer := Some(TransferShown(Cut(G_ADDRESS_LEN, transaction.dstAddress[..]), amount));
      }
      var network := Cut(G_NETWORK_LEN,
        if networkMagic == NETWORK_MAINNET then "MainNet"
        else if networkMagic == NETWORK_TESTNET then "TestNet"
        else PercentD(networkMagic));
      var systemFee := NumberText(AsU64(transaction.systemFee), 8);
      var networkFee := NumberText(AsU64(transaction.networkFee), 8);
      var totalFee := NumberText(SumU64(AsU64(transaction.networkFee), AsU64(transaction.systemFee)), 8);
      var validUntil := Cut(G_HEIGHT_LEN, PercentD(transaction.validUntilBlock));
      out := Presented(Shown(transfer, network, Cut(G_FEE_LEN, "GAS " + systemFee), Cut(G_FEE_LEN, "GAS " + networkFee),
        Cut(G_FEE_LEN, "GAS " + totalFee), validUntil));
    }

    /** handler_get_public_key: starts over, and puts the key of the path where the transaction was. */
    method HandlerGetPublicKey(env: Env, cdata: Buffer, show: bool) returns (out: Outcome)
      requires Shaped() && cdata.Valid() && cdata.offset == 0 && cdata !in Parts()
      modifies Parts(), cdata
      ensures Shaped() && GetPublicKey(env, cdata.ptr, show, Abs(), out)
      ensures !out.PathRefused? ==> rawTx[..64] == env.publicKey(Abs().path)
    {
      hide StoredOver, StatusOf, AddressText;
      Reset();
      var ok, status := BufferReadAndValidateBip44(cdata, bip44Path);
      if !ok { return PathRefused(status); }
      var path: Path := bip44Path[..];
      var key := env.publicKey(path);
      forall i | 0 <= i < 64 { rawTx[i] := key[i]; }
      assert rawTx[..64] == key && Abs() == Zeroed(StateNone, ConfirmAddress, path);
      if show {
        var address := AddressOfKey(env, rawTx[..64]);
        return AddressPresented(address);
      }
      return PublicKeySent(key);
    }

    /** ui_action_validate_transaction. */
    method UiActionValidateTransaction(env: Env, approved: bool) returns (out: Outcome)
      requires Shaped()
      modifies this`state
      ensures Shaped() && ValidateTransaction(env, old(Abs()), approved, Abs(), out)
    {
      hide LeBytes;
      if !approved {
        state := StateNone;
        return Answered(SwDeny);
      }
      state := StateApproved;
      var signature := CryptoSignTx(env);
      if signature.None? {
        state := StateNone;
        return Answered(SwSignFail);
      }
      return SignatureSent(signature.value);
    }

    /** crypto_sign_tx: the message is the magic as the device stores it, and the hash. */
    method CryptoSignTx(env: Env) returns (signature: Option<seq<byte>>)
      requires Shaped()
      ensures signature == env.sign(Abs().path, env.sha256(SignedMessage(Abs())))
    {
      hide LeBytes;
      var data := new byte[36](_ => 0);
      WriteU32Le(data, 0, networkMagic);
      assert data[..4] == LeBytes(networkMagic, 4);
      forall i | 0 <= i < 32 { data[4 + i] := hash[i]; }
      assert data[..] == data[..4] + data[4..] && data[4..] == hash && data[..4] == LeBytes(networkMagic, 4);
      signature := env.sign(bip44Path[..], env.sha256(data[..]));
    }
  }
}
