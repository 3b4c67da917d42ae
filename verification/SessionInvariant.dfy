/** The invariant of the session: what the stored bytes, the parsed structure and the screen have to do
    with one another, and what a final chunk does to them. */
module SessionInvariant {
  import opened Bytes
  import opened Address
  import opened Bip44
  import opened Grammar
  import opened GrammarTheorems
  import opened Transfer
  import opened Deserialize
  import opened Format
  import opened Pages
  import opened Texts
  import opened Drawing
  import opened Session

  // ---------------------------------------------------------------- what the bytes say

  /** What the review of a transaction shows, from the transaction and the magic alone. The texts are
      whole and the sum of the fees is the true sum; magic and height are decimal numbers below 2^31,
      and from there on what NumberFor says. */
  ghost function ShownFor(env: Env, t: Transaction, magic: u32): Shown
    requires WellFormedHeader(t.header)
  {
    Shown(match Recognised(t.script)
          case None => None
          case Some(x) =>
            Some(TransferShown(AddressText(env.sha256, x.destination), AmountText(Amount(x.push), x.neo))),
          NetworkFor(magic), FeeText(t.header.systemFee), FeeText(t.header.networkFee),
          FeeText(t.header.systemFee + t.header.networkFee), NumberFor(t.header.validUntilBlock))
  }

  ghost function TransactionIn(raw: seq<byte>): (t: Transaction)
    requires Accepted(raw, FRESH)
    ensures WellFormed(t) && Serialize(t) == raw
  {
    ParserAgreesWithGrammar(raw);
    Parsing(raw, FRESH).value
  }

  /** What the final chunk is answered with, as a function of the bytes alone. */
  ghost function Verdict(env: Env, raw: seq<byte>, magic: u32): Outcome {
    if Accepted(raw, FRESH) then Presented(ShownFor(env, TransactionIn(raw), magic))
    else ParsingFailed(Parsing(raw, FRESH).status)
  }

  /** No strict extension of these bytes is accepted, whatever the structure holds. */
  ghost predicate Spent(raw: seq<byte>) {
    forall more, slots: Slots :: more != [] ==> !Accepted(raw + more, slots)
  }

  lemma SpentExtends(raw: seq<byte>, data: seq<byte>)
    requires Spent(raw)
    ensures Spent(raw + data)
  {
    hide Accepted;
    forall more, slots: Slots | more != [] ensures !Accepted((raw + data) + more, slots) {
      assert (raw + data) + more == raw + (data + more);
    }
  }

  lemma AcceptedIsSpent(raw: seq<byte>, slots: Slots)
    requires Accepted(raw, slots)
    ensures Spent(raw)
  {
    hide Accepted;
    forall more, later: Slots | more != [] ensures !Accepted(raw + more, later) {
      AcceptedOnce(raw, more, slots, later);
    }
  }

  lemma ScriptFoundIsSpent(raw: seq<byte>, slots: Slots)
    requires ScriptReached(raw, slots).Some?
    ensures Spent(raw)
  {
    hide Accepted, TakeTransaction;
    forall more, later: Slots | more != [] ensures !Accepted(raw + more, later) {
      BeyondScript(raw, slots, more, later);
    }
  }

  // ---------------------------------------------------------------- the structure across parses

  lemma ScopeExtends(bytes: seq<byte>, more: seq<byte>, i: nat)
    requires ScopeAt(bytes, i).Some?
    ensures ScopeAt(bytes + more, i) == ScopeAt(bytes, i)
  {
    hide TakeHeader, TakeVarint, TakeSigners;
    HeaderExtends(bytes, more);
    VarintExtends(TakeHeader(bytes).rest, more, SignerLengthParsingError);
    SignersExtend(SignersStart(bytes).rest, i, more);
  }

  lemma SlotsBelongExtends(slots: seq<SignerSlot>, bytes: seq<byte>, more: seq<byte>)
    requires SlotsBelong(slots, bytes)
    ensures SlotsBelong(slots, bytes + more)
  {
    hide ScopeAt;
    forall i | 0 <= i < MAX_TX_SIGNERS ensures SlotBelongs(slots[i], bytes + more, i) {
      if ScopeAt(bytes, i).Some? { ScopeExtends(bytes, more, i); }
    }
  }

  // ---------------------------------------------------------------- the invariant

  /** The attribute slots after a parse that reached an attribute. */
  const MARKED: Slots := [HIGH_PRIORITY, 0]

  ghost predicate CtxInv(c: Ctx) {
    |c.raw| <= MAX_TRANSACTION_LEN
    && (c.raw == [] ==> c.tx == ZEROED)
    && (c.reqType == ConfirmAddress ==> c == Zeroed(StateNone, ConfirmAddress, c.path))
    && (c.state == StateBip44Ok ==> ValidPath(c.path))
    && SlotsBelong(c.tx.signers, c.raw)
    && (c.tx.attributes == FRESH || (c.tx.attributes == MARKED && ReachesAttribute(c.raw)))
    && (c.tx.isSystemAssetTransfer || c.tx.isNeo ==> Spent(c.raw))
  }

  /** A review is of the transaction in the stored bytes, and their hash is the stored one. */
  ghost predicate Reviewed(env: Env, c: Ctx, shown: Shown, pages: seq<Page>) {
    c.reqType == ConfirmTransaction && c.state == StateParsed && c.hash == env.sha256(c.raw)
    && Accepted(c.raw, FRESH) && Holds(c.tx, c.raw, TransactionIn(c.raw))
    && shown == ShownOf(c.tx, c.magic) == ShownFor(env, TransactionIn(c.raw), c.magic)
    && Shapes(c.tx) == ShapesFor(TransactionIn(c.raw).signers) && pages == AllPages(Shapes(c.tx))
  }

  ghost predicate UiInv(env: Env, c: Ctx, ui: Ui) {
    match ui
    case Menu => true
    case Reviewing(shown, pages, _) => Reviewed(env, c, shown, pages)
    case ShowingAddress(address, _) =>
      c.reqType == ConfirmAddress && ValidPath(c.path) && address == AddressOf(env, c.path)
  }

  ghost predicate Inv(env: Env, d: Device) {
    CtxInv(d.ctx) && UiInv(env, d.ctx, d.ui)
  }

  lemma ZeroedInv(state: State, reqType: RequestType, path: Path)
    requires state == StateNone || (state == StateBip44Ok && reqType == ConfirmTransaction && ValidPath(path))
    ensures CtxInv(Zeroed(state, reqType, path))
  {
    hide ScopeAt, Spent;
  }

  /** The structure of a successful parse shows the transaction in the bytes. */
  lemma HeldIsShown(env: Env, tx: TransactionValue, raw: seq<byte>, t: Transaction, magic: u32)
    requires WellFormed(t) && Holds(tx, raw, t)
    requires match Recognised(t.script)
             case None => !tx.isSystemAssetTransfer
             case Some(x) => tx.isSystemAssetTransfer && tx.isNeo == x.neo && tx.amount == Amount(x.push)
                             && tx.dstAddress == AddressText(env.sha256, x.destination)
    ensures ShownOf(tx, magic) == ShownFor(env, t, magic)
    ensures Shapes(tx) == ShapesFor(t.signers)
  {
    hide Recognised, WellFormedSigner, SlicesAt, SliceAt, AddressText, FixedText, NetworkText, NetworkFor, PercentD,
         NumberFor;
    FeeFits(tx.systemFee);
    FeeFits(tx.networkFee);
    FeeFits(tx.networkFee + tx.systemFee);
    AmountFits(AsU64(tx.amount), tx.isNeo);
    if Recognised(t.script).Some? { AddressShape(env.sha256, Recognised(t.script).value.destination); }
    NetworkShown(magic);
    HeightShown(tx.validUntilBlock);
  }

  lemma HeightShown(v: u32)
    ensures Cut(G_HEIGHT_LEN, PercentD(v)) == NumberFor(v)
  {
    hide PercentD, DecimalText;
    NumberShown(v);
  }

  lemma FeeFits(fee: u64)
    ensures |FeeText(fee)| < G_FEE_LEN
  {
    hide DecimalText;
    DecimalLength(fee);
  }

  lemma AmountFits(amount: u64, neo: bool)
    ensures |FixedText(amount, if neo then 0 else 8)| + 4 < G_TEXT_LEN
  {
    hide DecimalText;
    DecimalLength(amount);
  }

  /** A parse from a structure no earlier script has marked. */
  lemma ParsedShows(env: Env, raw: seq<byte>, before: TransactionValue, tx: TransactionValue, magic: u32)
    requires Deserialized(env.sha256, raw, before, ParsingOk, tx)
    requires SlotsBelong(before.signers, raw) && !before.isSystemAssetTransfer && !before.isNeo
    ensures Accepted(raw, FRESH) && Holds(tx, raw, TransactionIn(raw))
    ensures ShownOf(tx, magic) == ShownFor(env, TransactionIn(raw), magic)
    ensures Shapes(tx) == ShapesFor(TransactionIn(raw).signers)
  {
    hide TakeTransaction, Recognised, Serialize, WellFormed, Holds, SlotsBelong, ShownFor, ShownOf, AddressText,
         AmountLeft, NeoReached, SlotsAfter;
    StaleAcceptsLess(raw, before.attributes);
    var code := TransactionIn(raw).script;
    if Recognised(code).Some? { LeftByRecognised(code); }
    HeldIsShown(env, tx, raw, TransactionIn(raw), magic);
  }

  /** What a final chunk is answered with in a session, earlier final chunks having marked the
      structure or not. */
  ghost function FinalAnswer(env: Env, raw: seq<byte>, magic: u32, marked: bool): Outcome {
    if marked then ParsingFailed(AttributesDuplicateType) else Verdict(env, raw, magic)
  }

  /** The attribute slots after a parse: marked when this one or an earlier one reached an attribute,
      and then the transaction is not accepted any more. */
  lemma MarkedAfter(c: Ctx, data: seq<byte>)
    requires CtxInv(c) && |c.raw| + |data| <= MAX_TRANSACTION_LEN
    ensures var raw := c.raw + data;
            && SlotsAfter(raw, c.tx.attributes) == (if ReachesAttribute(raw) then MARKED else FRESH)
            && (c.tx.attributes == MARKED ==> ReachesAttribute(raw))
            && (Accepted(raw, c.tx.attributes) <==> Accepted(raw, FRESH) && c.tx.attributes == FRESH)
            && (c.tx.attributes == MARKED ==> Parsing(raw, MARKED) == Fail(AttributesDuplicateType))
  {
    hide ReachesAttribute, SlotsAfter, Parsing, SlotsBelong, Spent;
    var raw := c.raw + data;
    if c.tx.attributes == MARKED {
      ReachesExtends(c.raw, data);
      MarkedIsDuplicate(raw, MARKED);
    }
    SlotsAfterIs(raw, c.tx.attributes);
    StaleAcceptsIff(raw, c.tx.attributes);
    if Accepted(raw, FRESH) { AcceptedReaches(raw); }
  }

  /** The final chunk, in any reachable state. The answer is a function of the bytes, the magic, and
      whether an earlier final chunk has reached an attribute; what is presented is spent. */
  lemma LastChunkOutcome(env: Env, c: Ctx, data: seq<byte>, after: Ctx, out: Outcome)
    requires CtxInv(c) && c.reqType == ConfirmTransaction && data != []
    requires |c.raw| + |data| <= MAX_TRANSACTION_LEN && LastChunk(env, c, data, after, out)
    ensures CtxInv(after) && after.reqType == ConfirmTransaction
    ensures after.raw == c.raw + data && after.path == c.path && after.magic == c.magic
    ensures after.tx.attributes == if ReachesAttribute(after.raw) then MARKED else FRESH
    ensures c.tx.attributes == MARKED ==> ReachesAttribute(after.raw)
    ensures out == FinalAnswer(env, after.raw, c.magic, c.tx.attributes == MARKED)
    ensures out.Presented? <==> Accepted(after.raw, FRESH) && c.tx.attributes == FRESH
    ensures out.Presented? || out.ParsingFailed?
    ensures out.Presented? ==>
              !Spent(c.raw) && Spent(after.raw) && Reviewed(env, after, out.shown, AllPages(Shapes(after.tx)))
  {
    hide SlotsBelong, Holds, TakeTransaction, Parsing, ScriptReached, ShownFor, ShownOf, Spent, AllPages, Recognised,
         ReachesAttribute, SlotsAfter, AmountLeft, NeoReached, DestinationText;
    var raw := c.raw + data;
    SlotsBelongExtends(c.tx.signers, c.raw, data);
    MarkedAfter(c, data);
    var status, tx :| ParsedInto(env, c, raw, status, tx, after, out);
    if c.tx.isSystemAssetTransfer || c.tx.isNeo { SpentExtends(c.raw, data); }
    if ScriptReached(raw, c.tx.attributes).Some? { ScriptFoundIsSpent(raw, c.tx.attributes); }
    if Accepted(raw, c.tx.attributes) {
      NotSpent(c.raw, data, c.tx.attributes);
      AcceptedIsSpent(raw, c.tx.attributes);
      ParsedShows(env, raw, c.tx, tx, c.magic);
    }
  }

  lemma NotSpent(raw: seq<byte>, data: seq<byte>, slots: Slots)
    requires data != [] && Accepted(raw + data, slots)
    ensures !Spent(raw)
  {
    hide Accepted;
  }
}
