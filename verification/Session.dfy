/** What the commands and the buttons do to the device: src/apdu/dispatcher.c, src/handler/sign_tx.c,
    src/handler/get_public_key.c, src/ui/action/validate.c and the decisions of
    ui_display_transaction (src/ui/display.c), as relations between states. The one thing left open
    is what a refused parse leaves in fields of the structure no later step reads; see Deserialized. */
module Session {
  import opened Bytes
  import opened Address
  import opened Bip44
  import opened Grammar
  import opened Deserialize
  import opened Format
  import opened Pages
  import opened Texts

  const CLA: byte := 0x80
  const GET_APP_NAME: byte := 0x00
  const GET_VERSION: byte := 0x01
  const SIGN_TX: byte := 0x02
  const GET_PUBLIC_KEY: byte := 0x04
  const P1_START: byte := 0x00
  const P1_MAX: byte := 0x06
  const P2_LAST: byte := 0x00
  const P2_MORE: byte := 0x80

  /** The foreign calls: the hashes, the public key of a path, the signature of a digest under a
      path's key (none when cx_ecdsa_sign fails). */
  datatype Env = Env(sha256: Hash, ripemd160: Hash160, publicKey: Path -> PublicKey,
                     sign: (Path, Digest) -> Option<seq<byte>>)

  datatype State = StateNone | StateBip44Ok | StateMagicOk | StateParsed | StateApproved
  datatype RequestType = ConfirmAddress | ConfirmTransaction

  /** G_context; raw is the used part of the raw_tx buffer. */
  datatype Ctx = Ctx(state: State, reqType: RequestType, raw: seq<byte>, tx: TransactionValue,
                     hash: Digest, magic: u32, path: Path)

  function NoHash(): Digest {
    seq(32, _ => 0)
  }

  /** A context zeroed, and then given a request type and a path. */
  function Zeroed(state: State, reqType: RequestType, path: Path): Ctx {
    Ctx(state, reqType, [], ZEROED, NoHash(), 0, path)
  }

  datatype StatusWord =
    | SwOk | SwDeny | SwWrongP1P2 | SwWrongDataLength | SwInsNotSupported | SwClaNotSupported
    | SwWrongTxLength | SwBadState | SwSignFail | SwMagicParsingFail

  // ---------------------------------------------------------------- what is shown

  datatype TransferShown = TransferShown(address: string, amount: string)

  /** The text buffers of the review. */
  datatype Shown = Shown(transfer: Option<TransferShown>, network: string,
                         systemFee: string, networkFee: string, totalFees: string, validUntil: string)

  /** The cast from int64_t to uint64_t. */
  function AsU64(v: s64): u64 {
    if v >= 0 then v else v + 0x1_0000_0000_0000_0000
  }

  function SumU64(a: u64, b: u64): u64 {
    (a + b) % 0x1_0000_0000_0000_0000
  }

  ghost function AmountText(amount: s64, neo: bool): string {
    (if neo then "NEO " else "GAS ") + FixedText(AsU64(amount), if neo then 0 else 8)
  }

  ghost function FeeText(fee: u64): string {
    "GAS " + FixedText(fee, 8)
  }

  ghost function ShownOf(tx: TransactionValue, magic: u32): Shown {
    Shown(if !tx.isSystemAssetTransfer then None else
            Some(TransferShown(Cut(G_ADDRESS_LEN, tx.dstAddress), Cut(G_TEXT_LEN, AmountText(tx.amount, tx.isNeo)))),
          NetworkText(magic),
          Cut(G_FEE_LEN, FeeText(AsU64(tx.systemFee))),
          Cut(G_FEE_LEN, FeeText(AsU64(tx.networkFee))),
          Cut(G_FEE_LEN, FeeText(SumU64(AsU64(tx.networkFee), AsU64(tx.systemFee)))),
          Cut(G_HEIGHT_LEN, PercentD(tx.validUntilBlock)))
  }

  function Shapes(tx: TransactionValue): seq<Shape> {
    if tx.signersSize > |tx.signers| then [] else
      seq(tx.signersSize, i requires 0 <= i < tx.signersSize =>
        Shape(tx.signers[i].contractsSize, tx.signers[i].groupsSize))
  }

  // ---------------------------------------------------------------- commands

  /** The answer to a command, or what is put on the screen before there is one. */
  datatype Outcome =
    | Answered(sw: StatusWord)
    | PathRefused(status: PathStatus)
    | ParsingFailed(failure: Status)
    | Presented(shown: Shown)
    | AddressPresented(address: string)
    | PublicKeySent(key: PublicKey)
    | AppNameSent
    | VersionSent
    | SignatureSent(signature: seq<byte>)

  ghost predicate DisplayTransaction(c: Ctx, after: Ctx, out: Outcome) {
    if c.reqType != ConfirmTransaction || c.state != StateParsed then
      after == c.(state := StateNone) && out == Answered(SwBadState)
    else
      after == c && out == Presented(ShownOf(c.tx, c.magic))
  }

  ghost predicate FirstChunk(data: seq<byte>, after: Ctx, out: Outcome) {
    after == Zeroed(if StatusOf(data) == PathOk then StateBip44Ok else StateNone, ConfirmTransaction, Stored(data))
    && out == if StatusOf(data) == PathOk then Answered(SwOk) else PathRefused(StatusOf(data))
  }

  ghost predicate MagicChunk(c: Ctx, data: seq<byte>, after: Ctx, out: Outcome) {
    if c.reqType != ConfirmTransaction && c.state != StateBip44Ok then
      after == c && out == Answered(SwBadState)
    else if |data| < 4 then
      after == c.(magic := 0) && out == Answered(SwMagicParsingFail)
    else
      after == c.(magic := MagicIn(data), state := StateMagicOk) && out == Answered(SwOk)
  }

  ghost function MagicIn(data: seq<byte>): u32
    requires |data| >= 4
  {
    BytesOfLe(data[..4]);
    Le(data[..4])
  }

  ghost predicate TxChunk(env: Env, c: Ctx, data: seq<byte>, more: bool, after: Ctx, out: Outcome) {
    if c.reqType != ConfirmTransaction && c.state != StateMagicOk then
      after == c && out == Answered(SwBadState)
    else if |c.raw| + |data| > MAX_TRANSACTION_LEN then
      after == c && out == Answered(SwWrongTxLength)
    else if more then
      after == c.(raw := c.raw + data) && out == Answered(SwOk)
    else
      LastChunk(env, c, data, after, out)
  }

  ghost predicate LastChunk(env: Env, c: Ctx, data: seq<byte>, after: Ctx, out: Outcome) {
    exists status, tx :: ParsedInto(env, c, c.raw + data, status, tx, after, out)
  }

  /** The parse of the bytes gave the status and left tx in the structure. */
  ghost predicate ParsedInto(env: Env, c: Ctx, raw: seq<byte>, status: Status, tx: TransactionValue,
                             after: Ctx, out: Outcome)
  {
    Deserialized(env.sha256, raw, c.tx, status, tx)
    && if status != ParsingOk then
         after == c.(raw := raw, tx := tx) && out == ParsingFailed(status)
       else
         DisplayTransaction(c.(raw := raw, tx := tx, state := StateParsed, hash := env.sha256(raw)), after, out)
  }

  ghost predicate SignTx(env: Env, c: Ctx, data: seq<byte>, chunk: nat, more: bool, after: Ctx, out: Outcome) {
    if chunk == 0 then FirstChunk(data, after, out)
    else if chunk == 1 then MagicChunk(c, data, after, out)
    else TxChunk(env, c, data, more, after, out)
  }

  ghost function AddressOf(env: Env, path: Path): string {
    AddressText(env.sha256, env.ripemd160(env.sha256(RedeemScript(env.publicKey(path)))))
  }

  ghost predicate GetPublicKey(env: Env, data: seq<byte>, show: bool, after: Ctx, out: Outcome) {
    after == Zeroed(StateNone, ConfirmAddress, Stored(data))
    && out == if StatusOf(data) != PathOk then PathRefused(StatusOf(data))
              else if show then AddressPresented(AddressOf(env, after.path))
              else PublicKeySent(env.publicKey(after.path))
  }

  /** The length of the data is one byte. */
  type ApduData = d: seq<byte> | |d| <= 255

  datatype Apdu = Apdu(cla: byte, ins: byte, p1: byte, p2: byte, data: ApduData)

  ghost predicate Dispatch(env: Env, c: Ctx, cmd: Apdu, after: Ctx, out: Outcome) {
    if cmd.cla != CLA then after == c && out == Answered(SwClaNotSupported)
    else if cmd.ins == GET_VERSION || cmd.ins == GET_APP_NAME then
      after == c
      && out == if cmd.p1 != 0 || cmd.p2 != 0 then Answered(SwWrongP1P2)
                else if cmd.ins == GET_VERSION then VersionSent else AppNameSent
    else if cmd.ins == GET_PUBLIC_KEY then
      if cmd.p1 > 0 || cmd.p2 > 1 then after == c && out == Answered(SwWrongP1P2)
      else if cmd.data == [] then after == c && out == Answered(SwWrongDataLength)
      else GetPublicKey(env, cmd.data, cmd.p2 == 1, after, out)
    else if cmd.ins == SIGN_TX then
      if (cmd.p1 == P1_START && cmd.p2 != P2_MORE) || cmd.p1 > P1_MAX || (cmd.p2 != P2_LAST && cmd.p2 != P2_MORE) then
        after == c && out == Answered(SwWrongP1P2)
      else if cmd.data == [] then after == c && out == Answered(SwWrongDataLength)
      else SignTx(env, c, cmd.data, cmd.p1, cmd.p2 == P2_MORE, after, out)
    else after == c && out == Answered(SwInsNotSupported)
  }

  /** The commands that zero the context. */
  predicate Resets(cmd: Apdu) {
    cmd.cla == CLA && cmd.data != []
    && ((cmd.ins == GET_PUBLIC_KEY && cmd.p1 == 0 && cmd.p2 <= 1)
        || (cmd.ins == SIGN_TX && cmd.p1 == P1_START && cmd.p2 == P2_MORE))
  }

  // ---------------------------------------------------------------- answers by button

  /** What crypto_sign_tx signs: the network magic and the hash of the transaction. */
  ghost function SignedMessage(c: Ctx): seq<byte> {
    LeBytes(c.magic, 4) + c.hash
  }

  ghost predicate ValidateTransaction(env: Env, c: Ctx, approved: bool, after: Ctx, out: Outcome) {
    if !approved then after == c.(state := StateNone) && out == Answered(SwDeny) else
      match env.sign(c.path, env.sha256(SignedMessage(c)))
      case None => after == c.(state := StateNone) && out == Answered(SwSignFail)
      case Some(signature) => after == c.(state := StateApproved) && out == SignatureSent(signature)
  }

  // ---------------------------------------------------------------- the device

  datatype Ui =
    | Menu
    | Reviewing(shown: Shown, pages: seq<Page>, presses: seq<Press>)
    | ShowingAddress(address: string, presses: seq<Press>)

  /** The place in a flow of static steps after a number of presses. */
  ghost function Linear(last: nat, presses: seq<Press>): (pos: nat)
    ensures pos <= last
  {
    if presses == [] then 0 else
      var pos := Linear(last, presses[..|presses| - 1]);
      if presses[|presses| - 1] == Right then (if pos < last then pos + 1 else pos)
      else if pos > 0 then pos - 1 else 0
  }

  /** The answer on the screen, if it is one that both buttons give. */
  ghost function AnswerShown(ui: Ui): Option<bool> {
    match ui
    case Menu => None
    case Reviewing(shown, pages, presses) =>
      if shown.transfer.Some? then
        var pos := Walk(pages, presses).pos;
        if pos == |ABOVE| + |pages| then Some(true) else if pos > |ABOVE| + |pages| then Some(false) else None
      else if Linear(1, presses) == 1 then Some(false) else None
    case ShowingAddress(_, presses) =>
      if Linear(3, presses) == 2 then Some(true) else if Linear(3, presses) == 3 then Some(false) else None
  }

  datatype Device = Device(ctx: Ctx, ui: Ui)

  const BOOTED := Device(Zeroed(StateNone, ConfirmAddress, NO_PATH), Menu)

  datatype Event = Command(cmd: Apdu) | Key(press: Press) | Both

  /** A command arrives only when the last one has been answered, that is in the menu. */
  ghost predicate Commanded(env: Env, d: Device, cmd: Apdu, out: Outcome, after: Device) {
    d.ui.Menu? && Dispatch(env, d.ctx, cmd, after.ctx, out)
    && after.ui == match out
                   case Presented(shown) => Reviewing(shown, AllPages(Shapes(after.ctx.tx)), [])
                   case AddressPresented(address) => ShowingAddress(address, [])
                   case _ => Menu
  }

  ghost function Pressed(ui: Ui, press: Press): Ui {
    match ui
    case Menu => Menu
    case Reviewing(shown, pages, presses) => Reviewing(shown, pages, presses + [press])
    case ShowingAddress(address, presses) => ShowingAddress(address, presses + [press])
  }

  /** Both buttons: an answer on the screen is given, and the menu comes back. */
  ghost predicate AnsweredByUser(env: Env, d: Device, out: Option<Outcome>, after: Device) {
    var answer := AnswerShown(d.ui);
    if answer.None? then after == d && out == None
    else if d.ui.Reviewing? then
      out.Some? && ValidateTransaction(env, d.ctx, answer.value, after.ctx, out.value)
      && after.ui == Menu
    else
      after == d.(ui := Menu)
      && out == Some(if answer.value then PublicKeySent(env.publicKey(d.ctx.path)) else Answered(SwDeny))
  }

  ghost predicate Reacts(env: Env, d: Device, event: Event, out: Option<Outcome>, after: Device) {
    match event
    case Command(cmd) => out.Some? && Commanded(env, d, cmd, out.value, after)
    case Key(press) => after == d.(ui := Pressed(d.ui, press)) && out == None
    case Both => AnsweredByUser(env, d, out, after)
  }

  /** ds are the states of a run over the events, from power-on. */
  ghost predicate Run(env: Env, ds: seq<Device>, events: seq<Event>, outs: seq<Option<Outcome>>) {
    |ds| == |events| + 1 && |outs| == |events| && ds[0] == BOOTED
    && forall i :: 0 <= i < |events| ==> Reacts(env, ds[i], events[i], outs[i], ds[i + 1])
  }
}
