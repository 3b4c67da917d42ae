/** What holds over every run of the device: what is signed is what was sent and what was shown, at
    most once a session, however the transaction was cut into chunks. */
module SessionTheorems {
  import opened Bytes
  import opened Numerals
  import opened Address
  import opened Format
  import opened Bip44
  import opened Grammar
  import opened GrammarTheorems
  import opened Deserialize
  import opened Pages
  import opened Texts
  import opened Drawing
  import opened Transfer
  import opened Session
  import opened SessionInvariant

  // ---------------------------------------------------------------- what was sent

  /** What the host has sent since the last command that zeroed the context, as far as it was taken:
      whether that command was a first chunk, its data, the magic, the transaction; and whether a final
      chunk came when the transaction reached an attribute. */
  datatype Sent = Sent(begun: bool, pathData: seq<byte>, magic: u32, raw: seq<byte>, marked: bool)

  /** A well-formed SIGN_TX command that is not a first chunk. */
  predicate LaterChunk(cmd: Apdu) {
    cmd.cla == CLA && cmd.ins == SIGN_TX && cmd.data != [] && P1_START < cmd.p1 <= P1_MAX
    && (cmd.p2 == P2_LAST || cmd.p2 == P2_MORE)
  }

  ghost function Heard(sent: Sent, cmd: Apdu): Sent {
    if Resets(cmd) then Sent(cmd.ins == SIGN_TX, cmd.data, 0, [], false)
    else if !sent.begun || !LaterChunk(cmd) then sent
    else if cmd.p1 == 1 then sent.(magic := if |cmd.data| < 4 then 0 else MagicIn(cmd.data))
    else if |sent.raw| + |cmd.data| > MAX_TRANSACTION_LEN then sent
    else
      var raw := sent.raw + cmd.data;
      sent.(raw := raw, marked := sent.marked || (cmd.p2 == P2_LAST && ReachesAttribute(raw)))
  }

  ghost function SentBy(events: seq<Event>): Sent {
    if events == [] then Sent(false, [], 0, [], false) else
      var earlier := SentBy(events[..|events| - 1]);
      match events[|events| - 1]
      case Command(cmd) => Heard(earlier, cmd)
      case _ => earlier
  }

  lemma SentNext(events: seq<Event>, i: nat)
    requires 0 < i <= |events|
    ensures SentBy(events[..i])
            == if events[i - 1].Command? then Heard(SentBy(events[..i - 1]), events[i - 1].cmd)
               else SentBy(events[..i - 1])
  {
    hide Heard;
    assert events[..i][..i - 1] == events[..i - 1];
  }

  /** The context holds what was sent, and nothing else. */
  ghost predicate Tracks(c: Ctx, sent: Sent) {
    (c.reqType == ConfirmTransaction <==> sent.begun) && c.path == Stored(sent.pathData)
    && c.magic == sent.magic && c.raw == sent.raw && c.tx.attributes == (if sent.marked then MARKED else FRESH)
  }

  lemma ZeroingChunk(env: Env, data: seq<byte>, show: bool, after: Ctx, out: Outcome)
    requires FirstChunk(data, after, out) || GetPublicKey(env, data, show, after, out)
    ensures CtxInv(after) && after.raw == [] && after.magic == 0 && after.path == Stored(data)
    ensures after.tx.attributes == FRESH
    ensures !out.Presented? && out != Answered(SwBadState) && out != Answered(SwWrongTxLength)
    ensures FirstChunk(data, after, out) ==> after.reqType == ConfirmTransaction && !out.AddressPresented?
    ensures GetPublicKey(env, data, show, after, out) ==> after.reqType == ConfirmAddress
    ensures out.AddressPresented? ==> UiInv(env, after, ShowingAddress(out.address, []))
  {
    hide Stored, StatusOf, CtxInv;
    PassesIffValid(data);
    StoredIsValidIff(data);
    ZeroedInv(after.state, after.reqType, after.path);
  }

  lemma MagicChunkKeeps(c: Ctx, data: seq<byte>, after: Ctx, out: Outcome)
    requires CtxInv(c) && MagicChunk(c, data, after, out)
    ensures CtxInv(after) && !out.Presented? && !out.AddressPresented? && out != Answered(SwWrongTxLength)
    ensures out == Answered(SwBadState) <==> c.reqType == ConfirmAddress
    ensures after == if c.reqType == ConfirmAddress then c
                     else c.(magic := after.magic, state := if |data| < 4 then c.state else StateMagicOk)
    ensures c.reqType == ConfirmTransaction ==> after.magic == if |data| < 4 then 0 else MagicIn(data)
  {
    hide SlotsBelong, Spent;
  }

  lemma TxChunkKeeps(env: Env, c: Ctx, data: seq<byte>, more: bool, after: Ctx, out: Outcome)
    requires CtxInv(c) && TxChunk(env, c, data, more, after, out) && data != []
    ensures CtxInv(after) && !out.AddressPresented?
    ensures out == Answered(SwBadState) <==> c.reqType == ConfirmAddress
    ensures out == Answered(SwWrongTxLength) <==>
            c.reqType == ConfirmTransaction && |c.raw| + |data| > MAX_TRANSACTION_LEN
    ensures out == Answered(SwWrongTxLength) ==> after == c
    ensures after.reqType == c.reqType && after.path == c.path && after.magic == c.magic
    ensures var taken := c.reqType == ConfirmTransaction && |c.raw| + |data| <= MAX_TRANSACTION_LEN;
            && after.raw == (if taken then c.raw + data else c.raw)
            && (c.tx.attributes == MARKED ==> after.tx.attributes == MARKED)
            && (c.tx.attributes == FRESH ==>
                  after.tx.attributes == if taken && !more && ReachesAttribute(after.raw) then MARKED else FRESH)
            && (out.Presented? <==> taken && !more && Accepted(after.raw, FRESH) && c.tx.attributes == FRESH)
    ensures c.reqType == ConfirmTransaction && |c.raw| + |data| <= MAX_TRANSACTION_LEN && !more ==>
              out == FinalAnswer(env, after.raw, c.magic, c.tx.attributes == MARKED)
    ensures out.Presented? ==>
              !Spent(c.raw) && Spent(after.raw)
              && Reviewed(env, after, out.shown, AllPages(Shapes(after.tx)))
  {
    hide SlotsBelong, Spent, LastChunk, Reviewed, Verdict, Accepted, ReachesAttribute, Parsing, Shapes, AllPages;
    if c.reqType == ConfirmTransaction && |c.raw| + |data| <= MAX_TRANSACTION_LEN {
      if more {
        AppendKeeps(c, data);
      } else {
        LastChunkOutcome(env, c, data, after, out);
      }
    }
  }

  lemma AppendKeeps(c: Ctx, data: seq<byte>)
    requires CtxInv(c) && c.reqType == ConfirmTransaction && data != [] && |c.raw| + |data| <= MAX_TRANSACTION_LEN
    ensures CtxInv(c.(raw := c.raw + data))
  {
    hide SlotsBelong, Spent, ReachesAttribute;
    SlotsBelongExtends(c.tx.signers, c.raw, data);
    if c.tx.isSystemAssetTransfer || c.tx.isNeo { SpentExtends(c.raw, data); }
    if c.tx.attributes == MARKED { ReachesExtends(c.raw, data); }
  }

  /** A piece of the transaction for which there is no room. */
  ghost predicate Oversize(sent: Sent, cmd: Apdu) {
    LaterChunk(cmd) && cmd.p1 != 1 && sent.begun && |sent.raw| + |cmd.data| > MAX_TRANSACTION_LEN
  }

  /** A final piece of a transaction, for which there is room. */
  predicate IsFinal(sent: Sent, cmd: Apdu) {
    LaterChunk(cmd) && cmd.p1 != 1 && cmd.p2 == P2_LAST && sent.begun
    && |sent.raw| + |cmd.data| <= MAX_TRANSACTION_LEN
  }

  /** It completes a transaction that is accepted into a zeroed structure, and no earlier final piece
      of the session came after an attribute was reached. */
  ghost predicate Completes(sent: Sent, cmd: Apdu) {
    IsFinal(sent, cmd) && Accepted(sent.raw + cmd.data, FRESH) && !sent.marked
  }

  /** A command: the invariant stays, the context follows what was sent; SW_BAD_STATE is the answer to
      a later chunk without a first one, and to nothing else; the chunk that completes a transaction,
      and nothing else, gets it presented, which uses up the session. */
  lemma CommandStep(env: Env, d: Device, cmd: Apdu, out: Outcome, after: Device, sent: Sent)
    requires Inv(env, d) && Tracks(d.ctx, sent) && Commanded(env, d, cmd, out, after)
    ensures Inv(env, after) && Tracks(after.ctx, Heard(sent, cmd))
    ensures out == Answered(SwBadState) <==> LaterChunk(cmd) && !sent.begun
    ensures out == Answered(SwWrongTxLength) <==> Oversize(sent, cmd)
    ensures out == Answered(SwWrongTxLength) ==> after == d
    ensures out.Presented? <==> Completes(sent, cmd)
    ensures IsFinal(sent, cmd) ==> out == FinalAnswer(env, sent.raw + cmd.data, sent.magic, sent.marked)
    ensures out.Presented? ==> !Spent(d.ctx.raw) && Spent(after.ctx.raw)
  {
    hide Accepted, ReachesAttribute, Verdict, MagicIn, CtxInv, Spent, FirstChunk, MagicChunk, TxChunk,
         GetPublicKey, Stored, Reviewed, AllPages, Shapes;
    if Resets(cmd) {
      ZeroingChunk(env, cmd.data, cmd.p2 == 1, after.ctx, out);
    } else if LaterChunk(cmd) {
      if cmd.p1 == 1 {
        MagicChunkKeeps(d.ctx, cmd.data, after.ctx, out);
      } else {
        TxChunkKeeps(env, d.ctx, cmd.data, cmd.p2 == P2_MORE, after.ctx, out);
      }
    }
  }

  lemma KeyKeeps(env: Env, d: Device, press: Press)
    requires Inv(env, d)
    ensures Inv(env, d.(ui := Session.Pressed(d.ui, press)))
  {
    hide CtxInv, Reviewed;
  }

  lemma StateKeeps(c: Ctx, after: Ctx)
    requires CtxInv(c) && c.reqType == ConfirmTransaction && after == c.(state := after.state)
    requires after.state == StateNone || after.state == StateApproved
    ensures CtxInv(after)
  {
    hide SlotsBelong, Spent;
  }

  lemma AnswerKeeps(env: Env, d: Device, out: Option<Outcome>, after: Device)
    requires Inv(env, d) && AnsweredByUser(env, d, out, after)
    ensures Inv(env, after)
    ensures after.ctx == d.ctx.(state := after.ctx.state) && (after.ui != Menu ==> after.ctx == d.ctx)
    ensures out.Some? ==> out.value.Answered? ==> out.value.sw == SwDeny || out.value.sw == SwSignFail
    ensures out.Some? ==> !out.value.Presented?
  {
    hide CtxInv, Accepted, Holds, AnswerShown, ShownFor, ShownOf, Shapes, SignedMessage;
    if after.ctx != d.ctx { StateKeeps(d.ctx, after.ctx); }
  }

  lemma UserStep(env: Env, d: Device, event: Event, out: Option<Outcome>, after: Device)
    requires Inv(env, d) && Reacts(env, d, event, out, after) && !event.Command?
    ensures Inv(env, after)
    ensures after.ctx == d.ctx.(state := after.ctx.state) && (after.ui != Menu ==> after.ctx == d.ctx)
    ensures out.None? ||
            (out.value != Answered(SwBadState) && out.value != Answered(SwWrongTxLength) && !out.value.Presented?)
  {
    hide Inv, AnsweredByUser, Commanded;
    match event
    case Key(press) => KeyKeeps(env, d, press);
    case Both => AnswerKeeps(env, d, out, after);
  }

  lemma RunAt(env: Env, ds: seq<Device>, events: seq<Event>, outs: seq<Option<Outcome>>, i: nat)
    requires Run(env, ds, events, outs)
    ensures |ds| == |events| + 1 == |outs| + 1 && ds[0].ui == Menu
    ensures i < |events| ==> Reacts(env, ds[i], events[i], outs[i], ds[i + 1])
  {
    hide Reacts;
  }

  /** Every state of a run keeps the invariant, and its context holds what was sent. */
  lemma {:induction false} RunKeeps(env: Env, ds: seq<Device>, events: seq<Event>, outs: seq<Option<Outcome>>, i: nat)
    requires Run(env, ds, events, outs) && i <= |events|
    ensures Inv(env, ds[i]) && Tracks(ds[i].ctx, SentBy(events[..i]))
  {
    hide Inv, Reacts, SentBy, Heard;
    if i == 0 {
      assert events[..0] == [];
      BootedKeeps(env);
    } else {
      RunAt(env, ds, events, outs, i - 1);
      RunKeeps(env, ds, events, outs, i - 1);
      SentNext(events, i);
      StepKeeps(env, ds[i - 1], events[i - 1], outs[i - 1], ds[i], SentBy(events[..i - 1]));
    }
  }

  lemma BootedKeeps(env: Env)
    ensures Inv(env, BOOTED) && Tracks(BOOTED.ctx, SentBy([]))
  {
    hide CtxInv;
    ZeroedInv(StateNone, ConfirmAddress, NO_PATH);
  }

  lemma StepKeeps(env: Env, d: Device, event: Event, out: Option<Outcome>, after: Device, sent: Sent)
    requires Inv(env, d) && Tracks(d.ctx, sent) && Reacts(env, d, event, out, after)
    ensures Inv(env, after)
    ensures Tracks(after.ctx, if event.Command? then Heard(sent, event.cmd) else sent)
  {
    hide Inv, Commanded, AnsweredByUser, Heard;
    match event
    case Command(cmd) => CommandStep(env, d, cmd, out.value, after, sent);
    case _ => UserStep(env, d, event, out, after);
  }

  // ---------------------------------------------------------------- the guards

  /** The two guards joined by && mean exactly this: a later chunk is refused if and only if no first
      chunk was sent since the last command that zeroed the context. SW_BAD_STATE has no other cause:
      not the order of the chunks, and not the branch of ui_display_transaction. A piece is refused for
      its length exactly when there is no room for it, and then nothing changes. */
  lemma RefusedIff(env: Env, ds: seq<Device>, events: seq<Event>, outs: seq<Option<Outcome>>, i: nat)
    requires Run(env, ds, events, outs) && i < |events|
    ensures outs[i] == Some(Answered(SwBadState)) <==>
            events[i].Command? && LaterChunk(events[i].cmd) && !SentBy(events[..i]).begun
    ensures outs[i] == Some(Answered(SwWrongTxLength)) <==>
            events[i].Command? && Oversize(SentBy(events[..i]), events[i].cmd)
    ensures outs[i] == Some(Answered(SwWrongTxLength)) ==> ds[i + 1] == ds[i]
  {
    hide Inv, Run, Commanded, AnsweredByUser, SentBy;
    RunAt(env, ds, events, outs, i);
    RunKeeps(env, ds, events, outs, i);
    match events[i]
    case Command(cmd) => CommandStep(env, ds[i], cmd, outs[i].value, ds[i + 1], SentBy(events[..i]));
    case _ => UserStep(env, ds[i], events[i], outs[i], ds[i + 1]);
  }

  /** When a transaction is presented, over every run: exactly at a final piece for which there is room,
      after a first chunk, that completes bytes which are accepted into a zeroed structure, no earlier
      final piece of the session having come after an attribute was reached. The answer to any other
      final piece is the status the bytes are refused with, or, after such a piece, that the attribute
      is there twice, whatever the bytes. */
  lemma FinalPiece(env: Env, ds: seq<Device>, events: seq<Event>, outs: seq<Option<Outcome>>, i: nat)
    requires Run(env, ds, events, outs) && i < |events|
    ensures Presents(outs[i]) <==> events[i].Command? && Completes(SentBy(events[..i]), events[i].cmd)
    ensures events[i].Command? && IsFinal(SentBy(events[..i]), events[i].cmd) ==>
              var sent := SentBy(events[..i]);
              outs[i] == Some(FinalAnswer(env, sent.raw + events[i].cmd.data, sent.magic, sent.marked))
  {
    hide Inv, Run, Commanded, AnsweredByUser, SentBy, Verdict, Completes;
    RunAt(env, ds, events, outs, i);
    RunKeeps(env, ds, events, outs, i);
    match events[i]
    case Command(cmd) => CommandStep(env, ds[i], cmd, outs[i].value, ds[i + 1], SentBy(events[..i]));
    case _ => UserStep(env, ds[i], events[i], outs[i], ds[i + 1]);
  }

  // ---------------------------------------------------------------- at most once

  predicate Begins(event: Event) {
    event.Command? && Resets(event.cmd) && event.cmd.ins == SIGN_TX
  }

  ghost predicate Presents(out: Option<Outcome>) {
    out.Some? && out.value.Presented?
  }

  /** Nothing more can be presented before a first chunk. */
  ghost predicate Closed(sent: Sent) {
    sent.begun ==> Spent(sent.raw)
  }

  lemma ClosedStays(env: Env, d: Device, event: Event, out: Option<Outcome>, after: Device, sent: Sent)
    requires Inv(env, d) && Tracks(d.ctx, sent) && Reacts(env, d, event, out, after)
    requires !Begins(event)
    ensures Closed(sent) && event.Command? ==> Closed(Heard(sent, event.cmd))
    ensures Closed(sent) ==> !Presents(out)
    ensures Presents(out) ==> event.Command? && Closed(Heard(sent, event.cmd))
  {
    hide Inv, Commanded, AnsweredByUser, Spent, MagicIn;
    match event
    case Command(cmd) =>
      CommandStep(env, d, cmd, out.value, after, sent);
      if Closed(sent) && sent.begun { SpentExtends(sent.raw, cmd.data); }
    case _ => UserStep(env, d, event, out, after);
  }

  lemma {:induction false} ClosedUntilBegun(env: Env, ds: seq<Device>, events: seq<Event>,
                                            outs: seq<Option<Outcome>>, i: nat, j: nat)
    requires Run(env, ds, events, outs) && i < j <= |events| && Presents(outs[i])
    requires forall k :: i <= k < j ==> !Begins(events[k])
    ensures Closed(SentBy(events[..j]))
  {
    hide Inv, Reacts, Run, SentBy, Heard, Begins, Presents, Closed;
    RunAt(env, ds, events, outs, j - 1);
    RunKeeps(env, ds, events, outs, j - 1);
    SentNext(events, j);
    if i < j - 1 { ClosedUntilBegun(env, ds, events, outs, i, j - 1); }
    ClosedStays(env, ds[j - 1], events[j - 1], outs[j - 1], ds[j], SentBy(events[..j - 1]));
  }

  lemma PresentedByLaterChunk(env: Env, ds: seq<Device>, events: seq<Event>, outs: seq<Option<Outcome>>, i: nat)
    requires Run(env, ds, events, outs) && i < |events| && Presents(outs[i])
    ensures !Begins(events[i]) && ds[i].ui.Menu? && ds[i + 1].ui.Reviewing?
  {
    hide Inv, Run, Dispatch, AnsweredByUser, SentBy, AllPages, Shapes;
    RunAt(env, ds, events, outs, i);
    RunKeeps(env, ds, events, outs, i);
    match events[i]
    case Command(cmd) => CommandStep(env, ds[i], cmd, outs[i].value, ds[i + 1], SentBy(events[..i]));
    case _ => UserStep(env, ds[i], events[i], outs[i], ds[i + 1]);
  }

  /** Between two presentations there is a first chunk: a session presents at most one transaction. */
  lemma PresentedOnce(env: Env, ds: seq<Device>, events: seq<Event>, outs: seq<Option<Outcome>>, i: nat, j: nat)
    requires Run(env, ds, events, outs) && i < j < |events| && Presents(outs[i]) && Presents(outs[j])
    ensures exists k :: i < k < j && Begins(events[k])
  {
    hide Inv, Run, Reacts, SentBy, Begins, Presents, Closed;
    RunAt(env, ds, events, outs, j);
    PresentedByLaterChunk(env, ds, events, outs, i);
    PresentedByLaterChunk(env, ds, events, outs, j);
    if forall k :: i < k < j ==> !Begins(events[k]) {
      RunKeeps(env, ds, events, outs, j);
      ClosedUntilBegun(env, ds, events, outs, i, j);
      ClosedStays(env, ds[j], events[j], outs[j], ds[j + 1], SentBy(events[..j]));
    }
  }

  /** The step at which crypto_sign_tx is called. */
  ghost predicate Signs(d: Device, event: Event) {
    event.Both? && d.ui.Reviewing? && AnswerShown(d.ui) == Some(true)
  }

  ghost function Keys(events: seq<Event>): seq<Press> {
    if events == [] then [] else
      var earlier := Keys(events[..|events| - 1]);
      match events[|events| - 1]
      case Key(press) => earlier + [press]
      case _ => earlier
  }

  /** A review goes back to one presentation p; since then there were only buttons, the presses of the
      review are theirs, and the context is untouched. */
  ghost predicate PresentedAt(ds: seq<Device>, events: seq<Event>, outs: seq<Option<Outcome>>, i: nat, p: nat)
    requires p < i < |ds| && |ds| == |events| + 1 == |outs| + 1
  {
    ds[i].ui.Reviewing? && outs[p] == Some(Presented(ds[i].ui.shown))
    && (forall k :: p < k < i ==> !events[k].Command? && ds[k].ui.Reviewing?)
    && ds[i].ui.presses == Keys(events[p + 1..i]) && ds[i].ctx == ds[p + 1].ctx
  }

  /** A review starts with a presentation and goes on with presses. */
  lemma ReviewFrom(env: Env, d: Device, event: Event, out: Option<Outcome>, after: Device)
    requires Reacts(env, d, event, out, after) && after.ui.Reviewing?
    ensures event.Command? ==> out == Some(Presented(after.ui.shown)) && after.ui.presses == []
    ensures !event.Command? ==>
              d.ui.Reviewing? && after.ui.shown == d.ui.shown && after.ctx == d.ctx
              && after.ui.presses == d.ui.presses + if event.Key? then [event.press] else []
  {
    hide Dispatch, ValidateTransaction, AllPages, Shapes, AnswerShown;
  }

  lemma {:induction false} ReviewBegan(env: Env, ds: seq<Device>, events: seq<Event>, outs: seq<Option<Outcome>>,
                                       i: nat)
    returns (p: nat)
    requires Run(env, ds, events, outs) && i <= |events| && ds[i].ui.Reviewing?
    ensures p < i && PresentedAt(ds, events, outs, i, p)
  {
    hide Reacts, Run, Keys;
    RunAt(env, ds, events, outs, if i == 0 then 0 else i - 1);
    ReviewFrom(env, ds[i - 1], events[i - 1], outs[i - 1], ds[i]);
    if events[i - 1].Command? {
      p := i - 1;
      KeysBetween(events, i, i);
    } else {
      p := ReviewBegan(env, ds, events, outs, i - 1);
      KeysBetween(events, p + 1, i);
    }
  }

  lemma KeysBetween(events: seq<Event>, from: nat, i: nat)
    requires from <= i <= |events|
    ensures Keys(events[from..i])
            == if from == i then []
               else Keys(events[from..i - 1]) + if events[i - 1].Key? then [events[i - 1].press] else []
  {
    if from < i { assert events[from..i][..i - from - 1] == events[from..i - 1]; }
  }

  /** Between two signatures there is a first chunk too: a session yields at most one signature. */
  lemma SignedOnce(env: Env, ds: seq<Device>, events: seq<Event>, outs: seq<Option<Outcome>>, i: nat, j: nat)
    requires Run(env, ds, events, outs) && i < j < |events| && Signs(ds[i], events[i]) && Signs(ds[j], events[j])
    ensures exists k :: i < k < j && Begins(events[k])
  {
    hide Reacts, Run, Resets, AnswerShown, Keys;
    RunAt(env, ds, events, outs, i);
    SigningEnds(env, ds[i], events[i], outs[i], ds[i + 1]);
    var p := ReviewBegan(env, ds, events, outs, i);
    var q := ReviewBegan(env, ds, events, outs, j);
    PresentedByLaterChunk(env, ds, events, outs, q);
    PresentedOnce(env, ds, events, outs, p, q);
    var k :| p < k < q && Begins(events[k]);
  }

  lemma SigningEnds(env: Env, d: Device, event: Event, out: Option<Outcome>, after: Device)
    requires Reacts(env, d, event, out, after) && Signs(d, event)
    ensures after.ui == Menu && out.Some? && ValidateTransaction(env, d.ctx, true, after.ctx, out.value)
  {
    hide ValidateTransaction;
  }

  // ---------------------------------------------------------------- what is signed is what was shown

  /** Whenever crypto_sign_tx is called in a run: with p the presentation before it,
      - the context holds what the host sent since the last first chunk: path, magic, bytes;
      - the bytes are an encoding of a well-formed transaction t, a transfer of NEO or GAS;
      - what p put on the screen is what t and the magic say: destination, amount and asset, network,
        fees and their sum, height; network and height as such exactly when below 2^31; and the pages
        are those of t's signers;
      - since p only buttons were pressed, and every screen up to Approve was on: every step, every
        page of every signer, and the amount as the amount;
      - every page drew the account, scope, contract or group it is for, a group never whole;
      - the message signed is the magic and the hash of these bytes, under that path. */
  lemma SignedIsShown(env: Env, ds: seq<Device>, events: seq<Event>, outs: seq<Option<Outcome>>, i: nat)
    returns (p: nat, t: Transaction, presses: seq<Press>)
    requires Run(env, ds, events, outs) && i < |events| && Signs(ds[i], events[i])
    ensures var sent := SentBy(events[..i]); var pages := AllPages(ShapesFor(t.signers));
            && sent.begun && |sent.raw| <= MAX_TRANSACTION_LEN
            && WellFormed(t) && Serialize(t) == sent.raw && Recognised(t.script).Some?
            && p < i && (forall k :: p < k < i ==> !events[k].Command?)
            && outs[p] == Some(Presented(ShownFor(env, t, sent.magic)))
            && presses == Keys(events[p + 1..i]) && ds[i].ui == Reviewing(ShownFor(env, t, sent.magic), pages, presses)
            && (forall m :: 0 <= m < |ABOVE| + |pages| ==> WasAt(pages, presses, m))
            && (forall page :: page in pages ==> Shows(ds[i].ctx.tx, sent.raw, t.signers, page))
            && Walk(pages, presses).pos == |ABOVE| + |pages|
            && (exists k :: 0 <= k <= |presses| && Walk(pages, presses[..k]) == View(2, None))
            && (NetworkFor(sent.magic) == TrueNetwork(sent.magic) <==> sent.magic < 0x8000_0000)
            && (NumberFor(t.header.validUntilBlock) == DecimalText(t.header.validUntilBlock) <==>
                  t.header.validUntilBlock < 0x8000_0000)
            && var digest := env.sha256(LeBytes(sent.magic, 4) + env.sha256(sent.raw));
               outs[i] == match env.sign(Stored(sent.pathData), digest)
                          case None => Some(Answered(SwSignFail))
                          case Some(signature) => Some(SignatureSent(signature))
  {
    hide Inv, CtxInv, Run, Reacts, SentBy, Walk, AllPages, ShapesFor, ShownFor, Recognised, Serialize,
         WellFormed, Holds, LeBytes, Shows, NetworkFor, NumberFor, TrueNetwork;
    RunAt(env, ds, events, outs, i);
    p := ReviewBegan(env, ds, events, outs, i);
    RunKeeps(env, ds, events, outs, i);
    ReviewedIn(env, ds[i]);
    SigningEnds(env, ds[i], events[i], outs[i], ds[i + 1]);
    t := TransactionIn(ds[i].ctx.raw);
    presses := ds[i].ui.presses;
    var pages := AllPages(ShapesFor(t.signers));
    ShownAsSuchIff(ds[i].ctx.magic);
    ShownAsSuchIff(t.header.validUntilBlock);
    PagesShowSigners(ds[i].ctx.tx, ds[i].ctx.raw, t);
    SomePages(t.signers);
    ApproveAfterAll(pages, presses);
  }

  /** The page draws what it is for: an account, a contract, and only a group not whole. */
  ghost predicate Shows(tx: TransactionValue, raw: seq<byte>, signers: seq<Signer>, page: Page) {
    InShape(ShapesFor(signers), page) && Drawable(tx.signers, raw, ShapesFor(signers))
    && (forall before :: PageText(tx.signers, raw, ShapesFor(signers), page, before) == PageFor(signers, page, before))
    && (page.IndexPage? || page.ScopePage?
        || (PageFor(signers, page, "") == WholeText(signers, page) <==> !page.GroupPage?))
  }

  lemma PagesShowSigners(tx: TransactionValue, raw: seq<byte>, t: Transaction)
    requires WellFormed(t) && Holds(tx, raw, t)
    ensures forall page :: page in AllPages(ShapesFor(t.signers)) ==> Shows(tx, raw, t.signers, page)
    ensures t.signers != []
  {
    hide Holds, AllPages, InShape, ShapesFor, Drawable, PageText, PageFor, WellFormed, WholeText;
    SomeSigners(t);
    HeldIsDrawable(tx, raw, t);
    forall page | page in AllPages(ShapesFor(t.signers)) ensures Shows(tx, raw, t.signers, page) {
      PagesAreInShape(ShapesFor(t.signers), page);
      forall before
        ensures PageText(tx.signers, raw, ShapesFor(t.signers), page, before) == PageFor(t.signers, page, before)
      {
        PageShowsSigner(tx, raw, t, page, before);
      }
      if !page.IndexPage? && !page.ScopePage? { PageWholeIff(t, page, ""); }
    }
  }

  lemma SomeSigners(t: Transaction)
    requires WellFormed(t)
    ensures t.signers != []
  {
  }

  lemma ReviewedIn(env: Env, d: Device)
    requires Inv(env, d) && d.ui.Reviewing?
    ensures Reviewed(env, d.ctx, d.ui.shown, d.ui.pages) && |d.ctx.raw| <= MAX_TRANSACTION_LEN
    ensures d.ui.shown.transfer.Some? <==> Recognised(TransactionIn(d.ctx.raw).script).Some?
  {
    hide Spent, SlotsBelong, Holds, AllPages, ShapesFor, Recognised, AddressText, AmountText;
  }

  lemma SomePages(signers: seq<Signer>)
    requires signers != []
    ensures AllPages(ShapesFor(signers)) != []
  {
    var shapes := ShapesFor(signers);
    assert AllPages(shapes) == AllPages(shapes[..|shapes| - 1]) + SignerPages(|shapes| - 1, shapes[|shapes| - 1]);
  }

  /** The amount shown is the amount the script pushes exactly when that is not negative: a negative
      PUSHINT8 operand is shown as an unsigned byte, other negative amounts as unsigned 64-bit numbers.
      And the text shown is of that number only. */
  lemma AmountShownIff(p: Push, neo: bool, n: nat)
    requires ValidPush(p)
    ensures AsU64(Amount(p)) == Pushed(p) <==> Pushed(p) >= 0
    ensures AmountText(Amount(p), neo) == (if neo then "NEO " else "GAS ") + FixedText(n, if neo then 0 else 8)
            <==> n == AsU64(Amount(p))
  {
    hide FixedText;
    assert Pow(256, 1) == 256;
    var decimals, shown := if neo then 0 else 8, AsU64(Amount(p));
    FixedTextInjective(n, shown, decimals);
    var prefix := if neo then "NEO " else "GAS ";
    assert (prefix + FixedText(n, decimals))[4..] == FixedText(n, decimals);
    assert (prefix + FixedText(shown, decimals))[4..] == FixedText(shown, decimals);
  }

  /** The key that signs has a valid path exactly when the last first chunk's path was accepted, or was
      refused at its last two levels, which are then zero: a refused path does not stop a session. */
  lemma SignedPathValidIff(env: Env, ds: seq<Device>, events: seq<Event>, outs: seq<Option<Outcome>>, i: nat)
    requires Run(env, ds, events, outs) && i < |events| && Signs(ds[i], events[i])
    ensures var status := StatusOf(SentBy(events[..i]).pathData);
            ValidPath(ds[i].ctx.path) <==> status == PathOk || status == BadChange || status == BadAddress
  {
    hide Inv, Run, SentBy, Stored, StatusOf, ValidPath;
    RunAt(env, ds, events, outs, i);
    RunKeeps(env, ds, events, outs, i);
    StoredIsValidIff(SentBy(events[..i]).pathData);
  }

  /** STATE_MAGIC_OK does not mean that a path was accepted: one byte instead of a path, and then a
      magic, get there. */
  lemma MagicOkWithoutPath(env: Env) returns (ds: seq<Device>, events: seq<Event>, outs: seq<Option<Outcome>>)
    ensures Run(env, ds, events, outs) && |events| == 2
    ensures outs[0] == Some(PathRefused(WrongDataLength)) && outs[1] == Some(Answered(SwOk))
    ensures ds[2].ctx.state == StateMagicOk && !ValidPath(ds[2].ctx.path)
  {
    hide MagicIn;
    var first := Apdu(CLA, SIGN_TX, P1_START, P2_MORE, [0]);
    var second := Apdu(CLA, SIGN_TX, 1, P2_MORE, [0, 0, 0, 0]);
    events := [Command(first), Command(second)];
    outs := [Some(PathRefused(WrongDataLength)), Some(Answered(SwOk))];
    var c1 := Zeroed(StateNone, ConfirmTransaction, Stored([0]));
    var c2 := c1.(magic := MagicIn(second.data), state := StateMagicOk);
    ds := [BOOTED, Device(c1, Menu), Device(c2, Menu)];
    assert Reacts(env, BOOTED, events[0], outs[0], ds[1]);
    assert Reacts(env, ds[1], events[1], outs[1], ds[2]);
  }

  // ---------------------------------------------------------------- chunks

  ghost function Joined(pieces: seq<ApduData>): seq<byte> {
    if pieces == [] then [] else Joined(pieces[..|pieces| - 1]) + pieces[|pieces| - 1]
  }

  /** A piece of the transaction, with any P1 in 2..6. */
  predicate IsPiece(event: Event, piece: ApduData, more: bool) {
    event.Command? && LaterChunk(event.cmd) && event.cmd.p1 >= 2 && event.cmd.data == piece
    && event.cmd.p2 == if more then P2_MORE else P2_LAST
  }

  /** events[i..] starts with these pieces. */
  predicate PiecesAt(events: seq<Event>, i: nat, pieces: seq<ApduData>) {
    i + |pieces| <= |events| && forall k :: 0 <= k < |pieces| ==> IsPiece(events[i + k], pieces[k], k < |pieces| - 1)
  }

  lemma {:induction false} JoinedGrows(pieces: seq<ApduData>, k: nat)
    requires k <= |pieces|
    ensures |Joined(pieces[..k])| <= |Joined(pieces)|
    decreases |pieces|
  {
    if k == |pieces| {
      assert pieces[..k] == pieces;
    } else {
      var front := pieces[..|pieces| - 1];
      assert front[..k] == pieces[..k];
      JoinedGrows(front, k);
    }
  }

  /** All pieces but the last are only stored. */
  lemma {:induction false} PiecesStored(env: Env, ds: seq<Device>, events: seq<Event>, outs: seq<Option<Outcome>>,
                                        i: nat, pieces: seq<ApduData>, k: nat)
    requires Run(env, ds, events, outs) && PiecesAt(events, i, pieces) && k < |pieces|
    requires SentBy(events[..i]).begun && SentBy(events[..i]).raw == [] && |Joined(pieces)| <= MAX_TRANSACTION_LEN
    ensures ds[i + k].ctx == ds[i].ctx.(raw := Joined(pieces[..k]))
  {
    hide Inv, Run, SentBy, Stored, Reacts, PiecesAt, IsPiece, Joined;
    PieceAt(events, i, pieces, k);
    RunAt(env, ds, events, outs, i);
    RunKeeps(env, ds, events, outs, i);
    if k == 0 {
      NoPieces(pieces);
    } else {
      var j := i + (k - 1);
      RunAt(env, ds, events, outs, j);
      PiecesStored(env, ds, events, outs, i, pieces, k - 1);
      JoinedNext(pieces, k);
      PieceAt(events, i, pieces, k - 1);
      PieceStored(env, ds[j], events[j], outs[j], ds[j + 1], pieces[k - 1]);
    }
  }

  lemma NoPieces(pieces: seq<ApduData>)
    ensures Joined(pieces[..0]) == []
  {
  }

  lemma PieceAt(events: seq<Event>, i: nat, pieces: seq<ApduData>, k: nat)
    requires PiecesAt(events, i, pieces) && k < |pieces|
    ensures i + k < |events| && IsPiece(events[i + k], pieces[k], k < |pieces| - 1)
    ensures events[i + k].Command? && events[i + k].cmd.data == pieces[k]
  {
  }

  lemma JoinedNext(pieces: seq<ApduData>, k: nat)
    requires 0 < k <= |pieces|
    ensures Joined(pieces[..k]) == Joined(pieces[..k - 1]) + pieces[k - 1]
    ensures |Joined(pieces[..k])| <= |Joined(pieces)|
  {
    JoinedGrows(pieces, k);
    assert pieces[..k][..k - 1] == pieces[..k - 1];
  }

  lemma PieceStored(env: Env, d: Device, event: Event, out: Option<Outcome>, after: Device, piece: ApduData)
    requires Reacts(env, d, event, out, after) && IsPiece(event, piece, true)
    requires d.ctx.reqType == ConfirmTransaction && |d.ctx.raw| + |piece| <= MAX_TRANSACTION_LEN
    ensures after.ctx == d.ctx.(raw := d.ctx.raw + piece)
  {
    hide LastChunk, AllPages, Shapes;
  }

  /** Chunking does not matter: after a fresh first chunk and whatever magic, any split of the same
      bytes into pieces, with any P1 in 2..6, is stored as these bytes, and answered, and hashed, as a
      function of the bytes and the magic. */
  lemma AnySplit(env: Env, ds: seq<Device>, events: seq<Event>, outs: seq<Option<Outcome>>, i: nat,
                 pieces: seq<ApduData>)
    requires Run(env, ds, events, outs) && pieces != [] && PiecesAt(events, i, pieces)
    requires SentBy(events[..i]).begun && SentBy(events[..i]).raw == [] && |Joined(pieces)| <= MAX_TRANSACTION_LEN
    ensures var n, raw := i + |pieces|, Joined(pieces);
            ds[n].ctx.raw == raw
            && outs[n - 1] == Some(Verdict(env, raw, SentBy(events[..i]).magic))
            && (Accepted(raw, FRESH) ==> ds[n].ctx.hash == env.sha256(raw))
  {
    var last := |pieces| - 1;
    hide Inv, Run, SentBy, Stored, Dispatch, AnsweredByUser, Verdict, Accepted, IsPiece, Joined, PiecesAt;
    RunAt(env, ds, events, outs, i + last);
    assert pieces[..last + 1] == pieces;
    JoinedNext(pieces, last + 1);
    PieceAt(events, i, pieces, last);
    PiecesStored(env, ds, events, outs, i, pieces, last);
    RunKeeps(env, ds, events, outs, i);
    RunKeeps(env, ds, events, outs, i + last);
    LastPiece(env, ds[i], ds[i + last], events[i + last].cmd, outs[i + last].value, ds[i + last + 1]);
  }

  /** The structure was zeroed at i and nothing parsed since. */
  lemma LastPiece(env: Env, start: Device, d: Device, cmd: Apdu, out: Outcome, after: Device)
    requires Inv(env, start) && Inv(env, d) && start.ctx.raw == [] && d.ctx == start.ctx.(raw := d.ctx.raw)
    requires d.ctx.reqType == ConfirmTransaction && |d.ctx.raw| + |cmd.data| <= MAX_TRANSACTION_LEN
    requires IsPiece(Command(cmd), cmd.data, false) && Commanded(env, d, cmd, out, after)
    ensures after.ctx.raw == d.ctx.raw + cmd.data && out == Verdict(env, after.ctx.raw, d.ctx.magic)
    ensures Accepted(after.ctx.raw, FRESH) ==> after.ctx.hash == env.sha256(after.ctx.raw)
  {
    hide SlotsBelong, Spent, Holds, LastChunk, Parsing, AllPages, ShapesFor, ShownFor, Shapes;
    assert d.ctx.tx.attributes == FRESH;
    LastChunkOutcome(env, d.ctx, cmd.data, after.ctx, out);
  }
}
