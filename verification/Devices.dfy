/** The whole device: the dispatcher (src/apdu/dispatcher.c) and the buttons, over the global context
    and the flows, proved to take only the steps of Session.dfy. */
module Devices {
  import opened Bytes
  import opened Buffers
  import opened Varint
  import opened Grammar
  import opened Deserialize
  import opened Pages
  import opened Pager
  import opened Drawing
  import opened Display
  import opened Session
  import opened SessionInvariant
  import opened SessionTheorems
  import opened Handlers

  datatype Mode = InMenu | InTransaction | InAddress

  // Confirm, address, Approve, Reject.
  const ADDRESS_APPROVE := 2
  const ADDRESS_REJECT := 3

  class App {
    const env: Env
    const context: Context
    var mode: Mode
    var flow: Flow?
    var addressStep: nat
    ghost var ui: Ui
    ghost var sent: Sent

    ghost function Device(): Device
      reads this, context, context.transaction, context.Parts()
      requires context.Shaped()
    {
      Session.Device(context.Abs(), ui)
    }

    ghost function FlowParts(): set<object>
      reads this
    {
      if flow == null then {} else {flow, flow.ctx, flow.flow}
    }

    ghost predicate Valid()
      reads this, context.Parts(), FlowParts()
    {
      context.Shaped() && Inv(env, Device()) && Tracks(context.Abs(), sent)
      && match ui
         case Menu => mode == InMenu
         case Reviewing(shown, pages, presses) => mode == InTransaction && FlowIs(shown, pages, presses)
         case ShowingAddress(_, presses) =>
           mode == InAddress && addressStep == Linear(ADDRESS_REJECT, presses)
           && context.rawTx[..64] == env.publicKey(context.Abs().path)
    }

    /** The flow is where that many presses lead. */
    ghost predicate FlowIs(shown: Shown, pages: seq<Page>, presses: seq<Press>)
      reads this, context, context.transaction, context.Parts(), FlowParts()
      requires context.Shaped()
    {
      flow != null && flow.slots == context.transaction.signers && flow.raw == context.Abs().raw
      && (shown.transfer.Some? ==> flow.amount == shown.transfer.value.amount)
      && if shown.transfer.Some? then
           flow.OnTransfer() && pages == AllPages(flow.ctx.signers) && flow.AsView() == Walk(pages, presses)
         else
           flow.OnOther() && flow.index == Linear(1, presses)
    }

    constructor (env: Env)
      ensures Valid() && Device() == BOOTED && this.env == env
    {
      this.env := env;
      context := new Context();
      mode, flow, addressStep, ui, sent := InMenu, null, 0, Menu, SentBy([]);
      new;
      BootedKeeps(env);
    }

    /** apdu_dispatcher. */
    method ApduDispatcher(cmd: Apdu) returns (out: Outcome)
      requires context.Shaped()
      modifies context.Parts()
      ensures context.Shaped() && Dispatch(env, old(context.Abs()), cmd, context.Abs(), out)
      ensures out.AddressPresented? ==> context.rawTx[..64] == env.publicKey(context.Abs().path)
    {
      hide SignTx, GetPublicKey;
      ghost var before := context.Abs();
      if cmd.cla != CLA { return Answered(SwClaNotSupported); }
      if cmd.ins == GET_VERSION {
        if cmd.p1 != 0 || cmd.p2 != 0 { return Answered(SwWrongP1P2); }
        return VersionSent;
      } else if cmd.ins == GET_APP_NAME {
        if cmd.p1 != 0 || cmd.p2 != 0 { return Answered(SwWrongP1P2); }
        return AppNameSent;
      } else if cmd.ins == GET_PUBLIC_KEY {
        if cmd.p1 > 0 || cmd.p2 > 1 { return Answered(SwWrongP1P2); }
        if cmd.data == [] { return Answered(SwWrongDataLength); }
        var buf := new Buffer(cmd.data);
        out := context.HandlerGetPublicKey(env, buf, cmd.p2 == 1);
      } else if cmd.ins == SIGN_TX {
        if (cmd.p1 == P1_START && cmd.p2 != P2_MORE) || cmd.p1 > P1_MAX || (cmd.p2 != P2_LAST && cmd.p2 != P2_MORE) {
          return Answered(SwWrongP1P2);
        }
        if cmd.data == [] { return Answered(SwWrongDataLength); }
        var buf := new Buffer(cmd.data);
        out := context.HandlerSignTx(env, buf, cmd.p1, cmd.p2 == P2_MORE);
        SigningShowsNoAddress(env, before, cmd.data, cmd.p1, cmd.p2 == P2_MORE, context.Abs(), out);
      } else {
        return Answered(SwInsNotSupported);
      }
    }

    /** A command, arriving in the menu. */
    method Command(cmd: Apdu) returns (out: Outcome)
      requires Valid() && ui.Menu?
      modifies this, context.Parts()
      ensures Valid() && Commanded(env, old(Device()), cmd, out, Device())
      ensures out.Presented? ==> fresh(FlowParts())
    {
      hide Dispatch, Inv, Heard, Tracks, AllPages, Shapes, FlowIs, Walk, Completes, IsFinal, FinalAnswer, LaterChunk,
           Oversize, Spent;
      ghost var before := Device();
      out := ApduDispatcher(cmd);
      match out {
        case Presented(shown) =>
          mode := InTransaction;
          ui := Reviewing(shown, AllPages(Shapes(context.Abs().tx)), []);
        case AddressPresented(address) =>
          mode, addressStep := InAddress, 0;
          ui := ShowingAddress(address, []);
        case _ =>
          ui := Menu;
      }
      assert Commanded(env, before, cmd, out, Device());
      CommandStep(env, before, cmd, out, Device(), sent);
      sent := Heard(sent, cmd);
      if out.Presented? {
        StartFlow(out.shown);
      }
    }

    /** The end of ui_display_transaction. */
    method StartFlow(shown: Shown)
      requires context.Shaped() && Inv(env, Device()) && Tracks(context.Abs(), sent)
      requires mode == InTransaction && ui == Reviewing(shown, AllPages(Shapes(context.Abs().tx)), [])
      modifies this`flow
      ensures Valid() && fresh(FlowParts())
    {
      hide AllPages, Inv, Shapes, Tracks;
      ReviewFits(env, Device());
      var tx := context.transaction;
      var amount := if shown.transfer.Some? then shown.transfer.value.amount else "";
      flow := new Flow(tx.isSystemAssetTransfer, Shapes(tx.Value()), tx.signers, context.rawTx[..context.rawTxLen],
        amount, if flow == null then "" else flow.scopeName);
    }

    /** The left or the right button. */
    method PressKey(press: Press)
      requires Valid()
      modifies this`ui, this`addressStep, FlowParts()
      ensures Valid() && Reacts(env, old(Device()), Key(press), None, Device())
      ensures FlowParts() == old(FlowParts())
    {
      hide Inv, Tracks, AllPages, Walk, Move, Linear, ViewOf, BetweenPresses, Fitting, TextFor, Drawable;
      PressesNext(ui, press);
      KeyKeeps(env, Device(), press);
      match mode {
        case InMenu =>
        case InTransaction =>
          flow.PressKey(press);
        case InAddress =>
          if press == Right {
            if addressStep < ADDRESS_REJECT { addressStep := addressStep + 1; }
          } else if addressStep > 0 {
            addressStep := addressStep - 1;
          }
      }
      ui := Session.Pressed(ui, press);
    }

    /** Both buttons: the callback of the step that is shown, if it has one. */
    method PressBoth() returns (out: Option<Outcome>)
      requires Valid()
      modifies this`ui, this`mode, context
      ensures Valid() && Reacts(env, old(Device()), Both, out, Device())
    {
      hide Inv, Tracks, AllPages, Walk, Move, Linear, ValidateTransaction, TextFor, Drawable;
      var answer := Answer();
      if answer.None? { return None; }
      ghost var before := Device();
      if mode == InTransaction {
        var given := context.UiActionValidateTransaction(env, answer.value);
        out := Some(given);
      } else {
        out := Some(if answer.value then PublicKeySent(context.rawTx[..64]) else Answered(SwDeny));
      }
      mode, ui := InMenu, Menu;
      assert Reacts(env, before, Both, out, Device());
      UserStep(env, before, Both, out, Device());
      SameTracks(before.ctx, context.Abs(), sent);
    }

    method Answer() returns (answer: Option<bool>)
      requires Valid()
      ensures answer == AnswerShown(ui)
    {
      hide Inv, Tracks, AllPages, Walk, Move, Linear, ViewOf, TextFor, Drawable;
      match mode {
        case InMenu => return None;
        case InTransaction =>
          var step := flow.flow[flow.index];
          if flow.OnTransfer() {
            AnswersAt(flow.ctx.signers, flow.index, flow.ctx.At(), flow.drawn);
          }
          return if step == Approve then Some(true) else if step == Reject || step == Abort then Some(false) else None;
        case InAddress =>
          return if addressStep == ADDRESS_APPROVE then Some(true)
                 else if addressStep == ADDRESS_REJECT then Some(false) else None;
      }
    }
  }

  lemma PressesNext(ui: Ui, press: Press)
    ensures ui.Reviewing? ==>
              Walk(ui.pages, ui.presses + [press]) == Move(ui.pages, Walk(ui.pages, ui.presses), press)
              && Linear(1, ui.presses + [press]) == if press == Right then 1 else 0
    ensures ui.ShowingAddress? ==>
              var pos := Linear(ADDRESS_REJECT, ui.presses);
              Linear(ADDRESS_REJECT, ui.presses + [press])
              == if press == Right then (if pos < ADDRESS_REJECT then pos + 1 else pos)
                 else if pos > 0 then pos - 1 else 0
  {
    if !ui.Menu? {
      assert (ui.presses + [press])[..|ui.presses|] == ui.presses;
    }
  }

  lemma SameTracks(c: Ctx, after: Ctx, sent: Sent)
    requires Tracks(c, sent) && after == c.(state := after.state)
    ensures Tracks(after, sent)
  {
  }

  lemma ReviewFits(env: Env, d: Device)
    requires Inv(env, d) && d.ui.Reviewing?
    ensures Fitting(Shapes(d.ctx.tx)) && Drawable(d.ctx.tx.signers, d.ctx.raw, Shapes(d.ctx.tx))
    ensures d.ui.shown.transfer.Some? <==> d.ctx.tx.isSystemAssetTransfer
  {
    hide AllPages, ShownFor, Spent, CtxInv, Holds, Drawable, Fitting, Accepted, WellFormed, Serialize;
    HeldIsDrawable(d.ctx.tx, d.ctx.raw, TransactionIn(d.ctx.raw));
    SignersFit(TransactionIn(d.ctx.raw));
  }

  lemma SignersFit(t: Transaction)
    requires WellFormed(t)
    ensures Fitting(ShapesFor(t.signers))
  {
    hide HasContracts, HasGroups, HasGlobal, Fits, DistinctAccounts;
    forall i | 0 <= i < |t.signers|
      ensures ShapesFor(t.signers)[i].contracts <= 2 && ShapesFor(t.signers)[i].groups <= 2
    {
      assert WellFormedSigner(t.signers[i]);
    }
  }

  lemma SigningShowsNoAddress(env: Env, c: Ctx, data: seq<byte>, chunk: nat, more: bool, after: Ctx, out: Outcome)
    requires SignTx(env, c, data, chunk, more, after, out)
    ensures !out.AddressPresented?
  {
    hide Deserialized;
  }
}
