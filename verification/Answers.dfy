/** What the device answers, over every run, from the commands and the buttons alone: every command and
    every answer by button, and where a signature or a key can leave. */
module Answers {
  import opened Bytes
  import opened Address
  import opened Bip44
  import opened Grammar
  import opened Deserialize
  import opened Pages
  import opened Session
  import opened SessionInvariant
  import opened SessionTheorems

  // ---------------------------------------------------------------- commands

  /** The answer to a SIGN_TX command, after what was sent. */
  lemma SignTxAnswered(env: Env, d: Device, cmd: Apdu, out: Outcome, after: Device, sent: Sent)
    requires Inv(env, d) && Tracks(d.ctx, sent) && Commanded(env, d, cmd, out, after)
    requires cmd.cla == 0x80 && cmd.ins == 0x02
    ensures out == if (cmd.p1 == 0 && cmd.p2 != 0x80) || cmd.p1 > 6 || (cmd.p2 != 0 && cmd.p2 != 0x80) then
                     Answered(SwWrongP1P2)
                   else if cmd.data == [] then Answered(SwWrongDataLength)
                   else if cmd.p1 == 0 then
                     (if StatusOf(cmd.data) == PathOk then Answered(SwOk) else PathRefused(StatusOf(cmd.data)))
                   else if !sent.begun then Answered(SwBadState)
                   else if cmd.p1 == 1 then
                     (if |cmd.data| < 4 then Answered(SwMagicParsingFail) else Answered(SwOk))
                   else if |sent.raw| + |cmd.data| > 1024 then Answered(SwWrongTxLength)
                   else if cmd.p2 == 0x80 then Answered(SwOk)
                   else FinalAnswer(env, sent.raw + cmd.data, sent.magic, sent.marked)
  {
    hide LastChunk, StatusOf, Stored, SlotsBelong, Spent, UiInv, FinalAnswer, AllPages, Shapes, Completes, MagicIn;
    CommandStep(env, d, cmd, out, after, sent);
  }

  /** The answer to any other command. */
  lemma OtherAnswered(env: Env, d: Device, cmd: Apdu, out: Outcome, after: Device)
    requires Commanded(env, d, cmd, out, after)
    ensures cmd.cla != 0x80 ==> out == Answered(SwClaNotSupported)
    ensures cmd.cla == 0x80 && cmd.ins !in {0x00, 0x01, 0x02, 0x04} ==> out == Answered(SwInsNotSupported)
    ensures cmd.cla == 0x80 && cmd.ins == 0x00 ==>
              out == if cmd.p1 != 0 || cmd.p2 != 0 then Answered(SwWrongP1P2) else AppNameSent
    ensures cmd.cla == 0x80 && cmd.ins == 0x01 ==>
              out == if cmd.p1 != 0 || cmd.p2 != 0 then Answered(SwWrongP1P2) else VersionSent
    ensures cmd.cla == 0x80 && cmd.ins == 0x04 ==>
              out == if cmd.p1 != 0 || cmd.p2 > 1 then Answered(SwWrongP1P2)
                     else if cmd.data == [] then Answered(SwWrongDataLength)
                     else if StatusOf(cmd.data) != PathOk then PathRefused(StatusOf(cmd.data))
                     else
                       var key := env.publicKey(Stored(cmd.data));
                       if cmd.p2 == 0 then PublicKeySent(key)
                       else AddressPresented(AddressText(env.sha256, env.ripemd160(env.sha256(RedeemScript(key)))))
  {
    hide SignTx, StatusOf, Stored, AllPages, Shapes, RedeemScript, AddressText;
  }

  /** Every command of every run, in numbers. The path's status and what is stored of it are spelled out
      in Bip44, the statuses of a refused transaction in Layout, and what is presented in SignedBytes. */
  lemma CommandAnswers(env: Env, ds: seq<Device>, events: seq<Event>, outs: seq<Option<Outcome>>, i: nat)
    requires Run(env, ds, events, outs) && i < |events| && events[i].Command?
    ensures var cmd, sent := events[i].cmd, SentBy(events[..i]);
            outs[i] == Some(
              if cmd.cla != 0x80 then Answered(SwClaNotSupported)
              else if cmd.ins == 0x00 then
                (if cmd.p1 != 0 || cmd.p2 != 0 then Answered(SwWrongP1P2) else AppNameSent)
              else if cmd.ins == 0x01 then
                (if cmd.p1 != 0 || cmd.p2 != 0 then Answered(SwWrongP1P2) else VersionSent)
              else if cmd.ins == 0x02 then
                (if (cmd.p1 == 0 && cmd.p2 != 0x80) || cmd.p1 > 6 || (cmd.p2 != 0 && cmd.p2 != 0x80) then
                   Answered(SwWrongP1P2)
                 else if cmd.data == [] then Answered(SwWrongDataLength)
                 else if cmd.p1 == 0 then
                   (if StatusOf(cmd.data) == PathOk then Answered(SwOk) else PathRefused(StatusOf(cmd.data)))
                 else if !sent.begun then Answered(SwBadState)
                 else if cmd.p1 == 1 then
                   (if |cmd.data| < 4 then Answered(SwMagicParsingFail) else Answered(SwOk))
                 else if |sent.raw| + |cmd.data| > 1024 then Answered(SwWrongTxLength)
                 else if cmd.p2 == 0x80 then Answered(SwOk)
                 else FinalAnswer(env, sent.raw + cmd.data, sent.magic, sent.marked))
              else if cmd.ins == 0x04 then
                (if cmd.p1 != 0 || cmd.p2 > 1 then Answered(SwWrongP1P2)
                 else if cmd.data == [] then Answered(SwWrongDataLength)
                 else if StatusOf(cmd.data) != PathOk then PathRefused(StatusOf(cmd.data))
                 else
                   var key := env.publicKey(Stored(cmd.data));
                   if cmd.p2 == 0 then PublicKeySent(key)
                   else AddressPresented(AddressText(env.sha256, env.ripemd160(env.sha256(RedeemScript(key))))))
              else Answered(SwInsNotSupported))
  {
    hide Inv, Run, Commanded, SentBy, StatusOf, Stored, FinalAnswer, RedeemScript, AddressText;
    RunAt(env, ds, events, outs, i);
    RunKeeps(env, ds, events, outs, i);
    OtherAnswered(env, ds[i], events[i].cmd, outs[i].value, ds[i + 1]);
    if events[i].cmd.cla == 0x80 && events[i].cmd.ins == 0x02 {
      SignTxAnswered(env, ds[i], events[i].cmd, outs[i].value, ds[i + 1], SentBy(events[..i]));
    }
  }

  // ---------------------------------------------------------------- buttons

  /** A signature, or the news that none could be made, leaves only at Approve of a review: nothing else
      calls crypto_sign_tx. */
  lemma SignatureOnlyBySigning(env: Env, ds: seq<Device>, events: seq<Event>, outs: seq<Option<Outcome>>, i: nat)
    requires Run(env, ds, events, outs) && i < |events| && outs[i].Some?
    requires outs[i].value.SignatureSent? || outs[i] == Some(Answered(SwSignFail))
    ensures Signs(ds[i], events[i])
  {
    hide Run, AnswerShown, FinalAnswer, StatusOf, Stored, RedeemScript, AddressText, SentBy, Dispatch;
    RunAt(env, ds, events, outs, i);
    if events[i].Command? {
      CommandAnswers(env, ds, events, outs, i);
      FinalAnswerIs(env, SentBy(events[..i]), events[i].cmd);
    }
  }

  /** The answer to a final piece, spelled out. */
  lemma FinalAnswerIs(env: Env, sent: Sent, cmd: Apdu)
    ensures var raw := sent.raw + cmd.data;
            FinalAnswer(env, raw, sent.magic, sent.marked)
            == if sent.marked then ParsingFailed(AttributesDuplicateType)
               else if Accepted(raw, FRESH) then Presented(ShownFor(env, TransactionIn(raw), sent.magic))
               else ParsingFailed(Parsing(raw, FRESH).status)
  {
    hide Parsing, ShownFor;
  }

  /** What a command adds to what was sent, spelled out: GET_PUBLIC_KEY and the first chunk start over;
      the second chunk brings the magic, its first four bytes, or 0 when they are not there; the others
      append, if there is room. */
  lemma HeardSpelled(sent: Sent, cmd: Apdu)
    ensures Heard(sent, cmd)
            == if cmd.cla != 0x80 || cmd.data == [] then sent
               else if cmd.ins == 0x04 && cmd.p1 == 0 && cmd.p2 <= 1 then Sent(false, cmd.data, 0, [], false)
               else if cmd.ins == 0x02 && cmd.p1 == 0 && cmd.p2 == 0x80 then Sent(true, cmd.data, 0, [], false)
               else if cmd.ins != 0x02 || cmd.p1 == 0 || cmd.p1 > 6 || (cmd.p2 != 0 && cmd.p2 != 0x80) then sent
               else if !sent.begun then sent
               else if cmd.p1 == 1 then sent.(magic := if |cmd.data| < 4 then 0 else MagicIn(cmd.data))
               else if |sent.raw| + |cmd.data| > 1024 then sent
               else sent.(raw := sent.raw + cmd.data,
                          marked := sent.marked || (cmd.p2 == 0 && ReachesAttribute(sent.raw + cmd.data)))
  {
    hide ReachesAttribute, MagicIn;
  }

  /** Both buttons on Reject, or on Abort, deny, and nothing more; the menu comes back. */
  lemma RejectDenies(env: Env, ds: seq<Device>, events: seq<Event>, outs: seq<Option<Outcome>>, i: nat)
    requires Run(env, ds, events, outs) && i < |events| && events[i].Both?
    requires ds[i].ui.Reviewing? && AnswerShown(ds[i].ui) == Some(false)
    ensures outs[i] == Some(Answered(SwDeny)) && ds[i + 1].ui == Menu
  {
    hide Run, AnswerShown;
    RunAt(env, ds, events, outs, i);
  }

  /** All other presses are silent: a single button, and both where there is nothing to answer, which
      also changes nothing. */
  lemma OthersAreSilent(env: Env, ds: seq<Device>, events: seq<Event>, outs: seq<Option<Outcome>>, i: nat)
    requires Run(env, ds, events, outs) && i < |events|
    ensures events[i].Key? ==> outs[i] == None && ds[i + 1].ctx == ds[i].ctx
    ensures events[i].Both? && AnswerShown(ds[i].ui) == None ==> outs[i] == None && ds[i + 1] == ds[i]
  {
    hide Run, AnswerShown;
    RunAt(env, ds, events, outs, i);
  }

  /** Where an answer is shown: on Approve and Reject of a transfer, on Abort of anything else, and on the
      third and fourth step of an address, which are Approve and Reject. */
  lemma AnswersAreAt(ui: Ui)
    ensures ui.Menu? ==> AnswerShown(ui) == None
    ensures ui.Reviewing? && ui.shown.transfer.Some? ==>
              var screen := ScreenAt(ui.pages, Walk(ui.pages, ui.presses).pos);
              && (AnswerShown(ui) == Some(true) <==> screen == StepScreen(Approve))
              && (AnswerShown(ui) == Some(false) <==> screen == StepScreen(Reject))
    ensures ui.Reviewing? && ui.shown.transfer.None? ==>
              AnswerShown(ui) == if Linear(1, ui.presses) == 1 then Some(false) else None
    ensures ui.ShowingAddress? ==>
              AnswerShown(ui)
              == if Linear(3, ui.presses) == 2 then Some(true)
                 else if Linear(3, ui.presses) == 3 then Some(false) else None
  {
    hide Walk, Linear;
  }

  // ---------------------------------------------------------------- keys

  /** A GET_PUBLIC_KEY command with this P2 and a path that passes. */
  ghost predicate AsksForKey(event: Event, p2: byte) {
    event.Command? && event.cmd.cla == 0x80 && event.cmd.ins == 0x04 && event.cmd.p1 == 0 && event.cmd.p2 == p2
    && StatusOf(event.cmd.data) == PathOk
  }

  ghost function KeyAsked(env: Env, event: Event): PublicKey
    requires event.Command?
  {
    env.publicKey(Stored(event.cmd.data))
  }

  /** The address on the screen goes back to one command p that asked for it; since then there were only
      buttons, and the presses are theirs. */
  ghost predicate AddressAskedAt(env: Env, ds: seq<Device>, events: seq<Event>, i: nat, p: nat)
    requires p < i < |ds| && |ds| == |events| + 1
  {
    ds[i].ui.ShowingAddress? && AsksForKey(events[p], 1)
    && (forall k :: p < k < i ==> !events[k].Command?)
    && ds[i].ui.presses == Keys(events[p + 1..i]) && env.publicKey(ds[i].ctx.path) == KeyAsked(env, events[p])
  }

  lemma AddressFrom(env: Env, d: Device, event: Event, out: Option<Outcome>, after: Device)
    requires Reacts(env, d, event, out, after) && after.ui.ShowingAddress?
    ensures event.Command? ==>
              AsksForKey(event, 1) && after.ui.presses == [] && after.ctx.path == Stored(event.cmd.data)
    ensures !event.Command? ==>
              d.ui.ShowingAddress? && after.ctx == d.ctx
              && after.ui.presses == d.ui.presses + if event.Key? then [event.press] else []
  {
    hide LastChunk, StatusOf, Stored, ValidateTransaction, AllPages, Shapes, AnswerShown, AddressOf, MagicIn;
    if event.Command? { AddressOnlyAsked(env, d, event.cmd, out.value, after); }
  }

  lemma AddressOnlyAsked(env: Env, d: Device, cmd: Apdu, out: Outcome, after: Device)
    requires Commanded(env, d, cmd, out, after) && after.ui.ShowingAddress?
    ensures AsksForKey(Command(cmd), 1) && after.ui.presses == [] && after.ctx.path == Stored(cmd.data)
  {
    hide LastChunk, StatusOf, Stored, AllPages, Shapes, AddressOf, MagicIn, SignTx;
    if cmd.ins == SIGN_TX && !out.Presented? { NoAddressSigning(env, d, cmd, out, after); }
    ShortPath(cmd.data);
  }

  lemma ShortPath(data: seq<byte>)
    ensures StatusOf(data) == PathOk ==> data != []
  {
    hide Levels, Checked;
  }

  lemma NoAddressSigning(env: Env, d: Device, cmd: Apdu, out: Outcome, after: Device)
    requires Commanded(env, d, cmd, out, after) && cmd.ins == SIGN_TX
    ensures !after.ui.ShowingAddress?
  {
    hide Deserialized, StatusOf, Stored, AllPages, Shapes;
  }

  lemma {:induction false} AddressBegan(env: Env, ds: seq<Device>, events: seq<Event>, outs: seq<Option<Outcome>>,
                                        i: nat)
    returns (p: nat)
    requires Run(env, ds, events, outs) && i <= |events| && ds[i].ui.ShowingAddress?
    ensures p < i && AddressAskedAt(env, ds, events, i, p)
  {
    hide Reacts, Run, Keys, AsksForKey, Stored;
    RunAt(env, ds, events, outs, if i == 0 then 0 else i - 1);
    AddressFrom(env, ds[i - 1], events[i - 1], outs[i - 1], ds[i]);
    if events[i - 1].Command? {
      p := i - 1;
      KeysBetween(events, i, i);
    } else {
      p := AddressBegan(env, ds, events, outs, i - 1);
      KeysBetween(events, p + 1, i);
    }
  }

  /** When a key leaves, and which: exactly at a GET_PUBLIC_KEY with P2 0 and a path that passes, the key
      of that path; or at both buttons on Approve, the third step, of an address that a GET_PUBLIC_KEY
      with P2 1 and such a path put on the screen, only presses since, the key of that path. */
  lemma KeySentIff(env: Env, ds: seq<Device>, events: seq<Event>, outs: seq<Option<Outcome>>, i: nat, key: PublicKey)
    requires Run(env, ds, events, outs) && i < |events|
    ensures |ds| == |events| + 1
    ensures outs[i] == Some(PublicKeySent(key)) <==>
            || (AsksForKey(events[i], 0) && key == KeyAsked(env, events[i]))
            || (events[i].Both? && ds[i].ui.ShowingAddress? && Linear(3, ds[i].ui.presses) == 2
                && exists p :: 0 <= p < i && AddressAskedAt(env, ds, events, i, p) && key == KeyAsked(env, events[p]))
  {
    hide Run, Dispatch, StatusOf, Stored, FinalAnswer, RedeemScript, AddressText, Linear, Walk, Keys, SentBy;
    RunAt(env, ds, events, outs, i);
    if events[i].Command? {
      CommandAnswers(env, ds, events, outs, i);
      FinalAnswerIs(env, SentBy(events[..i]), events[i].cmd);
      ShortPath(events[i].cmd.data);
    } else if ds[i].ui.ShowingAddress? {
      var p := AddressBegan(env, ds, events, outs, i);
    }
  }

  /** Both buttons on Reject, the fourth step, of an address deny. */
  lemma KeyDenied(env: Env, ds: seq<Device>, events: seq<Event>, outs: seq<Option<Outcome>>, i: nat)
    requires Run(env, ds, events, outs) && i < |events| && events[i].Both?
    requires ds[i].ui.ShowingAddress? && Linear(3, ds[i].ui.presses) == 3
    ensures outs[i] == Some(Answered(SwDeny)) && ds[i + 1].ui == Menu
  {
    hide Run, Linear;
    RunAt(env, ds, events, outs, i);
  }

  /** The four steps of an address: Right is one step on, Left one back, not beyond the ends. */
  lemma StepsOfAddress(presses: seq<Press>)
    ensures Linear(3, []) == 0
    ensures Linear(3, presses + [Right]) == if Linear(3, presses) < 3 then Linear(3, presses) + 1 else 3
    ensures Linear(3, presses + [Left]) == if Linear(3, presses) > 0 then Linear(3, presses) - 1 else 0
  {
    assert (presses + [Right])[..|presses|] == presses && (presses + [Left])[..|presses|] == presses;
  }
}
