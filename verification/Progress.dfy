/** Runs that there are: every event is answered, every transfer can be signed, a transaction with an
    attribute can be refused as having it twice, and a path that never passed can sign. */
module Progress {
  import opened Bytes
  import opened Numerals
  import opened Address
  import opened Bip44
  import opened Varint
  import opened Grammar
  import opened GrammarTheorems
  import opened Transfer
  import opened Deserialize
  import opened Placement
  import opened Pages
  import opened Drawing
  import opened Session
  import opened SessionInvariant
  import opened SessionTheorems

  // ---------------------------------------------------------------- every event is answered

  ghost function WithTransfer(sha256: Hash, script: Option<seq<byte>>, v: TransactionValue): TransactionValue {
    match script
    case None => v
    case Some(code) =>
      v.(isSystemAssetTransfer := v.isSystemAssetTransfer || Recognised(code).Some?,
         isNeo := v.isNeo || NeoReached(code),
         amount := AmountLeft(code, v.amount), dstAddress := DestinationText(sha256, code, v.dstAddress))
  }

  lemma WithTransferHas(sha256: Hash, script: Option<seq<byte>>, v: TransactionValue)
    ensures TransferFields(sha256, script, v, WithTransfer(sha256, script, v))
  {
    hide Recognised, NeoReached, AmountLeft, DestinationText;
  }

  /** Whatever the bytes and the structure, there is a result transaction_deserialize may have. */
  lemma ParseExists(sha256: Hash, raw: seq<byte>, before: TransactionValue)
    returns (status: Status, after: TransactionValue)
    ensures Deserialized(sha256, raw, before, status, after)
  {
    hide Parsing, ScriptReached, WithTransfer, SlotsBelong, SlotsAfter, SlotsHold;
    var left := before.(attributes := SlotsAfter(raw, before.attributes));
    var script := ScriptReached(raw, before.attributes);
    NeverReported(raw, before.attributes);
    if Accepted(raw, before.attributes) {
      StaleAcceptsLess(raw, before.attributes);
      var t, slots := SlotsExist(raw);
      AttributesHeld(raw, before.attributes, t);
      left := left.(version := 0, nonce := t.header.nonce, systemFee := t.header.systemFee,
        networkFee := t.header.networkFee, validUntilBlock := t.header.validUntilBlock,
        signers := slots, signersSize := |t.signers|, attributesSize := |t.attributes|,
        script := |raw| - |t.script|, scriptSize := |t.script|);
    }
    status := if Accepted(raw, before.attributes) then ParsingOk else Parsing(raw, before.attributes).status;
    after := WithTransfer(sha256, script, left);
    WithTransferHas(sha256, script, left);
    SameBut(sha256, script, before, left, after);
  }

  lemma SameBut(sha256: Hash, script: Option<seq<byte>>, before: TransactionValue, left: TransactionValue,
                after: TransactionValue)
    requires after == WithTransfer(sha256, script, left)
    requires left.isSystemAssetTransfer == before.isSystemAssetTransfer && left.isNeo == before.isNeo
    requires left.amount == before.amount && left.dstAddress == before.dstAddress
    ensures TransferFields(sha256, script, before, after)
    ensures after == left.(isSystemAssetTransfer := after.isSystemAssetTransfer, isNeo := after.isNeo,
                           amount := after.amount, dstAddress := after.dstAddress)
  {
    hide Recognised, NeoReached, AmountLeft, DestinationText;
  }

  /** The attribute slots of an accepted parse start with its attributes. */
  lemma AttributesHeld(raw: seq<byte>, slots: Slots, t: Transaction)
    requires Parsing(raw, slots) == Parse(t, [])
    ensures |t.attributes| <= MAX_ATTRIBUTES && SlotsAfter(raw, slots)[..|t.attributes|] == t.attributes
  {
    hide TakeHeader, TakeCountedSigners, TakeVarint, TakeScript;
    var start := AttributesStart(raw);
    AttributesSound(start.rest, start.value.value, slots);
    var n := start.value.value;
    if n == 1 {
      assert start.rest[..1] == [HIGH_PRIORITY];
      var next := slots[0 := HIGH_PRIORITY];
      assert AttributesLeft(start.rest[1..], 1, next, [] + [HIGH_PRIORITY]) == next;
    }
  }

  lemma LastChunkExists(env: Env, c: Ctx, data: seq<byte>) returns (after: Ctx, out: Outcome)
    ensures LastChunk(env, c, data, after, out)
  {
    hide Deserialized, ShownOf;
    var raw := c.raw + data;
    var status, tx := ParseExists(env.sha256, raw, c.tx);
    var stored := c.(raw := raw, tx := tx);
    if status != ParsingOk {
      after, out := stored, ParsingFailed(status);
    } else if c.reqType != ConfirmTransaction {
      after, out := stored.(state := StateNone, hash := env.sha256(raw)), Answered(SwBadState);
    } else {
      after := stored.(state := StateParsed, hash := env.sha256(raw));
      out := Presented(ShownOf(tx, c.magic));
    }
    assert ParsedInto(env, c, raw, status, tx, after, out);
  }

  lemma SignTxExists(env: Env, c: Ctx, data: seq<byte>, chunk: nat, more: bool) returns (after: Ctx, out: Outcome)
    ensures SignTx(env, c, data, chunk, more, after, out)
  {
    hide LastChunk, StatusOf, Stored, MagicIn;
    if chunk == 0 {
      var ok := StatusOf(data) == PathOk;
      after := Zeroed(if ok then StateBip44Ok else StateNone, ConfirmTransaction, Stored(data));
      out := if ok then Answered(SwOk) else PathRefused(StatusOf(data));
    } else if chunk == 1 {
      after, out := c, Answered(SwBadState);
      if c.reqType == ConfirmTransaction || c.state == StateBip44Ok {
        if |data| < 4 {
          after, out := c.(magic := 0), Answered(SwMagicParsingFail);
        } else {
          after, out := c.(magic := MagicIn(data), state := StateMagicOk), Answered(SwOk);
        }
      }
    } else {
      after, out := c, Answered(SwBadState);
      if c.reqType == ConfirmTransaction || c.state == StateMagicOk {
        if |c.raw| + |data| > MAX_TRANSACTION_LEN {
          out := Answered(SwWrongTxLength);
        } else if more {
          after, out := c.(raw := c.raw + data), Answered(SwOk);
        } else {
          after, out := LastChunkExists(env, c, data);
        }
      }
    }
  }

  lemma DispatchExists(env: Env, c: Ctx, cmd: Apdu) returns (after: Ctx, out: Outcome)
    ensures Dispatch(env, c, cmd, after, out)
  {
    hide SignTx, StatusOf, Stored, AddressOf;
    after, out := c, Answered(SwInsNotSupported);
    if cmd.cla != CLA {
      out := Answered(SwClaNotSupported);
    } else if cmd.ins == GET_VERSION || cmd.ins == GET_APP_NAME {
      out := if cmd.p1 != 0 || cmd.p2 != 0 then Answered(SwWrongP1P2)
             else if cmd.ins == GET_VERSION then VersionSent else AppNameSent;
    } else if cmd.ins == GET_PUBLIC_KEY {
      if cmd.p1 > 0 || cmd.p2 > 1 {
        out := Answered(SwWrongP1P2);
      } else if cmd.data == [] {
        out := Answered(SwWrongDataLength);
      } else {
        after := Zeroed(StateNone, ConfirmAddress, Stored(cmd.data));
        out := if StatusOf(cmd.data) != PathOk then PathRefused(StatusOf(cmd.data))
               else if cmd.p2 == 1 then AddressPresented(AddressOf(env, after.path))
               else PublicKeySent(env.publicKey(after.path));
      }
    } else if cmd.ins == SIGN_TX {
      if (cmd.p1 == P1_START && cmd.p2 != P2_MORE) || cmd.p1 > P1_MAX || (cmd.p2 != P2_LAST && cmd.p2 != P2_MORE) {
        out := Answered(SwWrongP1P2);
      } else if cmd.data == [] {
        out := Answered(SwWrongDataLength);
      } else {
        after, out := SignTxExists(env, c, cmd.data, cmd.p1, cmd.p2 == P2_MORE);
      }
    }
  }

  /** No event leaves the device without a next state: a command in the menu is answered or put on the
      screen, a button does what it does. */
  lemma EventsAreAnswered(env: Env, d: Device, event: Event) returns (out: Option<Outcome>, after: Device)
    requires event.Command? ==> d.ui.Menu?
    ensures Reacts(env, d, event, out, after)
  {
    hide Dispatch, AllPages, Shapes, AnswerShown;
    match event
    case Command(cmd) =>
      var ctx, given := DispatchExists(env, d.ctx, cmd);
      out := Some(given);
      after := Device(ctx, match given
                           case Presented(shown) => Reviewing(shown, AllPages(Shapes(ctx.tx)), [])
                           case AddressPresented(address) => ShowingAddress(address, [])
                           case _ => Menu);
    case Key(press) =>
      out, after := None, d.(ui := Session.Pressed(d.ui, press));
    case Both =>
      var answer := AnswerShown(d.ui);
      if answer.None? {
        out, after := None, d;
      } else if d.ui.Reviewing? {
        after, out := d.(ui := Menu, ctx := d.ctx.(state := StateNone)), Some(Answered(SwDeny));
        if answer.value {
          match env.sign(d.ctx.path, env.sha256(SignedMessage(d.ctx)))
          case None =>
            out := Some(Answered(SwSignFail));
          case Some(signature) =>
            after, out := d.(ui := Menu, ctx := d.ctx.(state := StateApproved)), Some(SignatureSent(signature));
        }
      } else {
        after := d.(ui := Menu);
        out := Some(if answer.value then PublicKeySent(env.publicKey(d.ctx.path)) else Answered(SwDeny));
      }
  }

  /** So every run goes on. */
  lemma Continue(env: Env, ds: seq<Device>, events: seq<Event>, outs: seq<Option<Outcome>>, event: Event)
    returns (ds2: seq<Device>, outs2: seq<Option<Outcome>>)
    requires Run(env, ds, events, outs) && (event.Command? ==> ds[|events|].ui.Menu?)
    ensures Run(env, ds2, events + [event], outs2) && ds <= ds2 && outs <= outs2
  {
    hide Reacts;
    var out, after := EventsAreAnswered(env, ds[|events|], event);
    ds2, outs2 := ds + [after], outs + [out];
    forall i | 0 <= i < |events + [event]| ensures Reacts(env, ds2[i], (events + [event])[i], outs2[i], ds2[i + 1]) {
      if i < |events| { RunAt(env, ds, events, outs, i); }
    }
  }

  // ---------------------------------------------------------------- sending

  ghost function BeginEvents(pathData: ApduData, magic: u32): seq<Event> {
    [Command(Apdu(CLA, SIGN_TX, P1_START, P2_MORE, pathData)),
     Command(Apdu(CLA, SIGN_TX, 1, P2_MORE, LeBytes(magic, 4)))]
  }

  lemma StaysInMenu(env: Env, d: Device, cmd: Apdu, out: Outcome, after: Device)
    requires Commanded(env, d, cmd, out, after) && cmd.ins == SIGN_TX && !out.Presented?
    ensures after.ui.Menu?
  {
    hide Deserialized, StatusOf, Stored, AllPages, Shapes;
  }

  /** A command sent in the menu that does not get a transaction presented, and what was sent then. */
  lemma Send(env: Env, ds: seq<Device>, events: seq<Event>, outs: seq<Option<Outcome>>, cmd: Apdu)
    returns (ds2: seq<Device>, outs2: seq<Option<Outcome>>)
    requires Run(env, ds, events, outs) && ds[|events|].ui.Menu? && cmd.ins == SIGN_TX
    ensures Run(env, ds2, events + [Command(cmd)], outs2) && ds <= ds2 && outs <= outs2
    ensures SentBy(events + [Command(cmd)]) == Heard(SentBy(events), cmd)
    ensures !Completes(SentBy(events), cmd) ==> ds2[|events| + 1].ui.Menu?
  {
    hide Heard, Completes, Commanded, SentBy;
    ds2, outs2 := Continue(env, ds, events, outs, Command(cmd));
    var all := events + [Command(cmd)];
    hide Run;
    RunAt(env, ds, events, outs, 0);
    RunAt(env, ds2, all, outs2, |events|);
    FinalPiece(env, ds2, all, outs2, |events|);
    SentNext(all, |all|);
    assert all[..|all|] == all && all[..|events|] == events;
    if !Completes(SentBy(events), cmd) {
      StaysInMenu(env, ds2[|events|], cmd, outs2[|events|].value, ds2[|events| + 1]);
    }
  }

  lemma Begin(env: Env, pathData: ApduData, magic: u32) returns (ds: seq<Device>, outs: seq<Option<Outcome>>)
    requires pathData != []
    ensures Run(env, ds, BeginEvents(pathData, magic), outs) && ds[2].ui.Menu?
    ensures SentBy(BeginEvents(pathData, magic)) == Sent(true, pathData, magic, [], false)
  {
    hide Reacts, LeBytes, Pow;
    var first := Apdu(CLA, SIGN_TX, P1_START, P2_MORE, pathData);
    var second := Apdu(CLA, SIGN_TX, 1, P2_MORE, LeBytes(magic, 4));
    ds, outs := Send(env, [BOOTED], [], [], first);
    assert [] + [Command(first)] == [Command(first)];
    ds, outs := Send(env, ds, [Command(first)], outs, second);
    assert [Command(first)] + [Command(second)] == BeginEvents(pathData, magic);
    MagicReadsBack(magic);
  }

  lemma MagicReadsBack(magic: u32)
    ensures MagicIn(LeBytes(magic, 4)) == magic
  {
    hide Le, LeBytes, Pow;
    LeOfBytes(magic, 4);
    Capacities();
    assert LeBytes(magic, 4)[..4] == LeBytes(magic, 4);
  }

  /** Bytes cut into pieces that fit in a command. */
  ghost function Pieces(bytes: seq<byte>): (pieces: seq<ApduData>)
    requires bytes != []
    ensures pieces != [] && (forall k :: 0 <= k < |pieces| ==> pieces[k] != []) && Joined(pieces) == bytes
  {
    if |bytes| <= 255 then
      assert [bytes][..0] == [];
      [bytes]
    else
      var n := |bytes| - 255;
      var front := Pieces(bytes[..n]);
      assert (front + [bytes[n..]])[..|front|] == front;
      front + [bytes[n..]]
  }

  ghost function PieceEvents(pieces: seq<ApduData>): (events: seq<Event>)
    requires forall k :: 0 <= k < |pieces| ==> pieces[k] != []
    ensures PiecesAt(events, 0, pieces) && |events| == |pieces|
  {
    seq(|pieces|, k requires 0 <= k < |pieces| =>
      Command(Apdu(CLA, SIGN_TX, 2, if k < |pieces| - 1 then P2_MORE else P2_LAST, pieces[k])))
  }

  /** Sending the first k pieces. */
  lemma {:induction false} SendPieces(env: Env, ds: seq<Device>, events: seq<Event>, outs: seq<Option<Outcome>>,
                                      pieces: seq<ApduData>, k: nat)
    returns (ds2: seq<Device>, outs2: seq<Option<Outcome>>)
    requires Run(env, ds, events, outs) && ds[|events|].ui.Menu?
    requires k <= |pieces| && forall k :: 0 <= k < |pieces| ==> pieces[k] != []
    ensures Run(env, ds2, events + PieceEvents(pieces)[..k], outs2)
    ensures k < |pieces| ==> ds2[|events| + k].ui.Menu?
    ensures var sent := SentBy(events + PieceEvents(pieces)[..k]);
            sent.begun == SentBy(events).begun && sent.pathData == SentBy(events).pathData
            && sent.magic == SentBy(events).magic
  {
    hide Reacts, SentBy, Accepted, ReachesAttribute, MagicIn;
    if k == 0 {
      assert events + PieceEvents(pieces)[..0] == events;
      ds2, outs2 := ds, outs;
    } else {
      ds2, outs2 := SendPieces(env, ds, events, outs, pieces, k - 1);
      var sent := events + PieceEvents(pieces)[..k - 1];
      assert sent + [PieceEvents(pieces)[k - 1]] == events + PieceEvents(pieces)[..k];
      ds2, outs2 := Send(env, ds2, sent, outs2, PieceEvents(pieces)[k - 1].cmd);
    }
  }

  // ---------------------------------------------------------------- signing

  ghost function Rights(n: nat): (presses: seq<Press>)
    ensures |presses| == n
  {
    seq(n, _ => Right)
  }

  lemma {:induction false} RightsWalk(pages: seq<Page>, n: nat)
    requires n <= LastPos(pages)
    ensures Walk(pages, Rights(n)).pos == n
  {
    if n > 0 {
      RightsWalk(pages, n - 1);
      assert Rights(n)[..n - 1] == Rights(n - 1);
    }
  }

  ghost function RightEvents(n: nat): seq<Event> {
    seq(n, _ => Key(Right))
  }

  lemma {:induction false} PressRights(env: Env, ds: seq<Device>, events: seq<Event>, outs: seq<Option<Outcome>>,
                                       n: nat)
    returns (ds2: seq<Device>, outs2: seq<Option<Outcome>>)
    requires Run(env, ds, events, outs) && ds[|events|].ui.Reviewing? && ds[|events|].ui.presses == []
    ensures Run(env, ds2, events + RightEvents(n), outs2) && SentBy(events + RightEvents(n)) == SentBy(events)
    ensures ds2[|events| + n].ui == Reviewing(ds[|events|].ui.shown, ds[|events|].ui.pages, Rights(n))
  {
    hide Reacts, SentBy;
    if n == 0 {
      assert events + RightEvents(0) == events;
      ds2, outs2 := ds, outs;
    } else {
      ds2, outs2 := PressRights(env, ds, events, outs, n - 1);
      var sent := events + RightEvents(n - 1);
      assert sent + [Key(Right)] == events + RightEvents(n);
      var before := ds2;
      ds2, outs2 := Continue(env, ds2, sent, outs2, Key(Right));
      RunAt(env, ds2, sent + [Key(Right)], outs2, |sent|);
      KeyPressed(env, before[|sent|], ds2[|sent| + 1], outs2[|sent|]);
      assert Rights(n - 1) + [Right] == Rights(n);
      SentNext(sent + [Key(Right)], |sent| + 1);
      assert (sent + [Key(Right)])[..|sent| + 1] == sent + [Key(Right)] && (sent + [Key(Right)])[..|sent|] == sent;
    }
  }

  lemma KeyPressed(env: Env, d: Device, after: Device, out: Option<Outcome>)
    requires Reacts(env, d, Key(Right), out, after) && d.ui.Reviewing?
    ensures after.ui == Reviewing(d.ui.shown, d.ui.pages, d.ui.presses + [Right])
  {
  }

  lemma SomeBytes(t: Transaction)
    requires WellFormed(t)
    ensures Serialize(t) != []
  {
    hide CountedSignersBytes, CountedBytes, LeBytes;
  }

  lemma VerdictOn(env: Env, t: Transaction, magic: u32)
    requires WellFormed(t) && |Serialize(t)| <= MAX_TRANSACTION_LEN
    ensures Accepted(Serialize(t), FRESH) && TransactionIn(Serialize(t)) == t
    ensures Verdict(env, Serialize(t), magic) == Presented(ShownFor(env, t, magic))
  {
    hide Parsing, Serialize, WellFormed, ShownFor;
    ParseOfSerialize(t);
  }

  /** After the last piece of a whole transaction in a fresh session, its review is on. */
  lemma Review(env: Env, pathData: ApduData, magic: u32, t: Transaction)
    returns (ds: seq<Device>, events: seq<Event>, outs: seq<Option<Outcome>>)
    requires pathData != [] && WellFormed(t) && |Serialize(t)| <= MAX_TRANSACTION_LEN
    ensures Run(env, ds, events, outs)
    ensures var sent := SentBy(events);
            sent.begun && sent.pathData == pathData && sent.magic == magic && sent.raw == Serialize(t)
    ensures ds[|events|].ui == Reviewing(ShownFor(env, t, magic), AllPages(ShapesFor(t.signers)), [])
  {
    hide Reacts, Run, SentBy, Parsing, Serialize, WellFormed, Verdict, Stored, Pieces, BeginEvents, PieceEvents,
         IsPiece, Joined, ShownFor, Inv;
    var raw := Serialize(t);
    SomeBytes(t);
    VerdictOn(env, t, magic);
    var pieces := Pieces(raw);
    var begin := BeginEvents(pathData, magic);
    ds, outs := Begin(env, pathData, magic);
    BeginTwo(pathData, magic);
    ds, outs := SendPieces(env, ds, begin, outs, pieces, |pieces|);
    assert PieceEvents(pieces)[..|pieces|] == PieceEvents(pieces);
    events := begin + PieceEvents(pieces);
    assert events[..2] == begin;
    PiecesBehind(begin, pieces);
    AnySplit(env, ds, events, outs, 2, pieces);
    assert events[..|events|] == events;
    ReviewOn(env, ds, events, outs, t, magic);
  }

  lemma PiecesBehind(begin: seq<Event>, pieces: seq<ApduData>)
    requires forall k :: 0 <= k < |pieces| ==> pieces[k] != []
    ensures PiecesAt(begin + PieceEvents(pieces), |begin|, pieces)
  {
    hide IsPiece, PieceEvents;
    var events := begin + PieceEvents(pieces);
    forall k | 0 <= k < |pieces| ensures IsPiece(events[|begin| + k], pieces[k], k < |pieces| - 1) {
      PieceAt(PieceEvents(pieces), 0, pieces, k);
      assert events[|begin| + k] == PieceEvents(pieces)[0 + k];
    }
  }

  lemma BeginTwo(pathData: ApduData, magic: u32)
    ensures |BeginEvents(pathData, magic)| == 2
  {
  }

  /** The last event put the review of the stored bytes on. */
  lemma ReviewOn(env: Env, ds: seq<Device>, events: seq<Event>, outs: seq<Option<Outcome>>, t: Transaction, magic: u32)
    requires Run(env, ds, events, outs) && events != [] && WellFormed(t) && |Serialize(t)| <= MAX_TRANSACTION_LEN
    requires ds[|events|].ctx.raw == Serialize(t) && outs[|events| - 1] == Some(Presented(ShownFor(env, t, magic)))
    ensures ds[|events|].ui == Reviewing(ShownFor(env, t, magic), AllPages(ShapesFor(t.signers)), [])
    ensures SentBy(events).raw == Serialize(t)
  {
    hide Reacts, Run, SentBy, Parsing, Serialize, WellFormed, Stored, ShownFor, Inv, AllPages;
    var n := |events|;
    RunAt(env, ds, events, outs, n - 1);
    RunKeeps(env, ds, events, outs, n);
    assert events[..n] == events;
    VerdictOn(env, t, magic);
    PresentedByLaterChunk(env, ds, events, outs, n - 1);
    PresentedStarts(env, ds[n - 1], events[n - 1], outs[n - 1], ds[n]);
    ReviewedIn(env, ds[n]);
  }

  lemma PresentedStarts(env: Env, d: Device, event: Event, out: Option<Outcome>, after: Device)
    requires Reacts(env, d, event, out, after) && Presents(out) && after.ui.Reviewing?
    ensures after.ui.presses == [] && after.ui.shown == out.value.shown
  {
    hide Dispatch, ValidateTransaction, AllPages, Shapes, AnswerShown;
  }

  /** Every well-formed transfer that fits can be shown and signed, with every magic, and whatever was
      sent for a path: there is a run that ends with crypto_sign_tx called for it. */
  lemma EveryTransferCanBeSigned(env: Env, pathData: ApduData, magic: u32, t: Transaction)
    returns (ds: seq<Device>, events: seq<Event>, outs: seq<Option<Outcome>>)
    requires pathData != [] && WellFormed(t) && |Serialize(t)| <= MAX_TRANSACTION_LEN && Recognised(t.script).Some?
    ensures Run(env, ds, events, outs) && events != []
    ensures var last := |events| - 1; var sent := SentBy(events[..last]);
            && Signs(ds[last], events[last])
            && sent.begun && sent.pathData == pathData && sent.magic == magic && sent.raw == Serialize(t)
  {
    hide Reacts, Run, SentBy, Serialize, WellFormed, AllPages, ShapesFor, Recognised, Walk, AnswerShown, ShownFor;
    TransferIsShown(env, t, magic);
    ds, events, outs := Review(env, pathData, magic, t);
    RunAt(env, ds, events, outs, 0);
    var pages := AllPages(ShapesFor(t.signers));
    var n := |ABOVE| + |pages|;
    ds, outs := PressRights(env, ds, events, outs, n);
    events := events + RightEvents(n);
    RunAt(env, ds, events, outs, 0);
    RightsWalk(pages, n);
    var last := |events|;
    ApproveShown(ds[last].ui, pages);
    var before := events;
    ds, outs := Continue(env, ds, events, outs, Both);
    events := events + [Both];
    assert events[..last] == before;
  }

  lemma TransferIsShown(env: Env, t: Transaction, magic: u32)
    requires WellFormed(t) && Recognised(t.script).Some?
    ensures ShownFor(env, t, magic).transfer.Some?
  {
    hide Recognised, FeeText, AmountText, AddressText;
  }

  lemma ApproveShown(ui: Ui, pages: seq<Page>)
    requires ui.Reviewing? && ui.pages == pages && ui.shown.transfer.Some?
    requires Walk(pages, ui.presses).pos == |ABOVE| + |pages|
    ensures AnswerShown(ui) == Some(true)
  {
    hide Walk;
  }

  // ---------------------------------------------------------------- examples

  const NOBODY: ScriptHash := LeBytes(0, 20)

  /** One signer, called by entry. */
  ghost function Simple(attributes: seq<byte>, script: seq<byte>): Transaction {
    Transaction(Header(0, 0, 0, 0), 1, [Signer(NOBODY, 0x01, Absent, Absent)], 1, attributes, 1, script)
  }

  lemma SimpleIsWellFormed(attributes: seq<byte>, script: seq<byte>)
    requires (attributes == [] || attributes == [HIGH_PRIORITY]) && 0 < |script| < 0xFD
    ensures WellFormed(Simple(attributes, script))
    ensures |Serialize(Simple(attributes, script))| == 49 + |attributes| + |script|
  {
    hide LeBytes, Pow;
    var t := Simple(attributes, script);
    var g := t.signers[0];
    assert SignersBytes([g]) == SignerBytes(g) + SignersBytes([g][1..]);
    assert |HeaderBytes(t.header)| == 25 && |SignerBytes(g)| == 21;
    assert |Written(Varint(1, |attributes|))| == |Written(Varint(1, |script|))| == |Written(Varint(1, 1))| == 1;
  }

  /** One NEO from nobody to nobody. */
  const TRANSFER := Transfer(Small(1), NOBODY, NOBODY, true)

  lemma TransferLength()
    ensures |ScriptBytes(TRANSFER)| == 86
  {
    hide LeBytes;
  }

  /** A path need not have passed for its key to sign: after one byte in its place, which is refused,
      magic and transaction are taken, shown and signed all the same. */
  lemma SignsWithoutPath(env: Env) returns (ds: seq<Device>, events: seq<Event>, outs: seq<Option<Outcome>>)
    ensures Run(env, ds, events, outs) && events != []
    ensures var last := |events| - 1;
            && Signs(ds[last], events[last]) && !ValidPath(ds[last].ctx.path)
            && StatusOf(SentBy(events[..last]).pathData) == WrongDataLength
  {
    hide Run, SentBy, Serialize, WellFormed, Recognised, ScriptBytes, Inv, Signs;
    TransferLength();
    RecognisedComplete(TRANSFER);
    SimpleIsWellFormed([], ScriptBytes(TRANSFER));
    ds, events, outs := EveryTransferCanBeSigned(env, [0], 0, Simple([], ScriptBytes(TRANSFER)));
    RunAt(env, ds, events, outs, 0);
    RunKeeps(env, ds, events, outs, |events| - 1);
  }

  /** The bytes up to the end of the attribute, and the rest. */
  lemma CutBehindAttribute(t: Transaction) returns (head: seq<byte>, tail: seq<byte>)
    requires WellFormed(t) && t.attributes == [HIGH_PRIORITY]
    ensures head + tail == Serialize(t) && ReachesAttribute(head) && tail == CountedBytes(t.scriptWidth, t.script)
  {
    hide TakeHeader, TakeCountedSigners, TakeVarint, HeaderBytes, CountedSignersBytes, Written, WellFormedSigner;
    var attribute := CountedBytes(t.attributesWidth, t.attributes);
    tail := CountedBytes(t.scriptWidth, t.script);
    var signers := CountedSignersBytes(t.signersWidth, t.signers);
    head := HeaderBytes(t.header) + (signers + attribute);
    Rejoin(HeaderBytes(t.header), signers, attribute, tail);
    HeaderComplete(t.header, signers + attribute);
    CountedSignersComplete(t.signersWidth, t.signers, attribute);
    VarintComplete(Varint(t.attributesWidth, 1), t.attributes, AttributesLengthParsingError);
  }

  lemma Rejoin(a: seq<byte>, b: seq<byte>, c: seq<byte>, d: seq<byte>)
    ensures (a + (b + c)) + d == a + (b + (c + d))
  {
  }

  /** A final piece that ends behind the attribute spoils the session: the rest of the transaction, in
      another final piece, is refused as having the attribute twice, though the whole is valid. */
  lemma SecondTryIsDuplicate(env: Env, pathData: ApduData, magic: u32, t: Transaction, head: ApduData, tail: ApduData)
    returns (ds: seq<Device>, events: seq<Event>, outs: seq<Option<Outcome>>)
    requires pathData != [] && head != [] && tail != [] && ReachesAttribute(head)
    requires WellFormed(t) && head + tail == Serialize(t) && |Serialize(t)| <= MAX_TRANSACTION_LEN
    ensures Run(env, ds, events, outs) && |events| == 4 && SentBy(events).raw == Serialize(t)
    ensures Accepted(SentBy(events).raw, FRESH)
    ensures outs[3] == Some(ParsingFailed(AttributesDuplicateType))
  {
    hide Run, SentBy, Serialize, WellFormed, Accepted, ReachesAttribute, Reacts, BeginEvents, Verdict, Heard, Completes,
         IsFinal;
    VerdictOn(env, t, magic);
    ds, outs := Begin(env, pathData, magic);
    BeginTwo(pathData, magic);
    events := BeginEvents(pathData, magic);
    var first := Apdu(CLA, SIGN_TX, 2, P2_LAST, head);
    var second := Apdu(CLA, SIGN_TX, 2, P2_LAST, tail);
    HeadIsRefused(head, tail);
    TwoFinal(pathData, magic, head, tail);
    ds, outs := Send(env, ds, events, outs, first);
    events := events + [Command(first)];
    ds, outs := Send(env, ds, events, outs, second);
    var all := events + [Command(second)];
    RunAt(env, ds, all, outs, 0);
    FinalPiece(env, ds, all, outs, 3);
    assert all[..3] == events;
    events := all;
  }

  lemma TwoFinal(pathData: ApduData, magic: u32, head: ApduData, tail: ApduData)
    requires head != [] && tail != [] && |head + tail| <= MAX_TRANSACTION_LEN && ReachesAttribute(head)
    requires !Accepted(head, FRESH)
    ensures var first := Apdu(CLA, SIGN_TX, 2, P2_LAST, head); var second := Apdu(CLA, SIGN_TX, 2, P2_LAST, tail);
            var start, half := Sent(true, pathData, magic, [], false), Sent(true, pathData, magic, head, true);
            && !Completes(start, first) && Heard(start, first) == half
            && IsFinal(half, second) && Heard(half, second).raw == head + tail
  {
    hide Accepted, ReachesAttribute;
    assert [] + head == head;
  }

  lemma HeadIsRefused(head: seq<byte>, tail: seq<byte>)
    requires Accepted(head + tail, FRESH) && tail != []
    ensures !Accepted(head, FRESH)
  {
    hide Parsing;
    if Accepted(head, FRESH) { PrefixFree(head, tail); }
  }

  /** Such a transaction. */
  lemma DuplicateExample(env: Env) returns (ds: seq<Device>, events: seq<Event>, outs: seq<Option<Outcome>>)
    ensures Run(env, ds, events, outs) && |events| == 4 && Accepted(SentBy(events).raw, FRESH)
    ensures outs[3] == Some(ParsingFailed(AttributesDuplicateType))
  {
    hide Run, SentBy, Serialize, WellFormed, Accepted, ReachesAttribute, CountedBytes;
    var t := Simple([HIGH_PRIORITY], [0x40]);
    SimpleIsWellFormed([HIGH_PRIORITY], [0x40]);
    var head, tail := CutBehindAttribute(t);
    NotEmpty(head, tail, t);
    ds, events, outs := SecondTryIsDuplicate(env, [0], 0, t, head, tail);
  }

  lemma NotEmpty(head: seq<byte>, tail: seq<byte>, t: Transaction)
    requires ReachesAttribute(head) && WellFormed(t) && tail == CountedBytes(t.scriptWidth, t.script)
    ensures head != [] && tail != []
  {
    hide TakeVarint, TakeCountedSigners, TakeFields, WellFormedSigner;
  }
}
