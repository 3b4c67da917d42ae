/** The transaction flow: its steps, and the delimiters that show the signer pages through one
    generic step (create_transaction_flow, get_next_data and display_next_state of
    src/ui/display.c). The SDK's flow engine is not part of the source: moving to a step runs its
    callback if it has one, ux_flow_next and ux_flow_prev move by one step. */
module Display {
  import opened Bytes
  import opened Pages
  import opened Pager
  import opened Grammar
  import opened Deserialize
  import opened Texts
  import opened Drawing

  const MAX_NUM_STEPS := 13

  const TRANSFER_FLOW: seq<Step> :=
    [Review, DstAddress, TokenAmount, TargetNetwork, SystemFee, NetworkFee, TotalFee, ValidUntil,
     UpperDelimiter, Generic, LowerDelimiter, Approve, Reject, FlowEnd]

  const OTHER_FLOW: seq<Step> := [NoArbitraryScript, Abort, FlowEnd]

  /** Between presses the flow of a transfer is on a static step above the delimiters and the cursor
      before all pages, or on the generic step and on a page, or on a static step below and behind
      all pages. */
  ghost predicate BetweenPresses(signers: seq<Shape>, index: nat, at: Cursor, text: Option<Page>) {
    Canonical(signers, at)
    && if index < |ABOVE| then at.p == START
       else if index == 9 then at.p != START && at.p != END && text == Some(PageUnder(at))
       else 11 <= index <= 12 && at.p == END
  }

  /** The place in the plain list of screens. */
  ghost function ViewOf(signers: seq<Shape>, index: nat, at: Cursor, text: Option<Page>): (v: View)
    requires Fitting(signers) && BetweenPresses(signers, index, at, text)
    ensures v.pos <= LastPos(AllPages(signers))
  {
    NextIsCanonical(signers, at);
    View(if index < |ABOVE| then index
         else if index == 9 then |ABOVE| + Rank(signers, at)
         else |ABOVE| + |AllPages(signers)| + index - 11, text)
  }

  /** The step the delimiters end up on for a cursor. */
  ghost function Landing(at: Cursor): nat {
    if at.p == START then 7 else if at.p == END then 11 else 9
  }

  /** What a press does to the step and the cursor. */
  ghost predicate Pressed(signers: seq<Shape>, press: Press, index: nat, at: Cursor, newIndex: nat, newAt: Cursor)
    requires Canonical(signers, at)
  {
    if press == Right then
      if index == 7 || index == 9 then newAt == Next(signers, at) && newIndex == Landing(newAt)
      else newAt == at && newIndex == if index == 12 then 12 else index + 1
    else
      if index == 9 || index == 11 then at.p != START && newAt == Prev(signers, at) && newIndex == Landing(newAt)
      else newAt == at && newIndex == if index == 0 then 0 else index - 1
  }

  lemma PressedIsMove(signers: seq<Shape>, press: Press, index: nat, at: Cursor, text: Option<Page>,
                      newIndex: nat, newAt: Cursor, newText: Option<Page>)
    requires Fitting(signers) && BetweenPresses(signers, index, at, text)
    requires Pressed(signers, press, index, at, newIndex, newAt)
    requires newText == if newIndex == 9 then Some(PageUnder(newAt)) else text
    ensures BetweenPresses(signers, newIndex, newAt, newText)
    ensures ViewOf(signers, newIndex, newAt, newText)
            == Move(AllPages(signers), ViewOf(signers, index, at, text), press)
  {
    hide Next, Prev, InPlace, AllPages, Rank;
    CursorSteps(signers, at);
    CursorSteps(signers, newAt);
    EntersPages(signers, at);
  }

  /** The screen: the page under the cursor, drawn in the generic step, or the static step itself. It
      is the one at that place of the plain list. */
  lemma ScreenIsAt(signers: seq<Shape>, index: nat, at: Cursor, text: Option<Page>)
    requires Fitting(signers) && BetweenPresses(signers, index, at, text)
    ensures ScreenAt(AllPages(signers), ViewOf(signers, index, at, text).pos)
            == if index == 9 then PageScreen(PageUnder(at)) else StepScreen(TRANSFER_FLOW[index])
  {
    hide InPlace, AllPages, Rank;
    CursorSteps(signers, at);
  }

  /** Approve is the place behind all pages, Reject the one after it. */
  lemma AnswersAt(signers: seq<Shape>, index: nat, at: Cursor, text: Option<Page>)
    requires Fitting(signers) && BetweenPresses(signers, index, at, text)
    ensures var pos, n := ViewOf(signers, index, at, text).pos, |ABOVE| + |AllPages(signers)|;
            && (TRANSFER_FLOW[index] == Approve <==> pos == n) && (TRANSFER_FLOW[index] == Reject <==> pos > n)
            && TRANSFER_FLOW[index] != Abort
  {
    hide InPlace, AllPages, Rank;
    CursorSteps(signers, at);
  }

  /** The title and text on the generic step, and the text under the title of the amount. */
  ghost predicate TextFor(shapes: seq<Shape>, slots: seq<SignerSlot>, raw: seq<byte>, amount: string,
                          drawn: Option<Page>, title: string, text: string)
    requires Drawable(slots, raw, shapes)
  {
    match drawn
    case None => text == amount
    case Some(page) =>
      InShape(shapes, page) && title == PageTitle(shapes, page)
      && exists before :: text == PageText(slots, raw, shapes, page, before)
  }

  class Flow {
    const ctx: DisplayCtx
    const flow: array<Step>
    // The signers of the transaction under review, and the bytes they point into.
    const slots: seq<SignerSlot>
    const raw: seq<byte>
    const amount: string
    var index: nat
    // g_title, g_text and g_scope: g_text holds the token amount, or the last page drawn over it.
    var title: string
    var text: string
    var scopeName: string
    ghost var drawn: Option<Page>

    ghost predicate Valid()
      reads this, ctx
    {
      Fitting(ctx.signers) && Drawable(slots, raw, ctx.signers)
    }

    ghost predicate OnTransfer()
      reads this, ctx, flow
    {
      Valid() && flow[..] == TRANSFER_FLOW
      && BetweenPresses(ctx.signers, index, ctx.At(), drawn)
      && (ctx.currentState == DynamicScreen <==> index == 9)
      && TextIs()
    }

    ghost predicate TextIs()
      reads this, ctx
      requires Valid()
    {
      TextFor(ctx.signers, slots, raw, amount, drawn, title, text)
    }

    ghost predicate OnOther()
      reads this, flow
    {
      flow.Length > MAX_NUM_STEPS && flow[..3] == OTHER_FLOW && index <= 1
    }

    ghost function AsView(): View
      reads this, ctx, flow
      requires OnTransfer()
    {
      ViewOf(ctx.signers, index, ctx.At(), drawn)
    }

    /** ui_display_transaction: fresh display state, the flow for the kind of script. The name buffer
        has what an earlier review left there. */
    constructor (isSystemAssetTransfer: bool, shapes: seq<Shape>, slots: seq<SignerSlot>, raw: seq<byte>,
                 amount: string, scopeName: string)
      requires Fitting(shapes) && Drawable(slots, raw, shapes)
      ensures fresh(ctx) && fresh(flow) && ctx.signers == shapes
      ensures this.slots == slots && this.raw == raw && this.amount == amount
      ensures isSystemAssetTransfer ==> OnTransfer() && AsView() == View(0, None)
      ensures !isSystemAssetTransfer ==> OnOther() && index == 0
    {
      ctx := new DisplayCtx(shapes);
      flow := new Step[MAX_NUM_STEPS + 1](_ => FlowEnd);
      this.slots, this.raw, this.amount, this.scopeName := slots, raw, amount, scopeName;
      index, title, text, drawn := 0, "", amount, None;
      new;
      CreateTransactionFlow(isSystemAssetTransfer);
      assert isSystemAssetTransfer ==> OnTransfer();
    }

    method CreateTransactionFlow(isSystemAssetTransfer: bool)
      requires flow.Length == MAX_NUM_STEPS + 1
      modifies flow
      ensures isSystemAssetTransfer ==> flow[..] == TRANSFER_FLOW
      ensures !isSystemAssetTransfer ==> flow[..3] == OTHER_FLOW
    {
      if !isSystemAssetTransfer {
        flow[0], flow[1], flow[2] := NoArbitraryScript, Abort, FlowEnd;
        return;
      }
      flow[0] := Review;
      flow[1], flow[2] := DstAddress, TokenAmount;
      flow[3], flow[4], flow[5], flow[6], flow[7] := TargetNetwork, SystemFee, NetworkFee, TotalFee, ValidUntil;
      flow[8], flow[9], flow[10] := UpperDelimiter, Generic, LowerDelimiter;
      flow[11], flow[12], flow[13] := Approve, Reject, FlowEnd;
    }

    /** parse_scope_name. */
    method ParseScopeName(scope: byte) returns (length: int)
      modifies `scopeName
      ensures scopeName == ScopeLeft(scope, old(scopeName)) && length == ScopeLength(scope)
      ensures length <= |scopeName|
    {
      if scope == 0 {
        scopeName := "None";
        return |scopeName|;
      }
      if scope == GLOBAL {
        scopeName := "Global";
        return |scopeName|;
      }
      length := 0;
      if HasEntry(scope) {
        scopeName := scopeName[..length] + "By Entry,";
        length := length + |"By Entry,"|;
      }
      if HasContracts(scope) {
        scopeName := scopeName[..length] + "Contracts,";
        length := length + |"Contracts,"|;
      }
      if HasGroups(scope) {
        scopeName := scopeName[..length] + "Groups,";
        length := length + |"Groups,"|;
      }
      return length - 1;
    }

    /** Moves the cursor; if that is onto a page, draws it. */
    method GetNextData(forward: bool) returns (found: bool)
      requires Valid() && Canonical(ctx.signers, ctx.At()) && (forward || ctx.pIndex != START)
      modifies ctx`sIndex, ctx`pIndex, ctx`cIndex, ctx`gIndex, `title, `text, `scopeName, `drawn
      ensures Canonical(ctx.signers, ctx.At())
      ensures ctx.At() == if forward then Next(ctx.signers, old(ctx.At())) else Prev(ctx.signers, old(ctx.At()))
      ensures found <==> ctx.pIndex != START && ctx.pIndex != END
      ensures drawn == if found then Some(PageUnder(ctx.At())) else old(drawn)
      ensures found ==> InShape(ctx.signers, PageUnder(ctx.At()))
                        && title == PageTitle(ctx.signers, PageUnder(ctx.At()))
                        && text == PageText(slots, raw, ctx.signers, PageUnder(ctx.At()), old(scopeName))
                        && scopeName == NameLeft(slots, PageUnder(ctx.At()), old(scopeName))
      ensures !found ==> title == old(title) && text == old(text) && scopeName == old(scopeName)
    {
      hide Next, Prev, Fitting, SlotDrawable, AllPages;
      if forward {
        NextIsCanonical(ctx.signers, ctx.At());
        ctx.NextProp();
      } else {
        PrevIsCanonical(ctx.signers, ctx.At());
        ctx.PrevProp();
      }
      found := ctx.pIndex != START && ctx.pIndex != END;
      if found {
        CursorInShape(ctx.signers, ctx.At());
        drawn := Some(PageUnder(ctx.At()));
        Draw();
      }
    }

    /** The switch of get_next_data. */
    method Draw()
      requires Drawable(slots, raw, ctx.signers) && INDEX <= ctx.pIndex <= GROUPS && ctx.sIndex >= 0
      requires (ctx.pIndex == CONTRACTS ==> ctx.cIndex >= 0) && (ctx.pIndex == GROUPS ==> ctx.gIndex >= 0)
      requires InShape(ctx.signers, PageUnder(ctx.At()))
      modifies `title, `text, `scopeName
      ensures title == PageTitle(ctx.signers, PageUnder(ctx.At()))
      ensures text == PageText(slots, raw, ctx.signers, PageUnder(ctx.At()), old(scopeName))
      ensures scopeName == NameLeft(slots, PageUnder(ctx.At()), old(scopeName))
    {
      hide ScopeLeft, ScopeLength, HexText, OfText;
      var s := slots[ctx.sIndex];
      assert SlotDrawable(s, raw) && ShapeOf(s) == ctx.signers[ctx.sIndex];
      var c, g := ctx.cIndex as int, ctx.gIndex as int;
      match ctx.pIndex {
        case 1 =>
          title := "Signer";
          text := Cut(G_TEXT_LEN, OfText((ctx.sIndex as int) + 1, |ctx.signers|));
        case 2 =>
          title := "Account";
          text := Cut(G_TEXT_LEN, HexText(raw[s.account..s.account + UINT160_LEN]));
        case 3 =>
          title := "Scope";
          var length := ParseScopeName(s.scope);
          text := Cut(G_TEXT_LEN, if length < 0 then scopeName else scopeName[..length]);
        case 4 =>
          title := Cut(G_TEXT_LEN, "Contract " + OfText(c + 1, s.contractsSize));
          text := Cut(G_TEXT_LEN, HexText(raw[s.contracts[c]..s.contracts[c] + UINT160_LEN]));
        case _ =>
          title := Cut(G_TEXT_LEN, "Group " + OfText(g + 1, s.groupsSize));
          text := Cut(G_TEXT_LEN, HexText(raw[s.groups[g]..s.groups[g] + ECPOINT_LEN]));
      }
    }

    /** The callback of both delimiters. Coming from a static step it enters the pages; on a page it
        goes one further, or leaves them on the delimiter's side. */
    method DisplayNextState(isUpperDelimiter: bool)
      requires flow[..] == TRANSFER_FLOW && Valid() && Canonical(ctx.signers, ctx.At()) && TextIs()
      requires index == if isUpperDelimiter then 8 else 10
      requires ctx.currentState == StaticScreen ==> ctx.pIndex == if isUpperDelimiter then START else END
      requires ctx.currentState == DynamicScreen ==> ctx.pIndex != START && ctx.pIndex != END
      modifies this, ctx
      ensures ctx.signers == old(ctx.signers) && Valid() && TextIs()
      ensures ctx.At() == if isUpperDelimiter == (old(ctx.currentState) == StaticScreen)
                          then Next(ctx.signers, old(ctx.At())) else Prev(ctx.signers, old(ctx.At()))
      ensures index == Landing(ctx.At()) && (ctx.currentState == DynamicScreen <==> index == 9)
      ensures drawn == if index == 9 then Some(PageUnder(ctx.At())) else old(drawn)
    {
      hide Next, Prev, InPlace, PageText, PageTitle, Drawable, InShape;
      ghost var before := ctx.At();
      EntersPages(ctx.signers, before);
      var dynamicData;
      if isUpperDelimiter {
        if ctx.currentState == StaticScreen {
          dynamicData := GetNextData(true);
          if dynamicData {
            ctx.currentState := DynamicScreen;
          }
          index := index + 1;
        } else {
          dynamicData := GetNextData(false);
          if dynamicData {
            index := index + 1;
          } else {
            ctx.currentState := StaticScreen;
            index := index - 1;
          }
        }
      } else {
        if ctx.currentState == StaticScreen {
          dynamicData := GetNextData(false);
          if dynamicData {
            ctx.currentState := DynamicScreen;
          }
          index := index - 1;
        } else {
          dynamicData := GetNextData(true);
          if dynamicData {
            // bnnn_paging_edgecase: back to the generic step.
            index := index - 1;
          } else {
            ctx.currentState := StaticScreen;
            index := index + 1;
          }
        }
      }
    }

    /** One step on or back, not beyond the ends. */
    method MoveStep(press: Press)
      requires index + 1 < flow.Length
      modifies `index
      ensures index == if press == Right then (if flow[old(index) + 1] != FlowEnd then old(index) + 1 else old(index))
                       else if old(index) > 0 then old(index) - 1 else 0
    {
      if press == Right {
        if flow[index + 1] != FlowEnd {
          index := index + 1;
        }
      } else if index > 0 {
        index := index - 1;
      }
    }

    /** A press of the left or right button. The delimiters make the flow of a transfer a plain walk
        over the list of all its screens. */
    method PressKey(press: Press)
      requires OnTransfer() || OnOther()
      modifies this, ctx
      ensures ctx.signers == old(ctx.signers)
      ensures old(OnTransfer()) ==> OnTransfer() && AsView() == Move(AllPages(ctx.signers), old(AsView()), press)
      ensures old(OnOther()) ==> OnOther() && index == if press == Right then 1 else 0
    {
      hide Next, Prev, InPlace, AllPages, ViewOf, Canonical, Drawable, TextFor;
      ghost var transfer, signers, index0, at0, drawn0 := OnTransfer(), ctx.signers, index, ctx.At(), drawn;
      MoveStep(press);
      if flow[index] == UpperDelimiter {
        DisplayNextState(true);
      } else if flow[index] == LowerDelimiter {
        DisplayNextState(false);
      }
      if transfer {
        PressedIsMove(signers, press, index0, at0, drawn0, index, ctx.At(), drawn);
      }
    }
  }

  lemma CursorInShape(signers: seq<Shape>, at: Cursor)
    requires Canonical(signers, at) && at.p != START && at.p != END
    ensures InShape(signers, PageUnder(at))
  {
  }

  /** From before the pages one gets onto the first, from behind them onto the last. */
  lemma EntersPages(signers: seq<Shape>, at: Cursor)
    requires Fitting(signers) && Canonical(signers, at)
    ensures at.p == START ==> Next(signers, at).p == INDEX
    ensures at.p == END ==> Prev(signers, at).p != START && Prev(signers, at).p != END
    ensures at.p != START && at.p != END ==> Next(signers, at).p != START && Prev(signers, at).p != END
  {
  }

  lemma CursorSteps(signers: seq<Shape>, at: Cursor)
    requires Fitting(signers) && Canonical(signers, at)
    ensures Canonical(signers, Next(signers, at))
    ensures at.p != END ==> Rank(signers, Next(signers, at)) == Rank(signers, at) + 1
    ensures at.p != START ==>
              Canonical(signers, Prev(signers, at)) && Rank(signers, Prev(signers, at)) == Rank(signers, at) - 1
    ensures at.p == START <==> Rank(signers, at) == -1
    ensures at.p == END <==> Rank(signers, at) == |AllPages(signers)|
    ensures at.p != START && at.p != END ==>
              0 <= Rank(signers, at) < |AllPages(signers)| && AllPages(signers)[Rank(signers, at)] == PageUnder(at)
  {
    hide Next, Prev, InPlace, AllPages, Rank;
    NextIsCanonical(signers, at);
    if at.p != START { PrevIsCanonical(signers, at); }
    if at.p != START && at.p != END { PageUnderIsRanked(signers, at); }
  }
}
