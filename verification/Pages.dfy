/** The signer pages of the review and the screens of the whole flow, as plain lists. */
module Pages {
  import opened Bytes

  /** How many contracts and groups a signer lists. */
  datatype Shape = Shape(contracts: nat, groups: nat)

  datatype Page =
    | IndexPage(signer: nat)
    | AccountPage(signer: nat)
    | ScopePage(signer: nat)
    | ContractPage(signer: nat, item: nat)
    | GroupPage(signer: nat, item: nat)

  ghost function Size(shape: Shape): nat {
    3 + shape.contracts + shape.groups
  }

  /** Page k of a signer. */
  ghost function PageAt(signer: nat, shape: Shape, k: nat): Page
    requires k < Size(shape)
  {
    if k == 0 then IndexPage(signer)
    else if k == 1 then AccountPage(signer)
    else if k == 2 then ScopePage(signer)
    else if k < 3 + shape.contracts then ContractPage(signer, k - 3)
    else GroupPage(signer, k - 3 - shape.contracts)
  }

  ghost function SignerPages(signer: nat, shape: Shape): (pages: seq<Page>)
    ensures |pages| == Size(shape)
  {
    seq(Size(shape), k requires 0 <= k < Size(shape) => PageAt(signer, shape, k))
  }

  /** All pages: signer after signer. */
  ghost function AllPages(signers: seq<Shape>): seq<Page> {
    if signers == [] then [] else
      var n := |signers| - 1;
      AllPages(signers[..n]) + SignerPages(n, signers[n])
  }

  /** The number of pages before those of signer s. */
  ghost function PagesBefore(signers: seq<Shape>, s: nat): nat
    requires s <= |signers|
  {
    |AllPages(signers[..s])|
  }

  lemma PagesBeforeNext(signers: seq<Shape>, s: nat)
    requires s < |signers|
    ensures PagesBefore(signers, s + 1) == PagesBefore(signers, s) + Size(signers[s])
    ensures PagesBefore(signers, 0) == 0
  {
    assert signers[..s + 1][..s] == signers[..s];
  }

  lemma {:induction false} PagesBeforeMonotone(signers: seq<Shape>, s: nat, t: nat)
    requires s <= t <= |signers|
    ensures PagesBefore(signers, s) <= PagesBefore(signers, t)
    ensures s < t ==> PagesBefore(signers, s) + Size(signers[s]) <= PagesBefore(signers, t)
    ensures PagesBefore(signers, |signers|) == |AllPages(signers)|
  {
    hide AllPages;
    assert signers[..|signers|] == signers;
    if s < t {
      PagesBeforeMonotone(signers, s, t - 1);
      PagesBeforeNext(signers, t - 1);
    }
  }

  /** Where a signer's page is in the whole list. */
  lemma {:induction false} PageInList(signers: seq<Shape>, s: nat, k: nat)
    requires s < |signers| && k < Size(signers[s])
    ensures PagesBefore(signers, s) + k < |AllPages(signers)|
    ensures AllPages(signers)[PagesBefore(signers, s) + k] == PageAt(s, signers[s], k)
  {
    var n := |signers| - 1;
    var front := signers[..n];
    if s < n {
      PageInList(front, s, k);
      assert front[..s] == signers[..s];
    }
  }

  /** The page is of a signer and an item there are. */
  ghost predicate InShape(signers: seq<Shape>, page: Page) {
    page.signer < |signers|
    && (page.ContractPage? ==> page.item < signers[page.signer].contracts)
    && (page.GroupPage? ==> page.item < signers[page.signer].groups)
  }

  /** The list has exactly the pages of its signers and items. */
  lemma {:induction false} PagesAreInShape(signers: seq<Shape>, page: Page)
    ensures page in AllPages(signers) <==> InShape(signers, page)
  {
    if signers != [] {
      var n := |signers| - 1;
      PagesAreInShape(signers[..n], page);
      PagesOfSigner(n, signers[n], page);
    }
  }

  lemma PagesOfSigner(signer: nat, shape: Shape, page: Page)
    ensures page in SignerPages(signer, shape) <==>
            page.signer == signer && (page.ContractPage? ==> page.item < shape.contracts)
            && (page.GroupPage? ==> page.item < shape.groups)
  {
    var k := match page
             case IndexPage(_) => 0
             case AccountPage(_) => 1
             case ScopePage(_) => 2
             case ContractPage(_, item) => 3 + item
             case GroupPage(_, item) => 3 + shape.contracts + item;
    if k < Size(shape) { assert SignerPages(signer, shape)[k] == PageAt(signer, shape, k); }
  }

  // ---------------------------------------------------------------- screens

  datatype Step =
    | Review | DstAddress | TokenAmount | TargetNetwork | SystemFee | NetworkFee | TotalFee | ValidUntil
    | UpperDelimiter | Generic | LowerDelimiter
    | Approve | Reject
    | NoArbitraryScript | Abort
    | FlowEnd

  datatype Screen = StepScreen(step: Step) | PageScreen(page: Page)

  const ABOVE: seq<Step> :=
    [Review, DstAddress, TokenAmount, TargetNetwork, SystemFee, NetworkFee, TotalFee, ValidUntil]

  /** The screen at a place of the flow of a NEO or GAS transfer: the steps above, all pages of all
      signers, and the two answers. */
  ghost function ScreenAt(pages: seq<Page>, pos: nat): Screen
    requires pos < |ABOVE| + |pages| + 2
  {
    if pos < |ABOVE| then StepScreen(ABOVE[pos])
    else if pos < |ABOVE| + |pages| then PageScreen(pages[pos - |ABOVE|])
    else if pos == |ABOVE| + |pages| then StepScreen(Approve)
    else StepScreen(Reject)
  }

  datatype Press = Left | Right

  /** Where the user is, and what the text buffer shared by the amount and the pages holds: the
      amount, until a page has been drawn over it. */
  datatype View = View(pos: nat, text: Option<Page>)

  ghost function LastPos(pages: seq<Page>): nat {
    |ABOVE| + |pages| + 1
  }

  /** One press: one screen on or back, not beyond the ends; a page drawn overwrites the text. */
  ghost function Move(pages: seq<Page>, v: View, press: Press): View
    requires v.pos <= LastPos(pages)
  {
    var pos := if press == Right then (if v.pos < LastPos(pages) then v.pos + 1 else v.pos)
               else (if v.pos > 0 then v.pos - 1 else 0);
    if |ABOVE| <= pos < |ABOVE| + |pages| then View(pos, Some(pages[pos - |ABOVE|])) else View(pos, v.text)
  }

  /** The view after a number of presses, from the first screen. */
  ghost function Walk(pages: seq<Page>, presses: seq<Press>): (v: View)
    ensures v.pos <= LastPos(pages)
  {
    if presses == [] then View(0, None) else
      Move(pages, Walk(pages, presses[..|presses| - 1]), presses[|presses| - 1])
  }

  /** Getting to a place passes every place before it. */
  lemma {:induction false} Passed(pages: seq<Page>, presses: seq<Press>, pos: nat)
    requires pos <= Walk(pages, presses).pos
    ensures exists i :: 0 <= i <= |presses| && Walk(pages, presses[..i]).pos == pos
  {
    if pos == Walk(pages, presses).pos {
      assert presses[..|presses|] == presses;
    } else {
      var earlier := presses[..|presses| - 1];
      Passed(pages, earlier, pos);
      var i :| 0 <= i <= |earlier| && Walk(pages, earlier[..i]).pos == pos;
      assert presses[..i] == earlier[..i];
    }
  }

  /** The text is the amount exactly as long as no page has been drawn. */
  lemma {:induction false} AmountUntilFirstPage(pages: seq<Page>, presses: seq<Press>)
    requires pages != []
    ensures Walk(pages, presses).text == None <==>
            forall i :: 0 <= i <= |presses| ==> Walk(pages, presses[..i]).pos < |ABOVE|
  {
    assert presses[..|presses|] == presses;
    if presses != [] {
      var earlier := presses[..|presses| - 1];
      AmountUntilFirstPage(pages, earlier);
      assert forall i :: 0 <= i <= |earlier| ==> presses[..i] == earlier[..i];
    }
  }

  /** The Approve screen is reached only after every screen before it was shown: each step above and
      every page of every signer; and the amount was shown, as the amount, on the way. */
  lemma {:induction false} ApproveAfterAll(pages: seq<Page>, presses: seq<Press>)
    requires pages != [] && Walk(pages, presses).pos >= |ABOVE| + |pages|
    ensures forall m :: 0 <= m < |ABOVE| + |pages| ==> WasAt(pages, presses, m)
    ensures exists i :: 0 <= i <= |presses| && Walk(pages, presses[..i]) == View(2, None)
  {
    forall m | 0 <= m < |ABOVE| + |pages| ensures WasAt(pages, presses, m) {
      Passed(pages, presses, m);
    }
    AmountShown(pages, presses);
  }

  ghost predicate WasAt(pages: seq<Page>, presses: seq<Press>, pos: nat) {
    exists i :: 0 <= i <= |presses| && Walk(pages, presses[..i]).pos == pos
  }

  lemma {:induction false} AmountShown(pages: seq<Page>, presses: seq<Press>)
    requires pages != [] && Walk(pages, presses).pos >= |ABOVE|
    ensures exists i :: 0 <= i <= |presses| && Walk(pages, presses[..i]) == View(2, None)
    decreases |presses|
  {
    hide Move;
    var earlier := presses[..|presses| - 1];
    if exists j :: 0 <= j <= |earlier| && Walk(pages, earlier[..j]).pos >= |ABOVE| {
      var j :| 0 <= j <= |earlier| && Walk(pages, earlier[..j]).pos >= |ABOVE|;
      AmountShown(pages, earlier[..j]);
      var i :| 0 <= i <= j && Walk(pages, earlier[..j][..i]) == View(2, None);
      assert presses[..i] == earlier[..j][..i];
    } else {
      FirstTime(pages, presses);
    }
  }

  lemma FirstTime(pages: seq<Page>, presses: seq<Press>)
    requires pages != [] && presses != [] && Walk(pages, presses).pos >= |ABOVE|
    requires var earlier := presses[..|presses| - 1];
             forall j :: 0 <= j <= |earlier| ==> Walk(pages, earlier[..j]).pos < |ABOVE|
    ensures exists i :: 0 <= i <= |presses| && Walk(pages, presses[..i]) == View(2, None)
  {
    hide Walk, Move;
    var earlier := presses[..|presses| - 1];
    assert presses[..|presses|] == presses;
    Passed(pages, presses, 2);
    var i :| 0 <= i <= |presses| && Walk(pages, presses[..i]).pos == 2;
    forall k | 0 <= k <= i ensures Walk(pages, presses[..i][..k]).pos < |ABOVE| {
      assert presses[..i][..k] == presses[..k] == earlier[..k];
    }
    AmountUntilFirstPage(pages, presses[..i]);
  }

  ghost function Presses(rights: nat, lefts: nat): seq<Press> {
    seq(rights, _ => Right) + seq(lefts, _ => Left)
  }

  lemma {:induction false} RightsThenLefts(pages: seq<Page>, lefts: nat)
    requires pages != [] && lefts <= |ABOVE|
    ensures Walk(pages, Presses(|ABOVE|, lefts)) == View(|ABOVE| - lefts, Some(pages[0]))
  {
    if lefts == 0 {
      OnlyRights(pages, |ABOVE|);
      assert Presses(|ABOVE|, 0) == Presses(|ABOVE|, 0)[..|ABOVE|];
    } else {
      RightsThenLefts(pages, lefts - 1);
      assert Presses(|ABOVE|, lefts) == Presses(|ABOVE|, lefts - 1) + [Left];
    }
  }

  lemma {:induction false} OnlyRights(pages: seq<Page>, rights: nat)
    requires pages != [] && rights <= |ABOVE|
    ensures Walk(pages, Presses(rights, 0)) == View(rights, if rights < |ABOVE| then None else Some(pages[0]))
  {
    if rights > 0 {
      OnlyRights(pages, rights - 1);
      assert Presses(rights, 0) == Presses(rights - 1, 0) + [Right];
    }
  }

  /** Coming back from the first page, the screen titled as the amount shows that page's text. */
  lemma AmountOverwritten(pages: seq<Page>)
    requires pages != []
    ensures Walk(pages, Presses(8, 6)) == View(2, Some(pages[0]))
  {
    RightsThenLefts(pages, 6);
  }

  /** The pages of a signer, in their order. */
  lemma PagesSpelled(signer: nat, shape: Shape)
    ensures SignerPages(signer, shape)
            == [IndexPage(signer), AccountPage(signer), ScopePage(signer)]
               + seq(shape.contracts, k requires 0 <= k < shape.contracts => ContractPage(signer, k))
               + seq(shape.groups, k requires 0 <= k < shape.groups => GroupPage(signer, k))
  {
  }

  /** Signer after signer. */
  lemma AllPagesSpelled(a: Shape, b: Shape)
    ensures AllPages([a]) == SignerPages(0, a) && AllPages([a, b]) == SignerPages(0, a) + SignerPages(1, b)
  {
    assert [a, b][..1] == [a] && [a][..0] == [];
    assert AllPages([a]) == AllPages([a][..0]) + SignerPages(0, [a][0]);
  }

  /** The screens of a transfer, in their order. */
  lemma ScreensSpelled(pages: seq<Page>, k: nat)
    ensures ScreenAt(pages, 0) == StepScreen(Review) && ScreenAt(pages, 1) == StepScreen(DstAddress)
    ensures ScreenAt(pages, 2) == StepScreen(TokenAmount) && ScreenAt(pages, 3) == StepScreen(TargetNetwork)
    ensures ScreenAt(pages, 4) == StepScreen(SystemFee) && ScreenAt(pages, 5) == StepScreen(NetworkFee)
    ensures ScreenAt(pages, 6) == StepScreen(TotalFee) && ScreenAt(pages, 7) == StepScreen(ValidUntil)
    ensures k < |pages| ==> ScreenAt(pages, 8 + k) == PageScreen(pages[k])
    ensures ScreenAt(pages, 8 + |pages|) == StepScreen(Approve) && ScreenAt(pages, 9 + |pages|) == StepScreen(Reject)
  {
  }

  /** Right is one screen on, Left one back. */
  lemma PressesSpelled(pages: seq<Page>, presses: seq<Press>)
    ensures Walk(pages, []).pos == 0
    ensures var pos := Walk(pages, presses).pos;
            && Walk(pages, presses + [Right]).pos == (if pos < 9 + |pages| then pos + 1 else pos)
            && Walk(pages, presses + [Left]).pos == (if pos > 0 then pos - 1 else 0)
  {
    assert (presses + [Right])[..|presses|] == presses && (presses + [Left])[..|presses|] == presses;
  }
}
