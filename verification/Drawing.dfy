/** What get_next_data draws for a signer page (src/ui/display.c), from the parsed structure and the
    bytes it points into, and from the transaction those are of. */
module Drawing {
  import opened Bytes
  import opened Format
  import opened Varint
  import opened Grammar
  import opened Deserialize
  import opened Pages
  import opened Texts

  function ShapeOf(slot: SignerSlot): Shape {
    Shape(slot.contractsSize, slot.groupsSize)
  }

  /** The lists of a slot are as long as it says, and what it points at is there. */
  ghost predicate SlotDrawable(slot: SignerSlot, raw: seq<byte>) {
    slot.account + UINT160_LEN <= |raw|
    && slot.contractsSize <= |slot.contracts| && slot.groupsSize <= |slot.groups|
    && (forall k :: 0 <= k < slot.contractsSize ==> slot.contracts[k] + UINT160_LEN <= |raw|)
    && (forall k :: 0 <= k < slot.groupsSize ==> slot.groups[k] + ECPOINT_LEN <= |raw|)
  }

  ghost predicate Drawable(slots: seq<SignerSlot>, raw: seq<byte>, shapes: seq<Shape>) {
    |shapes| <= |slots|
    && forall i :: 0 <= i < |shapes| ==> shapes[i] == ShapeOf(slots[i]) && SlotDrawable(slots[i], raw)
  }

  /** "%d of %d". */
  function OfText(k: nat, n: nat): string {
    IntText(k) + " of " + IntText(n)
  }

  function PageTitle(shapes: seq<Shape>, page: Page): string
    requires InShape(shapes, page)
  {
    match page
    case IndexPage(_) => "Signer"
    case AccountPage(_) => "Account"
    case ScopePage(_) => "Scope"
    case ContractPage(s, k) => Cut(G_TEXT_LEN, "Contract " + OfText(k + 1, shapes[s].contracts))
    case GroupPage(s, k) => Cut(G_TEXT_LEN, "Group " + OfText(k + 1, shapes[s].groups))
  }

  /** The text of a page; of a scope without a name, what was in the name buffer before. */
  function PageText(slots: seq<SignerSlot>, raw: seq<byte>, shapes: seq<Shape>, page: Page, before: string): string
    requires Drawable(slots, raw, shapes) && InShape(shapes, page)
  {
    match page
    case IndexPage(s) => Cut(G_TEXT_LEN, OfText(s + 1, |shapes|))
    case AccountPage(s) => ItemText(raw, slots[s].account, UINT160_LEN)
    case ScopePage(s) => ScopeText(slots[s].scope, before)
    case ContractPage(s, k) => ItemText(raw, slots[s].contracts[k], UINT160_LEN)
    case GroupPage(s, k) => ItemText(raw, slots[s].groups[k], ECPOINT_LEN)
  }

  /** "%.*H". */
  function ItemText(raw: seq<byte>, at: nat, length: nat): string
    requires at + length <= |raw|
  {
    Cut(G_TEXT_LEN, HexText(raw[at..at + length]))
  }

  /** The name buffer after a page was drawn. */
  function NameLeft(slots: seq<SignerSlot>, page: Page, before: string): string
    requires page.signer < |slots|
  {
    if page.ScopePage? then ScopeLeft(slots[page.signer].scope, before) else before
  }

  // ---------------------------------------------------------------- from the transaction

  /** The shapes of a transaction's own signers. */
  ghost function ShapesFor(signers: seq<Signer>): (shapes: seq<Shape>)
    ensures |shapes| == |signers|
  {
    seq(|signers|, i requires 0 <= i < |signers| => Shape(Count(signers[i].contracts), Count(signers[i].groups)))
  }

  /** What a page shows of a transaction: accounts and contracts whole; of a group 31 bytes and a
      half; of a scope the flags that have a name, or, if it has none, what was shown before. */
  ghost function PageFor(signers: seq<Signer>, page: Page, before: string): string
    requires InShape(ShapesFor(signers), page)
  {
    match page
    case IndexPage(s) => OfText(s + 1, |signers|)
    case AccountPage(s) => HexText(signers[s].account)
    case ScopePage(s) => ScopeText(signers[s].scope, before)
    case ContractPage(s, k) => HexText(signers[s].contracts.items[k])
    case GroupPage(s, k) => Cut(G_TEXT_LEN, HexText(signers[s].groups.items[k]))
  }

  /** All hexadecimal digits of the item a page is for. */
  ghost function WholeText(signers: seq<Signer>, page: Page): string
    requires InShape(ShapesFor(signers), page) && !page.IndexPage? && !page.ScopePage?
  {
    match page
    case AccountPage(s) => HexText(signers[s].account)
    case ContractPage(s, k) => HexText(signers[s].contracts.items[k])
    case GroupPage(s, k) => HexText(signers[s].groups.items[k])
  }

  /** Of the items, exactly the groups are cut. */
  lemma PageWholeIff(t: Transaction, page: Page, before: string)
    requires WellFormed(t) && InShape(ShapesFor(t.signers), page) && !page.IndexPage? && !page.ScopePage?
    ensures PageFor(t.signers, page, before) == WholeText(t.signers, page) <==> !page.GroupPage?
  {
    hide HasContracts, HasGroups, HasGlobal, Fits, HexText, DistinctAccounts;
    var g := t.signers[page.signer];
    assert WellFormedSigner(g);
    if page.GroupPage? {
      GroupCutShort(g.groups.items[page.item], g.groups.items[page.item]);
    }
  }

  lemma HeldIsDrawable(v: TransactionValue, raw: seq<byte>, t: Transaction)
    requires WellFormed(t) && Holds(v, raw, t)
    ensures Drawable(v.signers, raw, ShapesFor(t.signers))
  {
    hide HasContracts, HasGroups, HasGlobal, Fits, SlotHolds, WellFormedSigner;
    forall i | 0 <= i < |t.signers|
      ensures ShapesFor(t.signers)[i] == ShapeOf(v.signers[i]) && SlotDrawable(v.signers[i], raw)
    {
      SignerIsDrawable(v.signers[i], raw, t.signers[i]);
    }
  }

  lemma SignerIsDrawable(slot: SignerSlot, raw: seq<byte>, g: Signer)
    requires WellFormedSigner(g) && SlotHolds(raw, slot, g)
    ensures SlotDrawable(slot, raw) && ShapeOf(slot) == Shape(Count(g.contracts), Count(g.groups))
  {
    hide HasContracts, HasGroups, HasGlobal, Fits;
  }

  /** Every page draws the account, scope, contract or group of the transaction that it is for. */
  lemma PageShowsSigner(v: TransactionValue, raw: seq<byte>, t: Transaction, page: Page, before: string)
    requires WellFormed(t) && Holds(v, raw, t) && InShape(ShapesFor(t.signers), page)
    ensures Drawable(v.signers, raw, ShapesFor(t.signers))
    ensures PageText(v.signers, raw, ShapesFor(t.signers), page, before) == PageFor(t.signers, page, before)
  {
    hide HasContracts, HasGroups, HasGlobal, Fits, ScopeText, HexText, IntText;
    HeldIsDrawable(v, raw, t);
    var slot, g := v.signers[page.signer], t.signers[page.signer];
    assert WellFormedSigner(g) && SlotHolds(raw, slot, g);
    match page
    case IndexPage(s) => FewSigners(s + 1, |t.signers|);
    case AccountPage(_) => HexShownWhole(g.account);
    case ScopePage(_) =>
    case ContractPage(_, k) =>
      assert SliceAt(raw, slot.contracts[k], g.contracts.items[k]);
      HexShownWhole(g.contracts.items[k]);
    case GroupPage(_, k) =>
      assert SliceAt(raw, slot.groups[k], g.groups.items[k]);
  }

  lemma FewSigners(k: nat, n: nat)
    requires k <= n <= MAX_TX_SIGNERS
    ensures |OfText(k, n)| < G_TEXT_LEN
  {
    hide DecimalText;
    DecimalLength(k);
    DecimalLength(n);
  }

  /** Titles and texts of the pages of an accepted transaction, spelled out. */
  lemma PagesSpelledOut(t: Transaction, s: nat, k: nat, before: string)
    requires WellFormed(t) && s < |t.signers|
    ensures var shapes, g := ShapesFor(t.signers), t.signers[s];
            && PageTitle(shapes, IndexPage(s)) == "Signer"
            && PageFor(t.signers, IndexPage(s), before) == IntText(s + 1) + " of " + IntText(|t.signers|)
            && PageTitle(shapes, AccountPage(s)) == "Account"
            && PageFor(t.signers, AccountPage(s), before) == HexText(g.account)
            && PageTitle(shapes, ScopePage(s)) == "Scope"
            && PageFor(t.signers, ScopePage(s), before) == ScopeText(g.scope, before)
            && (g.contracts.Items? && k < |g.contracts.items| ==>
                  PageTitle(shapes, ContractPage(s, k))
                  == "Contract " + IntText(k + 1) + " of " + IntText(|g.contracts.items|)
                  && PageFor(t.signers, ContractPage(s, k), before) == HexText(g.contracts.items[k]))
            && (g.groups.Items? && k < |g.groups.items| ==>
                  PageTitle(shapes, GroupPage(s, k)) == "Group " + IntText(k + 1) + " of " + IntText(|g.groups.items|)
                  && PageFor(t.signers, GroupPage(s, k), before) == HexText(g.groups.items[k])[..63])
  {
    hide IntText, HexText, ScopeText, HasContracts, HasGroups, HasGlobal, Fits, DistinctAccounts;
    var g := t.signers[s];
    assert WellFormedSigner(g);
    if g.contracts.Items? && k < |g.contracts.items| { FewItems(k + 1, |g.contracts.items|); }
    if g.groups.Items? && k < |g.groups.items| { FewItems(k + 1, |g.groups.items|); }
  }

  lemma FewItems(k: nat, n: nat)
    requires k <= n <= MAX_SIGNER_SUB_ITEMS
    ensures |"Contract " + OfText(k, n)| < G_TEXT_LEN && |"Group " + OfText(k, n)| < G_TEXT_LEN
    ensures "Contract " + OfText(k, n) == "Contract " + IntText(k) + " of " + IntText(n)
    ensures "Group " + OfText(k, n) == "Group " + IntText(k) + " of " + IntText(n)
  {
    hide IntText;
    SmallNumbers(k);
    SmallNumbers(n);
    RegroupText("Contract ", IntText(k), " of ", IntText(n));
    RegroupText("Group ", IntText(k), " of ", IntText(n));
  }

  lemma RegroupText(a: string, b: string, c: string, d: string)
    ensures a + (b + c + d) == a + b + c + d
  {
  }

  lemma SmallNumbers(k: nat)
    requires k <= 2
    ensures |IntText(k)| <= 20
  {
    hide DecimalText;
    DecimalLength(k);
  }
}
