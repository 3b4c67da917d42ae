/** The cursor over the signer pages: next_prop and prev_prop of src/ui/display.c. */
module Pager {
  import opened Bytes
  import opened Pages

  // enum e_signer_state; signer_property[i] is i.
  const START := 0
  const INDEX := 1
  const SCOPE := 3
  const CONTRACTS := 4
  const GROUPS := 5
  const END := 6

  /** The four indices of display_ctx. */
  datatype Cursor = Cursor(s: int, p: int, c: int, g: int)

  /** Signer counts and sub-item counts the index types can hold. */
  ghost predicate Fitting(signers: seq<Shape>) {
    0 < |signers| <= 128
    && forall i :: 0 <= i < |signers| ==> signers[i].contracts <= 127 && signers[i].groups <= 127
  }

  /** The place among the pages of its signer: -1 before them, their number behind them. */
  ghost function Local(shape: Shape, at: Cursor): int {
    if at.p <= SCOPE then at.p - 1
    else if at.p == CONTRACTS then 3 + at.c
    else if at.p == GROUPS then 3 + shape.contracts + at.g
    else Size(shape)
  }

  /** The cursor at place k of signer s: c and g have the sentinel values that going on from there,
      in either direction, relies on. */
  ghost function Place(s: nat, shape: Shape, k: int): Cursor
    requires -1 <= k <= Size(shape)
  {
    if k < 3 then Cursor(s, k + 1, -1, -1)
    else if k < 3 + shape.contracts then Cursor(s, CONTRACTS, k - 3, -1)
    else if k < Size(shape) then Cursor(s, GROUPS, shape.contracts, k - 3 - shape.contracts)
    else Cursor(s, END, shape.contracts, shape.groups)
  }

  ghost predicate InPlace(signers: seq<Shape>, at: Cursor) {
    0 <= at.s < |signers|
    && var k := Local(signers[at.s], at);
       -1 <= k <= Size(signers[at.s]) && at == Place(at.s, signers[at.s], k)
  }

  /** The states between calls: before the first signer, on a page, or behind the last signer. */
  ghost predicate Canonical(signers: seq<Shape>, at: Cursor) {
    InPlace(signers, at) && (at.p == START ==> at.s == 0) && (at.p == END ==> at.s == |signers| - 1)
  }

  /** The place in the list of all pages: -1 before the first, their number behind the last. */
  ghost function Rank(signers: seq<Shape>, at: Cursor): int
    requires InPlace(signers, at)
  {
    PagesBefore(signers, at.s) + Local(signers[at.s], at)
  }

  ghost function Next(signers: seq<Shape>, at: Cursor): Cursor
    requires InPlace(signers, at)
  {
    var shape := signers[at.s];
    var k := Local(shape, at);
    if k + 1 < Size(shape) then Place(at.s, shape, k + 1)
    else if at.s + 1 == |signers| then Place(at.s, shape, Size(shape))
    else Place(at.s + 1, signers[at.s + 1], 0)
  }

  ghost function Prev(signers: seq<Shape>, at: Cursor): Cursor
    requires InPlace(signers, at) && at.p != START
  {
    var shape := signers[at.s];
    var k := Local(shape, at);
    if k > 0 || at.s == 0 then Place(at.s, shape, k - 1)
    else Place(at.s - 1, signers[at.s - 1], Size(signers[at.s - 1]) - 1)
  }

  datatype ScreenState = StaticScreen | DynamicScreen

  /** struct display_ctx_t. */
  class DisplayCtx {
    var currentState: ScreenState
    var sIndex: s8
    var pIndex: byte
    var cIndex: s8
    var gIndex: s8
    var signers: seq<Shape>

    ghost function At(): Cursor
      reads this
    {
      Cursor(sIndex, pIndex, cIndex, gIndex)
    }

    /** reset_signer_display_state, for the signers of a new transaction. */
    constructor (signers: seq<Shape>)
      requires Fitting(signers)
      ensures this.signers == signers && At() == Place(0, signers[0], -1) && currentState == StaticScreen
    {
      currentState := StaticScreen;
      this.signers := signers;
      sIndex, gIndex, cIndex, pIndex := 0, -1, -1, START;
    }

    method NextProp()
      requires Fitting(signers) && InPlace(signers, At()) && (pIndex == END ==> sIndex == |signers| - 1)
      modifies `sIndex, `pIndex, `cIndex, `gIndex
      ensures At() == Next(signers, old(At()))
      decreases |signers| - sIndex
    {
      var signer := signers[sIndex];
      if pIndex < CONTRACTS { pIndex := pIndex + 1; }

      if pIndex == CONTRACTS {
        if (cIndex as int) + 1 < signer.contracts {
          cIndex := cIndex + 1;
          return;
        }
        cIndex := cIndex + 1;
        pIndex := pIndex + 1;
      }
      if pIndex == GROUPS {
        if (gIndex as int) + 1 < signer.groups {
          gIndex := gIndex + 1;
          return;
        }
        gIndex := gIndex + 1;
        pIndex := pIndex + 1;
      }
      if pIndex == END {
        if (sIndex as int) + 1 == |signers| {
          return;
        } else {
          sIndex := sIndex + 1;
          cIndex := -1;
          gIndex := -1;
          pIndex := START;
          NextProp();
        }
      }
    }

    method PrevProp()
      requires Fitting(signers) && InPlace(signers, At()) && pIndex != START
      modifies `sIndex, `pIndex, `cIndex, `gIndex
      ensures At() == Prev(signers, old(At()))
      decreases sIndex
    {
      if sIndex == 0 && pIndex == INDEX {
        pIndex := START;
        return;
      }
      if pIndex == END {
        pIndex := pIndex - 1;
      }
      if pIndex == GROUPS {
        if gIndex > 0 {
          gIndex := gIndex - 1;
          return;
        }
        gIndex := gIndex - 1;
        pIndex := pIndex - 1;
      }
      if pIndex == CONTRACTS {
        if cIndex > 0 {
          cIndex := cIndex - 1;
          return;
        }
        cIndex := cIndex - 1;
      }
      pIndex := pIndex - 1;

      if pIndex == START {
        if sIndex > 0 {
          sIndex := sIndex - 1;
          var signer := signers[sIndex];
          pIndex := END;
          gIndex := signer.groups;
          cIndex := signer.contracts;
          PrevProp();
        }
      }
    }
  }

  lemma NextIsCanonical(signers: seq<Shape>, at: Cursor)
    requires Fitting(signers) && Canonical(signers, at)
    ensures Canonical(signers, Next(signers, at))
    ensures Rank(signers, Next(signers, at)) == if at.p == END then Rank(signers, at) else Rank(signers, at) + 1
    ensures -1 <= Rank(signers, at) <= |AllPages(signers)|
    ensures at.p == END <==> Rank(signers, at) == |AllPages(signers)|
    ensures at.p == START <==> Rank(signers, at) == -1
  {
    hide AllPages;
    PagesBeforeNext(signers, at.s);
    PagesBeforeMonotone(signers, at.s, |signers|);
  }

  lemma PrevIsCanonical(signers: seq<Shape>, at: Cursor)
    requires Fitting(signers) && Canonical(signers, at) && at.p != START
    ensures Canonical(signers, Prev(signers, at))
    ensures Rank(signers, Prev(signers, at)) == Rank(signers, at) - 1
  {
    hide AllPages;
    if at.s > 0 { PagesBeforeNext(signers, at.s - 1); }
  }

  /** A place in the list has one cursor state only. */
  lemma RankInjective(signers: seq<Shape>, a: Cursor, b: Cursor)
    requires Fitting(signers) && Canonical(signers, a) && Canonical(signers, b)
    requires Rank(signers, a) == Rank(signers, b)
    ensures a == b
  {
    hide AllPages;
    if a.s < b.s { PagesBeforeMonotone(signers, a.s, b.s); }
    if b.s < a.s { PagesBeforeMonotone(signers, b.s, a.s); }
  }

  /** next_prop and prev_prop undo each other. */
  lemma NextPrevUndo(signers: seq<Shape>, at: Cursor)
    requires Fitting(signers) && Canonical(signers, at)
    ensures at.p != END ==> Next(signers, at).p != START && Prev(signers, Next(signers, at)) == at
    ensures at.p != START ==> Next(signers, Prev(signers, at)) == at
  {
  }

  /** The page get_next_data draws for a cursor that is on one. */
  ghost function PageUnder(at: Cursor): Page
    requires at.s >= 0 && INDEX <= at.p <= GROUPS && (at.p == CONTRACTS ==> at.c >= 0) && (at.p == GROUPS ==> at.g >= 0)
  {
    if at.p == INDEX then IndexPage(at.s)
    else if at.p == 2 then AccountPage(at.s)
    else if at.p == SCOPE then ScopePage(at.s)
    else if at.p == CONTRACTS then ContractPage(at.s, at.c)
    else GroupPage(at.s, at.g)
  }

  /** It is the page at the cursor's rank in the list of all pages. */
  lemma PageUnderIsRanked(signers: seq<Shape>, at: Cursor)
    requires Fitting(signers) && Canonical(signers, at) && at.p != START && at.p != END
    ensures 0 <= Rank(signers, at) < |AllPages(signers)|
    ensures AllPages(signers)[Rank(signers, at)] == PageUnder(at)
  {
    hide AllPages;
    PageInList(signers, at.s, Local(signers[at.s], at));
  }
}
