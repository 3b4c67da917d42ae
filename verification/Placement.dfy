/** Where the signers of a transaction lie in its bytes: for every accepted buffer there is a structure
    that holds its transaction, so what transaction_deserialize promises can always be met. */
module Placement {
  import opened Bytes
  import opened Varint
  import opened Grammar
  import opened GrammarTheorems
  import opened Deserialize

  ghost predicate LiesAt(bytes: seq<byte>, at: nat, part: seq<byte>) {
    at + |part| <= |bytes| && bytes[at..at + |part|] == part
  }

  lemma LiesInside(bytes: seq<byte>, at: nat, a: seq<byte>, b: seq<byte>)
    requires LiesAt(bytes, at, a + b)
    ensures LiesAt(bytes, at, a) && LiesAt(bytes, at + |a|, b)
  {
    assert (a + b)[..|a|] == a && (a + b)[|a|..] == b;
    assert bytes[at..at + |a + b|][..|a|] == bytes[at..at + |a|];
    assert bytes[at..at + |a + b|][|a|..] == bytes[at + |a|..at + |a| + |b|];
  }

  /** The places of up to two items. */
  ghost function Places(at: nat, l: Items, size: nat): seq<nat> {
    if l.Absent? then [0, 0] else [at + l.width, at + l.width + size]
  }

  ghost function SlotFor(at: nat, g: Signer): SignerSlot
    requires WellFormedSigner(g)
  {
    var lists := at + UINT160_LEN + 1;
    SignerSlot(at, g.scope,
      Places(lists, g.contracts, UINT160_LEN), Count(g.contracts),
      Places(lists + |ListBytes(g.contracts)|, g.groups, ECPOINT_LEN), Count(g.groups))
  }

  lemma ListPlaced(bytes: seq<byte>, at: nat, l: Items, present: bool, size: nat)
    requires WellFormedItems(l, present, size) && LiesAt(bytes, at, ListBytes(l))
    ensures ListAt(bytes, Places(at, l, size), Count(l), l)
  {
    hide Written, Fits, ItemsBytes, LiesAt, SlicesAt;
    if l.Items? {
      LiesInside(bytes, at, Written(Varint(l.width, |l.items|)), ItemsBytes(l.items));
      ItemsPlaced(bytes, at + l.width, l.items, size);
    }
  }

  lemma ItemsPlaced(bytes: seq<byte>, at: nat, items: seq<seq<byte>>, size: nat)
    requires |items| <= 2 && forall k :: 0 <= k < |items| ==> |items[k]| == size
    requires LiesAt(bytes, at, ItemsBytes(items))
    ensures SlicesAt(bytes, [at, at + size], items)
  {
    hide ItemsBytes, LiesAt, SliceAt;
    if |items| >= 1 {
      ItemsStart(items);
      LiesInside(bytes, at, items[0], ItemsBytes(items[1..]));
      LiesIsSlice(bytes, at, items[0]);
      if |items| == 2 {
        ItemsStart(items[1..]);
        LiesInside(bytes, at + size, items[1], ItemsBytes(items[1..][1..]));
        LiesIsSlice(bytes, at + size, items[1]);
      }
    }
  }

  lemma LiesIsSlice(bytes: seq<byte>, at: nat, slice: seq<byte>)
    ensures LiesAt(bytes, at, slice) <==> SliceAt(bytes, at, slice)
  {
  }

  lemma ItemsStart(items: seq<seq<byte>>)
    requires items != []
    ensures ItemsBytes(items) == items[0] + ItemsBytes(items[1..])
  {
  }

  lemma SlotPlaced(bytes: seq<byte>, at: nat, g: Signer)
    requires WellFormedSigner(g) && LiesAt(bytes, at, SignerBytes(g))
    ensures SlotHolds(bytes, SlotFor(at, g), g)
  {
    hide ItemsBytes, Written, Fits, ListAt;
    var lists := ListBytes(g.contracts) + ListBytes(g.groups);
    LiesInside(bytes, at, g.account, [g.scope] + lists);
    LiesInside(bytes, at + UINT160_LEN, [g.scope], lists);
    LiesInside(bytes, at + UINT160_LEN + 1, ListBytes(g.contracts), ListBytes(g.groups));
    ListPlaced(bytes, at + UINT160_LEN + 1, g.contracts, HasContracts(g.scope), UINT160_LEN);
    ListPlaced(bytes, at + UINT160_LEN + 1 + |ListBytes(g.contracts)|, g.groups, HasGroups(g.scope), ECPOINT_LEN);
  }

  lemma SlotShape(at: nat, g: Signer)
    requires WellFormedSigner(g)
    ensures var slot := SlotFor(at, g);
            |slot.contracts| == |slot.groups| == MAX_SIGNER_SUB_ITEMS
            && slot.contractsSize == Count(g.contracts) && slot.groupsSize == Count(g.groups)
  {
    hide ListBytes;
  }

  lemma SignersStartWith(signers: seq<Signer>)
    requires signers != [] && forall i :: 0 <= i < |signers| ==> WellFormedSigner(signers[i])
    ensures SignersBytes(signers) == SignerBytes(signers[0]) + SignersBytes(signers[1..])
  {
    hide SignerBytes, WellFormedSigner;
  }

  /** Signers lying one after the other have slots that hold them. */
  lemma {:induction false} SignersPlaced(bytes: seq<byte>, at: nat, signers: seq<Signer>)
    returns (slots: seq<SignerSlot>)
    requires forall i :: 0 <= i < |signers| ==> WellFormedSigner(signers[i])
    requires LiesAt(bytes, at, SignersBytes(signers))
    ensures |slots| == |signers| && SlotsHold(bytes, slots, signers)
    ensures forall i :: 0 <= i < |signers| ==>
              |slots[i].contracts| == |slots[i].groups| == MAX_SIGNER_SUB_ITEMS
              && slots[i].contractsSize == Count(signers[i].contracts)
              && slots[i].groupsSize == Count(signers[i].groups)
    decreases |signers|
  {
    hide SlotHolds, SignerBytes, SignersBytes, WellFormedSigner, SlotFor, LiesAt;
    slots := [];
    if signers != [] {
      SignersStartWith(signers);
      SlotShape(at, signers[0]);
      LiesInside(bytes, at, SignerBytes(signers[0]), SignersBytes(signers[1..]));
      SlotPlaced(bytes, at, signers[0]);
      var others := SignersPlaced(bytes, at + |SignerBytes(signers[0])|, signers[1..]);
      slots := [SlotFor(at, signers[0])] + others;
    }
  }

  /** The signers of an accepted buffer, and the scopes the parser finds there. */
  lemma AcceptedSigners(bytes: seq<byte>) returns (t: Transaction, at: nat)
    requires Accepted(bytes, FRESH)
    ensures Parsing(bytes, FRESH) == Parse(t, []) && WellFormed(t) && LiesAt(bytes, at, SignersBytes(t.signers))
    ensures forall i :: 0 <= i < |t.signers| ==> ScopeAt(bytes, i) == Some(t.signers[i].scope)
    ensures |t.script| <= |bytes| && LiesAt(bytes, |bytes| - |t.script|, t.script)
  {
    hide TakeHeader, TakeVarint, TakeSigners, TakeTransaction, SignersBytes, WellFormedSigner, HeaderBytes, Written,
         ScopeAt, CountedBytes;
    ParserAgreesWithGrammar(bytes);
    t := Parsing(bytes, FRESH).value;
    var count := Written(Varint(t.signersWidth, |t.signers|));
    var after := CountedBytes(t.attributesWidth, t.attributes) + CountedBytes(t.scriptWidth, t.script);
    var rest := count + (SignersBytes(t.signers) + after);
    assert bytes == HeaderBytes(t.header) + rest;
    HeaderComplete(t.header, rest);
    VarintComplete(Varint(t.signersWidth, |t.signers|), SignersBytes(t.signers) + after, SignerLengthParsingError);
    at := |HeaderBytes(t.header)| + |count|;
    assert bytes[at..] == SignersBytes(t.signers) + after;
    assert bytes[at..][..|SignersBytes(t.signers)|] == bytes[at..at + |SignersBytes(t.signers)|];
    forall i | 0 <= i < |t.signers| ensures ScopeAt(bytes, i) == Some(t.signers[i].scope) {
      ScopesFound(bytes, t.signers, i, after);
    }
    ScriptLast(bytes, t);
  }

  lemma ScriptLast(bytes: seq<byte>, t: Transaction)
    requires WellFormed(t) && Serialize(t) == bytes
    ensures |t.script| <= |bytes| && LiesAt(bytes, |bytes| - |t.script|, t.script)
  {
    hide Written, HeaderBytes, CountedSignersBytes, WellFormedSigner;
  }

  lemma ScopesFound(bytes: seq<byte>, signers: seq<Signer>, i: nat, after: seq<byte>)
    requires DistinctAccounts(signers) && forall k :: 0 <= k < |signers| ==> WellFormedSigner(signers[k])
    requires i < |signers| && SignersStart(bytes).Parse? && SignersStart(bytes).rest == SignersBytes(signers) + after
    ensures ScopeAt(bytes, i) == Some(signers[i].scope)
  {
    hide TakeSigners, SignersStart, SignersBytes, SignerBytes, WellFormedSigner, ScopeAt;
    var front := signers[..i];
    var one, others := SignerBytes(signers[i]), SignersBytes(signers[i + 1..]);
    var rest := one + (others + after);
    SignersSplit(signers, i);
    Regroup(SignersBytes(front), one, others, after);
    SignersComplete(front, 0, rest);
    assert front[0..] == front && front[..0] == [];
    ScopePlaced(signers[i], others + after);
    ReachesScope(bytes, i, rest, front);
  }

  lemma Regroup(a: seq<byte>, b: seq<byte>, c: seq<byte>, d: seq<byte>)
    ensures (a + (b + c)) + d == a + (b + (c + d))
  {
  }

  lemma ScopePlaced(g: Signer, rest: seq<byte>)
    requires WellFormedSigner(g)
    ensures |SignerBytes(g) + rest| > UINT160_LEN && (SignerBytes(g) + rest)[UINT160_LEN] == g.scope
  {
    hide ListBytes;
  }

  lemma {:induction false} SignersSplit(signers: seq<Signer>, i: nat)
    requires i < |signers| && forall k :: 0 <= k < |signers| ==> WellFormedSigner(signers[k])
    ensures SignersBytes(signers)
            == SignersBytes(signers[..i]) + (SignerBytes(signers[i]) + SignersBytes(signers[i + 1..]))
    decreases i
  {
    hide SignerBytes, WellFormedSigner;
    if i > 0 {
      SignersSplit(signers[1..], i - 1);
      assert signers[1..][..i - 1] == signers[..i][1..];
      assert signers[1..][i..] == signers[i + 1..];
    }
  }

  /** For every accepted buffer there are slots that hold its signers and belong to it. */
  lemma SlotsExist(bytes: seq<byte>) returns (t: Transaction, slots: seq<SignerSlot>)
    requires Accepted(bytes, FRESH)
    ensures Parsing(bytes, FRESH) == Parse(t, []) && WellFormed(t)
    ensures |t.script| <= |bytes| && LiesAt(bytes, |bytes| - |t.script|, t.script)
    ensures SlotsHold(bytes, slots, t.signers) && SlotsBelong(slots, bytes)
  {
    hide Parsing, ScopeAt, SlotHolds, SignersBytes, Fits, Written;
    var at;
    t, at := AcceptedSigners(bytes);
    slots := SignersPlaced(bytes, at, t.signers);
    assert forall i :: 0 <= i < |t.signers| ==> WellFormedSigner(t.signers[i]);
    assert forall i :: 0 <= i < |slots| ==> SlotBelongs(slots[i], bytes, i);
    if |slots| == 1 { slots := slots + [EMPTY_SLOT]; }
  }
}
