/** The parser of Grammar.dfy and the byte form agree, both ways; what follows from it: the
    accepted language is prefix-free, and leftovers of earlier parses never widen it. */
module GrammarTheorems {
  import opened Bytes
  import opened Numerals
  import opened Varint
  import opened Grammar

  // ---------------------------------------------------------------- building blocks

  lemma TakeComplete(b: seq<byte>, rest: seq<byte>, short: Status)
    ensures Take(b + rest, |b|, short) == Parse(b, rest)
  {
  }

  lemma VarintComplete(v: Varint, rest: seq<byte>, short: Status)
    requires Fits(v)
    ensures TakeVarint(Written(v) + rest, short) == Parse(v, rest)
  {
    ParseWritten(v, rest);
  }

  lemma VarintSound(s: seq<byte>, short: Status)
    requires TakeVarint(s, short).Parse?
    ensures var p := TakeVarint(s, short); Fits(p.value) && s == Written(p.value) + p.rest
  {
    WrittenParse(s);
  }

  lemma U32Complete(n: u32, rest: seq<byte>, short: Status)
    ensures TakeU32(LeBytes(n, 4) + rest, short) == Parse(n, rest)
  {
    hide Le, LeBytes, Pow, Take;
    LeOfBytes(n, 4);
    BytesOfLe(LeBytes(n, 4));
    Capacities();
    TakeComplete(LeBytes(n, 4), rest, short);
  }

  lemma U32Sound(s: seq<byte>, short: Status)
    requires TakeU32(s, short).Parse?
    ensures s == LeBytes(TakeU32(s, short).value, 4) + TakeU32(s, short).rest
  {
    BytesOfLe(s[..4]);
  }

  lemma FeeComplete(n: s64, rest: seq<byte>, short: Status, negative: Status)
    requires n >= 0
    ensures TakeFee(LeBytes(n, 8) + rest, short, negative) == Parse(n, rest)
  {
    hide Le, LeBytes, Pow, Take;
    LeOfBytes(n, 8);
    BytesOfLe(LeBytes(n, 8));
    Capacities();
    TakeComplete(LeBytes(n, 8), rest, short);
  }

  lemma FeeSound(s: seq<byte>, short: Status, negative: Status)
    requires TakeFee(s, short, negative).Parse?
    ensures var p := TakeFee(s, short, negative); p.value >= 0 && s == LeBytes(p.value, 8) + p.rest
  {
    BytesOfLe(s[..8]);
  }

  // ---------------------------------------------------------------- lists and signers

  lemma {:induction false} ItemsComplete(items: seq<seq<byte>>, k: nat, size: nat, short: Status, rest: seq<byte>)
    requires k <= |items| && forall i :: k <= i < |items| ==> |items[i]| == size
    ensures TakeItems(ItemsBytes(items[k..]) + rest, |items|, size, short, items[..k]) == Parse(items, rest)
    decreases |items| - k
  {
    if k == |items| {
      assert items[k..] == [] && items[..k] == items;
    } else {
      var tail := ItemsBytes(items[k + 1..]) + rest;
      assert items[k..][1..] == items[k + 1..];
      assert ItemsBytes(items[k..]) + rest == items[k] + tail;
      TakeComplete(items[k], tail, short);
      assert items[..k] + [items[k]] == items[..k + 1];
      ItemsComplete(items, k + 1, size, short, rest);
    }
  }

  lemma {:induction false} ItemsSound(s: seq<byte>, n: nat, size: nat, short: Status, done: seq<seq<byte>>)
    requires |done| <= n && TakeItems(s, n, size, short, done).Parse?
    ensures var p := TakeItems(s, n, size, short, done);
            |p.value| == n && done <= p.value
            && (forall i :: |done| <= i < n ==> |p.value[i]| == size)
            && s == ItemsBytes(p.value[|done|..]) + p.rest
    decreases n - |done|
  {
    if |done| < n {
      var item := s[..size];
      ItemsSound(s[size..], n, size, short, done + [item]);
      var all := TakeItems(s, n, size, short, done).value;
      assert all[|done|] == item && all[|done|..][1..] == all[|done| + 1..];
    }
  }

  lemma ListComplete(l: Items, present: bool, size: nat, short: Status, large: Status, shortItem: Status,
                     rest: seq<byte>)
    requires WellFormedItems(l, present, size)
    ensures TakeList(ListBytes(l) + rest, present, size, short, large, shortItem) == Parse(l, rest)
  {
    if present {
      var v := Varint(l.width, |l.items|);
      var tail := ItemsBytes(l.items) + rest;
      assert ListBytes(l) + rest == Written(v) + tail;
      VarintComplete(v, tail, short);
      ItemsComplete(l.items, 0, size, shortItem, rest);
      assert l.items[0..] == l.items && l.items[..0] == [];
    }
  }

  lemma ListSound(s: seq<byte>, present: bool, size: nat, short: Status, large: Status, shortItem: Status)
    requires TakeList(s, present, size, short, large, shortItem).Parse?
    ensures var p := TakeList(s, present, size, short, large, shortItem);
            WellFormedItems(p.value, present, size) && s == ListBytes(p.value) + p.rest
  {
    hide Written, ItemsBytes, TakeItems, TakeVarint;
    if present {
      VarintSound(s, short);
      var v := TakeVarint(s, short);
      ItemsSound(v.rest, v.value.value, size, shortItem, []);
      var items := TakeItems(v.rest, v.value.value, size, shortItem, []).value;
      assert items[0..] == items;
    }
  }

  lemma SignerComplete(g: Signer, earlier: seq<Signer>, rest: seq<byte>)
    requires WellFormedSigner(g)
    requires forall i :: 0 <= i < |earlier| ==> earlier[i].account != g.account
    ensures TakeSigner(SignerBytes(g) + rest, earlier) == Parse(g, rest)
  {
    var r3 := ListBytes(g.groups) + rest;
    var r2 := ListBytes(g.contracts) + r3;
    var r1 := [g.scope] + r2;
    hide TakeList, ListBytes, WellFormedItems;
    assert SignerBytes(g) + rest == g.account + r1;
    TakeComplete(g.account, r1, SignerAccountParsingError);
    TakeComplete([g.scope], r2, SignerScopeParsingError);
    ListComplete(g.contracts, HasContracts(g.scope), UINT160_LEN, SignerAllowedContractsLengthParsingError,
      SignerAllowedContractsLengthValueError, SignerAllowedContractParsingError, r3);
    ListComplete(g.groups, HasGroups(g.scope), ECPOINT_LEN, SignerAllowedGroupsLengthParsingError,
      SignerAllowedGroupsLengthValueError, SignerAllowedContractParsingError, rest);
  }

  lemma SignerSound(s: seq<byte>, earlier: seq<Signer>)
    requires TakeSigner(s, earlier).Parse?
    ensures var p := TakeSigner(s, earlier);
            WellFormedSigner(p.value) && s == SignerBytes(p.value) + p.rest
            && forall i :: 0 <= i < |earlier| ==> earlier[i].account != p.value.account
  {
    hide TakeList, ListBytes, WellFormedItems;
    var scope := s[UINT160_LEN];
    assert s[UINT160_LEN..][..1] == [scope];
    var r2 := s[UINT160_LEN..][1..];
    ListSound(r2, HasContracts(scope), UINT160_LEN, SignerAllowedContractsLengthParsingError,
      SignerAllowedContractsLengthValueError, SignerAllowedContractParsingError);
    var c := TakeList(r2, HasContracts(scope), UINT160_LEN, SignerAllowedContractsLengthParsingError,
      SignerAllowedContractsLengthValueError, SignerAllowedContractParsingError);
    ListSound(c.rest, HasGroups(scope), ECPOINT_LEN, SignerAllowedGroupsLengthParsingError,
      SignerAllowedGroupsLengthValueError, SignerAllowedContractParsingError);
    var p := TakeSigner(s, earlier);
    assert s == s[..UINT160_LEN] + ([scope] + r2);
    assert s == SignerBytes(p.value) + p.rest;
  }

  lemma {:induction false} SignersComplete(signers: seq<Signer>, k: nat, rest: seq<byte>)
    requires k <= |signers| && DistinctAccounts(signers)
    requires forall i :: 0 <= i < |signers| ==> WellFormedSigner(signers[i])
    ensures TakeSigners(SignersBytes(signers[k..]) + rest, |signers|, signers[..k]) == Parse(signers, rest)
    decreases |signers| - k
  {
    hide TakeSigner, SignerBytes, WellFormedSigner;
    if k == |signers| {
      assert signers[k..] == [] && signers[..k] == signers;
    } else {
      var tail := SignersBytes(signers[k + 1..]) + rest;
      assert signers[k..][1..] == signers[k + 1..];
      assert SignersBytes(signers[k..]) + rest == SignerBytes(signers[k]) + tail;
      SignerComplete(signers[k], signers[..k], tail);
      assert signers[..k] + [signers[k]] == signers[..k + 1];
      SignersComplete(signers, k + 1, rest);
    }
  }

  lemma {:induction false} SignersSound(s: seq<byte>, n: nat, done: seq<Signer>)
    requires |done| <= n && TakeSigners(s, n, done).Parse?
    requires DistinctAccounts(done) && forall i :: 0 <= i < |done| ==> WellFormedSigner(done[i])
    ensures var p := TakeSigners(s, n, done);
            |p.value| == n && done <= p.value && DistinctAccounts(p.value)
            && (forall i :: 0 <= i < n ==> WellFormedSigner(p.value[i]))
            && s == SignersBytes(p.value[|done|..]) + p.rest
    decreases n - |done|
  {
    hide TakeSigner, SignerBytes, WellFormedSigner;
    if |done| < n {
      SignerSound(s, done);
      var g := TakeSigner(s, done);
      SignersSound(g.rest, n, done + [g.value]);
      var all := TakeSigners(s, n, done).value;
      assert all[|done|] == g.value && all[|done|..][1..] == all[|done| + 1..];
    }
  }

  /** The list of n signers is the list of the first i, continued. */
  lemma {:induction false} SignersResume(s: seq<byte>, i: nat, n: nat, done: seq<Signer>)
    requires |done| <= i <= n && TakeSigners(s, i, done).Parse?
    ensures var p := TakeSigners(s, i, done);
            |p.value| == i && TakeSigners(s, n, done) == TakeSigners(p.rest, n, p.value)
    decreases i - |done|
  {
    hide TakeSigner;
    if |done| < i {
      var g := TakeSigner(s, done);
      SignersResume(g.rest, i, n, done + [g.value]);
    }
  }

  /** One more signer. */
  lemma SignersNext(s: seq<byte>, i: nat, n: nat)
    requires i < n && TakeSigners(s, i, []).Parse?
    ensures var p := TakeSigners(s, i, []); var g := TakeSigner(p.rest, p.value);
            |p.value| == i
            && (g.Parse? ==> TakeSigners(s, i + 1, []) == Parse(p.value + [g.value], g.rest))
            && (g.Fail? ==> TakeSigners(s, n, []) == Fail(g.status))
  {
    hide TakeSigner;
    SignersResume(s, i, i + 1, []);
    SignersResume(s, i, n, []);
  }

  // ---------------------------------------------------------------- attributes and script

  lemma AttributesComplete(a: seq<byte>, rest: seq<byte>)
    requires a == [] || a == [HIGH_PRIORITY]
    ensures TakeAttributes(a + rest, |a|, FRESH, []) == Parse(a, rest)
  {
    if a == [] {
      assert a + rest == rest;
    } else {
      var s := a + rest;
      TakeComplete(a, rest, AttributesUnsupportedType);
      assert Take(s, 1, AttributesUnsupportedType) == Parse([HIGH_PRIORITY], rest);
      assert FRESH[0] == 0;
      assert [] + [HIGH_PRIORITY] == a;
      assert TakeAttributes(s, 1, FRESH, []) == TakeAttributes(rest, 1, FRESH[0 := HIGH_PRIORITY], a);
    }
  }

  /** Whatever is in the slots, at most one attribute is accepted, and it is HIGH_PRIORITY. */
  lemma AttributesSound(s: seq<byte>, n: nat, slots: Slots)
    requires n <= MAX_ATTRIBUTES && TakeAttributes(s, n, slots, []).Parse?
    ensures var p := TakeAttributes(s, n, slots, []);
            (p.value == [] || p.value == [HIGH_PRIORITY]) && |p.value| == n && s == p.value + p.rest
    ensures TakeAttributes(s, n, FRESH, []) == TakeAttributes(s, n, slots, [])
  {
    if n > 0 {
      assert s[..1] == [HIGH_PRIORITY];
      var next := slots[0 := HIGH_PRIORITY];
      assert TakeAttributes(s, n, slots, []) == TakeAttributes(s[1..], n, next, [] + [HIGH_PRIORITY]);
      assert next[0] == HIGH_PRIORITY;
      assert n == 1;
      AttributesComplete([HIGH_PRIORITY], s[1..]);
      assert s == [HIGH_PRIORITY] + s[1..];
    }
  }

  lemma ScriptComplete(width: nat, script: seq<byte>, rest: seq<byte>)
    requires 0 < |script| <= 0xFFFF && Fits(Varint(width, |script|))
    ensures TakeScript(CountedBytes(width, script) + rest) == Parse((width, script), rest)
  {
    var v := Varint(width, |script|);
    assert CountedBytes(width, script) + rest == Written(v) + (script + rest);
    VarintComplete(v, script + rest, ScriptLengthParsingError);
    TakeComplete(script, rest, ScriptLengthValueError);
  }

  lemma ScriptSound(s: seq<byte>)
    requires TakeScript(s).Parse?
    ensures var p := TakeScript(s);
            0 < |p.value.1| <= 0xFFFF && Fits(Varint(p.value.0, |p.value.1|))
            && s == CountedBytes(p.value.0, p.value.1) + p.rest
  {
    VarintSound(s, ScriptLengthParsingError);
  }

  // ---------------------------------------------------------------- the transaction

  lemma HeaderComplete(h: Header, rest: seq<byte>)
    requires WellFormedHeader(h)
    ensures TakeHeader(HeaderBytes(h) + rest) == Parse(h, rest)
  {
    hide TakeU32, TakeFee, LeBytes;
    var r4 := LeBytes(h.validUntilBlock, 4) + rest;
    var r3 := LeBytes(h.networkFee, 8) + r4;
    var r2 := LeBytes(h.systemFee, 8) + r3;
    var r1 := LeBytes(h.nonce, 4) + r2;
    assert HeaderBytes(h) + rest == [0] + r1;
    TakeComplete([0], r1, VersionParsingError);
    U32Complete(h.nonce, r2, NonceParsingError);
    FeeComplete(h.systemFee, r3, SystemFeeParsingError, SystemFeeValueError);
    FeeComplete(h.networkFee, r4, NetworkFeeParsingError, NetworkFeeValueError);
    U32Complete(h.validUntilBlock, rest, ValidUntilBlockParsingError);
  }

  lemma HeaderSound(s: seq<byte>)
    requires TakeHeader(s).Parse?
    ensures var p := TakeHeader(s); WellFormedHeader(p.value) && s == HeaderBytes(p.value) + p.rest
  {
    hide TakeU32, TakeFee, LeBytes;
    assert s[..1] == [0];
    U32Sound(s[1..], NonceParsingError);
    var r2 := TakeU32(s[1..], NonceParsingError).rest;
    FeeSound(r2, SystemFeeParsingError, SystemFeeValueError);
    var r3 := TakeFee(r2, SystemFeeParsingError, SystemFeeValueError).rest;
    FeeSound(r3, NetworkFeeParsingError, NetworkFeeValueError);
    var r4 := TakeFee(r3, NetworkFeeParsingError, NetworkFeeValueError).rest;
    U32Sound(r4, ValidUntilBlockParsingError);
    var p := TakeHeader(s);
    assert s == [0] + s[1..];
    assert s == HeaderBytes(p.value) + p.rest;
  }

  lemma CountedSignersComplete(width: nat, signers: seq<Signer>, rest: seq<byte>)
    requires MIN_TX_SIGNERS <= |signers| <= MAX_TX_SIGNERS && Fits(Varint(width, |signers|))
    requires DistinctAccounts(signers) && forall i :: 0 <= i < |signers| ==> WellFormedSigner(signers[i])
    ensures TakeCountedSigners(CountedSignersBytes(width, signers) + rest) == Parse((width, signers), rest)
  {
    hide TakeVarint, TakeSigners, SignersBytes, WellFormedSigner;
    var v := Varint(width, |signers|);
    assert CountedSignersBytes(width, signers) + rest == Written(v) + (SignersBytes(signers) + rest);
    VarintComplete(v, SignersBytes(signers) + rest, SignerLengthParsingError);
    SignersComplete(signers, 0, rest);
    assert signers[0..] == signers && signers[..0] == [];
  }

  lemma CountedSignersSound(s: seq<byte>)
    requires TakeCountedSigners(s).Parse?
    ensures var p := TakeCountedSigners(s); var signers := p.value.1;
            MIN_TX_SIGNERS <= |signers| <= MAX_TX_SIGNERS && Fits(Varint(p.value.0, |signers|))
            && DistinctAccounts(signers) && (forall i :: 0 <= i < |signers| ==> WellFormedSigner(signers[i]))
            && s == CountedSignersBytes(p.value.0, signers) + p.rest
  {
    hide TakeVarint, TakeSigners, SignersBytes, WellFormedSigner;
    VarintSound(s, SignerLengthParsingError);
    var v := TakeVarint(s, SignerLengthParsingError);
    SignersSound(v.rest, v.value.value, []);
    var signers := TakeCountedSigners(s).value.1;
    assert signers[0..] == signers;
  }

  lemma CountedAttributesComplete(width: nat, a: seq<byte>, rest: seq<byte>)
    requires (a == [] || a == [HIGH_PRIORITY]) && Fits(Varint(width, |a|))
    ensures TakeCountedAttributes(CountedBytes(width, a) + rest, FRESH) == Parse((width, a), rest)
  {
    hide TakeVarint, TakeAttributes;
    var v := Varint(width, |a|);
    assert CountedBytes(width, a) + rest == Written(v) + (a + rest);
    VarintComplete(v, a + rest, AttributesLengthParsingError);
    AttributesComplete(a, rest);
  }

  lemma CountedAttributesSound(s: seq<byte>, slots: Slots)
    requires TakeCountedAttributes(s, slots).Parse?
    ensures var p := TakeCountedAttributes(s, slots); var a := p.value.1;
            (a == [] || a == [HIGH_PRIORITY]) && Fits(Varint(p.value.0, |a|))
            && s == CountedBytes(p.value.0, a) + p.rest
    ensures TakeCountedAttributes(s, FRESH) == TakeCountedAttributes(s, slots)
  {
    hide TakeVarint, TakeAttributes;
    VarintSound(s, AttributesLengthParsingError);
    var v := TakeVarint(s, AttributesLengthParsingError);
    AttributesSound(v.rest, v.value.value, slots);
  }

  /** Any bytes may follow a well-formed transaction: the parser finds it and stops at its end. */
  lemma TransactionComplete(t: Transaction, rest: seq<byte>)
    requires WellFormed(t)
    ensures TakeTransaction(Serialize(t) + rest, FRESH) == Parse(t, rest)
  {
    hide TakeHeader, TakeCountedSigners, TakeCountedAttributes, TakeScript, HeaderBytes, CountedSignersBytes,
         CountedBytes, Written, WellFormedSigner;
    var script := CountedBytes(t.scriptWidth, t.script);
    var r3 := script + rest;
    var r2 := CountedBytes(t.attributesWidth, t.attributes) + r3;
    var r1 := CountedSignersBytes(t.signersWidth, t.signers) + r2;
    assert Serialize(t) + rest == HeaderBytes(t.header) + r1;
    HeaderComplete(t.header, r1);
    CountedSignersComplete(t.signersWidth, t.signers, r2);
    CountedAttributesComplete(t.attributesWidth, t.attributes, r3);
    ScriptComplete(t.scriptWidth, t.script, rest);
  }

  /** Whatever the slots hold, what is parsed is well formed, is what the bytes spell, and is what
      a parse into a zeroed structure finds. */
  lemma TransactionSound(s: seq<byte>, slots: Slots)
    requires TakeTransaction(s, slots).Parse?
    ensures var p := TakeTransaction(s, slots); WellFormed(p.value) && s == Serialize(p.value) + p.rest
    ensures TakeTransaction(s, FRESH) == TakeTransaction(s, slots)
  {
    hide TakeHeader, TakeCountedSigners, TakeCountedAttributes, TakeScript, HeaderBytes, CountedSignersBytes,
         CountedBytes, Written, WellFormedSigner;
    HeaderSound(s);
    var r1 := TakeHeader(s).rest;
    CountedSignersSound(r1);
    var r2 := TakeCountedSigners(r1).rest;
    CountedAttributesSound(r2, slots);
    var r3 := TakeCountedAttributes(r2, slots).rest;
    ScriptSound(r3);
    var p := TakeTransaction(s, slots);
    assert s == Serialize(p.value) + p.rest;
  }

  /** The parser and the grammar agree: a buffer is accepted into a zeroed structure exactly when
      it is the byte form of a well-formed transaction, in whatever forms its counts are written. */
  lemma ParserAgreesWithGrammar(bytes: seq<byte>)
    ensures Accepted(bytes, FRESH) <==>
            |bytes| <= MAX_TRANSACTION_LEN && exists t :: WellFormed(t) && Serialize(t) == bytes
    ensures Accepted(bytes, FRESH) ==>
            WellFormed(Parsing(bytes, FRESH).value) && Serialize(Parsing(bytes, FRESH).value) == bytes
  {
    hide TakeTransaction, WellFormed, Serialize;
    if Accepted(bytes, FRESH) {
      TransactionSound(bytes, FRESH);
      var t := Parsing(bytes, FRESH).value;
      assert Serialize(t) + [] == Serialize(t);
    }
    if |bytes| <= MAX_TRANSACTION_LEN && exists t :: WellFormed(t) && Serialize(t) == bytes {
      var t :| WellFormed(t) && Serialize(t) == bytes;
      ParseOfSerialize(t);
    }
  }

  /** Parsing the byte form of a well-formed transaction that fits gives the transaction back. */
  lemma ParseOfSerialize(t: Transaction)
    requires WellFormed(t) && |Serialize(t)| <= MAX_TRANSACTION_LEN
    ensures Parsing(Serialize(t), FRESH) == Parse(t, [])
  {
    hide TakeTransaction, WellFormed, Serialize;
    TransactionComplete(t, []);
    assert Serialize(t) + [] == Serialize(t);
  }

  /** No accepted buffer extends another: a strict extension is reported as a wrong length. */
  lemma PrefixFree(bytes: seq<byte>, more: seq<byte>)
    requires Accepted(bytes, FRESH) && more != []
    ensures Parsing(bytes + more, FRESH) == Fail(InvalidLengthError)
  {
    hide TakeTransaction, WellFormed, Serialize;
    TransactionSound(bytes, FRESH);
    var t := Parsing(bytes, FRESH).value;
    assert Serialize(t) + [] == Serialize(t);
    TransactionComplete(t, more);
  }

  /** A structure left over from earlier parses never makes the parser accept more, or otherwise. */
  lemma StaleAcceptsLess(bytes: seq<byte>, slots: Slots)
    requires Accepted(bytes, slots)
    ensures Parsing(bytes, FRESH) == Parsing(bytes, slots)
  {
    hide TakeTransaction;
    TransactionSound(bytes, slots);
  }

  lemma AttributesStale(s: seq<byte>, n: nat, slots: Slots)
    requires n <= MAX_ATTRIBUTES && TakeAttributes(s, n, FRESH, []).Parse?
    ensures TakeAttributes(s, n, slots, [])
            == if n == 0 || slots[0] != HIGH_PRIORITY then TakeAttributes(s, n, FRESH, [])
               else Fail(AttributesDuplicateType)
  {
    AttributesSound(s, n, FRESH);
    if n == 1 {
      assert s[..1] == [HIGH_PRIORITY];
      var next := slots[0 := HIGH_PRIORITY];
      assert TakeAttributes(s[1..], 1, next, [] + [HIGH_PRIORITY]) == Parse([HIGH_PRIORITY], s[1..]);
    }
  }

  /** What leftovers do: an attribute left in the first slot makes every transaction with an attribute
      look like one with a duplicate; all else is accepted as with a zeroed structure. */
  lemma StaleAcceptsIff(bytes: seq<byte>, slots: Slots)
    ensures Accepted(bytes, slots) <==>
            Accepted(bytes, FRESH)
            && (Parsing(bytes, FRESH).value.attributes == [] || slots[0] != HIGH_PRIORITY)
  {
    hide TakeHeader, TakeCountedSigners, TakeVarint, TakeAttributes, TakeScript;
    if Accepted(bytes, slots) {
      StaleAcceptsLess(bytes, slots);
    }
    if Accepted(bytes, FRESH) {
      var s := TakeCountedSigners(TakeHeader(bytes).rest).rest;
      var v := TakeVarint(s, AttributesLengthParsingError);
      AttributesSound(v.rest, v.value.value, FRESH);
      AttributesStale(v.rest, v.value.value, slots);
    }
  }

  /** Once accepted, never again: no strict extension is accepted, whatever the structure holds. */
  lemma AcceptedOnce(bytes: seq<byte>, more: seq<byte>, slots: Slots, later: Slots)
    requires Accepted(bytes, slots) && more != []
    ensures !Accepted(bytes + more, later)
  {
    hide Parsing;
    StaleAcceptsLess(bytes, slots);
    PrefixFree(bytes, more);
    if Accepted(bytes + more, later) {
      StaleAcceptsLess(bytes + more, later);
    }
  }

  // ---------------------------------------------------------------- statuses

  lemma {:induction false} ItemsStatus(s: seq<byte>, n: nat, size: nat, short: Status, done: seq<seq<byte>>)
    requires |done| <= n && TakeItems(s, n, size, short, done).Fail?
    ensures TakeItems(s, n, size, short, done).status == short
    decreases n - |done|
  {
    if |s| >= size { ItemsStatus(s[size..], n, size, short, done + [s[..size]]); }
  }

  lemma ListStatus(s: seq<byte>, present: bool, size: nat, short: Status, large: Status, shortItem: Status)
    requires TakeList(s, present, size, short, large, shortItem).Fail?
    ensures TakeList(s, present, size, short, large, shortItem).status in {short, large, shortItem}
  {
    hide TakeItems;
    var v := TakeVarint(s, short);
    if v.Parse? && v.value.value <= MAX_SIGNER_SUB_ITEMS { ItemsStatus(v.rest, v.value.value, size, shortItem, []); }
  }

  lemma ScopeStatus(s: seq<byte>, account: seq<byte>)
    requires TakeScope(s, account).Fail?
    ensures TakeScope(s, account).status !in {SignerAllowedGroupsParsingError, VersionParsingError, ParsingOk}
  {
    hide TakeList;
    if s != [] {
      var scope := s[..1][0];
      var contracts := TakeList(s[1..], HasContracts(scope), UINT160_LEN, SignerAllowedContractsLengthParsingError,
        SignerAllowedContractsLengthValueError, SignerAllowedContractParsingError);
      if contracts.Fail? {
        ListStatus(s[1..], HasContracts(scope), UINT160_LEN, SignerAllowedContractsLengthParsingError,
          SignerAllowedContractsLengthValueError, SignerAllowedContractParsingError);
      } else if TakeList(contracts.rest, HasGroups(scope), ECPOINT_LEN, SignerAllowedGroupsLengthParsingError,
          SignerAllowedGroupsLengthValueError, SignerAllowedContractParsingError).Fail? {
        ListStatus(contracts.rest, HasGroups(scope), ECPOINT_LEN, SignerAllowedGroupsLengthParsingError,
          SignerAllowedGroupsLengthValueError, SignerAllowedContractParsingError);
      }
    }
  }

  lemma {:induction false} SignersStatus(s: seq<byte>, n: nat, done: seq<Signer>)
    requires |done| <= n && TakeSigners(s, n, done).Fail?
    ensures TakeSigners(s, n, done).status !in {SignerAllowedGroupsParsingError, VersionParsingError, ParsingOk}
    decreases n - |done|
  {
    hide TakeScope;
    var g := TakeSigner(s, done);
    if g.Parse? {
      SignersStatus(g.rest, n, done + [g.value]);
    } else if |s| >= UINT160_LEN && TakeScope(s[UINT160_LEN..], s[..UINT160_LEN]).Fail? {
      ScopeStatus(s[UINT160_LEN..], s[..UINT160_LEN]);
    }
  }

  lemma {:induction false} AttributesStatus(s: seq<byte>, n: nat, slots: Slots, done: seq<byte>)
    requires |done| <= n <= MAX_ATTRIBUTES && TakeAttributes(s, n, slots, done).Fail?
    ensures TakeAttributes(s, n, slots, done).status in {AttributesUnsupportedType, AttributesDuplicateType}
    decreases n - |done|
  {
    if s != [] && s[..1][0] == HIGH_PRIORITY && !(exists j :: 0 <= j < n && slots[j] == HIGH_PRIORITY) {
      AttributesStatus(s[1..], n, slots[|done| := HIGH_PRIORITY], done + [HIGH_PRIORITY]);
    }
  }

  lemma CountedSignersStatus(s: seq<byte>)
    requires TakeCountedSigners(s).Fail?
    ensures TakeCountedSigners(s).status !in {SignerAllowedGroupsParsingError, VersionParsingError, ParsingOk}
  {
    hide TakeSigners, Parsed;
    var v := TakeVarint(s, SignerLengthParsingError);
    if v.Parse? && MIN_TX_SIGNERS <= v.value.value <= MAX_TX_SIGNERS { SignersStatus(v.rest, v.value.value, []); }
  }

  lemma CountedAttributesStatus(s: seq<byte>, slots: Slots)
    requires TakeCountedAttributes(s, slots).Fail?
    ensures TakeCountedAttributes(s, slots).status !in {SignerAllowedGroupsParsingError, VersionParsingError, ParsingOk}
  {
    hide TakeAttributes, Parsed;
    var v := TakeVarint(s, AttributesLengthParsingError);
    if v.Parse? && v.value.value <= MAX_ATTRIBUTES { AttributesStatus(v.rest, v.value.value, slots, []); }
  }

  /** The status meant for a truncated group is never returned, that for a missing version only for an
      empty buffer. */
  lemma NeverReported(bytes: seq<byte>, slots: Slots)
    ensures Parsing(bytes, slots) != Fail(SignerAllowedGroupsParsingError) && Parsing(bytes, slots) != Fail(ParsingOk)
    ensures Parsing(bytes, slots) == Fail(VersionParsingError) <==> bytes == []
  {
    hide TakeHeader, TakeCountedSigners, TakeCountedAttributes, Parsed;
    var h := TakeHeader(bytes);
    HeaderStatus(bytes);
    if h.Parse? {
      var signers := TakeCountedSigners(h.rest);
      if signers.Fail? {
        CountedSignersStatus(h.rest);
      } else if TakeCountedAttributes(signers.rest, slots).Fail? {
        CountedAttributesStatus(signers.rest, slots);
      }
    }
  }

  lemma HeaderStatus(s: seq<byte>)
    ensures TakeHeader(s) != Fail(SignerAllowedGroupsParsingError) && TakeHeader(s) != Fail(ParsingOk)
    ensures TakeHeader(s) == Fail(VersionParsingError) <==> s == []
  {
    hide Le, Pow;
  }

  // ---------------------------------------------------------------- more bytes

  lemma HeaderExtends(s: seq<byte>, more: seq<byte>)
    requires TakeHeader(s).Parse?
    ensures TakeHeader(s + more) == Parse(TakeHeader(s).value, TakeHeader(s).rest + more)
  {
    hide TakeHeader, HeaderBytes;
    HeaderSound(s);
    var p := TakeHeader(s);
    assert s + more == HeaderBytes(p.value) + (p.rest + more);
    HeaderComplete(p.value, p.rest + more);
  }

  lemma VarintExtends(s: seq<byte>, more: seq<byte>, short: Status)
    requires TakeVarint(s, short).Parse?
    ensures TakeVarint(s + more, short) == Parse(TakeVarint(s, short).value, TakeVarint(s, short).rest + more)
  {
    hide TakeVarint, Written, Fits;
    VarintSound(s, short);
    var p := TakeVarint(s, short);
    assert s + more == Written(p.value) + (p.rest + more);
    VarintComplete(p.value, p.rest + more, short);
  }

  lemma SignersExtend(s: seq<byte>, n: nat, more: seq<byte>)
    requires TakeSigners(s, n, []).Parse?
    ensures TakeSigners(s + more, n, []) == Parse(TakeSigners(s, n, []).value, TakeSigners(s, n, []).rest + more)
  {
    hide TakeSigners, SignersBytes, WellFormedSigner;
    SignersSound(s, n, []);
    var p := TakeSigners(s, n, []);
    assert p.value[0..] == p.value && p.value[..0] == [];
    assert s + more == SignersBytes(p.value) + (p.rest + more);
    SignersComplete(p.value, 0, p.rest + more);
  }

  lemma CountedSignersExtend(s: seq<byte>, more: seq<byte>)
    requires TakeCountedSigners(s).Parse?
    ensures TakeCountedSigners(s + more) == Parse(TakeCountedSigners(s).value, TakeCountedSigners(s).rest + more)
  {
    hide TakeVarint, TakeSigners;
    VarintExtends(s, more, SignerLengthParsingError);
    var v := TakeVarint(s, SignerLengthParsingError);
    SignersExtend(v.rest, v.value.value, more);
  }

  /** More bytes do not take back that an attribute was reached. */
  lemma ReachesExtends(bytes: seq<byte>, more: seq<byte>)
    requires ReachesAttribute(bytes)
    ensures ReachesAttribute(bytes + more)
  {
    hide TakeHeader, TakeCountedSigners, TakeVarint;
    HeaderExtends(bytes, more);
    CountedSignersExtend(TakeHeader(bytes).rest, more);
    VarintExtends(TakeCountedSigners(TakeHeader(bytes).rest).rest, more, AttributesLengthParsingError);
  }

  /** An accepted transaction has an attribute exactly when its bytes reach one. */
  lemma AcceptedReaches(bytes: seq<byte>)
    requires Accepted(bytes, FRESH)
    ensures Parsing(bytes, FRESH).value.attributes != [] <==> ReachesAttribute(bytes)
  {
    hide TakeHeader, TakeCountedSigners, TakeVarint, TakeAttributes, TakeScript;
    var start := AttributesStart(bytes);
    AttributesSound(start.rest, start.value.value, FRESH);
  }

  /** A parse, accepted or not, marks the first slot exactly when it reaches an attribute, and never
      the second. */
  lemma SlotsAfterIs(bytes: seq<byte>, slots: Slots)
    requires |bytes| <= MAX_TRANSACTION_LEN && slots[1] != HIGH_PRIORITY
    ensures SlotsAfter(bytes, slots) == if ReachesAttribute(bytes) then slots[0 := HIGH_PRIORITY] else slots
  {
    hide TakeHeader, TakeCountedSigners, TakeVarint;
    var start := AttributesStart(bytes);
    if ReachesAttribute(bytes) && slots[0] != HIGH_PRIORITY {
      var next := slots[0 := HIGH_PRIORITY];
      assert forall j :: 0 <= j < start.value.value ==> slots[j] != HIGH_PRIORITY;
      assert AttributesLeft(start.rest[1..], start.value.value, next, [] + [HIGH_PRIORITY]) == next by {
        assert next[0] == HIGH_PRIORITY;
      }
    }
  }

  /** With the first slot marked, bytes that reach an attribute are refused as having it twice. */
  lemma MarkedIsDuplicate(bytes: seq<byte>, slots: Slots)
    requires |bytes| <= MAX_TRANSACTION_LEN && ReachesAttribute(bytes) && slots[0] == HIGH_PRIORITY
    ensures Parsing(bytes, slots) == Fail(AttributesDuplicateType)
  {
    hide TakeHeader, TakeCountedSigners, TakeVarint, TakeScript;
    var start := AttributesStart(bytes);
    assert Take(start.rest, 1, AttributesUnsupportedType).value[0] == HIGH_PRIORITY;
    assert TakeAttributes(start.rest, start.value.value, slots, []) == Fail(AttributesDuplicateType);
  }

  /** Once the script's end has been reached, and was not the end of a buffer that fits, or was and
      more bytes follow, no further bytes make the buffer acceptable. */
  lemma BeyondScript(bytes: seq<byte>, slots: Slots, more: seq<byte>, later: Slots)
    requires TakeTransaction(bytes, slots).Parse? && TakeTransaction(bytes, slots).rest + more != []
    ensures !Accepted(bytes + more, later)
  {
    hide TakeTransaction, Serialize, WellFormed;
    TransactionSound(bytes, slots);
    var p := TakeTransaction(bytes, slots);
    assert bytes + more == Serialize(p.value) + (p.rest + more);
    TransactionComplete(p.value, p.rest + more);
    if Accepted(bytes + more, later) {
      StaleAcceptsLess(bytes + more, later);
    }
  }
}
