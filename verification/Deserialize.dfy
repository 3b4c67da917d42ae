/** The transaction structure and the two parsers that fill it: transaction_deserialize
    (src/transaction/deserialize.c) and try_parse_transfer_script (src/transaction/tx_utils.c). */
module Deserialize {
  import opened Bytes
  import opened Numerals
  import opened Varint
  import opened Buffers
  import opened Grammar
  import opened GrammarTheorems
  import opened Transfer
  import opened Address

  /** signer_t. A pointer into the raw transaction is the offset it points at. */
  datatype SignerSlot = SignerSlot(
    account: nat, scope: byte,
    contracts: seq<nat>, contractsSize: nat,
    groups: seq<nat>, groupsSize: nat)

  const EMPTY_SLOT := SignerSlot(0, 0, [0, 0], 0, [0, 0], 0)

  ghost predicate SliceAt(bytes: seq<byte>, at: nat, slice: seq<byte>) {
    at + |slice| <= |bytes| && bytes[at..at + |slice|] == slice
  }

  ghost predicate SlicesAt(bytes: seq<byte>, offsets: seq<nat>, slices: seq<seq<byte>>) {
    |slices| <= |offsets| && forall j :: 0 <= j < |slices| ==> SliceAt(bytes, offsets[j], slices[j])
  }

  /** The offsets hold the items of a list and the size says how many; an absent list has size 0. */
  ghost predicate ListAt(bytes: seq<byte>, offsets: seq<nat>, size: nat, l: Items) {
    match l
    case Absent => size == 0
    case Items(_, items) => size == |items| && SlicesAt(bytes, offsets, items)
  }

  ghost predicate SlotHolds(bytes: seq<byte>, slot: SignerSlot, g: Signer) {
    SliceAt(bytes, slot.account, g.account) && slot.scope == g.scope
    && ListAt(bytes, slot.contracts, slot.contractsSize, g.contracts)
    && ListAt(bytes, slot.groups, slot.groupsSize, g.groups)
  }

  ghost predicate SlotsHold(bytes: seq<byte>, slots: seq<SignerSlot>, signers: seq<Signer>) {
    |signers| <= |slots| && forall i :: 0 <= i < |signers| ==> SlotHolds(bytes, slots[i], signers[i])
  }

  /** The unread bytes when the signers start. */
  ghost function SignersStart(bytes: seq<byte>): Result<Varint> {
    var (h, s1) :- TakeHeader(bytes);
    TakeVarint(s1, SignerLengthParsingError)
  }

  /** The scope of signer i, if the bytes reach that far. */
  ghost function ScopeAt(bytes: seq<byte>, i: nat): Option<byte> {
    var start := SignersStart(bytes);
    if start.Fail? then None else
      var before := TakeSigners(start.rest, i, []);
      if before.Fail? || |before.rest| <= UINT160_LEN then None else Some(before.rest[UINT160_LEN])
  }

  /** A nonzero sub-list size in a slot belongs to a signer of these bytes that has such a list. */
  ghost predicate SlotsBelong(slots: seq<SignerSlot>, bytes: seq<byte>) {
    |slots| == MAX_TX_SIGNERS && forall i :: 0 <= i < MAX_TX_SIGNERS ==> SlotBelongs(slots[i], bytes, i)
  }

  ghost predicate SlotBelongs(slot: SignerSlot, bytes: seq<byte>, i: nat) {
    (slot.contractsSize != 0 ==> ScopeAt(bytes, i).Some? && HasContracts(ScopeAt(bytes, i).value))
    && (slot.groupsSize != 0 ==> ScopeAt(bytes, i).Some? && HasGroups(ScopeAt(bytes, i).value))
  }

  /** The script, if the parser gets to the end of it. */
  ghost function ScriptReached(bytes: seq<byte>, slots: Slots): Option<seq<byte>> {
    if |bytes| > MAX_TRANSACTION_LEN || TakeTransaction(bytes, slots).Fail? then None
    else Some(TakeTransaction(bytes, slots).value.script)
  }

  /** What a parse that got to the given script, if to any, leaves in the transfer fields. */
  ghost predicate TransferFields(sha256: Hash, script: Option<seq<byte>>, before: TransactionValue,
                                 after: TransactionValue)
  {
    match script
    case None =>
      after.isSystemAssetTransfer == before.isSystemAssetTransfer && after.isNeo == before.isNeo
      && after.amount == before.amount && after.dstAddress == before.dstAddress
    case Some(code) =>
      after.isSystemAssetTransfer == (before.isSystemAssetTransfer || Recognised(code).Some?)
      && after.isNeo == (before.isNeo || NeoReached(code))
      && after.amount == AmountLeft(code, before.amount)
      && after.dstAddress == DestinationText(sha256, code, before.dstAddress)
  }

  ghost function DestinationText(sha256: Hash, code: seq<byte>, before: string): string {
    match DestinationLeft(code)
    case None => before
    case Some(destination) => AddressText(sha256, destination)
  }

  /** The accounts of the signers done so far are in place, and when exact all their fields. */
  ghost predicate Earlier(bytes: seq<byte>, slots: seq<SignerSlot>, done: seq<Signer>, exact: bool) {
    |done| <= |slots|
    && (forall k :: 0 <= k < |done| ==> |done[k].account| == UINT160_LEN)
    && (forall k :: 0 <= k < |done| ==> SliceAt(bytes, slots[k].account, done[k].account))
    && (exact ==> forall k :: 0 <= k < |done| ==> SlotHolds(bytes, slots[k], done[k]))
  }

  lemma EarlierInexact(bytes: seq<byte>, slots: seq<SignerSlot>, done: seq<Signer>, exact: bool)
    requires Earlier(bytes, slots, done, exact)
    ensures Earlier(bytes, slots, done, false)
  {
  }

  lemma EarlierHold(bytes: seq<byte>, slots: seq<SignerSlot>, done: seq<Signer>, exact: bool)
    requires Earlier(bytes, slots, done, exact)
    ensures |done| <= |slots|
    ensures exact ==> forall k :: 0 <= k < |done| ==> SlotHolds(bytes, slots[k], done[k])
  {
  }

  lemma OneMore(bytes: seq<byte>, before: seq<SignerSlot>, after: seq<SignerSlot>, done: seq<Signer>, g: Signer,
                exact: bool)
    requires Earlier(bytes, before, done, exact) && |done| < |before| == |after|
    requires forall k :: 0 <= k < |done| ==> after[k] == before[k]
    requires |g.account| == UINT160_LEN && SliceAt(bytes, after[|done|].account, g.account)
    requires exact ==> SlotHolds(bytes, after[|done|], g)
    ensures Earlier(bytes, after, done + [g], exact)
  {
    hide SlotHolds, SliceAt;
  }

  lemma StillBelong(bytes: seq<byte>, before: seq<SignerSlot>, after: seq<SignerSlot>, i: nat)
    requires |before| == |after| == MAX_TX_SIGNERS && i < MAX_TX_SIGNERS
    requires forall k :: 0 <= k < MAX_TX_SIGNERS && k != i ==> after[k] == before[k]
    requires SlotBelongs(before[i], bytes, i) ==> SlotBelongs(after[i], bytes, i)
    ensures SlotsBelong(before, bytes) ==> SlotsBelong(after, bytes) && SlotBelongs(before[i], bytes, i)
  {
    hide SlotBelongs;
  }

  lemma ReachesScope(bytes: seq<byte>, i: nat, rest: seq<byte>, done: seq<Signer>)
    requires SignersStart(bytes).Parse? && TakeSigners(SignersStart(bytes).rest, i, []) == Parse(done, rest)
    ensures |rest| > UINT160_LEN ==> ScopeAt(bytes, i) == Some(rest[UINT160_LEN])
  {
    hide SignersStart, TakeSigners;
  }

  lemma NoSigners(s: seq<byte>, bytes: seq<byte>, slots: seq<SignerSlot>, exact: bool)
    ensures TakeSigners(s, 0, []) == Parse([], s)
    ensures Earlier(bytes, slots, [], exact)
  {
  }

  /** The contents of a transaction_t. */
  datatype TransactionValue = TransactionValue(
    version: byte, nonce: u32, systemFee: s64, networkFee: s64, validUntilBlock: u32,
    signers: seq<SignerSlot>, signersSize: nat, attributes: Slots, attributesSize: nat,
    script: nat, scriptSize: u16,
    isSystemAssetTransfer: bool, isNeo: bool, amount: s64, dstAddress: string)

  const ZEROED := TransactionValue(0, 0, 0, 0, 0, [EMPTY_SLOT, EMPTY_SLOT], 0, FRESH, 0, 0, 0, false, false, 0,
    NoAddress())

  function NoAddress(): string {
    seq(ADDRESS_LEN, _ => '\0')
  }

  /** The fields other than those of the transfer script are those of t, read from bytes. */
  ghost predicate Holds(v: TransactionValue, bytes: seq<byte>, t: Transaction) {
    v.version == 0 && v.nonce == t.header.nonce && v.systemFee == t.header.systemFee
    && v.networkFee == t.header.networkFee && v.validUntilBlock == t.header.validUntilBlock
    && v.signersSize == |t.signers| && SlotsHold(bytes, v.signers, t.signers)
    && v.attributesSize == |t.attributes| <= MAX_ATTRIBUTES && v.attributes[..v.attributesSize] == t.attributes
    && v.scriptSize == |t.script| && SliceAt(bytes, v.script, t.script)
  }

  /** What transaction_deserialize promises: the status is exactly that of the grammar's parser; the
      fields of an accepted transaction are the ones the bytes spell; the attribute slots hold what this
      parse or an earlier one put there; the transfer fields are touched only once the whole script has
      been found, and then as far as it can be followed. */
  ghost predicate Deserialized(sha256: Hash, bytes: seq<byte>, before: TransactionValue, status: Status,
                               after: TransactionValue) {
    && (match Parsing(bytes, before.attributes)
        case Fail(failure) => status == failure != ParsingOk
        case Parse(t, rest) => status == ParsingOk && (SlotsBelong(before.signers, bytes) ==> Holds(after, bytes, t)))
    && (SlotsBelong(before.signers, bytes) ==> SlotsBelong(after.signers, bytes))
    && after.attributes == SlotsAfter(bytes, before.attributes)
    && TransferFields(sha256, ScriptReached(bytes, before.attributes), before, after)
  }

  /** A parse that stops short of the script's end leaves the transfer fields alone. */
  lemma NotParsed(sha256: Hash, bytes: seq<byte>, before: TransactionValue)
    ensures forall status, after: TransactionValue ::
              (if |bytes| > MAX_TRANSACTION_LEN then status == InvalidLengthError && after == before
               else TakeTransaction(bytes, before.attributes) == Fail(status) && status != ParsingOk
                    && TransferFields(sha256, None, before, after)
                    && after.attributes == SlotsAfter(bytes, before.attributes)
                    && (SlotsBelong(before.signers, bytes) ==> SlotsBelong(after.signers, bytes)))
              ==> Deserialized(sha256, bytes, before, status, after)
  {
    hide TakeTransaction, SlotsBelong, Holds;
  }

  /** One that gets there, and then parses the script. */
  lemma ParsedThrough(sha256: Hash, bytes: seq<byte>, before: TransactionValue, read: TransactionValue,
                      after: TransactionValue)
    requires |bytes| <= MAX_TRANSACTION_LEN && TakeTransaction(bytes, before.attributes).Parse?
    requires SlotsBelong(before.signers, bytes) ==>
               SlotsBelong(read.signers, bytes) && Holds(read, bytes, TakeTransaction(bytes, before.attributes).value)
    requires after == read.(isSystemAssetTransfer := after.isSystemAssetTransfer, isNeo := after.isNeo,
                            amount := after.amount, dstAddress := after.dstAddress)
    requires TransferFields(sha256, None, before, read) && read.attributes == SlotsAfter(bytes, before.attributes)
    requires TransferFields(sha256, Some(TakeTransaction(bytes, before.attributes).value.script), read, after)
    ensures Deserialized(sha256, bytes, before,
              if TakeTransaction(bytes, before.attributes).rest == [] then ParsingOk else InvalidLengthError, after)
  {
    hide TakeTransaction, SlotsBelong, SlotHolds, SliceAt, Recognised, AddressText;
  }

  /** transaction_t. */
  class TransactionStruct {
    var version: byte
    var nonce: u32
    var systemFee: s64
    var networkFee: s64
    var validUntilBlock: u32
    var signers: seq<SignerSlot>
    var signersSize: nat
    var attributes: Slots
    var attributesSize: nat
    var script: nat
    var scriptSize: u16
    var isSystemAssetTransfer: bool
    var isNeo: bool
    var amount: s64
    const dstAddress: array<char>

    ghost predicate Valid()
      reads this
    {
      dstAddress.Length == ADDRESS_LEN && |signers| == MAX_TX_SIGNERS
      && forall i :: 0 <= i < |signers| ==> |signers[i].contracts| == |signers[i].groups| == MAX_SIGNER_SUB_ITEMS
    }

    /** A zeroed structure. */
    constructor ()
      ensures Valid() && fresh(this) && fresh(dstAddress)
      ensures Value() == ZEROED
    {
      version, nonce, systemFee, networkFee, validUntilBlock := 0, 0, 0, 0, 0;
      signers, signersSize, attributes, attributesSize := [EMPTY_SLOT, EMPTY_SLOT], 0, FRESH, 0;
      script, scriptSize, isSystemAssetTransfer, isNeo, amount := 0, 0, false, false, 0;
      dstAddress := new char[ADDRESS_LEN](_ => '\0');
    }

    method Clear()
      requires Valid()
      modifies this, dstAddress
      ensures Valid() && Value() == ZEROED
    {
      version, nonce, systemFee, networkFee, validUntilBlock := 0, 0, 0, 0, 0;
      signers, signersSize, attributes, attributesSize := [EMPTY_SLOT, EMPTY_SLOT], 0, FRESH, 0;
      script, scriptSize, isSystemAssetTransfer, isNeo, amount := 0, 0, false, false, 0;
      forall i | 0 <= i < dstAddress.Length { dstAddress[i] := '\0'; }
      assert dstAddress[..] == NoAddress();
    }

    function Value(): TransactionValue
      reads this, dstAddress
    {
      TransactionValue(version, nonce, systemFee, networkFee, validUntilBlock, signers, signersSize, attributes,
        attributesSize, script, scriptSize, isSystemAssetTransfer, isNeo, amount, dstAddress[..])
    }

    // ---------------------------------------------------------------- transaction_deserialize

    method ReadFees(buf: Buffer) returns (status: Status)
      requires buf.Valid()
      modifies this`systemFee, this`networkFee, buf
      ensures buf.Valid()
      ensures TakeFees(old(buf.Rest())) == Ended(status, (systemFee, networkFee), buf.Rest())
    {
      hide TakeFee;
      status, systemFee := ReadFee(buf, SystemFeeParsingError, SystemFeeValueError);
      if status == ParsingOk {
        status, networkFee := ReadFee(buf, NetworkFeeParsingError, NetworkFeeValueError);
      }
    }

    /** Nonce, fees, height. */
    method ReadFields(buf: Buffer) returns (status: Status)
      requires buf.Valid()
      modifies this`nonce, this`systemFee, this`networkFee, this`validUntilBlock, buf
      ensures buf.Valid()
      ensures TakeFields(old(buf.Rest()))
              == Ended(status, Header(nonce, systemFee, networkFee, validUntilBlock), buf.Rest())
    {
      hide TakeU32, TakeFees;
      status, nonce := ReadU32(buf, NonceParsingError);
      if status == ParsingOk {
        status := ReadFees(buf);
        if status == ParsingOk {
          status, validUntilBlock := ReadU32(buf, ValidUntilBlockParsingError);
        }
      }
    }

    /** Version, nonce, fees, height. */
    method ReadHeader(buf: Buffer) returns (status: Status)
      requires Valid() && buf.Valid()
      modifies this`version, this`nonce, this`systemFee, this`networkFee, this`validUntilBlock, buf
      ensures Valid() && buf.Valid()
      ensures TakeHeader(old(buf.Rest()))
              == Ended(status, Header(nonce, systemFee, networkFee, validUntilBlock), buf.Rest())
      ensures status == ParsingOk ==> version == 0
    {
      hide TakeFields;
      var ok;
      ok, version := buf.ReadU8();
      if !ok { return VersionParsingError; }
      if version > 0 { return VersionValueError; }
      status := ReadFields(buf);
    }

    /** Signer i, the earlier ones being done. */
    method ReadSigner(buf: Buffer, i: nat, ghost done: seq<Signer>) returns (status: Status)
      requires Valid() && buf.Valid() && i == |done| < MAX_TX_SIGNERS
      requires Earlier(buf.ptr, signers, done, false)
      requires |buf.Rest()| > UINT160_LEN ==> ScopeAt(buf.ptr, i) == Some(buf.Rest()[UINT160_LEN])
      modifies this`signers, buf
      ensures Valid() && buf.Valid()
      ensures forall k :: 0 <= k < MAX_TX_SIGNERS && k != i ==> signers[k] == old(signers[k])
      ensures old(SlotBelongs(signers[i], buf.ptr, i)) ==> SlotBelongs(signers[i], buf.ptr, i)
      ensures match TakeSigner(old(buf.Rest()), done)
              case Fail(failure) => status == failure != ParsingOk
              case Parse(g, rest) =>
                status == ParsingOk && buf.Rest() == rest
                && SliceAt(buf.ptr, signers[i].account, g.account)
                && (old(SlotBelongs(signers[i], buf.ptr, i)) ==> SlotHolds(buf.ptr, signers[i], g))
    {
      hide TakeScope, ScopeAt, SlotHolds;
      ghost var start := buf.Rest();
      signers := signers[i := signers[i].(account := buf.offset)];
      var ok := buf.SeekCur(UINT160_LEN);
      if !ok { return SignerAccountParsingError; }
      var account := signers[i].account;
      assert buf.ptr[account..account + UINT160_LEN] == start[..UINT160_LEN];
      for s := 0 to i
        invariant forall k :: 0 <= k < s ==> done[k].account != start[..UINT160_LEN]
      {
        if buf.ptr[signers[s].account..signers[s].account + UINT160_LEN] == buf.ptr[account..account + UINT160_LEN] {
          return SignerAccountDuplicateError;
        }
      }

      var slot;
      status, slot := ReadScope(buf, signers[i], i, start[..UINT160_LEN]);
      signers := signers[i := slot];
    }

    /** The signers: their count, then one after the other. */
    method ReadSigners(buf: Buffer) returns (status: Status, ghost g: (nat, seq<Signer>))
      requires Valid() && buf.Valid()
      requires TakeHeader(buf.ptr).Parse? && TakeHeader(buf.ptr).rest == buf.Rest()
      modifies this`signers, this`signersSize, buf
      ensures Valid() && buf.Valid()
      ensures old(SlotsBelong(signers, buf.ptr)) ==> SlotsBelong(signers, buf.ptr)
      ensures TakeCountedSigners(old(buf.Rest())) == Ended(status, g, buf.Rest())
      ensures status == ParsingOk ==>
                signersSize == |g.1| && (old(SlotsBelong(signers, buf.ptr)) ==> SlotsHold(buf.ptr, signers, g.1))
    {
      g := (0, []);
      hide TakeHeader, TakeVarint, TakeSigner, TakeSigners, SlotHolds, SlotsBelong, ScopeAt, Earlier;
      var count;
      ghost var width;
      status, count, width := ReadCount(buf, SignerLengthParsingError);
      if status != ParsingOk { return; }
      if count < MIN_TX_SIGNERS || count > MAX_TX_SIGNERS { return SignerLengthValueError, g; }
      signersSize := count;
      ghost var start := buf.Rest();
      ghost var exact := SlotsBelong(signers, buf.ptr);
      ghost var done: seq<Signer> := [];
      NoSigners(start, buf.ptr, signers, exact);
      for i := 0 to signersSize
        invariant Valid() && buf.Valid() && signersSize == count && |done| == i
        invariant TakeSigners(start, i, []) == Parse(done, buf.Rest())
        invariant exact ==> SlotsBelong(signers, buf.ptr)
        invariant Earlier(buf.ptr, signers, done, exact)
      {
        SignersNext(start, i, count);
        ghost var next, slots := TakeSigner(buf.Rest(), done), signers;
        EarlierInexact(buf.ptr, signers, done, exact);
        ReachesScope(buf.ptr, i, buf.Rest(), done);
        if next.Parse? { SignerSound(buf.Rest(), done); }
        status := ReadSigner(buf, i, done);
        StillBelong(buf.ptr, slots, signers, i);
        if status != ParsingOk { return; }
        OneMore(buf.ptr, slots, signers, done, next.value, exact);
        done := done + [next.value];
      }
      EarlierHold(buf.ptr, signers, done, exact);
      return ParsingOk, (width, done);
    }

    /** The duplicate check: over every slot in use, filled in this parse or not. */
    method IsUsed(kind: byte) returns (used: bool)
      requires attributesSize <= MAX_ATTRIBUTES
      ensures used <==> exists j :: 0 <= j < attributesSize && attributes[j] == kind
    {
      for j := 0 to attributesSize
        invariant forall k :: 0 <= k < j ==> attributes[k] != kind
      {
        if attributes[j] == kind { return true; }
      }
      return false;
    }

    /** The attributes: their count, then their types, each compared with every slot in use. */
    method ReadAttributes(buf: Buffer) returns (status: Status, ghost a: (nat, seq<byte>))
      requires Valid() && buf.Valid()
      modifies this`attributes, this`attributesSize, buf
      ensures Valid() && buf.Valid()
      ensures TakeCountedAttributes(old(buf.Rest()), old(attributes)) == Ended(status, a, buf.Rest())
      ensures status == ParsingOk ==> attributesSize == |a.1| <= MAX_ATTRIBUTES && attributes[..attributesSize] == a.1
      ensures attributes == CountedAttributesLeft(old(buf.Rest()), old(attributes))
    {
      hide TakeVarint, Le, LeBytes, Pow;
      a := (0, []);
      var count;
      ghost var width;
      status, count, width := ReadCount(buf, AttributesLengthParsingError);
      if status != ParsingOk { return; }
      if count > MAX_ATTRIBUTES { return AttributesLengthValueError, a; }
      attributesSize := count;
      ghost var start, slots := buf.Rest(), attributes;
      ghost var done: seq<byte> := [];
      for i := 0 to attributesSize
        invariant Valid() && buf.Valid() && attributesSize == count && |done| == i
        invariant TakeAttributes(start, count, slots, []) == TakeAttributes(buf.Rest(), count, attributes, done)
        invariant AttributesLeft(start, count, slots, []) == AttributesLeft(buf.Rest(), count, attributes, done)
        invariant attributes[..i] == done
      {
        var ok, kind := buf.ReadU8();
        if !ok || kind != HIGH_PRIORITY { return AttributesUnsupportedType, a; }
        var used := IsUsed(kind);
        if used { return AttributesDuplicateType, a; }
        attributes := attributes[i := kind];
        done := done + [kind];
      }
      a := (width, done);
    }

    /** The script: its length, then its place. */
    method ReadScript(buf: Buffer) returns (status: Status, ghost c: (nat, seq<byte>))
      requires Valid() && buf.Valid()
      modifies this`script, this`scriptSize, buf
      ensures Valid() && buf.Valid()
      ensures TakeScript(old(buf.Rest())) == Ended(status, c, buf.Rest())
      ensures status == ParsingOk ==> scriptSize == |c.1| && SliceAt(buf.ptr, script, c.1)
    {
      hide TakeVarint;
      c := (0, []);
      var count;
      ghost var width;
      status, count, width := ReadCount(buf, ScriptLengthParsingError);
      if status != ParsingOk { return; }
      ghost var start := buf.Rest();
      script := buf.offset;
      if count > 0xFFFF || count == 0 { return ScriptLengthValueError, c; }
      var ok := buf.SeekCur(count);
      if !ok { return ScriptLengthValueError, c; }
      scriptSize := count;
      c := (width, start[..count]);
      assert buf.ptr[script..script + count] == start[..count];
    }

    /** The signers and the attributes. */
    method ReadLists(buf: Buffer) returns (status: Status, ghost g: (nat, seq<Signer>), ghost a: (nat, seq<byte>))
      requires Valid() && buf.Valid()
      requires TakeHeader(buf.ptr).Parse? && TakeHeader(buf.ptr).rest == buf.Rest()
      modifies this`signers, this`signersSize, this`attributes, this`attributesSize, buf
      ensures Valid() && buf.Valid()
      ensures old(SlotsBelong(signers, buf.ptr)) ==> SlotsBelong(signers, buf.ptr)
      ensures TakeLists(old(buf.Rest()), old(attributes)) == Ended(status, (g, a), buf.Rest())
      ensures status == ParsingOk ==>
                signersSize == |g.1| && (old(SlotsBelong(signers, buf.ptr)) ==> SlotsHold(buf.ptr, signers, g.1))
      ensures status == ParsingOk ==> attributesSize == |a.1| <= MAX_ATTRIBUTES && attributes[..attributesSize] == a.1
      ensures attributes == ListsLeft(old(buf.Rest()), old(attributes))
    {
      hide CountedAttributesLeft, TakeHeader, TakeCountedSigners, TakeCountedAttributes, SlotsBelong, SlotsHold;
      a := (0, []);
      status, g := ReadSigners(buf);
      if status == ParsingOk {
        status, a := ReadAttributes(buf);
      }
    }

    /** Everything before the script. */
    method ReadFront(buf: Buffer) returns (status: Status, ghost g: (nat, seq<Signer>), ghost a: (nat, seq<byte>))
      requires Valid() && buf.Valid() && buf.offset == 0
      modifies this`version, this`nonce, this`systemFee, this`networkFee, this`validUntilBlock,
               this`signers, this`signersSize, this`attributes, this`attributesSize, buf
      ensures Valid() && buf.Valid()
      ensures old(SlotsBelong(signers, buf.ptr)) ==> SlotsBelong(signers, buf.ptr)
      ensures TakeFront(buf.ptr, old(attributes))
              == Ended(status, (Header(nonce, systemFee, networkFee, validUntilBlock), (g, a)), buf.Rest())
      ensures status == ParsingOk ==>
                version == 0 && signersSize == |g.1|
                && (old(SlotsBelong(signers, buf.ptr)) ==> SlotsHold(buf.ptr, signers, g.1))
      ensures status == ParsingOk ==> attributesSize == |a.1| <= MAX_ATTRIBUTES && attributes[..attributesSize] == a.1
      ensures attributes == TransactionLeft(buf.ptr, old(attributes))
    {
      hide ListsLeft, TakeHeader, TakeLists, SlotsBelong, SlotsHold;
      g, a := (0, []), (0, []);
      assert buf.Rest() == buf.ptr;
      status := ReadHeader(buf);
      if status == ParsingOk {
        status, g, a := ReadLists(buf);
      }
    }

    /** Everything up to the end of the script. */
    method ReadTransaction(buf: Buffer) returns (status: Status, ghost t: Transaction)
      requires Valid() && buf.Valid() && buf.offset == 0
      modifies this, buf
      ensures Valid() && buf.Valid()
      ensures old(SlotsBelong(signers, buf.ptr)) ==> SlotsBelong(signers, buf.ptr)
      ensures TakeTransaction(buf.ptr, old(attributes)) == Ended(status, t, buf.Rest())
      ensures status == ParsingOk ==>
                scriptSize == |t.script| && SliceAt(buf.ptr, script, t.script)
                && (old(SlotsBelong(signers, buf.ptr)) ==> Holds(Value(), buf.ptr, t))
      ensures isSystemAssetTransfer == old(isSystemAssetTransfer) && isNeo == old(isNeo) && amount == old(amount)
      ensures attributes == TransactionLeft(buf.ptr, old(attributes))
    {
      hide TransactionLeft, TakeFront, TakeScript, SlotsBelong, SlotsHold, SliceAt;
      ghost var g, a, c;
      status, g, a := ReadFront(buf);
      c := (0, []);
      if status == ParsingOk {
        status, c := ReadScript(buf);
      }
      t := Transaction(Header(nonce, systemFee, networkFee, validUntilBlock), g.0, g.1, a.0, a.1, c.0, c.1);
    }

    /** Parses a whole buffer into the structure. */
    method TransactionDeserialize(sha256: Hash, buf: Buffer) returns (status: Status)
      requires Valid() && buf.Valid() && buf.offset == 0
      modifies this, dstAddress, buf
      ensures Valid() && Deserialized(sha256, buf.ptr, old(Value()), status, Value())
    {
      hide TakeTransaction, TransactionLeft, SlotsBelong, Holds, Recognised, Deserialized, DestinationText;
      ghost var before := Value();
      NotParsed(sha256, buf.ptr, before);
      if |buf.ptr| > MAX_TRANSACTION_LEN { return InvalidLengthError; }
      ghost var t;
      status, t := ReadTransaction(buf);
      if status == ParsingOk {
        ghost var read := Value();
        var code := new Buffer(buf.ptr[script..script + scriptSize]);
        TryParseTransferScript(sha256, code);
        status := if buf.offset == |buf.ptr| then ParsingOk else InvalidLengthError;
        ParsedThrough(sha256, buf.ptr, before, read, Value());
      }
    }

    /** The amount: the operand of one of the supported pushes. */
    method ReadAmount(code: Buffer) returns (ok: bool)
      requires code.Valid()
      modifies this`amount, code
      ensures code.Valid() && ok == TakePush(old(code.Rest())).Some?
      ensures ok ==> code.Rest() == TakePush(old(code.Rest())).value.1
      ensures amount == if ok then Amount(TakePush(old(code.Rest())).value.0) else old(amount)
    {
      var u8;
      ok, u8 := code.ReadU8();
      if !ok { return; }
      var operand: s64 := 0;
      if u8 >= 0x10 && u8 <= 0x20 {
        operand := u8 - 0x10;
      } else if u8 == 0x00 {
        var signed;
        ok, signed := code.ReadS8();
        // The union's unsigned member is read back.
        operand := if signed < 0 then (signed as int) + 0x100 else signed;
      } else if u8 == 0x01 {
        ok, operand := code.ReadS16(false);
      } else if u8 == 0x02 {
        ok, operand := code.ReadS32(false);
      } else if u8 == 0x03 {
        ok, operand := code.ReadS64(false);
      } else {
        return false;
      }
      if ok { amount := operand; }
    }

    /** Up to the source address. */
    method ReadArguments(sha256: Hash, code: Buffer) returns (ok: bool)
      requires Valid() && code.Valid()
      modifies this`amount, dstAddress, code
      ensures code.Valid() && ok == TakeArguments(old(code.Rest())).Some?
      ensures ok ==> code.Rest() == TakeArguments(old(code.Rest())).value.1
      ensures amount == AmountLeft(old(code.Rest()), old(amount))
      ensures dstAddress[..] == DestinationText(sha256, old(code.Rest()), old(dstAddress[..]))
    {
      hide TakePush, TakePushedHash, Expect, AddressText;
      ok := Matches(code, PUSHNULL);
      if ok {
        ok := ReadAmount(code);
        if ok {
          var destination, source;
          ok, destination := ReadPushedHash(code);
          if ok {
            ScriptHashToAddress(sha256, dstAddress, dstAddress.Length, destination);
            ok, source := ReadPushedHash(code);
          }
        }
      }
    }

    /** From the fixed sequence to the end. */
    method ReadCall(code: Buffer) returns (ok: bool)
      requires code.Valid() && scriptSize == |code.ptr|
      modifies this`isNeo, code
      ensures ok == TakeCall(old(code.Rest())).Some?
      ensures isNeo == (old(isNeo) || NeoCalled(old(code.Rest())))
    {
      hide Expect, TakeHash;
      ok := Matches(code, SEQUENCE);
      if ok {
        var asset;
        ok, asset := ReadHash(code);
        if ok {
          if asset == NEO_SCRIPT_HASH {
            isNeo := true;
          } else if asset != GAS_SCRIPT_HASH {
            return false;
          }
          ok := Matches(code, SYSCALL);
          ok := ok && code.offset == scriptSize;
        }
      }
    }

    method TryParseTransferScript(sha256: Hash, code: Buffer)
      requires Valid() && code.Valid() && code.offset == 0 && scriptSize == |code.ptr|
      modifies this`isSystemAssetTransfer, this`isNeo, this`amount, dstAddress, code
      ensures TransferFields(sha256, Some(code.ptr), old(Value()), Value())
    {
      hide TakeArguments, TakeCall, NeoCalled, AmountLeft, DestinationText;
      assert code.Rest() == code.ptr;
      var ok := ReadArguments(sha256, code);
      if ok {
        ok := ReadCall(code);
        if ok {
          isSystemAssetTransfer := true;
        }
      }
    }
  }

  /** The rest of signer i: its scope, and the lists its scope calls for. */
  method ReadScope(buf: Buffer, slot: SignerSlot, ghost i: nat, ghost account: seq<byte>)
    returns (status: Status, filled: SignerSlot)
    requires buf.Valid() && |slot.contracts| == |slot.groups| == MAX_SIGNER_SUB_ITEMS
    requires buf.Rest() != [] ==> ScopeAt(buf.ptr, i) == Some(buf.Rest()[0])
    modifies buf
    ensures buf.Valid() && |filled.contracts| == |filled.groups| == MAX_SIGNER_SUB_ITEMS
    ensures filled.account == slot.account
    ensures SlotBelongs(slot, buf.ptr, i) ==> SlotBelongs(filled, buf.ptr, i)
    ensures match TakeScope(old(buf.Rest()), account)
            case Fail(failure) => status == failure != ParsingOk
            case Parse(g, rest) =>
              status == ParsingOk && buf.Rest() == rest && g.account == account
              && (SliceAt(buf.ptr, slot.account, account) && SlotBelongs(slot, buf.ptr, i) ==>
                    SlotHolds(buf.ptr, filled, g))
  {
    hide TakeList, ListAt, ScopeAt, SliceAt, HasContracts, HasGroups, HasGlobal;
    filled := slot;
    var ok, value := buf.ReadU8();
    if !ok { return SignerScopeParsingError, filled; }
    filled := filled.(scope := value);
    if HasGlobal(value) && value != GLOBAL { return SignerScopeValueErrorGlobalFlag, filled; }

    var offsets, size;
    status, offsets, size := ReadList(buf, HasContracts(value), slot.contracts, slot.contractsSize,
      UINT160_LEN, SignerAllowedContractsLengthParsingError, SignerAllowedContractsLengthValueError,
      SignerAllowedContractParsingError);
    filled := filled.(contracts := offsets, contractsSize := size);
    if status != ParsingOk { return; }
    // A truncated group reports the status of a truncated contract.
    status, offsets, size := ReadList(buf, HasGroups(value), slot.groups, slot.groupsSize,
      ECPOINT_LEN, SignerAllowedGroupsLengthParsingError, SignerAllowedGroupsLengthValueError,
      SignerAllowedContractParsingError);
    filled := filled.(groups := offsets, groupsSize := size);
  }

  method ReadU32(buf: Buffer, short: Status) returns (status: Status, value: u32)
    requires buf.Valid() && short != ParsingOk
    modifies buf
    ensures buf.Valid()
    ensures match TakeU32(old(buf.Rest()), short)
            case Fail(failure) => status == failure == short
            case Parse(v, rest) => status == ParsingOk && buf.Rest() == rest && value == v
  {
    var ok;
    ok, value := buf.ReadU32(false);
    status := if ok then ParsingOk else short;
  }

  /** A fee: a signed number that must not be negative. */
  method ReadFee(buf: Buffer, short: Status, negative: Status) returns (status: Status, fee: s64)
    requires buf.Valid() && short != ParsingOk && negative != ParsingOk
    modifies buf
    ensures buf.Valid()
    ensures match TakeFee(old(buf.Rest()), short, negative)
            case Fail(failure) => status == failure != ParsingOk
            case Parse(v, rest) => status == ParsingOk && buf.Rest() == rest && fee == v
  {
    hide Le, LeBytes, Pow;
    BytesOfLe(if |buf.Rest()| < 8 then [] else buf.Rest()[..8]);
    var ok;
    ok, fee := buf.ReadS64(false);
    if !ok { return short, fee; }
    if fee < 0 { return negative, fee; }
    return ParsingOk, fee;
  }

  /** A count, of whatever list. */
  method ReadCount(buf: Buffer, short: Status) returns (status: Status, count: u64, ghost width: nat)
    requires buf.Valid() && short != ParsingOk
    modifies buf
    ensures buf.Valid()
    ensures match TakeVarint(old(buf.Rest()), short)
            case Fail(failure) => status == failure == short
            case Parse(v, rest) => status == ParsingOk && buf.Rest() == rest && v == Varint(width, count)
  {
    width := 0;
    ghost var found := Parsed(buf.Rest());
    var ok;
    ok, count := buf.ReadVarint();
    if !ok { return short, count, width; }
    width := found.value.width;
    return ParsingOk, count, width;
  }

  /** The places of count items of itemSize bytes each. */
  method FillItems(buf: Buffer, offsets: seq<nat>, count: nat, itemSize: nat, short: Status)
    returns (status: Status, filled: seq<nat>)
    requires buf.Valid() && count <= |offsets| && itemSize < SIZE_MOD && short != ParsingOk
    modifies buf
    ensures buf.Valid() && |filled| == |offsets|
    ensures match TakeItems(old(buf.Rest()), count, itemSize, short, [])
            case Fail(failure) => status == failure != ParsingOk
            case Parse(items, rest) =>
              status == ParsingOk && buf.Rest() == rest && |items| == count && SlicesAt(buf.ptr, filled, items)
  {
    filled := offsets;
    ghost var start := buf.Rest();
    ghost var done: seq<seq<byte>> := [];
    for j := 0 to count
      invariant buf.Valid() && |filled| == |offsets| && |done| == j
      invariant TakeItems(start, count, itemSize, short, []) == TakeItems(buf.Rest(), count, itemSize, short, done)
      invariant SlicesAt(buf.ptr, filled, done)
    {
      ghost var rest := buf.Rest();
      filled := filled[j := buf.offset];
      var ok := buf.SeekCur(itemSize);
      if !ok { return short, filled; }
      assert buf.ptr[filled[j]..filled[j] + itemSize] == rest[..itemSize];
      done := done + [rest[..itemSize]];
    }
    return ParsingOk, filled;
  }

  /** A sub-list that is there: its count, then the place of each item. */
  method ReadCountedItems(buf: Buffer, offsets: seq<nat>, size: nat, itemSize: nat,
                          short: Status, large: Status, shortItem: Status)
    returns (status: Status, filled: seq<nat>, newSize: nat)
    requires buf.Valid() && |offsets| == MAX_SIGNER_SUB_ITEMS && itemSize < SIZE_MOD
    requires short != ParsingOk && large != ParsingOk && shortItem != ParsingOk
    modifies buf
    ensures buf.Valid() && |filled| == |offsets|
    ensures match TakeCountedItems(old(buf.Rest()), itemSize, short, large, shortItem)
            case Fail(failure) => status == failure != ParsingOk
            case Parse(l, rest) => status == ParsingOk && buf.Rest() == rest && ListAt(buf.ptr, filled, newSize, l)
  {
    hide TakeVarint, TakeItems, SlicesAt, Fits;
    filled, newSize := offsets, size;
    ghost var width;
    var count;
    status, count, width := ReadCount(buf, short);
    if status != ParsingOk { return; }
    if count > MAX_SIGNER_SUB_ITEMS { return large, filled, newSize; }
    newSize := count;
    status, filled := FillItems(buf, offsets, count, itemSize, shortItem);
  }

  /** A sub-list of a signer, if its scope calls for one. */
  method ReadList(buf: Buffer, present: bool, offsets: seq<nat>, size: nat, itemSize: nat,
                  short: Status, large: Status, shortItem: Status)
    returns (status: Status, filled: seq<nat>, newSize: nat)
    requires buf.Valid() && |offsets| == MAX_SIGNER_SUB_ITEMS && itemSize < SIZE_MOD
    requires short != ParsingOk && large != ParsingOk && shortItem != ParsingOk
    modifies buf
    ensures buf.Valid() && |filled| == |offsets| && (newSize != size ==> present)
    ensures match TakeList(old(buf.Rest()), present, itemSize, short, large, shortItem)
            case Fail(failure) => status == failure != ParsingOk
            case Parse(l, rest) =>
              status == ParsingOk && buf.Rest() == rest
              && (present || size == 0 ==> ListAt(buf.ptr, filled, newSize, l))
  {
    hide TakeCountedItems, SlicesAt;
    if present {
      status, filled, newSize := ReadCountedItems(buf, offsets, size, itemSize, short, large, shortItem);
    } else {
      status, filled, newSize := ParsingOk, offsets, size;
    }
  }

  /** The next bytes are compared with a fixed sequence, and skipped if equal. */
  method Matches(code: Buffer, sequence: seq<byte>) returns (ok: bool)
    requires code.Valid() && |sequence| < SIZE_MOD
    modifies code
    ensures code.Valid() && ok == Expect(old(code.Rest()), sequence).Some?
    ensures code.Rest() == if ok then Expect(old(code.Rest()), sequence).value else old(code.Rest())
  {
    if !code.CanRead(|sequence|) || code.ptr[code.offset..code.offset + |sequence|] != sequence {
      return false;
    }
    ok := code.SeekCur(|sequence|);
  }

  method ReadHash(code: Buffer) returns (ok: bool, hash: ScriptHash)
    requires code.Valid()
    modifies code
    ensures code.Valid() && ok == TakeHash(old(code.Rest())).Some?
    ensures ok ==> TakeHash(old(code.Rest())).value == (hash, code.Rest())
  {
    hash := GAS_SCRIPT_HASH;
    if !code.CanRead(UINT160_LEN) {
      return false, hash;
    }
    hash := code.ptr[code.offset..code.offset + UINT160_LEN];
    assert hash == code.Rest()[..UINT160_LEN];
    ok := code.SeekCur(UINT160_LEN);
  }

  /** A big-endian 0x0C14 (PUSHDATA1, 20 bytes) and a script hash. */
  method ReadPushedHash(code: Buffer) returns (ok: bool, hash: ScriptHash)
    requires code.Valid()
    modifies code
    ensures code.Valid() && ok == TakePushedHash(old(code.Rest())).Some?
    ensures ok ==> TakePushedHash(old(code.Rest())).value == (hash, code.Rest())
  {
    hash := GAS_SCRIPT_HASH;
    var u16;
    PushHashPrefix(code.Rest());
    ok, u16 := code.ReadU16(true);
    if !ok || u16 != 0x0C14 {
      return false, hash;
    }
    ok, hash := ReadHash(code);
  }

  lemma PushHashPrefix(s: seq<byte>)
    ensures PUSH_HASH <= s <==> |s| >= 2 && Be(s[..2]) == 0x0C14
  {
    if |s| >= 2 {
      BytesOfBe(s[..2]);
      BytesOfBe(PUSH_HASH);
      assert Be(PUSH_HASH) == 0x0C14 by {
        assert PUSH_HASH[..1] == [0x0C];
      }
      assert PUSH_HASH <= s <==> s[..2] == PUSH_HASH;
    }
  }
}
