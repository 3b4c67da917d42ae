/** The unsigned transactions transaction_deserialize accepts (src/transaction/deserialize.c):
    their syntax, their byte form, and a parser of the bytes still unread, which is what the
    imperative parser of Deserialize.dfy is proved against. */
module Grammar {
  import opened Bytes
  import opened Numerals
  import opened Varint

  const MAX_TRANSACTION_LEN := 1024
  const MIN_TX_SIGNERS := 1
  const MAX_TX_SIGNERS := 2
  const MAX_SIGNER_SUB_ITEMS := 2
  const MAX_ATTRIBUTES := 2
  const ECPOINT_LEN := 33
  const HIGH_PRIORITY: byte := 0x1
  const GLOBAL: byte := 0x80

  datatype Status =
    | ParsingOk
    | InvalidLengthError
    | VersionParsingError
    | VersionValueError
    | NonceParsingError
    | SystemFeeParsingError
    | SystemFeeValueError
    | NetworkFeeParsingError
    | NetworkFeeValueError
    | ValidUntilBlockParsingError
    | SignerLengthParsingError
    | SignerLengthValueError
    | SignerAccountParsingError
    | SignerAccountDuplicateError
    | SignerScopeParsingError
    | SignerScopeValueErrorGlobalFlag
    | SignerAllowedContractsLengthParsingError
    | SignerAllowedContractsLengthValueError
    | SignerAllowedContractParsingError
    | SignerAllowedGroupsLengthParsingError
    | SignerAllowedGroupsLengthValueError
    | SignerAllowedGroupsParsingError
    | AttributesLengthParsingError
    | AttributesLengthValueError
    | AttributesUnsupportedType
    | AttributesDuplicateType
    | ScriptLengthParsingError
    | ScriptLengthValueError

  // ---------------------------------------------------------------- syntax

  // The flags are single bits, so "value & flag == flag" is a test of one binary digit.
  predicate HasContracts(scope: byte) { scope / 0x10 % 2 == 1 }
  predicate HasGroups(scope: byte) { scope / 0x20 % 2 == 1 }
  predicate HasGlobal(scope: byte) { scope >= 0x80 }

  /** A list with the width its count is written in; absent when the scope does not call for it. */
  datatype Items = Absent | Items(width: nat, items: seq<seq<byte>>)

  function Count(l: Items): nat {
    if l.Absent? then 0 else |l.items|
  }

  datatype Signer = Signer(account: seq<byte>, scope: byte, contracts: Items, groups: Items)

  /** The fixed-size part after the version byte, which is always 0. */
  datatype Header = Header(nonce: u32, systemFee: s64, networkFee: s64, validUntilBlock: u32)

  datatype Transaction = Transaction(
    header: Header,
    signersWidth: nat, signers: seq<Signer>,
    attributesWidth: nat, attributes: seq<byte>,
    scriptWidth: nat, script: seq<byte>)

  ghost predicate WellFormedItems(i: Items, present: bool, size: nat) {
    match i
    case Absent => !present
    case Items(width, items) =>
      present && |items| <= MAX_SIGNER_SUB_ITEMS && Fits(Varint(width, |items|))
      && forall k :: 0 <= k < |items| ==> |items[k]| == size
  }

  ghost predicate WellFormedSigner(s: Signer) {
    |s.account| == UINT160_LEN
    && (HasGlobal(s.scope) ==> s.scope == GLOBAL)
    && WellFormedItems(s.contracts, HasContracts(s.scope), UINT160_LEN)
    && WellFormedItems(s.groups, HasGroups(s.scope), ECPOINT_LEN)
  }

  ghost predicate WellFormedHeader(h: Header) {
    h.systemFee >= 0 && h.networkFee >= 0
  }

  ghost predicate DistinctAccounts(signers: seq<Signer>) {
    forall i, j :: 0 <= i < j < |signers| ==> signers[i].account != signers[j].account
  }

  ghost predicate WellFormed(t: Transaction) {
    WellFormedHeader(t.header)
    && MIN_TX_SIGNERS <= |t.signers| <= MAX_TX_SIGNERS && Fits(Varint(t.signersWidth, |t.signers|))
    && (forall i :: 0 <= i < |t.signers| ==> WellFormedSigner(t.signers[i])) && DistinctAccounts(t.signers)
    && (t.attributes == [] || t.attributes == [HIGH_PRIORITY])
    && Fits(Varint(t.attributesWidth, |t.attributes|))
    && 0 < |t.script| <= 0xFFFF && Fits(Varint(t.scriptWidth, |t.script|))
  }

  // ---------------------------------------------------------------- byte form

  ghost function ItemsBytes(items: seq<seq<byte>>): seq<byte> {
    if items == [] then [] else items[0] + ItemsBytes(items[1..])
  }

  ghost function ListBytes(i: Items): seq<byte>
    requires i.Items? ==> Fits(Varint(i.width, |i.items|))
  {
    if i.Absent? then [] else Written(Varint(i.width, |i.items|)) + ItemsBytes(i.items)
  }

  ghost function SignerBytes(s: Signer): seq<byte>
    requires WellFormedSigner(s)
  {
    s.account + ([s.scope] + (ListBytes(s.contracts) + ListBytes(s.groups)))
  }

  ghost function SignersBytes(signers: seq<Signer>): seq<byte>
    requires forall i :: 0 <= i < |signers| ==> WellFormedSigner(signers[i])
  {
    if signers == [] then [] else SignerBytes(signers[0]) + SignersBytes(signers[1..])
  }

  ghost function HeaderBytes(h: Header): seq<byte>
    requires WellFormedHeader(h)
  {
    [0] + (LeBytes(h.nonce, 4)
      + (LeBytes(h.systemFee, 8) + (LeBytes(h.networkFee, 8) + LeBytes(h.validUntilBlock, 4))))
  }

  ghost function CountedSignersBytes(width: nat, signers: seq<Signer>): seq<byte>
    requires Fits(Varint(width, |signers|))
    requires forall i :: 0 <= i < |signers| ==> WellFormedSigner(signers[i])
  {
    Written(Varint(width, |signers|)) + SignersBytes(signers)
  }

  /** A byte string, its length in front. */
  ghost function CountedBytes(width: nat, bytes: seq<byte>): seq<byte>
    requires Fits(Varint(width, |bytes|))
  {
    Written(Varint(width, |bytes|)) + bytes
  }

  ghost function Serialize(t: Transaction): seq<byte>
    requires WellFormed(t)
  {
    HeaderBytes(t.header) + (CountedSignersBytes(t.signersWidth, t.signers)
      + (CountedBytes(t.attributesWidth, t.attributes) + CountedBytes(t.scriptWidth, t.script)))
  }

  // ---------------------------------------------------------------- parser

  /** A parsed value and the bytes after it, or the status the C function returns. */
  datatype Result<+T> = Fail(status: Status) | Parse(value: T, rest: seq<byte>) {
    predicate IsFailure() { Fail? }
    function PropagateFailure<U>(): Result<U> requires Fail? { Fail(status) }
    function Extract(): (T, seq<byte>) requires Parse? { (value, rest) }
  }

  /** The result a reading method has told of by its status. */
  function Ended<T>(status: Status, value: T, rest: seq<byte>): Result<T> {
    if status == ParsingOk then Parse(value, rest) else Fail(status)
  }

  ghost function Take(s: seq<byte>, n: nat, short: Status): Result<seq<byte>> {
    if |s| < n then Fail(short) else Parse(s[..n], s[n..])
  }

  ghost function TakeVarint(s: seq<byte>, short: Status): Result<Varint> {
    var v := Parsed(s);
    if v.None? || v.value.width > |s| then Fail(short) else Parse(v.value, s[v.value.width..])
  }

  ghost function TakeFee(s: seq<byte>, short: Status, negative: Status): Result<s64> {
    var (b, s1) :- Take(s, 8, short);
    if 2 * Le(b) >= Pow(256, 8) then Fail(negative) else
      BytesOfLe(b);
      Parse(Le(b), s1)
  }

  ghost function TakeItems(s: seq<byte>, n: nat, size: nat, short: Status, done: seq<seq<byte>>)
    : Result<seq<seq<byte>>>
    requires |done| <= n
    decreases n - |done|
  {
    if |done| == n then Parse(done, s) else
      var (item, s1) :- Take(s, size, short);
      TakeItems(s1, n, size, short, done + [item])
  }

  ghost function TakeCountedItems(s: seq<byte>, size: nat, short: Status, large: Status, shortItem: Status)
    : Result<Items>
  {
    var (v, s1) :- TakeVarint(s, short);
    if v.value > MAX_SIGNER_SUB_ITEMS then Fail(large) else
      var (items, s2) :- TakeItems(s1, v.value, size, shortItem, []);
      Parse(Items(v.width, items), s2)
  }

  ghost function TakeList(s: seq<byte>, present: bool, size: nat, short: Status, large: Status, shortItem: Status)
    : Result<Items>
  {
    if present then TakeCountedItems(s, size, short, large, shortItem) else Parse(Absent, s)
  }

  /** The part of a signer behind its account. */
  ghost function TakeScope(s: seq<byte>, account: seq<byte>): Result<Signer> {
    var (scope, s1) :- Take(s, 1, SignerScopeParsingError);
    if HasGlobal(scope[0]) && scope[0] != GLOBAL then Fail(SignerScopeValueErrorGlobalFlag) else
      var (contracts, s2) :- TakeList(s1, HasContracts(scope[0]), UINT160_LEN,
        SignerAllowedContractsLengthParsingError, SignerAllowedContractsLengthValueError,
        SignerAllowedContractParsingError);
      // A truncated group reports the status of a truncated contract.
      var (groups, s3) :- TakeList(s2, HasGroups(scope[0]), ECPOINT_LEN,
        SignerAllowedGroupsLengthParsingError, SignerAllowedGroupsLengthValueError,
        SignerAllowedContractParsingError);
      Parse(Signer(account, scope[0], contracts, groups), s3)
  }

  ghost function TakeSigner(s: seq<byte>, earlier: seq<Signer>): Result<Signer> {
    var (account, s1) :- Take(s, UINT160_LEN, SignerAccountParsingError);
    if exists i :: 0 <= i < |earlier| && earlier[i].account == account then Fail(SignerAccountDuplicateError)
    else TakeScope(s1, account)
  }

  ghost function TakeSigners(s: seq<byte>, n: nat, done: seq<Signer>): Result<seq<Signer>>
    requires |done| <= n
    decreases n - |done|
  {
    if |done| == n then Parse(done, s) else
      var (signer, s1) :- TakeSigner(s, done);
      TakeSigners(s1, n, done + [signer])
  }

  /** The attribute types already in the structure, from this parse or an earlier one. */
  type Slots = a: seq<byte> | |a| == MAX_ATTRIBUTES witness [0, 0]
  const FRESH: Slots := [0, 0]

  ghost function TakeAttributes(s: seq<byte>, n: nat, slots: Slots, done: seq<byte>): Result<seq<byte>>
    requires |done| <= n <= MAX_ATTRIBUTES
    decreases n - |done|
  {
    if |done| == n then Parse(done, s) else
      var (kind, s1) :- Take(s, 1, AttributesUnsupportedType);
      if kind[0] != HIGH_PRIORITY then Fail(AttributesUnsupportedType)
      else if exists j :: 0 <= j < n && slots[j] == kind[0] then Fail(AttributesDuplicateType)
      else TakeAttributes(s1, n, slots[|done| := kind[0]], done + [kind[0]])
  }

  /** The attribute types in the structure after TakeAttributes, accepted or not. */
  ghost function AttributesLeft(s: seq<byte>, n: nat, slots: Slots, done: seq<byte>): Slots
    requires |done| <= n <= MAX_ATTRIBUTES
    decreases n - |done|
  {
    if |done| == n || s == [] || s[0] != HIGH_PRIORITY || (exists j :: 0 <= j < n && slots[j] == s[0]) then slots
    else AttributesLeft(s[1..], n, slots[|done| := s[0]], done + [s[0]])
  }

  ghost function TakeU32(s: seq<byte>, short: Status): Result<u32> {
    var (b, s1) :- Take(s, 4, short);
    BytesOfLe(b);
    Parse(Le(b), s1)
  }

  ghost function TakeFees(s: seq<byte>): Result<(s64, s64)> {
    var (systemFee, s1) :- TakeFee(s, SystemFeeParsingError, SystemFeeValueError);
    var (networkFee, s2) :- TakeFee(s1, NetworkFeeParsingError, NetworkFeeValueError);
    Parse((systemFee, networkFee), s2)
  }

  /** The part of a header behind its version. */
  ghost function TakeFields(s: seq<byte>): Result<Header> {
    var (nonce, s1) :- TakeU32(s, NonceParsingError);
    var (fees, s2) :- TakeFees(s1);
    var (until, s3) :- TakeU32(s2, ValidUntilBlockParsingError);
    Parse(Header(nonce, fees.0, fees.1, until), s3)
  }

  ghost function TakeHeader(s: seq<byte>): Result<Header> {
    var (version, s1) :- Take(s, 1, VersionParsingError);
    if version[0] > 0 then Fail(VersionValueError) else TakeFields(s1)
  }

  ghost function TakeCountedSigners(s: seq<byte>): Result<(nat, seq<Signer>)> {
    var (v, s1) :- TakeVarint(s, SignerLengthParsingError);
    if v.value < MIN_TX_SIGNERS || v.value > MAX_TX_SIGNERS then Fail(SignerLengthValueError) else
      var (signers, s2) :- TakeSigners(s1, v.value, []);
      Parse((v.width, signers), s2)
  }

  ghost function TakeCountedAttributes(s: seq<byte>, slots: Slots): Result<(nat, seq<byte>)> {
    var (v, s1) :- TakeVarint(s, AttributesLengthParsingError);
    if v.value > MAX_ATTRIBUTES then Fail(AttributesLengthValueError) else
      var (attributes, s2) :- TakeAttributes(s1, v.value, slots, []);
      Parse((v.width, attributes), s2)
  }

  ghost function TakeScript(s: seq<byte>): Result<(nat, seq<byte>)> {
    var (v, s1) :- TakeVarint(s, ScriptLengthParsingError);
    if v.value > 0xFFFF || v.value == 0 then Fail(ScriptLengthValueError) else
      var (script, s2) :- Take(s1, v.value, ScriptLengthValueError);
      Parse((v.width, script), s2)
  }

  ghost function TakeLists(s: seq<byte>, slots: Slots): Result<((nat, seq<Signer>), (nat, seq<byte>))> {
    var (signers, s1) :- TakeCountedSigners(s);
    var (attributes, s2) :- TakeCountedAttributes(s1, slots);
    Parse((signers, attributes), s2)
  }

  /** Everything before the script. */
  ghost function TakeFront(s: seq<byte>, slots: Slots): Result<(Header, ((nat, seq<Signer>), (nat, seq<byte>)))> {
    var (h, s1) :- TakeHeader(s);
    var (lists, s2) :- TakeLists(s1, slots);
    Parse((h, lists), s2)
  }

  ghost function TakeTransaction(s: seq<byte>, slots: Slots): Result<Transaction> {
    var ((h, (signers, attributes)), s1) :- TakeFront(s, slots);
    var (script, s2) :- TakeScript(s1);
    Parse(Transaction(h, signers.0, signers.1, attributes.0, attributes.1, script.0, script.1), s2)
  }

  // What the parts of a parse, complete or not, leave in the attribute slots.

  ghost function CountedAttributesLeft(s: seq<byte>, slots: Slots): Slots {
    var v := TakeVarint(s, AttributesLengthParsingError);
    if v.Fail? || v.value.value > MAX_ATTRIBUTES then slots else AttributesLeft(v.rest, v.value.value, slots, [])
  }

  ghost function ListsLeft(s: seq<byte>, slots: Slots): Slots {
    var g := TakeCountedSigners(s);
    if g.Fail? then slots else CountedAttributesLeft(g.rest, slots)
  }

  ghost function TransactionLeft(s: seq<byte>, slots: Slots): Slots {
    var h := TakeHeader(s);
    if h.Fail? then slots else ListsLeft(h.rest, slots)
  }

  ghost function SlotsAfter(bytes: seq<byte>, slots: Slots): Slots {
    if |bytes| > MAX_TRANSACTION_LEN then slots else TransactionLeft(bytes, slots)
  }

  /** The number of attributes, and the unread bytes where they start. */
  ghost function AttributesStart(bytes: seq<byte>): Result<Varint> {
    var (h, s1) :- TakeHeader(bytes);
    var (signers, s2) :- TakeCountedSigners(s1);
    TakeVarint(s2, AttributesLengthParsingError)
  }

  /** The bytes reach a first attribute of the one type there is. */
  ghost predicate ReachesAttribute(bytes: seq<byte>) {
    var start := AttributesStart(bytes);
    start.Parse? && 0 < start.value.value <= MAX_ATTRIBUTES && start.rest != [] && start.rest[0] == HIGH_PRIORITY
  }

  /** transaction_deserialize on a whole buffer, the structure holding the given attribute types. */
  ghost function Parsing(bytes: seq<byte>, slots: Slots): Result<Transaction> {
    if |bytes| > MAX_TRANSACTION_LEN then Fail(InvalidLengthError) else
      var (t, rest) :- TakeTransaction(bytes, slots);
      if rest == [] then Parse(t, []) else Fail(InvalidLengthError)
  }

  ghost predicate Accepted(bytes: seq<byte>, slots: Slots) {
    Parsing(bytes, slots).Parse?
  }
}
