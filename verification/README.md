# The NEO N3 Ledger app, modelled and proved in Dafny

The app signs NEO N3 transactions on a hardware wallet: it collects a transaction in chunks, parses
it, shows what it does, and signs it when the user approves. This project models the parts that
decide what is shown and what is signed, and proves how they fit together.

- **Numbers and texts.** `Base58` and `Address`: the two in-place radix conversions, proved against
  the numbers that digit sequences denote, and the addresses made from them. `Format`: the decimal
  texts of amounts and fees. `Read`, `Write`, `Varint`, `Buffers`: bytes, integers and the cursor.
  Below them `Numerals`, `Bytes`, `Splices` and `PowerBounds`.
- **The transaction parser.** `Grammar` gives the syntax of an unsigned transaction, its byte form,
  and a parser that is a function; `GrammarTheorems` proves the two inverse to each other, the
  language prefix-free, and what a structure left over from an earlier parse does. `Transfer` does
  the same for the transfer scripts. `Deserialize` is the imperative parser on `transaction_t`, proved
  to return what the function returns.
- **The review.** `Pages` has the list of screens and the walk over it, `Pager` the cursor with its
  four indices, `Display` the flow with its delimiters, proved to be that walk. `Texts` and `Drawing`
  have the texts on the screens, and what can be told from them.
- **The session.** `Session` has commands, button presses and the screen as relations between states.
  `SessionInvariant` and `SessionTheorems` have the invariant and the theorems over all runs.
  `Handlers` and `Devices` are the handlers, the dispatcher and the buttons on the mutable context,
  proved to take only steps of these relations. `Progress`, with `Placement`, shows that there are
  such steps, and runs: every event is answered, and every transfer that fits can be signed.
- **Spelled out.** `Layout` says the formats byte by byte and the statuses in numbers, `Answers` what every
  command and every press of a run is answered with, from what was sent alone, and `SignedBytes` reads
  the screens back and compares them with the signed bytes.

The hashes, the public key of a path and the signature are arbitrary functions (`Env`), so everything
holds whatever they are. Three assumptions stand for code outside the repository. A command arrives only
when the one before it has been answered, that is in the menu (command-response pairs of ISO/IEC 7816-4;
`doc/APDU.md:3`). The flow engine of the SDK moves by one step and runs the callback of a step moved to.
`snprintf` cuts, terminates and returns what section 7.21.6 of ISO C11 says, which is what
`parse_scope_name` relies on; its conversion `H`, which is the SDK's own, writes two upper-case digits for
each byte. (A formatter that writes only whole bytes would show one digit less of a group.)

Integer widths are explicit. Shift-and-or expressions act on disjoint bits and are written as sums of
weighted bytes; flags of a scope are tests of one binary digit. Pointers into the transaction buffer are
offsets. The one precondition throughout is that arrays are as long as their length parameters say (`format_u64`
writes two characters when asked for one).

`dafny verify dfyconfig.toml` checks everything.

## What was found

Where the code does not do what it seems meant to do, the model follows the code:

- The guards of chunks 1 and later join their tests with `&&`, so they refuse only when no first chunk
  came before: the order of the chunks is not enforced, and a refused path does not end a session
  (`SessionTheorems.RefusedIff`, `MagicOkWithoutPath`, `SignedPathValidIff`, `Progress.SignsWithoutPath`).
- The operand of PUSHINT8 is taken as unsigned, and other negative amounts are shown as unsigned 64-bit
  numbers (`Transfer.AmountIsPushed`, `SessionTheorems.AmountShownIff`).
- The amount and the signer pages share one text buffer: coming back from the signer pages, the amount
  screen shows the text of a page (`Pages.AmountOverwritten`). It showed the amount on the way there
  (`Pages.ApproveAfterAll`).
- Network magic and height are printed as signed numbers into 11 characters: from 2^31 on they are
  negative, and numbers with ten digits lose the last, so that 0x80000000 and 0x80000001, both possible in
  a signed message, show the same (`Texts.ShownAsSuchIff`, `SameNetworkShownIff`, `SameNumberExample`).
- A group does not fit in its text buffer: its last byte, and half of the one before, are never shown
  (`Texts.GroupCutShort`, `GroupExample`).
- Unknown scope flags are accepted and not shown; a scope of nothing but unknown flags shows the scope
  shown before it (`Texts.SameScopeShownIff`, `ScopeExamples`).
- The structure is zeroed only by a first chunk. Once a final piece has come after the attribute was
  reached, and was refused, nothing is accepted in that session any more
  (`SessionTheorems.FinalPiece`, `Progress.DuplicateExample`).
- `format_fpu64` accepts some destinations that do not hold its text (`Format.AcceptedButCutShort`); the
  app's own buffers are long enough.
- A truncated group is reported as a truncated contract; status -21 is never returned
  (`GrammarTheorems.NeverReported`).
- `buffer_move` stays where it is, and says it moved, when fewer bytes are unread than asked for.
- `handler_get_public_key` sets the state to `CONFIRM_ADDRESS`, a request type; both it and the state meant
  are 0.

## Model

| member | source | states |
|---|---|---|
| Base58Alphabet.TableInvertsAlphabet | src/common/base58.c:24-43 | looking up a letter of the alphabet in the decoding table gives its digit |
| Base58Alphabet.AlphabetInvertsTable | src/common/base58.c:24-43 | a character the table knows is the letter of the digit the table gives, so alphabet and table are inverse |
| Base58Alphabet.AlphabetIs | src/common/base58.c:24-43 | the alphabet is the digits and letters in the order of their codes, without 0, O, I and l, and the table knows exactly those |
| PowerBounds.SizeEstimate | src/common/base58.c:122 | 138/100 digits a byte, and one, are enough: 256^k <= 58^(138k/100 + 1) for every k |
| Base58.MultiplyAdd | src/common/base58.c:125-135 | one byte pushed into the buffer: its base-58 value becomes 256 times the old value plus the byte although the loop exits early, the index never goes below 0, and the part left of where it stopped is still zero |
| Base58.ReachBound | src/common/base58.c:122-135 | after k of n significant bytes the loop has not reached left of 138n/100 - 138k/100, so `stop_at - 1` does not wrap while bytes remain |
| Base58.ToBase58 | src/common/base58.c:122-136 | after all bytes the buffer is a base-58 numeral of exactly the big-endian number of the bytes: no carry is lost |
| Base58.Base58Encode | src/common/base58.c:107-155 | -1 exactly for more than 120 bytes or too short an output, which is then untouched; otherwise the Base58 text (leading zero bytes as 1s, then the shortest numeral) is written, and nothing behind it |
| Base58.DivideRound | src/common/base58.c:76-87 | one round of long division: quotient and remainder by 256 of the number, every digit still below 58, the leading digit of the quotient 0 |
| Base58.DivideRounds | src/common/base58.c:74-90 | exactly `in_len - zero_count` rounds, the two moving indices always adding up to `in_len + zero_count`; all of the number ends up in base 256 |
| Base58.Base58Decode | src/common/base58.c:45-105 | -1 exactly for fewer than 2 or more than 164 characters, a character outside the alphabet or too short an output, which is then untouched; otherwise one zero byte for each leading 1 and the minimal base-256 digits are written |
| Base58.EncodingIsFaithful | src/common/base58.c:107-155 | the text of any byte string is decoded to that byte string, leading zeros included |
| Base58.DecodingIsFaithful | src/common/base58.c:45-105 | any text over the alphabet is the text of the bytes it is decoded to |
| Base58.EncodingInjective | src/common/base58.c:107-155 | different byte strings have different texts |
| Base58.EncodingLength | src/common/base58.c:52-54 | at most 120 bytes give at most 164 characters, the limit of the decoder |
| Base58.DecodeUndoesEncode | src/common/base58.c:45-155 | the text of at most 120 bytes is accepted by the decoder exactly when there are two bytes or one of at least 58 (the decoder wants two characters), and gives the bytes back |
| Address.ScriptHashToAddress | src/ui/utils.c:65-85 | the address is written whenever 34 characters fit: the ignored result of base58_encode is a success |
| Address.AddressShape | src/ui/utils.c:65-85 | every address has 34 characters and starts with N, for every script hash and whatever SHA-256 gives |
| Address.AddressInjective | src/ui/utils.c:65-85 | two script hashes have the same address exactly when they are equal, whatever the checksum |
| Address.AddressReadsBack | src/ui/utils.c:65-85 | Base58Check: every address decodes to 0x35, the script hash, and the first four bytes of the double SHA-256 of both, whatever SHA-256 is |
| Address.CreateSignatureRedeemScript | src/ui/utils.c:31-50 | for an output of 40 bytes, and no other, the redeem script of the compressed key is written |
| Address.RedeemScriptBytewise | src/ui/utils.c:36-47 | the redeem script byte by byte: 2 or 3 as the y-coordinate is even or odd, the x-coordinate, the system call |
| Address.RedeemScriptKeepsKey | src/ui/utils.c:36-47 | two keys have the same redeem script exactly when x-coordinate and parity of y are equal |
| Address.AddressFromPubkey | src/ui/utils.c:87-104 | always succeeds; the address of the hash of the redeem script of the key is written whenever 34 characters fit, and nothing otherwise |
| Read.ReadU16Be | src/common/read.c:20-23 | the 16-bit big-endian number the bytes denote |
| Read.ReadS16Be | src/common/read.c:25-27 | the 16-bit big-endian number, in two's complement the bytes denote |
| Read.ReadU32Be | src/common/read.c:30-35 | the 32-bit big-endian number the bytes denote |
| Read.ReadS32Be | src/common/read.c:37-42 | the 32-bit big-endian number, in two's complement the bytes denote |
| Read.ReadU64Be | src/common/read.c:44-53 | the 64-bit big-endian number the bytes denote |
| Read.ReadS64Be | src/common/read.c:55-64 | the 64-bit big-endian number, in two's complement the bytes denote |
| Read.ReadU16Le | src/common/read.c:66-69 | the 16-bit little-endian number the bytes denote |
| Read.ReadS16Le | src/common/read.c:71-74 | the 16-bit little-endian number, in two's complement the bytes denote |
| Read.ReadU32Le | src/common/read.c:76-81 | the 32-bit little-endian number the bytes denote |
| Read.ReadS32Le | src/common/read.c:83-88 | the 32-bit little-endian number, in two's complement the bytes denote |
| Read.ReadU64Le | src/common/read.c:90-99 | the 64-bit little-endian number the bytes denote |
| Read.ReadS64Le | src/common/read.c:101-109 | the 64-bit little-endian number, in two's complement the bytes denote |
| Write.WriteU16Be | src/common/write.c:20-23 | exactly the 2 bytes, most significant first, are written; the rest of the array stays |
| Write.WriteU32Be | src/common/write.c:25-30 | exactly the 4 bytes, most significant first, are written; the rest of the array stays |
| Write.WriteU64Be | src/common/write.c:32-41 | exactly the 8 bytes, most significant first, are written; the rest of the array stays |
| Write.WriteU16Le | src/common/write.c:43-46 | exactly the 2 bytes, least significant first, are written; the rest of the array stays |
| Write.WriteU32Le | src/common/write.c:48-53 | exactly the 4 bytes, least significant first, are written; the rest of the array stays |
| Write.WriteU64Le | src/common/write.c:55-64 | exactly the 8 bytes, least significant first, are written; the rest of the array stays |
| Bytes.LeOfBytes | src/common/write.c:43-64 | the low n bytes of a number denote the number modulo 256^n: writing and reading undo each other |
| Bytes.BytesOfLe | src/common/read.c:66-109 | n bytes are the low n bytes of the number they denote, which is below 256^n |
| Bytes.BytesOfBe | src/common/read.c:20-64 | the same for big-endian bytes |
| Varint.VarintRead | src/common/varint.c:41-75 | length and value of the encoding at the start, -1 exactly when it is cut short |
| Varint.VarintWrite | src/common/varint.c:77-101 | the shortest encoding of the value is written at the offset, and nothing else |
| Varint.ParseWritten | src/common/varint.c:41-101 | an encoding in any of the four widths its value fits is read back, whatever follows |
| Varint.WrittenParse | src/common/varint.c:41-75 | whatever is read is an encoding of the value in that width: the reader accepts nothing else |
| Varint.WriteThenRead | src/common/varint.c:25-101 | what varint_write wrote is read back with value and length, at every offset and whatever follows |
| Varint.SizeIsShortest | src/common/varint.c:25-39 | varint_size is at most the length of any encoding that reads to the value |
| Layout.VarintForms | src/common/varint.c:41-75 | the four forms of a count by the first byte, and exactly when one is cut short |
| Layout.VarintLengths | src/common/varint.c:25-39 | the lengths by value |
| Layout.ByteOrder | src/common/read.c:20-109 | which byte counts for what in both byte orders |
| Buffers.Buffer.SeekSet | src/common/buffer.c:30-38 | moves to a place exactly when it is in the buffer |
| Buffers.Buffer.SeekCur | src/common/buffer.c:40-49 | skips exactly when that many bytes are left, the wrap of size_t being caught; otherwise nothing moves |
| Buffers.Buffer.SeekEnd | src/common/buffer.c:51-59 | moves to a distance from the end exactly when it is in the buffer |
| Buffers.Buffer.ReadU8 | src/common/buffer.c:61-72 | 1 byte: the number the bytes denote, and the cursor behind them; exactly when too few are left, 0 and an untouched cursor |
| Buffers.Buffer.ReadS8 | src/common/buffer.c:74-85 | 1 byte, signed: the number the bytes denote, and the cursor behind them; exactly when too few are left, 0 and an untouched cursor |
| Buffers.Buffer.ReadU16 | src/common/buffer.c:87-99 | 2 bytes: the number the bytes denote, and the cursor behind them; exactly when too few are left, 0 and an untouched cursor |
| Buffers.Buffer.ReadS16 | src/common/buffer.c:101-113 | 2 bytes, signed: the number the bytes denote, and the cursor behind them; exactly when too few are left, 0 and an untouched cursor |
| Buffers.Buffer.ReadU32 | src/common/buffer.c:115-127 | 4 bytes: the number the bytes denote, and the cursor behind them; exactly when too few are left, 0 and an untouched cursor |
| Buffers.Buffer.ReadS32 | src/common/buffer.c:129-141 | 4 bytes, signed: the number the bytes denote, and the cursor behind them; exactly when too few are left, 0 and an untouched cursor |
| Buffers.Buffer.ReadU64 | src/common/buffer.c:143-155 | 8 bytes: the number the bytes denote, and the cursor behind them; exactly when too few are left, 0 and an untouched cursor |
| Buffers.Buffer.ReadS64 | src/common/buffer.c:157-169 | 8 bytes, signed: the number the bytes denote, and the cursor behind them; exactly when too few are left, 0 and an untouched cursor |
| Buffers.Buffer.ReadVarint | src/common/buffer.c:171-183 | consumes exactly the encoding, or leaves the cursor alone |
| Buffers.Buffer.Copy | src/common/buffer.c:185-193 | copies all unread bytes, exactly when they fit |
| Buffers.Buffer.Move | src/common/buffer.c:195-203 | the same, and moves to the end only when the unread bytes are exactly as many as asked for |
| Format.FormatU64 | src/common/format.c:63-96 | the decimal text and its terminator are written exactly when there is room for both; asked for one character it still writes a one-digit number and its terminator |
| Format.FormatFpu64 | src/common/format.c:98-134 | succeeds exactly when the destination has the length it asks for; then exactly the characters written, over whatever was there; otherwise nothing is |
| Format.WrittenOverNuls | src/common/format.c:98-134 | in a zeroed destination, as all callers pass, what is written is the fixed-point text as far as it fits, terminated wherever it leaves room |
| Format.FormatI64 | src/common/format.c:24-61 | the signed decimal text and its terminator are written exactly when there is room for both, for every int64, and nothing otherwise |
| Format.DecimalReadsBack | src/common/format.c:63-96 | a decimal text read as a number is the number, and has no leading zero |
| Format.IntTextInjective | src/common/format.c:24-61 | different int64 values have different texts |
| Format.IntTextReadsBack | src/common/format.c:24-61 | a minus sign exactly for negative values, and the rest reads as the magnitude |
| Format.FixedTextIsExact | src/common/format.c:98-134 | with d > 0 decimals the text reads as value / 10^d, with exactly d fraction digits |
| Format.WholeTextIsExact | src/common/format.c:126-127 | without decimals the text is the number and ".0" |
| Format.FixedTextInjective | src/common/format.c:98-134 | two numbers have the same text exactly when they are equal |
| Format.AlwaysFits | src/common/format.c:107-121 | d + 22 characters are always accepted and always hold the text; they are just filled only by twenty digits with d = 0 |
| Format.ThirtyIsJustEnough | src/ui/display.c:264-268 | 30 characters with 8 decimals are always enough, with room for the terminator, and 29 are not |
| Format.AcceptedButCutShort | src/common/format.c:107-121 | exactly which lengths are accepted although text and terminator do not fit |
| Format.CutShortExample | src/common/format.c:107-117 | 1.00 with 8 decimals: a destination of 8 characters is accepted and cuts the text |
| Transfer.RecognisedComplete | src/transaction/tx_utils.c:14-105 | the script of every transfer, any supported push, any two addresses, NEO or GAS, is recognised as that transfer |
| Transfer.RecognisedSound | src/transaction/tx_utils.c:14-105 | every recognised script is byte for byte the script of the transfer it is recognised as, with nothing behind it: push, addresses and asset are determined by the script |
| Transfer.LeftByRecognised | src/transaction/tx_utils.c:14-105 | what any script leaves in amount, destination and asset is, for a recognised one, what the transfer says |
| Transfer.RecognisedBytewise | src/transaction/tx_utils.c:14-105 | what a recognised script is recognised as is what its bytes say: opcodes, operand, destination before source, fixed sequence, contract hash, system call |
| Transfer.RecognisedIff | src/transaction/tx_utils.c:14-105 | a script is recognised exactly when it is such bytes, with any supported push, any two script hashes and NEO or GAS |
| Transfer.AmountIsPushed | src/transaction/tx_utils.c:22-39 | the amount taken is the number the script pushes, except exactly for a PUSHINT8 operand of 0x80 or more, which is read as unsigned |
| Deserialize.TransactionStruct.TransactionDeserialize | src/transaction/deserialize.c:25-179 | the status is the one of the grammar's parser for these bytes and the attribute types left in the structure; an accepted transaction's fields, offsets included, are the ones the bytes spell; the attribute slots afterwards, accepted or not, are what this parse or an earlier one put there; the transfer fields change only when the end of the script is found, and then exactly as far as the script can be followed |
| Deserialize.TransactionStruct.ReadHeader | src/transaction/deserialize.c:33-62 | version, nonce, fees and height: the first failing check decides the status |
| Deserialize.TransactionStruct.ReadSigner | src/transaction/deserialize.c:74-131 | one signer: account not used before, scope rule, sub-lists only where the scope has them; the slot then holds this signer, and no other slot changes |
| Deserialize.TransactionStruct.ReadSigners | src/transaction/deserialize.c:64-132 | 1 or 2 signers, one after the other, in their slots |
| Deserialize.TransactionStruct.ReadAttributes | src/transaction/deserialize.c:134-160 | the attributes, each compared with all slots in use, stale ones included; and what is in the slots afterwards, accepted or not |
| Deserialize.TransactionStruct.ReadScript | src/transaction/deserialize.c:162-172 | 1 to 65535 script bytes that are all there |
| Deserialize.TransactionStruct.TryParseTransferScript | src/transaction/tx_utils.c:14-105 | amount, destination, asset and recognised flag after any script: as far as it can be followed, and the flag exactly for a recognised one |
| Deserialize.ReadScope | src/transaction/deserialize.c:88-131 | the scope and the sub-lists of a signer; a truncated group gives the status of a truncated contract |
| Layout.FlagsAreBits | src/transaction/types.h:69-75 | the flags are the source's bitwise tests with 0x10, 0x20, 0x80 and 0x01, for every scope byte |
| Layout.HeaderBytewise | src/transaction/deserialize.c:33-62 | where version, nonce, fees and height lie, and the status of the first that is missing or out of range |
| Layout.SignerRefused | src/transaction/deserialize.c:74-97 | exactly which bytes are refused for account, duplicate, scope and global flag, with which status |
| Layout.SignerLists | src/transaction/deserialize.c:99-131 | bit 0x10 calls for 20-byte contracts, bit 0x20 for 33-byte groups behind them, with their statuses |
| Layout.SignerWithContracts | src/transaction/deserialize.c:99-114 | a signer with bit 0x10 and not 0x20 is account, scope and a counted list of at most two 20-byte items, byte for byte, and the status where it is not |
| Layout.SignerWithGroups | src/transaction/deserialize.c:116-131 | the mirror case with 33-byte items; a truncated one gives the status of a truncated contract |
| Layout.SignersBytewise | src/transaction/deserialize.c:64-79 | one or two signers, the second compared with the first |
| Layout.AttributesBytewise | src/transaction/deserialize.c:134-160 | the attributes and the status of each refusal, for every contents of the slots |
| Layout.ScriptBytewise | src/transaction/deserialize.c:162-172 | 1 to 65535 script bytes behind their number, and the statuses otherwise |
| Layout.PartsInOrder | src/transaction/deserialize.c:25-178 | the first part that is refused gives the status; more than 1024 bytes, or bytes behind the script, are a wrong length |
| Layout.AcceptedBytewise | src/transaction/deserialize.c:33-178 | where nonce, fees and height of an accepted transaction lie, and that its script is its end |
| GrammarTheorems.ParserAgreesWithGrammar | src/transaction/deserialize.c:25-179 | a buffer is accepted into a zeroed structure exactly when it has at most 1024 bytes and is the encoding of a well-formed transaction, its counts in any width; and re-encoding the result with its widths gives the buffer |
| GrammarTheorems.ParseOfSerialize | src/transaction/deserialize.c:25-179 | parsing the encoding of any well-formed transaction that fits gives that transaction |
| GrammarTheorems.SignersSound | src/transaction/deserialize.c:73-132 | accepted signers are well formed (scope rule, at most 2 contracts and 2 groups of the right size), have pairwise different accounts, and the bytes read are their encoding |
| GrammarTheorems.AttributesSound | src/transaction/deserialize.c:134-160 | whatever the structure held, at most one attribute is accepted although the count limit is 2, and acceptance into a zeroed structure gives the same |
| GrammarTheorems.PrefixFree | src/transaction/deserialize.c:33-178 | every strict extension of an accepted buffer is refused with INVALID_LENGTH_ERROR, so no accepted buffer is a prefix of another |
| GrammarTheorems.StaleAcceptsLess | src/transaction/deserialize.c:146-160 | a structure left over from earlier parses never makes the parser accept a buffer it would not accept into a zeroed one, nor accept it as something else |
| GrammarTheorems.StaleAcceptsIff | src/transaction/deserialize.c:146-160 | with leftovers a buffer is accepted exactly when it is with a zeroed structure and it has no attribute, or the first slot does not already hold HIGH_PRIORITY |
| GrammarTheorems.AcceptedOnce | src/transaction/deserialize.c:25-179 | no strict extension of an accepted buffer is ever accepted, whatever either structure held |
| GrammarTheorems.BeyondScript | src/transaction/deserialize.c:162-178 | once the end of the script was found and more bytes follow, no further bytes help |
| GrammarTheorems.SlotsAfterIs | src/transaction/deserialize.c:146-160 | a parse, accepted or not, marks the first attribute slot exactly when the bytes reach an attribute, and never the second |
| GrammarTheorems.ReachesExtends | src/transaction/deserialize.c:146-160 | more bytes do not take back that an attribute was reached |
| GrammarTheorems.AcceptedReaches | src/transaction/deserialize.c:146-160 | an accepted transaction has an attribute exactly when its bytes reach one |
| GrammarTheorems.MarkedIsDuplicate | src/transaction/deserialize.c:146-160 | with the first slot marked, bytes that reach an attribute are refused as having it twice, whatever follows |
| GrammarTheorems.NeverReported | src/transaction/deserialize.c:33-131 | the status for a truncated group (-21) is never returned, the one for a missing version only for the empty buffer |
| GrammarTheorems.SignersExtend | src/transaction/deserialize.c:73-132 | signers read from a buffer are read from every extension of it |
| Bip44.BufferReadAndValidateBip44 | src/common/bip44.c:5-59 | the status of the first failing check, level by level; exactly the levels that passed are stored, over whatever path was there |
| Bip44.PassesIffValid | src/common/bip44.c:5-59 | a path passes exactly when all five levels are in range, and the stored path is then the one sent, big-endian |
| Bip44.StoredIsValidIff | src/common/bip44.c:21-58 | what is stored is a valid path exactly when the request passed or failed at change or address only |
| Bip44.PathBytewise | src/common/bip44.c:5-59 | the checks in numbers and in their order, each level four bytes, most significant first |
| Bip44.StoredBytewise | src/common/bip44.c:21-58 | which levels are stored after each status, zeros elsewhere |
| Pager.DisplayCtx.NextProp | src/ui/display.c:371-411 | one page on, over the end of a signer to the next one, with the sentinel indices the way back needs; at the end it stays; for any signers and sub-items the index types can count |
| Pager.DisplayCtx.PrevProp | src/ui/display.c:413-460 | one page back, into the last page of the signer before, or before the first page |
| Pager.NextIsCanonical | src/ui/display.c:371-411 | next_prop adds one to the rank in the list of all pages, except at the end; rank -1 is exactly START and rank N exactly END |
| Pager.PrevIsCanonical | src/ui/display.c:413-460 | prev_prop subtracts one from every rank from 0 to N |
| Pager.RankInjective | src/ui/display.c:371-460 | a rank belongs to one state of the four indices only |
| Pager.NextPrevUndo | src/ui/display.c:371-460 | next_prop and prev_prop undo each other |
| Pager.PageUnderIsRanked | src/ui/display.c:462-515 | the page drawn for a cursor is the one at its rank in the list of all pages |
| Pages.PagesAreInShape | src/ui/display.c:477-510 | the list of all pages has exactly an index, account and scope page for each signer and a page for each contract and group |
| Pages.PageInList | src/ui/display.c:477-510 | where in the list each of them is |
| Pages.PagesSpelled | src/ui/display.c:369-411 | index, account and scope page, then the contracts, then the groups |
| Pages.ScreensSpelled | src/ui/display.c:230-251 | the screens of a transfer in their order |
| Pages.PressesSpelled | src/ui/display.c:517-575 | Right is one screen on, Left one back, not beyond the ends |
| Texts.HexSpelled | src/ui/display.c:489-507 | two hexadecimal digits a byte, the upper half first |
| Texts.ScopesSpelled | src/ui/display.c:335-358 | the names of the scopes |
| Texts.NetworksSpelled | src/ui/display.c:282-288 | MainNet exactly for 860833102, TestNet exactly for 877933390, other magics below 2^31 as numbers |
| Drawing.PagesSpelledOut | src/ui/display.c:477-510 | titles and texts of all pages of an accepted transaction |
| Texts.NumberShown | src/ui/display.c:287-322 | what "%d" of an unsigned number leaves in 11 characters: the number below 2^31, and from there on a minus sign and the digits of 2^32 less the number, the tenth digit cut |
| Texts.NumberShownIff | src/ui/display.c:322 | the height is shown as such exactly below 2^31 |
| Texts.SameNumberShownIff | src/ui/display.c:322 | exactly which numbers share a text: none below 2^31 |
| Texts.SameNumberExample | src/ui/display.c:287 | 2^31, 2^31 + 1 and 4080218932 are all shown as -214748364 |
| Texts.NetworkShown | src/ui/display.c:282-288 | the network text is the name of a known network, or what is readable of the magic |
| Texts.ShownAsSuchIff | src/ui/display.c:282-288 | name or number of the network, and the height, are shown as such exactly below 2^31 |
| Texts.SameNetworkShownIff | src/ui/display.c:282-288 | exactly which magics share a text: none below 2^31 |
| Texts.HexInjective | src/ui/display.c:489 | the hexadecimal text of bytes tells them apart |
| Texts.HexShownWhole | src/ui/display.c:489-501 | accounts and contracts are shown whole |
| Texts.GroupCutShort | src/ui/display.c:507 | a group is never shown whole; two groups show the same exactly when they agree in 31 bytes and the upper half of the next |
| Texts.GroupExample | src/ui/display.c:507 | two groups that differ in their last byte only show the same |
| Texts.ScopeShown | src/ui/display.c:335-358 | a scope with a name shows it whatever was shown before; one without shows what was shown before |
| Texts.SameScopeShownIff | src/ui/display.c:335-358 | exactly which accepted scopes share a name: those that differ only in flags parse_scope_name does not know |
| Texts.ScopeExamples | src/ui/display.c:335-358 | 0x41 is shown as 0x01; 0x40, which is accepted, as the scope before it |
| Drawing.PageShowsSigner | src/ui/display.c:477-510 | every page shows the account, scope, contract or group of the transaction that it is for: accounts and contracts whole, a group cut, a scope by the flags with a name |
| Drawing.PageWholeIff | src/ui/display.c:477-510 | of the items, exactly the groups are cut |
| Drawing.HeldIsDrawable | src/ui/display.c:462-510 | all a page of an accepted transaction reads is inside the stored bytes |
| Display.Flow.ParseScopeName | src/ui/display.c:335-358 | the name buffer and the length returned, for every scope |
| Display.Flow.Draw | src/ui/display.c:477-510 | title, text and name buffer for the page under the cursor |
| Display.Flow.CreateTransactionFlow | src/ui/display.c:218-252 | the thirteen steps for a transfer, the two for anything else, and their end mark |
| Display.Flow.GetNextData | src/ui/display.c:462-515 | moves the cursor one page and says whether it is on one; only then title and text are overwritten, with those of that page |
| Display.Flow.DisplayNextState | src/ui/display.c:517-575 | from a static step a delimiter enters the pages, on a page it goes one further, or leaves them on its side; the screen state is dynamic exactly on a page |
| Display.Flow.PressKey | src/ui/display.c:218-575 | with the delimiters the flow of a transfer is a plain walk over the list of steps and pages: a press moves by one, and stays at the ends; the text is that of the last page drawn, or the amount; prev_prop is never called before the first page |
| Display.AnswersAt | src/ui/display.c:218-252 | Approve is the place behind all pages, Reject the one after it |
| Display.ScreenIsAt | src/ui/display.c:218-252 | the screen on is the one at that place of the list |
| Pages.Passed | src/ui/display.c:517-575 | a screen is reached only over all screens before it |
| Pages.ApproveAfterAll | src/ui/display.c:218-252 | Approve is reached only after every step above and every page of every signer was on, and the amount screen showed the amount |
| Pages.AmountUntilFirstPage | src/ui/display.c:488-501 | the text buffer holds the amount exactly until the first page has been drawn |
| Pages.AmountOverwritten | src/ui/display.c:138-143 | after paging back from the first signer page, the screen titled as the amount shows that page's text |
| Handlers.NumberText | src/ui/display.c:263-274 | format_fpu64 into 30 zeroed characters always succeeds for up to 8 decimals and gives the whole text: the SW_DISPLAY_* failures do not happen |
| Handlers.AddressOfKey | src/ui/display.c:91-101 | the address of the key, always: SW_CONVERT_TO_ADDRESS_FAIL does not happen |
| Handlers.Context.HandlerSignTx | src/handler/sign_tx.c:36-115 | the new context and the answer are those of the relation SignTx: chunk by chunk, and unchanged where refused |
| Handlers.Context.Append | src/handler/sign_tx.c:65-72 | data is appended exactly when it fits in 1024 bytes, and otherwise nothing changes |
| Handlers.Context.ParseAndDisplay | src/handler/sign_tx.c:83-110 | the stored bytes are parsed into the structure, and on success hashed and shown |
| Handlers.Context.UiDisplayTransaction | src/ui/display.c:254-331 | the texts of destination, amount and asset, network, fees, their sum and height of the structure, cut to their buffers, in state PARSED only |
| Handlers.Context.HandlerGetPublicKey | src/handler/get_public_key.c:38-60 | zeroes the context, stores the path, and shows the address of its key or sends the key; which of the two, and when, is KeySentIff |
| Handlers.Context.UiActionValidateTransaction | src/ui/action/validate.c:38-58 | signs exactly when approved; that nothing else does is SignatureOnlyBySigning |
| Handlers.Context.CryptoSignTx | src/crypto.c:59-104 | the digest signed is that of the magic, little-endian, and the stored hash, under the stored path |
| Devices.App.ApduDispatcher | src/apdu/dispatcher.c:33-87 | class, instruction, P1 and P2 limits and nonempty data are checked as written, and nothing changes where they fail |
| Devices.App.Command | src/apdu/dispatcher.c:33-87 | a command takes the device by a step of the session relation, and keeps the invariant |
| Devices.App.PressKey | src/ui/display.c:517-575 | so does a left or right press |
| Devices.App.PressBoth | src/ui/action/validate.c:28-58 | so does pressing both buttons, which answers only on Approve, Reject and Abort |
| SessionInvariant.SpentExtends | src/handler/sign_tx.c:64-72 | more bytes never make an extended buffer acceptable again |
| SessionInvariant.ScriptFoundIsSpent | src/handler/sign_tx.c:83-87 | a parse that found the end of the script, accepted or not, is the last that can be accepted |
| SessionInvariant.SlotsBelongExtends | src/transaction/deserialize.c:99-131 | what earlier parses left in the signer slots fits the bytes also when more are appended |
| SessionInvariant.HeldIsShown | src/ui/display.c:254-331 | the texts of a parsed structure are those of the transaction itself: nothing is cut but network and height, and the total is the true sum of the fees |
| SessionInvariant.MarkedAfter | src/transaction/deserialize.c:146-160 | in any reachable state: the attribute slots after a final chunk are marked exactly when the bytes reach an attribute, and with marked slots nothing is accepted |
| SessionInvariant.LastChunkOutcome | src/handler/sign_tx.c:76-110 | the final chunk in any reachable state: the answer as a function of bytes, magic and whether an earlier final chunk has reached an attribute; presented exactly when the bytes are accepted into a zeroed structure and none has; and the invariant stays |
| SessionTheorems.CommandStep | src/handler/sign_tx.c:36-115 | every command keeps the invariant (at most 1024 bytes; CONFIRM_ADDRESS only in STATE_NONE; BIP44_OK only with a valid path; attribute slots zeroed, or marked by bytes that reach an attribute; a recognised script only in a buffer no extension of which is accepted) and the context follows what was sent |
| SessionTheorems.RunKeeps | src/handler/sign_tx.c:36-115 | over every run: the invariant, and path, magic and bytes in the context are what the host sent since the last first chunk, as far as it was taken |
| SessionTheorems.RefusedIff | src/handler/sign_tx.c:50-67 | SW_BAD_STATE is the answer exactly to a later chunk with no first chunk since the last reset (so the one in ui_display_transaction is never reached, and the order of the chunks is not enforced); SW_WRONG_TX_LENGTH exactly to a piece with no room, and then nothing changes |
| SessionTheorems.FinalPiece | src/handler/sign_tx.c:76-110 | over every run: a transaction is presented exactly at a final piece with room, after a first chunk, that completes bytes accepted into a zeroed structure, when no earlier final piece of the session came after an attribute was reached; and the answer to every other final piece |
| SessionTheorems.PresentedOnce | src/handler/sign_tx.c:59-110 | between two presentations in a run there is a first chunk |
| SessionTheorems.SignedOnce | src/ui/action/validate.c:38-58 | between two calls of crypto_sign_tx in a run there is a first chunk |
| SessionTheorems.SignedIsShown | src/ui/action/validate.c:38-58 | what is shown is what is signed: at every call of crypto_sign_tx in a run the bytes sent encode a NEO or GAS transfer, the screens before it, all of them, showed what these bytes and the magic say (network and height as such exactly below 2^31, groups never whole, scopes by the flags with a name), with nothing but presses in between, and the signed message is that magic and the hash of these bytes |
| SessionTheorems.AmountShownIff | src/ui/display.c:262-279 | the amount shown is the number the script pushes exactly when that is not negative, and the text shown is of no other number |
| SessionTheorems.SignedPathValidIff | src/handler/sign_tx.c:42-48 | the path that signs is valid exactly when the last first chunk's path passed, or was refused at change or address |
| SessionTheorems.MagicOkWithoutPath | src/handler/sign_tx.c:50-58 | a run that reaches STATE_MAGIC_OK without a valid path |
| SessionTheorems.AnySplit | src/handler/sign_tx.c:64-106 | chunking does not matter: any split of the same bytes into nonempty pieces, any P1 in 2 to 6, gives the same stored bytes, hash and answer, a function of bytes and magic |
| Answers.CommandAnswers | src/apdu/dispatcher.c:33-87 | the answer to every command of every run, in numbers, from the commands sent |
| Answers.FinalAnswerIs | src/handler/sign_tx.c:83-110 | the answer to a final piece: shown when accepted, else the status; a duplicate once the attribute was reached |
| Answers.HeardSpelled | src/handler/sign_tx.c:36-82 | what a command adds to what was sent, in numbers |
| Answers.SignatureOnlyBySigning | src/ui/action/validate.c:38-58 | over every run, a signature, or the news that none could be made, leaves only at Approve of a review |
| Answers.RejectDenies | src/ui/action/validate.c:51-54 | over every run, both buttons on Reject or Abort answer exactly SW_DENY |
| Answers.OthersAreSilent | src/ui/display.c:62-79 | all other presses are silent |
| Answers.AnswersAreAt | src/ui/display.c:62-79 | an answer is shown exactly on Approve and Reject of a transfer, on Abort, and on the third and fourth step of an address |
| Answers.KeySentIff | src/handler/get_public_key.c:38-60 | over every run, exactly when a public key leaves and which: at a GET_PUBLIC_KEY with P2 0 and a path that passes, or at both buttons on Approve of an address that one with P2 1 put on the screen |
| Answers.KeyDenied | src/ui/action/validate.c:28-36 | both buttons on Reject of an address deny |
| SignedBytes.FeeReadsBack | src/ui/display.c:295-317 | every fee text is GAS and reads as fee / 10^8 with exactly eight fraction digits |
| SignedBytes.AmountReadsBack | src/ui/display.c:266-279 | NEO amounts read as whole numbers, GAS amounts as amount / 10^8, the asset in front |
| SignedBytes.MagicBytes | src/crypto.c:66-70 | the magic that is signed is, byte for byte, the one that was sent |
| SignedBytes.ScreenReadsSignedBytes | src/ui/action/validate.c:38-58 | at every call of crypto_sign_tx in a run, the texts shown, read back as numbers and addresses, are what the signed bytes say at their places: destination, amount, asset, both fees and their sum, height, and the magic |
| Placement.SlotsExist | src/transaction/deserialize.c:73-132 | for every accepted buffer there are slots that hold its signers, at their places in it |
| Progress.ParseExists | src/transaction/deserialize.c:25-179 | for all bytes and every structure there is a result that is as promised |
| Progress.EventsAreAnswered | src/apdu/dispatcher.c:33-87 | no event leaves the device without a next state: every command in the menu is answered or put on the screen |
| Progress.EveryTransferCanBeSigned | src/handler/sign_tx.c:36-115 | for every well-formed transfer that fits, every magic, and whatever was sent for a path, there is a run that ends with crypto_sign_tx called for it |
| Progress.SignsWithoutPath | src/handler/sign_tx.c:42-62 | a run that signs although the only path sent was refused |
| Progress.SecondTryIsDuplicate | src/transaction/deserialize.c:146-160 | a valid transaction sent as two final pieces, the first reaching the attribute, is refused as having it twice |
| Progress.DuplicateExample | src/transaction/deserialize.c:146-160 | such a transaction and such a run |

## Left out

- SHA-256, RIPEMD-160, key derivation, ECDSA: foreign calls; arbitrary functions here.
- `src/io.c`, `src/main.c`, exceptions: I/O whose other half is not in the repository; the assumption on commands stands for it.
- `src/apdu/parser.c`: a command is taken as already split into its fields; it has at most 255 data bytes, and no data exactly when its length byte is 0.
- Icons, menus and the titles of static steps.
- Display.Flow.Draw: reads a copy of the signers and bytes taken when the review starts, not the global context; nothing changes them while a review is on. The text buffers are values, not arrays.
- `bnnn_paging_edgecase`: modelled as its effect, back to the generic step; how long texts are paged within a step is the SDK's.
- `get_version`, `get_app_name`, `send_response`, `format_hex`, the numbers of the status words: constants or one-step copies.
- The raw public key shares memory with the transaction; that is modelled in `Handlers`, where the stored transaction is empty whenever a key is there.
- Deserialize.TransactionStruct.TransactionDeserialize: of what a refused parse leaves behind, the attribute slots and transfer fields are stated exactly, and of the signer slots that they fit the bytes; header fields, sizes and offsets of a refused parse, which no later step reads, are not stated.
- The Python client and tests, and `doc/TRANSACTION.md`, which describes another chain. `doc/COMMANDS.md` and the code differ on P2 of the chunks; the code is followed.
