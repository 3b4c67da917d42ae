/** The formats, byte by byte, as the source spells them out: where each field lies, which bytes are
    refused with which status. Everything here is said in numbers, of the functions the parsers are
    proved against. */
module Layout {
  import opened Bytes
  import opened Numerals
  import opened Varint
  import opened Grammar
  import opened GrammarTheorems
  import opened Texts

  // ---------------------------------------------------------------- flags

  lemma OneMore(b: bv8)
    requires b != 0xFF
    ensures (b + 1) as int == (b as int) + 1
  {
  }

  /** Every byte has its bits. */
  lemma {:induction false} BitsOf(s: byte) returns (b: bv8)
    ensures b as int == s
  {
    b := 0;
    if s > 0 {
      b := BitsOf(s - 1);
      OneMore(b);
      b := b + 1;
    }
  }

  lemma ContractsBit(b: bv8)
    ensures b & 0x10 == 0x10 <==> (b as int) / 0x10 % 2 == 1
  {
  }

  lemma GroupsBit(b: bv8)
    ensures b & 0x20 == 0x20 <==> (b as int) / 0x20 % 2 == 1
  {
  }

  lemma GlobalBit(b: bv8)
    ensures b & 0x80 == 0x80 <==> (b as int) >= 0x80
  {
  }

  lemma EntryBit(b: bv8)
    ensures b & 0x01 == 0x01 <==> (b as int) % 2 == 1
  {
  }

  /** The flags are the source's tests of single bits, for every scope byte. */
  lemma FlagsAreBits(s: byte, b: bv8)
    requires b as int == s
    ensures HasContracts(s) <==> b & 0x10 == 0x10
    ensures HasGroups(s) <==> b & 0x20 == 0x20
    ensures HasGlobal(s) <==> b & 0x80 == 0x80
    ensures HasEntry(s) <==> b & 0x01 == 0x01
  {
    ContractsBit(b);
    GroupsBit(b);
    GlobalBit(b);
    EntryBit(b);
  }

  // ---------------------------------------------------------------- numbers

  lemma LeCons(s: seq<byte>)
    requires s != []
    ensures Le(s) == s[0] + 256 * Le(s[1..])
    ensures Le([]) == 0
  {
  }

  lemma {:induction false} LeSnoc(s: seq<byte>)
    requires s != []
    ensures Le(s) == Le(s[..|s| - 1]) + Pow(256, |s| - 1) * s[|s| - 1]
  {
    hide Le, Pow;
    LeCons(s);
    if |s| == 1 {
      EmptyPower();
      assert s[1..] == [];
    } else {
      var n, last: nat := |s| - 1, s[|s| - 1];
      LeSnoc(s[1..]);
      LeCons(s[..n]);
      assert s[1..][..n - 1] == s[..n][1..];
      PowStep(256, n - 1);
      MulAssociative(256, Pow(256, n - 1), last);
    }
  }

  lemma EmptyPower()
    ensures Pow(256, 0) == 1
  {
  }

  /** Least significant byte first, and most significant byte first. */
  lemma ByteOrder(a: byte, b: byte, c: byte, d: byte)
    ensures Le([a, b, c, d]) == a + 0x100 * b + 0x1_0000 * c + 0x100_0000 * d
    ensures Be([a, b, c, d]) == 0x100_0000 * a + 0x1_0000 * b + 0x100 * c + d
  {
    hide Le, Value;
    LeCons([a, b, c, d]);
    LeCons([b, c, d]);
    LeCons([c, d]);
    LeCons([d]);
    assert [a, b, c, d][1..] == [b, c, d] && [b, c, d][1..] == [c, d] && [c, d][1..] == [d] && [d][1..] == [];
    EmptyValue(256);
    ValueSnoc(256, [], a);
    ValueSnoc(256, [a], b);
    ValueSnoc(256, [a, b], c);
    ValueSnoc(256, [a, b, c], d);
    assert [] + [a] == [a] && [a] + [b] == [a, b] && [a, b] + [c] == [a, b, c] && [a, b, c] + [d] == [a, b, c, d];
  }

  /** A signed 64-bit number is negative when the top bit of its last byte is set. */
  lemma NegativeIff(s: seq<byte>)
    requires |s| == 8
    ensures 2 * Le(s) >= Pow(256, 8) <==> s[7] >= 0x80
  {
    hide Le;
    LeSnoc(s);
    BytesOfLe(s[..7]);
    assert Pow(256, 7) == 0x100_0000_0000_0000 && Pow(256, 8) == 0x1_0000_0000_0000_0000;
  }

  /** The four forms of a count, by the first byte. */
  lemma VarintForms(s: seq<byte>)
    ensures Parsed(s).None? <==>
            |s| < (if s == [] || s[0] < 0xFD then 1 else if s[0] == 0xFD then 3 else if s[0] == 0xFE then 5 else 9)
    ensures s != [] && s[0] < 0xFD ==> Parsed(s) == Some(Varint(1, s[0]))
    ensures |s| >= 3 && s[0] == 0xFD ==> Parsed(s) == Some(Varint(3, Le(s[1..3])))
    ensures |s| >= 5 && s[0] == 0xFE ==> Parsed(s) == Some(Varint(5, Le(s[1..5])))
    ensures |s| >= 9 && s[0] == 0xFF ==> Parsed(s) == Some(Varint(9, Le(s[1..9])))
  {
  }

  /** The lengths varint_write chooses. */
  lemma VarintLengths(value: u64)
    ensures VarintSize(value) == 1 <==> value < 253
    ensures VarintSize(value) == 3 <==> 253 <= value < 65536
    ensures VarintSize(value) == 5 <==> 65536 <= value < 4294967296
    ensures VarintSize(value) == 9 <==> value >= 4294967296
  {
  }

  // ---------------------------------------------------------------- the header

  /** Version, nonce, system fee, network fee, height: where they lie, and the status of the first that
      is missing or out of range. */
  lemma HeaderBytewise(s: seq<byte>)
    ensures s == [] ==> TakeHeader(s) == Fail(VersionParsingError)
    ensures s != [] && s[0] > 0 ==> TakeHeader(s) == Fail(VersionValueError)
    ensures 1 <= |s| < 5 && s[0] == 0 ==> TakeHeader(s) == Fail(NonceParsingError)
    ensures 5 <= |s| < 13 && s[0] == 0 ==> TakeHeader(s) == Fail(SystemFeeParsingError)
    ensures |s| >= 13 && s[0] == 0 && s[12] >= 0x80 ==> TakeHeader(s) == Fail(SystemFeeValueError)
    ensures 13 <= |s| < 21 && s[0] == 0 && s[12] < 0x80 ==> TakeHeader(s) == Fail(NetworkFeeParsingError)
    ensures |s| >= 21 && s[0] == 0 && s[12] < 0x80 && s[20] >= 0x80 ==> TakeHeader(s) == Fail(NetworkFeeValueError)
    ensures 21 <= |s| < 25 && s[0] == 0 && s[12] < 0x80 && s[20] < 0x80 ==>
              TakeHeader(s) == Fail(ValidUntilBlockParsingError)
    ensures |s| >= 25 && s[0] == 0 && s[12] < 0x80 && s[20] < 0x80 ==>
              TakeHeader(s).Parse? && TakeHeader(s).rest == s[25..]
              && TakeHeader(s).value.nonce == Le(s[1..5])
              && TakeHeader(s).value.systemFee == Le(s[5..13])
              && TakeHeader(s).value.networkFee == Le(s[13..21])
              && TakeHeader(s).value.validUntilBlock == Le(s[21..25])
  {
    hide Le, LeBytes, Pow;
    var s1 := if |s| >= 1 then s[1..] else [];
    var s5 := if |s| >= 5 then s[5..] else [];
    var s13 := if |s| >= 13 then s[13..] else [];
    var s21 := if |s| >= 21 then s[21..] else [];
    if |s| >= 1 { assert s[..1][0] == s[0]; }
    if |s| >= 5 { assert s1[..4] == s[1..5] && s1[4..] == s5; }
    if |s| >= 13 { assert s5[..8] == s[5..13] && s5[8..] == s13; NegativeIff(s[5..13]); }
    if |s| >= 21 { assert s13[..8] == s[13..21] && s13[8..] == s21; NegativeIff(s[13..21]); }
    if |s| >= 25 { assert s21[..4] == s[21..25] && s21[4..] == s[25..]; }
  }

  // ---------------------------------------------------------------- lists and signers

  /** A byte string cut into n items. */
  ghost function Chunks(s: seq<byte>, n: nat, size: nat): seq<seq<byte>>
    requires n * size <= |s| && n <= 2
  {
    if n == 0 then [] else if n == 1 then [s[..size]] else [s[..size], s[size..2 * size]]
  }

  lemma ItemsBytewise(s: seq<byte>, n: nat, size: nat, short: Status)
    requires n <= 2
    ensures |s| < n * size ==> TakeItems(s, n, size, short, []) == Fail(short)
    ensures |s| >= n * size ==> TakeItems(s, n, size, short, []) == Parse(Chunks(s, n, size), s[n * size..])
  {
    if n >= 1 && |s| >= size {
      var s1 := s[size..];
      assert [] + [s[..size]] == [s[..size]];
      assert TakeItems(s, n, size, short, []) == TakeItems(s1, n, size, short, [s[..size]]);
      if n == 2 && |s1| >= size {
        assert s1[..size] == s[size..2 * size] && s1[size..] == s[2 * size..];
        assert [s[..size]] + [s1[..size]] == [s[..size], s1[..size]];
        assert TakeItems(s1, 2, size, short, [s[..size]])
               == TakeItems(s1[size..], 2, size, short, [s[..size], s1[..size]]);
      }
    }
    if n == 0 { assert s[0..] == s; }
  }

  lemma ListFound(s: seq<byte>, size: nat, short: Status, large: Status, shortItem: Status, w: nat, n: nat)
    requires Parsed(s) == Some(Varint(w, n)) && w <= |s|
    ensures var l := TakeList(s, true, size, short, large, shortItem);
            && (n > 2 ==> l == Fail(large))
            && (n <= 2 ==> var items := TakeItems(s[w..], n, size, shortItem, []);
                           l == if items.Fail? then Fail(items.status) else Parse(Items(w, items.value), items.rest))
  {
    hide TakeItems, Parsed;
  }

  /** A list of at most two items of a size, behind their number, or none at all. */
  lemma ListBytewise(s: seq<byte>, size: nat, short: Status, large: Status, shortItem: Status, w: nat, n: nat)
    requires Parsed(s).Some? ==> Parsed(s) == Some(Varint(w, n))
    ensures TakeList(s, false, size, short, large, shortItem) == Parse(Absent, s)
    ensures Parsed(s).None? ==> TakeList(s, true, size, short, large, shortItem) == Fail(short)
    ensures Parsed(s).Some? ==> w <= |s|
    ensures Parsed(s).Some? && n > 2 ==> TakeList(s, true, size, short, large, shortItem) == Fail(large)
    ensures Parsed(s).Some? && n <= 2 && |s[w..]| < n * size ==>
              TakeList(s, true, size, short, large, shortItem) == Fail(shortItem)
    ensures Parsed(s).Some? && n <= 2 && |s[w..]| >= n * size ==>
              TakeList(s, true, size, short, large, shortItem)
              == Parse(Items(w, Chunks(s[w..], n, size)), s[w..][n * size..])
  {
    if Parsed(s).None? {
    } else {
      hide TakeItems, TakeList, Parsed, Chunks;
      WrittenParse(s);
      ListFound(s, size, short, large, shortItem, w, n);
      if n <= 2 { ItemsBytewise(s[w..], n, size, shortItem); }
    }
    NoList(s, size, short, large, shortItem);
  }

  lemma NoList(s: seq<byte>, size: nat, short: Status, large: Status, shortItem: Status)
    ensures TakeList(s, false, size, short, large, shortItem) == Parse(Absent, s)
  {
  }

  /** The refusals up to the scope: 20 bytes of account, not one that was there before; one byte of
      scope, 0x80 only alone. */
  lemma SignerRefused(s: seq<byte>, earlier: seq<Signer>)
    ensures |s| < 20 ==> TakeSigner(s, earlier) == Fail(SignerAccountParsingError)
    ensures |s| >= 20 && (exists i :: 0 <= i < |earlier| && earlier[i].account == s[..20]) ==>
              TakeSigner(s, earlier) == Fail(SignerAccountDuplicateError)
    ensures |s| == 20 && (forall i :: 0 <= i < |earlier| ==> earlier[i].account != s[..20]) ==>
              TakeSigner(s, earlier) == Fail(SignerScopeParsingError)
    ensures |s| > 20 && (forall i :: 0 <= i < |earlier| ==> earlier[i].account != s[..20]) && s[20] > 0x80 ==>
              TakeSigner(s, earlier) == Fail(SignerScopeValueErrorGlobalFlag)
  {
    hide TakeList;
    if |s| > 20 { assert s[20..][..1][0] == s[20]; }
  }

  ghost predicate FreshSigner(s: seq<byte>, earlier: seq<Signer>) {
    |s| > 20 && s[20] <= 0x80 && forall i :: 0 <= i < |earlier| ==> earlier[i].account != s[..20]
  }

  /** Behind the scope come the contracts, when bit 0x10 is set, and then the groups, when bit 0x20 is.
      A truncated group gives the status of a truncated contract. */
  lemma SignerLists(s: seq<byte>, earlier: seq<Signer>, b: bv8)
    requires FreshSigner(s, earlier) && b as int == s[20]
    ensures var contracts := TakeList(s[21..], b & 0x10 == 0x10, 20,
              SignerAllowedContractsLengthParsingError, SignerAllowedContractsLengthValueError,
              SignerAllowedContractParsingError);
            if contracts.Fail? then TakeSigner(s, earlier) == Fail(contracts.status) else
              var groups := TakeList(contracts.rest, b & 0x20 == 0x20, 33,
                SignerAllowedGroupsLengthParsingError, SignerAllowedGroupsLengthValueError,
                SignerAllowedContractParsingError);
              if groups.Fail? then TakeSigner(s, earlier) == Fail(groups.status) else
                TakeSigner(s, earlier) == Parse(Signer(s[..20], s[20], contracts.value, groups.value), groups.rest)
  {
    FlagsAreBits(s[20], b);
    hide TakeList, HasContracts, HasGroups;
    assert s[20..][..1][0] == s[20] && s[20..][1..] == s[21..];
  }

  /** A signer with bit 0x10 and not 0x20: account, scope, and a counted list of 20-byte items. */
  lemma SignerWithContracts(s: seq<byte>, earlier: seq<Signer>, b: bv8, w: nat, n: nat)
    requires FreshSigner(s, earlier) && b as int == s[20] && b & 0x10 == 0x10 && b & 0x20 != 0x20
    requires Parsed(s[21..]).Some? ==> Parsed(s[21..]) == Some(Varint(w, n))
    ensures Parsed(s[21..]).None? ==> TakeSigner(s, earlier) == Fail(SignerAllowedContractsLengthParsingError)
    ensures Parsed(s[21..]).Some? && n > 2 ==> TakeSigner(s, earlier) == Fail(SignerAllowedContractsLengthValueError)
    ensures Parsed(s[21..]).Some? ==> w <= |s[21..]|
    ensures Parsed(s[21..]).Some? && n <= 2 && |s[21..][w..]| < n * 20 ==>
              TakeSigner(s, earlier) == Fail(SignerAllowedContractParsingError)
    ensures Parsed(s[21..]).Some? && n <= 2 && |s[21..][w..]| >= n * 20 ==>
              TakeSigner(s, earlier)
              == Parse(Signer(s[..20], s[20], Items(w, Chunks(s[21..][w..], n, 20)), Absent), s[21..][w..][n * 20..])
  {
    SignerLists(s, earlier, b);
    hide TakeList, TakeSigner, Parsed, Chunks;
    ListBytewise(s[21..], 20, SignerAllowedContractsLengthParsingError, SignerAllowedContractsLengthValueError,
      SignerAllowedContractParsingError, w, n);
    var contracts := TakeList(s[21..], true, 20, SignerAllowedContractsLengthParsingError,
      SignerAllowedContractsLengthValueError, SignerAllowedContractParsingError);
    if contracts.Parse? {
      NoList(contracts.rest, 33, SignerAllowedGroupsLengthParsingError, SignerAllowedGroupsLengthValueError,
        SignerAllowedContractParsingError);
    }
  }

  /** A signer with bit 0x20 and not 0x10: account, scope, and a counted list of 33-byte items. */
  lemma SignerWithGroups(s: seq<byte>, earlier: seq<Signer>, b: bv8, w: nat, n: nat)
    requires FreshSigner(s, earlier) && b as int == s[20] && b & 0x20 == 0x20 && b & 0x10 != 0x10
    requires Parsed(s[21..]).Some? ==> Parsed(s[21..]) == Some(Varint(w, n))
    ensures Parsed(s[21..]).None? ==> TakeSigner(s, earlier) == Fail(SignerAllowedGroupsLengthParsingError)
    ensures Parsed(s[21..]).Some? && n > 2 ==> TakeSigner(s, earlier) == Fail(SignerAllowedGroupsLengthValueError)
    ensures Parsed(s[21..]).Some? ==> w <= |s[21..]|
    ensures Parsed(s[21..]).Some? && n <= 2 && |s[21..][w..]| < n * 33 ==>
              TakeSigner(s, earlier) == Fail(SignerAllowedContractParsingError)
    ensures Parsed(s[21..]).Some? && n <= 2 && |s[21..][w..]| >= n * 33 ==>
              TakeSigner(s, earlier)
              == Parse(Signer(s[..20], s[20], Absent, Items(w, Chunks(s[21..][w..], n, 33))), s[21..][w..][n * 33..])
  {
    SignerLists(s, earlier, b);
    hide TakeList, TakeSigner, Parsed, Chunks;
    NoList(s[21..], 20, SignerAllowedContractsLengthParsingError, SignerAllowedContractsLengthValueError,
      SignerAllowedContractParsingError);
    ListBytewise(s[21..], 33, SignerAllowedGroupsLengthParsingError, SignerAllowedGroupsLengthValueError,
      SignerAllowedContractParsingError, w, n);
  }

  /** One or two signers, one after the other. */
  lemma SignersBytewise(s: seq<byte>, w: nat, n: nat)
    requires Parsed(s).Some? ==> Parsed(s) == Some(Varint(w, n))
    ensures Parsed(s).None? ==> TakeCountedSigners(s) == Fail(SignerLengthParsingError)
    ensures Parsed(s).Some? ==> w <= |s|
    ensures Parsed(s).Some? && (n == 0 || n > 2) ==> TakeCountedSigners(s) == Fail(SignerLengthValueError)
    ensures Parsed(s).Some? && 1 <= n <= 2 ==>
              var g := TakeSigner(s[w..], []);
              if g.Fail? then TakeCountedSigners(s) == Fail(g.status)
              else if n == 1 then TakeCountedSigners(s) == Parse((w, [g.value]), g.rest)
              else
                var h := TakeSigner(g.rest, [g.value]);
                TakeCountedSigners(s) == if h.Fail? then Fail(h.status) else Parse((w, [g.value, h.value]), h.rest)
  {
    hide TakeSigner, Parsed;
    if Parsed(s).Some? {
      WrittenParse(s);
      if 1 <= n <= 2 {
        var g := TakeSigner(s[w..], []);
        if g.Parse? {
          assert [] + [g.value] == [g.value];
          assert TakeSigners(s[w..], n, []) == TakeSigners(g.rest, n, [g.value]);
          if n == 2 {
            var h := TakeSigner(g.rest, [g.value]);
            if h.Parse? {
              assert [g.value] + [h.value] == [g.value, h.value];
              assert TakeSigners(g.rest, 2, [g.value]) == TakeSigners(h.rest, 2, [g.value, h.value]);
            }
          }
        }
      }
    }
  }

  // ---------------------------------------------------------------- attributes, script, and all

  /** The attributes: at most two are asked for, each has to be type 1 and none that is in the slots in
      use already, so the second is always refused. */
  lemma AttributesBytewise(s: seq<byte>, slots: Slots, w: nat, n: nat)
    requires Parsed(s).Some? ==> Parsed(s) == Some(Varint(w, n))
    ensures Parsed(s).None? ==> TakeCountedAttributes(s, slots) == Fail(AttributesLengthParsingError)
    ensures Parsed(s).Some? ==> w <= |s|
    ensures Parsed(s).Some? && n > 2 ==> TakeCountedAttributes(s, slots) == Fail(AttributesLengthValueError)
    ensures Parsed(s).Some? && n == 0 ==> TakeCountedAttributes(s, slots) == Parse((w, []), s[w..])
    ensures Parsed(s).Some? && 1 <= n <= 2 ==>
              var rest := s[w..];
              TakeCountedAttributes(s, slots)
              == if rest == [] || rest[0] != 1 then Fail(AttributesUnsupportedType)
                 else if slots[0] == 1 || (n == 2 && slots[1] == 1) then Fail(AttributesDuplicateType)
                 else if n == 1 then Parse((w, [1]), rest[1..])
                 else if |rest| == 1 || rest[1] != 1 then Fail(AttributesUnsupportedType)
                 else Fail(AttributesDuplicateType)
  {
    hide Parsed;
    if Parsed(s).Some? {
      WrittenParse(s);
      if 1 <= n <= 2 { AttributeBytes(s[w..], n, slots); }
    }
  }

  lemma AttributeBytes(rest: seq<byte>, n: nat, slots: Slots)
    requires 1 <= n <= 2
    ensures TakeAttributes(rest, n, slots, [])
            == if rest == [] || rest[0] != 1 then Fail(AttributesUnsupportedType)
               else if slots[0] == 1 || (n == 2 && slots[1] == 1) then Fail(AttributesDuplicateType)
               else if n == 1 then Parse([1], rest[1..])
               else if |rest| == 1 || rest[1] != 1 then Fail(AttributesUnsupportedType)
               else Fail(AttributesDuplicateType)
  {
    if rest != [] && rest[0] == 1 && slots[0] != 1 && !(n == 2 && slots[1] == 1) {
      assert rest[..1] == [1] && [] + [1] == [1];
      var next := slots[0 := 1];
      assert TakeAttributes(rest, n, slots, []) == TakeAttributes(rest[1..], n, next, [1]);
      if n == 2 && |rest| > 1 {
        assert rest[1..][..1][0] == rest[1] && next[0] == 1;
      }
    }
  }

  /** The script: 1 to 65535 bytes, behind their number. */
  lemma ScriptBytewise(s: seq<byte>, w: nat, n: nat)
    requires Parsed(s).Some? ==> Parsed(s) == Some(Varint(w, n))
    ensures Parsed(s).None? ==> TakeScript(s) == Fail(ScriptLengthParsingError)
    ensures Parsed(s).Some? ==> w <= |s|
    ensures Parsed(s).Some? && (n == 0 || n > 65535 || n > |s[w..]|) ==> TakeScript(s) == Fail(ScriptLengthValueError)
    ensures Parsed(s).Some? && 0 < n <= 65535 && n <= |s[w..]| ==>
              TakeScript(s) == Parse((w, s[w..][..n]), s[w..][n..])
  {
    hide Parsed;
    if Parsed(s).Some? { WrittenParse(s); }
  }

  /** The parts in their order: the first that is refused gives the status; more than 1024 bytes, or
      bytes behind the script, are a wrong length. */
  lemma PartsInOrder(bytes: seq<byte>, slots: Slots)
    ensures |bytes| > 1024 ==> Parsing(bytes, slots) == Fail(InvalidLengthError)
    ensures |bytes| <= 1024 ==>
              var h := TakeHeader(bytes);
              if h.Fail? then Parsing(bytes, slots) == Fail(h.status) else
                var g := TakeCountedSigners(h.rest);
                if g.Fail? then Parsing(bytes, slots) == Fail(g.status) else
                  var a := TakeCountedAttributes(g.rest, slots);
                  if a.Fail? then Parsing(bytes, slots) == Fail(a.status) else
                    var c := TakeScript(a.rest);
                    if c.Fail? then Parsing(bytes, slots) == Fail(c.status)
                    else if c.rest != [] then Parsing(bytes, slots) == Fail(InvalidLengthError)
                    else Parsing(bytes, slots).Parse?
                         && Parsing(bytes, slots).value.header == h.value
                         && Parsing(bytes, slots).value.signers == g.value.1
                         && Parsing(bytes, slots).value.attributes == a.value.1
                         && Parsing(bytes, slots).value.script == c.value.1
  {
    hide TakeHeader, TakeCountedSigners, TakeCountedAttributes, TakeScript;
  }

  /** Where the header of an accepted transaction lies, and that the script is its end. */
  lemma AcceptedBytewise(raw: seq<byte>)
    requires Accepted(raw, FRESH)
    ensures var t := Parsing(raw, FRESH).value;
            && 25 < |raw| <= 1024 && raw[0] == 0
            && t.header.nonce == Le(raw[1..5]) && t.header.systemFee == Le(raw[5..13])
            && t.header.networkFee == Le(raw[13..21]) && t.header.validUntilBlock == Le(raw[21..25])
            && 0 < |t.script| <= |raw| - 25 && raw[|raw| - |t.script|..] == t.script
  {
    hide TakeHeader, TakeCountedSigners, TakeCountedAttributes, TakeScript, Parsing, Le, Serialize, WellFormed;
    HeaderBytewise(raw);
    PartsInOrder(raw, FRESH);
    ParserAgreesWithGrammar(raw);
    ScriptIsEnd(Parsing(raw, FRESH).value);
  }

  lemma ScriptIsEnd(t: Transaction)
    requires WellFormed(t)
    ensures 0 < |t.script| <= |Serialize(t)| - 25 && Serialize(t)[|Serialize(t)| - |t.script|..] == t.script
  {
    hide Written, CountedSignersBytes, WellFormedSigner, LeBytes;
  }
}
