/** The texts snprintf makes (src/ui/display.c), and what can be told from them. snprintf is not part
    of the source; here it is that of section 7.21.6 of ISO C11: it writes what fits and returns the
    length of the whole. The conversion H, which is the SDK's own, writes two hexadecimal digits for
    each byte. */
module Texts {
  import opened Bytes
  import opened Numerals
  import opened Format
  import opened Grammar

  const NETWORK_MAINNET: u32 := 860833102
  const NETWORK_TESTNET: u32 := 877933390

  // The sizes of the text buffers.
  const G_FEE_LEN := 30
  const G_NETWORK_LEN := 11
  const G_HEIGHT_LEN := 11
  const G_TEXT_LEN := 64
  const G_ADDRESS_LEN := 35

  /** What a buffer of that size gets of a text: all that leaves room for the terminator. */
  function Cut(size: nat, text: string): (shown: string)
    requires size > 0
    ensures shown <= text && |shown| < size
  {
    if |text| < size then text else text[..size - 1]
  }

  // ---------------------------------------------------------------- numbers

  /** "%d" of an unsigned 32-bit argument, which is taken as signed. */
  function PercentD(v: u32): string {
    IntText(if v < 0x8000_0000 then v else v - 0x1_0000_0000)
  }

  /** The magnitude that stays readable of a number from 2^31 on: its digits but a tenth. */
  function Kept(v: u32): nat {
    var magnitude := 0x1_0000_0000 - v;
    if magnitude >= 1000000000 then magnitude / 10 else magnitude
  }

  lemma DigitCount(n: nat, digits: nat)
    requires n < Pow(10, digits) && digits > 0
    ensures |DecimalText(n)| <= digits
  {
    hide Digits, Pow;
    if n > 0 { DigitsLength(10, n, digits); }
  }

  lemma DigitCountFrom(n: nat, digits: nat)
    requires n >= Pow(10, digits)
    ensures |DecimalText(n)| > digits
  {
    hide Digits, Pow;
    PowPositive(10, digits);
    ValueOfDigits(10, n);
    ValueBound(10, Digits(10, n));
    PowLess(10, digits, |Digits(10, n)|);
  }

  lemma TenPowers()
    ensures Pow(10, 9) == 1000000000 && Pow(10, 10) == 10000000000
  {
  }

  lemma DecimalTextInjective(a: nat, b: nat)
    ensures DecimalText(a) == DecimalText(b) <==> a == b
  {
    hide DecimalText, Value;
    DecimalReadsBack(a);
    DecimalReadsBack(b);
  }

  /** What "%d" leaves in 11 characters: the number below 2^31; from there on a minus sign and the
      kept digits. */
  lemma NumberShown(v: u32)
    ensures v < 0x8000_0000 ==> Cut(11, PercentD(v)) == DecimalText(v)
    ensures v >= 0x8000_0000 ==> Cut(11, PercentD(v)) == "-" + DecimalText(Kept(v))
  {
    hide DecimalText, Pow;
    TenPowers();
    if v < 0x8000_0000 {
      DigitCount(v, 10);
    } else {
      var magnitude := 0x1_0000_0000 - v;
      DigitCount(magnitude, 10);
      if magnitude >= 1000000000 {
        DigitCountFrom(magnitude, 9);
        LastDigitOff(magnitude);
      } else {
        DigitCount(magnitude, 9);
      }
    }
  }

  lemma LastDigitOff(n: nat)
    requires n > 9
    ensures |DecimalText(n)| > 1 && DecimalText(n)[..|DecimalText(n)| - 1] == DecimalText(n / 10)
  {
    DecimalStep(n);
  }

  /** The number is shown as such exactly below 2^31. */
  lemma NumberShownIff(v: u32)
    ensures Cut(11, PercentD(v)) == DecimalText(v) <==> v < 0x8000_0000
  {
    hide DecimalText;
    NumberShown(v);
    assert '0' <= DecimalText(v)[0] <= '9';
  }

  /** Exactly which numbers share a text: only numbers from 2^31 on, and those whose kept digits are
      the same. */
  lemma SameNumberShownIff(a: u32, b: u32)
    ensures Cut(11, PercentD(a)) == Cut(11, PercentD(b)) <==>
            a == b || (a >= 0x8000_0000 && b >= 0x8000_0000 && Kept(a) == Kept(b))
  {
    hide DecimalText;
    NumberShown(a);
    NumberShown(b);
    assert '0' <= DecimalText(a)[0] <= '9' && '0' <= DecimalText(b)[0] <= '9';
    if a < 0x8000_0000 && b < 0x8000_0000 {
      DecimalTextInjective(a, b);
    } else if a >= 0x8000_0000 && b >= 0x8000_0000 {
      var s, t := DecimalText(Kept(a)), DecimalText(Kept(b));
      assert ("-" + s)[1..] == s && ("-" + t)[1..] == t;
      DecimalTextInjective(Kept(a), Kept(b));
    }
  }

  /** 2^31 is the first number to share its text: with 2^31 + 1, and with a number that is not cut. */
  lemma SameNumberExample()
    ensures Cut(11, PercentD(0x8000_0000)) == Cut(11, PercentD(0x8000_0001)) == Cut(11, PercentD(4080218932))
  {
    SameNumberShownIff(0x8000_0000, 0x8000_0001);
    SameNumberShownIff(0x8000_0000, 4080218932);
  }

  // ---------------------------------------------------------------- the network

  function NetworkText(magic: u32): string {
    Cut(G_NETWORK_LEN,
      if magic == NETWORK_MAINNET then "MainNet"
      else if magic == NETWORK_TESTNET then "TestNet"
      else PercentD(magic))
  }

  /** What is readable of a number, of a magic: see Kept. */
  function NumberFor(v: u32): string {
    if v < 0x8000_0000 then DecimalText(v) else "-" + DecimalText(Kept(v))
  }

  function NetworkFor(magic: u32): string {
    if magic == NETWORK_MAINNET then "MainNet"
    else if magic == NETWORK_TESTNET then "TestNet"
    else NumberFor(magic)
  }

  lemma NetworkShown(magic: u32)
    ensures NetworkText(magic) == NetworkFor(magic)
  {
    hide DecimalText, PercentD;
    NumberShown(magic);
  }

  function TrueNetwork(magic: u32): string {
    if magic == NETWORK_MAINNET then "MainNet"
    else if magic == NETWORK_TESTNET then "TestNet"
    else DecimalText(magic)
  }

  /** Magic and height are shown as such exactly below 2^31. */
  lemma ShownAsSuchIff(v: u32)
    ensures NumberFor(v) == DecimalText(v) <==> v < 0x8000_0000
    ensures NetworkFor(v) == TrueNetwork(v) <==> v < 0x8000_0000
  {
    hide DecimalText;
    assert '0' <= DecimalText(v)[0] <= '9';
  }

  /** Exactly which magics share a text: no two below 2^31. */
  lemma SameNetworkShownIff(a: u32, b: u32)
    ensures NetworkText(a) == NetworkText(b) <==>
            a == b || (a >= 0x8000_0000 && b >= 0x8000_0000 && Kept(a) == Kept(b))
  {
    hide DecimalText, PercentD;
    SameNumberShownIff(a, b);
    NumberShown(a);
    NumberShown(b);
    assert '0' <= DecimalText(a)[0] <= '9' && '0' <= DecimalText(b)[0] <= '9';
    assert "MainNet"[0] == 'M' && "TestNet"[0] == 'T';
  }

  // ---------------------------------------------------------------- bytes

  function HexDigit(d: nat): char
    requires d < 16
  {
    if d < 10 then (d + '0' as int) as char else (d - 10 + 'A' as int) as char
  }

  function HexText(bytes: seq<byte>): (text: string)
    ensures |text| == 2 * |bytes|
  {
    seq(2 * |bytes|, i requires 0 <= i < 2 * |bytes| =>
      HexDigit(if i % 2 == 0 then bytes[i / 2] / 16 else bytes[i / 2] % 16))
  }

  lemma HexDigits(bytes: seq<byte>, k: nat)
    requires k < |bytes|
    ensures HexText(bytes)[2 * k] == HexDigit(bytes[k] / 16) && HexText(bytes)[2 * k + 1] == HexDigit(bytes[k] % 16)
  {
  }

  lemma HexInjective(a: seq<byte>, b: seq<byte>)
    ensures HexText(a) == HexText(b) <==> a == b
  {
    hide HexText;
    if HexText(a) == HexText(b) {
      forall k | 0 <= k < |a| ensures a[k] == b[k] {
        HexDigits(a, k);
        HexDigits(b, k);
      }
    }
  }

  /** The text of up to 31 bytes is shown whole, and tells them apart: accounts and contracts. */
  lemma HexShownWhole(bytes: seq<byte>)
    requires |bytes| <= 31
    ensures Cut(G_TEXT_LEN, HexText(bytes)) == HexText(bytes)
  {
  }

  /** A group is never shown whole; two groups show the same exactly when they agree in 31 bytes and
      the upper half of the next one. */
  lemma GroupCutShort(a: seq<byte>, b: seq<byte>)
    requires |a| == |b| == 33
    ensures Cut(G_TEXT_LEN, HexText(a)) == HexText(a)[..63] != HexText(a)
    ensures Cut(G_TEXT_LEN, HexText(a)) == Cut(G_TEXT_LEN, HexText(b)) <==>
            a[..31] == b[..31] && a[31] / 16 == b[31] / 16
  {
    hide HexText;
    var s, t := HexText(a)[..63], HexText(b)[..63];
    HexDigits(a, 31);
    HexDigits(b, 31);
    forall k | 0 <= k < 31
      ensures a[k] == b[k] <==> s[2 * k] == t[2 * k] && s[2 * k + 1] == t[2 * k + 1]
    {
      HexDigits(a, k);
      HexDigits(b, k);
    }
    if a[..31] == b[..31] && a[31] / 16 == b[31] / 16 {
      forall i | 0 <= i < 63 ensures s[i] == t[i] {
        if i < 62 {
          assert a[i / 2] == b[i / 2];
          HexDigits(a, i / 2);
          HexDigits(b, i / 2);
        }
      }
    }
    if s == t {
      assert forall k :: 0 <= k < 31 ==> a[k] == b[k];
    }
  }

  /** Two groups that differ only in their last byte. */
  lemma GroupExample(key: seq<byte>)
    requires |key| == 32
    ensures key + [0] != key + [1] && Cut(G_TEXT_LEN, HexText(key + [0])) == Cut(G_TEXT_LEN, HexText(key + [1]))
  {
    GroupCutShort(key + [0], key + [1]);
    assert (key + [0])[32] != (key + [1])[32];
  }

  // ---------------------------------------------------------------- scopes

  predicate HasEntry(scope: byte) { scope % 2 == 1 }

  /** What parse_scope_name puts together of the flags it knows. */
  function ScopeNames(scope: byte): string {
    (if HasEntry(scope) then "By Entry," else "") + (if HasContracts(scope) then "Contracts," else "")
    + (if HasGroups(scope) then "Groups," else "")
  }

  /** It has a name for the scope: with none of its flags, and neither NONE nor GLOBAL, it has not. */
  predicate ScopeNamed(scope: byte) {
    scope == 0 || scope == GLOBAL || HasEntry(scope) || HasContracts(scope) || HasGroups(scope)
  }

  /** The name buffer afterwards: without a name it is not written. */
  function ScopeLeft(scope: byte, before: string): string {
    if scope == 0 then "None"
    else if scope == GLOBAL then "Global"
    else if ScopeNamed(scope) then ScopeNames(scope)
    else before
  }

  /** The length returned: of the name, or of the flags but their last comma; -1 without a name. */
  function ScopeLength(scope: byte): int {
    if scope == 0 || scope == GLOBAL then |ScopeLeft(scope, "")| else |ScopeNames(scope)| - 1
  }

  /** "%.*s" with that length, where a negative one means the whole. */
  function ScopeText(scope: byte, before: string): string {
    Cut(G_TEXT_LEN,
      if ScopeLength(scope) < 0 then ScopeLeft(scope, before) else ScopeLeft(scope, before)[..ScopeLength(scope)])
  }

  /** A scope with a name shows it, whatever was there; one without shows what was there. */
  lemma ScopeShown(scope: byte, before: string)
    ensures ScopeNamed(scope) ==> ScopeText(scope, before) == ScopeText(scope, "")
    ensures !ScopeNamed(scope) ==> ScopeText(scope, before) == Cut(G_TEXT_LEN, before)
  {
  }

  /** Exactly which accepted scopes share a name: those that differ only in flags it does not know. */
  lemma SameScopeShownIff(a: byte, b: byte)
    requires ScopeNamed(a) && (HasGlobal(a) ==> a == GLOBAL) && ScopeNamed(b) && (HasGlobal(b) ==> b == GLOBAL)
    ensures ScopeText(a, "") == ScopeText(b, "") <==>
            a == b || (a != 0 && a != GLOBAL && b != 0 && b != GLOBAL && HasEntry(a) == HasEntry(b)
                       && HasContracts(a) == HasContracts(b) && HasGroups(a) == HasGroups(b))
  {
    ScopeTexts(a);
    ScopeTexts(b);
  }

  /** The names of the flags, with a comma between. */
  function FlagNames(entry: bool, contracts: bool, groups: bool): string
    requires entry || contracts || groups
  {
    if entry then
      (if contracts then (if groups then "By Entry,Contracts,Groups" else "By Entry,Contracts")
       else if groups then "By Entry,Groups" else "By Entry")
    else if contracts then (if groups then "Contracts,Groups" else "Contracts")
    else "Groups"
  }

  lemma NamesThenComma(scope: byte)
    requires HasEntry(scope) || HasContracts(scope) || HasGroups(scope)
    ensures ScopeNames(scope) == FlagNames(HasEntry(scope), HasContracts(scope), HasGroups(scope)) + ","
    ensures |ScopeNames(scope)| < G_TEXT_LEN
  {
    var e, c, g := HasEntry(scope), HasContracts(scope), HasGroups(scope);
    assert FlagNames(true, c, g) + ","
           == "By Entry," + (if c then "Contracts," else "") + (if g then "Groups," else "");
    assert FlagNames(false, true, g) + "," == "Contracts," + (if g then "Groups," else "");
  }

  lemma ScopeTexts(scope: byte)
    requires ScopeNamed(scope)
    ensures ScopeText(scope, "") ==
            if scope == 0 then "None" else if scope == GLOBAL then "Global"
            else FlagNames(HasEntry(scope), HasContracts(scope), HasGroups(scope))
  {
    hide ScopeNames, FlagNames;
    if scope != 0 && scope != GLOBAL { NamesThenComma(scope); }
  }

  /** Scopes 0x41 and 0x01 are shown alike. Scope 0x40, accepted too, shows the scope that was shown
      before it. */
  lemma ScopeExamples(before: string)
    requires |before| < G_TEXT_LEN
    ensures ScopeText(0x41, before) == "By Entry" == ScopeText(0x01, before)
    ensures ScopeText(0x40, before) == before
  {
    ScopeShown(0x41, before);
    ScopeShown(0x01, before);
    ScopeTexts(0x41);
    ScopeTexts(0x01);
  }

  // ---------------------------------------------------------------- spelled out

  lemma DigitSpelled(d: nat)
    requires d < 16
    ensures HexDigit(d) == "0123456789ABCDEF"[d]
  {
  }

  /** Each byte is two hexadecimal digits, the upper half first. */
  lemma HexSpelled(bytes: seq<byte>, k: nat)
    requires k < |bytes|
    ensures HexText(bytes)[2 * k] == "0123456789ABCDEF"[bytes[k] / 16]
    ensures HexText(bytes)[2 * k + 1] == "0123456789ABCDEF"[bytes[k] % 16]
  {
    HexDigits(bytes, k);
    DigitSpelled(bytes[k] / 16);
    DigitSpelled(bytes[k] % 16);
  }

  /** The names of the scopes. */
  lemma ScopesSpelled(before: string)
    ensures ScopeText(0x00, before) == "None" && ScopeText(0x80, before) == "Global"
    ensures ScopeText(0x01, before) == "By Entry" && ScopeText(0x10, before) == "Contracts"
    ensures ScopeText(0x20, before) == "Groups" && ScopeText(0x11, before) == "By Entry,Contracts"
    ensures ScopeText(0x21, before) == "By Entry,Groups" && ScopeText(0x30, before) == "Contracts,Groups"
    ensures ScopeText(0x31, before) == "By Entry,Contracts,Groups"
  {
    hide ScopeText;
    forall scope: byte | scope in {0, 0x80, 0x01, 0x10, 0x20, 0x11, 0x21, 0x30, 0x31}
      ensures ScopeText(scope, before) == ScopeText(scope, "")
    {
      ScopeShown(scope, before);
    }
    ScopeTexts(0x00);
    ScopeTexts(0x80);
    ScopeTexts(0x01);
    ScopeTexts(0x10);
    ScopeTexts(0x20);
    ScopeTexts(0x11);
    ScopeTexts(0x21);
    ScopeTexts(0x30);
    ScopeTexts(0x31);
  }

  /** The networks by their magics. */
  lemma NetworksSpelled(magic: u32)
    ensures NetworkText(magic) == "MainNet" <==> magic == 860833102
    ensures NetworkText(magic) == "TestNet" <==> magic == 877933390
    ensures magic != 860833102 && magic != 877933390 && magic < 0x8000_0000 ==> NetworkText(magic) == DecimalText(magic)
  {
    hide DecimalText;
    NetworkShown(magic);
    assert '0' <= DecimalText(magic)[0] <= '9' && "MainNet"[0] == 'M' && "TestNet"[0] == 'T';
  }
}
