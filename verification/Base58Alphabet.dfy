/** The digit letters of base58.c: the alphabet and the table are each other's inverses. */
module Base58Alphabet {
  import opened Bytes

  // The rows of the table; the first four hold no letter.
  const ROW_0: seq<byte> := [0xFF, 0xFF, 0xFF, 0xFF, 0xFF, 0xFF, 0xFF, 0xFF, 0xFF, 0xFF, 0xFF, 0xFF]
  const ROW_48: seq<byte> := [0xFF, 0x00, 0x01, 0x02, 0x03, 0x04, 0x05, 0x06, 0x07, 0x08, 0xFF, 0xFF]
  const ROW_60: seq<byte> := [0xFF, 0xFF, 0xFF, 0xFF, 0xFF, 0x09, 0x0A, 0x0B, 0x0C, 0x0D, 0x0E, 0x0F]
  const ROW_72: seq<byte> := [0x10, 0xFF, 0x11, 0x12, 0x13, 0x14, 0x15, 0xFF, 0x16, 0x17, 0x18, 0x19]
  const ROW_84: seq<byte> := [0x1A, 0x1B, 0x1C, 0x1D, 0x1E, 0x1F, 0x20, 0xFF, 0xFF, 0xFF, 0xFF, 0xFF]
  const ROW_96: seq<byte> := [0xFF, 0x21, 0x22, 0x23, 0x24, 0x25, 0x26, 0x27, 0x28, 0x29, 0x2A, 0x2B]
  const ROW_108: seq<byte> := [0xFF, 0x2C, 0x2D, 0x2E, 0x2F, 0x30, 0x31, 0x32, 0x33, 0x34, 0x35, 0x36]
  const ROW_120: seq<byte> := [0x37, 0x38, 0x39, 0xFF, 0xFF, 0xFF, 0xFF, 0xFF]

  const BASE58_TABLE: seq<byte> :=
    ROW_0 + ROW_0 + ROW_0 + ROW_0 + ROW_48 + ROW_60 + ROW_72 + ROW_84 + ROW_96 + ROW_108 + ROW_120

  const BASE58_ALPHABET: string :=
    "123456789ABCDEF" + "GHJKLMNPQRSTUVW" + "XYZabcdefghijkm" + "nopqrstuvwxyz"

  /** The digit a letter stands for; 0xFF when it stands for none. */
  function CharDigit(c: char): byte {
    if c as int >= TABLE_SIZE then 0xFF else TableEntry(c as int)
  }

  const TABLE_SIZE := 128

  function TableEntry(i: nat): byte
    requires i < TABLE_SIZE
  {
    BASE58_TABLE[i]
  }

  /** The alphabet in closed form: the code of each digit's letter. */
  function LetterCode(d: nat): int {
    if d < 9 then d + 49
    else if d < 17 then d + 56
    else if d < 22 then d + 57
    else if d < 33 then d + 58
    else if d < 44 then d + 64
    else d + 65
  }

  function DigitOfCode(c: nat): byte {
    if 49 <= c < 58 then c - 49
    else if 65 <= c < 73 then c - 56
    else if 74 <= c < 79 then c - 57
    else if 80 <= c < 91 then c - 58
    else if 97 <= c < 108 then c - 64
    else if 109 <= c < 123 then c - 65
    else 0xFF
  }

  lemma AlphabetClosedForm(d: nat)
    requires d < 58
    ensures |BASE58_ALPHABET| == 58 && BASE58_ALPHABET[d] as int == LetterCode(d)
  {
    if d < 15 {
      assert BASE58_ALPHABET[d] == "123456789ABCDEF"[d];
    } else if d < 30 {
      assert BASE58_ALPHABET[d] == "GHJKLMNPQRSTUVW"[d - 15];
    } else if d < 45 {
      assert BASE58_ALPHABET[d] == "XYZabcdefghijkm"[d - 30];
    } else {
      assert BASE58_ALPHABET[d] == "nopqrstuvwxyz"[d - 45];
    }
  }

  lemma TableClosedFormLow(c: nat)
    requires 48 <= c < 72
    ensures BASE58_TABLE[c] == DigitOfCode(c)
  {
    if c < 60 {
      assert BASE58_TABLE[c] == ROW_48[c - 48];
    } else {
      assert BASE58_TABLE[c] == ROW_60[c - 60];
    }
  }

  lemma TableStartsEmpty(c: nat)
    requires c < 48
    ensures BASE58_TABLE[c] == 0xFF
  {
    assert BASE58_TABLE[c] == ROW_0[c % 12];
  }

  lemma TableClosedFormMid(c: nat)
    requires 72 <= c < 96
    ensures BASE58_TABLE[c] == DigitOfCode(c)
  {
    if c < 84 {
      assert BASE58_TABLE[c] == ROW_72[c - 72];
    } else {
      assert BASE58_TABLE[c] == ROW_84[c - 84];
    }
  }

  lemma TableClosedFormHigh(c: nat)
    requires 96 <= c < 128
    ensures BASE58_TABLE[c] == DigitOfCode(c)
  {
    if c < 108 {
      assert BASE58_TABLE[c] == ROW_96[c - 96];
    } else if c < 120 {
      assert BASE58_TABLE[c] == ROW_108[c - 108];
    } else {
      assert BASE58_TABLE[c] == ROW_120[c - 120];
    }
  }

  lemma CharDigitClosedForm(c: char)
    ensures CharDigit(c) == DigitOfCode(c as nat)
  {
    if c as nat < 48 { TableStartsEmpty(c as nat); }
    else if c as nat < 72 { TableClosedFormLow(c as nat); }
    else if c as nat < 96 { TableClosedFormMid(c as nat); }
    else if c as nat < 128 { TableClosedFormHigh(c as nat); }
  }

  lemma CodesInvert(d: nat, c: nat)
    ensures d < 58 ==> DigitOfCode(LetterCode(d)) == d
    ensures DigitOfCode(c) != 0xFF ==> DigitOfCode(c) < 58 && LetterCode(DigitOfCode(c)) == c
  {
  }

  lemma TableInvertsAlphabet(d: nat)
    requires d < 58
    ensures CharDigit(BASE58_ALPHABET[d]) == d
  {
    AlphabetClosedForm(d);
    CharDigitClosedForm(BASE58_ALPHABET[d]);
    CodesInvert(d, 0);
  }

  lemma AlphabetInvertsTable(c: char)
    requires CharDigit(c) != 0xFF
    ensures CharDigit(c) < 58 && BASE58_ALPHABET[CharDigit(c)] == c
  {
    CharDigitClosedForm(c);
    CodesInvert(0, c as nat);
    AlphabetClosedForm(CharDigit(c));
  }

  /** The alphabet: digits and letters in the order of their codes, without 0, O, I and l. */
  lemma AlphabetIs(c: char, d: nat, e: nat)
    ensures d < e < 58 ==> BASE58_ALPHABET[d] < BASE58_ALPHABET[e]
    ensures CharDigit(c) != 0xFF <==>
            ('0' <= c <= '9' || 'A' <= c <= 'Z' || 'a' <= c <= 'z') && c != '0' && c != 'O' && c != 'I' && c != 'l'
  {
    if d < e < 58 {
      AlphabetClosedForm(d);
      AlphabetClosedForm(e);
    }
    CharDigitClosedForm(c);
  }
}
