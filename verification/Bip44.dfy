/** The key path of a request (src/common/bip44.c): purpose, coin type, account, change, address. */
module Bip44 {
  import opened Bytes
  import opened Numerals
  import opened Buffers
  import opened Splices

  const BIP44_PATH_LEN := 5
  const BIP44_BYTE_LENGTH := 20
  const BIP44_PURPOSE: u32 := 0x8000002C
  const BIP44_COIN_TYPE_NEO: u32 := 0x80000378

  datatype PathStatus =
    | PathOk
    | WrongDataLength
    | BadPurpose
    | BadCoinType
    | AccountNotHardened
    | BadAccount
    | BadChange
    | BadAddress

  type Path = p: seq<u32> | |p| == BIP44_PATH_LEN witness [0, 0, 0, 0, 0]

  const NO_PATH: Path := [0, 0, 0, 0, 0]

  predicate ValidPath(p: Path) {
    p[0] == BIP44_PURPOSE && p[1] == BIP44_COIN_TYPE_NEO && 0x80000000 <= p[2] <= 0x80000010
    && p[3] <= 1 && p[4] < 5000
  }

  ghost function Levels(data: seq<byte>): Path
    requires |data| >= BIP44_BYTE_LENGTH
  {
    hide Value;
    LevelRange(data[..4]);
    LevelRange(data[4..8]);
    LevelRange(data[8..12]);
    LevelRange(data[12..16]);
    LevelRange(data[16..20]);
    [Be(data[..4]), Be(data[4..8]), Be(data[8..12]), Be(data[12..16]), Be(data[16..20])]
  }

  lemma LevelRange(bytes: seq<byte>)
    requires |bytes| == 4
    ensures Be(bytes) < 0x1_0000_0000
  {
    BytesOfBe(bytes);
    assert Pow(256, 4) == 0x1_0000_0000;
  }

  /** The first check that fails, level by level. */
  ghost function Checked(p: Path): PathStatus {
    if p[0] != BIP44_PURPOSE then BadPurpose
    else if p[1] != BIP44_COIN_TYPE_NEO then BadCoinType
    else if p[2] < 0x80000000 then AccountNotHardened
    else if p[2] > 0x80000010 then BadAccount
    else if p[3] > 1 then BadChange
    else if p[4] >= 5000 then BadAddress
    else PathOk
  }

  ghost function StatusOf(data: seq<byte>): PathStatus {
    if |data| < BIP44_BYTE_LENGTH then WrongDataLength else Checked(Levels(data))
  }

  /** The number of levels that passed. */
  ghost function Passed(status: PathStatus): nat {
    match status
    case PathOk => 5
    case WrongDataLength => 0
    case BadPurpose => 0
    case BadCoinType => 1
    case AccountNotHardened => 2
    case BadAccount => 2
    case BadChange => 3
    case BadAddress => 4
  }

  /** The levels that passed, over the path there was. */
  ghost function StoredOver(path: Path, data: seq<byte>): Path {
    if |data| < BIP44_BYTE_LENGTH then path else Splice(path, 0, Levels(data)[..Passed(StatusOf(data))])
  }

  /** The path a zeroed context is left with. */
  ghost function Stored(data: seq<byte>): Path {
    StoredOver(NO_PATH, data)
  }

  method BufferReadAndValidateBip44(input: Buffer, path: array<u32>) returns (ok: bool, status: PathStatus)
    requires input.Valid() && input.offset == 0 && path.Length == BIP44_PATH_LEN
    modifies input, path
    ensures status == StatusOf(input.ptr) && (ok <==> status == PathOk)
    ensures path[..] == StoredOver(old(path[..]), input.ptr)
  {
    hide Value, Levels, Checked, Splice;
    if |input.ptr| < BIP44_BYTE_LENGTH {
      return false, WrongDataLength;
    }
    ghost var levels, start := Levels(input.ptr), path[..];
    CheckedCases(levels);
    assert input.Rest() == input.ptr[0..];
    SpliceNothing(start, 0);
    assert levels[..0] == [];
    var level := ReadLevel(input, 0);
    if level != BIP44_PURPOSE {
      status := BadPurpose;
    } else {
      StoreLevel(path, 0, level, start, levels);
      level := ReadLevel(input, 1);
      if level != BIP44_COIN_TYPE_NEO {
        status := BadCoinType;
      } else {
        StoreLevel(path, 1, level, start, levels);
        level := ReadLevel(input, 2);
        if level < 0x80000000 {
          status := AccountNotHardened;
        } else if level > 0x80000010 {
          status := BadAccount;
        } else {
          StoreLevel(path, 2, level, start, levels);
          level := ReadLevel(input, 3);
          if level != 0 && level != 1 {
            status := BadChange;
          } else {
            StoreLevel(path, 3, level, start, levels);
            level := ReadLevel(input, 4);
            if level >= 5000 {
              status := BadAddress;
            } else {
              StoreLevel(path, 4, level, start, levels);
              status := PathOk;
            }
          }
        }
      }
    }
    assert path[..] == Splice(start, 0, levels[..Passed(status)]);
    ok := status == PathOk;
  }

  method ReadLevel(input: Buffer, k: nat) returns (level: u32)
    requires input.Valid() && k < BIP44_PATH_LEN && |input.ptr| >= BIP44_BYTE_LENGTH
    requires input.Rest() == input.ptr[4 * k..]
    modifies input
    ensures input.Valid() && level == Levels(input.ptr)[k] && input.Rest() == input.ptr[4 * (k + 1)..]
  {
    hide Value;
    LevelBytes(input.ptr);
    assert input.Rest()[..4] == input.ptr[4 * k..4 * (k + 1)];
    var read;
    read, level := input.ReadU32(true);
  }

  method StoreLevel(path: array<u32>, k: nat, level: u32, ghost start: seq<u32>, ghost levels: Path)
    requires path.Length == |start| == BIP44_PATH_LEN && k < BIP44_PATH_LEN && level == levels[k]
    requires path[..] == Splice(start, 0, levels[..k])
    modifies path
    ensures path[..] == Splice(start, 0, levels[..k + 1])
  {
    hide Splice;
    SpliceStep(start, 0, levels[..k], levels[k]);
    assert levels[..k] + [levels[k]] == levels[..k + 1];
    ghost var before := path[..];
    path[k] := level;
    assert path[..] == before[k := levels[k]];
  }

  lemma LevelBytes(data: seq<byte>)
    requires |data| >= BIP44_BYTE_LENGTH
    ensures Levels(data) == [Be(data[..4]), Be(data[4..8]), Be(data[8..12]), Be(data[12..16]), Be(data[16..20])]
  {
    hide Value;
  }

  lemma CheckedCases(p: Path)
    ensures p[0] != BIP44_PURPOSE ==> Checked(p) == BadPurpose
    ensures p[0] == BIP44_PURPOSE && p[1] != BIP44_COIN_TYPE_NEO ==> Checked(p) == BadCoinType
    ensures p[0] == BIP44_PURPOSE && p[1] == BIP44_COIN_TYPE_NEO && p[2] < 0x80000000 ==>
              Checked(p) == AccountNotHardened
    ensures p[0] == BIP44_PURPOSE && p[1] == BIP44_COIN_TYPE_NEO && p[2] > 0x80000010 ==> Checked(p) == BadAccount
    ensures p[0] == BIP44_PURPOSE && p[1] == BIP44_COIN_TYPE_NEO && 0x80000000 <= p[2] <= 0x80000010 ==>
              Checked(p) == if p[3] > 1 then BadChange else if p[4] >= 5000 then BadAddress else PathOk
  {
  }

  /** A path passes exactly when it is valid, and is then stored as sent. */
  lemma PassesIffValid(data: seq<byte>)
    ensures StatusOf(data) == PathOk <==> |data| >= BIP44_BYTE_LENGTH && ValidPath(Levels(data))
    ensures StatusOf(data) == PathOk ==>
              Stored(data) == Levels(data)
              && data[..BIP44_BYTE_LENGTH] == BeBytes(Stored(data)[0], 4) + BeBytes(Stored(data)[1], 4)
                 + BeBytes(Stored(data)[2], 4) + BeBytes(Stored(data)[3], 4) + BeBytes(Stored(data)[4], 4)
  {
    hide Value, BeBytes;
    if |data| >= BIP44_BYTE_LENGTH {
      LevelBytes(data);
      BytesOfBe(data[..4]);
      BytesOfBe(data[4..8]);
      BytesOfBe(data[8..12]);
      BytesOfBe(data[12..16]);
      BytesOfBe(data[16..20]);
      assert data[..20] == data[..4] + data[4..8] + data[8..12] + data[12..16] + data[16..20];
    }
  }

  /** What is stored is a valid path also after a refused change or address level, which stays 0. */
  lemma StoredIsValidIff(data: seq<byte>)
    ensures ValidPath(Stored(data)) <==>
            StatusOf(data) == PathOk || StatusOf(data) == BadChange || StatusOf(data) == BadAddress
  {
    hide Value;
  }

  /** The checks, in numbers and in their order: 44' and 888' hardened, account 0 to 16 hardened, change
      0 or 1, address below 5000; each level four bytes, most significant first. */
  lemma PathBytewise(data: seq<byte>)
    ensures |data| < 20 ==> StatusOf(data) == WrongDataLength
    ensures |data| >= 20 ==>
              var purpose, coin, account := Be(data[..4]), Be(data[4..8]), Be(data[8..12]);
              var change, address := Be(data[12..16]), Be(data[16..20]);
              StatusOf(data)
              == if purpose != 0x80000000 + 44 then BadPurpose
                 else if coin != 0x80000000 + 888 then BadCoinType
                 else if account < 0x80000000 then AccountNotHardened
                 else if account > 0x80000000 + 16 then BadAccount
                 else if change > 1 then BadChange
                 else if address >= 5000 then BadAddress
                 else PathOk
  {
    hide Be;
  }

  /** What is stored of the levels, zeros elsewhere: all of a path that passed, and of another one those
      before the one that failed. */
  lemma StoredBytewise(data: seq<byte>)
    ensures StatusOf(data) == PathOk ==>
              Stored(data) == [Be(data[..4]), Be(data[4..8]), Be(data[8..12]), Be(data[12..16]), Be(data[16..20])]
    ensures StatusOf(data) == WrongDataLength || StatusOf(data) == BadPurpose ==> Stored(data) == [0, 0, 0, 0, 0]
    ensures StatusOf(data) == BadCoinType ==> Stored(data) == [0x8000002C, 0, 0, 0, 0]
    ensures StatusOf(data) == AccountNotHardened || StatusOf(data) == BadAccount ==>
              Stored(data) == [0x8000002C, 0x80000378, 0, 0, 0]
    ensures StatusOf(data) == BadChange ==> Stored(data) == [0x8000002C, 0x80000378, Be(data[8..12]), 0, 0]
    ensures StatusOf(data) == BadAddress ==>
              Stored(data) == [0x8000002C, 0x80000378, Be(data[8..12]), Be(data[12..16]), 0]
  {
    hide Be;
  }
}
