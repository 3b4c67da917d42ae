/** src/common/read.c: integers from bytes at an offset. The shift-and-or expressions act on
    disjoint bits, so they are written as sums of weighted bytes. */
module Read {
  import opened Bytes

  /** A byte, widened. */
  function At(ptr: seq<byte>, offset: nat): int
    requires offset < |ptr|
  {
    ptr[offset]
  }

  lemma BeSlice(ptr: seq<byte>, from: nat, to: nat)
    requires from < to <= |ptr|
    ensures Be(ptr[from..to]) == 256 * Be(ptr[from..to - 1]) + At(ptr, to - 1)
    ensures from + 1 == to ==> Be(ptr[from..to - 1]) == 0
  {
    assert ptr[from..to][..to - from - 1] == ptr[from..to - 1];
  }

  lemma LeSlice(ptr: seq<byte>, from: nat, to: nat)
    requires from < to <= |ptr|
    ensures Le(ptr[from..to]) == At(ptr, from) + 256 * Le(ptr[from + 1..to])
    ensures from + 1 == to ==> Le(ptr[from + 1..to]) == 0
  {
    assert ptr[from..to][1..] == ptr[from + 1..to];
  }

  function ReadU16Be(ptr: seq<byte>, offset: nat): (value: u16)
    requires offset + 2 <= |ptr|
    ensures value == Be(ptr[offset..offset + 2])
  {
    BeSlice(ptr, offset, offset + 1); BeSlice(ptr, offset, offset + 2);
    At(ptr, offset) * 0x100 + At(ptr, offset + 1)
  }

  function ReadS16Be(ptr: seq<byte>, offset: nat): (value: s16)
    requires offset + 2 <= |ptr|
    ensures value == Signed(Be(ptr[offset..offset + 2]), 2)
  {
    var unsigned := ReadU16Be(ptr, offset);
    if unsigned < 0x8000 then unsigned else unsigned - 0x1_0000
  }

  function ReadU16Le(ptr: seq<byte>, offset: nat): (value: u16)
    requires offset + 2 <= |ptr|
    ensures value == Le(ptr[offset..offset + 2])
  {
    LeSlice(ptr, offset, offset + 2); LeSlice(ptr, offset + 1, offset + 2);
    At(ptr, offset) + At(ptr, offset + 1) * 0x100
  }

  function ReadS16Le(ptr: seq<byte>, offset: nat): (value: s16)
    requires offset + 2 <= |ptr|
    ensures value == Signed(Le(ptr[offset..offset + 2]), 2)
  {
    var unsigned := ReadU16Le(ptr, offset);
    if unsigned < 0x8000 then unsigned else unsigned - 0x1_0000
  }

  function ReadU32Be(ptr: seq<byte>, offset: nat): (value: u32)
    requires offset + 4 <= |ptr|
    ensures value == Be(ptr[offset..offset + 4])
  {
    BeSlice(ptr, offset, offset + 1); BeSlice(ptr, offset, offset + 2);
    BeSlice(ptr, offset, offset + 3); BeSlice(ptr, offset, offset + 4);
    At(ptr, offset) * 0x100_0000 + At(ptr, offset + 1) * 0x1_0000 + At(ptr, offset + 2) * 0x100 + At(ptr, offset + 3)
  }

  function ReadS32Be(ptr: seq<byte>, offset: nat): (value: s32)
    requires offset + 4 <= |ptr|
    ensures value == Signed(Be(ptr[offset..offset + 4]), 4)
  {
    var unsigned := ReadU32Be(ptr, offset);
    if unsigned < 0x8000_0000 then unsigned else unsigned - 0x1_0000_0000
  }

  function ReadU32Le(ptr: seq<byte>, offset: nat): (value: u32)
    requires offset + 4 <= |ptr|
    ensures value == Le(ptr[offset..offset + 4])
  {
    LeSlice(ptr, offset, offset + 4); LeSlice(ptr, offset + 1, offset + 4);
    LeSlice(ptr, offset + 2, offset + 4); LeSlice(ptr, offset + 3, offset + 4);
    At(ptr, offset) + At(ptr, offset + 1) * 0x100 + At(ptr, offset + 2) * 0x1_0000 + At(ptr, offset + 3) * 0x100_0000
  }

  function ReadS32Le(ptr: seq<byte>, offset: nat): (value: s32)
    requires offset + 4 <= |ptr|
    ensures value == Signed(Le(ptr[offset..offset + 4]), 4)
  {
    var unsigned := ReadU32Le(ptr, offset);
    if unsigned < 0x8000_0000 then unsigned else unsigned - 0x1_0000_0000
  }

  function ReadU64Be(ptr: seq<byte>, offset: nat): (value: u64)
    requires offset + 8 <= |ptr|
    ensures value == Be(ptr[offset..offset + 8])
  {
    BeSlice(ptr, offset, offset + 1); BeSlice(ptr, offset, offset + 2);
    BeSlice(ptr, offset, offset + 3); BeSlice(ptr, offset, offset + 4);
    BeSlice(ptr, offset, offset + 5); BeSlice(ptr, offset, offset + 6);
    BeSlice(ptr, offset, offset + 7); BeSlice(ptr, offset, offset + 8);
    At(ptr, offset) * 0x100_0000_0000_0000 + At(ptr, offset + 1) * 0x1_0000_0000_0000
    + At(ptr, offset + 2) * 0x100_0000_0000 + At(ptr, offset + 3) * 0x1_0000_0000
    + At(ptr, offset + 4) * 0x100_0000 + At(ptr, offset + 5) * 0x1_0000
    + At(ptr, offset + 6) * 0x100 + At(ptr, offset + 7)
  }

  function ReadS64Be(ptr: seq<byte>, offset: nat): (value: s64)
    requires offset + 8 <= |ptr|
    ensures value == Signed(Be(ptr[offset..offset + 8]), 8)
  {
    var unsigned := ReadU64Be(ptr, offset);
    if unsigned < 0x8000_0000_0000_0000 then unsigned else unsigned - 0x1_0000_0000_0000_0000
  }

  function ReadU64Le(ptr: seq<byte>, offset: nat): (value: u64)
    requires offset + 8 <= |ptr|
    ensures value == Le(ptr[offset..offset + 8])
  {
    LeSlice(ptr, offset, offset + 8); LeSlice(ptr, offset + 1, offset + 8);
    LeSlice(ptr, offset + 2, offset + 8); LeSlice(ptr, offset + 3, offset + 8);
    LeSlice(ptr, offset + 4, offset + 8); LeSlice(ptr, offset + 5, offset + 8);
    LeSlice(ptr, offset + 6, offset + 8); LeSlice(ptr, offset + 7, offset + 8);
    At(ptr, offset) + At(ptr, offset + 1) * 0x100 + At(ptr, offset + 2) * 0x1_0000 + At(ptr, offset + 3) * 0x100_0000
    + At(ptr, offset + 4) * 0x1_0000_0000 + At(ptr, offset + 5) * 0x100_0000_0000
    + At(ptr, offset + 6) * 0x1_0000_0000_0000 + At(ptr, offset + 7) * 0x100_0000_0000_0000
  }

  function ReadS64Le(ptr: seq<byte>, offset: nat): (value: s64)
    requires offset + 8 <= |ptr|
    ensures value == Signed(Le(ptr[offset..offset + 8]), 8)
  {
    var unsigned := ReadU64Le(ptr, offset);
    if unsigned < 0x8000_0000_0000_0000 then unsigned else unsigned - 0x1_0000_0000_0000_0000
  }
}
