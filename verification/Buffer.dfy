/** The reading cursor (src/common/buffer.c): a view of bytes that only moves forward within its
    bounds. A failed read gives 0 and leaves the cursor alone. */
module Buffers {
  import opened Bytes
  import opened Splices
  import opened Read
  import opened Varint

  // size_t is 32 bits wide on the device.
  const SIZE_MOD := 0x1_0000_0000

  class Buffer {
    const ptr: seq<byte>
    var offset: nat

    ghost predicate Valid()
      reads this
    {
      offset <= |ptr| < SIZE_MOD
    }

    /** The bytes not read yet. */
    ghost function Rest(): seq<byte>
      reads this
      requires Valid()
    {
      ptr[offset..]
    }

    constructor (bytes: seq<byte>)
      requires |bytes| < SIZE_MOD
      ensures Valid() && ptr == bytes && offset == 0
    {
      ptr, offset := bytes, 0;
    }

    predicate CanRead(n: nat)
      reads this
      requires Valid()
      ensures CanRead(n) <==> n <= |Rest()|
    {
      |ptr| - offset >= n
    }

    method SeekSet(to: nat) returns (ok: bool)
      requires Valid()
      modifies this
      ensures Valid() && ok == (to <= |ptr|) && offset == if ok then to else old(offset)
    {
      if to > |ptr| {
        return false;
      }
      offset := to;
      return true;
    }

    /** The sum wraps in size_t; the first test is what catches that. */
    method SeekCur(step: nat) returns (ok: bool)
      requires Valid() && step < SIZE_MOD
      modifies this
      ensures Valid() && ok == (step <= |old(Rest())|)
      ensures Rest() == if ok then old(Rest())[step..] else old(Rest())
      ensures offset == if ok then old(offset) + step else old(offset)
    {
      var sum := (offset + step) % SIZE_MOD;
      if sum < offset || sum > |ptr| {
        return false;
      }
      offset := sum;
      return true;
    }

    method SeekEnd(back: nat) returns (ok: bool)
      requires Valid()
      modifies this
      ensures Valid() && ok == (back <= |ptr|) && offset == if ok then |ptr| - back else old(offset)
    {
      if back > |ptr| {
        return false;
      }
      offset := |ptr| - back;
      return true;
    }

    method ReadU8() returns (ok: bool, value: byte)
      requires Valid()
      modifies this
      ensures Valid() && ok == (1 <= |old(Rest())|)
      ensures ok ==> value == old(Rest())[0]
      ensures !ok ==> value == 0
      ensures Rest() == if ok then old(Rest())[1..] else old(Rest())
      ensures offset == if ok then old(offset) + 1 else old(offset)
    {
      value := 0;
      if !CanRead(1) {
        return false, value;
      }
      value := ptr[offset];
      var moved := SeekCur(1);
      return true, value;
    }

    method ReadS8() returns (ok: bool, value: s8)
      requires Valid()
      modifies this
      ensures Valid() && ok == (1 <= |old(Rest())|)
      ensures ok ==> value == Signed(old(Rest())[0], 1)
      ensures !ok ==> value == 0
      ensures Rest() == if ok then old(Rest())[1..] else old(Rest())
      ensures offset == if ok then old(offset) + 1 else old(offset)
    {
      value := 0;
      if !CanRead(1) {
        return false, value;
      }
      var unsigned: int := ptr[offset];
      value := if unsigned < 0x80 then unsigned else unsigned - 0x100;
      var moved := SeekCur(1);
      return true, value;
    }

    method ReadU16(bigEndian: bool) returns (ok: bool, value: u16)
      requires Valid()
      modifies this
      ensures Valid() && ok == (2 <= |old(Rest())|)
      ensures ok ==> value == if bigEndian then Be(old(Rest())[..2]) else Le(old(Rest())[..2])
      ensures !ok ==> value == 0
      ensures Rest() == if ok then old(Rest())[2..] else old(Rest())
      ensures offset == if ok then old(offset) + 2 else old(offset)
    {
      value := 0;
      if !CanRead(2) {
        return false, value;
      }
      assert ptr[offset..offset + 2] == Rest()[..2];
      value := if bigEndian then ReadU16Be(ptr, offset) else ReadU16Le(ptr, offset);
      var moved := SeekCur(2);
      return true, value;
    }

    method ReadS16(bigEndian: bool) returns (ok: bool, value: s16)
      requires Valid()
      modifies this
      ensures Valid() && ok == (2 <= |old(Rest())|)
      ensures ok ==> value == if bigEndian then Signed(Be(old(Rest())[..2]), 2) else Signed(Le(old(Rest())[..2]), 2)
      ensures !ok ==> value == 0
      ensures Rest() == if ok then old(Rest())[2..] else old(Rest())
      ensures offset == if ok then old(offset) + 2 else old(offset)
    {
      value := 0;
      if !CanRead(2) {
        return false, value;
      }
      assert ptr[offset..offset + 2] == Rest()[..2];
      value := if bigEndian then ReadS16Be(ptr, offset) else ReadS16Le(ptr, offset);
      var moved := SeekCur(2);
      return true, value;
    }

    method ReadU32(bigEndian: bool) returns (ok: bool, value: u32)
      requires Valid()
      modifies this
      ensures Valid() && ok == (4 <= |old(Rest())|)
      ensures ok ==> value == if bigEndian then Be(old(Rest())[..4]) else Le(old(Rest())[..4])
      ensures !ok ==> value == 0
      ensures Rest() == if ok then old(Rest())[4..] else old(Rest())
      ensures offset == if ok then old(offset) + 4 else old(offset)
    {
      value := 0;
      if !CanRead(4) {
        return false, value;
      }
      assert ptr[offset..offset + 4] == Rest()[..4];
      value := if bigEndian then ReadU32Be(ptr, offset) else ReadU32Le(ptr, offset);
      var moved := SeekCur(4);
      return true, value;
    }

    method ReadS32(bigEndian: bool) returns (ok: bool, value: s32)
      requires Valid()
      modifies this
      ensures Valid() && ok == (4 <= |old(Rest())|)
      ensures ok ==> value == if bigEndian then Signed(Be(old(Rest())[..4]), 4) else Signed(Le(old(Rest())[..4]), 4)
      ensures !ok ==> value == 0
      ensures Rest() == if ok then old(Rest())[4..] else old(Rest())
      ensures offset == if ok then old(offset) + 4 else old(offset)
    {
      value := 0;
      if !CanRead(4) {
        return false, value;
      }
      assert ptr[offset..offset + 4] == Rest()[..4];
      value := if bigEndian then ReadS32Be(ptr, offset) else ReadS32Le(ptr, offset);
      var moved := SeekCur(4);
      return true, value;
    }

    method ReadU64(bigEndian: bool) returns (ok: bool, value: u64)
      requires Valid()
      modifies this
      ensures Valid() && ok == (8 <= |old(Rest())|)
      ensures ok ==> value == if bigEndian then Be(old(Rest())[..8]) else Le(old(Rest())[..8])
      ensures !ok ==> value == 0
      ensures Rest() == if ok then old(Rest())[8..] else old(Rest())
      ensures offset == if ok then old(offset) + 8 else old(offset)
    {
      value := 0;
      if !CanRead(8) {
        return false, value;
      }
      assert ptr[offset..offset + 8] == Rest()[..8];
      value := if bigEndian then ReadU64Be(ptr, offset) else ReadU64Le(ptr, offset);
      var moved := SeekCur(8);
      return true, value;
    }

    method ReadS64(bigEndian: bool) returns (ok: bool, value: s64)
      requires Valid()
      modifies this
      ensures Valid() && ok == (8 <= |old(Rest())|)
      ensures ok ==> value == if bigEndian then Signed(Be(old(Rest())[..8]), 8) else Signed(Le(old(Rest())[..8]), 8)
      ensures !ok ==> value == 0
      ensures Rest() == if ok then old(Rest())[8..] else old(Rest())
      ensures offset == if ok then old(offset) + 8 else old(offset)
    {
      value := 0;
      if !CanRead(8) {
        return false, value;
      }
      assert ptr[offset..offset + 8] == Rest()[..8];
      value := if bigEndian then ReadS64Be(ptr, offset) else ReadS64Le(ptr, offset);
      var moved := SeekCur(8);
      return true, value;
    }

    /** Consumes exactly the bytes the first one calls for, or nothing. */
    method ReadVarint() returns (ok: bool, value: u64)
      requires Valid()
      modifies this
      ensures Valid() && ok == Parsed(old(Rest())).Some?
      ensures ok ==> value == Parsed(old(Rest())).value.value
      ensures !ok ==> value == 0
      ensures ok ==> Parsed(old(Rest())).value.width <= |old(Rest())|
      ensures Rest() == if ok then old(Rest())[Parsed(old(Rest())).value.width..] else old(Rest())
    {
      var length, found := VarintRead(ptr[offset..]);
      if length < 0 {
        return false, 0;
      }
      WrittenParse(Rest());
      var moved := SeekCur(length);
      return true, found;
    }

    /** Copies all the unread bytes, if they fit. */
    method Copy(output: array<byte>, at: nat, outLen: nat) returns (ok: bool)
      requires Valid() && at + outLen <= output.Length
      modifies output
      ensures ok == (|Rest()| <= outLen)
      ensures output[..] == if ok then Splice(old(output[..]), at, Rest()) else old(output[..])
    {
      var n := |ptr| - offset;
      if n > outLen {
        return false;
      }
      forall i | 0 <= i < n {
        output[at + i] := ptr[offset + i];
      }
      return true;
    }

    /** As Copy; then the cursor moves by outLen, which succeeds only when the unread bytes filled
        the whole of outLen. */
    method Move(output: array<byte>, at: nat, outLen: nat) returns (ok: bool)
      requires Valid() && at + outLen <= output.Length && outLen < SIZE_MOD
      modifies this, output
      ensures Valid() && ok == (|old(Rest())| <= outLen)
      ensures output[..] == if ok then Splice(old(output[..]), at, old(Rest())) else old(output[..])
      ensures Rest() == if |old(Rest())| == outLen then [] else old(Rest())
    {
      ok := Copy(output, at, outLen);
      if !ok {
        return false;
      }
      var moved := SeekCur(outLen);
      return true;
    }
  }
}
