/** Variable-length integers (src/common/varint.c). A value may be written in any form wide
    enough for it; the reader accepts every form. */
module Varint {
  import opened Bytes
  import opened Numerals
  import opened Splices
  import opened Read
  import opened Write

  /** A value together with the number of bytes it is written in. */
  datatype Varint = Varint(width: nat, value: nat)

  ghost predicate Fits(v: Varint) {
    match v.width
    case 1 => v.value <= 0xFC
    case 3 => v.value < 0x1_0000
    case 5 => v.value < 0x1_0000_0000
    case 9 => v.value < 0x1_0000_0000_0000_0000
    case _ => false
  }

  ghost function Prefix(width: nat): byte {
    if width == 3 then 0xFD else if width == 5 then 0xFE else 0xFF
  }

  ghost function Written(v: Varint): (s: seq<byte>)
    requires Fits(v)
    ensures |s| == v.width
  {
    if v.width == 1 then [v.value] else [Prefix(v.width)] + LeBytes(v.value, v.width - 1)
  }

  /** What varint_read finds at the start of s. */
  ghost function Parsed(s: seq<byte>): Option<Varint> {
    if |s| < 1 then None
    else if s[0] == 0xFD then (if |s| < 3 then None else Some(Varint(3, Le(s[1..3]))))
    else if s[0] == 0xFE then (if |s| < 5 then None else Some(Varint(5, Le(s[1..5]))))
    else if s[0] == 0xFF then (if |s| < 9 then None else Some(Varint(9, Le(s[1..9]))))
    else Some(Varint(1, s[0]))
  }

  function VarintSize(value: u64): nat {
    if value <= 0xFC then 1
    else if value <= 0xFFFF then 3
    else if value <= 0xFFFF_FFFF then 5
    else 9
  }

  method VarintRead(ptr: seq<byte>) returns (length: int, value: u64)
    ensures Parsed(ptr).None? ==> length == -1
    ensures Parsed(ptr).Some? ==> length == Parsed(ptr).value.width && value == Parsed(ptr).value.value
  {
    value := 0;
    if |ptr| < 1 {
      return -1, value;
    }
    var prefix := ptr[0];
    if prefix == 0xFD {
      if |ptr| < 3 {
        return -1, value;
      }
      return 3, ReadU16Le(ptr, 1);
    }
    if prefix == 0xFE {
      if |ptr| < 5 {
        return -1, value;
      }
      return 5, ReadU32Le(ptr, 1);
    }
    if prefix == 0xFF {
      if |ptr| < 9 {
        return -1, value;
      }
      return 9, ReadU64Le(ptr, 1);
    }
    return 1, prefix;
  }

  method VarintWrite(output: array<byte>, offset: nat, value: u64) returns (length: nat)
    requires offset + VarintSize(value) <= output.Length
    modifies output
    ensures length == VarintSize(value) && Fits(Varint(length, value))
    ensures output[..] == Splice(old(output[..]), offset, Written(Varint(length, value)))
  {
    hide LeBytes, Pow, Splice;
    Capacities();
    length := VarintSize(value);
    ghost var start, first: byte := output[..], if length == 1 then value else Prefix(length);
    SpliceOne(start, offset, first);
    if length > 1 { SpliceMore(start, offset, [Prefix(length)], LeBytes(value, length - 1)); }
    match length {
      case 1 =>
        output[offset] := value;
        assert output[..] == start[offset := first];
      case 3 =>
        output[offset] := 0xFD;
        assert output[..] == start[offset := 0xFD];
        WriteU16Le(output, offset + 1, value);
      case 5 =>
        output[offset] := 0xFE;
        assert output[..] == start[offset := 0xFE];
        WriteU32Le(output, offset + 1, value);
      case _ =>
        output[offset] := 0xFF;
        assert output[..] == start[offset := 0xFF];
        WriteU64Le(output, offset + 1, value);
    }
  }

  lemma Capacities()
    ensures Pow(256, 2) == 0x1_0000 && Pow(256, 4) == 0x1_0000_0000 && Pow(256, 8) == 0x1_0000_0000_0000_0000
  {
  }

  /** Whatever form a value is written in, and whatever follows, it is read back. */
  lemma ParseWritten(v: Varint, rest: seq<byte>)
    requires Fits(v)
    ensures Parsed(Written(v) + rest) == Some(v)
  {
    hide Le, LeBytes, Pow;
    var s := Written(v) + rest;
    if v.width > 1 {
      assert s[1..v.width] == LeBytes(v.value, v.width - 1);
      LeOfBytes(v.value, v.width - 1);
      Capacities();
    }
  }

  /** Everything read is the written form of its value: the reader accepts nothing else. */
  lemma WrittenParse(s: seq<byte>)
    requires Parsed(s).Some?
    ensures var v := Parsed(s).value;
            Fits(v) && v.width <= |s| && s == Written(v) + s[v.width..]
  {
    hide Le, LeBytes, Pow;
    var v := Parsed(s).value;
    if v.width > 1 {
      BytesOfLe(s[1..v.width]);
      Capacities();
    }
  }

  /** Reading what varint_write wrote gives the value and the length back, wherever it was
      written and whatever follows. */
  lemma WriteThenRead(value: u64, before: seq<byte>, after: seq<byte>)
    ensures var v := Varint(VarintSize(value), value);
            Fits(v) && Parsed((before + Written(v) + after)[|before|..]) == Some(v)
  {
    var v := Varint(VarintSize(value), value);
    assert (before + Written(v) + after)[|before|..] == Written(v) + after;
    ParseWritten(v, after);
  }

  /** varint_size is the shortest of all encodings that read to the value. */
  lemma SizeIsShortest(value: u64, s: seq<byte>)
    requires Parsed(s).Some? && Parsed(s).value.value == value
    ensures VarintSize(value) <= Parsed(s).value.width <= |s|
  {
    WrittenParse(s);
  }
}
