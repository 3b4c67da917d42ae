/** src/common/write.c: integers to bytes at an offset; everything else in the array stays. */
module Write {
  import opened Bytes
  import opened Numerals
  import opened Splices

  method WriteU16Be(ptr: array<byte>, offset: nat, value: u16)
    requires offset + 2 <= ptr.Length
    modifies ptr
    ensures ptr[..] == Splice(old(ptr[..]), offset, BeBytes(value, 2))
  {
    ptr[offset + 0] := value / 0x100 % 256;
    ptr[offset + 1] := value % 256;
    BeBytes2(value);
  }

  method WriteU16Le(ptr: array<byte>, offset: nat, value: u16)
    requires offset + 2 <= ptr.Length
    modifies ptr
    ensures ptr[..] == Splice(old(ptr[..]), offset, LeBytes(value, 2))
  {
    ptr[offset + 0] := value % 256;
    ptr[offset + 1] := value / 0x100 % 256;
    LeBytes2(value);
  }

  method WriteU32Be(ptr: array<byte>, offset: nat, value: u32)
    requires offset + 4 <= ptr.Length
    modifies ptr
    ensures ptr[..] == Splice(old(ptr[..]), offset, BeBytes(value, 4))
  {
    hide BeBytes;
    BeBytes4(value);
    ptr[offset + 0] := value / 0x100_0000 % 256;
    ptr[offset + 1] := value / 0x1_0000 % 256;
    ptr[offset + 2] := value / 0x100 % 256;
    ptr[offset + 3] := value % 256;
    assert ptr[offset..offset + 4] == BeBytes(value, 4);
  }

  method WriteU32Le(ptr: array<byte>, offset: nat, value: u32)
    requires offset + 4 <= ptr.Length
    modifies ptr
    ensures ptr[..] == Splice(old(ptr[..]), offset, LeBytes(value, 4))
  {
    hide LeBytes;
    LeBytes4(value);
    ptr[offset + 0] := value % 256;
    ptr[offset + 1] := value / 0x100 % 256;
    ptr[offset + 2] := value / 0x1_0000 % 256;
    ptr[offset + 3] := value / 0x100_0000 % 256;
    assert ptr[offset..offset + 4] == LeBytes(value, 4);
  }

  method WriteU64Be(ptr: array<byte>, offset: nat, value: u64)
    requires offset + 8 <= ptr.Length
    modifies ptr
    ensures ptr[..] == Splice(old(ptr[..]), offset, BeBytes(value, 8))
  {
    hide BeBytes;
    BeBytes8(value);
    ptr[offset + 0] := value / 0x100_0000_0000_0000 % 256;
    ptr[offset + 1] := value / 0x1_0000_0000_0000 % 256;
    ptr[offset + 2] := value / 0x100_0000_0000 % 256;
    ptr[offset + 3] := value / 0x1_0000_0000 % 256;
    ptr[offset + 4] := value / 0x100_0000 % 256;
    ptr[offset + 5] := value / 0x1_0000 % 256;
    ptr[offset + 6] := value / 0x100 % 256;
    ptr[offset + 7] := value % 256;
    assert ptr[offset..offset + 8] == BeBytes(value, 8);
  }

  method WriteU64Le(ptr: array<byte>, offset: nat, value: u64)
    requires offset + 8 <= ptr.Length
    modifies ptr
    ensures ptr[..] == Splice(old(ptr[..]), offset, LeBytes(value, 8))
  {
    hide LeBytes;
    LeBytes8(value);
    ptr[offset + 0] := value % 256;
    ptr[offset + 1] := value / 0x100 % 256;
    ptr[offset + 2] := value / 0x1_0000 % 256;
    ptr[offset + 3] := value / 0x100_0000 % 256;
    ptr[offset + 4] := value / 0x1_0000_0000 % 256;
    ptr[offset + 5] := value / 0x100_0000_0000 % 256;
    ptr[offset + 6] := value / 0x1_0000_0000_0000 % 256;
    ptr[offset + 7] := value / 0x100_0000_0000_0000 % 256;
    assert ptr[offset..offset + 8] == LeBytes(value, 8);
  }

  lemma BeBytes2(v: nat)
    ensures BeBytes(v, 2) == [v / 0x100 % 256, v % 256]
  {
  }

  lemma LeBytes2(v: nat)
    ensures LeBytes(v, 2) == [v % 256, v / 0x100 % 256]
  {
  }

  lemma BeBytes4(v: nat)
    ensures BeBytes(v, 4) == [v / 0x100_0000 % 256, v / 0x1_0000 % 256, v / 0x100 % 256, v % 256]
  {
    BeBytes2(v / 0x1_0000);
    BeBytes2(v);
    DivMul(v, 0x100, 0x100);
    DivMul(v, 0x1_0000, 0x100);
  }

  lemma LeBytes4(v: nat)
    ensures LeBytes(v, 4) == [v % 256, v / 0x100 % 256, v / 0x1_0000 % 256, v / 0x100_0000 % 256]
  {
    LeBytes2(v / 0x1_0000);
    LeBytes2(v);
    DivMul(v, 0x100, 0x100);
    DivMul(v, 0x1_0000, 0x100);
  }

  lemma BeBytes8(v: nat)
    ensures BeBytes(v, 8) == [v / 0x100_0000_0000_0000 % 256, v / 0x1_0000_0000_0000 % 256,
                              v / 0x100_0000_0000 % 256, v / 0x1_0000_0000 % 256,
                              v / 0x100_0000 % 256, v / 0x1_0000 % 256, v / 0x100 % 256, v % 256]
  {
    hide BeBytes;
    BytesStep(v, 8);
    BytesStep(v / 0x100, 7);
    BytesStep(v / 0x1_0000, 6);
    BytesStep(v / 0x100_0000, 5);
    BeBytes4(v / 0x1_0000_0000);
    DivMul(v, 0x100, 0x100);
    DivMul(v, 0x1_0000, 0x100);
    DivMul(v, 0x100_0000, 0x100);
    DivMul(v, 0x1_0000_0000, 0x100);
    DivMul(v, 0x1_0000_0000, 0x1_0000);
    DivMul(v, 0x1_0000_0000, 0x100_0000);
  }

  lemma LeBytes8(v: nat)
    ensures LeBytes(v, 8) == [v % 256, v / 0x100 % 256, v / 0x1_0000 % 256, v / 0x100_0000 % 256,
      v / 0x1_0000_0000 % 256, v / 0x100_0000_0000 % 256, v / 0x1_0000_0000_0000 % 256, v / 0x100_0000_0000_0000 % 256]
  {
    hide LeBytes;
    BytesStep(v, 8);
    BytesStep(v / 0x100, 7);
    BytesStep(v / 0x1_0000, 6);
    BytesStep(v / 0x100_0000, 5);
    LeBytes4(v / 0x1_0000_0000);
    DivMul(v, 0x100, 0x100);
    DivMul(v, 0x1_0000, 0x100);
    DivMul(v, 0x100_0000, 0x100);
    DivMul(v, 0x1_0000_0000, 0x100);
    DivMul(v, 0x1_0000_0000, 0x1_0000);
    DivMul(v, 0x1_0000_0000, 0x100_0000);
  }

  lemma DivMul(v: nat, a: nat, b: nat)
    requires a > 0 && b > 0
    ensures a * b > 0 && (v / a) / b == v / (a * b)
  {
    var u, t := v / a, v % a;
    assert v == u * a + t;
    var q, r := u / b, u % b;
    assert u == q * b + r;
    Regrouped(v, a, b, u, t, q, r);
    DivModUnique(a * b, q, r * a + t);
  }

  lemma Regrouped(v: nat, a: nat, b: nat, u: nat, t: nat, q: nat, r: nat)
    requires v == u * a + t && t < a && u == q * b + r && r < b
    ensures v == q * (a * b) + (r * a + t) && r * a + t < a * b
  {
    Regroup(q, b, r, a);
    MulMonotone(r + 1, b, a);
  }

  lemma Regroup(q: nat, b: nat, r: nat, a: nat)
    ensures (q * b + r) * a == q * (a * b) + r * a
  {
  }

  lemma BytesStep(v: nat, n: nat)
    requires n > 0
    ensures LeBytes(v, n) == [v % 256] + LeBytes(v / 256, n - 1)
    ensures BeBytes(v, n) == BeBytes(v / 256, n - 1) + [v % 256]
  {
  }
}
