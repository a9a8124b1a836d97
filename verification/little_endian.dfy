/** 32-bit little-endian fields inside byte sequences. */
module LittleEndian {
  import opened Bytes

  type U16 = x: int | 0 <= x < 0x1_0000

  type U32 = x: int | 0 <= x < 0x1_0000_0000

  function ToLe16(x: U16): (bytes: seq<Byte>)
    ensures |bytes| == 2
  {
    [x % 0x100, x / 0x100]
  }

  function FromLe16(bytes: seq<Byte>): U16
    requires |bytes| == 2
  {
    var b0: int, b1: int := bytes[0], bytes[1];
    b0 + 0x100 * b1
  }

  lemma {:induction false} ReadsBack16(x: U16)
    ensures FromLe16(ToLe16(x)) == x
  {
  }

  function ToLe(x: U32): (bytes: seq<Byte>)
    ensures |bytes| == 4
  {
    [x % 0x100, x / 0x100 % 0x100, x / 0x1_0000 % 0x100, x / 0x100_0000]
  }

  function FromLe(bytes: seq<Byte>): U32
    requires |bytes| == 4
  {
    var b0: int, b1: int, b2: int, b3: int := bytes[0], bytes[1], bytes[2], bytes[3];
    b0 + 0x100 * b1 + 0x1_0000 * b2 + 0x100_0000 * b3
  }

  lemma {:induction false} ReadsBack(x: U32)
    ensures FromLe(ToLe(x)) == x
  {
    var y := x / 0x100;
    assert x / 0x1_0000 == y / 0x100;
    assert x / 0x100_0000 == y / 0x100 / 0x100;
  }

  lemma {:induction false} WritesBack(bytes: seq<Byte>)
    requires |bytes| == 4
    ensures ToLe(FromLe(bytes)) == bytes
  {
    var b0: int, b1: int, b2: int, b3: int := bytes[0], bytes[1], bytes[2], bytes[3];
    var x: int, y: int, z: int := FromLe(bytes), b1 + 0x100 * b2 + 0x1_0000 * b3, b2 + 0x100 * b3;
    assert x == b0 + 0x100 * y && x / 0x100 == y && x % 0x100 == b0;
    assert y == b1 + 0x100 * z && y / 0x100 == z && y % 0x100 == b1;
    assert x / 0x1_0000 == z && x / 0x100_0000 == z / 0x100 == b3;
  }

  /** The field at an offset. */
  function U32At(data: seq<Byte>, offset: nat): U32
    requires offset + 4 <= |data|
  {
    FromLe(data[offset..offset + 4])
  }

  function U16At(data: seq<Byte>, offset: nat): U16
    requires offset + 2 <= |data|
  {
    FromLe16(data[offset..offset + 2])
  }

  /** A field written out byte by byte, the least significant one first. */
  predicate HasField(data: seq<Byte>, offset: nat, x: U32)
  {
    && offset + 4 <= |data|
    && data[offset] == x % 0x100
    && data[offset + 1] == x / 0x100 % 0x100
    && data[offset + 2] == x / 0x1_0000 % 0x100
    && data[offset + 3] == x / 0x100_0000
  }

  /** A field reads as a number exactly when its bytes are those of the number. */
  lemma {:induction false} FieldBytes(data: seq<Byte>, offset: nat, x: U32)
    requires offset + 4 <= |data|
    ensures U32At(data, offset) == x <==> HasField(data, offset, x)
  {
    var bytes := data[offset..offset + 4];
    ReadsBack(x);
    WritesBack(bytes);
    assert bytes == ToLe(x) <==> HasField(data, offset, x);
  }

  /** Bytes overwritten in place. */
  function Patch(data: seq<Byte>, offset: nat, bytes: seq<Byte>): (patched: seq<Byte>)
    requires offset + |bytes| <= |data|
    ensures |patched| == |data|
  {
    data[..offset] + bytes + data[offset + |bytes|..]
  }

  function PatchU32(data: seq<Byte>, offset: nat, x: U32): (patched: seq<Byte>)
    requires offset + 4 <= |data|
    ensures |patched| == |data|
  {
    Patch(data, offset, ToLe(x))
  }

  /** A patched field reads back, and every field and byte beside it is untouched. */
  lemma {:induction false} PatchedField(data: seq<Byte>, offset: nat, x: U32)
    requires offset + 4 <= |data|
    ensures var patched := PatchU32(data, offset, x);
            && U32At(patched, offset) == x && HasField(patched, offset, x)
            && (forall i :: 0 <= i < |data| && !(offset <= i < offset + 4) ==> patched[i] == data[i])
  {
    assert PatchU32(data, offset, x)[offset..offset + 4] == ToLe(x);
    ReadsBack(x);
    FieldBytes(PatchU32(data, offset, x), offset, x);
  }

  lemma {:induction false} SliceOfSlice(data: seq<Byte>, i: nat, j: nat, a: nat, b: nat)
    requires i <= j <= |data| && a <= b <= j - i
    ensures data[i..j][a..b] == data[i + a..i + b]
  {
    forall k | 0 <= k < b - a
      ensures data[i..j][a..b][k] == data[i + a..i + b][k]
    {
      assert data[i..j][a + k] == data[i + a + k];
    }
  }
}
