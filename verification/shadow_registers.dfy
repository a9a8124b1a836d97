/** OTP words and the shadow registers that mirror some of them (libs/imxrt-rom/src/registers.rs). */
module ShadowRegisters {
  import opened Wrappers
  import opened Bytes
  import opened LittleEndian

  const OTP_SHADOW_BASE_ADDR := 0x4013_0000

  /** The offset of an OTP word in the shadow register block, piece by piece; None where it has none. */
  function ShadowOffset(word: nat): Option<nat>
  {
    if 8 <= word <= 9 then Some((word - 8) * 4 + 0x020)
    else if 95 <= word <= 104 then Some((word - 95) * 4 + 0x17C)
    else if 106 <= word <= 127 then Some((word - 106) * 4 + 0x1A8)
    else if 492 <= word <= 495 then Some((word - 492) * 4 + 0x7B0)
    else None
  }

  function ShadowAddress(word: nat): Option<nat>
  {
    if ShadowOffset(word).Some? then Some(OTP_SHADOW_BASE_ADDR + ShadowOffset(word).value) else None
  }

  /** All pieces lie on one line, so two words never share an address. */
  lemma {:induction false} AddressIsLinear(word: nat)
    ensures ShadowAddress(word).Some? ==> ShadowAddress(word).value == OTP_SHADOW_BASE_ADDR + 4 * word
  {
  }

  /** The words that are mapped: the ones of the fuse map that are mirrored, the root key table hash among them. */
  lemma {:induction false} MappedExactly(word: nat)
    ensures ShadowAddress(word).Some? <==>
            8 <= word < 10 || 95 <= word < 105 || 106 <= word < 128 || 492 <= word < 496
    ensures ShadowAddress(96) == Some(0x4013_0180) && ShadowAddress(97) == Some(0x4013_0184)
    ensures ShadowAddress(101) == Some(0x4013_0194)
    ensures ShadowAddress(120) == Some(0x4013_01E0) && ShadowAddress(127) == Some(0x4013_01FC)
  {
  }

  function ChunkLen(length: nat): nat
  {
    if length < 4 then length else 4
  }

  function Zeros(count: nat): seq<Byte>
  {
    seq<Byte>(count, i => 0)
  }

  /** A chunk of at most four bytes as a word: little-endian, filled up with zeros at the end. */
  function WordOf(chunk: seq<Byte>): U32
    requires |chunk| <= 4
  {
    FromLe(chunk + Zeros(4 - |chunk|))
  }

  /** The word at an address; a register is always there, with some word in it. */
  type Memory = map<nat, U32>

  function WordAt(memory: Memory, address: nat): U32
  {
    if address in memory then memory[address] else 0
  }

  /** Writing data word by word; it stops at the first word that is not mapped. */
  function Write(memory: Memory, word: nat, data: seq<Byte>): (Memory, bool)
    decreases |data|
  {
    var n := ChunkLen(|data|);
    if data == [] then (memory, true)
    else if ShadowAddress(word).None? then (memory, false)
    else Write(memory[ShadowAddress(word).value := WordOf(data[..n])], word + 1, data[n..])
  }

  /** Reading some bytes word by word; a last partial word gives its first bytes. */
  function Read(memory: Memory, word: nat, length: nat): Option<seq<Byte>>
    decreases length
  {
    if length == 0 then Some([])
    else if ShadowAddress(word).None? then None
    else
      var n := ChunkLen(length);
      Prepended(ToLe(WordAt(memory, ShadowAddress(word).value))[..n], Read(memory, word + 1, length - n))
  }

  function Prepended(bytes: seq<Byte>, rest: Option<seq<Byte>>): Option<seq<Byte>>
  {
    if rest.Some? then Some(bytes + rest.value) else None
  }

  /** Every word that some bytes fall into is mapped. */
  predicate AllMapped(word: nat, length: nat)
    decreases length
  {
    length == 0 || (ShadowAddress(word).Some? && AllMapped(word + 1, length - ChunkLen(length)))
  }

  /** Writing and reading succeed exactly when every word is mapped. */
  lemma {:induction false} SucceedsExactly(memory: Memory, word: nat, data: seq<Byte>)
    ensures Write(memory, word, data).1 <==> AllMapped(word, |data|)
    ensures Read(memory, word, |data|).Some? <==> AllMapped(word, |data|)
    decreases |data|
  {
    if data != [] && ShadowAddress(word).Some? {
      var n := ChunkLen(|data|);
      SucceedsExactly(memory[ShadowAddress(word).value := WordOf(data[..n])], word + 1, data[n..]);
      SucceedsExactly(memory, word + 1, data[n..]);
    }
  }

  /** Outside the addresses of the data, every word stays as it was, even when writing stops half-way. */
  lemma {:induction false} OthersUnchanged(memory: Memory, word: nat, data: seq<Byte>, address: nat)
    requires var start := OTP_SHADOW_BASE_ADDR + 4 * word; !(start <= address < start + |data|)
    ensures WordAt(Write(memory, word, data).0, address) == WordAt(memory, address)
    decreases |data|
  {
    if data != [] && ShadowAddress(word).Some? {
      var n := ChunkLen(|data|);
      AddressIsLinear(word);
      OthersUnchanged(memory[ShadowAddress(word).value := WordOf(data[..n])], word + 1, data[n..], address);
    }
  }

  /** The first word of the data, filled up with zeros when the data ends in it. */
  lemma {:induction false} FirstWord(memory: Memory, word: nat, data: seq<Byte>)
    requires data != [] && ShadowAddress(word).Some?
    ensures var n := ChunkLen(|data|);
            ToLe(WordAt(Write(memory, word, data).0, ShadowAddress(word).value)) == data[..n] + Zeros(4 - n)
  {
    var n, address := ChunkLen(|data|), ShadowAddress(word).value;
    AddressIsLinear(word);
    OthersUnchanged(memory[address := WordOf(data[..n])], word + 1, data[n..], address);
    WritesBack(data[..n] + Zeros(4 - n));
  }

  function ByteOrZero(data: seq<Byte>, k: nat): Byte
  {
    if k < |data| then data[k] else 0
  }

  /**
   Every word that is reached holds its four bytes of the data, the first one least significant, with zeros
   behind the end of the data; it is reached when no word before it is missing.
   */
  lemma {:induction false} WrittenWord(memory: Memory, word: nat, data: seq<Byte>, i: nat)
    requires 4 * i < |data| && forall j :: word <= j <= word + i ==> ShadowAddress(j).Some?
    ensures WordAt(Write(memory, word, data).0, 0x4013_0000 + 4 * (word + i)) ==
            ByteOrZero(data, 4 * i) + 0x100 * ByteOrZero(data, 4 * i + 1) +
            0x1_0000 * ByteOrZero(data, 4 * i + 2) + 0x100_0000 * ByteOrZero(data, 4 * i + 3)
    decreases i
  {
    var n := ChunkLen(|data|);
    assert ShadowAddress(word).Some?;
    AddressIsLinear(word);
    var memory' := memory[ShadowAddress(word).value := WordOf(data[..n])];
    if i == 0 {
      OthersUnchanged(memory', word + 1, data[n..], ShadowAddress(word).value);
    } else {
      WrittenWord(memory', word + 1, data[4..], i - 1);
      assert forall k :: 4 <= k < 4 * i + 4 ==> ByteOrZero(data[4..], k - 4) == ByteOrZero(data, k);
    }
  }

  /** The unit tests of the program for a register of two bytes and one of several words. */
  lemma {:induction false} WordVectors()
    ensures WordOf([0x34, 0x12]) == 0x0000_1234
    ensures WordOf([0x01, 0x02, 0x03, 0x04]) == 0x0403_0201
    ensures ToLe(0x0000_1234)[..2] == [0x34, 0x12]
  {
  }

  /** How many bytes the last word of some data has left. */
  function Unused(length: nat): nat
  {
    if length == 0 then 0 else if length <= 4 then 4 - length else Unused(length - 4)
  }

  /**
   The round trip: data that was written is read back, whatever its length; reading on to the end of
   its last word gives zeros, with which that word was filled up.
   */
  lemma {:induction false} RoundTrip(memory: Memory, word: nat, data: seq<Byte>, zeros: nat)
    requires AllMapped(word, |data|) && zeros <= Unused(|data|)
    ensures Read(Write(memory, word, data).0, word, |data| + zeros) == Some(data + Zeros(zeros))
    decreases |data|
  {
    if data == [] {
      assert [] + Zeros(0) == [];
    } else {
      FirstWord(memory, word, data);
      var memory' := Write(memory, word, data).0;
      var bytes := ToLe(WordAt(memory', ShadowAddress(word).value));
      if |data| <= 4 {
        assert data[..|data|] == data;
        assert bytes[..|data| + zeros] == data + Zeros(zeros);
        assert Read(memory', word + 1, 0) == Some([]);
        assert data + Zeros(zeros) + [] == data + Zeros(zeros);
      } else {
        RoundTrip(memory[ShadowAddress(word).value := WordOf(data[..4])], word + 1, data[4..], zeros);
        assert bytes[..4] == data[..4];
        assert data[..4] + (data[4..] + Zeros(zeros)) == data + Zeros(zeros);
      }
    }
  }

  /** The root key table hash, 32 bytes from word 120 on, can be written and read back. */
  lemma {:induction false} RkthReadsBack(memory: Memory, rkth: seq<Byte>)
    requires |rkth| == 32
    ensures Write(memory, 120, rkth).1
    ensures Read(Write(memory, 120, rkth).0, 120, 32) == Some(rkth)
  {
    assert AllMapped(120, 32);
    SucceedsExactly(memory, 120, rkth);
    RoundTrip(memory, 120, rkth, 0);
    assert rkth + Zeros(0) == rkth;
  }

  datatype NotShadowRegister = NotShadowRegister

  /** The shadow registers as memory. */
  class ShadowInterface {
    var memory: Memory

    constructor (memory: Memory)
      ensures this.memory == memory
    {
      this.memory := memory;
    }

    method WriteRegister(word: nat, data: seq<Byte>) returns (r: Result<(), NotShadowRegister>)
      modifies this
      ensures (memory, r.Ok?) == Write(old(memory), word, data)
    {
      var left, next := data, word;
      while left != []
        invariant Write(memory, next, left) == Write(old(memory), word, data)
        decreases |left|
      {
        var n := ChunkLen(|left|);
        var address := ShadowAddress(next);
        if address.None? {
          return Err(NotShadowRegister);
        }
        memory := memory[address.value := WordOf(left[..n])];
        left, next := left[n..], next + 1;
      }
      return Ok(());
    }

    method ReadRegister(word: nat, length: nat) returns (r: Result<seq<Byte>, NotShadowRegister>)
      ensures var read := Read(memory, word, length);
              r == if read.Some? then Ok(read.value) else Err(NotShadowRegister)
    {
      var data: seq<Byte> := [];
      var left, next := length, word;
      ghost var all := Read(memory, word, length);
      assert all.Some? ==> [] + all.value == all.value;
      while left > 0
        invariant all == Prepended(data, Read(memory, next, left))
        decreases left
      {
        var n := ChunkLen(left);
        var address := ShadowAddress(next);
        if address.None? {
          return Err(NotShadowRegister);
        }
        var bytes := ToLe(WordAt(memory, address.value))[..n];
        PrependedTwice(data, bytes, Read(memory, next + 1, left - n));
        data := data + bytes;
        left, next := left - n, next + 1;
      }
      assert data + [] == data;
      return Ok(data);
    }
  }

  lemma {:induction false} PrependedTwice(a: seq<Byte>, b: seq<Byte>, rest: Option<seq<Byte>>)
    ensures Prepended(a, Prepended(b, rest)) == Prepended(a + b, rest)
  {
    if rest.Some? {
      assert a + (b + rest.value) == a + b + rest.value;
    }
  }
}
