/**
 From the ELF file to the RAM of the device. The tool that builds an image and the bootloader that
 loads it are separate programs with offsets of their own; here they are shown to agree.
 */
module ImagePipeline {
  import opened Wrappers
  import opened Bytes
  import opened LittleEndian
  import Objcopy
  import opened CertBlocks
  import opened MasterBootImages
  import Device = ImxrtDevice

  /** A field of the header is the same field of anything that begins with it. */
  lemma {:induction false} DescribesWhole(header: seq<Byte>, whole: seq<Byte>, total: nat, imageType: U32, headerOffset: nat, loadAddr: U32)
    requires Describes(header, total, imageType, headerOffset, loadAddr) && header <= whole
    ensures Describes(whole, total, imageType, headerOffset, loadAddr)
    ensures Device.ReadIvt(whole) == Some(Device.Ivt(U32At(header, 0x20), imageType, U32At(header, 0x28), loadAddr))
  {
    FieldInPrefix(whole, header, 0x20);
    FieldInPrefix(whole, header, 0x24);
    FieldInPrefix(whole, header, 0x28);
    FieldInPrefix(whole, header, 0x34);
  }

  /**
   A merged image of any kind describes itself: it has the length, type and load address it states, and its
   certificate block, which holds the number of signed bytes, lies where it states, moved by the HMAC if it has one.
   */
  lemma {:induction false} MergedDescribesItself(
    image: seq<Byte>, base: U32, imageType: ImageType, certBlock: seq<Byte>, signatureLen: nat,
    signature: seq<Byte>, hmac: Option<seq<Byte>>, merged: seq<Byte>)
    requires IsBlock(certBlock) && (hmac.Some? ==> |hmac.value| == HMAC_BYTES)
    requires var built := Built(image, base, imageType, certBlock, signatureLen);
             built.Some? && Merged(built.value, imageType.kind, signatureLen, signature, true, hmac) == Ok(merged)
    ensures |merged| >= HEADER_BYTES && Describes(merged, |merged|, imageType.AsU32(), U32At(merged, 0x28), base)
    ensures var inserted := if imageType.kind in {PlainSigned, EncryptedSigned} then HMAC_BYTES else 0;
            var offset := U32At(merged, 0x28) + inserted;
            var signedLen := |merged| - inserted - |signature|;
            && |image| <= U32At(merged, 0x28) < |image| + DATA_ALIGN
            && 0 <= signedLen < 0x1_0000_0000
            && offset + |certBlock| + |signature| == |merged|
            && merged[offset..offset + |certBlock|] == WithTotalLength(certBlock, signedLen)
  {
    hide FromLe, Padded, ImageType.AsU32, WithTotalLength;
    var parts := Built(image, base, imageType, certBlock, signatureLen).value;
    var data := Padded(image[HEADER_BYTES..]);
    AssembledFields(image[..HEADER_BYTES], data, base, imageType, certBlock, signatureLen, parts);
    var inserted: seq<Byte> := if imageType.kind.HasHmac() then hmac.value else [];
    assert merged == parts.header + inserted + data + parts.certBlock + signature;
    DescribesWhole(parts.header, merged, |merged|, imageType.AsU32(), HEADER_BYTES + |data|, base);
    BlockInside(parts.header + inserted, data, parts.certBlock, signature);
  }

  /** The tool and the device read the same fields of a certificate block, and the tool sets the one it means to. */
  lemma {:induction false} SameHeader(d: seq<Byte>, length: U32)
    requires |d| >= 0x20
    ensures var h := Device.ReadHeader(d);
            && h.Some?
            && HeaderLen(d) == h.value.headerLength
            && CertCount(d) == h.value.certificateCount
            && TableLen(d) == h.value.certificateTableLength
            && Device.ReadHeader(WithTotalLength(d, length)) == Some(h.value.(totalImageLength := length))
  {
    hide FromLe, ToLe, FromLe16;
    var d' := WithTotalLength(d, length);
    PatchedField(d, 0x14, length);
    assert d'[0..4] == d[0..4] && d'[4..6] == d[4..6] && d'[6..8] == d[6..8] && d'[8..12] == d[8..12];
    assert d'[12..16] == d[12..16] && d'[16..20] == d[16..20] && d'[24..28] == d[24..28] && d'[28..32] == d[28..32];
  }

  /** A signed image that is executed in place, as the tool builds and merges it. */
  ghost predicate Signed(image: seq<Byte>, base: U32, certBlock: seq<Byte>, signature: seq<Byte>, merged: seq<Byte>)
  {
    && IsBlock(certBlock)
    && HeaderLen(certBlock) == 0x20
    && var built := Built(image, base, ImageType.New(XipPlainSigned), certBlock, |signature|);
    && built.Some?
    && Merged(built.value, XipPlainSigned, |signature|, signature, true, None) == Ok(merged)
  }

  lemma {:induction false} AlignedSum(n: nat)
    requires n % DATA_ALIGN == 0
    ensures (HEADER_BYTES + n) % DATA_ALIGN == 0
  {
  }

  /** The parts of a merged image, one after the other. */
  lemma {:induction false} SignedParts(image: seq<Byte>, base: U32, certBlock: seq<Byte>, signature: seq<Byte>, merged: seq<Byte>)
    returns (header: seq<Byte>, data: seq<Byte>)
    requires Signed(image, base, certBlock, signature, merged)
    ensures |image| >= HEADER_BYTES && |header| == HEADER_BYTES
    ensures image[HEADER_BYTES..] <= data && |data| < |image| - HEADER_BYTES + DATA_ALIGN
    ensures (HEADER_BYTES + |data|) % DATA_ALIGN == 0
    ensures var offset := HEADER_BYTES + |data|;
            && offset + |certBlock| < 0x1_0000_0000
            && Describes(header, offset + |certBlock| + |signature|, Device.IMAGE_TYPE_XIP_SIGNED, offset, base)
            && merged == header + data + WithTotalLength(certBlock, offset + |certBlock|) + signature
    ensures forall i :: 0 <= i < HEADER_BYTES && !Overwritten(i) ==> header[i] == image[i]
  {
    hide PatchU32, FromLe, Padded;
    var imageType := ImageType.New(XipPlainSigned);
    var parts := Built(image, base, imageType, certBlock, |signature|).value;
    data := Padded(image[HEADER_BYTES..]);
    header := parts.header;
    AlignedSum(|data|);
    AssembledFields(image[..HEADER_BYTES], data, base, imageType, certBlock, |signature|, parts);
    assert header + [] == header;
  }

  /**
   Producer and consumer agree: from a signed image, as merged by the tool, the device reads type 4, the
   real length, the offset of the certificate block and the load address; it finds the root key hashes
   that the tool finds; and the certificate block holds the number of bytes that were signed.
   */
  lemma {:induction false} ProducerAndConsumerAgree(
    image: seq<Byte>, base: U32, certBlock: seq<Byte>, signature: seq<Byte>, merged: seq<Byte>)
    returns (offset: U32)
    requires Signed(image, base, certBlock, signature, merged)
    ensures |image| <= offset < |image| + DATA_ALIGN && offset % DATA_ALIGN == 0
    ensures |merged| == offset + |certBlock| + |signature| < 0x1_0000_0000
    ensures Device.ReadIvt(merged) == Some(Device.Ivt(|merged|, Device.IMAGE_TYPE_XIP_SIGNED, offset, base))
    ensures Device.LocateHashes(merged, offset) == Device.Hashes(RootKeyHashes(certBlock))
    ensures U32At(merged, offset + 0x14) == |merged| - |signature|
  {
    hide Built, Merged, Describes, Device.ReadIvt, Device.LocateHashes;
    var header, data := SignedParts(image, base, certBlock, signature, merged);
    offset := HEADER_BYTES + |data|;
    LayoutIsRead(header, data, certBlock, signature, base);
  }

  /** What the device reads from an image that is laid out in this way. */
  lemma {:induction false} LayoutIsRead(header: seq<Byte>, data: seq<Byte>, certBlock: seq<Byte>, signature: seq<Byte>, base: U32)
    requires IsBlock(certBlock) && HeaderLen(certBlock) == 0x20 && |header| == HEADER_BYTES
    requires HEADER_BYTES + |data| + |certBlock| < 0x1_0000_0000
    requires Describes(header, HEADER_BYTES + |data| + |certBlock| + |signature|, Device.IMAGE_TYPE_XIP_SIGNED, HEADER_BYTES + |data|, base)
    ensures var offset := HEADER_BYTES + |data|;
            var merged := header + data + WithTotalLength(certBlock, offset + |certBlock|) + signature;
            && |merged| == offset + |certBlock| + |signature| < 0x1_0000_0000
            && Device.ReadIvt(merged) == Some(Device.Ivt(|merged|, Device.IMAGE_TYPE_XIP_SIGNED, offset, base))
            && Device.LocateHashes(merged, offset) == Device.Hashes(RootKeyHashes(certBlock))
            && U32At(merged, offset + 0x14) == |merged| - |signature|
  {
    hide FromLe, ToLe, Device.LocateHashes, RootKeyHashes;
    var offset := HEADER_BYTES + |data|;
    var block := WithTotalLength(certBlock, offset + |certBlock|);
    var merged := header + data + block + signature;
    BlockInside(header, data, block, signature);
    DescribesWhole(header, merged, |merged|, Device.IMAGE_TYPE_XIP_SIGNED, offset, base);
    BlockIsFound(merged, offset, certBlock, offset + |certBlock|);
  }

  lemma {:induction false} BlockInside(header: seq<Byte>, data: seq<Byte>, block: seq<Byte>, signature: seq<Byte>)
    ensures var whole, offset := header + data + block + signature, |header| + |data|;
            && |whole| == offset + |block| + |signature|
            && header <= whole
            && whole[offset..offset + |block|] == block
  {
  }

  lemma {:induction false} FieldInPrefix(whole: seq<Byte>, prefix: seq<Byte>, offset: nat)
    requires prefix <= whole && offset + 4 <= |prefix|
    ensures U32At(whole, offset) == U32At(prefix, offset)
  {
    assert whole[offset..offset + 4] == prefix[offset..offset + 4];
  }

  /** The device finds its way through a certificate block at any offset. */
  lemma {:induction false} BlockIsFound(image: seq<Byte>, offset: nat, certBlock: seq<Byte>, length: U32)
    requires IsBlock(certBlock) && HeaderLen(certBlock) == 0x20
    requires offset + |certBlock| <= |image| < 0x1_0000_0000
    requires image[offset..offset + |certBlock|] == WithTotalLength(certBlock, length)
    ensures Device.LocateHashes(image, offset) == Device.Hashes(RootKeyHashes(certBlock))
    ensures U32At(image, offset + 0x14) == length
  {
    var block := image[offset..offset + |certBlock|];
    TotalLengthKeepsTables(certBlock, length);
    TotalLengthKeepsHeader(certBlock, length);
    FieldInside(image, offset, |certBlock|, 0x08);
    FieldInside(image, offset, |certBlock|, 0x14);
    FieldInside(image, offset, |certBlock|, 0x1c);
    var start := HeaderLen(certBlock) + TableLen(certBlock);
    LocatedAt(image, offset, start);
    HashesInside(image, offset, |certBlock|, start);
    assert RootKeyHashes(block) == HashesAt(block, start);
  }

  /** Four hashes from a position on. */
  function HashesAt(data: seq<Byte>, start: nat): seq<seq<Byte>>
    requires start + 128 <= |data|
  {
    seq(4, i requires 0 <= i < 4 => data[start + 32 * i..start + 32 * (i + 1)])
  }

  lemma {:induction false} LocatedAt(image: seq<Byte>, offset: nat, start: nat)
    requires offset + start + 128 <= |image| < 0x1_0000_0000 && start >= 0x20
    requires U32At(image, offset + 8) + U32At(image, offset + 28) == start
    ensures Device.LocateHashes(image, offset) == Device.Hashes(HashesAt(image, offset + start))
  {
    hide FromLe, Device.LocateHashes;
    Device.LocatesExactly(image, offset);
  }

  lemma {:induction false} FieldInside(image: seq<Byte>, offset: nat, length: nat, field: nat)
    requires offset + length <= |image| && field + 4 <= length
    ensures U32At(image[offset..offset + length], field) == U32At(image, offset + field)
  {
    SliceOfSlice(image, offset, offset + length, field, field + 4);
  }

  lemma {:induction false} HashesInside(image: seq<Byte>, offset: nat, length: nat, start: nat)
    requires offset + length <= |image| && start + 128 <= length
    ensures HashesAt(image, offset + start) == HashesAt(image[offset..offset + length], start)
  {
    forall i | 0 <= i < 4
      ensures image[offset..offset + length][start + 32 * i..start + 32 * (i + 1)] ==
              image[offset + start + 32 * i..offset + start + 32 * (i + 1)]
    {
      SliceOfSlice(image, offset, offset + length, start + 32 * i, start + 32 * (i + 1));
    }
  }

  /** A slot that holds an image, whatever lies behind it, and does not change while it is read. */
  function Holding(merged: seq<Byte>, behind: seq<Byte>): Device.Slot
  {
    Device.Slot(|merged + behind|, Some(merged + behind), Some(merged + behind))
  }

  /** The slot and the addresses leave room for an image. */
  predicate Fits(config: Device.Config, merged: seq<Byte>, behind: seq<Byte>, base: U32, ram: seq<Byte>)
  {
    && config.slotSizeMin <= |merged|
    && |merged + behind| < config.slotSizeEnd
    && config.loadStart <= base
    && base + |merged| < config.loadEnd <= |ram|
  }

  /** A signed image that fits is booted exactly when it authenticates, and is then in RAM at its load address. */
  lemma {:induction false} SignedImageBoots(
    image: seq<Byte>, base: U32, certBlock: seq<Byte>, signature: seq<Byte>, merged: seq<Byte>,
    config: Device.Config, slots: seq<Device.Slot>, index: nat, behind: seq<Byte>, authentic: bool, ram: seq<Byte>)
    requires Signed(image, base, certBlock, signature, merged) && Fits(config, merged, behind, base, ram)
    requires index < |slots| && slots[index] == Holding(merged, behind)
    requires forall i :: 0 <= i < |slots| ==> Device.Readable(slots[i])
    ensures Device.CheckAndBoot(config, slots, index, authentic, ram) ==
            (if authentic then Device.Booted(base) else Device.Failed(Device.Authenticate), Patch(ram, base, merged))
  {
    var offset := ProducerAndConsumerAgree(image, base, certBlock, signature, merged);
    IvtInPrefix(merged, behind);
    SlotIsChecked(config, slots[index], Device.ReadIvt(merged).value);
    assert slots[index].atCopy.value[..|merged|] == merged;
  }

  lemma {:induction false} SlotIsChecked(config: Device.Config, slot: Device.Slot, ivt: Device.Ivt)
    requires Device.Readable(slot) && slot.atCheck.Some? && Device.ReadIvt(slot.atCheck.value) == Some(ivt)
    requires ivt.imageType == Device.IMAGE_TYPE_XIP_SIGNED
    requires config.slotSizeMin <= ivt.imageLen <= slot.capacity < config.slotSizeEnd
    requires config.loadStart <= ivt.target && ivt.target + ivt.imageLen < config.loadEnd
    ensures Device.CheckSlot(config, slot) == Ok(ivt)
  {
  }

  lemma {:induction false} IvtInPrefix(merged: seq<Byte>, behind: seq<Byte>)
    requires |merged| >= Device.IVT_BYTES
    ensures Device.ReadIvt(merged + behind) == Device.ReadIvt(merged)
  {
    FieldInPrefix(merged + behind, merged, 0x20);
    FieldInPrefix(merged + behind, merged, 0x24);
    FieldInPrefix(merged + behind, merged, 0x28);
    FieldInPrefix(merged + behind, merged, 0x34);
  }

  /** The words of the vector table that the header overwrites. */
  predicate Overwritten(offset: nat)
  {
    0x20 <= offset < 0x2c || 0x34 <= offset < 0x38
  }

  /** Every byte of the program but the overwritten words is in the merged image at its offset. */
  lemma {:induction false} ProgramIsMerged(
    image: seq<Byte>, base: U32, certBlock: seq<Byte>, signature: seq<Byte>, merged: seq<Byte>, o: nat)
    requires Signed(image, base, certBlock, signature, merged) && o < |image| <= |merged| && !Overwritten(o)
    ensures merged[o] == image[o]
  {
    var header, data := SignedParts(image, base, certBlock, signature, merged);
    if o < HEADER_BYTES {
      assert merged[o] == header[o];
    } else {
      assert merged[o] == data[o - HEADER_BYTES] == image[HEADER_BYTES..][o - HEADER_BYTES];
    }
  }

  /**
   End to end: for every ELF file that objcopy accepts, signed with any certificate block and loaded from a slot it
   fits, an image that authenticates runs with each byte of each segment outside the prelude at its physical address,
   except in the words that the header fills in.
   */
  lemma {:induction false} SegmentsReachTheirAddresses(
    file: Objcopy.ElfFile, certBlock: seq<Byte>, signature: seq<Byte>, merged: seq<Byte>,
    config: Device.Config, slots: seq<Device.Slot>, index: nat, behind: seq<Byte>, ram: seq<Byte>, i: nat, k: nat)
    requires Objcopy.Copied(file).Ok?
    requires var image := Objcopy.Copied(file).value;
             && Signed(image.bytes, image.base, certBlock, signature, merged)
             && Fits(config, merged, behind, image.base, ram)
    requires index < |slots| && slots[index] == Holding(merged, behind)
    requires forall i :: 0 <= i < |slots| ==> Device.Readable(slots[i])
    requires i < |file.segments| && k < |file.segments[i].data|
    requires !(0x0800_0000 <= file.segments[i].paddr < 0x0800_1000)
    ensures var image, s := Objcopy.Copied(file).value, file.segments[i];
            var (boot, ram') := Device.CheckAndBoot(config, slots, index, true, ram);
            && boot == Device.Booted(image.base)
            && image.base <= s.paddr + k < |ram'|
            && (!Overwritten(s.paddr + k - image.base) ==> ram'[s.paddr + k] == s.data[k])
  {
    hide Objcopy.Kept, Signed, Device.ReadIvt, Device.LocateHashes, Device.CheckAndBoot;
    var image, s := Objcopy.Copied(file).value, file.segments[i];
    Objcopy.SegmentIsCopied(file, i);
    var o := s.paddr + k - image.base;
    assert image.bytes[o] == image.bytes[s.paddr - image.base..s.paddr + |s.data| - image.base][k];
    SignedImageBoots(image.bytes, image.base, certBlock, signature, merged, config, slots, index, behind, true, ram);
    var offset := ProducerAndConsumerAgree(image.bytes, image.base, certBlock, signature, merged);
    if !Overwritten(o) {
      ProgramIsMerged(image.bytes, image.base, certBlock, signature, merged, o);
    }
  }
}
