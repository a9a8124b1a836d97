/**
 Loading an image on the device (libs/ec-slimloader-imxrt/src/lib.rs, mbi.rs and verification.rs): the
 checks on the vector table, the copy to RAM, and finding the root key hashes in the copied image.
 */
module ImxrtDevice {
  import opened Wrappers
  import opened Bytes
  import opened LittleEndian

  const IMAGE_TYPE_XIP_SIGNED: U32 := 4
  const IVT_BYTES := 64
  const CERT_HEADER_BYTES := 32
  const RKHS_BYTES := 128

  datatype Ivt = Ivt(imageLen: U32, imageType: U32, headerOffset: U32, target: U32)

  /** Ivt::read_from_slice; None for a slice that is too small. */
  function ReadIvt(data: seq<Byte>): Option<Ivt>
  {
    if |data| < IVT_BYTES then None
    else Some(Ivt(U32At(data, 0x20), U32At(data, 0x24), U32At(data, 0x28), U32At(data, 0x34)))
  }

  /** The end of the image in the 32-bit address space, if it has one. */
  function TargetEnd(ivt: Ivt): Option<U32>
  {
    if ivt.target + ivt.imageLen < 0x1_0000_0000 then Some(ivt.target + ivt.imageLen) else None
  }

  datatype BootError = SlotUnknown | TooLarge | TooSmall | Markers | MemoryRegion | ChangeAfterRead | Authenticate | IO

  /** The header of the certificate block, field by field as it lies in memory. */
  datatype CertificateBlockHeader = CertificateBlockHeader(
    signature: U32, headerMajorVersion: U16, headerMinorVersion: U16, headerLength: U32, flags: U32,
    buildNumber: U32, totalImageLength: U32, certificateCount: U32, certificateTableLength: U32)

  /** CertificateBlockHeader::read_from_slice; None for a slice that is too small. */
  function ReadHeader(data: seq<Byte>): Option<CertificateBlockHeader>
  {
    if |data| < CERT_HEADER_BYTES then None
    else Some(CertificateBlockHeader(
      U32At(data, 0), U16At(data, 4), U16At(data, 6), U32At(data, 8), U32At(data, 12),
      U32At(data, 16), U32At(data, 20), U32At(data, 24), U32At(data, 28)))
  }

  /** The bytes of a header: its fields, one behind the other. */
  function HeaderBytes(h: CertificateBlockHeader): seq<Byte>
  {
    ToLe(h.signature) + ToLe16(h.headerMajorVersion) + ToLe16(h.headerMinorVersion) + ToLe(h.headerLength) +
    ToLe(h.flags) + ToLe(h.buildNumber) + ToLe(h.totalImageLength) + ToLe(h.certificateCount) +
    ToLe(h.certificateTableLength)
  }

  /** Every field is read from where the fields before it end. */
  lemma {:induction false} HeaderIsItsFields(h: CertificateBlockHeader, behind: seq<Byte>)
    ensures |HeaderBytes(h)| == CERT_HEADER_BYTES
    ensures ReadHeader(HeaderBytes(h) + behind) == Some(h)
  {
    hide ToLe, FromLe, ToLe16, FromLe16;
    var data := HeaderBytes(h) + behind;
    assert data[0..4] == ToLe(h.signature);
    assert data[4..6] == ToLe16(h.headerMajorVersion) && data[6..8] == ToLe16(h.headerMinorVersion);
    assert data[8..12] == ToLe(h.headerLength) && data[12..16] == ToLe(h.flags);
    assert data[16..20] == ToLe(h.buildNumber) && data[20..24] == ToLe(h.totalImageLength);
    assert data[24..28] == ToLe(h.certificateCount) && data[28..32] == ToLe(h.certificateTableLength);
    ReadsBack(h.signature);
    ReadsBack16(h.headerMajorVersion);
    ReadsBack16(h.headerMinorVersion);
    ReadsBack(h.headerLength);
    ReadsBack(h.flags);
    ReadsBack(h.buildNumber);
    ReadsBack(h.totalImageLength);
    ReadsBack(h.certificateCount);
    ReadsBack(h.certificateTableLength);
  }

  /** The hashes, an error, or a slice index out of range, which panics. */
  datatype Located = Hashes(hashes: seq<seq<Byte>>) | Refused(error: BootError) | Crashed

  /** Finding the root key hashes: behind the certificate block's header and table, with 32-bit addition. */
  function LocateHashes(image: seq<Byte>, headerOffset: U32): Located
  {
    if headerOffset > |image| then Crashed
    else
      var header := ReadHeader(image[headerOffset..]);
      if header.None? then Refused(TooLarge)
      else
        var start := (headerOffset + header.value.headerLength + header.value.certificateTableLength) % 0x1_0000_0000;
        if start > |image| then Crashed
        else if start + RKHS_BYTES > |image| then Refused(TooLarge)
        else Hashes(seq(4, i requires 0 <= i < 4 => image[start + 32 * i..start + 32 * (i + 1)]))
  }

  /** Bounds for the size of a slot, and the addresses an image may be loaded to. */
  datatype Config = Config(slotSizeMin: nat, slotSizeEnd: nat, loadStart: U32, loadEnd: U32)

  /** What a slot yields when its vector table is read and when the image is copied; reads may fail. */
  datatype Slot = Slot(capacity: nat, atCheck: Option<seq<Byte>>, atCopy: Option<seq<Byte>>)

  /** A slot yields as many bytes as it holds. */
  predicate Readable(slot: Slot)
  {
    && (slot.atCheck.Some? ==> |slot.atCheck.value| == slot.capacity)
    && (slot.atCopy.Some? ==> |slot.atCopy.value| == slot.capacity)
  }

  /** The checks before anything is copied. */
  function CheckSlot(config: Config, slot: Slot): Result<Ivt, BootError>
    requires Readable(slot)
  {
    if slot.capacity >= config.slotSizeEnd then Err(TooLarge)
    else if slot.atCheck.None? || slot.capacity < IVT_BYTES then Err(IO)
    else
      var ivt := ReadIvt(slot.atCheck.value).value;
      if ivt.imageType != IMAGE_TYPE_XIP_SIGNED then Err(Markers)
      else if ivt.imageLen > slot.capacity then Err(TooLarge)
      else if ivt.imageLen < config.slotSizeMin then Err(TooSmall)
      else if TargetEnd(ivt).None? then Err(TooLarge)
      else if !(config.loadStart <= ivt.target < config.loadEnd) || !(config.loadStart <= TargetEnd(ivt).value < config.loadEnd) then
        Err(MemoryRegion)
      else Ok(ivt)
  }

  datatype Boot = Booted(target: U32) | Failed(error: BootError) | Panicked

  /** The checks on what was copied. */
  function CheckCopy(copy: seq<Byte>, ivt: Ivt, authentic: bool): Boot
  {
    if |copy| < IVT_BYTES then Failed(TooSmall)
    else if ReadIvt(copy) != Some(ivt) then Failed(ChangeAfterRead)
    else
      match LocateHashes(copy, ivt.headerOffset)
      case Crashed => Panicked
      case Refused(error) => Failed(error)
      case Hashes(_) => if authentic then Booted(ivt.target) else Failed(Authenticate)
  }

  /** What check_and_boot answers, and the RAM from address 0 of `ram` on after it. */
  function CheckAndBoot(config: Config, slots: seq<Slot>, index: nat, authentic: bool, ram: seq<Byte>): (Boot, seq<Byte>)
    requires forall i :: 0 <= i < |slots| ==> Readable(slots[i])
    requires config.loadEnd <= |ram|
  {
    if index >= |slots| then (Failed(SlotUnknown), ram)
    else
      var checked := CheckSlot(config, slots[index]);
      if checked.Err? then (Failed(checked.error), ram)
      else if slots[index].atCopy.None? then (Failed(IO), ram)
      else
        var copy := slots[index].atCopy.value[..checked.value.imageLen];
        (CheckCopy(copy, checked.value, authentic), Patch(ram, checked.value.target, copy))
  }

  // ---------- The program ----------

  class Imxrt {
    const config: Config
    const ram: array<Byte>

    constructor (config: Config, ram: array<Byte>)
      ensures this.config == config && this.ram == ram
    {
      this.config := config;
      this.ram := ram;
    }

    /**
     Checks the image in a slot, copies it to RAM and checks it again. `authentic` is the answer of the
     ROM; `Booted` is the jump from which the program does not return.
     */
    method Attempt(slots: seq<Slot>, index: nat, authentic: bool) returns (boot: Boot)
      requires forall i :: 0 <= i < |slots| ==> Readable(slots[i])
      requires config.loadEnd <= ram.Length
      modifies ram
      ensures (boot, ram[..]) == CheckAndBoot(config, slots, index, authentic, old(ram[..]))
    {
      if index >= |slots| {
        return Failed(SlotUnknown);
      }
      var slot := slots[index];
      if slot.capacity >= config.slotSizeEnd {
        return Failed(TooLarge);
      }
      if slot.atCheck.None? || slot.capacity < IVT_BYTES {
        return Failed(IO);
      }
      var ivt := ReadIvt(slot.atCheck.value).value;
      if ivt.imageType != IMAGE_TYPE_XIP_SIGNED {
        return Failed(Markers);
      }
      if ivt.imageLen > slot.capacity {
        return Failed(TooLarge);
      }
      if ivt.imageLen < config.slotSizeMin {
        return Failed(TooSmall);
      }
      var end := TargetEnd(ivt);
      if end.None? {
        return Failed(TooLarge);
      }
      if !(config.loadStart <= ivt.target < config.loadEnd) || !(config.loadStart <= end.value < config.loadEnd) {
        return Failed(MemoryRegion);
      }
      if slot.atCopy.None? {
        return Failed(IO);
      }
      forall i | 0 <= i < ivt.imageLen {
        ram[ivt.target + i] := slot.atCopy.value[i];
      }
      ghost var copy := slot.atCopy.value[..ivt.imageLen];
      assert ram[..] == Patch(old(ram[..]), ivt.target, copy);
      assert ram[ivt.target..end.value] == copy;
      boot := CheckLoaded(ivt, end.value, authentic);
    }

    /** The second half, on the slice of RAM that was written. */
    method CheckLoaded(ivt: Ivt, end: U32, authentic: bool) returns (boot: Boot)
      requires ivt.target <= end <= ram.Length
      ensures boot == CheckCopy(ram[ivt.target..end], ivt, authentic)
    {
      var loaded := ram[ivt.target..end];
      var again := ReadIvt(loaded);
      if again.None? {
        return Failed(TooSmall);
      }
      if ivt != again.value {
        return Failed(ChangeAfterRead);
      }
      match LocateHashes(loaded, again.value.headerOffset) {
        case Crashed =>
          return Panicked;
        case Refused(error) =>
          return Failed(error);
        case Hashes(_) =>
      }
      if !authentic {
        return Failed(Authenticate);
      }
      return Booted(again.value.target);
    }
  }

  /**
   What runs was checked: when an image is booted, the RAM from its target on holds the bytes that were
   copied, and what they say about themselves passed every check, even if the slot had changed between
   the two reads. No other byte of RAM was written.
   */
  lemma {:induction false} BootedImageWasChecked(config: Config, slots: seq<Slot>, index: nat, authentic: bool, ram: seq<Byte>)
    requires forall i :: 0 <= i < |slots| ==> Readable(slots[i])
    requires config.loadEnd <= |ram|
    ensures var (boot, ram') := CheckAndBoot(config, slots, index, authentic, ram);
            boot.Booted? ==>
              && authentic
              && index < |slots| && slots[index].atCopy.Some?
              && boot.target <= |ram'|
              && var ivt := ReadIvt(ram'[boot.target..]);
              && ivt.Some? && ivt.value.imageType == IMAGE_TYPE_XIP_SIGNED && ivt.value.target == boot.target
              && config.slotSizeMin <= ivt.value.imageLen <= slots[index].capacity < config.slotSizeEnd
              && config.loadStart <= boot.target && boot.target + ivt.value.imageLen < config.loadEnd
              && |ram'| == |ram|
              && ram'[boot.target..boot.target + ivt.value.imageLen] == slots[index].atCopy.value[..ivt.value.imageLen]
              && (forall a :: 0 <= a < |ram| && !(boot.target <= a < boot.target + ivt.value.imageLen) ==> ram'[a] == ram[a])
              && LocateHashes(ram'[boot.target..boot.target + ivt.value.imageLen], ivt.value.headerOffset).Hashes?
  {
    hide FromLe, LocateHashes;
    var (boot, ram') := CheckAndBoot(config, slots, index, authentic, ram);
    if boot.Booted? {
      var checked := CheckSlot(config, slots[index]).value;
      var copy := slots[index].atCopy.value[..checked.imageLen];
      assert ram' == Patch(ram, checked.target, copy);
      var tail := ram'[boot.target..];
      assert tail[..|copy|] == copy;
      assert tail[0x20..0x24] == copy[0x20..0x24] && tail[0x24..0x28] == copy[0x24..0x28];
      assert tail[0x28..0x2c] == copy[0x28..0x2c] && tail[0x34..0x38] == copy[0x34..0x38];
    }
  }

  // ---------- Every answer, and what it does to RAM ----------

  /** The slot is not too large and its vector table can be read. */
  predicate HasTable(config: Config, slot: Slot)
  {
    slot.capacity < config.slotSizeEnd && slot.capacity >= 64 && slot.atCheck.Some?
  }

  /** The table announces a signed image. */
  predicate Announced(config: Config, slot: Slot)
    requires Readable(slot)
  {
    HasTable(config, slot) && U32At(slot.atCheck.value, 0x24) == 4
  }

  /** The announced image fills neither less than the least nor more than the whole slot, and fits the load range. */
  predicate Loadable(config: Config, slot: Slot)
    requires Readable(slot)
  {
    && Announced(config, slot)
    && var length, target := U32At(slot.atCheck.value, 0x20), U32At(slot.atCheck.value, 0x34);
    && config.slotSizeMin <= length <= slot.capacity
    && config.loadStart <= target && target + length < config.loadEnd
  }

  /** The bytes that are copied. */
  function Copy(slot: Slot): seq<Byte>
    requires Readable(slot) && slot.atCheck.Some? && slot.atCopy.Some? && slot.capacity >= 64
    requires U32At(slot.atCheck.value, 0x20) <= slot.capacity
  {
    slot.atCopy.value[..U32At(slot.atCheck.value, 0x20)]
  }

  /** RAM is written only by an image that passes every check on its vector table, and only where it belongs. */
  lemma {:induction false} OnlyLoadableImagesAreCopied(config: Config, slots: seq<Slot>, index: nat, authentic: bool, ram: seq<Byte>)
    requires forall i :: 0 <= i < |slots| ==> Readable(slots[i])
    requires config.loadEnd <= |ram|
    ensures var ram' := CheckAndBoot(config, slots, index, authentic, ram).1;
            && |ram'| == |ram|
            && if index < |slots| && Loadable(config, slots[index]) && slots[index].atCopy.Some? then
                 var target, copy := U32At(slots[index].atCheck.value, 0x34), Copy(slots[index]);
                 && config.loadStart <= target && target + |copy| < config.loadEnd
                 && forall a :: 0 <= a < |ram| ==>
                      ram'[a] == if target <= a < target + |copy| then copy[a - target] else ram[a]
               else ram' == ram
  {
    hide FromLe;
  }

  /** Where the root key hashes start, with 32-bit addition. */
  function HashesStart(image: seq<Byte>, headerOffset: U32): U32
    requires headerOffset + 32 <= |image|
  {
    (headerOffset + U32At(image, headerOffset + 8) + U32At(image, headerOffset + 28)) % 0x1_0000_0000
  }

  /** The certificate block begins behind the image, or its hashes do. */
  predicate OutsideImage(image: seq<Byte>, headerOffset: U32)
  {
    headerOffset > |image| || (headerOffset + 32 <= |image| && HashesStart(image, headerOffset) > |image|)
  }

  /** The header or the hashes are cut off by the end of the image. */
  predicate CutOff(image: seq<Byte>, headerOffset: U32)
  {
    || headerOffset <= |image| < headerOffset + 32
    || (headerOffset + 32 <= |image| && HashesStart(image, headerOffset) <= |image| < HashesStart(image, headerOffset) + 128)
  }

  lemma {:induction false} LocatesExactly(image: seq<Byte>, headerOffset: U32)
    ensures LocateHashes(image, headerOffset) == Crashed <==> OutsideImage(image, headerOffset)
    ensures LocateHashes(image, headerOffset) == Refused(TooLarge) <==> CutOff(image, headerOffset)
    ensures LocateHashes(image, headerOffset).Hashes? <==> !OutsideImage(image, headerOffset) && !CutOff(image, headerOffset)
    ensures LocateHashes(image, headerOffset).Hashes? ==>
              headerOffset + 32 <= |image| && HashesStart(image, headerOffset) + 128 <= |image| &&
              LocateHashes(image, headerOffset).hashes ==
              seq(4, i requires 0 <= i < 4 =>
                image[HashesStart(image, headerOffset) + 32 * i..HashesStart(image, headerOffset) + 32 * (i + 1)])
  {
    if headerOffset + 32 <= |image| {
      SliceOfSlice(image, headerOffset, |image|, 8, 12);
      SliceOfSlice(image, headerOffset, |image|, 28, 32);
    }
  }

  /** The four fields are the same in the copy as they were when they were checked. */
  predicate Unchanged(slot: Slot)
    requires Readable(slot) && slot.atCheck.Some? && slot.atCopy.Some? && slot.capacity >= 64
  {
    && U32At(slot.atCopy.value, 0x20) == U32At(slot.atCheck.value, 0x20)
    && U32At(slot.atCopy.value, 0x24) == U32At(slot.atCheck.value, 0x24)
    && U32At(slot.atCopy.value, 0x28) == U32At(slot.atCheck.value, 0x28)
    && U32At(slot.atCopy.value, 0x34) == U32At(slot.atCheck.value, 0x34)
  }

  /** The image was copied, is large enough for a vector table, and did not change in between. */
  predicate Copied(config: Config, slot: Slot)
    requires Readable(slot)
  {
    Loadable(config, slot) && slot.atCopy.Some? && U32At(slot.atCheck.value, 0x20) >= 64 && Unchanged(slot)
  }

  /** What the answer says about the slot. */
  ghost predicate AnswerFor(config: Config, slot: Slot, authentic: bool, boot: Boot)
    requires Readable(slot)
  {
    && (boot == Failed(IO) <==>
          slot.capacity < config.slotSizeEnd && (!HasTable(config, slot) || (Loadable(config, slot) && slot.atCopy.None?)))
    && (boot == Failed(Markers) <==> HasTable(config, slot) && !Announced(config, slot))
    && (boot == Failed(TooSmall) <==>
          && Announced(config, slot)
          && var length := U32At(slot.atCheck.value, 0x20);
             && length <= slot.capacity
             && (length < config.slotSizeMin || (Loadable(config, slot) && slot.atCopy.Some? && length < 64)))
    && (boot == Failed(MemoryRegion) <==>
          && Announced(config, slot) && !Loadable(config, slot)
          && var length, target := U32At(slot.atCheck.value, 0x20), U32At(slot.atCheck.value, 0x34);
             config.slotSizeMin <= length <= slot.capacity && target + length < 0x1_0000_0000)
    && (boot == Failed(TooLarge) <==>
          || slot.capacity >= config.slotSizeEnd
          || (Announced(config, slot)
              && var length, target := U32At(slot.atCheck.value, 0x20), U32At(slot.atCheck.value, 0x34);
                 length > slot.capacity || (length >= config.slotSizeMin && target + length >= 0x1_0000_0000))
          || (Copied(config, slot) && CutOff(Copy(slot), U32At(slot.atCheck.value, 0x28))))
    && (boot == Failed(ChangeAfterRead) <==>
          Loadable(config, slot) && slot.atCopy.Some? && U32At(slot.atCheck.value, 0x20) >= 64 && !Unchanged(slot))
    && (boot == Panicked <==> Copied(config, slot) && OutsideImage(Copy(slot), U32At(slot.atCheck.value, 0x28)))
    && (boot == Failed(Authenticate) <==>
          && Copied(config, slot) && !authentic
          && var offset := U32At(slot.atCheck.value, 0x28);
             !OutsideImage(Copy(slot), offset) && !CutOff(Copy(slot), offset))
    && (boot.Booted? <==>
          && Copied(config, slot) && authentic
          && var offset := U32At(slot.atCheck.value, 0x28);
             !OutsideImage(Copy(slot), offset) && !CutOff(Copy(slot), offset))
    && (boot.Booted? ==> boot.target == U32At(slot.atCheck.value, 0x34))
  }

  /** Every answer to an attempt, with the exact condition on slot and configuration under which it is given. */
  lemma {:induction false} EveryAnswer(config: Config, slots: seq<Slot>, index: nat, authentic: bool, ram: seq<Byte>)
    requires forall i :: 0 <= i < |slots| ==> Readable(slots[i])
    requires config.loadEnd <= |ram|
    ensures var boot := CheckAndBoot(config, slots, index, authentic, ram).0;
            && (boot == Failed(SlotUnknown) <==> index >= |slots|)
            && (index < |slots| ==> AnswerFor(config, slots[index], authentic, boot))
  {
    hide FromLe, LocateHashes, OutsideImage, CutOff;
    if index < |slots| {
      var slot := slots[index];
      if CheckSlot(config, slot).Ok? && slot.atCopy.Some? {
        var ivt := CheckSlot(config, slot).value;
        LocatesExactly(Copy(slot), ivt.headerOffset);
        if ivt.imageLen >= 64 {
          TableOfCopy(slot.atCopy.value, ivt.imageLen);
        }
      }
    }
  }

  lemma {:induction false} TableOfCopy(data: seq<Byte>, length: nat)
    requires 64 <= length <= |data|
    ensures ReadIvt(data[..length]) == ReadIvt(data)
  {
    var copy := data[..length];
    assert copy[0x20..0x24] == data[0x20..0x24] && copy[0x24..0x28] == data[0x24..0x28];
    assert copy[0x28..0x2c] == data[0x28..0x2c] && copy[0x34..0x38] == data[0x34..0x38];
  }
}
