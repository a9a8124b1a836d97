/**
 Building the Master Boot Image (bootloader-tool/src/processors/mbi/mod.rs): a header patched into the
 vector table, the padded program, the certificate block and the signature.
 */
module MasterBootImages {
  import opened Wrappers
  import opened Bytes
  import opened LittleEndian
  import opened CertBlocks

  const HEADER_BYTES := 0x40
  const DATA_ALIGN := 4
  const HMAC_BYTES := 32

  datatype ImageKind = Plain | PlainSigned | PlainWithCrc | EncryptedSigned | XipPlainSigned | XipPlainWithCrc {

    function Number(): nat
    {
      match this
      case Plain => 0
      case PlainSigned => 1
      case PlainWithCrc => 2
      case EncryptedSigned => 3
      case XipPlainSigned => 4
      case XipPlainWithCrc => 5
    }

    static function FromNumber(number: nat): Option<ImageKind>
    {
      match number
      case 0 => Some(Plain)
      case 1 => Some(PlainSigned)
      case 2 => Some(PlainWithCrc)
      case 3 => Some(EncryptedSigned)
      case 4 => Some(XipPlainSigned)
      case 5 => Some(XipPlainWithCrc)
      case _ => None
    }

    predicate HasHmac()
    {
      PlainSigned? || EncryptedSigned?
    }
  }

  /** The bits of the image type field. */
  datatype ImageType = ImageType(
    keyStoreIncluded: bool, trustZoneDisabled: bool, presetIncluded: bool, hwUserModeKeys: bool, kind: ImageKind)
  {
    static function New(kind: ImageKind): ImageType
    {
      ImageType(false, false, false, false, kind)
    }

    function AsU32(): (bits: U32)
      ensures bits < 0x1_0000
    {
      (if keyStoreIncluded then 0x8000 else 0) + (if trustZoneDisabled then 0x4000 else 0) +
      (if presetIncluded then 0x2000 else 0) + (if hwUserModeKeys then 0x1000 else 0) + kind.Number()
    }
  }

  /** Every flag has its bit, and the kind is in the lowest byte. */
  lemma {:induction false} ImageTypeBits(t: ImageType)
    ensures t.keyStoreIncluded <==> t.AsU32() / 0x8000 % 2 == 1
    ensures t.trustZoneDisabled <==> t.AsU32() / 0x4000 % 2 == 1
    ensures t.presetIncluded <==> t.AsU32() / 0x2000 % 2 == 1
    ensures t.hwUserModeKeys <==> t.AsU32() / 0x1000 % 2 == 1
    ensures t.AsU32() % 0x1000 ==
            match t.kind
            case Plain => 0
            case PlainSigned => 1
            case PlainWithCrc => 2
            case EncryptedSigned => 3
            case XipPlainSigned => 4
            case XipPlainWithCrc => 5
    ensures ImageType.New(t.kind).AsU32() == t.AsU32() % 0x1000
  {
  }

  /** The image kind read back from a header is the one the header was built with. */
  lemma {:induction false} KindReadsBack(header: seq<Byte>, imageType: ImageType)
    requires |header| == HEADER_BYTES && U32At(header, 0x24) == imageType.AsU32()
    ensures ImageKind.FromNumber(header[0x24]) == Some(imageType.kind)
  {
    hide ImageType.AsU32, U32At;
    FieldBytes(header, 0x24, imageType.AsU32());
    ImageTypeBits(imageType);
    LowByte(imageType.AsU32());
  }

  lemma {:induction false} LowByte(x: nat)
    requires x % 0x1000 < 0x100
    ensures x % 0x100 == x % 0x1000
  {
    var q, r := x / 0x1000, x % 0x1000;
    assert x == 0x100 * (0x10 * q) + r;
  }

  /** The vector table with the type, the offset of the certificate block and the load address filled in. */
  function FilledHeader(ivt: seq<Byte>, imageType: U32, headerOffset: U32, loadAddr: U32): (header: seq<Byte>)
    requires |ivt| == HEADER_BYTES
    ensures |header| == HEADER_BYTES
  {
    PatchU32(PatchU32(PatchU32(ivt, 0x24, imageType), 0x28, headerOffset), 0x34, loadAddr)
  }

  lemma {:induction false} FilledHeaderFields(ivt: seq<Byte>, imageType: U32, headerOffset: U32, loadAddr: U32, length: U32)
    requires |ivt| == HEADER_BYTES
    ensures var header := PatchU32(FilledHeader(ivt, imageType, headerOffset, loadAddr), 0x20, length);
            && U32At(header, 0x20) == length
            && U32At(header, 0x24) == imageType
            && U32At(header, 0x28) == headerOffset
            && U32At(header, 0x34) == loadAddr
            && HasField(header, 0x20, length) && HasField(header, 0x24, imageType)
            && HasField(header, 0x28, headerOffset) && HasField(header, 0x34, loadAddr)
            && (forall i :: 0 <= i < HEADER_BYTES && !(0x20 <= i < 0x2c) && !(0x34 <= i < 0x38) ==> header[i] == ivt[i])
  {
    hide HasField, FromLe, ToLe;
    var h1 := PatchU32(ivt, 0x24, imageType);
    var h2 := PatchU32(h1, 0x28, headerOffset);
    var h3 := PatchU32(h2, 0x34, loadAddr);
    var h4 := PatchU32(h3, 0x20, length);
    PatchedField(ivt, 0x24, imageType);
    PatchedField(h1, 0x28, headerOffset);
    PatchedField(h2, 0x34, loadAddr);
    PatchedField(h3, 0x20, length);
    assert h4[0x24..0x28] == h1[0x24..0x28];
    assert h4[0x28..0x2c] == h2[0x28..0x2c];
    assert h4[0x34..0x38] == h3[0x34..0x38];
    FieldBytes(h4, 0x20, length);
    FieldBytes(h4, 0x24, imageType);
    FieldBytes(h4, 0x28, headerOffset);
    FieldBytes(h4, 0x34, loadAddr);
  }

  /** The cast from usize to u32. */
  function Truncated(x: nat): (y: U32)
    ensures x < 0x1_0000_0000 ==> y == x
  {
    x % 0x1_0000_0000
  }

  /** How many bytes are missing to the next multiple of the alignment. */
  function Missing(length: nat): nat
  {
    (DATA_ALIGN - length % DATA_ALIGN) % DATA_ALIGN
  }

  lemma {:induction false} OneLess(length: nat)
    requires length % DATA_ALIGN != 0
    ensures Missing(length + 1) < Missing(length)
  {
  }

  function Padded(data: seq<Byte>): (padded: seq<Byte>)
    ensures |padded| % DATA_ALIGN == 0 && data <= padded && |padded| < |data| + DATA_ALIGN
    ensures forall i :: |data| <= i < |padded| ==> padded[i] == 0
    decreases Missing(|data|)
  {
    if |data| % DATA_ALIGN == 0 then data else Padded(data + [0])
  }

  /** The three parts of an image before it is signed. */
  datatype Parts = Parts(header: seq<Byte>, data: seq<Byte>, certBlock: seq<Byte>) {

    function SignMe(): seq<Byte>
    {
      header + data + certBlock
    }
  }

  /** Image::new; None where it panics: an image without a whole header, or lengths beyond 32 bits. */
  function Built(image: seq<Byte>, base: U32, imageType: ImageType, certBlock: seq<Byte>, signatureLen: nat): Option<Parts>
    requires IsBlock(certBlock)
  {
    if |image| < HEADER_BYTES then None
    else Assembled(image[..HEADER_BYTES], Padded(image[HEADER_BYTES..]), base, imageType, certBlock, signatureLen)
  }

  function Assembled(ivt: seq<Byte>, data: seq<Byte>, base: U32, imageType: ImageType, certBlock: seq<Byte>, signatureLen: nat)
    : Option<Parts>
    requires |ivt| == HEADER_BYTES && IsBlock(certBlock)
  {
    var imageLen := HEADER_BYTES + |data|;
    var signedLen := imageLen + |certBlock|;
    var total := signedLen + (if imageType.kind.HasHmac() then HMAC_BYTES else 0) + signatureLen;
    if signedLen >= 0x1_0000_0000 || total >= 0x1_0000_0000 then None
    else
      var header := FilledHeader(ivt, imageType.AsU32(), imageLen, base);
      Some(Parts(PatchU32(header, 0x20, total), data, WithTotalLength(certBlock, signedLen)))
  }

  /** An image is built exactly when it has a whole header and everything fits in 32 bits. */
  lemma {:induction false} BuiltExactly(image: seq<Byte>, base: U32, imageType: ImageType, certBlock: seq<Byte>, signatureLen: nat)
    requires IsBlock(certBlock)
    ensures Built(image, base, imageType, certBlock, signatureLen).Some? <==>
            var inserted := if imageType.kind in {PlainSigned, EncryptedSigned} then 32 else 0;
            |image| >= 0x40 && (|image| + 3) / 4 * 4 + |certBlock| + inserted + signatureLen < 0x1_0000_0000
  {
    hide FilledHeader;
    if |image| >= HEADER_BYTES {
      var data := Padded(image[HEADER_BYTES..]);
      assert HEADER_BYTES + |data| == (|image| + 3) / 4 * 4;
    }
  }

  /** What a header says about the image: its whole length, its type, where its certificate block is, and where it is loaded. */
  ghost predicate Describes(header: seq<Byte>, total: nat, imageType: U32, headerOffset: nat, loadAddr: U32)
  {
    && |header| >= HEADER_BYTES
    && U32At(header, 0x20) == total
    && U32At(header, 0x24) == imageType
    && U32At(header, 0x28) == headerOffset
    && U32At(header, 0x34) == loadAddr
  }

  lemma {:induction false} AssembledFields(
    ivt: seq<Byte>, data: seq<Byte>, base: U32, imageType: ImageType, certBlock: seq<Byte>, signatureLen: nat, parts: Parts)
    requires |ivt| == HEADER_BYTES && IsBlock(certBlock)
    requires Assembled(ivt, data, base, imageType, certBlock, signatureLen) == Some(parts)
    ensures var signedLen := HEADER_BYTES + |data| + |certBlock|;
            && Describes(parts.header, signedLen + (if imageType.kind.HasHmac() then HMAC_BYTES else 0) + signatureLen,
                         imageType.AsU32(), HEADER_BYTES + |data|, base)
            && |parts.header| == HEADER_BYTES && parts.data == data
            && |parts.SignMe()| == signedLen < 0x1_0000_0000
            && parts.certBlock == WithTotalLength(certBlock, signedLen)
            && (forall i :: 0 <= i < HEADER_BYTES && !(0x20 <= i < 0x2c) && !(0x34 <= i < 0x38) ==> parts.header[i] == ivt[i])
  {
    hide FilledHeader, PatchU32, U32At;
    var total := HEADER_BYTES + |data| + |certBlock| + (if imageType.kind.HasHmac() then HMAC_BYTES else 0) + signatureLen;
    FilledHeaderFields(ivt, imageType.AsU32(), HEADER_BYTES + |data|, base, total);
  }

  datatype MergeError = SignatureLength | BadSignature | MissingOtp

  /**
   Image::merge. `verifies` tells whether the signature verifies, and `hmac` is the HMAC of the header
   under the key of the OTP, when there is an OTP.
   */
  function Merged(parts: Parts, kind: ImageKind, signatureLen: nat, signature: seq<Byte>, verifies: bool, hmac: Option<seq<Byte>>)
    : Result<seq<Byte>, MergeError>
  {
    if |signature| != signatureLen then Err(SignatureLength)
    else if !verifies then Err(BadSignature)
    else if kind.HasHmac() && hmac.None? then Err(MissingOtp)
    else Ok(parts.header + (if kind.HasHmac() then hmac.value else []) + parts.data + parts.certBlock + signature)
  }

  /** A merged image of a kind without the HMAC that is inserted behind the header. */
  function WithoutHmac(merged: seq<Byte>, kind: ImageKind, hmac: Option<seq<Byte>>): seq<Byte>
    requires kind in {PlainSigned, EncryptedSigned} ==> hmac.Some? && |merged| >= 0x40 + |hmac.value|
  {
    if kind in {PlainSigned, EncryptedSigned} then merged[..0x40] + merged[0x40 + |hmac.value|..] else merged
  }

  /** A merged image carries what was signed, the HMAC in its place, and the signature. */
  ghost predicate Ships(merged: seq<Byte>, signed: seq<Byte>, signature: seq<Byte>, kind: ImageKind, hmac: Option<seq<Byte>>)
  {
    && (kind in {PlainSigned, EncryptedSigned} ==>
          hmac.Some? && |merged| >= 0x40 + |hmac.value| && merged[0x40..0x40 + |hmac.value|] == hmac.value)
    && WithoutHmac(merged, kind, hmac) == signed + signature
  }

  /**
   What is signed is what is shipped: a merged image is what was signed and then the signature, but for an HMAC right
   behind the header in the two kinds that have one. It is refused for a signature of another length, for one that does
   not verify, and for a missing OTP, in this order.
   */
  lemma {:induction false} SignedIsShipped(
    parts: Parts, kind: ImageKind, signatureLen: nat, signature: seq<Byte>, verifies: bool, hmac: Option<seq<Byte>>)
    requires |parts.header| == HEADER_BYTES
    ensures var r := Merged(parts, kind, signatureLen, signature, verifies, hmac);
            var needsOtp := kind in {PlainSigned, EncryptedSigned};
            && (r == Err(SignatureLength) <==> |signature| != signatureLen)
            && (r == Err(BadSignature) <==> |signature| == signatureLen && !verifies)
            && (r == Err(MissingOtp) <==> |signature| == signatureLen && verifies && needsOtp && hmac.None?)
            && (r.Ok? ==> Ships(r.value, parts.SignMe(), signature, kind, hmac))
  {
    var r := Merged(parts, kind, signatureLen, signature, verifies, hmac);
    if r.Ok? && kind.HasHmac() {
      var merged, n := r.value, HEADER_BYTES + |hmac.value|;
      assert merged == parts.header + hmac.value + (parts.data + parts.certBlock + signature);
      assert merged[..HEADER_BYTES] == parts.header;
      assert merged[HEADER_BYTES..n] == hmac.value;
      assert merged[n..] == parts.data + parts.certBlock + signature;
      assert parts.header + (parts.data + parts.certBlock + signature) == parts.SignMe() + signature;
    } else if r.Ok? {
      assert r.value == parts.SignMe() + signature;
    }
  }

  // ---------- The program ----------

  class ImageHeader {
    var ivt: seq<Byte>

    constructor (ivt: seq<Byte>, imageType: ImageType, headerOffset: U32, loadAddr: U32)
      requires |ivt| == HEADER_BYTES
      ensures this.ivt == FilledHeader(ivt, imageType.AsU32(), headerOffset, loadAddr)
    {
      var header := ivt;
      header := header[..0x24] + ToLe(imageType.AsU32()) + header[0x28..];
      header := header[..0x28] + ToLe(headerOffset) + header[0x2c..];
      header := header[..0x34] + ToLe(loadAddr) + header[0x38..];
      this.ivt := header;
    }

    /** False where the length does not fit in 32 bits and the program panics. */
    method SetImageLength(length: nat) returns (fits: bool)
      requires |ivt| == HEADER_BYTES
      modifies this
      ensures fits == (length < 0x1_0000_0000)
      ensures ivt == if fits then PatchU32(old(ivt), 0x20, length) else old(ivt)
    {
      if length >= 0x1_0000_0000 {
        return false;
      }
      ivt := ivt[..0x20] + ToLe(length) + ivt[0x24..];
      return true;
    }

    /** The kind is read back from the header it was written to. */
    function Kind(): Option<ImageKind>
      requires |ivt| == HEADER_BYTES
      reads this
    {
      ImageKind.FromNumber(ivt[0x24])
    }
  }

  class Image {
    const header: ImageHeader
    const data: seq<Byte>
    const certBlock: CertBlock

    constructor Of(header: ImageHeader, data: seq<Byte>, certBlock: CertBlock)
      ensures this.header == header && this.data == data && this.certBlock == certBlock
    {
      this.header := header;
      this.data := data;
      this.certBlock := certBlock;
    }

    function Contents(): Parts
      reads header, certBlock
    {
      Parts(header.ivt, data, certBlock.data)
    }

    /** Pads the program so that the certificate block is aligned. */
    static method Pad(program: seq<Byte>) returns (data: seq<Byte>)
      ensures data == Padded(program)
    {
      data := program;
      while |data| % DATA_ALIGN != 0
        invariant Padded(data) == Padded(program)
        decreases Missing(|data|)
      {
        OneLess(|data|);
        hide Missing;
        data := data + [0];
      }
    }

    static method New(image: seq<Byte>, base: U32, imageType: ImageType, certBlock: CertBlock, signatureLen: nat)
      returns (r: Option<Image>)
      requires certBlock.Valid()
      modifies certBlock
      ensures var built := Built(image, base, imageType, old(certBlock.data), signatureLen);
              && (r.Some? <==> built.Some?)
              && (r.Some? ==> fresh(r.value) && fresh(r.value.header) && r.value.certBlock == certBlock)
              && (r.Some? ==> r.value.Contents() == built.value)
    {
      if |image| < HEADER_BYTES {
        return None;
      }
      var data := Pad(image[HEADER_BYTES..]);
      r := Assemble(image[..HEADER_BYTES], data, base, imageType, certBlock, signatureLen);
    }

    /** Image::new after the split and the padding. */
    static method Assemble(ivt: seq<Byte>, data: seq<Byte>, base: U32, imageType: ImageType, certBlock: CertBlock, signatureLen: nat)
      returns (r: Option<Image>)
      requires |ivt| == HEADER_BYTES && certBlock.Valid()
      modifies certBlock
      ensures var built := Assembled(ivt, data, base, imageType, old(certBlock.data), signatureLen);
              && (r.Some? <==> built.Some?)
              && (r.Some? ==> fresh(r.value) && fresh(r.value.header) && r.value.certBlock == certBlock)
              && (r.Some? ==> r.value.Contents() == built.value)
    {
      hide FilledHeader, PatchU32, WithTotalLength, ImageType.AsU32, IsBlock;
      var imageLen := HEADER_BYTES + |data|;
      var header := new ImageHeader(ivt, imageType, Truncated(imageLen), base);
      ghost var filled := header.ivt;
      var signedLen := imageLen + |certBlock.data|;
      var fits := certBlock.SetTotalImageLength(signedLen);
      if !fits {
        return None;
      }
      var hmacLen := if imageType.kind.HasHmac() then HMAC_BYTES else 0;
      fits := header.SetImageLength(signedLen + hmacLen + signatureLen);
      if !fits {
        return None;
      }
      assert header.ivt == PatchU32(filled, 0x20, signedLen + hmacLen + signatureLen);
      var result := new Image.Of(header, data, certBlock);
      return Some(result);
    }

    /** What is signed: everything but the HMAC and the signature. */
    method SignMe() returns (out: seq<Byte>)
      ensures out == Contents().SignMe()
    {
      out := [];
      out := out + header.ivt;
      out := out + data;
      out := out + certBlock.data;
    }

    /** None when the signature has the right length and verifies with what is signed. */
    method Check(signatureLen: nat, signature: seq<Byte>, verify: (seq<Byte>, seq<Byte>) -> bool) returns (r: Option<MergeError>)
      ensures r == if |signature| != signatureLen then Some(SignatureLength)
                   else if !verify(Contents().SignMe(), signature) then Some(BadSignature)
                   else None
    {
      if |signature| != signatureLen {
        return Some(SignatureLength);
      }
      var signed := SignMe();
      if !verify(signed, signature) {
        return Some(BadSignature);
      }
      return None;
    }

    method Merge(signatureLen: nat, signature: seq<Byte>, verify: (seq<Byte>, seq<Byte>) -> bool, hmac: Option<seq<Byte>>)
      returns (r: Result<seq<Byte>, MergeError>)
      requires |header.ivt| == HEADER_BYTES && header.Kind().Some?
      ensures r == Merged(Contents(), header.Kind().value, signatureLen, signature, verify(Contents().SignMe(), signature), hmac)
      ensures r.Ok? ==> Ships(r.value, Contents().SignMe(), signature, header.Kind().value, hmac)
    {
      SignedIsShipped(Contents(), header.Kind().value, signatureLen, signature, verify(Contents().SignMe(), signature), hmac);
      var refused := Check(signatureLen, signature, verify);
      if refused.Some? {
        return Err(refused.value);
      }
      var out := header.ivt;
      var inserted: seq<Byte> := [];
      if header.Kind().value.HasHmac() {
        if hmac.None? {
          return Err(MissingOtp);
        }
        inserted := hmac.value;
      }
      out := out + inserted;
      out := out + data;
      out := out + certBlock.data;
      out := out + signature;
      return Ok(out);
    }
  }

  /**
   generate_pure: the image is built once to be signed and once more to be merged with the signature. What
   comes out ships exactly the bytes that were given to the signer. None where the program panics.
   */
  method GeneratePure(
    image: seq<Byte>, base: U32, imageType: ImageType, block: seq<Byte>, signatureLen: nat,
    sign: seq<Byte> -> seq<Byte>, verify: (seq<Byte>, seq<Byte>) -> bool, hmac: Option<seq<Byte>>)
    returns (signed: seq<Byte>, r: Option<Result<seq<Byte>, MergeError>>)
    requires IsBlock(block)
    ensures r.Some? <==> Built(image, base, imageType, block, signatureLen).Some?
    ensures r.Some? && r.value.Ok? ==>
      Ships(r.value.value, signed, sign(signed), imageType.kind, hmac) && verify(signed, sign(signed))
    ensures r.Some? && |sign(signed)| == signatureLen && verify(signed, sign(signed)) && hmac.Some? ==> r.value.Ok?
  {
    var certBlock := new CertBlock(block);
    var prepared := Image.New(image, base, imageType, certBlock, signatureLen);
    if prepared.None? {
      return [], None;
    }
    signed := prepared.value.SignMe();
    var signature := sign(signed);
    certBlock := new CertBlock(block);
    var loaded := Image.New(image, base, imageType, certBlock, signatureLen);
    BuiltKind(image, base, imageType, block, signatureLen);
    var merged := loaded.value.Merge(signatureLen, signature, verify, hmac);
    r := Some(merged);
  }

  lemma {:induction false} BuiltKind(image: seq<Byte>, base: U32, imageType: ImageType, certBlock: seq<Byte>, signatureLen: nat)
    requires IsBlock(certBlock) && Built(image, base, imageType, certBlock, signatureLen).Some?
    ensures var header := Built(image, base, imageType, certBlock, signatureLen).value.header;
            |header| == HEADER_BYTES && ImageKind.FromNumber(header[0x24]) == Some(imageType.kind)
  {
    var parts := Built(image, base, imageType, certBlock, signatureLen).value;
    AssembledFields(image[..HEADER_BYTES], Padded(image[HEADER_BYTES..]), base, imageType, certBlock, signatureLen, parts);
    KindReadsBack(parts.header, imageType);
  }
}
