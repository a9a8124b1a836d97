/**
 The certificate block of a signed image (bootloader-tool/src/processors/mbi/cert_block.rs): a header,
 a table of certificates with their lengths, and four root key hashes.
 */
module CertBlocks {
  import opened Wrappers
  import opened Bytes
  import opened LittleEndian

  const HASH_BYTES := 32
  const HASHES_BYTES := 4 * HASH_BYTES

  function HeaderLen(d: seq<Byte>): U32
    requires |d| >= 0x20
  {
    U32At(d, 0x08)
  }

  function CertCount(d: seq<Byte>): U32
    requires |d| >= 0x20
  {
    U32At(d, 0x18)
  }

  function TableLen(d: seq<Byte>): U32
    requires |d| >= 0x20
  {
    U32At(d, 0x1c)
  }

  /** Header, table and hashes, and nothing else. */
  predicate IsBlock(d: seq<Byte>)
  {
    |d| >= 0x20 && |d| == HeaderLen(d) + TableLen(d) + HASHES_BYTES && |d| < 0x1_0000_0000
  }

  function TableBytes(d: seq<Byte>): seq<Byte>
    requires IsBlock(d)
  {
    d[HeaderLen(d)..HeaderLen(d) + TableLen(d)]
  }

  function RootKeyHashes(d: seq<Byte>): (hashes: seq<seq<Byte>>)
    requires IsBlock(d)
    ensures |hashes| == 4
  {
    var start := HeaderLen(d) + TableLen(d);
    seq(4, i requires 0 <= i < 4 => d[start + HASH_BYTES * i..start + HASH_BYTES * (i + 1)])
  }

  /** The lengths of certificates are refused unless they are multiples of four; reading past the end panics. */
  datatype CertError = NotMultipleOfFour | Panicked

  /** Reads a number of table entries from a position on and returns them with the position behind them. */
  function Walk(d: seq<Byte>, next: nat, count: nat): Result<(seq<seq<Byte>>, nat), CertError>
    decreases count
  {
    if count == 0 then Ok(([], next))
    else if next + 4 > |d| then Err(Panicked)
    else
      var length := U32At(d, next);
      if length % 4 != 0 then Err(NotMultipleOfFour)
      else if next + 4 + length > |d| then Err(Panicked)
      else
        var rest := Walk(d, next + 4 + length, count - 1);
        if rest.Err? then rest
        else Ok(([d[next + 4..next + 4 + length]] + rest.value.0, rest.value.1))
  }

  function Certificates(d: seq<Byte>): Result<seq<seq<Byte>>, CertError>
    requires IsBlock(d)
  {
    var walked := Walk(d, HeaderLen(d), CertCount(d));
    if walked.Err? then Err(walked.error)
    else if walked.value.1 != HeaderLen(d) + TableLen(d) then Err(Panicked)
    else Ok(walked.value.0)
  }

  predicate IsCert(cert: seq<Byte>)
  {
    |cert| < 0x1_0000_0000 && |cert| % 4 == 0
  }

  predicate AreCerts(certs: seq<seq<Byte>>)
  {
    forall i :: 0 <= i < |certs| ==> IsCert(certs[i])
  }

  /** The table that holds some certificates: each one behind its length. */
  function Table(certs: seq<seq<Byte>>): seq<Byte>
    requires AreCerts(certs)
  {
    if certs == [] then [] else ToLe(|certs[0]|) + certs[0] + Table(certs[1..])
  }

  lemma {:induction false} WalkReadsTable(d: seq<Byte>, next: nat, count: nat)
    requires next <= |d|
    ensures var walked := Walk(d, next, count);
            walked.Ok? ==>
              var (certs, end) := walked.value;
              && |certs| == count
              && AreCerts(certs)
              && next <= end <= |d|
              && d[next..end] == Table(certs)
    decreases count
  {
    hide FromLe, ToLe;
    if count > 0 && next + 4 <= |d| && U32At(d, next) % 4 == 0 && next + 4 + U32At(d, next) <= |d| {
      var start, length := next + 4, U32At(d, next);
      WritesBack(d[next..start]);
      WalkReadsTable(d, start + length, count - 1);
      var rest := Walk(d, start + length, count - 1);
      if rest.Ok? {
        var (certs, end) := rest.value;
        var all := [d[start..start + length]] + certs;
        assert all[1..] == certs;
        assert d[next..end] == d[next..start] + d[start..start + length] + d[start + length..end];
      }
    }
  }

  /** The first certificate of a table, and the table behind it. */
  lemma {:induction false} FirstEntry(d: seq<Byte>, next: nat, end: nat, certs: seq<seq<Byte>>)
    requires AreCerts(certs) && certs != []
    requires next <= end <= |d| && d[next..end] == Table(certs)
    ensures var start := next + 4;
            var body := start + |certs[0]|;
            && body <= end
            && U32At(d, next) == |certs[0]|
            && d[start..body] == certs[0]
            && d[body..end] == Table(certs[1..])
  {
    hide FromLe, ToLe;
    var cert, rest, table := certs[0], certs[1..], d[next..end];
    assert table == ToLe(|cert|) + cert + Table(rest);
    ReadsBack(|cert|);
    SliceOfSlice(d, next, end, 0, 4);
    SliceOfSlice(d, next, end, 4, 4 + |cert|);
    SliceOfSlice(d, next, end, 4 + |cert|, |table|);
    assert table[0..4] == ToLe(|cert|);
    assert table[4..4 + |cert|] == cert;
    assert table[4 + |cert|..|table|] == Table(rest);
  }

  lemma {:induction false} WalkFindsTable(d: seq<Byte>, next: nat, end: nat, certs: seq<seq<Byte>>)
    requires AreCerts(certs)
    requires next <= end <= |d| && d[next..end] == Table(certs)
    ensures Walk(d, next, |certs|) == Ok((certs, end))
    decreases |certs|
  {
    hide FromLe, ToLe;
    if certs != [] {
      var cert, rest := certs[0], certs[1..];
      FirstEntry(d, next, end, certs);
      WalkFindsTable(d, next + 4 + |cert|, end, rest);
      assert certs == [cert] + rest;
    }
  }

  /**
   Reading the certificates is the inverse of laying them out: the loop succeeds with some certificates
   exactly when there are as many as the header says and, each behind its length, they are the table.
   */
  lemma {:induction false} CertificatesPartitionTable(d: seq<Byte>, certs: seq<seq<Byte>>)
    requires IsBlock(d)
    ensures Certificates(d) == Ok(certs) <==>
            |certs| == CertCount(d) && AreCerts(certs) && TableBytes(d) == Table(certs)
  {
    var from, end := HeaderLen(d), HeaderLen(d) + TableLen(d);
    WalkReadsTable(d, from, CertCount(d));
    if |certs| == CertCount(d) && AreCerts(certs) && TableBytes(d) == Table(certs) {
      WalkFindsTable(d, from, end, certs);
    }
  }

  /** After some certificates comes a length that is not a multiple of four. */
  predicate BadLengthAfter(d: seq<Byte>, next: nat, certs: seq<seq<Byte>>, end: nat)
  {
    && AreCerts(certs)
    && next <= end && end + 4 <= |d|
    && d[next..end] == Table(certs)
    && U32At(d, end) % 4 != 0
  }

  lemma {:induction false} BadLengthFound(d: seq<Byte>, next: nat, count: nat) returns (certs: seq<seq<Byte>>, end: nat)
    requires Walk(d, next, count) == Err(NotMultipleOfFour)
    ensures |certs| < count && BadLengthAfter(d, next, certs, end)
    decreases count
  {
    hide FromLe, ToLe;
    var start, length := next + 4, U32At(d, next);
    if length % 4 != 0 {
      certs, end := [], next;
      assert d[next..end] == [] == Table([]);
    } else {
      var rest;
      rest, end := BadLengthFound(d, start + length, count - 1);
      var cert := d[start..start + length];
      certs := [cert] + rest;
      WritesBack(d[next..start]);
      assert certs[1..] == rest;
      assert d[next..end] == d[next..start] + cert + d[start + length..end];
    }
  }

  lemma {:induction false} BadLengthRefused(d: seq<Byte>, next: nat, count: nat, certs: seq<seq<Byte>>, end: nat)
    requires |certs| < count && BadLengthAfter(d, next, certs, end)
    ensures Walk(d, next, count) == Err(NotMultipleOfFour)
    decreases count
  {
    hide FromLe, ToLe;
    if certs != [] {
      FirstEntry(d, next, end, certs);
      BadLengthRefused(d, next + 4 + |certs[0]|, count - 1, certs[1..], end);
    } else {
      assert |d[next..end]| == 0;
    }
  }

  /**
   The loop refuses a length exactly when the block goes on, behind a table of fewer certificates than the header
   says, with a length that is not a multiple of four. Everything else that it does not read makes it panic.
   */
  lemma {:induction false} RefusesLengthExactly(d: seq<Byte>)
    requires IsBlock(d)
    ensures Certificates(d) == Err(NotMultipleOfFour) <==>
            exists certs, end :: |certs| < CertCount(d) && BadLengthAfter(d, HeaderLen(d), certs, end)
  {
    hide Walk, BadLengthAfter, FromLe;
    if Certificates(d) == Err(NotMultipleOfFour) {
      var certs, end := BadLengthFound(d, HeaderLen(d), CertCount(d));
    }
    if certs, end: nat :| |certs| < CertCount(d) && BadLengthAfter(d, HeaderLen(d), certs, end) {
      BadLengthRefused(d, HeaderLen(d), CertCount(d), certs, end);
    }
  }

  /** What setting the total image length writes. */
  function WithTotalLength(d: seq<Byte>, length: U32): (d': seq<Byte>)
    requires |d| >= 0x20
    ensures |d'| == |d|
  {
    PatchU32(d, 0x14, length)
  }

  lemma {:induction false} TotalLengthKeepsHeader(d: seq<Byte>, length: U32)
    requires |d| >= 0x20
    ensures var d' := WithTotalLength(d, length);
            && U32At(d', 0x14) == length
            && HeaderLen(d') == HeaderLen(d) && TableLen(d') == TableLen(d) && CertCount(d') == CertCount(d)
            && (IsBlock(d) ==> IsBlock(d'))
  {
    var d' := WithTotalLength(d, length);
    PatchedField(d, 0x14, length);
    assert d'[0x08..0x0c] == d[0x08..0x0c];
    assert d'[0x18..0x1c] == d[0x18..0x1c];
    assert d'[0x1c..0x20] == d[0x1c..0x20];
  }

  /**
   Setting the total length leaves the table and the hashes as they are, for every length, exactly
   when the header length covers the field. The tool only warns when it is not 0x20.
   */
  lemma {:induction false} TotalLengthKeepsTablesExactly(d: seq<Byte>)
    requires IsBlock(d)
    ensures HeaderLen(d) >= 0x18 <==>
            forall length: U32 :: var d' := WithTotalLength(d, length);
              IsBlock(d') && TableBytes(d') == TableBytes(d) && RootKeyHashes(d') == RootKeyHashes(d)
  {
    if HeaderLen(d) >= 0x18 {
      forall length: U32
        ensures var d' := WithTotalLength(d, length);
                IsBlock(d') && TableBytes(d') == TableBytes(d) && RootKeyHashes(d') == RootKeyHashes(d)
      {
        TotalLengthKeepsTables(d, length);
      }
    } else {
      var length := TotalLengthDamages(d);
    }
  }

  lemma {:induction false} TotalLengthKeepsTables(d: seq<Byte>, length: U32)
    requires IsBlock(d) && HeaderLen(d) >= 0x18
    ensures var d' := WithTotalLength(d, length);
            IsBlock(d') && TableBytes(d') == TableBytes(d) && RootKeyHashes(d') == RootKeyHashes(d)
  {
    TotalLengthKeepsHeader(d, length);
    PatchedField(d, 0x14, length);
    var d' := WithTotalLength(d, length);
    assert d'[0x18..] == d[0x18..];
    var start := HeaderLen(d) + TableLen(d);
    assert TableBytes(d') == TableBytes(d);
    assert forall i :: 0 <= i < 4 ==> RootKeyHashes(d')[i] == RootKeyHashes(d)[i];
  }

  function Next(b: Byte): Byte
  {
    if b == 0xFF then 0 else b + 1
  }

  lemma {:induction false} TableByte(d: seq<Byte>, k: nat)
    requires IsBlock(d) && k < TableLen(d)
    ensures |TableBytes(d)| == TableLen(d) && TableBytes(d)[k] == d[HeaderLen(d) + k]
  {
  }

  lemma {:induction false} FirstHashByte(d: seq<Byte>, k: nat)
    requires IsBlock(d) && k < HASH_BYTES
    ensures |RootKeyHashes(d)[0]| == HASH_BYTES && RootKeyHashes(d)[0][k] == d[HeaderLen(d) + TableLen(d) + k]
  {
  }

  /** Below 0x18 a length that differs in all four bytes from what is there shows up in the table or the hashes. */
  lemma {:induction false} TotalLengthDamages(d: seq<Byte>) returns (length: U32)
    requires IsBlock(d) && HeaderLen(d) < 0x18
    ensures var d' := WithTotalLength(d, length);
            IsBlock(d') && !(TableBytes(d') == TableBytes(d) && RootKeyHashes(d') == RootKeyHashes(d))
  {
    var other := seq<Byte>(4, i requires 0 <= i < 4 => Next(d[0x14 + i]));
    length := FromLe(other);
    WritesBack(other);
    TotalLengthKeepsHeader(d, length);
    var d' := WithTotalLength(d, length);
    var from, end := HeaderLen(d), HeaderLen(d) + TableLen(d);
    assert forall i :: 0x14 <= i < 0x18 ==> d'[i] == other[i - 0x14] != d[i];
    hide U32At, FromLe, ToLe, TableBytes, RootKeyHashes, WithTotalLength;
    if end > 0x14 && TableLen(d) > 0 {
      var i := if from >= 0x14 then from else 0x14;
      TableByte(d, i - from);
      TableByte(d', i - from);
    } else {
      var i := if end >= 0x14 then end else 0x14;
      FirstHashByte(d, i - end);
      FirstHashByte(d', i - end);
    }
  }

  // ---------- The program ----------

  class CertBlock {
    var data: seq<Byte>

    constructor (data: seq<Byte>)
      ensures this.data == data
    {
      this.data := data;
    }

    predicate Valid()
      reads this
    {
      IsBlock(data)
    }

    /** The part of CertBlock::from_file that strips padding; None where it panics. */
    static method FromFile(file: seq<Byte>) returns (r: Option<CertBlock>)
      ensures r.Some? <==>
              |file| >= 0x20 && HeaderLen(file) + TableLen(file) + HASHES_BYTES <= |file| &&
              HeaderLen(file) + TableLen(file) + HASHES_BYTES < 0x1_0000_0000
      ensures r.Some? ==> fresh(r.value) && r.value.Valid() && r.value.data <= file
    {
      if |file| < 0x20 {
        return None;
      }
      var length := U32At(file, 0x08) + U32At(file, 0x1c) + HASHES_BYTES;
      if length >= 0x1_0000_0000 || |file| < length {
        return None;
      }
      assert file[..length][0x08..0x0c] == file[0x08..0x0c] && file[..length][0x1c..0x20] == file[0x1c..0x20];
      var block := new CertBlock(file[..length]);
      return Some(block);
    }

    /** None where the length does not fit in 32 bits and the program panics. */
    method SetTotalImageLength(length: nat) returns (fits: bool)
      requires Valid()
      modifies this
      ensures Valid() && fits == (length < 0x1_0000_0000)
      ensures data == if fits then WithTotalLength(old(data), length) else old(data)
    {
      if length >= 0x1_0000_0000 {
        return false;
      }
      TotalLengthKeepsHeader(data, length);
      data := data[..0x14] + ToLe(length) + data[0x18..];
      return true;
    }

    /** The certificates in the table, read with a cursor. */
    method ReadCertificates() returns (r: Result<seq<seq<Byte>>, CertError>)
      requires Valid()
      ensures r == Certificates(data)
    {
      hide FromLe;
      var out: seq<seq<Byte>> := [];
      var nextCert: nat := U32At(data, 0x08);
      var count: nat := U32At(data, 0x18);
      ghost var all := Walk(data, nextCert, count);
      assert all.Ok? ==> [] + all.value.0 == all.value.0;
      for i := 0 to count
        invariant all == Following(out, Walk(data, nextCert, count - i))
      {
        if nextCert + 4 > |data| {
          return Err(Panicked);
        }
        var certLen := U32At(data, nextCert);
        if certLen % 4 != 0 {
          return Err(NotMultipleOfFour);
        }
        nextCert := nextCert + 4;
        if nextCert + certLen > |data| {
          return Err(Panicked);
        }
        var cert := data[nextCert..nextCert + certLen];
        FollowingOne(out, cert, Walk(data, nextCert + certLen, count - i - 1));
        out := out + [cert];
        nextCert := nextCert + certLen;
      }
      assert out + [] == out;
      if nextCert != U32At(data, 0x08) + U32At(data, 0x1c) {
        return Err(Panicked);
      }
      return Ok(out);
    }
  }

  /** The certificates read so far, followed by those of a result. */
  function Following(out: seq<seq<Byte>>, rest: Result<(seq<seq<Byte>>, nat), CertError>): Result<(seq<seq<Byte>>, nat), CertError>
  {
    if rest.Ok? then Ok((out + rest.value.0, rest.value.1)) else rest
  }

  lemma {:induction false} FollowingOne(out: seq<seq<Byte>>, cert: seq<Byte>, rest: Result<(seq<seq<Byte>>, nat), CertError>)
    ensures Following(out, Following([cert], rest)) == Following(out + [cert], rest)
  {
    if rest.Ok? {
      assert out + ([cert] + rest.value.0) == out + [cert] + rest.value.0;
    }
  }
}
