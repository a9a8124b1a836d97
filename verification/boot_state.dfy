/**
 The two-byte boot record kept in the journal (libs/ec-slimloader-state/src/state.rs):
 a status, a backup slot and a target slot packed in one byte, followed by a CRC-8 of that byte.
 */
module BootState {
  import opened Bytes

  type Slot = s: int | 0 <= s < 7

  datatype Status = Initial | Attempting | Failed | Confirmed {

    function Bits(): nat
    {
      match this
      case Initial => 3
      case Attempting => 2
      case Failed => 1
      case Confirmed => 0
    }

    static function FromBits(bits: nat): Status
    {
      if bits == 3 then Initial
      else if bits == 2 then Attempting
      else if bits == 1 then Failed
      else Confirmed
    }
  }

  /** Polynomial division by 0x2F, most significant bit first. */
  function CrcRounds(crc: Byte, rounds: nat): Byte
    decreases rounds, crc
  {
    if rounds == 0 then crc
    else CrcRounds(if crc < 0x80 then 2 * crc else Xor(2 * crc - 0x100, 0x2F), rounds - 1)
  }

  /** CRC-8/OPENSAFETY of one byte: initial value 0, nothing reflected, no final xor. */
  function Checksum(data: Byte): Byte
  {
    CrcRounds(data, 8)
  }

  datatype Record = Record(data: Byte, crc: Byte) {

    function StatusBits(): nat { data / 64 }

    function BackupBits(): nat { data / 8 % 8 }

    function TargetBits(): nat { data % 8 }

    predicate IsState()
    {
      TargetBits() < 7 && BackupBits() < 7 && crc == Checksum(data)
    }
  }

  /** A record that passed the checks of State::try_new or was built by State::new. */
  type State = r: Record | r.IsState() witness Record(0, 0)

  datatype ParseResult = Parsed(state: State) | Unset | Invalid

  function TryNew(lo: Byte, hi: Byte): ParseResult
  {
    var record := Record(lo, hi);
    if lo == 0xFF && hi == 0xFF then Unset
    else if record.TargetBits() >= 7 || record.BackupBits() >= 7 then Invalid
    else if hi != Checksum(lo) then Invalid
    else Parsed(record)
  }

  function New(status: Status, target: Slot, backup: Slot): State
  {
    var data := 64 * status.Bits() + 8 * backup + target;
    Record(data, Checksum(data))
  }

  function StatusOf(s: State): Status
  {
    Status.FromBits(s.StatusBits())
  }

  function Target(s: State): Slot
  {
    s.TargetBits()
  }

  function Backup(s: State): Slot
  {
    s.BackupBits()
  }

  function WithStatus(s: State, status: Status): State
  {
    New(status, Target(s), Backup(s))
  }

  lemma {:induction false} Packed(status: nat, target: nat, backup: nat)
    requires status < 4 && target < 8 && backup < 8
    ensures var data := 64 * status + 8 * backup + target;
            data / 64 == status && data / 8 % 8 == backup && data % 8 == target
  {
    var data := 64 * status + 8 * backup + target;
    assert data / 8 == 8 * status + backup;
  }

  /** The three fields and the record determine each other, checksum included. */
  lemma {:induction false} FieldsAndRecord(s: State, status: Status, target: Slot, backup: Slot)
    ensures s == New(status, target, backup) <==>
            StatusOf(s) == status && Target(s) == target && Backup(s) == backup
  {
    hide CrcRounds;
    Packed(status.Bits(), target, backup);
    if StatusOf(s) == status && Target(s) == target && Backup(s) == backup {
      assert s.StatusBits() == status.Bits();
      assert s.data == 8 * (s.data / 8) + target && s.data / 8 == 8 * (s.data / 64) + backup;
    }
  }

  // ---------- The checksum ----------

  lemma {:induction false} StepIsLinear(a: Byte, b: Byte)
    ensures CrcRounds(Xor(a, b), 1) == Xor(CrcRounds(a, 1), CrcRounds(b, 1))
  {
    var x, y := Below(a, 0x80), Below(b, 0x80);
    var p: Byte, q: Byte := if a >= 0x80 then 0x2F else 0, if b >= 0x80 then 0x2F else 0;
    hide XorBits;
    StepIsShift(a);
    StepIsShift(b);
    StepIsShift(Xor(a, b));
    XorOfHalves(a, b);
    XorRegrouped(2 * x, 2 * y, p, q, 8);
    assert Xor(p, q) == if (a >= 0x80) != (b >= 0x80) then 0x2F else 0 by {
      XorOfPolynomial();
    }
  }

  lemma {:induction false} XorOfPolynomial()
    ensures Xor(0x2F, 0x2F) == 0 && Xor(0, 0) == 0 && Xor(0x2F, 0) == 0x2F && Xor(0, 0x2F) == 0x2F
  {
    hide Xor;
    XorFromBits(0x2F, 0x2F, 0);
    XorFromBits(0, 0, 0);
    XorFromBits(0x2F, 0, 0x2F);
    XorFromBits(0, 0x2F, 0x2F);
  }

  lemma {:induction false} StepIsShift(a: Byte)
    ensures CrcRounds(a, 1) == Xor(2 * Below(a, 0x80), if a >= 0x80 then 0x2F else 0)
  {
    assert Pow2(8) == 0x100;
    XorZero(2 * Below(a, 0x80), 8);
  }

  lemma {:induction false} XorOfHalves(a: Byte, b: Byte)
    ensures 2 * Below(Xor(a, b), 0x80) == Xor(2 * Below(a, 0x80), 2 * Below(b, 0x80))
    ensures Xor(a, b) >= 0x80 <==> (a >= 0x80) != (b >= 0x80)
  {
    assert Pow2(7) == 0x80;
    XorDoubled(Below(a, 0x80), Below(b, 0x80), 7);
  }

  lemma {:induction false} OneRound(a: Byte, rounds: nat)
    ensures CrcRounds(a, rounds + 1) == CrcRounds(CrcRounds(a, 1), rounds)
  {
  }

  lemma {:induction false} RoundsAreLinear(a: Byte, b: Byte, rounds: nat)
    ensures CrcRounds(Xor(a, b), rounds) == Xor(CrcRounds(a, rounds), CrcRounds(b, rounds))
    decreases rounds
  {
    if rounds > 0 {
      StepIsLinear(a, b);
      OneRound(a, rounds - 1);
      OneRound(b, rounds - 1);
      OneRound(Xor(a, b), rounds - 1);
      RoundsAreLinear(CrcRounds(a, 1), CrcRounds(b, 1), rounds - 1);
    }
  }

  /** The checksum is linear, so its values for single bits determine it. */
  lemma {:induction false} ChecksumIsLinear(a: Byte, b: Byte)
    ensures Checksum(Xor(a, b)) == Xor(Checksum(a), Checksum(b))
  {
    RoundsAreLinear(a, b, 8);
  }

  /** The remainders of the eight single bits. */
  lemma {:induction false} ChecksumOfBits()
    ensures Checksum(0x01) == 0x2F && Checksum(0x02) == 0x5E && Checksum(0x04) == 0xBC && Checksum(0x08) == 0x57
    ensures Checksum(0x10) == 0xAE && Checksum(0x20) == 0x73 && Checksum(0x40) == 0xE6 && Checksum(0x80) == 0xE3
  {
    hide XorBits;
    XorOfPolynomial();
    XorForSteps();
    assert CrcRounds(0xBC, 1) == 0x57;
    assert CrcRounds(0xE6, 1) == 0xE3 && CrcRounds(0x73, 2) == 0xE3;
    assert CrcRounds(0xAE, 1) == 0x73 && CrcRounds(0xAE, 2) == 0xE6 && CrcRounds(0xAE, 3) == 0xE3;
    assert forall k: nat :: CrcRounds(0x57, k + 1) == CrcRounds(0xAE, k);
    assert forall k: nat :: CrcRounds(0xBC, k + 1) == CrcRounds(0x57, k);
    assert forall k: nat :: CrcRounds(0x2F, k + 2) == CrcRounds(0xBC, k);
    assert forall k: nat :: CrcRounds(0x80, k + 1) == CrcRounds(0x2F, k);
  }

  lemma {:induction false} XorForSteps()
    ensures Xor(0x78, 0x2F) == 0x57
    ensures Xor(0x5C, 0x2F) == 0x73
    ensures Xor(0xCC, 0x2F) == 0xE3
  {
    hide Xor;
    XorFromBits(0x78, 0x2F, 0x57);
    XorFromBits(0x5C, 0x2F, 0x73);
    XorFromBits(0xCC, 0x2F, 0xE3);
  }

  lemma {:induction false} XorForData()
    ensures Xor(0x08, 0x02) == 0x0A && Xor(0x0A, 0x40) == 0x4A
    ensures Xor(0x0A, 0x80) == 0x8A && Xor(0x8A, 0x40) == 0xCA
  {
    hide Xor;
    XorFromBits(0x08, 0x02, 0x0A);
    XorFromBits(0x0A, 0x40, 0x4A);
    XorFromBits(0x0A, 0x80, 0x8A);
    XorFromBits(0x8A, 0x40, 0xCA);
  }

  lemma {:induction false} XorForVectors()
    ensures Xor(0x57, 0x5E) == 9 && Xor(9, 0xE6) == 239
    ensures Xor(9, 0xE3) == 234 && Xor(234, 0xE6) == 12
  {
    hide Xor;
    XorFromBits(0x57, 0x5E, 9);
    XorFromBits(9, 0xE6, 239);
    XorFromBits(9, 0xE3, 234);
    XorFromBits(234, 0xE6, 12);
  }

  /** The checksums that the unit tests of the program expect, for target 2 and backup 1. */
  lemma {:induction false} ChecksumVectors()
    ensures New(Initial, 2, 1).crc == 12
    ensures New(Attempting, 2, 1).crc == 234
    ensures New(Failed, 2, 1).crc == 239
    ensures New(Confirmed, 2, 1).crc == 9
  {
    hide Xor, Checksum;
    ChecksumOfBits();
    XorForData();
    XorForVectors();
    ChecksumIsLinear(0x08, 0x02);
    ChecksumIsLinear(0x0A, 0x40);
    ChecksumIsLinear(0x0A, 0x80);
    ChecksumIsLinear(0x8A, 0x40);
  }

  /**
   What a word can read as while a record goes into a blank word or while a word is erased.
   After the first byte of a record only the whole record or nothing can be read, and once
   the first byte of a word is erased no record can be read from it.
   */
  lemma {:induction false} TornWords(s: State, hi: Byte)
    ensures s.data != 0xFF
    ensures TryNew(s.data, s.crc) == Parsed(s)
    ensures TryNew(s.data, 0xFF) == (if s.crc == 0xFF then Parsed(s) else Invalid)
    ensures TryNew(0xFF, hi) == (if hi == 0xFF then Unset else Invalid)
  {
    hide Checksum;
  }

  /** No record can be read from a word whose first byte is erased. */
  lemma {:induction false} FirstByteErased(hi: Byte)
    ensures TryNew(0xFF, hi) == if hi == 0xFF then Unset else Invalid
  {
    hide Checksum;
  }
}
