/**
 Power cuts at any byte of FlashJournal::set: what a reopened journal finds is either the state
 from before or the new one, and it changes from one to the other at one known byte.
 */
module CrashAtomicity {
  import opened Wrappers
  import opened Bytes
  import opened BootState
  import opened NorFlash
  import opened JournalSpec

  // ---------- Torn erases ----------

  /** A word of which the first n bytes have been erased. */
  function TornCell(c: Cell, n: int): Cell
  {
    if n <= 0 then c else if n == 1 then Cell(0xFF, c.hi, true) else BLANK
  }

  /** The medium after the first k bytes from word lo on have been erased. */
  function TornErase(m: Medium, lo: nat, k: nat): (m': Medium)
    ensures |m'| == |m|
  {
    seq(|m|, i requires 0 <= i < |m| => if i < lo then m[i] else TornCell(m[i], k - 2 * (i - lo)))
  }

  lemma {:induction false} TornEraseStep(m: Medium, lo: nat, k: nat)
    requires lo + k / 2 < |m|
    ensures Apply(TornErase(m, lo, k), EraseByte(2 * lo + k)) == TornErase(m, lo, k + 1)
  {
    var w := lo + k / 2;
    var before, after := TornErase(m, lo, k), TornErase(m, lo, k + 1);
    assert (2 * lo + k) / 2 == w && (2 * lo + k) % 2 == k % 2;
    assert before[w] == TornCell(m[w], k % 2) && after[w] == TornCell(m[w], k % 2 + 1);
    forall i | 0 <= i < |m| && i != w
      ensures before[i] == after[i]
    {
      assert i < w ==> i < lo || k - 2 * (i - lo) >= 2;
      assert i > w ==> k + 1 - 2 * (i - lo) <= 0;
    }
    assert after == before[w := after[w]];
  }

  lemma {:induction false} TornEraseIsPrefix(m: Medium, lo: nat, hi: nat, k: nat)
    requires lo <= hi <= |m| && k <= 2 * (hi - lo)
    ensures After(m, EraseSteps(2 * lo, 2 * hi)[..k]) == TornErase(m, lo, k)
    ensures Disciplined(m, EraseSteps(2 * lo, 2 * hi)[..k])
    decreases k
  {
    var steps := EraseSteps(2 * lo, 2 * hi);
    if k == 0 {
      assert TornErase(m, lo, 0) == m;
    } else {
      var step := EraseByte(2 * lo + k - 1);
      assert steps[..k] == steps[..k - 1] + [step];
      TornEraseIsPrefix(m, lo, hi, k - 1);
      TornEraseStep(m, lo, k - 1);
      AfterConcat(m, steps[..k - 1], [step]);
      DisciplinedConcat(m, steps[..k - 1], [step]);
    }
  }

  lemma {:induction false} TornEraseParses(m: Medium, lo: nat, k: nat)
    ensures forall i: nat :: HoldsRecord(TornErase(m, lo, k), i) ==> TornErase(m, lo, k)[i] == m[i]
    ensures forall i: nat :: HoldsRecord(TornErase(m, lo, k), i) <==> HoldsRecord(m, i) && (i < lo || k <= 2 * (i - lo))
  {
    hide TryNew;
    var t := TornErase(m, lo, k);
    forall i: nat | i < |m|
      ensures t[i] == m[i] || !Parse(t[i]).Parsed?
      ensures (i < lo || k <= 2 * (i - lo)) ==> t[i] == m[i]
      ensures !(i < lo || k <= 2 * (i - lo)) ==> !Parse(t[i]).Parsed?
    {
      FirstByteErased(m[i].hi);
      FirstByteErased(0xFF);
    }
  }

  lemma {:induction false} TornEraseSane(m: Medium, lo: nat, k: nat)
    requires Sane(m)
    ensures Sane(TornErase(m, lo, k))
  {
    var t := TornErase(m, lo, k);
    forall i | 0 <= i < |t| && t[i].ReadsErased()
      ensures t[i].once
    {
      assert t[i] == m[i] || t[i].once;
    }
  }

  // ---------- Torn records ----------

  /** A blank word after the first k bytes of a record have been programmed. */
  function TornRecord(s: State, k: nat): Cell
  {
    if k == 0 then BLANK else Cell(s.data, if k == 1 then 0xFF else s.crc, false)
  }

  /** The number of bytes after which a record can be read back. */
  function LandsAt(s: State): nat
  {
    if s.crc == 0xFF then 1 else 2
  }

  lemma {:induction false} TornRecordParses(s: State, k: nat)
    ensures Parse(TornRecord(s, k)) == if k >= LandsAt(s) then Parsed(s) else if k == 0 then Unset else Invalid
    ensures TornRecord(s, k).ReadsErased() ==> TornRecord(s, k).once
  {
    TornWords(s, 0);
  }

  lemma {:induction false} ProgramBlank(m: Medium, w: nat, s: State)
    requires w < |m| && m[w] == BLANK
    ensures var half := m[w := TornRecord(s, 1)];
            && Apply(m, ProgramByte(2 * w, s.data)) == half
            && Apply(half, ProgramByte(2 * w + 1, s.crc)) == m[w := TornRecord(s, 2)]
            && Permitted(m, ProgramByte(2 * w, s.data))
            && Permitted(half, ProgramByte(2 * w + 1, s.crc))
  {
    AndErased(s.data);
    AndErased(s.crc);
    assert (2 * w + 1) / 2 == w;
  }

  lemma {:induction false} TornRecordIsPrefix(m: Medium, w: nat, s: State, k: nat)
    requires w < |m| && m[w] == BLANK && k <= 2
    ensures After(m, WriteSteps(2 * w, RecordBytes(s))[..k]) == m[w := TornRecord(s, k)]
    ensures Disciplined(m, WriteSteps(2 * w, RecordBytes(s))[..k])
  {
    var steps := WriteSteps(2 * w, RecordBytes(s));
    var first, second := ProgramByte(2 * w, s.data), ProgramByte(2 * w + 1, s.crc);
    ProgramBlank(m, w, s);
    assert steps == [first, second];
    if k == 1 {
      assert steps[..k] == [first];
    } else if k == 2 {
      assert steps[..k] == [first] + [second];
      AfterConcat(m, [first], [second]);
      DisciplinedConcat(m, [first], [second]);
    }
  }

  // ---------- Prefixes of a concatenation ----------

  lemma {:induction false} AfterPrefix(m: Medium, s: seq<ByteStep>, t: seq<ByteStep>, k: nat)
    requires k <= |s| + |t|
    ensures After(m, (s + t)[..k]) == if k <= |s| then After(m, s[..k]) else After(After(m, s), t[..k - |s|])
  {
    if k <= |s| {
      assert (s + t)[..k] == s[..k];
    } else {
      assert (s + t)[..k] == s + t[..k - |s|];
      AfterConcat(m, s, t[..k - |s|]);
    }
  }

  // ---------- The branches of set, cut after k bytes ----------

  /** A record goes into a blank word: it is the latest one when no later word holds a record. */
  lemma {:induction false} RecordLands(m: Medium, w: nat, s: State, k: nat)
    requires Sane(m) && w < |m| && m[w] == BLANK && k <= 2
    requires forall j: nat :: w < j ==> !HoldsRecord(m, j)
    ensures var m' := m[w := TornRecord(s, k)];
            && Sane(m')
            && Get(m') == (if k >= LandsAt(s) then Some(s) else Get(m))
  {
    var m' := m[w := TornRecord(s, k)];
    TornRecordParses(s, k);
    assert forall j: nat :: j != w ==> (HoldsRecord(m', j) <==> HoldsRecord(m, j));
    assert !HoldsRecord(m, w);
    if k >= LandsAt(s) {
      LatestRecord(m', w);
    } else {
      SameLatest(m, m');
    }
  }

  /** A change that leaves every record in place, or only records before the latest one, goes unnoticed. */
  lemma {:induction false} SameLatest(m: Medium, m': Medium)
    requires var last := Scan(m).lastValidState;
             var from := if last.Some? then last.value.address / 2 else 0;
             forall j: nat :: from <= j ==>
               (HoldsRecord(m', j) <==> HoldsRecord(m, j)) && (HoldsRecord(m', j) ==> m'[j] == m[j])
    ensures Get(m') == Get(m)
    ensures Scan(m').lastValidState == Scan(m).lastValidState
  {
    var last := Scan(m).lastValidState;
    ScanIsCache(m);
    if last.Some? {
      assert HoldsRecord(m, last.value.address / 2);
      LatestRecord(m', last.value.address / 2);
    } else {
      NoRecord(m');
    }
  }

  lemma {:induction false} AppendAtomic(m: Medium, w: nat, s: State, k: nat)
    requires Sane(m) && Scan(m).firstEmptySlot == Some(2 * w) && k <= 2
    ensures var steps := WriteSteps(2 * w, RecordBytes(s));
            var m' := After(m, steps[..k]);
            && Disciplined(m, steps)
            && Sane(m')
            && Get(m') == (if k >= LandsAt(s) then Some(s) else Get(m))
  {
    var steps := WriteSteps(2 * w, RecordBytes(s));
    ScanIsCache(m);
    TornRecordIsPrefix(m, w, s, k);
    TornRecordIsPrefix(m, w, s, 2);
    assert steps[..2] == steps;
    RecordLands(m, w, s, k);
  }

  /** Words lo to hi are erased and a record goes into the first of them, cut after k bytes. */
  function TornRewrite(m: Medium, lo: nat, hi: nat, s: State, k: nat): (m': Medium)
    requires lo < hi <= |m|
    ensures |m'| == |m|
  {
    var e := 2 * (hi - lo);
    if k <= e then TornErase(m, lo, k) else TornErase(m, lo, e)[lo := TornRecord(s, k - e)]
  }

  function RewriteSteps(lo: nat, hi: nat, s: State): seq<ByteStep>
    requires lo <= hi
  {
    EraseSteps(2 * lo, 2 * hi) + WriteSteps(2 * lo, RecordBytes(s))
  }

  lemma {:induction false} TornRewriteIsPrefix(m: Medium, lo: nat, hi: nat, s: State, k: nat)
    requires lo < hi <= |m| && k <= 2 * (hi - lo) + 2
    ensures After(m, RewriteSteps(lo, hi, s)[..k]) == TornRewrite(m, lo, hi, s, k)
    ensures Disciplined(m, RewriteSteps(lo, hi, s))
  {
    var erase, write := EraseSteps(2 * lo, 2 * hi), WriteSteps(2 * lo, RecordBytes(s));
    var e := |erase|;
    assert erase[..e] == erase && write[..2] == write;
    var cleared := TornErase(m, lo, e);
    TornEraseIsPrefix(m, lo, hi, e);
    assert cleared[lo] == BLANK;
    TornRecordIsPrefix(cleared, lo, s, 2);
    DisciplinedConcat(m, erase, write);
    AfterPrefix(m, erase, write, k);
    if k <= e {
      TornEraseIsPrefix(m, lo, hi, k);
    } else {
      TornRecordIsPrefix(cleared, lo, s, k - e);
    }
  }

  /** Erasing words that hold no record changes nothing that can be read. */
  lemma {:induction false} ErasingNothing(m: Medium, lo: nat, k: nat)
    requires Sane(m)
    requires forall j: nat :: lo <= j ==> !HoldsRecord(m, j)
    ensures Sane(TornErase(m, lo, k)) && Get(TornErase(m, lo, k)) == Get(m)
    ensures forall j: nat :: lo <= j ==> !HoldsRecord(TornErase(m, lo, k), j)
  {
    TornEraseParses(m, lo, k);
    TornEraseSane(m, lo, k);
    SameLatest(m, TornErase(m, lo, k));
  }

  /** Rewriting from a word on, after the latest record: the new record replaces it when it lands. */
  lemma {:induction false} RewriteBehind(m: Medium, lo: nat, s: State, k: nat)
    requires Sane(m) && lo < |m| && k <= 2 * (|m| - lo) + 2
    requires forall j: nat :: lo <= j ==> !HoldsRecord(m, j)
    ensures var m' := TornRewrite(m, lo, |m|, s, k);
            && Sane(m')
            && Get(m') == (if k >= 2 * (|m| - lo) + LandsAt(s) then Some(s) else Get(m))
  {
    var e := 2 * (|m| - lo);
    if k <= e {
      ErasingNothing(m, lo, k);
    } else {
      ErasingNothing(m, lo, e);
      RecordLands(TornErase(m, lo, e), lo, s, k - e);
    }
  }

  /** Rewriting the first page while the latest record is behind it: the latest record stays. */
  lemma {:induction false} RewriteFront(m: Medium, hi: nat, s: State, k: nat)
    requires Sane(m) && 0 < hi <= |m| && k <= 2 * hi + 2
    requires Scan(m).lastValidState.Some? && Scan(m).lastValidState.value.address >= 2 * hi
    ensures var m' := TornRewrite(m, 0, hi, s, k);
            Sane(m') && Scan(m').lastValidState == Scan(m).lastValidState && Get(m') == Get(m)
  {
    hide TryNew, Scan;
    var n := if k <= 2 * hi then k else 2 * hi;
    var erased := TornErase(m, 0, n);
    TornEraseParses(m, 0, n);
    TornEraseSane(m, 0, n);
    if k > 2 * hi {
      TornRecordParses(s, k - 2 * hi);
    }
    SameLatest(m, TornRewrite(m, 0, hi, s, k));
  }

  /** Erasing behind the first page: its first word takes over once the latest record is hit. */
  lemma {:induction false} EraseTail(m: Medium, pageWords: nat, s: State, k: nat)
    requires Sane(m) && Paged(m, pageWords)
    requires Scan(m).lastValidState.Some? && Scan(m).lastValidState.value.address >= 2 * pageWords
    requires Parse(m[0]) == Parsed(s)
    requires forall j: nat :: 0 < j < pageWords ==> !HoldsRecord(m, j)
    ensures var m' := TornErase(m, pageWords, k);
            && Sane(m')
            && Get(m') == (if k > Scan(m).lastValidState.value.address - 2 * pageWords then Some(s) else Get(m))
  {
    var m' := TornErase(m, pageWords, k);
    TornEraseParses(m, pageWords, k);
    TornEraseSane(m, pageWords, k);
    ScanIsCache(m);
    if k > Scan(m).lastValidState.value.address - 2 * pageWords {
      LatestRecord(m', 0);
    } else {
      SameLatest(m, m');
    }
  }

  /** Rolling over from a later page: the first page is rewritten, then the others are erased. */
  function RollOverSteps(length: nat, pageWords: nat, s: State): seq<ByteStep>
    requires pageWords <= length
  {
    RewriteSteps(0, pageWords, s) + EraseSteps(2 * pageWords, 2 * length)
  }

  /** Where the roll-over stands after k bytes. */
  function TornRollOver(m: Medium, pageWords: nat, s: State, k: nat): Medium
    requires Paged(m, pageWords)
  {
    var front := 2 * pageWords + 2;
    if k <= front then TornRewrite(m, 0, pageWords, s, k)
    else TornErase(TornRewrite(m, 0, pageWords, s, front), pageWords, k - front)
  }

  lemma {:induction false} TornRollOverIsPrefix(m: Medium, pageWords: nat, s: State, k: nat)
    requires Paged(m, pageWords) && k <= 2 * |m| + 2
    ensures After(m, RollOverSteps(|m|, pageWords, s)[..k]) == TornRollOver(m, pageWords, s, k)
    ensures Disciplined(m, RollOverSteps(|m|, pageWords, s))
  {
    var front, tail := RewriteSteps(0, pageWords, s), EraseSteps(2 * pageWords, 2 * |m|);
    var f := |front|;
    assert front[..f] == front && tail[..|tail|] == tail;
    var middle := TornRewrite(m, 0, pageWords, s, f);
    TornRewriteIsPrefix(m, 0, pageWords, s, f);
    TornEraseIsPrefix(middle, pageWords, |m|, |tail|);
    DisciplinedConcat(m, front, tail);
    AfterPrefix(m, front, tail, k);
    if k <= f {
      TornRewriteIsPrefix(m, 0, pageWords, s, k);
    } else {
      TornEraseIsPrefix(middle, pageWords, |m|, k - f);
    }
  }

  /** The first page, once rewritten, holds the new record and nothing else. */
  lemma {:induction false} FrontWritten(m: Medium, pageWords: nat, s: State)
    requires Paged(m, pageWords)
    ensures var m' := TornRewrite(m, 0, pageWords, s, 2 * pageWords + 2);
            && Parse(m'[0]) == Parsed(s)
            && forall j: nat :: 0 < j < pageWords ==> !HoldsRecord(m', j)
  {
    TornRecordParses(s, 2);
    var m' := TornRewrite(m, 0, pageWords, s, 2 * pageWords + 2);
    assert forall j: nat :: 0 < j < pageWords ==> m'[j] == BLANK;
  }

  lemma {:induction false} RollOverTail(m: Medium, pageWords: nat, s: State, k: nat)
    requires Sane(m) && Paged(m, pageWords)
    requires Scan(m).lastValidState.Some? && Scan(m).lastValidState.value.address >= 2 * pageWords
    ensures var m' := TornErase(TornRewrite(m, 0, pageWords, s, 2 * pageWords + 2), pageWords, k);
            && Sane(m')
            && Get(m') == (if k > Scan(m).lastValidState.value.address - 2 * pageWords then Some(s) else Get(m))
  {
    RewriteFront(m, pageWords, s, 2 * pageWords + 2);
    FrontWritten(m, pageWords, s);
    EraseTail(TornRewrite(m, 0, pageWords, s, 2 * pageWords + 2), pageWords, s, k);
  }

  lemma {:induction false} RollOverAtomic(m: Medium, pageWords: nat, s: State, k: nat)
    requires Sane(m) && Paged(m, pageWords) && k <= 2 * |m| + 2
    requires Scan(m).lastValidState.Some? && Scan(m).lastValidState.value.address >= 2 * pageWords
    ensures var m' := After(m, RollOverSteps(|m|, pageWords, s)[..k]);
            && Sane(m')
            && Get(m') == (if k < Scan(m).lastValidState.value.address + 3 then Get(m) else Some(s))
  {
    TornRollOverIsPrefix(m, pageWords, s, k);
    if k <= 2 * pageWords + 2 {
      RewriteFront(m, pageWords, s, k);
    } else {
      RollOverTail(m, pageWords, s, k - (2 * pageWords + 2));
    }
  }

  // ---------- Main results ----------

  /**
   The number of bytes after which a call to set is decided: appending or writing behind the
   latest record decides it when the record can be read back, rolling over from a later page
   when the first byte of the latest record is erased.
   */
  function CommitPoint(m: Medium, pageWords: nat, s: State): nat
    requires Paged(m, pageWords)
  {
    var c := Scan(m);
    if c.Get() == Some(s) then 0
    else if c.firstEmptySlot.Some? then LandsAt(s)
    else if c.lastValidState.None? then 2 * |m| + LandsAt(s)
    else if c.lastValidState.value.address < 2 * pageWords then 2 * (|m| - pageWords) + LandsAt(s)
    else c.lastValidState.value.address + 3
  }

  /**
   For any contents, any state and a power cut after any number of bytes of set: what is read
   afterwards is the state from before up to the commit point and the new one from there on.
   */
  lemma {:induction false} CrashAtomic(m: Medium, pageWords: nat, s: State, k: nat)
    requires Sane(m) && Paged(m, pageWords) && k <= |SetSteps(m, pageWords, s)|
    ensures var m' := After(m, SetSteps(m, pageWords, s)[..k]);
            && Sane(m')
            && Get(m') == if k < CommitPoint(m, pageWords, s) then Get(m) else Some(s)
    ensures CommitPoint(m, pageWords, s) <= |SetSteps(m, pageWords, s)|
    ensures CommitPoint(m, pageWords, s) == 0 <==> Get(m) == Some(s)
  {
    SetIsDisciplined(m, pageWords, s);
    var c := Scan(m);
    ScanIsCache(m);
    if c.Get() == Some(s) {
    } else if c.firstEmptySlot.Some? {
      AppendAtomic(m, c.firstEmptySlot.value / 2, s, k);
    } else if c.lastValidState.None? {
      assert SetSteps(m, pageWords, s) == RewriteSteps(0, |m|, s);
      TornRewriteIsPrefix(m, 0, |m|, s, k);
      RewriteBehind(m, 0, s, k);
    } else if c.lastValidState.value.address < 2 * pageWords {
      assert SetSteps(m, pageWords, s) == RewriteSteps(pageWords, |m|, s);
      TornRewriteIsPrefix(m, pageWords, |m|, s, k);
      RewriteBehind(m, pageWords, s, k);
    } else {
      RollOverIsSet(m, pageWords, s);
      RollOverAtomic(m, pageWords, s, k);
    }
  }

  lemma {:induction false} RollOverIsSet(m: Medium, pageWords: nat, s: State)
    requires Paged(m, pageWords)
    ensures EraseSteps(0, 2 * pageWords) + (WriteSteps(0, RecordBytes(s)) + EraseSteps(2 * pageWords, 2 * |m|)) ==
            RollOverSteps(|m|, pageWords, s)
  {
  }

  /** No step of set programs a byte that is not erased or a word twice without an erase between. */
  lemma {:induction false} SetIsDisciplined(m: Medium, pageWords: nat, s: State)
    requires Sane(m) && Paged(m, pageWords)
    ensures Disciplined(m, SetSteps(m, pageWords, s))
  {
    var c := Scan(m);
    ScanIsCache(m);
    if c.Get() == Some(s) {
    } else if c.firstEmptySlot.Some? {
      AppendAtomic(m, c.firstEmptySlot.value / 2, s, 0);
    } else if c.lastValidState.None? {
      TornRewriteIsPrefix(m, 0, |m|, s, 0);
    } else if c.lastValidState.value.address < 2 * pageWords {
      TornRewriteIsPrefix(m, pageWords, |m|, s, 0);
    } else {
      RollOverIsSet(m, pageWords, s);
      TornRollOverIsPrefix(m, pageWords, s, 0);
    }
  }
}
