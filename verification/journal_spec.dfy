/**
 What the flash journal computes (libs/ec-slimloader-state/src/flash.rs), on the words of a medium:
 the scan that finds the latest record and the byte steps by which a new record is stored.
 */
module JournalSpec {
  import opened Wrappers
  import opened Bytes
  import opened BootState
  import opened NorFlash

  datatype StateWithAddr = StateWithAddr(state: State, address: nat)

  datatype Cache = Cache(lastValidState: Option<StateWithAddr>, firstEmptySlot: Option<nat>) {

    function Get(): Option<State>
    {
      if lastValidState.Some? then Some(lastValidState.value.state) else None
    }
  }

  function Parse(c: Cell): ParseResult
  {
    TryNew(c.lo, c.hi)
  }

  predicate HoldsRecord(m: Medium, i: nat)
  {
    i < |m| && Parse(m[i]).Parsed?
  }

  /** The word after the latest record, from where an empty slot is looked for. */
  function SearchStart(c: Cache): nat
  {
    if c.lastValidState.Some? then c.lastValidState.value.address / 2 + 1 else 0
  }

  /**
   The declarative answer: the record at the greatest word that holds one, and the least
   empty word after it (or the least empty word of all when there is no record).
   */
  ghost predicate IsCache(m: Medium, c: Cache)
  {
    && (match c.lastValidState
        case None => true
        case Some(last) =>
          && last.address % 2 == 0
          && last.address / 2 < |m|
          && Parse(m[last.address / 2]) == Parsed(last.state))
    && (forall j: nat :: SearchStart(c) <= j ==> !HoldsRecord(m, j))
    && (match c.firstEmptySlot
        case None => forall j :: SearchStart(c) <= j < |m| ==> !Parse(m[j]).Unset?
        case Some(free) =>
          && free % 2 == 0
          && SearchStart(c) <= free / 2 < |m|
          && Parse(m[free / 2]).Unset?
          && forall j :: SearchStart(c) <= j < free / 2 ==> !Parse(m[j]).Unset?)
  }

  /** How one word changes the cache while the flash is walked through. */
  function Note(c: Cache, address: nat, word: ParseResult): Cache
  {
    match word
    case Parsed(state) => Cache(Some(StateWithAddr(state, address)), None)
    case Unset => if c.firstEmptySlot.None? then c.(firstEmptySlot := Some(address)) else c
    case Invalid => c
  }

  /** The walk over all words. */
  function Scan(m: Medium): Cache
  {
    if m == [] then Cache(None, None)
    else Note(Scan(m[..|m| - 1]), 2 * (|m| - 1), Parse(m[|m| - 1]))
  }

  /** The walk over the first words. */
  function ScanFirst(m: Medium, words: nat): Cache
    requires words <= |m|
  {
    Scan(m[..words])
  }

  /** What the walk finds. */
  lemma {:induction false} ScanIsCache(m: Medium)
    ensures IsCache(m, Scan(m))
  {
    if m != [] {
      var n := |m| - 1;
      ScanIsCache(m[..n]);
      assert forall j: nat :: j != n ==> (HoldsRecord(m, j) <==> HoldsRecord(m[..n], j));
    }
  }

  /** The declarative answer is unique, so every walk that meets it is the same. */
  lemma {:induction false} CacheIsUnique(m: Medium, c: Cache, d: Cache)
    requires IsCache(m, c) && IsCache(m, d)
    ensures c == d
  {
    if c.lastValidState.Some? {
      assert HoldsRecord(m, c.lastValidState.value.address / 2);
    }
    if d.lastValidState.Some? {
      assert HoldsRecord(m, d.lastValidState.value.address / 2);
    }
    assert SearchStart(c) == SearchStart(d);
  }

  function Get(m: Medium): Option<State>
  {
    Scan(m).Get()
  }

  lemma {:induction false} LatestRecord(m: Medium, i: nat)
    requires HoldsRecord(m, i) && forall j: nat :: i < j ==> !HoldsRecord(m, j)
    ensures Scan(m).lastValidState == Some(StateWithAddr(Parse(m[i]).state, 2 * i))
  {
    var c := Scan(m);
    ScanIsCache(m);
    if c.lastValidState.Some? {
      assert HoldsRecord(m, c.lastValidState.value.address / 2);
    }
  }

  lemma {:induction false} NoRecord(m: Medium)
    requires forall j: nat :: !HoldsRecord(m, j)
    ensures Scan(m).lastValidState == None
  {
    ScanIsCache(m);
    var c := Scan(m);
    assert c.lastValidState.Some? ==> HoldsRecord(m, c.lastValidState.value.address / 2);
  }

  function RecordBytes(s: State): seq<Byte>
  {
    [s.data, s.crc]
  }

  /** At least two pages of at least one word. */
  predicate Paged(m: Medium, pageWords: nat)
  {
    1 <= pageWords < |m|
  }

  /**
   The byte steps of FlashJournal::set when the power stays on: nothing for the state already
   stored, an append, a roll-over from a later page, a roll-over from the first page, or a wipe.
   */
  function SetSteps(m: Medium, pageWords: nat, state: State): seq<ByteStep>
    requires Paged(m, pageWords)
  {
    var c := Scan(m);
    var page := 2 * pageWords;
    if c.Get() == Some(state) then []
    else if c.firstEmptySlot.Some? then
      WriteSteps(c.firstEmptySlot.value, RecordBytes(state))
    else if c.lastValidState.Some? && c.lastValidState.value.address >= page then
      EraseSteps(0, page) + (WriteSteps(0, RecordBytes(state)) + EraseSteps(page, 2 * |m|))
    else if c.lastValidState.Some? then
      EraseSteps(page, 2 * |m|) + WriteSteps(page, RecordBytes(state))
    else
      EraseSteps(0, 2 * |m|) + WriteSteps(0, RecordBytes(state))
  }

  /** The word that holds a record. */
  function RecordCell(s: State): Cell
  {
    Cell(s.data, s.crc, false)
  }

  /** The record in one word, and nothing behind it. */
  ghost predicate RecordThenBlank(m: Medium, w: nat, s: State)
  {
    && w < |m|
    && m[w] == RecordCell(s)
    && forall i :: w < i < |m| ==> m[i] == BLANK
  }

  /**
   What a call that is not interrupted leaves on a medium, whatever was there: nothing changes, or one empty
   word, or everything but the first page, or everything.
   */
  ghost predicate Leaves(m: Medium, pageWords: nat, c: Cache, s: State, m': Medium)
    requires Paged(m, pageWords) && IsCache(m, c)
  {
    && |m'| == |m|
    && if c.Get() == Some(s) then m' == m
       else match c.firstEmptySlot
         case Some(free) => m' == m[free / 2 := RecordCell(s)]
         case None =>
           if c.lastValidState.Some? && c.lastValidState.value.address / 2 < pageWords then
             m'[..pageWords] == m[..pageWords] && RecordThenBlank(m', pageWords, s)
           else RecordThenBlank(m', 0, s)
  }

  datatype JournalError = NotEnoughPartitions | ReadbackFailed | Other(error: FlashError)

  datatype SetRun = SetRun(medium: Medium, fuel: Option<nat>, result: Result<(), JournalError>)

  /** A whole call to set: the steps as far as they go, then the readback. */
  function Set(m: Medium, pageWords: nat, fuel: Option<nat>, state: State): (run: SetRun)
    requires Paged(m, pageWords)
    ensures |run.medium| == |m|
  {
    var run := Execute(m, fuel, SetSteps(m, pageWords, state));
    SetRun(run.medium, run.fuel,
           if run.result.Err? then Err(Other(run.result.error))
           else if Get(run.medium) == Some(state) then Ok(())
           else Err(ReadbackFailed))
  }
}
