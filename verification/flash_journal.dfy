/**
 The journal itself (libs/ec-slimloader-state/src/flash.rs): a flash device and the cache of what
 was found on it. Every method does exactly what module JournalSpec says about the words of the flash.
 */
module Journal {
  import opened Wrappers
  import opened Bytes
  import opened BootState
  import opened NorFlash
  import opened JournalSpec
  import opened JournalRuns
  import opened Arithmetic

  class FlashJournal {
    const flash: Flash
    var cache: Cache

    /** The device can hold a journal. */
    static ghost predicate Suitable(flash: Flash)
    {
      flash.Valid() && flash.WholePages() && flash.pages >= 2 && flash.pageWords < flash.writable.Length
    }

    /** The cache agrees with a fresh scan of the flash. */
    ghost predicate Valid()
      reads this, flash.data, flash.writable
    {
      Suitable(flash) && cache == Scan(flash.Cells())
    }

    constructor Opened(flash: Flash, cache: Cache)
      ensures this.flash == flash && this.cache == cache
    {
      this.flash := flash;
      this.cache := cache;
    }

    static function PageCount(flash: Flash): nat
      requires flash.pageWords > 0
    {
      DivCeil(flash.Capacity(), flash.PageBytes())
    }

    /** Opens the journal on a device, reading it in blocks of any even size. */
    static method New(flash: Flash, blockSize: nat) returns (r: Result<FlashJournal, JournalError>)
      requires flash.Valid() && flash.WholePages()
      requires blockSize >= 2 && blockSize % 2 == 0
      ensures r.Ok? <==> flash.pages >= 2
      ensures r.Ok? ==> fresh(r.value) && r.value.flash == flash && r.value.Valid()
      ensures r.Err? ==> r.error == NotEnoughPartitions
    {
      Geometry(flash);
      if PageCount(flash) < 2 {
        return Err(NotEnoughPartitions);
      }
      var cache := ComputeCache(flash, blockSize);
      var journal := new FlashJournal.Opened(flash, cache);
      return Ok(journal);
    }

    static lemma {:induction false} Geometry(flash: Flash)
      requires flash.Valid() && flash.WholePages()
      ensures PageCount(flash) == flash.pages
      ensures flash.Capacity() % flash.PageBytes() == 0
      ensures flash.Capacity() == flash.pages * flash.PageBytes()
      ensures flash.pages >= 2 ==> flash.PageBytes() < flash.Capacity()
    {
      MultiplesOf(flash.pages, flash.PageBytes());
      assert flash.pages * (2 * flash.pageWords) == 2 * (flash.pages * flash.pageWords);
      if flash.pages >= 2 {
        assert flash.pages * flash.PageBytes() >= 2 * flash.PageBytes();
      }
    }

    /**
     Walks through the flash block by block and, within a block, record by record.
     Whole words are read in bounds, so no read fails and no error is handed on.
     */
    static method ComputeCache(flash: Flash, blockSize: nat) returns (result: Cache)
      requires flash.Valid()
      requires blockSize >= 2 && blockSize % 2 == 0
      ensures result == Scan(flash.Cells())
    {
      var buffer := new Byte[blockSize](i => 0);
      var blockCount := DivCeil(flash.Capacity(), blockSize);
      result := Cache(None, None);
      ghost var m := flash.Cells();
      NoBlocks(m, flash.Capacity(), blockSize);
      assert flash.Capacity() == 2 * |m|;
      hide *;
      for block := 0 to blockCount
        invariant flash.Cells() == m
        invariant 0 <= Covered(flash.Capacity(), blockSize, block) <= |m|
        invariant result == ScanFirst(m, Covered(flash.Capacity(), blockSize, block))
      {
        NextBlock(flash.Capacity(), blockSize, block);
        result := ReadBlock(flash, buffer, BlockStart(block, blockSize), result);
      }
      BlocksCover(flash.Capacity(), blockSize, blockCount);
      AllBlocks(m, flash.Capacity(), blockSize, blockCount);
    }

    static lemma {:induction false} NoBlocks(m: Medium, capacity: nat, blockSize: nat)
      ensures Covered(capacity, blockSize, 0) == 0 && ScanFirst(m, 0) == Cache(None, None)
    {
      assert m[..0] == [];
    }

    /** The next block begins where the words that were read end. */
    static lemma {:induction false} NextBlock(capacity: nat, blockSize: nat, block: nat)
      requires capacity % 2 == 0 && blockSize % 2 == 0 && blockSize > 0 && block < DivCeil(capacity, blockSize)
      ensures var start := BlockStart(block, blockSize);
              && start % 2 == 0 && start < capacity
              && Covered(capacity, blockSize, block) == start / 2
              && Covered(capacity, blockSize, block + 1) == Min(start + blockSize, capacity) / 2
    {
      BlockIsEven(blockSize, block);
      BlocksCover(capacity, blockSize, block);
    }

    static lemma {:induction false} AllBlocks(m: Medium, capacity: nat, blockSize: nat, blocks: nat)
      requires capacity == 2 * |m| && BlockStart(blocks, blockSize) >= capacity
      ensures Covered(capacity, blockSize, blocks) == |m| && ScanFirst(m, |m|) == Scan(m)
    {
      assert m[..|m|] == m;
    }

    /** How many words the first blocks hold. */
    static function Covered(capacity: nat, blockSize: nat, blocks: nat): nat
    {
      Min(BlockStart(blocks, blockSize), capacity) / 2
    }

    /** Reads one block, as long as the buffer where it is not the last, and notes its records. */
    static method ReadBlock(flash: Flash, buffer: array<Byte>, blockStart: nat, before: Cache)
      returns (result: Cache)
      requires flash.Valid() && buffer != flash.data
      requires blockStart % 2 == 0 && blockStart <= flash.Capacity() && buffer.Length % 2 == 0
      requires before == ScanFirst(flash.Cells(), blockStart / 2)
      modifies buffer
      ensures result == ScanFirst(flash.Cells(), Min(blockStart + buffer.Length, flash.Capacity()) / 2)
    {
      hide ScanFirst, Assemble;
      var blockEnd := Min(blockStart + buffer.Length, flash.Capacity());
      ghost var m := flash.Cells();
      var length := blockEnd - blockStart;
      var read := flash.Read(blockStart, buffer, length);
      assert read.Ok?;
      assert flash.Cells() == m;
      BlockRead(flash, buffer, blockStart, blockEnd);
      result := NoteBlock(buffer, blockStart, blockEnd, before, m);
    }

    /** The words of a block, as they are in the buffer it was read into. */
    static lemma {:induction false} BlockRead(flash: Flash, buffer: array<Byte>, blockStart: nat, blockEnd: nat)
      requires flash.Valid() && blockStart % 2 == 0 && blockEnd % 2 == 0
      requires blockStart <= blockEnd <= flash.Capacity() && blockEnd - blockStart <= buffer.Length
      requires buffer[..blockEnd - blockStart] == flash.data[blockStart..blockEnd]
      ensures forall w :: blockStart / 2 <= w < blockEnd / 2 ==>
                && flash.Cells()[w].lo == buffer[2 * w - blockStart]
                && flash.Cells()[w].hi == buffer[2 * w - blockStart + 1]
    {
      var read := buffer[..blockEnd - blockStart];
      forall w | blockStart / 2 <= w < blockEnd / 2
        ensures flash.Cells()[w].lo == buffer[2 * w - blockStart] && flash.Cells()[w].hi == buffer[2 * w - blockStart + 1]
      {
        var k := 2 * w - blockStart;
        assert 0 <= k && k + 1 < |read|;
        assert read[k] == buffer[k] == flash.data[2 * w] && read[k + 1] == buffer[k + 1] == flash.data[2 * w + 1];
      }
    }

    /** The inner loop of the walk: the records of one block that was read into the buffer. */
    static method NoteBlock(buffer: array<Byte>, blockStart: nat, blockEnd: nat, before: Cache, ghost m: Medium)
      returns (result: Cache)
      requires blockStart % 2 == 0 && blockEnd % 2 == 0
      requires blockStart <= blockEnd <= 2 * |m| && blockEnd - blockStart <= buffer.Length
      requires forall w :: blockStart / 2 <= w < blockEnd / 2 ==>
        m[w].lo == buffer[2 * w - blockStart] && m[w].hi == buffer[2 * w - blockStart + 1]
      requires before == ScanFirst(m, blockStart / 2)
      ensures result == ScanFirst(m, blockEnd / 2)
    {
      hide ScanFirst, Note, TryNew;
      result := before;
      for chunk := 0 to (blockEnd - blockStart) / 2
        invariant result == ScanFirst(m, blockStart / 2 + chunk)
      {
        ghost var w := blockStart / 2 + chunk;
        var address := blockStart + 2 * chunk;
        ScanNext(m, w);
        assert m[w].lo == buffer[2 * chunk] && m[w].hi == buffer[2 * chunk + 1];
        result := Note(result, address, TryNew(buffer[2 * chunk], buffer[2 * chunk + 1]));
      }
    }

    /** The address of a block: its number times the block size. */
    static function BlockStart(block: nat, blockSize: nat): nat
    {
      if block == 0 then 0 else BlockStart(block - 1, blockSize) + blockSize
    }

    static lemma {:induction false} BlockIsEven(blockSize: nat, block: nat)
      requires blockSize % 2 == 0
      ensures BlockStart(block, blockSize) % 2 == 0
    {
      if block > 0 {
        BlockIsEven(blockSize, block - 1);
        EvenSum(BlockStart(block - 1, blockSize), blockSize);
      }
    }

    /** Blocks counted with rounding up start inside and reach the end. */
    static lemma {:induction false} BlocksCover(capacity: nat, blockSize: nat, block: nat)
      requires blockSize > 0
      ensures block < DivCeil(capacity, blockSize) <==> BlockStart(block, blockSize) < capacity
    {
      if block > 0 && capacity > blockSize {
        BlocksCover(capacity - blockSize, blockSize, block - 1);
      }
    }

    static lemma {:induction false} ScanNext(m: Medium, i: nat)
      requires i < |m|
      ensures ScanFirst(m, i + 1) == Note(ScanFirst(m, i), 2 * i, Parse(m[i]))
    {
      assert m[..i + 1][..i] == m[..i];
    }

    /** The latest state in the journal, if any. */
    function GetState(): Option<State>
      reads this
    {
      cache.Get()
    }

    /** One erase instruction over a range of pages. */
    method ErasePages(first: nat, end: nat) returns (r: Result<(), FlashError>)
      requires Suitable(flash) && first <= end <= flash.pages
      modifies flash`fuel, flash.data, flash.writable
      ensures flash.Valid()
      ensures Run(flash.Cells(), flash.fuel, r) ==
              Execute(old(flash.Cells()), old(flash.fuel),
                      EraseSteps(first * flash.PageBytes(), end * flash.PageBytes()))
    {
      PageBounds(flash, first);
      PageBounds(flash, end);
      var from := first * flash.PageBytes();
      var to := end * flash.PageBytes();
      ProductGrows(first, end, flash.PageBytes());
      r := flash.Erase(from, Min(to, flash.Capacity()));
    }

    static lemma {:induction false} PageBounds(flash: Flash, page: nat)
      requires flash.Valid() && flash.WholePages() && page <= flash.pages
      ensures page * flash.PageBytes() % flash.PageBytes() == 0
      ensures page * flash.PageBytes() <= flash.Capacity()
    {
      Geometry(flash);
      MultiplesOf(page, flash.PageBytes());
      ProductGrows(page, flash.pages, flash.PageBytes());
    }

    /** The latest record is past the first page: rewrite the first page, then erase the others. */
    method RollOverToFirstPage(bytes: seq<Byte>) returns (r: Result<(), FlashError>)
      requires Suitable(flash) && |bytes| == 2
      modifies flash`fuel, flash.data, flash.writable
      ensures Run(flash.Cells(), flash.fuel, r) ==
              Execute(old(flash.Cells()), old(flash.fuel),
                      EraseSteps(0, flash.PageBytes()) +
                      (WriteSteps(0, bytes) + EraseSteps(flash.PageBytes(), flash.Capacity())))
    {
      hide Execute, ExecuteStep, EraseSteps, WriteSteps;
      Geometry(flash);
      ghost var write, tail := WriteSteps(0, bytes), EraseSteps(flash.PageBytes(), flash.Capacity());
      ExecuteConcat(flash.Cells(), flash.fuel, EraseSteps(0, flash.PageBytes()), write + tail);
      r := ErasePages(0, 1);
      if r.Err? {
        return;
      }
      ExecuteConcat(flash.Cells(), flash.fuel, write, tail);
      r := flash.Write(0, bytes);
      if r.Err? {
        return;
      }
      r := ErasePages(1, PageCount(flash));
    }

    /** The latest record is in the first page: erase the others and write to the second. */
    method RollOverToSecondPage(bytes: seq<Byte>) returns (r: Result<(), FlashError>)
      requires Suitable(flash) && |bytes| == 2
      modifies flash`fuel, flash.data, flash.writable
      ensures Run(flash.Cells(), flash.fuel, r) ==
              Execute(old(flash.Cells()), old(flash.fuel),
                      EraseSteps(flash.PageBytes(), flash.Capacity()) + WriteSteps(flash.PageBytes(), bytes))
    {
      hide Execute, ExecuteStep, EraseSteps, WriteSteps;
      Geometry(flash);
      ExecuteConcat(flash.Cells(), flash.fuel,
                    EraseSteps(flash.PageBytes(), flash.Capacity()), WriteSteps(flash.PageBytes(), bytes));
      r := ErasePages(1, PageCount(flash));
      if r.Err? {
        return;
      }
      r := flash.Write(flash.PageBytes(), bytes);
    }

    /** There is no record and no empty slot: clear everything, then write. */
    method Wipe(bytes: seq<Byte>) returns (r: Result<(), FlashError>)
      requires Suitable(flash) && |bytes| == 2
      modifies flash`fuel, flash.data, flash.writable
      ensures Run(flash.Cells(), flash.fuel, r) ==
              Execute(old(flash.Cells()), old(flash.fuel),
                      EraseSteps(0, flash.Capacity()) + WriteSteps(0, bytes))
    {
      hide Execute, ExecuteStep, EraseSteps, WriteSteps;
      Geometry(flash);
      ExecuteConcat(flash.Cells(), flash.fuel, EraseSteps(0, flash.Capacity()), WriteSteps(0, bytes));
      r := flash.Erase(0, flash.Capacity());
      if r.Err? {
        return;
      }
      r := flash.Write(0, bytes);
    }

    /** Stores a state, unless it is the latest one already. */
    method Set(state: State, blockSize: nat) returns (r: Result<(), JournalError>)
      requires Valid()
      requires blockSize >= 2 && blockSize % 2 == 0
      modifies `cache, flash`fuel, flash.data, flash.writable
      ensures Suitable(flash)
      ensures SetRun(flash.Cells(), flash.fuel, r) ==
              JournalSpec.Set(old(flash.Cells()), flash.pageWords, old(flash.fuel), state)
      ensures r.Ok? || r.error == ReadbackFailed ==> Valid()
      ensures r.Err? && r.error.Other? ==> cache == old(cache)
      ensures r.Ok? ==> GetState() == Some(state)
      ensures old(flash.fuel).None? && Sane(old(flash.Cells())) ==>
              && r == Ok(()) && IsCache(old(flash.Cells()), old(cache))
              && Leaves(old(flash.Cells()), flash.pageWords, old(cache), state, flash.Cells())
    {
      if flash.fuel.None? && Sane(flash.Cells()) {
        ScanIsCache(flash.Cells());
        CompletedSet(flash.Cells(), flash.pageWords, cache, state);
      }
      Geometry(flash);
      ScanIsCache(flash.Cells());
      if GetState() == Some(state) {
        return Ok(());
      }
      var bytes := [state.data, state.crc];
      var done: Result<(), FlashError>;
      if cache.firstEmptySlot.Some? {
        done := flash.Write(cache.firstEmptySlot.value, bytes);
      } else if cache.lastValidState.Some? {
        PageIndex(cache.lastValidState.value.address, flash.PageBytes());
        if cache.lastValidState.value.address / flash.PageBytes() > 0 {
          done := RollOverToFirstPage(bytes);
        } else {
          done := RollOverToSecondPage(bytes);
        }
      } else {
        done := Wipe(bytes);
      }
      if done.Err? {
        return Err(Other(done.error));
      }
      cache := ComputeCache(flash, blockSize);
      if GetState() == Some(state) {
        return Ok(());
      }
      return Err(ReadbackFailed);
    }

    static lemma {:induction false} PageIndex(address: nat, pageBytes: nat)
      requires pageBytes > 0
      ensures address / pageBytes > 0 <==> address >= pageBytes
    {
    }
  }
}
