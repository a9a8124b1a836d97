/**
 The parts together, on one flash device: what the two fuzz targets of the journal check for one
 geometry (libs/ec-slimloader-state/fuzz/fuzz_targets), and a boot that is handed over to the application.
 */
module PowerCycles {
  import opened Wrappers
  import opened BootState
  import opened NorFlash
  import opened JournalSpec
  import opened JournalRuns
  import opened Journal
  import opened Boot
  import opened BootProperties
  import opened Application
  import opened System

  /** Any contents: opening succeeds, and so does storing any state while power stays on. */
  method RandomFlash(flash: Flash, state: State, blockSize: nat) returns (journal: FlashJournal)
    requires FlashJournal.Suitable(flash) && Sane(flash.Cells()) && flash.fuel == None
    requires blockSize >= 2 && blockSize % 2 == 0
    modifies flash`fuel, flash.data, flash.writable
    ensures fresh(journal) && journal.flash == flash && journal.Valid()
    ensures journal.GetState() == Some(state)
  {
    var r := FlashJournal.New(flash, blockSize);
    journal := r.value;
    SetIsAtomic(flash.Cells(), flash.pageWords, None, state);
    var stored := journal.Set(state, blockSize);
    assert stored.Ok?;
  }

  /**
   Stores states one by one. When power is cut, the journal is opened again: if it shows the state
   from before, the store is repeated; if it shows the new one, the run ends; anything else would
   make the fuzz target panic, as any other error would. It never does, and at the end the journal
   shows the last of the states that took effect: all of them, when power is never cut.
   */
  method Interrupted(flash: Flash, states: seq<State>, blockSize: nat) returns (survived: bool, done: nat)
    requires FlashJournal.Suitable(flash) && Sane(flash.Cells()) && Get(flash.Cells()) == None
    requires blockSize >= 2 && blockSize % 2 == 0
    modifies flash`fuel, flash.data, flash.writable
    ensures survived && done <= |states|
    ensures FlashJournal.Suitable(flash) && Sane(flash.Cells())
    ensures Get(flash.Cells()) == if done == 0 then None else Some(states[done - 1])
    ensures old(flash.fuel).None? ==> done == |states|
  {
    hide Set, SetSteps, Scan, Assemble, Taken, Leaves, Sane, IsCache;
    var r := FlashJournal.New(flash, blockSize);
    var journal := r.value;
    var previous: Option<State> := None;
    done := 0;
    while done < |states|
      invariant done <= |states| && fresh(journal) && journal.flash == flash && journal.Valid()
      invariant Sane(flash.Cells()) && previous == journal.GetState()
      invariant previous == if done == 0 then None else Some(states[done - 1])
      invariant old(flash.fuel).None? ==> flash.fuel.None?
      decreases |states| - done, flash.fuel.Some?
    {
      var state := states[done];
      SetIsAtomic(flash.Cells(), flash.pageWords, flash.fuel, state);
      var stored := journal.Set(state, blockSize);
      if stored.Ok? {
        if journal.GetState() != Some(state) {
          return false, done;
        }
      } else if stored.error.Other? && stored.error.error.EarlyShutoff? {
        flash.fuel := None;
        r := FlashJournal.New(flash, blockSize);
        journal := r.value;
        var shown := journal.GetState();
        if shown == previous {
          continue;
        } else if shown == Some(state) {
          done := done + 1;
          break;
        } else {
          return false, done;
        }
      } else {
        return false, done;
      }
      previous := Some(state);
      done := done + 1;
    }
    return true, done;
  }

  /**
   One power-on: the bootloader opens the journal and boots, the application it jumps to opens the
   journal again with a block size of its own. Both agree on the running slot.
   */
  method PowerCycle(p: Policy, flash: Flash, bootBlock: nat, appBlock: nat, first: bool, second: bool)
    returns (outcome: Outcome, app: ExampleApplication?)
    requires FlashJournal.Suitable(flash) && Sane(flash.Cells()) && HandsOver(p)
    requires bootBlock >= 2 && bootBlock % 2 == 0 && appBlock >= 2 && appBlock % 2 == 0
    modifies flash`fuel, flash.data, flash.writable
    ensures FlashJournal.Suitable(flash) && Sane(flash.Cells())
    ensures BootRun(flash.Cells(), flash.fuel, outcome) ==
            RunStart(p, old(flash.Cells()), flash.pageWords, old(flash.fuel), first, second)
    ensures outcome.Jumped? <==> app != null
    ensures outcome.Jumped? ==> app.slot == outcome.slot
  {
    ghost var x := Machine(flash.Cells(), Stopped, {});
    PowerOnAgrees(p, flash.pageWords, x, PowerOn(first, second, flash.fuel, false));
    BootFollowsProtocol(p, flash.Cells(), flash.pageWords, flash.fuel, first, second);
    var r := FlashJournal.New(flash, bootBlock);
    var board := new Board(r.value);
    outcome := board.Start(p, bootBlock, first, second);
    app := null;
    if outcome.Jumped? {
      app := ExampleApplication.Launch(flash, appBlock);
    }
  }
}
