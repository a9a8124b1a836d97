/**
 The other writer of the journal: the example application (examples/rt685s/application/src/main.rs).
 It works out from the latest state which slot it runs from and what a short press will ask for.
 */
module Application {
  import opened Wrappers
  import opened BootState
  import opened NorFlash
  import opened JournalSpec
  import opened Journal

  const SLOT_A: Slot := 0
  const SLOT_B: Slot := 1

  /** The latest state, or the one assumed when nothing was ever recorded. */
  function StateAtLaunch(latest: Option<State>): State
  {
    if latest.Some? then latest.value else New(Confirmed, SLOT_A, SLOT_B)
  }

  function RunningSlot(s: State): Slot
  {
    if StatusOf(s) == Failed then Backup(s) else Target(s)
  }

  /** Confirmed: try the other slot. Failed: try the target again. Otherwise: confirm. */
  function Request(s: State): State
  {
    var slot := RunningSlot(s);
    var otherSlot := if slot == SLOT_A then SLOT_B else SLOT_A;
    if StatusOf(s) == Confirmed then New(Initial, otherSlot, slot)
    else if StatusOf(s) == Failed then WithStatus(s, Initial)
    else WithStatus(s, Confirmed)
  }

  class ExampleApplication {
    const journal: FlashJournal
    const slot: Slot
    const newState: State

    constructor Launched(journal: FlashJournal, slot: Slot, newState: State)
      ensures this.journal == journal && this.slot == slot && this.newState == newState
    {
      this.journal := journal;
      this.slot := slot;
      this.newState := newState;
    }

    /** Opens the journal with a block size of its own and derives slot and request from it. */
    static method Launch(flash: Flash, blockSize: nat) returns (app: ExampleApplication)
      requires FlashJournal.Suitable(flash)
      requires blockSize >= 2 && blockSize % 2 == 0
      ensures fresh(app) && app.journal.flash == flash && fresh(app.journal) && app.journal.Valid()
      ensures app.slot == RunningSlot(StateAtLaunch(Get(flash.Cells())))
      ensures app.newState == Request(StateAtLaunch(Get(flash.Cells())))
    {
      var r := FlashJournal.New(flash, blockSize);
      var journal := r.value;
      var latest := journal.GetState();
      var state := if latest.Some? then latest.value else New(Confirmed, SLOT_A, SLOT_B);

      var slot, isConfirmed, isBackup := Target(state), false, false;
      match StatusOf(state) {
        case Initial =>
          slot, isConfirmed, isBackup := Target(state), false, false;
        case Attempting =>
          slot, isConfirmed, isBackup := Target(state), false, false;
        case Failed =>
          slot, isConfirmed, isBackup := Backup(state), false, true;
        case Confirmed =>
          slot, isConfirmed, isBackup := Target(state), true, false;
      }
      var otherSlot := if slot == SLOT_A then SLOT_B else SLOT_A;
      var newState :=
        if isConfirmed then New(Initial, otherSlot, slot)
        else if isBackup then WithStatus(state, Initial)
        else WithStatus(state, Confirmed);
      app := new ExampleApplication.Launched(journal, slot, newState);
    }

    /** A short press of USER1; the application panics when the state could not be stored. */
    method PressUser1(blockSize: nat) returns (stored: bool)
      requires journal.Valid()
      requires blockSize >= 2 && blockSize % 2 == 0
      modifies journal`cache, journal.flash`fuel, journal.flash.data, journal.flash.writable
      ensures FlashJournal.Suitable(journal.flash)
      ensures var saved := Set(old(journal.flash.Cells()), journal.flash.pageWords, old(journal.flash.fuel), newState);
              && journal.flash.Cells() == saved.medium
              && journal.flash.fuel == saved.fuel
              && stored == saved.result.Ok?
      ensures stored ==> journal.Valid()
    {
      var r := journal.Set(newState, blockSize);
      stored := r.Ok?;
    }
  }
}
