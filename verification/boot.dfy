/**
 The boot decision (libs/ec-slimloader/src/lib.rs). Checking and booting an image is a verdict
 given from outside: the control is handed to the image, or the call returns with an error.
 */
module Boot {
  import opened Wrappers
  import opened BootState
  import opened NorFlash
  import opened JournalSpec
  import opened JournalRuns
  import opened Journal

  /** What the application of the bootloader decides: BootStatePolicy. */
  datatype Policy = Policy(defaultState: State, isValidState: State -> bool)

  const DEFAULT_POLICY: Policy := Policy(New(Initial, 0, 0), s => true)

  /** How a boot ends: the image in a slot runs, no candidate is left, or a status could not be stored. */
  datatype Outcome = Jumped(slot: Slot, state: State) | Aborted | Panicked

  datatype BootRun = BootRun(medium: Medium, fuel: Option<nat>, outcome: Outcome)

  /** The state to work with: the latest one if there is one and the policy accepts it. */
  function Effective(p: Policy, latest: Option<State>): State
  {
    if latest.Some? && p.isValidState(latest.value) then latest.value else p.defaultState
  }

  /** One boot on the words of the journal's flash; `first` and `second` are the verdicts of the two checks. */
  function RunStart(p: Policy, m: Medium, pageWords: nat, fuel: Option<nat>, first: bool, second: bool): (run: BootRun)
    requires Paged(m, pageWords)
    ensures |run.medium| == |m|
  {
    var s := Effective(p, Get(m));
    match StatusOf(s)
    case Initial =>
      var attempting := WithStatus(s, Attempting);
      var saved := Set(m, pageWords, fuel, attempting);
      if saved.result.Err? then BootRun(saved.medium, saved.fuel, Panicked)
      else TryBoot(saved.medium, pageWords, saved.fuel, attempting, Target(attempting), first, second)
    case Attempting =>
      var failed := WithStatus(s, Failed);
      var saved := Set(m, pageWords, fuel, failed);
      if saved.result.Err? then BootRun(saved.medium, saved.fuel, Panicked)
      else TryBoot(saved.medium, pageWords, saved.fuel, failed, Backup(failed), first, second)
    case Failed => TryBoot(m, pageWords, fuel, s, Backup(s), first, second)
    case Confirmed => TryBoot(m, pageWords, fuel, s, Target(s), first, second)
  }

  /** Boots a slot; when that fails, marks the state as failed and boots a separate backup. */
  function TryBoot(m: Medium, pageWords: nat, fuel: Option<nat>, s: State, slot: Slot, first: bool, second: bool)
    : (run: BootRun)
    requires Paged(m, pageWords)
    ensures |run.medium| == |m|
  {
    if first then BootRun(m, fuel, Jumped(slot, s))
    else if StatusOf(s) != Failed then
      var failed := WithStatus(s, Failed);
      var saved := Set(m, pageWords, fuel, failed);
      if saved.result.Err? then BootRun(saved.medium, saved.fuel, Panicked)
      else BootRun(saved.medium, saved.fuel, Fallback(failed, slot, second))
    else BootRun(m, fuel, Fallback(s, slot, second))
  }

  function Fallback(s: State, slot: Slot, second: bool): Outcome
  {
    if slot != Backup(s) && second then Jumped(Backup(s), s) else Aborted
  }

  /** The board: the journal it opened and the verdicts its image checks are going to give. */
  class Board {
    const journal: FlashJournal

    constructor (journal: FlashJournal)
      ensures this.journal == journal
    {
      this.journal := journal;
    }

    /** Stores the state with a new status; tells whether that worked, for the caller panics if not. */
    method SetStatus(state: State, status: Status, blockSize: nat) returns (state': State, stored: bool)
      requires journal.Valid()
      requires blockSize >= 2 && blockSize % 2 == 0
      modifies journal`cache, journal.flash`fuel, journal.flash.data, journal.flash.writable
      ensures FlashJournal.Suitable(journal.flash)
      ensures state' == WithStatus(state, status)
      ensures var saved := Set(old(journal.flash.Cells()), journal.flash.pageWords, old(journal.flash.fuel), state');
              && journal.flash.Cells() == saved.medium
              && journal.flash.fuel == saved.fuel
              && stored == saved.result.Ok?
      ensures stored ==> journal.Valid()
    {
      state' := WithStatus(state, status);
      var r := journal.Set(state', blockSize);
      stored := r.Ok?;
    }

    /** The whole boot after the board was initialised. */
    method Start(p: Policy, blockSize: nat, first: bool, second: bool) returns (outcome: Outcome)
      requires journal.Valid()
      requires blockSize >= 2 && blockSize % 2 == 0
      modifies journal`cache, journal.flash`fuel, journal.flash.data, journal.flash.writable
      ensures FlashJournal.Suitable(journal.flash)
      ensures BootRun(journal.flash.Cells(), journal.flash.fuel, outcome) ==
              RunStart(p, old(journal.flash.Cells()), journal.flash.pageWords, old(journal.flash.fuel), first, second)
    {
      FlashJournal.Geometry(journal.flash);
      var latest := journal.GetState();
      var state := p.defaultState;
      if latest.Some? && p.isValidState(latest.value) {
        state := latest.value;
      }

      var stored := true;
      var slot := 0;
      match StatusOf(state) {
        case Initial =>
          state, stored := SetStatus(state, Attempting, blockSize);
          slot := Target(state);
        case Attempting =>
          state, stored := SetStatus(state, Failed, blockSize);
          slot := Backup(state);
        case Failed =>
          slot := Backup(state);
        case Confirmed =>
          slot := Target(state);
      }
      if !stored {
        return Panicked;
      }

      if first {
        return Jumped(slot, state);
      }
      if StatusOf(state) != Failed {
        state, stored := SetStatus(state, Failed, blockSize);
        if !stored {
          return Panicked;
        }
      }
      if slot != Backup(state) {
        if second {
          return Jumped(Backup(state), state);
        }
      }
      return Aborted;
    }
  }
}
