/** What whole runs of the device keep under the default policy, with power cut anywhere. */
module BootRuns {
  import opened Wrappers
  import opened BootState
  import opened NorFlash
  import opened JournalSpec
  import opened JournalRuns
  import opened Boot
  import opened BootProperties
  import opened Application
  import opened System

  // ---------- The backup can be trusted ----------

  /** The backup is the first slot or one whose application asked to be confirmed; so is a confirmed target. */
  predicate Trusted(s: State, asked: set<Slot>)
  {
    && (Backup(s) == SLOT_A || Backup(s) in asked)
    && (StatusOf(s) == Confirmed ==> Target(s) in asked)
    && Target(s) <= SLOT_B && Backup(s) <= SLOT_B
  }

  /** What the bootloader and the example application keep. */
  ghost predicate Safe(x: Machine)
  {
    && Sane(x.medium)
    && (Get(x.medium).Some? ==> Trusted(Get(x.medium).value, x.asked))
    && (x.phase.Running? ==> Trusted(x.phase.launch, x.asked) && RunningSlot(x.phase.launch) == x.phase.slot)
  }

  /** The boot protocol keeps target and backup, and never confirms anything. */
  lemma {:induction false} ProtocolKeepsTrust(before: Option<State>, after: Option<State>, outcome: Outcome, asked: set<Slot>)
    requires var e := Effective(DEFAULT_POLICY, before);
             Protocol(e, before, after, outcome)
    requires before.Some? ==> Trusted(before.value, asked)
    ensures after.Some? ==> Trusted(after.value, asked)
    ensures outcome.Jumped? ==> after.Some? && RunningSlot(after.value) == outcome.slot
  {
    hide Checksum;
    DefaultFields();
    var e := Effective(DEFAULT_POLICY, before);
    WithStatusFields(e, Attempting);
    WithStatusFields(e, Failed);
  }

  lemma {:induction false} PowerOnIsSafe(pageWords: nat, x: Machine, event: Event)
    requires Fits(x, pageWords) && Safe(x) && event.PowerOn?
    ensures Safe(Step(DEFAULT_POLICY, pageWords, x, event))
  {
    BootFollowsProtocol(DEFAULT_POLICY, x.medium, pageWords, event.fuel, event.first, event.second);
    var run := RunStart(DEFAULT_POLICY, x.medium, pageWords, event.fuel, event.first, event.second);
    ProtocolKeepsTrust(Get(x.medium), Get(run.medium), run.outcome, x.asked);
  }

  /** What the example application asks for can be trusted once the slot it runs from is noted. */
  lemma {:induction false} RequestIsTrusted(launch: State, asked: set<Slot>)
    requires Trusted(launch, asked)
    ensures var request := Request(launch);
            Trusted(request, if StatusOf(request) == Confirmed then asked + {RunningSlot(launch)} else asked)
  {
    var slot := RunningSlot(launch);
    var other := if slot == SLOT_A then SLOT_B else SLOT_A;
    FieldsAndRecord(New(Initial, other, slot), Initial, other, slot);
    WithStatusFields(launch, Initial);
    WithStatusFields(launch, Confirmed);
  }

  lemma {:induction false} PressIsSafe(pageWords: nat, x: Machine, fuel: Option<nat>)
    requires Fits(x, pageWords) && Safe(x)
    ensures Safe(Step(DEFAULT_POLICY, pageWords, x, Press(fuel)))
  {
    hide Set, RunStart, New, Scan, Checksum, Request;
    if x.phase.Running? {
      var request := Request(x.phase.launch);
      RequestIsTrusted(x.phase.launch, x.asked);
      SetIsAtomic(x.medium, pageWords, fuel, request);
      var saved := Set(x.medium, pageWords, fuel, request);
      var asked := if StatusOf(request) == Confirmed then x.asked + {x.phase.slot} else x.asked;
      assert Trusted(request, asked) && Trusted(x.phase.launch, asked);
      assert Get(saved.medium) == Get(x.medium) || Get(saved.medium) == Some(request);
      assert Step(DEFAULT_POLICY, pageWords, x, Press(fuel)) ==
             Machine(saved.medium, if saved.result.Ok? then x.phase else Stopped, asked);
    }
  }

  /**
   From a journal without a record, over every run of the bootloader and the example application:
   the recorded backup is slot 0 or a slot whose running application asked to be confirmed, and
   whenever the device has fallen back, that is what it runs from.
   */
  lemma {:induction false} SafeFallback(pageWords: nat, x: Machine, events: seq<Event>)
    requires Fits(x, pageWords) && Sane(x.medium) && Get(x.medium) == None
    requires x.phase == Stopped && x.asked == {} && ExampleOnly(events)
    ensures var x' := RunEvents(DEFAULT_POLICY, pageWords, x, events);
            var latest := Get(x'.medium);
            && (latest.Some? ==> Backup(latest.value) == SLOT_A || Backup(latest.value) in x'.asked)
            && (latest.Some? && StatusOf(latest.value) == Confirmed ==> Target(latest.value) in x'.asked)
            && (x'.phase.Running? && StatusOf(x'.phase.launch) == Failed ==>
                  x'.phase.slot == SLOT_A || x'.phase.slot in x'.asked)
  {
    SafeRun(pageWords, x, events);
  }

  lemma {:induction false} StepIsSafe(pageWords: nat, x: Machine, event: Event)
    requires Fits(x, pageWords) && Safe(x) && !event.Write?
    ensures Safe(Step(DEFAULT_POLICY, pageWords, x, event))
  {
    if event.PowerOn? {
      PowerOnIsSafe(pageWords, x, event);
    } else {
      PressIsSafe(pageWords, x, event.fuel);
    }
  }

  lemma {:induction false} SafeRun(pageWords: nat, x: Machine, events: seq<Event>)
    requires Fits(x, pageWords) && Safe(x) && ExampleOnly(events)
    ensures Safe(RunEvents(DEFAULT_POLICY, pageWords, x, events))
    decreases |events|
  {
    if events != [] {
      StepIsSafe(pageWords, x, events[0]);
      SafeRun(pageWords, Step(DEFAULT_POLICY, pageWords, x, events[0]), events[1..]);
    }
  }

  // ---------- Boot loops come to rest ----------

  function Rank(latest: Option<State>): nat
  {
    if latest.None? then 3
    else match StatusOf(latest.value)
      case Initial => 2
      case Attempting => 1
      case Confirmed => 1
      case Failed => 0
  }

  /** How often what is recorded changes from one event to the next. */
  function Changes(pageWords: nat, x: Machine, events: seq<Event>): nat
    requires Fits(x, pageWords)
    decreases |events|
  {
    if events == [] then 0
    else
      var next := Step(DEFAULT_POLICY, pageWords, x, events[0]);
      (if Get(next.medium) != Get(x.medium) then 1 else 0) + Changes(pageWords, next, events[1..])
  }

  predicate SameSlots(before: Option<State>, after: Option<State>)
  {
    before.Some? ==>
      after.Some? && Target(after.value) == Target(before.value) && Backup(after.value) == Backup(before.value)
  }

  lemma {:induction false} PowerOnConverges(pageWords: nat, x: Machine, event: Event)
    requires Fits(x, pageWords) && Sane(x.medium) && event.PowerOn?
    ensures var x' := Step(DEFAULT_POLICY, pageWords, x, event);
            && Sane(x'.medium)
            && SameSlots(Get(x.medium), Get(x'.medium))
            && (Get(x'.medium) == Get(x.medium) || Rank(Get(x'.medium)) < Rank(Get(x.medium)))
            && (Rank(Get(x.medium)) == 0 ==> x'.medium == x.medium)
  {
    hide Checksum, Set, Scan;
    DefaultFields();
    BootFollowsProtocol(DEFAULT_POLICY, x.medium, pageWords, event.fuel, event.first, event.second);
    var e := Effective(DEFAULT_POLICY, Get(x.medium));
    WithStatusFields(e, Attempting);
    WithStatusFields(e, Failed);
  }

  /**
   Resets alone never change the recorded target and backup, change the status at most as often as
   its rank allows (twice at most once something is recorded), and leave every word of the flash
   as it is once the status is Failed.
   */
  lemma {:induction false} BootLoopConverges(pageWords: nat, x: Machine, resets: seq<Event>)
    requires Fits(x, pageWords) && Sane(x.medium) && OnlyPowerOns(resets)
    ensures var x' := RunEvents(DEFAULT_POLICY, pageWords, x, resets);
            && SameSlots(Get(x.medium), Get(x'.medium))
            && Changes(pageWords, x, resets) + Rank(Get(x'.medium)) <= Rank(Get(x.medium))
            && (Get(x.medium).Some? ==> Changes(pageWords, x, resets) <= 2)
            && (Rank(Get(x.medium)) == 0 ==> x'.medium == x.medium)
    decreases |resets|
  {
    if resets != [] {
      PowerOnConverges(pageWords, x, resets[0]);
      BootLoopConverges(pageWords, Step(DEFAULT_POLICY, pageWords, x, resets[0]), resets[1..]);
    }
  }

  // ---------- What users are promised ----------

  /** A boot without cuts begins the trial, or has ended it. */
  lemma {:induction false} UncutBoot(pageWords: nat, x: Machine, s: State, event: Event)
    requires Fits(x, pageWords) && Sane(x.medium)
    requires Get(x.medium) == Some(s) && StatusOf(s) in {Initial, Attempting}
    requires event.PowerOn? && event.fuel.None?
    ensures var x' := Step(DEFAULT_POLICY, pageWords, x, event);
            Sane(x'.medium) && Get(x'.medium) in {Some(WithStatus(s, Attempting)), Some(WithStatus(s, Failed))}
  {
    BootFollowsProtocol(DEFAULT_POLICY, x.medium, pageWords, event.fuel, event.first, event.second);
  }

  /** An image that is not confirmed gives way: after two boots the backup runs and the state is Failed. */
  lemma {:induction false} UnconfirmedGivesWay(pageWords: nat, x: Machine, s: State, event: Event)
    requires Fits(x, pageWords) && Sane(x.medium)
    requires Get(x.medium) == Some(s) && StatusOf(s) in {Initial, Attempting}
    requires event.PowerOn? && event.fuel.None?
    ensures var x' := RunEvents(DEFAULT_POLICY, pageWords, x, [event, CLEAN_BOOT]);
            && Get(x'.medium) == Some(WithStatus(s, Failed))
            && x'.phase.Running? && x'.phase.slot == Backup(s)
  {
    hide Step, New, WithStatus, StatusOf, Target, Backup, Get, Checksum;
    UncutBoot(pageWords, x, s, event);
    WithStatusFields(s, Attempting);
    WithStatusFields(s, Failed);
    WithStatusTwice(s, Attempting, Failed);
    var x1 := Step(DEFAULT_POLICY, pageWords, x, event);
    CleanBoot(DEFAULT_POLICY, pageWords, x1);
    assert [event, CLEAN_BOOT][1..] == [CLEAN_BOOT];
    var x2 := Step(DEFAULT_POLICY, pageWords, x1, CLEAN_BOOT);
    assert RunEvents(DEFAULT_POLICY, pageWords, x1, [CLEAN_BOOT]) == RunEvents(DEFAULT_POLICY, pageWords, x2, []);
  }

  /** A confirmed application that asks for the other slot, and is confirmed there, keeps running from it. */
  lemma {:induction false} SwapSucceeds(pageWords: nat, x: Machine)
    requires Fits(x, pageWords) && Sane(x.medium)
    requires x.phase.Running? && StatusOf(x.phase.launch) == Confirmed && RunningSlot(x.phase.launch) == x.phase.slot
    ensures var other := if x.phase.slot == SLOT_A then SLOT_B else SLOT_A;
            var x1 := RunEvents(DEFAULT_POLICY, pageWords, x, [Press(None), CLEAN_BOOT]);
            var x2 := RunEvents(DEFAULT_POLICY, pageWords, x1, [Press(None), CLEAN_BOOT]);
            && x1.phase.Running? && x1.phase.slot == other
            && Get(x1.medium) == Some(New(Attempting, other, x.phase.slot))
            && x2.phase.Running? && x2.phase.slot == other
            && Get(x2.medium) == Some(New(Confirmed, other, x.phase.slot))
  {
    var slot := x.phase.slot;
    var other := if slot == SLOT_A then SLOT_B else SLOT_A;
    NewFields(other, slot);
    PressThenBoot(pageWords, x);
    var x1 := RunEvents(DEFAULT_POLICY, pageWords, x, [Press(None), CLEAN_BOOT]);
    PressThenBoot(pageWords, x1);
  }

  /**
   After a fallback, asking again gives the target another trial, with the same backup behind it; asking
   once more during the trial confirms the target.
   */
  lemma {:induction false} RetrySucceeds(pageWords: nat, x: Machine)
    requires Fits(x, pageWords) && Sane(x.medium)
    requires x.phase.Running? && StatusOf(x.phase.launch) == Failed
    ensures var target, backup := Target(x.phase.launch), Backup(x.phase.launch);
            var x1 := RunEvents(DEFAULT_POLICY, pageWords, x, [Press(None), CLEAN_BOOT]);
            var x2 := RunEvents(DEFAULT_POLICY, pageWords, x1, [Press(None), CLEAN_BOOT]);
            && x1.phase.Running? && x1.phase.slot == target
            && Get(x1.medium) == Some(New(Attempting, target, backup))
            && x2.phase.Running? && x2.phase.slot == target
            && Get(x2.medium) == Some(New(Confirmed, target, backup))
  {
    NewFields(Target(x.phase.launch), Backup(x.phase.launch));
    PressThenBoot(pageWords, x);
    var x1 := RunEvents(DEFAULT_POLICY, pageWords, x, [Press(None), CLEAN_BOOT]);
    PressThenBoot(pageWords, x1);
  }

  /** An application that is not confirmed yet, asked once, stays: its slots are kept and it is confirmed. */
  lemma {:induction false} ConfirmSucceeds(pageWords: nat, x: Machine)
    requires Fits(x, pageWords) && Sane(x.medium)
    requires x.phase.Running? && StatusOf(x.phase.launch) in {Initial, Attempting}
    ensures var target, backup := Target(x.phase.launch), Backup(x.phase.launch);
            var x' := RunEvents(DEFAULT_POLICY, pageWords, x, [Press(None), CLEAN_BOOT]);
            && x'.phase.Running? && x'.phase.slot == target
            && Get(x'.medium) == Some(New(Confirmed, target, backup))
  {
    NewFields(Target(x.phase.launch), Backup(x.phase.launch));
    PressThenBoot(pageWords, x);
  }

  /** An application that finds no record takes itself for a confirmed one in the first slot. */
  lemma {:induction false} UnrecordedSwaps(pageWords: nat, x: Machine)
    requires Fits(x, pageWords) && Sane(x.medium)
    requires x.phase.Running? && x.phase.launch == StateAtLaunch(None)
    ensures RunningSlot(x.phase.launch) == 0
    ensures var x' := RunEvents(DEFAULT_POLICY, pageWords, x, [Press(None), CLEAN_BOOT]);
            && x'.phase.Running? && x'.phase.slot == 1
            && Get(x'.medium) == Some(New(Attempting, 1, 0))
  {
    NewFields(0, 1);
    NewFields(1, 0);
    PressThenBoot(pageWords, x);
  }

  lemma {:induction false} NewFields(target: Slot, backup: Slot)
    ensures forall status: Status ::
              && StatusOf(New(status, target, backup)) == status
              && Target(New(status, target, backup)) == target
              && Backup(New(status, target, backup)) == backup
  {
    forall status: Status
      ensures && StatusOf(New(status, target, backup)) == status
              && Target(New(status, target, backup)) == target
              && Backup(New(status, target, backup)) == backup
    {
      FieldsAndRecord(New(status, target, backup), status, target, backup);
    }
  }

  lemma {:induction false} PressThenBoot(pageWords: nat, x: Machine)
    requires Fits(x, pageWords) && Sane(x.medium) && x.phase.Running?
    requires StatusOf(Request(x.phase.launch)) in {Initial, Confirmed}
    ensures var x' := RunEvents(DEFAULT_POLICY, pageWords, x, [Press(None), CLEAN_BOOT]);
            var request := Request(x.phase.launch);
            var s := if StatusOf(request) == Initial then WithStatus(request, Attempting) else request;
            && Sane(x'.medium) && Get(x'.medium) == Some(s)
            && x'.phase == Running(RunningSlot(s), s, s)
  {
    hide RunStart, Request, WithStatus, StatusOf, Get;
    SetIsAtomic(x.medium, pageWords, None, Request(x.phase.launch));
    var x1 := Step(DEFAULT_POLICY, pageWords, x, Press(None));
    CleanBoot(DEFAULT_POLICY, pageWords, x1);
    var x2 := Step(DEFAULT_POLICY, pageWords, x1, CLEAN_BOOT);
    assert [Press(None), CLEAN_BOOT][1..] == [CLEAN_BOOT];
    assert RunEvents(DEFAULT_POLICY, pageWords, x1, [CLEAN_BOOT]) == RunEvents(DEFAULT_POLICY, pageWords, x2, []);
  }
}
