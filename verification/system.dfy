/**
 The whole device as a state machine: the bootloader after every power-on or reset, the application
 it starts, both writing the one journal, and power that may be lost at any byte.
 */
module System {
  import opened Wrappers
  import opened BootState
  import opened NorFlash
  import opened JournalSpec
  import opened CrashAtomicity
  import opened JournalRuns
  import opened Boot
  import opened BootProperties
  import opened Application

  /** What runs after the last event; an application remembers what it read when it was started. */
  datatype Phase = Stopped | Running(slot: Slot, state: State, launch: State)

  /** `asked` collects the slots from which a running application asked to be confirmed. */
  datatype Machine = Machine(medium: Medium, phase: Phase, asked: set<Slot>)

  datatype Event =
    /** Power-on or reset, the verdicts of the checks, the bytes until power is cut, a cut before the jump. */
    | PowerOn(first: bool, second: bool, fuel: Option<nat>, lost: bool)
    /** A short press of USER1 in the example application. */
    | Press(fuel: Option<nat>)
    /** Any other application stores any state. */
    | Write(state: State, fuel: Option<nat>)

  predicate Fits(x: Machine, pageWords: nat)
  {
    Paged(x.medium, pageWords)
  }

  function Save(x: Machine, pageWords: nat, state: State, fuel: Option<nat>): Machine
    requires Fits(x, pageWords)
  {
    var saved := Set(x.medium, pageWords, fuel, state);
    Machine(saved.medium, if saved.result.Ok? then x.phase else Stopped, x.asked)
  }

  function Step(p: Policy, pageWords: nat, x: Machine, event: Event): (x': Machine)
    requires Fits(x, pageWords)
    ensures Fits(x', pageWords)
  {
    match event
    case PowerOn(first, second, fuel, lost) =>
      var run := RunStart(p, x.medium, pageWords, fuel, first, second);
      Machine(run.medium,
              if run.outcome.Jumped? && !lost
              then Running(run.outcome.slot, run.outcome.state, StateAtLaunch(Get(run.medium))) else Stopped,
              x.asked)
    case Press(fuel) =>
      if x.phase.Stopped? then x
      else
        var request := Request(x.phase.launch);
        var x' := Save(x, pageWords, request, fuel);
        if StatusOf(request) == Confirmed then x'.(asked := x.asked + {x.phase.slot}) else x'
    case Write(state, fuel) =>
      if x.phase.Stopped? then x else Save(x, pageWords, state, fuel)
  }

  function RunEvents(p: Policy, pageWords: nat, x: Machine, events: seq<Event>): (x': Machine)
    requires Fits(x, pageWords)
    ensures Fits(x', pageWords)
    decreases |events|
  {
    if events == [] then x
    else RunEvents(p, pageWords, Step(p, pageWords, x, events[0]), events[1..])
  }

  predicate OnlyPowerOns(events: seq<Event>)
  {
    forall e :: e in events ==> e.PowerOn?
  }

  /** The bootloader and the example application alone. */
  predicate ExampleOnly(events: seq<Event>)
  {
    forall e :: e in events ==> !e.Write?
  }

  lemma {:induction false} StepStaysSane(p: Policy, pageWords: nat, x: Machine, event: Event)
    requires Fits(x, pageWords) && Sane(x.medium)
    ensures Sane(Step(p, pageWords, x, event).medium)
  {
    match event
    case PowerOn(first, second, fuel, lost) =>
      BootFollowsProtocol(p, x.medium, pageWords, fuel, first, second);
    case Press(fuel) =>
      if x.phase.Running? {
        SetIsAtomic(x.medium, pageWords, fuel, Request(x.phase.launch));
      }
    case Write(state, fuel) =>
      SetIsAtomic(x.medium, pageWords, fuel, state);
  }

  lemma {:induction false} RunStaysSane(p: Policy, pageWords: nat, x: Machine, events: seq<Event>)
    requires Fits(x, pageWords) && Sane(x.medium)
    ensures Sane(RunEvents(p, pageWords, x, events).medium)
    decreases |events|
  {
    if events != [] {
      StepStaysSane(p, pageWords, x, events[0]);
      RunStaysSane(p, pageWords, Step(p, pageWords, x, events[0]), events[1..]);
    }
  }

  // ---------- At most one trial ----------

  /** An unconfirmed target is running: one that has a separate backup to fall back to. */
  predicate OnTrial(x: Machine)
  {
    && x.phase.Running?
    && StatusOf(x.phase.state) != Confirmed
    && x.phase.slot == Target(x.phase.state) != Backup(x.phase.state)
  }

  /** How often a run hands control to an unconfirmed target. */
  function Trials(p: Policy, pageWords: nat, x: Machine, events: seq<Event>): nat
    requires Fits(x, pageWords)
    decreases |events|
  {
    if events == [] then 0
    else
      var next := Step(p, pageWords, x, events[0]);
      (if events[0].PowerOn? && OnTrial(next) then 1 else 0) + Trials(p, pageWords, next, events[1..])
  }

  /** A state that leads to a trial. */
  predicate Triable(s: State)
  {
    StatusOf(s) == Initial && Target(s) != Backup(s)
  }

  /**
   The condition on a policy: when its default state would be tried, then for every state that may
   be tried it accepts what that state becomes during and after the trial.
   */
  ghost predicate KeepsTrials(p: Policy)
  {
    Triable(p.defaultState) ==>
      forall s: State :: Triable(s) && (p.isValidState(s) || s == p.defaultState) ==>
        p.isValidState(WithStatus(s, Attempting)) && p.isValidState(WithStatus(s, Failed))
  }

  /** After a trial has begun: the journal holds its outcome and the policy will not fall back to a new one. */
  ghost predicate Spent(p: Policy, latest: Option<State>)
  {
    && latest.Some?
    && StatusOf(latest.value) in {Attempting, Failed}
    && (Triable(p.defaultState) ==>
          p.isValidState(latest.value) && p.isValidState(WithStatus(latest.value, Failed)))
  }

  lemma {:induction false} PowerOnTrial(p: Policy, pageWords: nat, x: Machine, event: Event)
    requires Fits(x, pageWords) && Sane(x.medium) && KeepsTrials(p) && event.PowerOn?
    ensures var x' := Step(p, pageWords, x, event);
            && Sane(x'.medium)
            && (OnTrial(x') ==> !Spent(p, Get(x.medium)) && Spent(p, Get(x'.medium)))
            && (Spent(p, Get(x.medium)) ==> Spent(p, Get(x'.medium)))
  {
    hide RunStart, Get, WithStatus, StatusOf, Target, Backup;
    BootFollowsProtocol(p, x.medium, pageWords, event.fuel, event.first, event.second);
    var before := Get(x.medium);
    var e := Effective(p, before);
    WithStatusFields(e, Attempting);
    WithStatusFields(e, Failed);
    WithStatusTwice(e, Attempting, Failed);
    WithStatusTwice(e, Failed, Failed);
    if before.Some? {
      WithStatusFields(before.value, Failed);
    }
  }

  /** At most one trial between two application writes, whatever cuts and resets happen. */
  lemma {:induction false} AtMostOneTrial(p: Policy, pageWords: nat, x: Machine, events: seq<Event>)
    requires Fits(x, pageWords) && Sane(x.medium) && KeepsTrials(p) && OnlyPowerOns(events)
    ensures Trials(p, pageWords, x, events) <= if Spent(p, Get(x.medium)) then 0 else 1
    decreases |events|
  {
    if events != [] {
      var next := Step(p, pageWords, x, events[0]);
      PowerOnTrial(p, pageWords, x, events[0]);
      AtMostOneTrial(p, pageWords, next, events[1..]);
    }
  }

  // ---------- The condition on the policy is exact ----------

  /** A flash whose journal holds a given state, or nothing. */
  function Holding(latest: Option<State>, pageWords: nat): (m: Medium)
    ensures |m| == pageWords + 1
  {
    seq(pageWords + 1, i requires 0 <= i =>
      if i == 0 && latest.Some? then TornRecord(latest.value, 2) else BLANK)
  }

  lemma {:induction false} HoldingShows(latest: Option<State>, pageWords: nat)
    ensures Sane(Holding(latest, pageWords)) && Get(Holding(latest, pageWords)) == latest
  {
    var m := Holding(latest, pageWords);
    TornRecordParses(if latest.Some? then latest.value else Record(0, 0), 2);
    if latest.Some? {
      LatestRecord(m, 0);
    } else {
      NoRecord(m);
    }
  }

  const CLEAN_BOOT := PowerOn(true, true, None, false)

  /** A boot without cuts whose image checks out. */
  lemma {:induction false} CleanBoot(p: Policy, pageWords: nat, x: Machine)
    requires Fits(x, pageWords) && Sane(x.medium)
    ensures var x' := Step(p, pageWords, x, CLEAN_BOOT);
            var e := Effective(p, Get(x.medium));
            var s := if StatusOf(e) == Initial then WithStatus(e, Attempting)
                     else if StatusOf(e) == Attempting then WithStatus(e, Failed) else e;
            && Sane(x'.medium)
            && x'.phase == Running(RunningSlot(s), s, StateAtLaunch(Get(x'.medium)))
            && Get(x'.medium) == (if s == e then Get(x.medium) else Some(s))
  {
    var e := Effective(p, Get(x.medium));
    WithStatusFields(e, Attempting);
    WithStatusFields(e, Failed);
    SetIsAtomic(x.medium, pageWords, None, WithStatus(e, Attempting));
    SetIsAtomic(x.medium, pageWords, None, WithStatus(e, Failed));
  }

  /** Where the condition fails, resets alone start two trials. */
  lemma {:induction false} RepeatedTrials(p: Policy, pageWords: nat) returns (x: Machine, events: seq<Event>)
    requires !KeepsTrials(p) && pageWords >= 1
    ensures Fits(x, pageWords) && Sane(x.medium) && OnlyPowerOns(events)
    ensures Trials(p, pageWords, x, events) == 2
  {
    hide Step, Holding, WithStatus, StatusOf, Target, Backup;
    var s: State :| Triable(s) && (p.isValidState(s) || s == p.defaultState) &&
                    !(p.isValidState(WithStatus(s, Attempting)) && p.isValidState(WithStatus(s, Failed)));
    var latest := if p.isValidState(s) then Some(s) else None;
    HoldingShows(latest, pageWords);
    WithStatusFields(s, Attempting);
    WithStatusFields(s, Failed);
    WithStatusTwice(s, Attempting, Failed);
    WithStatusFields(p.defaultState, Attempting);
    x := Machine(Holding(latest, pageWords), Stopped, {});
    var x1 := Step(p, pageWords, x, CLEAN_BOOT);
    CleanBoot(p, pageWords, x);
    assert OnTrial(x1);
    var x2 := Step(p, pageWords, x1, CLEAN_BOOT);
    CleanBoot(p, pageWords, x1);
    if p.isValidState(WithStatus(s, Attempting)) {
      var x3 := Step(p, pageWords, x2, CLEAN_BOOT);
      CleanBoot(p, pageWords, x2);
      assert !OnTrial(x2) && OnTrial(x3);
      events := [CLEAN_BOOT] + ([CLEAN_BOOT] + [CLEAN_BOOT]);
      assert Trials(p, pageWords, x2, [CLEAN_BOOT]) == 1 + Trials(p, pageWords, x3, []);
      assert ([CLEAN_BOOT] + [CLEAN_BOOT])[1..] == [CLEAN_BOOT];
      assert events[1..] == [CLEAN_BOOT] + [CLEAN_BOOT];
    } else {
      assert OnTrial(x2);
      events := [CLEAN_BOOT] + [CLEAN_BOOT];
      assert events[1..] == [CLEAN_BOOT];
      assert Trials(p, pageWords, x1, [CLEAN_BOOT]) == 1 + Trials(p, pageWords, x2, []);
    }
  }

  /** A policy allows at most one trial between two application writes exactly when it keeps trials. */
  lemma {:induction false} AtMostOneTrialExactly(p: Policy, pageWords: nat)
    requires pageWords >= 1
    ensures KeepsTrials(p) <==>
            forall x, events :: Fits(x, pageWords) && Sane(x.medium) && OnlyPowerOns(events) ==>
              Trials(p, pageWords, x, events) <= 1
  {
    if KeepsTrials(p) {
      forall x, events | Fits(x, pageWords) && Sane(x.medium) && OnlyPowerOns(events)
        ensures Trials(p, pageWords, x, events) <= 1
      {
        AtMostOneTrial(p, pageWords, x, events);
      }
    } else {
      var x, events := RepeatedTrials(p, pageWords);
    }
  }

  /** In any run, the resets between two application writes start at most one trial. */
  lemma {:induction false} AtMostOneTrialInRuns(pageWords: nat, x: Machine, earlier: seq<Event>, resets: seq<Event>)
    requires Fits(x, pageWords) && Sane(x.medium) && OnlyPowerOns(resets)
    ensures Trials(DEFAULT_POLICY, pageWords, RunEvents(DEFAULT_POLICY, pageWords, x, earlier), resets) <= 1
  {
    RunStaysSane(DEFAULT_POLICY, pageWords, x, earlier);
    DefaultFields();
    AtMostOneTrial(DEFAULT_POLICY, pageWords, RunEvents(DEFAULT_POLICY, pageWords, x, earlier), resets);
  }

  lemma {:induction false} DefaultFields()
    ensures StatusOf(DEFAULT_POLICY.defaultState) == Initial
    ensures Target(DEFAULT_POLICY.defaultState) == 0 && Backup(DEFAULT_POLICY.defaultState) == 0
    ensures KeepsTrials(DEFAULT_POLICY)
  {
    FieldsAndRecord(New(Initial, 0, 0), Initial, 0, 0);
  }

  // ---------- Hand-over ----------

  /** The application works out that it runs from the slot the bootloader jumped to. */
  predicate Agreed(x: Machine)
  {
    x.phase.Running? ==> RunningSlot(x.phase.launch) == x.phase.slot
  }

  /**
   The condition on a policy: when its default state is booted without storing anything, every
   state it refuses, and the absence of one, must name the same slot as the default state.
   */
  ghost predicate HandsOver(p: Policy)
  {
    StatusOf(p.defaultState) in {Confirmed, Failed} ==>
      && RunningSlot(p.defaultState) == SLOT_A
      && forall s: State :: !p.isValidState(s) ==> RunningSlot(s) == SLOT_A
  }

  lemma {:induction false} PowerOnAgrees(p: Policy, pageWords: nat, x: Machine, event: Event)
    requires Fits(x, pageWords) && Sane(x.medium) && HandsOver(p) && event.PowerOn?
    ensures Agreed(Step(p, pageWords, x, event))
  {
    BootFollowsProtocol(p, x.medium, pageWords, event.fuel, event.first, event.second);
    var e := Effective(p, Get(x.medium));
    WithStatusFields(e, Attempting);
    WithStatusFields(e, Failed);
    FieldsAndRecord(New(Confirmed, SLOT_A, SLOT_B), Confirmed, SLOT_A, SLOT_B);
  }

  /** Bootloader and application agree on the running slot after every boot exactly when the policy hands over. */
  lemma {:induction false} HandOverExactly(p: Policy, pageWords: nat)
    requires pageWords >= 1
    ensures HandsOver(p) <==>
            forall x, event: Event :: Fits(x, pageWords) && Sane(x.medium) && event.PowerOn? ==>
              Agreed(Step(p, pageWords, x, event))
  {
    if HandsOver(p) {
      forall x, event: Event | Fits(x, pageWords) && Sane(x.medium) && event.PowerOn?
        ensures Agreed(Step(p, pageWords, x, event))
      {
        PowerOnAgrees(p, pageWords, x, event);
      }
    } else {
      FieldsAndRecord(New(Confirmed, SLOT_A, SLOT_B), Confirmed, SLOT_A, SLOT_B);
      var latest: Option<State> := None;
      if RunningSlot(p.defaultState) == SLOT_A {
        var s: State :| !p.isValidState(s) && RunningSlot(s) != SLOT_A;
        latest := Some(s);
      }
      HoldingShows(latest, pageWords);
      var x := Machine(Holding(latest, pageWords), Stopped, {});
      CleanBoot(p, pageWords, x);
      assert !Agreed(Step(p, pageWords, x, CLEAN_BOOT));
    }
  }
}
