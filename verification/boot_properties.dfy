/** What one boot does to the recorded state, with power cut at any byte. */
module BootProperties {
  import opened Wrappers
  import opened BootState
  import opened NorFlash
  import opened JournalSpec
  import opened JournalRuns
  import opened Boot
  import opened Application

  /** A boot that ends without storing anything, or cut before anything took effect. */
  predicate Quiet(e: State, before: Option<State>, after: Option<State>, outcome: Outcome)
  {
    && after == before
    && match StatusOf(e)
       case Initial => outcome == Panicked
       case Attempting => outcome == Panicked
       case Failed => outcome == Aborted || (outcome == Jumped(Backup(e), e))
       case Confirmed => outcome == Panicked || outcome == Jumped(Target(e), e)
  }

  /** The boot protocol on a register: the stored statuses and how the boot may end with each. */
  predicate Protocol(e: State, before: Option<State>, after: Option<State>, outcome: Outcome)
  {
    var attempting, failed := WithStatus(e, Attempting), WithStatus(e, Failed);
    || Quiet(e, before, after, outcome)
    || (StatusOf(e) == Initial && after == Some(attempting) &&
        (outcome == Panicked || outcome == Jumped(Target(e), attempting)))
    || (StatusOf(e) != Failed && after == Some(failed) &&
        (outcome == Panicked || outcome == Aborted ||
         (outcome == Jumped(Backup(e), failed) && (Target(e) != Backup(e) || StatusOf(e) == Attempting))))
  }

  lemma {:induction false} WithStatusFields(s: State, status: Status)
    ensures StatusOf(WithStatus(s, status)) == status
    ensures Target(WithStatus(s, status)) == Target(s)
    ensures Backup(WithStatus(s, status)) == Backup(s)
  {
    FieldsAndRecord(WithStatus(s, status), status, Target(s), Backup(s));
  }

  lemma {:induction false} WithStatusTwice(s: State, status: Status, status': Status)
    ensures WithStatus(WithStatus(s, status), status') == WithStatus(s, status')
  {
    WithStatusFields(s, status);
  }

  /** Marking a state as failed, cut anywhere, then falling back. */
  lemma {:induction false} TryBootEffect(m: Medium, pageWords: nat, fuel: Option<nat>, s: State, slot: Slot, first: bool, second: bool)
    requires Sane(m) && Paged(m, pageWords)
    ensures var run := TryBoot(m, pageWords, fuel, s, slot, first, second);
            var failed := if StatusOf(s) == Failed then s else WithStatus(s, Failed);
            var after := Get(run.medium);
            && Sane(run.medium)
            && (first ==> run.medium == m && run.outcome == Jumped(slot, s))
            && (!first && StatusOf(s) == Failed ==> run.medium == m && run.outcome == Fallback(s, slot, second))
            && (!first && StatusOf(s) != Failed ==>
                  || (run.outcome == Panicked && (after == Get(m) || after == Some(failed)))
                  || (run.outcome == Fallback(failed, slot, second) && after == Some(failed)))
            && (fuel.None? ==> run.outcome != Panicked)
  {
    SetIsAtomic(m, pageWords, fuel, WithStatus(s, Failed));
  }

  /** One boot, cut at any byte or not at all, follows the protocol on the recorded state. */
  lemma {:induction false} BootFollowsProtocol(p: Policy, m: Medium, pageWords: nat, fuel: Option<nat>, first: bool, second: bool)
    requires Sane(m) && Paged(m, pageWords)
    ensures var run := RunStart(p, m, pageWords, fuel, first, second);
            && Sane(run.medium)
            && Protocol(Effective(p, Get(m)), Get(m), Get(run.medium), run.outcome)
            && (fuel.None? ==> run.outcome != Panicked)
  {
    var e := Effective(p, Get(m));
    var attempting, failed := WithStatus(e, Attempting), WithStatus(e, Failed);
    WithStatusFields(e, Attempting);
    WithStatusFields(e, Failed);
    WithStatusTwice(e, Attempting, Failed);
    match StatusOf(e)
    case Initial =>
      SetIsAtomic(m, pageWords, fuel, attempting);
      var saved := Set(m, pageWords, fuel, attempting);
      TryBootEffect(saved.medium, pageWords, saved.fuel, attempting, Target(attempting), first, second);
    case Attempting =>
      SetIsAtomic(m, pageWords, fuel, failed);
      var saved := Set(m, pageWords, fuel, failed);
      TryBootEffect(saved.medium, pageWords, saved.fuel, failed, Backup(failed), first, second);
    case Failed =>
      TryBootEffect(m, pageWords, fuel, e, Backup(e), first, second);
    case Confirmed =>
      TryBootEffect(m, pageWords, fuel, e, Target(e), first, second);
  }

  // ---------- How a boot answers the verdicts ----------

  /** A boot works with a state: the latest one when the policy accepts it, and otherwise the default. */
  predicate WorksWith(p: Policy, latest: Option<State>, e: State)
  {
    || (latest == Some(e) && p.isValidState(e))
    || (e == p.defaultState && (latest.Some? ==> !p.isValidState(latest.value)))
  }

  /** The candidate that is checked first. */
  function FirstCandidate(e: State): Slot
  {
    if StatusOf(e) in {Initial, Confirmed} then Target(e) else Backup(e)
  }

  /** The state that is recorded when the first candidate is checked. */
  function Announced(e: State): State
  {
    if StatusOf(e) == Initial then WithStatus(e, Attempting)
    else if StatusOf(e) == Attempting then WithStatus(e, Failed)
    else e
  }

  /**
   With power on, for every policy: the first candidate runs exactly when its check passes, with nothing but the
   announced status stored; a separate backup runs exactly when the first check fails and the second passes, with
   Failed recorded; and no image runs exactly when the checks that are made fail, with Failed recorded.
   */
  lemma {:induction false} BootAnswersVerdicts(p: Policy, m: Medium, pageWords: nat, first: bool, second: bool, e: State)
    requires Sane(m) && Paged(m, pageWords) && WorksWith(p, Get(m), e)
    ensures var run := RunStart(p, m, pageWords, None, first, second);
            var candidate, announced, failed := FirstCandidate(e), Announced(e), WithStatus(e, Failed);
            var recorded := if announced == e then Get(m) else Some(announced);
            && Sane(run.medium) && run.fuel == None
            && (first <==> run.outcome == Jumped(candidate, announced) && Get(run.medium) == recorded)
            && (candidate != Backup(e) ==>
                  (!first && second <==> run.outcome == Jumped(Backup(e), failed) && Get(run.medium) == Some(failed)))
            && (!first && (!second || candidate == Backup(e)) <==> run.outcome == Aborted)
            && (!first && StatusOf(e) != Failed ==> Get(run.medium) == Some(failed))
            && (announced == e && (first || StatusOf(e) == Failed) ==> run.medium == m)
  {
    hide Set, Get, SetSteps, New, Checksum;
    var announced, failed := Announced(e), WithStatus(e, Failed);
    WithStatusFields(e, Attempting);
    WithStatusFields(e, Failed);
    WithStatusTwice(e, Attempting, Failed);
    SetIsAtomic(m, pageWords, None, announced);
    SetIsAtomic(Set(m, pageWords, None, announced).medium, pageWords, None, failed);
    SetIsAtomic(m, pageWords, None, failed);
  }

  /** What a refused image makes a boot store. */
  function StoresOnRefusal(s: State, first: bool): seq<State>
  {
    if first || StatusOf(s) == Failed then [] else [WithStatus(s, Failed)]
  }

  /** The states that a boot stores, one after the other. */
  function Stores(e: State, first: bool): seq<State>
  {
    (if Announced(e) == e then [] else [Announced(e)]) + StoresOnRefusal(Announced(e), first)
  }

  /** The number of bytes erased and programmed while some states are stored. */
  function BytesOf(m: Medium, pageWords: nat, states: seq<State>): nat
    requires Paged(m, pageWords)
    decreases |states|
  {
    if states == [] then 0
    else |SetSteps(m, pageWords, states[0])| + BytesOf(Set(m, pageWords, None, states[0]).medium, pageWords, states[1..])
  }

  lemma {:induction false} BytesOfMore(m: Medium, pageWords: nat, s: State, rest: seq<State>)
    requires Paged(m, pageWords)
    ensures BytesOf(m, pageWords, []) == 0
    ensures BytesOf(m, pageWords, [s] + rest) ==
            |SetSteps(m, pageWords, s)| + BytesOf(Set(m, pageWords, None, s).medium, pageWords, rest)
  {
    assert ([s] + rest)[1..] == rest;
  }

  lemma {:induction false} NoPanic(s: State, slot: Slot, second: bool)
    ensures Fallback(s, slot, second) != Panicked
  {
  }

  lemma {:induction false} CutTryBoot(m: Medium, pageWords: nat, fuel: Option<nat>, s: State, slot: Slot, first: bool, second: bool)
    requires Sane(m) && Paged(m, pageWords)
    ensures var run := TryBoot(m, pageWords, fuel, s, slot, first, second);
            var whole := TryBoot(m, pageWords, None, s, slot, first, second);
            var stores := StoresOnRefusal(s, first);
            && (run.outcome == Panicked <==> fuel.Some? && fuel.value < BytesOf(m, pageWords, stores))
            && (run.outcome == Panicked ==>
                  Get(run.medium) == Get(m) || exists s' :: s' in stores && Get(run.medium) == Some(s'))
            && (run.outcome != Panicked ==> run.medium == whole.medium && run.outcome == whole.outcome)
  {
    hide Set, SetSteps, Get, BytesOf, New, Fallback;
    var failed := WithStatus(s, Failed);
    BytesOfMore(m, pageWords, failed, []);
    BytesOfMore(Set(m, pageWords, None, failed).medium, pageWords, failed, []);
    assert [failed] + [] == [failed];
    EnoughPower(m, pageWords, fuel, failed);
    EnoughPower(m, pageWords, None, failed);
    SetIsAtomic(m, pageWords, fuel, failed);
    NoPanic(failed, slot, second);
    NoPanic(s, slot, second);
  }

  /** A boot announces a state, unless it is recorded already, and then tries its candidates. */
  lemma {:induction false} AnnouncesThenTries(p: Policy, m: Medium, pageWords: nat, fuel: Option<nat>, first: bool, second: bool, e: State)
    requires Sane(m) && Paged(m, pageWords) && WorksWith(p, Get(m), e)
    ensures var announced, candidate := Announced(e), FirstCandidate(e);
            var saved := Set(m, pageWords, fuel, announced);
            RunStart(p, m, pageWords, fuel, first, second) ==
            if announced == e then TryBoot(m, pageWords, fuel, e, candidate, first, second)
            else if saved.result.Err? then BootRun(saved.medium, saved.fuel, Panicked)
            else TryBoot(saved.medium, pageWords, saved.fuel, announced, candidate, first, second)
  {
    hide Set, Get, TryBoot, New;
    WithStatusFields(e, Attempting);
    WithStatusFields(e, Failed);
  }

  /**
   A boot that loses power: it stops exactly when the power does not last for all it stores, and then shows what
   was recorded before or one of the states it stores. With enough power it is the same as with power on.
   */
  lemma {:induction false} CutBoot(p: Policy, m: Medium, pageWords: nat, fuel: Option<nat>, first: bool, second: bool, e: State)
    requires Sane(m) && Paged(m, pageWords) && WorksWith(p, Get(m), e)
    ensures var run := RunStart(p, m, pageWords, fuel, first, second);
            var whole := RunStart(p, m, pageWords, None, first, second);
            var stores := Stores(e, first);
            && (run.outcome == Panicked <==> fuel.Some? && fuel.value < BytesOf(m, pageWords, stores))
            && (run.outcome == Panicked ==>
                  Get(run.medium) == Get(m) || exists s :: s in stores && Get(run.medium) == Some(s))
            && (run.outcome != Panicked ==> run.medium == whole.medium && run.outcome == whole.outcome)
  {
    hide Set, SetSteps, Get, BytesOf, TryBoot, RunStart, Announced, FirstCandidate, StoresOnRefusal, WorksWith;
    AnnouncesThenTries(p, m, pageWords, fuel, first, second, e);
    AnnouncesThenTries(p, m, pageWords, None, first, second, e);
    var announced, candidate := Announced(e), FirstCandidate(e);
    var refused := StoresOnRefusal(announced, first);
    if announced == e {
      assert Stores(e, first) == refused;
      CutTryBoot(m, pageWords, fuel, e, candidate, first, second);
    } else {
      var saved := Set(m, pageWords, fuel, announced);
      assert Stores(e, first) == [announced] + refused;
      BytesOfMore(m, pageWords, announced, refused);
      EnoughPower(m, pageWords, fuel, announced);
      EnoughPower(m, pageWords, None, announced);
      SetIsAtomic(m, pageWords, fuel, announced);
      if saved.result.Ok? {
        CutTryBoot(saved.medium, pageWords, saved.fuel, announced, candidate, first, second);
      }
    }
  }
}
