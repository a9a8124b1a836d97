/** What the journal keeps over one call and over whole runs, with power cuts anywhere. */
module JournalRuns {
  import opened Wrappers
  import opened BootState
  import opened NorFlash
  import opened JournalSpec
  import opened CrashAtomicity

  /**
   One call on a sane medium, whatever its contents. The only failure is the loss of power;
   what the journal holds afterwards is the old state before the commit point, the new one after it.
   */
  lemma {:induction false} SetIsAtomic(m: Medium, pageWords: nat, fuel: Option<nat>, s: State)
    requires Sane(m) && Paged(m, pageWords)
    ensures var run := Set(m, pageWords, fuel, s);
            var steps := SetSteps(m, pageWords, s);
            var n := Taken(fuel, |steps|);
            && |run.medium| == |m|
            && Sane(run.medium)
            && Get(run.medium) == (if n < CommitPoint(m, pageWords, s) then Get(m) else Some(s))
            && run.result == (if n < |steps| then Err(Other(EarlyShutoff(steps[n].address, steps[n].Operation()))) else Ok(()))
            && run.fuel == (if n < |steps| || fuel.None? then None else Some(fuel.value - n))
            && (run.result.Ok? ==> Get(run.medium) == Some(s))
  {
    var steps := SetSteps(m, pageWords, s);
    var n := Taken(fuel, |steps|);
    SetIsDisciplined(m, pageWords, s);
    ExecuteDisciplined(m, fuel, steps);
    CrashAtomic(m, pageWords, s, n);
    assert steps[..|steps|] == steps;
  }

  /** A call succeeds exactly when the power lasts for its steps, and then it is as if power had stayed on. */
  lemma {:induction false} EnoughPower(m: Medium, pageWords: nat, fuel: Option<nat>, s: State)
    requires Sane(m) && Paged(m, pageWords)
    ensures var run, bytes := Set(m, pageWords, fuel, s), |SetSteps(m, pageWords, s)|;
            && (run.result.Ok? <==> fuel.None? || fuel.value >= bytes)
            && (run.result.Ok? ==> run.medium == Set(m, pageWords, None, s).medium)
            && (run.result.Ok? ==> run.fuel == if fuel.Some? then Some(fuel.value - bytes) else None)
  {
    SetIsDisciplined(m, pageWords, s);
    ExecuteDisciplined(m, fuel, SetSteps(m, pageWords, s));
    ExecuteDisciplined(m, None, SetSteps(m, pageWords, s));
    SetIsAtomic(m, pageWords, fuel, s);
  }

  /** Storing the state that is already there touches nothing; anything else touches the flash. */
  lemma {:induction false} SetAgain(m: Medium, pageWords: nat, fuel: Option<nat>, s: State)
    requires Sane(m) && Paged(m, pageWords)
    ensures Get(m) == Some(s) ==> Set(m, pageWords, fuel, s) == SetRun(m, fuel, Ok(()))
    ensures Set(m, pageWords, Some(0), s).result.Ok? <==> Get(m) == Some(s)
  {
    SetIsAtomic(m, pageWords, Some(0), s);
    CrashAtomic(m, pageWords, s, 0);
  }

  /**
   At every byte of a call a byte is programmed only while it reads 0xFF and a word only once after an
   erase, and wherever the call is cut, a word that reads FF FF can still be programmed.
   */
  lemma {:induction false} EveryStepIsPermitted(m: Medium, pageWords: nat, s: State, k: nat)
    requires Sane(m) && Paged(m, pageWords) && k < |SetSteps(m, pageWords, s)|
    ensures var steps := SetSteps(m, pageWords, s);
            Permitted(After(m, steps[..k]), steps[k]) && Sane(After(m, steps[..k]))
  {
    SetIsDisciplined(m, pageWords, s);
    DisciplinedAt(m, SetSteps(m, pageWords, s), k);
    CrashAtomic(m, pageWords, s, k);
  }

  /**
   Why the journal must be opened again after a cut: the steps of an append, which a journal with a stale
   cache would repeat, go through a second time exactly when the cut came before their first byte.
   */
  lemma {:induction false} RepeatingAnAppend(m: Medium, pageWords: nat, s: State, k: nat)
    requires Sane(m) && Paged(m, pageWords) && Scan(m).firstEmptySlot.Some? && Get(m) != Some(s)
    requires k <= |SetSteps(m, pageWords, s)|
    ensures var steps := SetSteps(m, pageWords, s);
            Execute(After(m, steps[..k]), None, steps).result.Ok? <==> k == 0
  {
    var steps := SetSteps(m, pageWords, s);
    var w := Scan(m).firstEmptySlot.value / 2;
    ScanIsCache(m);
    SetIsDisciplined(m, pageWords, s);
    TornRecordIsPrefix(m, w, s, k);
    if k == 0 {
      ExecuteDisciplined(m, None, steps);
    }
  }

  // ---------- The medium after a completed call ----------

  /** A completed roll-over leaves the new record in word 0 and every other word blank. */
  lemma {:induction false} RollOverLeavesOne(m: Medium, pageWords: nat, s: State)
    requires Paged(m, pageWords)
    ensures RecordThenBlank(TornRollOver(m, pageWords, s, 2 * |m| + 2), 0, s)
  {
    var front := TornRewrite(m, 0, pageWords, s, 2 * pageWords + 2);
    var done := TornErase(front, pageWords, 2 * |m| - 2 * pageWords);
    assert done[0] == RecordCell(s);
    assert forall i :: 0 < i < |m| ==> done[i] == BLANK;
  }

  /** A completed rewrite from a word on keeps the words before it. */
  lemma {:induction false} RewriteLeavesOne(m: Medium, lo: nat, s: State)
    requires lo < |m|
    ensures var done := TornRewrite(m, lo, |m|, s, 2 * (|m| - lo) + 2);
            done[..lo] == m[..lo] && RecordThenBlank(done, lo, s)
  {
  }

  lemma {:induction false} AppendLeaves(m: Medium, w: nat, s: State)
    requires w < |m| && m[w] == BLANK
    ensures After(m, WriteSteps(2 * w, RecordBytes(s))) == m[w := RecordCell(s)]
  {
    var steps := WriteSteps(2 * w, RecordBytes(s));
    assert steps[..2] == steps;
    TornRecordIsPrefix(m, w, s, 2);
  }

  lemma {:induction false} RewriteLeaves(m: Medium, lo: nat, s: State)
    requires lo < |m|
    ensures var m' := After(m, RewriteSteps(lo, |m|, s));
            m'[..lo] == m[..lo] && RecordThenBlank(m', lo, s)
  {
    var steps := RewriteSteps(lo, |m|, s);
    assert steps[..|steps|] == steps;
    TornRewriteIsPrefix(m, lo, |m|, s, |steps|);
    RewriteLeavesOne(m, lo, s);
  }

  lemma {:induction false} RollOverLeaves(m: Medium, pageWords: nat, s: State)
    requires Paged(m, pageWords)
    ensures RecordThenBlank(After(m, RollOverSteps(|m|, pageWords, s)), 0, s)
  {
    var steps := RollOverSteps(|m|, pageWords, s);
    assert steps[..|steps|] == steps;
    TornRollOverIsPrefix(m, pageWords, s, |steps|);
    RollOverLeavesOne(m, pageWords, s);
  }

  lemma {:induction false} StepsLeave(m: Medium, pageWords: nat, c: Cache, s: State)
    requires Sane(m) && Paged(m, pageWords) && IsCache(m, c)
    ensures Leaves(m, pageWords, c, s, After(m, SetSteps(m, pageWords, s)))
  {
    ScanIsCache(m);
    CacheIsUnique(m, c, Scan(m));
    hide After, Scan;
    if c.Get() == Some(s) {
      AfterNothing(m);
    } else if c.firstEmptySlot.Some? {
      AppendLeaves(m, c.firstEmptySlot.value / 2, s);
    } else if c.lastValidState.None? {
      RewriteLeaves(m, 0, s);
    } else if c.lastValidState.value.address < 2 * pageWords {
      RewriteLeaves(m, pageWords, s);
    } else {
      RollOverIsSet(m, pageWords, s);
      RollOverLeaves(m, pageWords, s);
    }
  }

  /**
   The medium after a call with power on, on any contents: an append changes one word; a call that finds no empty
   word behind a latest record in the first page keeps that page, writes to the first word behind it and clears
   what follows; every other call leaves the record in word 0 and all other words blank.
   */
  lemma {:induction false} CompletedSet(m: Medium, pageWords: nat, c: Cache, s: State)
    requires Sane(m) && Paged(m, pageWords) && IsCache(m, c)
    ensures var run := Set(m, pageWords, None, s);
            run.result == Ok(()) && Leaves(m, pageWords, c, s, run.medium)
  {
    SetIsDisciplined(m, pageWords, s);
    ExecuteDisciplined(m, None, SetSteps(m, pageWords, s));
    SetIsAtomic(m, pageWords, None, s);
    StepsLeave(m, pageWords, c, s);
  }

  // ---------- Runs: the journal refines a register ----------

  /** A call on a freshly opened journal, with the number of bytes after which power is cut, if it is. */
  datatype Call = Call(state: State, fuel: Option<nat>)

  function RunCalls(m: Medium, pageWords: nat, calls: seq<Call>): (m': Medium)
    requires Paged(m, pageWords)
    ensures |m'| == |m|
    decreases |calls|
  {
    if calls == [] then m
    else
      var before := RunCalls(m, pageWords, calls[..|calls| - 1]);
      var call := calls[|calls| - 1];
      Set(before, pageWords, call.fuel, call.state).medium
  }

  predicate Acknowledged(m: Medium, pageWords: nat, calls: seq<Call>, i: nat)
    requires Paged(m, pageWords) && i < |calls|
  {
    Set(RunCalls(m, pageWords, calls[..i]), pageWords, calls[i].fuel, calls[i].state).result.Ok?
  }

  /** What a journal shows that is opened before the first call and after each call. */
  function Shown(m: Medium, pageWords: nat, calls: seq<Call>): seq<Option<State>>
    requires Paged(m, pageWords)
  {
    seq(|calls| + 1, i requires 0 <= i <= |calls| => Get(RunCalls(m, pageWords, calls[..i])))
  }

  /**
   The traces of a register with atomic writes: a write that was acknowledged took effect, and one
   that was interrupted either took effect completely or not at all.
   */
  ghost predicate IsRegisterTrace(shown: seq<Option<State>>, writes: seq<State>, acknowledged: seq<bool>)
  {
    && |shown| == |writes| + 1 == |acknowledged| + 1
    && forall i :: 0 <= i < |writes| ==>
         shown[i + 1] == Some(writes[i]) || (!acknowledged[i] && shown[i + 1] == shown[i])
  }

  /** Every run of calls, cut wherever power was lost, is a trace of an atomic register. */
  lemma {:induction false} RunsRefineRegister(m: Medium, pageWords: nat, calls: seq<Call>)
    requires Sane(m) && Paged(m, pageWords)
    ensures Sane(RunCalls(m, pageWords, calls))
    ensures IsRegisterTrace(
              Shown(m, pageWords, calls),
              seq(|calls|, i requires 0 <= i < |calls| => calls[i].state),
              seq(|calls|, i requires 0 <= i < |calls| => Acknowledged(m, pageWords, calls, i)))
  {
    hide RunCalls, Set, Get;
    var shown := Shown(m, pageWords, calls);
    RunsStaySane(m, pageWords, calls);
    forall i | 0 <= i < |calls|
      ensures shown[i + 1] == Some(calls[i].state) || (!Acknowledged(m, pageWords, calls, i) && shown[i + 1] == shown[i])
    {
      RunOneMore(m, pageWords, calls, i);
    }
  }

  lemma {:induction false} RunsStaySane(m: Medium, pageWords: nat, calls: seq<Call>)
    requires Sane(m) && Paged(m, pageWords)
    ensures Sane(RunCalls(m, pageWords, calls))
    decreases |calls|
  {
    if calls != [] {
      var n := |calls| - 1;
      RunsStaySane(m, pageWords, calls[..n]);
      SetIsAtomic(RunCalls(m, pageWords, calls[..n]), pageWords, calls[n].fuel, calls[n].state);
    }
  }

  /** What the last call of a run does to what the journal shows. */
  lemma {:induction false} LastCall(m: Medium, pageWords: nat, calls: seq<Call>)
    requires Sane(m) && Paged(m, pageWords) && calls != []
    ensures var n := |calls| - 1;
            var before := Get(RunCalls(m, pageWords, calls[..n]));
            var after := Get(RunCalls(m, pageWords, calls));
            && (after == before || after == Some(calls[n].state))
            && (Acknowledged(m, pageWords, calls, n) ==> after == Some(calls[n].state))
  {
    var n := |calls| - 1;
    RunsStaySane(m, pageWords, calls[..n]);
    SetIsAtomic(RunCalls(m, pageWords, calls[..n]), pageWords, calls[n].fuel, calls[n].state);
  }

  lemma {:induction false} RunOneMore(m: Medium, pageWords: nat, calls: seq<Call>, i: nat)
    requires Sane(m) && Paged(m, pageWords) && i < |calls|
    ensures var before := Get(RunCalls(m, pageWords, calls[..i]));
            var after := Get(RunCalls(m, pageWords, calls[..i + 1]));
            after == Some(calls[i].state) || (!Acknowledged(m, pageWords, calls, i) && after == before)
  {
    assert calls[..i + 1][..i] == calls[..i];
    LastCall(m, pageWords, calls[..i + 1]);
  }

  /** The states of the calls that were made from position i on. */
  function StatesFrom(calls: seq<Call>, i: nat): set<Option<State>>
    requires i <= |calls|
  {
    set k | i <= k < |calls| :: Some(calls[k].state)
  }

  /**
   An acknowledged state is never lost: after call i was acknowledged, whatever cuts follow, the
   journal shows its state or one that was asked for later. Nothing older comes back.
   */
  lemma {:induction false} AcknowledgedIsDurable(m: Medium, pageWords: nat, calls: seq<Call>, i: nat)
    requires Sane(m) && Paged(m, pageWords)
    requires i < |calls| && Acknowledged(m, pageWords, calls, i)
    ensures Get(RunCalls(m, pageWords, calls)) in StatesFrom(calls, i)
    decreases |calls|
  {
    hide RunCalls, Set, Get;
    var n := |calls| - 1;
    LastCall(m, pageWords, calls);
    assert Some(calls[n].state) in StatesFrom(calls, i);
    if i < n {
      var earlier := calls[..n];
      assert earlier[..i] == calls[..i];
      AcknowledgedIsDurable(m, pageWords, earlier, i);
      assert StatesFrom(earlier, i) <= StatesFrom(calls, i);
    }
  }

  /** Retrying one state through any number of cuts switches from the old state to it at most once. */
  lemma {:induction false} RetriesSwitchOnce(m: Medium, pageWords: nat, calls: seq<Call>, s: State, i: nat)
    requires Sane(m) && Paged(m, pageWords) && i <= |calls|
    requires forall k :: 0 <= k < |calls| ==> calls[k].state == s
    ensures Get(RunCalls(m, pageWords, calls)) in {Get(m), Some(s)}
    ensures Get(RunCalls(m, pageWords, calls[..i])) == Some(s) ==> Get(RunCalls(m, pageWords, calls)) == Some(s)
    decreases |calls|
  {
    if i == |calls| {
      assert calls[..i] == calls;
    }
    if calls != [] {
      var n := |calls| - 1;
      LastCall(m, pageWords, calls);
      if i <= n {
        assert calls[..n][..i] == calls[..i];
        RetriesSwitchOnce(m, pageWords, calls[..n], s, i);
      } else {
        RetriesSwitchOnce(m, pageWords, calls[..n], s, n);
      }
    }
  }
}
