/**
 Wear: from any contents the journal first fills the empty words behind the latest record without erasing
 anything, and from then on takes the words in ring order and erases every byte once a round.
 */
module Wear {
  import opened Wrappers
  import opened BootState
  import opened NorFlash
  import opened JournalSpec
  import opened CrashAtomicity
  import opened JournalRuns
  import opened Arithmetic

  /** How often a byte is erased by some steps. */
  function Erasures(steps: seq<ByteStep>, address: nat): nat
    decreases |steps|
  {
    if steps == [] then 0
    else Erasures(steps[..|steps| - 1], address) + (if steps[|steps| - 1] == EraseByte(address) then 1 else 0)
  }

  lemma {:induction false} ErasuresConcat(s: seq<ByteStep>, t: seq<ByteStep>, address: nat)
    ensures Erasures(s + t, address) == Erasures(s, address) + Erasures(t, address)
    decreases |t|
  {
    if t == [] {
      assert s + t == s;
    } else {
      var n := |t| - 1;
      assert (s + t)[..|s + t| - 1] == s + t[..n];
      ErasuresConcat(s, t[..n], address);
    }
  }

  lemma {:induction false} ErasuresOfErase(from: nat, end: nat, address: nat)
    requires from <= end
    ensures Erasures(EraseSteps(from, end), address) == (if from <= address < end then 1 else 0)
    decreases end
  {
    if from < end {
      assert EraseSteps(from, end)[..end - from - 1] == EraseSteps(from, end - 1);
      ErasuresOfErase(from, end - 1, address);
    }
  }

  lemma {:induction false} ErasuresOfWrite(offset: nat, s: State, address: nat)
    ensures Erasures(WriteSteps(offset, RecordBytes(s)), address) == 0
  {
    var steps := WriteSteps(offset, RecordBytes(s));
    var first := ProgramByte(offset, s.data);
    assert steps[..1] == [first] && steps[..1][..0] == [];
    assert Erasures([first], address) == 0;
  }

  lemma {:induction false} ErasuresOfRewrite(from: nat, end: nat, s: State, address: nat)
    requires from <= end
    ensures Erasures(EraseSteps(from, end) + WriteSteps(from, RecordBytes(s)), address) == (if from <= address < end then 1 else 0)
  {
    ErasuresConcat(EraseSteps(from, end), WriteSteps(from, RecordBytes(s)), address);
    ErasuresOfErase(from, end, address);
    ErasuresOfWrite(from, s, address);
  }

  lemma {:induction false} ErasuresOfRollOver(words: nat, pageWords: nat, s: State, address: nat)
    requires pageWords <= words && address < 2 * words
    ensures Erasures(RollOverSteps(words, pageWords, s), address) == 1
  {
    var front, tail := RewriteSteps(0, pageWords, s), EraseSteps(2 * pageWords, 2 * words);
    ErasuresConcat(front, tail, address);
    ErasuresOfRewrite(0, 2 * pageWords, s, address);
    ErasuresOfErase(2 * pageWords, 2 * words, address);
  }

  /** What a single call erases: nothing, all pages but the first, or everything. */
  lemma {:induction false} ErasuresOfSet(m: Medium, pageWords: nat, s: State, address: nat)
    requires Paged(m, pageWords) && address < 2 * |m|
    ensures var c := Scan(m);
            Erasures(SetSteps(m, pageWords, s), address) ==
            if c.Get() == Some(s) || c.firstEmptySlot.Some? then 0
            else if c.lastValidState.Some? && c.lastValidState.value.address < 2 * pageWords && address < 2 * pageWords then 0
            else 1
  {
    hide Erasures, Scan, WriteSteps, EraseSteps;
    var c := Scan(m);
    if c.Get() == Some(s) {
      ErasuresOfNothing(address);
    } else if c.firstEmptySlot.Some? {
      ErasuresOfWrite(c.firstEmptySlot.value, s, address);
    } else if c.lastValidState.None? {
      ErasuresOfRewrite(0, 2 * |m|, s, address);
    } else if c.lastValidState.value.address < 2 * pageWords {
      ErasuresOfRewrite(2 * pageWords, 2 * |m|, s, address);
    } else {
      RollOverIsSet(m, pageWords, s);
      ErasuresOfRollOver(|m|, pageWords, s, address);
    }
  }

  lemma {:induction false} ErasuresOfNothing(address: nat)
    ensures Erasures([], address) == 0
  {
  }

  // ---------- Runs with power on ----------

  /** A medium after calls that were not interrupted. */
  function Stored(m: Medium, pageWords: nat, states: seq<State>): (m': Medium)
    requires Paged(m, pageWords)
    ensures |m'| == |m|
    decreases |states|
  {
    if states == [] then m
    else Set(Stored(m, pageWords, states[..|states| - 1]), pageWords, None, states[|states| - 1]).medium
  }

  /** The steps of these calls, one after the other. */
  function Log(m: Medium, pageWords: nat, states: seq<State>): seq<ByteStep>
    requires Paged(m, pageWords)
    decreases |states|
  {
    if states == [] then []
    else
      var earlier := states[..|states| - 1];
      Log(m, pageWords, earlier) + SetSteps(Stored(m, pageWords, earlier), pageWords, states[|states| - 1])
  }

  function LogErasures(m: Medium, pageWords: nat, states: seq<State>, address: nat): nat
    requires Paged(m, pageWords)
  {
    Erasures(Log(m, pageWords, states), address)
  }

  lemma {:induction false} NoCalls(m: Medium, pageWords: nat, address: nat)
    requires Paged(m, pageWords)
    ensures Stored(m, pageWords, []) == m && LogErasures(m, pageWords, [], address) == 0
  {
  }

  lemma {:induction false} OneMore(m: Medium, pageWords: nat, earlier: seq<State>, s: State, address: nat)
    requires Paged(m, pageWords)
    ensures var before := Stored(m, pageWords, earlier);
            && Stored(m, pageWords, earlier + [s]) == Set(before, pageWords, None, s).medium
            && LogErasures(m, pageWords, earlier + [s], address) ==
               LogErasures(m, pageWords, earlier, address) + Erasures(SetSteps(before, pageWords, s), address)
  {
    var states := earlier + [s];
    assert states[..|states| - 1] == earlier;
    ErasuresConcat(Log(m, pageWords, earlier), SetSteps(Stored(m, pageWords, earlier), pageWords, s), address);
  }

  lemma {:induction false} TwoParts(m: Medium, pageWords: nat, s: seq<State>, t: seq<State>, address: nat)
    requires Paged(m, pageWords)
    ensures var before := Stored(m, pageWords, s);
            && Stored(m, pageWords, s + t) == Stored(before, pageWords, t)
            && LogErasures(m, pageWords, s + t, address) ==
               LogErasures(m, pageWords, s, address) + LogErasures(before, pageWords, t, address)
    decreases |t|
  {
    hide Stored, LogErasures;
    var before := Stored(m, pageWords, s);
    if t == [] {
      assert s + t == s;
      NoCalls(before, pageWords, address);
    } else {
      var n := |t| - 1;
      assert s + t == (s + t[..n]) + [t[n]] && t == t[..n] + [t[n]];
      TwoParts(m, pageWords, s, t[..n], address);
      OneMore(m, pageWords, s + t[..n], t[n], address);
      OneMore(before, pageWords, t[..n], t[n], address);
    }
  }

  /** What is stored before a call. */
  function Before(latest: Option<State>, states: seq<State>, i: nat): Option<State>
    requires i <= |states|
  {
    if i == 0 then latest else Some(states[i - 1])
  }

  /** Every call asks for a state that differs from the one before. */
  ghost predicate Changing(latest: Option<State>, states: seq<State>)
  {
    forall i :: 0 <= i < |states| ==> Before(latest, states, i) != Some(states[i])
  }

  lemma {:induction false} ChangingParts(latest: Option<State>, states: seq<State>, k: nat)
    requires Changing(latest, states) && k <= |states|
    ensures Changing(latest, states[..k]) && Changing(Before(latest, states, k), states[k..])
    ensures k < |states| ==> Before(latest, states, k) != Some(states[k])
  {
    forall i | 0 <= i < k
      ensures Before(latest, states[..k], i) != Some(states[..k][i])
    {
      assert Before(latest, states, i) != Some(states[i]);
    }
    forall i | 0 <= i < |states| - k
      ensures Before(Before(latest, states, k), states[k..], i) != Some(states[k..][i])
    {
      assert Before(latest, states, k + i) != Some(states[k + i]);
    }
  }

  // ---------- Filling the empty words ----------

  /** The number of empty words from a word on. */
  function EmptyFrom(m: Medium, from: nat): nat
    decreases |m| - from
  {
    if from >= |m| then 0 else (if Parse(m[from]).Unset? then 1 else 0) + EmptyFrom(m, from + 1)
  }

  /** The number of empty words behind the latest record. */
  function EmptyBehind(m: Medium): nat
  {
    EmptyFrom(m, SearchStart(Scan(m)))
  }

  /** A word that is empty or holds a record; all others are garbage. */
  predicate Usable(m: Medium, i: nat)
  {
    i < |m| && !Parse(m[i]).Invalid?
  }

  lemma {:induction false} NoEmptyBefore(m: Medium, from: nat, end: nat)
    requires from <= end <= |m| && forall j :: from <= j < end ==> !Parse(m[j]).Unset?
    ensures EmptyFrom(m, from) == EmptyFrom(m, end)
    decreases end - from
  {
    if from < end {
      NoEmptyBefore(m, from + 1, end);
    }
  }

  lemma {:induction false} SameTail(m: Medium, m': Medium, from: nat)
    requires |m| == |m'| && forall j :: from <= j < |m| ==> m[j] == m'[j]
    ensures EmptyFrom(m, from) == EmptyFrom(m', from)
    decreases |m| - from
  {
    if from < |m| {
      SameTail(m, m', from + 1);
    }
  }

  /** There is an empty slot exactly when some word behind the latest record is empty. */
  lemma {:induction false} EmptySlot(m: Medium)
    ensures EmptyBehind(m) == 0 <==> Scan(m).firstEmptySlot.None?
    ensures var c := Scan(m);
            c.firstEmptySlot.Some? ==>
              c.firstEmptySlot.value / 2 < |m| && EmptyBehind(m) == 1 + EmptyFrom(m, c.firstEmptySlot.value / 2 + 1)
  {
    ScanIsCache(m);
    var c := Scan(m);
    NoEmptyBefore(m, SearchStart(c), if c.firstEmptySlot.Some? then c.firstEmptySlot.value / 2 else |m|);
  }

  /** A record in the first empty word becomes the latest one, and the other words are as they were. */
  lemma {:induction false} Appended(m: Medium, s: State)
    requires Scan(m).firstEmptySlot.Some?
    ensures var w := Scan(m).firstEmptySlot.value / 2;
            && w < |m|
            && var m' := m[w := RecordCell(s)];
            && Scan(m').lastValidState == Some(StateWithAddr(s, 2 * w))
            && (forall j :: 0 <= j < |m| ==> (Usable(m', j) <==> Usable(m, j)))
  {
    ScanIsCache(m);
    TornWords(s, 0);
    var w := Scan(m).firstEmptySlot.value / 2;
    var m' := m[w := RecordCell(s)];
    assert forall j: nat :: j != w ==> (HoldsRecord(m', j) <==> HoldsRecord(m, j));
    LatestRecord(m', w);
  }

  /** One call while there are empty words: the first of them is used up, and nothing is erased. */
  lemma {:induction false} FillStep(m: Medium, pageWords: nat, s: State, address: nat)
    requires Sane(m) && Paged(m, pageWords) && address < 2 * |m|
    requires Get(m) != Some(s) && EmptyBehind(m) > 0
    ensures var m' := Set(m, pageWords, None, s).medium;
            var w := SearchStart(Scan(m')) - 1;
            && Sane(m') && Get(m') == Some(s) && SearchStart(Scan(m)) <= w < |m|
            && EmptyBehind(m') == EmptyBehind(m) - 1
            && EmptyFrom(m, w + 1) == EmptyBehind(m')
            && Parse(m[w]).Unset?
            && (forall j :: 0 <= j < |m| && j != w ==> m'[j] == m[j])
            && (forall j :: 0 <= j < |m| ==> (Usable(m', j) <==> Usable(m, j)))
            && Erasures(SetSteps(m, pageWords, s), address) == 0
  {
    hide Set, SetSteps, Erasures, Usable, EmptyFrom, Scan, Parse;
    var c := Scan(m);
    ScanIsCache(m);
    EmptySlot(m);
    SetIsAtomic(m, pageWords, None, s);
    CompletedSet(m, pageWords, c, s);
    ErasuresOfSet(m, pageWords, s, address);
    Appended(m, s);
    var w := c.firstEmptySlot.value / 2;
    SameTail(m, m[w := RecordCell(s)], w + 1);
  }

  /** The n-th empty word behind the latest record, counted from one. */
  predicate IsNthEmpty(m: Medium, n: nat, w: nat)
  {
    && SearchStart(Scan(m)) <= w < |m|
    && Parse(m[w]).Unset?
    && EmptyFrom(m, w + 1) + n == EmptyBehind(m)
  }

  /** While there are empty words, the n-th call fills the n-th of them, and nothing is erased. */
  lemma {:induction false} Fill(m: Medium, pageWords: nat, states: seq<State>, address: nat)
    requires Sane(m) && Paged(m, pageWords) && address < 2 * |m|
    requires Changing(Get(m), states) && |states| <= EmptyBehind(m)
    ensures var m' := Stored(m, pageWords, states);
            var start := SearchStart(Scan(m'));
            && Sane(m') && Get(m') == Before(Get(m), states, |states|)
            && EmptyBehind(m') == EmptyBehind(m) - |states|
            && (forall j :: 0 <= j < |m| ==> (Usable(m', j) <==> Usable(m, j)))
            && (forall j :: start <= j < |m| ==> m'[j] == m[j])
            && SearchStart(Scan(m)) <= start
            && (states != [] ==> start > 0 && IsNthEmpty(m, |states|, start - 1))
            && LogErasures(m, pageWords, states, address) == 0
    decreases |states|
  {
    hide Stored, LogErasures, Get, Scan, Set, SetSteps, Erasures, Usable, Parse, SearchStart;
    if states == [] {
      NoCalls(m, pageWords, address);
    } else {
      var n := |states| - 1;
      var earlier, s := states[..n], states[n];
      assert states == earlier + [s];
      ChangingParts(Get(m), states, n);
      Fill(m, pageWords, earlier, address);
      var before := Stored(m, pageWords, earlier);
      OneMore(m, pageWords, earlier, s, address);
      FillStep(before, pageWords, s, address);
      var w := SearchStart(Scan(Stored(m, pageWords, states))) - 1;
      SameTail(m, before, w + 1);
    }
  }

  // ---------- Rounds ----------

  /** The latest record is at a word, and every word behind it is blank. */
  ghost predicate Open(m: Medium, newest: nat, s: State)
  {
    && newest < |m|
    && Parse(m[newest]) == Parsed(s)
    && forall j :: newest < j < |m| ==> m[j] == BLANK
  }

  lemma {:induction false} OpenScan(m: Medium, newest: nat, s: State)
    requires Open(m, newest, s)
    ensures Scan(m) == Cache(Some(StateWithAddr(s, 2 * newest)), if newest + 1 < |m| then Some(2 * newest + 2) else None)
  {
    ScanIsCache(m);
    TornWords(s, 0);
    CacheIsUnique(m, Scan(m),
                  Cache(Some(StateWithAddr(s, 2 * newest)), if newest + 1 < |m| then Some(2 * newest + 2) else None));
  }

  lemma {:induction false} RecordIsOpen(m: Medium, w: nat, s: State)
    requires RecordThenBlank(m, w, s)
    ensures Open(m, w, s)
  {
    TornWords(s, 0);
  }

  /** One more changing call: the next word, or the first word of the next round. */
  lemma {:induction false} RingStep(m: Medium, pageWords: nat, newest: nat, s: State, s': State, address: nat)
    requires Sane(m) && Paged(m, pageWords) && address < 2 * |m|
    requires Open(m, newest, s) && s' != s
    ensures var m' := Set(m, pageWords, None, s').medium;
            var last := newest + 1 == |m|;
            && Sane(m') && Open(m', if last then 0 else newest + 1, s')
            && Erasures(SetSteps(m, pageWords, s'), address) == (if last then 1 else 0)
  {
    hide Set, SetSteps, Erasures, Scan, TryNew;
    OpenScan(m, newest, s);
    ScanIsCache(m);
    SetIsAtomic(m, pageWords, None, s');
    CompletedSet(m, pageWords, Scan(m), s');
    ErasuresOfSet(m, pageWords, s', address);
    var m' := Set(m, pageWords, None, s').medium;
    RecordIsOpen(m', if newest + 1 == |m| then 0 else newest + 1, s');
  }

  /** Ring position and wear after some more calls. */
  lemma {:induction false} Rounds(m: Medium, pageWords: nat, newest: nat, s: State, states: seq<State>, address: nat)
    returns (round: nat, at: nat)
    requires Sane(m) && Paged(m, pageWords) && address < 2 * |m|
    requires Open(m, newest, s) && Changing(Some(s), states)
    ensures at < |m| && newest + |states| == round * |m| + at
    ensures Sane(Stored(m, pageWords, states))
    ensures Open(Stored(m, pageWords, states), at, Before(Some(s), states, |states|).value)
    ensures LogErasures(m, pageWords, states, address) == round
    decreases |states|
  {
    hide Stored, LogErasures, Open, Set, SetSteps, Erasures;
    if states == [] {
      NoCalls(m, pageWords, address);
      OpenInside(m, newest, s);
      round, at := 0, newest;
    } else {
      var n := |states| - 1;
      var earlier := states[..n];
      assert states == earlier + [states[n]];
      ChangingParts(Some(s), states, n);
      var r, i := Rounds(m, pageWords, newest, s, earlier, address);
      OneMore(m, pageWords, earlier, states[n], address);
      RingStep(Stored(m, pageWords, earlier), pageWords, i, Before(Some(s), states, n).value, states[n], address);
      NextMultiple(r, |m|);
      round := if i + 1 == |m| then r + 1 else r;
      at := if i + 1 == |m| then 0 else i + 1;
    }
  }

  lemma {:induction false} OpenInside(m: Medium, newest: nat, s: State)
    requires Open(m, newest, s)
    ensures newest < |m|
  {
  }

  /**
   Wear from a medium whose latest record has nothing but blank words behind it, as every call leaves it that
   does not append: position and erase count follow from the number of calls alone.
   */
  lemma {:induction false} WearOfRounds(m: Medium, pageWords: nat, newest: nat, s: State, states: seq<State>, address: nat)
    requires Sane(m) && Paged(m, pageWords) && address < 2 * |m|
    requires Open(m, newest, s) && Changing(Some(s), states)
    ensures var total := newest + |states|;
            && Scan(Stored(m, pageWords, states)).lastValidState ==
               Some(StateWithAddr(Before(Some(s), states, |states|).value, 2 * (total % |m|)))
            && LogErasures(m, pageWords, states, address) == total / |m|
  {
    hide Stored, LogErasures, Scan;
    var round, at := Rounds(m, pageWords, newest, s, states, address);
    OpenScan(Stored(m, pageWords, states), at, Before(Some(s), states, |states|).value);
    Division(newest + |states|, |m|, round, at);
  }

  // ---------- Main results ----------

  /** Everything that is not garbage is in the first page, and there is something. */
  ghost predicate OnlyFirstPage(m: Medium, pageWords: nat)
  {
    && (exists j :: 0 <= j < |m| && Usable(m, j))
    && forall j :: pageWords <= j < |m| ==> !Usable(m, j)
  }

  /** The word with which the first round begins: its first page is spared when it holds the latest record. */
  ghost function FirstWord(m: Medium, pageWords: nat): nat
  {
    if OnlyFirstPage(m, pageWords) then pageWords else 0
  }

  /** With no empty word left, the latest record is the last word that is not garbage. */
  lemma {:induction false} FullMedium(m: Medium, pageWords: nat)
    requires Paged(m, pageWords) && EmptyBehind(m) == 0
    ensures var c := Scan(m);
            && c.firstEmptySlot.None?
            && (OnlyFirstPage(m, pageWords) <==> c.lastValidState.Some? && c.lastValidState.value.address < 2 * pageWords)
  {
    ScanIsCache(m);
    EmptySlot(m);
    var c := Scan(m);
    assert forall j :: SearchStart(c) <= j < |m| ==> !HoldsRecord(m, j) && !Parse(m[j]).Unset?;
    if c.lastValidState.Some? {
      assert Usable(m, c.lastValidState.value.address / 2);
    }
  }

  /** The call that begins the first round. */
  lemma {:induction false} FirstRound(m: Medium, pageWords: nat, s: State, address: nat)
    requires Sane(m) && Paged(m, pageWords) && address < 2 * |m|
    requires Get(m) != Some(s) && EmptyBehind(m) == 0
    ensures var m' := Set(m, pageWords, None, s).medium;
            var first := FirstWord(m, pageWords);
            && Sane(m') && Open(m', first, s)
            && Erasures(SetSteps(m, pageWords, s), address) == (if first == 0 || address >= 2 * pageWords then 1 else 0)
  {
    hide Set, SetSteps, Erasures, Scan, EmptyBehind, OnlyFirstPage, Open;
    ScanIsCache(m);
    FullMedium(m, pageWords);
    SetIsAtomic(m, pageWords, None, s);
    CompletedSet(m, pageWords, Scan(m), s);
    ErasuresOfSet(m, pageWords, s, address);
    RecordIsOpen(Set(m, pageWords, None, s).medium, FirstWord(m, pageWords), s);
  }

  lemma {:induction false} SameFirstWord(m: Medium, m': Medium, pageWords: nat)
    requires |m| == |m'| && forall j :: 0 <= j < |m| ==> (Usable(m', j) <==> Usable(m, j))
    ensures FirstWord(m', pageWords) == FirstWord(m, pageWords)
  {
  }

  /** The latest record when the words were taken in ring order, `total` words after word 0. */
  predicate AtRound(latest: Option<StateWithAddr>, s: State, words: nat, total: nat)
  {
    words > 0 && latest == Some(StateWithAddr(s, 2 * (total % words)))
  }

  /** How often a byte is erased in all rounds, the first of which may have spared the first page. */
  function RoundErasures(words: nat, pageWords: nat, total: nat, first: nat, address: nat): nat
    requires words > 0
  {
    total / words + (if first == 0 || address >= 2 * pageWords then 1 else 0)
  }

  /** The calls after the empty words are used up. */
  lemma {:induction false} WearOfFull(m: Medium, pageWords: nat, states: seq<State>, address: nat, total: nat)
    requires Sane(m) && Paged(m, pageWords) && address < 2 * |m|
    requires Changing(Get(m), states) && states != [] && EmptyBehind(m) == 0
    requires total + 1 == FirstWord(m, pageWords) + |states|
    ensures AtRound(Scan(Stored(m, pageWords, states)).lastValidState, states[|states| - 1], |m|, total)
    ensures LogErasures(m, pageWords, states, address) == RoundErasures(|m|, pageWords, total, FirstWord(m, pageWords), address)
  {
    hide Stored, LogErasures, Scan, Get, Set, SetSteps, Erasures, EmptyBehind, OnlyFirstPage, Open, FirstWord;
    var s, rest := states[0], states[1..];
    assert states == [s] + rest && [] + [s] == [s];
    ChangingParts(Get(m), states, 0);
    ChangingParts(Get(m), states, 1);
    FirstRound(m, pageWords, s, address);
    NoCalls(m, pageWords, address);
    OneMore(m, pageWords, [], s, address);
    TwoParts(m, pageWords, [s], rest, address);
    WearOfRounds(Stored(m, pageWords, [s]), pageWords, FirstWord(m, pageWords), s, rest, address);
  }

  /** The calls that still find an empty word. */
  lemma {:induction false} WearOfFilling(m: Medium, pageWords: nat, states: seq<State>, address: nat)
    requires Sane(m) && Paged(m, pageWords) && address < 2 * |m|
    requires states != [] && Changing(Get(m), states) && |states| <= EmptyBehind(m)
    ensures var latest := Scan(Stored(m, pageWords, states)).lastValidState;
            && latest.Some? && latest.value.state == states[|states| - 1]
            && latest.value.address % 2 == 0
            && IsNthEmpty(m, |states|, latest.value.address / 2)
            && LogErasures(m, pageWords, states, address) == 0
  {
    hide Stored, LogErasures, EmptyBehind, Scan, IsNthEmpty;
    Fill(m, pageWords, states, address);
    ScanIsCache(Stored(m, pageWords, states));
  }

  /** What is left when the empty words are used up. */
  lemma {:induction false} FillAll(m: Medium, pageWords: nat, states: seq<State>, address: nat)
    requires Sane(m) && Paged(m, pageWords) && address < 2 * |m|
    requires Changing(Get(m), states) && |states| >= EmptyBehind(m)
    ensures var e := EmptyBehind(m);
            var full := Stored(m, pageWords, states[..e]);
            && Sane(full) && Get(full) == Before(Get(m), states, e) && EmptyBehind(full) == 0
            && FirstWord(full, pageWords) == FirstWord(m, pageWords)
            && LogErasures(m, pageWords, states[..e], address) == 0
  {
    hide Stored, LogErasures, EmptyBehind, OnlyFirstPage, FirstWord, Scan, Get, Usable, IsNthEmpty, EmptyFrom, SearchStart;
    var e := EmptyBehind(m);
    ChangingParts(Get(m), states, e);
    Fill(m, pageWords, states[..e], address);
    SameFirstWord(m, Stored(m, pageWords, states[..e]), pageWords);
  }

  /** The calls that come after the empty words are used up. */
  lemma {:induction false} WearAfterFilling(m: Medium, pageWords: nat, states: seq<State>, address: nat, total: nat)
    requires Sane(m) && Paged(m, pageWords) && address < 2 * |m|
    requires Changing(Get(m), states) && |states| > EmptyBehind(m)
    requires total + EmptyBehind(m) + 1 == FirstWord(m, pageWords) + |states|
    ensures AtRound(Scan(Stored(m, pageWords, states)).lastValidState, states[|states| - 1], |m|, total)
    ensures LogErasures(m, pageWords, states, address) == RoundErasures(|m|, pageWords, total, FirstWord(m, pageWords), address)
  {
    var e := EmptyBehind(m);
    var filling, rest := states[..e], states[e..];
    var full := Stored(m, pageWords, filling);
    assert Paged(full, pageWords);
    assert states == filling + rest && rest[|rest| - 1] == states[|states| - 1];
    hide *;
    ChangingParts(Get(m), states, e);
    FillAll(m, pageWords, states, address);
    TwoParts(m, pageWords, filling, rest, address);
    WearOfFull(full, pageWords, rest, address, total);
  }

  /**
   Exact wear from any contents. With e empty words behind the latest record, the first e changing calls fill them
   one by one and erase nothing. The next one begins the rounds: at word 0, after erasing everything, or, when
   all that is not garbage lies in the first page, at the second page, after erasing the others. From then on every
   call takes the next word, and every byte is erased once each time the end is reached.
   */
  lemma {:induction false} WearFromAnything(m: Medium, pageWords: nat, states: seq<State>, address: nat)
    requires Sane(m) && Paged(m, pageWords) && address < 2 * |m|
    requires states != [] && Changing(Get(m), states)
    ensures var n, e := |states|, EmptyBehind(m);
            var latest, erasures := Scan(Stored(m, pageWords, states)).lastValidState, LogErasures(m, pageWords, states, address);
            var first := FirstWord(m, pageWords);
            var total := first + n - e - 1;
            && latest.Some? && latest.value.state == states[n - 1] && latest.value.address % 2 == 0
            && (n <= e ==> IsNthEmpty(m, n, latest.value.address / 2) && erasures == 0)
            && (n > e ==> latest.value.address == 2 * (total % |m|)
                          && erasures == total / |m| + (if first == 0 || address >= 2 * pageWords then 1 else 0))
  {
    hide Stored, LogErasures, EmptyBehind, FirstWord, Scan, Get, IsNthEmpty;
    if |states| <= EmptyBehind(m) {
      WearOfFilling(m, pageWords, states, address);
    } else {
      WearAfterFilling(m, pageWords, states, address, FirstWord(m, pageWords) + |states| - EmptyBehind(m) - 1);
    }
  }

  function BlankMedium(words: nat): (m: Medium)
    ensures |m| == words
  {
    seq(words, i => BLANK)
  }

  lemma {:induction false} BlankIsEmpty(words: nat, from: nat)
    requires from <= words
    ensures EmptyFrom(BlankMedium(words), from) == words - from
    ensures Scan(BlankMedium(words)).lastValidState == None
    decreases words - from
  {
    if from < words {
      BlankIsEmpty(words, from + 1);
    }
    NoRecord(BlankMedium(words));
  }

  /**
   Exact wear of a blank flash of W words: after n changing calls the latest record is at word
   (n - 1) mod W, and every byte has been erased exactly (n - 1) div W times.
   */
  lemma {:induction false} ExactWear(words: nat, pageWords: nat, states: seq<State>, address: nat)
    requires 1 <= pageWords < words && address < 2 * words
    requires states != [] && Changing(None, states)
    ensures var n, m := |states|, BlankMedium(words);
            && Scan(Stored(m, pageWords, states)).lastValidState ==
               Some(StateWithAddr(states[n - 1], 2 * ((n - 1) % words)))
            && LogErasures(m, pageWords, states, address) == (n - 1) / words
  {
    hide Stored, LogErasures, Scan, EmptyFrom, FirstWord;
    var n, m := |states|, BlankMedium(words);
    BlankIsEmpty(words, 0);
    if n <= words {
      WearOfFilling(m, pageWords, states, address);
      BlankIsEmpty(words, Scan(Stored(m, pageWords, states)).lastValidState.value.address / 2 + 1);
      Division(n - 1, words, 0, n - 1);
    } else {
      BlankFirstWord(words, pageWords);
      WearAfterFilling(m, pageWords, states, address, n - words - 1);
      OneRoundMore(n - words - 1, words);
    }
  }

  lemma {:induction false} BlankFirstWord(words: nat, pageWords: nat)
    requires pageWords < words
    ensures FirstWord(BlankMedium(words), pageWords) == 0
  {
    assert Usable(BlankMedium(words), pageWords);
  }

  lemma {:induction false} OneRoundMore(x: nat, size: nat)
    requires size > 0
    ensures (x + size) / size == x / size + 1 && (x + size) % size == x % size
  {
    NextMultiple(x / size, size);
    Division(x + size, size, x / size + 1, x % size);
  }
}
