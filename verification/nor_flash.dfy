/**
 NOR flash with power cuts (libs/ec-slimloader-state/src/flash/mock.rs), for words of two bytes.

 A medium is a sequence of words; a step erases or programs one byte. Erasing restores a byte
 to 0xFF, programming can only clear bits, and every word may be programmed once after an erase.
 */
module NorFlash {
  import opened Bytes
  import opened Wrappers

  /** A two-byte word. `once` tells that it was not programmed since it was last erased. */
  datatype Cell = Cell(lo: Byte, hi: Byte, once: bool) {

    predicate ReadsErased() { lo == 0xFF && hi == 0xFF }
  }

  const BLANK := Cell(0xFF, 0xFF, true)

  type Medium = seq<Cell>

  /** What flash must satisfy initially: a word that reads FF FF can be programmed. */
  ghost predicate Sane(m: Medium)
  {
    forall i :: 0 <= i < |m| && m[i].ReadsErased() ==> m[i].once
  }

  datatype Operation = EraseOperation | WriteOperation

  datatype FlashError =
    | OutOfBounds
    | NotAligned
    | NotWritable(address: nat)
    | EarlyShutoff(address: nat, operation: Operation)

  datatype ByteStep = EraseByte(address: nat) | ProgramByte(address: nat, byte: Byte) {

    function Operation(): Operation
    {
      if EraseByte? then EraseOperation else WriteOperation
    }
  }

  /** One byte erased or programmed. */
  function Apply(m: Medium, step: ByteStep): (m': Medium)
    ensures |m'| == |m|
  {
    var w := step.address / 2;
    if w >= |m| then m
    else if step.address % 2 == 0 then
      m[w := if step.EraseByte? then Cell(0xFF, m[w].hi, true) else Cell(And(m[w].lo, step.byte), m[w].hi, false)]
    else
      m[w := m[w].(hi := if step.EraseByte? then 0xFF else And(m[w].hi, step.byte))]
  }

  /** The medium after a sequence of byte steps. */
  function After(m: Medium, steps: seq<ByteStep>): (m': Medium)
    ensures |m'| == |m|
    decreases |steps|
  {
    if steps == [] then m else After(Apply(m, steps[0]), steps[1..])
  }

  /** The mock refuses the first byte of a word that was programmed since it was last erased. */
  predicate Refused(m: Medium, step: ByteStep)
  {
    step.ProgramByte? && step.address % 2 == 0 && step.address / 2 < |m| && !m[step.address / 2].once
  }

  datatype Run = Run(medium: Medium, fuel: Option<nat>, result: Result<(), FlashError>)

  /**
   One byte step. `fuel` is the number of bytes until the shutoff, or None when power stays on;
   a shutoff leaves the byte untouched and is reported once.
   */
  function ExecuteStep(m: Medium, fuel: Option<nat>, step: ByteStep): Run
  {
    if fuel == Some(0) then Run(m, None, Err(EarlyShutoff(step.address, step.Operation())))
    else
      var fuel' := if fuel.Some? then Some(fuel.value - 1) else None;
      if Refused(m, step) then Run(m, fuel', Err(NotWritable(step.address)))
      else Run(Apply(m, step), fuel', Ok(()))
  }

  /** Performs byte steps up to the first one that fails. */
  function Execute(m: Medium, fuel: Option<nat>, steps: seq<ByteStep>): (run: Run)
    ensures |run.medium| == |m|
    decreases |steps|
  {
    if steps == [] then Run(m, fuel, Ok(()))
    else
      var first := ExecuteStep(m, fuel, steps[0]);
      if first.result.Err? then first else Execute(first.medium, first.fuel, steps[1..])
  }

  function EraseSteps(from: nat, to: nat): (steps: seq<ByteStep>)
    requires from <= to
    ensures |steps| == to - from
  {
    seq(to - from, i requires 0 <= i => EraseByte(from + i))
  }

  function WriteSteps(offset: nat, bytes: seq<Byte>): (steps: seq<ByteStep>)
    ensures |steps| == |bytes|
  {
    seq(|bytes|, i requires 0 <= i < |bytes| => ProgramByte(offset + i, bytes[i]))
  }

  /** NorFlash::erase: pages only, in bounds only, byte by byte in ascending order. */
  function EraseRun(m: Medium, fuel: Option<nat>, pageBytes: nat, from: nat, to: nat): Run
    requires from <= to && pageBytes > 0
  {
    if to > 2 * |m| then Run(m, fuel, Err(OutOfBounds))
    else if from % pageBytes != 0 || to % pageBytes != 0 then Run(m, fuel, Err(NotAligned))
    else Execute(m, fuel, EraseSteps(from, to))
  }

  /** NorFlash::write: whole words in bounds, byte by byte in ascending order. */
  function WriteRun(m: Medium, fuel: Option<nat>, offset: nat, bytes: seq<Byte>): Run
  {
    if offset % 2 != 0 then Run(m, fuel, Err(NotAligned))
    else if offset + |bytes| > 2 * |m| then Run(m, fuel, Err(OutOfBounds))
    else Execute(m, fuel, WriteSteps(offset, bytes))
  }

  // ---------- What one step does to the flash ----------

  function ByteOf(m: Medium, address: nat): Byte
    requires address < 2 * |m|
  {
    if address % 2 == 0 then m[address / 2].lo else m[address / 2].hi
  }

  /**
   Programming can only clear bits: of the addressed byte those that are clear in the given one, and of no other
   byte. The first byte of a word uses the word up, and is refused when the word was used before.
   */
  lemma {:induction false} ProgramClearsBits(m: Medium, address: nat, byte: Byte, k: nat)
    requires address < 2 * |m| && k < 8
    ensures var m' := Apply(m, ProgramByte(address, byte));
            && (Bit(ByteOf(m', address), k) <==> Bit(ByteOf(m, address), k) && Bit(byte, k))
            && (forall a :: 0 <= a < 2 * |m| && a != address ==> ByteOf(m', a) == ByteOf(m, a))
            && (forall w :: 0 <= w < |m| ==> m'[w].once == (m[w].once && address != 2 * w))
    ensures var run := ExecuteStep(m, None, ProgramByte(address, byte));
            && (run.result == Err(NotWritable(address)) <==> exists w :: 0 <= w < |m| && address == 2 * w && !m[w].once)
            && run.medium == if run.result.Err? then m else Apply(m, ProgramByte(address, byte))
  {
    hide And, Bit;
    AndExactly(ByteOf(m, address), byte, k);
    assert address % 2 == 0 ==> address == 2 * (address / 2);
  }

  /** Erasing sets every bit of the addressed byte and of no other; the first byte of a word frees the word. */
  lemma {:induction false} EraseSetsBits(m: Medium, address: nat)
    requires address < 2 * |m|
    ensures var m' := Apply(m, EraseByte(address));
            && ByteOf(m', address) == 0xFF
            && (forall a :: 0 <= a < 2 * |m| && a != address ==> ByteOf(m', a) == ByteOf(m, a))
            && (forall w :: 0 <= w < |m| ==> m'[w].once == (m[w].once || address == 2 * w))
  {
  }

  // ---------- Composing sequences of steps ----------

  lemma {:induction false} AfterNothing(m: Medium)
    ensures After(m, []) == m
  {
  }

  lemma {:induction false} AfterConcat(m: Medium, s: seq<ByteStep>, t: seq<ByteStep>)
    ensures After(m, s + t) == After(After(m, s), t)
    decreases |s|
  {
    if s == [] {
      assert s + t == t;
    } else {
      assert (s + t)[1..] == s[1..] + t;
      AfterConcat(Apply(m, s[0]), s[1..], t);
    }
  }

  lemma {:induction false} ExecuteErrors(m: Medium, fuel: Option<nat>, steps: seq<ByteStep>)
    ensures Execute(m, fuel, steps).result !in {Err(OutOfBounds), Err(NotAligned)}
    decreases |steps|
  {
    if steps != [] {
      var first := ExecuteStep(m, fuel, steps[0]);
      if first.result.Ok? {
        ExecuteErrors(first.medium, first.fuel, steps[1..]);
      }
    }
  }

  lemma {:induction false} ExecuteNothing(m: Medium, fuel: Option<nat>)
    ensures Execute(m, fuel, []) == Run(m, fuel, Ok(()))
  {
  }

  lemma {:induction false} ExecuteFirst(m: Medium, fuel: Option<nat>, steps: seq<ByteStep>, i: nat, step: ByteStep)
    requires i < |steps| && steps[i] == step
    ensures var first := ExecuteStep(m, fuel, step);
            Execute(m, fuel, steps[i..]) ==
            if first.result.Err? then first else Execute(first.medium, first.fuel, steps[i + 1..])
  {
    assert steps[i..][1..] == steps[i + 1..];
  }

  lemma {:induction false} ExecuteConcat(m: Medium, fuel: Option<nat>, s: seq<ByteStep>, t: seq<ByteStep>)
    ensures var first := Execute(m, fuel, s);
            Execute(m, fuel, s + t) ==
            if first.result.Ok? then Execute(first.medium, first.fuel, t) else first
    decreases |s|
  {
    if s == [] {
      assert s + t == t;
    } else {
      assert (s + t)[0] == s[0] && (s + t)[1..] == s[1..] + t;
      var next := ExecuteStep(m, fuel, s[0]);
      if next.result.Ok? {
        ExecuteConcat(next.medium, next.fuel, s[1..], t);
      }
    }
  }

  /** A byte may be programmed only while it reads 0xFF, and its word only once after an erase. */
  predicate Permitted(m: Medium, step: ByteStep)
  {
    var w := step.address / 2;
    && w < |m|
    && (step.ProgramByte? ==>
          if step.address % 2 == 0 then m[w].once && m[w].ReadsErased() else m[w].hi == 0xFF)
  }

  /** Every step is permitted at the moment it is taken. */
  predicate Disciplined(m: Medium, steps: seq<ByteStep>)
    decreases |steps|
  {
    steps == [] || (Permitted(m, steps[0]) && Disciplined(Apply(m, steps[0]), steps[1..]))
  }

  lemma {:induction false} DisciplinedAt(m: Medium, steps: seq<ByteStep>, k: nat)
    requires Disciplined(m, steps) && k < |steps|
    ensures Permitted(After(m, steps[..k]), steps[k])
    decreases k
  {
    if k > 0 {
      assert steps[..k][1..] == steps[1..][..k - 1];
      DisciplinedAt(Apply(m, steps[0]), steps[1..], k - 1);
    }
  }

  lemma {:induction false} DisciplinedConcat(m: Medium, s: seq<ByteStep>, t: seq<ByteStep>)
    requires Disciplined(m, s) && Disciplined(After(m, s), t)
    ensures Disciplined(m, s + t)
    decreases |s|
  {
    if s == [] {
      assert s + t == t;
    } else {
      assert (s + t)[1..] == s[1..] + t;
      DisciplinedConcat(Apply(m, s[0]), s[1..], t);
    }
  }

  /** The number of steps taken before power is lost. */
  function Taken(fuel: Option<nat>, length: nat): nat
  {
    if fuel.Some? && fuel.value < length then fuel.value else length
  }

  /** Disciplined steps are cut only by the loss of power: what remains is the effect of a prefix. */
  lemma {:induction false} ExecuteDisciplined(m: Medium, fuel: Option<nat>, steps: seq<ByteStep>)
    requires Disciplined(m, steps)
    ensures var n := Taken(fuel, |steps|);
            Execute(m, fuel, steps) ==
            if n < |steps| then Run(After(m, steps[..n]), None, Err(EarlyShutoff(steps[n].address, steps[n].Operation())))
            else Run(After(m, steps), if fuel.Some? then Some(fuel.value - n) else None, Ok(()))
    decreases |steps|
  {
    if steps != [] && fuel != Some(0) {
      var n := Taken(fuel, |steps|);
      assert steps[..n][1..] == steps[1..][..n - 1];
      ExecuteDisciplined(Apply(m, steps[0]), if fuel.Some? then Some(fuel.value - 1) else None, steps[1..]);
    }
  }

  // ---------- The flash device ----------

  /** The words held by the two vectors of the mock. */
  function Assemble(data: seq<Byte>, writable: seq<bool>): (m: Medium)
    requires |data| == 2 * |writable|
    ensures |m| == |writable|
  {
    seq(|writable|, i requires 0 <= i < |writable| => Cell(data[2 * i], data[2 * i + 1], writable[i]))
  }

  lemma {:induction false} EraseAssembled(data: seq<Byte>, writable: seq<bool>, a: nat)
    requires |data| == 2 * |writable| && a < |data|
    ensures Apply(Assemble(data, writable), EraseByte(a)) ==
            Assemble(data[a := 0xFF], if a % 2 == 0 then writable[a / 2 := true] else writable)
  {
  }

  lemma {:induction false} ProgramAssembled(data: seq<Byte>, writable: seq<bool>, a: nat, byte: Byte)
    requires |data| == 2 * |writable| && a < |data|
    ensures Apply(Assemble(data, writable), ProgramByte(a, byte)) ==
            Assemble(data[a := And(data[a], byte)], if a % 2 == 0 then writable[a / 2 := false] else writable)
  {
  }

  class Flash {
    const pages: nat
    const pageWords: nat
    const data: array<Byte>
    const writable: array<bool>
    var fuel: Option<nat>

    ghost predicate Valid()
    {
      pageWords > 0 && data.Length == 2 * writable.Length
    }

    /** The capacity is made of whole pages. */
    ghost predicate WholePages()
    {
      writable.Length == pages * pageWords
    }

    ghost function Cells(): (m: Medium)
      requires Valid()
      reads data, writable
      ensures |m| == writable.Length
    {
      Assemble(data[..], writable[..])
    }

    /** An erased device, as MockFlashBase::new. */
    constructor (pages: nat, pageWords: nat, fuel: Option<nat>)
      requires pageWords > 0
      ensures Valid() && WholePages() && fresh(data) && fresh(writable)
      ensures this.pages == pages && this.pageWords == pageWords && this.fuel == fuel
      ensures Cells() == seq(pages * pageWords, i => BLANK)
    {
      this.pages := pages;
      this.pageWords := pageWords;
      this.fuel := fuel;
      var words := pages * pageWords;
      data := new Byte[2 * words](i => 0xFF);
      writable := new bool[words](i => true);
    }

    function Capacity(): nat
    {
      data.Length
    }

    function PageBytes(): nat
    {
      2 * pageWords
    }

    /** Fills the first `length` bytes of `buffer`; whole words only. */
    method Read(offset: nat, buffer: array<Byte>, length: nat) returns (r: Result<(), FlashError>)
      requires Valid() && length <= buffer.Length && length % 2 == 0
      requires buffer != data
      modifies buffer
      ensures r == if offset % 2 != 0 then Err(NotAligned)
                   else if offset + length > Capacity() then Err(OutOfBounds)
                   else Ok(())
      ensures r.Ok? ==> buffer[..length] == data[offset..offset + length]
      ensures r.Err? ==> buffer[..] == old(buffer[..])
    {
      if offset % 2 != 0 {
        return Err(NotAligned);
      }
      if offset + length > Capacity() {
        return Err(OutOfBounds);
      }
      for i := 0 to length
        invariant buffer[..i] == data[offset..offset + i]
      {
        buffer[i] := data[offset + i];
      }
      return Ok(());
    }

    /** Counts one byte down; reports the shutoff when the count is used up. */
    method CheckShutoff(address: nat, operation: Operation) returns (r: Result<(), FlashError>)
      modifies `fuel
      ensures old(fuel) == Some(0) ==> fuel == None && r == Err(EarlyShutoff(address, operation))
      ensures old(fuel) != Some(0) ==> r == Ok(())
      ensures old(fuel).None? ==> fuel == None
      ensures old(fuel).Some? && old(fuel).value > 0 ==> fuel == Some(old(fuel).value - 1)
    {
      if fuel.Some? {
        if fuel.value == 0 {
          fuel := None;
          return Err(EarlyShutoff(address, operation));
        }
        fuel := Some(fuel.value - 1);
      }
      return Ok(());
    }

    /** The body of the erase loop: one byte. */
    method EraseOne(index: nat) returns (r: Result<(), FlashError>)
      requires Valid() && index < Capacity()
      modifies `fuel, data, writable
      ensures Valid()
      ensures Run(Cells(), fuel, r) == ExecuteStep(old(Cells()), old(fuel), EraseByte(index))
    {
      var power := CheckShutoff(index, EraseOperation);
      if power.Err? {
        return power;
      }
      data[index] := 0xFF;
      if index % 2 == 0 {
        writable[index / 2] := true;
      }
      EraseAssembled(old(data[..]), old(writable[..]), index);
      assert data[..] == old(data[..])[index := 0xFF];
      assert writable[..] == if index % 2 == 0 then old(writable[..])[index / 2 := true] else old(writable[..]);
      return Ok(());
    }

    /** The body of the write loop: one byte, where the first byte of a word uses the word up. */
    method ProgramOne(address: nat, byte: Byte) returns (r: Result<(), FlashError>)
      requires Valid() && address < Capacity()
      modifies `fuel, data, writable
      ensures Valid()
      ensures Run(Cells(), fuel, r) == ExecuteStep(old(Cells()), old(fuel), ProgramByte(address, byte))
    {
      var power := CheckShutoff(address, WriteOperation);
      if power.Err? {
        return power;
      }
      if address % 2 == 0 {
        if !writable[address / 2] {
          return Err(NotWritable(address));
        }
        writable[address / 2] := false;
      }
      data[address] := And(data[address], byte);
      ProgramAssembled(old(data[..]), old(writable[..]), address, byte);
      assert data[..] == old(data[..])[address := And(old(data[address]), byte)];
      assert writable[..] == if address % 2 == 0 then old(writable[..])[address / 2 := false] else old(writable[..]);
      return Ok(());
    }

    method Erase(from: nat, to: nat) returns (r: Result<(), FlashError>)
      requires Valid() && from <= to
      modifies `fuel, data, writable
      ensures Valid()
      ensures r == Err(OutOfBounds) <==> to > Capacity()
      ensures r == Err(NotAligned) <==> to <= Capacity() && (from % PageBytes() != 0 || to % PageBytes() != 0)
      ensures r in {Err(OutOfBounds), Err(NotAligned)} ==> Cells() == old(Cells()) && fuel == old(fuel)
      ensures Run(Cells(), fuel, r) == EraseRun(old(Cells()), old(fuel), PageBytes(), from, to)
    {
      if to > Capacity() {
        return Err(OutOfBounds);
      }
      if from % PageBytes() != 0 || to % PageBytes() != 0 {
        return Err(NotAligned);
      }
      ExecuteErrors(Cells(), fuel, EraseSteps(from, to));
      r := EraseBytes(from, to);
    }

    /** The erase loop, byte by byte. */
    method EraseBytes(from: nat, to: nat) returns (r: Result<(), FlashError>)
      requires Valid() && from <= to <= Capacity()
      modifies `fuel, data, writable
      ensures Valid()
      ensures Run(Cells(), fuel, r) == Execute(old(Cells()), old(fuel), EraseSteps(from, to))
    {
      ghost var steps := EraseSteps(from, to);
      ghost var all := Execute(Cells(), fuel, steps);
      assert steps[0..] == steps;
      hide Execute, ExecuteStep, Assemble;
      for index := from to to
        invariant Valid()
        invariant Execute(Cells(), fuel, steps[index - from..]) == all
      {
        ExecuteFirst(Cells(), fuel, steps, index - from, EraseByte(index));
        r := EraseOne(index);
        if r.Err? {
          return;
        }
      }
      ExecuteNothing(Cells(), fuel);
      return Ok(());
    }

    method Write(offset: nat, bytes: seq<Byte>) returns (r: Result<(), FlashError>)
      requires Valid() && |bytes| % 2 == 0
      modifies `fuel, data, writable
      ensures Valid()
      ensures r == Err(NotAligned) <==> offset % 2 != 0
      ensures r == Err(OutOfBounds) <==> offset % 2 == 0 && offset + |bytes| > Capacity()
      ensures r in {Err(OutOfBounds), Err(NotAligned)} ==> Cells() == old(Cells()) && fuel == old(fuel)
      ensures Run(Cells(), fuel, r) == WriteRun(old(Cells()), old(fuel), offset, bytes)
    {
      if offset % 2 != 0 {
        return Err(NotAligned);
      }
      if offset + |bytes| > Capacity() {
        return Err(OutOfBounds);
      }
      ExecuteErrors(Cells(), fuel, WriteSteps(offset, bytes));
      r := WriteBytes(offset, bytes);
    }

    /** The write loop, byte by byte. */
    method WriteBytes(offset: nat, bytes: seq<Byte>) returns (r: Result<(), FlashError>)
      requires Valid() && offset + |bytes| <= Capacity()
      modifies `fuel, data, writable
      ensures Valid()
      ensures Run(Cells(), fuel, r) == Execute(old(Cells()), old(fuel), WriteSteps(offset, bytes))
    {
      ghost var steps := WriteSteps(offset, bytes);
      ghost var all := Execute(Cells(), fuel, steps);
      assert steps[0..] == steps;
      hide Execute, ExecuteStep, Assemble;
      for i := 0 to |bytes|
        invariant Valid()
        invariant Execute(Cells(), fuel, steps[i..]) == all
      {
        ExecuteFirst(Cells(), fuel, steps, i, ProgramByte(offset + i, bytes[i]));
        r := ProgramOne(offset + i, bytes[i]);
        if r.Err? {
          return;
        }
      }
      ExecuteNothing(Cells(), fuel);
      return Ok(());
    }
  }
}
