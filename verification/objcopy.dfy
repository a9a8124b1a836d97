/** Flattening the loadable segments of an ELF file (bootloader-tool/src/processors/objcopy.rs). */
module Objcopy {
  import opened Wrappers
  import opened Bytes
  import opened LittleEndian

  /** A program header with the bytes it has in the file; p_filesz is their number. */
  datatype Segment = Segment(paddr: U32, memsz: U32, data: seq<Byte>)

  datatype ElfFile = ElfFile(segments: seq<Segment>, entry: U32)

  datatype Image = Image(bytes: seq<Byte>, base: nat)

  /** The errors that are returned, and the two ways to panic: overflow of a u32, and nothing to copy. */
  datatype ObjcopyError =
    | FileLargerThanMemory
    | PartiallyBss
    | OutOfOrder
    | WrongEntry
    | Overflow
    | NoSegments

  const PRELUDE_START := 0x0800_0000
  const PRELUDE_END := 0x0800_1000

  predicate InPrelude(s: Segment)
  {
    PRELUDE_START <= s.paddr < PRELUDE_END
  }

  function End(s: Segment): nat
  {
    s.paddr + |s.data|
  }

  /** The sanity checks, segment by segment; `last` is where the segment kept before ends. */
  function Sift(segments: seq<Segment>, last: U32): Result<seq<Segment>, ObjcopyError>
    decreases |segments|
  {
    if segments == [] then Ok([])
    else
      var s := segments[0];
      if |s.data| == 0 then Sift(segments[1..], last)
      else if |s.data| > s.memsz then Err(FileLargerThanMemory)
      else if s.memsz > |s.data| then Err(PartiallyBss)
      else if InPrelude(s) then Sift(segments[1..], last)
      else if s.paddr < last then Err(OutOfOrder)
      else if End(s) >= 0x1_0000_0000 then Err(Overflow)
      else
        var rest := Sift(segments[1..], End(s));
        if rest.Ok? then Ok([s] + rest.value) else rest
  }

  /** The segments that end up in the image: those with contents outside the prelude, in file order. */
  function Kept(segments: seq<Segment>): seq<Segment>
    decreases |segments|
  {
    if segments == [] then []
    else (if |segments[0].data| > 0 && !InPrelude(segments[0]) then [segments[0]] else []) + Kept(segments[1..])
  }

  /** Ascending, without overlap, from an address on, and within 32 bits. */
  ghost predicate Ascending(kept: seq<Segment>, from: nat)
  {
    && (forall i :: 0 <= i < |kept| ==> from <= kept[i].paddr && End(kept[i]) < 0x1_0000_0000)
    && (forall i, j :: 0 <= i < j < |kept| ==> End(kept[i]) <= kept[j].paddr)
  }

  predicate NoPartialBss(segments: seq<Segment>)
  {
    forall s :: s in segments && |s.data| > 0 ==> s.memsz == |s.data|
  }

  /** The checks accept exactly the well-formed files, and keep what is to be kept. */
  lemma {:induction false} SiftExactly(segments: seq<Segment>, last: U32)
    ensures Sift(segments, last).Ok? <==> NoPartialBss(segments) && Ascending(Kept(segments), last)
    ensures Sift(segments, last).Ok? ==> Sift(segments, last).value == Kept(segments)
    decreases |segments|
  {
    if segments != [] {
      var s, rest := segments[0], segments[1..];
      assert NoPartialBss(segments) <==> (|s.data| > 0 ==> s.memsz == |s.data|) && NoPartialBss(rest);
      if |s.data| > 0 && !InPrelude(s) {
        assert Kept(segments)[0] == s && Kept(segments)[1..] == Kept(rest);
        AscendingCons(s, Kept(rest), last);
        if s.memsz == |s.data| && last <= s.paddr && End(s) < 0x1_0000_0000 {
          SiftExactly(rest, End(s));
        }
      } else {
        assert Kept(segments) == Kept(rest);
        SiftExactly(rest, last);
      }
    }
  }

  lemma {:induction false} AscendingCons(s: Segment, rest: seq<Segment>, last: nat)
    requires |s.data| > 0
    ensures Ascending([s] + rest, last) <==>
            last <= s.paddr && End(s) < 0x1_0000_0000 && Ascending(rest, End(s))
  {
    var all := [s] + rest;
    if Ascending(all, last) {
      assert all[0] == s;
      assert forall i :: 0 <= i < |rest| ==> rest[i] == all[i + 1];
      assert forall j :: 0 < j < |all| ==> End(all[0]) <= all[j].paddr;
    }
    if last <= s.paddr && End(s) < 0x1_0000_0000 && Ascending(rest, End(s)) {
      assert forall i :: 0 < i < |all| ==> all[i] == rest[i - 1];
    }
  }

  function Lowest(kept: seq<Segment>): nat
    requires kept != []
  {
    if |kept| == 1 then kept[0].paddr
    else
      var rest := Lowest(kept[..|kept| - 1]);
      if kept[|kept| - 1].paddr < rest then kept[|kept| - 1].paddr else rest
  }

  function Highest(kept: seq<Segment>): nat
    requires kept != []
  {
    if |kept| == 1 then End(kept[0])
    else
      var rest := Highest(kept[..|kept| - 1]);
      if End(kept[|kept| - 1]) > rest then End(kept[|kept| - 1]) else rest
  }

  lemma {:induction false} AscendingBounds(kept: seq<Segment>, from: nat)
    requires Ascending(kept, from) && kept != [] && forall i :: 0 <= i < |kept| ==> |kept[i].data| > 0
    ensures Lowest(kept) == kept[0].paddr && Highest(kept) == End(kept[|kept| - 1])
    ensures forall i :: 0 <= i < |kept| ==> Lowest(kept) <= kept[i].paddr && End(kept[i]) <= Highest(kept)
  {
    if |kept| > 1 {
      AscendingBounds(kept[..|kept| - 1], from);
    }
  }

  /** The byte at an address when the segments are copied one after the other over zeros. */
  function ByteAt(kept: seq<Segment>, address: nat): Byte
  {
    if kept == [] then 0
    else
      var s := kept[|kept| - 1];
      if s.paddr <= address < End(s) then s.data[address - s.paddr] else ByteAt(kept[..|kept| - 1], address)
  }

  function Flatten(kept: seq<Segment>): Image
    requires kept != []
  {
    var base, top := Lowest(kept), Highest(kept);
    Image(seq<Byte>(if top >= base then top - base else 0, i requires 0 <= i => ByteAt(kept, base + i)), base)
  }

  /** Everything objcopy decides about a file. */
  function Copied(file: ElfFile): Result<Image, ObjcopyError>
  {
    var kept := Sift(file.segments, 0);
    if kept.Err? then Err(kept.error)
    else if kept.value == [] then Err(NoSegments)
    else if Lowest(kept.value) + 0x131 >= 0x1_0000_0000 then Err(Overflow)
    else if file.entry != Lowest(kept.value) + 0x131 then Err(WrongEntry)
    else Ok(Flatten(kept.value))
  }

  lemma {:induction false} KeptHaveData(segments: seq<Segment>)
    ensures forall s :: s in Kept(segments) ==> |s.data| > 0 && s in segments
    decreases |segments|
  {
    if segments != [] {
      KeptHaveData(segments[1..]);
    }
  }

  /** objcopy accepts a file exactly when these conditions hold. */
  ghost predicate Accepted(file: ElfFile)
  {
    var kept := Kept(file.segments);
    && NoPartialBss(file.segments)
    && Ascending(kept, 0)
    && kept != []
    && file.entry == kept[0].paddr + 0x131
  }

  predicate InGap(kept: seq<Segment>, a: nat)
  {
    forall i :: 0 <= i < |kept| ==> !(kept[i].paddr <= a < End(kept[i]))
  }

  lemma {:induction false} CopiesExactly(file: ElfFile)
    ensures Copied(file).Ok? <==> Accepted(file)
    ensures Copied(file).Ok? ==> Copied(file).value == Flatten(Kept(file.segments))
  {
    SiftExactly(file.segments, 0);
    KeptHaveData(file.segments);
    var kept := Kept(file.segments);
    if Sift(file.segments, 0).Ok? && kept != [] {
      AscendingBounds(kept, 0);
    }
  }

  /** The image spans the kept segments, which lie one after the other without sharing an address. */
  lemma {:induction false} ImageSpansSegments(file: ElfFile)
    requires Copied(file).Ok?
    ensures var kept, image := Kept(file.segments), Copied(file).value;
            && kept != []
            && image.base == kept[0].paddr
            && image.base + |image.bytes| == End(kept[|kept| - 1])
            && (forall i :: 0 <= i < |kept| ==> image.base <= kept[i].paddr && End(kept[i]) <= image.base + |image.bytes|)
            && (forall i, j :: 0 <= i < j < |kept| ==> End(kept[i]) <= kept[j].paddr)
  {
    CopiesExactly(file);
    KeptHaveData(file.segments);
    AscendingBounds(Kept(file.segments), 0);
  }

  // ---------- In terms of the file alone ----------

  /** A segment that goes into the image: it has contents, and lies outside of the 4 KiB of the prelude. */
  predicate Shipped(s: Segment)
  {
    |s.data| > 0 && !(0x0800_0000 <= s.paddr < 0x0800_1000)
  }

  /** The kept segments are those that are shipped, in their order. */
  lemma {:induction false} KeptExactly(front: seq<Segment>, s: Segment, back: seq<Segment>)
    ensures Kept(front + [s] + back) == Kept(front) + (if Shipped(s) then [s] else []) + Kept(back)
    decreases |front|
  {
    if front == [] {
      assert front + [s] + back == [s] + back && ([s] + back)[1..] == back;
      assert Kept(front) == [];
    } else {
      assert (front + [s] + back)[1..] == front[1..] + [s] + back;
      KeptExactly(front[1..], s, back);
    }
  }

  /** Every shipped segment lies, unchanged, at its physical address minus the base. */
  lemma {:induction false} SegmentIsCopied(file: ElfFile, i: nat)
    requires Copied(file).Ok? && i < |file.segments| && Shipped(file.segments[i])
    ensures var s, image := file.segments[i], Copied(file).value;
            && image.base <= s.paddr && s.paddr + |s.data| <= image.base + |image.bytes|
            && image.bytes[s.paddr - image.base..s.paddr + |s.data| - image.base] == s.data
  {
    hide Copied, Kept, Sift, Lowest, Highest, ByteAt;
    var front, back := file.segments[..i], file.segments[i + 1..];
    assert file.segments == front + [file.segments[i]] + back;
    KeptExactly(front, file.segments[i], back);
    var kept, k := Kept(file.segments), |Kept(front)|;
    assert kept[k] == file.segments[i];
    ImageSpansSegments(file);
    CopiesExactly(file);
    KeptHaveData(file.segments);
    SegmentInImage(kept, k);
    assert Copied(file).value == Flatten(kept);
  }

  /** Every byte of the image that no shipped segment covers is zero. */
  lemma {:induction false} GapIsZero(file: ElfFile, a: nat)
    requires Copied(file).Ok?
    requires forall s :: s in file.segments && Shipped(s) ==> !(s.paddr <= a < s.paddr + |s.data|)
    requires Copied(file).value.base <= a < Copied(file).value.base + |Copied(file).value.bytes|
    ensures Copied(file).value.bytes[a - Copied(file).value.base] == 0
  {
    CopiesExactly(file);
    KeptAreShipped(file.segments);
    ByteOfGap(Kept(file.segments), a);
  }

  lemma {:induction false} KeptAreShipped(segments: seq<Segment>)
    ensures forall s :: s in Kept(segments) ==> s in segments && Shipped(s)
    decreases |segments|
  {
    if segments != [] {
      KeptAreShipped(segments[1..]);
    }
  }

  /** Where the last shipped segment ends. */
  function EndOf(kept: seq<Segment>, last: nat): nat
  {
    if kept == [] then last else End(kept[|kept| - 1])
  }

  /** Why a segment is refused that comes behind an address. */
  predicate Offends(s: Segment, last: nat, e: ObjcopyError)
  {
    match e
    case FileLargerThanMemory => |s.data| > s.memsz
    case PartiallyBss => 0 < |s.data| < s.memsz
    case OutOfOrder => Shipped(s) && |s.data| == s.memsz && s.paddr < last
    case Overflow => Shipped(s) && |s.data| == s.memsz && last <= s.paddr && s.paddr + |s.data| >= 0x1_0000_0000
    case _ => false
  }

  /** The first segment that is refused, behind segments that are all accepted. */
  ghost predicate FirstOffence(segments: seq<Segment>, last: U32, i: nat, e: ObjcopyError)
  {
    && i < |segments|
    && NoPartialBss(segments[..i]) && Ascending(Kept(segments[..i]), last)
    && Offends(segments[i], EndOf(Kept(segments[..i]), last), e)
  }

  /** A first segment that is accepted moves the question to the others. */
  lemma {:induction false} OffenceBehind(segments: seq<Segment>, last: U32, i: nat, e: ObjcopyError)
    requires i + 1 < |segments| && Sift([segments[0]], last).Ok?
    ensures EndOf(Kept([segments[0]]), last) < 0x1_0000_0000
    ensures FirstOffence(segments, last, i + 1, e) <==>
            FirstOffence(segments[1..], EndOf(Kept([segments[0]]), last), i, e)
    ensures Sift(segments, last).Err? <==> Sift(segments[1..], EndOf(Kept([segments[0]]), last)).Err?
    ensures Sift(segments, last).Err? ==> Sift(segments, last) == Sift(segments[1..], EndOf(Kept([segments[0]]), last))
  {
    var s, front := segments[0], segments[..i + 1];
    assert [s][1..] == [] && front[0] == s && front[1..] == segments[1..][..i];
    assert NoPartialBss(front) <==> NoPartialBss([s]) && NoPartialBss(front[1..]);
    var rest := Kept(front[1..]);
    if Shipped(s) {
      AscendingCons(s, rest, last);
      assert Kept(front) == [s] + rest && Kept([s]) == [s];
      assert EndOf(Kept(front), last) == EndOf(rest, End(s));
    } else {
      assert Kept(front) == rest && Kept([s]) == [];
    }
  }

  /** The first segment, when it is refused. */
  lemma {:induction false} OffenceInFront(segments: seq<Segment>, last: U32, e: ObjcopyError)
    requires segments != []
    ensures FirstOffence(segments, last, 0, e) <==> Sift([segments[0]], last) == Err(e)
    ensures Sift([segments[0]], last).Err? ==> Sift(segments, last) == Sift([segments[0]], last)
  {
    var s := segments[0];
    assert segments[..0] == [] && Kept([]) == [] && [s][1..] == [];
    assert Sift([], last).Ok? && (End(s) < 0x1_0000_0000 ==> Sift([], End(s)).Ok?);
    assert Shipped(s) <==> |s.data| > 0 && !InPrelude(s);
  }

  lemma {:induction false} OffenceIsNamed(segments: seq<Segment>, last: U32, i: nat, e: ObjcopyError)
    requires FirstOffence(segments, last, i, e)
    ensures Sift(segments, last) == Err(e)
    decreases i
  {
    hide Sift, Kept, NoPartialBss, Ascending, Offends, EndOf;
    OffenceInFront(segments, last, e);
    if i > 0 {
      FrontAccepted(segments[..i], last);
      OffenceBehind(segments, last, i - 1, e);
      OffenceIsNamed(segments[1..], EndOf(Kept([segments[0]]), last), i - 1, e);
    }
  }

  lemma {:induction false} FrontAccepted(front: seq<Segment>, last: U32)
    requires front != [] && NoPartialBss(front) && Ascending(Kept(front), last)
    ensures Sift([front[0]], last).Ok?
  {
    SiftExactly(front, last);
    assert [front[0]][1..] == [];
  }

  lemma {:induction false} NamedOffence(segments: seq<Segment>, last: U32) returns (i: nat)
    requires Sift(segments, last).Err?
    ensures FirstOffence(segments, last, i, Sift(segments, last).error)
    decreases |segments|
  {
    assert segments != [];
    hide Sift, Kept, NoPartialBss, Ascending, Offends, EndOf, FirstOffence;
    var e := Sift(segments, last).error;
    OffenceInFront(segments, last, e);
    if Sift([segments[0]], last).Err? {
      i := 0;
    } else {
      AloneAccepted(segments, last);
      OffenceBehind(segments, last, 0, e);
      var k := NamedOffence(segments[1..], EndOf(Kept([segments[0]]), last));
      OffenceInside(segments[1..], EndOf(Kept([segments[0]]), last), k, e);
      OffenceBehind(segments, last, k, e);
      i := k + 1;
    }
  }

  lemma {:induction false} AloneAccepted(segments: seq<Segment>, last: U32)
    requires segments != [] && Sift([segments[0]], last).Ok? && Sift(segments, last).Err?
    ensures |segments| > 1
  {
    var alone := [segments[0]];
    assert segments != alone;
  }

  lemma {:induction false} OffenceInside(segments: seq<Segment>, last: U32, i: nat, e: ObjcopyError)
    requires FirstOffence(segments, last, i, e)
    ensures i < |segments|
  {
  }

  /** The checks name the first offence. */
  lemma {:induction false} SiftRefusesExactly(segments: seq<Segment>, last: U32, e: ObjcopyError)
    ensures Sift(segments, last) == Err(e) <==> exists i: nat :: FirstOffence(segments, last, i, e)
  {
    hide *;
    if Sift(segments, last) == Err(e) {
      var i := NamedOffence(segments, last);
    }
    if i: nat :| FirstOffence(segments, last, i, e) {
      OffenceIsNamed(segments, last, i, e);
    }
  }

  /** Every refusal, with the exact condition on the file under which it is given. */
  lemma {:induction false} RefusesExactly(file: ElfFile, e: ObjcopyError)
    ensures Copied(file) == Err(e) <==>
            || (exists i: nat :: FirstOffence(file.segments, 0, i, e))
            || (NoPartialBss(file.segments) && Ascending(Kept(file.segments), 0) && Misplaced(Kept(file.segments), file.entry, e))
  {
    hide Sift, Kept, FirstOffence, NoPartialBss, Ascending, Highest, Lowest, Flatten;
    SiftExactly(file.segments, 0);
    SiftRefusesExactly(file.segments, 0, e);
    KeptHaveData(file.segments);
    var kept := Kept(file.segments);
    if Sift(file.segments, 0).Ok? && kept != [] {
      AscendingBounds(kept, 0);
    }
  }

  /** What is wrong with well-formed segments: there are none, or the entry is not where the boot ROM jumps to. */
  predicate Misplaced(kept: seq<Segment>, entry: U32, e: ObjcopyError)
  {
    match e
    case NoSegments => kept == []
    case WrongEntry => kept != [] && kept[0].paddr + 0x131 < 0x1_0000_0000 && entry != kept[0].paddr + 0x131
    case Overflow => kept != [] && kept[0].paddr + 0x131 >= 0x1_0000_0000
    case _ => false
  }

  lemma {:induction false} SegmentInImage(kept: seq<Segment>, i: nat)
    requires Ascending(kept, 0) && i < |kept| && forall i :: 0 <= i < |kept| ==> |kept[i].data| > 0
    requires Lowest(kept) <= kept[i].paddr && End(kept[i]) <= Highest(kept)
    ensures var image := Flatten(kept);
            image.bytes[kept[i].paddr - image.base..End(kept[i]) - image.base] == kept[i].data
  {
    var image, s := Flatten(kept), kept[i];
    forall k | 0 <= k < |s.data|
      ensures image.bytes[s.paddr - image.base + k] == s.data[k]
    {
      ByteOfSegment(kept, 0, i, s.paddr + k);
    }
  }

  lemma {:induction false} ByteOfSegment(kept: seq<Segment>, from: nat, i: nat, a: nat)
    requires Ascending(kept, from) && i < |kept| && kept[i].paddr <= a < End(kept[i])
    ensures ByteAt(kept, a) == kept[i].data[a - kept[i].paddr]
    decreases |kept|
  {
    if i < |kept| - 1 {
      ByteOfSegment(kept[..|kept| - 1], from, i, a);
    }
  }

  lemma {:induction false} ByteOfGap(kept: seq<Segment>, a: nat)
    requires InGap(kept, a)
    ensures ByteAt(kept, a) == 0
    decreases |kept|
  {
    if kept != [] {
      ByteOfGap(kept[..|kept| - 1], a);
    }
  }

  // ---------- The program ----------

  /** The sanity checks as a loop over the segments. */
  method SiftSegments(segments: seq<Segment>) returns (r: Result<seq<Segment>, ObjcopyError>)
    ensures r == Sift(segments, 0)
  {
    var lastPaddr: U32 := 0;
    var kept: seq<Segment> := [];
    ghost var all := Sift(segments, 0);
    assert segments[0..] == segments;
    assert all.Ok? ==> [] + all.value == all.value;
    for i := 0 to |segments|
      invariant all == Following(kept, Sift(segments[i..], lastPaddr))
    {
      var segment := segments[i];
      assert segments[i..][1..] == segments[i + 1..];
      if |segment.data| == 0 {
        continue;
      }
      if |segment.data| > segment.memsz {
        return Err(FileLargerThanMemory);
      }
      if segment.memsz > |segment.data| {
        return Err(PartiallyBss);
      }
      if InPrelude(segment) {
        continue;
      }
      if segment.paddr < lastPaddr {
        return Err(OutOfOrder);
      }
      if segment.paddr + segment.memsz >= 0x1_0000_0000 {
        return Err(Overflow);
      }
      lastPaddr := segment.paddr + segment.memsz;
      FollowingOne(kept, segment, Sift(segments[i + 1..], lastPaddr));
      kept := kept + [segment];
    }
    assert segments[|segments|..] == [] && kept + [] == kept;
    return Ok(kept);
  }

  /** The segments kept so far, followed by those of a result. */
  function Following(kept: seq<Segment>, rest: Result<seq<Segment>, ObjcopyError>): Result<seq<Segment>, ObjcopyError>
  {
    if rest.Ok? then Ok(kept + rest.value) else rest
  }

  lemma {:induction false} FollowingOne(kept: seq<Segment>, s: Segment, rest: Result<seq<Segment>, ObjcopyError>)
    ensures Following(kept, Following([s], rest)) == Following(kept + [s], rest)
  {
    if rest.Ok? {
      assert kept + ([s] + rest.value) == kept + [s] + rest.value;
    }
  }

  /** objcopy: sifts the segments, then copies the kept ones over a vector of zeros. */
  method Objcopy(file: ElfFile) returns (r: Result<Image, ObjcopyError>)
    ensures r == Copied(file)
  {
    hide Sift, Kept, Lowest, Highest, ByteAt;
    var sifted := SiftSegments(file.segments);
    if sifted.Err? {
      return Err(sifted.error);
    }
    var segments := sifted.value;
    if segments == [] {
      return Err(NoSegments);
    }
    SiftExactly(file.segments, 0);
    KeptHaveData(file.segments);
    AscendingBounds(segments, 0);
    var base := Lowest(segments);
    if base + 0x131 >= 0x1_0000_0000 {
      return Err(Overflow);
    }
    if file.entry != base + 0x131 {
      return Err(WrongEntry);
    }
    var image := new Byte[Highest(segments) - base](i => 0);
    CopySegments(segments, base, image);
    return Ok(Image(image[..], base));
  }

  method CopySegments(segments: seq<Segment>, base: nat, image: array<Byte>)
    requires forall s :: s in segments ==> base <= s.paddr && End(s) <= base + image.Length
    requires forall i :: 0 <= i < image.Length ==> image[i] == 0
    modifies image
    ensures image[..] == seq<Byte>(image.Length, i requires 0 <= i => ByteAt(segments, base + i))
  {
    for j := 0 to |segments|
      invariant forall i :: 0 <= i < image.Length ==> image[i] == ByteAt(segments[..j], base + i)
    {
      var s := segments[j];
      assert segments[..j + 1][..j] == segments[..j];
      forall k | 0 <= k < |s.data| {
        image[s.paddr - base + k] := s.data[k];
      }
    }
    assert segments[..|segments|] == segments;
  }
}
