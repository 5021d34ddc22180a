/** The same computations as the code makes them: 32-bit sums, lap numbers that wrap at 2^32,
    and positions packed in 64-bit words. They agree with `PipeLayout` on everything a sound
    configuration can reach. */
module PipeWords {
  import opened Bytes
  import opened PipeLayout

  const TWO_32: int := 0x1_0000_0000
  const TWO_64: int := 0x1_0000_0000_0000_0000

  type uint32 = x: int | 0 <= x < TWO_32
  type uint64 = x: int | 0 <= x < TWO_64

  function Add32(a: uint32, b: uint32): uint32 {
    (a + b) % TWO_32
  }

  function Subtract32(a: uint32, b: uint32): uint32 {
    (a - b) % TWO_32
  }

  function Increment64(n: uint64): uint64 {
    (n + 1) % TWO_64
  }

  /** A 64-bit counter that was incremented `n` times. */
  function Count64(n: nat): uint64 {
    n % TWO_64
  }

  lemma IncrementCounts(n: nat)
    ensures Increment64(Count64(n)) == Count64(n + 1)
  {
  }

  /** A lap number in the upper half of a word and an offset in the lower half. */
  function VersionedPointer(version: uint32, pointer: uint32): uint64 {
    version * TWO_32 + pointer
  }

  function VersionOf(word: uint64): uint32 {
    word / TWO_32
  }

  function PointerOf(word: uint64): uint32 {
    word % TWO_32
  }

  lemma UnpackPack(version: uint32, pointer: uint32)
    ensures VersionOf(VersionedPointer(version, pointer)) == version
    ensures PointerOf(VersionedPointer(version, pointer)) == pointer
  {
  }

  lemma Pow2Of32()
    ensures Pow2(32) == 0x1_0000_0000
  {
    assert Pow2(8) == 0x100;
    Pow2Of8More(8);
    Pow2Of8More(16);
    Pow2Of8More(24);
  }

  /** Packing with a shift and an `or`: the word has 64 bits, the lower 32 of them those of the
      offset, and the upper 32 those of the lap number. */
  lemma ShiftsPackExactly(version: uint32, pointer: uint32, k: nat)
    ensures VersionedPointer(version, pointer) < 0x1_0000_0000_0000_0000
    ensures Bit(VersionedPointer(version, pointer), k) <==> if k < 32 then Bit(pointer, k) else Bit(version, k - 32)
  {
    hide Pow2;
    Pow2Of32();
    BitsOfParts(version, pointer, 32, k);
  }

  /** Unpacking with a shift and with a mask. */
  lemma ShiftsUnpackExactly(word: uint64, k: nat)
    ensures Bit(VersionOf(word), k) <==> Bit(word, k + 32)
    ensures Bit(PointerOf(word), k) <==> k < 32 && Bit(word, k)
  {
    hide Pow2, Bit;
    Pow2Of32();
    var version, pointer := VersionOf(word), PointerOf(word);
    BitsOfParts(version, pointer, 32, k + 32);
    BitsOfParts(version, pointer, 32, k);
    BitsOfParts(0, pointer, 32, k);
    if k >= 32 {
      BitOfZero(k - 32);
    }
  }

  /** The same in numbers, and the sums, differences and counters that wrap: each is at most one
      wrap away from the exact result. */
  lemma MachineArithmetic(a: uint32, b: uint32, word: uint64)
    ensures VersionedPointer(a, b) / 0x1_0000_0000 == a && VersionedPointer(a, b) % 0x1_0000_0000 == b
    ensures VersionOf(word) == word / 0x1_0000_0000 && PointerOf(word) == word % 0x1_0000_0000
    ensures Add32(a, b) == (if a + b <= 0xFFFF_FFFF then a + b else a + b - 0x1_0000_0000)
    ensures Subtract32(a, b) == (if a >= b then a - b else a - b + 0x1_0000_0000)
    ensures Increment64(word) == (if word == 0xFFFF_FFFF_FFFF_FFFF then 0 else word + 1)
  {
  }

  predicate IsWrap32(c: Config, length: uint32, pointer: uint32) {
    Add32(pointer, length) > c.size
  }

  /** Where the code puts a header, as (lap, offset). */
  function HeaderPlace(c: Config, word: uint64): (uint32, uint32) {
    if IsWrap32(c, 4, PointerOf(word)) then (Add32(VersionOf(word), 1), 0) else (VersionOf(word), PointerOf(word))
  }

  /** Where the code puts the payload that follows a header. */
  function PayloadPlace(c: Config, header: (uint32, uint32), length: uint32): (uint32, uint32) {
    var pointer := Add32(header.1, 4);
    if IsWrap32(c, length, pointer) then (Add32(header.0, 1), 0) else (header.0, pointer)
  }

  /** What the writer works out before it stores anything. */
  datatype Placement = Placement(lengthPtr: uint32, payloadPtr: uint32, end: uint64)

  function Place(c: Config, word: uint64, length: uint32): Placement {
    var header := HeaderPlace(c, word);
    var payload := PayloadPlace(c, header, length);
    Placement(header.1, payload.1, VersionedPointer(payload.0, Add32(payload.1, length)))
  }

  predicate IsFull32(c: Config, readWord: uint64, writeWord: uint64, length: uint32) {
    var readPtr := PointerOf(readWord);
    var writePtr := PointerOf(writeWord);
    if readPtr > writePtr then
      !(Add32(writePtr, Add32(length, 4)) < readPtr)
    else if IsWrap32(c, 4, writePtr) then
      !(Add32(length, 4) < readPtr)
    else if IsWrap32(c, length, Add32(writePtr, 4)) then
      !(length < readPtr)
    else
      false
  }

  // ---------------------------------------------------------------------------------------
  // Refinement

  /** The word that stands for a position: its lap number is kept modulo 2^32. */
  function Word(p: Position): uint64 {
    VersionedPointer(p.version % TWO_32, p.pointer % TWO_32)
  }

  /** The word of the position where record `i` starts. */
  function WordAt(c: Config, log: seq<seq<byte>>, i: nat): uint64
    requires i <= |log|
  {
    Word(StartOf(c, log, i))
  }

  lemma WordParts(c: Config, p: Position)
    requires Sound(c) && InRing(c, p)
    ensures PointerOf(Word(p)) == p.pointer
    ensures VersionOf(Word(p)) == p.version % TWO_32
  {
    UnpackPack(p.version % TWO_32, p.pointer);
  }

  lemma NextLap(v: nat)
    ensures Add32(v % TWO_32, 1) == (v + 1) % TWO_32
  {
  }

  lemma AddIsExact(a: uint32, b: uint32)
    requires a + b < TWO_32
    ensures Add32(a, b) == a + b
  {
  }

  lemma HeaderPlaceRefines(c: Config, at: Position)
    requires Sound(c) && InRing(c, at)
    ensures HeaderPlace(c, Word(at)) == (HeaderStart(c, at).version % TWO_32, HeaderStart(c, at).pointer)
  {
    hide Word, VersionOf, PointerOf, Add32;
    WordParts(c, at);
    NextLap(at.version);
    AddIsExact(at.pointer, 4);
  }

  lemma PayloadPlaceRefines(c: Config, at: Position, length: nat)
    requires Sound(c) && InRing(c, at) && length <= c.cap
    ensures var h, p := HeaderStart(c, at), PayloadStart(c, at, length);
            && 0 <= h.pointer < TWO_32 && 0 <= p.pointer < TWO_32
            && PayloadPlace(c, (h.version % TWO_32, h.pointer), length) == (p.version % TWO_32, p.pointer)
  {
    hide Add32;
    var h := HeaderStart(c, at);
    NextLap(h.version);
    AddIsExact(h.pointer, 4);
    AddIsExact(h.pointer + 4, length);
  }

  /** The placement computed on words is the placement on positions. */
  lemma PlaceRefines(c: Config, at: Position, length: nat)
    requires Sound(c) && InRing(c, at) && length <= c.cap
    ensures PayloadPlace(c, HeaderPlace(c, Word(at)), length)
            == (PayloadStart(c, at, length).version % TWO_32, PayloadStart(c, at, length).pointer)
    ensures Place(c, Word(at), length)
            == Placement(HeaderStart(c, at).pointer, PayloadStart(c, at, length).pointer, Word(Finish(c, at, length)))
  {
    hide HeaderPlace, PayloadPlace, VersionedPointer, Add32;
    HeaderPlaceRefines(c, at);
    PayloadPlaceRefines(c, at, length);
    AddIsExact(PayloadStart(c, at, length).pointer, length);
  }

  lemma FullOnPointers(c: Config, readWord: uint64, writeWord: uint64, length: nat)
    requires Sound(c) && PointerOf(readWord) <= c.size && PointerOf(writeWord) <= c.size && length <= c.cap
    ensures IsFull32(c, readWord, writeWord, length) == IsFull(c, PointerOf(readWord), PointerOf(writeWord), length)
  {
    hide PointerOf, Add32;
    var writePtr := PointerOf(writeWord);
    AddIsExact(length, 4);
    AddIsExact(writePtr, 4);
    if PointerOf(readWord) > writePtr {
      AddIsExact(writePtr, length + 4);
    } else if writePtr + 4 <= c.size {
      AddIsExact(writePtr + 4, length);
    }
  }

  /** The admission test on words is the one on positions. */
  lemma FullRefines(c: Config, r: Position, w: Position, length: nat)
    requires Sound(c) && InRing(c, r) && InRing(c, w) && length <= c.cap
    ensures IsFull32(c, Word(r), Word(w), length) == IsFull(c, r.pointer, w.pointer, length)
  {
    hide Word, PointerOf, IsFull32, IsFull;
    WordParts(c, r);
    WordParts(c, w);
    FullOnPointers(c, Word(r), Word(w), length);
  }

  /** Is the admission test on words the one on positions, for any reader and writer within a lap? */
  ghost predicate ExactOnPositions(c: Config)
    requires c.cap < TWO_32
  {
    forall r: Position, w: Position, length: nat ::
      InRing(c, r) && InRing(c, w) && WithinLap(r, w) && length <= c.cap
      ==> IsFull32(c, Word(r), Word(w), length) == IsFull(c, r.pointer, w.pointer, length)
  }

  /** Is it, wherever the records of any history end and the reader stands less than a lap behind? */
  ghost predicate ExactOnHistories(c: Config)
    requires c.cap < TWO_32
  {
    forall log: seq<seq<byte>>, i: nat, length: nat ::
      Admissible(c, log) && i <= |log| && WithinLap(StartOf(c, log, i), StartOf(c, log, |log|)) && length <= c.cap
      ==> IsFull32(c, WordAt(c, log, i), WordAt(c, log, |log|), length)
          == IsFull(c, StartOf(c, log, i).pointer, StartOf(c, log, |log|).pointer, length)
  }

  lemma SoundIsExact(c: Config)
    requires Sound(c)
    ensures ExactOnPositions(c) && ExactOnHistories(c)
  {
    hide StartOf, IsFull, IsFull32, Word;
    forall r: Position, w: Position, length: nat |
      InRing(c, r) && InRing(c, w) && WithinLap(r, w) && length <= c.cap
      ensures IsFull32(c, Word(r), Word(w), length) == IsFull(c, r.pointer, w.pointer, length)
    {
      FullRefines(c, r, w, length);
    }
    forall log: seq<seq<byte>>, i: nat, length: nat |
      Admissible(c, log) && i <= |log| && WithinLap(StartOf(c, log, i), StartOf(c, log, |log|)) && length <= c.cap
      ensures IsFull32(c, WordAt(c, log, i), WordAt(c, log, |log|), length)
              == IsFull(c, StartOf(c, log, i).pointer, StartOf(c, log, |log|).pointer, length)
    {
      StartInRing(c, log, i);
      StartInRing(c, log, |log|);
      FullRefines(c, StartOf(c, log, i), StartOf(c, log, |log|), length);
    }
  }

  /** The standard cap needs the buffer size and half of it, less two, to stay below 2^32. This is
      exact: one byte more and there is a history of records, some of them read, after which the
      sum wraps and the test admits a record that does not fit. */
  lemma StandardWidthIsExact(size: nat)
    requires 10 <= size < TWO_32
    ensures ExactOnPositions(Standard(size)) <==> size + size / 2 - 2 < TWO_32
    ensures ExactOnHistories(Standard(size)) <==> size + size / 2 - 2 < TWO_32
  {
    hide StartOf, IsFull, IsFull32, Word;
    var c := Standard(size);
    assert Sound(c) <==> size + size / 2 - 2 < TWO_32;
    if Sound(c) {
      SoundIsExact(c);
    } else {
      WrappedSumAdmits(size);
      var log := HistoryToTheEnds(size);
      assert StartOf(c, log, 3) == Position(0, size) && StartOf(c, log, |log|) == Position(1, size - 1);
      assert !IsFull32(c, WordAt(c, log, 3), WordAt(c, log, |log|), c.cap);
    }
  }

  lemma WrappedSumAdmits(size: nat)
    requires 10 <= size < TWO_32 && size + size / 2 - 2 >= TWO_32
    ensures var c, r, w := Standard(size), Position(0, size), Position(1, size - 1);
            InRing(c, r) && InRing(c, w) && WithinLap(r, w)
            && !IsFull32(c, Word(r), Word(w), c.cap) && IsFull(c, r.pointer, w.pointer, c.cap)
  {
    UnpackPack(0, size);
    UnpackPack(1, size - 1);
    assert Add32(size - 1, Add32(Standard(size).cap, 4)) == size - 1 + Standard(size).cap + 4 - TWO_32;
  }

  /** Three records that fill the buffer to its last byte, and three more that stop one byte short. */
  lemma HistoryToTheEnds(size: nat) returns (log: seq<seq<byte>>)
    requires 20 <= size
    ensures Admissible(Standard(size), log) && |log| == 6
    ensures StartOf(Standard(size), log, 3) == Position(0, size)
    ensures StartOf(Standard(size), log, 6) == Position(1, size - 1)
  {
    var c := Standard(size);
    var l := size / 2 - 7;
    var long, rest, less := seq(l, _ => 0), seq(size - 12 - 2 * l, _ => 0), seq(size - 13 - 2 * l, _ => 0);
    log := [long, long, rest, long, long, less];
    assert StartOf(c, log, 0) == Position(0, 0);
    assert StartOf(c, log, 1) == Position(0, l + 4);
    assert StartOf(c, log, 2) == Position(0, 2 * l + 8);
    assert StartOf(c, log, 3) == Position(0, size);
    assert StartOf(c, log, 4) == Position(1, l + 4);
    assert StartOf(c, log, 5) == Position(1, 2 * l + 8);
  }

  /** Two positions less than a lap apart have equal words only if they are equal: comparing
      the packed words is an exact test for an empty pipe. */
  lemma EmptyRefines(c: Config, r: Position, w: Position)
    requires Sound(c) && InRing(c, r) && InRing(c, w) && WithinLap(r, w)
    ensures Word(r) == Word(w) <==> r == w
    ensures Subtract32(VersionOf(Word(w)), VersionOf(Word(r))) == w.version - r.version <= 1
  {
    WordParts(c, r);
    WordParts(c, w);
    if w.version != r.version {
      assert w.version == r.version + 1;
      NextLap(r.version);
    }
  }
}
