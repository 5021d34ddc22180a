/** Bits in a piece of memory, numbered from the left of the first byte. */
module Bitmap {
  import opened Bytes

  /** The mask of bit `nr` in its byte. */
  function Mask(nr: nat): bv8 {
    ((1 as bv8) << 7) >> (nr % 8)
  }

  predicate TestBit(bytes: seq<bv8>, nr: nat)
    requires nr < 8 * |bytes|
  {
    HasBit(bytes[nr / 8], nr)
  }

  /** The bits that are set. */
  function Bits(bytes: seq<bv8>): set<nat> {
    set nr: nat | nr < 8 * |bytes| && TestBit(bytes, nr)
  }

  lemma MaskTable(k: nat)
    requires k < 8
    ensures Mask(k) == (match k case 0 => 0x80 case 1 => 0x40 case 2 => 0x20 case 3 => 0x10
                        case 4 => 0x08 case 5 => 0x04 case 6 => 0x02 case _ => 0x01)
  {
  }

  predicate HasBit(b: bv8, k: nat) {
    b & Mask(k) != 0
  }

  /** What the three statements do to one byte. In the form with a flag, `-set` is all ones or
      all zeros. */
  function WithBit(b: bv8, k: nat): bv8 {
    b | Mask(k)
  }

  function WithoutBit(b: bv8, k: nat): bv8 {
    b & !Mask(k)
  }

  function WithBitSetTo(b: bv8, k: nat, on: bool): bv8 {
    (b & !Mask(k)) | ((if on then 0xFF else 0x00) & Mask(k))
  }

  lemma SetsOneBit(b: bv8, k: nat, l: nat)
    requires k < 8 && l < 8
    ensures HasBit(WithBit(b, k), l) <==> k == l || HasBit(b, l)
  {
    MaskTable(k);
    MaskTable(l);
  }

  lemma ClearsOneBit(b: bv8, k: nat, l: nat)
    requires k < 8 && l < 8
    ensures HasBit(WithoutBit(b, k), l) <==> k != l && HasBit(b, l)
  {
    MaskTable(k);
    MaskTable(l);
  }

  lemma FlagForms(b: bv8, k: nat)
    ensures WithBitSetTo(b, k, true) == WithBit(b, k)
    ensures WithBitSetTo(b, k, false) == WithoutBit(b, k)
  {
  }

  lemma SetUndoesClearOfByte(b: bv8, k: nat)
    requires k < 8 && HasBit(b, k)
    ensures WithBit(WithoutBit(b, k), k) == b
  {
    MaskTable(k);
  }

  lemma SameMask(nr: nat)
    ensures Mask(nr) == Mask(nr % 8)
  {
  }

  lemma SameForEqualMasks(b: bv8, k: nat, l: nat)
    requires Mask(k) == Mask(l)
    ensures HasBit(b, k) == HasBit(b, l) && WithBit(b, k) == WithBit(b, l) && WithoutBit(b, k) == WithoutBit(b, l)
  {
    hide Mask;
  }

  lemma SameBit(b: bv8, nr: nat)
    ensures HasBit(b, nr) == HasBit(b, nr % 8) && WithBit(b, nr) == WithBit(b, nr % 8)
    ensures WithoutBit(b, nr) == WithoutBit(b, nr % 8)
  {
    hide *;
    SameMask(nr);
    SameForEqualMasks(b, nr, nr % 8);
  }

  lemma Pow2Table(k: nat)
    requires k < 8
    ensures Pow2(7 - k) == (match k case 0 => 128 case 1 => 64 case 2 => 32 case 3 => 16
                            case 4 => 8 case 5 => 4 case 6 => 2 case _ => 1)
  {
    assert Pow2(1) == 2 && Pow2(2) == 4 && Pow2(3) == 8 && Pow2(4) == 16 && Pow2(5) == 32 && Pow2(6) == 64;
  }

  lemma SetAddsHighPower(b: bv8, k: nat)
    requires k < 4 && !HasBit(b, k)
    ensures WithBit(b, k) as nat == b as nat + Pow2(7 - k)
  {
    hide Mask, Pow2;
    MaskTable(k);
    Pow2Table(k);
    match k
    case 0 => assert b & 0x80 == 0 ==> (b | 0x80) as nat == b as nat + 128;
    case 1 => assert b & 0x40 == 0 ==> (b | 0x40) as nat == b as nat + 64;
    case 2 => assert b & 0x20 == 0 ==> (b | 0x20) as nat == b as nat + 32;
    case _ => assert b & 0x10 == 0 ==> (b | 0x10) as nat == b as nat + 16;
  }

  lemma SetAddsLowPower(b: bv8, k: nat)
    requires 4 <= k < 8 && !HasBit(b, k)
    ensures WithBit(b, k) as nat == b as nat + Pow2(7 - k)
  {
    hide Mask, Pow2;
    MaskTable(k);
    Pow2Table(k);
    match k
    case 4 => assert b & 0x08 == 0 ==> (b | 0x08) as nat == b as nat + 8;
    case 5 => assert b & 0x04 == 0 ==> (b | 0x04) as nat == b as nat + 4;
    case 6 => assert b & 0x02 == 0 ==> (b | 0x02) as nat == b as nat + 2;
    case _ => assert b & 0x01 == 0 ==> (b | 0x01) as nat == b as nat + 1;
  }

  /** Setting a clear bit of a byte adds its power of two. */
  lemma SetAddsPowerToByte(b: bv8, k: nat)
    requires k < 8 && !HasBit(b, k)
    ensures WithBit(b, k) as nat == b as nat + Pow2(7 - k)
  {
    hide HasBit, WithBit, Pow2;
    if k < 4 {
      SetAddsHighPower(b, k);
    } else {
      SetAddsLowPower(b, k);
    }
  }

  /** The bytes read as one number, the leftmost first. */
  function Value(bytes: seq<bv8>): nat {
    if bytes == [] then 0 else 0x100 * Value(bytes[..|bytes| - 1]) + bytes[|bytes| - 1] as nat
  }

  /** The memory after `set_bit`, after `clr_bit`, and after the form of `set_bit` with a flag. */
  function AfterSet(bytes: seq<bv8>, nr: nat): seq<bv8>
    requires nr < 8 * |bytes|
  {
    bytes[nr / 8 := WithBit(bytes[nr / 8], nr)]
  }

  function AfterClear(bytes: seq<bv8>, nr: nat): seq<bv8>
    requires nr < 8 * |bytes|
  {
    bytes[nr / 8 := WithoutBit(bytes[nr / 8], nr)]
  }

  function AfterSetTo(bytes: seq<bv8>, nr: nat, on: bool): seq<bv8>
    requires nr < 8 * |bytes|
  {
    bytes[nr / 8 := WithBitSetTo(bytes[nr / 8], nr, on)]
  }

  // ---------------------------------------------------------------------------------------
  // The bitmap is a set

  /** `set_bit` adds exactly one index, `clr_bit` removes exactly one. */
  lemma BitsAfter(bytes: seq<bv8>, nr: nat)
    requires nr < 8 * |bytes|
    ensures Bits(AfterSet(bytes, nr)) == Bits(bytes) + {nr}
    ensures Bits(AfterClear(bytes, nr)) == Bits(bytes) - {nr}
  {
    hide HasBit, WithBit, WithoutBit;
    forall n: nat | n < 8 * |bytes|
      ensures TestBit(AfterSet(bytes, nr), n) <==> n == nr || TestBit(bytes, n)
      ensures TestBit(AfterClear(bytes, nr), n) <==> n != nr && TestBit(bytes, n)
    {
      if n / 8 == nr / 8 {
        var b := bytes[nr / 8];
        SameBit(b, n);
        SameBit(b, nr);
        SameBit(WithBit(b, nr), n);
        SameBit(WithoutBit(b, nr), n);
        SetsOneBit(b, nr % 8, n % 8);
        ClearsOneBit(b, nr % 8, n % 8);
      }
    }
  }

  /** Both forms of `set_bit` agree, and the second with a false flag is `clr_bit`. */
  lemma FormsAgree(bytes: seq<bv8>, nr: nat)
    requires nr < 8 * |bytes|
    ensures AfterSetTo(bytes, nr, true) == AfterSet(bytes, nr)
    ensures AfterSetTo(bytes, nr, false) == AfterClear(bytes, nr)
  {
    hide WithBit, WithoutBit, WithBitSetTo;
    FlagForms(bytes[nr / 8], nr);
  }

  datatype Call = Set(nr: nat) | Clear(nr: nat)

  function AfterCalls(bytes: seq<bv8>, calls: seq<Call>): (after: seq<bv8>)
    requires forall call | call in calls :: call.nr < 8 * |bytes|
    ensures |after| == |bytes|
    decreases |calls|
  {
    if calls == [] then bytes
    else
      assert calls[0] in calls;
      var next := if calls[0].Set? then AfterSet(bytes, calls[0].nr) else AfterClear(bytes, calls[0].nr);
      AfterCalls(next, calls[1..])
  }

  function SetAfterCalls(bits: set<nat>, calls: seq<Call>): set<nat>
    decreases |calls|
  {
    if calls == [] then bits
    else SetAfterCalls(if calls[0].Set? then bits + {calls[0].nr} else bits - {calls[0].nr}, calls[1..])
  }

  /** After any calls, `test_bit` answers for each index as the set of indices would. */
  lemma {:induction false} BitmapRefinesSet(bytes: seq<bv8>, calls: seq<Call>, n: nat)
    requires forall call | call in calls :: call.nr < 8 * |bytes|
    requires n < 8 * |bytes|
    ensures TestBit(AfterCalls(bytes, calls), n) <==> n in SetAfterCalls(Bits(bytes), calls)
    decreases |calls|
  {
    hide TestBit, AfterSet, AfterClear;
    if calls != [] {
      assert calls[0] in calls;
      BitsAfter(bytes, calls[0].nr);
      SameSize(bytes, calls[0].nr);
      var next := if calls[0].Set? then AfterSet(bytes, calls[0].nr) else AfterClear(bytes, calls[0].nr);
      BitmapRefinesSet(next, calls[1..], n);
    }
  }

  lemma SameSize(bytes: seq<bv8>, nr: nat)
    requires nr < 8 * |bytes|
    ensures |AfterSet(bytes, nr)| == |AfterClear(bytes, nr)| == |bytes|
  {
  }

  // ---------------------------------------------------------------------------------------
  // The bitmap is a number

  lemma ValueOfLast(bytes: seq<bv8>, b: bv8)
    ensures Value(bytes + [b]) == 0x100 * Value(bytes) + b as nat
  {
    assert (bytes + [b])[..|bytes|] == bytes;
  }

  lemma SetInLast(bytes: seq<bv8>, b: bv8, k: nat)
    requires k < 8 && !HasBit(b, k)
    ensures Value(bytes + [WithBit(b, k)]) == Value(bytes + [b]) + Pow2(7 - k)
  {
    hide HasBit, WithBit, Pow2, Value;
    ValueOfLast(bytes, b);
    ValueOfLast(bytes, WithBit(b, k));
    SetAddsPowerToByte(b, k);
  }

  lemma WhereSetLands(bytes: seq<bv8>, b: bv8, nr: nat)
    requires nr < 8 * |bytes| + 8
    ensures AfterSet(bytes + [b], nr)
            == (if nr < 8 * |bytes| then AfterSet(bytes, nr) + [b] else bytes + [WithBit(b, nr % 8)])
    ensures nr < 8 * |bytes| ==> TestBit(bytes + [b], nr) == TestBit(bytes, nr)
    ensures nr >= 8 * |bytes| ==> TestBit(bytes + [b], nr) == HasBit(b, nr % 8)
  {
    hide HasBit, WithBit;
    SameBit(b, nr);
  }

  /** On k bytes read as one number, setting clear bit `nr` adds exactly 2^(8k - 1 - nr). */
  lemma {:induction false} SetAddsPower(bytes: seq<bv8>, nr: nat)
    requires nr < 8 * |bytes| && !TestBit(bytes, nr)
    ensures Value(AfterSet(bytes, nr)) == Value(bytes) + Pow2(8 * |bytes| - 1 - nr)
    decreases |bytes|
  {
    hide HasBit, WithBit, Pow2, Value, AfterSet, TestBit;
    var front, b := bytes[..|bytes| - 1], bytes[|bytes| - 1];
    assert bytes == front + [b];
    WhereSetLands(front, b, nr);
    if nr < 8 * |front| {
      SetAddsPower(front, nr);
      Pow2Of8More(8 * |front| - 1 - nr);
      ValueOfLast(front, b);
      ValueOfLast(AfterSet(front, nr), b);
    } else {
      SetInLast(front, b, nr % 8);
      assert 8 * |bytes| - 1 - nr == 7 - nr % 8;
    }
  }

  /** Clearing a set bit takes the same power of two away. */
  lemma ClearTakesPower(bytes: seq<bv8>, nr: nat)
    requires nr < 8 * |bytes| && TestBit(bytes, nr)
    ensures Value(AfterClear(bytes, nr)) == Value(bytes) - Pow2(8 * |bytes| - 1 - nr)
  {
    var cleared := AfterClear(bytes, nr);
    BitsAfter(bytes, nr);
    assert nr !in Bits(cleared);
    SetAddsPower(cleared, nr);
    SetUndoesClear(bytes, nr);
  }

  lemma SetUndoesClear(bytes: seq<bv8>, nr: nat)
    requires nr < 8 * |bytes| && TestBit(bytes, nr)
    ensures AfterSet(AfterClear(bytes, nr), nr) == bytes
  {
    hide HasBit, WithBit, WithoutBit;
    var b := bytes[nr / 8];
    SameBit(b, nr);
    SameBit(WithoutBit(b, nr), nr);
    SetUndoesClearOfByte(b, nr % 8);
  }

  // ---------------------------------------------------------------------------------------
  // In place

  method SetBit(addr: array<bv8>, nr: nat)
    requires nr < 8 * addr.Length
    modifies addr
    ensures addr[..] == AfterSet(old(addr[..]), nr)
    ensures Bits(addr[..]) == old(Bits(addr[..])) + {nr}
  {
    hide Mask, HasBit;
    BitsAfter(addr[..], nr);
    addr[nr / 8] := addr[nr / 8] | Mask(nr);
  }

  method SetBitTo(addr: array<bv8>, nr: nat, on: bool)
    requires nr < 8 * addr.Length
    modifies addr
    ensures addr[..] == (if on then AfterSet(old(addr[..]), nr) else AfterClear(old(addr[..]), nr))
    ensures Bits(addr[..]) == (if on then old(Bits(addr[..])) + {nr} else old(Bits(addr[..])) - {nr})
  {
    BitsAfter(addr[..], nr);
    FormsAgree(addr[..], nr);
    addr[nr / 8] := (addr[nr / 8] & !Mask(nr)) | ((if on then 0xFF else 0x00) & Mask(nr));
  }

  method ClearBit(addr: array<bv8>, nr: nat)
    requires nr < 8 * addr.Length
    modifies addr
    ensures addr[..] == AfterClear(old(addr[..]), nr)
    ensures Bits(addr[..]) == old(Bits(addr[..])) - {nr}
  {
    BitsAfter(addr[..], nr);
    addr[nr / 8] := addr[nr / 8] & !Mask(nr);
  }
}
