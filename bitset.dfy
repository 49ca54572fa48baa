/** `dynamic_bitset`: the per-entity presence mask. Bit i is set when the entity carries the
    component whose type id is i; bit 0 is the "alive" bit. The mask is held as the flat
    sequence of its `numbits` bits; the single-word mode (`using_sdo`) is the state in which
    that sequence is exactly one word long. */
module Bitsets {

  const WordSize: nat := 64

  /** What `numbits` always is: a positive multiple of the word size. */
  predicate WellSized(bits: seq<bool>) {
    |bits| >= WordSize && |bits| % WordSize == 0
  }

  /** The bit `get(i)` reads: bits past the end read as false. */
  function BitAt(bits: seq<bool>, i: nat): bool {
    i < |bits| && bits[i]
  }

  /** The size `resize(n)` allocates: `n` rounded up to whole words. */
  function RoundUp(n: nat): (r: nat)
    ensures r % WordSize == 0 && n <= r < n + WordSize
  {
    (n + WordSize - 1) / WordSize * WordSize
  }

  /** The mask after `resize(n)`: it grows to `RoundUp(n)` bits when `n` exceeds the size,
      keeping every bit and adding false ones; otherwise it is unchanged. */
  function Resized(bits: seq<bool>, n: nat): (r: seq<bool>)
    ensures |r| == if n > |bits| then RoundUp(n) else |bits|
    ensures forall j :: 0 <= j < |r| ==> r[j] == BitAt(bits, j)
  {
    if n > |bits| then bits + seq(RoundUp(n) - |bits|, _ => false) else bits
  }

  /** The mask after `set(i)`, bit by bit: bit `i` and every bit that was set. */
  function WithBit(bits: seq<bool>, i: nat): seq<bool> {
    seq(if i < |bits| then |bits| else RoundUp(i + 1), (j: int) requires 0 <= j => j == i || BitAt(bits, j))
  }

  /** The mask after `unset(i)`: bit `i` cleared when it exists. */
  function WithoutBit(bits: seq<bool>, i: nat): seq<bool> {
    seq(|bits|, j requires 0 <= j < |bits| => j != i && bits[j])
  }

  /** The mask after `zero()`: every bit cleared. */
  function Cleared(bits: seq<bool>): seq<bool> {
    seq(|bits|, _ => false)
  }

  /** A fresh mask: one word of false bits. */
  function Fresh(): (r: seq<bool>)
    ensures WellSized(r) && |r| == WordSize
    ensures forall i: nat :: !BitAt(r, i)
  {
    seq(WordSize, _ => false)
  }

  /** `set(i)` keeps the size a positive multiple of the word size and never shrinks it; it
      grows only when `i` is past the end, and then to the smallest multiple of the word size
      that exceeds `i`. Afterwards bit `i` is set and every other bit reads as before. */
  lemma SetGrowth(bits: seq<bool>, i: nat)
    requires WellSized(bits)
    ensures var r := WithBit(bits, i);
      WellSized(r) && |bits| <= |r| &&
      (i < |bits| ==> |r| == |bits|) &&
      (i >= |bits| ==> i < |r| && |r| - WordSize <= i) &&
      forall j: nat :: BitAt(r, j) == (j == i || BitAt(bits, j))
  {
    var r := WithBit(bits, i);
    if i >= |bits| {
      assert |r| == RoundUp(i + 1);
      assert |bits| <= |r| by {
        // both are multiples of the word size and |bits| <= i < |r|
        assert |bits| <= i;
      }
    }
  }

  /** `unset(i)` past the end changes nothing, so the size and the single-word mode stay. */
  lemma UnsetPastEnd(bits: seq<bool>, i: nat)
    requires i >= |bits|
    ensures WithoutBit(bits, i) == bits
  {
  }

  /** `unset(i)` clears bit `i` only, and keeps the size. */
  lemma UnsetSemantics(bits: seq<bool>, i: nat)
    ensures var r := WithoutBit(bits, i);
      |r| == |bits| && forall j: nat :: BitAt(r, j) == (j != i && BitAt(bits, j))
  {
  }

  /** `zero()` clears every bit and keeps the size. */
  lemma ZeroSemantics(bits: seq<bool>)
    ensures var r := Cleared(bits);
      |r| == |bits| && forall j: nat :: !BitAt(r, j)
  {
  }

  /** The mask object. `bits` holds bits `0 .. numbits - 1` of the words, in order. */
  class DynamicBitset {
    var bits: seq<bool>

    ghost predicate Valid()
      reads this
    {
      WellSized(bits)
    }

    constructor ()
      ensures Valid() && bits == Fresh()
    {
      bits := seq(WordSize, _ => false);
    }

    function Size(): nat
      reads this
    {
      |bits|
    }

    predicate UsingSdo()
      reads this
    {
      |bits| == WordSize
    }

    method Resize(n: nat)
      requires Valid()
      modifies this
      ensures Valid() && bits == Resized(old(bits), n)
    {
      if n > |bits| {
        var count := (n + WordSize - 1) / WordSize;
        var newlen := count * WordSize;
        bits := bits + seq(newlen - |bits|, _ => false);
      }
    }

    /** `get(i)`: bit `i`, and false without growing for `i` at or past the size. */
    function Get(i: nat): (b: bool)
      reads this
      ensures i >= Size() ==> !b
      ensures i < Size() ==> b == bits[i]
    {
      BitAt(bits, i)
    }

    method Set(i: nat)
      requires Valid()
      modifies this
      ensures Valid() && bits == WithBit(old(bits), i)
    {
      if UsingSdo() && i < WordSize {
        bits := bits[i := true];
      } else {
        Resize(i + 1);
        bits := bits[i := true];
      }
    }

    method Unset(i: nat)
      requires Valid()
      modifies this
      ensures Valid() && bits == WithoutBit(old(bits), i)
    {
      if i < |bits| {
        bits := bits[i := false];
      }
    }

    method Zero()
      requires Valid()
      modifies this
      ensures Valid() && bits == Cleared(old(bits))
    {
      bits := seq(|bits|, _ => false);
    }
  }
}
