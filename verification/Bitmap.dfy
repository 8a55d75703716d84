/** The byte bitmaps of mem/alloc.c: one bit a block, set when the block is used. */
module Bitmap {

  function Mask(bit: nat): bv8
    requires bit < 8
  {
    if bit == 0 then 0x01 else if bit == 1 then 0x02 else if bit == 2 then 0x04 else if bit == 3 then 0x08
    else if bit == 4 then 0x10 else if bit == 5 then 0x20 else if bit == 6 then 0x40 else 0x80
  }

  /** The masks are the powers of two. */
  lemma MaskIsShift(bit: nat)
    requires bit < 8
    ensures Mask(bit) == (1 as bv8) << bit
  {
  }

  predicate BitOf(byte: bv8, bit: nat)
    requires bit < 8
  {
    byte & Mask(bit) != 0
  }

  /** Block `i` is used. */
  predicate Used(bits: seq<bv8>, i: nat)
    requires i < 8 * |bits|
  {
    BitOf(bits[i / 8], i % 8)
  }

  lemma SetBit(byte: bv8, bit: nat, other: nat)
    requires bit < 8 && other < 8
    ensures BitOf(byte | Mask(bit), other) == (other == bit || BitOf(byte, other))
  {
    if other == bit {
      SetSame(byte, bit);
    }
  }

  lemma SetSame(byte: bv8, bit: nat)
    requires bit < 8
    ensures BitOf(byte | Mask(bit), bit)
  {
  }

  lemma ClearBit(byte: bv8, bit: nat, other: nat)
    requires bit < 8 && other < 8
    ensures BitOf(byte & !Mask(bit), other) == (other != bit && BitOf(byte, other))
  {
  }

  lemma ZeroByte(byte: bv8)
    ensures byte == 0 <==> forall bit: nat | bit < 8 :: !BitOf(byte, bit)
  {
    if byte != 0 {
      assert BitOf(byte, 0) || BitOf(byte, 1) || BitOf(byte, 2) || BitOf(byte, 3)
          || BitOf(byte, 4) || BitOf(byte, 5) || BitOf(byte, 6) || BitOf(byte, 7);
    }
  }

  /** `count` free blocks start at `start`. */
  predicate FreeRun(bits: seq<bv8>, start: nat, count: nat)
    requires start + count <= 8 * |bits|
  {
    forall i: nat | start <= i < start + count :: !Used(bits, i)
  }

  /** heap_map_find_free: the leftmost run of `needed` free blocks, or -1 if there is none. */
  method FindFree(bits: array<bv8>, total: nat, needed: nat) returns (r: int)
    requires total <= 8 * bits.Length && needed >= 1
    ensures r >= 0 ==> r + needed <= total && FreeRun(bits[..], r, needed)
    ensures r >= 0 ==> forall s: nat | s < r :: !FreeRun(bits[..], s, needed)
    ensures r < 0 ==> r == -1 && forall s: nat | s + needed <= total :: !FreeRun(bits[..], s, needed)
  {
    var run: nat, start: int := 0, -1;
    var i: nat := 0;
    while i < total
      invariant i <= total && run < needed
      invariant run == 0 || start == i - run
      invariant run <= i && FreeRun(bits[..], i - run, run)
      invariant i == run || Used(bits[..], i - run - 1)
      invariant forall s: nat | s + run < i && s + needed <= total :: !FreeRun(bits[..], s, needed)
    {
      if bits[i / 8] & Mask(i % 8) == 0 {
        assert !Used(bits[..], i);
        if run == 0 {
          start := i;
        }
        run := run + 1;
        if run >= needed {
          return start;
        }
      } else {
        assert Used(bits[..], i);
        run := 0;
        start := -1;
      }
      i := i + 1;
    }
    return -1;
  }

  /** heap_map_set: mark `count` blocks from `start` on as used or free, and touch no other. */
  method MapSet(bits: array<bv8>, start: nat, count: nat, used: bool)
    requires start + count <= 8 * bits.Length
    modifies bits
    ensures forall i: nat | i < 8 * bits.Length ::
              Used(bits[..], i) == if start <= i < start + count then used else old(Used(bits[..], i))
  {
    var i: nat := start;
    while i < start + count
      invariant start <= i <= start + count
      invariant forall j: nat | j < 8 * bits.Length ::
                  Used(bits[..], j) == if start <= j < i then used else old(Used(bits[..], j))
    {
      SetOne(bits, i, used);
      i := i + 1;
    }
  }

  /** The loop body of heap_map_set. */
  method SetOne(bits: array<bv8>, i: nat, used: bool)
    requires i < 8 * bits.Length
    modifies bits
    ensures forall j: nat | j < 8 * bits.Length ::
              Used(bits[..], j) == if j == i then used else old(Used(bits[..], j))
  {
    var byte, bit := i / 8, i % 8;
    ghost var was := bits[..];
    if used {
      bits[byte] := bits[byte] | Mask(bit);
    } else {
      bits[byte] := bits[byte] & !Mask(bit);
    }
    forall j: nat | j < 8 * bits.Length ensures Used(bits[..], j) == if j == i then used else Used(was, j) {
      OneBit(was, bits[..], i, used, j);
    }
  }

  /** The byte heap_map_set writes back for one block. */
  function Written(byte: bv8, bit: nat, used: bool): bv8
    requires bit < 8
  {
    if used then byte | Mask(bit) else byte & !Mask(bit)
  }

  lemma WrittenBit(byte: bv8, bit: nat, used: bool, other: nat)
    requires bit < 8 && other < 8
    ensures BitOf(Written(byte, bit, used), other) == if other == bit then used else BitOf(byte, other)
  {
    SetBit(byte, bit, other);
    ClearBit(byte, bit, other);
  }

  lemma OneBit(was: seq<bv8>, now: seq<bv8>, i: nat, used: bool, j: nat)
    requires i < 8 * |was| && j < 8 * |was|
    requires now == was[i / 8 := Written(was[i / 8], i % 8, used)]
    ensures Used(now, j) == if j == i then used else Used(was, j)
  {
    WrittenBit(was[i / 8], i % 8, used, j % 8);
  }

  /** heap_box_is_empty's scan: no byte is set exactly when no block is used. */
  method IsEmpty(bits: array<bv8>) returns (r: bool)
    ensures r <==> forall i: nat | i < 8 * bits.Length :: !Used(bits[..], i)
  {
    var i := 0;
    while i < bits.Length
      invariant i <= bits.Length
      invariant forall j: nat | j < 8 * i :: !Used(bits[..], j)
    {
      ZeroByte(bits[i]);
      if bits[i] != 0 {
        var bit: nat :| bit < 8 && BitOf(bits[i], bit);
        assert Used(bits[..], 8 * i + bit);
        return false;
      }
      forall j: nat | 8 * i <= j < 8 * (i + 1) ensures !Used(bits[..], j) {
        assert j / 8 == i;
      }
      i := i + 1;
    }
    return true;
  }
}
