/** The boxes of mem/alloc.c: pages carved into blocks under a bitmap, and the list of them. */
module Boxes {
  import opened Bitmap
  import opened Common

  const BLOCK_SIZE: nat := 32
  /** OBJECT_ALIGN: one pointer. */
  const OBJECT_ALIGN: nat := 4
  /** sizeof(box_t): four pointers, a padded 16-bit count, a 32-bit lock, a 32-bit id. */
  const BOX_BYTES: nat := 28
  const BLOCKS_PER_BOX: nat := (PAGE_SIZE - BOX_BYTES) / (BLOCK_SIZE + 1)
  const MAP_BYTES: nat := (BLOCKS_PER_BOX + 7) / 8

  /** Blocks an object of `size` bytes and its header word take. */
  function Needed(size: nat): (n: nat)
    ensures n >= 1
    ensures BLOCK_SIZE * (n - 1) < size + OBJECT_ALIGN <= BLOCK_SIZE * n
  {
    (size + OBJECT_ALIGN + BLOCK_SIZE - 1) / BLOCK_SIZE
  }

  /** An object of that size fits an empty box. */
  predicate InABox(size: nat) {
    Needed(size) <= BLOCKS_PER_BOX
  }

  /** The runs of a box's live objects, first block to length: in range and disjoint. */
  ghost predicate RunsOk(runs: map<nat, nat>) {
    && (forall s | s in runs :: runs[s] >= 1 && s + runs[s] <= BLOCKS_PER_BOX)
    && (forall s, t | s in runs && t in runs && s < t :: s + runs[s] <= t)
  }

  ghost predicate InRun(runs: map<nat, nat>, i: nat) {
    exists s | s in runs :: s <= i < s + runs[s]
  }

  /** The used bits are exactly the union of the runs. */
  ghost predicate UsedByRuns(bits: seq<bv8>, runs: map<nat, nat>) {
    |bits| == MAP_BYTES && forall i: nat | i < 8 * MAP_BYTES :: Used(bits, i) <==> InRun(runs, i)
  }

  lemma RunAdded(was: seq<bv8>, now: seq<bv8>, runs: map<nat, nat>, start: nat, count: nat)
    requires RunsOk(runs) && UsedByRuns(was, runs) && |now| == |was|
    requires count >= 1 && start + count <= BLOCKS_PER_BOX && FreeRun(was, start, count)
    requires forall i: nat | i < 8 * |was| :: Used(now, i) == if start <= i < start + count then true else Used(was, i)
    ensures start !in runs && RunsOk(runs[start := count]) && UsedByRuns(now, runs[start := count])
  {
    var runs' := runs[start := count];
    forall s | s in runs ensures s + runs[s] <= start || start + count <= s {
      assert InRun(runs, s) && Used(was, s);
      assert s <= start < s + runs[s] ==> InRun(runs, start);
    }
    forall i: nat | i < 8 * MAP_BYTES ensures Used(now, i) <==> InRun(runs', i) {
      if InRun(runs, i) {
        var s :| s in runs && s <= i < s + runs[s];
        assert s in runs' && runs'[s] == runs[s];
      }
      if start <= i < start + count {
        assert start in runs';
      }
    }
  }

  lemma RunRemoved(was: seq<bv8>, now: seq<bv8>, runs: map<nat, nat>, start: nat)
    requires RunsOk(runs) && UsedByRuns(was, runs) && |now| == |was| && start in runs
    requires forall i: nat | i < 8 * |was| ::
               Used(now, i) == if start <= i < start + runs[start] then false else Used(was, i)
    ensures RunsOk(runs - {start}) && UsedByRuns(now, runs - {start})
  {
    var runs' := runs - {start};
    forall i: nat | i < 8 * MAP_BYTES ensures Used(now, i) <==> InRun(runs', i) {
      if InRun(runs, i) && !(start <= i < start + runs[start]) {
        var s :| s in runs && s <= i < s + runs[s];
        assert s in runs' && runs'[s] == runs[s];
      }
      if InRun(runs', i) {
        var s :| s in runs' && s <= i < s + runs'[s];
        assert s in runs && s != start;
      }
    }
  }

  /** No run meets the `count` blocks from `start` on. */
  ghost predicate FreeAt(runs: map<nat, nat>, start: nat, count: nat) {
    forall i: nat {:trigger InRun(runs, i)} | start <= i < start + count :: !InRun(runs, i)
  }

  /** The first block of the leftmost free stretch of `count` blocks is `start`. */
  ghost predicate Leftmost(runs: map<nat, nat>, count: nat, start: nat) {
    && start + count <= BLOCKS_PER_BOX && FreeAt(runs, start, count)
    && forall s: nat {:trigger FreeAt(runs, s, count)} | s < start :: !FreeAt(runs, s, count)
  }

  ghost predicate Full(runs: map<nat, nat>, count: nat) {
    forall s: nat {:trigger FreeAt(runs, s, count)} | s + count <= BLOCKS_PER_BOX :: !FreeAt(runs, s, count)
  }

  lemma FreeIffNoRun(bits: seq<bv8>, runs: map<nat, nat>, start: nat, count: nat)
    requires UsedByRuns(bits, runs) && start + count <= BLOCKS_PER_BOX
    ensures FreeRun(bits, start, count) <==> FreeAt(runs, start, count)
  {
    assert forall i: nat | start <= i < start + count :: Used(bits, i) <==> InRun(runs, i);
  }

  lemma UsedIffRuns(bits: seq<bv8>, runs: map<nat, nat>)
    requires RunsOk(runs) && UsedByRuns(bits, runs)
    ensures runs != map[] <==> exists i: nat | i < 8 * MAP_BYTES :: Used(bits, i)
  {
    if runs != map[] {
      var s :| s in runs;
      assert InRun(runs, s) && Used(bits, s);
    }
    if i: nat :| i < 8 * MAP_BYTES && Used(bits, i) {
      assert InRun(runs, i);
    }
  }

  /** Mentioning Opened(bits) lets the verifier look into Intact(bits, runs). */
  ghost predicate Opened(bits: seq<bv8>) {
    true
  }

  /** The bitmap shows exactly the runs.  The body is instantiated only where Opened is
      mentioned, so that the heap reasons about the runs alone. */
  ghost predicate Intact(bits: seq<bv8>, runs: map<nat, nat>) {
    forall b {:trigger Opened(b)} | Opened(b) :: b == bits ==> RunsOk(runs) && UsedByRuns(b, runs)
  }

  class Box {
    const page: nat
    const bits: array<bv8>
    var next: Box?
    var id: nat
    ghost var runs: map<nat, nat>

    /** data_pointer: behind the structure and its bitmap. */
    function Data(): nat {
      page + BOX_BYTES + MAP_BYTES
    }

    ghost predicate Valid()
      reads this`runs, bits
    {
      bits.Length == MAP_BYTES && Intact(bits[..], runs)
    }

    /** box_init. */
    constructor (page: nat)
      ensures Valid() && this.page == page && next == null && runs == map[] && fresh(bits)
    {
      this.page := page;
      bits := new bv8[MAP_BYTES](_ => 0);
      next, id, runs := null, 0, map[];
      new;
      forall i: nat | i < 8 * MAP_BYTES ensures !Used(bits[..], i) {
        ZeroByte(bits[i / 8]);
      }
    }

    /** heap_box_alloc up to the header: take the leftmost stretch that is large enough; -1
        if there is none. */
    method Alloc(size: nat) returns (start: int)
      requires Valid()
      modifies this`runs, bits
      ensures Valid()
      ensures start < 0 ==> Full(old(runs), Needed(size)) && runs == old(runs)
      ensures start >= 0 ==> Leftmost(old(runs), Needed(size), start) && start !in old(runs)
      ensures start >= 0 ==> RunsOk(runs) && runs == old(runs)[start as nat := Needed(size)]
    {
      assert Opened(bits[..]);
      var needed := (size + OBJECT_ALIGN + BLOCK_SIZE - 1) / BLOCK_SIZE;
      start := FindFree(bits, BLOCKS_PER_BOX, needed);
      ghost var was := bits[..];
      forall s: nat | s + needed <= BLOCKS_PER_BOX ensures FreeRun(was, s, needed) <==> FreeAt(runs, s, needed) {
        FreeIffNoRun(was, runs, s, needed);
      }
      if start < 0 {
        return;
      }
      MapSet(bits, start, needed, true);
      RunAdded(was, bits[..], runs, start, needed);
      runs := runs[start as nat := needed];
    }

    /** The bitmap part of kfree. */
    method Release(start: nat, count: nat)
      requires Valid() && start in runs && runs[start] == count
      modifies this`runs, bits
      ensures Valid() && runs == old(runs) - {start}
    {
      ghost var was := bits[..];
      assert Opened(was);
      MapSet(bits, start, count, false);
      RunRemoved(was, bits[..], runs, start);
      runs := runs - {start};
    }

    /** heap_box_is_empty. */
    method IsEmpty() returns (r: bool)
      requires Valid()
      ensures r <==> runs == map[]
    {
      assert Opened(bits[..]);
      UsedIffRuns(bits[..], runs);
      r := Bitmap.IsEmpty(bits);
      assert |bits[..]| == bits.Length == MAP_BYTES;
    }

    /** heap_fetch_block_index. */
    method BlockIndex(mem: nat) returns (idx: int)
      ensures idx == if mem >= Data() && (mem - Data()) % BLOCK_SIZE == 0 && (mem - Data()) / BLOCK_SIZE < BLOCKS_PER_BOX
                     then (mem - Data()) / BLOCK_SIZE else -1
    {
      var base := Data();
      if mem < base {
        return -1;
      }
      var diff := mem - base;
      if diff % BLOCK_SIZE != 0 {
        return -1;
      }
      idx := diff / BLOCK_SIZE;
      return if idx < BLOCKS_PER_BOX then idx else -1;
    }
  }

  /** `box`, the `k`-th, has been taken out of the list. */
  ghost predicate TakenOut(was: seq<Box>, now: seq<Box>, box: Box, k: nat) {
    k < |was| && was[k] == box && now == RemoveAt(was, k)
  }

  /** The list `boxes`, threaded through the boxes' own `next` fields. */
  class BoxList {
    var head: Box?
    /** The boxes in list order, and the position of each. */
    ghost var items: seq<Box>
    ghost var at: map<Box, nat>

    /** Mentioning Linked(items) lets the verifier look into Valid. */
    ghost predicate Linked(s: seq<Box>) {
      true
    }

    ghost predicate Valid()
      reads this, at.Keys`next
    {
      forall s: seq<Box> {:trigger Linked(s)} | Linked(s) :: s == items ==>
        && Positions(s, at)
        && head == (if s == [] then null else s[0])
        && (forall i {:trigger s[i].next} | 0 <= i < |s| ::
             s[i] in at && s[i].next == if i + 1 < |s| then s[i + 1] else null)
    }

    constructor ()
      ensures Valid() && items == [] && at == map[]
    {
      head, items, at := null, [], map[];
    }

    /** `boxes` set to null. */
    method Clear()
      modifies this
      ensures Valid() && items == [] && at == map[]
    {
      head, items, at := null, [], map[];
    }

    /** The list part of heap_box_register. */
    method PushFront(box: Box)
      requires Valid() && box !in at
      modifies this, box`next
      ensures Valid() && items == [box] + old(items) && at.Keys == old(at.Keys) + {box}
    {
      assert Linked(items);
      box.next := head;
      head := box;
      assert forall i {:trigger items[i]} | 0 <= i < |items| :: items[i] in at;
      at := (map b | b in at :: at[b] + 1)[box := 0];
      items := [box] + items;
    }

    /** The unlink loop of heap_box_free; `prev` is the box whose link points at `it`, or null
        when that is the list head itself. */
    method Unlink(box: Box)
      requires Valid()
      modifies this, at.Keys`next
      ensures Valid() && at.Keys == old(at.Keys) - {box}
      ensures if box in old(at) then exists k: nat :: TakenOut(old(items), items, box, k) else items == old(items)
    {
      assert Linked(items);
      var prev: Box? := null;
      var it := head;
      ghost var k := 0;
      while it != null
        invariant k <= |items| && (box in at ==> k <= at[box]) && Valid() && items == old(items) && at == old(at)
        invariant it == if k < |items| then items[k] else null
        invariant prev == if k == 0 then null else items[k - 1]
        decreases |items| - k
      {
        if it == box {
          Bypass(box, prev, k);
          assert TakenOut(old(items), items, box, k);
          return;
        }
        assert Linked(items) && it in at;
        prev := it;
        it := it.next;
        k := k + 1;
      }
    }

    /** Let the link in front of `box` point behind it. */
    method Redirect(box: Box, prev: Box?, ghost k: nat)
      requires Valid() && k < |items| && box == items[k]
      requires prev == if k == 0 then null else items[k - 1]
      modifies this`head, at.Keys`next
      ensures k > 0 ==> items[k - 1].next == box.next && head == old(head)
      ensures k == 0 ==> head == box.next
      ensures forall b {:trigger b.next} | b in at && b != prev :: b.next == old(b.next)
    {
      assert Linked(items) && box in at && (k > 0 ==> items[k - 1] in at);
      if prev == null {
        head := box.next;
      } else {
        prev.next := box.next;
      }
    }

    method Bypass(box: Box, prev: Box?, ghost k: nat)
      requires Valid() && k < |items| && box == items[k]
      requires prev == if k == 0 then null else items[k - 1]
      modifies this, at.Keys`next
      ensures Valid() && items == RemoveAt(old(items), k) && at.Keys == old(at.Keys) - {box}
      ensures box in old(at)
    {
      ghost var was := items;
      assert Linked(was) && box in at && was[k].next == if k + 1 < |was| then was[k + 1] else null;
      Redirect(box, prev, k);
      PositionsWithout(items, at, k);
      at := Shifted(at, box, k);
      items := RemoveAt(items, k);
      forall i | 0 <= i < |items|
        ensures items[i] in at && items[i].next == if i + 1 < |items| then items[i + 1] else null
      {
        ghost var j := if i < k then i else i + 1;
        assert was[j] in old(at);
        assert old(was[j].next) == if j + 1 < |was| then was[j + 1] else null;
      }
    }
  }
}
