/** File contents of fs/tmpflopfs/tmpflopfs.c: zeroed pages against a flat sequence of bytes,
    and sys_copy_file_range of sys/syscall.c between two files. */
module Tmpfs {
  import opened Boxes
  import opened Common
  import opened Heap

  type Page = seq<bv8>

  ghost predicate Whole(pages: seq<Page>) {
    forall p {:trigger pages[p]} | 0 <= p < |pages| :: |pages[p]| == PAGE_SIZE
  }

  /** The byte at offset `k` of the file. */
  function ByteAt(pages: seq<Page>, k: nat): bv8
    requires Whole(pages) && k < PAGE_SIZE * |pages|
  {
    pages[k / PAGE_SIZE][k % PAGE_SIZE]
  }

  /** The specification of a write of `data` at `off`: overwrite, and extend with zeros. */
  function Overlay(c: seq<bv8>, off: nat, data: seq<bv8>): seq<bv8> {
    seq(Max(|c|, off + |data|), k requires k >= 0 =>
      if off <= k < off + |data| then data[k - off] else if k < |c| then c[k] else 0)
  }

  /** What was written is what is read back, and all that is different. */
  lemma OverlayReads(c: seq<bv8>, off: nat, data: seq<bv8>)
    ensures Overlay(c, off, data)[off..off + |data|] == data
    ensures Overlay(c, off, data)[..Min(off, |c|)] == c[..Min(off, |c|)]
    ensures off + |data| <= |c| ==> Overlay(c, off, data)[off + |data|..] == c[off + |data|..]
    ensures off + |data| >= |c| ==> |Overlay(c, off, data)| == off + |data|
    ensures forall k | |c| <= k < off :: Overlay(c, off, data)[k] == 0
  {
    var r := Overlay(c, off, data);
    assert r[off..off + |data|] == data;
    assert r[..Min(off, |c|)] == c[..Min(off, |c|)];
    assert off + |data| <= |c| ==> |r| == |c| && r[off + |data|..] == c[off + |data|..];
  }

  /** The bytes of one page, from `off` on, that `data` replaces. */
  function Patched(page: Page, off: nat, data: seq<bv8>): (r: Page)
    requires off + |data| <= |page|
    ensures |r| == |page|
    ensures forall k {:trigger r[k]} | 0 <= k < |r| :: r[k] == if off <= k < off + |data| then data[k - off] else page[k]
  {
    page[..off] + data + page[off + |data|..]
  }

  /** Offsets within one page. */
  lemma SamePage(p: nat, k: nat)
    ensures k / PAGE_SIZE == p <==> p * PAGE_SIZE <= k < (p + 1) * PAGE_SIZE
  {
  }

  /** Patching a page changes the bytes of the file at those offsets. */
  lemma PatchedBytes(pages: seq<Page>, p: nat, off: nat, data: seq<bv8>)
    requires Whole(pages) && p < |pages| && off + |data| <= PAGE_SIZE
    ensures var now := pages[p := Patched(pages[p], off, data)];
            && Whole(now)
            && forall k: nat {:trigger ByteAt(now, k)} | k < PAGE_SIZE * |pages| ::
                 var at := p * PAGE_SIZE + off;
                 ByteAt(now, k) == if at <= k < at + |data| then data[k - at] else ByteAt(pages, k)
  {
    var now := pages[p := Patched(pages[p], off, data)];
    forall k: nat | k < PAGE_SIZE * |pages|
      ensures var at := p * PAGE_SIZE + off;
              ByteAt(now, k) == if at <= k < at + |data| then data[k - at] else ByteAt(pages, k)
    {
      SamePage(p, k);
    }
  }

  /** The pages of a file that ends at `end`. */
  function PagesFor(end: nat): nat {
    (end + PAGE_SIZE - 1) / PAGE_SIZE
  }

  lemma PagesForMeans(end: nat, n: nat)
    ensures n == PagesFor(end) <==> 4096 * n < end + 4096 && end <= 4096 * n
  {
  }

  /** kmalloc can grant the array of that many page pointers: it fits a box, or is larger than a
      page and does not come from one. */
  predicate ArrayFits(pages: nat) {
    4 * pages > PAGE_SIZE || InABox(4 * pages)
  }

  /** The growth from `have` to `need` pages gets its memory: `room` is whether kmalloc has any
      for the new array, `frames` how many pages the page allocator has. */
  predicate Served(have: nat, need: nat, room: bool, frames: nat) {
    need <= have || (room && ArrayFits(need) && need - have <= frames)
  }

  /** Which arrays can be granted: those of 984 to 1024 pages never. */
  lemma ArrayFitsIff(pages: nat)
    ensures ArrayFits(pages) <==> pages <= 983 || pages > 1024
  {
  }

  /** The heap says so, in every state and whatever the page allocator answers. */
  method NoArray(heap: KernelHeap, pages: nat, page0: nat, page1: nat) returns (r: nat)
    requires heap.Valid() && 984 <= pages <= 1024 && page0 % PAGE_SIZE == 0 && page1 % PAGE_SIZE == 0
    requires forall c | c in heap.table :: heap.table[c].page != page0 && heap.table[c].page != page1
    requires page1 > 0 ==> page0 != page1
    requires |heap.hash.contents| < 254
    modifies heap, heap.list, heap.hash`contents, heap.hash.slots, heap.table.Keys`runs, heap.arrays
    ensures heap.Valid() && r == 0
  {
    ArrayFitsIff(pages);
    ghost var live0 := heap.live;
    ghost var order, before;
    r, order, before := heap.Kmalloc(4 * pages, page0, page1);
    ghost var k: nat :| heap.Outcome(order, before, live0, 4 * pages, page1, r, k);
    heap.GrantedIff(order, before, live0, 4 * pages, page1, r, k);
  }

  class Node {
    var pages: seq<Page>
    var size: nat
    var offset: nat

    /** The bytes of the file. */
    ghost var content: seq<bv8>

    /** The pages hold the content, and zeros behind it. */
    ghost predicate Valid()
      reads this
    {
      && Whole(pages) && size == |content| <= PAGE_SIZE * |pages|
      && forall k: nat {:trigger ByteAt(pages, k)} | k < PAGE_SIZE * |pages| ::
           ByteAt(pages, k) == if k < size then content[k] else 0
    }

    /** tmpfs_node_internal_create. */
    constructor ()
      ensures Valid() && content == [] && offset == 0 && pages == []
    {
      pages, size, offset, content := [], 0, 0, [];
    }

    /** tmpfs_op_read: the bytes from the offset up to the end of the file. */
    method Read(buffer: array<bv8>, count: nat) returns (r: nat)
      requires Valid() && count <= buffer.Length
      modifies this`offset, buffer
      ensures Valid() && offset == old(offset) + r
      ensures r == Max(0, Min(count, size - old(offset)))
      ensures forall i {:trigger buffer[i]} | 0 <= i < buffer.Length ::
                buffer[i] == if i < r then content[old(offset) + i] else old(buffer[i])
    {
      if offset >= size {
        return 0;
      }
      var todo := if offset + count > size then size - offset else count;
      r := 0;
      while r < todo
        invariant r <= todo && offset == old(offset) + r
        invariant forall i {:trigger buffer[i]} | 0 <= i < buffer.Length ::
                    buffer[i] == if i < r then ByteAt(pages, old(offset) + i) else old(buffer[i])
      {
        var page, off := offset / PAGE_SIZE, offset % PAGE_SIZE;
        var chunk := Min(PAGE_SIZE - off, todo - r);
        forall k: nat {:trigger ByteAt(pages, k)} | offset <= k < offset + chunk
          ensures ByteAt(pages, k) == pages[page][k - page * PAGE_SIZE]
        {
          SamePage(page, k);
        }
        forall i | 0 <= i < chunk {
          buffer[r + i] := pages[page][off + i];
        }
        r := r + chunk;
        offset := offset + chunk;
      }
    }

    /** Zeroed pages behind the others. */
    ghost predicate Longer(longer: seq<Page>)
      reads this`pages
    {
      && Whole(pages) && Whole(longer) && |longer| >= |pages|
      && forall k: nat {:trigger ByteAt(longer, k)} | k < PAGE_SIZE * |longer| ::
           ByteAt(longer, k) == if k < PAGE_SIZE * |pages| then ByteAt(pages, k) else 0
    }

    lemma OneLonger(longer: seq<Page>)
      requires Longer(longer)
      ensures Longer(longer + [seq(PAGE_SIZE, _ => 0)])
    {
      var now := longer + [seq(PAGE_SIZE, _ => 0)];
      forall k: nat | k < PAGE_SIZE * |now|
        ensures ByteAt(now, k) == if k < PAGE_SIZE * |longer| then ByteAt(longer, k) else 0
      {
        SamePage(|longer|, k);
      }
    }

    /** The first part of tmpfs_op_write: zeroed pages up to `end`.  Neither kmalloc's answer nor
        the page allocator's is tested; false stands for the store through a null pointer. */
    method Grow(end: nat, room: bool, frames: nat) returns (ok: bool)
      requires Valid()
      modifies this`pages
      ensures Valid() && (ok <==> Served(old(|pages|), PagesFor(end), room, frames))
      ensures ok ==> |pages| == Max(old(|pages|), PagesFor(end))
      ensures !ok ==> pages == old(pages)
    {
      var needed := PagesFor(end);
      if needed <= |pages| {
        return true;
      }
      if !room || !ArrayFits(needed) {
        return false;
      }
      var longer := pages;
      while |longer| < needed
        invariant Valid() && pages == old(pages) && Longer(longer)
        invariant |pages| <= |longer| <= needed && |longer| - |pages| <= frames
      {
        if |longer| - |pages| == frames {
          return false;
        }
        OneLonger(longer);
        longer := longer + [seq(PAGE_SIZE, _ => 0)];
      }
      pages := longer;
      return true;
    }

    /** tmpfs_op_write: all bytes are written, or a null pointer is stored through. */
    method Write(data: seq<bv8>, room: bool, frames: nat) returns (r: Option<nat>)
      requires Valid() && offset + |data| + PAGE_SIZE <= WORD
      modifies this
      ensures Valid() && (r.Some? <==> Served(old(|pages|), PagesFor(old(offset) + |data|), room, frames))
      ensures r.Some? ==>
                && r.value == |data| && offset == old(offset) + |data|
                && content == Overlay(old(content), old(offset), data)
                && |pages| == Max(old(|pages|), PagesFor(old(offset) + |data|))
      ensures r.None? ==> content == old(content) && offset == old(offset) && pages == old(pages)
    {
      var ok := Grow(offset + |data|, room, frames);
      if !ok {
        return None;
      }
      PutBytes(data);
      return Some(|data|);
    }

    /** The rest of tmpfs_op_write, once there are pages enough. */
    method PutBytes(data: seq<bv8>)
      requires Valid() && offset + |data| <= PAGE_SIZE * |pages|
      modifies this
      ensures Valid() && offset == old(offset) + |data| && |pages| == old(|pages|)
      ensures content == Overlay(old(content), old(offset), data)
    {
      ghost var was, start := pages, offset;
      var written := 0;
      while written < |data|
        invariant written <= |data| && offset == start + written && size == old(size) && content == old(content)
        invariant Whole(pages) && |pages| == |was|
        invariant forall k: nat {:trigger ByteAt(pages, k)} | k < PAGE_SIZE * |pages| ::
                    ByteAt(pages, k) == if start <= k < offset then data[k - start] else ByteAt(was, k)
      {
        var page, off := offset / PAGE_SIZE, offset % PAGE_SIZE;
        var chunk := Min(PAGE_SIZE - off, |data| - written);
        PatchedBytes(pages, page, off, data[written..written + chunk]);
        pages := pages[page := Patched(pages[page], off, data[written..written + chunk])];
        written := written + chunk;
        offset := offset + chunk;
      }
      if offset > size {
        size := offset;
      }
      content := Overlay(content, start, data);
    }

    /** tmpfs_op_seek. */
    method Seek(distance: nat, whence: Whence) returns (r: int)
      requires Valid()
      modifies this`offset
      ensures Valid() && r == 0
      ensures offset == match whence
                        case Start => distance
                        case Current => old(offset) + distance
                        case End => |content| + distance
                        case Unknown => old(offset)
    {
      match whence {
        case Start => offset := distance;
        case Current => offset := offset + distance;
        case End => offset := size + distance;
        case Unknown =>
      }
      return 0;
    }
  }

  datatype Whence = Start | Current | End | Unknown

  /** The bytes a transfer of `count` takes from offset `off` on. */
  function Available(c: seq<bv8>, off: nat, count: nat): (n: nat)
  {
    Max(0, Min(count, |c| - off))
  }

  /** File `now` is `d` with the `n` bytes of `c` from `from` on written over it at `off`;
      without any byte nothing is written, so that the file is not extended either. */
  ghost predicate CopiedTo(now: seq<bv8>, d: seq<bv8>, off: nat, c: seq<bv8>, from: nat, n: nat) {
    && (n > 0 ==> from + n <= |c|) && |now| == (if n == 0 then |d| else Max(|d|, off + n))
    && forall k {:trigger now[k]} | 0 <= k < |now| ::
         now[k] == if off <= k < off + n then c[from + k - off] else if k < |d| then d[k] else 0
  }

  /** A copy is one write of those bytes. */
  lemma CopyIsWrite(now: seq<bv8>, d: seq<bv8>, off: nat, c: seq<bv8>, from: nat, n: nat)
    requires CopiedTo(now, d, off, c, from, n)
    ensures now == if n == 0 then d else Overlay(d, off, c[from..from + n])
  {
    if n > 0 {
      var data := c[from..from + n];
      var r := Overlay(d, off, data);
      assert |r| == |now|;
      forall k | 0 <= k < |now| ensures now[k] == r[k] {
        if off <= k < off + n {
          assert data[k - off] == c[from + (k - off)];
        }
      }
    }
  }

  lemma CopyOn(now: seq<bv8>, data: seq<bv8>, d: seq<bv8>, off: nat, c: seq<bv8>, from: nat, n: nat)
    requires CopiedTo(now, d, off, c, from, n) && data != [] && from + n + |data| <= |c|
    requires forall i {:trigger data[i]} | 0 <= i < |data| :: data[i] == c[from + n + i]
    ensures CopiedTo(Overlay(now, off + n, data), d, off, c, from, n + |data|)
  {
  }

  /** `total` bytes have been copied from `c` over what was `d`. */
  ghost predicate Progress(src: Node, dst: Node, c: seq<bv8>, from: nat, d: seq<bv8>, off: nat, total: nat)
    reads src, dst
  {
    && src.Valid() && dst.Valid() && src.content == c
    && src.offset == from + total && dst.offset == off + total
    && CopiedTo(dst.content, d, off, c, from, total)
  }

  /** Chunks of the copy buffer. */
  const CHUNK: nat := 256

  /** A copy of `n` bytes to offset `off` of a file with `have` pages gets its memory: the page
      arrays for the end of the first chunk and for every page count from there to the end's,
      `room` telling for which kmalloc has any, and `frames` pages. */
  ghost predicate CopyServed(have: nat, off: nat, n: nat, room: nat -> bool, frames: nat) {
    n == 0 ||
    (&& PagesFor(off + n) <= have + frames
     && forall need: nat {:trigger Granted(room, need)} |
          have < need && PagesFor(off + Min(CHUNK, n)) <= need <= PagesFor(off + n) :: Granted(room, need))
  }

  predicate Granted(room: nat -> bool, need: nat) {
    room(need) && ArrayFits(need)
  }

  lemma PagesGrow(x: nat, y: nat)
    requires x <= y
    ensures PagesFor(x) <= PagesFor(y) <= PagesFor(x) + (y - x + PAGE_SIZE - 1) / PAGE_SIZE
  {
  }

  /** The pages of the file once `total` bytes have been copied. */
  ghost function PagesNow(have: nat, off: nat, total: nat): nat {
    if total == 0 then have else Max(have, PagesFor(off + total))
  }

  /** The array for the next chunk is one of those the copy needs, and the only one it needs on
      top of those for the bytes copied so far. */
  lemma NextArray(have: nat, off: nat, total: nat, n: nat, all: nat, room: nat -> bool, frames: nat)
    requires 0 < n && total + n <= all && n <= CHUNK && (total == 0 ==> n == Min(CHUNK, all))
    requires total > 0 ==> total >= CHUNK && CopyServed(have, off, total, room, frames)
    ensures PagesNow(have, off, total) <= have + frames
    ensures var now, need := PagesNow(have, off, total), PagesFor(off + total + n);
            CopyServed(have, off, total + n, room, frames) <==> Served(now, need, room(need), have + frames - now)
    ensures CopyServed(have, off, all, room, frames) ==> CopyServed(have, off, total + n, room, frames)
  {
    var first, last, need := PagesFor(off + Min(CHUNK, total + n)), PagesFor(off + total), PagesFor(off + total + n);
    PagesGrow(off + total, off + total + n);
    PagesGrow(off + total + n, off + all);
    if total > 0 {
      assert need <= last + 1;
      if PagesNow(have, off, total) < need {
        assert CopyServed(have, off, total + n, room, frames) ==> Granted(room, need);
      }
      forall x: nat | have < x && first <= x <= need && x < need && CopyServed(have, off, total, room, frames)
        ensures Granted(room, x)
      {
      }
    } else {
      assert first == need;
      assert have < need ==> (CopyServed(have, off, n, room, frames) ==> Granted(room, need));
    }
  }

  /** What is left of a copy that stores through a null pointer: the chunks before. */
  ghost predicate Broken(src: Node, dst: Node, c: seq<bv8>, from: nat, d: seq<bv8>, off: nat, total: nat)
    reads src, dst
  {
    forall t: nat {:trigger Chunked(t)} | Chunked(t) :: t == total ==>
      && src.Valid() && dst.Valid() && src.content == c && dst.offset == off + t
      && CopiedTo(dst.content, d, off, c, from, t)
  }

  /** Mentioning Chunked(total) opens Copying and Broken. */
  ghost predicate Chunked(total: nat) {
    true
  }

  ghost predicate Copying(src: Node, dst: Node, c: seq<bv8>, from: nat, d: seq<bv8>, off: nat, total: nat)
    reads src, dst
  {
    forall t: nat {:trigger Chunked(t)} | Chunked(t) :: t == total ==> Progress(src, dst, c, from, d, off, t)
  }

  /** One round of the loop of sys_copy_file_range. */
  method CopyChunk(src: Node, dst: Node, buffer: array<bv8>, toRead: nat, room: nat -> bool, frames: nat,
                   ghost c: seq<bv8>, ghost from: nat, ghost d: seq<bv8>, ghost off: nat, ghost total: nat)
    returns (r: Option<nat>)
    requires src != dst && Copying(src, dst, c, from, d, off, total)
    requires toRead <= buffer.Length && off + total + toRead + PAGE_SIZE <= WORD
    modifies src`offset, dst, buffer
    ensures var n := Available(c, from + total, toRead);
            var need := PagesFor(off + total + n);
            && (r.Some? <==> n == 0 || Served(old(|dst.pages|), need, room(need), frames))
            && (r.Some? ==> r.value == n && Copying(src, dst, c, from, d, off, total + n)
                            && |dst.pages| == if n == 0 then old(|dst.pages|) else Max(old(|dst.pages|), need))
            && (r.None? ==> Broken(src, dst, c, from, d, off, total))
  {
    assert Chunked(total);
    var n := src.Read(buffer, toRead);
    if n == 0 {
      return Some(0);
    }
    var data := buffer[..n];
    CopyOn(dst.content, data, d, off, c, from, total);
    r := dst.Write(data, room(PagesFor(dst.offset + n)), frames);
  }

  /** The memory a copy has been given so far: the file's pages, the page arrays for them, and
      `left` of the `frames`. */
  ghost predicate Given(dst: Node, have: nat, off: nat, total: nat, room: nat -> bool, frames: nat, left: nat)
    reads dst`pages
  {
    && |dst.pages| == PagesNow(have, off, total) && left + |dst.pages| == have + frames
    && (total > 0 ==> CopyServed(have, off, total, room, frames))
  }

  /** One round of the loop of sys_copy_file_range, with the memory it takes; `all` bytes are to be
      copied. */
  method CopyRound(src: Node, dst: Node, buffer: array<bv8>, toRead: nat, room: nat -> bool, left: nat, ghost frames: nat,
                   ghost have: nat, ghost c: seq<bv8>, ghost from: nat, ghost d: seq<bv8>, ghost off: nat, ghost total: nat,
                   ghost all: nat)
    returns (r: Option<nat>, left': nat)
    requires src != dst && Copying(src, dst, c, from, d, off, total) && Given(dst, have, off, total, room, frames, left)
    requires toRead <= buffer.Length && toRead <= CHUNK && off + total + toRead + PAGE_SIZE <= WORD
    requires total + Available(c, from + total, toRead) <= all
    requires total == 0 || total == all || total >= CHUNK
    requires total == 0 ==> Available(c, from, toRead) == Min(CHUNK, all)
    modifies src`offset, dst, buffer
    ensures var n := Available(c, from + total, toRead);
            if r.Some? then
              && r.value == n && Copying(src, dst, c, from, d, off, total + n)
              && Given(dst, have, off, total + n, room, frames, left')
            else
              n > 0 && !CopyServed(have, off, all, room, frames) && Broken(src, dst, c, from, d, off, total)
  {
    ghost var n := Available(c, from + total, toRead);
    if 0 < n {
      NextArray(have, off, total, n, all, room, frames);
    }
    var before := |dst.pages|;
    r := CopyChunk(src, dst, buffer, toRead, room, left, c, from, d, off, total);
    left' := if r.Some? then left - (|dst.pages| - before) else left;
  }

  /** The loop of sys_copy_file_range. */
  method CopyChunks(src: Node, dst: Node, count: nat, chunk: nat, room: nat -> bool, frames: nat)
    returns (r: Option<int>, ghost done: nat)
    requires src.Valid() && dst.Valid() && src != dst && dst.offset + count + PAGE_SIZE <= WORD
    requires count > 0 && chunk == Min(CHUNK, count)
    modifies src`offset, dst
    ensures done <= Available(old(src.content), old(src.offset), count)
    ensures if CopyServed(old(|dst.pages|), old(dst.offset), Available(old(src.content), old(src.offset), count), room, frames) then
              && r == Some(done) && done == Available(old(src.content), old(src.offset), count)
              && Copying(src, dst, old(src.content), old(src.offset), old(dst.content), old(dst.offset), done)
            else
              && r == None && done < Available(old(src.content), old(src.offset), count)
              && Broken(src, dst, old(src.content), old(src.offset), old(dst.content), old(dst.offset), done)
  {
    var buffer := new bv8[chunk];
    var total: nat, left: nat := 0, frames;
    ghost var c, from, d, off, have := src.content, src.offset, dst.content, dst.offset, |dst.pages|;
    ghost var all := Available(c, from, count);
    while total < count
      invariant total <= all && (total == 0 || total == all || total >= CHUNK)
      invariant Copying(src, dst, c, from, d, off, total) && Given(dst, have, off, total, room, frames, left)
    {
      var toRead := Min(count - total, chunk);
      var copied;
      copied, left := CopyRound(src, dst, buffer, toRead, room, left, frames, have, c, from, d, off, total, all);
      if copied.None? {
        return None, total;
      }
      total := total + copied.value;
      if copied.value < toRead {
        break;
      }
    }
    return Some(total), total;
  }

  /** sys_copy_file_range between two nodes, open for reading and writing and not for
      appending; `memory` tells whether the buffer is granted.  None stands for a store through
      a null pointer, which happens exactly when a page array or a page is not granted. */
  method CopyFileRange(src: Node, dst: Node, count: nat, memory: bool, room: nat -> bool, frames: nat)
    returns (r: Option<int>, ghost done: nat)
    requires src.Valid() && dst.Valid() && src != dst && dst.offset + count + PAGE_SIZE <= WORD
    modifies src`offset, dst
    ensures r == Some(-1) <==> count == 0 || !memory
    ensures r.None? <==> count > 0 && memory
                         && !CopyServed(old(|dst.pages|), old(dst.offset), Available(old(src.content), old(src.offset), count), room, frames)
    ensures r.Some? ==>
              && r.value == (if count == 0 || !memory then -1 else Available(old(src.content), old(src.offset), count))
              && Progress(src, dst, old(src.content), old(src.offset), old(dst.content), old(dst.offset), Max(0, r.value))
    ensures r.None? ==>
              && done < Available(old(src.content), old(src.offset), count)
              && Broken(src, dst, old(src.content), old(src.offset), old(dst.content), old(dst.offset), done)
  {
    var chunk := Min(CHUNK, count);
    done := 0;
    if chunk == 0 || !memory {
      return Some(-1), 0;
    }
    r, done := CopyChunks(src, dst, count, chunk, room, frames);
    assert Chunked(done);
  }

  /** The longest file whose page array fits a box, and one byte more, which cannot be written
      whatever memory there is. */
  method LongestFile(data: seq<bv8>, more: seq<bv8>) returns (r: Option<nat>, r': Option<nat>)
    requires |data| == 983 * PAGE_SIZE && |more| == 983 * PAGE_SIZE + 1
    ensures r == Some(983 * PAGE_SIZE) && r' == None
  {
    var node := new Node();
    ArrayFitsIff(983);
    ArrayFitsIff(984);
    r := node.Write(data, true, 983);
    var other := new Node();
    r' := other.Write(more, true, 984);
  }
}
