/** The early allocator of mem/early.c: a doubly linked list of chunks in a contiguous pool,
    split on allocation and coalesced on free.  Pointers are offsets into the pool. */
module EarlyAlloc {
  /** sizeof(early_chunk_t): a size, a padded flag, two links. */
  const HEADER: nat := 16
  const POOL: nat := 9 * 4096
  const NULL: int := -1

  /** early_chunk_t as it stands in the pool. */
  datatype Header = Header(size: nat, free: bool, next: int, prev: int)

  /** A chunk: where its header is, the bytes behind it, whether it is free. */
  datatype Chunk = Chunk(at: nat, size: nat, free: bool)

  /** The chunks lie one behind the other and fill the pool. */
  ghost predicate Tiled(c: seq<Chunk>) {
    && c != [] && c[0].at == 0 && EndOf(c, |c| - 1) == POOL
    && forall i: nat {:trigger Adjacent(c, i)} | i + 1 < |c| :: Adjacent(c, i)
  }

  ghost predicate Adjacent(c: seq<Chunk>, i: nat)
    requires i + 1 < |c|
  {
    c[i + 1].at == EndOf(c, i)
  }

  /** No two neighbours are free. */
  ghost predicate Tidy(c: seq<Chunk>) {
    forall i: nat {:trigger Calm(c, i)} | i + 1 < |c| :: Calm(c, i)
  }

  ghost predicate Calm(c: seq<Chunk>, i: nat)
    requires i + 1 < |c|
  {
    !(c[i].free && c[i + 1].free)
  }

  function EndOf(c: seq<Chunk>, i: int): nat
    requires 0 <= i < |c|
  {
    c[i].at + HEADER + c[i].size
  }

  ghost function Bytes(c: seq<Chunk>): nat {
    if c == [] then 0 else Bytes(c[..|c| - 1]) + HEADER + c[|c| - 1].size
  }

  lemma {:induction false} TiledUpTo(c: seq<Chunk>, n: nat)
    requires Tiled(c) && 0 < n <= |c|
    ensures Bytes(c[..n]) == EndOf(c, n - 1)
    decreases n
  {
    assert c[..n][..n - 1] == c[..n - 1];
    if n > 1 {
      TiledUpTo(c, n - 1);
      assert Adjacent(c, n - 2);
    } else {
      assert c[..0] == [];
    }
  }

  /** Sizes and headers add up to the pool. */
  lemma PoolConserved(c: seq<Chunk>)
    requires Tiled(c)
    ensures Bytes(c) == POOL
  {
    TiledUpTo(c, |c|);
    assert c[..|c|] == c;
  }

  /** When everything is free, one chunk is left: the pool as it was at the start. */
  lemma AllFree(c: seq<Chunk>)
    requires Tiled(c) && Tidy(c) && forall i {:trigger c[i]} | 0 <= i < |c| :: c[i].free
    ensures c == [Chunk(0, POOL - HEADER, true)]
  {
    assert |c| > 1 ==> Calm(c, 0);
  }

  /** Chunk `k` swallows the one behind it. */
  function Merge(c: seq<Chunk>, k: nat): (r: seq<Chunk>)
    requires k + 1 < |c|
    ensures |r| == |c| - 1
    ensures forall j {:trigger r[j]} | 0 <= j < |r| ::
              r[j] == if j < k then c[j] else if j == k then c[k].(size := c[k].size + HEADER + c[k + 1].size) else c[j + 1]
  {
    c[..k] + [c[k].(size := c[k].size + HEADER + c[k + 1].size)] + c[k + 2..]
  }

  /** Chunk `k` gives up what it has beyond `size` bytes and another header. */
  function Split(c: seq<Chunk>, k: nat, size: nat): (r: seq<Chunk>)
    requires k < |c| && size + HEADER <= c[k].size
    ensures |r| == |c| + 1
    ensures forall j {:trigger r[j]} | 0 <= j < |r| ::
              r[j] == if j < k then c[j]
                      else if j == k then c[k].(size := size)
                      else if j == k + 1 then Chunk(c[k].at + HEADER + size, c[k].size - size - HEADER, true)
                      else c[j - 1]
  {
    c[..k] + [c[k].(size := size), Chunk(c[k].at + HEADER + size, c[k].size - size - HEADER, true)] + c[k + 1..]
  }

  function Marked(c: seq<Chunk>, k: nat, free: bool): (r: seq<Chunk>)
    requires k < |c|
    ensures |r| == |c| && forall j {:trigger r[j]} | 0 <= j < |r| :: r[j] == if j == k then c[k].(free := free) else c[j]
  {
    c[k := c[k].(free := free)]
  }

  /** early_alloc on chunk `k`. */
  function Taken(c: seq<Chunk>, k: nat, size: nat): seq<Chunk>
    requires k < |c| && size <= c[k].size
  {
    Marked(if c[k].size - size > HEADER + 8 then Split(c, k, size) else c, k, false)
  }

  /** early_free on chunk `k`. */
  function Released(c: seq<Chunk>, k: nat): seq<Chunk>
    requires k < |c|
  {
    var freed := Marked(c, k, true);
    var ahead := if k + 1 < |c| && c[k + 1].free then Merge(freed, k) else freed;
    if k > 0 && c[k - 1].free then Merge(ahead, k - 1) else ahead
  }

  lemma MergeTiled(c: seq<Chunk>, k: nat)
    requires Tiled(c) && k + 1 < |c|
    ensures Tiled(Merge(c, k))
  {
    var r := Merge(c, k);
    assert Adjacent(c, k);
    forall i: nat | i + 1 < |r| ensures Adjacent(r, i) {
      assert Adjacent(c, if i < k then i else i + 1);
    }
  }

  lemma SplitTiled(c: seq<Chunk>, k: nat, size: nat)
    requires Tiled(c) && k < |c| && size + HEADER <= c[k].size
    ensures Tiled(Split(c, k, size))
  {
    var r := Split(c, k, size);
    forall i: nat | i + 1 < |r| ensures Adjacent(r, i) {
      if i != k {
        assert Adjacent(c, if i < k then i else i - 1);
      }
    }
  }

  lemma MarkedTiled(c: seq<Chunk>, k: nat, free: bool)
    requires Tiled(c) && k < |c|
    ensures Tiled(Marked(c, k, free))
  {
    var r := Marked(c, k, free);
    forall i: nat | i + 1 < |r| ensures Adjacent(r, i) {
      assert Adjacent(c, i);
    }
  }

  /** Allocation keeps the list tiled and tidy. */
  lemma TakenOk(c: seq<Chunk>, k: nat, size: nat)
    requires Tiled(c) && Tidy(c) && k < |c| && size <= c[k].size && c[k].free
    ensures Tiled(Taken(c, k, size)) && Tidy(Taken(c, k, size))
  {
    var split := c[k].size - size > HEADER + 8;
    if split {
      SplitTiled(c, k, size);
      MarkedTiled(Split(c, k, size), k, false);
    } else {
      MarkedTiled(c, k, false);
    }
    var r := Taken(c, k, size);
    forall i: nat | i + 1 < |r| ensures Calm(r, i) {
      if i < k || !split {
        assert Calm(c, i);
      } else if i > k {
        assert Calm(c, i - 1);
      }
    }
  }

  lemma MergeCalm(c: seq<Chunk>, k: nat)
    requires k + 1 < |c|
    requires forall i: nat {:trigger Calm(c, i)} | i + 1 < |c| && i + 1 != k && i != k :: Calm(c, i)
    ensures forall i: nat {:trigger Calm(Merge(c, k), i)} | i + 1 < |c| - 1 && i + 1 != k && i != k :: Calm(Merge(c, k), i)
    ensures k > 0 && !(c[k - 1].free && c[k].free) ==> Calm(Merge(c, k), k - 1)
    ensures k + 2 < |c| && !(c[k].free && c[k + 2].free) ==> Calm(Merge(c, k), k)
  {
    var r := Merge(c, k);
    forall i: nat | i + 1 < |r| && i + 1 != k && i != k ensures Calm(r, i) {
      assert Calm(c, if i < k then i else i + 1);
    }
  }

  lemma ReleasedTiled(c: seq<Chunk>, k: nat)
    requires Tiled(c) && k < |c|
    ensures Tiled(Released(c, k))
  {
    var freed := Marked(c, k, true);
    MarkedTiled(c, k, true);
    var ahead := if k + 1 < |c| && c[k + 1].free then Merge(freed, k) else freed;
    if k + 1 < |c| && c[k + 1].free {
      MergeTiled(freed, k);
    }
    if k > 0 && c[k - 1].free {
      MergeTiled(ahead, k - 1);
    }
  }

  lemma ReleasedTidy(c: seq<Chunk>, k: nat)
    requires Tidy(c) && k < |c| && !c[k].free
    ensures Tidy(Released(c, k))
  {
    var freed := Marked(c, k, true);
    forall i: nat | i + 1 < |c| && i + 1 != k && i != k ensures Calm(freed, i) {
      assert Calm(c, i);
    }
    assert k + 2 < |c| ==> Calm(c, k + 1);
    assert k > 1 ==> Calm(c, k - 2);
    var forward := k + 1 < |c| && c[k + 1].free;
    var ahead := if forward then Merge(freed, k) else freed;
    if forward {
      MergeCalm(freed, k);
    }
    assert k + 1 < |ahead| ==> Calm(ahead, k);
    if k > 0 && c[k - 1].free {
      MergeCalm(ahead, k - 1);
    }
  }

  /** Release keeps the list tiled and tidy. */
  lemma ReleasedOk(c: seq<Chunk>, k: nat)
    requires Tiled(c) && Tidy(c) && k < |c| && !c[k].free
    ensures Tiled(Released(c, k)) && Tidy(Released(c, k))
  {
    ReleasedTiled(c, k);
    ReleasedTidy(c, k);
  }

  /** Freeing a chunk just allocated restores the chunk list exactly. */
  lemma TakeRelease(c: seq<Chunk>, k: nat, size: nat)
    requires Tiled(c) && Tidy(c) && k < |c| && size <= c[k].size && c[k].free
    ensures Released(Taken(c, k, size), k) == c
  {
    assert k > 0 ==> Calm(c, k - 1);
    assert k + 1 < |c| ==> Calm(c, k);
    if c[k].size - size > HEADER + 8 {
      SplitMerge(c, k, size);
    }
  }

  lemma SplitMerge(c: seq<Chunk>, k: nat, size: nat)
    requires k < |c| && size + HEADER <= c[k].size && c[k].free
    ensures Merge(Marked(Marked(Split(c, k, size), k, false), k, true), k) == c
  {
  }

  lemma {:induction false} Before(c: seq<Chunk>, i: nat, j: nat)
    requires Tiled(c) && i < j < |c|
    ensures c[i].at < c[j].at
    decreases j
  {
    assert Adjacent(c, j - 1);
    if i < j - 1 {
      Before(c, i, j - 1);
    }
  }

  lemma Apart(c: seq<Chunk>, i: nat, j: nat)
    requires Tiled(c) && i < |c| && j < |c| && i != j
    ensures c[i].at != c[j].at
  {
    if i < j {
      Before(c, i, j);
    } else {
      Before(c, j, i);
    }
  }

  // ---------------------------------------------------------------- the chunks in use say it all

  ghost function InUse(c: seq<Chunk>): set<Chunk> {
    set x | x in c && !x.free
  }

  lemma MarkedInUse(c: seq<Chunk>, k: nat)
    requires Tiled(c) && k < |c|
    ensures InUse(Marked(c, k, true)) == InUse(c) - {c[k]}
  {
    var r := Marked(c, k, true);
    forall x: Chunk | x in InUse(c) && x != c[k] ensures x in r {
      var i: nat :| i < |c| && c[i] == x;
      assert r[i] == x;
    }
    forall x: Chunk | x in InUse(r) ensures x in c && x != c[k] {
      var i: nat :| i < |r| && r[i] == x;
      Apart(c, i, k);
    }
  }

  /** Two free chunks that become one are not in use before or after. */
  lemma MergeInUse(c: seq<Chunk>, k: nat)
    requires k + 1 < |c| && c[k].free && c[k + 1].free
    ensures InUse(Merge(c, k)) == InUse(c)
  {
    var r := Merge(c, k);
    forall x: Chunk | x in InUse(c) ensures x in r {
      var i: nat :| i < |c| && c[i] == x;
      assert r[if i < k then i else i - 1] == x;
    }
    forall x: Chunk | x in InUse(r) ensures x in c {
      var i: nat :| i < |r| && r[i] == x;
      assert c[if i < k then i else i + 1] == x;
    }
  }

  /** A release takes its chunk, and no other, out of use. */
  lemma ReleasedInUse(c: seq<Chunk>, k: nat)
    requires Tiled(c) && k < |c|
    ensures InUse(Released(c, k)) == InUse(c) - {c[k]}
  {
    MarkedInUse(c, k);
    var freed := Marked(c, k, true);
    var ahead := if k + 1 < |c| && c[k + 1].free then Merge(freed, k) else freed;
    if k + 1 < |c| && c[k + 1].free {
      MergeInUse(freed, k);
    }
    if k > 0 && c[k - 1].free {
      MergeInUse(ahead, k - 1);
    }
  }

  lemma BehindEnd(c: seq<Chunk>, i: nat, j: nat)
    requires Tiled(c) && i < j < |c|
    ensures c[j].at >= EndOf(c, i)
  {
    assert Adjacent(c, i);
    if i + 1 < j {
      Before(c, i + 1, j);
    }
  }

  /** A chunk in use of one list is, if it begins where the other list has a chunk, that chunk. */
  lemma SameChunk(c: seq<Chunk>, d: seq<Chunk>, i: nat)
    requires Tiled(c) && Tiled(d) && InUse(c) <= InUse(d) && i < |c| && i < |d| && c[i].at == d[i].at && !c[i].free
    ensures c[i] == d[i]
  {
    assert c[i] in InUse(c);
    var j: nat :| j < |d| && d[j] == c[i];
    if j != i {
      Apart(d, i, j);
    }
  }

  /** A free chunk of one list does not end before that of the other. */
  lemma FreeReaches(c: seq<Chunk>, d: seq<Chunk>, i: nat)
    requires Tiled(c) && Tiled(d) && Tidy(c) && InUse(c) <= InUse(d)
    requires i < |c| && i < |d| && c[i].at == d[i].at && c[i].free
    ensures EndOf(c, i) >= EndOf(d, i)
  {
    if i + 1 < |c| {
      assert Adjacent(c, i) && Calm(c, i) && c[i + 1] in InUse(c);
      var j: nat :| j < |d| && d[j] == c[i + 1];
      if j > i {
        BehindEnd(d, i, j);
      } else if j < i {
        Before(d, j, i);
      }
    } else if i + 1 < |d| {
      BehindEnd(d, i, |d| - 1);
    }
  }

  lemma {:induction false} SameUpTo(c: seq<Chunk>, d: seq<Chunk>, n: nat)
    requires Tiled(c) && Tidy(c) && Tiled(d) && Tidy(d) && InUse(c) == InUse(d) && n <= |c|
    ensures n <= |d| && forall i {:trigger c[i]} | 0 <= i < n :: c[i] == d[i]
    decreases n
  {
    if n > 0 {
      SameUpTo(c, d, n - 1);
      var i := n - 1;
      if n > 1 {
        assert Adjacent(c, n - 2) && c[n - 2] == d[n - 2];
        if n > |d| {
          BehindEnd(c, n - 2, n - 1);
          EndsInPool(c, n - 1);
          assert false;
        }
        assert Adjacent(d, n - 2);
      }
      if !c[i].free {
        SameChunk(c, d, i);
      } else if !d[i].free {
        SameChunk(d, c, i);
      } else {
        FreeReaches(c, d, i);
        FreeReaches(d, c, i);
      }
    }
  }

  lemma EndsInPool(c: seq<Chunk>, i: nat)
    requires Tiled(c) && i < |c|
    ensures EndOf(c, i) <= POOL
  {
    if i + 1 < |c| {
      BehindEnd(c, i, |c| - 1);
    }
  }

  /** The chunks in use determine the list: there is one way only to fill the rest of the pool
      with free chunks none of which are neighbours. */
  lemma UseDetermines(c: seq<Chunk>, d: seq<Chunk>)
    requires Tiled(c) && Tidy(c) && Tiled(d) && Tidy(d) && InUse(c) == InUse(d)
    ensures c == d
  {
    SameUpTo(c, d, |c|);
    SameUpTo(d, c, |d|);
  }

  /** The header chunk `i` should have. */
  function HeaderOf(c: seq<Chunk>, i: int): Header
    requires 0 <= i < |c|
  {
    Header(c[i].size, c[i].free, if i + 1 < |c| then c[i + 1].at else NULL, if i > 0 then c[i - 1].at else NULL)
  }

  /** The headers in the pool are those of the chunks. */
  ghost predicate Matches(headers: map<int, Header>, c: seq<Chunk>) {
    forall i: nat {:trigger Shows(headers, c, i)} | i < |c| :: Shows(headers, c, i)
  }

  ghost predicate Shows(headers: map<int, Header>, c: seq<Chunk>, i: nat)
    requires i < |c|
  {
    c[i].at in headers && headers[c[i].at] == HeaderOf(c, i)
  }

  /** Chunk `k` is the first free one of at least `size` bytes; `|c|` if there is none. */
  ghost predicate FirstFit(c: seq<Chunk>, size: nat, k: nat) {
    && k <= |c| && (k < |c| ==> c[k].free && c[k].size >= size)
    && forall i {:trigger c[i]} | 0 <= i < k :: !(c[i].free && c[i].size >= size)
  }

  class Allocator {
    var head: int
    /** The memory of the pool, as far as headers are concerned. */
    var headers: map<int, Header>
    /** The chunks in list order. */
    ghost var chunks: seq<Chunk>

    ghost predicate Valid()
      reads this
    {
      Tiled(chunks) && Tidy(chunks) && head == 0 && Matches(headers, chunks)
    }

    /** early_allocator_init. */
    constructor ()
      ensures Valid() && chunks == [Chunk(0, POOL - HEADER, true)]
    {
      head, headers := 0, map[0 := Header(POOL - HEADER, true, NULL, NULL)];
      chunks := [Chunk(0, POOL - HEADER, true)];
    }

    /** early_alloc: an offset behind the header of the first chunk that is free and large
        enough, or null.  What the chunk has beyond the request stays free if it is more than 24
        bytes. */
    method Alloc(size: nat) returns (ptr: int)
      requires Valid()
      modifies this
      ensures Valid() && (ptr == NULL || ptr >= HEADER)
      ensures ptr == NULL ==> chunks == old(chunks) && (size == 0 || FirstFit(chunks, size, |chunks|))
      ensures ptr != NULL ==> exists k: nat :: TookFirst(old(chunks), chunks, size, k, ptr)
    {
      if size == 0 {
        return NULL;
      }
      var cur := head;
      ghost var k: nat := 0;
      while cur != NULL
        invariant k <= |chunks| && cur == if k < |chunks| then chunks[k].at else NULL
        invariant forall i {:trigger chunks[i]} | 0 <= i < k :: !(chunks[i].free && chunks[i].size >= size)
        decreases |chunks| - k
      {
        assert Shows(headers, chunks, k);
        if headers[cur].free && headers[cur].size >= size {
          TakenOk(chunks, k, size);
          if headers[cur].size - size > HEADER + 8 {
            SplitAt(cur, size, k);
          }
          Mark(cur, false, k);
          assert TookFirst(old(chunks), chunks, size, k, cur + HEADER);
          return cur + HEADER;
        }
        cur := headers[cur].next;
        k := k + 1;
      }
      return NULL;
    }

    method SplitAt(cur: int, size: nat, ghost k: nat)
      requires Tiled(chunks) && Matches(headers, chunks) && k < |chunks| && cur == chunks[k].at
      requires size + HEADER <= chunks[k].size
      modifies this`headers, this`chunks
      ensures Tiled(chunks) && Matches(headers, chunks) && chunks == Split(old(chunks), k, size)
    {
      ghost var c, h := chunks, headers;
      SplitTiled(c, k, size);
      assert Shows(headers, c, k) && (k + 1 < |c| ==> Shows(headers, c, k + 1));
      var newChunk := cur + HEADER + size;
      headers := headers[newChunk := Header(headers[cur].size - size - HEADER, true, headers[cur].next, cur)];
      var next := headers[cur].next;
      if next != NULL {
        headers := headers[next := headers[next].(prev := newChunk)];
      }
      headers := headers[cur := headers[cur].(next := newChunk, size := size)];
      chunks := Split(c, k, size);
      forall i: nat | i < |chunks| ensures Shows(headers, chunks, i) {
        if i < k || i > k + 1 {
          assert Shows(h, c, if i < k then i else i - 1);
          Apart(chunks, i, k);
          Apart(chunks, i, k + 1);
        }
        if k + 2 < |chunks| && i != k + 2 {
          Apart(chunks, i, k + 2);
        }
      }
    }

    method Mark(cur: int, free: bool, ghost k: nat)
      requires Tiled(chunks) && Matches(headers, chunks) && k < |chunks| && cur == chunks[k].at
      modifies this`headers, this`chunks
      ensures Tiled(chunks) && Matches(headers, chunks) && chunks == Marked(old(chunks), k, free)
    {
      ghost var c, h := chunks, headers;
      MarkedTiled(c, k, free);
      assert Shows(headers, c, k);
      headers := headers[cur := headers[cur].(free := free)];
      chunks := Marked(c, k, free);
      forall i: nat | i < |chunks| ensures Shows(headers, chunks, i) {
        assert Shows(h, c, i);
        if i != k {
          Apart(c, i, k);
        }
      }
    }

    /** One half of early_coalesce: chunk `cur` swallows the one behind it. */
    method Absorb(cur: int, ghost k: nat)
      requires Tiled(chunks) && Matches(headers, chunks) && k + 1 < |chunks| && cur == chunks[k].at
      modifies this`headers, this`chunks
      ensures Tiled(chunks) && Matches(headers, chunks) && chunks == Merge(old(chunks), k)
    {
      ghost var c, h := chunks, headers;
      MergeTiled(c, k);
      Apart(c, k, k + 1);
      assert Shows(headers, c, k) && Shows(headers, c, k + 1) && (k + 2 < |c| ==> Shows(headers, c, k + 2));
      var next := headers[cur].next;
      var behind := headers[next].next;
      headers := headers[cur := headers[cur].(size := headers[cur].size + HEADER + headers[next].size, next := behind)];
      if behind != NULL {
        headers := headers[behind := headers[behind].(prev := cur)];
      }
      chunks := Merge(c, k);
      forall i: nat | i < |chunks| ensures Shows(headers, chunks, i) {
        if i != k {
          assert Shows(h, c, if i < k then i else i + 1);
          Apart(chunks, i, k);
        }
        if k + 1 < |chunks| && i != k + 1 {
          Apart(chunks, i, k + 1);
        }
      }
    }

    /** early_free of null or of a chunk in use. */
    method Free(ptr: int, ghost k: nat)
      requires Valid() && (ptr == NULL || (k < |chunks| && ptr == chunks[k].at + HEADER && !chunks[k].free))
      modifies this
      ensures Valid()
      ensures chunks == if ptr == NULL then old(chunks) else Released(old(chunks), k)
      ensures ptr != NULL ==> InUse(chunks) == InUse(old(chunks)) - {old(chunks)[k]}
    {
      if ptr == NULL {
        return;
      }
      ReleasedOk(chunks, k);
      ReleasedInUse(chunks, k);
      var chunk := ptr - HEADER;
      Mark(chunk, true, k);
      assert Shows(headers, chunks, k) && (k + 1 < |chunks| ==> Shows(headers, chunks, k + 1));
      var next := headers[chunk].next;
      if next != NULL && headers[next].free {
        Absorb(chunk, k);
      }
      assert Shows(headers, chunks, k) && (k > 0 ==> Shows(headers, chunks, k - 1));
      var prev := headers[chunk].prev;
      if prev != NULL && headers[prev].free {
        Absorb(prev, k - 1);
      }
    }
  }

  /** Chunk `k`, the first that is free and large enough, has been handed out: cut down to the size
      asked for, with a free chunk of the rest behind it, if it had more than 24 bytes to spare,
      and whole otherwise.  The other chunks are as they were. */
  ghost predicate TookFirst(was: seq<Chunk>, now: seq<Chunk>, size: nat, k: nat, ptr: int) {
    && k < |was| && FirstFit(was, size, k) && ptr == was[k].at + 16
    && if was[k].size > size + 24 then
         && |now| == |was| + 1 && now[k] == Chunk(was[k].at, size, false)
         && now[k + 1] == Chunk(was[k].at + 16 + size, was[k].size - size - 16, true)
         && forall j {:trigger now[j]} | 0 <= j < |now| && j != k && j != k + 1 :: now[j] == was[if j < k then j else j - 1]
       else
         && |now| == |was| && now[k] == Chunk(was[k].at, was[k].size, false)
         && forall j {:trigger now[j]} | 0 <= j < |now| && j != k :: now[j] == was[j]
  }

  /** So an allocation is the transition the lemmas above are about. */
  lemma TookIsTaken(was: seq<Chunk>, now: seq<Chunk>, size: nat, k: nat, ptr: int)
    requires TookFirst(was, now, size, k, ptr)
    ensures now == Taken(was, k, size) && size <= now[k].size <= size + 24
  {
  }

  /** Two requests for 16 bytes on a fresh pool get 32 bytes of it each, headers included. */
  method TwoRequests() returns (a: Allocator, p: int, q: int)
    ensures a.Valid() && p == 16 && q == 48
    ensures a.chunks == [Chunk(0, 16, false), Chunk(32, 16, false), Chunk(64, 36784, true)]
  {
    a := new Allocator();
    p := a.Alloc(16);
    q := a.Alloc(16);
  }
}
