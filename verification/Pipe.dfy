/** The byte stream of task/ipc/pipe.c: a ring of 512 bytes between two counters that run
    freely through 32 bits.  Every locked iteration is one call here, so that any sequence of
    calls is an interleaving of readers and writers. */
module Pipe {
  import opened Common

  const RING: nat := 512

  datatype Outcome = Moved | Waits | Returns(result: int)

  /** A counter's remainder in the ring does not notice the wrap-around. */
  lemma RingIndex(n: nat)
    ensures n % WORD % RING == n % RING
  {
    var k := n / WORD;
    assert n == n % WORD + k * 8388608 * RING;
    ModAdd(n % WORD, k * 8388608);
  }

  /** Counting on wraps like the stream's length. */
  lemma NextCount(n: nat)
    ensures (n % WORD + 1) % WORD == (n + 1) % WORD
  {
  }

  lemma {:induction false} ModAdd(x: nat, k: nat)
    ensures (x + k * RING) % RING == x % RING
    decreases k
  {
    if k > 0 {
      ModAdd(x, k - 1);
    }
  }

  /** Fewer than a ring apart: the counters are equal when the streams are equally long, and
      the slots collide when the streams are a whole ring less one apart. */
  lemma Apart(read: nat, written: nat)
    requires read <= written < read + RING
    ensures read % WORD == written % WORD <==> read == written
    ensures (written % RING + 1) % RING == read % RING <==> written - read == RING - 1
  {
  }

  /** Different unread bytes are in different slots. */
  lemma OwnSlots(read: nat, i: nat, j: nat)
    requires read <= i < read + RING && read <= j < read + RING && i != j
    ensures i % RING != j % RING
  {
  }

  class Pipe {
    const data: array<bv8>
    var readBytes: nat
    var writeBytes: nat
    /** All bytes ever written, all bytes ever read. */
    ghost var sent: seq<bv8>
    ghost var got: seq<bv8>

    /** The bytes read are a prefix of the bytes written, at most 511 bytes shorter; the ring
        holds what is in between, in order. */
    ghost predicate Valid()
      reads this, data
    {
      && data.Length == RING && got <= sent && |sent| - |got| < RING
      && readBytes == |got| % WORD && writeBytes == |sent| % WORD
      && forall j {:trigger sent[j]} | |got| <= j < |sent| :: data[j % RING] == sent[j]
    }

    constructor ()
      ensures Valid() && sent == [] && got == []
    {
      data := new bv8[RING];
      readBytes, writeBytes, sent, got := 0, 0, [], [];
    }

    /** One iteration of pipe_write with `written < len`; `noReader` is the test made when the
        ring is full: the read end is closed or without references, or the process has been
        terminated. */
    method WriteOne(addr: seq<bv8>, written: nat, noReader: bool) returns (o: Outcome)
      requires Valid() && written < |addr|
      modifies this`writeBytes, this`sent, data
      ensures Valid() && got == old(got)
      ensures o.Moved? <==> |old(sent)| - |got| < 511
      ensures o.Moved? ==> sent == old(sent) + [addr[written]]
      ensures !o.Moved? ==> sent == old(sent)
      ensures o.Returns? <==> |old(sent)| - |got| == 511 && noReader
      ensures o.Returns? ==> o.result == if written > 0 then written else -1
    {
      RingIndex(|sent|);
      RingIndex(|got|);
      NextCount(|sent|);
      Apart(|got|, |sent|);
      var w, r := writeBytes % RING, readBytes % RING;
      if (w + 1) % RING == r {
        if noReader {
          return Returns(if written > 0 then written else -1);
        }
        return Waits;
      }
      forall j | |got| <= j < |sent| ensures j % RING != w {
        OwnSlots(|got|, j, |sent|);
      }
      data[w] := addr[written];
      writeBytes := (writeBytes + 1) % WORD;
      sent := sent + [addr[written]];
      return Moved;
    }

    /** One iteration of pipe_read with `n < len`.  The write count is loaded twice; once zero,
        it stays zero. */
    method ReadOne(n: nat, writeRefs: nat, writeRefsLater: nat, terminated: bool) returns (o: Outcome, byte: bv8)
      requires Valid() && (writeRefs == 0 ==> writeRefsLater == 0)
      modifies this`readBytes, this`got
      ensures Valid() && sent == old(sent)
      ensures o.Moved? <==> old(got) != sent
      ensures o.Moved? ==> got == old(got) + [byte] && byte == sent[|old(got)|]
      ensures !o.Moved? ==> got == old(got)
      ensures o.Returns? <==> got == sent && old(got) == got && (writeRefs == 0 || terminated)
      ensures o.Returns? ==> o.result == if writeRefs > 0 && n == 0 then -1 else n
    {
      RingIndex(|got|);
      NextCount(|got|);
      Apart(|got|, |sent|);
      if readBytes == writeBytes && writeRefs > 0 {
        if terminated {
          return Returns(if n > 0 then n else -1), 0;
        }
        return Waits, 0;
      }
      if readBytes == writeBytes && writeRefsLater == 0 {
        return Returns(n), 0;
      }
      assert got < sent && data[|got| % RING] == sent[|got|];
      byte := data[readBytes % RING];
      readBytes := (readBytes + 1) % WORD;
      got := got + [byte];
      return Moved, byte;
    }
  }
}
