/** vmm_shuffle and vmm_unshuffle of mem/vmm.c: the frames behind a range of pages change
    places at random, and come back with the key. */
module Shuffle {
  import opened Common
  import opened PageTable
  import opened Permutation

  const FLAGS: Word := 0xFFF

  /** vmm_rand and its 64-bit state. */
  class Rng {
    var state: nat

    constructor ()
    {
      state := 123456789;
    }

    method Rand() returns (r: nat)
      modifies this
      ensures state == (old(state) * 1103515245 + 12345) % 0x1_0000_0000_0000_0000 && r == state / 65536 % 32768
    {
      state := (state * 1103515245 + 12345) % 0x1_0000_0000_0000_0000;
      r := state / 65536 % 32768;
    }
  }

  /** A present entry is its frame and its flags. */
  lemma EntryAgain(entry: Word)
    requires Present(entry)
    ensures Entry(Base(entry), entry & FLAGS) == entry
  {
  }

  /** Moving a frame under an entry's flags keeps the flags. */
  lemma FlagsKept(frame: Word, entry: Word)
    requires Present(entry) && Base(frame) == frame
    ensures Entry(frame, entry & FLAGS) & FLAGS == entry & FLAGS && Base(Entry(frame, entry & FLAGS)) == frame
    ensures Present(Entry(frame, entry & FLAGS))
  {
  }

  lemma BaseOfBase(entry: Word)
    ensures Base(Base(entry)) == Base(entry)
  {
  }

  /** The pages from `base` on are on `frames`, each with the flags it had; no other page is
      different. */
  ghost predicate Moved(was: Tables, now: Tables, dir: Frame, base: nat, frames: seq<Frame>) {
    forall q: nat {:trigger Pte(now, dir, q)} | q < WINDOW ::
      Pte(now, dir, q) == if base <= q < base + |frames| then Entry(frames[q - base].base, Pte(was, dir, q) & FLAGS)
                          else Pte(was, dir, q)
  }

  /** Every page of the range is mapped, to the frame the sequence names. */
  ghost predicate OnFrames(mem: Tables, dir: Frame, base: nat, frames: seq<Frame>) {
    forall q: nat {:trigger Pte(mem, dir, q)} | base <= q < base + |frames| ::
      Present(Pte(mem, dir, q)) && Frame(Base(Pte(mem, dir, q))) == frames[q - base]
  }

  /** vmm_unshuffle undoes vmm_shuffle: every entry is back, flags included. */
  lemma RoundTrip(was: Tables, shuffled: Tables, now: Tables, dir: Frame, base: nat, key: seq<Frame>, frames: seq<Frame>)
    requires OnFrames(was, dir, base, key) && |frames| == |key|
    requires forall i {:trigger frames[i]} | 0 <= i < |frames| :: Base(frames[i].base) == frames[i].base
    requires Moved(was, shuffled, dir, base, frames) && Moved(shuffled, now, dir, base, key)
    ensures forall q: nat {:trigger Pte(now, dir, q)} | q < WINDOW :: Pte(now, dir, q) == Pte(was, dir, q)
  {
    forall q: nat | q < WINDOW ensures Pte(now, dir, q) == Pte(was, dir, q) {
      assert Pte(shuffled, dir, q) == Pte(shuffled, dir, q);
      if base <= q < base + |key| {
        FlagsKept(frames[q - base].base, Pte(was, dir, q));
        EntryAgain(Pte(was, dir, q));
      }
    }
  }

  /** The last loop of vmm_shuffle and the loop of vmm_unshuffle. */
  method Remap(region: Region, base: nat, frames: array<Frame>)
    requires region.Valid() && base + frames.Length <= WINDOW
    requires forall q: nat {:trigger Pte(region.mem, region.dir, q)} | base <= q < base + frames.Length ::
               Present(Pte(region.mem, region.dir, q))
    modifies region`mem
    ensures region.Valid() && Moved(old(region.mem), region.mem, region.dir, base, frames[..])
  {
    var i := 0;
    while i < frames.Length
      invariant i <= frames.Length && region.Valid() && region.mem[region.dir] == old(region.mem)[region.dir]
      invariant Moved(old(region.mem), region.mem, region.dir, base, frames[..i])
    {
      RemapOne(region, base + i, frames[i].base);
      i := i + 1;
    }
    assert frames[..i] == frames[..];
  }

  method RemapOne(region: Region, page: nat, frame: Word)
    requires region.Valid() && page < WINDOW && Present(Pte(region.mem, region.dir, page))
    modifies region`mem
    ensures region.Valid() && region.mem[region.dir] == old(region.mem)[region.dir]
    ensures OnlyPage(old(region.mem), region.mem, region.dir, page, Entry(frame, Pte(old(region.mem), region.dir, page) & FLAGS))
  {
    var flags := EntryFlags(region, page);
    var _ := region.Unmap(page);
    var _ := region.Map(page, frame, flags, 0);
  }

  /** vmm_get_entry_flags. */
  method EntryFlags(region: Region, page: nat) returns (flags: Word)
    requires region.Valid() && page < WINDOW && Present(Pte(region.mem, region.dir, page))
    ensures flags == Pte(region.mem, region.dir, page) & FLAGS
  {
    assert !Present(0);
    SelfMap(region.mem, region.dir, page / ENTRIES);
    var pte := region.Load(WINDOW + page / ENTRIES, page % ENTRIES);
    flags := pte & FLAGS;
  }

  lemma OnNext(mem: Tables, dir: Frame, base: nat, frames: seq<Frame>, f: Frame)
    requires OnFrames(mem, dir, base, frames) && Aligned(frames) && Base(f.base) == f.base
    requires Present(Pte(mem, dir, base + |frames|)) && Frame(Base(Pte(mem, dir, base + |frames|))) == f
    ensures OnFrames(mem, dir, base, frames + [f]) && Aligned(frames + [f])
  {
  }

  /** The first loop of vmm_shuffle; fails on the first page that resolves to 0. */
  method Collect(region: Region, base: nat, key: array<Frame>, frames: array<Frame>) returns (ok: bool)
    requires region.Valid() && base + key.Length <= WINDOW && frames.Length == key.Length && key != frames
    modifies key, frames
    ensures ok <==> forall q: nat {:trigger Resolved(region.mem, region.dir, q)} | base <= q < base + key.Length ::
                      Resolved(region.mem, region.dir, q) != 0
    ensures ok ==> frames[..] == key[..] && OnFrames(region.mem, region.dir, base, key[..]) && Aligned(key[..])
  {
    var i := 0;
    while i < key.Length
      invariant i <= key.Length && frames[..i] == key[..i]
      invariant forall q: nat {:trigger Resolved(region.mem, region.dir, q)} | base <= q < base + i ::
                  Resolved(region.mem, region.dir, q) != 0
      invariant OnFrames(region.mem, region.dir, base, key[..i]) && Aligned(key[..i])
    {
      FirstAddress(region.mem, region.dir, base + i);
      var pa := region.Resolve(base + i, 0);
      if pa == 0 {
        return false;
      }
      BaseOfBase(Pte(region.mem, region.dir, base + i));
      OnNext(region.mem, region.dir, base, key[..i], Frame(pa));
      key[i] := Frame(pa);
      frames[i] := Frame(pa);
      assert key[..i + 1] == key[..i] + [Frame(pa)] && frames[..i + 1] == frames[..i] + [Frame(pa)];
      i := i + 1;
    }
    assert key[..i] == key[..] && frames[..i] == frames[..];
    return true;
  }

  ghost predicate Aligned(frames: seq<Frame>) {
    forall i {:trigger frames[i]} | 0 <= i < |frames| :: Base(frames[i].base) == frames[i].base
  }

  /** The Fisher-Yates loop: the numbers drawn decide on the permutation. */
  method FisherYates(frames: array<Frame>, rng: Rng)
    requires frames.Length > 0
    modifies frames, rng
    ensures frames[..] == Dealt(old(frames[..]), Places(old(rng.state), frames.Length - 1))
    ensures multiset(frames[..]) == multiset(old(frames[..]))
  {
    ghost var places := Places(rng.state, frames.Length - 1);
    DealtPermutes(frames[..], places);
    SwapAll(frames, rng, places);
  }

  method SwapAll(frames: array<Frame>, rng: Rng, ghost places: seq<nat>)
    requires |places| == frames.Length - 1 && InRange(places) && Gives(rng.state, frames.Length - 1, places)
    modifies frames, rng
    ensures frames[..] == Dealt(old(frames[..]), places)
  {
    ghost var t, rest := Dealt(frames[..], places), places;
    LeadsFirst(frames[..], places);
    var i := frames.Length - 1;
    while i > 0
      invariant 0 <= i < frames.Length && Leads(frames[..], i, rest, t) && Gives(rng.state, i, rest)
    {
      rest := DrawAndSwap(frames, i, rng, rest, t);
      i := i - 1;
    }
    LeadsLast(frames[..], rest, t);
  }

  /** One round of the loop. */
  method DrawAndSwap(frames: array<Frame>, i: nat, rng: Rng, ghost places: seq<nat>, ghost t: seq<Frame>)
    returns (ghost rest: seq<nat>)
    requires 0 < i < frames.Length && Leads(frames[..], i, places, t) && Gives(rng.state, i, places)
    modifies frames, rng
    ensures Leads(frames[..], i - 1, rest, t) && Gives(rng.state, i - 1, rest)
  {
    assert Left(i);
    LeadsOn(frames[..], i, places, t);
    rest := places[1..];
    var j := DrawPlace(rng, i);
    Swap(frames, i, j);
  }

  method DrawPlace(rng: Rng, i: nat) returns (j: nat)
    requires i > 0
    modifies rng
    ensures j <= i && Places(old(rng.state), i)[0] == j && Places(old(rng.state), i)[1..] == Places(rng.state, i - 1)
  {
    FirstPlace(rng.state, i);
    var rand := rng.Rand();
    j := rand % (i + 1);
  }

  method Swap(frames: array<Frame>, i: nat, j: nat)
    requires i < frames.Length && j < frames.Length
    modifies frames
    ensures frames[..] == old(frames[..][i := frames[j]][j := frames[i]])
  {
    frames[i], frames[j] := frames[j], frames[i];
  }

  lemma AlignedPermuted(s: seq<Frame>, t: seq<Frame>)
    requires Aligned(s) && multiset(s) == multiset(t)
    ensures Aligned(t) && |t| == |s|
  {
    assert |multiset(s)| == |multiset(t)|;
    forall i | 0 <= i < |t| ensures Base(t[i].base) == t[i].base {
      assert t[i] in multiset(t);
      assert t[i] in multiset(s);
    }
  }

  /** vmm_shuffle; `memory` tells whether kmalloc grants both arrays.  The result is the key,
      or null. */
  method Shuffle(region: Region, base: nat, pages: nat, memory: bool, rng: Rng)
    returns (key: array?<Frame>, ghost frames: seq<Frame>)
    requires region.Valid() && base + pages <= WINDOW
    modifies region`mem, rng
    ensures region.Valid()
    ensures key != null <==> pages > 0 && memory
                             && forall q: nat | base <= q < base + pages :: Resolved(old(region.mem), region.dir, q) != 0
    ensures key == null ==> region.mem == old(region.mem)
    ensures key != null ==> fresh(key) && key.Length == pages && OnFrames(old(region.mem), region.dir, base, key[..])
    ensures key != null ==> frames == Dealt(key[..], Places(old(rng.state), pages - 1))
    ensures key != null ==> Aligned(frames) && multiset(frames) == multiset(key[..])
    ensures key != null ==> |frames| == pages && Moved(old(region.mem), region.mem, region.dir, base, frames)
  {
    if pages == 0 || !memory {
      return null, [];
    }
    var saved := new Frame[pages](_ => Frame(0));
    var shuffled := new Frame[pages](_ => Frame(0));
    var ok := Collect(region, base, saved, shuffled);
    if !ok {
      return null, [];
    }
    frames := Permute(region, base, saved, shuffled, rng);
    return saved, frames;
  }

  /** The second half of vmm_shuffle. */
  method Permute(region: Region, base: nat, key: array<Frame>, shuffled: array<Frame>, rng: Rng) returns (ghost frames: seq<Frame>)
    requires region.Valid() && key.Length > 0 && base + key.Length <= WINDOW && key != shuffled && key[..] == shuffled[..]
    requires OnFrames(region.mem, region.dir, base, key[..]) && Aligned(key[..])
    modifies region`mem, shuffled, rng
    ensures region.Valid() && key[..] == old(key[..]) && frames == Dealt(key[..], Places(old(rng.state), key.Length - 1))
    ensures Aligned(frames) && multiset(frames) == multiset(key[..])
    ensures |frames| == key.Length && Moved(old(region.mem), region.mem, region.dir, base, frames)
  {
    FisherYates(shuffled, rng);
    AlignedPermuted(key[..], shuffled[..]);
    frames := shuffled[..];
    Remap(region, base, shuffled);
  }

  /** vmm_unshuffle. */
  method Unshuffle(region: Region, base: nat, key: array<Frame>)
    requires region.Valid() && base + key.Length <= WINDOW
    requires forall q: nat {:trigger Pte(region.mem, region.dir, q)} | base <= q < base + key.Length ::
               Present(Pte(region.mem, region.dir, q))
    modifies region`mem
    ensures region.Valid() && Moved(old(region.mem), region.mem, region.dir, base, key[..])
  {
    Remap(region, base, key);
  }
}
