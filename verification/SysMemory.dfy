/** The memory calls of sys/syscall.c over a region's page tables. */
module SysMemory {
  import opened Common
  import opened PageTable

  /** ALIGN_UP(len, PAGE_SIZE) on 32-bit words. */
  function AlignUp(len: nat): nat {
    (len + PAGE_SIZE - 1) % WORD / PAGE_SIZE * PAGE_SIZE
  }

  /** The page behind the range `len` bytes from `addr` on, as the calls compute it. */
  function EndPage(addr: nat, len: nat): nat {
    (addr + AlignUp(len)) % WORD / PAGE_SIZE
  }

  /** The loops cover the range, unless its end leaves 32 bits: then they do nothing at all. */
  lemma Covers(addr: nat, len: nat)
    requires addr % PAGE_SIZE == 0 && addr < WORD && 0 < len < WORD
    ensures if addr + len <= WORD - PAGE_SIZE then
              addr / PAGE_SIZE < EndPage(addr, len) && EndPage(addr, len) * PAGE_SIZE - PAGE_SIZE < addr + len <= EndPage(addr, len) * PAGE_SIZE
            else
              EndPage(addr, len) <= addr / PAGE_SIZE
  {
  }

  ghost predicate AllMapped(mem: Tables, dir: Frame, start: nat, end: nat) {
    forall q: nat {:trigger Resolved(mem, dir, q)} | start <= q < end :: Resolved(mem, dir, q) != 0
  }

  ghost predicate NoneMapped(mem: Tables, dir: Frame, start: nat, end: nat) {
    forall q: nat {:trigger Resolved(mem, dir, q)} | start <= q < end :: Resolved(mem, dir, q) == 0
  }

  /** The pages from `start` to `end` are unmapped, the others translate as before. */
  ghost predicate Unmapped(was: Tables, now: Tables, dir: Frame, start: nat, end: nat) {
    forall q: nat {:trigger Resolved(now, dir, q)} | q < WINDOW ::
      Resolved(now, dir, q) == if start <= q < end then 0 else Resolved(was, dir, q)
  }

  /** The pages from `start` to `end` have the flags and keep what the mask leaves of their
      entry, the others are as before. */
  ghost predicate Protected(was: Tables, now: Tables, dir: Frame, start: nat, end: nat, flags: Word) {
    forall q: nat {:trigger Pte(now, dir, q)} | q < WINDOW ::
      Pte(now, dir, q) == if start <= q < end then Entry(Pte(was, dir, q), flags) else Pte(was, dir, q)
  }

  /** The frames of the mapped pages from `start` to `end`, in order. */
  ghost function Frames(mem: Tables, dir: Frame, start: nat, end: nat): seq<Word>
    requires start <= end
    decreases end
  {
    if start == end then []
    else if Resolved(mem, dir, end - 1) == 0 then Frames(mem, dir, start, end - 1)
    else Frames(mem, dir, start, end - 1) + [Resolved(mem, dir, end - 1)]
  }

  /** The frames of a range in two parts. */
  lemma {:induction false} FramesSplit(mem: Tables, dir: Frame, start: nat, mid: nat, end: nat)
    requires start <= mid <= end
    ensures Frames(mem, dir, start, end) == Frames(mem, dir, start, mid) + Frames(mem, dir, mid, end)
    ensures Frames(mem, dir, mid, mid + 1) == if Resolved(mem, dir, mid) == 0 then [] else [Resolved(mem, dir, mid)]
    decreases end
  {
    assert Frames(mem, dir, mid, mid) == [];
    if mid < end {
      FramesSplit(mem, dir, start, mid, end - 1);
    }
  }

  /** A protected page has the flags asked for and no other, and is still on its frame unless the
      flags bring address bits. */
  lemma ProtectedMeans(was: Tables, now: Tables, dir: Frame, start: nat, end: nat, flags: Word, page: nat)
    requires Protected(was, now, dir, start, end, flags) && start <= page < end && page < WINDOW
    ensures Pte(now, dir, page) & 0xFFF == (flags & 0xFFF) | 1
    ensures Base(Pte(now, dir, page)) == Base(Pte(was, dir, page)) | Base(flags)
  {
    FlagsAsked(Pte(was, dir, page), flags);
    AddressAsked(Pte(was, dir, page), flags);
  }

  lemma OneUnmapped(was: Tables, now: Tables, dir: Frame, page: nat)
    requires OnlyPage(was, now, dir, page, 0)
    ensures Unmapped(was, now, dir, page, page + 1)
  {
    assert !Present(0);
    forall q: nat | q < WINDOW ensures Resolved(now, dir, q) == if q == page then 0 else Resolved(was, dir, q) {
      assert q != page ==> Pte(now, dir, q) == Pte(was, dir, q);
    }
  }

  lemma UnmappedNext(first: Tables, was: Tables, now: Tables, dir: Frame, start: nat, page: nat)
    requires start <= page && Unmapped(first, was, dir, start, page)
    requires Unmapped(was, now, dir, page, page + 1) || (now == was && Resolved(was, dir, page) == 0)
    ensures Unmapped(first, now, dir, start, page + 1)
  {
    forall q: nat | q < WINDOW
      ensures Resolved(now, dir, q) == if start <= q < page + 1 then 0 else Resolved(first, dir, q)
    {
      assert Resolved(was, dir, q) == Resolved(was, dir, q);
    }
  }

  /** Mentioning Walked(page) opens Freeing. */
  ghost predicate Walked(page: nat) {
    true
  }

  /** From `start` up to `page` the range is unmapped, and its frames are `freed`. */
  ghost predicate Freeing(was: Tables, now: Tables, dir: Frame, start: nat, page: nat, freed: seq<Word>) {
    forall p: nat {:trigger Walked(p)} | Walked(p) :: p == page ==>
      start <= p && Unmapped(was, now, dir, start, p) && freed == Frames(was, dir, start, p)
  }

  /** One round of the loop below, which began at `start` with the tables `was`. */
  method FreePage(region: Region, page: nat, freed: seq<Word>, ghost was: Tables, ghost start: nat) returns (r: seq<Word>)
    requires region.Valid() && page < WINDOW && Freeing(was, region.mem, region.dir, start, page, freed)
    modifies region`mem
    ensures region.Valid() && region.mem.Keys == old(region.mem).Keys
    ensures Freeing(was, region.mem, region.dir, start, page + 1, r)
  {
    ghost var now := region.mem;
    assert Walked(page) && Resolved(now, region.dir, page) == Resolved(was, region.dir, page);
    FirstAddress(now, region.dir, page);
    var phys := region.Resolve(page, 0);
    r := freed;
    if phys != 0 {
      var _ := region.Unmap(page);
      OneUnmapped(now, region.mem, region.dir, page);
      r := freed + [phys];
    }
    UnmappedNext(was, now, region.mem, region.dir, start, page);
  }

  /** The loop of sys_munmap_internal_free_phys and of sys_mmap_internal_rb; returns the
      frames handed back to the page allocator, one a page. */
  method FreePages(region: Region, start: nat, end: nat) returns (freed: seq<Word>)
    requires region.Valid() && start <= end <= WINDOW
    modifies region`mem
    ensures region.Valid() && region.mem.Keys == old(region.mem).Keys
    ensures Unmapped(old(region.mem), region.mem, region.dir, start, end)
    ensures freed == Frames(old(region.mem), region.dir, start, end)
  {
    freed := [];
    var page: nat := start;
    while page < end
      invariant start <= page <= end && region.Valid() && region.mem.Keys == old(region.mem).Keys
      invariant Freeing(old(region.mem), region.mem, region.dir, start, page, freed)
    {
      freed := FreePage(region, page, freed, old(region.mem), start);
      page := page + 1;
    }
    assert Walked(page);
  }

  /** The loop with which sys_munmap and sys_mprotect look for a hole. */
  method FindHole(region: Region, start: nat, end: nat) returns (hole: bool)
    requires region.Valid() && end <= WINDOW
    ensures hole <==> !AllMapped(region.mem, region.dir, start, end)
  {
    var page: nat := start;
    while page < end
      invariant start <= page && AllMapped(region.mem, region.dir, start, page)
    {
      FirstAddress(region.mem, region.dir, page);
      var phys := region.Resolve(page, 0);
      if phys == 0 {
        return true;
      }
      page := page + 1;
    }
    return false;
  }

  /** sys_munmap: nothing changes, or the whole range goes and the frame of each of its
      pages is handed back, in order. */
  method Munmap(region: Region, addr: nat, len: nat) returns (r: int, freed: seq<Word>)
    requires region.Valid() && addr < WORD && len < WORD && EndPage(addr, len) <= WINDOW
    modifies region`mem
    ensures region.Valid() && (r == 0 || r == -1)
    ensures r == 0 <==> addr > 0 && len > 0 && addr % PAGE_SIZE == 0
                        && AllMapped(old(region.mem), region.dir, addr / PAGE_SIZE, EndPage(addr, len))
    ensures r < 0 ==> region.mem == old(region.mem) && freed == []
    ensures r == 0 ==> Unmapped(old(region.mem), region.mem, region.dir, addr / PAGE_SIZE, EndPage(addr, len))
    ensures r == 0 && addr / PAGE_SIZE <= EndPage(addr, len) ==>
              freed == Frames(old(region.mem), region.dir, addr / PAGE_SIZE, EndPage(addr, len))
  {
    if addr == 0 || len == 0 || addr % PAGE_SIZE != 0 {
      return -1, [];
    }
    var start, end := addr / PAGE_SIZE, EndPage(addr, len);
    var hole := FindHole(region, start, end);
    if hole {
      return -1, [];
    }
    if start < end {
      freed := FreePages(region, start, end);
    } else {
      freed := [];
    }
    r := 0;
  }

  /** A directory without tables. */
  function EmptyDirectory(): Tables {
    map[Frame(0x1000) := seq(ENTRIES, i => if i == RECURSIVE_PDE then Entry(0x1000, TABLE_FLAGS) else 0)]
  }

  lemma EmptyOk()
    ensures Ok(EmptyDirectory(), Frame(0x1000))
  {
    assert !Present(0);
  }

  /** A range that reaches behind the address space, from a mapped page on: the call reports
      success, hands back nothing, and the page is still mapped. */
  method MunmapNothing() returns (r: int, freed: seq<Word>, phys: Word)
    ensures r == 0 && freed == [] && phys == 0x3000
  {
    EmptyOk();
    var region := new Region(Frame(0x1000), EmptyDirectory());
    var addr, len: nat := 0x400000, 0xFFFFFFFF;
    var _ := region.Map(addr / PAGE_SIZE, 0x3000, 0x7, 0x2000);
    EntryFrame();
    assert Resolved(region.mem, region.dir, addr / PAGE_SIZE) == 0x3000;
    assert EndPage(addr, len) == addr / PAGE_SIZE;
    r, freed := Munmap(region, addr, len);
    assert r == 0;
    FirstAddress(region.mem, region.dir, addr / PAGE_SIZE);
    phys := region.Resolve(addr / PAGE_SIZE, 0);
  }

  lemma EntryFrame()
    ensures Present(Entry(0x3000, 0x7)) && Base(Entry(0x3000, 0x7)) == 0x3000
  {
  }

  /** sys_mprotect. */
  method Mprotect(region: Region, addr: nat, len: nat, flags: Word) returns (r: int)
    requires region.Valid() && addr < WORD && len < WORD && EndPage(addr, len) <= WINDOW
    modifies region`mem
    ensures region.Valid() && (r == 0 || r == -1)
    ensures r == 0 <==> addr > 0 && len > 0 && flags != 0 && addr % PAGE_SIZE == 0
                        && AllMapped(old(region.mem), region.dir, addr / PAGE_SIZE, EndPage(addr, len))
    ensures r < 0 ==> region.mem == old(region.mem)
    ensures r == 0 ==> Protected(old(region.mem), region.mem, region.dir, addr / PAGE_SIZE, EndPage(addr, len), flags)
  {
    if addr == 0 || len == 0 || flags == 0 || addr % PAGE_SIZE != 0 {
      return -1;
    }
    var start, end := addr / PAGE_SIZE, EndPage(addr, len);
    var hole := FindHole(region, start, end);
    if hole {
      return -1;
    }
    var page: nat := start;
    while page < end
      invariant start <= page && (page == start || page <= end) && region.Valid()
      invariant Protected(old(region.mem), region.mem, region.dir, start, page, flags)
    {
      assert Resolved(old(region.mem), region.dir, page) != 0;
      assert Pte(region.mem, region.dir, page) == Pte(old(region.mem), region.dir, page);
      var _ := region.Protect(page, flags);
      page := page + 1;
    }
    return 0;
  }

  /** What the page allocator returns next, 0 when it has nothing left. */
  function Next(supply: seq<Word>): Word {
    if supply == [] then 0 else supply[0]
  }

  function Rest(supply: seq<Word>): seq<Word> {
    if supply == [] then [] else supply[1..]
  }

  /** Page-aligned frames, none of them frame 0, listed twice or in use as a table. */
  ghost predicate Fresh(supply: seq<Word>, mem: Tables) {
    && (forall i {:trigger supply[i]} | 0 <= i < |supply| ::
         supply[i] != 0 && Base(supply[i]) == supply[i] && Frame(supply[i]) !in mem)
    && forall i, j {:trigger supply[i], supply[j]} | 0 <= i < j < |supply| :: supply[i] != supply[j]
  }

  ghost predicate HasTable(mem: Tables, dir: Frame, page: nat) {
    Present(Pde(mem, dir, page / ENTRIES))
  }

  /** The directory entries of the pages from `start` to `end` that have no table yet. */
  ghost function Missing(mem: Tables, dir: Frame, start: nat, end: nat): set<nat> {
    set q: nat | start <= q < end && !HasTable(mem, dir, q) :: q / ENTRIES
  }

  /** `page` is the first of the range under a missing table. */
  ghost predicate FirstUnder(mem: Tables, dir: Frame, start: nat, page: nat) {
    !HasTable(mem, dir, page) && page / ENTRIES !in Missing(mem, dir, start, page)
  }

  /** The frames it takes to map the pages from `start` to `end`: one a page and one a missing
      table. */
  ghost function Need(mem: Tables, dir: Frame, start: nat, end: nat): nat
    requires start <= end
  {
    end - start + |Missing(mem, dir, start, end)|
  }

  lemma MissingNext(mem: Tables, dir: Frame, start: nat, page: nat)
    requires start <= page
    ensures Missing(mem, dir, start, page + 1)
         == Missing(mem, dir, start, page) + (if HasTable(mem, dir, page) then {} else {page / ENTRIES})
  {
    var m, n := Missing(mem, dir, start, page), Missing(mem, dir, start, page + 1);
    forall i | i in n ensures i in m || (!HasTable(mem, dir, page) && i == page / ENTRIES) {
      var q: nat :| start <= q < page + 1 && !HasTable(mem, dir, q) && i == q / ENTRIES;
    }
    if !HasTable(mem, dir, page) {
      assert page / ENTRIES in n;
    }
  }

  lemma NeedNext(mem: Tables, dir: Frame, start: nat, page: nat)
    requires start <= page
    ensures Need(mem, dir, start, page + 1)
         == Need(mem, dir, start, page) + 1 + if FirstUnder(mem, dir, start, page) then 1 else 0
  {
    MissingNext(mem, dir, start, page);
    Grows(Missing(mem, dir, start, page), page / ENTRIES);
  }

  lemma Grows(s: set<nat>, x: nat)
    ensures |s + {x}| == |s| + if x in s then 0 else 1
  {
    if x in s {
      assert s + {x} == s;
    }
  }

  /** The need grows with every page. */
  lemma {:induction false} NeedGrows(mem: Tables, dir: Frame, start: nat, page: nat, end: nat)
    requires start <= page <= end
    ensures Need(mem, dir, start, page) + (end - page) <= Need(mem, dir, start, end)
    decreases end
  {
    if page < end {
      NeedGrows(mem, dir, start, page, end - 1);
      NeedNext(mem, dir, start, end - 1);
    }
  }

  /** There are frames for every page and every missing table. */
  ghost predicate Enough(mem: Tables, dir: Frame, start: nat, end: nat, supply: seq<Word>)
    requires start <= end
  {
    |supply| >= Need(mem, dir, start, end)
  }

  /** One frame is short, and it is the one for the table of the last page. */
  ghost predicate LastTableShort(mem: Tables, dir: Frame, start: nat, end: nat, supply: seq<Word>)
    requires start <= end
  {
    start < end && FirstUnder(mem, dir, start, end - 1) && |supply| == Need(mem, dir, start, end) - 1
  }

  /** The pages from `start` to `page` are mapped, each to the frame drawn when the pages before
      it and their tables had theirs; no other page is different, and the missing tables of the
      range are there. */
  ghost predicate Grown(was: Tables, now: Tables, dir: Frame, start: nat, page: nat, flags: Word, supply: seq<Word>)
    requires start <= page
  {
    && Need(was, dir, start, page) <= |supply|
    && (forall q: nat {:trigger Pte(now, dir, q)} | q < WINDOW ::
         Pte(now, dir, q) == if start <= q < page then Entry(Drawn(supply, Need(was, dir, start, q)), flags)
                             else Pte(was, dir, q))
    && (forall q: nat {:trigger HasTable(now, dir, q)} | q < WINDOW ::
         HasTable(now, dir, q) <==> HasTable(was, dir, q) || q / ENTRIES in Missing(was, dir, start, page))
  }

  function Drawn(supply: seq<Word>, i: nat): Word {
    if i < |supply| then supply[i] else 0
  }

  /** The page has a table now; where there was one there still is, and none came elsewhere. */
  ghost predicate TableAdded(was: Tables, now: Tables, dir: Frame, page: nat) {
    forall q: nat {:trigger HasTable(now, dir, q)} | q < WINDOW ::
      HasTable(now, dir, q) <==> HasTable(was, dir, q) || q / ENTRIES == page / ENTRIES
  }

  lemma GrownNext(was: Tables, mid: Tables, now: Tables, dir: Frame, start: nat, page: nat, flags: Word, supply: seq<Word>)
    requires start <= page < WINDOW && Grown(was, mid, dir, start, page, flags, supply)
    requires Need(was, dir, start, page + 1) <= |supply|
    requires OnlyPage(mid, now, dir, page, Entry(Drawn(supply, Need(was, dir, start, page)), flags))
    requires TableAdded(mid, now, dir, page)
    ensures Grown(was, now, dir, start, page + 1, flags, supply)
  {
    MissingNext(was, dir, start, page);
    NeedNext(was, dir, start, page);
    forall q: nat | q < WINDOW
      ensures HasTable(now, dir, q) <==> HasTable(was, dir, q) || q / ENTRIES in Missing(was, dir, start, page + 1)
    {
      assert HasTable(mid, dir, q) <==> HasTable(was, dir, q) || q / ENTRIES in Missing(was, dir, start, page);
      assert q / ENTRIES == page / ENTRIES ==> (HasTable(was, dir, q) <==> HasTable(was, dir, page));
    }
  }

  /** One round of the loop of sys_internal_mremap_expand that has got a frame; the result of
      vmm_map is ignored, as in the code. */
  method GrowPage(region: Region, page: nat, flags: Word, supply: seq<Word>) returns (rest: seq<Word>)
    requires region.Valid() && page < WINDOW && Fresh(supply, region.mem) && supply != []
    modifies region`mem
    ensures region.Valid() && Fresh(rest, region.mem)
    ensures HasTable(old(region.mem), region.dir, page) || |supply| > 1 ==>
              && rest == supply[if HasTable(old(region.mem), region.dir, page) then 1 else 2..]
              && OnlyPage(old(region.mem), region.mem, region.dir, page, Entry(supply[0], flags))
              && TableAdded(old(region.mem), region.mem, region.dir, page)
    ensures !HasTable(old(region.mem), region.dir, page) && |supply| == 1 ==> rest == [] && region.mem == old(region.mem)
  {
    var physPage := supply[0];
    rest := Rest(supply);
    var table := Next(rest);
    if !Present(Pde(region.mem, region.dir, page / ENTRIES)) {
      rest := Rest(rest);
    }
    var _ := region.Map(page, physPage, flags, table);
  }

  ghost predicate AllPresent(mem: Tables, dir: Frame, start: nat, end: nat) {
    forall q: nat {:trigger Pte(mem, dir, q)} | start <= q < end :: Present(Pte(mem, dir, q))
  }

  /** All pages so far are mapped, and the rest of the supply is left. */
  ghost predicate OnTrack(was: Tables, now: Tables, dir: Frame, start: nat, page: nat, flags: Word,
                          supply: seq<Word>, rest: seq<Word>)
    requires start <= page
  {
    Grown(was, now, dir, start, page, flags, supply) && rest == supply[Need(was, dir, start, page)..]
  }

  /** The supply ran dry between the last page and its table. */
  ghost predicate Short(was: Tables, now: Tables, dir: Frame, start: nat, page: nat, flags: Word,
                        supply: seq<Word>, rest: seq<Word>)
    requires start <= page
  {
    start < page && Grown(was, now, dir, start, page - 1, flags, supply) && rest == []
    && LastTableShort(was, dir, start, page, supply)
  }

  lemma Round(was: Tables, mid: Tables, now: Tables, dir: Frame, start: nat, page: nat, flags: Word,
              supply: seq<Word>, left: seq<Word>, rest: seq<Word>)
    requires start <= page < WINDOW && left != []
    requires OnTrack(was, mid, dir, start, page, flags, supply, left) || Short(was, mid, dir, start, page, flags, supply, left)
    requires HasTable(mid, dir, page) || |left| > 1 ==>
               && rest == left[if HasTable(mid, dir, page) then 1 else 2..]
               && OnlyPage(mid, now, dir, page, Entry(left[0], flags)) && TableAdded(mid, now, dir, page)
    requires !HasTable(mid, dir, page) && |left| == 1 ==> rest == [] && now == mid
    ensures OnTrack(was, now, dir, start, page + 1, flags, supply, rest)
         || Short(was, now, dir, start, page + 1, flags, supply, rest)
  {
    NeedNext(was, dir, start, page);
    assert HasTable(mid, dir, page) <==> !FirstUnder(was, dir, start, page);
    assert left[0] == Drawn(supply, Need(was, dir, start, page));
    if HasTable(mid, dir, page) || |left| > 1 {
      GrownNext(was, mid, now, dir, start, page, flags, supply);
    }
  }

  /** Without a frame and with a page to go, the supply is neither enough nor just short of the
      last table. */
  lemma Dry(was: Tables, now: Tables, dir: Frame, start: nat, page: nat, end: nat, flags: Word,
            supply: seq<Word>, rest: seq<Word>)
    requires start <= page < end && rest == []
    requires OnTrack(was, now, dir, start, page, flags, supply, rest) || Short(was, now, dir, start, page, flags, supply, rest)
    ensures !Enough(was, dir, start, end, supply) && !LastTableShort(was, dir, start, end, supply)
  {
    NeedGrows(was, dir, start, page, end - 1);
    NeedNext(was, dir, start, end - 1);
  }

  lemma Ends(was: Tables, now: Tables, dir: Frame, start: nat, end: nat, flags: Word, supply: seq<Word>, rest: seq<Word>)
    requires start <= end <= WINDOW
    requires OnTrack(was, now, dir, start, end, flags, supply, rest) || Short(was, now, dir, start, end, flags, supply, rest)
    ensures Enough(was, dir, start, end, supply) ==>
              OnTrack(was, now, dir, start, end, flags, supply, rest) && AllPresent(now, dir, start, end)
    ensures LastTableShort(was, dir, start, end, supply) ==>
              Short(was, now, dir, start, end, flags, supply, rest) && !Present(Pte(now, dir, end - 1))
    ensures Enough(was, dir, start, end, supply) || LastTableShort(was, dir, start, end, supply)
  {
    assert !Present(0);
    if OnTrack(was, now, dir, start, end, flags, supply, rest) {
      forall q: nat | start <= q < end ensures Present(Pte(now, dir, q)) {
        EntryPresent(Drawn(supply, Need(was, dir, start, q)), flags);
      }
    }
    if Short(was, now, dir, start, end, flags, supply, rest) {
      assert Pte(now, dir, end - 1) == Pte(was, dir, end - 1);
    }
  }

  /** What was mapped so far is unmapped again. */
  lemma TakenBack(was: Tables, before: Tables, now: Tables, dir: Frame, start: nat, page: nat, flags: Word, supply: seq<Word>)
    requires start <= page <= WINDOW && Unmapped(before, now, dir, start, page)
    requires Grown(was, before, dir, start, page, flags, supply)
          || (start < page && Grown(was, before, dir, start, page - 1, flags, supply))
    ensures Unmapped(was, now, dir, start, page)
  {
    forall q: nat | q < WINDOW ensures Resolved(now, dir, q) == if start <= q < page then 0 else Resolved(was, dir, q) {
      assert !(start <= q < page) ==> Pte(before, dir, q) == Pte(was, dir, q);
    }
  }

  /** The frames that the entries of the grown pages refer to. */
  ghost function Entered(was: Tables, dir: Frame, start: nat, page: nat, flags: Word, supply: seq<Word>): (r: seq<Word>)
    requires start <= page
    ensures |r| == page - start
    decreases page
  {
    if start == page then []
    else Entered(was, dir, start, page - 1, flags, supply)
         + [Base(Entry(Drawn(supply, Need(was, dir, start, page - 1)), flags))]
  }

  /** The frames drawn for those pages. */
  ghost function PageFrames(was: Tables, dir: Frame, start: nat, page: nat, supply: seq<Word>): (r: seq<Word>)
    requires start <= page
    ensures |r| == page - start
    decreases page
  {
    if start == page then []
    else PageFrames(was, dir, start, page - 1, supply) + [Drawn(supply, Need(was, dir, start, page - 1))]
  }

  predicate AddsNoBit(pa: Word, flags: Word) {
    Base(flags) & !pa == 0
  }

  lemma KeptIff(pa: Word, flags: Word)
    requires Base(pa) == pa
    ensures Base(Entry(pa, flags)) == pa <==> AddsNoBit(pa, flags)
  {
    FrameKept(pa, flags);
  }

  lemma AppendSame<T>(a: seq<T>, b: seq<T>, x: T, y: T)
    requires |a| == |b|
    ensures a + [x] == b + [y] <==> a == b && x == y
  {
    if a + [x] == b + [y] {
      assert a == (a + [x])[..|a|] && b == (b + [y])[..|b|];
      assert x == (a + [x])[|a|] && y == (b + [y])[|b|];
    }
  }

  /** No flag is an address bit that one of those frames lacks. */
  ghost predicate FlagsFit(was: Tables, dir: Frame, start: nat, page: nat, flags: Word, supply: seq<Word>) {
    forall q: nat {:trigger Need(was, dir, start, q)} | start <= q < page ::
      AddsNoBit(Drawn(supply, Need(was, dir, start, q)), flags)
  }

  /** The entries refer to the frames drawn exactly when the flags bring no address bit. */
  lemma {:induction false} EnteredAsDrawn(was: Tables, dir: Frame, start: nat, page: nat, flags: Word, supply: seq<Word>)
    requires start <= page && Need(was, dir, start, page) <= |supply|
    requires forall i {:trigger supply[i]} | 0 <= i < |supply| :: Base(supply[i]) == supply[i]
    ensures Entered(was, dir, start, page, flags, supply) == PageFrames(was, dir, start, page, supply)
        <==> FlagsFit(was, dir, start, page, flags, supply)
    decreases page
  {
    if start < page {
      NeedNext(was, dir, start, page - 1);
      EnteredAsDrawn(was, dir, start, page - 1, flags, supply);
      var pa := Drawn(supply, Need(was, dir, start, page - 1));
      KeptIff(pa, flags);
      AppendSame(Entered(was, dir, start, page - 1, flags, supply), PageFrames(was, dir, start, page - 1, supply),
                 Base(Entry(pa, flags)), pa);
    }
  }

  ghost predicate PageFramesOnly(supply: seq<Word>) {
    forall i {:trigger supply[i]} | 0 <= i < |supply| :: supply[i] != 0 && Base(supply[i]) == supply[i]
  }

  lemma {:induction false} FramesOfGrown(was: Tables, now: Tables, dir: Frame, start: nat, page: nat, end: nat, flags: Word,
                                         supply: seq<Word>)
    requires start <= page <= end <= WINDOW && Grown(was, now, dir, start, end, flags, supply)
    requires PageFramesOnly(supply)
    ensures Frames(now, dir, start, page) == Entered(was, dir, start, page, flags, supply)
    decreases page
  {
    if start < page {
      FramesOfGrown(was, now, dir, start, page - 1, end, flags, supply);
      NeedGrows(was, dir, start, page, end);
      NeedNext(was, dir, start, page - 1);
      var i := Need(was, dir, start, page - 1);
      assert Pte(now, dir, page - 1) == Entry(supply[i], flags);
      EntryPresent(supply[i], flags);
      EntryNotZero(supply[i], flags);
    }
  }

  lemma EntryNotZero(pa: Word, flags: Word)
    requires Base(pa) == pa && pa != 0
    ensures Base(Entry(pa, flags)) != 0
  {
  }

  /** The page whose table could not be had does not resolve. */
  lemma StillUnmapped(was: Tables, now: Tables, dir: Frame, start: nat, page: nat, flags: Word, supply: seq<Word>)
    requires start <= page < WINDOW && Grown(was, now, dir, start, page, flags, supply) && !HasTable(was, dir, page)
    ensures Resolved(now, dir, page) == 0
  {
    assert !Present(0);
    assert Pte(now, dir, page) == Pte(was, dir, page);
  }

  /** The pages a failed grow has mapped: all it has reached, or all but the last, whose table
      could not be had. */
  ghost function Mapped(was: Tables, dir: Frame, start: nat, reached: nat, supply: seq<Word>): nat
    requires start <= reached
  {
    if LastTableShort(was, dir, start, reached, supply) then reached - 1 else reached
  }

  /** What a failed grow hands back, and what it has drawn: the frames for the pages mapped and
      for their tables, and one more, which is lost, if a page's table could not be had. */
  ghost predicate Returned(was: Tables, now: Tables, dir: Frame, start: nat, page: nat, flags: Word, supply: seq<Word>)
    requires start <= page
  {
    var end := Mapped(was, dir, start, page, supply);
    && end >= start && |supply| == Need(was, dir, start, end) + page - end
    && Frames(now, dir, start, page) == Entered(was, dir, start, end, flags, supply)
  }

  lemma ReturnedAll(was: Tables, now: Tables, dir: Frame, start: nat, page: nat, flags: Word, supply: seq<Word>)
    requires start <= page <= WINDOW && OnTrack(was, now, dir, start, page, flags, supply, []) && PageFramesOnly(supply)
    ensures Returned(was, now, dir, start, page, flags, supply)
  {
    assert |supply| == Need(was, dir, start, page);
    FramesOfGrown(was, now, dir, start, page, page, flags, supply);
  }

  lemma ReturnedShort(was: Tables, now: Tables, dir: Frame, start: nat, page: nat, flags: Word, supply: seq<Word>)
    requires start <= page <= WINDOW && Short(was, now, dir, start, page, flags, supply, []) && PageFramesOnly(supply)
    ensures Returned(was, now, dir, start, page, flags, supply)
  {
    FramesOfGrown(was, now, dir, start, page - 1, page - 1, flags, supply);
    NeedNext(was, dir, start, page - 1);
    StillUnmapped(was, now, dir, start, page - 1, flags, supply);
  }

  /** sys_mmap_internal_rb, when the pages up to `page` have been grown out of the tables `was`. */
  method RollBack(region: Region, start: nat, page: nat, ghost was: Tables, ghost flags: Word, ghost supply: seq<Word>)
      returns (freed: seq<Word>)
    requires region.Valid() && start <= page <= WINDOW && Fresh(supply, was)
    requires OnTrack(was, region.mem, region.dir, start, page, flags, supply, [])
          || Short(was, region.mem, region.dir, start, page, flags, supply, [])
    modifies region`mem
    ensures region.Valid() && Unmapped(was, region.mem, region.dir, start, page)
    ensures Returned(was, old(region.mem), region.dir, start, page, flags, supply)
    ensures freed == Frames(old(region.mem), region.dir, start, page)
  {
    ghost var before := region.mem;
    if OnTrack(was, before, region.dir, start, page, flags, supply, []) {
      ReturnedAll(was, before, region.dir, start, page, flags, supply);
    } else {
      ReturnedShort(was, before, region.dir, start, page, flags, supply);
    }
    freed := FreePages(region, start, page);
    TakenBack(was, before, region.mem, region.dir, start, page, flags, supply);
  }

  /** sys_internal_mremap_expand on the pages from `start` to `end`; the page allocator hands
      out `supply`.  With enough frames every page is mapped.  If just the frame for the last
      page's table is missing, the grow reports success all the same and leaves that page
      unmapped.  Otherwise it fails and leaves the pages unmapped, so that it restores every
      translation of a range that was not mapped before; it hands back the frames its entries
      referred to, and has drawn those, the tables, and at most one more. */
  method Expand(region: Region, start: nat, end: nat, flags: Word, supply: seq<Word>)
    returns (r: int, rest: seq<Word>, freed: seq<Word>, ghost reached: nat)
    requires region.Valid() && start <= end <= WINDOW && Fresh(supply, region.mem)
    modifies region`mem
    ensures region.Valid()
    ensures r == if Enough(old(region.mem), region.dir, start, end, supply)
                 || LastTableShort(old(region.mem), region.dir, start, end, supply) then 0 else -1
    ensures r == 0 && AllPresent(region.mem, region.dir, start, end) <==> Enough(old(region.mem), region.dir, start, end, supply)
    ensures Enough(old(region.mem), region.dir, start, end, supply) ==>
              && Grown(old(region.mem), region.mem, region.dir, start, end, flags, supply)
              && rest == supply[Need(old(region.mem), region.dir, start, end)..]
    ensures LastTableShort(old(region.mem), region.dir, start, end, supply) ==>
              && Grown(old(region.mem), region.mem, region.dir, start, end - 1, flags, supply)
              && !Present(Pte(region.mem, region.dir, end - 1)) && rest == []
    ensures r < 0 ==> rest == [] && start <= reached < end && Unmapped(old(region.mem), region.mem, region.dir, start, reached)
    ensures r < 0 ==>
              var mapped := Mapped(old(region.mem), region.dir, start, reached, supply);
              && mapped >= start && freed == Entered(old(region.mem), region.dir, start, mapped, flags, supply)
              && |supply| == Need(old(region.mem), region.dir, start, mapped) + reached - mapped
    ensures r == 0 ==> freed == []
    ensures r < 0 && NoneMapped(old(region.mem), region.dir, start, end) ==>
              forall q: nat {:trigger Resolved(region.mem, region.dir, q)} | q < WINDOW ::
                Resolved(region.mem, region.dir, q) == Resolved(old(region.mem), region.dir, q)
  {
    var page: nat := start;
    rest := supply;
    ghost var was := region.mem;
    while page < end
      invariant start <= page <= end && region.Valid() && Fresh(rest, region.mem)
      invariant OnTrack(was, region.mem, region.dir, start, page, flags, supply, rest)
             || Short(was, region.mem, region.dir, start, page, flags, supply, rest)
    {
      if Next(rest) == 0 {
        Dry(was, region.mem, region.dir, start, page, end, flags, supply, rest);
        freed := RollBack(region, start, page, was, flags, supply);
        return -1, [], freed, page;
      }
      ghost var mid, left := region.mem, rest;
      rest := GrowPage(region, page, flags, rest);
      Round(was, mid, region.mem, region.dir, start, page, flags, supply, left, rest);
      page := page + 1;
    }
    Ends(was, region.mem, region.dir, start, end, flags, supply, rest);
    r, freed, reached := 0, [], end;
  }

  /** One frame is one too few to map the first page of an empty directory. */
  lemma OneFrame()
    ensures Ok(EmptyDirectory(), Frame(0x1000)) && Fresh([0x2000], EmptyDirectory())
    ensures LastTableShort(EmptyDirectory(), Frame(0x1000), 0, 1, [0x2000])
  {
    var mem, dir := EmptyDirectory(), Frame(0x1000);
    assert !Present(0) && !HasTable(mem, dir, 0);
    assert Missing(mem, dir, 0, 0) == {};
    NeedNext(mem, dir, 0, 0);
  }

  /** So that a grow of one page with one frame reports success, and the page is not mapped. */
  method HoleExample() returns (r: int, phys: Word)
    ensures r == 0 && phys == 0
  {
    OneFrame();
    var region := new Region(Frame(0x1000), EmptyDirectory());
    var rest, freed;
    ghost var reached;
    r, rest, freed, reached := Expand(region, 0, 1, 0x7, [0x2000]);
    FirstAddress(region.mem, region.dir, 0);
    phys := region.Resolve(0, 0);
  }
}
