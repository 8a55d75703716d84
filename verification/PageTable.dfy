/** The two-level page tables of mem/vmm.c, edited through the recursive entry of the loaded
    directory.  A frame is named by its physical base address; a virtual address is a page
    number and the twelve bits of the offset.  The walk follows section 4.3 of the Intel SDM, volume 3A, for 4-KByte pages. */
module PageTable {
  import opened Common

  type Word = bv32
  datatype Frame = Frame(base: Word)

  type Tables = map<Frame, seq<Word>>

  const ENTRIES: nat := 1024
  const RECURSIVE_PDE: nat := 1023
  /** The first page of the recursive window, RECURSIVE_ADDR / PAGE_SIZE. */
  const WINDOW: nat := 1023 * 1024

  const PAGE_MASK: Word := 0xFFFFF000
  const PRESENT: Word := 0x1
  const TABLE_FLAGS: Word := 0x7

  function Base(entry: Word): Word {
    entry & PAGE_MASK
  }

  /** The frame an entry refers to. */
  function FrameOf(entry: Word): Frame {
    Frame(Base(entry))
  }

  predicate Present(entry: Word) {
    entry & PRESENT != 0
  }

  /** What vmm_map writes. */
  function Entry(pa: Word, flags: Word): Word {
    (pa & PAGE_MASK) | flags | PRESENT
  }

  lemma EntryPresent(pa: Word, flags: Word)
    ensures Present(Entry(pa, flags))
  {
  }

  /** Frame and flags of an entry share no bit and make it up. */
  lemma EntryParts(entry: Word)
    ensures Base(entry) + (entry & 0xFFF) == entry
  {
  }

  lemma FrameStart(entry: Word)
    ensures Base(entry) & 0xFFF == 0
  {
  }

  lemma LowestBit(entry: Word)
    ensures Present(entry) <==> entry & 1 == 1
  {
  }

  /** The low bits are those asked for, with presence, whatever the frame's address brings along. */
  lemma FlagsAsked(pa: Word, flags: Word)
    ensures Entry(pa, flags) & 0xFFF == (flags & 0xFFF) | 1
  {
  }

  lemma AddressAsked(pa: Word, flags: Word)
    ensures Base(Entry(pa, flags)) == Base(pa) | Base(flags)
  {
  }

  /** A directory entry that leads to `table` and lets user code read and write through it. */
  ghost predicate Passes(entry: Word, table: Word) {
    entry & 0x1 != 0 && entry & 0x2 != 0 && entry & 0x4 != 0 && entry & 0xFFFFF000 == table
  }

  lemma TableEntry(pa: Word)
    requires Base(pa) == pa
    ensures Present(Entry(pa, TABLE_FLAGS)) && Base(Entry(pa, TABLE_FLAGS)) == pa
  {
  }

  lemma TableWritable(pa: Word)
    ensures Entry(pa, TABLE_FLAGS) & 0x2 != 0
  {
  }

  lemma TableUser(pa: Word)
    ensures Entry(pa, TABLE_FLAGS) & 0x4 != 0
  {
  }

  /** What vmm_map enters for a new page table. */
  lemma TablePasses(pa: Word)
    requires Base(pa) == pa
    ensures Passes(Entry(pa, TABLE_FLAGS), pa)
  {
    TableEntry(pa);
    TableWritable(pa);
    TableUser(pa);
  }

  /** A mapping leads to the frame it was asked for exactly when the flags have no address bit
      that the frame lacks. */
  lemma FrameKept(pa: Word, flags: Word)
    ensures Base(Entry(pa, flags)) == Base(pa) <==> Base(flags) & !pa == 0
  {
  }

  /** The directory and the tables it refers to: every table in a frame of its own, and the
      last directory entry leading back to the directory. */
  ghost predicate Ok(mem: Tables, dir: Frame) {
    && dir in mem && Base(dir.base) == dir.base
    && (forall f {:trigger mem[f]} | f in mem :: |mem[f]| == ENTRIES)
    && Present(mem[dir][RECURSIVE_PDE]) && FrameOf(mem[dir][RECURSIVE_PDE]) == dir
    && (forall i: nat {:trigger Pde(mem, dir, i)} | i < RECURSIVE_PDE && Present(Pde(mem, dir, i)) ::
         FrameOf(Pde(mem, dir, i)) in mem && FrameOf(Pde(mem, dir, i)) != dir)
    && (forall i: nat, j: nat {:trigger Pde(mem, dir, i), Pde(mem, dir, j)} |
          i < j < RECURSIVE_PDE && Present(Pde(mem, dir, i)) && Present(Pde(mem, dir, j)) ::
          FrameOf(Pde(mem, dir, i)) != FrameOf(Pde(mem, dir, j)))
  }

  function Pde(mem: Tables, dir: Frame, i: nat): Word {
    if dir in mem && i < |mem[dir]| then mem[dir][i] else 0
  }

  /** The processor's walk: the frame a virtual page is on. */
  function Walk(mem: Tables, dir: Frame, page: nat): Option<Frame> {
    var pde := Pde(mem, dir, page / ENTRIES);
    var pte := Pde(mem, FrameOf(pde), page % ENTRIES);
    if Present(pde) && Present(pte) then Some(FrameOf(pte)) else None
  }

  /** The page-table entry of a page, 0 without a table. */
  function Pte(mem: Tables, dir: Frame, page: nat): Word {
    var pde := Pde(mem, dir, page / ENTRIES);
    if Present(pde) then Pde(mem, FrameOf(pde), page % ENTRIES) else 0
  }

  /** The frame vmm_resolve finds; 0 also stands for an unmapped page. */
  function Resolved(mem: Tables, dir: Frame, page: nat): Word {
    var pte := Pte(mem, dir, page);
    if Present(pte) then Base(pte) else 0
  }

  /** The physical address vmm_resolve gives; 0 without a mapping. */
  function Translated(mem: Tables, dir: Frame, page: nat, offset: bv12): Word {
    var pte := Pte(mem, dir, page);
    if Present(pte) then Base(pte) | (offset as Word) else 0
  }

  /** Frame and offset do not meet: joining them is adding them, and each can be read back. */
  lemma OffsetAdds(entry: Word, offset: bv12)
    ensures Base(entry) | (offset as Word) == Base(entry) + (offset as Word)
  {
  }

  lemma FrameReadBack(entry: Word, offset: bv12)
    ensures Base(Base(entry) | (offset as Word)) == Base(entry)
  {
  }

  lemma OffsetReadBack(entry: Word, offset: bv12)
    ensures (Base(entry) | (offset as Word)) & 0xFFF == offset as Word
  {
  }

  lemma WidthKept(i: bv12, j: bv12)
    requires i as Word == j as Word
    ensures i == j
  {
  }

  /** A joined address determines its parts: two agree exactly if frame and offset do. */
  lemma JoinedApart(e: Word, i: bv12, f: Word, j: bv12)
    ensures Base(e) | (i as Word) == Base(f) | (j as Word) <==> Base(e) == Base(f) && i == j
  {
    if Base(e) | (i as Word) == Base(f) | (j as Word) {
      FrameReadBack(e, i);
      FrameReadBack(f, j);
      OffsetReadBack(e, i);
      OffsetReadBack(f, j);
      WidthKept(i, j);
    }
  }

  lemma ZeroOnly(entry: Word, offset: bv12)
    ensures Base(entry) | (offset as Word) == 0 <==> Base(entry) == 0 && offset == 0
  {
  }

  /** A mapped address resolves to frame plus offset; 0 stands for an unmapped address, and at
      offset 0 for the first byte of frame 0 as well. */
  lemma TranslatedMeans(mem: Tables, dir: Frame, page: nat, offset: bv12)
    ensures Present(Pte(mem, dir, page)) ==> Translated(mem, dir, page, offset) == Base(Pte(mem, dir, page)) + (offset as Word)
    ensures Translated(mem, dir, page, offset) == 0
        <==> !Present(Pte(mem, dir, page)) || (offset == 0 && Base(Pte(mem, dir, page)) == 0)
  {
    OffsetAdds(Pte(mem, dir, page), offset);
    ZeroOnly(Pte(mem, dir, page), offset);
  }

  /** The first address of a page resolves to its frame. */
  lemma FirstAddress(mem: Tables, dir: Frame, page: nat)
    ensures Translated(mem, dir, page, 0) == Resolved(mem, dir, page)
  {
    var e := Base(Pte(mem, dir, page));
    assert e | 0 == e;
  }

  /** Through the recursive entry, page `i` of the window is the i-th page table. */
  lemma SelfMap(mem: Tables, dir: Frame, i: nat)
    requires Ok(mem, dir) && i < RECURSIVE_PDE && Present(Pde(mem, dir, i))
    ensures Walk(mem, dir, WINDOW + i) == Some(FrameOf(Pde(mem, dir, i)))
  {
    assert (WINDOW + i) / ENTRIES == RECURSIVE_PDE && (WINDOW + i) % ENTRIES == i;
  }

  /** A page translates as its entry in the flat table says. */
  lemma FlatIsWalk(mem: Tables, dir: Frame, page: nat)
    ensures Walk(mem, dir, page) == if Present(Pte(mem, dir, page)) then Some(FrameOf(Pte(mem, dir, page))) else None
  {
    assert !Present(0);
  }

  /** Memory after a store to word `k` of frame `f`. */
  function Stored(mem: Tables, f: Frame, k: nat, value: Word): Tables
    requires f in mem && k < |mem[f]|
  {
    mem[f := mem[f][k := value]]
  }

  /** Only page `page` may differ between the two memories, and it has entry `pte`. */
  ghost predicate OnlyPage(was: Tables, now: Tables, dir: Frame, page: nat, pte: Word) {
    && Pte(now, dir, page) == pte
    && forall q: nat {:trigger Pte(now, dir, q)} | q < WINDOW && q != page :: Pte(now, dir, q) == Pte(was, dir, q)
  }

  /** A store to an entry of a page table changes that one page. */
  lemma StoreEntry(mem: Tables, dir: Frame, page: nat, value: Word)
    requires Ok(mem, dir) && page < WINDOW && Present(Pde(mem, dir, page / ENTRIES))
    ensures var f := FrameOf(Pde(mem, dir, page / ENTRIES));
            && f in mem && Ok(Stored(mem, f, page % ENTRIES, value), dir)
            && Stored(mem, f, page % ENTRIES, value)[dir] == mem[dir]
            && OnlyPage(mem, Stored(mem, f, page % ENTRIES, value), dir, page, value)
  {
    var i := page / ENTRIES;
    assert i < RECURSIVE_PDE;
    var f := FrameOf(Pde(mem, dir, i));
    var now := Stored(mem, f, page % ENTRIES, value);
    assert forall j: nat {:trigger Pde(now, dir, j)} | j < ENTRIES :: Pde(now, dir, j) == Pde(mem, dir, j);
    forall q: nat | q < WINDOW && q != page ensures Pte(now, dir, q) == Pte(mem, dir, q) {
      assert q / ENTRIES < RECURSIVE_PDE;
      assert Pde(now, dir, q / ENTRIES) == Pde(mem, dir, q / ENTRIES);
      if q / ENTRIES == i {
        assert q % ENTRIES != page % ENTRIES;
      }
    }
    assert Pde(now, dir, i) == Pde(mem, dir, i);
  }

  /** What a store through the recursive window does to the processor's walk: the page whose
      entry is written goes where the new entry says, every other page where it went. */
  lemma WindowStore(mem: Tables, dir: Frame, page: nat, value: Word)
    requires Ok(mem, dir) && page < WINDOW && Present(Pde(mem, dir, page / ENTRIES))
    ensures var table := Walk(mem, dir, WINDOW + page / ENTRIES);
            && table.Some? && table.value in mem && Ok(Stored(mem, table.value, page % ENTRIES, value), dir)
            && forall q: nat {:trigger Walk(Stored(mem, table.value, page % ENTRIES, value), dir, q)} | q < WINDOW ::
                 Walk(Stored(mem, table.value, page % ENTRIES, value), dir, q)
                 == if q != page then Walk(mem, dir, q) else if Present(value) then Some(FrameOf(value)) else None
  {
    SelfMap(mem, dir, page / ENTRIES);
    StoreEntry(mem, dir, page, value);
    var now := Stored(mem, Walk(mem, dir, WINDOW + page / ENTRIES).value, page % ENTRIES, value);
    forall q: nat | q < WINDOW
      ensures Walk(now, dir, q) == if q != page then Walk(mem, dir, q) else if Present(value) then Some(FrameOf(value)) else None
    {
      FlatIsWalk(mem, dir, q);
      FlatIsWalk(now, dir, q);
      assert q != page ==> Pte(now, dir, q) == Pte(mem, dir, q);
    }
  }

  /** A fresh, cleared page table changes no page at all. */
  lemma NewTable(mem: Tables, dir: Frame, i: nat, f: Frame)
    requires Ok(mem, dir) && i < RECURSIVE_PDE && !Present(Pde(mem, dir, i)) && f !in mem && Base(f.base) == f.base
    ensures var now := Stored(mem, dir, i, Entry(f.base, TABLE_FLAGS))[f := Zeros()];
            && Ok(now, dir) && Pde(now, dir, i) == Entry(f.base, TABLE_FLAGS)
            && forall q: nat {:trigger Pte(now, dir, q)} | q < WINDOW :: Pte(now, dir, q) == Pte(mem, dir, q)
  {
    var now := Stored(mem, dir, i, Entry(f.base, TABLE_FLAGS))[f := Zeros()];
    TableEntry(f.base);
    assert forall j: nat {:trigger Pde(now, dir, j)} | j < ENTRIES ::
        Pde(now, dir, j) == if j == i then Entry(f.base, TABLE_FLAGS) else Pde(mem, dir, j);
    forall q: nat | q < WINDOW ensures Pte(now, dir, q) == Pte(mem, dir, q) {
      assert q / ENTRIES < RECURSIVE_PDE;
      assert Pde(now, dir, q / ENTRIES) == if q / ENTRIES == i then Entry(f.base, TABLE_FLAGS) else Pde(mem, dir, q / ENTRIES);
    }
  }

  function Zeros(): (r: seq<Word>)
    ensures |r| == ENTRIES
  {
    seq(ENTRIES, i => 0)
  }

  /** The loaded region. */
  class Region {
    /** The directory's frame. */
    const dir: Frame
    /** The words of the frames that hold the directory and the page tables. */
    var mem: Tables

    ghost predicate Valid()
      reads this
    {
      Ok(mem, dir)
    }

    constructor (dir: Frame, mem: Tables)
      requires Ok(mem, dir)
      ensures Valid() && this.dir == dir && this.mem == mem
    {
      this.dir, this.mem := dir, mem;
    }

    /** A read or write through a virtual address goes where the walk leads. */
    method Load(page: nat, k: nat) returns (value: Word)
      requires Walk(mem, dir, page).Some? && Walk(mem, dir, page).value in mem && k < |mem[Walk(mem, dir, page).value]|
      ensures value == mem[Walk(mem, dir, page).value][k]
    {
      value := mem[Walk(mem, dir, page).value][k];
    }

    method Store(page: nat, k: nat, value: Word)
      requires Walk(mem, dir, page).Some? && Walk(mem, dir, page).value in mem && k < |mem[Walk(mem, dir, page).value]|
      modifies this`mem
      ensures mem == Stored(old(mem), Walk(old(mem), dir, page).value, k, value)
    {
      var f := Walk(mem, dir, page).value;
      mem := Stored(mem, f, k, value);
    }

    /** A write to the page's entry, through the window. */
    method SetEntry(page: nat, value: Word)
      requires Valid() && page < WINDOW && Present(Pde(mem, dir, page / ENTRIES))
      modifies this`mem
      ensures Valid() && mem.Keys == old(mem).Keys && mem[dir] == old(mem)[dir] && OnlyPage(old(mem), mem, dir, page, value)
      ensures forall i: nat {:trigger Pde(mem, dir, i)} :: Pde(mem, dir, i) == Pde(old(mem), dir, i)
    {
      SelfMap(mem, dir, page / ENTRIES);
      StoreEntry(mem, dir, page, value);
      Store(WINDOW + page / ENTRIES, page % ENTRIES, value);
    }

    /** The first half of vmm_map: a new page table, cleared. */
    method AddTable(pdi: nat, table: Word)
      requires Valid() && pdi < RECURSIVE_PDE && !Present(Pde(mem, dir, pdi))
      requires Frame(table) !in mem && Base(table) == table
      modifies this`mem
      ensures Valid() && mem.Keys == old(mem).Keys + {Frame(table)} && Present(Pde(mem, dir, pdi))
      ensures Pde(mem, dir, pdi) == Entry(table, TABLE_FLAGS)
      ensures forall i: nat {:trigger Pde(mem, dir, i)} | i < ENTRIES && i != pdi :: Pde(mem, dir, i) == Pde(old(mem), dir, i)
      ensures forall q: nat {:trigger Pte(mem, dir, q)} | q < WINDOW :: Pte(mem, dir, q) == Pte(old(mem), dir, q)
    {
      NewTable(mem, dir, pdi, Frame(table));
      TableEntry(table);
      mem := Stored(mem, dir, pdi, Entry(table, TABLE_FLAGS));
      assert Walk(mem, dir, WINDOW + pdi) == Some(Frame(table));
      mem := mem[Frame(table) := Zeros()];
    }

    /** vmm_map; `table` is the frame the page allocator returns if a page table is needed,
        0 for none. */
    method Map(page: nat, pa: Word, flags: Word, table: Word) returns (r: int)
      requires Valid() && page < WINDOW
      requires table != 0 ==> Frame(table) !in mem && Base(table) == table
      modifies this`mem
      ensures Valid()
      ensures r == if !Present(Pde(old(mem), dir, page / ENTRIES)) && table == 0 then -1 else 0
      ensures r < 0 ==> mem == old(mem)
      ensures r == 0 ==> OnlyPage(old(mem), mem, dir, page, Entry(pa, flags))
      ensures Present(Pde(old(mem), dir, page / ENTRIES)) ==> mem[dir] == old(mem)[dir]
      ensures r == 0 ==> Present(Pde(mem, dir, page / ENTRIES))
      ensures r == 0 && !Present(Pde(old(mem), dir, page / ENTRIES)) ==> Pde(mem, dir, page / ENTRIES) == Entry(table, TABLE_FLAGS)
      ensures forall i: nat {:trigger Pde(mem, dir, i)} | i < ENTRIES && i != page / ENTRIES :: Pde(mem, dir, i) == Pde(old(mem), dir, i)
      ensures mem.Keys == if Present(Pde(old(mem), dir, page / ENTRIES)) || table == 0 then old(mem).Keys
                          else old(mem).Keys + {Frame(table)}
    {
      var pdi := page / ENTRIES;
      if !Present(mem[dir][pdi]) {
        if table == 0 {
          return -1;
        }
        AddTable(pdi, table);
      }
      SetEntry(page, Entry(pa, flags));
      return 0;
    }

    /** vmm_unmap. */
    method Unmap(page: nat) returns (r: int)
      requires Valid() && page < WINDOW
      modifies this`mem
      ensures Valid() && mem.Keys == old(mem).Keys && mem[dir] == old(mem)[dir]
      ensures r == if Present(Pde(old(mem), dir, page / ENTRIES)) then 0 else -1
      ensures r < 0 ==> mem == old(mem)
      ensures OnlyPage(old(mem), mem, dir, page, 0)
    {
      var pdi := page / ENTRIES;
      if !Present(mem[dir][pdi]) {
        return -1;
      }
      SetEntry(page, 0);
      return 0;
    }

    /** vmm_resolve. */
    method Resolve(page: nat, offset: bv12) returns (r: Word)
      requires Valid() && page < WINDOW
      ensures r == Translated(mem, dir, page, offset)
    {
      var pdi, pti := page / ENTRIES, page % ENTRIES;
      if !Present(mem[dir][pdi]) {
        assert !Present(0);
        return 0;
      }
      SelfMap(mem, dir, pdi);
      var pte := Load(WINDOW + pdi, pti);
      if !Present(pte) {
        return 0;
      }
      return (pte & PAGE_MASK) | (offset as Word);
    }

    /** vmm_protect; its pg_tbls is the recursive window, too. */
    method Protect(page: nat, flags: Word) returns (r: int)
      requires Valid() && page < WINDOW
      modifies this`mem
      ensures Valid() && mem.Keys == old(mem).Keys && mem[dir] == old(mem)[dir]
      ensures r == if Present(Pte(old(mem), dir, page)) then 0 else -1
      ensures r < 0 ==> mem == old(mem)
      ensures r == 0 ==> OnlyPage(old(mem), mem, dir, page, Entry(Pte(old(mem), dir, page), flags))
    {
      var pdi, pti := page / ENTRIES, page % ENTRIES;
      if !Present(mem[dir][pdi]) {
        assert !Present(0);
        return -1;
      }
      SelfMap(mem, dir, pdi);
      var pte := Load(WINDOW + pdi, pti);
      if !Present(pte) {
        return -1;
      }
      SetEntry(page, Entry(pte, flags));
      return 0;
    }
  }
}
