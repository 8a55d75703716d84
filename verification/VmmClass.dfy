/** The address classes of mem/vmm.c: next-fit search over a sorted, doubly linked list of
    areas, with wraparound, an alignment and a validator. */
module VmmClass {
  import opened Common

  /** Addition of two 32-bit words. */
  function Add(a: nat, b: nat): (r: nat)
    ensures a + b < WORD ==> r == a + b
  {
    (a + b) % WORD
  }

  /** vmm_class_config_t; a null validator is one that accepts everything. */
  datatype Config = Config(start: nat, end: nat, align: nat, validator: (nat, nat) -> bool)
  {
    /** The distance between the positions the search looks at. */
    function Step(): nat {
      if align <= PAGE_SIZE then PAGE_SIZE else align
    }

    ghost predicate Ok() {
      && 0 < start <= end < WORD && start % PAGE_SIZE == 0
      && (align > PAGE_SIZE ==> align % PAGE_SIZE == 0)
    }

    /** Aligning an address of the class does not leave 32 bits. */
    ghost predicate Roomy() {
      align > PAGE_SIZE ==> end + Step() + PAGE_SIZE < WORD
    }

    /** No sum the search computes for an allocation of `size` bytes leaves 32 bits. */
    ghost predicate NoWrap(size: nat) {
      end + size + Step() + PAGE_SIZE < WORD
    }

    /** The validator accepts whatever passes the fit test of a gap; the class ends on its grid. */
    ghost predicate Simple(size: nat) {
      && Roomy() && size < WORD && (align > PAGE_SIZE ==> OnGrid(end, align))
      && forall base: nat {:trigger validator(base, size)} | Add(base, size) <= end :: validator(base, size)
    }
  }

  function ValidatorKernel(base: nat, size: nat): bool {
    base >= 0xC0000000 && Add(base, size) <= 0xFFC00000
  }

  function ValidatorDma(base: nat, size: nat): bool {
    Add(base, size) <= 0x01000000
  }

  function KernelClass(): Config {
    Config(0xC0000000, 0xFFFFFFFF, PAGE_SIZE, ValidatorKernel)
  }

  function UserClass(): Config {
    Config(0x00100000, 0xBFFFFFFF, PAGE_SIZE, (base, size) => true)
  }

  function DmaClass(): Config {
    Config(0x1000, 0x01000000, 0x10000, ValidatorDma)
  }

  function MmioClass(): Config {
    Config(0xF0000000, 0xF8000000, PAGE_SIZE, (base, size) => true)
  }

  /** The size of the kernel class. */
  const KERNEL_BYTES: nat := 0x40000000

  /** The registered classes are well formed; all but the kernel class are simple for every size,
      and no sum wraps for the smaller ones. */
  lemma Registered(size: nat)
    requires size < WORD
    ensures KernelClass().Ok() && UserClass().Ok() && DmaClass().Ok() && MmioClass().Ok()
    ensures UserClass().Simple(size) && DmaClass().Simple(size) && MmioClass().Simple(size)
    ensures size < 0x01000000 ==> UserClass().NoWrap(size) && DmaClass().NoWrap(size) && MmioClass().NoWrap(size)
    ensures !KernelClass().NoWrap(size)
  {
    assert DmaClass().end % DmaClass().align == 0;
    forall base: nat | Add(base, size) <= DmaClass().end ensures DmaClass().validator(base, size) {
    }
  }

  /** The kernel class ends with the address space: an extent that reaches behind it has a
      wrapped end, which passes the fit test of every gap and the validator. */
  lemma BehindTheEnd(x: nat, size: nat)
    requires KernelClass().start <= x <= KernelClass().end && size <= KERNEL_BYTES && x + size >= WORD
    ensures Add(x, size) < KernelClass().start && ValidatorKernel(x, size)
  {
    assert (x + size - WORD) + WORD == x + size;
    assert Add(x, size) == x + size - WORD;
  }

  /** vmm_align_address; an alignment of up to a page leaves the address alone. */
  function AlignUp(addr: nat, align: nat): nat {
    if align <= PAGE_SIZE then addr else RoundDown(Add(addr, align - 1), align)
  }

  function RoundDown(x: nat, d: nat): (r: nat)
    requires d > 0
    ensures r <= x < r + d
  {
    x - x % d
  }

  lemma Product(k: int, d: nat)
    requires 0 <= k * d < d
    ensures k == 0
  {
    assert k >= 1 ==> k * d >= 1 * d;
    assert k <= -1 ==> k * d <= -1 * d;
  }

  lemma MultipleMod(m: nat, d: nat)
    requires d > 0
    ensures (m * d) % d == 0
  {
    var k, r := m * d / d, m * d % d;
    assert (m - k) * d == m * d - k * d == r;
    Product(m - k, d);
  }

  lemma RoundedDown(x: nat, d: nat)
    requires d > 0
    ensures RoundDown(x, d) % d == 0
  {
    assert RoundDown(x, d) == (x / d) * d;
    MultipleMod(x / d, d);
  }

  /** A multiple of a multiple. */
  lemma Coarser(x: nat, d: nat, page: nat)
    requires page > 0 && d > 0 && d % page == 0 && x % d == 0
    ensures x % page == 0
  {
    var m, q := x / d, d / page;
    assert x == m * d && d == q * page;
    assert x == (m * q) * page;
    MultipleMod(m * q, page);
  }

  /** Two positions on the grid are equal or a step apart. */
  lemma NextOnGrid(x: nat, y: nat, d: nat)
    requires d > 0 && x % d == 0 && y % d == 0 && x < y
    ensures x + d <= y
  {
    var k := y / d - x / d;
    assert y - x == k * d;
    if y - x < d {
      Product(k, d);
    }
  }

  lemma OneStep(x: nat, d: nat)
    requires d > 0 && x % d == 0
    ensures (x + d) % d == 0
  {
    assert x + d == (x / d + 1) * d;
    MultipleMod(x / d + 1, d);
  }

  ghost predicate Opened(x: nat) {
    true
  }

  /** `x` lies on the grid of step `d`.  Only where Opened(x) is mentioned does the verifier
      look at the remainder. */
  ghost predicate OnGrid(x: nat, d: nat)
    requires d > 0
  {
    forall y: nat {:trigger Opened(y)} | Opened(y) :: y == x ==> y % d == 0
  }

  /** Rounding up gives the next position on the grid: there is none in between. */
  lemma AlignUpMeans(addr: nat, cfg: Config)
    requires cfg.Ok() && OnGrid(addr, PAGE_SIZE) && (cfg.align > PAGE_SIZE ==> addr + cfg.Step() < WORD)
    ensures var r := AlignUp(addr, cfg.align);
            && addr <= r < addr + cfg.Step() && OnGrid(r, cfg.Step())
            && forall x: nat {:trigger OnGrid(x, cfg.Step())} | OnGrid(x, cfg.Step()) && x >= addr :: x >= r
  {
    var a, r := cfg.Step(), AlignUp(addr, cfg.align);
    assert Opened(addr);
    if cfg.align > PAGE_SIZE {
      RoundedDown(addr + a - 1, a);
      Coarser(r, a, PAGE_SIZE);
      forall x: nat {:trigger OnGrid(x, a)} | OnGrid(x, a) && x >= addr ensures x >= r {
        assert Opened(x);
        if x < r {
          NextOnGrid(x, r, a);
        }
      }
    }
  }

  /** The first position of a class. */
  lemma StartOnGrid(cfg: Config)
    requires cfg.Ok() && (cfg.align > PAGE_SIZE ==> cfg.start + cfg.Step() < WORD)
    ensures var r := AlignUp(cfg.start, cfg.align);
            && cfg.start <= r < cfg.start + cfg.Step() && OnGrid(r, cfg.Step())
            && forall x: nat {:trigger OnGrid(x, cfg.Step())} | OnGrid(x, cfg.Step()) && x >= cfg.start :: x >= r
  {
    assert OnGrid(cfg.start, PAGE_SIZE);
    AlignUpMeans(cfg.start, cfg);
  }

  /** A grid position and whole pages on top of it. */
  lemma OnPages(x: nat, pages: nat, cfg: Config)
    requires cfg.Ok() && OnGrid(x, cfg.Step())
    ensures OnGrid(x + pages * PAGE_SIZE, PAGE_SIZE)
  {
    assert Opened(x);
    Coarser(x, cfg.Step(), PAGE_SIZE);
  }

  /** vmm_area_t. */
  class Area {
    const start: nat
    const size: nat
    var next: Area?
    var prev: Area?

    constructor (start: nat, size: nat)
      ensures this.start == start && this.size == size && next == null && prev == null
    {
      this.start, this.size := start, size;
      next, prev := null, null;
    }
  }

  /** The areas lie inside the class, on pages, in order and apart. */
  ghost predicate Sorted(items: seq<Area>, cfg: Config) {
    && (forall i {:trigger items[i]} | 0 <= i < |items| ::
         && items[i].size > 0 && cfg.start <= items[i].start && items[i].start + items[i].size <= cfg.end
         && OnGrid(items[i].start + items[i].size, PAGE_SIZE))
    && (forall i, j {:trigger items[i], items[j]} | 0 <= i < j < |items| :: items[i].start + items[i].size <= items[j].start)
  }

  /** No area meets the `size` bytes at `x`. */
  ghost predicate Clear(items: seq<Area>, x: nat, size: nat) {
    forall i {:trigger items[i]} | 0 <= i < |items| ::
      items[i].start + items[i].size <= x || x + size <= items[i].start
  }

  /** An allocation of `size` bytes may go to `x`. */
  ghost predicate Fits(items: seq<Area>, cfg: Config, size: nat, x: nat) {
    && OnGrid(x, cfg.Step()) && cfg.start <= x && x + size <= cfg.end
    && cfg.validator(x, size) && Clear(items, x, size)
  }

  /** From `from` on, everything below `bound` is ruled out. */
  ghost predicate NoneFrom(items: seq<Area>, cfg: Config, size: nat, from: nat, bound: nat) {
    forall x: nat {:trigger Fits(items, cfg, size, x)} | Fits(items, cfg, size, x) && x >= from :: x >= bound
  }

  /** Next fit: the first position from `from` on that fits, or if there is none the first of
      the class. */
  ghost predicate NextFit(items: seq<Area>, cfg: Config, size: nat, from: nat, r: nat) {
    && Fits(items, cfg, size, r)
    && if r >= from then NoneFrom(items, cfg, size, from, r)
       else NoneFrom(items, cfg, size, from, cfg.end + 1) && NoneFrom(items, cfg, size, 0, r)
  }

  /** The search does not go back when it skips the area at `k`. */
  ghost predicate Onward(items: seq<Area>, cfg: Config, k: nat, candidate: nat) {
    k < |items| ==>
      forall x: nat {:trigger OnGrid(x, cfg.Step())} | OnGrid(x, cfg.Step()) && x >= items[k].start + items[k].size :: x >= candidate
  }

  /** Mentioning Looking(candidate) opens Passed. */
  ghost predicate Looking(candidate: nat) {
    true
  }

  /** The areas before the `k`-th are behind `candidate`; from `from` on nothing below it fits. */
  ghost predicate Passed(items: seq<Area>, cfg: Config, size: nat, candidate: nat, k: nat, from: nat) {
    forall c: nat {:trigger Looking(c)} | Looking(c) :: c == candidate ==>
      && OnGrid(c, cfg.Step())
      && (forall i {:trigger items[i]} | 0 <= i < |items| && i < k :: items[i].start + items[i].size <= c)
      && NoneFrom(items, cfg, size, from, c) && Onward(items, cfg, k, c)
  }

  /** What the search knows. */
  ghost predicate Searching(items: seq<Area>, cfg: Config, size: nat, candidate: nat, k: nat, from: nat) {
    k <= |items| && cfg.start <= candidate <= cfg.end + cfg.Step() && Passed(items, cfg, size, candidate, k, from)
  }

  /** Where an allocation may go in the four classes while nothing is allocated. */
  lemma WhereItFits(size: nat, x: nat)
    requires size < WORD
    ensures Fits([], UserClass(), size, x) <==> x % 4096 == 0 && 0x00100000 <= x && x + size <= 0xBFFFFFFF
    ensures Fits([], MmioClass(), size, x) <==> x % 4096 == 0 && 0xF0000000 <= x && x + size <= 0xF8000000
    ensures Fits([], DmaClass(), size, x) <==> x % 65536 == 0 && 0x1000 <= x && x + size <= 0x01000000
    ensures Fits([], KernelClass(), size, x) <==> x % 4096 == 0 && 0xC0000000 <= x && x + size <= 0xFFC00000
  {
    assert Opened(x);
    assert OnGrid(x, 4096) <==> x % 4096 == 0;
    assert OnGrid(x, 65536) <==> x % 65536 == 0;
  }

  /** A candidate in front of the gap's end that the validator accepts fits, and it is the
      first from `from` on. */
  lemma Found(items: seq<Area>, cfg: Config, size: nat, candidate: nat, k: nat, from: nat)
    requires Sorted(items, cfg) && Searching(items, cfg, size, candidate, k, from) && cfg.validator(candidate, size)
    requires candidate + size <= if k < |items| then items[k].start else cfg.end
    ensures Fits(items, cfg, size, candidate) && NoneFrom(items, cfg, size, from, candidate)
  {
    assert Looking(candidate);
  }

  /** A candidate too close to the end of the class: nothing from `from` on fits. */
  lemma Exhausted(items: seq<Area>, cfg: Config, size: nat, candidate: nat, k: nat, from: nat)
    requires Searching(items, cfg, size, candidate, k, from) && candidate + size > cfg.end
    ensures NoneFrom(items, cfg, size, from, cfg.end + 1) && NoneFrom(items, cfg, size, from, candidate)
    ensures !Fits(items, cfg, size, candidate)
  {
    assert Looking(candidate);
  }

  /** The area at `k` cannot be avoided from `candidate` on: the search goes on behind it. */
  lemma SkipArea(items: seq<Area>, cfg: Config, size: nat, candidate: nat, k: nat, from: nat)
    requires cfg.Ok() && cfg.Roomy()
    requires Sorted(items, cfg) && k < |items| && candidate + size > items[k].start
    requires Searching(items, cfg, size, candidate, k, from)
    ensures var next := AlignUp(Add(items[k].start, items[k].size), cfg.align);
            && Searching(items, cfg, size, next, k + 1, from) && candidate <= next
            && (cfg.align <= PAGE_SIZE ==> next <= cfg.end)
  {
    var end := items[k].start + items[k].size;
    assert Looking(candidate);
    AlignUpMeans(end, cfg);
    forall x: nat | Fits(items, cfg, size, x) && x >= from ensures x >= AlignUp(end, cfg.align) {
      assert x >= candidate && x >= end;
      assert OnGrid(x, cfg.Step());
    }
  }

  /** The validator said no: the search goes on a step further. */
  lemma SkipPosition(items: seq<Area>, cfg: Config, size: nat, candidate: nat, k: nat, from: nat)
    requires cfg.Ok() && candidate + size <= cfg.end && candidate + PAGE_SIZE < WORD
    requires cfg.Roomy()
    requires Searching(items, cfg, size, candidate, k, from) && !cfg.validator(candidate, size)
    requires k < |items| ==> items[k].start + items[k].size > candidate
    ensures var next := AlignUp(Add(candidate, PAGE_SIZE), cfg.align);
            Searching(items, cfg, size, next, k, from) && candidate < next <= candidate + cfg.Step()
  {
    var d, next := cfg.Step(), AlignUp(candidate + PAGE_SIZE, cfg.align);
    assert Looking(candidate);
    OnPages(candidate, 1, cfg);
    AlignUpMeans(candidate + PAGE_SIZE, cfg);
    assert Opened(candidate);
    OneStep(candidate, d);
    assert OnGrid(candidate + d, d);
    forall x: nat {:trigger OnGrid(x, d)} | OnGrid(x, d) && x > candidate ensures x >= next {
      assert Opened(x);
      NextOnGrid(candidate, x, d);
    }
    forall x: nat | Fits(items, cfg, size, x) && x >= from ensures x >= next {
      assert OnGrid(x, d) && x >= candidate && x != candidate;
    }
  }

  /** The search starts at a grid position behind the first areas, or at the class's first
      position with all areas before it. */
  lemma Begins(items: seq<Area>, cfg: Config, size: nat, candidate: nat, k: nat)
    requires k <= |items| && cfg.start <= candidate <= cfg.end + cfg.Step() && OnGrid(candidate, cfg.Step())
    requires forall i {:trigger items[i]} | 0 <= i < k :: items[i].start + items[i].size <= candidate
    requires k < |items| ==> items[k].start + items[k].size > candidate
    ensures Searching(items, cfg, size, candidate, k, candidate)
  {
  }

  lemma BeginsAgain(items: seq<Area>, cfg: Config, size: nat)
    requires cfg.Ok() && cfg.Roomy() && Sorted(items, cfg)
    ensures Searching(items, cfg, size, AlignUp(cfg.start, cfg.align), 0, 0)
  {
    StartOnGrid(cfg);
    forall x: nat | Fits(items, cfg, size, x) ensures x >= AlignUp(cfg.start, cfg.align) {
      assert OnGrid(x, cfg.Step());
    }
  }

  function Inserted<T>(q: seq<T>, p: nat, a: T): (r: seq<T>)
    requires p <= |q|
    ensures |r| == |q| + 1
    ensures forall j {:trigger r[j]} | 0 <= j < |r| :: r[j] == if j < p then q[j] else if j == p then a else q[j - 1]
  {
    q[..p] + [a] + q[p..]
  }

  /** `now` is `was` with one area more, of the given extent; `now` being sorted, its place
      is fixed. */
  ghost predicate WithArea(was: seq<Area>, now: seq<Area>, start: nat, size: nat) {
    exists k: nat :: OneMore(was, now, start, size, k)
  }

  ghost predicate OneMore(was: seq<Area>, now: seq<Area>, start: nat, size: nat, k: nat) {
    k < |now| && now[k].start == start && now[k].size == size && was == RemoveAt(now, k)
  }

  lemma PairInserted(items: seq<Area>, cfg: Config, p: nat, a: Area, i: nat, j: nat)
    requires Sorted(items, cfg) && p <= |items| && Clear(items, a.start, a.size) && a.size > 0
    requires forall i {:trigger items[i]} | 0 <= i < |items| :: items[i].start < a.start <==> i < p
    requires i < j <= |items|
    ensures var now := Inserted(items, p, a); now[i].start + now[i].size <= now[j].start
  {
    if i != p && j != p {
      var i', j' := if i < p then i else i - 1, if j < p then j else j - 1;
      assert items[i'].start + items[i'].size <= items[j'].start;
    }
  }

  lemma SortedInserted(items: seq<Area>, cfg: Config, p: nat, a: Area)
    requires Sorted(items, cfg) && p <= |items| && Clear(items, a.start, a.size)
    requires a.size > 0 && cfg.start <= a.start && a.start + a.size <= cfg.end && OnGrid(a.start + a.size, PAGE_SIZE)
    requires forall i {:trigger items[i]} | 0 <= i < |items| :: items[i].start < a.start <==> i < p
    ensures Sorted(Inserted(items, p, a), cfg)
  {
    var now := Inserted(items, p, a);
    forall i, j | 0 <= i < j < |now| ensures now[i].start + now[i].size <= now[j].start {
      PairInserted(items, cfg, p, a, i, j);
    }
  }

  /** Why an allocation asks for at least one page: the empty extent fits where an area
      starts, is put behind that area, and the list is no longer in order. */
  lemma ZeroPagesBreakOrder(a: Area, zero: Area, cfg: Config)
    requires Sorted([a], cfg) && OnGrid(a.start, cfg.Step()) && cfg.validator(a.start, 0)
    requires zero.start == a.start && zero.size == 0
    ensures Fits([a], cfg, 0, zero.start) && !Sorted(Inserted([a], 1, zero), cfg)
  {
    assert [a][0] == a;
    var now := Inserted([a], 1, zero);
    assert now[0] == a && now[1] == zero;
  }

  lemma InsertedIsWith(items: seq<Area>, p: nat, a: Area)
    requires p <= |items|
    ensures WithArea(items, Inserted(items, p, a), a.start, a.size)
  {
    var now := Inserted(items, p, a);
    assert items == RemoveAt(now, p);
    assert OneMore(items, now, a.start, a.size, p);
  }

  /** Starts are unique, so removing by start takes back just what was put in. */
  lemma TakenBack(was: seq<Area>, now: seq<Area>, after: seq<Area>, cfg: Config, start: nat, size: nat)
    requires Sorted(now, cfg) && WithArea(was, now, start, size)
    requires (exists n: nat :: WithArea(after, now, start, n))
          || (after == now && forall i | 0 <= i < |now| :: now[i].start != start)
    ensures after == was
  {
    var k: nat :| OneMore(was, now, start, size, k);
    var n: nat :| WithArea(after, now, start, n);
    var m: nat :| OneMore(after, now, start, n, m);
    assert now[k].start == now[m].start;
  }

  lemma SortedWithout(items: seq<Area>, cfg: Config, k: nat)
    requires Sorted(items, cfg) && k < |items|
    ensures Sorted(RemoveAt(items, k), cfg)
  {
  }

  /** Nothing of the kernel class fits behind the addresses its validator allows. */
  lemma NoneAtTables(items: seq<Area>, size: nat, x: nat)
    requires size > 0 && x + size > 0xFFC00000
    ensures !Fits(items, KernelClass(), size, x)
  {
    assert x + size < WORD ==> Add(x, size) == x + size;
  }

  class AllocClass {
    const cfg: Config
    var head: Area?
    var hint: nat
    /** The areas in list order. */
    ghost var items: seq<Area>
    ghost var nodes: set<Area>

    /** Mentioning Chained(items) lets the verifier look into Linked. */
    ghost predicate Chained(s: seq<Area>) {
      true
    }

    ghost predicate Linked()
      reads this`head, this`items, this`nodes, nodes
    {
      forall s: seq<Area> {:trigger Chained(s)} | Chained(s) :: s == items ==>
        && (forall i {:trigger s[i]} | 0 <= i < |s| :: s[i] in nodes)
        && head == (if s == [] then null else s[0])
        && (forall i {:trigger s[i].next} | 0 <= i < |s| :: s[i].next == if i + 1 < |s| then s[i + 1] else null)
        && (forall i {:trigger s[i].prev} | 0 <= i < |s| :: s[i].prev == if i > 0 then s[i - 1] else null)
    }

    lemma HeadArea()
      requires Linked()
      ensures head == if items == [] then null else items[0]
    {
      assert Chained(items);
    }

    lemma NextArea(k: nat)
      requires Linked() && k < |items|
      ensures items[k].next == if k + 1 < |items| then items[k + 1] else null
    {
      assert Chained(items);
    }

    ghost predicate Valid()
      reads this, nodes
    {
      && cfg.Ok() && Linked() && Sorted(items, cfg)
      && OnGrid(hint, PAGE_SIZE) && cfg.start <= hint <= cfg.end
    }

    /** vmm_class_register. */
    constructor (cfg: Config)
      requires cfg.Ok()
      ensures Valid() && this.cfg == cfg && items == [] && hint == cfg.start && nodes == {}
    {
      this.cfg, head, hint, items, nodes := cfg, null, cfg.start, [], {};
    }

    /** The first loop of vmm_find_fit. */
    method FirstBehind(candidate: nat) returns (curr: Area?, ghost k: nat)
      requires Valid()
      ensures k <= |items| && curr == if k < |items| then items[k] else null
      ensures forall i {:trigger items[i]} | 0 <= i < k :: items[i].start + items[i].size <= candidate
      ensures k < |items| ==> items[k].start + items[k].size > candidate
    {
      HeadArea();
      curr := head;
      k := 0;
      while curr != null && Add(curr.start, curr.size) <= candidate
        invariant k <= |items| && curr == if k < |items| then items[k] else null
        invariant forall i {:trigger items[i]} | 0 <= i < k :: items[i].start + items[i].size <= candidate
        decreases |items| - k
      {
        NextArea(k);
        curr := curr.next;
        k := k + 1;
      }
    }

    /** Where vmm_find_fit starts to look. */
    function StartAt(size: nat): nat
      reads this`hint
    {
      var candidate := AlignUp(hint, cfg.align);
      if candidate < cfg.start || Add(candidate, size) > cfg.end then AlignUp(cfg.start, cfg.align) else candidate
    }

    /** The kernel class, for a size it could hold. */
    ghost predicate Kernel(size: nat) {
      cfg == KernelClass() && PAGE_SIZE <= size <= KERNEL_BYTES
    }

    /** The end of the gap in front of the `k`-th area. */
    ghost function GapEnd(k: nat): nat
      reads this`items
    {
      if k < |items| then items[k].start else cfg.end
    }

    /** The first position at or above the hint. */
    ghost function AtHint(): nat
      reads this`hint
    {
      AlignUp(hint, cfg.align)
    }

    /** The position at the hint is too close to the end of the class: the search begins at the
        start of the class. */
    ghost predicate Restarts(size: nat)
      reads this`hint
    {
      cfg.end < AtHint() + size < WORD
    }

    /** Something fits at or above the hint; or no sum wraps at the top of a search from there; or
        the search begins at the start of the class, where something fits. */
    ghost predicate Right(size: nat)
      reads this`items, this`hint
    {
      SomeFrom(size, hint) || !TopWraps(size, AtHint()) || (Restarts(size) && SomeFrom(size, 0))
    }

    /** What the result of vmm_find_fit is.  Under the condition above it is the next fit, the first
        position at or above the hint that fits or else the first of the class, and 0 only if
        nothing in the whole class fits; otherwise it does not fit.  The kernel class ends with
        the address space, and its sums always wrap at the end: there the result fits if and only
        if something fits from the hint on, and the search never starts again. */
    ghost predicate Answer(size: nat, r: nat)
      reads this`items, this`hint
    {
      if Kernel(size) then
        && r >= hint && NoneFrom(items, cfg, size, hint, r)
        && (Fits(items, cfg, size, r) <==> SomeFrom(size, hint))
      else if Right(size) then
        if r > 0 then NextFit(items, cfg, size, hint, r) else forall x: nat :: !Fits(items, cfg, size, x)
      else
        r > 0 && !Fits(items, cfg, size, r)
    }

    /** Starting at the first position at or above the hint misses nothing. */
    lemma GridFromHint(size: nat, x: nat)
      requires Valid() && Known(size) && Fits(items, cfg, size, x)
      ensures x >= hint <==> x >= AtHint()
      ensures x >= AlignUp(cfg.start, cfg.align)
    {
      AlignUpMeans(hint, cfg);
      StartOnGrid(cfg);
      assert OnGrid(x, cfg.Step());
    }

    lemma SomeFromHint(size: nat)
      requires Valid() && Known(size)
      ensures SomeFrom(size, hint) <==> SomeFrom(size, AtHint())
      ensures SomeFrom(size, 0) <==> SomeFrom(size, AlignUp(cfg.start, cfg.align))
    {
      forall x: nat | Fits(items, cfg, size, x)
        ensures (x >= hint <==> x >= AtHint()) && x >= AlignUp(cfg.start, cfg.align)
      {
        GridFromHint(size, x);
      }
    }

    lemma NoneFromHint(size: nat, r: nat)
      requires Valid() && Known(size)
      ensures NoneFrom(items, cfg, size, AtHint(), r) <==> NoneFrom(items, cfg, size, hint, r)
      ensures NoneFrom(items, cfg, size, AlignUp(cfg.start, cfg.align), r) <==> NoneFrom(items, cfg, size, 0, r)
    {
      forall x: nat | Fits(items, cfg, size, x)
        ensures (x >= hint <==> x >= AtHint()) && x >= AlignUp(cfg.start, cfg.align)
      {
        GridFromHint(size, x);
      }
    }

    /** The sums of a search from the class's start wrap when those of one from the hint do. */
    lemma SameTop(size: nat)
      requires Valid() && Known(size) && !Kernel(size) && Restarts(size)
      ensures TopWraps(size, AtHint()) <==> TopWraps(size, AlignUp(cfg.start, cfg.align))
    {
      AlignUpMeans(hint, cfg);
      StartOnGrid(cfg);
    }

    lemma RestartedIsRight(size: nat, r: nat)
      requires Valid() && Known(size) && !Kernel(size) && Restarts(size)
      requires FromFirst(size, AlignUp(cfg.start, cfg.align), r)
      ensures Answer(size, r)
    {
      SomeFromHint(size);
      NoneFromHint(size, r);
      SameTop(size);
      forall x: nat | Fits(items, cfg, size, x) ensures x < hint {
        GridFromHint(size, x);
      }
    }

    lemma StartedIsRight(size: nat, r: nat)
      requires Valid() && Known(size) && !Kernel(size) && !Restarts(size) && FromFirst(size, AtHint(), r)
      ensures Answer(size, r)
    {
      SomeFromHint(size);
      NoneFromHint(size, r);
      NoneFromHint(size, cfg.end + 1);
      if Fits(items, cfg, size, r) {
        GridFromHint(size, r);
      }
    }

    lemma StartIs(size: nat)
      requires Valid() && Known(size) && !Kernel(size)
      ensures StartAt(size) == if Restarts(size) then AlignUp(cfg.start, cfg.align) else AtHint()
    {
      AlignUpMeans(hint, cfg);
    }

    lemma HintIsStart(size: nat, r: nat)
      requires Valid() && Known(size) && FromFirst(size, StartAt(size), r)
      ensures Answer(size, r)
    {
      if !Kernel(size) {
        StartIs(size);
        if Restarts(size) {
          RestartedIsRight(size, r);
        } else {
          StartedIsRight(size, r);
        }
      }
    }

    lemma AtTheEnd(candidate: nat, size: nat, k: nat)
      requires Valid() && cfg.start <= candidate && (Kernel(size) ==> candidate <= cfg.end)
      ensures Kernel(size) && candidate + size >= WORD ==>
                Add(candidate, size) < GapEnd(k) && cfg.validator(candidate, size)
    {
      if Kernel(size) && candidate + size >= WORD {
        BehindTheEnd(candidate, size);
      }
    }

    /** Mentioning Underway(candidate) opens Looping. */
    ghost predicate Underway(candidate: nat) {
      true
    }

    /** Where the search stands when it has passed all areas: at its start, or behind the last. */
    ghost function Top(first: nat): nat
      reads this`items
    {
      if items == [] then first else Max(first, AlignUp(Add(items[|items| - 1].start, items[|items| - 1].size), cfg.align))
    }

    /** There the sum for the fit test leaves 32 bits. */
    ghost predicate TopWraps(size: nat, first: nat)
      reads this`items
    {
      Top(first) + size >= WORD
    }

    ghost predicate SomeFrom(size: nat, from: nat)
      reads this`items
    {
      exists x: nat :: Fits(items, cfg, size, x) && x >= from
    }

    /** What the second loop of vmm_find_fit keeps; `first` is where the search started. */
    ghost predicate Looping(size: nat, first: nat, candidate: nat, k: nat, from: nat, wrapped: bool)
      reads this`items, this`hint
    {
      forall c: nat {:trigger Underway(c)} | Underway(c) :: c == candidate ==>
        && Searching(items, cfg, size, c, k, from)
        && (if wrapped then from == 0 && NoneFrom(items, cfg, size, first, cfg.end + 1) else from == first <= c)
        && first <= cfg.end + cfg.Step()
        && (Kernel(size) ==> c <= cfg.end && !wrapped && first == hint)
        && (cfg.NoWrap(size) || Kernel(size) || BelowTop(size, first, c, wrapped))
    }

    /** In a simple class the search stays below its top, and starts again only if no sum wraps
        there. */
    ghost predicate BelowTop(size: nat, first: nat, candidate: nat, wrapped: bool)
      reads this`items
    {
      && cfg.start <= first && OnGrid(first, cfg.Step())
      && candidate <= Top(first) && candidate <= cfg.end && (wrapped ==> !TopWraps(size, first))
    }

    ghost predicate Known(size: nat) {
      cfg.NoWrap(size) || cfg.Simple(size) || Kernel(size)
    }

    /** What the result of a search is that starts at `first`. */
    ghost predicate FromFirst(size: nat, first: nat, r: nat)
      reads this`items, this`hint
    {
      && (Kernel(size) ==> r >= hint && NoneFrom(items, cfg, size, hint, r))
      && (Kernel(size) ==> (Fits(items, cfg, size, r) <==> SomeFrom(size, hint)))
      && (!Kernel(size) && (SomeFrom(size, first) || !TopWraps(size, first)) ==>
            && (r > 0 ==> NextFit(items, cfg, size, first, r))
            && (r == 0 ==> forall x: nat :: !Fits(items, cfg, size, x)))
      && (!Kernel(size) && !SomeFrom(size, first) && TopWraps(size, first) ==> r > 0 && !Fits(items, cfg, size, r))
    }

    /** Aligning keeps the order, and in a simple class stays in the class. */
    lemma AlignOrdered(x: nat, y: nat, size: nat)
      requires cfg.Ok() && cfg.Roomy() && OnGrid(x, PAGE_SIZE) && OnGrid(y, PAGE_SIZE) && x <= y <= cfg.end
      ensures AlignUp(x, cfg.align) <= AlignUp(y, cfg.align)
      ensures cfg.Simple(size) ==> AlignUp(y, cfg.align) <= cfg.end
    {
      AlignUpMeans(x, cfg);
      AlignUpMeans(y, cfg);
    }

    /** The end of an area, as the search computes it. */
    lemma AreaEnd(k: nat) returns (end: nat)
      requires Valid() && k < |items|
      ensures end == Add(items[k].start, items[k].size) == items[k].start + items[k].size <= cfg.end
      ensures OnGrid(end, PAGE_SIZE) && (k + 1 < |items| ==> end <= items[|items| - 1].start)
    {
      end := items[k].start + items[k].size;
    }

    /** The end of an area, as the search computes it, is aligned to at most the top. */
    lemma BehindArea(size: nat, first: nat, k: nat)
      requires Valid() && cfg.Roomy() && k < |items|
      ensures var next := AlignUp(Add(items[k].start, items[k].size), cfg.align);
              next <= Top(first) && (cfg.Simple(size) ==> next <= cfg.end)
    {
      var x := AreaEnd(k);
      var y := AreaEnd(|items| - 1);
      AlignOrdered(x, y, size);
    }

    /** Past all areas the search is not below the top. */
    lemma AtTop(size: nat, first: nat, candidate: nat, from: nat)
      requires Valid() && cfg.Roomy() && Searching(items, cfg, size, candidate, |items|, from) && first <= candidate
      ensures Top(first) <= candidate
    {
      assert Looking(candidate);
      if items != [] {
        var end := AreaEnd(|items| - 1);
        AlignUpMeans(end, cfg);
      }
    }

    lemma NoWrapAtTop(size: nat, first: nat)
      requires Valid() && cfg.NoWrap(size) && first <= cfg.end + cfg.Step()
      ensures !TopWraps(size, first)
    {
      if items != [] {
        var last := items[|items| - 1];
        AlignUpMeans(last.start + last.size, cfg);
      }
    }

    /** vmm_find_fit up to its second loop. */
    method Begin(size: nat) returns (candidate: nat, curr: Area?, ghost k: nat)
      requires Valid() && Known(size)
      ensures candidate == StartAt(size) && k <= |items| && curr == if k < |items| then items[k] else null
      ensures Looping(size, candidate, candidate, k, candidate, false)
    {
      candidate := StartAt(size);
      curr, k := FirstBehind(candidate);
      AlignUpMeans(hint, cfg);
      StartOnGrid(cfg);
      if cfg.Simple(size) {
        assert OnGrid(cfg.start, PAGE_SIZE);
        AlignOrdered(cfg.start, hint, size);
      }
      Begins(items, cfg, size, candidate, k);
    }

    lemma Accepted(size: nat, first: nat, candidate: nat, k: nat, from: nat, wrapped: bool)
      requires Valid() && Known(size) && Looping(size, first, candidate, k, from, wrapped)
      requires Add(candidate, size) <= GapEnd(k) && cfg.validator(candidate, size)
      ensures FromFirst(size, first, candidate)
    {
      assert Underway(candidate);
      if cfg.NoWrap(size) {
        NoWrapAtTop(size, first);
      }
      if candidate + size < WORD {
        Found(items, cfg, size, candidate, k, from);
      } else {
        Exhausted(items, cfg, size, candidate, k, from);
      }
    }

    /** In a simple class no candidate in front of a gap's end is rejected. */
    lemma Rejected(size: nat, first: nat, candidate: nat, k: nat, from: nat, wrapped: bool)
      requires Valid() && Known(size) && Looping(size, first, candidate, k, from, wrapped)
      requires Add(candidate, size) <= GapEnd(k) && !cfg.validator(candidate, size)
      ensures var next := AlignUp(Add(candidate, PAGE_SIZE), cfg.align);
              Looping(size, first, next, k, from, wrapped) && candidate < next <= cfg.end + cfg.Step()
    {
      assert Underway(candidate);
      AtTheEnd(candidate, size, k);
      SkipPosition(items, cfg, size, candidate, k, from);
    }

    lemma TooSmall(size: nat, first: nat, candidate: nat, k: nat, from: nat, wrapped: bool)
      requires Valid() && Known(size) && Looping(size, first, candidate, k, from, wrapped)
      requires Add(candidate, size) > GapEnd(k) && k < |items|
      ensures Looping(size, first, AlignUp(Add(items[k].start, items[k].size), cfg.align), k + 1, from, wrapped)
    {
      assert Underway(candidate);
      AtTheEnd(candidate, size, k);
      BehindArea(size, first, k);
      SkipArea(items, cfg, size, candidate, k, from);
    }

    /** At the end of the class the kernel class has accepted its candidate. */
    lemma Ended(size: nat, first: nat, candidate: nat, k: nat, from: nat, wrapped: bool)
      requires Valid() && Known(size) && Looping(size, first, candidate, k, from, wrapped)
      requires Add(candidate, size) > GapEnd(k) && k == |items|
      ensures if wrapped then FromFirst(size, first, 0)
              else Looping(size, first, AlignUp(cfg.start, cfg.align), 0, 0, true)
    {
      assert Underway(candidate);
      AtTheEnd(candidate, size, k);
      Exhausted(items, cfg, size, candidate, k, from);
      BeginsAgain(items, cfg, size);
      StartOnGrid(cfg);
      if cfg.NoWrap(size) {
        NoWrapAtTop(size, first);
      }
      if !wrapped {
        AtTop(size, first, candidate, from);
      }
    }

    /** vmm_find_fit. */
    method FindFit(size: nat) returns (r: nat)
      requires Valid() && Known(size)
      ensures Answer(size, r)
    {
      ghost var first;
      r, first := Search(size);
      HintIsStart(size, r);
    }

    /** The body of vmm_find_fit, told by where it starts. */
    method Search(size: nat) returns (r: nat, ghost first: nat)
      requires Valid() && Known(size)
      ensures first == StartAt(size) && FromFirst(size, first, r)
    {
      var candidate: nat, curr: Area?;
      ghost var k: nat;
      candidate, curr, k := Begin(size);
      first := candidate;
      var wrapped := false;
      ghost var from: nat := candidate;
      while true
        invariant k <= |items| && curr == if k < |items| then items[k] else null
        invariant first == StartAt(size) && Looping(size, first, candidate, k, from, wrapped)
        decreases !wrapped, |items| - k, cfg.end + cfg.Step() - candidate
      {
        var gapEnd := if curr != null then curr.start else cfg.end;
        if Add(candidate, size) <= gapEnd {
          if cfg.validator(candidate, size) {
            Accepted(size, first, candidate, k, from, wrapped);
            return candidate, first;
          }
          Rejected(size, first, candidate, k, from, wrapped);
          candidate := AlignUp(Add(candidate, PAGE_SIZE), cfg.align);
          continue;
        }
        if curr != null {
          TooSmall(size, first, candidate, k, from, wrapped);
          NextArea(k);
          candidate := AlignUp(Add(curr.start, curr.size), cfg.align);
          curr := curr.next;
          k := k + 1;
          continue;
        }
        Ended(size, first, candidate, k, from, wrapped);
        if wrapped {
          return 0, first;
        }
        HeadArea();
        wrapped := true;
        candidate := AlignUp(cfg.start, cfg.align);
        curr := head;
        k, from := 0, 0;
      }
    }

    /** vmm_insert_area, for an extent that meets no other; `memory` is what kmalloc grants. */
    method Insert(start: nat, size: nat, memory: bool) returns (ok: bool)
      requires Valid() && Clear(items, start, size) && size > 0 && cfg.start <= start && start + size <= cfg.end
      requires OnGrid(start + size, PAGE_SIZE)
      modifies this`head, this`items, this`nodes, nodes
      ensures Valid() && ok == memory && fresh(nodes - old(nodes))
      ensures if ok then WithArea(old(items), items, start, size) else items == old(items)
    {
      if !memory {
        return false;
      }
      var area := new Area(start, size);
      ghost var k := Place(area);
      SortedInserted(old(items), cfg, k, area);
      InsertedIsWith(old(items), k, area);
      return true;
    }

    /** Link `area` in where the starts tell. */
    method Place(area: Area) returns (ghost k: nat)
      requires Linked() && Sorted(items, cfg) && area !in nodes && area.next == null && area.prev == null
      requires forall i {:trigger items[i]} | 0 <= i < |items| :: items[i].start != area.start
      modifies this`head, this`items, this`nodes, nodes, area`next, area`prev
      ensures Linked() && k <= |old(items)| && items == Inserted(old(items), k, area) && nodes == old(nodes) + {area}
      ensures forall i {:trigger old(items)[i]} | 0 <= i < |old(items)| :: old(items)[i].start < area.start <==> i < k
    {
      assert Chained(items);
      k := 0;
      if head == null {
        head, nodes, items := area, nodes + {area}, Inserted(items, 0, area);
        return;
      }
      if area.start < head.start {
        PushFront(area);
        return;
      }
      var iter: Area := head;
      while iter.next != null && iter.next.start < area.start
        invariant k < |items| && iter == items[k] && items[k].start < area.start
        decreases |items| - k
      {
        iter := iter.next;
        k := k + 1;
      }
      Splice(area, iter, k);
      k := k + 1;
    }

    method PushFront(area: Area)
      requires Linked() && items != [] && area !in nodes && area.prev == null
      requires forall i, j {:trigger items[i], items[j]} | 0 <= i < j < |items| :: items[i] != items[j]
      modifies this`head, this`items, this`nodes, nodes, area`next
      ensures Linked() && items == Inserted(old(items), 0, area) && nodes == old(nodes) + {area}
    {
      assert Chained(items);
      area.next := head;
      head.prev := area;
      head := area;
      items, nodes := Inserted(items, 0, area), nodes + {area};
    }

    /** Link `area` in behind `iter`. */
    method Splice(area: Area, iter: Area, ghost k: nat)
      requires Linked() && k < |items| && iter == items[k] && area !in nodes
      requires forall i, j {:trigger items[i], items[j]} | 0 <= i < j < |items| :: items[i] != items[j]
      modifies this`items, this`nodes, nodes, area`next, area`prev
      ensures Linked() && items == Inserted(old(items), k + 1, area) && nodes == old(nodes) + {area}
    {
      assert Chained(items);
      area.next := iter.next;
      area.prev := iter;
      if iter.next != null {
        iter.next.prev := area;
      }
      iter.next := area;
      items, nodes := Inserted(items, k + 1, area), nodes + {area};
    }

    /** vmm_remove_area. */
    method Remove(start: nat)
      requires Valid()
      modifies this`head, this`items, nodes
      ensures Valid()
      ensures (exists size: nat :: WithArea(items, old(items), start, size))
           || (items == old(items) && forall i | 0 <= i < |items| :: items[i].start != start)
    {
      assert Chained(items);
      var iter := head;
      ghost var k: nat := 0;
      while iter != null
        invariant k <= |items| && iter == if k < |items| then items[k] else null
        invariant forall i {:trigger items[i]} | 0 <= i < k :: items[i].start != start
        decreases |items| - k
      {
        if iter.start == start {
          SortedWithout(items, cfg, k);
          Bypass(iter, k);
          assert OneMore(items, old(items), start, iter.size, k);
          assert WithArea(items, old(items), start, iter.size);
          return;
        }
        iter := iter.next;
        k := k + 1;
      }
    }

    method Bypass(iter: Area, ghost k: nat)
      requires Linked() && k < |items| && iter == items[k]
      requires forall i, j {:trigger items[i], items[j]} | 0 <= i < j < |items| :: items[i] != items[j]
      modifies this`head, this`items, nodes
      ensures Linked() && items == RemoveAt(old(items), k)
    {
      assert Chained(items);
      if iter.prev != null {
        iter.prev.next := iter.next;
      } else {
        head := iter.next;
      }
      if iter.next != null {
        iter.next.prev := iter.prev;
      }
      items := RemoveAt(items, k);
    }

    /** What vmm_class_alloc does when the mapping fails. */
    method Withdraw(va: nat, size: nat, ghost was: seq<Area>)
      requires Valid() && WithArea(was, items, va, size)
      modifies this`head, this`items, nodes
      ensures Valid() && items == was
    {
      ghost var now := items;
      Remove(va);
      TakenBack(was, now, items, cfg, va, size);
    }

    /** vmm_class_alloc once a position is found; `memory` is what kmalloc grants, `mapped`
        whether vmm_map_pages succeeds. */
    method Commit(va: nat, size: nat, memory: bool, mapped: bool) returns (ok: bool)
      requires Valid() && Clear(items, va, size) && size > 0 && cfg.start <= va && va + size <= cfg.end
      requires OnGrid(va + size, PAGE_SIZE)
      modifies this, nodes
      ensures Valid() && (ok <==> memory && mapped) && fresh(nodes - old(nodes))
      ensures ok ==> WithArea(old(items), items, va, size) && hint == va + size
      ensures !ok ==> items == old(items) && hint == old(hint)
    {
      ghost var was := items;
      ok := Insert(va, size, memory);
      if !ok {
        return;
      }
      if !mapped {
        Withdraw(va, size, was);
        return false;
      }
      hint := va + size;
    }

    /** vmm_find_fit is right. */
    ghost predicate Sure(size: nat)
      reads this, nodes
    {
      Known(size) && if Kernel(size) then SomeFrom(size, hint) else Right(size)
    }

    lemma SureFits(size: nat, r: nat)
      requires Valid() && Sure(size) && Answer(size, r)
      ensures if r > 0 then NextFit(items, cfg, size, hint, r) else forall x: nat :: !Fits(items, cfg, size, x)
    {
    }

    /** vmm_class_alloc. */
    method Alloc(pages: nat, memory: bool, mapped: bool) returns (va: nat)
      requires Valid() && pages > 0 && Sure(pages * PAGE_SIZE)
      modifies this, nodes
      ensures Valid() && fresh(nodes - old(nodes))
      ensures va > 0 ==> memory && mapped && NextFit(old(items), cfg, pages * PAGE_SIZE, old(hint), va)
      ensures va > 0 ==> WithArea(old(items), items, va, pages * PAGE_SIZE) && hint == va + pages * PAGE_SIZE
      ensures va == 0 ==> items == old(items) && hint == old(hint)
      ensures va == 0 && memory && mapped ==> forall x: nat :: !Fits(items, cfg, pages * PAGE_SIZE, x)
    {
      var size := pages * PAGE_SIZE;
      va := FindFit(size);
      SureFits(size, va);
      if va == 0 {
        return;
      }
      OnPages(va, pages, cfg);
      var ok := Commit(va, size, memory, mapped);
      if !ok {
        va := 0;
      }
    }
  }

  /** A kernel class whose hint is at the end of the addresses its validator allows. */
  ghost predicate AtTables(cls: AllocClass)
    reads cls, cls.nodes
  {
    cls.Valid() && cls.cfg == KernelClass() && cls.hint == 0xFFC00000
  }

  /** One allocation takes the kernel class to its end.  The next search finds an address that
      does not fit, where it should find none. */
  method FillKernelClass() returns (cls: AllocClass, r: nat)
    ensures fresh(cls) && fresh(cls.nodes) && AtTables(cls)
    ensures WithArea([], cls.items, 0xC0000000, 0x3FC00000)
    ensures r > 0 && !Fits(cls.items, cls.cfg, PAGE_SIZE, r)
  {
    cls := new AllocClass(KernelClass());
    var start, pages: nat := 0xC0000000, 0x3FC00;
    assert Fits(cls.items, cls.cfg, pages * PAGE_SIZE, start);
    var va := cls.Alloc(pages, true, true);
    forall x: nat | x >= cls.hint ensures !Fits(cls.items, cls.cfg, PAGE_SIZE, x) {
      NoneAtTables(cls.items, PAGE_SIZE, x);
    }
    r := cls.FindFit(PAGE_SIZE);
  }

  /** With that area taken out again the whole class is free, and still the search finds an
      address that does not fit: it never gets to start again from the class's start. */
  method EmptyKernelClass() returns (cls: AllocClass, r: nat)
    ensures AtTables(cls) && cls.items == []
    ensures Fits(cls.items, cls.cfg, PAGE_SIZE, 0xC0000000) && r > 0 && !Fits(cls.items, cls.cfg, PAGE_SIZE, r)
  {
    var r0;
    cls, r0 := FillKernelClass();
    ghost var now := cls.items;
    cls.Remove(0xC0000000);
    TakenBack([], now, cls.items, cls.cfg, 0xC0000000, 0x3FC00000);
    forall x: nat | x >= cls.hint ensures !Fits(cls.items, cls.cfg, PAGE_SIZE, x) {
      NoneAtTables(cls.items, PAGE_SIZE, x);
    }
    r := cls.FindFit(PAGE_SIZE);
  }

  /** In the user class, with everything below 0x90000000 allocated, no room is left for 0x70000000
      bytes; the sum wraps to 0, and the search finds an address that does not fit. */
  method WrapUserClass() returns (cls: AllocClass, r: nat)
    ensures cls.Valid() && cls.cfg == UserClass() && cls.hint == 0x90000000
    ensures WithArea([], cls.items, 0x00100000, 0x8FF00000)
    ensures r > 0 && forall x: nat :: !Fits(cls.items, cls.cfg, 0x70000000, x)
  {
    Registered(0x8FF00000);
    cls := new AllocClass(UserClass());
    var start, pages: nat := 0x00100000, 0x8FF00;
    assert Fits(cls.items, cls.cfg, pages * PAGE_SIZE, start);
    var va := cls.Alloc(pages, true, true);
    var size: nat := 0x70000000;
    Registered(size);
    r := cls.FindFit(size);
  }

  /** A page that fits at the hint is the one that is allocated. */
  method AllocAtHint(cls: AllocClass) returns (va: nat)
    requires cls.Valid() && cls.cfg == UserClass() && Fits(cls.items, cls.cfg, PAGE_SIZE, cls.hint)
    modifies cls, cls.nodes
    ensures cls.Valid() && fresh(cls.nodes - old(cls.nodes)) && va == old(cls.hint) && cls.hint == va + PAGE_SIZE
    ensures WithArea(old(cls.items), cls.items, va, PAGE_SIZE)
  {
    Registered(PAGE_SIZE);
    va := cls.Alloc(1, true, true);
  }

  lemma UserFits(items: seq<Area>, x: nat)
    requires x % PAGE_SIZE == 0 && 0x00100000 <= x < 0xBFFFE000 && Clear(items, x, PAGE_SIZE)
    ensures Fits(items, UserClass(), PAGE_SIZE, x)
  {
  }

  /** Two pages of the user class are allocated and the first is taken out again.  The next search
      for a page begins behind the second, although the first page of the class is free. */
  method NextNotFirst() returns (cls: AllocClass, a: nat, b: nat, r: nat)
    ensures cls.Valid() && a == 0x00100000 && b == 0x00101000 && r == 0x00102000
    ensures Fits(cls.items, cls.cfg, PAGE_SIZE, a)
  {
    cls := new AllocClass(UserClass());
    UserFits(cls.items, 0x00100000);
    a := AllocAtHint(cls);
    ghost var one := cls.items;
    OneArea(one, a, PAGE_SIZE);
    UserFits(one, 0x00101000);
    b := AllocAtHint(cls);
    ghost var two := cls.items;
    cls.Remove(a);
    SecondStays(one, two, cls.items, cls.cfg, a, b);
    UserFits(cls.items, a);
    UserFits(cls.items, 0x00102000);
    Registered(PAGE_SIZE);
    r := cls.FindFit(PAGE_SIZE);
  }

  lemma OneArea(items: seq<Area>, start: nat, size: nat)
    requires WithArea([], items, start, size)
    ensures |items| == 1 && items[0].start == start && items[0].size == size
  {
    var k: nat :| OneMore([], items, start, size, k);
  }

  lemma SecondStays(one: seq<Area>, two: seq<Area>, now: seq<Area>, cfg: Config, a: nat, b: nat)
    requires WithArea([], one, a, PAGE_SIZE) && WithArea(one, two, b, PAGE_SIZE) && a != b
    requires (exists n: nat :: WithArea(now, two, a, n)) || (now == two && forall i | 0 <= i < |now| :: now[i].start != a)
    ensures |now| == 1 && now[0].start == b && now[0].size == PAGE_SIZE
  {
    OneArea(one, a, PAGE_SIZE);
    var k: nat :| OneMore(one, two, b, PAGE_SIZE, k);
    assert two[1 - k] == one[0];
    var n: nat :| WithArea(now, two, a, n);
    var m: nat :| OneMore(now, two, a, n, m);
    assert now[0] == two[1 - m];
  }
}
