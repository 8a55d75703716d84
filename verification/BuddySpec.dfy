/** The buddy page allocator of mem/pmm.c as a state and its transitions, and what every run
    keeps.  Addresses are page frame numbers: every address that reaches this code is a
    multiple of PAGE_SIZE. */
module BuddySpec {
  import opened Blocks
  import opened Common

  const MAX_ORDER: nat := 10

  /** struct page without its list link; the links are what `lists` stands for. */
  datatype Page = Page(address: nat, order: nat, isFree: bool)

  /** struct buddy_allocator: `lists[k]` holds the frames on free_list[k], head first. */
  datatype Buddy = Buddy(base: nat, pages: seq<Page>, lists: seq<seq<nat>>) {

    /** phys_to_page_index finds a record. */
    predicate InRange(f: nat) {
      base <= f < base + |pages|
    }

    function PageAt(f: nat): Page
      requires InRange(f)
    {
      pages[f - base]
    }

    function SetPage(f: nat, p: Page): Buddy
      requires InRange(f)
    {
      this.(pages := pages[f - base := p])
    }

    function SetList(k: nat, l: seq<nat>): Buddy
      requires k < |lists|
    {
      this.(lists := lists[k := l])
    }

    predicate HasLists() {
      |lists| == MAX_ORDER + 1
    }

    /** The buddy of block (f, k) has a record that is flagged free with order k. */
    predicate Mergeable(f: nat, k: nat) {
      var g := BuddyOf(f, k);
      InRange(g) && PageAt(g).isFree && PageAt(g).order == k
    }
  }

  /** `l` without the first occurrence of `g`. */
  function Unlink(l: seq<nat>, g: nat): (r: seq<nat>)
    ensures |r| <= |l|
  {
    if l == [] then [] else if l[0] == g then l[1..] else [l[0]] + Unlink(l[1..], g)
  }

  /** The state after the buddy of block `x` has left its list. */
  function AfterUnlink(b: Buddy, x: Block): Buddy
    requires b.HasLists() && x.order <= MAX_ORDER
  {
    b.SetList(x.order, Unlink(b.lists[x.order], BuddyOf(x.start, x.order)))
  }

  /** The block of twice the size that consists of `x` and its buddy. */
  function Doubled(x: Block): Block {
    Block(Min(x.start, BuddyOf(x.start, x.order)), x.order + 1)
  }

  /** Block `x` recorded free and put at the head of its list. */
  function Pushed(b: Buddy, x: Block): Buddy
    requires b.HasLists() && x.order <= MAX_ORDER && b.InRange(x.start)
  {
    b.SetPage(x.start, b.PageAt(x.start).(order := x.order, isFree := true))
     .SetList(x.order, [x.start] + b.lists[x.order])
  }

  /** Merging comes to a block of the largest order whose buddy is mergeable.  The code has no test
      against MAX_ORDER, and would go on with a list that does not exist. */
  ghost predicate ReachesTop(b: Buddy, x: Block)
    requires b.HasLists() && x.order <= MAX_ORDER
    decreases MAX_ORDER - x.order
  {
    && b.InRange(x.start) && b.Mergeable(x.start, x.order)
    && (x.order < MAX_ORDER ==> ReachesTop(AfterUnlink(b, x), Doubled(x)))
  }

  /** pmm_buddy_merge, as long as it does not come to the top. */
  function Merge(b: Buddy, x: Block): (r: Buddy)
    requires b.HasLists() && x.order <= MAX_ORDER
    ensures r.HasLists() && r.base == b.base && |r.pages| == |b.pages|
    decreases MAX_ORDER - x.order
  {
    if !b.InRange(x.start) then b
    else if b.Mergeable(x.start, x.order) && x.order < MAX_ORDER then Merge(AfterUnlink(b, x), Doubled(x))
    else Pushed(b, x)
  }

  /** The smallest order at or above `k` with a nonempty free list, or MAX_ORDER + 1. */
  function FirstNonEmpty(b: Buddy, k: nat): (j: nat)
    requires b.HasLists() && k <= MAX_ORDER + 1
    ensures k <= j <= MAX_ORDER + 1
    ensures forall i | k <= i < j :: b.lists[i] == []
    ensures j <= MAX_ORDER ==> b.lists[j] != []
    decreases MAX_ORDER + 1 - k
  {
    if k == MAX_ORDER + 1 || b.lists[k] != [] then k else FirstNonEmpty(b, k + 1)
  }

  /** One round of pmm_determine_split: the upper half, of order `k`, gets a record and goes
      to the head of its list; the block's own order is lowered to `k`. */
  function SplitOnce(b: Buddy, f: nat, k: nat): (r: Buddy)
    requires b.HasLists() && k <= MAX_ORDER && b.InRange(f) && b.InRange(b.PageAt(f).address + Pow2(k))
    ensures r.HasLists() && r.base == b.base && |r.pages| == |b.pages|
  {
    var right := b.PageAt(f).address + Pow2(k);
    var c := b.SetPage(right, Page(right, k, true)).SetList(k, [right] + b.lists[k]);
    c.SetPage(f, c.PageAt(f).(order := k))
  }

  /** pmm_determine_split: hand the upper halves of the block at `f` back, one per order. */
  function Split(b: Buddy, f: nat, from: nat, to: nat): (r: Buddy)
    requires b.HasLists() && from <= MAX_ORDER && b.InRange(f)
    ensures r.HasLists() && r.base == b.base && |r.pages| == |b.pages|
    decreases from
  {
    if from <= to || !b.InRange(b.PageAt(f).address + Pow2(from - 1)) then b
    else Split(SplitOnce(b, f, from - 1), f, from - 1, to)
  }

  /** pmm_alloc_block: the first block of the smallest nonempty list, marked used with the
      requested order before the splitter sees it. */
  function Alloc(b: Buddy, k: nat): (r: (Buddy, Option<nat>))
    requires b.HasLists() && k <= MAX_ORDER
    requires forall j, i | 0 <= j < |b.lists| && 0 <= i < |b.lists[j]| :: b.InRange(b.lists[j][i])
  {
    var j := FirstNonEmpty(b, k);
    if j == MAX_ORDER + 1 then (b, None)
    else
      var f := b.lists[j][0];
      var c := b.SetList(j, b.lists[j][1..]).SetPage(f, b.PageAt(f).(isFree := false, order := k));
      (Split(c, f, k, k), Some(c.PageAt(f).address))
  }

  /** pmm_free_block's own mark. */
  function Released(b: Buddy, f: nat): Buddy
    requires b.InRange(f)
  {
    b.SetPage(f, b.PageAt(f).(isFree := true))
  }

  /** pmm_free_block. */
  function Free(b: Buddy, f: nat, k: nat): Buddy
    requires b.HasLists() && k <= MAX_ORDER
  {
    if !b.InRange(f) then b
    else Merge(Released(b, f), Block(b.PageAt(f).address, k))
  }

  // ---------------------------------------------------------------- safety

  /** The blocks on the free lists. */
  ghost function Listed(b: Buddy): set<Block> {
    set k, f | 0 <= k < |b.lists| && f in b.lists[k] :: Block(f, k)
  }

  /** The block that the record of frame `p` describes. */
  ghost function Described(b: Buddy, p: nat): Block
    requires b.InRange(p)
  {
    Block(p, b.PageAt(p).order)
  }

  ghost predicate InPlace(b: Buddy, x: Block) {
    && x.order <= MAX_ORDER
    && Aligned(x.start, x.order)
    && b.base <= x.start && End(x) <= b.base + |b.pages|
    && b.InRange(x.start) && b.PageAt(x.start).address == x.start
  }

  /** The record of a frame that pmm_add_free has seen carries the frame's address. */
  ghost predicate Added(b: Buddy, q: nat) {
    b.InRange(q) && b.PageAt(q).address == q
  }

  ghost predicate AllAdded(b: Buddy, x: Block) {
    forall q: nat {:trigger Added(b, q)} | Covers(x, q) :: Added(b, q)
  }

  ghost predicate BlockOk(b: Buddy, x: Block) {
    InPlace(b, x) && AllAdded(b, x)
  }

  ghost predicate Separated(live: set<Block>) {
    forall x, y | x in live && y in live && x != y :: Disjoint(x, y)
  }

  /** A record flagged free describes a block that meets a live block only from inside.  The
      flag may be stale: its block need not be on any list. */
  ghost predicate FlagOk(b: Buddy, live: set<Block>, p: nat)
    requires b.InRange(p)
  {
    b.PageAt(p).isFree ==>
      && BlockOk(b, Described(b, p))
      && forall x | x in live :: Disjoint(Described(b, p), x) || Within(Described(b, p), x)
  }

  /** No aligned block of twice the largest size consists of added frames. */
  ghost predicate NoBigBlock(b: Buddy) {
    forall m: nat {:trigger IsBigBlock(b, m)} :: !IsBigBlock(b, m)
  }

  ghost predicate IsBigBlock(b: Buddy, m: nat) {
    Aligned(m, MAX_ORDER + 1) && AllAdded(b, Block(m, MAX_ORDER + 1))
  }

  ghost predicate Core(b: Buddy, live: set<Block>) {
    && b.HasLists()
    && (forall x | x in live :: BlockOk(b, x))
    && Separated(live)
    && (forall p | b.InRange(p) :: FlagOk(b, live, p))
  }

  ghost predicate NoDup(l: seq<nat>) {
    forall i, j | 0 <= i < j < |l| :: l[i] != l[j]
  }

  /** Free-list heads are flagged with their list's order, each block is listed once, and
      outstanding blocks are marked used with the order they were allocated at. */
  ghost predicate Tagged(b: Buddy, out: set<Block>) {
    && b.HasLists()
    && (forall k | 0 <= k < |b.lists| :: NoDup(b.lists[k]))
    && (forall x | x in Listed(b) :: b.InRange(x.start) && b.PageAt(x.start).isFree && Described(b, x.start) == x)
    && (forall x | x in out :: b.InRange(x.start) && !b.PageAt(x.start).isFree && Described(b, x.start) == x)
  }

  /** The safety invariant, with `out` the outstanding blocks. */
  ghost predicate Safe(b: Buddy, out: set<Block>) {
    Tagged(b, out) && Core(b, Listed(b) + out)
  }

  /** Safe but for one block that is on its way back. */
  ghost predicate InFlight(b: Buddy, out: set<Block>, x: Block) {
    && Tagged(b, out) && Core(b, Listed(b) + out + {x})
    && x !in Listed(b) && x !in out
  }

  ghost predicate Covered(s: set<Block>, q: nat) {
    exists x | x in s :: Covers(x, q)
  }
}
