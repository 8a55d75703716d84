/** The buddy allocator as mem/pmm.c runs it: page records and free lists changed in place.
    Each method is proved against the transition of the same name in BuddySpec. */
module BuddyAllocator {
  import opened Blocks
  import opened BuddySpec
  import opened BuddySafety
  import opened Common
  import Moves = BuddySplit

  /** The null link. */
  const NULL: int := -1

  /** Following `next` from `head` visits exactly the frames `l`. */
  ghost predicate Chain(base: nat, next: seq<int>, head: int, l: seq<nat>)
    decreases l
  {
    if l == [] then head == NULL
    else head == l[0] && base <= l[0] < base + |next| && Chain(base, next, next[l[0] - base], l[1..])
  }

  lemma {:induction false} ChainFrame(base: nat, next: seq<int>, next': seq<int>, head: int, l: seq<nat>)
    requires Chain(base, next, head, l) && |next'| == |next|
    requires forall f | f in l && base <= f < base + |next| :: next'[f - base] == next[f - base]
    ensures Chain(base, next', head, l)
    decreases l
  {
    if l != [] {
      assert l[0] in l && forall f | f in l[1..] :: f in l;
      ChainFrame(base, next, next', next[l[0] - base], l[1..]);
    }
  }

  /** Redirecting the link before the `i`-th frame takes that frame out of the chain. */
  lemma {:induction false} ChainUnlink(base: nat, next: seq<int>, next': seq<int>, head: int, l: seq<nat>, i: nat)
    requires Chain(base, next, head, l) && 0 < i < |l| && |next'| == |next|
    requires base <= l[i - 1] < base + |next| && base <= l[i] < base + |next|
    requires NoDup(l)
    requires next' == next[l[i - 1] - base := next[l[i] - base]]
    ensures Chain(base, next', head, Unlink(l, l[i]))
    decreases l
  {
    var rest := next[l[0] - base];
    assert l[0] != l[i];
    if i == 1 {
      assert Unlink(l[1..], l[1]) == l[1..][1..];
      ChainFrame(base, next, next', next[l[1] - base], l[1..][1..]);
      assert Unlink(l, l[1])[1..] == l[1..][1..];
    } else {
      assert NoDup(l[1..]);
      assert l[0] != l[i - 1];
      ChainUnlink(base, next, next', rest, l[1..], i - 1);
      assert Unlink(l, l[i])[1..] == Unlink(l[1..], l[1..][i - 1]);
    }
  }

  lemma {:induction false} UnlinkAbsent(l: seq<nat>, g: nat)
    requires g !in l
    ensures Unlink(l, g) == l
  {
    if l != [] {
      UnlinkAbsent(l[1..], g);
    }
  }

  class Allocator {
    const base: nat
    const pageInfo: array<Page>
    const nextOf: array<int>
    const freeList: array<int>
    ghost var lists: seq<seq<nat>>

    ghost function Abs(): Buddy
      reads this, pageInfo
    {
      Buddy(base, pageInfo[..], lists)
    }

    ghost predicate Valid()
      reads this, pageInfo, nextOf, freeList
    {
      && |lists| == MAX_ORDER + 1 == freeList.Length
      && nextOf.Length == pageInfo.Length && nextOf != freeList
      && forall k | 0 <= k <= MAX_ORDER :: Chain(base, nextOf[..], freeList[k], lists[k])
    }

    ghost predicate Unlisted(f: nat)
      reads this
    {
      forall k | 0 <= k < |lists| :: f !in lists[k]
    }

    /** No record is free before the memory map has been read. */
    constructor (base: nat, totalPages: nat)
      ensures Valid() && this.base == base && pageInfo.Length == totalPages
      ensures fresh(pageInfo) && fresh(nextOf) && fresh(freeList)
      ensures Listed(Abs()) == {} && forall f | Abs().InRange(f) :: !Abs().PageAt(f).isFree
      ensures base > 0 ==> Moves.Started(Abs())
    {
      this.base := base;
      pageInfo := new Page[totalPages](_ => Page(0, 0, false));
      nextOf := new int[totalPages](_ => NULL);
      freeList := new int[MAX_ORDER + 1](_ => NULL);
      lists := seq(MAX_ORDER + 1, _ => []);
    }

    /** struct page* of a physical address, as a frame number, or NULL. */
    function PhysToPageIndex(addr: nat): (f: int)
      ensures f == if base <= addr < base + pageInfo.Length then addr else NULL
    {
      if addr < base || addr >= base + pageInfo.Length then NULL
      else if addr - base >= pageInfo.Length then NULL
      else addr
    }

    /** Put frame `f` at the head of list `k`. */
    method Push(f: nat, k: nat)
      requires Valid() && Abs().InRange(f) && k <= MAX_ORDER && Unlisted(f)
      modifies this`lists, nextOf, freeList
      ensures Valid() && lists == old(lists)[k := [f] + old(lists)[k]]
    {
      nextOf[f - base] := freeList[k];
      freeList[k] := f;
      lists := lists[k := [f] + lists[k]];
      assert lists[k][1..] == old(lists)[k];
      forall j | 0 <= j <= MAX_ORDER ensures Chain(base, nextOf[..], freeList[j], lists[j]) {
        ChainFrame(base, old(nextOf[..]), nextOf[..], old(freeList[j]), old(lists)[j]);
      }
    }

    /** pmm_add_free. */
    method AddFree(f: nat)
      requires Valid() && Moves.Started(Abs()) && Abs().InRange(f) && f !in lists[0]
      modifies this`lists, pageInfo, nextOf, freeList
      ensures Valid() && Moves.Started(Abs())
      ensures Abs() == old(Abs()).SetPage(f, Page(f, 0, true)).SetList(0, [f] + old(lists)[0])
    {
      pageInfo[f - base] := Page(f, 0, true);
      Push(f, 0);
    }

    /** pmm_fetch_order_block: unlink the first block of the smallest nonempty list. */
    method FetchOrderBlock(order: nat) returns (f: int)
      requires Valid() && order <= MAX_ORDER
      modifies this`lists, freeList
      ensures Valid()
      ensures var j := FirstNonEmpty(old(Abs()), order);
              if j > MAX_ORDER then f == NULL && lists == old(lists)
              else f == old(lists)[j][0] && lists == old(lists)[j := old(lists)[j][1..]]
    {
      var j := order;
      while j <= MAX_ORDER
        invariant order <= j <= MAX_ORDER + 1
        invariant Valid() && lists == old(lists)
        invariant FirstNonEmpty(Abs(), order) == FirstNonEmpty(Abs(), j)
      {
        assert Chain(base, nextOf[..], freeList[j], lists[j]);
        if freeList[j] != NULL {
          f := freeList[j];
          freeList[j] := nextOf[f - base];
          lists := lists[j := lists[j][1..]];
          return;
        }
        j := j + 1;
      }
      f := NULL;
    }

    /** The unlink loop of pmm_buddy_merge: `prev` is the record whose link points at `cur`,
        or NULL when that is the list head itself. */
    method UnlinkFrom(g: nat, k: nat)
      requires Valid() && k <= MAX_ORDER && NoDup(lists[k])
      requires forall j | 0 <= j <= MAX_ORDER && j != k :: forall f | f in lists[j] :: f !in lists[k]
      modifies this`lists, nextOf, freeList
      ensures Valid() && lists == old(lists)[k := Unlink(old(lists)[k], g)]
    {
      var prev := NULL;
      var cur := freeList[k];
      ghost var l := lists[k];
      ghost var i := 0;
      while cur != NULL && cur != g
        invariant i <= |l| && l == lists[k]
        invariant Chain(base, nextOf[..], cur, l[i..])
        invariant if i == 0 then prev == NULL && cur == freeList[k]
                  else prev == l[i - 1] && Abs().InRange(l[i - 1]) && cur == nextOf[prev - base]
        invariant forall m | 0 <= m < i :: l[m] != g
        decreases |l| - i
      {
        prev := cur;
        cur := nextOf[cur - base];
        i := i + 1;
      }
      if cur == g {
        UnlinkAt(l, g, i);
        lists := lists[k := Unlink(l, g)];
        if prev == NULL {
          freeList[k] := nextOf[cur - base];
        } else {
          nextOf[prev - base] := nextOf[cur - base];
          ChainUnlink(base, old(nextOf[..]), nextOf[..], freeList[k], l, i);
          forall j | 0 <= j <= MAX_ORDER && j != k ensures Chain(base, nextOf[..], freeList[j], lists[j]) {
            ChainFrame(base, old(nextOf[..]), nextOf[..], freeList[j], lists[j]);
          }
        }
      } else {
        UnlinkAbsent(l, g);
      }
    }

    lemma UnlinkAt(l: seq<nat>, g: nat, i: nat)
      requires i < |l| && l[i] == g && forall m | 0 <= m < i :: l[m] != g
      ensures i == 0 ==> Unlink(l, g) == l[1..]
    {
    }

    /** The part of pmm_buddy_merge that takes the buddy off its list. */
    method UnlinkBuddy(addr: nat, order: nat, ghost out: set<Block>)
      requires Valid() && order <= MAX_ORDER && Tagged(Abs(), out)
      modifies this`lists, nextOf, freeList
      ensures Valid() && Abs() == AfterUnlink(old(Abs()), Block(addr, order))
    {
      ListsApart(Abs(), out, order);
      UnlinkFrom(BuddyOf(addr, order), order);
    }

    /** The part of pmm_buddy_merge that puts a block on its list. */
    method PutBack(f: nat, order: nat, ghost out: set<Block>)
      requires Valid() && order <= MAX_ORDER && InFlight(Abs(), out, Block(f, order)) && Abs().InRange(f)
      modifies this`lists, pageInfo, nextOf, freeList
      ensures Valid() && Abs() == Pushed(old(Abs()), Block(f, order))
    {
      FlightUnlisted(Abs(), out, Block(f, order));
      pageInfo[f - base] := pageInfo[f - base].(order := order, isFree := true);
      Push(f, order);
    }

    /** pmm_buddy_merge. */
    method BuddyMerge(addr: nat, order: nat, ghost out: set<Block>)
      requires Valid() && InFlight(Abs(), out, Block(addr, order)) && order <= MAX_ORDER
      requires !ReachesTop(Abs(), Block(addr, order))
      modifies this`lists, pageInfo, nextOf, freeList
      ensures Valid() && Abs() == Merge(old(Abs()), Block(addr, order))
      decreases MAX_ORDER - order
    {
      var buddyAddr := BuddyOf(addr, order);
      var page := PhysToPageIndex(addr);
      var buddyPage := PhysToPageIndex(buddyAddr);
      ghost var x := Block(addr, order);
      FlightInRange(Abs(), out, x);
      assert page != NULL;
      if buddyPage != NULL && pageInfo[buddyPage - base].isFree && pageInfo[buddyPage - base].order == order {
        MergeOn(Abs(), x);
        MergeStep(Abs(), out, x);
        UnlinkBuddy(addr, order, out);
        var mergedAddr := if addr < buddyAddr then addr else buddyAddr;
        BuddyMerge(mergedAddr, order + 1, out);
      } else {
        MergeEnds(Abs(), x);
        PutBack(page, order, out);
      }
    }

    /** pmm_determine_split.  The block is off every list, as its caller leaves it. */
    method DetermineSplit(block: nat, fromOrder: nat, toOrder: nat)
      requires Valid() && fromOrder <= MAX_ORDER && Abs().InRange(block)
      requires toOrder < fromOrder ==>
                 && Moves.Fits(Abs(), block, fromOrder)
                 && forall q | Covers(Block(block, fromOrder), q) :: Unlisted(q)
      modifies this`lists, pageInfo, nextOf, freeList
      ensures Valid() && Abs() == Split(old(Abs()), block, fromOrder, toOrder)
    {
      var from: nat := fromOrder;
      ghost var result := Split(Abs(), block, fromOrder, toOrder);
      while from > toOrder
        invariant from <= fromOrder && Valid() && Abs().InRange(block)
        invariant from > toOrder ==> Moves.Fits(Abs(), block, from)
        invariant from > toOrder ==> forall q | Covers(Block(block, from), q) :: Unlisted(q)
        invariant Split(Abs(), block, from, toOrder) == result
      {
        ghost var before := Abs();
        from := from - 1;
        var splitSize := Pow2(from);
        var buddyAddr := pageInfo[block - base].address + splitSize;
        var right := PhysToPageIndex(buddyAddr);
        UpperHalfHasRecord(Abs(), block, from);
        if right == NULL {
          return;
        }
        GiveBack(block, right, from);
        Moves.SplitUnfold(before, block, from, toOrder);
      }
    }

    /** The loop body of pmm_determine_split once the upper half has a record. */
    method GiveBack(block: nat, right: nat, k: nat)
      requires Valid() && Moves.Fits(Abs(), block, k + 1) && right == block + Pow2(k)
      requires forall q | Covers(Block(block, k + 1), q) :: Unlisted(q)
      modifies this`lists, pageInfo, nextOf, freeList
      ensures Valid() && Abs() == SplitOnce(old(Abs()), block, k)
      ensures forall q | Covers(Block(block, k), q) :: Unlisted(q)
    {
      assert Covers(Block(block, k + 1), right) && Unlisted(right);
      pageInfo[right - base] := Page(right, k, true);
      Push(right, k);
      pageInfo[block - base] := pageInfo[block - base].(order := k);
      forall q | Covers(Block(block, k), q) ensures Unlisted(q) {
        assert Covers(Block(block, k + 1), q) && old(Unlisted(q));
      }
    }

    /** pmm_alloc_block. */
    method AllocBlock(order: nat, ghost out: set<Block>) returns (r: Option<nat>)
      requires Valid() && order <= MAX_ORDER && Safe(Abs(), out)
      modifies this`lists, pageInfo, nextOf, freeList
      ensures Valid()
      ensures (ListsInRange(old(Abs()), out); (Abs(), r) == Alloc(old(Abs()), order))
    {
      ListsInRange(Abs(), out);
      var block := FetchOrderBlock(order);
      if block == NULL {
        return None;
      }
      pageInfo[block - base] := pageInfo[block - base].(isFree := false);
      pageInfo[block - base] := pageInfo[block - base].(order := order);
      ghost var b, j := old(Abs()), FirstNonEmpty(old(Abs()), order);
      assert Abs() == b.SetList(j, b.lists[j][1..]).SetPage(block, b.PageAt(block).(isFree := false, order := order));
      DetermineSplit(block, pageInfo[block - base].order, order);
      r := Some(pageInfo[block - base].address);
    }

    /** pmm_alloc_pages with a count of one. */
    method AllocPages(order: nat, ghost out: set<Block>) returns (r: Option<nat>, ghost out': set<Block>)
      requires Valid() && Safe(Abs(), out)
      modifies this`lists, pageInfo, nextOf, freeList
      ensures Valid() && Safe(Abs(), out')
      ensures Moves.Step(Moves.State(old(Abs()), out), Moves.AllocOp(order), Moves.State(Abs(), out'))
      ensures r.Some? ==> order <= MAX_ORDER && out' == out + {Block(r.value, order)}
                          && forall y | y in out :: Disjoint(Block(r.value, order), y)
      ensures r.None? ==> out' == out && Abs() == old(Abs())
      ensures r.None? <==> order > MAX_ORDER || forall j | order <= j <= MAX_ORDER :: old(lists)[j] == []
    {
      ListsInRange(Abs(), out);
      if order > MAX_ORDER {
        return None, out;
      }
      AllocSafe(Abs(), out, order);
      r := AllocBlock(order, out);
      out' := if r.Some? then out + {Block(r.value, order)} else out;
    }

    /** pmm_free_block. */
    method FreeBlock(addr: nat, order: nat, ghost out: set<Block>)
      requires Valid() && Safe(Abs(), out) && Block(addr, order) in out && order <= MAX_ORDER
      requires !Moves.AtTop(Moves.State(Abs(), out), Block(addr, order))
      modifies this`lists, pageInfo, nextOf, freeList
      ensures Valid() && Abs() == Free(old(Abs()), addr, order)
    {
      FreeFlight(Abs(), out, Block(addr, order));
      var page := PhysToPageIndex(addr);
      pageInfo[page - base] := pageInfo[page - base].(isFree := true);
      assert Abs() == Released(old(Abs()), addr);
      BuddyMerge(pageInfo[page - base].address, order, out - {Block(addr, order)});
    }

    /** pmm_free_pages with a count of one, for an outstanding block whose merge does not go beyond
        the largest size. */
    method FreePages(addr: nat, order: nat, ghost out: set<Block>)
      requires Valid() && Safe(Abs(), out) && Block(addr, order) in out
      requires !Moves.AtTop(Moves.State(Abs(), out), Block(addr, order))
      modifies this`lists, pageInfo, nextOf, freeList
      ensures Valid() && Safe(Abs(), out - {Block(addr, order)})
      ensures Moves.Step(Moves.State(old(Abs()), out), Moves.FreeOp(Block(addr, order)),
                         Moves.State(Abs(), out - {Block(addr, order)}))
    {
      assert Block(addr, order) in Listed(Abs()) + out;
      FreeFlight(Abs(), out, Block(addr, order));
      FreeSafe(Abs(), out, Block(addr, order));
      ListsInRange(Abs(), out);
      FreeBlock(addr, order, out);
    }
  }

  lemma UpperHalfHasRecord(b: Buddy, f: nat, k: nat)
    requires Moves.Fits(b, f, k + 1)
    ensures b.base <= f + Pow2(k) < b.base + |b.pages|
  {
  }

  lemma MergeOn(b: Buddy, x: Block)
    requires b.HasLists() && x.order <= MAX_ORDER && b.InRange(x.start)
    requires b.Mergeable(x.start, x.order) && !ReachesTop(b, x)
    ensures x.order < MAX_ORDER && Merge(b, x) == Merge(AfterUnlink(b, x), Doubled(x))
    ensures !ReachesTop(AfterUnlink(b, x), Doubled(x))
  {
  }

  lemma MergeEnds(b: Buddy, x: Block)
    requires b.HasLists() && x.order <= MAX_ORDER && b.InRange(x.start) && !b.Mergeable(x.start, x.order)
    ensures Merge(b, x) == Pushed(b, x)
  {
  }

  lemma FlightInRange(b: Buddy, out: set<Block>, x: Block)
    requires InFlight(b, out, x)
    ensures b.InRange(x.start)
  {
    assert x in Listed(b) + out + {x} && BlockOk(b, x);
  }

  lemma FlightUnlisted(b: Buddy, out: set<Block>, x: Block)
    requires InFlight(b, out, x)
    ensures forall k | 0 <= k < |b.lists| :: x.start !in b.lists[k]
  {
    var live := Listed(b) + out + {x};
    forall y | y in Listed(b) ensures y.start != x.start {
      assert y in live && x in live && Disjoint(x, y);
    }
    assert forall k | 0 <= k < |b.lists| && x.start in b.lists[k] :: Block(x.start, k) in Listed(b);
  }

  lemma ListsApart(b: Buddy, out: set<Block>, k: nat)
    requires Tagged(b, out) && k <= MAX_ORDER
    ensures NoDup(b.lists[k])
    ensures forall j | 0 <= j <= MAX_ORDER && j != k :: forall f | f in b.lists[j] :: f !in b.lists[k]
  {
    forall j, f | 0 <= j <= MAX_ORDER && j != k && f in b.lists[j] ensures f !in b.lists[k] {
      assert Block(f, j) in Listed(b);
      assert f in b.lists[k] ==> Block(f, k) in Listed(b);
    }
  }
}
