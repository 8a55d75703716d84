/** Splitting a block and freeing its lower part undo each other (mem/pmm.c:394-424, 64-95). */
module BuddySplit {
  import opened Blocks
  import opened BuddySpec
  import opened Common
  import opened BuddySafety

  /** The upper halves that a split from order `from` to order `to` gives back. */
  ghost function Halved(f: nat, from: nat, to: nat): set<Block> {
    set j | to <= j < from :: Block(f + Pow2(j), j)
  }

  /** Each order in between gains one free block at the head of its list. */
  ghost predicate ListsGain(b: Buddy, c: Buddy, f: nat, from: nat, to: nat) {
    b.HasLists() && c.HasLists() && forall j | 0 <= j <= MAX_ORDER :: ListGains(b, c, f, from, to, j)
  }

  ghost predicate ListGains(b: Buddy, c: Buddy, f: nat, from: nat, to: nat, j: nat)
    requires b.HasLists() && c.HasLists() && j <= MAX_ORDER
  {
    c.lists[j] == if to <= j < from then [f + Pow2(j)] + b.lists[j] else b.lists[j]
  }

  /** The records of the given-back halves are written, the block's own order is lowered, and
      nothing outside the block changes. */
  ghost predicate RecordsWritten(b: Buddy, c: Buddy, f: nat, from: nat, to: nat) {
    && b.InRange(f) && c.base == b.base && |c.pages| == |b.pages|
    && (forall j | to <= j < from :: GivenBack(c, f, j))
    && (forall p | b.InRange(p) && !Covers(Block(f, from), p) :: c.PageAt(p) == b.PageAt(p))
    && c.PageAt(f) == if from <= to then b.PageAt(f) else b.PageAt(f).(order := to)
  }

  /** The upper half of order `j` is flagged free with that order and knows its address. */
  ghost predicate GivenBack(c: Buddy, f: nat, j: nat) {
    c.InRange(f + Pow2(j)) && c.PageAt(f + Pow2(j)) == Page(f + Pow2(j), j, true)
  }

  ghost predicate Fits(b: Buddy, f: nat, from: nat) {
    && b.HasLists() && from <= MAX_ORDER
    && b.InRange(f) && b.PageAt(f).address == f && f + Pow2(from) <= b.base + |b.pages|
  }

  lemma SplitUnfold(b: Buddy, f: nat, k: nat, to: nat)
    requires Fits(b, f, k + 1) && to <= k
    ensures b.InRange(f + Pow2(k)) && Fits(SplitOnce(b, f, k), f, k)
    ensures Split(b, f, k + 1, to) == Split(SplitOnce(b, f, k), f, k, to)
  {
  }

  lemma {:induction false} SplitLists(b: Buddy, f: nat, from: nat, to: nat)
    requires Fits(b, f, from) && to <= from
    ensures ListsGain(b, Split(b, f, from, to), f, from, to)
    decreases from
  {
    if from > to {
      SplitUnfold(b, f, from - 1, to);
      var c := SplitOnce(b, f, from - 1);
      SplitLists(c, f, from - 1, to);
      ListsStep(b, c, Split(c, f, from - 1, to), f, from, to);
    }
  }

  lemma ListsStep(b: Buddy, c: Buddy, d: Buddy, f: nat, from: nat, to: nat)
    requires to < from && Fits(b, f, from) && b.InRange(f + Pow2(from - 1)) && c == SplitOnce(b, f, from - 1)
    requires ListsGain(c, d, f, from - 1, to)
    ensures ListsGain(b, d, f, from, to)
  {
    forall j | 0 <= j <= MAX_ORDER ensures ListGains(b, d, f, from, to, j) {
      assert ListGains(c, d, f, from - 1, to, j);
    }
  }

  lemma {:induction false} SplitRecords(b: Buddy, f: nat, from: nat, to: nat)
    requires Fits(b, f, from) && to <= from
    ensures RecordsWritten(b, Split(b, f, from, to), f, from, to)
    decreases from
  {
    if from > to {
      var k := from - 1;
      SplitUnfold(b, f, k, to);
      var c := SplitOnce(b, f, k);
      SplitRecords(c, f, k, to);
      RecordsStep(b, c, Split(c, f, k, to), f, k, to);
    }
  }

  lemma RecordsStep(b: Buddy, c: Buddy, d: Buddy, f: nat, k: nat, to: nat)
    requires Fits(b, f, k + 1) && to <= k && b.InRange(f + Pow2(k)) && c == SplitOnce(b, f, k)
    requires RecordsWritten(c, d, f, k, to)
    ensures RecordsWritten(b, d, f, k + 1, to)
  {
    UpperRecord(b, f, k);
    LowerRecord(b, f, k);
    UpperStays(c, d, f, k);
    OutsideKept(b, c, d, f, k);
  }

  lemma UpperRecord(b: Buddy, f: nat, k: nat)
    requires Fits(b, f, k + 1) && b.InRange(f + Pow2(k))
    ensures GivenBack(SplitOnce(b, f, k), f, k)
  {
    SplitParts(b, f, k, f + Pow2(k));
  }

  /** What one round of the split writes, with the upper half at `right`. */
  lemma SplitParts(b: Buddy, f: nat, k: nat, right: nat)
    requires b.HasLists() && k <= MAX_ORDER && b.InRange(f) && b.InRange(right) && f != right
    requires b.PageAt(f).address + Pow2(k) == right
    ensures SplitOnce(b, f, k).PageAt(right) == Page(right, k, true)
    ensures SplitOnce(b, f, k).PageAt(f) == b.PageAt(f).(order := k)
  {
    var p := b.pages[right - b.base := Page(right, k, true)];
    assert p[f - b.base] == b.pages[f - b.base];
    assert SplitOnce(b, f, k).pages == p[f - b.base := p[f - b.base].(order := k)];
  }

  lemma LowerRecord(b: Buddy, f: nat, k: nat)
    requires Fits(b, f, k + 1) && b.InRange(f + Pow2(k))
    ensures SplitOnce(b, f, k).PageAt(f) == b.PageAt(f).(order := k)
  {
    SplitParts(b, f, k, f + Pow2(k));
  }

  lemma UpperStays(c: Buddy, d: Buddy, f: nat, k: nat)
    requires GivenBack(c, f, k) && d.base == c.base && |d.pages| == |c.pages|
    requires forall p | c.InRange(p) && !Covers(Block(f, k), p) :: d.PageAt(p) == c.PageAt(p)
    ensures GivenBack(d, f, k)
  {
    assert !Covers(Block(f, k), f + Pow2(k));
  }

  lemma OutsideKept(b: Buddy, c: Buddy, d: Buddy, f: nat, k: nat)
    requires Fits(b, f, k + 1) && b.InRange(f + Pow2(k)) && c == SplitOnce(b, f, k)
    requires d.base == c.base && |d.pages| == |c.pages|
    requires forall p | c.InRange(p) && !Covers(Block(f, k), p) :: d.PageAt(p) == c.PageAt(p)
    ensures forall p | b.InRange(p) && !Covers(Block(f, k + 1), p) :: d.PageAt(p) == b.PageAt(p)
  {
    forall p | b.InRange(p) && !Covers(Block(f, k + 1), p) ensures d.PageAt(p) == b.PageAt(p) {
      assert !Covers(Block(f, k), p) && c.PageAt(p) == b.PageAt(p);
    }
  }

  /** The parts of a split: disjoint, aligned, and together exactly the block. */
  ghost predicate Partition(parts: set<Block>, whole: Block) {
    && (forall x | x in parts :: Aligned(x.start, x.order) && Within(x, whole))
    && Separated(parts)
    && (forall q | Covers(whole, q) :: Covered(parts, q))
  }

  lemma {:induction false} SplitPartitions(f: nat, from: nat, to: nat)
    requires to <= from && Aligned(f, from)
    ensures Partition(Halved(f, from, to) + {Block(f, to)}, Block(f, from))
    decreases from
  {
    if from > to {
      var k := from - 1;
      Halves(f, k);
      SplitPartitions(f, k, to);
      assert Halved(f, from, to) == Halved(f, k, to) + {Block(f + Pow2(k), k)};
      assert Halved(f, from, to) + {Block(f, to)} == Halved(f, k, to) + {Block(f, to)} + {Block(f + Pow2(k), k)};
      PartitionDoubles(Halved(f, k, to) + {Block(f, to)}, f, k);
    } else {
      assert Halved(f, from, to) + {Block(f, to)} == {Block(f, from)};
      assert Block(f, from) in Halved(f, from, to) + {Block(f, to)};
    }
  }

  lemma PartitionDoubles(parts: set<Block>, f: nat, k: nat)
    requires Partition(parts, Block(f, k)) && Aligned(f + Pow2(k), k)
    ensures Partition(parts + {Block(f + Pow2(k), k)}, Block(f, k + 1))
  {
    var top := Block(f + Pow2(k), k);
    var all := parts + {top};
    forall q | Covers(Block(f, k + 1), q) ensures Covered(all, q) {
      if Covers(Block(f, k), q) {
        var x :| x in parts && Covers(x, q);
        assert x in all;
      } else {
        assert top in all && Covers(top, q);
      }
    }
  }

  /** Merging climbs back through exactly the buddies the split had given away. */
  lemma {:induction false} MergeClimbs(b: Buddy, c: Buddy, f: nat, k: nat, from: nat)
    requires ListsGain(b, c, f, from, k) && k <= from <= MAX_ORDER
    requires c.InRange(f) && Aligned(f, from)
    requires forall j | k <= j < from :: GivenBack(c, f, j)
    ensures Merge(c, Block(f, k)) == Merge(c.(lists := b.lists), Block(f, from))
    decreases from - k
  {
    if k < from {
      MergeClimbsOnce(b, c, f, k, from);
      var d := c.SetList(k, b.lists[k]);
      ClimbLists(b, c, f, k, from);
      MergeClimbs(b, d, f, k + 1, from);
      assert d.(lists := b.lists) == c.(lists := b.lists);
    } else {
      forall j | 0 <= j <= MAX_ORDER ensures c.lists[j] == b.lists[j] {
        assert ListGains(b, c, f, from, k, j);
      }
      assert c.lists == b.lists;
    }
  }

  lemma ClimbLists(b: Buddy, c: Buddy, f: nat, k: nat, from: nat)
    requires ListsGain(b, c, f, from, k) && k < from <= MAX_ORDER
    requires forall j | k <= j < from :: GivenBack(c, f, j)
    ensures ListsGain(b, c.SetList(k, b.lists[k]), f, from, k + 1)
    ensures forall j | k < j < from :: GivenBack(c.SetList(k, b.lists[k]), f, j)
  {
    var d, next := c.SetList(k, b.lists[k]), k + 1;
    forall j | 0 <= j <= MAX_ORDER ensures ListGains(b, d, f, from, next, j) {
      assert ListGains(b, c, f, from, k, j);
    }
    forall j | k < j < from ensures GivenBack(d, f, j) {
      assert GivenBack(c, f, j);
    }
  }

  lemma MergeClimbsOnce(b: Buddy, c: Buddy, f: nat, k: nat, from: nat)
    requires ListsGain(b, c, f, from, k) && k < from <= MAX_ORDER
    requires c.InRange(f) && Aligned(f, from)
    requires GivenBack(c, f, k)
    ensures Merge(c, Block(f, k)) == Merge(c.SetList(k, b.lists[k]), Block(f, k + 1))
  {
    AlignedBelow(f, from, k + 1);
    Halves(f, k);
    assert ListGains(b, c, f, from, k, k);
    assert Unlink(c.lists[k], f + Pow2(k)) == c.lists[k][1..] == b.lists[k];
    assert AfterUnlink(c, Block(f, k)) == c.SetList(k, b.lists[k]);
    assert Doubled(Block(f, k)) == Block(f, k + 1);
    assert c.Mergeable(f, k);
  }

  /** Split a detached block from order `from` to `to`, then free its lowest part: when the
      block's own buddy is not free, every list below is restored and the block is back, whole. */
  lemma SplitThenFree(b: Buddy, f: nat, from: nat, to: nat)
    requires b.HasLists() && to <= from <= MAX_ORDER
    requires InPlace(b, Block(f, from)) && !b.Mergeable(f, from)
    ensures var r := Free(Split(b, f, from, to), f, to);
            && r.lists == b.lists[from := [f] + b.lists[from]]
            && r.PageAt(f) == Page(f, from, true)
            && forall p | b.InRange(p) && !Covers(Block(f, from), p) :: r.PageAt(p) == b.PageAt(p)
  {
    SplitLists(b, f, from, to);
    SplitRecords(b, f, from, to);
    FreeAfterSplit(b, Split(b, f, from, to), f, from, to);
  }

  lemma FreeAfterSplit(b: Buddy, c: Buddy, f: nat, from: nat, to: nat)
    requires b.HasLists() && to <= from <= MAX_ORDER
    requires InPlace(b, Block(f, from)) && !b.Mergeable(f, from)
    requires ListsGain(b, c, f, from, to) && RecordsWritten(b, c, f, from, to)
    ensures var r := Free(c, f, to);
            && r.lists == b.lists[from := [f] + b.lists[from]]
            && r.PageAt(f) == Page(f, from, true)
            && forall p | b.InRange(p) && !Covers(Block(f, from), p) :: r.PageAt(p) == b.PageAt(p)
  {
    var d := Released(c, f);
    forall j | 0 <= j <= MAX_ORDER ensures ListGains(b, d, f, from, to, j) {
      assert ListGains(b, c, f, from, to, j);
    }
    forall j | to <= j < from ensures GivenBack(d, f, j) {
      assert GivenBack(c, f, j);
    }
    MergeClimbs(b, d, f, to, from);
    MergeStops(b, d.(lists := b.lists), f, from);
  }

  lemma MergeStops(b: Buddy, e: Buddy, f: nat, from: nat)
    requires b.HasLists() && from <= MAX_ORDER && Aligned(f, from) && !b.Mergeable(f, from)
    requires e.lists == b.lists && e.base == b.base && |e.pages| == |b.pages| && b.InRange(f)
    requires forall p | b.InRange(p) && !Covers(Block(f, from), p) :: e.PageAt(p) == b.PageAt(p)
    ensures Merge(e, Block(f, from)) == Pushed(e, Block(f, from))
  {
    BuddyOutside(f, from);
  }

  lemma BuddyOutside(f: nat, k: nat)
    requires Aligned(f, k)
    ensures !Covers(Block(f, k), BuddyOf(f, k))
  {
    BuddyHalves(f, k);
    var g := BuddyOf(f, k);
    var m := if f < g then f else g;
    assert f in {m, m + Pow2(k)} && g in {m, m + Pow2(k)};
    assert m in {f, g} && m + Pow2(k) in {f, g};
  }

  // ---------------------------------------------------------------- runs

  datatype Op = AllocOp(order: nat) | FreeOp(block: Block)

  /** A start-up state: the added frames sit on list 0, every other record is not free and has no
      address of its own. */
  ghost predicate Started(b: Buddy) {
    && b.base > 0 && b.HasLists()
    && (forall k | 0 < k <= MAX_ORDER :: b.lists[k] == [])
    && NoDup(b.lists[0])
    && (forall f | f in b.lists[0] :: b.InRange(f) && b.PageAt(f) == Page(f, 0, true))
    && (forall f | b.InRange(f) && f !in b.lists[0] :: !b.PageAt(f).isFree && b.PageAt(f).address != f)
  }

  ghost predicate ListsOk(b: Buddy) {
    forall j, i | 0 <= j < |b.lists| && 0 <= i < |b.lists[j]| :: b.InRange(b.lists[j][i])
  }

  datatype State = State(buddy: Buddy, out: set<Block>)

  /** One call of pmm_alloc_pages(order, 1), or one matching pmm_free_pages(block, order, 1) whose
      merge does not come to the top. */
  ghost predicate Step(s: State, op: Op, t: State) {
    s.buddy.HasLists() && ListsOk(s.buddy) &&
    match op
    case AllocOp(k) =>
      if k > MAX_ORDER then t == s
      else
        var (c, r) := Alloc(s.buddy, k);
        t == State(c, if r.Some? then s.out + {Block(r.value, k)} else s.out)
    case FreeOp(x) =>
      x in s.out && x.order <= MAX_ORDER && !AtTop(s, x) && t == State(Free(s.buddy, x.start, x.order), s.out - {x})
  }

  /** Freeing the block would merge beyond the largest size. */
  ghost predicate AtTop(s: State, x: Block) {
    s.buddy.HasLists() && x.order <= MAX_ORDER && s.buddy.InRange(x.start) && ReachesTop(Released(s.buddy, x.start), x)
  }

  lemma StartedIsSafe(b: Buddy)
    requires Started(b)
    ensures Safe(b, {})
  {
    assert forall x | x in Listed(b) :: x.order == 0 && x.start in b.lists[0];
  }

  lemma StepSafe(s: State, op: Op, t: State)
    requires Safe(s.buddy, s.out) && Step(s, op, t)
    ensures Safe(t.buddy, t.out)
  {
    match op
    case AllocOp(k) =>
      if k <= MAX_ORDER {
        AllocSafe(s.buddy, s.out, k);
      }
    case FreeOp(x) =>
      FreeFlight(s.buddy, s.out, x);
      FreeSafe(s.buddy, s.out, x);
  }

  /** Every run from start-up stays safe: at every moment the free blocks and the blocks in
      use are in range, aligned to their order, listed once and pairwise disjoint. */
  lemma {:induction false} RunIsSafe(states: seq<State>, ops: seq<Op>, n: nat)
    requires |states| == |ops| + 1 && n < |states|
    requires Started(states[0].buddy) && states[0].out == {}
    requires forall i | 0 <= i < |ops| :: Step(states[i], ops[i], states[i + 1])
    ensures Safe(states[n].buddy, states[n].out)
    decreases n
  {
    if n == 0 {
      StartedIsSafe(states[0].buddy);
    } else {
      RunIsSafe(states, ops, n - 1);
      StepSafe(states[n - 1], ops[n - 1], states[n]);
    }
  }

  /** An allocation that takes a block of a larger order: the frame behind the part it hands
      out was free, and is afterwards neither free nor in use. */
  lemma AllocDropsTail(b: Buddy, out: set<Block>, k: nat) returns (q: nat)
    requires Safe(b, out) && k <= MAX_ORDER
    requires ListsOk(b) && k < FirstNonEmpty(b, k) <= MAX_ORDER
    ensures q == b.lists[FirstNonEmpty(b, k)][0] + Pow2(k) && Covered(Listed(b) + out, q)
    ensures var (c, r) := Alloc(b, k);
            r.Some? && !Covered(Listed(c) + (out + {Block(r.value, k)}), q)
  {
    AllocSafe(b, out, k);
    var (c, r) := Alloc(b, k);
    var j := FirstNonEmpty(b, k);
    var f := b.lists[j][0];
    TakeHead(b, out, j, k);
    Pow2Monotone(k, j);
    var h, x := Block(f, j), Block(f, k);
    q := f + Pow2(k);
    assert h in Listed(b) + out && Covers(h, q);
    forall y | y in Listed(c) + (out + {x}) ensures !Covers(y, q) {
      if y != x {
        assert y in Listed(b) + out && y != h;
      }
    }
  }

  /** As written, an allocation conserves the frames exactly when the order found is the order
      asked for. */
  lemma AllocConservesIffExact(b: Buddy, out: set<Block>, k: nat)
    requires Safe(b, out) && k <= MAX_ORDER
    requires ListsOk(b) && Alloc(b, k).1.Some?
    ensures var (c, r) := Alloc(b, k);
            (forall q | Covered(Listed(b) + out, q) :: Covered(Listed(c) + (out + {Block(r.value, k)}), q))
            <==> FirstNonEmpty(b, k) == k
  {
    var (c, r) := Alloc(b, k);
    if FirstNonEmpty(b, k) == k {
      TakeHead(b, out, k, k);
      forall q | Covered(Listed(b) + out, q) ensures Covered(Listed(c) + (out + {Block(r.value, k)}), q) {
        var y :| y in Listed(b) + out && Covers(y, q);
        assert y in Listed(c) + (out + {Block(r.value, k)});
      }
    } else {
      var q := AllocDropsTail(b, out, k);
    }
  }
}
