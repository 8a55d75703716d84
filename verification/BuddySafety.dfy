/** Every run of single-block allocations and matching frees keeps the blocks apart. */
module BuddySafety {
  import opened Blocks
  import opened BuddySpec
  import opened Common

  lemma {:induction false} UnlinkElements(l: seq<nat>, g: nat)
    requires NoDup(l)
    ensures NoDup(Unlink(l, g))
    ensures forall f :: f in Unlink(l, g) <==> f in l && f != g
  {
    if l != [] {
      assert NoDup(l[1..]);
      UnlinkElements(l[1..], g);
      assert forall f :: f in l <==> f == l[0] || f in l[1..];
      assert l[0] !in l[1..];
    }
  }

  /** A mergeable buddy either is on its free list or touches no live block at all. */
  lemma BuddyIsListedOrUnowned(b: Buddy, out: set<Block>, x: Block, y: Block)
    requires InFlight(b, out, x) && b.Mergeable(x.start, x.order)
    requires y in Listed(b) + out
    ensures var g := Block(BuddyOf(x.start, x.order), x.order); y == g || Disjoint(g, y)
    ensures y == Block(BuddyOf(x.start, x.order), x.order) ==> y in Listed(b)
  {
    var f, k := x.start, x.order;
    var g := Block(BuddyOf(f, k), k);
    assert Described(b, g.start) == g && FlagOk(b, Listed(b) + out + {x}, g.start);
    BuddyHalves(f, k);
    var m := Block(Min(f, g.start), k + 1);
    assert y in Listed(b) + out + {x} && x in Listed(b) + out + {x} && Disjoint(x, y);
    if y != g && Within(g, y) {
      if y.order < k {
        Pow2Monotone(y.order, k);
      } else if y.order > k {
        DisjointOrNested(m, y);
      }
    }
  }

  lemma DoubledIsBoth(x: Block)
    requires Aligned(x.start, x.order)
    ensures var g := Block(BuddyOf(x.start, x.order), x.order);
            && Aligned(Doubled(x).start, Doubled(x).order)
            && Aligned(g.start, g.order)
            && Disjoint(x, g) && Within(x, Doubled(x)) && Within(g, Doubled(x))
            && (Doubled(x).start == x.start || Doubled(x).start == g.start)
            && forall q | Covers(Doubled(x), q) :: Covers(x, q) || Covers(g, q)
  {
    var f, g, m := x.start, BuddyOf(x.start, x.order), Doubled(x).start;
    BuddyHalves(f, x.order);
    assert m in {f, g} && m + Pow2(x.order) in {f, g};
  }

  /** Frames keep what has been added as long as no record changes its address. */
  ghost predicate SameAddresses(b: Buddy, c: Buddy) {
    && c.base == b.base && |c.pages| == |b.pages|
    && forall p: nat {:trigger c.PageAt(p)} | b.InRange(p) :: c.PageAt(p).address == b.PageAt(p).address
  }

  lemma OkKept(b: Buddy, c: Buddy)
    requires SameAddresses(b, c)
    ensures forall q: nat {:trigger Added(c, q)} :: Added(c, q) <==> Added(b, q)
    ensures forall y: Block {:trigger BlockOk(c, y)} | BlockOk(b, y) :: BlockOk(c, y)
  {
    forall y: Block | BlockOk(b, y) ensures BlockOk(c, y) {
      forall q: nat | Covers(y, q) ensures Added(c, q) {
        assert Added(b, q);
      }
    }
  }

  /** A flagged record meets the doubled block only from inside. */
  lemma FlagSurvivesDoubling(b: Buddy, out: set<Block>, x: Block, p: nat)
    requires InFlight(b, out, x) && b.Mergeable(x.start, x.order)
    requires b.InRange(p) && b.PageAt(p).isFree
    ensures Disjoint(Described(b, p), Doubled(x)) || Within(Described(b, p), Doubled(x))
  {
    var d := Described(b, p);
    var g := Block(BuddyOf(x.start, x.order), x.order);
    var live := Listed(b) + out + {x};
    DoubledIsBoth(x);
    assert x in live && FlagOk(b, live, p);
    if d.order <= x.order {
      DisjointOrNested(d, g);
    } else {
      DisjointOrNested(g, d);
      DisjointOrNested(Doubled(x), d);
    }
  }

  lemma DoubledSeparate(b: Buddy, out: set<Block>, x: Block, y: Block)
    requires InFlight(b, out, x) && b.Mergeable(x.start, x.order)
    requires y in Listed(b) + out && y != Block(BuddyOf(x.start, x.order), x.order)
    ensures Disjoint(Doubled(x), y)
  {
    var live := Listed(b) + out + {x};
    BuddyIsListedOrUnowned(b, out, x, y);
    DoubledIsBoth(x);
    assert y in live && x in live && y != x;
    assert Disjoint(x, y) && Disjoint(Block(BuddyOf(x.start, x.order), x.order), y);
  }

  /** A block and its mergeable buddy form a block of added frames. */
  lemma DoubledAdded(b: Buddy, out: set<Block>, x: Block)
    requires InFlight(b, out, x) && b.Mergeable(x.start, x.order)
    ensures AllAdded(b, Doubled(x)) && Aligned(Doubled(x).start, Doubled(x).order)
  {
    var live := Listed(b) + out + {x};
    var g := BuddyOf(x.start, x.order);
    DoubledIsBoth(x);
    assert x in live && FlagOk(b, live, g) && Described(b, g) == Block(g, x.order);
    assert BlockOk(b, x) && BlockOk(b, Block(g, x.order));
    forall q: nat | Covers(Doubled(x), q) ensures Added(b, q) {
      assert Covers(x, q) || Covers(Block(g, x.order), q);
    }
  }

  lemma TopIsBig(b: Buddy, out: set<Block>, x: Block)
    requires InFlight(b, out, x) && x.order == MAX_ORDER && b.Mergeable(x.start, x.order)
    ensures !NoBigBlock(b)
  {
    DoubledAdded(b, out, x);
    assert Doubled(x) == Block(Doubled(x).start, MAX_ORDER + 1);
    assert IsBigBlock(b, Doubled(x).start);
  }

  /** So where no such block of twice the largest size exists, no mergeable buddy exists at the
      top order. */
  lemma NoMergeAtTop(b: Buddy, out: set<Block>, x: Block)
    requires InFlight(b, out, x) && x.order == MAX_ORDER && NoBigBlock(b)
    ensures !b.Mergeable(x.start, x.order)
  {
    if b.Mergeable(x.start, x.order) {
      TopIsBig(b, out, x);
    }
  }

  lemma DoubledOk(b: Buddy, out: set<Block>, x: Block)
    requires InFlight(b, out, x) && b.Mergeable(x.start, x.order) && x.order < MAX_ORDER
    ensures BlockOk(b, Doubled(x))
  {
    var live := Listed(b) + out + {x};
    var g := BuddyOf(x.start, x.order);
    DoubledIsBoth(x);
    DoubledAdded(b, out, x);
    assert x in live && FlagOk(b, live, g) && Described(b, g) == Block(g, x.order);
  }

  /** One merge step: unlink the buddy, continue with the block of twice the size. */
  lemma MergeStep(b: Buddy, out: set<Block>, x: Block)
    requires InFlight(b, out, x) && b.Mergeable(x.start, x.order) && x.order < MAX_ORDER
    ensures InFlight(AfterUnlink(b, x), out, Doubled(x))
    ensures Listed(AfterUnlink(b, x)) == Listed(b) - {Block(BuddyOf(x.start, x.order), x.order)}
  {
    DoubledOk(b, out, x);
    var g := Block(BuddyOf(x.start, x.order), x.order);
    var c, m := AfterUnlink(b, x), Doubled(x);
    UnlinkElements(b.lists[x.order], g.start);
    UnlinkListed(b, x.order, g.start);
    forall y | y in Listed(c) + out ensures y != m && Disjoint(m, y) {
      if y in out {
        assert g !in out;
      }
      DoubledSeparate(b, out, x, y);
    }
    assert m !in Listed(c) && m !in out;
    UnlinkTagged(b, out, x);
    MergeCore(b, out, x);
  }

  lemma MergeStepCovers(b: Buddy, x: Block)
    requires b.HasLists() && x.order <= MAX_ORDER && Aligned(x.start, x.order)
    requires Listed(AfterUnlink(b, x)) == Listed(b) - {Block(BuddyOf(x.start, x.order), x.order)}
    ensures forall q | Covered(Listed(b) + {x}, q) :: Covered(Listed(AfterUnlink(b, x)) + {Doubled(x)}, q)
  {
    DoubledIsBoth(x);
    var after := Listed(AfterUnlink(b, x)) + {Doubled(x)};
    forall q | Covered(Listed(b) + {x}, q) ensures Covered(after, q) {
      var y :| y in Listed(b) + {x} && Covers(y, q);
      assert Doubled(x) in after && (y in after || Covers(Doubled(x), q));
    }
  }

  lemma UnlinkTagged(b: Buddy, out: set<Block>, x: Block)
    requires Tagged(b, out) && x.order <= MAX_ORDER
    requires Listed(AfterUnlink(b, x)) <= Listed(b)
    ensures Tagged(AfterUnlink(b, x), out)
  {
    UnlinkElements(b.lists[x.order], BuddyOf(x.start, x.order));
  }

  lemma MergeCore(b: Buddy, out: set<Block>, x: Block)
    requires InFlight(b, out, x) && b.Mergeable(x.start, x.order) && BlockOk(b, Doubled(x))
    requires Listed(AfterUnlink(b, x)) <= Listed(b)
    requires forall y | y in Listed(AfterUnlink(b, x)) + out :: Disjoint(Doubled(x), y)
    ensures Core(AfterUnlink(b, x), Listed(AfterUnlink(b, x)) + out + {Doubled(x)})
  {
    var c, m := AfterUnlink(b, x), Doubled(x);
    var live := Listed(b) + out + {x};
    var live' := Listed(c) + out + {m};
    assert forall y | y in live' && y != m :: y in live;
    OkKept(b, c);
    forall p | c.InRange(p) ensures FlagOk(c, live', p) {
      assert FlagOk(b, live, p);
      if c.PageAt(p).isFree {
        FlagSurvivesDoubling(b, out, x, p);
        assert Described(c, p) == Described(b, p);
      }
    }
  }

  lemma UnlinkListed(b: Buddy, k: nat, g: nat)
    requires b.HasLists() && k <= MAX_ORDER && NoDup(b.lists[k])
    ensures Listed(b.SetList(k, Unlink(b.lists[k], g))) == Listed(b) - {Block(g, k)}
  {
    var c := b.SetList(k, Unlink(b.lists[k], g));
    UnlinkElements(b.lists[k], g);
    forall y ensures y in Listed(c) <==> y in Listed(b) - {Block(g, k)} {
    }
  }

  /** The last merge step: put the block on its list. */
  lemma PushStep(b: Buddy, out: set<Block>, x: Block)
    requires InFlight(b, out, x)
    ensures Safe(Pushed(b, x), out) && Listed(Pushed(b, x)) == Listed(b) + {x}
  {
    var f, k := x.start, x.order;
    var live := Listed(b) + out + {x};
    assert x in live;
    PushListed(b, f, k);
    assert Listed(Pushed(b, x)) + out == live;
    PushTagged(b, out, x);
    PushCore(b, live, x);
  }

  lemma PushTagged(b: Buddy, out: set<Block>, x: Block)
    requires InFlight(b, out, x) && x in Listed(b) + out + {x}
    requires Listed(Pushed(b, x)) == Listed(b) + {x}
    ensures Tagged(Pushed(b, x), out)
  {
    var live := Listed(b) + out + {x};
    forall y | y in Listed(b) + out ensures y.start != x.start {
      assert y in live && y != x && Disjoint(x, y);
    }
    var c := Pushed(b, x);
    forall k | 0 <= k < |c.lists| ensures NoDup(c.lists[k]) {
      assert NoDup(b.lists[k]);
      assert forall i | 0 <= i < |b.lists[k]| :: Block(b.lists[k][i], k) in Listed(b);
    }
    forall y | y in Listed(c) ensures c.InRange(y.start) && c.PageAt(y.start).isFree && Described(c, y.start) == y {
      assert y == x || y in Listed(b);
    }
  }

  lemma PushCore(b: Buddy, live: set<Block>, x: Block)
    requires Core(b, live) && x in live
    ensures Core(Pushed(b, x), live)
  {
    var c := Pushed(b, x);
    assert BlockOk(b, x);
    OkKept(b, c);
    forall p | c.InRange(p) ensures FlagOk(c, live, p) {
      assert FlagOk(b, live, p);
      if p == x.start {
        assert Described(c, p) == x;
      }
    }
  }

  lemma PushListed(b: Buddy, f: nat, k: nat)
    requires b.HasLists() && k <= MAX_ORDER && b.InRange(f)
    ensures forall p :: Listed(b.SetPage(f, p).SetList(k, [f] + b.lists[k])) == Listed(b) + {Block(f, k)}
  {
    forall p ensures Listed(b.SetPage(f, p).SetList(k, [f] + b.lists[k])) == Listed(b) + {Block(f, k)} {
      var c := b.SetPage(f, p).SetList(k, [f] + b.lists[k]);
      forall y ensures y in Listed(c) <==> y in Listed(b) + {Block(f, k)} {
      }
    }
  }

  /** Merging a returning block reaches a safe state in which everything that was free, and
      the block, is covered by the free lists. */
  lemma {:induction false} MergeSafe(b: Buddy, out: set<Block>, x: Block)
    requires InFlight(b, out, x) && !ReachesTop(b, x)
    ensures Safe(Merge(b, x), out)
    ensures forall q | Covered(Listed(b) + {x}, q) :: Covered(Listed(Merge(b, x)), q)
    decreases MAX_ORDER - x.order
  {
    assert x in Listed(b) + out + {x};
    if b.Mergeable(x.start, x.order) {
      MergeStep(b, out, x);
      MergeSafe(AfterUnlink(b, x), out, Doubled(x));
      MergeStepCovers(b, x);
    } else {
      PushStep(b, out, x);
      assert Merge(b, x) == Pushed(b, x);
    }
  }

  /** Marking an outstanding block free puts it in flight. */
  lemma FreeFlight(b: Buddy, out: set<Block>, x: Block)
    requires Safe(b, out) && x in out
    ensures x.order <= MAX_ORDER && b.InRange(x.start) && b.PageAt(x.start).address == x.start
    ensures var c := Released(b, x.start);
            InFlight(c, out - {x}, x) && Listed(c) == Listed(b)
  {
    var live := Listed(b) + out;
    assert x in live && BlockOk(b, x);
    var c := Released(b, x.start);
    assert Listed(c) == Listed(b);
    assert Listed(c) + (out - {x}) + {x} == live;
    OkKept(b, c);
    forall p | c.InRange(p) ensures FlagOk(c, live, p) {
      assert FlagOk(b, live, p);
      if p == x.start {
        assert Described(c, p) == x;
      }
    }
    forall y | y in out - {x} ensures !c.PageAt(y.start).isFree && Described(c, y.start) == y {
      assert y in live && Disjoint(x, y);
    }
    assert forall y | y in Listed(c) :: c.PageAt(y.start).isFree && Described(c, y.start) == y;
    assert x !in Listed(b);
  }

  /** Freeing an outstanding block is safe, ends its lease, and returns all its frames. */
  lemma FreeSafe(b: Buddy, out: set<Block>, x: Block)
    requires Safe(b, out) && x in out && x.order <= MAX_ORDER && b.InRange(x.start)
    requires !ReachesTop(Released(b, x.start), x)
    ensures Safe(Free(b, x.start, x.order), out - {x})
    ensures forall q | Covered(Listed(b) + {x}, q) :: Covered(Listed(Free(b, x.start, x.order)), q)
  {
    FreeFlight(b, out, x);
    MergeSafe(Released(b, x.start), out - {x}, x);
  }

  /** A merge that comes to the top has found an aligned block of twice the largest size, all of
      whose frames have been added. */
  lemma {:induction false} TopMeansBigBlock(b: Buddy, out: set<Block>, x: Block)
    requires InFlight(b, out, x) && ReachesTop(b, x)
    ensures !NoBigBlock(b)
    decreases MAX_ORDER - x.order
  {
    if x.order < MAX_ORDER {
      MergeStep(b, out, x);
      TopMeansBigBlock(AfterUnlink(b, x), out, Doubled(x));
      OkKept(b, AfterUnlink(b, x));
      BigBlockKept(b, AfterUnlink(b, x));
    } else {
      TopIsBig(b, out, x);
    }
  }

  lemma BigBlockKept(b: Buddy, c: Buddy)
    requires SameAddresses(b, c)
    ensures NoBigBlock(b) <==> NoBigBlock(c)
  {
    OkKept(b, c);
    forall m: nat ensures IsBigBlock(b, m) <==> IsBigBlock(c, m) {
      assert forall q: nat {:trigger Added(b, q)} :: Added(c, q) <==> Added(b, q);
    }
  }

  lemma PopListed(b: Buddy, j: nat)
    requires b.HasLists() && j <= MAX_ORDER && b.lists[j] != [] && NoDup(b.lists[j])
    ensures Listed(b.SetList(j, b.lists[j][1..])) == Listed(b) - {Block(b.lists[j][0], j)}
  {
    var c := b.SetList(j, b.lists[j][1..]);
    var h := b.lists[j][0];
    assert b.lists[j] == [h] + b.lists[j][1..];
    forall y ensures y in Listed(c) <==> y in Listed(b) - {Block(h, j)} {
    }
  }

  lemma ListsInRange(b: Buddy, out: set<Block>)
    requires Tagged(b, out)
    ensures forall j, i | 0 <= j < |b.lists| && 0 <= i < |b.lists[j]| :: b.InRange(b.lists[j][i])
  {
    forall j, i | 0 <= j < |b.lists| && 0 <= i < |b.lists[j]| ensures b.InRange(b.lists[j][i]) {
      assert Block(b.lists[j][i], j) in Listed(b);
    }
  }

  /** Allocation fails exactly when every list from the requested order up is empty.  When it
      succeeds, the block it hands out was the start of a free block and of none in use. */
  lemma AllocSafe(b: Buddy, out: set<Block>, k: nat)
    requires Safe(b, out) && k <= MAX_ORDER
    ensures (ListsInRange(b, out); Alloc(b, k).1 == None) <==> forall j | k <= j <= MAX_ORDER :: b.lists[j] == []
    ensures (ListsInRange(b, out);
            var (c, r) := Alloc(b, k);
            match r
            case None => c == b
            case Some(a) =>
              && Safe(c, out + {Block(a, k)})
              && (exists j | k <= j <= MAX_ORDER ::
                   && Block(a, j) in Listed(b) && Listed(c) == Listed(b) - {Block(a, j)}
                   && forall i | k <= i < j :: b.lists[i] == [])
              && forall y | y in out :: Disjoint(Block(a, k), y))
  {
    ListsInRange(b, out);
    var j := FirstNonEmpty(b, k);
    if j <= MAX_ORDER {
      TakeHead(b, out, j, k);
    }
  }

  ghost function Taken(b: Buddy, j: nat, k: nat): Buddy
    requires b.HasLists() && j <= MAX_ORDER && b.lists[j] != [] && b.InRange(b.lists[j][0])
  {
    var f := b.lists[j][0];
    b.SetList(j, b.lists[j][1..]).SetPage(f, b.PageAt(f).(isFree := false, order := k))
  }

  lemma TakeHead(b: Buddy, out: set<Block>, j: nat, k: nat)
    requires Safe(b, out) && k <= j <= MAX_ORDER && b.lists[j] != [] && b.InRange(b.lists[j][0])
    ensures var f := b.lists[j][0];
            && Safe(Taken(b, j, k), out + {Block(f, k)}) && Block(f, j) in Listed(b)
            && Listed(Taken(b, j, k)) == Listed(b) - {Block(f, j)} && Taken(b, j, k).PageAt(f).address == f
            && forall y | y in out :: Disjoint(Block(f, k), y)
  {
    var f := b.lists[j][0];
    var h, x := Block(f, j), Block(f, k);
    var live := Listed(b) + out;
    assert h in Listed(b) && h in live && h !in out;
    PopListed(b, j);
    assert Listed(Taken(b, j, k)) == Listed(b.SetList(j, b.lists[j][1..]));
    AlignedBelow(f, j, k);
    if k < j {
      Pow2Monotone(k, j);
    }
    assert Within(x, h);
    forall y | y in Listed(b) - {h} + out ensures y.start != f && Disjoint(x, y) {
      assert y in live && y != h && Disjoint(h, y);
    }
    TakeCore(b, live, j, k);
    assert Listed(Taken(b, j, k)) + (out + {x}) == live - {h} + {x};
    TakeTagged(b, out, j, k);
  }

  lemma TakeTagged(b: Buddy, out: set<Block>, j: nat, k: nat)
    requires Tagged(b, out) && k <= j <= MAX_ORDER && b.lists[j] != [] && b.InRange(b.lists[j][0])
    requires Listed(Taken(b, j, k)) == Listed(b) - {Block(b.lists[j][0], j)}
    requires forall y | y in Listed(b) - {Block(b.lists[j][0], j)} + out :: y.start != b.lists[j][0]
    ensures Tagged(Taken(b, j, k), out + {Block(b.lists[j][0], k)})
  {
    assert NoDup(b.lists[j][1..]);
    assert forall y | y in Listed(Taken(b, j, k)) + out :: Described(Taken(b, j, k), y.start) == Described(b, y.start);
  }

  lemma TakeCore(b: Buddy, live: set<Block>, j: nat, k: nat)
    requires Core(b, live) && k <= j <= MAX_ORDER && b.lists[j] != [] && b.InRange(b.lists[j][0])
    requires Block(b.lists[j][0], j) in live && Aligned(b.lists[j][0], k)
    requires Within(Block(b.lists[j][0], k), Block(b.lists[j][0], j))
    ensures Core(Taken(b, j, k), live - {Block(b.lists[j][0], j)} + {Block(b.lists[j][0], k)})
  {
    var f := b.lists[j][0];
    var h, x := Block(f, j), Block(f, k);
    var c := Taken(b, j, k);
    var live' := live - {h} + {x};
    assert BlockOk(b, h);
    OkKept(b, c);
    assert forall q: nat | Covers(x, q) :: Covers(h, q);
    assert BlockOk(c, x);
    forall y | y in live' && y != x ensures Disjoint(x, y) && Disjoint(y, x) && y in live {
      assert Disjoint(h, y);
    }
    assert Separated(live');
    forall p | c.InRange(p) ensures FlagOk(c, live', p) {
      assert FlagOk(b, live, p);
      if c.PageAt(p).isFree {
        FlagSurvivesCut(b, live, h, k, p);
      }
    }
  }

  /** Cutting a live block down to its start leaves every other flag harmless. */
  lemma FlagSurvivesCut(b: Buddy, live: set<Block>, h: Block, k: nat, p: nat)
    requires Core(b, live) && h in live && k <= h.order && Aligned(h.start, k)
    requires Within(Block(h.start, k), h)
    requires b.InRange(p) && b.PageAt(p).isFree && p != h.start
    ensures var d := Described(b, p); Disjoint(d, Block(h.start, k)) || Within(d, Block(h.start, k))
  {
    var d, x := Described(b, p), Block(h.start, k);
    assert FlagOk(b, live, p);
    if d.order <= k {
      DisjointOrNested(d, x);
    } else {
      DisjointOrNested(x, d);
    }
  }
}
