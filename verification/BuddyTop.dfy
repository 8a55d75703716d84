/** When merging leaves the free lists of mem/pmm.c: there is no test against the largest order. */
module BuddyTop {
  import opened Blocks
  import opened BuddySafety
  import opened BuddySpec
  import opened BuddySplit
  import opened Common

  /** Mentioning Walked(ops) lets the verifier look into IsRun. */
  ghost predicate Walked(ops: seq<Op>) {
    true
  }

  ghost predicate IsRun(states: seq<State>, ops: seq<Op>) {
    |states| == |ops| + 1 &&
    forall o {:trigger Walked(o)} | Walked(o) :: o == ops ==>
      forall i {:trigger ops[i]} | 0 <= i < |ops| :: Step(states[i], ops[i], states[i + 1])
  }

  // ---------------------------------------------------------------- only with a big block

  lemma KeepsOn(b: Buddy, c: Buddy, d: Buddy)
    requires SameAddresses(b, c) && SameAddresses(c, d)
    ensures SameAddresses(b, d)
  {
    forall p: nat | b.InRange(p) ensures d.PageAt(p).address == b.PageAt(p).address {
      assert c.PageAt(p).address == b.PageAt(p).address;
    }
  }

  lemma {:induction false} MergeKeeps(b: Buddy, x: Block)
    requires b.HasLists() && x.order <= MAX_ORDER
    ensures SameAddresses(b, Merge(b, x))
    decreases MAX_ORDER - x.order
  {
    if b.InRange(x.start) && b.Mergeable(x.start, x.order) && x.order < MAX_ORDER {
      MergeKeeps(AfterUnlink(b, x), Doubled(x));
      KeepsOn(b, AfterUnlink(b, x), Merge(b, x));
    }
  }

  lemma StepKeeps(s: State, op: Op, t: State)
    requires Step(s, op, t)
    ensures SameAddresses(s.buddy, t.buddy)
  {
    match op
    case AllocOp(_) =>
    case FreeOp(x) =>
      if s.buddy.InRange(x.start) {
        var c := Released(s.buddy, x.start);
        MergeKeeps(c, Block(s.buddy.PageAt(x.start).address, x.order));
        KeepsOn(s.buddy, c, t.buddy);
      }
  }

  /** No frame is added during a run. */
  lemma {:induction false} RunKeeps(states: seq<State>, ops: seq<Op>, n: nat)
    requires IsRun(states, ops) && n < |states|
    ensures NoBigBlock(states[0].buddy) <==> NoBigBlock(states[n].buddy)
    decreases n
  {
    if n > 0 {
      RunKeeps(states, ops, n - 1);
      assert Walked(ops) && Step(states[n - 1], ops[n - 1], states[n]);
      StepKeeps(states[n - 1], ops[n - 1], states[n]);
      BigBlockKept(states[n - 1].buddy, states[n].buddy);
    }
  }

  /** The run from `b` ends with block `x` in use, and freeing that would merge beyond the largest
      size. */
  ghost predicate TopRun(b: Buddy, states: seq<State>, ops: seq<Op>, x: Block) {
    && IsRun(states, ops) && states[0] == State(b, {})
    && x in states[|ops|].out && AtTop(states[|ops|], x)
  }

  lemma TopNeedsBigBlock(b: Buddy, states: seq<State>, ops: seq<Op>, x: Block)
    requires Started(b) && TopRun(b, states, ops, x)
    ensures !NoBigBlock(b)
  {
    EndIsSafe(b, states, ops);
    TopNeedsBigBlockNow(states[|ops|], x);
    RunKeeps(states, ops, |ops|);
  }

  lemma EndIsSafe(b: Buddy, states: seq<State>, ops: seq<Op>)
    requires Started(b) && IsRun(states, ops) && states[0] == State(b, {})
    ensures Safe(states[|ops|].buddy, states[|ops|].out)
  {
    assert Walked(ops);
    RunIsSafe(states, ops, |ops|);
  }

  lemma TopNeedsBigBlockNow(s: State, x: Block)
    requires Safe(s.buddy, s.out) && x in s.out && AtTop(s, x)
    ensures !NoBigBlock(s.buddy)
  {
    FreeFlight(s.buddy, s.out, x);
    TopMeansBigBlock(Released(s.buddy, x.start), s.out - {x}, x);
    BigBlockKept(s.buddy, Released(s.buddy, x.start));
  }

  // ---------------------------------------------------------------- with a big block, some run

  lemma Joined(states: seq<State>, ops: seq<Op>, states': seq<State>, ops': seq<Op>) returns (all: seq<State>)
    requires IsRun(states, ops) && IsRun(states', ops') && states[|ops|] == states'[0]
    ensures IsRun(all, ops + ops') && all[0] == states[0] && all[|ops + ops'|] == states'[|ops'|]
  {
    assert Walked(ops) && Walked(ops');
    all := states[..|ops|] + states';
    var both := ops + ops';
    forall i | 0 <= i < |both| ensures Step(all[i], both[i], all[i + 1]) {
      if i < |ops| {
        assert Step(states[i], ops[i], states[i + 1]);
      } else {
        assert Step(states'[i - |ops|], ops'[i - |ops|], states'[i - |ops| + 1]);
      }
    }
  }

  lemma OneStep(s: State, op: Op, t: State)
    requires Step(s, op, t)
    ensures IsRun([s, t], [op])
  {
  }

  /** Allocating a frame takes the first of list 0. */
  lemma TakeOne(s: State) returns (t: State)
    requires Safe(s.buddy, s.out) && s.buddy.lists[0] != []
    ensures Step(s, AllocOp(0), t) && Safe(t.buddy, t.out)
    ensures t.out == s.out + {Block(s.buddy.lists[0][0], 0)} && t.buddy.lists[0] == s.buddy.lists[0][1..]
  {
    ListsInRange(s.buddy, s.out);
    AllocSafe(s.buddy, s.out, 0);
    var f := s.buddy.lists[0][0];
    assert Block(f, 0) in Listed(s.buddy) + s.out;
    assert BlockOk(s.buddy, Block(f, 0));
    var (c, r) := Alloc(s.buddy, 0);
    assert r == Some(f);
    t := State(c, s.out + {Block(f, 0)});
  }

  /** Allocating single frames until list 0 is empty. */
  lemma {:induction false} TakeAll(s: State) returns (states: seq<State>, ops: seq<Op>)
    requires Safe(s.buddy, s.out)
    ensures IsRun(states, ops) && states[0] == s && Safe(states[|ops|].buddy, states[|ops|].out)
    ensures s.out <= states[|ops|].out
    ensures forall f | f in s.buddy.lists[0] :: Block(f, 0) in states[|ops|].out
    decreases |s.buddy.lists[0]|
  {
    if s.buddy.lists[0] == [] {
      states, ops := [s], [];
    } else {
      var l := s.buddy.lists[0];
      var t := TakeOne(s);
      var rest, more := TakeAll(t);
      OneStep(s, AllocOp(0), t);
      states := Joined([s, t], [AllocOp(0)], rest, more);
      ops := [AllocOp(0)] + more;
      assert forall f | f in l :: f == l[0] || f in l[1..];
    }
  }

  /** Merging `x` comes to merging `y` out of state `w`. */
  ghost predicate Climbs(b: Buddy, x: Block, w: Buddy, y: Block) {
    && b.HasLists() && x.order <= MAX_ORDER && w.HasLists() && y.order <= MAX_ORDER
    && Merge(b, x) == Merge(w, y) && (ReachesTop(b, x) <==> ReachesTop(w, y))
  }

  /** State `w` differs from `b` at most in the records of block `x`, of which the first is there. */
  ghost predicate Inside(b: Buddy, w: Buddy, x: Block) {
    && w.base == b.base && |w.pages| == |b.pages| && w.lists == b.lists && w.InRange(x.start)
    && forall p: nat {:trigger w.PageAt(p)} | b.InRange(p) && !Covers(x, p) :: w.PageAt(p) == b.PageAt(p)
  }

  /** Mentioning Seen(x) opens the predicates about block x below. */
  ghost predicate Seen(x: Block) {
    true
  }

  /** The state is safe; mentioning Opened(s) lets the verifier look into it. */
  ghost predicate Sound(s: State) {
    forall t {:trigger Opened(t)} | Opened(t) :: t == s ==> Safe(s.buddy, s.out)
  }

  ghost predicate Opened(s: State) {
    true
  }

  /** All frames of the block are in use, each on its own. */
  ghost predicate SinglesOut(s: State, x: Block) {
    forall y {:trigger Seen(y)} | Seen(y) :: y == x ==>
      Sound(s) && s.buddy.HasLists() && forall q: nat {:trigger Block(q, 0)} | Covers(x, q) :: Block(q, 0) in s.out
  }

  /** What is in use outside the block stays so. */
  ghost predicate OthersOut(s: State, u: State, x: Block) {
    forall z {:trigger Seen(z)} | Seen(z) :: z == x ==> forall y | y in s.out && Disjoint(x, y) :: y in u.out
  }

  ghost predicate LastOut(u: State, last: nat) {
    && Sound(u) && Block(last, 0) in u.out
    && u.buddy.HasLists() && u.buddy.InRange(last) && u.buddy.PageAt(last).address == last
  }

  /** The frames of block `x` have been freed in order, all but the last: freeing that as well will
      merge them all. */
  ghost predicate AlmostFreed(s: State, u: State, x: Block, w: Buddy) {
    forall y {:trigger Seen(y)} | Seen(y) :: y == x ==>
      var last := End(x) - 1;
      && LastOut(u, last) && OthersOut(s, u, x) && Inside(s.buddy, w, x) && Climbs(Released(u.buddy, last), Block(last, 0), w, x)
  }

  /** The step that frees the last frame, when the buddy of the block is not free. */
  lemma FreeLast(s: State, u: State, x: Block, w: Buddy) returns (v: State)
    requires x.order <= MAX_ORDER && AlmostFreed(s, u, x, w) && !w.Mergeable(x.start, x.order)
    ensures Step(u, FreeOp(Block(End(x) - 1, 0)), v) && Sound(v) && v.buddy.HasLists()
    ensures w.HasLists() && w.InRange(x.start) && v.buddy == Pushed(w, x) && v.out == u.out - {Block(End(x) - 1, 0)}
  {
    assert Seen(x) && Opened(u);
    var last := Block(End(x) - 1, 0);
    ListsInRange(u.buddy, u.out);
    v := State(Pushed(w, x), u.out - {last});
    StepSafe(u, FreeOp(last), v);
  }

  /** State `b` differs from `s` in the records of block (m, k + 1), whose lower half is free and at
      the head of its list. */
  ghost predicate HalfInside(s: Buddy, b: Buddy, m: nat, k: nat)
    requires k <= MAX_ORDER
  {
    && b.base == s.base && |b.pages| == |s.pages| && s.HasLists() && b.lists == s.lists[k := [m] + s.lists[k]]
    && b.InRange(m) && b.PageAt(m).isFree && b.PageAt(m).order == k && b.InRange(m + Pow2(k))
    && forall p: nat {:trigger b.PageAt(p)} | b.InRange(p) && !Covers(Block(m, k + 1), p) :: b.PageAt(p) == s.PageAt(p)
  }

  /** The lower half of block (m, k + 1) has become one free block, and all but the last frame of the
      upper half `h` have been freed: freeing that as well will come to merging the upper half. */
  ghost predicate HalfFreed(s: State, u: State, m: nat, k: nat, b: Buddy)
    requires k <= MAX_ORDER
  {
    forall x {:trigger Seen(x)} | Seen(x) :: x == Block(m, k + 1) ==>
      var h, last := Block(m + Pow2(k), k), End(x) - 1;
      && LastOut(u, last) && OthersOut(s, u, x) && Climbs(Released(u.buddy, last), Block(last, 0), b, h)
      && HalfInside(s.buddy, b, m, k)
  }

  /** Freeing the frames of an aligned block in order, all but the last. */
  lemma {:induction false} FreeAll(s: State, m: nat, k: nat) returns (states: seq<State>, ops: seq<Op>, w: Buddy)
    requires k <= MAX_ORDER && Aligned(m, k) && SinglesOut(s, Block(m, k))
    ensures IsRun(states, ops) && states[0] == s
    ensures AlmostFreed(s, states[|ops|], Block(m, k), w)
    decreases k, 0
  {
    if k == 0 {
      OneFrame(s, m);
      states, ops, w := [s], [], Released(s.buddy, m);
    } else {
      var b;
      states, ops, b := FreeHalves(s, m, k - 1);
      w := BothMerged(s, states[|ops|], m, k - 1, b);
    }
  }

  lemma OneFrame(s: State, m: nat)
    requires SinglesOut(s, Block(m, 0))
    ensures s.buddy.InRange(m) && AlmostFreed(s, s, Block(m, 0), Released(s.buddy, m))
  {
    assert Seen(Block(m, 0)) && Opened(s);
    assert Covers(Block(m, 0), m) && Block(m, 0) in Listed(s.buddy) + s.out;
    assert BlockOk(s.buddy, Block(m, 0));
  }

  /** The upper half merges with the lower. */
  lemma BothMerged(s: State, u: State, m: nat, k: nat, b: Buddy) returns (w: Buddy)
    requires k < MAX_ORDER && Aligned(m, k + 1) && HalfFreed(s, u, m, k, b)
    ensures AlmostFreed(s, u, Block(m, k + 1), w)
  {
    assert Seen(Block(m, k + 1));
    w := MergedInside(s.buddy, b, m, k);
  }

  lemma MergedInside(s: Buddy, b: Buddy, m: nat, k: nat) returns (w: Buddy)
    requires k < MAX_ORDER && Aligned(m, k + 1) && HalfInside(s, b, m, k)
    ensures Inside(s, w, Block(m, k + 1)) && Climbs(b, Block(m + Pow2(k), k), w, Block(m, k + 1))
  {
    Halves(m, k);
    var h := Block(m + Pow2(k), k);
    w := AfterUnlink(b, h);
    assert Doubled(h) == Block(m, k + 1);
    assert Unlink(b.lists[k], m) == b.lists[k][1..] == s.lists[k];
    assert w.lists == s.lists;
    assert b.Mergeable(h.start, k);
    forall p: nat | s.InRange(p) && !Covers(Block(m, k + 1), p) ensures w.PageAt(p) == s.PageAt(p) {
      assert w.PageAt(p) == b.PageAt(p);
    }
  }

  lemma LowerSingles(s: State, m: nat, k: nat)
    requires SinglesOut(s, Block(m, k + 1))
    ensures SinglesOut(s, Block(m, k)) && s.buddy.HasLists()
  {
    assert Seen(Block(m, k + 1));
    forall q: nat | Covers(Block(m, k), q) ensures Block(q, 0) in s.out {
      assert Covers(Block(m, k + 1), q);
    }
  }

  /** The buddy of the lower half is in use. */
  lemma UpperInUse(s: State, u: State, m: nat, k: nat, w: Buddy)
    requires k <= MAX_ORDER && Aligned(m, k + 1) && SinglesOut(s, Block(m, k + 1)) && AlmostFreed(s, u, Block(m, k), w)
    ensures !w.Mergeable(m, k)
  {
    assert Seen(Block(m, k + 1)) && Seen(Block(m, k));
    Halves(m, k);
    var h := m + Pow2(k);
    assert Covers(Block(m, k + 1), h) && !Covers(Block(m, k), h);
    InUse(s, h);
  }

  lemma InUse(s: State, q: nat)
    requires Sound(s) && Block(q, 0) in s.out
    ensures s.buddy.InRange(q) && !s.buddy.PageAt(q).isFree
  {
    assert Opened(s);
  }

  /** The lower half is freed and does not merge with the upper. */
  lemma LowerHalf(s: State, u: State, m: nat, k: nat, w: Buddy) returns (states: seq<State>, ops: seq<Op>)
    requires k <= MAX_ORDER && Aligned(m, k + 1) && SinglesOut(s, Block(m, k + 1)) && AlmostFreed(s, u, Block(m, k), w)
    ensures IsRun(states, ops) && |ops| == 1 && states[0] == u
    ensures w.HasLists() && w.InRange(m) && states[1].buddy == Pushed(w, Block(m, k))
    ensures SinglesOut(states[1], Block(m + Pow2(k), k)) && OthersOut(s, states[1], Block(m, k + 1))
  {
    UpperInUse(s, u, m, k, w);
    var v := FreeLast(s, u, Block(m, k), w);
    OneStep(u, FreeOp(Block(End(Block(m, k)) - 1, 0)), v);
    states, ops := [u, v], [FreeOp(Block(End(Block(m, k)) - 1, 0))];
    StillOut(s, u, v, m, k, w);
  }

  lemma StillOut(s: State, u: State, v: State, m: nat, k: nat, w: Buddy)
    requires Sound(v) && v.buddy.HasLists() && SinglesOut(s, Block(m, k + 1)) && AlmostFreed(s, u, Block(m, k), w)
    requires v.out == u.out - {Block(m + Pow2(k) - 1, 0)}
    ensures SinglesOut(v, Block(m + Pow2(k), k)) && OthersOut(s, v, Block(m, k + 1))
  {
    var x, h := Block(m, k), Block(m + Pow2(k), k);
    assert Seen(Block(m, k + 1)) && Seen(x);
    forall q: nat | Covers(h, q) ensures Block(q, 0) in v.out {
      assert Covers(Block(m, k + 1), q) && Block(q, 0) in s.out && Disjoint(x, Block(q, 0));
    }
    forall y | y in s.out && Disjoint(Block(m, k + 1), y) ensures y in v.out {
      assert Disjoint(x, y);
    }
  }

  lemma {:induction false} FreeHalves(s: State, m: nat, k: nat) returns (states: seq<State>, ops: seq<Op>, b: Buddy)
    requires k <= MAX_ORDER && Aligned(m, k + 1) && SinglesOut(s, Block(m, k + 1))
    ensures IsRun(states, ops) && states[0] == s
    ensures HalfFreed(s, states[|ops|], m, k, b)
    decreases k, 1
  {
    Halves(m, k);
    LowerSingles(s, m, k);
    var first, ops1, w := FreeAll(s, m, k);
    var mid, op := LowerHalf(s, first[|ops1|], m, k, w);
    var last, ops2;
    last, ops2, b := FreeAll(mid[1], m + Pow2(k), k);
    states := Joined(first, ops1, mid, op);
    states := Joined(states, ops1 + op, last, ops2);
    ops := ops1 + op + ops2;
    UpperHalf(s, first[|ops1|], mid[1], last[|ops2|], m, k, w, b);
  }

  lemma UpperHalf(s: State, t: State, v: State, u: State, m: nat, k: nat, w: Buddy, b: Buddy)
    requires k <= MAX_ORDER && s.buddy.HasLists() && AlmostFreed(s, t, Block(m, k), w)
    requires w.HasLists() && w.InRange(m) && v.buddy == Pushed(w, Block(m, k))
    requires OthersOut(s, v, Block(m, k + 1)) && AlmostFreed(v, u, Block(m + Pow2(k), k), b)
    ensures HalfFreed(s, u, m, k, b)
  {
    InsideOf(s, t, Block(m, k), w);
    assert Seen(Block(m + Pow2(k), k)) && End(Block(m, k + 1)) == End(Block(m + Pow2(k), k));
    OthersThrough(s, v, u, m, k);
    InsideBoth(s.buddy, w, b, m, k);
  }

  lemma InsideOf(s: State, u: State, x: Block, w: Buddy)
    requires AlmostFreed(s, u, x, w)
    ensures Inside(s.buddy, w, x)
  {
    assert Seen(x);
  }

  lemma OthersThrough(s: State, v: State, u: State, m: nat, k: nat)
    requires OthersOut(s, v, Block(m, k + 1)) && OthersOut(v, u, Block(m + Pow2(k), k))
    ensures OthersOut(s, u, Block(m, k + 1))
  {
    assert Seen(Block(m, k + 1)) && Seen(Block(m + Pow2(k), k));
    forall y | y in s.out && Disjoint(Block(m, k + 1), y) ensures y in u.out {
      assert Disjoint(Block(m + Pow2(k), k), y);
    }
  }

  lemma TwoHalves(m: nat, k: nat, p: nat)
    ensures Covers(Block(m, k + 1), p) <==> Covers(Block(m, k), p) || Covers(Block(m + Pow2(k), k), p)
    ensures !Covers(Block(m + Pow2(k), k), m)
  {
  }

  lemma PageThrough(s: Buddy, w: Buddy, b: Buddy, m: nat, k: nat, p: nat)
    requires k <= MAX_ORDER && s.HasLists() && Inside(s, w, Block(m, k))
    requires Inside(Pushed(w, Block(m, k)), b, Block(m + Pow2(k), k)) && b.InRange(p)
    ensures !Covers(Block(m, k + 1), p) ==> b.PageAt(p) == s.PageAt(p)
    ensures p == m ==> b.PageAt(p).isFree && b.PageAt(p).order == k
  {
    TwoHalves(m, k, p);
    var v := Pushed(w, Block(m, k));
    assert !Covers(Block(m + Pow2(k), k), p) ==> b.PageAt(p) == v.PageAt(p);
    assert !Covers(Block(m, k), p) ==> p != m && v.PageAt(p) == w.PageAt(p) == s.PageAt(p);
  }

  lemma InsideBoth(s: Buddy, w: Buddy, b: Buddy, m: nat, k: nat)
    requires k <= MAX_ORDER && s.HasLists() && Inside(s, w, Block(m, k))
    requires Inside(Pushed(w, Block(m, k)), b, Block(m + Pow2(k), k))
    ensures HalfInside(s, b, m, k)
  {
    forall p: nat | b.InRange(p) && !Covers(Block(m, k + 1), p) ensures b.PageAt(p) == s.PageAt(p) {
      PageThrough(s, w, b, m, k, p);
    }
    PageThrough(s, w, b, m, k, m);
  }

  /** Where an aligned block of twice the largest size has been added, all frames can be allocated,
      and those of the block freed one by one: the last free merges beyond the largest size. */
  lemma BigBlockReachesTop(b: Buddy, m: nat) returns (states: seq<State>, ops: seq<Op>, x: Block)
    requires Started(b) && IsBigBlock(b, m)
    ensures TopRun(b, states, ops, x)
  {
    var s := State(b, {});
    StartedIsSafe(b);
    var first, ops1 := TakeAll(s);
    var t := first[|ops1|];
    AllOut(b, m, t);
    var last, ops2, w := FreeHalves(t, m, MAX_ORDER);
    states := Joined(first, ops1, last, ops2);
    ops := ops1 + ops2;
    x := Block(End(Block(m, MAX_ORDER + 1)) - 1, 0);
    HalvesReachTop(t, last[|ops2|], m, w);
  }

  lemma HalvesReachTop(s: State, u: State, m: nat, w: Buddy)
    requires Aligned(m, MAX_ORDER + 1) && HalfFreed(s, u, m, MAX_ORDER, w)
    ensures var x := Block(End(Block(m, MAX_ORDER + 1)) - 1, 0); x in u.out && AtTop(u, x)
  {
    assert Seen(Block(m, MAX_ORDER + 1));
    UpperAtTop(s.buddy, w, m);
  }

  lemma UpperAtTop(s: Buddy, w: Buddy, m: nat)
    requires Aligned(m, MAX_ORDER + 1) && HalfInside(s, w, m, MAX_ORDER)
    ensures w.HasLists() && ReachesTop(w, Block(m + Pow2(MAX_ORDER), MAX_ORDER))
  {
    Halves(m, MAX_ORDER);
  }

  lemma AllOut(b: Buddy, m: nat, t: State)
    requires Started(b) && IsBigBlock(b, m) && Safe(t.buddy, t.out)
    requires forall f | f in b.lists[0] :: Block(f, 0) in t.out
    ensures SinglesOut(t, Block(m, MAX_ORDER + 1))
  {
    forall q: nat | Covers(Block(m, MAX_ORDER + 1), q) ensures Block(q, 0) in t.out {
      assert Added(b, q) && q in b.lists[0];
    }
  }

  /** Some run from start-up comes to a free that merges beyond the largest size if and only if an
      aligned block of twice that size has been added. */
  lemma TopIff(b: Buddy)
    requires Started(b)
    ensures (exists states, ops, x :: TopRun(b, states, ops, x)) <==> !NoBigBlock(b)
  {
    if states, ops, x :| TopRun(b, states, ops, x) {
      TopNeedsBigBlock(b, states, ops, x);
    }
    if m: nat :| IsBigBlock(b, m) {
      var states, ops, x := BigBlockReachesTop(b, m);
    }
  }
}
