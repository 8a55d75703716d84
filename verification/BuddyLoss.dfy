/** A run of the page allocator that loses a frame. */
module BuddyLoss {
  import opened Blocks
  import opened BuddySafety
  import opened BuddySpec
  import opened BuddySplit
  import opened Common

  /** An allocator of the two frames `p` and `p + 1`, with records `a` and `b`; `l0` and `l1`
      are its free lists of orders 0 and 1, and the others are empty. */
  function Two(p: nat, a: Page, b: Page, l0: seq<nat>, l1: seq<nat>): Buddy {
    Buddy(p, [a, b], [l0, l1, [], [], [], [], [], [], [], [], []])
  }

  /** The buddies of the two frames, and of the block they form. */
  lemma Buddies(p: nat)
    requires p % 2 == 0
    ensures BuddyOf(p, 0) == p + 1 && BuddyOf(p + 1, 0) == p
    ensures !(p <= BuddyOf(p, 1) < p + 2)
  {
  }

  lemma TakesFirst(p: nat, b: Page)
    ensures Step(State(Two(p, Page(p, 0, true), b, [p, p + 1], []), {}), AllocOp(0),
                 State(Two(p, Page(p, 0, false), b, [p + 1], []), {Block(p, 0)}))
  {
    var s := Two(p, Page(p, 0, true), b, [p, p + 1], []);
    assert s.SetList(0, s.lists[0][1..]).SetPage(p, Page(p, 0, false)) == Two(p, Page(p, 0, false), b, [p + 1], []);
    assert {} + {Block(p, 0)} == {Block(p, 0)};
  }

  lemma TakesSecond(p: nat, a: Page, x: Block)
    ensures Step(State(Two(p, a, Page(p + 1, 0, true), [p + 1], []), {x}), AllocOp(0),
                 State(Two(p, a, Page(p + 1, 0, false), [], []), {x, Block(p + 1, 0)}))
  {
    var s := Two(p, a, Page(p + 1, 0, true), [p + 1], []);
    assert s.SetList(0, s.lists[0][1..]).SetPage(p + 1, Page(p + 1, 0, false)) == Two(p, a, Page(p + 1, 0, false), [], []);
    assert {x} + {Block(p + 1, 0)} == {x, Block(p + 1, 0)};
  }

  lemma FreesSecond(p: nat)
    requires p % 2 == 0
    ensures Step(State(Two(p, Page(p, 0, false), Page(p + 1, 0, false), [], []), {Block(p, 0), Block(p + 1, 0)}),
                 FreeOp(Block(p + 1, 0)),
                 State(Two(p, Page(p, 0, false), Page(p + 1, 0, true), [p + 1], []), {Block(p, 0)}))
  {
    Buddies(p);
    var s := Two(p, Page(p, 0, false), Page(p + 1, 0, false), [], []);
    var r := Released(s, p + 1);
    assert r == Two(p, Page(p, 0, false), Page(p + 1, 0, true), [], []);
    assert r.pages[0] == Page(p, 0, false) && !r.Mergeable(p + 1, 0);
    assert [p + 1] + r.lists[0] == [p + 1];
    assert Pushed(r, Block(p + 1, 0)) == Two(p, Page(p, 0, false), Page(p + 1, 0, true), [p + 1], []);
    assert {Block(p, 0), Block(p + 1, 0)} - {Block(p + 1, 0)} == {Block(p, 0)};
  }

  /** The second free merges the frames into a block of order 1. */
  lemma MergesFirst(p: nat)
    requires p % 2 == 0
    ensures var s := Two(p, Page(p, 0, false), Page(p + 1, 0, true), [p + 1], []);
            && !ReachesTop(Released(s, p), Block(p, 0))
            && Free(s, p, 0) == Two(p, Page(p, 1, true), Page(p + 1, 0, true), [], [p])
  {
    Buddies(p);
    var s := Two(p, Page(p, 0, false), Page(p + 1, 0, true), [p + 1], []);
    var r := Released(s, p);
    assert r == Two(p, Page(p, 0, true), Page(p + 1, 0, true), [p + 1], []);
    assert r.pages[1] == Page(p + 1, 0, true) && r.Mergeable(p, 0);
    assert Unlink(r.lists[0], p + 1) == [];
    var u := AfterUnlink(r, Block(p, 0));
    assert u == Two(p, Page(p, 0, true), Page(p + 1, 0, true), [], []);
    assert Doubled(Block(p, 0)) == Block(p, 1);
    assert !u.Mergeable(p, 1) && [p] + u.lists[1] == [p];
    assert Merge(r, Block(p, 0)) == Merge(u, Block(p, 1)) == Pushed(u, Block(p, 1));
    assert Pushed(u, Block(p, 1)) == Two(p, Page(p, 1, true), Page(p + 1, 0, true), [], [p]);
  }

  lemma FreesFirst(p: nat)
    requires p % 2 == 0
    ensures Step(State(Two(p, Page(p, 0, false), Page(p + 1, 0, true), [p + 1], []), {Block(p, 0)}), FreeOp(Block(p, 0)),
                 State(Two(p, Page(p, 1, true), Page(p + 1, 0, true), [], [p]), {}))
  {
    MergesFirst(p);
    assert {Block(p, 0)} - {Block(p, 0)} == {};
  }

  /** That block serves a request for one frame, and its other half is on no list. */
  lemma TakesWhole(p: nat)
    ensures Step(State(Two(p, Page(p, 1, true), Page(p + 1, 0, true), [], [p]), {}), AllocOp(0),
                 State(Two(p, Page(p, 0, false), Page(p + 1, 0, true), [], []), {Block(p, 0)}))
  {
    var s := Two(p, Page(p, 1, true), Page(p + 1, 0, true), [], [p]);
    assert s.lists[0] == [] && s.lists[1] == [p];
    assert FirstNonEmpty(s, 0) == FirstNonEmpty(s, 1) == 1;
    assert s.SetList(1, s.lists[1][1..]).SetPage(p, Page(p, 0, false)) == Two(p, Page(p, 0, false), Page(p + 1, 0, true), [], []);
    assert {} + {Block(p, 0)} == {Block(p, 0)};
  }

  lemma TwoStarted(p: nat)
    requires p > 0
    ensures Started(Two(p, Page(p, 0, true), Page(p + 1, 0, true), [p, p + 1], []))
  {
  }

  /** Two frames that are buddies: both allocated, both freed, one allocated.  The frame that
      was free at start-up is then neither free nor in use. */
  lemma FrameLost(p: nat) returns (states: seq<State>, ops: seq<Op>)
    requires p > 0 && p % 2 == 0
    ensures |states| == |ops| + 1 && Started(states[0].buddy) && states[0].out == {}
    ensures forall i | 0 <= i < |ops| :: Step(states[i], ops[i], states[i + 1])
    ensures Covered(Listed(states[0].buddy), p + 1)
    ensures var last := states[|ops|];
            !Covered(Listed(last.buddy) + last.out, p + 1)
  {
    var x, y := Block(p, 0), Block(p + 1, 0);
    var s0 := State(Two(p, Page(p, 0, true), Page(p + 1, 0, true), [p, p + 1], []), {});
    var s1 := State(Two(p, Page(p, 0, false), Page(p + 1, 0, true), [p + 1], []), {x});
    var s2 := State(Two(p, Page(p, 0, false), Page(p + 1, 0, false), [], []), {x, y});
    var s4 := State(Two(p, Page(p, 1, true), Page(p + 1, 0, true), [], [p]), {});
    var s5 := State(Two(p, Page(p, 0, false), Page(p + 1, 0, true), [], []), {x});
    TwoStarted(p);
    states, ops := [s0, s1, s2, s1, s4, s5], [AllocOp(0), AllocOp(0), FreeOp(y), FreeOp(x), AllocOp(0)];
    forall i | 0 <= i < |ops| ensures Step(states[i], ops[i], states[i + 1]) {
      if i == 0 {
        TakesFirst(p, Page(p + 1, 0, true));
      } else if i == 1 {
        TakesSecond(p, Page(p, 0, false), x);
      } else if i == 2 {
        FreesSecond(p);
      } else if i == 3 {
        FreesFirst(p);
      } else {
        TakesWhole(p);
      }
    }
    assert y in Listed(s0.buddy) && Covers(y, p + 1);
    assert Listed(s5.buddy) == {};
  }
}
