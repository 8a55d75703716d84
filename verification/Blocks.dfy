/** Power-of-two blocks of page frames, as mem/pmm.c carves them.  Alignment and the buddy
    of a frame are defined bit by bit, so every proof is a halving of linear arithmetic. */
module Blocks {

  /** `order` blocks starting at frame `start`: the frames start .. start + 2^order - 1. */
  datatype Block = Block(start: nat, order: nat)

  function Pow2(k: nat): (r: nat)
    ensures r >= 1
  {
    if k == 0 then 1 else 2 * Pow2(k - 1)
  }

  /** The low `k` bits of `f` are zero: `f` is a multiple of 2^k. */
  predicate Aligned(f: nat, k: nat) {
    k == 0 || (f % 2 == 0 && Aligned(f / 2, k - 1))
  }

  /** `f` with bit `k` flipped: the exclusive or of mem/pmm.c:584, counted in frames. */
  function BuddyOf(f: nat, k: nat): nat {
    if k == 0 then (if f % 2 == 0 then f + 1 else f - 1)
    else 2 * BuddyOf(f / 2, k - 1) + f % 2
  }

  /** Bit `j` of `f`. */
  predicate Bit(f: nat, j: nat) {
    if j == 0 then f % 2 == 1 else Bit(f / 2, j - 1)
  }

  lemma SmallMultiple(x: int, p: int)
    requires p > 0 && -p < x * p < p
    ensures x == 0
  {
    assert x >= 1 ==> x * p >= p;
    assert x <= -1 ==> x * p <= (-1) * p;
  }

  lemma QuotientIs(f: nat, p: nat, q: nat, r: nat)
    requires p > 0 && f == q * p + r && r < p
    ensures f / p == q && f % p == r
  {
    assert f / p * p + f % p == f;
    var x: int := f / p - q;
    assert x * p == r - f % p;
    SmallMultiple(x, p);
  }

  /** Dividing by twice `p` is halving and dividing by `p`. */
  lemma HalveAndDivide(f: nat, p: nat)
    requires p > 0
    ensures f / (2 * p) == f / 2 / p && f % (2 * p) == 2 * (f / 2 % p) + f % 2
  {
    var q, r := f / 2 / p, f / 2 % p;
    assert f / 2 == q * p + r;
    assert f == q * (2 * p) + (2 * r + f % 2);
    QuotientIs(f, 2 * p, q, 2 * r + f % 2);
  }

  /** Alignment and bits in the usual arithmetic. */
  lemma {:induction false} AlignedMeans(f: nat, k: nat)
    ensures Aligned(f, k) <==> f % Pow2(k) == 0
    decreases k
  {
    if k > 0 {
      AlignedMeans(f / 2, k - 1);
      HalveAndDivide(f, Pow2(k - 1));
    }
  }

  lemma {:induction false} BitMeans(f: nat, j: nat)
    ensures Bit(f, j) <==> f / Pow2(j) % 2 == 1
    decreases j
  {
    if j > 0 {
      BitMeans(f / 2, j - 1);
      HalveAndDivide(f, Pow2(j - 1));
    }
  }

  /** The buddy differs from the frame in bit `k` and in no other. */
  lemma {:induction false} BuddyFlipsOneBit(f: nat, k: nat, j: nat)
    ensures Bit(BuddyOf(f, k), j) == if j == k then !Bit(f, j) else Bit(f, j)
    decreases k
  {
    if k > 0 && j > 0 {
      BuddyFlipsOneBit(f / 2, k - 1, j - 1);
    } else if j > 0 {
      assert BuddyOf(f, k) / 2 == f / 2;
    }
  }

  ghost function End(b: Block): nat {
    b.start + Pow2(b.order)
  }

  ghost predicate Disjoint(a: Block, b: Block) {
    End(a) <= b.start || End(b) <= a.start
  }

  ghost predicate Within(a: Block, b: Block) {
    b.start <= a.start && End(a) <= End(b)
  }

  ghost predicate Covers(b: Block, f: nat) {
    b.start <= f < End(b)
  }

  lemma {:induction false} Pow2Monotone(a: nat, b: nat)
    requires a < b
    ensures 2 * Pow2(a) <= Pow2(b)
    decreases b
  {
    if a + 1 < b {
      Pow2Monotone(a, b - 1);
    }
  }

  /** Two aligned blocks either do not meet or the smaller lies inside the larger. */
  lemma {:induction false} DisjointOrNested(a: Block, b: Block)
    requires Aligned(a.start, a.order) && Aligned(b.start, b.order)
    requires a.order <= b.order
    ensures Disjoint(a, b) || Within(a, b)
    decreases a.order
  {
    if a.order > 0 {
      DisjointOrNested(Block(a.start / 2, a.order - 1), Block(b.start / 2, b.order - 1));
    }
  }

  lemma {:induction false} AlignedBelow(f: nat, k: nat, j: nat)
    requires j <= k && Aligned(f, k)
    ensures Aligned(f, j)
    decreases j
  {
    if j > 0 {
      AlignedBelow(f / 2, k - 1, j - 1);
    }
  }

  /** A block of order k + 1 consists of two blocks of order k, each the other's buddy. */
  lemma {:induction false} Halves(f: nat, k: nat)
    requires Aligned(f, k + 1)
    ensures Aligned(f, k) && Aligned(f + Pow2(k), k)
    ensures BuddyOf(f, k) == f + Pow2(k) && BuddyOf(f + Pow2(k), k) == f
    decreases k
  {
    if k > 0 {
      Halves(f / 2, k - 1);
      assert (f + Pow2(k)) / 2 == f / 2 + Pow2(k - 1);
    }
  }

  /** An aligned block and its buddy are the two halves of one aligned block. */
  lemma {:induction false} BuddyHalves(f: nat, k: nat)
    requires Aligned(f, k)
    ensures Aligned(BuddyOf(f, k), k)
    ensures var m := if f < BuddyOf(f, k) then f else BuddyOf(f, k);
            Aligned(m, k + 1) && {f, BuddyOf(f, k)} == {m, m + Pow2(k)}
    decreases k
  {
    if k > 0 {
      BuddyHalves(f / 2, k - 1);
      var g := BuddyOf(f / 2, k - 1);
      var m := if f / 2 < g then f / 2 else g;
      assert f / 2 in {m, m + Pow2(k - 1)} && g in {m, m + Pow2(k - 1)};
      assert f / 2 != g by {
        assert m in {f / 2, g} && m + Pow2(k - 1) in {f / 2, g};
      }
    }
  }
}
