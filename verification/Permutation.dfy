/** What the Fisher-Yates loop of mem/vmm.c makes of the numbers of vmm_rand: every permutation, each of
    one sequence of draws. */
module Permutation {
  function NextState(state: nat): nat {
    (state * 1103515245 + 12345) % 0x1_0000_0000_0000_0000
  }

  /** Each number names one of the members that are left, of which there are always one more than
      numbers. */
  ghost predicate InRange(places: seq<nat>) {
    forall k {:trigger places[k]} | 0 <= k < |places| :: places[k] <= |places| - k
  }

  lemma TailInRange(p: seq<nat>)
    requires p != [] && InRange(p)
    ensures InRange(p[1..])
  {
    forall k | 0 <= k < |p| - 1 ensures p[1..][k] <= |p[1..]| - k {
      assert p[1..][k] == p[k + 1];
    }
  }

  lemma InRangeWith(j: nat, rest: seq<nat>)
    requires InRange(rest) && j <= |rest| + 1
    ensures InRange([j] + rest)
  {
    forall k | 0 <= k <= |rest| ensures ([j] + rest)[k] <= |rest| + 1 - k {
      assert k > 0 ==> ([j] + rest)[k] == rest[k - 1];
    }
  }

  /** The places the next `n` numbers of vmm_rand give, the first out of `n + 1`. */
  function Places(state: nat, n: nat): (p: seq<nat>)
    ensures |p| == n && InRange(p)
    decreases n
  {
    if n == 0 then []
    else
      var place := NextState(state) / 65536 % 32768 % (n + 1);
      InRangeWith(place, Places(NextState(state), n - 1));
      [place] + Places(NextState(state), n - 1)
  }

  /** Mentioning Left(n) opens Gives. */
  ghost predicate Left(n: nat) {
    true
  }

  ghost predicate Gives(state: nat, n: nat, places: seq<nat>) {
    forall m: nat {:trigger Left(m)} | Left(m) :: m == n ==> places == Places(state, m)
  }

  lemma FirstPlace(state: nat, n: nat)
    requires n > 0
    ensures Places(state, n)[0] == NextState(state) / 65536 % 32768 % (n + 1)
    ensures Places(state, n)[1..] == Places(NextState(state), n - 1)
  {
  }

  /** `s` without its member at `j`, the last one in that place. */
  ghost function Filled<T>(s: seq<T>, j: nat): (r: seq<T>)
    requires j < |s|
    ensures |r| == |s| - 1
  {
    var n := |s| - 1;
    if j == n then s[..n] else s[..n][j := s[n]]
  }

  /** The permutation the places stand for: the first one is that of the member that comes last, and
      the others rearrange what is left. */
  ghost function Dealt<T>(s: seq<T>, places: seq<nat>): (r: seq<T>)
    requires |places| == |s| - 1 && InRange(places)
    ensures |r| == |s|
    decreases |s|
  {
    if |s| == 1 then s
    else
      TailInRange(places);
      Dealt(Filled(s, places[0]), places[1..]) + [s[places[0]]]
  }

  lemma FilledMembers<T>(s: seq<T>, j: nat)
    requires j < |s|
    ensures multiset(Filled(s, j)) + multiset{s[j]} == multiset(s)
  {
    var n := |s| - 1;
    assert s == s[..n] + [s[n]];
    assert multiset(s) == multiset(s[..n]) + multiset{s[n]};
  }

  lemma {:induction false} DealtPermutes<T>(s: seq<T>, places: seq<nat>)
    requires |places| == |s| - 1 && InRange(places)
    ensures multiset(Dealt(s, places)) == multiset(s)
    decreases |s|
  {
    if |s| > 1 {
      TailInRange(places);
      DealtPermutes(Filled(s, places[0]), places[1..]);
      FilledMembers(s, places[0]);
    }
  }

  lemma Cancel<T>(a: multiset<T>, b: multiset<T>, x: T)
    requires a + multiset{x} == b + multiset{x}
    ensures a == b
  {
    forall y ensures a[y] == b[y] {
      assert (a + multiset{x})[y] == (b + multiset{x})[y];
    }
  }

  /** The place in `s` of the last member of `t`. */
  lemma LastOf<T>(s: seq<T>, t: seq<T>) returns (j: nat)
    requires s != [] && |t| == |s| && multiset(s) == multiset(t)
    ensures j < |s| && s[j] == t[|t| - 1] && multiset(Filled(s, j)) == multiset(t[..|t| - 1])
  {
    var n := |t| - 1;
    assert t == t[..n] + [t[n]];
    assert multiset(t) == multiset(t[..n]) + multiset{t[n]};
    assert t[n] in multiset(s);
    j :| j < |s| && s[j] == t[n];
    FilledMembers(s, j);
    Cancel(multiset(Filled(s, j)), multiset(t[..n]), t[n]);
  }

  lemma Prepended<T>(s: seq<T>, t: seq<T>, j: nat, rest: seq<nat>) returns (places: seq<nat>)
    requires |s| > 1 && |t| == |s| && j < |s| && s[j] == t[|t| - 1]
    requires |rest| == |s| - 2 && InRange(rest) && Dealt(Filled(s, j), rest) == t[..|t| - 1]
    ensures |places| == |s| - 1 && InRange(places) && Dealt(s, places) == t
  {
    places := [j] + rest;
    InRangeWith(j, rest);
    assert places[1..] == rest;
    assert t == t[..|t| - 1] + [s[j]];
  }

  lemma SameLength<T>(s: seq<T>, t: seq<T>)
    requires multiset(s) == multiset(t)
    ensures |s| == |t| && (|s| == 1 ==> s == t)
  {
    assert |multiset(s)| == |multiset(t)|;
    if |s| == 1 {
      assert s[0] in multiset(t);
    }
  }

  /** Every permutation is the one of some places. */
  lemma {:induction false} EveryPermutation<T>(s: seq<T>, t: seq<T>) returns (places: seq<nat>)
    requires s != [] && multiset(s) == multiset(t)
    ensures |places| == |s| - 1 && InRange(places) && Dealt(s, places) == t
    decreases |s|
  {
    SameLength(s, t);
    if |s| == 1 {
      places := [];
    } else {
      var j := LastOf(s, t);
      var rest := EveryPermutation(Filled(s, j), t[..|t| - 1]);
      places := Prepended(s, t, j, rest);
    }
  }

  ghost predicate NoTwice<T>(s: seq<T>) {
    forall i, j {:trigger s[i], s[j]} | 0 <= i < j < |s| :: s[i] != s[j]
  }

  lemma FilledOnce<T>(s: seq<T>, j: nat)
    requires j < |s| && NoTwice(s)
    ensures NoTwice(Filled(s, j))
  {
    var r, n := Filled(s, j), |s| - 1;
    forall a, b | 0 <= a < b < |r| ensures r[a] != r[b] {
      assert s[if a == j then n else a] != s[if b == j then n else b];
    }
  }

  lemma DealtParts<T>(s: seq<T>, places: seq<nat>)
    requires |s| > 1 && |places| == |s| - 1 && InRange(places)
    ensures Dealt(s, places)[|s| - 1] == s[places[0]] && InRange(places[1..])
    ensures Dealt(s, places)[..|s| - 1] == Dealt(Filled(s, places[0]), places[1..])
  {
    TailInRange(places);
  }

  /** And of no two: other places rearrange different members differently. */
  lemma {:induction false} OneWay<T>(s: seq<T>, p: seq<nat>, q: seq<nat>)
    requires NoTwice(s) && |p| == |s| - 1 && |q| == |s| - 1
    requires InRange(p) && InRange(q) && Dealt(s, p) == Dealt(s, q)
    ensures p == q
    decreases |s|
  {
    if |s| > 1 {
      DealtParts(s, p);
      DealtParts(s, q);
      assert p[0] == q[0];
      FilledOnce(s, p[0]);
      OneWay(Filled(s, p[0]), p[1..], q[1..]);
      assert p == [p[0]] + p[1..] && q == [q[0]] + q[1..];
    }
  }

  /** The loop's invariant: what comes out of the first `i + 1` members and the places to come,
      with the members behind them, is `t`. */
  ghost predicate Leads<T>(s: seq<T>, i: nat, places: seq<nat>, t: seq<T>) {
    i < |s| && |places| == i && InRange(places) && Dealt(s[..i + 1], places) + s[i + 1..] == t
  }

  lemma LeadsFirst<T>(s: seq<T>, places: seq<nat>)
    requires |places| == |s| - 1 && InRange(places)
    ensures Leads(s, |s| - 1, places, Dealt(s, places))
  {
    assert s[..|s|] == s;
  }

  lemma LeadsLast<T>(s: seq<T>, places: seq<nat>, t: seq<T>)
    requires Leads(s, 0, places, t)
    ensures s == t
  {
    assert s[..1] + s[1..] == s;
  }

  lemma LeadsOn<T>(s: seq<T>, i: nat, places: seq<nat>, t: seq<T>)
    requires Leads(s, i, places, t) && i > 0
    ensures var j := places[0]; j <= i && Leads(s[i := s[j]][j := s[i]], i - 1, places[1..], t)
  {
    var j := places[0];
    var now, front := s[i := s[j]][j := s[i]], s[..i + 1];
    DealtParts(front, places);
    assert now[..i] == Filled(front, j);
    assert now[i..] == [front[j]] + s[i + 1..];
  }
}
