/** How long a thread in the ready queue can wait (task/sched.c:381-529). */
module SchedFairness {
  import opened Common
  import opened SchedSpec

  lemma QuotientBound(x: nat, m: nat, n: nat)
    requires 0 < n <= m
    ensures (x / m) * n <= x
  {
    var d := x / m;
    assert d * m <= x;
    assert d * n <= d * m;
  }

  lemma {:induction false} MaxWaitBounds(q: seq<Entry>, n: nat, i: nat)
    requires i < n <= |q| && q[i].cls == Normal
    ensures q[i].wait <= MaxWait(q, n)
    decreases n
  {
    if i < n - 1 {
      MaxWaitBounds(q, n - 1, i);
    }
  }

  /** A starved normal thread gains at least one priority point, up to the cap. */
  lemma BoostGains(e: Entry, maxWait: nat)
    requires e.cls == Normal && e.effective <= MAX_PRIORITY
    requires STARVATION_THRESHOLD < e.wait <= maxWait
    ensures var r := Boosted(e, maxWait);
            && r.id == e.id && r.cls == e.cls && r.wait == e.wait
            && r.effective <= MAX_PRIORITY
            && (r.effective > e.effective || r.effective == MAX_PRIORITY)
  {
    QuotientBound((e.wait * BOOST_AMOUNT) % WORD, maxWait, STARVATION_THRESHOLD + 1);
  }

  lemma {:induction false} MaxWaitIsOne(q: seq<Entry>, n: nat) returns (i: nat)
    requires n <= |q| && MaxWait(q, n) > 0
    ensures i < n && q[i].cls == Normal && q[i].wait == MaxWait(q, n)
    decreases n
  {
    if q[n - 1].cls == Normal && q[n - 1].wait == MaxWait(q, n) {
      i := n - 1;
    } else {
      i := MaxWaitIsOne(q, n - 1);
    }
  }

  /** The wait counters are 32-bit words. */
  ghost predicate Words(q: seq<Entry>) {
    forall i {:trigger q[i]} | 0 <= i < |q| :: q[i].wait < WORD
  }

  /** `m` is the longest wait of a normal thread once everyone has waited one call longer. */
  ghost predicate Longest(q: seq<Entry>, m: nat) {
    && (exists i :: 0 <= i < |q| && q[i].cls == Normal && (q[i].wait + 1) % WORD == m)
    && forall i | 0 <= i < |q| && q[i].cls == Normal :: (q[i].wait + 1) % WORD <= m
  }

  /** Everyone waits one call longer; the counters wrap. */
  lemma AgedWait(q: seq<Entry>, i: nat)
    requires Words(q) && i < |q|
    ensures AgedAll(q)[i].wait == (q[i].wait + 1) % WORD && Boost(q)[i].wait == (q[i].wait + 1) % WORD
  {
    BoostSame(q);
  }

  lemma LongestIsMaxWait(q: seq<Entry>, m: nat)
    requires Words(q) && Longest(q, m) && m > 0
    ensures MaxWait(AgedAll(q), |q|) == m
  {
    var a := AgedAll(q);
    var i :| 0 <= i < |q| && q[i].cls == Normal && (q[i].wait + 1) % WORD == m;
    AgedWait(q, i);
    MaxWaitBounds(a, |a|, i);
    var j := MaxWaitIsOne(a, |a|);
    AgedWait(q, j);
  }

  lemma QuotientIs(x: nat, m: nat) returns (b: nat)
    requires m > 0
    ensures b == x / m && b * m <= x < (b + 1) * m
  {
    b := x / m;
    assert b * m + x % m == x;
    assert (b + 1) * m == b * m + m;
  }

  lemma Scaled(a: nat, b: nat, m: nat)
    requires a <= b
    ensures a * m <= b * m
  {
  }

  /** `b` is `x` over `m`, rounded down, and at least one. */
  ghost predicate Share(x: nat, m: nat, b: nat) {
    b >= 1 && x < (b + 1) * m && (b > 1 ==> b * m <= x)
  }

  lemma ShareAtMostFive(x: nat, m: nat, b: nat)
    requires x <= 5 * m && m > 0 && Share(x, m, b)
    ensures b <= 5 && (x == 5 * m ==> b == 5)
  {
    if b > 5 {
      Scaled(6, b, m);
    } else if b < 5 {
      Scaled(b + 1, 5, m);
    }
  }

  lemma BoostIsShare(w: nat, m: nat)
    requires 0 < m
    ensures Share((5 * w) % WORD, m, BoostBy(w, m)) && (5 * w) % WORD <= 5 * w
  {
    var b := QuotientIs((5 * w) % WORD, m);
  }

  /** What sched_boost_starved_threads does to a normal thread when some normal thread has waited
      longer than 1000 calls: one that itself has gains five points in proportion of its wait to
      the longest, and has 255 at most; the one that has waited longest gains five.  Product and
      sum are those of 32-bit words. */
  lemma BoostProportional(q: seq<Entry>, k: nat, m: nat) returns (b: nat)
    requires Words(q) && k < |q| && q[k].cls == Normal && Longest(q, m) && m > 1000
    ensures var w := (q[k].wait + 1) % WORD;
            if w > 1000 then
              && Share((5 * w) % WORD, m, b) && b <= 5 && (w == m && 5 * m < WORD ==> b == 5)
              && Boost(q)[k].effective == Min(255, (q[k].effective + b) % WORD)
            else
              Boost(q)[k].effective == q[k].effective
  {
    LongestIsMaxWait(q, m);
    AgedWait(q, k);
    var w := (q[k].wait + 1) % WORD;
    b := BoostBy(w, m);
    BoostIsShare(w, m);
    ShareAtMostFive((5 * w) % WORD, m, b);
  }

  /** Nobody else changes: no realtime or idle thread, and no one as long as no normal thread has
      waited for more than 1000 calls. */
  lemma BoostLeaves(q: seq<Entry>, k: nat)
    requires Words(q) && k < |q|
    requires q[k].cls != Normal || forall i | 0 <= i < |q| && q[i].cls == Normal :: (q[i].wait + 1) % WORD <= 1000
    ensures Boost(q)[k].effective == q[k].effective
  {
    var a := AgedAll(q);
    if q[k].cls == Normal && MaxWait(a, |a|) > 0 {
      var i := MaxWaitIsOne(a, |a|);
      AgedWait(q, i);
    }
  }

  /** Two normal threads: the one with the lower priority has waited for more than 1000 calls,
      catches up and is selected. */
  lemma CatchesUp(id: nat, other: nat)
    ensures SelectNext([Entry(id, Normal, 10, 1001), Entry(other, Normal, 12, 0)])
         == ([Entry(other, Normal, 12, 1)], Some(Entry(id, Normal, 15, 1002)))
  {
    var q := [Entry(id, Normal, 10, 1001), Entry(other, Normal, 12, 0)];
    assert q[0].cls == Normal && (q[0].wait + 1) % WORD == 1002;
    var b := BoostProportional(q, 0, 1002);
    var b' := BoostProportional(q, 1, 1002);
    BoostSame(q);
    AgedWait(q, 0);
    AgedWait(q, 1);
    assert Boost(q) == [Entry(id, Normal, 15, 1002), Entry(other, Normal, 12, 1)];
    var best := SelectedMeans(q);
    assert best == 0 && RemoveAt(Boost(q), 0) == [Entry(other, Normal, 12, 1)];
  }

  /** Which thread sched_select_next hands out of the aged and boosted queue: a realtime thread if
      there is one, an idle one only if there is no other; of its class the first of those with
      the highest priority.  The others stay in their order. */
  lemma SelectedMeans(q: seq<Entry>) returns (b: nat)
    requires q != []
    ensures b < |q| && SelectNext(q) == (RemoveAt(Boost(q), b), Some(Boost(q)[b]))
    ensures q[b].cls == Realtime || forall i | 0 <= i < |q| :: q[i].cls != Realtime
    ensures q[b].cls == Idle ==> forall i | 0 <= i < |q| :: q[i].cls == Idle
    ensures forall i | 0 <= i < b && q[i].cls == q[b].cls :: Boost(q)[i].effective < Boost(q)[b].effective
    ensures forall i | b <= i < |q| && q[i].cls == q[b].cls :: Boost(q)[i].effective <= Boost(q)[b].effective
  {
    b := Best(Boost(q));
    BoostSame(q);
    var a := Boost(q);
    assert forall i | 0 <= i < |q| :: a[i].cls == q[i].cls && !Better(a[i], a[b]);
    assert forall i | 0 <= i < b :: Better(a[b], a[i]);
  }

  /** Ageing and boosting keep identities and classes. */
  lemma BoostSame(q: seq<Entry>)
    ensures forall i | 0 <= i < |q| :: Boost(q)[i].id == q[i].id && Boost(q)[i].cls == q[i].cls
    ensures forall i | 0 <= i < |q| :: Boost(q)[i].wait == Inc(q[i].wait)
  {
  }

  /** Ageing and boosting keep the cap and lower no normal thread. */
  lemma BoostCapped(q: seq<Entry>)
    requires Capped(q)
    ensures Capped(Boost(q))
    ensures forall i | 0 <= i < |q| && q[i].cls == Normal :: Boost(q)[i].effective >= q[i].effective
  {
    var a := AgedAll(q);
    forall i | 0 <= i < |q| && q[i].cls == Normal
      ensures q[i].effective <= Boost(q)[i].effective <= MAX_PRIORITY
    {
      if a[i].wait > STARVATION_THRESHOLD {
        MaxWaitBounds(a, |a|, i);
        BoostGains(a[i], MaxWait(a, |a|));
      }
    }
  }

  /** At the cap, a normal thread is passed over only for one ahead of it. */
  lemma CappedIsPassedOnlyFromAhead(a: seq<Entry>, k: nat)
    requires k < |a| && Capped(a) && !Urgent(a) && a[k].cls == Normal && a[k].effective == MAX_PRIORITY
    ensures Best(a) <= k
  {
    assert !Better(a[k], a[Best(a)]);
    assert a[Best(a)].cls != Realtime;
    assert !Better(a[Best(a)], a[k]);
  }

  /** While a realtime thread is ready, a realtime thread is selected. */
  lemma RealtimeFirst(q: seq<Entry>)
    requires Urgent(q)
    ensures Boost(q)[Best(Boost(q))].cls == Realtime && SelectNext(q).1.value.cls == Realtime
  {
    BoostSame(q);
    var a := Boost(q);
    var i :| 0 <= i < |q| && q[i].cls == Realtime;
    assert !Better(a[i], a[Best(a)]);
  }

  lemma RemoveAtWaiting(q: seq<Entry>, id: nat, k: nat, b: nat)
    requires Waiting(q, id, k) && b < |q| && b != k
    ensures Waiting(RemoveAt(q, b), id, if b < k then k - 1 else k)
    ensures RemoveAt(q, b)[if b < k then k - 1 else k] == q[k]
  {
  }

  /** Ageing never costs a waiting thread patience it does not have, and at least one unit of
      it until it reaches the cap. */
  lemma PatienceAfterBoost(q: seq<Entry>, k: nat)
    requires Capped(q) && k < |q| && q[k].cls == Normal && q[k].wait + 1 < WORD
    ensures var e := Boost(q)[k];
            && e.cls == Normal && e.wait == q[k].wait + 1 && e.effective <= MAX_PRIORITY
            && if e.effective == MAX_PRIORITY then Patience(e, k) <= Patience(q[k], k)
               else Patience(e, k) < Patience(q[k], k)
  {
    BoostSame(q);
    BoostCapped(q);
    if q[k].wait >= STARVATION_THRESHOLD {
      MaxWaitBounds(AgedAll(q), |q|, k);
      BoostGains(AgedAll(q)[k], MaxWait(AgedAll(q), |q|));
    }
  }

  /** One call of sched_select_next that passes the thread over: its patience does not grow,
      and it shrinks when no realtime thread is ready. */
  lemma SelectStep(q: seq<Entry>, id: nat, k: nat) returns (k': nat)
    requires Capped(q) && Waiting(q, id, k) && q[k].wait + 1 < WORD
    ensures Urgent(q) ==> !Hands(q, Select, id)
    ensures Hands(q, Select, id) ||
            (var r := SelectNext(q).0;
             && Capped(r) && Waiting(r, id, k') && r[k'].wait == q[k].wait + 1
             && Patience(r[k'], k') + (if Urgent(q) then 0 else 1) <= Patience(q[k], k))
  {
    var a := Boost(q);
    var b := Best(a);
    k' := k;
    BoostSame(q);
    BoostCapped(q);
    PatienceAfterBoost(q, k);
    assert Waiting(a, id, k);
    if Urgent(q) {
      RealtimeFirst(q);
    } else if a[k].effective == MAX_PRIORITY {
      CappedIsPassedOnlyFromAhead(a, k);
    }
    if b != k {
      k' := if b < k then k - 1 else k;
      RemoveAtWaiting(a, id, k, b);
    }
  }

  /** An append or a removal of another thread never costs patience. */
  lemma OtherStep(q: seq<Entry>, ev: Event, id: nat, k: nat) returns (k': nat)
    requires Waiting(q, id, k) && Fair(ev, id) && !ev.Select?
    ensures var r := Apply(q, ev);
            (Capped(q) ==> Capped(r)) && Waiting(r, id, k') && k' <= k && r[k'] == q[k]
  {
    k' := k;
    match ev
    case Append(_) =>
    case Remove(other) =>
      if Has(q, other) {
        var b := IndexOf(q, other);
        k' := if b < k then k - 1 else k;
        RemoveAtWaiting(q, id, k, b);
      }
  }

  /** Patience runs out: whatever else is appended or removed, the thread is handed out before
      that many calls have found no realtime thread ready. */
  lemma {:induction false} PatienceSuffices(q: seq<Entry>, evs: seq<Event>, id: nat, k: nat)
    requires Capped(q) && Waiting(q, id, k)
    requires forall i | 0 <= i < |evs| :: Fair(evs[i], id)
    requires q[k].wait + Selects(evs) < WORD
    requires Quiet(q, evs) >= Patience(q[k], k)
    ensures HandedOut(q, evs, id)
    decreases evs
  {
    assert Patience(q[k], k) >= 1;
    if !Hands(q, evs[0], id) {
      var k';
      if evs[0].Select? {
        k' := SelectStep(q, id, k);
      } else {
        k' := OtherStep(q, evs[0], id, k);
      }
      PatienceSuffices(Apply(q, evs[0]), evs[1..], id, k');
    }
  }

  /** Bounded waiting: with `p` threads ahead, a normal thread is returned within 1255 + p calls
      of sched_select_next that find no realtime thread ready, however many find one. */
  lemma BoundedWaiting(q: seq<Entry>, evs: seq<Event>, id: nat, p: nat)
    requires Capped(q) && Waiting(q, id, p)
    requires forall i | 0 <= i < |evs| :: Fair(evs[i], id)
    requires q[p].wait + Selects(evs) < WORD
    requires Quiet(q, evs) >= 1255 + p
    ensures HandedOut(q, evs, id)
  {
    assert Patience(q[p], p) <= 1255 + p;
    PatienceSuffices(q, evs, id, p);
  }

  /** Without such calls it is never returned: as long as every call finds a realtime thread
      ready, no waiting normal thread is handed out, in a run of any length. */
  lemma {:induction false} RealtimeStarves(q: seq<Entry>, evs: seq<Event>, id: nat, k: nat)
    requires Waiting(q, id, k) && (forall i | 0 <= i < |evs| :: Fair(evs[i], id))
    requires Quiet(q, evs) == 0
    ensures !HandedOut(q, evs, id)
    decreases evs
  {
    if evs != [] {
      var k' := k;
      if evs[0].Select? {
        var a, b := Boost(q), Best(Boost(q));
        BoostSame(q);
        RealtimeFirst(q);
        assert Waiting(a, id, k);
        k' := if b < k then k - 1 else k;
        RemoveAtWaiting(a, id, k, b);
      } else {
        k' := OtherStep(q, evs[0], id, k);
      }
      RealtimeStarves(Apply(q, evs[0]), evs[1..], id, k');
    }
  }

  /** `n` rounds in which a realtime thread yields and the scheduler selects. */
  function RealtimeRounds(n: nat, realtime: Entry): seq<Event> {
    if n == 0 then [] else [Append(realtime), Select] + RealtimeRounds(n - 1, realtime)
  }

  lemma OneRound(q: seq<Entry>, realtime: Entry, rest: seq<Event>) returns (next: seq<Entry>)
    requires realtime.cls == Realtime
    ensures var evs := [Append(realtime), Select] + rest;
            Selects(evs) == 1 + Selects(rest) && Quiet(q, evs) == Quiet(next, rest)
  {
    next := SelectNext(q + [realtime]).0;
    var evs := [Append(realtime), Select] + rest;
    var tail := evs[1..];
    assert tail == [Select] + rest && tail[1..] == rest;
    assert (q + [realtime])[|q|].cls == Realtime;
    assert Quiet(q + [realtime], tail) == Quiet(next, rest);
  }

  /** One yielding realtime thread is enough: it makes runs with any number of calls, each of
      which finds it ready, on every queue. */
  lemma {:induction false} OneRealtimeThread(q: seq<Entry>, n: nat, realtime: Entry)
    requires realtime.cls == Realtime
    ensures Selects(RealtimeRounds(n, realtime)) == n && Quiet(q, RealtimeRounds(n, realtime)) == 0
    decreases n
  {
    if n > 0 {
      var next := OneRound(q, realtime, RealtimeRounds(n - 1, realtime));
      OneRealtimeThread(next, n - 1, realtime);
    }
  }
}
