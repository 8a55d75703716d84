/** The scheduler of task/sched.c: who runs, who is ready, who sleeps, who is blocked. */
module Scheduler {
  import opened Common
  import opened SchedSpec
  import opened ThreadQueue

  /** The members of `s`, in their order, that are in `due`, or that are not. */
  ghost function Pick(s: seq<Thread>, due: set<Thread>, wanted: bool): seq<Thread> {
    if s == [] then []
    else if (s[0] in due) == wanted then [s[0]] + Pick(s[1..], due, wanted)
    else Pick(s[1..], due, wanted)
  }

  ghost function Due(s: seq<Thread>, due: set<Thread>): seq<Thread> {
    Pick(s, due, true)
  }

  ghost function StillAsleep(s: seq<Thread>, due: set<Thread>): seq<Thread> {
    Pick(s, due, false)
  }

  /** What the loop of sched_tick makes of queue `s` from position `k` on. */
  ghost function AsleepFrom(s: seq<Thread>, k: nat, due: set<Thread>): seq<Thread>
    requires k <= |s|
    decreases |s| - k
  {
    if k == |s| then s
    else if s[k] in due then AsleepFrom(RemoveAt(s, k), k, due)
    else AsleepFrom(s, k + 1, due)
  }

  ghost function DueFrom(s: seq<Thread>, k: nat, due: set<Thread>): seq<Thread>
    requires k <= |s|
    decreases |s| - k
  {
    if k == |s| then []
    else if s[k] in due then [s[k]] + DueFrom(RemoveAt(s, k), k, due)
    else DueFrom(s, k + 1, due)
  }

  lemma {:induction false} FromMeansPick(s: seq<Thread>, k: nat, due: set<Thread>)
    requires k <= |s|
    ensures AsleepFrom(s, k, due) == s[..k] + StillAsleep(s[k..], due)
    ensures DueFrom(s, k, due) == Due(s[k..], due)
    decreases |s| - k
  {
    if k < |s| {
      assert s[k..][1..] == s[k + 1..];
      if s[k] in due {
        var r := RemoveAt(s, k);
        FromMeansPick(r, k, due);
        assert r[..k] == s[..k] && r[k..] == s[k + 1..];
      } else {
        FromMeansPick(s, k + 1, due);
        assert s[..k + 1] == s[..k] + [s[k]];
      }
    }
  }

  /** A sleep queue falls apart into the sleepers whose time has come and those whose has
      not: nobody is lost, nobody is in both, and nobody is in the wrong part. */
  lemma {:induction false} TickSplits(s: seq<Thread>, due: set<Thread>)
    ensures multiset(Due(s, due)) + multiset(StillAsleep(s, due)) == multiset(s)
    ensures forall t | t in Due(s, due) :: t in due
    ensures forall t | t in StillAsleep(s, due) :: t !in due
  {
    if s != [] {
      TickSplits(s[1..], due);
      assert s == [s[0]] + s[1..];
    }
  }

  /** Both parts keep the order of the queue. */
  lemma {:induction false} PickOrder(s: seq<Thread>, t: seq<Thread>, due: set<Thread>, wanted: bool)
    ensures Pick(s + t, due, wanted) == Pick(s, due, wanted) + Pick(t, due, wanted)
    decreases |s|
  {
    if s == [] {
      assert s + t == t;
    } else {
      assert (s + t)[0] == s[0] && (s + t)[1..] == s[1..] + t;
      PickOrder(s[1..], t, due, wanted);
    }
  }

  class Sched {
    const ready: ThreadList
    const sleep: ThreadList
    const idle: Thread
    var current: Thread?
    var ticks: nat
    /** The threads put under sched_yield, sched_block, sched_unblock and sched_tick.  Threads
        just created, and the reaper, are on no queue of the scheduler and not among them. */
    ghost const threads: set<Thread>

    ghost predicate Lists()
      reads this, ready, sleep, ready.at.Keys, sleep.at.Keys
    {
      && ready != sleep && ready.Valid() && sleep.Valid()
      && (forall t | t in ready.at :: t in threads && t !in sleep.at)
      && (forall t | t in sleep.at :: t in threads)
      && idle in threads && (current != null ==> current in threads)
    }

    /** The places a thread can be, each counted once; `at` holds a list's members. */
    ghost function Places(t: Thread): nat
      reads this, ready, sleep, t
    {
      (if t == current then 1 else 0) + (if t in ready.at then 1 else 0)
      + (if t in sleep.at then 1 else 0) + (if t.state == Blocked then 1 else 0)
    }

    /** Every one of the threads but the idle one is in exactly one place: running, ready, asleep
        or blocked.  The idle thread never sleeps. */
    ghost predicate Valid()
      reads this, ready, sleep, ready.at.Keys, sleep.at.Keys, threads
    {
      && Lists()
      && idle !in sleep.at
      && (forall t | t in threads && t != idle :: Places(t) == 1)
    }

    /** sched_init: the idle thread starts on the ready queue; nobody runs yet.  `others` are the
        threads that come to the scheduler later, by sched_unblock. */
    constructor (idle: Thread, ghost others: set<Thread>)
      requires idle !in others && idle.state != Blocked
      requires forall t | t in others :: t.state == Blocked
      modifies idle
      ensures Valid() && this.idle == idle && threads == others + {idle}
      ensures current == null && ready.items == [idle] && sleep.items == [] && ticks == 0
    {
      ready := new ThreadList();
      sleep := new ThreadList();
      this.idle := idle;
      current := null;
      ticks := 0;
      threads := others + {idle};
      new;
      idle.cls := SchedClass.Idle;
      ready.Enqueue(idle);
    }

    /** sched_select_next with sched_select_idle_if_needed: the best ready thread, or the idle
        thread when none is ready. */
    method PickNext() returns (next: Thread)
      requires Lists()
      modifies ready, ready.at.Keys`next, ready.at.Keys`wait, ready.at.Keys`effective, ready.at.Keys`timeSlice
      modifies idle`timeSlice
      ensures Lists() && next in threads
      ensures Chosen(old(ready.items), old(Entries(ready.items)), next, ready.items, Entries(ready.items))
      ensures next.wait == (if old(ready.items) == [] then old(next.wait) else Inc(old(next.wait)))
      ensures Sliced(next, old(ready.items) == []) && forall t | t in ready.at :: t.timeSlice == old(t.timeSlice)
      ensures ready.at.Keys == old(ready.at.Keys) - {next}
      ensures next in old(ready.at) || (next == idle && old(ready.items) == [])
    {
      var candidate := ready.SelectNext();
      if candidate != null {
        return candidate;
      }
      idle.timeSlice := TIMESLICE_IDLE;
      next := idle;
    }

    /** `next` is the choice out of queue `q` with entries `e`; it leaves `rest` with entries `left`,
        aged and boosted. */
    ghost predicate Chosen(q: seq<Thread>, e: seq<Entry>, next: Thread, rest: seq<Thread>, left: seq<Entry>)
      requires |e| == |q|
    {
      && left == SchedSpec.SelectNext(e).0
      && if q == [] then next == idle && rest == []
         else next == q[Best(Boost(e))] && rest == RemoveAt(q, Best(Boost(e)))
    }

    /** The time slice of the thread chosen; `alone` when the queue was empty. */
    ghost predicate Sliced(next: Thread, alone: bool)
      reads next
    {
      next.timeSlice == if alone then 1 else Slice(next.cls, next.basePriority)
    }

    /** sched_schedule. */
    method Schedule()
      requires Lists()
      modifies this`current, ready
      modifies ready.at.Keys`next, ready.at.Keys`wait, ready.at.Keys`effective, ready.at.Keys`timeSlice
      modifies idle`wait, idle`timeSlice
      ensures Lists() && current != null
      ensures Chosen(old(ready.items), old(Entries(ready.items)), current, ready.items, Entries(ready.items))
      ensures ready.at.Keys == old(ready.at.Keys) - {current}
      ensures current in old(ready.at) || (current == idle && old(ready.items) == [])
      ensures current.wait == (if current != old(current) then 0
                               else if old(ready.items) == [] then old(current.wait) else Inc(old(current.wait)))
      ensures Sliced(current, old(ready.items) == []) && forall t | t in ready.at :: t.timeSlice == old(t.timeSlice)
    {
      var next := PickNext();
      if next == current {
        return;
      }
      next.wait := 0;
      current := next;
    }

    /** Before the scheduler chooses out of `queue`: the thread is in exactly one of that queue,
        the sleep queue and the blocked threads. */
    ghost predicate Settled(t: Thread, queue: set<Thread>)
      reads sleep, t`state
    {
      (if t in queue then 1 else 0) + (if t in sleep.at then 1 else 0) + (if t.state == Blocked then 1 else 0) == 1
    }

    lemma Handed(queue: set<Thread>)
      requires forall t {:trigger Settled(t, queue)} | t in threads && t != idle :: Settled(t, queue)
      requires ready.at.Keys == queue - {current} && (current in queue || current == idle)
      ensures forall t {:trigger Places(t)} | t in threads && t != idle :: Places(t) == 1
    {
      forall t | t in threads && t != idle ensures Places(t) == 1 {
        assert Settled(t, queue);
      }
    }

    /** The queue sched_yield hands to the scheduler: the running thread goes to the tail. */
    ghost function AfterYield(): seq<Thread>
      reads this, ready
    {
      ready.items + (if current != null && current != idle then [current] else [])
    }

    /** The enqueue step of sched_yield. */
    method Requeue()
      requires Valid() && current != null
      modifies ready, threads`next
      ensures Lists() && sleep.items == old(sleep.items)
      ensures ready.items == old(AfterYield()) && Entries(ready.items) == old(Entries(AfterYield()))
      ensures forall t {:trigger Settled(t, ready.at.Keys)} | t in threads && t != idle :: Settled(t, ready.at.Keys)
    {
      if current != idle {
        assert Places(current) == 1;
        ready.Enqueue(current);
      }
      forall t | t in threads && t != idle ensures Settled(t, ready.at.Keys) {
        assert old(Places(t)) == 1;
      }
      assert Entries(ready.items) == old(Entries(AfterYield()));
    }

    /** sched_yield. */
    method Yield()
      requires Valid()
      modifies this`current, ready, threads`next, threads`wait, threads`effective, threads`timeSlice
      ensures Valid() && sleep.items == old(sleep.items)
      ensures old(current) == null ==> current == null && ready.items == old(ready.items)
      ensures old(current) != null ==>
                && current != null
                && Chosen(old(AfterYield()), old(Entries(AfterYield())), current, ready.items, Entries(ready.items))
                && Sliced(current, old(AfterYield()) == [])
                && (current != old(current) ==> current.wait == 0)
    {
      if current == null {
        return;
      }
      Requeue();
      ghost var queue := ready.at.Keys;
      Schedule();
      Handed(queue);
    }

    /** sched_block. */
    method Block()
      requires Valid()
      modifies this`current, ready, threads`next, threads`wait, threads`effective, threads`timeSlice, threads`state
      ensures Valid() && sleep.items == old(sleep.items)
      ensures old(current) == null ==> current == null && ready.items == old(ready.items)
      ensures old(current) != null ==>
                && old(current).state == Blocked
                && current != null
                && Chosen(old(ready.items), old(Entries(ready.items)), current, ready.items, Entries(ready.items))
                && Sliced(current, old(ready.items) == [])
                && (current != old(current) ==> current.wait == 0)
      ensures forall t | t in threads && t != old(current) :: t.state == old(t.state)
    {
      if current == null {
        return;
      }
      ghost var q, e := ready.items, Entries(ready.items);
      current.state := Blocked;
      assert Entries(ready.items) == e;
      ghost var queue := ready.at.Keys;
      forall t | t in threads && t != idle ensures Settled(t, queue) {
        assert old(Places(t)) == 1;
      }
      Schedule();
      Handed(queue);
    }

    /** sched_unblock, for a blocked thread. */
    method Unblock(thread: Thread)
      requires Valid() && thread in threads && thread != idle && thread.state == Blocked
      modifies ready, threads`next, thread`state
      ensures Valid() && sleep.items == old(sleep.items) && current == old(current)
      ensures ready.items == old(ready.items) + [thread] && thread.state == Ready
    {
      assert Places(thread) == 1;
      thread.state := Ready;
      ready.Enqueue(thread);
      forall t | t in threads && t != idle ensures Places(t) == 1 {
        assert old(Places(t)) == 1;
      }
    }

    /** sched_process_sleep_thread for the sleeper at position `k`: wake it if its time has
        come, and return the sleeper the next one comes after. */
    method ProcessSleepThread(thread: Thread, prev: Thread?, ghost k: nat) returns (r: Thread?)
      requires Lists() && k < |sleep.items| && thread == sleep.items[k]
      requires prev == if k == 0 then null else sleep.items[k - 1]
      modifies sleep, ready, sleep.at.Keys`next, ready.at.Keys`next, thread`state
      ensures Lists() && current == old(current)
      ensures thread.wakeTime > ticks ==>
                && r == thread && sleep.items == old(sleep.items) && ready.items == old(ready.items)
                && sleep.at == old(sleep.at) && ready.at == old(ready.at) && thread.state == old(thread.state)
      ensures thread.wakeTime <= ticks ==>
                && r == prev && sleep.items == RemoveAt(old(sleep.items), k)
                && ready.items == old(ready.items) + [thread] && thread.state == Ready
                && sleep.at.Keys == old(sleep.at.Keys) - {thread} && ready.at.Keys == old(ready.at.Keys) + {thread}
    {
      if thread.wakeTime <= ticks {
        sleep.Unlink(thread, prev, k);
        thread.state := Ready;
        ready.Enqueue(thread);
        return prev;
      }
      return thread;
    }

    /** The threads whose wake time has come. */
    ghost function DueThreads(): set<Thread>
      reads this`ticks, threads`wakeTime
    {
      set t | t in threads && t.wakeTime <= ticks
    }

    lemma NoneDue(s: seq<Thread>, due: set<Thread>)
      requires sleep.Valid() && sleep.items == StillAsleep(s, due)
      ensures forall t | t in sleep.at :: t !in due
    {
      TickSplits(s, due);
      forall t | t in sleep.at ensures t !in due {
        assert sleep.items[sleep.at[t]] == t && t in StillAsleep(s, due);
      }
    }

    /** sched_tick, from any well-formed sleep queue: the sleepers whose time has come go to
        the tail of the ready queue in their order, the others stay in theirs. */
    method Tick()
      requires Valid()
      modifies this`ticks, sleep, ready, threads`next, threads`state
      ensures Valid() && current == old(current) && ticks == old(ticks) + 1
      ensures sleep.items == StillAsleep(old(sleep.items), DueThreads())
      ensures ready.items == old(ready.items) + Due(old(sleep.items), DueThreads())
      ensures forall t | t in threads ::
                t.state == if t in old(sleep.at) && t in DueThreads() then Ready else old(t.state)
    {
      ticks := ticks + 1;
      ghost var s, due := sleep.items, DueThreads();
      ghost var awake := DrainSleepers();
      assert due == DueThreads();
      FromMeansPick(s, 0, due);
      assert s[0..] == s;
      NoneDue(s, due);
      forall t | t in threads && t != idle ensures Places(t) == 1 {
        assert old(Places(t)) == 1;
      }
    }

    /** One round of sched_tick's loop. */
    method NextSleeper(thread: Thread, prev: Thread?, ghost k: nat)
        returns (prev': Thread?, curr': Thread?, ghost k': nat)
      requires Lists() && k < |sleep.items| && thread == sleep.items[k]
      requires prev == if k == 0 then null else sleep.items[k - 1]
      modifies sleep, ready, sleep.at.Keys`next, ready.at.Keys`next, thread`state
      ensures Lists() && thread in old(sleep.at) && k' <= |sleep.items|
      ensures prev' == if k' == 0 then null else sleep.items[k' - 1]
      ensures curr' == if k' < |sleep.items| then sleep.items[k'] else null
      ensures thread.wakeTime > ticks ==>
                && k' == k + 1 && sleep.items == old(sleep.items) && ready.items == old(ready.items)
                && sleep.at.Keys == old(sleep.at.Keys) && ready.at.Keys == old(ready.at.Keys)
                && thread.state == old(thread.state)
      ensures thread.wakeTime <= ticks ==>
                && k' == k && sleep.items == RemoveAt(old(sleep.items), k)
                && ready.items == old(ready.items) + [thread] && thread.state == Ready
                && sleep.at.Keys == old(sleep.at.Keys) - {thread} && ready.at.Keys == old(ready.at.Keys) + {thread}
    {
      assert thread in sleep.at;
      prev' := ProcessSleepThread(thread, prev, k);
      k' := if thread.wakeTime > ticks then k + 1 else k;
      assert prev' == if k' == 0 then null else sleep.items[k' - 1];
      curr' := if prev' != null then prev'.next else sleep.head;
    }

    /** What sched_tick's loop keeps: the lists are well formed, `prev` and `curr` stand at
        position `k`, and what is left to do leads to the queues `asleep` and `ready'`. */
    ghost predicate Draining(prev: Thread?, curr: Thread?, k: nat, asleep: seq<Thread>, ready': seq<Thread>)
      reads this, ready, sleep, ready.at.Keys, sleep.at.Keys, threads`wakeTime
    {
      && Lists() && k <= |sleep.items|
      && curr == (if k < |sleep.items| then sleep.items[k] else null)
      && prev == (if k == 0 then null else sleep.items[k - 1])
      && AsleepFrom(sleep.items, k, DueThreads()) == asleep
      && ready.items + DueFrom(sleep.items, k, DueThreads()) == ready'
    }

    /** `awake` are the threads that have gone from the sleepers `asleep0` to the ready
        threads `ready0`. */
    ghost predicate Woken(asleep0: set<Thread>, ready0: set<Thread>, awake: set<Thread>)
      reads this`ticks, sleep, ready, threads`wakeTime
    {
      && awake <= asleep0 * DueThreads()
      && sleep.at.Keys == asleep0 - awake && ready.at.Keys == ready0 + awake
    }

    method DrainRound(prev: Thread?, curr: Thread, ghost k: nat, ghost asleep: seq<Thread>, ghost ready': seq<Thread>,
                      ghost asleep0: set<Thread>, ghost ready0: set<Thread>, ghost awake: set<Thread>)
        returns (prev': Thread?, curr': Thread?, ghost k': nat, ghost awake': set<Thread>)
      requires Draining(prev, curr, k, asleep, ready') && Woken(asleep0, ready0, awake)
      modifies sleep, ready, sleep.at.Keys`next, ready.at.Keys`next, curr`state
      ensures Draining(prev', curr', k', asleep, ready') && |sleep.items| - k' < old(|sleep.items|) - k
      ensures curr in threads && Woken(asleep0, ready0, awake')
      ensures if curr.wakeTime <= ticks then awake' == awake + {curr} && curr.state == Ready
              else awake' == awake && curr.state == old(curr.state) && curr !in awake
    {
      assert curr in sleep.at;
      DueAssoc(ready.items, sleep.items, k, DueThreads());
      prev', curr', k' := NextSleeper(curr, prev, k);
      awake' := if curr.wakeTime <= ticks then awake + {curr} else awake;
    }

    /** The loop of sched_tick; `awake` are the threads it wakes. */
    method DrainSleepers() returns (ghost awake: set<Thread>)
      requires Lists()
      modifies sleep, ready, threads`next, threads`state
      ensures Lists()
      ensures sleep.items == AsleepFrom(old(sleep.items), 0, DueThreads())
      ensures ready.items == old(ready.items) + DueFrom(old(sleep.items), 0, DueThreads())
      ensures Woken(old(sleep.at.Keys), old(ready.at.Keys), awake)
      ensures forall t | t in threads :: t.state == if t in awake then Ready else old(t.state)
    {
      var prev: Thread? := null;
      var curr := sleep.head;
      ghost var k: nat := 0;
      ghost var asleep := AsleepFrom(sleep.items, 0, DueThreads());
      ghost var ready' := ready.items + DueFrom(sleep.items, 0, DueThreads());
      ghost var asleep0, ready0 := sleep.at.Keys, ready.at.Keys;
      awake := {};
      while curr != null
        invariant Draining(prev, curr, k, asleep, ready') && Woken(asleep0, ready0, awake)
        invariant forall t | t in threads :: t.state == if t in awake then Ready else old(t.state)
        decreases |sleep.items| - k
      {
        prev, curr, k, awake := DrainRound(prev, curr, k, asleep, ready', asleep0, ready0, awake);
      }
    }
  }

  lemma DueAssoc(r: seq<Thread>, s: seq<Thread>, k: nat, due: set<Thread>)
    requires k < |s|
    ensures s[k] in due ==> r + DueFrom(s, k, due) == r + [s[k]] + DueFrom(RemoveAt(s, k), k, due)
  {
  }
}
