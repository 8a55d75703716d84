/** The intrusive thread lists of task/sched.c: every list threads its members through their
    own `next` field. */
module ThreadQueue {
  import opened Common
  import opened SchedSpec

  datatype ThreadState = Ready | Running | Sleeping | Exited | Dead | Suspended | Blocked

  class Thread {
    const id: nat
    var next: Thread?
    var cls: SchedClass
    var basePriority: nat
    var effective: nat
    var wait: nat
    var timeSlice: nat
    var state: ThreadState
    var wakeTime: nat

    /** sched_internal_init_thread. */
    constructor (id: nat, priority: nat)
      ensures this.id == id && next == null && cls == Normal && state == Ready
      ensures basePriority == priority && effective == priority && wait == 0 && wakeTime == 0 && timeSlice == 2 * priority
    {
      this.id := id;
      next, cls, state := null, Normal, Ready;
      basePriority, effective, timeSlice := priority, priority, priority * 2;
      wait, wakeTime := 0, 0;
    }

    function ToEntry(): Entry
      reads this
    {
      Entry(id, cls, effective, wait)
    }

    /** sched_assign_time_slice. */
    method AssignTimeSlice()
      modifies this`timeSlice
      ensures timeSlice == Slice(cls, basePriority)
    {
      match cls {
        case Realtime => timeSlice := TIMESLICE_REALTIME;
        case Idle => timeSlice := TIMESLICE_IDLE;
        case Normal => timeSlice := if basePriority != 0 then basePriority else TIMESLICE_NORMAL;
      }
    }

    /** The body of the second loop of sched_boost_starved_threads. */
    method RaiseIfStarved(maxWait: nat)
      requires maxWait > STARVATION_THRESHOLD
      modifies this`effective
      ensures effective == Boosted(old(ToEntry()), maxWait).effective
    {
      if cls == Normal && wait > STARVATION_THRESHOLD {
        var boost := ((wait * BOOST_AMOUNT) % WORD) / maxWait;
        if boost == 0 {
          boost := 1;
        }
        if (effective + boost) % WORD >= MAX_PRIORITY {
          effective := MAX_PRIORITY;
        } else {
          effective := (effective + boost) % WORD;
        }
      }
    }
  }

  ghost function Entries(items: seq<Thread>): (r: seq<Entry>)
    reads items
    ensures |r| == |items|
    ensures forall i {:trigger r[i]} | 0 <= i < |items| :: r[i] == items[i].ToEntry()
  {
    seq(|items|, i requires 0 <= i < |items| reads items => items[i].ToEntry())
  }

  class ThreadList {
    var head: Thread?
    var tail: Thread?
    var count: nat
    /** The members in order, and the position of each. */
    ghost var items: seq<Thread>
    ghost var at: map<Thread, nat>

    ghost predicate Linked()
      reads this, at.Keys
    {
      && Positions(items, at)
      && (forall i {:trigger items[i].next} | 0 <= i < |items| ::
           items[i].next == if i + 1 < |items| then items[i + 1] else null)
    }

    ghost predicate Valid()
      reads this, at.Keys
    {
      && Linked() && count == |items|
      && head == (if items == [] then null else items[0])
      && tail == (if items == [] then null else items[|items| - 1])
    }

    constructor ()
      ensures Valid() && items == []
    {
      head, tail, count, items, at := null, null, 0, [], map[];
    }

    /** sched_enqueue and sched_thread_list_add. */
    method Enqueue(thread: Thread)
      requires Valid() && thread !in at
      modifies this, thread`next, at.Keys`next
      ensures Valid() && items == old(items) + [thread] && at.Keys == old(at.Keys) + {thread}
    {
      thread.next := null;
      if head == null {
        head := thread;
        tail := thread;
      } else {
        tail.next := thread;
        tail := thread;
      }
      count := count + 1;
      at := at[thread := |items|];
      items := items + [thread];
    }

    /** sched_dequeue. */
    method Dequeue() returns (thread: Thread?)
      requires Valid()
      modifies this, at.Keys`next
      ensures Valid()
      ensures old(items) == [] ==> thread == null && items == []
      ensures old(items) != [] ==> thread == old(items)[0] && items == old(items)[1..] && thread.next == null
      ensures at.Keys == if old(items) == [] then {} else old(at.Keys) - {thread}
    {
      thread := head;
      if thread == null {
        return;
      }
      head := thread.next;
      if head == null {
        tail := null;
      }
      count := count - 1;
      thread.next := null;
      at := map t | t in at && t != thread :: at[t] - 1;
      items := items[1..];
    }

    /** The pointer surgery shared by sched_remove, sched_unlink_thread and
        sched_remove_from_sleep_queue. */
    method Bypass(thread: Thread, prev: Thread?, ghost k: nat)
      requires Valid() && k < |items| && thread == items[k]
      requires prev == if k == 0 then null else items[k - 1]
      modifies this`head, this`tail, this`count, at.Keys`next
      ensures thread.next == null && count == old(count) - 1
      ensures forall t {:trigger t.next} | t in at && t != thread && t != prev :: t.next == old(t.next)
      ensures k > 0 ==> items[k - 1].next == old(thread.next) && head == old(head)
      ensures k == 0 ==> head == old(thread.next)
      ensures tail == if k == |items| - 1 then prev else old(tail)
    {
      if prev != null {
        prev.next := thread.next;
      } else {
        head := thread.next;
      }
      if tail == thread {
        tail := prev;
      }
      if count > 0 {
        count := count - 1;
      }
      thread.next := null;
    }

    /** Take the member at position `k` out, given the member before it. */
    method Unlink(thread: Thread, prev: Thread?, ghost k: nat)
      requires Valid() && k < |items| && thread == items[k]
      requires prev == if k == 0 then null else items[k - 1]
      modifies this, at.Keys`next
      ensures Valid() && items == RemoveAt(old(items), k) && thread.next == null
      ensures at.Keys == old(at.Keys) - {thread}
    {
      ghost var was := items;
      Bypass(thread, prev, k);
      PositionsWithout(items, at, k);
      at := Shifted(at, thread, k);
      items := RemoveAt(items, k);
      forall i | 0 <= i < |items| ensures items[i].next == if i + 1 < |items| then items[i + 1] else null {
        ghost var j := if i < k then i else i + 1;
        assert was[j] in old(at) && old(was[j].next) == if j + 1 < |was| then was[j + 1] else null;
      }
    }

    /** sched_remove. */
    method Remove(target: Thread) returns (r: Thread?)
      requires Valid()
      modifies this, at.Keys`next
      ensures Valid()
      ensures target !in old(at) ==> r == null && items == old(items) && at == old(at)
      ensures target in old(at) ==>
                && r == target && target.next == null
                && items == RemoveAt(old(items), old(at)[target]) && at.Keys == old(at.Keys) - {target}
    {
      var prev: Thread? := null;
      var curr := head;
      ghost var i := 0;
      while curr != null
        invariant i <= |items| && items == old(items) && at == old(at) && Valid()
        invariant curr == if i < |items| then items[i] else null
        invariant prev == if i == 0 then null else items[i - 1]
        invariant target in at ==> i <= at[target]
        decreases |items| - i
      {
        if curr == target {
          Unlink(curr, prev, i);
          return curr;
        }
        prev := curr;
        curr := curr.next;
        i := i + 1;
      }
      r := null;
    }

    /** The first loop of sched_boost_starved_threads: everyone waits one call longer. */
    method AgeAll() returns (maxWait: nat)
      requires Valid()
      modifies at.Keys`wait
      ensures Entries(items) == AgedAll(old(Entries(items)))
      ensures maxWait == MaxWait(Entries(items), |items|)
    {
      maxWait := 0;
      var thread := head;
      ghost var q := Entries(items);
      ghost var a := AgedAll(q);
      ghost var i := 0;
      while thread != null
        invariant i <= |items| && thread == if i < |items| then items[i] else null
        invariant forall j {:trigger a[j]} | 0 <= j < i :: items[j].wait == a[j].wait
        invariant forall j {:trigger q[j]} | i <= j < |items| :: items[j].wait == q[j].wait
        invariant maxWait == MaxWait(a, i)
        decreases |items| - i
      {
        assert a[i] == Aged(q[i]);
        thread.wait := Inc(thread.wait);
        if thread.cls == Normal && thread.wait > maxWait {
          maxWait := thread.wait;
        }
        thread := thread.next;
        i := i + 1;
      }
      forall j | 0 <= j < |items| ensures Entries(items)[j] == a[j] {
        assert q[j] == old(items[j].ToEntry());
      }
    }

    /** The second loop of sched_boost_starved_threads. */
    method RaiseAll(maxWait: nat)
      requires Valid() && maxWait > STARVATION_THRESHOLD
      modifies at.Keys`effective
      ensures Entries(items) == BoostedAll(old(Entries(items)), maxWait)
    {
      var thread := head;
      ghost var q := Entries(items);
      ghost var want := BoostedAll(q, maxWait);
      ghost var i := 0;
      while thread != null
        invariant i <= |items| && thread == if i < |items| then items[i] else null
        invariant forall j {:trigger want[j]} | 0 <= j < i :: items[j].effective == want[j].effective
        invariant forall j {:trigger q[j]} | i <= j < |items| :: items[j].effective == q[j].effective
        decreases |items| - i
      {
        assert items[i].ToEntry() == q[i] && want[i] == Boosted(q[i], maxWait);
        thread.RaiseIfStarved(maxWait);
        thread := thread.next;
        i := i + 1;
      }
      forall j | 0 <= j < |items| ensures Entries(items)[j] == want[j] {
        assert q[j] == old(items[j].ToEntry());
      }
    }

    /** sched_boost_starved_threads. */
    method BoostStarvedThreads()
      requires Valid()
      modifies at.Keys`wait, at.Keys`effective
      ensures Entries(items) == Boost(old(Entries(items)))
    {
      var maxWait := AgeAll();
      if maxWait > STARVATION_THRESHOLD {
        RaiseAll(maxWait);
      }
    }

    /** sched_find_best_thread: the best member and the one before it. */
    method FindBest() returns (best: Thread?, prev: Thread?)
      requires Valid()
      ensures items == [] ==> best == null
      ensures items != [] ==> var b := Best(Entries(items));
                best == items[b] && prev == if b == 0 then null else items[b - 1]
    {
      best, prev := null, null;
      var iter := head;
      var before: Thread? := null;
      ghost var q := Entries(items);
      ghost var i, b := 0, 0;
      while iter != null
        invariant i <= |items| && iter == if i < |items| then items[i] else null
        invariant before == if i == 0 then null else items[i - 1]
        invariant i == 0 ==> best == null
        invariant i > 0 ==> b < i && b == BestOf(q, i) && best == items[b]
                            && prev == if b == 0 then null else items[b - 1]
        decreases |items| - i
      {
        var better := best == null
                      || iter.cls.Rank() < best.cls.Rank()
                      || (iter.cls == best.cls && iter.effective > best.effective);
        if better {
          best, prev := iter, before;
          b := i;
        }
        before := iter;
        iter := iter.next;
        i := i + 1;
      }
    }

    /** sched_select_by_time_slice. */
    method SelectByTimeSlice() returns (best: Thread?)
      requires Valid()
      modifies this, at.Keys`next, at.Keys`timeSlice
      ensures Valid()
      ensures old(items) == [] ==> best == null && items == [] && at.Keys == {}
      ensures old(items) != [] ==>
                var b := Best(old(Entries(items)));
                && best == old(items)[b] && items == RemoveAt(old(items), b) && at.Keys == old(at.Keys) - {best}
                && best.next == null && best.timeSlice == Slice(best.cls, best.basePriority)
      ensures forall t | t in at :: t.timeSlice == old(t.timeSlice)
    {
      if head == null {
        return null;
      }
      var prev;
      best, prev := FindBest();
      Unlink(best, prev, Best(Entries(items)));
      best.AssignTimeSlice();
    }

    /** sched_select_next, for the list it is applied to. */
    method SelectNext() returns (next: Thread?)
      requires Valid()
      modifies this, at.Keys`next, at.Keys`wait, at.Keys`effective, at.Keys`timeSlice
      ensures Valid()
      ensures old(items) == [] ==> next == null && items == [] && at.Keys == {}
      ensures old(items) != [] ==>
                var b := Best(Boost(old(Entries(items))));
                && next == old(items)[b] && items == RemoveAt(old(items), b) && at.Keys == old(at.Keys) - {next}
                && next.next == null && next.timeSlice == Slice(next.cls, next.basePriority)
                && next.ToEntry() == Boost(old(Entries(items)))[b]
      ensures Entries(items) == SchedSpec.SelectNext(old(Entries(items))).0
      ensures forall t | t in at :: t.timeSlice == old(t.timeSlice)
    {
      BoostStarvedThreads();
      ghost var a, was := Entries(items), items;
      next := SelectByTimeSlice();
      if next != null {
        ghost var b := Best(a);
        forall i | 0 <= i < |items| ensures Entries(items)[i] == RemoveAt(a, b)[i] {
          ghost var j := if i < b then i else i + 1;
          assert items[i] == was[j] && Entries(was)[j] == a[j];
        }
        assert Entries(was)[b] == a[b];
      }
    }
  }
}
