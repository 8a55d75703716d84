/** Selection and ageing of task/sched.c over a ready queue of values, and how long a thread
    can wait. */
module SchedSpec {
  import opened Common

  const STARVATION_THRESHOLD: nat := 1000
  const BOOST_AMOUNT: nat := 5
  const MAX_PRIORITY: nat := 255
  const TIMESLICE_REALTIME: nat := 100
  const TIMESLICE_NORMAL: nat := 20
  const TIMESLICE_IDLE: nat := 1

  datatype SchedClass = Realtime | Normal | Idle {
    /** The enumeration's value: lower is better. */
    function Rank(): nat {
      match this case Realtime => 0 case Normal => 1 case Idle => 2
    }
  }

  /** What selection reads and ageing writes: wait is time_since_last_run. */
  datatype Entry = Entry(id: nat, cls: SchedClass, effective: nat, wait: nat)

  /** A 32-bit increment. */
  function Inc(w: nat): nat {
    if w == WORD - 1 then 0 else w + 1
  }

  /** time_since_last_run++. */
  function Aged(e: Entry): Entry {
    e.(wait := Inc(e.wait))
  }

  function AgedAll(q: seq<Entry>): (r: seq<Entry>)
    ensures |r| == |q|
  {
    seq(|q|, i requires 0 <= i < |q| => Aged(q[i]))
  }

  /** The longest wait among the normal threads of the first `n`, 0 if there are none. */
  function MaxWait(q: seq<Entry>, n: nat): nat
    requires n <= |q|
  {
    if n == 0 then 0
    else if q[n - 1].cls == Normal then Max(MaxWait(q, n - 1), q[n - 1].wait)
    else MaxWait(q, n - 1)
  }

  /** The boost of a starved thread; the product wraps in 32 bits, the quotient is never 0. */
  function BoostBy(wait: nat, maxWait: nat): (r: nat)
    requires maxWait > 0
    ensures r >= 1
  {
    var boost := ((wait * BOOST_AMOUNT) % WORD) / maxWait;
    if boost == 0 then 1 else boost
  }

  function Boosted(e: Entry, maxWait: nat): (r: Entry)
    ensures r == e.(effective := r.effective)
    ensures maxWait <= STARVATION_THRESHOLD ==> r == e
  {
    if maxWait > STARVATION_THRESHOLD && e.cls == Normal && e.wait > STARVATION_THRESHOLD then
      var boost := BoostBy(e.wait, maxWait);
      if (e.effective + boost) % WORD >= MAX_PRIORITY then e.(effective := MAX_PRIORITY)
      else e.(effective := (e.effective + boost) % WORD)
    else e
  }

  /** sched_boost_starved_threads. */
  function Boost(q: seq<Entry>): (r: seq<Entry>)
    ensures |r| == |q|
  {
    var a := AgedAll(q);
    BoostedAll(a, MaxWait(a, |a|))
  }

  function BoostedAll(a: seq<Entry>, maxWait: nat): (r: seq<Entry>)
    ensures |r| == |a|
    ensures maxWait <= STARVATION_THRESHOLD ==> r == a
  {
    seq(|a|, i requires 0 <= i < |a| => Boosted(a[i], maxWait))
  }

  /** `e` displaces `best`: better class, or same class and strictly higher priority. */
  predicate Better(e: Entry, best: Entry) {
    e.cls.Rank() < best.cls.Rank() || (e.cls == best.cls && e.effective > best.effective)
  }

  /** The index sched_find_best_thread_iterate holds after `n` members. */
  function BestOf(q: seq<Entry>, n: nat): (b: nat)
    requires 0 < n <= |q|
    ensures b < n
    ensures forall i | 0 <= i < n :: !Better(q[i], q[b])
    ensures forall i | 0 <= i < b :: Better(q[b], q[i])
  {
    if n == 1 then 0
    else if Better(q[n - 1], q[BestOf(q, n - 1)]) then n - 1
    else BestOf(q, n - 1)
  }

  function Best(q: seq<Entry>): (b: nat)
    requires q != []
    ensures b < |q|
    ensures forall i | 0 <= i < |q| :: !Better(q[i], q[b])
    ensures forall i | 0 <= i < b :: Better(q[b], q[i])
  {
    BestOf(q, |q|)
  }

  /** sched_select_next: age and boost everyone, then take the best. */
  function SelectNext(q: seq<Entry>): (r: (seq<Entry>, Option<Entry>))
    ensures r.1 == None <==> q == []
  {
    if q == [] then ([], None)
    else
      var a := Boost(q);
      (RemoveAt(a, Best(a)), Some(a[Best(a)]))
  }

  /** What sched_assign_time_slice assigns: 100 ticks to a realtime thread, one to an idle one, and
      to a normal one its base priority, or 20 if that is 0. */
  function Slice(cls: SchedClass, base: nat): (r: nat)
    ensures cls == Realtime ==> r == 100
    ensures cls == Idle ==> r == 1
    ensures cls == Normal && base > 0 ==> r == base
    ensures cls == Normal && base == 0 ==> r == 20
  {
    match cls
    case Realtime => TIMESLICE_REALTIME
    case Idle => TIMESLICE_IDLE
    case Normal => if base != 0 then base else TIMESLICE_NORMAL
  }

  // ---------------------------------------------------------------- runs

  /** What can happen to the ready queue: an append at the tail (sched_enqueue), a removal
      from anywhere (sched_remove), a call of sched_select_next. */
  datatype Event = Append(e: Entry) | Remove(id: nat) | Select

  predicate Has(q: seq<Entry>, id: nat) {
    exists i | 0 <= i < |q| :: q[i].id == id
  }

  function IndexOf(q: seq<Entry>, id: nat): (i: nat)
    requires Has(q, id)
    ensures i < |q| && q[i].id == id
    ensures forall j | 0 <= j < i :: q[j].id != id
  {
    if q[0].id == id then 0 else
      assert Has(q[1..], id) by {
        var i :| 0 <= i < |q| && q[i].id == id;
        assert q[1..][i - 1].id == id;
      }
      1 + IndexOf(q[1..], id)
  }

  function Apply(q: seq<Entry>, ev: Event): seq<Entry> {
    match ev
    case Append(e) => q + [e]
    case Remove(id) => if Has(q, id) then RemoveAt(q, IndexOf(q, id)) else q
    case Select => SelectNext(q).0
  }

  /** The thread handed out by this event is `id`. */
  predicate Hands(q: seq<Entry>, ev: Event, id: nat) {
    ev.Select? && q != [] && SelectNext(q).1.value.id == id
  }

  /** `id` is handed out at some point of the run. */
  predicate HandedOut(q: seq<Entry>, evs: seq<Event>, id: nat)
    decreases evs
  {
    evs != [] && (Hands(q, evs[0], id) || HandedOut(Apply(q, evs[0]), evs[1..], id))
  }

  function Selects(evs: seq<Event>): nat {
    if evs == [] then 0 else (if evs[0].Select? then 1 else 0) + Selects(evs[1..])
  }

  /** A realtime thread is ready. */
  predicate Urgent(q: seq<Entry>) {
    exists i | 0 <= i < |q| :: q[i].cls == Realtime
  }

  /** The calls of sched_select_next in a run that find no realtime thread ready. */
  function Quiet(q: seq<Entry>, evs: seq<Event>): nat
    decreases evs
  {
    if evs == [] then 0
    else (if evs[0].Select? && !Urgent(q) then 1 else 0) + Quiet(Apply(q, evs[0]), evs[1..])
  }

  /** No normal thread has an effective priority above MAX_PRIORITY. */
  predicate Capped(q: seq<Entry>) {
    forall i | 0 <= i < |q| :: q[i].cls == Normal ==> q[i].effective <= MAX_PRIORITY
  }

  /** The environment neither takes `id` away nor enqueues it twice, and keeps the cap. */
  predicate Fair(ev: Event, id: nat) {
    match ev
    case Append(e) => e.id != id && (e.cls == Normal ==> e.effective <= MAX_PRIORITY)
    case Remove(other) => other != id
    case Select => true
  }

  /** A normal thread with the given id waits at position `k`, listed once. */
  predicate Waiting(q: seq<Entry>, id: nat, k: nat) {
    && k < |q| && q[k].id == id && q[k].cls == Normal
    && forall i | 0 <= i < |q| && i != k :: q[i].id != id
  }

  /** Calls of sched_select_next that suffice: the rest of the way to the threshold, one per
      missing priority point, and one per thread ahead. */
  function Patience(e: Entry, ahead: nat): nat {
    if e.effective >= MAX_PRIORITY then ahead + 1
    else
      (if e.wait < STARVATION_THRESHOLD then STARVATION_THRESHOLD - e.wait else 0)
      + (MAX_PRIORITY - e.effective) + ahead
  }
}
