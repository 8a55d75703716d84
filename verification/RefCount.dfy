/** The reference counts of lib/refcount.h: any number of threads in the load and
    compare-and-swap loops of one counter.  Every atomic load and every swap is one step. */
module RefCount {
  datatype Op = Inc | Dec

  /** Where a thread stands: before the load, between load and swap with what it loaded, done
      with what the call returned. */
  datatype Pc = Loading(op: Op) | Swapping(op: Op, loaded: nat) | Finished(op: Op, ok: bool)

  /** The counter, the threads, and what has happened to the counter so far: successful
      increments, successful decrements, decrements that reported the last drop. */
  datatype State = State(value: nat, pcs: map<nat, Pc>, incs: nat, decs: nat, drops: nat)

  /** Thread `t` calls, loads, or tries to swap; a weak swap may also fail without a reason. */
  datatype Event = Call(t: nat, op: Op) | Load(t: nat) | Swap(t: nat, spurious: bool)

  /** refcount_init. */
  function Init(): State {
    State(1, map[], 0, 0, 0)
  }

  predicate Enabled(s: State, e: Event) {
    match e
    case Call(t, _) => t in s.pcs ==> s.pcs[t].Finished?
    case Load(t) => t in s.pcs && s.pcs[t].Loading?
    case Swap(t, _) => t in s.pcs && s.pcs[t].Swapping?
  }

  /** One step of refcount_inc_not_zero or refcount_dec_and_test. */
  function Do(s: State, e: Event): State
    requires Enabled(s, e)
  {
    match e
    case Call(t, op) => s.(pcs := s.pcs[t := Loading(op)])
    case Load(t) =>
      var op := s.pcs[t].op;
      s.(pcs := s.pcs[t := if s.value == 0 then Finished(op, false) else Swapping(op, s.value)])
    case Swap(t, spurious) =>
      var pc := s.pcs[t];
      if spurious || s.value != pc.loaded then
        s.(pcs := s.pcs[t := Loading(pc.op)])
      else if pc.op == Inc then
        s.(value := pc.loaded + 1, pcs := s.pcs[t := Finished(Inc, true)], incs := s.incs + 1)
      else if pc.loaded > 0 then
        var last := pc.loaded - 1 == 0;
        s.(value := pc.loaded - 1, pcs := s.pcs[t := Finished(Dec, last)], decs := s.decs + 1,
           drops := if last then s.drops + 1 else s.drops)
      else
        s
  }

  ghost predicate EnabledAll(s: State, run: seq<Event>)
    decreases |run|
  {
    run == [] || (Enabled(s, run[0]) && EnabledAll(Do(s, run[0]), run[1..]))
  }

  ghost function Run(s: State, run: seq<Event>): State
    requires EnabledAll(s, run)
    decreases |run|
  {
    if run == [] then s else Run(Do(s, run[0]), run[1..])
  }

  ghost predicate PcOk(s: State, t: nat)
    requires t in s.pcs
  {
    match s.pcs[t]
    case Loading(_) => true
    case Swapping(_, loaded) => loaded > 0
    case Finished(op, ok) => (op == Inc && !ok) || (op == Dec && ok) ==> s.value == 0
  }

  /** The value is one plus the increments less the decrements; the last drop has been reported
      once if the counter is zero, and not at all otherwise; who was refused an increment, or
      was told of the last drop, left the counter at zero. */
  ghost predicate Counted(s: State) {
    && s.value + s.decs == 1 + s.incs
    && s.drops == (if s.value == 0 then 1 else 0)
    && forall t {:trigger PcOk(s, t)} | t in s.pcs :: PcOk(s, t)
  }

  lemma StepCounted(s: State, e: Event)
    requires Counted(s) && Enabled(s, e)
    ensures Counted(Do(s, e))
    ensures s.value == 0 ==> Do(s, e).value == 0 && Do(s, e).incs == s.incs && Do(s, e).decs == s.decs
  {
    var u := Do(s, e);
    assert e.t !in s.pcs || PcOk(s, e.t);
    forall t | t in u.pcs ensures PcOk(u, t) {
      if t != e.t {
        assert PcOk(s, t) && u.pcs[t] == s.pcs[t];
      }
    }
  }

  // ---------------------------------------------------------------- what the calls return

  /** This step ends a call of `op` with the answer `ok`: told by the threads alone. */
  ghost predicate Ends(s: State, e: Event, op: Op, ok: bool)
    requires Enabled(s, e)
  {
    !e.Call? && e.t in Do(s, e).pcs && Do(s, e).pcs[e.t] == Finished(op, ok)
  }

  /** The calls of `op` that end with `ok` during a run. */
  ghost function Answers(s: State, run: seq<Event>, op: Op, ok: bool): nat
    requires EnabledAll(s, run)
    decreases |run|
  {
    if run == [] then 0 else (if Ends(s, run[0], op, ok) then 1 else 0) + Answers(Do(s, run[0]), run[1..], op, ok)
  }

  /** The steps of a run that lower the counter. */
  ghost function Lowered(s: State, run: seq<Event>): nat
    requires EnabledAll(s, run)
    decreases |run|
  {
    if run == [] then 0 else (if Do(s, run[0]).value < s.value then 1 else 0) + Lowered(Do(s, run[0]), run[1..])
  }

  /** An increment returns true exactly with the step that adds one, and false only at zero; a
      decrement returns true exactly with the step from one to zero, and false only with another
      step that takes one, or at zero. */
  lemma StepAnswers(s: State, e: Event)
    requires Counted(s) && Enabled(s, e)
    ensures Ends(s, e, Inc, true) <==> Do(s, e).value == s.value + 1
    ensures Ends(s, e, Dec, true) <==> s.value == 1 && Do(s, e).value == 0
    ensures Ends(s, e, Inc, false) ==> s.value == 0 && Do(s, e).value == 0
    ensures Ends(s, e, Dec, false) ==> Do(s, e).value == (if s.value == 0 then 0 else s.value - 1) && s.value != 1
    ensures s.value - 1 <= Do(s, e).value <= s.value + 1
  {
    assert e.t !in s.pcs || PcOk(s, e.t);
  }

  /** A call ends when its load finds zero, and when its swap finds the value loaded; the other
      threads stay where they are. */
  lemma StepEnds(s: State, e: Event)
    requires Counted(s) && Enabled(s, e) && !e.Call?
    ensures (exists ok :: Ends(s, e, s.pcs[e.t].op, ok))
        <==> (if e.Load? then s.value == 0 else !e.spurious && s.pcs[e.t].loaded == s.value)
    ensures forall t | t in s.pcs && t != e.t :: t in Do(s, e).pcs && Do(s, e).pcs[t] == s.pcs[t]
    ensures e.Load? && s.value > 0 ==> Do(s, e).pcs[e.t] == Swapping(s.pcs[e.t].op, s.value)
  {
    assert PcOk(s, e.t);
    var op := s.pcs[e.t].op;
    var done := if e.Load? then s.value == 0 else !e.spurious && s.pcs[e.t].loaded == s.value;
    if done {
      assert Ends(s, e, op, true) || Ends(s, e, op, false);
    }
  }

  lemma {:induction false} RunAnswers(s: State, run: seq<Event>)
    requires Counted(s) && EnabledAll(s, run)
    ensures Answers(s, run, Inc, true) == Run(s, run).value - s.value + Lowered(s, run)
    ensures Answers(s, run, Dec, true) == if s.value > 0 && Run(s, run).value == 0 then 1 else 0
    decreases |run|
  {
    if run != [] {
      StepAnswers(s, run[0]);
      StepCounted(s, run[0]);
      RunAnswers(Do(s, run[0]), run[1..]);
      if Do(s, run[0]).value == 0 {
        ZeroForever(Do(s, run[0]), run[1..]);
      }
    }
  }

  /** Over every run from the start, told by the calls' answers: the value is one plus the
      increments that returned true less the steps that lowered it, and one decrement has returned
      true if it is zero, none otherwise. */
  lemma AnswersFromInit(run: seq<Event>)
    requires EnabledAll(Init(), run)
    ensures var s := Run(Init(), run);
            && Answers(Init(), run, Inc, true) == s.value - 1 + Lowered(Init(), run)
            && Answers(Init(), run, Dec, true) == if s.value == 0 then 1 else 0
  {
    RunAnswers(Init(), run);
  }

  /** From zero on no call of either kind returns true. */
  lemma NoAnswerAfterZero(s: State, run: seq<Event>)
    requires Counted(s) && s.value == 0 && EnabledAll(s, run)
    ensures Answers(s, run, Inc, true) == 0 && Answers(s, run, Dec, true) == 0 && Lowered(s, run) == 0
  {
    NoneLowered(s, run);
    RunAnswers(s, run);
    ZeroForever(s, run);
  }

  lemma {:induction false} NoneLowered(s: State, run: seq<Event>)
    requires Counted(s) && s.value == 0 && EnabledAll(s, run)
    ensures Lowered(s, run) == 0
    decreases |run|
  {
    if run != [] {
      StepCounted(s, run[0]);
      NoneLowered(Do(s, run[0]), run[1..]);
    }
  }

  /** However the threads interleave, the counts agree. */
  lemma {:induction false} RunCounted(s: State, run: seq<Event>)
    requires Counted(s) && EnabledAll(s, run)
    ensures Counted(Run(s, run))
    decreases |run|
  {
    if run != [] {
      StepCounted(s, run[0]);
      RunCounted(Do(s, run[0]), run[1..]);
    }
  }

  /** No increment and no decrement succeeds after zero, whatever the threads had loaded before;
      and the last drop is reported exactly once. */
  lemma {:induction false} ZeroForever(s: State, run: seq<Event>)
    requires Counted(s) && s.value == 0 && EnabledAll(s, run)
    ensures Run(s, run).value == 0 && Run(s, run).incs == s.incs && Run(s, run).decs == s.decs && Run(s, run).drops == 1
    decreases |run|
  {
    if run != [] {
      StepCounted(s, run[0]);
      ZeroForever(Do(s, run[0]), run[1..]);
    }
  }

  lemma FromInit(run: seq<Event>)
    requires EnabledAll(Init(), run)
    ensures var s := Run(Init(), run);
            s.value == 1 + s.incs - s.decs && s.drops == if s.value == 0 then 1 else 0
  {
    RunCounted(Init(), run);
  }

  /** Every step leaves the counter alone, or adds one to or takes one from a counter that is
      not zero: a call takes effect in one step. */
  lemma OneAtATime(s: State, e: Event)
    requires Counted(s) && Enabled(s, e)
    ensures var u := Do(s, e);
            || (u.value == s.value && u.incs == s.incs && u.decs == s.decs)
            || (s.value > 0 && u.value == s.value + 1 && u.incs == s.incs + 1 && u.decs == s.decs)
            || (s.value > 0 && u.value == s.value - 1 && u.incs == s.incs && u.decs == s.decs + 1)
  {
    assert e.t !in s.pcs || PcOk(s, e.t);
  }
}
