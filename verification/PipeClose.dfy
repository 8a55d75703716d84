/** The close protocol of task/ipc/pipe.c.  The increments and decrements of the two reference
    counts take effect in one step each; duplications happen at any time, a close holds the
    lock from its first step to its last. */
module PipeClose {
  datatype End = ReadEnd | WriteEnd

  /** How far the close that holds the lock is. */
  datatype Phase = Unlocked | Dropping(end: End) | LoadingRead | LoadingWrite

  /** The pipe; `owed` counts the references callers hold and have not begun to close, `freed`
      the calls of kfree, `last` whether the latest drop left no reference on either end. */
  datatype State = State(
    readRefs: nat, writeRefs: nat, readOpen: bool, writeOpen: bool, phase: Phase,
    owedRead: nat, owedWrite: nat, freed: nat, last: bool)

  datatype Event = Dup(end: End) | Close(end: End) | Drop | LoadRead | LoadWrite

  /** pipe_init. */
  function Init(): State {
    State(1, 1, true, true, Unlocked, 1, 1, 0, false)
  }

  predicate Enabled(s: State, e: Event) {
    match e
    case Dup(_) => true
    case Close(_) => s.phase.Unlocked?
    case Drop => s.phase.Dropping?
    case LoadRead => s.phase.LoadingRead?
    case LoadWrite => s.phase.LoadingWrite?
  }

  /** No surplus close: whoever closes an end holds a reference to it. */
  predicate Owed(s: State, e: Event) {
    match e
    case Close(ReadEnd) => s.owedRead > 0
    case Close(WriteEnd) => s.owedWrite > 0
    case _ => true
  }

  function Less(n: nat): nat {
    if n > 0 then n - 1 else 0
  }

  function Do(s: State, e: Event): State
    requires Enabled(s, e)
  {
    match e
    case Dup(ReadEnd) =>
      if s.readRefs == 0 then s else s.(readRefs := s.readRefs + 1, owedRead := s.owedRead + 1)
    case Dup(WriteEnd) =>
      if s.writeRefs == 0 then s else s.(writeRefs := s.writeRefs + 1, owedWrite := s.owedWrite + 1)
    case Close(ReadEnd) => s.(readOpen := false, phase := Dropping(ReadEnd), owedRead := Less(s.owedRead))
    case Close(WriteEnd) => s.(writeOpen := false, phase := Dropping(WriteEnd), owedWrite := Less(s.owedWrite))
    case Drop =>
      var r := if s.phase.end == ReadEnd then Less(s.readRefs) else s.readRefs;
      var w := if s.phase.end == WriteEnd then Less(s.writeRefs) else s.writeRefs;
      s.(readRefs := r, writeRefs := w, last := r == 0 && w == 0,
         phase := if !s.readOpen && !s.writeOpen then LoadingRead else Unlocked)
    case LoadRead => s.(phase := if s.readRefs == 0 then LoadingWrite else Unlocked)
    case LoadWrite => s.(phase := Unlocked, freed := if s.writeRefs == 0 then s.freed + 1 else s.freed)
  }

  ghost predicate EnabledAll(s: State, run: seq<Event>)
    decreases |run|
  {
    run == [] || (Enabled(s, run[0]) && EnabledAll(Do(s, run[0]), run[1..]))
  }

  ghost function Run(s: State, run: seq<Event>): State
    requires EnabledAll(s, run)
    decreases |run|
  {
    if run == [] then s else Run(Do(s, run[0]), run[1..])
  }

  /** No close of the run is a surplus one. */
  ghost predicate OwedAll(s: State, run: seq<Event>)
    requires EnabledAll(s, run)
    decreases |run|
  {
    run == [] || (Owed(s, run[0]) && OwedAll(Do(s, run[0]), run[1..]))
  }

  /** The closes of the run that begin when the pipe has been freed. */
  ghost function LateCloses(s: State, run: seq<Event>): nat
    requires EnabledAll(s, run)
    decreases |run|
  {
    if run == [] then 0
    else (if run[0].Close? && s.freed > 0 then 1 else 0) + LateCloses(Do(s, run[0]), run[1..])
  }

  // ---------------------------------------------------------------- any closes

  /** What holds whoever closes: an open end has a reference, a close only looks at the counts
      when both ends are closed, and between closes the pipe has been freed exactly if no
      reference is left. */
  ghost predicate Steady(s: State) {
    && (s.readOpen ==> s.readRefs > 0) && (s.writeOpen ==> s.writeRefs > 0)
    && (s.phase == Dropping(ReadEnd) ==> !s.readOpen) && (s.phase == Dropping(WriteEnd) ==> !s.writeOpen)
    && (s.phase.LoadingRead? || s.phase.LoadingWrite? ==> !s.readOpen && !s.writeOpen)
    && (s.phase.LoadingWrite? ==> s.readRefs == 0)
    && (s.freed > 0 ==> s.readRefs == 0 && s.writeRefs == 0)
    && (s.phase.Unlocked? && s.readRefs == 0 && s.writeRefs == 0 ==> s.freed > 0)
  }

  /** `late` closes have begun on the freed pipe, and each but one in progress has freed it once
      more. */
  ghost predicate FreedSoOften(s: State, late: nat) {
    if s.freed == 0 then late == 0 else s.freed + (if s.phase.Unlocked? then 0 else 1) == 1 + late
  }

  lemma StepSteady(s: State, e: Event, late: nat)
    requires Steady(s) && FreedSoOften(s, late) && Enabled(s, e)
    ensures Steady(Do(s, e))
    ensures FreedSoOften(Do(s, e), late + if e.Close? && s.freed > 0 then 1 else 0)
  {
  }

  lemma {:induction false} RunSteady(s: State, run: seq<Event>, late: nat)
    requires Steady(s) && FreedSoOften(s, late) && EnabledAll(s, run)
    ensures Steady(Run(s, run)) && FreedSoOften(Run(s, run), late + LateCloses(s, run))
    decreases |run|
  {
    if run != [] {
      StepSteady(s, run[0], late);
      RunSteady(Do(s, run[0]), run[1..], late + if run[0].Close? && s.freed > 0 then 1 else 0);
    }
  }

  /** Over every run, with surplus closes or without: the pipe is freed only when no end has a
      reference, and then once, and once more by each close that begins after that and ends. */
  lemma FreedExactly(run: seq<Event>)
    requires EnabledAll(Init(), run)
    ensures var s := Run(Init(), run);
            && (s.freed > 0 ==> s.readRefs == 0 && s.writeRefs == 0)
            && (s.phase.Unlocked? ==> (s.freed > 0 <==> s.readRefs == 0 && s.writeRefs == 0))
            && (s.freed == 0 ==> LateCloses(Init(), run) == 0)
            && (s.freed > 0 ==> s.freed + (if s.phase.Unlocked? then 0 else 1) == 1 + LateCloses(Init(), run))
  {
    RunSteady(Init(), run, 0);
  }

  /** So between closes, a pipe has been freed twice or more exactly if a close began after it
      had been freed. */
  lemma TwiceIffLate(run: seq<Event>)
    requires EnabledAll(Init(), run) && Run(Init(), run).phase.Unlocked?
    ensures Run(Init(), run).freed > 1 <==> LateCloses(Init(), run) > 0
  {
    FreedExactly(run);
  }

  // ---------------------------------------------------------------- duplications

  /** The references an end has. */
  function Refs(s: State, end: End): nat {
    if end == ReadEnd then s.readRefs else s.writeRefs
  }

  /** The duplications of an end that meet a reference, and the drops of its closes. */
  ghost function Dups(s: State, run: seq<Event>, end: End): nat
    requires EnabledAll(s, run)
    decreases |run|
  {
    if run == [] then 0
    else DupBy(s, run[0], end) + Dups(Do(s, run[0]), run[1..], end)
  }

  ghost function Drops(s: State, run: seq<Event>, end: End): nat
    requires EnabledAll(s, run)
    decreases |run|
  {
    if run == [] then 0
    else DropBy(s, run[0], end) + Drops(Do(s, run[0]), run[1..], end)
  }

  /** A duplication adds one reference to an end that has some, none to an end without, and
      changes nothing else. */
  lemma DupAdds(s: State, end: End)
    ensures var t := Do(s, Dup(end));
            && Refs(t, end) == (if Refs(s, end) > 0 then Refs(s, end) + 1 else 0)
            && (forall other | other != end :: Refs(t, other) == Refs(s, other))
            && t.phase == s.phase && t.readOpen == s.readOpen && t.writeOpen == s.writeOpen && t.freed == s.freed
  {
  }

  function DupBy(s: State, e: Event, end: End): nat {
    if e == Dup(end) && Refs(s, end) > 0 then 1 else 0
  }

  function DropBy(s: State, e: Event, end: End): nat {
    if e == Drop && s.phase == Dropping(end) then 1 else 0
  }

  lemma StepRefs(s: State, e: Event, end: End)
    requires Enabled(s, e)
    ensures Refs(Do(s, e), end) + DropBy(s, e, end) >= Refs(s, end) + DupBy(s, e, end)
    ensures Ok(s) ==> Refs(Do(s, e), end) + DropBy(s, e, end) == Refs(s, end) + DupBy(s, e, end)
  {
  }

  /** Duplications add to the references, drops take from them as long as there are some. */
  lemma {:induction false} RunRefs(s: State, run: seq<Event>, end: End)
    requires EnabledAll(s, run)
    ensures Refs(Run(s, run), end) + Drops(s, run, end) >= Refs(s, end) + Dups(s, run, end)
    decreases |run|
  {
    if run != [] {
      StepRefs(s, run[0], end);
      RunRefs(Do(s, run[0]), run[1..], end);
    }
  }

  lemma {:induction false} RunRefsOwed(s: State, run: seq<Event>, end: End)
    requires EnabledAll(s, run) && OwedAll(s, run) && Ok(s)
    ensures Refs(Run(s, run), end) + Drops(s, run, end) == Refs(s, end) + Dups(s, run, end)
    decreases |run|
  {
    if run != [] {
      StepRefs(s, run[0], end);
      StepOk(s, run[0]);
      RunRefsOwed(Do(s, run[0]), run[1..], end);
    }
  }

  /** Each duplication has to be closed: over every run, the pipe is freed only when each end has
      been closed once more often than it has been duplicated. */
  lemma FreedNeedsCloses(run: seq<Event>, end: End)
    requires EnabledAll(Init(), run) && Run(Init(), run).freed > 0
    ensures Drops(Init(), run, end) >= 1 + Dups(Init(), run, end)
  {
    FreedExactly(run);
    RunRefs(Init(), run, end);
  }

  /** Without surplus closes just so often, and between closes the pipe has been freed exactly if
      that is so at both ends. */
  lemma FreedIffClosed(run: seq<Event>)
    requires EnabledAll(Init(), run) && OwedAll(Init(), run) && Run(Init(), run).phase.Unlocked?
    ensures Run(Init(), run).freed == 1 <==>
              forall end :: Drops(Init(), run, end) == 1 + Dups(Init(), run, end)
  {
    RunOk(Init(), run);
    RunRefsOwed(Init(), run, ReadEnd);
    RunRefsOwed(Init(), run, WriteEnd);
    assert Refs(Run(Init(), run), ReadEnd) == 0 <==> Drops(Init(), run, ReadEnd) == 1 + Dups(Init(), run, ReadEnd);
  }

  lemma Prepend(s: State, e: Event, run: seq<Event>)
    requires Enabled(s, e) && EnabledAll(Do(s, e), run)
    ensures EnabledAll(s, [e] + run) && Run(s, [e] + run) == Run(Do(s, e), run)
  {
    assert ([e] + run)[1..] == run;
  }

  lemma PrependDrop(s: State, end: End, run: seq<Event>)
    requires s.phase.Unlocked? && EnabledAll(Do(Do(s, Close(end)), Drop), run)
    ensures EnabledAll(s, [Close(end), Drop] + run)
    ensures Run(s, [Close(end), Drop] + run) == Run(Do(Do(s, Close(end)), Drop), run)
  {
    Prepend(Do(s, Close(end)), Drop, run);
    Prepend(s, Close(end), [Drop] + run);
    assert [Close(end), Drop] + run == [Close(end)] + ([Drop] + run);
  }

  lemma PrependLoads(s: State, run: seq<Event>)
    requires s.phase.LoadingRead? && s.readRefs == 0 && EnabledAll(Do(Do(s, LoadRead), LoadWrite), run)
    ensures EnabledAll(s, [LoadRead, LoadWrite] + run)
    ensures Run(s, [LoadRead, LoadWrite] + run) == Run(Do(Do(s, LoadRead), LoadWrite), run)
  {
    Prepend(Do(s, LoadRead), LoadWrite, run);
    Prepend(s, LoadRead, [LoadWrite] + run);
    assert [LoadRead, LoadWrite] + run == [LoadRead] + ([LoadWrite] + run);
  }

  /** A run that frees the pipe twice: both ends are closed, and then one of them again. */
  lemma FreedTwice() returns (run: seq<Event>)
    ensures EnabledAll(Init(), run) && Run(Init(), run).freed == 2
  {
    var s1 := Do(Do(Init(), Close(ReadEnd)), Drop);
    var s2 := Do(Do(s1, Close(WriteEnd)), Drop);
    var s3 := Do(Do(s2, LoadRead), LoadWrite);
    var s4 := Do(Do(s3, Close(ReadEnd)), Drop);
    run := [LoadRead, LoadWrite] + [];
    PrependLoads(s4, []);
    PrependDrop(s3, ReadEnd, run);
    run := [Close(ReadEnd), Drop] + run;
    PrependLoads(s2, run);
    run := [LoadRead, LoadWrite] + run;
    PrependDrop(s1, WriteEnd, run);
    run := [Close(WriteEnd), Drop] + run;
    PrependDrop(Init(), ReadEnd, run);
    run := [Close(ReadEnd), Drop] + run;
  }

  /** A run with a surplus close that frees nothing: the read end is closed twice while the
      write end is open. */
  lemma HarmlessSurplus() returns (run: seq<Event>)
    ensures EnabledAll(Init(), run) && !OwedAll(Init(), run) && LateCloses(Init(), run) == 0
    ensures Run(Init(), run).freed == 0 && Run(Init(), run).phase.Unlocked?
  {
    var s1 := Do(Do(Init(), Close(ReadEnd)), Drop);
    var again := [Close(ReadEnd), Drop] + [];
    PrependDrop(s1, ReadEnd, []);
    PrependDrop(Init(), ReadEnd, again);
    run := [Close(ReadEnd), Drop] + again;
    FreedExactly(run);
    assert run[1..] == [Drop] + again && run[1..][1..] == again;
    assert !OwedAll(s1, again);
    assert OwedAll(Do(Init(), run[0]), run[1..]) <==> OwedAll(s1, run[1..][1..]);
  }

  // ---------------------------------------------------------------- no surplus closes

  /** Each count is what is owed and what the close in progress is about to drop; between
      closes the pipe has been freed once if no reference is left, and not otherwise; a close
      in progress is going to free the pipe if it dropped the last reference. */
  ghost predicate Ok(s: State) {
    && s.readRefs == s.owedRead + (if s.phase == Dropping(ReadEnd) then 1 else 0)
    && s.writeRefs == s.owedWrite + (if s.phase == Dropping(WriteEnd) then 1 else 0)
    && (s.readOpen ==> s.owedRead > 0) && (s.writeOpen ==> s.owedWrite > 0)
    && s.freed == (if s.phase.Unlocked? && s.readRefs == 0 && s.writeRefs == 0 then 1 else 0)
    && (s.phase.LoadingRead? || s.phase.LoadingWrite? ==> (s.last <==> s.readRefs == 0 && s.writeRefs == 0))
    && (s.phase.LoadingWrite? ==> s.readRefs == 0)
  }

  lemma StepOk(s: State, e: Event)
    requires Ok(s) && Enabled(s, e) && Owed(s, e)
    ensures Ok(Do(s, e))
    ensures Do(s, e).freed > s.freed ==> e == LoadWrite && s.last
  {
  }

  lemma {:induction false} RunOk(s: State, run: seq<Event>)
    requires Ok(s) && EnabledAll(s, run) && OwedAll(s, run)
    ensures Ok(Run(s, run)) && LateCloses(s, run) == 0
    decreases |run|
  {
    if run != [] {
      StepOk(s, run[0]);
      RunOk(Do(s, run[0]), run[1..]);
    }
  }

  /** Over every run without surplus closes no close is late, so the pipe is freed at most once,
      never while an end has a reference, and for good once all references are closed. */
  lemma FreedOnce(run: seq<Event>)
    requires EnabledAll(Init(), run) && OwedAll(Init(), run)
    ensures var s := Run(Init(), run);
            && s.freed <= 1
            && (s.freed == 1 ==> s.readRefs == 0 && s.writeRefs == 0)
            && (s.phase.Unlocked? && s.owedRead == 0 && s.owedWrite == 0 ==> s.freed == 1)
  {
    RunOk(Init(), run);
    FreedExactly(run);
  }
}
