/** The bounded fan-out over interviews, as a transition system over its goroutines and their launcher. */
module FanOut {
  import opened Basics

  /** What the request for one interview comes to. */
  datatype Outcome<+T> = Read(value: T) | GetFailed(error: string) | DecodeFailed

  const MAX_FANOUT := 6

  /** How far a goroutine has got; the mutex is held from Locked to Recorded, the semaphore from Fetching to
      Unlocked. */
  datatype Phase = Idle | Spawned | Fetching | Fetched | Locked | Counted | Recorded | Unlocked | Released | Finished

  datatype Report<+T> = Report(items: seq<T>, failed: nat, error: Option<string>)

  datatype State<+T> = State(
    launching: bool,
    launched: nat,
    phases: seq<Phase>,
    semaphore: nat,
    mutex: Option<nat>,
    waiting: nat,
    done: nat,
    failed: nat,
    firstErr: Option<string>,
    results: seq<Option<T>>,
    returned: Option<Report<T>>)

  datatype Step =
    | Launch | Cancel | LastLaunched
    | Acquire(i: nat) | Fetch(i: nat) | Lock(i: nat) | Count(i: nat) | Record(i: nat) | Unlock(i: nat)
    | Release(i: nat) | Exit(i: nat)
    | Return

  function Init<T>(n: nat): State<T> {
    State(true, 0, seq(n, _ => Idle), 0, None, 0, 0, 0, None, seq(n, _ => None), None)
  }

  predicate In<T>(s: State<T>, i: nat, p: Phase) {
    i < |s.phases| && s.phases[i] == p
  }

  /** The launcher checks for cancellation before each launch; a goroutine blocks on a full semaphore and a held
      mutex. */
  predicate Enabled<T>(s: State<T>, n: nat, step: Step) {
    match step
    case Launch => s.launching && s.launched < n
    case Cancel => s.launching && s.launched < n
    case LastLaunched => s.launching && s.launched == n
    case Acquire(i) => In(s, i, Spawned) && s.semaphore < MAX_FANOUT
    case Fetch(i) => In(s, i, Fetching)
    case Lock(i) => In(s, i, Fetched) && s.mutex == None
    case Count(i) => In(s, i, Locked)
    case Record(i) => In(s, i, Counted)
    case Unlock(i) => In(s, i, Recorded)
    case Release(i) => In(s, i, Unlocked)
    case Exit(i) => In(s, i, Released)
    case Return => !s.launching && s.waiting == 0 && s.returned == None
  }

  function RecordOutcome<T>(s: State<T>, i: nat, o: Outcome<T>): State<T>
    requires i < |s.results|
  {
    match o
    case Read(v) => s.(results := s.results[i := Some(v)])
    case GetFailed(e) => s.(failed := s.failed + 1, firstErr := if s.firstErr == None then Some(e) else s.firstErr)
    case DecodeFailed => s.(failed := s.failed + 1)
  }

  function Collect<T>(results: seq<Option<T>>): seq<T> {
    if results == [] then []
    else
      var last := results[|results| - 1];
      Collect(results[..|results| - 1]) + if last.Some? then [last.value] else []
  }

  function Conclude<T>(s: State<T>): Report<T> {
    var out := Collect(s.results);
    Report(out, s.failed, if |out| == 0 && s.failed > 0 && s.firstErr.Some? then s.firstErr else None)
  }

  function Apply<T>(s: State<T>, outcomes: seq<Outcome<T>>, step: Step): State<T>
    requires |s.phases| == |s.results| == |outcomes| && Enabled(s, |outcomes|, step)
  {
    match step
    case Launch => s.(launched := s.launched + 1, waiting := s.waiting + 1, phases := s.phases[s.launched := Spawned])
    case Cancel => s.(launching := false)
    case LastLaunched => s.(launching := false)
    case Acquire(i) => s.(semaphore := s.semaphore + 1, phases := s.phases[i := Fetching])
    case Fetch(i) => s.(phases := s.phases[i := Fetched])
    case Lock(i) => s.(mutex := Some(i), phases := s.phases[i := Locked])
    case Count(i) => s.(done := s.done + 1, phases := s.phases[i := Counted])
    case Record(i) => RecordOutcome(s, i, outcomes[i]).(phases := s.phases[i := Recorded])
    case Unlock(i) => s.(mutex := None, phases := s.phases[i := Unlocked])
    case Release(i) =>
      s.(semaphore := if s.semaphore > 0 then s.semaphore - 1 else 0, phases := s.phases[i := Released])
    case Exit(i) => s.(waiting := if s.waiting > 0 then s.waiting - 1 else 0, phases := s.phases[i := Finished])
    case Return => s.(returned := Some(Conclude(s)))
  }

  // ----- The invariant

  /** The steps a goroutine has taken. */
  function Rank(p: Phase): nat {
    match p
    case Idle => 0 case Spawned => 1 case Fetching => 2 case Fetched => 3 case Locked => 4
    case Counted => 5 case Recorded => 6 case Unlocked => 7 case Released => 8 case Finished => 9
  }

  predicate HoldsSemaphore<T>(p: Phase, o: Outcome<T>) { 2 <= Rank(p) <= 7 }
  predicate HoldsMutex(p: Phase) { 4 <= Rank(p) <= 6 }
  predicate IsCounted<T>(p: Phase, o: Outcome<T>) { 5 <= Rank(p) }
  predicate IsRecorded(p: Phase) { 6 <= Rank(p) }
  predicate IsFailure<T>(p: Phase, o: Outcome<T>) { IsRecorded(p) && !o.Read? }
  predicate IsSuccess<T>(p: Phase, o: Outcome<T>) { IsRecorded(p) && o.Read? }
  predicate IsWaitedFor<T>(p: Phase, o: Outcome<T>) { 1 <= Rank(p) <= 8 }

  /** How many goroutines satisfy `f`. */
  function Tally<T>(phases: seq<Phase>, outcomes: seq<Outcome<T>>, f: (Phase, Outcome<T>) -> bool): nat
    requires |phases| == |outcomes|
  {
    if phases == [] then 0
    else
      var n := |phases| - 1;
      Tally(phases[..n], outcomes[..n], f) + if f(phases[n], outcomes[n]) then 1 else 0
  }

  /** The counters agree with the goroutines. */
  ghost predicate Counts<T>(s: State<T>, outcomes: seq<Outcome<T>>)
    requires |s.phases| == |outcomes|
  {
    && s.semaphore == Tally(s.phases, outcomes, HoldsSemaphore) <= MAX_FANOUT
    && s.waiting == Tally(s.phases, outcomes, IsWaitedFor)
    && s.done == Tally(s.phases, outcomes, IsCounted)
    && s.failed == Tally(s.phases, outcomes, IsFailure)
  }

  /** A prefix has been launched, and only the mutex's holder is inside the critical section. */
  ghost predicate Control<T>(s: State<T>, outcomes: seq<Outcome<T>>)
    requires |s.phases| == |outcomes|
  {
    && s.launched <= |outcomes|
    && (forall i :: 0 <= i < |s.phases| ==> (s.phases[i] == Idle <==> s.launched <= i))
    && (s.mutex.Some? ==> s.mutex.value < |s.phases|)
    && (forall i :: 0 <= i < |s.phases| ==> (HoldsMutex(s.phases[i]) <==> s.mutex == Some(i)))
  }

  ghost predicate RecordedError<T>(s: State<T>, outcomes: seq<Outcome<T>>, i: int)
    requires |s.phases| == |outcomes|
  {
    0 <= i < |s.phases| && IsRecorded(s.phases[i]) && outcomes[i].GetFailed?
  }

  /** Each slot holds what its own goroutine read, and the first error is one that was recorded. */
  ghost predicate Slots<T>(s: State<T>, outcomes: seq<Outcome<T>>)
    requires |s.phases| == |s.results| == |outcomes|
  {
    && (forall i :: 0 <= i < |s.phases| ==>
          s.results[i] == if IsSuccess(s.phases[i], outcomes[i]) then Some(outcomes[i].value) else None)
    && (forall i :: RecordedError(s, outcomes, i) ==> s.firstErr.Some?)
    && (s.firstErr.Some? ==> exists i :: RecordedError(s, outcomes, i) && outcomes[i].error == s.firstErr.value)
  }

  ghost predicate Concluded<T>(s: State<T>) {
    s.returned.Some? ==> !s.launching && s.waiting == 0 && s.returned.value == Conclude(s)
  }

  ghost predicate Inv<T>(s: State<T>, outcomes: seq<Outcome<T>>) {
    && |s.phases| == |s.results| == |outcomes|
    && Counts(s, outcomes) && Control(s, outcomes) && Slots(s, outcomes) && Concluded(s)
  }

  lemma {:induction false} TallyUpdate<T>(
      phases: seq<Phase>, outcomes: seq<Outcome<T>>, f: (Phase, Outcome<T>) -> bool, i: nat, p: Phase)
    requires |phases| == |outcomes| && i < |phases|
    ensures Tally(phases[i := p], outcomes, f) + (if f(phases[i], outcomes[i]) then 1 else 0)
         == Tally(phases, outcomes, f) + (if f(p, outcomes[i]) then 1 else 0)
  {
    var n := |phases| - 1;
    if i < n {
      TallyUpdate(phases[..n], outcomes[..n], f, i, p);
      assert phases[i := p][..n] == phases[..n][i := p];
    } else {
      assert phases[i := p][..n] == phases[..n];
    }
  }

  lemma {:induction false} TallyZero<T>(phases: seq<Phase>, outcomes: seq<Outcome<T>>, f: (Phase, Outcome<T>) -> bool)
    requires |phases| == |outcomes|
    ensures Tally(phases, outcomes, f) == 0 <==> forall i :: 0 <= i < |phases| ==> !f(phases[i], outcomes[i])
  {
    if phases != [] {
      TallyZero(phases[..|phases| - 1], outcomes[..|phases| - 1], f);
    }
  }

  lemma InitInv<T>(outcomes: seq<Outcome<T>>)
    ensures Inv(Init<T>(|outcomes|), outcomes)
  {
    var s: State<T> := Init(|outcomes|);
    TallyZero(s.phases, outcomes, HoldsSemaphore);
    TallyZero(s.phases, outcomes, IsWaitedFor);
    TallyZero(s.phases, outcomes, IsCounted);
    TallyZero(s.phases, outcomes, IsFailure);
  }

  predicate Moves(step: Step) {
    !step.Cancel? && !step.LastLaunched? && !step.Return?
  }

  /** The goroutine a step moves, and where to. */
  function Moved<T>(s: State<T>, step: Step): (nat, Phase)
    requires Moves(step)
  {
    match step
    case Launch => (s.launched, Spawned)
    case Acquire(i) => (i, Fetching)
    case Fetch(i) => (i, Fetched)
    case Lock(i) => (i, Locked)
    case Count(i) => (i, Counted)
    case Record(i) => (i, Recorded)
    case Unlock(i) => (i, Unlocked)
    case Release(i) => (i, Released)
    case Exit(i) => (i, Finished)
  }

  /** What moving one goroutine to its next phase does to the counts. */
  lemma MoveTallies<T>(phases: seq<Phase>, outcomes: seq<Outcome<T>>, i: nat, p: Phase)
    requires |phases| == |outcomes| && i < |phases| && Rank(p) == Rank(phases[i]) + 1
    ensures Tally(phases[i := p], outcomes, HoldsSemaphore) == Tally(phases, outcomes, HoldsSemaphore)
      + if p == Fetching then 1 else if p == Released then -1 else 0
    ensures Tally(phases[i := p], outcomes, IsWaitedFor) == Tally(phases, outcomes, IsWaitedFor)
      + if p == Spawned then 1 else if p == Finished then -1 else 0
    ensures Tally(phases[i := p], outcomes, IsCounted) == Tally(phases, outcomes, IsCounted)
      + if p == Counted then 1 else 0
    ensures Tally(phases[i := p], outcomes, IsFailure) == Tally(phases, outcomes, IsFailure)
      + if p == Recorded && !outcomes[i].Read? then 1 else 0
  {
    TallyUpdate(phases, outcomes, HoldsSemaphore, i, p);
    TallyUpdate(phases, outcomes, IsWaitedFor, i, p);
    TallyUpdate(phases, outcomes, IsCounted, i, p);
    TallyUpdate(phases, outcomes, IsFailure, i, p);
  }

  lemma StepMoves<T>(s: State<T>, outcomes: seq<Outcome<T>>, step: Step)
    requires |s.phases| == |s.results| == |outcomes|
    requires Control(s, outcomes) && Enabled(s, |outcomes|, step)
    ensures Apply(s, outcomes, step).phases
         == if Moves(step) then s.phases[Moved(s, step).0 := Moved(s, step).1] else s.phases
    ensures Moves(step) ==> Rank(Moved(s, step).1) == Rank(s.phases[Moved(s, step).0]) + 1
  {
  }

  lemma StepCounts<T>(s: State<T>, outcomes: seq<Outcome<T>>, step: Step)
    requires |s.phases| == |s.results| == |outcomes|
    requires Counts(s, outcomes) && Control(s, outcomes) && Enabled(s, |outcomes|, step)
    ensures Counts(Apply(s, outcomes, step), outcomes)
  {
    if Moves(step) {
      var (i, p) := Moved(s, step);
      StepMoves(s, outcomes, step);
      MoveTallies(s.phases, outcomes, i, p);
    }
  }

  lemma StepControl<T>(s: State<T>, outcomes: seq<Outcome<T>>, step: Step)
    requires |s.phases| == |s.results| == |outcomes|
    requires Control(s, outcomes) && Enabled(s, |outcomes|, step)
    ensures Control(Apply(s, outcomes, step), outcomes)
  {
    var t := Apply(s, outcomes, step);
    StepMoves(s, outcomes, step);
    assert t.launched == s.launched + if step.Launch? then 1 else 0;
    assert t.mutex == if step.Lock? then Some(step.i) else if step.Unlock? then None else s.mutex;
    ControlStep(s, t, outcomes, step);
  }

  lemma ControlStep<T>(s: State<T>, t: State<T>, outcomes: seq<Outcome<T>>, step: Step)
    requires |s.phases| == |t.phases| == |outcomes| && Control(s, outcomes) && Enabled(s, |outcomes|, step)
    requires t.phases == if Moves(step) then s.phases[Moved(s, step).0 := Moved(s, step).1] else s.phases
    requires t.launched == s.launched + if step.Launch? then 1 else 0
    requires t.mutex == if step.Lock? then Some(step.i) else if step.Unlock? then None else s.mutex
    ensures Control(t, outcomes)
  {
  }

  /** The only step that touches the first error or a slot is the recording of an outcome. */
  function FirstErrAfter<T>(s: State<T>, outcomes: seq<Outcome<T>>, step: Step): Option<string>
    requires step.Record? ==> step.i < |outcomes|
  {
    if step.Record? && outcomes[step.i].GetFailed? && s.firstErr == None then Some(outcomes[step.i].error)
    else s.firstErr
  }

  function ResultsAfter<T>(s: State<T>, outcomes: seq<Outcome<T>>, step: Step): seq<Option<T>>
    requires step.Record? ==> step.i < |outcomes| == |s.results|
  {
    if step.Record? && outcomes[step.i].Read? then s.results[step.i := Some(outcomes[step.i].value)] else s.results
  }

  lemma StepSlots<T>(s: State<T>, outcomes: seq<Outcome<T>>, step: Step)
    requires |s.phases| == |s.results| == |outcomes|
    requires Control(s, outcomes) && Slots(s, outcomes) && Enabled(s, |outcomes|, step)
    ensures Slots(Apply(s, outcomes, step), outcomes)
  {
    var t := Apply(s, outcomes, step);
    assert t.firstErr == FirstErrAfter(s, outcomes, step);
    assert t.results == ResultsAfter(s, outcomes, step);
    StepMoves(s, outcomes, step);
    SlotsStep(s, t, outcomes, step);
  }

  lemma SlotsStep<T>(s: State<T>, t: State<T>, outcomes: seq<Outcome<T>>, step: Step)
    requires |s.phases| == |s.results| == |t.phases| == |t.results| == |outcomes|
    requires Slots(s, outcomes)
    requires Moves(step) ==>
      Moved(s, step).0 < |s.phases| && Rank(Moved(s, step).1) == Rank(s.phases[Moved(s, step).0]) + 1
    requires t.phases == if Moves(step) then s.phases[Moved(s, step).0 := Moved(s, step).1] else s.phases
    requires step.Record? ==> step.i < |s.phases|
    requires t.firstErr == FirstErrAfter(s, outcomes, step)
    requires t.results == ResultsAfter(s, outcomes, step)
    ensures Slots(t, outcomes)
  {
    forall i | RecordedError(t, outcomes, i)
      ensures t.firstErr.Some?
    {
      assert RecordedError(s, outcomes, i) || step == Record(i);
    }
    if s.firstErr.Some? {
      var i :| RecordedError(s, outcomes, i) && outcomes[i].error == s.firstErr.value;
      assert RecordedError(t, outcomes, i);
    } else if step.Record? {
      assert outcomes[step.i].GetFailed? ==> RecordedError(t, outcomes, step.i);
    }
  }

  /** Once it has returned, nothing moves: every goroutine launched has finished. */
  lemma NothingAfterReturn<T>(s: State<T>, outcomes: seq<Outcome<T>>, step: Step)
    requires Inv(s, outcomes) && s.returned.Some?
    ensures !Enabled(s, |outcomes|, step)
  {
    TallyZero(s.phases, outcomes, IsWaitedFor);
  }

  lemma StepConcluded<T>(s: State<T>, outcomes: seq<Outcome<T>>, step: Step)
    requires |s.phases| == |s.results| == |outcomes|
    requires Enabled(s, |outcomes|, step) && Concluded(s) && s.returned.None?
    ensures var t := Apply(s, outcomes, step);
            Concluded(t) && |t.phases| == |t.results| == |outcomes|
  {
  }

  lemma StepInv<T>(s: State<T>, outcomes: seq<Outcome<T>>, step: Step)
    requires Inv(s, outcomes) && Enabled(s, |outcomes|, step)
    ensures Inv(Apply(s, outcomes, step), outcomes)
  {
    hide Apply, Enabled, Counts, Control, Slots, Concluded;
    if s.returned.Some? {
      NothingAfterReturn(s, outcomes, step);
    }
    StepConcluded(s, outcomes, step);
    StepCounts(s, outcomes, step);
    StepControl(s, outcomes, step);
    StepSlots(s, outcomes, step);
  }

  // ----- Every run

  /** The state after `steps`, if they can be taken in that order; one for each interleaving. */
  function Run<T>(outcomes: seq<Outcome<T>>, steps: seq<Step>): (s: Option<State<T>>)
    ensures s.Some? ==> |s.value.phases| == |s.value.results| == |outcomes|
  {
    if steps == [] then Some(Init(|outcomes|))
    else
      var r, step := Run(outcomes, steps[..|steps| - 1]), steps[|steps| - 1];
      if r.Some? && Enabled(r.value, |outcomes|, step) then Some(Apply(r.value, outcomes, step)) else None
  }

  lemma {:induction false} ReachableInv<T>(outcomes: seq<Outcome<T>>, steps: seq<Step>)
    requires Run(outcomes, steps).Some?
    ensures Inv(Run(outcomes, steps).value, outcomes)
  {
    if steps == [] {
      InitInv(outcomes);
    } else {
      var front := steps[..|steps| - 1];
      ReachableInv(outcomes, front);
      StepInv(Run(outcomes, front).value, outcomes, steps[|steps| - 1]);
    }
  }

  /** Safety in every reachable state: at most six requests in flight, and, outside the critical section, every
      counted request is either a failure or a filled slot. */
  lemma Safety<T>(outcomes: seq<Outcome<T>>, steps: seq<Step>)
    requires Run(outcomes, steps).Some?
    ensures var s := Run(outcomes, steps).value;
            && Tally(s.phases, outcomes, HoldsSemaphore) <= 6
            && (forall i, j | 0 <= i < |s.phases| && 0 <= j < |s.phases| ::
                  HoldsMutex(s.phases[i]) && HoldsMutex(s.phases[j]) ==> i == j)
            && (s.mutex == None ==> s.done == s.failed + |Collect(s.results)|)
  {
    ReachableInv(outcomes, steps);
    var s := Run(outcomes, steps).value;
    if s.mutex == None {
      CountedIsFailedOrRead(s.phases, outcomes, s.results);
    }
  }

  /** In every reachable state at most six goroutines have a request in flight. */
  lemma InFlight<T>(outcomes: seq<Outcome<T>>, steps: seq<Step>)
    requires Run(outcomes, steps).Some?
    ensures |IndicesOf(Run(outcomes, steps).value.phases, (p: Phase) => p == Fetching)| <= 6
  {
    hide Run, Inv;
    Safety(outcomes, steps);
    FetchingHolds(Run(outcomes, steps).value.phases, outcomes);
  }

  lemma {:induction false} FetchingHolds<T>(phases: seq<Phase>, outcomes: seq<Outcome<T>>)
    requires |phases| == |outcomes|
    ensures |IndicesOf(phases, (p: Phase) => p == Fetching)| <= Tally(phases, outcomes, HoldsSemaphore)
  {
    var fetching := (p: Phase) => p == Fetching;
    if phases == [] {
      assert IndicesOf(phases, fetching) == {};
    } else {
      var n := |phases| - 1;
      FetchingHolds(phases[..n], outcomes[..n]);
      IndicesSnoc(phases[..n], phases[n], fetching);
      assert phases[..n] + [phases[n]] == phases;
    }
  }

  lemma {:induction false} CountedIsFailedOrRead<T>(
      phases: seq<Phase>, outcomes: seq<Outcome<T>>, results: seq<Option<T>>)
    requires |phases| == |outcomes| == |results|
    requires forall i :: 0 <= i < |phases| ==> !HoldsMutex(phases[i])
    requires forall i :: 0 <= i < |phases| ==>
      results[i] == if IsSuccess(phases[i], outcomes[i]) then Some(outcomes[i].value) else None
    ensures Tally(phases, outcomes, IsCounted) == Tally(phases, outcomes, IsFailure) + |Collect(results)|
  {
    if phases != [] {
      var n := |phases| - 1;
      CountedIsFailedOrRead(phases[..n], outcomes[..n], results[..n]);
    }
  }

  lemma StepWritesOwnSlot<T>(s: State<T>, outcomes: seq<Outcome<T>>, step: Step, j: nat)
    requires |s.phases| == |s.results| == |outcomes| && Slots(s, outcomes)
    requires Enabled(s, |outcomes|, step) && j < |outcomes|
    ensures var before, after := s.results[j], Apply(s, outcomes, step).results[j];
            before != after ==> step == Record(j) && before == None && outcomes[j] == Read(after.value)
  {
  }

  /** A slot is written by its own goroutine alone, and never overwritten. */
  lemma SlotOwnership<T>(outcomes: seq<Outcome<T>>, steps: seq<Step>, step: Step, j: nat)
    requires Run(outcomes, steps).Some? && Run(outcomes, steps + [step]).Some? && j < |outcomes|
    ensures var before, after := Run(outcomes, steps).value.results[j], Run(outcomes, steps + [step]).value.results[j];
            before != after ==> step == Record(j) && before == None && outcomes[j] == Read(after.value)
  {
    hide Apply, Enabled, Counts, Control, Slots, Concluded;
    assert (steps + [step])[..|steps|] == steps;
    ReachableInv(outcomes, steps);
    StepWritesOwnSlot(Run(outcomes, steps).value, outcomes, step, j);
  }

  predicate RecordsError<T>(outcomes: seq<Outcome<T>>, step: Step) {
    step.Record? && step.i < |outcomes| && outcomes[step.i].GetFailed?
  }

  /** Step `k` is the first to record an error, and it is this one. */
  ghost predicate IsFirstError<T>(outcomes: seq<Outcome<T>>, steps: seq<Step>, k: int, error: string) {
    && 0 <= k < |steps| && RecordsError(outcomes, steps[k]) && outcomes[steps[k].i].error == error
    && forall j :: 0 <= j < k ==> !RecordsError(outcomes, steps[j])
  }

  /** The error kept is that of the first goroutine to record one, in the order of the run. */
  lemma {:induction false} FirstToRecord<T>(outcomes: seq<Outcome<T>>, steps: seq<Step>)
    requires Run(outcomes, steps).Some?
    ensures var s := Run(outcomes, steps).value;
            if forall k :: 0 <= k < |steps| ==> !RecordsError(outcomes, steps[k]) then s.firstErr == None
            else s.firstErr.Some? && exists k :: IsFirstError(outcomes, steps, k, s.firstErr.value)
  {
    if steps != [] {
      var n := |steps| - 1;
      var front, step := steps[..n], steps[n];
      FirstToRecord(outcomes, front);
      var s := Run(outcomes, front).value;
      assert Run(outcomes, steps).value.firstErr == FirstErrAfter(s, outcomes, step);
      hide Run, Apply, Enabled;
      assert forall k :: 0 <= k < n ==> front[k] == steps[k];
      if s.firstErr.Some? {
        var k :| IsFirstError(outcomes, front, k, s.firstErr.value);
        assert IsFirstError(outcomes, steps, k, s.firstErr.value);
      } else if RecordsError(outcomes, step) {
        assert IsFirstError(outcomes, steps, n, outcomes[step.i].error);
      }
    }
  }

  // ----- Progress

  /** The step goroutine `i` takes next. */
  function NextStep(i: nat, p: Phase): Step
    requires p != Idle && p != Finished
  {
    match p
    case Spawned => Acquire(i)
    case Fetching => Fetch(i)
    case Fetched => Lock(i)
    case Locked => Count(i)
    case Counted => Record(i)
    case Recorded => Unlock(i)
    case Unlocked => Release(i)
    case Released => Exit(i)
  }

  /** No reachable state is stuck before the call has returned. */
  lemma NeverStuck<T>(outcomes: seq<Outcome<T>>, steps: seq<Step>) returns (step: Step)
    requires Run(outcomes, steps).Some? && Run(outcomes, steps).value.returned.None?
    ensures Run(outcomes, steps + [step]).Some?
  {
    ReachableInv(outcomes, steps);
    var s := Run(outcomes, steps).value;
    if s.launching {
      step := if s.launched < |outcomes| then Launch else LastLaunched;
    } else if s.waiting == 0 {
      step := Return;
    } else {
      step := GoroutineCanMove(s, outcomes);
    }
    assert (steps + [step])[..|steps|] == steps;
  }

  lemma GoroutineCanMove<T>(s: State<T>, outcomes: seq<Outcome<T>>) returns (step: Step)
    requires Inv(s, outcomes) && s.waiting > 0
    ensures Enabled(s, |outcomes|, step)
  {
    hide Slots, Concluded;
    if s.mutex.Some? {
      step := NextStep(s.mutex.value, s.phases[s.mutex.value]);
    } else if s.semaphore > 0 {
      TallyZero(s.phases, outcomes, HoldsSemaphore);
      var i :| 0 <= i < |s.phases| && HoldsSemaphore(s.phases[i], outcomes[i]);
      step := NextStep(i, s.phases[i]);
    } else {
      TallyZero(s.phases, outcomes, IsWaitedFor);
      var i :| 0 <= i < |s.phases| && IsWaitedFor(s.phases[i], outcomes[i]);
      step := NextStep(i, s.phases[i]);
    }
  }

  function StepsTaken(phases: seq<Phase>): nat {
    if phases == [] then 0 else StepsTaken(phases[..|phases| - 1]) + Rank(phases[|phases| - 1])
  }

  lemma {:induction false} StepsTakenUpdate(phases: seq<Phase>, i: nat, p: Phase)
    requires i < |phases|
    ensures StepsTaken(phases[i := p]) + Rank(phases[i]) == StepsTaken(phases) + Rank(p)
  {
    var n := |phases| - 1;
    if i < n {
      StepsTakenUpdate(phases[..n], i, p);
      assert phases[i := p][..n] == phases[..n][i := p];
    } else {
      assert phases[i := p][..n] == phases[..n];
    }
  }

  lemma {:induction false} StepsTakenAll(phases: seq<Phase>, m: nat)
    requires m <= |phases|
    requires forall i :: 0 <= i < |phases| ==> phases[i] == if i < m then Finished else Idle
    ensures StepsTaken(phases) == 9 * m
  {
    if phases != [] {
      StepsTakenAll(phases[..|phases| - 1], Min(m, |phases| - 1));
    }
  }

  lemma StepTaken<T>(s: State<T>, outcomes: seq<Outcome<T>>, step: Step)
    requires |s.phases| == |s.results| == |outcomes|
    requires Control(s, outcomes) && Enabled(s, |outcomes|, step)
    ensures StepsTaken(Apply(s, outcomes, step).phases) == StepsTaken(s.phases) + (if Moves(step) then 1 else 0)
  {
    StepMoves(s, outcomes, step);
    if Moves(step) {
      var (i, p) := Moved(s, step);
      StepsTakenUpdate(s.phases, i, p);
    }
  }

  function Flags<T>(s: State<T>): nat {
    (if s.launching then 0 else 1) + (if s.returned.None? then 0 else 1)
  }

  lemma FlagsStep<T>(s: State<T>, outcomes: seq<Outcome<T>>, step: Step)
    requires |s.phases| == |s.results| == |outcomes| && Enabled(s, |outcomes|, step)
    ensures Flags(Apply(s, outcomes, step)) == Flags(s) + if Moves(step) then 0 else 1
  {
  }

  /** A run is as long as the steps its goroutines, its launcher and its return have taken. */
  lemma {:induction false} RunLength<T>(outcomes: seq<Outcome<T>>, steps: seq<Step>)
    requires Run(outcomes, steps).Some?
    ensures var s := Run(outcomes, steps).value;
            |steps| == StepsTaken(s.phases) + Flags(s)
  {
    if steps == [] {
      StepsTakenAll(Run(outcomes, steps).value.phases, 0);
    } else {
      var front, step := steps[..|steps| - 1], steps[|steps| - 1];
      RunLength(outcomes, front);
      ReachableInv(outcomes, front);
      StepTaken(Run(outcomes, front).value, outcomes, step);
      FlagsStep(Run(outcomes, front).value, outcomes, step);
    }
  }

  lemma {:induction false} StepsTakenBounded(phases: seq<Phase>)
    ensures StepsTaken(phases) <= 9 * |phases|
  {
    if phases != [] {
      StepsTakenBounded(phases[..|phases| - 1]);
    }
  }

  /** No interleaving goes on for ever: with `NeverStuck`, every run can be completed, and in a bounded number of
      steps. */
  lemma RunsAreBounded<T>(outcomes: seq<Outcome<T>>, steps: seq<Step>)
    requires Run(outcomes, steps).Some?
    ensures |steps| <= 9 * |outcomes| + 2
  {
    RunLength(outcomes, steps);
    StepsTakenBounded(Run(outcomes, steps).value.phases);
  }

  // ----- What is returned

  function Successes<T>(outcomes: seq<Outcome<T>>): seq<T> {
    if outcomes == [] then []
    else
      var last := outcomes[|outcomes| - 1];
      Successes(outcomes[..|outcomes| - 1]) + if last.Read? then [last.value] else []
  }

  function Failures<T>(outcomes: seq<Outcome<T>>): nat {
    if outcomes == [] then 0
    else Failures(outcomes[..|outcomes| - 1]) + if outcomes[|outcomes| - 1].Read? then 0 else 1
  }

  /** The values read, by increasing index, and the number of outcomes that are no reading. */
  lemma {:induction false} SuccessesAre<T>(outcomes: seq<Outcome<T>>) returns (at: seq<nat>)
    ensures |at| == |Successes(outcomes)|
    ensures forall k :: 0 <= k < |at| ==> at[k] < |outcomes| && outcomes[at[k]] == Read(Successes(outcomes)[k])
    ensures forall j, k :: 0 <= j < k < |at| ==> at[j] < at[k]
    ensures forall i :: 0 <= i < |outcomes| && outcomes[i].Read? ==> i in at
    ensures Failures(outcomes) == |IndicesOf(outcomes, (o: Outcome<T>) => !o.Read?)|
  {
    at := [];
    var failed := (o: Outcome<T>) => !o.Read?;
    if outcomes == [] {
      assert IndicesOf(outcomes, failed) == {};
    } else {
      var front, last := outcomes[..|outcomes| - 1], outcomes[|outcomes| - 1];
      at := SuccessesAre(front);
      IndicesSnoc(front, last, failed);
      assert front + [last] == outcomes;
      if last.Read? {
        at := at + [|front|];
      }
    }
  }

  lemma {:induction false} CollectFinished<T>(outcomes: seq<Outcome<T>>, results: seq<Option<T>>, m: nat)
    requires |outcomes| == |results| && m <= |outcomes|
    requires forall i :: 0 <= i < |outcomes| ==>
      results[i] == if i < m && outcomes[i].Read? then Some(outcomes[i].value) else None
    ensures Collect(results) == Successes(outcomes[..m])
  {
    if outcomes != [] {
      var n := |outcomes| - 1;
      CollectFinished(outcomes[..n], results[..n], Min(m, n));
      if m <= n {
        assert outcomes[..n][..m] == outcomes[..m];
      } else {
        assert outcomes[..m] == outcomes && outcomes[..n][..n] == outcomes[..n];
      }
    }
  }

  lemma {:induction false} TallyFinished<T>(phases: seq<Phase>, outcomes: seq<Outcome<T>>, m: nat)
    requires |phases| == |outcomes| && m <= |phases|
    requires forall i :: 0 <= i < |phases| ==> phases[i] == if i < m then Finished else Idle
    ensures Tally(phases, outcomes, IsFailure) == Failures(outcomes[..m])
    ensures Tally(phases, outcomes, IsCounted) == m
  {
    if phases != [] {
      var n := |phases| - 1;
      TallyFinished(phases[..n], outcomes[..n], Min(m, n));
      if m <= n {
        assert outcomes[..n][..m] == outcomes[..m];
      } else {
        assert outcomes[..m] == outcomes && outcomes[..n][..n] == outcomes[..n];
      }
    }
  }

  /** Whatever the interleaving, a call that stopped launching after `m` requests returns what was read among the
      first `m`, in input order, and how many of them failed. It is an error exactly when nothing was read and some
      request itself failed, and then the error is one of theirs. */
  lemma Deterministic<T>(outcomes: seq<Outcome<T>>, steps: seq<Step>)
    requires Run(outcomes, steps).Some? && Run(outcomes, steps).value.returned.Some?
    ensures var s := Run(outcomes, steps).value;
            var launched := outcomes[..Min(s.launched, |outcomes|)];
            var report := s.returned.value;
            && s.launched <= |outcomes|
            && report.items == Successes(launched) && report.failed == Failures(launched)
            && s.done == s.launched && |steps| == 9 * s.launched + 2
            && (report.error.Some? <==>
                  Successes(launched) == [] && exists i :: 0 <= i < |launched| && launched[i].GetFailed?)
            && (report.error.Some? ==> exists i :: 0 <= i < |launched| && launched[i] == GetFailed(report.error.value))
  {
    hide Run, Collect, Successes, Failures, StepsTaken, Tally;
    ReachableInv(outcomes, steps);
    RunLength(outcomes, steps);
    var s := Run(outcomes, steps).value;
    AllFinished(s, outcomes);
    StepsTakenAll(s.phases, s.launched);
    CollectFinished(outcomes, s.results, s.launched);
    TallyFinished(s.phases, outcomes, s.launched);
    SomeFailureCounted(outcomes[..s.launched]);
    FirstErrorKnown(s, outcomes);
  }

  /** When nothing is waited for, exactly the launched prefix has finished. */
  lemma AllFinished<T>(s: State<T>, outcomes: seq<Outcome<T>>)
    requires Inv(s, outcomes) && s.waiting == 0
    ensures forall i :: 0 <= i < |s.phases| ==> s.phases[i] == if i < s.launched then Finished else Idle
  {
    TallyZero(s.phases, outcomes, IsWaitedFor);
  }

  lemma FirstErrorKnown<T>(s: State<T>, outcomes: seq<Outcome<T>>)
    requires |s.phases| == |s.results| == |outcomes| && Slots(s, outcomes) && s.launched <= |outcomes|
    requires forall i :: 0 <= i < |s.phases| ==> s.phases[i] == if i < s.launched then Finished else Idle
    ensures var launched := outcomes[..s.launched];
            && (s.firstErr.Some? <==> exists i :: 0 <= i < |launched| && launched[i].GetFailed?)
            && (s.firstErr.Some? ==> exists i :: 0 <= i < |launched| && launched[i] == GetFailed(s.firstErr.value))
  {
    var launched := outcomes[..s.launched];
    if s.firstErr.Some? {
      var i :| RecordedError(s, outcomes, i) && outcomes[i].error == s.firstErr.value;
      assert launched[i] == GetFailed(s.firstErr.value);
    }
    if i :| 0 <= i < |launched| && launched[i].GetFailed? {
      assert RecordedError(s, outcomes, i);
    }
  }

  lemma {:induction false} SomeFailureCounted<T>(outcomes: seq<Outcome<T>>)
    ensures (exists i :: 0 <= i < |outcomes| && outcomes[i].GetFailed?) ==> Failures(outcomes) > 0
  {
    if outcomes != [] {
      SomeFailureCounted(outcomes[..|outcomes| - 1]);
    }
  }

  /** Two complete runs over the same outcomes, cancelled at the same point, return the same thing. */
  lemma SameReport<T>(outcomes: seq<Outcome<T>>, steps: seq<Step>, others: seq<Step>)
    requires Run(outcomes, steps).Some? && Run(outcomes, steps).value.returned.Some?
    requires Run(outcomes, others).Some? && Run(outcomes, others).value.returned.Some?
    requires Run(outcomes, steps).value.launched == Run(outcomes, others).value.launched
    ensures var a, b := Run(outcomes, steps).value.returned.value, Run(outcomes, others).value.returned.value;
            a.items == b.items && a.failed == b.failed && (a.error.Some? <==> b.error.Some?)
  {
    Deterministic(outcomes, steps);
    Deterministic(outcomes, others);
  }
}
