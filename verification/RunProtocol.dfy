/** The life of one audit run: any number of queue deliveries, worker failures,
    lost workers, cancels and other user actions interleave over a single database
    row, each writing it atomically (audit_engine/tasks.py:422-556,
    app/domain/workflow.py:34-219, app/domain/tasks.py:167-215). */
module RunProtocol {
  import opened Outcomes

  datatype RunState =
    | Draft | Collecting | Auditing | Gate1Review | Planning | Generating | Gate2Review
    | FinalQa | Packaged | Approved | RevisionRequested | Failed | Cancelled

  /** The transitions a user may ask for. */
  function AllowedTransitions(state: RunState): set<RunState> {
    match state
    case Draft => {Collecting, Cancelled}
    case Collecting => {Auditing, Failed, Cancelled}
    case Auditing => {Gate1Review, Failed, Cancelled}
    case Gate1Review => {Planning, RevisionRequested, Cancelled}
    case Planning => {Generating, Failed, Cancelled}
    case Generating => {Gate2Review, Failed, Cancelled}
    case Gate2Review => {FinalQa, RevisionRequested, Cancelled}
    case FinalQa => {Packaged, RevisionRequested, Failed, Cancelled}
    case Packaged => {Approved, RevisionRequested}
    case RevisionRequested => {Planning, Generating, FinalQa, Cancelled}
    case Failed => {Collecting, Auditing, Planning, Generating, FinalQa, Cancelled}
    case Approved => {}
    case Cancelled => {}
  }

  /** The same table by target: from where a user may move a run to this state. */
  function Origins(to: RunState): set<RunState> {
    match to
    case Draft => {}
    case Collecting => {Draft, Failed}
    case Auditing => {Collecting, Failed}
    case Gate1Review => {Auditing}
    case Planning => {Gate1Review, RevisionRequested, Failed}
    case Generating => {Planning, RevisionRequested, Failed}
    case Gate2Review => {Generating}
    case FinalQa => {Gate2Review, RevisionRequested, Failed}
    case Packaged => {FinalQa}
    case Approved => {Packaged}
    case RevisionRequested => {Gate1Review, Gate2Review, FinalQa, Packaged}
    case Failed => {Collecting, Auditing, Planning, Generating, FinalQa}
    case Cancelled =>
      {Draft, Collecting, Auditing, Gate1Review, Planning, Generating, Gate2Review, FinalQa, RevisionRequested, Failed}
  }

  /** In particular every state can be cancelled but a packaged run and the two that
      are over, nothing leads back to a draft, and only a packaged run is approved. */
  lemma AllowedIffOrigin(from: RunState, to: RunState)
    ensures to in AllowedTransitions(from) <==> from in Origins(to)
    ensures Cancelled in AllowedTransitions(from) <==> !from.Packaged? && !from.Approved? && !from.Cancelled?
  {
  }

  datatype Row = Row(state: RunState, version: nat)

  // ------------------------------------------------- the atomic row writes

  function ClaimRow(row: Row): Option<Row> {
    if row.state in {Draft, Failed} then Some(row.(state := Collecting)) else None
  }

  /** `_advance_run`: a write that a cancel always beats. */
  function AdvanceRow(row: Row, state: RunState, version: Option<nat>): Option<Row> {
    if row.state == Cancelled then None
    else Some(Row(state, if version.Some? then version.value else row.version))
  }

  function TransitionRow(row: Row, to: RunState, expected: nat): Option<Row> {
    if row.version == expected && to in AllowedTransitions(row.state) then Some(Row(to, row.version + 1)) else None
  }

  // ------------------------------------------------ the transition system

  /** Where a worker stands between its claim and its last row write. */
  datatype Phase = Crawling | Judging | Finishing

  /** A worker in flight; `version` is its in-memory copy of the row's. */
  datatype Worker = Worker(phase: Phase, version: nat)

  /** `evidence` names the attempts whose crawl rows the database holds. */
  datatype System = System(row: Row, workers: map<nat, Worker>, evidence: set<nat>)

  datatype Step =
    | Deliver(id: nat)                         // a queue message reaches a worker
    | Collect(id: nat)                         // it stores a crawl row
    | EnterAudit(id: nat)                      // it moves the run to AUDITING
    | EnterReview(id: nat)                     // it moves the run to GATE_1_REVIEW
    | Finish(id: nat)                          // it returns
    | Fail(id: nat)                            // it raises, and writes FAILED
    | Lose(id: nat)                            // its process dies without a write
    | User(to: RunState, expected: nat)        // a transition asked for by a user
    | Decide(expected: nat)                    // an approval decision
    | Scan                                     // the stale-stage scanner fires

  function Without(workers: map<nat, Worker>, id: nat): (others: map<nat, Worker>)
    ensures others.Keys == workers.Keys - {id} && forall k :: k in others ==> others[k] == workers[k]
  {
    workers - {id}
  }

  predicate Enabled(s: System, step: Step) {
    match step
    case Deliver(id) => id !in s.workers && id !in s.evidence
    case Collect(id) => id in s.workers && s.workers[id].phase == Crawling
    case EnterAudit(id) => id in s.workers && s.workers[id].phase == Crawling
    case EnterReview(id) => id in s.workers && s.workers[id].phase == Judging
    case Finish(id) => id in s.workers && s.workers[id].phase == Finishing
    case Fail(id) => id in s.workers
    case Lose(id) => id in s.workers
    case User(to, expected) => TransitionRow(s.row, to, expected).Some?
    case Decide(expected) => s.row.version == expected
    case Scan => s.row.state !in {Approved, Cancelled}
  }

  function Apply(s: System, step: Step): System
    requires Enabled(s, step)
  {
    match step
    case Deliver(id) =>
      // a claim of a failed run first clears the failed attempt's rows
      if ClaimRow(s.row).None? then s
      else System(ClaimRow(s.row).value, s.workers[id := Worker(Crawling, s.row.version)],
                  if s.row.state == Failed then {} else s.evidence)
    case Collect(id) => s.(evidence := s.evidence + {id})
    case EnterAudit(id) =>
      var w := s.workers[id];
      var row := AdvanceRow(s.row, Auditing, None);
      if row.None? then s.(workers := Without(s.workers, id))
      else s.(row := row.value, workers := s.workers[id := w.(phase := Judging)])
    case EnterReview(id) =>
      var w := s.workers[id];
      var row := AdvanceRow(s.row, Gate1Review, Some(w.version + 1));
      if row.None? then s.(workers := Without(s.workers, id))
      else s.(row := row.value, workers := s.workers[id := Worker(Finishing, w.version + 1)])
    case Finish(id) => s.(workers := Without(s.workers, id))
    case Fail(id) =>
      var row := AdvanceRow(s.row, Failed, Some(s.workers[id].version + 1));
      System(if row.Some? then row.value else s.row, Without(s.workers, id), s.evidence)
    case Lose(id) => s.(workers := Without(s.workers, id))
    case User(to, expected) => s.(row := TransitionRow(s.row, to, expected).value)
    case Decide(expected) => s.(row := s.row.(version := s.row.version + 1))
    case Scan => s.(row := Row(Failed, s.row.version + 1))
  }

  const START := System(Row(Draft, 1), map[], {})

  /** A run of the system: `states[k + 1]` follows `states[k]` by `steps[k]`. */
  ghost predicate Run(states: seq<System>, steps: seq<Step>) {
    && |states| == |steps| + 1 && states[0] == START
    && (forall k :: 0 <= k < |steps| ==> Enabled(states[k], steps[k]) && states[k + 1] == Apply(states[k], steps[k]))
  }

  // ------------------------------------------------------ the stored system

  /** The stored row, written in place. */
  class StoredRun {
    var state: RunState
    var version: nat

    ghost function Value(): Row
      reads this
    {
      Row(state, version)
    }

    constructor ()
      ensures Value() == Row(Draft, 1)
    {
      state, version := Draft, 1;
    }

    /** The claim under the row lock; a retry follows a failed attempt. */
    method Claim() returns (claimed: bool, retry: bool)
      modifies this
      ensures claimed <==> old(state) in {Draft, Failed}
      ensures retry <==> old(state) == Failed
      ensures version == old(version) && state == if claimed then Collecting else old(state)
    {
      retry := state == Failed;
      if state !in {Draft, Failed} {
        return false, retry;
      }
      state := Collecting;
      claimed := true;
    }

    /** `_advance_run`. */
    method Advance(to: RunState, newVersion: Option<nat>) returns (updated: bool)
      modifies this
      ensures updated <==> old(state) != Cancelled
      ensures !updated ==> Value() == old(Value())
      ensures updated ==> state == to && version == if newVersion.Some? then newVersion.value else old(version)
    {
      if state == Cancelled {
        return false;
      }
      state := to;
      if newVersion.Some? {
        version := newVersion.value;
      }
      return true;
    }

    /** A user's transition. */
    method Transition(to: RunState, expected: nat) returns (moved: bool)
      modifies this
      ensures moved <==> old(version) == expected && to in AllowedTransitions(old(state))
      ensures Value() == if moved then Row(to, expected + 1) else old(Value())
    {
      if version != expected || to !in AllowedTransitions(state) {
        return false;
      }
      state, version := to, version + 1;
      return true;
    }

    /** An approval decision moves the version only. */
    method Decide(expected: nat) returns (decided: bool)
      modifies this
      ensures decided <==> old(version) == expected
      ensures state == old(state) && version == if decided then expected + 1 else old(version)
    {
      if version != expected {
        return false;
      }
      version := version + 1;
      return true;
    }

    /** The scanner fails every run that is not over. */
    method MarkStale()
      modifies this
      ensures Value() == if old(state) in {Approved, Cancelled} then old(Value()) else Row(Failed, old(version) + 1)
    {
      if state !in {Approved, Cancelled} {
        state, version := Failed, version + 1;
      }
    }
  }

  /** The row, the copies workers hold of it, and the crawl rows in the database. */
  class RunSystem {
    const run: StoredRun
    var workers: map<nat, Worker>
    var evidence: set<nat>

    ghost function Value(): System
      reads this, run
    {
      System(run.Value(), workers, evidence)
    }

    constructor ()
      ensures fresh(run) && Value() == START
    {
      run := new StoredRun();
      workers, evidence := map[], {};
    }

    /** A worker takes the run up, or leaves it alone. */
    method TakeUp(id: nat)
      requires Enabled(Value(), Deliver(id))
      modifies this, run
      ensures Value() == Apply(old(Value()), Deliver(id))
    {
      var claimed, retry := run.Claim();
      if claimed {
        if retry { evidence := {}; }
        workers := workers[id := Worker(Crawling, run.version)];
      }
    }

    /** The worker's own row writes: a cancel found there ends it. */
    method MoveOn(id: nat, step: Step)
      requires step in {EnterAudit(id), EnterReview(id)} && Enabled(Value(), step)
      modifies this, run
      ensures Value() == Apply(old(Value()), step)
    {
      var worker := workers[id];
      var updated;
      if step.EnterAudit? {
        updated := run.Advance(Auditing, None);
        worker := worker.(phase := Judging);
      } else {
        updated := run.Advance(Gate1Review, Some(worker.version + 1));
        worker := Worker(Finishing, worker.version + 1);
      }
      workers := if updated then workers[id := worker] else Without(workers, id);
    }

    /** Any one step. */
    method Perform(step: Step)
      requires Enabled(Value(), step)
      modifies this, run
      ensures Value() == Apply(old(Value()), step)
    {
      match step
      case Deliver(id) => TakeUp(id);
      case Collect(id) => evidence := evidence + {id};
      case EnterAudit(id) => MoveOn(id, step);
      case EnterReview(id) => MoveOn(id, step);
      case Finish(id) => workers := Without(workers, id);
      case Fail(id) =>
        var updated := run.Advance(Failed, Some(workers[id].version + 1));
        workers := Without(workers, id);
      case Lose(id) => workers := Without(workers, id);
      case User(to, expected) => var moved := run.Transition(to, expected);
      case Decide(expected) => var decided := run.Decide(expected);
      case Scan => run.MarkStale();
    }

    /** Whatever is asked for, in any order: the steps that were possible are
        performed and make up a run.  At most one worker is ever in flight exactly
        if none of them collided, and the version never dropped exactly if none
        of them reverted it. */
    method Execute(schedule: seq<Step>) returns (ghost states: seq<System>, ghost steps: seq<Step>)
      requires Value() == START
      modifies this, run
      ensures Run(states, steps) && steps == Performed(schedule) && Value() == states[|steps|]
      ensures (forall k :: 0 <= k < |states| ==> AtMostOneInFlight(states[k]))
         <==> (forall k :: 0 <= k < |steps| ==> !Collides(states[k], steps[k]))
      ensures VersionsGrow(states) <==> forall k :: 0 <= k < |steps| ==> !Reverts(states[k], steps[k])
    {
      states, steps := [START], [];
      for i := 0 to |schedule|
        invariant Run(states, steps) && steps == Performed(schedule[..i])
        invariant Value() == states[|steps|] == After(schedule[..i])
      {
        assert schedule[..i + 1][..i] == schedule[..i];
        var possible := IsPossible(schedule[i]);
        if possible {
          RunGoesOn(states, steps, schedule[i]);
          Perform(schedule[i]);
          states, steps := states + [Value()], steps + [schedule[i]];
        }
      }
      assert schedule[..|schedule|] == schedule;
      ExclusionIff(states, steps);
      VersionsGrowIff(states, steps);
    }

    method IsPossible(step: Step) returns (possible: bool)
      ensures possible == Enabled(Value(), step)
    {
      match step
      case Deliver(id) => possible := id !in workers && id !in evidence;
      case Collect(id) => possible := id in workers && workers[id].phase == Crawling;
      case EnterAudit(id) => possible := id in workers && workers[id].phase == Crawling;
      case EnterReview(id) => possible := id in workers && workers[id].phase == Judging;
      case Finish(id) => possible := id in workers && workers[id].phase == Finishing;
      case Fail(id) => possible := id in workers;
      case Lose(id) => possible := id in workers;
      case User(to, expected) => possible := run.version == expected && to in AllowedTransitions(run.state);
      case Decide(expected) => possible := run.version == expected;
      case Scan => possible := run.state !in {Approved, Cancelled};
    }
  }

  /** The state after a schedule whose impossible steps are passed over. */
  ghost function After(schedule: seq<Step>): System {
    if schedule == [] then START
    else
      var s, step := After(schedule[..|schedule| - 1]), schedule[|schedule| - 1];
      if Enabled(s, step) then Apply(s, step) else s
  }

  ghost function Performed(schedule: seq<Step>): seq<Step> {
    if schedule == [] then []
    else
      var n := |schedule| - 1;
      Performed(schedule[..n]) + (if Enabled(After(schedule[..n]), schedule[n]) then [schedule[n]] else [])
  }

  lemma RunGoesOn(states: seq<System>, steps: seq<Step>, step: Step)
    requires Run(states, steps) && Enabled(states[|steps|], step)
    ensures Run(states + [Apply(states[|steps|], step)], steps + [step])
  {
  }

  // ------------------------------------------------------- what every step keeps

  /** Cancelling is final: whatever happens next, by anyone, the run stays
      cancelled, and only an approval decision still touches its row. */
  lemma {:induction false} CancelledStaysCancelled(states: seq<System>, steps: seq<Step>, i: nat, j: nat)
    requires Run(states, steps) && i <= j < |states| && states[i].row.state == Cancelled
    ensures states[j].row.state == Cancelled
    ensures (forall k :: i <= k < j ==> !steps[k].Decide?) ==> states[j].row == states[i].row
  {
    if i < j {
      CancelledStaysCancelled(states, steps, i, j - 1);
    }
  }

  /** A run that was never claimed has no crawl rows: only a retry has anything to
      clear. */
  lemma {:induction false} DraftHasNoEvidence(states: seq<System>, steps: seq<Step>, j: nat)
    requires Run(states, steps) && j < |states| && states[j].row.state == Draft
    ensures states[j].evidence == {} && states[j].workers == map[]
  {
    if j > 0 && states[j - 1].row.state == Draft { DraftHasNoEvidence(states, steps, j - 1); }
  }

  /** What a worker in flight knows of the row, unless a cancel intervened. */
  predicate InStep(row: Row, w: Worker) {
    row.state == Cancelled
    || (row.version == w.version
        && match w.phase
           case Crawling => row.state == Collecting
           case Judging => row.state == Auditing
           case Finishing => row.state == Gate1Review)
  }

  predicate AtMostOneInFlight(s: System) {
    forall a, b :: a in s.workers && b in s.workers ==> a == b
  }

  /** A delivery finds the run claimable while a worker is still in flight. */
  predicate Collides(s: System, step: Step) {
    step.Deliver? && s.row.state in {Draft, Failed} && s.workers != map[]
  }

  /** A worker writes its successor of a version that the row has left behind. */
  predicate Reverts(s: System, step: Step) {
    && (step.EnterReview? || step.Fail?) && step.id in s.workers
    && s.row.state != Cancelled && s.workers[step.id].version + 1 < s.row.version
  }

  lemma StepExcludesIff(s: System, step: Step)
    requires Enabled(s, step) && AtMostOneInFlight(s)
    ensures AtMostOneInFlight(Apply(s, step)) <==> !Collides(s, step)
  {
    var t := Apply(s, step);
    if Collides(s, step) {
      var other :| other in s.workers;
      assert other in t.workers && step.id in t.workers && other != step.id;
    } else if step.Deliver? && ClaimRow(s.row).Some? {
      assert t.workers.Keys == {step.id};
    } else {
      assert t.workers.Keys <= s.workers.Keys;
    }
  }

  /** Mutual exclusion over whole runs: at most one worker is in flight in every
      state, if and only if no delivery collides. */
  lemma {:induction false} ExclusionIff(states: seq<System>, steps: seq<Step>)
    requires Run(states, steps)
    ensures (forall k :: 0 <= k < |states| ==> AtMostOneInFlight(states[k]))
       <==> (forall k :: 0 <= k < |steps| ==> !Collides(states[k], steps[k]))
  {
    if forall k :: 0 <= k < |states| ==> AtMostOneInFlight(states[k]) {
      forall k | 0 <= k < |steps|
        ensures !Collides(states[k], steps[k])
      {
        assert AtMostOneInFlight(states[k + 1]);
        StepExcludesIff(states[k], steps[k]);
      }
    }
    if forall k :: 0 <= k < |steps| ==> !Collides(states[k], steps[k]) {
      forall k | 0 <= k < |states|
        ensures AtMostOneInFlight(states[k])
      {
        ExcludedUpTo(states, steps, k);
      }
    }
  }

  lemma {:induction false} ExcludedUpTo(states: seq<System>, steps: seq<Step>, k: nat)
    requires Run(states, steps) && k < |states|
    requires forall i :: 0 <= i < |steps| ==> !Collides(states[i], steps[i])
    ensures AtMostOneInFlight(states[k])
  {
    if k > 0 {
      ExcludedUpTo(states, steps, k - 1);
      StepExcludesIff(states[k - 1], steps[k - 1]);
    }
  }

  ghost predicate VersionsGrow(states: seq<System>) {
    forall i, j :: 0 <= i <= j < |states| ==> states[i].row.version <= states[j].row.version
  }

  lemma StepRevertsIff(s: System, step: Step)
    requires Enabled(s, step)
    ensures Apply(s, step).row.version < s.row.version <==> Reverts(s, step)
  {
  }

  /** Version order over whole runs: the version never drops, if and only if no
      worker writes the successor of a version left behind. */
  lemma {:induction false} VersionsGrowIff(states: seq<System>, steps: seq<Step>)
    requires Run(states, steps)
    ensures VersionsGrow(states) <==> forall k :: 0 <= k < |steps| ==> !Reverts(states[k], steps[k])
  {
    if VersionsGrow(states) {
      forall k | 0 <= k < |steps|
        ensures !Reverts(states[k], steps[k])
      {
        StepRevertsIff(states[k], steps[k]);
        assert states[k].row.version <= states[k + 1].row.version;
      }
    }
    if forall k :: 0 <= k < |steps| ==> !Reverts(states[k], steps[k]) {
      forall i, j | 0 <= i <= j < |states|
        ensures states[i].row.version <= states[j].row.version
      {
        GrownUpTo(states, steps, i, j);
      }
    }
  }

  lemma {:induction false} GrownUpTo(states: seq<System>, steps: seq<Step>, i: nat, j: nat)
    requires Run(states, steps) && i <= j < |states|
    requires forall k :: 0 <= k < |steps| ==> !Reverts(states[k], steps[k])
    ensures states[i].row.version <= states[j].row.version
  {
    if i < j {
      GrownUpTo(states, steps, i, j - 1);
      StepRevertsIff(states[j - 1], steps[j - 1]);
    }
  }

  // ----------------------------------------- version order, on the schedule

  /** How often users and the scanner moved the version since the worker claimed the
      run or last wrote a version itself. */
  function Overtaken(steps: seq<Step>, id: nat): nat {
    if steps == [] then 0
    else
      var front, last := steps[..|steps| - 1], steps[|steps| - 1];
      if last in {Deliver(id), EnterReview(id)} then 0
      else Overtaken(front, id) + (if last.User? || last.Decide? || last.Scan? then 1 else 0)
  }

  predicate IsCancelledBy(steps: seq<Step>) {
    exists i :: 0 <= i < |steps| && steps[i].User? && steps[i].to == Cancelled
  }

  /** A worker is overtaken twice, and then writes a version, no cancel having come
      between. */
  predicate WritesLate(before: seq<Step>, step: Step) {
    (step.EnterReview? || step.Fail?) && !IsCancelledBy(before) && Overtaken(before, step.id) >= 2
  }

  /** The row is ahead of each worker by what overtook it. */
  ghost predicate Tallied(s: System, before: seq<Step>) {
    forall id :: id in s.workers ==> s.row.version == s.workers[id].version + Overtaken(before, id)
  }

  lemma {:induction false} OvertakenOneMore(before: seq<Step>, step: Step, id: nat)
    ensures Overtaken(before + [step], id) ==
      if step in {Deliver(id), EnterReview(id)} then 0
      else Overtaken(before, id) + (if step.User? || step.Decide? || step.Scan? then 1 else 0)
  {
    assert (before + [step])[..|before|] == before;
  }

  lemma {:induction false} StepTallies(s: System, before: seq<Step>, step: Step)
    requires Enabled(s, step) && AtMostOneInFlight(s) && !Collides(s, step) && Tallied(s, before)
    ensures Tallied(Apply(s, step), before + [step])
  {
    var t := Apply(s, step);
    forall id | id in t.workers
      ensures t.row.version == t.workers[id].version + Overtaken(before + [step], id)
    {
      OvertakenOneMore(before, step, id);
    }
  }

  /** The state before step `k`, told by the steps before it. */
  lemma {:induction false} TalliedUpTo(states: seq<System>, steps: seq<Step>, k: nat)
    requires Run(states, steps) && k < |states|
    requires forall i :: 0 <= i < |steps| ==> !Collides(states[i], steps[i])
    ensures Tallied(states[k], steps[..k])
  {
    if k > 0 {
      TalliedUpTo(states, steps, k - 1);
      ExcludedUpTo(states, steps, k - 1);
      StepTallies(states[k - 1], steps[..k - 1], steps[k - 1]);
      assert steps[..k] == steps[..k - 1] + [steps[k - 1]];
    }
  }

  lemma {:induction false} CancelledIffAsked(states: seq<System>, steps: seq<Step>, k: nat)
    requires Run(states, steps) && k < |states|
    ensures states[k].row.state == Cancelled <==> IsCancelledBy(steps[..k])
  {
    if k > 0 {
      CancelledIffAsked(states, steps, k - 1);
      assert forall i :: 0 <= i < k - 1 ==> steps[..k][i] == steps[..k - 1][i];
      assert steps[..k][k - 1] == steps[k - 1];
    }
  }

  /** Version order, read off the schedule: while no delivery collides, the version
      never drops if and only if no worker is overtaken twice and then writes. */
  lemma {:induction false} VersionsGrowIffNoneWritesLate(states: seq<System>, steps: seq<Step>)
    requires Run(states, steps) && forall i :: 0 <= i < |steps| ==> !Collides(states[i], steps[i])
    ensures VersionsGrow(states) <==> forall k :: 0 <= k < |steps| ==> !WritesLate(steps[..k], steps[k])
  {
    VersionsGrowIff(states, steps);
    forall k | 0 <= k < |steps|
      ensures WritesLate(steps[..k], steps[k]) <==> Reverts(states[k], steps[k])
    {
      TalliedUpTo(states, steps, k);
      CancelledIffAsked(states, steps, k);
    }
  }

  // ------------------------------------------------------------- quiet runs

  /** The invariant of quiet runs: exclusion, one attempt's evidence, and workers
      that know the row. */
  ghost predicate Safe(s: System) {
    && AtMostOneInFlight(s)
    && (forall id :: id in s.workers ==> InStep(s.row, s.workers[id]) && s.workers[id].version <= s.row.version)
    && (forall a, b :: a in s.evidence && b in s.evidence ==> a == b)
    && (forall a, id :: a in s.evidence && id in s.workers ==> a == id)
    && (s.row.state == Draft ==> s.evidence == {} && s.workers == map[])
  }

  /** Steps that overwrite the row without asking whether a worker is in
      flight: the scanner, and any user action but a cancel. */
  predicate Overwrites(step: Step) {
    step.Scan? || step.Decide? || (step.User? && step.to != Cancelled)
  }

  /** An overwriting step is quiet when it finds no worker in flight, or a
      cancelled run. */
  predicate Quiet(s: System, step: Step) {
    Overwrites(step) ==> s.workers == map[] || s.row.state == Cancelled
  }

  lemma QuietStepIsSafe(s: System, step: Step)
    requires Safe(s) && Enabled(s, step) && Quiet(s, step)
    ensures Safe(Apply(s, step))
    ensures s.row.version <= Apply(s, step).row.version
  {
  }

  /** After an overwriting step that is not quiet, a worker in flight no longer knows
      the row. */
  lemma NoisyStepIsUnsafe(s: System, step: Step)
    requires Safe(s) && Enabled(s, step) && !Quiet(s, step)
    ensures var t := Apply(s, step); exists id :: id in t.workers && !InStep(t.row, t.workers[id])
  {
    var id :| id in s.workers;
    assert id in Apply(s, step).workers && !InStep(Apply(s, step).row, s.workers[id]);
  }

  /** The invariant holds in every state if and only if every overwriting step was
      quiet.  Being quiet is more than exclusion or version order need. */
  lemma {:induction false} RunIsSafeIffQuiet(states: seq<System>, steps: seq<Step>)
    requires Run(states, steps)
    ensures (forall k :: 0 <= k < |states| ==> Safe(states[k]))
       <==> (forall k :: 0 <= k < |steps| ==> Quiet(states[k], steps[k]))
  {
    if steps != [] {
      var n := |steps| - 1;
      RunIsSafeIffQuiet(states[..n + 1], steps[..n]);
      assert forall k :: 0 <= k < n ==> steps[..n][k] == steps[k];
      assert forall k :: 0 <= k <= n ==> states[..n + 1][k] == states[k];
      if !Safe(states[n]) {
        assert exists k :: 0 <= k < n && !Quiet(states[k], steps[k]) by {
          assert !Safe(states[..n + 1][n]);
        }
      } else {
        if Quiet(states[n], steps[n]) {
          QuietStepIsSafe(states[n], steps[n]);
        } else {
          NoisyStepIsUnsafe(states[n], steps[n]);
          assert !Safe(states[n + 1]) && !Quiet(states[n], steps[n]);
        }
      }
    }
  }

  /** In a quiet run at most one worker is between its claim and its last write,
      and the stored evidence comes from one attempt: that worker's, if there is one. */
  lemma {:induction false} QuietRunsExclude(states: seq<System>, steps: seq<Step>, j: nat)
    requires Run(states, steps) && j < |states|
    requires forall k :: 0 <= k < |steps| ==> Quiet(states[k], steps[k])
    ensures |states[j].workers.Keys| <= 1 && |states[j].evidence| <= 1
    ensures states[j].workers != map[] ==> states[j].evidence <= states[j].workers.Keys
  {
    RunIsSafeIffQuiet(states, steps);
    assert Safe(states[j]);
    AllEqualMeansAtMostOne(states[j].workers.Keys);
    AllEqualMeansAtMostOne(states[j].evidence);
  }

  /** And versions never drop. */
  lemma {:induction false} QuietVersionsGrow(states: seq<System>, steps: seq<Step>, i: nat, j: nat)
    requires Run(states, steps) && i <= j < |states|
    requires forall k :: 0 <= k < |steps| ==> Quiet(states[k], steps[k])
    ensures states[i].row.version <= states[j].row.version
  {
    RunIsSafeIffQuiet(states, steps);
    forall k | 0 <= k < |steps|
      ensures !Reverts(states[k], steps[k])
    {
      assert Safe(states[k]);
      QuietNeverReverts(states[k], steps[k]);
    }
    GrownUpTo(states, steps, i, j);
  }

  lemma QuietNeverReverts(s: System, step: Step)
    requires Safe(s) && Enabled(s, step) && Quiet(s, step)
    ensures !Reverts(s, step)
  {
    QuietStepIsSafe(s, step);
    StepRevertsIff(s, step);
  }

  lemma AllEqualMeansAtMostOne(s: set<nat>)
    requires forall a, b :: a in s && b in s ==> a == b
    ensures |s| <= 1
  {
    if s != {} {
      var a :| a in s;
      assert s == {a};
    }
  }

  // --------------------------------------------- what a noisy step leads to

  /** After a scan that hit a run whose worker was alive, the next delivery puts
      a second worker in flight. */
  lemma ScanLetsASecondWorkerIn(s: System, next: nat)
    requires Safe(s) && s.workers != map[] && Enabled(s, Scan)
    requires next !in s.workers && next !in s.evidence
    ensures Enabled(Apply(s, Scan), Deliver(next))
    ensures |Apply(Apply(s, Scan), Deliver(next)).workers| == 2
  {
    var id :| id in s.workers;
    assert s.workers.Keys == {id};
    var after := Apply(Apply(s, Scan), Deliver(next));
    assert after.workers.Keys == {id, next};
    assert |after.workers| == |after.workers.Keys|;
  }

  /** A scan over a live worker that is then lost is not quiet, and yet harms
      neither exclusion nor version order. */
  lemma NoisyRunCanBeHarmless() returns (states: seq<System>, steps: seq<Step>)
    ensures Run(states, steps) && exists k :: 0 <= k < |steps| && !Quiet(states[k], steps[k])
    ensures (forall k :: 0 <= k < |states| ==> AtMostOneInFlight(states[k])) && VersionsGrow(states)
  {
    steps := [Deliver(1), Scan, Lose(1)];
    var live := map[1 := Worker(Crawling, 1)];
    states := [START, System(Row(Collecting, 1), live, {}),
               System(Row(Failed, 2), live, {}), System(Row(Failed, 2), map[], {})];
    assert Apply(states[0], steps[0]) == states[1];
    assert Apply(states[2], steps[2]) == states[3];
    assert !Quiet(states[1], steps[1]) by { assert 1 in live; }
    ExclusionIff(states, steps);
  }

  /** Two user transitions while a worker is still finishing, and that
      worker's failure: the row falls back to FAILED and its version drops. */
  lemma FailureAfterReviewDropsTheVersion() returns (states: seq<System>, steps: seq<Step>)
    ensures Run(states, steps)
    ensures exists i, j :: 0 <= i < j < |states| && states[j].row.version < states[i].row.version
    ensures states[|states| - 1].row.state == Failed
  {
    steps := [Deliver(1), EnterAudit(1), EnterReview(1), User(Planning, 2), User(Generating, 3), Fail(1)];
    var w := Worker(Finishing, 2);
    var s1 := System(Row(Collecting, 1), map[1 := Worker(Crawling, 1)], {});
    var s2 := System(Row(Auditing, 1), map[1 := Worker(Judging, 1)], {});
    var s3 := System(Row(Gate1Review, 2), map[1 := w], {});
    var s4 := System(Row(Planning, 3), map[1 := w], {});
    var s5 := System(Row(Generating, 4), map[1 := w], {});
    var s6 := System(Row(Failed, 3), map[], {});
    states := [START, s1, s2, s3, s4, s5, s6];
    assert Apply(START, steps[0]) == s1;
    assert Apply(s1, steps[1]) == s2;
    assert Apply(s2, steps[2]) == s3;
    assert Apply(s5, steps[5]) == s6;
    assert states[6].row.version < states[5].row.version;
  }

  /** A worker that dies without a write strands its run: redelivered messages
      are ignored, and nothing changes until a user or the scanner acts. */
  lemma {:induction false} LostWorkerStrandsTheRun(states: seq<System>, steps: seq<Step>, i: nat, j: nat)
    requires Run(states, steps) && i <= j < |states|
    requires states[i].workers == map[] && states[i].row.state in {Collecting, Auditing}
    requires forall k :: i <= k < j ==> !steps[k].User? && !steps[k].Decide? && !steps[k].Scan?
    ensures states[j] == states[i]
  {
    if i < j {
      LostWorkerStrandsTheRun(states, steps, i, j - 1);
    }
  }
}
