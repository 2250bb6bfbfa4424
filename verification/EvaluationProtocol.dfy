/** Scheduling and status of evaluation packages (webapp/evaluation_artifacts.py), as a
    transition system over threads, lock, `active` set, status files and restarts. */
module EvaluationProtocol {
  import opened Optional

  type RunId = string
  type ThreadId = nat

  /** The content of status.json. */
  datatype Status = Preparing | Complete(archive: string) | Failed

  predicate Terminal(v: Status) {
    v != Preparing
  }

  /** Where a `schedule` call stands; each name is the operation it does next. */
  datatype SchedulePc =
    | TakeLock | CheckFile | AddActive | WriteTmp | ReplaceFile | ReleaseLock | StartWorker
    | RetakeLock | DropActive | WriteErrorTmp | ReplaceWithError

  /** Where a worker stands. */
  datatype WorkerPc = Build | WriteResultTmp | ReplaceWithResult | TakeLockToFinish | DropActiveAndFinish

  datatype Thread =
    | Scheduler(run: RunId, spc: SchedulePc)
    | Worker(run: RunId, wpc: WorkerPc, result: Status)

  /** What is held about one run: the status file and its temporary sibling on
      disk, membership of the in-memory `active` set, and, as history, how many
      workers the run was ever given. */
  datatype Cell = Cell(file: Option<Status>, tmp: Option<Status>, active: bool, started: nat)

  const BLANK := Cell(None, None, false, 0)

  datatype State = State(cells: map<RunId, Cell>, lock: Option<ThreadId>, threads: map<ThreadId, Thread>)

  const INIT := State(map[], None, map[])

  function Of(s: State, r: RunId): Cell {
    if r in s.cells then s.cells[r] else BLANK
  }

  /** One step: a new `schedule` call, an operation of one thread (which may fail
      where I/O or thread creation can; `child` and `result` are the identity of a
      worker it starts and the outcome of a build), or a restart of the process. */
  datatype Step =
    | Call(thread: ThreadId, run: RunId)
    | Go(thread: ThreadId, ok: bool, child: ThreadId, result: Status)
    | Restart

  predicate WaitsForLock(th: Thread) {
    match th
    case Scheduler(_, pc) => pc == TakeLock || pc == RetakeLock
    case Worker(_, pc, _) => pc == TakeLockToFinish
  }

  predicate Enabled(s: State, step: Step) {
    match step
    case Call(t, _) => t !in s.threads
    case Restart => true
    case Go(t, ok, child, result) =>
      && t in s.threads
      && (WaitsForLock(s.threads[t]) ==> s.lock == None)
      && child !in s.threads
      && Terminal(result)
  }

  /** What becomes of the thread. */
  datatype Fate = Stays(now: Thread) | Exits | HandsOver(worker: Thread)

  /** Each operation in turn; a failing one leaves by its exception path. */
  function FateOf(th: Thread, c: Cell, ok: bool, result: Status): Fate {
    match th
    case Scheduler(r, pc) => (
      match pc
      case TakeLock => Stays(Scheduler(r, CheckFile))
      case CheckFile => if c.file.Some? || !ok then Exits else Stays(Scheduler(r, AddActive))
      case AddActive => Stays(Scheduler(r, WriteTmp))
      case WriteTmp => if ok then Stays(Scheduler(r, ReplaceFile)) else Exits
      case ReplaceFile => if ok then Stays(Scheduler(r, ReleaseLock)) else Exits
      case ReleaseLock => Stays(Scheduler(r, StartWorker))
      case StartWorker => if ok then HandsOver(Worker(r, Build, Failed)) else Stays(Scheduler(r, RetakeLock))
      case RetakeLock => Stays(Scheduler(r, DropActive))
      case DropActive => Stays(Scheduler(r, WriteErrorTmp))
      case WriteErrorTmp => if ok then Stays(Scheduler(r, ReplaceWithError)) else Exits
      case ReplaceWithError => Exits)
    case Worker(r, pc, mine) => (
      match pc
      case Build => Stays(Worker(r, WriteResultTmp, result))
      case WriteResultTmp => Stays(Worker(r, if ok then ReplaceWithResult else TakeLockToFinish, mine))
      case ReplaceWithResult => Stays(Worker(r, TakeLockToFinish, mine))
      case TakeLockToFinish => Stays(Worker(r, DropActiveAndFinish, mine))
      case DropActiveAndFinish => Exits)
  }

  /** The first half of `_write`; a failure leaves no usable temporary file. */
  function WroteTmp(c: Cell, v: Status, ok: bool): Cell {
    c.(tmp := if ok then Some(v) else None)
  }

  /** The second half: whatever the temporary file holds becomes the status. */
  function Replaced(c: Cell, ok: bool): Cell {
    if ok && c.tmp.Some? then c.(file := c.tmp, tmp := None) else c
  }

  function CellAfter(th: Thread, c: Cell, ok: bool): Cell {
    match th
    case Scheduler(_, pc) => (
      match pc
      case AddActive => c.(active := true)
      case WriteTmp => WroteTmp(c, Preparing, ok)
      case ReplaceFile => Replaced(c, ok)
      case StartWorker => if ok then c.(started := c.started + 1) else c
      case DropActive => c.(active := false)
      case WriteErrorTmp => WroteTmp(c, Failed, ok)
      case ReplaceWithError => Replaced(c, ok)
      case _ => c)
    case Worker(_, pc, mine) => (
      match pc
      case WriteResultTmp => WroteTmp(c, mine, ok)
      case ReplaceWithResult => Replaced(c, ok)
      case DropActiveAndFinish => c.(active := false)
      case _ => c)
  }

  /** `with self.lock` releases however its block ends. */
  function LockAfter(lock: Option<ThreadId>, t: ThreadId, th: Thread, fate: Fate): Option<ThreadId> {
    if WaitsForLock(th) then Some(t)
    else if InCritical(th) && !(fate.Stays? && InCritical(fate.now)) then None
    else lock
  }

  function ThreadsAfter(threads: map<ThreadId, Thread>, t: ThreadId, fate: Fate, child: ThreadId): map<ThreadId, Thread> {
    match fate
    case Stays(th) => threads[t := th]
    case Exits => threads - {t}
    case HandsOver(w) => (threads - {t})[child := w]
  }

  function Apply(s: State, step: Step): State
    requires Enabled(s, step)
  {
    match step
    case Call(t, r) => s.(threads := s.threads[t := Scheduler(r, TakeLock)])
    case Restart => State(map r | r in s.cells :: s.cells[r].(active := false), None, map[])
    case Go(t, ok, child, result) =>
      var th := s.threads[t];
      var c := Of(s, th.run);
      var fate := FateOf(th, c, ok, result);
      State(s.cells[th.run := CellAfter(th, c, ok)], LockAfter(s.lock, t, th, fate),
            ThreadsAfter(s.threads, t, fate, child))
  }

  // ----- the invariant -----

  predicate InCritical(th: Thread) {
    match th
    case Scheduler(_, pc) =>
      pc == CheckFile || pc == AddActive || pc == WriteTmp || pc == ReplaceFile || pc == ReleaseLock || pc == DropActive
    case Worker(_, pc, _) => pc == DropActiveAndFinish
  }

  /** Past the test for an existing file, the file not yet written. */
  predicate Entering(th: Thread) {
    th.Scheduler? && (th.spc == AddActive || th.spc == WriteTmp || th.spc == ReplaceFile)
  }

  /** The thread that answers for a run once its file exists. */
  predicate Owns(th: Thread) {
    th.Worker? || !(Entering(th) || th.spc == TakeLock || th.spc == CheckFile)
  }

  /** An owner that has given its run up. */
  predicate Abandoned(th: Thread) {
    th.Scheduler? && (th.spc == WriteErrorTmp || th.spc == ReplaceWithError)
  }

  /** An owner that has nothing more to write. */
  predicate Done(th: Thread) {
    th.Worker? && (th.wpc == TakeLockToFinish || th.wpc == DropActiveAndFinish)
  }

  /** Between the two halves of `_write`. */
  predicate MidWrite(th: Thread) {
    match th
    case Scheduler(_, pc) => pc == ReplaceFile || pc == ReplaceWithError
    case Worker(_, pc, _) => pc == ReplaceWithResult
  }

  /** Inside a call of `_write`, or about to make one. */
  predicate Writing(th: Thread) {
    || MidWrite(th)
    || (th.Scheduler? && (th.spc == WriteTmp || th.spc == WriteErrorTmp))
    || (th.Worker? && th.wpc == WriteResultTmp)
  }

  function Intended(th: Thread): Status {
    match th
    case Scheduler(_, pc) => if pc == ReplaceFile then Preparing else Failed
    case Worker(_, _, result) => result
  }

  /** What a thread's position says about the lock and about its run. */
  predicate Fits(th: Thread, c: Cell) {
    && (Entering(th) ==> c.file == None)
    && (Entering(th) && th.spc != AddActive ==> c.active)
    && (Owns(th) ==> c.file.Some? && c.started == if th.Worker? then 1 else 0)
    && (Owns(th) && !Done(th) ==> c.file == Some(Preparing))
    && (Owns(th) ==> (c.active <==> !Abandoned(th)))
    && (MidWrite(th) ==> c.tmp == Some(Intended(th)))
    && (th.Worker? && th.wpc != Build ==> Terminal(th.result))
  }

  predicate CellOk(c: Cell) {
    c.started <= 1 && (c.started > 0 ==> c.file.Some?)
  }

  ghost predicate ThreadsOk(s: State) {
    forall t :: t in s.threads ==>
      Fits(s.threads[t], Of(s, s.threads[t].run)) && (InCritical(s.threads[t]) ==> s.lock == Some(t))
  }

  /** A run has one owner at a time. */
  ghost predicate OwnersDistinct(s: State) {
    forall t, u :: t in s.threads && u in s.threads && t != u && Owns(s.threads[t]) && Owns(s.threads[u]) ==>
      s.threads[t].run != s.threads[u].run
  }

  ghost predicate LockOk(s: State) {
    s.lock.Some? ==> s.lock.value in s.threads && InCritical(s.threads[s.lock.value])
  }

  ghost predicate Inv(s: State) {
    ThreadsOk(s) && OwnersDistinct(s) && LockOk(s) && (forall r :: CellOk(Of(s, r)))
  }

  /** The thread itself, seen alone. */
  lemma MoverStaysFit(th: Thread, c: Cell, ok: bool, result: Status)
    requires Fits(th, c) && CellOk(c) && Terminal(result)
    ensures CellOk(CellAfter(th, c, ok))
    ensures var fate := FateOf(th, c, ok, result);
            && (fate.Stays? ==> fate.now.run == th.run && Fits(fate.now, CellAfter(th, c, ok)))
            && (fate.HandsOver? ==>
                  fate.worker.run == th.run && Owns(th) && !InCritical(th)
                  && Fits(fate.worker, CellAfter(th, c, ok)) && !InCritical(fate.worker))
            && (fate.Stays? && Owns(fate.now) ==> Owns(th) || c.file == None)
            && (fate.Stays? && InCritical(fate.now) ==> InCritical(th) || WaitsForLock(th))
  {
  }

  lemma OtherCells(s: State, step: Step, r: RunId)
    requires Enabled(s, step) && step.Go? && r != s.threads[step.thread].run
    ensures Of(Apply(s, step), r) == Of(s, r)
  {
  }

  lemma OtherStaysFit(s: State, step: Step, u: ThreadId)
    requires Inv(s) && Enabled(s, step) && step.Go? && u in s.threads && u != step.thread
    ensures Fits(s.threads[u], Of(Apply(s, step), s.threads[u].run))
  {
    if s.threads[u].run != s.threads[step.thread].run {
      OtherCells(s, step, s.threads[u].run);
    }
  }

  lemma GoKeepsThreads(s: State, step: Step)
    requires Inv(s) && Enabled(s, step) && step.Go?
    ensures ThreadsOk(Apply(s, step))
  {
    var s', t := Apply(s, step), step.thread;
    var th := s.threads[t];
    MoverStaysFit(th, Of(s, th.run), step.ok, step.result);
    forall u | u in s'.threads
      ensures Fits(s'.threads[u], Of(s', s'.threads[u].run)) && (InCritical(s'.threads[u]) ==> s'.lock == Some(u))
    {
      if u != t && u in s.threads {
        OtherStaysFit(s, step, u);
      }
    }
  }

  lemma GoKeepsOwners(s: State, step: Step)
    requires Inv(s) && Enabled(s, step) && step.Go?
    ensures OwnersDistinct(Apply(s, step))
  {
    var s', mover := Apply(s, step), step.thread;
    var th := s.threads[mover];
    MoverStaysFit(th, Of(s, th.run), step.ok, step.result);
    forall t, u | t in s'.threads && u in s'.threads && t != u && Owns(s'.threads[t]) && Owns(s'.threads[u])
      ensures s'.threads[t].run != s'.threads[u].run
    {
      assert t == mover || t == step.child || (t in s.threads && s'.threads[t] == s.threads[t]);
      assert u == mover || u == step.child || (u in s.threads && s'.threads[u] == s.threads[u]);
    }
  }

  lemma GoKeepsLockAndCells(s: State, step: Step)
    requires Inv(s) && Enabled(s, step) && step.Go?
    ensures LockOk(Apply(s, step)) && forall r :: CellOk(Of(Apply(s, step), r))
  {
    var s', th := Apply(s, step), s.threads[step.thread];
    MoverStaysFit(th, Of(s, th.run), step.ok, step.result);
    forall r ensures CellOk(Of(s', r)) {
      assert CellOk(Of(s, r)) && CellOk(Of(s, th.run));
      if r != th.run {
        OtherCells(s, step, r);
      }
    }
  }

  lemma StepKeepsInv(s: State, step: Step)
    requires Inv(s) && Enabled(s, step)
    ensures Inv(Apply(s, step))
  {
    match step
    case Go(_, _, _, _) =>
      GoKeepsThreads(s, step);
      GoKeepsOwners(s, step);
      GoKeepsLockAndCells(s, step);
    case Call(_, _) =>
      var s' := Apply(s, step);
      forall r ensures CellOk(Of(s', r)) { assert CellOk(Of(s, r)); }
    case Restart =>
      var s' := Apply(s, step);
      forall r ensures CellOk(Of(s', r)) { assert CellOk(Of(s, r)); }
  }

  // ----- every run -----

  ghost predicate Executes(s: State, steps: seq<Step>, end: State)
    decreases |steps|
  {
    if steps == [] then end == s
    else Enabled(s, steps[0]) && Executes(Apply(s, steps[0]), steps[1..], end)
  }

  lemma {:induction false} RunKeepsInv(s: State, steps: seq<Step>, end: State)
    requires Inv(s) && Executes(s, steps, end)
    ensures Inv(end)
    decreases |steps|
  {
    if steps != [] {
      StepKeepsInv(s, steps[0]);
      RunKeepsInv(Apply(s, steps[0]), steps[1..], end);
    }
  }

  /** Whatever the interleaving, the failures and the restarts: a run is given at
      most one worker ever; no two `_write` calls for one run overlap, so a status
      file only ever receives what its writer wrote; and a live worker whose file
      says preparing is in `active`. */
  lemma Safety(steps: seq<Step>, s: State, t: ThreadId, u: ThreadId)
    requires Executes(INIT, steps, s)
    ensures forall r :: Of(s, r).started <= 1
    ensures t in s.threads && u in s.threads && t != u && s.threads[t].run == s.threads[u].run ==>
              && !(Writing(s.threads[t]) && Writing(s.threads[u]))
              && !(s.threads[t].Worker? && s.threads[u].Worker?)
    ensures t in s.threads && MidWrite(s.threads[t]) ==>
              Of(s, s.threads[t].run).tmp == Some(Intended(s.threads[t]))
    ensures t in s.threads && s.threads[t].Worker? && Of(s, s.threads[t].run).file == Some(Preparing) ==>
              Of(s, s.threads[t].run).active
  {
    RunKeepsInv(INIT, steps, s);
    forall r ensures Of(s, r).started <= 1 {
      assert CellOk(Of(s, r));
    }
  }

  /** A terminal status never changes. */
  lemma {:induction false} TerminalForever(s: State, steps: seq<Step>, end: State, r: RunId)
    requires Inv(s) && Executes(s, steps, end)
    requires Of(s, r).file.Some? && Terminal(Of(s, r).file.value)
    ensures Of(end, r).file == Of(s, r).file
    decreases |steps|
  {
    if steps != [] {
      StepKeepsInv(s, steps[0]);
      TerminalForever(Apply(s, steps[0]), steps[1..], end, r);
    }
  }

  // ----- status -----

  datatype Report = Missing | Interrupted | Reported(status: Status)

  function Judge(file: Option<Status>, active: bool): Report {
    match file
    case None => Missing
    case Some(v) => if v == Preparing && !active then Interrupted else Reported(v)
  }

  /** What `status` would answer if it read everything at one instant. */
  function Truth(s: State, r: RunId): Report {
    Judge(Of(s, r).file, Of(s, r).active)
  }

  /** What it answers: the test for the file, the read of the file and the read of
      `active` see three successive states, without the lock. */
  function Answer(s0: State, s1: State, s2: State, r: RunId): Report {
    if Of(s0, r).file == None then Missing else Judge(Of(s1, r).file, Of(s2, r).active)
  }

  lemma {:induction false} FileStays(s: State, steps: seq<Step>, end: State, r: RunId)
    requires Inv(s) && Executes(s, steps, end) && Of(s, r).file.Some?
    ensures Inv(end) && Of(end, r).file.Some?
    ensures !Of(s, r).active ==> !Of(end, r).active
    decreases |steps|
  {
    if steps != [] {
      StepKeepsInv(s, steps[0]);
      FileStays(Apply(s, steps[0]), steps[1..], end, r);
    }
  }

  /** The answer was true at some state of an execution, its ends included. */
  ghost predicate TrueDuring(s: State, steps: seq<Step>, r: RunId, answer: Report)
    decreases |steps|
  {
    || Truth(s, r) == answer
    || (steps != [] && Enabled(s, steps[0]) && TrueDuring(Apply(s, steps[0]), steps[1..], r, answer))
  }

  /** Its result was published and it had not left `active` yet. */
  predicate PublishedActive(s: State, r: RunId) {
    Of(s, r).file.Some? && Terminal(Of(s, r).file.value) && Of(s, r).active
  }

  ghost predicate PublishedDuring(s: State, steps: seq<Step>, r: RunId)
    decreases |steps|
  {
    || PublishedActive(s, r)
    || (steps != [] && Enabled(s, steps[0]) && PublishedDuring(Apply(s, steps[0]), steps[1..], r))
  }

  /** Only the run's worker publishes, by replacing the status file with its result. */
  lemma OnlyWorkersPublish(s: State, step: Step, r: RunId)
    requires Inv(s) && Enabled(s, step) && !PublishedActive(s, r) && PublishedActive(Apply(s, step), r)
    ensures step.Go? && s.threads[step.thread].run == r && step.ok
    ensures s.threads[step.thread].Worker? && s.threads[step.thread].wpc == ReplaceWithResult
  {
    if step.Go? && s.threads[step.thread].run != r {
      OtherCells(s, step, r);
    }
  }

  lemma {:induction false} InactiveIsNeverPublished(s: State, steps: seq<Step>, end: State, r: RunId)
    requires Inv(s) && Executes(s, steps, end) && Of(s, r).file.Some? && !Of(s, r).active
    ensures !PublishedDuring(s, steps, r)
    decreases |steps|
  {
    if steps != [] {
      StepKeepsInv(s, steps[0]);
      InactiveIsNeverPublished(Apply(s, steps[0]), steps[1..], end, r);
    }
  }

  lemma {:induction false} TerminalIsNeverInterrupted(s: State, steps: seq<Step>, end: State, r: RunId)
    requires Inv(s) && Executes(s, steps, end) && Of(s, r).file.Some? && Terminal(Of(s, r).file.value)
    ensures !TrueDuring(s, steps, r, Interrupted)
    decreases |steps|
  {
    if steps != [] {
      StepKeepsInv(s, steps[0]);
      TerminalIsNeverInterrupted(Apply(s, steps[0]), steps[1..], end, r);
    }
  }

  /** While an active, preparing run leaves `active`, either it was interrupted at
      some instant or it had published its result before. */
  lemma {:induction false} InterruptedOrPublished(s: State, steps: seq<Step>, end: State, r: RunId)
    requires Inv(s) && Executes(s, steps, end)
    requires Of(s, r).file == Some(Preparing) && Of(s, r).active && !Of(end, r).active
    ensures TrueDuring(s, steps, r, Interrupted) <==> !PublishedDuring(s, steps, r)
    decreases |steps|
  {
    var t := Apply(s, steps[0]);
    StepKeepsInv(s, steps[0]);
    assert Truth(s, r) == Reported(Preparing) && !PublishedActive(s, r);
    if !Of(t, r).active {
      assert Truth(t, r) == Interrupted;
      InactiveIsNeverPublished(t, steps[1..], end, r);
    } else if Of(t, r).file == Some(Preparing) {
      InterruptedOrPublished(t, steps[1..], end, r);
    } else {
      assert PublishedActive(t, r);
      TerminalIsNeverInterrupted(t, steps[1..], end, r);
    }
  }

  lemma {:induction false} InterruptedNeedsInactive(s: State, steps: seq<Step>, end: State, r: RunId)
    requires Inv(s) && Executes(s, steps, end) && Of(s, r).file.Some? && Of(end, r).active
    ensures !TrueDuring(s, steps, r, Interrupted)
    decreases |steps|
  {
    if !Of(s, r).active {
      FileStays(s, steps, end, r);
    }
    if steps != [] {
      StepKeepsInv(s, steps[0]);
      InterruptedNeedsInactive(Apply(s, steps[0]), steps[1..], end, r);
    }
  }

  /** The run was seen preparing, published its result while still active, and had
      left `active` when that was read. */
  ghost predicate FinishedBetween(s0: State, s1: State, steps1: seq<Step>, s2: State, r: RunId) {
    && Of(s0, r).file.Some?
    && Of(s1, r).file == Some(Preparing) && Of(s1, r).active
    && PublishedDuring(s1, steps1, r) && !Of(s2, r).active
  }

  /** From its first read to its last, `status` gives an answer that is true at some
      instant, except exactly when the run finishes between the last two. */
  lemma StatusErrsExactlyWhen(s0: State, steps0: seq<Step>, s1: State, steps1: seq<Step>, s2: State, r: RunId)
    requires Inv(s0) && Executes(s0, steps0, s1) && Executes(s1, steps1, s2)
    ensures var answer := Answer(s0, s1, s2, r);
            !TrueDuring(s0, steps0, r, answer) && !TrueDuring(s1, steps1, r, answer)
            <==> FinishedBetween(s0, s1, steps1, s2, r)
  {
    var answer := Answer(s0, s1, s2, r);
    if Of(s0, r).file.Some? {
      FileStays(s0, steps0, s1, r);
      FileStays(s1, steps1, s2, r);
      EndsAreDuring(s0, steps0, s1, r, answer);
      if Of(s1, r).file == Some(Preparing) && Of(s1, r).active && !Of(s2, r).active {
        InterruptedOrPublished(s1, steps1, s2, r);
        InterruptedNeedsInactive(s0, steps0, s1, r);
      } else {
        assert Truth(s1, r) == answer;
      }
    }
  }

  lemma {:induction false} EndsAreDuring(s: State, steps: seq<Step>, end: State, r: RunId, answer: Report)
    requires Executes(s, steps, end)
    ensures Truth(end, r) == answer ==> TrueDuring(s, steps, r, answer)
    decreases |steps|
  {
    if steps != [] {
      EndsAreDuring(Apply(s, steps[0]), steps[1..], end, r, answer);
    }
  }

  /** In that case it says "interrupted" of a run that completed or failed for good. */
  lemma WrongAnswerIsInterrupted(s0: State, s1: State, steps1: seq<Step>, s2: State, r: RunId)
    requires Inv(s1) && Executes(s1, steps1, s2) && FinishedBetween(s0, s1, steps1, s2, r)
    ensures Answer(s0, s1, s2, r) == Interrupted
    ensures Of(s2, r).file.Some? && Terminal(Of(s2, r).file.value)
  {
    PublishedStays(s1, steps1, s2, r);
  }

  lemma {:induction false} PublishedStays(s: State, steps: seq<Step>, end: State, r: RunId)
    requires Inv(s) && Executes(s, steps, end) && PublishedDuring(s, steps, r)
    ensures Of(end, r).file.Some? && Terminal(Of(end, r).file.value)
    decreases |steps|
  {
    if PublishedActive(s, r) {
      TerminalForever(s, steps, end, r);
    } else {
      StepKeepsInv(s, steps[0]);
      PublishedStays(Apply(s, steps[0]), steps[1..], end, r);
    }
  }

  lemma ExecutesCons(s: State, step: Step, steps: seq<Step>, end: State)
    requires Enabled(s, step) && Executes(Apply(s, step), steps, end)
    ensures Executes(s, [step] + steps, end)
  {
    assert ([step] + steps)[1..] == steps;
  }

  /** The failing interleaving exists: a worker that publishes its package and
      leaves `active` after `status` has read "preparing". */
  lemma StatusCanErr(r: RunId, archive: string)
    ensures var before := State(map[r := Cell(Some(Preparing), None, true, 1)], None, map[1 := Worker(r, Build, Failed)]);
            var after := State(map[r := Cell(Some(Complete(archive)), None, false, 1)], None, map[]);
            && (exists steps0 :: Executes(INIT, steps0, before))
            && (exists steps1 :: Executes(before, steps1, after) && FinishedBetween(before, before, steps1, after, r))
            && Answer(before, before, after, r) == Interrupted
  {
    var result := Complete(archive);
    var go := Go(0, true, 1, result);
    var start := StepsOfSchedule(r, go);
    var finish := StepsOfWorker(r, archive);
  }

  lemma StepsOfSchedule(r: RunId, go: Step) returns (steps: seq<Step>)
    requires go.Go? && go.thread == 0 && go.ok && go.child == 1 && Terminal(go.result)
    ensures Executes(INIT, steps,
              State(map[r := Cell(Some(Preparing), None, true, 1)], None, map[1 := Worker(r, Build, Failed)]))
  {
    var end := State(map[r := Cell(Some(Preparing), None, true, 1)], None, map[1 := Worker(r, Build, Failed)]);
    var held := Some(0);
    var s1 := State(map[], None, map[0 := Scheduler(r, TakeLock)]);
    var s2 := State(map[r := BLANK], held, map[0 := Scheduler(r, CheckFile)]);
    var s3 := State(map[r := BLANK], held, map[0 := Scheduler(r, AddActive)]);
    var s4 := State(map[r := Cell(None, None, true, 0)], held, map[0 := Scheduler(r, WriteTmp)]);
    var s5 := State(map[r := Cell(None, Some(Preparing), true, 0)], held, map[0 := Scheduler(r, ReplaceFile)]);
    var s6 := State(map[r := Cell(Some(Preparing), None, true, 0)], held, map[0 := Scheduler(r, ReleaseLock)]);
    var s7 := State(map[r := Cell(Some(Preparing), None, true, 0)], None, map[0 := Scheduler(r, StartWorker)]);
    assert Apply(s7, go) == end;
    assert Apply(s6, go) == s7;
    assert Apply(s5, go) == s6;
    assert Apply(s4, go) == s5;
    assert Apply(s3, go) == s4;
    assert Apply(s2, go) == s3;
    assert Apply(s1, go) == s2;
    assert Apply(INIT, Call(0, r)) == s1;
    steps := [];
    ExecutesCons(s7, go, steps, end);
    steps := [go] + steps;
    ExecutesCons(s6, go, steps, end);
    steps := [go] + steps;
    ExecutesCons(s5, go, steps, end);
    steps := [go] + steps;
    ExecutesCons(s4, go, steps, end);
    steps := [go] + steps;
    ExecutesCons(s3, go, steps, end);
    steps := [go] + steps;
    ExecutesCons(s2, go, steps, end);
    steps := [go] + steps;
    ExecutesCons(s1, go, steps, end);
    steps := [go] + steps;
    ExecutesCons(INIT, Call(0, r), steps, end);
    steps := [Call(0, r)] + steps;
  }

  lemma StepsOfWorker(r: RunId, archive: string) returns (steps: seq<Step>)
    ensures var before := State(map[r := Cell(Some(Preparing), None, true, 1)], None, map[1 := Worker(r, Build, Failed)]);
            && Executes(before, steps, State(map[r := Cell(Some(Complete(archive)), None, false, 1)], None, map[]))
            && PublishedDuring(before, steps, r)
  {
    var done := Complete(archive);
    var go := Go(1, true, 2, done);
    var s0 := State(map[r := Cell(Some(Preparing), None, true, 1)], None, map[1 := Worker(r, Build, Failed)]);
    var s1 := State(map[r := Cell(Some(Preparing), None, true, 1)], None, map[1 := Worker(r, WriteResultTmp, done)]);
    var s2 := State(map[r := Cell(Some(Preparing), Some(done), true, 1)], None, map[1 := Worker(r, ReplaceWithResult, done)]);
    var s3 := State(map[r := Cell(Some(done), None, true, 1)], None, map[1 := Worker(r, TakeLockToFinish, done)]);
    var s4 := State(map[r := Cell(Some(done), None, true, 1)], Some(1), map[1 := Worker(r, DropActiveAndFinish, done)]);
    var end := State(map[r := Cell(Some(done), None, false, 1)], None, map[]);
    assert Apply(s4, go) == end;
    assert Apply(s3, go) == s4;
    assert Apply(s2, go) == s3;
    assert Apply(s1, go) == s2;
    assert Apply(s0, go) == s1;
    steps := [];
    ExecutesCons(s4, go, steps, end);
    steps := [go] + steps;
    ExecutesCons(s3, go, steps, end);
    steps := [go] + steps;
    assert PublishedActive(s3, r);
    PublishedCons(s2, go, steps, r);
    ExecutesCons(s2, go, steps, end);
    steps := [go] + steps;
    PublishedCons(s1, go, steps, r);
    ExecutesCons(s1, go, steps, end);
    steps := [go] + steps;
    PublishedCons(s0, go, steps, r);
    ExecutesCons(s0, go, steps, end);
    steps := [go] + steps;
  }

  lemma PublishedCons(s: State, step: Step, steps: seq<Step>, r: RunId)
    requires Enabled(s, step) && PublishedDuring(Apply(s, step), steps, r)
    ensures PublishedDuring(s, [step] + steps, r)
  {
    assert ([step] + steps)[1..] == steps;
  }

  /** The run has a file and nobody left who could produce its package. */
  ghost predicate Orphaned(s: State, r: RunId) {
    Of(s, r).file.Some? && forall t :: t in s.threads && s.threads[t].run == r && Owns(s.threads[t]) ==>
      Abandoned(s.threads[t])
  }

  lemma AbandonedStaysAbandoned(th: Thread, c: Cell, ok: bool, result: Status)
    requires Fits(th, c) && c.file.Some? && (Owns(th) ==> Abandoned(th))
    ensures var fate := FateOf(th, c, ok, result);
            fate.Stays? ==> (Owns(fate.now) ==> Abandoned(fate.now))
    ensures !FateOf(th, c, ok, result).HandsOver?
    ensures CellAfter(th, c, ok).started == c.started
  {
  }

  lemma StepKeepsOrphaned(s: State, step: Step, r: RunId)
    requires Inv(s) && Enabled(s, step) && Orphaned(s, r)
    ensures Orphaned(Apply(s, step), r) && Of(Apply(s, step), r).started == Of(s, r).started
  {
    var s' := Apply(s, step);
    if step.Go? {
      var th := s.threads[step.thread];
      if th.run == r {
        AbandonedStaysAbandoned(th, Of(s, r), step.ok, step.result);
      } else {
        OtherCells(s, step, r);
        MoverStaysFit(th, Of(s, th.run), step.ok, step.result);
      }
      forall t | t in s'.threads && s'.threads[t].run == r && Owns(s'.threads[t]) ensures Abandoned(s'.threads[t]) {
        assert t == step.thread || t == step.child || (t in s.threads && s'.threads[t] == s.threads[t]);
      }
    }
  }

  /** When "interrupted" is true it stays true that the package will never come:
      no worker of the run is alive and none is ever started again. */
  lemma InterruptedIsFinal(s: State, steps: seq<Step>, end: State, r: RunId)
    requires Inv(s) && Executes(s, steps, end) && Truth(s, r) == Interrupted
    ensures Of(end, r).started == Of(s, r).started
    ensures forall t :: t in end.threads && end.threads[t].run == r ==> !end.threads[t].Worker?
    ensures Truth(end, r) == Interrupted || (Of(end, r).file.Some? && Terminal(Of(end, r).file.value))
  {
    OrphanedForever(s, steps, end, r);
    FileStays(s, steps, end, r);
  }

  lemma {:induction false} OrphanedForever(s: State, steps: seq<Step>, end: State, r: RunId)
    requires Inv(s) && Executes(s, steps, end) && Orphaned(s, r)
    ensures Orphaned(end, r) && Of(end, r).started == Of(s, r).started
    decreases |steps|
  {
    if steps != [] {
      StepKeepsInv(s, steps[0]);
      StepKeepsOrphaned(s, steps[0], r);
      OrphanedForever(Apply(s, steps[0]), steps[1..], end, r);
    }
  }

  // ----- restarts -----

  /** Preparing on disk, and nothing in memory that knows of it. */
  ghost predicate Deserted(s: State, r: RunId) {
    && Of(s, r).file == Some(Preparing) && !Of(s, r).active
    && forall t :: t in s.threads && s.threads[t].run == r ==> !Owns(s.threads[t])
  }

  lemma StepKeepsDeserted(s: State, step: Step, r: RunId)
    requires Inv(s) && Enabled(s, step) && Deserted(s, r)
    ensures Deserted(Apply(s, step), r)
  {
    var s' := Apply(s, step);
    if step.Go? {
      var th := s.threads[step.thread];
      MoverStaysFit(th, Of(s, th.run), step.ok, step.result);
      if th.run != r {
        OtherCells(s, step, r);
      }
      forall t | t in s'.threads && s'.threads[t].run == r ensures !Owns(s'.threads[t]) {
        assert t == step.thread || t == step.child || (t in s.threads && s'.threads[t] == s.threads[t]);
      }
    }
  }

  lemma {:induction false} DesertedForever(s: State, steps: seq<Step>, end: State, r: RunId)
    requires Inv(s) && Executes(s, steps, end) && Deserted(s, r)
    ensures Deserted(end, r)
    decreases |steps|
  {
    if steps != [] {
      StepKeepsInv(s, steps[0]);
      StepKeepsDeserted(s, steps[0], r);
      DesertedForever(Apply(s, steps[0]), steps[1..], end, r);
    }
  }

  /** A restart forgets threads, lock and `active`, and keeps the files. */
  lemma RestartForgets(s: State)
    ensures var s' := Apply(s, Restart);
            s'.threads == map[] && s'.lock == None && forall r :: !Of(s', r).active && Of(s', r).file == Of(s, r).file
  {
  }

  /** A run that was preparing at a restart is reported as interrupted ever after,
      whatever is scheduled later and wherever between two operations it is asked. */
  lemma RestartInterrupts(s: State, steps: seq<Step>, end: State, r: RunId)
    requires Inv(s) && Of(s, r).file == Some(Preparing) && Executes(s, [Restart] + steps, end)
    ensures Truth(end, r) == Interrupted
  {
    assert ([Restart] + steps)[1..] == steps;
    StepKeepsInv(s, Restart);
    RestartForgets(s);
    DesertedForever(Apply(s, Restart), steps, end, r);
  }

  // ----- who is behind a run -----

  /** A live thread that still has to bring the run to its end. */
  predicate WorksOn(th: Thread, r: RunId) {
    th.run == r && Owns(th) && !Abandoned(th)
  }

  /** Somebody works on the run if it is active and has a file. */
  ghost predicate Attended(s: State, r: RunId) {
    Of(s, r).active && Of(s, r).file.Some? ==> exists t :: t in s.threads && WorksOn(s.threads[t], r)
  }

  /** The thread itself and the one it hands over to. */
  lemma MoverAttends(th: Thread, c: Cell, ok: bool, result: Status)
    requires Fits(th, c)
    ensures var fate, after := FateOf(th, c, ok, result), CellAfter(th, c, ok);
            after.active && after.file.Some? && (WorksOn(th, th.run) || c.file.None? || !c.active) ==>
              (fate.Stays? && WorksOn(fate.now, th.run)) || (fate.HandsOver? && WorksOn(fate.worker, th.run))
  {
  }

  lemma StepKeepsAttended(s: State, step: Step, r: RunId)
    requires Inv(s) && Enabled(s, step) && Attended(s, r)
    ensures Attended(Apply(s, step), r)
  {
    var s' := Apply(s, step);
    if Of(s', r).active && Of(s', r).file.Some? {
      if step.Go? && s.threads[step.thread].run == r
         && (WorksOn(s.threads[step.thread], r) || Of(s, r).file.None? || !Of(s, r).active) {
        MoverAttends(s.threads[step.thread], Of(s, r), step.ok, step.result);
        var t := if step.thread in s'.threads then step.thread else step.child;
        assert t in s'.threads && WorksOn(s'.threads[t], r);
      } else {
        if step.Go? && s.threads[step.thread].run != r {
          OtherCells(s, step, r);
        }
        var t :| t in s.threads && WorksOn(s.threads[t], r);
        assert t in s'.threads && s'.threads[t] == s.threads[t];
      }
    }
  }

  lemma {:induction false} AttendedAlways(s: State, steps: seq<Step>, end: State, r: RunId)
    requires Inv(s) && Executes(s, steps, end) && Attended(s, r)
    ensures Attended(end, r)
    decreases |steps|
  {
    if steps != [] {
      StepKeepsInv(s, steps[0]);
      StepKeepsAttended(s, steps[0], r);
      AttendedAlways(Apply(s, steps[0]), steps[1..], end, r);
    }
  }

  /** "Preparing" is true of exactly the runs whose file says so and that a live thread
      works on: whatever fails, a run that nobody will finish is never preparing. */
  lemma PreparingIff(steps: seq<Step>, s: State, r: RunId)
    requires Executes(INIT, steps, s)
    ensures Truth(s, r) == Reported(Preparing) <==>
            Of(s, r).file == Some(Preparing) && exists t :: t in s.threads && WorksOn(s.threads[t], r)
  {
    RunKeepsInv(INIT, steps, s);
    AttendedAlways(INIT, steps, s, r);
  }

  // ----- runs without write failures -----

  /** At one of the operations that write a result or an error. */
  predicate WritesOutcome(th: Thread) {
    Writing(th) && Owns(th)
  }

  /** No restart, and no failure to write a result or an error. */
  predicate Smooth(s: State, step: Step)
    requires Enabled(s, step)
  {
    !step.Restart? && (step.Go? ==> step.ok || !WritesOutcome(s.threads[step.thread]))
  }

  ghost predicate SmoothRun(s: State, steps: seq<Step>)
    decreases |steps|
  {
    steps == [] || (Enabled(s, steps[0]) && Smooth(s, steps[0]) && SmoothRun(Apply(s, steps[0]), steps[1..]))
  }

  predicate WillWrite(th: Thread, r: RunId) {
    th.run == r && Owns(th) && !Done(th)
  }

  /** A run whose file says preparing has a thread that will still write it. */
  ghost predicate Pending(s: State, r: RunId) {
    Of(s, r).file == Some(Preparing) ==> exists t :: t in s.threads && WillWrite(s.threads[t], r)
  }

  lemma MoverIsPending(th: Thread, c: Cell, ok: bool, result: Status)
    requires Fits(th, c) && Terminal(result)
    requires ok || !WritesOutcome(th)
    ensures var fate, after := FateOf(th, c, ok, result), CellAfter(th, c, ok);
            after.file == Some(Preparing) && (WillWrite(th, th.run) || c.file != Some(Preparing)) ==>
              (fate.Stays? && WillWrite(fate.now, th.run)) || (fate.HandsOver? && WillWrite(fate.worker, th.run))
  {
  }

  lemma StepKeepsPending(s: State, step: Step, r: RunId)
    requires Inv(s) && Enabled(s, step) && Smooth(s, step) && Pending(s, r)
    ensures Pending(Apply(s, step), r)
  {
    var s' := Apply(s, step);
    if Of(s', r).file == Some(Preparing) {
      if step.Go? && s.threads[step.thread].run == r
         && (WillWrite(s.threads[step.thread], r) || Of(s, r).file != Some(Preparing)) {
        MoverIsPending(s.threads[step.thread], Of(s, r), step.ok, step.result);
        var t := if step.thread in s'.threads then step.thread else step.child;
        assert t in s'.threads && WillWrite(s'.threads[t], r);
      } else {
        if step.Go? && s.threads[step.thread].run != r {
          OtherCells(s, step, r);
        }
        var t :| t in s.threads && WillWrite(s.threads[t], r);
        assert t in s'.threads && s'.threads[t] == s.threads[t];
      }
    }
  }

  lemma {:induction false} PendingAlways(s: State, steps: seq<Step>, end: State, r: RunId)
    requires Inv(s) && Executes(s, steps, end) && SmoothRun(s, steps) && Pending(s, r)
    ensures Pending(end, r)
    decreases |steps|
  {
    if steps != [] {
      StepKeepsInv(s, steps[0]);
      StepKeepsPending(s, steps[0], r);
      PendingAlways(Apply(s, steps[0]), steps[1..], end, r);
    }
  }

  /** Only a restart or a failed write can leave a run without its result: otherwise,
      once all threads are done, every file is terminal, failed starts included. */
  lemma NothingLeftPreparing(steps: seq<Step>, s: State, r: RunId)
    requires Executes(INIT, steps, s) && SmoothRun(INIT, steps) && s.threads == map[]
    ensures Of(s, r).file.Some? ==> Terminal(Of(s, r).file.value)
  {
    RunKeepsInv(INIT, steps, s);
    PendingAlways(INIT, steps, s, r);
  }

  // ----- where a package comes from -----

  /** The package is in the file, on its way there, or a worker's result. */
  ghost predicate Present(s: State, r: RunId, v: Status) {
    || Of(s, r).file == Some(v) || Of(s, r).tmp == Some(v)
    || exists t :: t in s.threads && HasResult(s.threads[t], r, v)
  }

  predicate HasResult(th: Thread, r: RunId, v: Status) {
    th.Worker? && th.run == r && th.wpc != Build && th.result == v
  }

  /** The step is the end of a build for the run with this result. */
  predicate Builds(s: State, step: Step, r: RunId, v: Status)
    requires Enabled(s, step)
  {
    && step.Go? && step.result == v
    && s.threads[step.thread].Worker? && s.threads[step.thread].run == r && s.threads[step.thread].wpc == Build
  }

  lemma PresentComesFromBuild(s: State, step: Step, r: RunId, archive: string)
    requires Enabled(s, step) && Present(Apply(s, step), r, Complete(archive))
    ensures Present(s, r, Complete(archive)) || Builds(s, step, r, Complete(archive))
  {
    var s', v := Apply(s, step), Complete(archive);
    if step.Go? {
      if s.threads[step.thread].run != r {
        OtherCells(s, step, r);
      }
      if t :| t in s'.threads && HasResult(s'.threads[t], r, v) {
        assert t == step.thread || t == step.child || (t in s.threads && s'.threads[t] == s.threads[t]);
      }
    }
  }

  ghost predicate BuiltDuring(s: State, steps: seq<Step>, r: RunId, v: Status)
    decreases |steps|
  {
    && steps != [] && Enabled(s, steps[0])
    && (Builds(s, steps[0], r, v) || BuiltDuring(Apply(s, steps[0]), steps[1..], r, v))
  }

  lemma {:induction false} PresentWasBuilt(s: State, steps: seq<Step>, end: State, r: RunId, archive: string)
    requires Executes(s, steps, end) && Present(end, r, Complete(archive)) && !Present(s, r, Complete(archive))
    ensures BuiltDuring(s, steps, r, Complete(archive))
    decreases |steps|
  {
    var t := Apply(s, steps[0]);
    if Present(t, r, Complete(archive)) {
      PresentComesFromBuild(s, steps[0], r, archive);
    } else {
      PresentWasBuilt(t, steps[1..], end, r, archive);
    }
  }

  /** A file that names a package names one that a worker of that run built. */
  lemma CompleteWasBuilt(steps: seq<Step>, s: State, r: RunId, archive: string)
    requires Executes(INIT, steps, s) && Of(s, r).file == Some(Complete(archive))
    ensures BuiltDuring(INIT, steps, r, Complete(archive))
  {
    PresentWasBuilt(INIT, steps, s, r, archive);
  }

  /** What a worker built is what it publishes, unless the write fails. */
  lemma OwnResultIsPublished(s: State, step: Step)
    requires Inv(s) && Enabled(s, step) && step.Go? && step.ok
    requires s.threads[step.thread].Worker? && s.threads[step.thread].wpc == ReplaceWithResult
    ensures Of(Apply(s, step), s.threads[step.thread].run).file == Some(s.threads[step.thread].result)
  {
  }

  // ----- workers and operations are counted -----

  /** The step starts a worker of the run. */
  predicate Starts(s: State, step: Step, r: RunId)
    requires Enabled(s, step)
  {
    step.Go? && step.ok && s.threads[step.thread] == Scheduler(r, StartWorker)
  }

  ghost function StartsDuring(s: State, steps: seq<Step>, r: RunId): nat
    decreases |steps|
  {
    if steps == [] || !Enabled(s, steps[0]) then 0
    else (if Starts(s, steps[0], r) then 1 else 0) + StartsDuring(Apply(s, steps[0]), steps[1..], r)
  }

  lemma {:induction false} StartedCountsStarts(s: State, steps: seq<Step>, end: State, r: RunId)
    requires Executes(s, steps, end)
    ensures Of(end, r).started == Of(s, r).started + StartsDuring(s, steps, r)
    decreases |steps|
  {
    if steps != [] {
      if steps[0].Go? && s.threads[steps[0].thread].run != r {
        OtherCells(s, steps[0], r);
      }
      StartedCountsStarts(Apply(s, steps[0]), steps[1..], end, r);
    }
  }

  /** Over any run of the system at most one step ever starts a worker of the same run. */
  lemma StartedOnce(steps: seq<Step>, s: State, r: RunId)
    requires Executes(INIT, steps, s)
    ensures StartsDuring(INIT, steps, r) <= 1
  {
    StartedCountsStarts(INIT, steps, s, r);
    Safety(steps, s, 0, 0);
  }

  /** How many operations a thread can still do. */
  function Left(th: Thread): nat {
    match th
    case Scheduler(_, pc) => (
      match pc
      case TakeLock => 11
      case CheckFile => 10
      case AddActive => 9
      case WriteTmp => 8
      case ReplaceFile => 7
      case ReleaseLock => 6
      case StartWorker => 5
      case RetakeLock => 4
      case DropActive => 3
      case WriteErrorTmp => 2
      case ReplaceWithError => 1)
    case Worker(_, pc, _) => (
      match pc
      case Build => 5
      case WriteResultTmp => 4
      case ReplaceWithResult => 3
      case TakeLockToFinish => 2
      case DropActiveAndFinish => 1)
  }

  /** Every operation brings its thread nearer to its end. */
  lemma ThreadsMoveOn(s: State, step: Step)
    requires Enabled(s, step) && step.Go?
    ensures var s' := Apply(s, step);
            && (step.thread in s'.threads ==> Left(s'.threads[step.thread]) < Left(s.threads[step.thread]))
            && (Left(s.threads[step.thread]) == 1 ==> step.thread !in s'.threads)
  {
  }
}
