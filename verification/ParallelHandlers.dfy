/**
  The parallel handler: its loop takes tasks from the queue in order and spawns them into a pool,
  of which it is the only user, waiting when the pool is full. At the end it waits for the pool.
 */
module ParallelHandlers {
  import opened Results
  import Handlers
  import Pools

  /** Where the loop is: asleep, about to look at the queue, waiting for a permit or for an empty pool, over. */
  datatype Pc<+T> = Parked | Looping | Spawning(task: T) | Joining | Stopped

  /**
    The fields of the handler and its pool, then what has happened: the tasks submitted; those spawned,
    which go by their place in this list; those cancelled before they could begin; those that have begun;
    and how many had been spawned when the callbacks of the first one that failed ran.
   */
  datatype Parallel<+T> = Parallel(
    pending: seq<Option<T>>, event: bool, closing: bool, closed: bool, strict: bool, pc: Pc<T>, cancelled: bool,
    pool: Pools.Pool, gotException: bool, closers: nat, submitted: seq<T>, taken: seq<T>,
    dropped: set<nat>, begun: set<nat>, failedAt: Option<nat>, shutAt: Option<nat>)

  function Fresh<T>(strict: bool, concurrency: nat): Parallel<T> {
    Parallel([], false, false, false, strict, Parked, false, Pools.Fresh(concurrency), false, 0, [], [], {}, {}, None, None)
  }

  // ---------- calls ----------

  function AfterSubmit<T>(h: Parallel<T>, task: T): Parallel<T> {
    h.(pending := h.pending + [Some(task)], event := true, submitted := h.submitted + [task])
  }

  function AfterShutdown<T>(h: Parallel<T>): Parallel<T> {
    if h.closing then h
    else h.(closing := true, pending := h.pending + [None], event := true, shutAt := Some(|h.submitted|))
  }

  function AfterClose<T>(h: Parallel<T>): Parallel<T> {
    if h.closed then h else h.(closed := true, pending := [], cancelled := h.pc != Stopped)
  }

  // ---------- the loop ----------

  /** `spawn` has returned: after a failure a strict handler cancels the new task at once. */
  function Spawned<T>(h: Parallel<T>, task: T, pool: Pools.Pool): Parallel<T> {
    h.(pool := pool, pc := Looping, taken := h.taken + [task],
       dropped := h.dropped + if h.strict && h.gotException then {h.pool.spawned} else {})
  }

  function AfterPop<T>(h: Parallel<T>): Parallel<T> {
    if h.pending == [] then h.(pc := Parked)
    else
      var rest := h.(pending := h.pending[1..]);
      match h.pending[0]
      case None => rest.(pc := Joining, pool := Pools.Step(h.pool, Pools.Event.Join))
      case Some(task) =>
        var pool := Pools.Step(h.pool, Pools.Event.Spawn);
        if Pools.Locked(h.pool.semaphore) then rest.(pc := Spawning(task), pool := pool) else Spawned(rest, task, pool)
  }

  /** The callbacks of a task that has ended: one that failed a strict handler sets another one going that waits for the pool and closes the handler. */
  function AfterTask<T>(h: Parallel<T>, id: nat, failed: bool): Parallel<T>
    requires id in h.pool.tasks
  {
    var d := h.(pool := Pools.Step(h.pool, Pools.TaskDone(id)));
    if failed && h.strict then
      d.(gotException := true, closers := h.closers + 1,
         failedAt := if h.failedAt.Some? then h.failedAt else Some(|h.taken|))
    else d
  }

  /** A cancelled loop that waits for a permit leaves the semaphore without it, one that joins the pool no longer does. */
  function AfterCancel<T>(h: Parallel<T>): Parallel<T>
    requires h.pc.Spawning? ==> Pools.Enabled(h.pool, Pools.CancelSpawner(0))
  {
    if h.pc.Spawning? then
      h.(pc := Stopped, pool := Pools.Step(Pools.Step(h.pool, Pools.CancelSpawner(0)), Pools.Resume(0)))
    else if h.pc.Joining? && h.pool.joiners > 0 then h.(pc := Stopped, pool := Pools.Step(h.pool, Pools.CancelJoin))
    else h.(pc := Stopped)
  }

  // ---------- every run ----------

  datatype Event<+T> =
    | Submit(task: T)
    | CallShutdown
    | CallClose
    | Wake
    | Pop
    | Permit
    | TaskBegins(id: nat)
    /** The callbacks of a task run, one pass of the loop after it has ended. */
    | TaskEnds(id: nat, failed: bool)
    | Joined
    | CloserRuns
    | Cancel

  /** A task that has been cancelled before it begins does not begin, and does not fail. */
  predicate Enabled<T>(h: Parallel<T>, e: Event<T>) {
    match e
    case Wake => h.pc.Parked? && h.event
    case Pop => h.pc.Looping?
    case Permit => h.pc.Spawning? && |h.pool.semaphore.waiters| == 1 && h.pool.semaphore.waiters[0] == Pools.Granted
    case TaskBegins(id) => id in h.pool.tasks && id !in h.begun && id !in h.dropped
    case TaskEnds(id, failed) => id in h.pool.tasks && (id in h.begun || (id in h.dropped && !failed))
    case Joined => h.pc.Joining? && Pools.IsEmpty(h.pool)
    case CloserRuns => h.closers > 0
    case Cancel => h.cancelled && !h.pc.Looping? && (h.pc.Spawning? ==> Pools.Enabled(h.pool, Pools.CancelSpawner(0)))
    case _ => true
  }

  function Step<T>(h: Parallel<T>, e: Event<T>): Parallel<T>
    requires Enabled(h, e)
  {
    match e
    case Submit(task) => AfterSubmit(h, task)
    case CallShutdown => AfterShutdown(h)
    case CallClose => AfterClose(h)
    case Wake => h.(event := false, pc := Looping)
    case Pop => AfterPop(h)
    case Permit => Spawned(h, h.pc.task, Pools.Step(h.pool, Pools.Resume(0)))
    case TaskBegins(id) => h.(begun := h.begun + {id})
    case TaskEnds(id, failed) => AfterTask(h, id, failed)
    case Joined => AfterClose(h).(pc := Stopped)
    case CloserRuns => AfterClose(h.(closers := h.closers - 1))
    case Cancel => AfterCancel(h)
  }

  predicate Careful<T>(h: Parallel<T>, e: Event<T>) {
    e.Submit? ==> !h.closed
  }

  /** Tasks that have left the queue: those spawned and the one that waits for a permit. */
  function Left<T>(h: Parallel<T>): nat {
    |h.taken| + if h.pc.Spawning? then 1 else 0
  }

  /** The queue holds what has not left it, the mark of the shutdown among it, while the loop looks at it. */
  ghost predicate InOrder<T>(h: Parallel<T>) {
    && h.taken <= h.submitted && Left(h) <= |h.submitted|
    && (h.pc.Spawning? ==> h.pc.task == h.submitted[|h.taken|])
    && (h.closing <==> h.shutAt.Some?)
    && (h.shutAt.Some? ==> Left(h) <= h.shutAt.value <= |h.submitted|)
    && (h.pc.Joining? && !h.closed ==> h.shutAt == Some(|h.taken|))
    && (h.closed ==> h.pending == [] || (h.closing && h.pending == [None]))
    && (!h.closed && !h.pc.Joining? && !h.pc.Stopped? ==> h.pending == Handlers.Queue(h.submitted, Left(h), h.shutAt))
  }

  /** The pool is sound and the loop its only spawner; it has lost a place only if the loop is over. */
  ghost predicate PoolIsOurs(p: Pools.Pool, spawned: nat, waiting: bool, over: bool) {
    && Pools.Sound(p) && p.spawned == spawned
    && (if waiting then p.semaphore.waiters == [Pools.Asleep] || p.semaphore.waiters == [Pools.Granted] else p.semaphore.waiters == [])
    && (p.abandoned > 0 ==> over)
  }

  /** Exactly the tasks spawned since the first failure became known have been dropped; the others have begun or still may. */
  ghost predicate Accounted(tasks: set<nat>, spawned: nat, begun: set<nat>, dropped: set<nat>, failedAt: Option<nat>) {
    && (failedAt.Some? ==> failedAt.value <= spawned)
    && (forall id :: id in dropped <==> failedAt.Some? && failedAt.value <= id < spawned)
    && (forall id :: id in begun ==> id < spawned && id !in dropped)
    && (forall id :: 0 <= id < spawned ==> id in tasks || id in begun || id in dropped)
  }

  ghost predicate Sound<T>(h: Parallel<T>) {
    && InOrder(h) && PoolIsOurs(h.pool, |h.taken|, h.pc.Spawning?, h.pc.Stopped?)
    && (h.pc.Parked? && !h.event ==> h.pending == [])
    && (h.gotException <==> h.failedAt.Some?) && (h.gotException ==> h.strict)
    && Accounted(h.pool.tasks, |h.taken|, h.begun, h.dropped, h.failedAt)
  }

  // ---------- the pool below ----------

  lemma {:induction false} SpawnTakesAPermitOrWaits(p: Pools.Pool)
    requires Pools.Sound(p) && p.semaphore.waiters == []
    ensures var n := Pools.Step(p, Pools.Event.Spawn);
      && Pools.Sound(n) && n.abandoned == p.abandoned && n.size == p.size
      && n.spawned == p.spawned + (if Pools.Locked(p.semaphore) then 0 else 1)
      && n.semaphore.waiters == (if Pools.Locked(p.semaphore) then [Pools.Asleep] else [])
      && n.tasks == p.tasks + if Pools.Locked(p.semaphore) then {} else {p.spawned}
  {
    Pools.StepIsSound(p, Pools.Event.Spawn);
  }

  lemma {:induction false} PermitIsTaken(p: Pools.Pool)
    requires Pools.Sound(p) && p.semaphore.waiters == [Pools.Granted]
    ensures var n := Pools.Step(p, Pools.Resume(0));
      && Pools.Sound(n) && n.abandoned == p.abandoned && n.size == p.size
      && n.spawned == p.spawned + 1 && n.semaphore.waiters == [] && n.tasks == p.tasks + {p.spawned}
  {
    Pools.StepIsSound(p, Pools.Resume(0));
  }

  lemma {:induction false} TaskDoneGrants(p: Pools.Pool, id: nat)
    requires Pools.Sound(p) && id in p.tasks
    requires p.semaphore.waiters == [] || p.semaphore.waiters == [Pools.Asleep] || p.semaphore.waiters == [Pools.Granted]
    ensures var n := Pools.Step(p, Pools.TaskDone(id));
      && Pools.Sound(n) && n.abandoned == p.abandoned && n.size == p.size && n.spawned == p.spawned
      && n.semaphore.waiters == (if p.semaphore.waiters == [Pools.Asleep] then [Pools.Granted] else p.semaphore.waiters)
      && n.tasks == p.tasks - {id} && id < p.spawned
  {
    Pools.StepIsSound(p, Pools.TaskDone(id));
  }

  lemma {:induction false} CancelLosesAPlace(p: Pools.Pool)
    requires Pools.Sound(p) && (p.semaphore.waiters == [Pools.Asleep] || p.semaphore.waiters == [Pools.Granted])
    ensures var n := Pools.Step(Pools.Step(p, Pools.CancelSpawner(0)), Pools.Resume(0));
      && Pools.Sound(n) && n.abandoned == p.abandoned + 1 && n.size == p.size
      && n.spawned == p.spawned && n.semaphore.waiters == [] && n.tasks == p.tasks
  {
    Pools.StepIsSound(p, Pools.CancelSpawner(0));
    Pools.StepIsSound(Pools.Step(p, Pools.CancelSpawner(0)), Pools.Resume(0));
  }

  // ---------- every step ----------

  lemma StepIsSoundIffCareful<T>(h: Parallel<T>, e: Event<T>)
    requires Sound(h) && Enabled(h, e)
    ensures Sound(Step(h, e)) <==> Careful(h, e)
  {
    match e {
      case Submit(task) => SubmitIsSound(h, task);
      case CallShutdown => ShutdownIsSound(h);
      case Pop => PopIsSound(h);
      case Permit => PermitIsSound(h);
      case TaskBegins(id) => BeginIsSound(h, id);
      case TaskEnds(id, failed) => TaskEndIsSound(h, id, failed);
      case Cancel => CancelIsSound(h);
      case _ => OtherwiseSound(h, e);
    }
  }

  lemma SubmitIsSound<T>(h: Parallel<T>, task: T)
    requires Sound(h)
    ensures Sound(AfterSubmit(h, task)) <==> !h.closed
  {
    Handlers.QueueGrows(h.submitted, Left(h), h.shutAt, task);
    hide PoolIsOurs, Accounted, Handlers.Queue;
    var n := AfterSubmit(h, task);
    assert n.pending[|h.pending|] == Some(task);
  }

  lemma ShutdownIsSound<T>(h: Parallel<T>)
    requires Sound(h)
    ensures Sound(AfterShutdown(h))
  {
    Handlers.QueueIsMarked(h.submitted, Left(h));
    hide PoolIsOurs, Accounted, Handlers.Queue;
  }

  lemma PopIsSound<T>(h: Parallel<T>)
    requires Sound(h) && h.pc.Looping?
    ensures Sound(AfterPop(h))
  {
    hide Pools.Sound, Pools.Step, Pools.Locked;
    Handlers.QueueFront(h.submitted, |h.taken|, h.shutAt);
    hide Handlers.Queue;
    if h.pending != [] {
      if h.pending[0].None? {
        MarkIsSound(h);
      } else {
        TaskIsSound(h);
      }
    }
  }

  lemma MarkIsSound<T>(h: Parallel<T>)
    requires Sound(h) && h.pc.Looping? && h.pending != [] && h.pending[0].None?
    requires h.closed || h.shutAt == Some(|h.taken|)
    ensures Sound(AfterPop(h))
  {
    hide Pools.Sound, Pools.Step, Handlers.Queue;
    Pools.StepIsSound(h.pool, Pools.Event.Join);
    JoinOnlyJoins(h.pool);
  }

  lemma TaskIsSound<T>(h: Parallel<T>)
    requires Sound(h) && h.pc.Looping? && h.pending != [] && h.pending[0].Some?
    requires var k := |h.taken|;
      && k < |h.submitted| && h.shutAt != Some(k) && h.pending[0] == Some(h.submitted[k])
      && h.pending[1..] == Handlers.Queue(h.submitted, k + 1, h.shutAt)
    ensures Sound(AfterPop(h))
  {
    hide Pools.Sound, Pools.Step, Pools.Locked, Handlers.Queue;
    SpawnTakesAPermitOrWaits(h.pool);
  }

  lemma JoinOnlyJoins(p: Pools.Pool)
    ensures var n := Pools.Step(p, Pools.Event.Join);
      n.semaphore == p.semaphore && n.spawned == p.spawned && n.abandoned == p.abandoned && n.tasks == p.tasks
  {
  }

  lemma PermitIsSound<T>(h: Parallel<T>)
    requires Sound(h) && Enabled(h, Permit)
    ensures Sound(Step(h, Permit))
  {
    hide Pools.Sound, Pools.Step, Handlers.Queue;
    PermitIsTaken(h.pool);
  }

  lemma TaskEndIsSound<T>(h: Parallel<T>, id: nat, failed: bool)
    requires Sound(h) && Enabled(h, TaskEnds(id, failed))
    ensures Sound(AfterTask(h, id, failed))
  {
    hide Pools.Sound, Pools.Step, Handlers.Queue;
    TaskDoneGrants(h.pool, id);
  }

  lemma BeginIsSound<T>(h: Parallel<T>, id: nat)
    requires Sound(h) && Enabled(h, TaskBegins(id))
    ensures Sound(Step(h, TaskBegins(id)))
  {
    SpawnedTasks(h.pool, id);
    hide Pools.Sound, Handlers.Queue;
  }

  lemma SpawnedTasks(p: Pools.Pool, id: nat)
    requires Pools.Sound(p) && id in p.tasks
    ensures id < p.spawned
  {
  }

  lemma CancelIsSound<T>(h: Parallel<T>)
    requires Sound(h) && Enabled(h, Cancel)
    ensures Sound(Step(h, Cancel))
  {
    hide Pools.Sound, Pools.Step, Handlers.Queue;
    if h.pc.Spawning? { CancelLosesAPlace(h.pool); }
    if h.pool.joiners > 0 { CancelOnlyStopsAJoiner(h.pool); }
  }

  lemma {:induction false} CancelOnlyStopsAJoiner(p: Pools.Pool)
    requires Pools.Sound(p) && p.joiners > 0
    ensures var n := Pools.Step(p, Pools.CancelJoin);
      && Pools.Sound(n) && n.abandoned == p.abandoned && n.size == p.size
      && n.spawned == p.spawned && n.semaphore == p.semaphore && n.tasks == p.tasks
  {
    Pools.StepIsSound(p, Pools.CancelJoin);
  }

  lemma OtherwiseSound<T>(h: Parallel<T>, e: Event<T>)
    requires Sound(h) && Enabled(h, e) && (e.CallClose? || e.Wake? || e.Joined? || e.CloserRuns?)
    ensures Sound(Step(h, e))
  {
    hide Pools.Sound, Accounted, Handlers.Queue;
  }

  ghost predicate Run<T>(h: Parallel<T>, es: seq<Event<T>>, end: Parallel<T>)
    decreases |es|
  {
    if es == [] then h == end
    else Enabled(h, es[0]) && Careful(h, es[0]) && Run(Step(h, es[0]), es[1..], end)
  }

  lemma {:induction false} EveryRunIsSound<T>(h: Parallel<T>, es: seq<Event<T>>, end: Parallel<T>)
    requires Sound(h) && Run(h, es, end)
    ensures Sound(end)
    decreases |es|
  {
    if es != [] {
      StepIsSoundIffCareful(h, es[0]);
      hide Sound, Step, Enabled, Careful;
      EveryRunIsSound(Step(h, es[0]), es[1..], end);
    }
  }

  lemma {:induction false} FreshIsSound<T>(strict: bool, concurrency: nat)
    requires concurrency > 0
    ensures Sound<T>(Fresh(strict, concurrency))
  {
    var none: seq<T> := [];
    assert Handlers.Queue(none, 0, None) == [];
    Pools.FreshIsSound(concurrency);
  }

  // ---------- what this gives ----------

  /** Tasks are spawned in the order of submission, no more than the pool has places for at once. */
  lemma {:induction false} OrderAndLimit<T>(h: Parallel<T>)
    requires Sound(h) && h.pool.size > 0
    ensures h.taken <= h.submitted && |h.pool.tasks| <= h.pool.size
    ensures h.pool.executed + |h.pool.tasks| == |h.taken|
  {
    Pools.NeverStuck(h.pool);
  }

  /** When the loop closes the handler, all tasks submitted before the shutdown, and no others, have been run to their end. */
  lemma {:induction false} EndsWhenAllIsDone<T>(h: Parallel<T>)
    requires Sound(h) && Enabled(h, Joined) && !h.closed
    ensures h.closing && h.taken == h.submitted[..h.shutAt.value] && h.pool.executed == |h.taken|
    ensures forall id :: 0 <= id < |h.taken| ==> (id in h.begun <==> !(h.failedAt.Some? && h.failedAt.value <= id))
    ensures Step(h, Joined).closed && Step(h, Joined).pc.Stopped?
  {
    hide Handlers.Queue;
    assert h.taken == h.submitted[..|h.taken|];
  }

  /** A task that has been spawned can begin, or has begun, exactly if no task was known then to have failed a strict handler. */
  lemma BeginsIff<T>(h: Parallel<T>, id: nat)
    requires Sound(h) && id < |h.taken|
    ensures id in h.begun || Enabled(h, TaskBegins(id)) <==> !(h.failedAt.Some? && h.failedAt.value <= id)
  {
    hide InOrder, PoolIsOurs;
  }

  lemma FailureStays<T>(h: Parallel<T>, e: Event<T>)
    requires Enabled(h, e)
    ensures var n := Step(h, e);
      h.taken <= n.taken && (h.failedAt.Some? ==> n.failedAt == h.failedAt)
  {
    hide Pools.Step, Pools.Locked, Pools.IsEmpty;
    if e.Pop? { PopTakes(h); }
    if e.Cancel? { CancelTakesNothing(h); }
    hide AfterPop, AfterCancel;
  }

  lemma CancelTakesNothing<T>(h: Parallel<T>)
    requires Enabled(h, Cancel)
    ensures AfterCancel(h).taken == h.taken && AfterCancel(h).failedAt == h.failedAt
  {
    hide Pools.Step;
  }

  lemma PopTakes<T>(h: Parallel<T>)
    ensures h.taken <= AfterPop(h).taken && AfterPop(h).failedAt == h.failedAt
  {
    hide Pools.Step, Pools.Locked;
  }

  lemma {:induction false} FailureStaysForGood<T>(h: Parallel<T>, es: seq<Event<T>>, end: Parallel<T>)
    requires h.failedAt.Some? && Run(h, es, end)
    ensures h.taken <= end.taken && end.failedAt == h.failedAt
    decreases |es|
  {
    if es != [] {
      FailureStays(h, es[0]);
      hide Step, Enabled, Careful;
      FailureStaysForGood(Step(h, es[0]), es[1..], end);
    }
  }

  lemma {:induction false} NothingBeginsOnceFailed<T>(h: Parallel<T>, es: seq<Event<T>>, end: Parallel<T>)
    requires Sound(h) && h.gotException && Run(h, es, end)
    ensures forall id :: id >= |h.taken| ==> id !in end.begun
  {
    EveryRunIsSound(h, es, end);
    FailureStaysForGood(h, es, end);
    hide InOrder, PoolIsOurs, Run;
  }

  /**
    Once the callbacks of a failed task of a strict handler have run, no task spawned from then on begins, in
    no run, and another task is there that closes the handler.
   */
  lemma {:induction false} NothingBeginsAfterFailure<T>(h: Parallel<T>, id: nat, es: seq<Event<T>>, end: Parallel<T>)
    requires Sound(h) && h.strict && Enabled(h, TaskEnds(id, true)) && Run(Step(h, TaskEnds(id, true)), es, end)
    ensures forall i :: i >= |h.taken| ==> i !in end.begun
    ensures var n := Step(h, TaskEnds(id, true));
      && Enabled(n, CloserRuns) && Step(n, CloserRuns).closed
  {
    var n := Step(h, TaskEnds(id, true));
    StepIsSoundIffCareful(h, TaskEnds(id, true));
    FailureIsNoticed(h, id);
    hide Step, Sound;
    NothingBeginsOnceFailed(n, es, end);
  }

  lemma FailureIsNoticed<T>(h: Parallel<T>, id: nat)
    requires h.strict && Enabled(h, TaskEnds(id, true))
    ensures var n := Step(h, TaskEnds(id, true));
      && n.gotException && n.closers == h.closers + 1 && n.taken == h.taken
      && Step(n, CloserRuns).closed && Step(n, CloserRuns).closers == h.closers
  {
    hide Pools.Step;
  }

  /** Closing the handler while its loop waits for a permit leaves everybody who joins the pool waiting for ever. */
  lemma {:induction false} CloseWhileSpawningStrandsJoiners<T>(h: Parallel<T>, es: seq<Pools.Event>, end: Pools.Pool)
    requires Sound(h) && h.pc.Spawning? && h.cancelled && Enabled(h, Cancel) && Pools.Run(Step(h, Cancel).pool, es, end)
    ensures !Pools.IsEmpty(end) && end.woken == Step(h, Cancel).pool.woken
  {
    CancelLosesAPlace(h.pool);
    Pools.LostForGood(Step(h, Cancel).pool, es, end);
  }

  /** After the loop has been cancelled, all who join the pool can still be woken exactly if it was not waiting for a permit. */
  lemma {:induction false} CancelStrandsJoinersIff<T>(h: Parallel<T>)
    requires Sound(h) && h.pool.size > 0 && !h.pc.Stopped? && Enabled(h, Cancel)
    ensures (exists es, end :: Pools.Run(Step(h, Cancel).pool, es, end) && Pools.IsEmpty(end) && end.joiners == 0)
      <==> !h.pc.Spawning?
  {
    CancelOnThePool(h);
    hide Step, Sound, Enabled;
    Pools.BecomesEmptyIff(Step(h, Cancel).pool);
  }

  lemma {:induction false} CancelOnThePool<T>(h: Parallel<T>)
    requires Sound(h) && !h.pc.Stopped? && Enabled(h, Cancel)
    ensures var p := Step(h, Cancel).pool;
      Pools.Sound(p) && p.size == h.pool.size && (Pools.SpawnerLost(p) <==> h.pc.Spawning?)
  {
    hide Pools.Step, Pools.Sound, InOrder, Accounted;
    if h.pc.Spawning? { CancelLosesAPlace(h.pool); }
    if h.pool.joiners > 0 { CancelOnlyStopsAJoiner(h.pool); }
  }

  /** The first shutdown puts its mark behind the tasks submitted so far and wakes the loop; a second one does nothing. */
  lemma ShutdownMarks<T>(h: Parallel<T>)
    ensures var n := Step(h, CallShutdown);
      && n.closing && Step(n, CallShutdown) == n
      && (if h.closing then n == h
          else n.pending == h.pending + [None] && n.shutAt == Some(|h.submitted|) && n.event && n.taken == h.taken)
  {
  }

  lemma MarkStays<T>(h: Parallel<T>, e: Event<T>)
    requires Enabled(h, e) && h.closing
    ensures Step(h, e).closing && Step(h, e).shutAt == h.shutAt && h.submitted <= Step(h, e).submitted
  {
    hide Pools.Step, Pools.Locked, Pools.IsEmpty;
    if e.Pop? { PopLeavesTheMark(h); }
    hide AfterPop;
  }

  lemma PopLeavesTheMark<T>(h: Parallel<T>)
    ensures AfterPop(h).closing == h.closing && AfterPop(h).shutAt == h.shutAt && AfterPop(h).submitted == h.submitted
  {
    hide Pools.Step, Pools.Locked;
    if h.pending != [] && h.pending[0].Some? {
      SpawnedLeavesTheMark(h.(pending := h.pending[1..]), h.pending[0].value, Pools.Step(h.pool, Pools.Event.Spawn));
    }
    hide Spawned;
  }

  lemma SpawnedLeavesTheMark<T>(h: Parallel<T>, task: T, pool: Pools.Pool)
    ensures var n := Spawned(h, task, pool); n.closing == h.closing && n.shutAt == h.shutAt && n.submitted == h.submitted
  {
  }

  /** Nothing submitted after the first shutdown is ever spawned. */
  lemma {:induction false} NothingSpawnedAfterShutdown<T>(h: Parallel<T>, es: seq<Event<T>>, end: Parallel<T>)
    requires Sound(h) && h.closing && Run(h, es, end)
    ensures h.shutAt.Some? && h.shutAt.value <= |h.submitted| && end.taken <= h.submitted[..h.shutAt.value]
    ensures end.closing && end.shutAt == h.shutAt && h.submitted <= end.submitted && Sound(end)
    decreases |es|
  {
    if es != [] {
      MarkStays(h, es[0]);
      StepIsSoundIffCareful(h, es[0]);
      NothingSpawnedAfterShutdown(Step(h, es[0]), es[1..], end);
      assert h.submitted[..h.shutAt.value] == Step(h, es[0]).submitted[..h.shutAt.value];
    } else {
      assert h.taken == h.submitted[..|h.taken|];
    }
  }

  /** A cancelled loop is over, and no longer joins the pool. */
  lemma CancelEndsTheLoop<T>(h: Parallel<T>)
    requires Enabled(h, Cancel)
    ensures var n := Step(h, Cancel);
      && n.pc.Stopped? && n.taken == h.taken && n.closed == h.closed
      && (h.pc.Joining? && h.pool.joiners > 0 ==> n.pool.joiners == h.pool.joiners - 1)
      && ((h.pc.Joining? && h.pool.joiners == 0) || h.pc.Parked? ==> n.pool == h.pool)
  {
    if h.pool.joiners > 0 { assert Pools.Step(h.pool, Pools.CancelJoin).joiners == h.pool.joiners - 1; }
    hide Pools.Step;
  }

  // ---------- left to itself ----------

  /** What the loop and its tasks do by themselves, no task failing. */
  predicate Proper<T>(e: Event<T>) {
    e.Wake? || e.Pop? || e.Permit? || e.TaskBegins? || (e.TaskEnds? && !e.failed) || e.Joined?
  }

  function Work<T>(h: Parallel<T>): nat {
    4 * |h.pending| + (if h.event then 4 else 0)
    + match h.pc { case Spawning(_) => 2 case Looping => 1 case _ => 0 }
  }

  function TaskWork<T>(h: Parallel<T>): int {
    2 * |h.pool.tasks| - |h.pool.tasks * h.begun|
  }

  /** A live handler that is shutting down: what is to become of it depends on it alone. */
  ghost predicate Ending<T>(h: Parallel<T>) {
    Sound(h) && h.pool.size > 0 && h.closing && !h.closed && !h.pc.Stopped?
  }

  /** Something can always go on, and brings the end nearer. */
  lemma {:induction false} SomethingGoesOn<T>(h: Parallel<T>) returns (e: Event<T>)
    requires Ending(h)
    ensures Enabled(h, e) && Proper(e)
    ensures !e.Joined? ==> var n := Step(h, e);
      && Work(n) <= Work(h) && (Work(n) == Work(h) ==> 0 <= TaskWork(n) < TaskWork(h))
      && n.closing && !n.closed && !n.pc.Stopped? && n.pool.size == h.pool.size
      && n.shutAt == h.shutAt && n.submitted == h.submitted
  {
    match h.pc {
      case Parked =>
        Handlers.QueueFront(h.submitted, Left(h), h.shutAt);
        e := Wake;
      case Looping =>
        e := Pop;
        PopGoesOn(h);
      case Spawning(_) =>
        if h.pool.semaphore.waiters == [Pools.Granted] {
          e := Permit;
        } else {
          Pools.NeverStuck(h.pool);
          e := TaskGoesOn(h);
        }
      case Joining =>
        if Pools.IsEmpty(h.pool) {
          e := Joined;
        } else {
          e := TaskGoesOn(h);
        }
    }
  }

  lemma {:induction false} PopGoesOn<T>(h: Parallel<T>)
    requires Ending(h) && h.pc.Looping?
    ensures var n := AfterPop(h);
      && Work(n) < Work(h) && n.closing && !n.closed && !n.pc.Stopped? && n.pool.size == h.pool.size
      && n.shutAt == h.shutAt && n.submitted == h.submitted
  {
    PoolKeepsSize(h.pool);
    hide Pools.Step, Pools.Locked, Sound, Handlers.Queue;
  }

  lemma {:induction false} PoolKeepsSize(p: Pools.Pool)
    ensures Pools.Step(p, Pools.Event.Join).size == p.size && Pools.Step(p, Pools.Event.Spawn).size == p.size
  {
  }

  lemma {:induction false} TaskGoesOn<T>(h: Parallel<T>) returns (e: Event<T>)
    requires Sound(h) && h.pool.tasks != {}
    ensures Enabled(h, e) && (e.TaskBegins? || (e.TaskEnds? && !e.failed))
    ensures var n := Step(h, e);
      && n == h.(pool := n.pool, begun := n.begun) && n.pool.size == h.pool.size && 0 <= TaskWork(n) < TaskWork(h)
  {
    var id :| id in h.pool.tasks;
    TaskLeaves(h.pool, id);
    hide Sound, Pools.Step, Pools.Sound;
    if id in h.begun || id in h.dropped {
      e := TaskEnds(id, false);
      FewerTasks(h.pool.tasks, h.begun, id);
    } else {
      e := TaskBegins(id);
      MoreBegun(h.pool.tasks, h.begun, id);
    }
  }

  lemma {:induction false} TaskLeaves(p: Pools.Pool, id: nat)
    requires id in p.tasks
    ensures Pools.Step(p, Pools.TaskDone(id)).tasks == p.tasks - {id} && Pools.Step(p, Pools.TaskDone(id)).size == p.size
  {
  }

  lemma FewerTasks(tasks: set<nat>, begun: set<nat>, id: nat)
    requires id in tasks
    ensures 0 <= 2 * |tasks - {id}| - |(tasks - {id}) * begun| < 2 * |tasks| - |tasks * begun|
  {
    var rest := tasks - {id};
    assert rest * begun == tasks * begun - {id};
    Smaller(rest * begun, rest);
  }

  lemma MoreBegun(tasks: set<nat>, begun: set<nat>, id: nat)
    requires id in tasks && id !in begun
    ensures 0 <= 2 * |tasks| - |tasks * (begun + {id})| < 2 * |tasks| - |tasks * begun|
  {
    assert tasks * (begun + {id}) == tasks * begun + {id};
    Smaller(tasks * (begun + {id}), tasks);
  }

  lemma Smaller(a: set<nat>, b: set<nat>)
    requires a <= b
    ensures |a| <= |b|
  {
    assert b == a + (b - a);
    assert |b| == |a| + |b - a|;
  }

  /**
    Left to itself after a shutdown, the handler spawns every task submitted before it, all of them end, and
    the handler is closed.
   */
  lemma {:induction false} EverythingEnds<T>(h: Parallel<T>) returns (es: seq<Event<T>>, end: Parallel<T>)
    requires Ending(h)
    ensures Run(h, es, end) && forall e :: e in es ==> Proper(e)
    ensures end.closed && end.pc.Stopped? && h.shutAt.Some? && h.shutAt.value <= |h.submitted|
    ensures end.taken == h.submitted[..h.shutAt.value] && end.pool.executed == |end.taken| && end.pool.tasks == {}
    decreases Work(h), TaskWork(h)
  {
    var e := SomethingGoesOn(h);
    StepIsSoundIffCareful(h, e);
    if e.Joined? {
      EndsWhenAllIsDone(h);
      es, end := [e], Step(h, e);
      assert es[1..] == [];
      assert Run(end, es[1..], end);
    } else {
      hide Step, Enabled, Sound, Work, TaskWork;
      es, end := EverythingEnds(Step(h, e));
      assert ([e] + es)[1..] == es;
      es := [e] + es;
    }
  }

  // ---------- the handler ----------

  /** The handler and its pool; `dropped` are the tasks it cancelled before they could begin. */
  class ParallelHandler<T> {
    const worker: Pools.AioPool
    const closeOnException: bool
    var pendingTasks: seq<Option<T>>
    var newTaskReceived: bool
    var isClosing: bool
    var isClosed: bool
    var gotException: bool
    var closers: nat
    var runLoop: Pc<T>
    var cancelled: bool
    var dropped: set<nat>

    ghost var submitted: seq<T>
    ghost var taken: seq<T>
    ghost var begun: set<nat>
    ghost var failedAt: Option<nat>
    ghost var shutAt: Option<nat>

    ghost function View(): Parallel<T>
      reads this, worker
    {
      Parallel(pendingTasks, newTaskReceived, isClosing, isClosed, closeOnException, runLoop, cancelled,
               worker.View(), gotException, closers, submitted, taken, dropped, begun, failedAt, shutAt)
    }

    constructor (strict: bool, concurrency: nat)
      requires concurrency > 0
      ensures View() == Fresh(strict, concurrency) && fresh(worker) && Sound(View())
      ensures pendingTasks == [] && !newTaskReceived && !isClosing && !isClosed && runLoop.Parked? && !cancelled
      ensures closeOnException == strict && !gotException && closers == 0 && dropped == {}
      ensures worker.size == concurrency && worker.tasks == {} && worker.semaphore.value == concurrency
    {
      FreshIsSound<T>(strict, concurrency);
      hide Sound;
      worker := new Pools.AioPool(concurrency);
      closeOnException, runLoop := strict, Parked;
      pendingTasks, newTaskReceived, isClosing, isClosed, cancelled := [], false, false, false, false;
      gotException, closers, dropped := false, 0, {};
      submitted, taken, begun, failedAt, shutAt := [], [], {}, None, None;
    }

    method Close()
      modifies this
      ensures View() == AfterClose(old(View()))
    {
      if isClosed { return; }
      isClosed := true;
      pendingTasks := [];
      cancelled := !runLoop.Stopped?;
    }

    /** Spawns the next task, or waits for a permit; at the mark of the shutdown waits for the pool instead. */
    method OnPop()
      requires runLoop.Looping?
      modifies this, worker
      ensures View() == AfterPop(old(View()))
      ensures old(Sound(View())) ==> Sound(View())
    {
      ghost var before := View();
      TakeNext();
      hide Sound, AfterPop;
      if Sound(before) { PopIsSound(before); }
    }

    method TakeNext()
      modifies this, worker
      ensures View() == AfterPop(old(View()))
    {
      hide Pools.Sound, Pools.Step, Pools.Locked, Spawned;
      if pendingTasks == [] {
        runLoop := Parked;
        return;
      }
      var next := pendingTasks[0];
      pendingTasks := pendingTasks[1..];
      match next {
        case None => JoinPool();
        case Some(task) => SpawnTask(task);
      }
    }

    method JoinPool()
      modifies this, worker
      ensures View() == old(View()).(pc := Joining, pool := Pools.Step(old(worker.View()), Pools.Event.Join))
    {
      var waits := worker.Join(None);
      runLoop := Joining;
    }

    method SpawnTask(task: T)
      modifies this, worker
      ensures var pool := Pools.Step(old(worker.View()), Pools.Event.Spawn);
        View() == if old(Pools.Locked(worker.semaphore)) then old(View()).(pc := Spawning(task), pool := pool)
          else Spawned(old(View()), task, pool)
    {
      hide Pools.Sound, Pools.Step, Pools.Locked;
      ghost var before := worker.View();
      var t := worker.Spawn();
      if t.None? {
        runLoop := Spawning(task);
      } else {
        TaskSpawned(task, t.value, before);
      }
    }

    /** `spawn` returns a task: it is cancelled at once if one has failed and that is to end everything. */
    method TaskSpawned(task: T, id: nat, ghost before: Pools.Pool)
      requires id == before.spawned
      modifies this
      ensures View() == Spawned(old(View()).(pool := before), task, worker.View())
    {
      taken := taken + [task];
      runLoop := Looping;
      if closeOnException && gotException {
        dropped := dropped + {id};
      }
    }

    /** The event loop gives a task its first turn. */
    method OnTaskBegins(id: nat)
      requires Enabled(View(), TaskBegins(id))
      modifies this
      ensures View() == Step(old(View()), TaskBegins(id))
      ensures old(Sound(View())) ==> Sound(View())
    {
      hide Sound, Pools.Step;
      if Sound(View()) { BeginIsSound(View(), id); }
      begun := begun + {id};
    }

    method OnPermit()
      requires Enabled(View(), Permit)
      modifies this, worker
      ensures View() == Step(old(View()), Permit)
      ensures old(Sound(View())) ==> Sound(View())
    {
      hide Sound, Pools.Step;
      if Sound(View()) { PermitIsSound(View()); }
      ghost var before := worker.View();
      var t := worker.ResumeSpawn(0);
      TaskSpawned(runLoop.task, t.value, before);
    }

    method OnTaskEnd(id: nat, failed: bool)
      requires Enabled(View(), TaskEnds(id, failed))
      modifies this, worker
      ensures View() == AfterTask(old(View()), id, failed)
      ensures old(Sound(View())) ==> Sound(View())
    {
      ghost var before := View();
      DiscardResult(id, failed);
      hide Sound, AfterTask;
      if Sound(before) { TaskEndIsSound(before, id, failed); }
    }

    method DiscardResult(id: nat, failed: bool)
      requires id in worker.tasks
      modifies this, worker
      ensures View() == AfterTask(old(View()), id, failed)
    {
      hide Pools.Sound, Pools.Step;
      worker.TaskDone(id);
      if failed && closeOnException {
        gotException := true;
        failedAt := if failedAt.Some? then failedAt else Some(|taken|);
        closers := closers + 1;
      }
    }

    /** The pool is empty after the mark of the shutdown: the loop closes the handler and ends. */
    method OnJoined()
      requires Enabled(View(), Joined)
      modifies this
      ensures View() == Step(old(View()), Joined)
      ensures old(Sound(View()) && !isClosed) ==> worker.executedCount == |taken| && taken == submitted[..shutAt.value]
    {
      if Sound(View()) && !isClosed { EndsWhenAllIsDone(View()); }
      Close();
      runLoop := Stopped;
    }
  }
}
