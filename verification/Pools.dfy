/**
  The worker pool: a semaphore that hands its permits to the spawners waiting for one, the tasks
  that run, and those who wait for the pool to be empty. One step for every piece of code between
  two awaits.
 */
module Pools {
  import opened Results

  // ---------- the semaphore ----------

  /**
    A waiting spawner: asleep, handed a permit but not yet resumed, cancelled before or after that.
   */
  datatype Waiter = Asleep | Granted | GaveUp | GrantedGaveUp

  predicate Holds(w: Waiter) {
    w.Granted? || w.GrantedGaveUp?
  }

  datatype Semaphore = Semaphore(value: nat, waiters: seq<Waiter>)

  /** Permits handed over to waiters that have not resumed. */
  function Held(ws: seq<Waiter>): nat {
    if ws == [] then 0 else Held(ws[..|ws| - 1]) + if Holds(ws[|ws| - 1]) then 1 else 0
  }

  function FirstAsleep(ws: seq<Waiter>): (i: nat)
    ensures i <= |ws| && (forall k :: 0 <= k < i ==> ws[k] != Asleep) && (i < |ws| ==> ws[i] == Asleep)
  {
    if ws == [] || ws[0] == Asleep then 0 else 1 + FirstAsleep(ws[1..])
  }

  /** A free permit goes to the first waiter that is asleep. */
  function WakeUpNext(s: Semaphore): Semaphore
    requires s.value > 0
  {
    var i := FirstAsleep(s.waiters);
    if i == |s.waiters| then s else Semaphore(s.value - 1, s.waiters[i := Granted])
  }

  /** Nobody overtakes a waiter, except one that has been cancelled while asleep. */
  predicate Locked(s: Semaphore) {
    s.value == 0 || exists i :: 0 <= i < |s.waiters| && s.waiters[i] != GaveUp
  }

  function Release(s: Semaphore): Semaphore {
    WakeUpNext(s.(value := s.value + 1))
  }

  function Without(ws: seq<Waiter>, i: nat): seq<Waiter>
    requires i < |ws|
  {
    ws[..i] + ws[i + 1..]
  }

  /** What `acquire` does when waiter i resumes: it has its permit, gives it back, or never had one. */
  function Resumed(s: Semaphore, i: nat): Semaphore
    requires i < |s.waiters| && s.waiters[i] != Asleep
  {
    var r := s.(waiters := Without(s.waiters, i));
    match s.waiters[i]
    case Granted => if r.value > 0 then WakeUpNext(r) else r
    case GrantedGaveUp => Release(r)
    case _ => r
  }

  // ---------- the pool ----------

  /**
    The fields of the pool, then its joiners asleep and woken, the number of tasks spawned and that
    of spawners that were cancelled.
   */
  datatype Pool = Pool(
    size: nat, semaphore: Semaphore, tasks: set<nat>, waiterCount: int, executed: nat,
    joiners: nat, woken: nat, spawned: nat, abandoned: nat)

  function Fresh(size: nat): Pool {
    Pool(size, Semaphore(size, []), {}, 0, 0, 0, 0, 0, 0)
  }

  predicate IsEmpty(p: Pool) {
    p.tasks == {} && p.waiterCount == 0
  }

  function Started(p: Pool): Pool {
    p.(tasks := p.tasks + {p.spawned}, spawned := p.spawned + 1)
  }

  function Notified(p: Pool): Pool {
    if IsEmpty(p) then p.(joiners := 0, woken := p.woken + p.joiners) else p
  }

  datatype Event =
    | Spawn
    | Resume(i: nat)
    | CancelSpawner(i: nat)
    | TaskDone(task: nat)
    | Join
    | CancelJoin

  predicate Enabled(p: Pool, e: Event) {
    var ws := p.semaphore.waiters;
    match e
    case Resume(i) => i < |ws| && ws[i] != Asleep
    case CancelSpawner(i) => i < |ws| && (ws[i] == Asleep || ws[i] == Granted)
    case TaskDone(task) => task in p.tasks
    case CancelJoin => p.joiners > 0
    case _ => true
  }

  function Step(p: Pool, e: Event): Pool
    requires Enabled(p, e)
  {
    var s := p.semaphore;
    match e
    case Spawn =>
      if Locked(s) then p.(waiterCount := p.waiterCount + 1, semaphore := s.(waiters := s.waiters + [Asleep]))
      else Started(p.(semaphore := s.(value := s.value - 1)))
    case Resume(i) =>
      var r := p.(semaphore := Resumed(s, i));
      if s.waiters[i] == Granted then Started(r.(waiterCount := p.waiterCount - 1))
      else r.(abandoned := p.abandoned + 1)
    case CancelSpawner(i) =>
      p.(semaphore := s.(waiters := s.waiters[i := if s.waiters[i] == Asleep then GaveUp else GrantedGaveUp]))
    case TaskDone(task) =>
      Notified(p.(semaphore := Release(s), tasks := p.tasks - {task}, executed := p.executed + 1))
    case Join => if IsEmpty(p) then p else p.(joiners := p.joiners + 1)
    case CancelJoin => p.(joiners := p.joiners - 1)
  }

  /** Every permit is free, handed over, or held by a task; no permit is free while only sleepers wait. */
  ghost predicate Conserved(p: Pool) {
    && p.semaphore.value + Held(p.semaphore.waiters) + |p.tasks| == p.size
    && p.spawned == p.executed + |p.tasks|
    && p.waiterCount == |p.semaphore.waiters| + p.abandoned
    && (forall t :: t in p.tasks ==> t < p.spawned)
  }

  /** Permits are handed over in the order of the calls. */
  predicate InOrder(ws: seq<Waiter>) {
    forall i, j :: 0 <= i < j < |ws| && ws[i] == Asleep ==> !Holds(ws[j])
  }

  predicate Served(s: Semaphore) {
    InOrder(s.waiters) && (s.value > 0 && FirstAsleep(s.waiters) < |s.waiters| ==> Held(s.waiters) > 0)
  }

  ghost predicate Sound(p: Pool) {
    && Conserved(p) && Served(p.semaphore)
    && (p.joiners > 0 ==> !IsEmpty(p))
  }

  // ---------- counting ----------

  lemma {:induction false} HeldConcat(a: seq<Waiter>, b: seq<Waiter>)
    ensures Held(a + b) == Held(a) + Held(b)
    decreases |b|
  {
    if b == [] {
      assert a + b == a;
    } else {
      assert (a + b)[..|a + b| - 1] == a + b[..|b| - 1];
      HeldConcat(a, b[..|b| - 1]);
    }
  }

  lemma {:induction false} HeldOne(w: Waiter)
    ensures Held([w]) == if Holds(w) then 1 else 0
  {
    assert [w][..0] == [];
  }

  lemma {:induction false} HeldUpdated(ws: seq<Waiter>, i: nat, w: Waiter)
    requires i < |ws|
    ensures Held(ws[i := w]) == Held(ws) - (if Holds(ws[i]) then 1 else 0) + if Holds(w) then 1 else 0
    ensures Held(Without(ws, i)) == Held(ws) - if Holds(ws[i]) then 1 else 0
  {
    hide Held;
    var a, b := ws[..i], ws[i + 1..];
    assert ws == a + [ws[i]] + b && ws[i := w] == a + [w] + b;
    HeldConcat(a, [ws[i]]);
    HeldConcat(a + [ws[i]], b);
    HeldConcat(a, [w]);
    HeldConcat(a + [w], b);
    HeldConcat(a, b);
    HeldOne(ws[i]);
    HeldOne(w);
  }

  lemma {:induction false} NoneHeld(ws: seq<Waiter>)
    ensures Held(ws) > 0 <==> exists i :: 0 <= i < |ws| && Holds(ws[i])
    decreases |ws|
  {
    if ws != [] { NoneHeld(ws[..|ws| - 1]); }
  }

  // ---------- every step ----------

  lemma {:induction false} WakingServes(s: Semaphore)
    requires s.value > 0 && InOrder(s.waiters)
    ensures var n := WakeUpNext(s);
      Served(n) && n.value + Held(n.waiters) == s.value + Held(s.waiters) && |n.waiters| == |s.waiters|
  {
    var i := FirstAsleep(s.waiters);
    if i < |s.waiters| { HeldUpdated(s.waiters, i, Granted); }
  }

  lemma {:induction false} AsleepExists(ws: seq<Waiter>, i: nat)
    requires i < |ws| && ws[i] == Asleep
    ensures FirstAsleep(ws) <= i
  {
  }

  lemma {:induction false} ResumingServes(s: Semaphore, i: nat)
    requires i < |s.waiters| && s.waiters[i] != Asleep && Served(s)
    ensures var n := Resumed(s, i);
      && Served(n) && |n.waiters| == |s.waiters| - 1
      && n.value + Held(n.waiters) == s.value + Held(s.waiters) - if s.waiters[i] == Granted then 1 else 0
  {
    HeldUpdated(s.waiters, i, Asleep);
    WithoutInOrder(s.waiters, i);
    var r := s.(waiters := Without(s.waiters, i));
    hide Held, FirstAsleep, InOrder, Without, WakeUpNext;
    match s.waiters[i] {
      case Granted => if r.value > 0 { WakingServes(r); }
      case GrantedGaveUp => WakingServes(r.(value := r.value + 1));
      case GaveUp =>
    }
  }

  lemma {:induction false} WithoutInOrder(ws: seq<Waiter>, i: nat)
    requires i < |ws| && InOrder(ws)
    ensures |Without(ws, i)| == |ws| - 1 && InOrder(Without(ws, i))
    ensures FirstAsleep(Without(ws, i)) < |ws| - 1 ==> FirstAsleep(ws) < |ws|
  {
    var without := Without(ws, i);
    assert forall k :: 0 <= k < |without| ==> without[k] == ws[if k < i then k else k + 1];
    var k := FirstAsleep(without);
    if k < |without| { AsleepExists(ws, if k < i then k else k + 1); }
  }

  lemma {:induction false} CancellingServes(s: Semaphore, i: nat)
    requires i < |s.waiters| && (s.waiters[i] == Asleep || s.waiters[i] == Granted) && Served(s)
    ensures var n := s.(waiters := s.waiters[i := if s.waiters[i] == Asleep then GaveUp else GrantedGaveUp]);
      Served(n) && Held(n.waiters) == Held(s.waiters)
  {
    var w := if s.waiters[i] == Asleep then GaveUp else GrantedGaveUp;
    HeldUpdated(s.waiters, i, w);
    var k := FirstAsleep(s.waiters[i := w]);
    if k < |s.waiters| { AsleepExists(s.waiters, k); }
  }

  lemma {:induction false} SpawningServes(s: Semaphore)
    requires Served(s)
    ensures Locked(s) ==>
      var n := s.(waiters := s.waiters + [Asleep]); Served(n) && Held(n.waiters) == Held(s.waiters)
    ensures !Locked(s) ==> Served(s.(value := s.value - 1))
  {
    HeldConcat(s.waiters, [Asleep]);
    HeldOne(Asleep);
    NoneHeld(s.waiters);
    if Locked(s) && s.value > 0 {
      var i :| 0 <= i < |s.waiters| && s.waiters[i] != GaveUp;
      if s.waiters[i] == Asleep { AsleepExists(s.waiters, i); }
    }
  }

  /** The invariant holds in every step, cancelled spawners included. */
  lemma {:induction false} StepIsSound(p: Pool, e: Event)
    requires Sound(p) && Enabled(p, e)
    ensures Sound(Step(p, e))
  {
    hide Served, Held, Locked, Resumed, WakeUpNext;
    match e {
      case Spawn => SpawningServes(p.semaphore);
      case Resume(i) => ResumingServes(p.semaphore, i);
      case CancelSpawner(i) => CancellingServes(p.semaphore, i);
      case TaskDone(_) => ReleasingServes(p.semaphore);
      case _ =>
    }
  }

  lemma {:induction false} ReleasingServes(s: Semaphore)
    requires Served(s)
    ensures var n := Release(s);
      Served(n) && n.value + Held(n.waiters) == s.value + Held(s.waiters) + 1 && |n.waiters| == |s.waiters|
  {
    WakingServes(s.(value := s.value + 1));
  }

  ghost predicate Run(p: Pool, es: seq<Event>, end: Pool)
    decreases |es|
  {
    if es == [] then p == end
    else Enabled(p, es[0]) && Run(Step(p, es[0]), es[1..], end)
  }

  /** Every run of a pool: permits are conserved, and who waits for an empty pool does not miss it. */
  lemma {:induction false} EveryRunIsSound(p: Pool, es: seq<Event>, end: Pool)
    requires Sound(p) && Run(p, es, end)
    ensures Sound(end) && end.size == p.size && end.abandoned >= p.abandoned
    decreases |es|
  {
    if es != [] {
      hide Sound;
      StepIsSound(p, es[0]);
      EveryRunIsSound(Step(p, es[0]), es[1..], end);
    }
  }

  lemma {:induction false} FreshIsSound(size: nat)
    requires size > 0
    ensures Sound(Fresh(size))
  {
  }

  /** At most `size` tasks run at once; and as long as spawners wait, some task runs or some permit is on its way. */
  lemma {:induction false} NeverStuck(p: Pool)
    requires Sound(p) && p.size > 0
    ensures |p.tasks| <= p.size
    ensures FirstAsleep(p.semaphore.waiters) < |p.semaphore.waiters| ==>
      p.tasks != {} || exists i :: 0 <= i < |p.semaphore.waiters| && Holds(p.semaphore.waiters[i])
  {
    NoneHeld(p.semaphore.waiters);
  }

  // ---------- joiners and spawners, one by one ----------

  /** Every joiner that had to wait is asleep, woken or cancelled. */
  lemma JoinersAreCounted(p: Pool, e: Event)
    requires Enabled(p, e)
    ensures Step(p, e).joiners + Step(p, e).woken
      == p.joiners + p.woken + (if e == Join && (p.tasks != {} || p.waiterCount != 0) then 1 else 0) - (if e == CancelJoin then 1 else 0)
  {
  }

  /** All joiners asleep are woken at once, exactly when the last task ends and no spawner is counted as waiting. */
  lemma JoinersAreWokenIff(p: Pool, e: Event)
    requires Sound(p) && Enabled(p, e) && p.joiners > 0
    ensures Step(p, e).woken > p.woken <==> e.TaskDone? && p.tasks == {e.task} && p.waiterCount == 0
    ensures Step(p, e).woken > p.woken ==> Step(p, e).joiners == 0 && Step(p, e).woken == p.woken + p.joiners
  {
    if e.TaskDone? { assert p.tasks - {e.task} == {} <==> p.tasks == {e.task}; }
  }

  /** A spawner starts its task at once exactly if a permit is free and nobody waits who has not been cancelled; else it goes to the end of the line. */
  lemma SpawnStartsAtOnceIff(p: Pool)
    ensures Step(p, Spawn).tasks != p.tasks || p.spawned in p.tasks <==>
      p.spawned in p.tasks || (p.semaphore.value > 0 && forall i :: 0 <= i < |p.semaphore.waiters| ==> p.semaphore.waiters[i] == GaveUp)
    ensures Step(p, Spawn).spawned == p.spawned ==>
      Step(p, Spawn).semaphore.waiters == p.semaphore.waiters + [Asleep] && Step(p, Spawn).waiterCount == p.waiterCount + 1
  {
  }

  // ---------- when the pool can become empty ----------

  predicate Cancelled(w: Waiter) {
    w.GaveUp? || w.GrantedGaveUp?
  }

  /** A spawner has been cancelled while it waited: it is counted as waiting for ever. */
  predicate SpawnerLost(p: Pool) {
    p.abandoned > 0 || exists i :: 0 <= i < |p.semaphore.waiters| && Cancelled(p.semaphore.waiters[i])
  }

  lemma {:induction false} LossIsForGood(p: Pool, e: Event)
    requires Sound(p) && Enabled(p, e) && SpawnerLost(p)
    ensures SpawnerLost(Step(p, e)) && !IsEmpty(Step(p, e)) && Step(p, e).woken == p.woken
  {
    StepIsSound(p, e);
    if p.abandoned == 0 {
      var i :| 0 <= i < |p.semaphore.waiters| && Cancelled(p.semaphore.waiters[i]);
      CancelledStays(p, e, i);
    }
    LostIsNotEmpty(Step(p, e));
  }

  lemma LostIsNotEmpty(p: Pool)
    requires Sound(p) && SpawnerLost(p)
    ensures !IsEmpty(p)
  {
  }

  lemma {:induction false} WakingKeepsOthers(s: Semaphore, k: nat)
    requires s.value > 0 && k < |s.waiters| && s.waiters[k] != Asleep
    ensures k < |WakeUpNext(s).waiters| && WakeUpNext(s).waiters[k] == s.waiters[k]
  {
  }

  lemma {:induction false} CancelledStays(p: Pool, e: Event, i: nat)
    requires Enabled(p, e) && i < |p.semaphore.waiters| && Cancelled(p.semaphore.waiters[i])
    ensures SpawnerLost(Step(p, e))
  {
    hide WakeUpNext;
    var s := p.semaphore;
    var k := if e.Resume? && e.i < i then i - 1 else i;
    match e {
      case TaskDone(_) => WakingKeepsOthers(s.(value := s.value + 1), i);
      case Resume(j) =>
        if j != i {
          var r := s.(waiters := Without(s.waiters, j));
          assert r.waiters[k] == s.waiters[i];
          if s.waiters[j] == Granted && r.value > 0 { WakingKeepsOthers(r, k); }
          if s.waiters[j] == GrantedGaveUp { WakingKeepsOthers(r.(value := r.value + 1), k); }
        }
      case _ =>
    }
    assert p.abandoned < Step(p, e).abandoned || Cancelled(Step(p, e).semaphore.waiters[k]);
  }

  lemma {:induction false} LostForGood(p: Pool, es: seq<Event>, end: Pool)
    requires Sound(p) && SpawnerLost(p) && Run(p, es, end)
    ensures !IsEmpty(end) && end.woken == p.woken
    decreases |es|
  {
    if es == [] {
      assert Conserved(p);
    } else {
      LossIsForGood(p, es[0]);
      StepIsSound(p, es[0]);
      LostForGood(Step(p, es[0]), es[1..], end);
    }
  }

  lemma {:induction false} PrependStep(p: Pool, e: Event, es: seq<Event>, end: Pool)
    requires Enabled(p, e) && Run(Step(p, e), es, end)
    ensures Run(p, [e] + es, end)
  {
    assert ([e] + es)[1..] == es;
  }

  lemma {:induction false} SomebodyMoves(p: Pool)
    requires Sound(p) && p.size > 0 && !SpawnerLost(p) && !IsEmpty(p)
    ensures p.tasks != {} || exists i :: 0 <= i < |p.semaphore.waiters| && Holds(p.semaphore.waiters[i])
  {
    var ws := p.semaphore.waiters;
    NoneHeld(ws);
    if ws != [] && ws[0] == Asleep { AsleepExists(ws, 0); }
  }

  /** Left to itself a pool without lost spawners serves them all, runs to its end and wakes its joiners. */
  lemma {:induction false} Drains(p: Pool) returns (es: seq<Event>, end: Pool)
    requires Sound(p) && p.size > 0 && !SpawnerLost(p)
    ensures Run(p, es, end) && IsEmpty(end) && end.joiners == 0
    ensures end.executed == p.spawned + |p.semaphore.waiters|
    decreases 2 * |p.semaphore.waiters| + |p.tasks|
  {
    var ws := p.semaphore.waiters;
    if IsEmpty(p) {
      return [], p;
    }
    SomebodyMoves(p);
    var e: Event;
    if i :| 0 <= i < |ws| && Holds(ws[i]) {
      assert ws[i] == Granted;
      e := Resume(i);
      ResumeMovesOn(p, i);
    } else {
      var t :| t in p.tasks;
      e := TaskDone(t);
      TaskDoneMovesOn(p, t);
    }
    StepIsSound(p, e);
    hide Sound, Step, SpawnerLost;
    es, end := Drains(Step(p, e));
    PrependStep(p, e, es, end);
    es := [e] + es;
  }

  /** Waking hands over a permit but loses nobody. */
  lemma {:induction false} WakingLosesNobody(s: Semaphore, n: Semaphore)
    requires s.value > 0 && n == WakeUpNext(s) && forall i :: 0 <= i < |s.waiters| ==> !Cancelled(s.waiters[i])
    ensures |n.waiters| == |s.waiters| && forall i :: 0 <= i < |n.waiters| ==> !Cancelled(n.waiters[i])
  {
  }

  lemma {:induction false} ResumeMovesOn(p: Pool, i: nat)
    requires Sound(p) && !SpawnerLost(p) && i < |p.semaphore.waiters| && p.semaphore.waiters[i] == Granted
    ensures var n := Step(p, Resume(i));
      && !SpawnerLost(n) && |n.semaphore.waiters| == |p.semaphore.waiters| - 1 && |n.tasks| == |p.tasks| + 1
      && n.spawned == p.spawned + 1 && n.size == p.size
  {
    var s := p.semaphore;
    var ws := Without(s.waiters, i);
    assert forall k :: 0 <= k < |ws| ==> ws[k] == s.waiters[if k < i then k else k + 1];
    if s.value > 0 { WakingLosesNobody(s.(waiters := ws), Resumed(s, i)); }
  }

  lemma {:induction false} TaskDoneMovesOn(p: Pool, task: nat)
    requires Sound(p) && !SpawnerLost(p) && task in p.tasks
    ensures var n := Step(p, TaskDone(task));
      && !SpawnerLost(n) && |n.semaphore.waiters| == |p.semaphore.waiters| && |n.tasks| == |p.tasks| - 1
      && n.spawned == p.spawned && n.size == p.size
  {
    var s := p.semaphore;
    WakingLosesNobody(s.(value := s.value + 1), Release(s));
  }

  /** The pool can become empty again exactly when no spawner was cancelled while it waited. */
  lemma {:induction false} BecomesEmptyIff(p: Pool)
    requires Sound(p) && p.size > 0
    ensures !SpawnerLost(p) <==> exists es, end :: Run(p, es, end) && IsEmpty(end) && end.joiners == 0
  {
    if SpawnerLost(p) {
      forall es, end | Run(p, es, end) ensures !IsEmpty(end) {
        LostForGood(p, es, end);
      }
    } else {
      var es, end := Drains(p);
    }
  }

  // ---------- the pool itself ----------

  class AioPool {
    const size: nat
    var semaphore: Semaphore
    var tasks: set<nat>
    var waiterCount: int
    var executedCount: nat
    /** Names the next task. */
    var spawned: nat

    ghost var joiners: nat
    ghost var woken: nat
    ghost var abandoned: nat

    ghost function View(): Pool
      reads this
    {
      Pool(size, semaphore, tasks, waiterCount, executedCount, joiners, woken, spawned, abandoned)
    }

    constructor (size: nat)
      requires size > 0
      ensures View() == Fresh(size) && Sound(View())
      ensures this.size == size && semaphore == Semaphore(size, []) && tasks == {} && waiterCount == 0 && executedCount == 0
    {
      this.size := size;
      semaphore, tasks, waiterCount, executedCount := Semaphore(size, []), {}, 0, 0;
      joiners, woken, spawned, abandoned := 0, 0, 0, 0;
    }

    /** `spawn` up to where it waits for a permit; it starts a task at once if it need not wait. */
    method Spawn() returns (task: Option<nat>)
      modifies this
      ensures View() == Step(old(View()), Event.Spawn)
      ensures task == if old(Locked(semaphore)) then None else Some(old(spawned))
      ensures old(Sound(View())) ==> Sound(View())
    {
      hide Sound;
      if Sound(View()) { StepIsSound(View(), Event.Spawn); }
      waiterCount := waiterCount + 1;
      if Locked(semaphore) {
        semaphore := semaphore.(waiters := semaphore.waiters + [Asleep]);
        return None;
      }
      semaphore := semaphore.(value := semaphore.value - 1);
      var t := StartTask();
      task := Some(t);
    }

    /** `spawn` from there on; a cancelled spawner gets no further than the semaphore. */
    method ResumeSpawn(i: nat) returns (task: Option<nat>)
      requires Enabled(View(), Resume(i))
      modifies this
      ensures View() == Step(old(View()), Resume(i))
      ensures task == if old(semaphore.waiters[i]) == Granted then Some(old(spawned)) else None
      ensures old(Sound(View())) ==> Sound(View())
    {
      hide Sound;
      if Sound(View()) { StepIsSound(View(), Resume(i)); }
      var granted := semaphore.waiters[i] == Granted;
      semaphore := Resumed(semaphore, i);
      if granted {
        var t := StartTask();
        task := Some(t);
      } else {
        abandoned := abandoned + 1;
        task := None;
      }
    }

    method StartTask() returns (task: nat)
      modifies this
      ensures View() == Started(old(View()).(waiterCount := old(waiterCount) - 1)) && task == old(spawned)
    {
      waiterCount := waiterCount - 1;
      task := spawned;
      tasks := tasks + {task};
      spawned := spawned + 1;
    }

    method TaskDone(task: nat)
      requires task in tasks
      modifies this
      ensures View() == Step(old(View()), Event.TaskDone(task))
      ensures old(Sound(View())) ==> Sound(View())
    {
      hide Sound;
      if Sound(View()) { StepIsSound(View(), Event.TaskDone(task)); }
      semaphore := Release(semaphore);
      tasks := tasks - {task};
      executedCount := executedCount + 1;
      if tasks == {} && waiterCount == 0 { NotifyEmpty(); }
    }

    /** Wakes everybody who waits for the event, and clears it for the next time. */
    method NotifyEmpty()
      modifies this
      ensures View() == old(View()).(joiners := 0, woken := old(woken) + old(joiners))
    {
      woken := woken + joiners;
      joiners := 0;
    }

    /** `join` up to where it waits, if the pool is not empty; refused to a task of the pool itself. */
    method Join(current: Option<nat>) returns (waits: Result<bool>)
      modifies this
      ensures if current.Some? && current.value in tasks then waits == Failure && View() == old(View())
        else View() == Step(old(View()), Event.Join) && waits == Success(!old(IsEmpty(View())))
      ensures old(Sound(View())) ==> Sound(View())
    {
      if current.Some? && current.value in tasks { return Failure; }
      var empty := tasks == {} && waiterCount == 0;
      if !empty { joiners := joiners + 1; }
      waits := Success(!empty);
    }
  }
}
