/**
  The serial handler: tasks wait in a queue and are run one by one by a loop that sleeps on an
  event. A step is the code between two points where the loop awaits, or a call from outside.
 */
module Handlers {
  import opened Results

  /** Where the run loop is: asleep, about to look at the queue, in a task, in the error handler, over. */
  datatype Pc<+T> = Parked | Looping | Executing(task: T) | Reporting(task: T) | Stopped

  /** How a task ends; `Forbidden` is the kind of exception tasks have to handle themselves. */
  datatype Ending = Fine | Raised | Forbidden

  /** The fields of the handler, then what has happened to it. */
  datatype Serial<+T> = Serial(
    pending: seq<Option<T>>, event: bool, closing: bool, closed: bool, strict: bool, pc: Pc<T>, cancelled: bool,
    submitted: seq<T>, started: seq<T>, finished: nat, shutAt: Option<nat>)

  function Fresh<T>(strict: bool): Serial<T> {
    Serial([], false, false, false, strict, Parked, false, [], [], 0, None)
  }

  // ---------- calls ----------

  function AfterSubmit<T>(h: Serial<T>, task: T): Serial<T> {
    h.(pending := h.pending + [Some(task)], event := true, submitted := h.submitted + [task])
  }

  function AfterShutdown<T>(h: Serial<T>): Serial<T> {
    if h.closing then h
    else h.(closing := true, pending := h.pending + [None], event := true, shutAt := Some(|h.submitted|))
  }

  function AfterClose<T>(h: Serial<T>): Serial<T> {
    if h.closed then h else h.(closed := true, pending := [], cancelled := h.pc != Stopped)
  }

  // ---------- the run loop ----------

  function AfterWake<T>(h: Serial<T>): Serial<T> {
    h.(event := false, pc := Looping)
  }

  function AfterPop<T>(h: Serial<T>): Serial<T> {
    if h.pending == [] then h.(pc := Parked)
    else
      var rest := h.(pending := h.pending[1..]);
      match h.pending[0]
      case None => AfterClose(rest).(pc := Stopped)
      case Some(task) => rest.(pc := Executing(task), started := h.started + [task])
  }

  function AfterEnd<T>(h: Serial<T>, ending: Ending): Serial<T>
    requires h.pc.Executing?
  {
    match ending
    case Fine => h.(pc := Looping, finished := h.finished + 1)
    case Raised => h.(pc := Reporting(h.pc.task))
    case Forbidden => h.(pc := Stopped)
  }

  function AfterReport<T>(h: Serial<T>, ok: bool): Serial<T> {
    if !ok then h.(pc := Stopped)
    else
      var f := h.(finished := h.finished + 1);
      if h.strict then AfterClose(f).(pc := Stopped) else f.(pc := Looping)
  }

  // ---------- every run ----------

  datatype Event<+T> =
    | Submit(task: T)
    | CallShutdown
    | CallClose
    | Wake
    | Pop
    | End(ending: Ending)
    | Report(ok: bool)
    | Cancel

  /** A cancelled loop need not stop: a task may catch the cancellation and return. */
  predicate Enabled<T>(h: Serial<T>, e: Event<T>) {
    match e
    case Wake => h.pc.Parked? && h.event
    case Pop => h.pc.Looping?
    case End(_) => h.pc.Executing?
    case Report(_) => h.pc.Reporting?
    case Cancel => h.cancelled && !h.pc.Looping?
    case _ => true
  }

  function Step<T>(h: Serial<T>, e: Event<T>): Serial<T>
    requires Enabled(h, e)
  {
    match e
    case Submit(task) => AfterSubmit(h, task)
    case CallShutdown => AfterShutdown(h)
    case CallClose => AfterClose(h)
    case Wake => AfterWake(h)
    case Pop => AfterPop(h)
    case End(ending) => AfterEnd(h, ending)
    case Report(ok) => AfterReport(h, ok)
    case Cancel => h.(pc := Stopped)
  }

  /** Callers do not submit to a handler that is closed. */
  predicate Careful<T>(h: Serial<T>, e: Event<T>) {
    e.Submit? ==> !h.closed
  }

  function Somes<T>(s: seq<T>): (r: seq<Option<T>>)
    ensures |r| == |s|
  {
    seq(|s|, i requires 0 <= i < |s| => Some(s[i]))
  }

  /** What has been submitted but not started, the mark of the shutdown among it. */
  function Queue<T>(submitted: seq<T>, k: nat, shutAt: Option<nat>): seq<Option<T>>
    requires k <= |submitted| && (shutAt.Some? ==> k <= shutAt.value <= |submitted|)
  {
    match shutAt
    case None => Somes(submitted[k..])
    case Some(m) => Somes(submitted[k..m]) + [None] + Somes(submitted[m..])
  }

  /** Tasks start in the order of submission, none twice, none skipped, none submitted after the shutdown. */
  ghost predicate InOrder<T>(h: Serial<T>) {
    && h.started <= h.submitted
    && (h.closing <==> h.shutAt.Some?)
    && (h.shutAt.Some? ==> |h.started| <= h.shutAt.value <= |h.submitted|)
    && (if h.closed then h.pending == [] || (h.closing && h.pending == [None]) else h.pending == Queue(h.submitted, |h.started|, h.shutAt))
  }

  /** A task is started when the one before it is finished. */
  predicate OneAtATime<T>(h: Serial<T>) {
    match h.pc
    case Parked => h.finished == |h.started|
    case Looping => h.finished == |h.started|
    case Stopped => h.finished <= |h.started| <= h.finished + 1
    case _ => h.finished + 1 == |h.started|
  }

  /** Asleep without a signal, the loop has nothing to do. */
  predicate NoLostWakeUp<T>(h: Serial<T>) {
    h.pc.Parked? && !h.event ==> h.pending == []
  }

  ghost predicate Sound<T>(h: Serial<T>) {
    InOrder(h) && OneAtATime(h) && NoLostWakeUp(h)
  }

  lemma StepIsSoundIffCareful<T>(h: Serial<T>, e: Event<T>)
    requires Sound(h) && Enabled(h, e)
    ensures Sound(Step(h, e)) <==> Careful(h, e)
  {
    hide Queue;
    match e {
      case Submit(task) => SubmitIsSound(h, task);
      case CallShutdown => ShutdownIsSound(h);
      case Pop => PopIsSound(h);
      case End(ending) => EndIsSound(h, ending);
      case Report(ok) => ReportIsSound(h, ok);
      case _ =>
    }
  }

  lemma EndIsSound<T>(h: Serial<T>, ending: Ending)
    requires Sound(h) && h.pc.Executing?
    ensures Sound(AfterEnd(h, ending))
  {
    hide Queue;
  }

  lemma ReportIsSound<T>(h: Serial<T>, ok: bool)
    requires Sound(h) && h.pc.Reporting?
    ensures Sound(AfterReport(h, ok))
  {
    hide Queue;
  }

  lemma SubmitIsSound<T>(h: Serial<T>, task: T)
    requires Sound(h)
    ensures Sound(AfterSubmit(h, task)) <==> !h.closed
  {
    QueueGrows(h.submitted, |h.started|, h.shutAt, task);
    hide Queue;
    var n := AfterSubmit(h, task);
    assert n.pending[|h.pending|] == Some(task);
  }

  lemma QueueGrows<T>(submitted: seq<T>, k: nat, shutAt: Option<nat>, task: T)
    requires k <= |submitted| && (shutAt.Some? ==> k <= shutAt.value <= |submitted|)
    ensures Queue(submitted + [task], k, shutAt) == Queue(submitted, k, shutAt) + [Some(task)]
  {
    match shutAt {
      case None =>
        assert (submitted + [task])[k..] == submitted[k..] + [task];
      case Some(m) =>
        assert (submitted + [task])[k..m] == submitted[k..m];
        assert (submitted + [task])[m..] == submitted[m..] + [task];
        assert Somes((submitted + [task])[m..]) == Somes(submitted[m..]) + [Some(task)];
    }
  }

  lemma ShutdownIsSound<T>(h: Serial<T>)
    requires Sound(h)
    ensures Sound(AfterShutdown(h))
  {
    QueueIsMarked(h.submitted, |h.started|);
    hide Queue;
  }

  lemma QueueIsMarked<T>(submitted: seq<T>, k: nat)
    requires k <= |submitted|
    ensures Queue(submitted, k, Some(|submitted|)) == Queue(submitted, k, None) + [None]
  {
    assert submitted[k..|submitted|] == submitted[k..];
    assert Somes(submitted[|submitted|..]) == [];
  }

  lemma PopIsSound<T>(h: Serial<T>)
    requires Sound(h) && h.pc.Looping?
    ensures Sound(AfterPop(h))
  {
    QueueFront(h.submitted, |h.started|, h.shutAt);
    hide Queue;
    if h.pending != [] && h.pending[0].Some? { TakingIsSound(h); }
  }

  lemma TakingIsSound<T>(h: Serial<T>)
    requires Sound(h) && h.pc.Looping? && h.pending != [] && h.pending[0].Some?
    requires var k := |h.started|;
      && k < |h.submitted| && h.shutAt != Some(k) && h.pending[0] == Some(h.submitted[k])
      && h.pending[1..] == Queue(h.submitted, k + 1, h.shutAt)
    ensures Sound(AfterPop(h))
  {
    hide Queue;
  }

  /** The front of the queue is the next task, or the mark, or nothing. */
  lemma QueueFront<T>(submitted: seq<T>, k: nat, shutAt: Option<nat>)
    requires k <= |submitted| && (shutAt.Some? ==> k <= shutAt.value <= |submitted|)
    ensures var q := Queue(submitted, k, shutAt);
      if shutAt == Some(k) then q != [] && q[0].None?
      else if k == |submitted| then q == []
      else q != [] && q[0] == Some(submitted[k]) && q[1..] == Queue(submitted, k + 1, shutAt)
  {
    hide Somes;
    match shutAt {
      case None =>
        if k < |submitted| { SomesSlice(submitted, k, |submitted|); }
        assert submitted[k..] == submitted[k..|submitted|];
        assert k < |submitted| ==> submitted[k + 1..] == submitted[k + 1..|submitted|];
      case Some(m) =>
        if k < m {
          SomesSlice(submitted, k, m);
          Prefixed(Somes(submitted[k..m]), [None] + Somes(submitted[m..]));
          assert Queue(submitted, k, shutAt) == Somes(submitted[k..m]) + ([None] + Somes(submitted[m..]));
          assert Queue(submitted, k + 1, shutAt) == Somes(submitted[k + 1..m]) + ([None] + Somes(submitted[m..]));
        } else {
          assert submitted[k..m] == [];
        }
    }
  }

  lemma SomesSlice<T>(submitted: seq<T>, k: nat, m: nat)
    requires k < m <= |submitted|
    ensures var q := Somes(submitted[k..m]);
      q[0] == Some(submitted[k]) && q[1..] == Somes(submitted[k + 1..m])
  {
    SomesTail(submitted[k..m]);
    assert submitted[k..m][1..] == submitted[k + 1..m];
  }

  lemma Prefixed<T>(a: seq<T>, b: seq<T>)
    requires a != []
    ensures (a + b)[0] == a[0] && (a + b)[1..] == a[1..] + b
  {
  }

  lemma SomesTail<T>(s: seq<T>)
    requires s != []
    ensures Somes(s)[0] == Some(s[0]) && Somes(s)[1..] == Somes(s[1..])
  {
  }

  lemma StepExtends<T>(h: Serial<T>, e: Event<T>)
    requires Enabled(h, e)
    ensures h.started <= Step(h, e).started && h.submitted <= Step(h, e).submitted
  {
    match e {
      case Submit(_) =>
      case Pop =>
      case _ =>
    }
  }

  lemma StepKeepsTheMark<T>(h: Serial<T>, e: Event<T>)
    requires Enabled(h, e) && (h.shutAt.Some? ==> h.closing)
    ensures Step(h, e).strict == h.strict && (h.shutAt.Some? ==> Step(h, e).shutAt == h.shutAt)
  {
    match e {
      case Pop =>
      case CallShutdown =>
      case _ =>
    }
  }

  ghost predicate Run<T>(h: Serial<T>, es: seq<Event<T>>, end: Serial<T>)
    decreases |es|
  {
    if es == [] then h == end
    else Enabled(h, es[0]) && Careful(h, es[0]) && Run(Step(h, es[0]), es[1..], end)
  }

  lemma {:induction false} EveryRunIsSound<T>(h: Serial<T>, es: seq<Event<T>>, end: Serial<T>)
    requires Sound(h) && Run(h, es, end)
    ensures Sound(end) && h.started <= end.started && h.submitted <= end.submitted && h.strict == end.strict
    ensures h.shutAt.Some? ==> end.shutAt == h.shutAt
    decreases |es|
  {
    if es != [] {
      assert h.shutAt.Some? ==> h.closing;
      hide Sound, Step, Enabled, Careful;
      StepIsSoundIffCareful(h, es[0]);
      StepExtends(h, es[0]);
      StepKeepsTheMark(h, es[0]);
      EveryRunIsSound(Step(h, es[0]), es[1..], end);
    }
  }

  /** Nothing submitted after the first shutdown ever runs. */
  lemma {:induction false} NothingRunsAfterShutdown<T>(h: Serial<T>, es: seq<Event<T>>, end: Serial<T>)
    requires Sound(h) && h.closing && Run(h, es, end)
    ensures end.started <= h.submitted[..h.shutAt.value]
  {
    EveryRunIsSound(h, es, end);
    var k := h.shutAt.value;
    assert end.submitted[..k] == h.submitted[..k];
    assert end.started == end.submitted[..|end.started|];
  }

  lemma {:induction false} NothingRunsOnceOver<T>(h: Serial<T>, es: seq<Event<T>>, end: Serial<T>)
    requires h.pc.Stopped? || (h.strict && h.pc.Reporting?)
    requires Run(h, es, end)
    ensures end.started == h.started
    decreases |es|
  {
    if es != [] { NothingRunsOnceOver(Step(h, es[0]), es[1..], end); }
  }

  /** With `close_on_exception` nothing starts after the first task that fails; after a forbidden exception nothing ever does. */
  lemma {:induction false} NothingRunsAfterFailure<T>(h: Serial<T>, ending: Ending, es: seq<Event<T>>, end: Serial<T>)
    requires h.pc.Executing? && (ending.Forbidden? || (ending.Raised? && h.strict))
    requires Run(Step(h, End(ending)), es, end)
    ensures end.started == h.started
  {
    NothingRunsOnceOver(Step(h, End(ending)), es, end);
  }

  /** Once closed, the handler drops what was waiting: nothing of it starts. */
  lemma {:induction false} NothingRunsAfterClose<T>(h: Serial<T>, es: seq<Event<T>>, end: Serial<T>)
    requires Sound(h) && h.closed && Run(h, es, end)
    ensures end.started == h.started && end.closed
    decreases |es|
  {
    if es != [] {
      StepIsSoundIffCareful(h, es[0]);
      ClosedStartsNothing(h, es[0]);
      hide Sound, Step, Enabled, Careful;
      NothingRunsAfterClose(Step(h, es[0]), es[1..], end);
    }
  }

  lemma ClosedStartsNothing<T>(h: Serial<T>, e: Event<T>)
    requires Sound(h) && h.closed && Enabled(h, e)
    ensures Step(h, e).started == h.started && Step(h, e).closed
  {
    assert h.pending != [] ==> h.pending[0] == None;
  }

  /** A loop that is asleep without a signal has run everything; a shutdown never leaves it asleep. */
  lemma AsleepMeansAllIsDone<T>(h: Serial<T>)
    requires Sound(h) && h.pc.Parked? && !h.event && !h.closed
    ensures h.started == h.submitted && h.finished == |h.started| && !h.closing
  {
    QueueFront(h.submitted, |h.started|, h.shutAt);
  }

  /** A close drops the queue and cancels the loop, wherever it waits; a second close does nothing. */
  lemma CloseCancelsTheLoop<T>(h: Serial<T>)
    requires !h.closed
    ensures var n := AfterClose(h);
      && n.closed && n.pending == [] && n.pc == h.pc && n.started == h.started && AfterClose(n) == n
      && (Enabled(n, Cancel) <==> !h.pc.Stopped? && !h.pc.Looping?)
      && (Enabled(n, Cancel) ==> Step(n, Cancel).pc.Stopped?)
  {
  }

  lemma SecondCloseDoesNothing<T>(h: Serial<T>)
    requires h.closed
    ensures Step(h, CallClose) == h
  {
  }

  /** A task that fails is reported before the loop does anything else, and the loop goes on after that exactly if it is not strict. */
  lemma FailureIsReported<T>(h: Serial<T>, e: Event<T>)
    requires h.pc.Executing? && Enabled(Step(h, End(Raised)), e) && (e.Wake? || e.Pop? || e.End? || e.Report?)
    ensures var n := Step(h, End(Raised));
      && n.pc == Reporting(h.pc.task) && e.Report? && n.finished == h.finished
      && (Step(n, Report(true)).pc.Looping? <==> !h.strict)
      && (h.strict ==> Step(n, Report(true)).pc.Stopped? && Step(n, Report(true)).closed)
  {
  }

  /** A forbidden exception, or one of the error handler, ends the loop and leaves the handler as it is. */
  lemma BrokenLoopLeavesTheHandlerOpen<T>(h: Serial<T>)
    ensures h.pc.Executing? ==> Step(h, End(Forbidden)) == h.(pc := Stopped)
    ensures h.pc.Reporting? ==> Step(h, Report(false)) == h.(pc := Stopped)
  {
  }

  // ---------- left to itself ----------

  /** The tasks that are to run: those submitted before the shutdown, or all. */
  function Due<T>(h: Serial<T>): seq<T>
    requires h.shutAt.Some? ==> h.shutAt.value <= |h.submitted|
  {
    if h.shutAt.Some? then h.submitted[..h.shutAt.value] else h.submitted
  }

  /**
    What the loop does next by itself, if it does not sleep and is not over. The k-th task started ends in
    an exception if `fails(k)` says so; the error handler does not.
   */
  function NextOfLoop<T>(h: Serial<T>, fails: nat -> bool): (e: Option<Event<T>>)
    ensures e.Some? ==> Enabled(h, e.value) && (e.value.Wake? || e.value.Pop? || e.value.End? || e.value.Report?)
  {
    match h.pc
    case Parked => if h.event then Some(Wake) else None
    case Looping => Some(Pop)
    case Executing(_) => Some(End(if fails(|h.started|) then Raised else Fine))
    case Reporting(_) => Some(Report(true))
    case Stopped => None
  }

  function Work<T>(h: Serial<T>): nat {
    5 * |h.pending| + (if h.event then 5 else 0)
    + match h.pc { case Executing(_) => 4 case Reporting(_) => 3 case Looping => 2 case _ => 0 }
  }

  lemma WorkShrinks<T>(h: Serial<T>, fails: nat -> bool)
    requires NextOfLoop(h, fails).Some?
    ensures Work(Step(h, NextOfLoop(h, fails).value)) < Work(h)
  {
    match h.pc {
      case Looping => PopShrinks(h);
      case Reporting(_) => ReportShrinks(h);
      case _ =>
    }
  }

  lemma PopShrinks<T>(h: Serial<T>)
    requires h.pc.Looping?
    ensures Work(AfterPop(h)) < Work(h)
  {
  }

  lemma ReportShrinks<T>(h: Serial<T>)
    requires h.pc.Reporting?
    ensures Work(AfterReport(h, true)) < Work(h)
  {
  }

  /** The loop goes on by itself until it sleeps or is over. */
  function Drained<T>(h: Serial<T>, fails: nat -> bool): Serial<T>
    decreases Work(h)
  {
    match NextOfLoop(h, fails)
    case None => h
    case Some(e) => WorkShrinks(h, fails); Drained(Step(h, e), fails)
  }

  /** The first task whose ending is still open. */
  function FirstOpen<T>(h: Serial<T>): nat {
    if h.pc.Executing? then |h.started| else |h.started| + 1
  }

  /** A strict handler has run up to this task, which has failed. */
  predicate FailedAt<T>(h: Serial<T>, fails: nat -> bool, k: nat) {
    h.strict && k >= FirstOpen(h) && fails(k)
  }

  /** What has become of h in the end: see `EverythingRuns`. */
  ghost predicate HasRun<T>(h: Serial<T>, fails: nat -> bool, end: Serial<T>)
    requires h.shutAt.Some? ==> h.shutAt.value <= |h.submitted|
  {
    && h.started <= end.started <= Due(h) && end.finished == |end.started|
    && (end.started == Due(h) || FailedAt(h, fails, |end.started|))
    && (forall k :: FirstOpen(h) <= k < |end.started| ==> !FailedAt(h, fails, k))
    && (if h.closing || FailedAt(h, fails, |end.started|) then end.closed && end.pc.Stopped? else end.pc.Parked? && !end.event)
  }

  /**
    Whichever tasks fail, everything due runs, except that a strict handler stops at the first task that
    fails. The handler ends closed if it does that or there was a shutdown, else it sleeps.
   */
  lemma {:induction false} EverythingRuns<T>(h: Serial<T>, fails: nat -> bool)
    requires Sound(h) && !h.closed && !h.pc.Stopped? && !(h.strict && h.pc.Reporting?)
    ensures HasRun(h, fails, Drained(h, fails))
    decreases Work(h)
  {
    var next := NextOfLoop(h, fails);
    if next.None? {
      AsleepMeansAllIsDone(h);
    } else if EndsNow(h, fails) {
      EndsAsItShould(h, fails);
    } else {
      StepIsSoundIffCareful(h, next.value);
      WorkShrinks(h, fails);
      StepKeepsWhatIsDue(h, fails);
      hide Sound, Step, EndsNow, HasRun, FirstOpen, FailedAt;
      EverythingRuns(Step(h, next.value), fails);
      RunOn(h, fails, Drained(h, fails));
    }
  }

  /** The loop ends with the mark of the shutdown, or with a task that fails if the handler is strict. */
  predicate EndsNow<T>(h: Serial<T>, fails: nat -> bool) {
    || (h.pc.Looping? && h.pending != [] && h.pending[0].None?)
    || (h.strict && (h.pc.Reporting? || NextOfLoop(h, fails) == Some(End(Raised))))
  }

  lemma {:induction false} EndsAsItShould<T>(h: Serial<T>, fails: nat -> bool)
    requires Sound(h) && !h.closed && !(h.strict && h.pc.Reporting?) && EndsNow(h, fails)
    ensures HasRun(h, fails, Drained(h, fails))
  {
    if h.pc.Looping? {
      MarkAtTheFront(h);
      EndsHere(AfterPop(h), fails);
    } else {
      StartedIsDue(h);
      var n := AfterReport(AfterEnd(h, Raised), true);
      EndsHere(n, fails);
      assert Drained(AfterEnd(h, Raised), fails) == n;
    }
  }

  lemma EndsHere<T>(h: Serial<T>, fails: nat -> bool)
    requires h.pc.Stopped?
    ensures Drained(h, fails) == h
  {
  }

  /** Any other step leaves what is due, and settles the ending of one task at most. */
  lemma {:induction false} StepKeepsWhatIsDue<T>(h: Serial<T>, fails: nat -> bool)
    requires Sound(h) && !h.closed && NextOfLoop(h, fails).Some? && !EndsNow(h, fails)
    ensures var n := Step(h, NextOfLoop(h, fails).value);
      && n.submitted == h.submitted && n.shutAt == h.shutAt && n.closing == h.closing && n.strict == h.strict
      && h.started <= n.started && !n.closed && !n.pc.Stopped? && !(n.strict && n.pc.Reporting?)
      && (FirstOpen(n) == FirstOpen(h) || (FirstOpen(n) == FirstOpen(h) + 1 && !FailedAt(h, fails, FirstOpen(h))))
  {
    hide Queue, Due;
  }

  lemma {:induction false} RunOn<T>(h: Serial<T>, fails: nat -> bool, end: Serial<T>)
    requires NextOfLoop(h, fails).Some? && (h.shutAt.Some? ==> h.shutAt.value <= |h.submitted|)
    requires var n := Step(h, NextOfLoop(h, fails).value);
      && n.submitted == h.submitted && n.shutAt == h.shutAt && n.closing == h.closing && n.strict == h.strict
      && h.started <= n.started
      && (FirstOpen(n) == FirstOpen(h) || (FirstOpen(n) == FirstOpen(h) + 1 && !FailedAt(h, fails, FirstOpen(h))))
      && HasRun(n, fails, end)
    ensures HasRun(h, fails, end)
  {
    hide Step, FirstOpen;
    var n := Step(h, NextOfLoop(h, fails).value);
    assert forall k :: FailedAt(n, fails, k) <==> FailedAt(h, fails, k);
    hide FailedAt;
    forall k | FirstOpen(h) <= k < |end.started|
      ensures !FailedAt(h, fails, k)
    {
      assert k == FirstOpen(h) || FirstOpen(n) <= k;
    }
  }

  lemma StartedIsDue<T>(h: Serial<T>)
    requires Sound(h)
    ensures h.started <= Due(h)
  {
  }

  /** Going on by itself is a run of steps of the loop. */
  lemma {:induction false} DrainingIsARun<T>(h: Serial<T>, fails: nat -> bool) returns (es: seq<Event<T>>)
    ensures Run(h, es, Drained(h, fails))
    ensures forall e :: e in es ==> e.Wake? || e.Pop? || e.End? || e.Report?
    decreases Work(h)
  {
    var next := NextOfLoop(h, fails);
    if next.None? { return []; }
    hide Step;
    WorkShrinks(h, fails);
    es := DrainingIsARun(Step(h, next.value), fails);
    assert ([next.value] + es)[1..] == es;
    es := [next.value] + es;
  }

  lemma MarkAtTheFront<T>(h: Serial<T>)
    requires Sound(h) && !h.closed && h.pending != [] && h.pending[0].None?
    ensures h.closing && h.started == h.submitted[..h.shutAt.value]
  {
    QueueFront(h.submitted, |h.started|, h.shutAt);
    assert h.started == h.submitted[..|h.started|];
  }

  /** Submitting to a closed handler is not refused: a task that swallows its cancellation lets the new one run, in place of a task that was dropped. */
  lemma LateSubmissionsMayRun<T>(h: Serial<T>, task: T)
    requires Sound(h) && h.closed && h.pending == [] && h.pc.Executing?
    ensures var end := Step(Step(Step(h, Submit(task)), End(Fine)), Pop);
      && end.started == h.started + [task]
      && (end.started <= end.submitted <==> h.started == h.submitted || h.submitted[|h.started|] == task)
  {
    var end := Step(Step(Step(h, Submit(task)), End(Fine)), Pop);
    assert end.started[|h.started|] == task && end.submitted == h.submitted + [task];
    assert h.started == h.submitted[..|h.started|] == end.submitted[..|h.started|];
    if end.submitted[|h.started|] == task { assert end.submitted[..|h.started| + 1] == end.started; }
  }

  // ---------- the handler ----------

  class SerialHandler<T> {
    var pendingTasks: seq<Option<T>>
    var newTaskReceived: bool
    var isClosing: bool
    var isClosed: bool
    const closeOnException: bool
    var runLoop: Pc<T>
    var cancelled: bool

    ghost var submitted: seq<T>
    ghost var started: seq<T>
    ghost var finished: nat
    ghost var shutAt: Option<nat>

    ghost function View(): Serial<T>
      reads this
    {
      Serial(pendingTasks, newTaskReceived, isClosing, isClosed, closeOnException, runLoop, cancelled,
             submitted, started, finished, shutAt)
    }

    constructor (strict: bool)
      ensures View() == Fresh(strict) && Sound(View())
      ensures pendingTasks == [] && !newTaskReceived && !isClosing && !isClosed && runLoop.Parked? && !cancelled && closeOnException == strict
    {
      pendingTasks, newTaskReceived, isClosing, isClosed, cancelled := [], false, false, false, false;
      closeOnException, runLoop := strict, Parked;
      submitted, started, finished, shutAt := [], [], 0, None;
      new;
      assert Queue(submitted, 0, None) == [];
    }

    method Submit(task: T)
      modifies this
      ensures View() == AfterSubmit(old(View()), task)
      ensures old(Sound(View())) ==> (Sound(View()) <==> !isClosed)
    {
      if Sound(View()) { SubmitIsSound(View(), task); }
      pendingTasks := pendingTasks + [Some(task)];
      newTaskReceived := true;
      submitted := submitted + [task];
    }

    method Shutdown()
      modifies this
      ensures View() == AfterShutdown(old(View()))
      ensures old(Sound(View())) ==> Sound(View())
    {
      hide Sound, Queue;
      if Sound(View()) { ShutdownIsSound(View()); }
      if isClosing { return; }
      isClosing := true;
      pendingTasks := pendingTasks + [None];
      newTaskReceived := true;
      shutAt := Some(|submitted|);
    }

    method Close()
      modifies this
      ensures View() == AfterClose(old(View()))
      ensures old(Sound(View())) ==> Sound(View())
    {
      if isClosed { return; }
      isClosed := true;
      pendingTasks := [];
      cancelled := !runLoop.Stopped?;
    }

    /** The event is set: the loop clears it and turns to the queue. */
    method OnWake()
      requires runLoop.Parked? && newTaskReceived
      modifies this
      ensures View() == AfterWake(old(View()))
      ensures old(Sound(View())) ==> Sound(View())
    {
      hide Sound, Queue;
      if Sound(View()) { StepIsSoundIffCareful(View(), Wake); }
      newTaskReceived := false;
      runLoop := Looping;
    }

    /** The next task is started, or the loop goes back to sleep, or it ends at the mark of the shutdown. */
    method OnPop()
      requires runLoop.Looping?
      modifies this
      ensures View() == AfterPop(old(View()))
      ensures old(Sound(View())) ==> Sound(View())
    {
      hide Sound, Queue;
      if Sound(View()) { PopIsSound(View()); }
      if pendingTasks == [] {
        runLoop := Parked;
        return;
      }
      var task := pendingTasks[0];
      pendingTasks := pendingTasks[1..];
      match task {
        case None =>
          Close();
          runLoop := Stopped;
        case Some(t) =>
          runLoop := Executing(t);
          started := started + [t];
      }
    }

    method OnEnd(ending: Ending)
      requires runLoop.Executing?
      modifies this
      ensures View() == AfterEnd(old(View()), ending)
      ensures old(Sound(View())) ==> Sound(View())
    {
      hide Sound, Queue;
      if Sound(View()) { StepIsSoundIffCareful(View(), End(ending)); }
      match ending {
        case Fine =>
          runLoop := Looping;
          finished := finished + 1;
        case Raised => runLoop := Reporting(runLoop.task);
        case Forbidden => runLoop := Stopped;
      }
    }

    /** The error handler has returned, or failed itself. */
    method OnReport(ok: bool)
      requires runLoop.Reporting?
      modifies this
      ensures View() == AfterReport(old(View()), ok)
      ensures old(Sound(View())) ==> Sound(View())
    {
      hide Sound, Queue;
      if Sound(View()) { StepIsSoundIffCareful(View(), Report(ok)); }
      if !ok {
        runLoop := Stopped;
        return;
      }
      finished := finished + 1;
      if closeOnException {
        Close();
        runLoop := Stopped;
      } else {
        runLoop := Looping;
      }
    }
  }
}
