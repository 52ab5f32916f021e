/**
  A listening channel: it accepts connections up to a limit, pauses when it is full, resumes when
  there is room, and closes for good when it has been closed and its last connection is lost.
 */
module Channels {
  import opened Results

  datatype State = Created | Started | Paused | ShuttingDown | Closing | Closed
  {
    /** The values of the enumeration, which the source compares. */
    function Rank(): nat {
      match this
      case Created => 0
      case Started => 10
      case Paused => 20
      case ShuttingDown => 50
      case Closing => 90
      case Closed => 100
    }
  }

  /** The fields of the channel and what the loop watches for it, then what has happened to it. */
  datatype Snapshot = Snapshot(
    state: State, limit: nat, transports: set<nat>, listeners: set<nat>, watched: set<nat>, nextId: nat,
    closeCalled: bool, pausedByLimit: bool, shut: set<nat>, finals: nat)

  function Fresh(limit: nat): Snapshot {
    Snapshot(Created, limit, {}, {}, {}, 0, false, false, {}, 0)
  }

  predicate IsFull(v: Snapshot) {
    |v.transports| >= v.limit
  }

  // ---------- calls ----------

  function AfterListen(v: Snapshot, socks: set<nat>): Snapshot {
    v.(listeners := v.listeners + socks)
  }

  /** Refused once the channel is closing. */
  function AfterStart(v: Snapshot): Snapshot {
    if v.state.Rank() >= Closing.Rank() then v
    else v.(state := Started, watched := v.watched + v.listeners, pausedByLimit := false)
  }

  function AfterPause(v: Snapshot, byLimit: bool): Snapshot {
    v.(state := Paused, watched := v.watched - v.listeners, pausedByLimit := byLimit)
  }

  /** The connections are shut down each time, the channel itself only once. */
  function AfterShutdown(v: Snapshot): Snapshot {
    var p := if v.state.Rank() < Paused.Rank() then AfterPause(v, false) else v;
    (if v.state.Rank() >= ShuttingDown.Rank() then v else p.(state := ShuttingDown)).(shut := v.shut + v.transports)
  }

  function AfterFinalClose(v: Snapshot): Snapshot {
    v.(state := Closed, finals := v.finals + 1)
  }

  function AfterClose(v: Snapshot): Snapshot {
    if v.state.Rank() >= Closing.Rank() then v
    else
      var p := if v.state == Started then AfterPause(v, false) else v;
      var s := if p.state == Paused then AfterShutdown(p) else p;
      var c := s.(state := Closing, listeners := {}, closeCalled := true);
      if c.transports == {} then AfterFinalClose(c) else c
  }

  function AfterMade(v: Snapshot): Snapshot {
    v.(transports := v.transports + {v.nextId}, nextId := v.nextId + 1)
  }

  predicate Numbered(v: Snapshot) {
    forall id :: id in v.transports ==> id < v.nextId
  }

  /** `available` connections wait to be accepted. */
  function AfterAccept(v: Snapshot, available: nat): (n: Snapshot)
    ensures n.limit == v.limit && n.closeCalled == v.closeCalled && n.finals == v.finals && n.listeners == v.listeners
    decreases available
  {
    if IsFull(v) then AfterPause(v, true)
    else if available == 0 then v
    else AfterAccept(AfterMade(v), available - 1)
  }

  function AfterLost(v: Snapshot, id: nat): Snapshot
    requires id in v.transports
  {
    var l := v.(transports := v.transports - {id});
    var s := if l.state == Paused && !IsFull(l) then AfterStart(l) else l;
    if s.transports == {} && s.state.Rank() >= Closing.Rank() then AfterFinalClose(s) else s
  }

  // ---------- every run ----------

  datatype Event =
    | Listen(socks: set<nat>)
    | Start
    | Pause
    | Shutdown
    | Close
    | Accept(sock: nat, available: nat)
    | Lost(id: nat)

  /** The loop calls back only for listeners it watches; only live connections are lost. */
  predicate Enabled(v: Snapshot, e: Event) {
    match e
    case Accept(sock, _) => sock in v.watched
    case Lost(id) => id in v.transports
    case _ => true
  }

  function Step(v: Snapshot, e: Event): Snapshot
    requires Enabled(v, e)
  {
    match e
    case Listen(socks) => AfterListen(v, socks)
    case Start => AfterStart(v)
    case Pause => AfterPause(v, false)
    case Shutdown => AfterShutdown(v)
    case Close => AfterClose(v)
    case Accept(_, available) => AfterAccept(v, available)
    case Lost(id) => AfterLost(v, id)
  }

  /** What callers have to see to, and nothing more: see `StepIsSafeIffCareful`. */
  predicate Careful(v: Snapshot, e: Event) {
    match e
    case Listen(socks) => socks == {} || !v.closeCalled
    case Pause => !v.closeCalled
    case _ => true
  }

  ghost predicate Safe(v: Snapshot) {
    && |v.transports| <= v.limit && Numbered(v)
    && v.watched <= v.listeners && (v.state != Started ==> v.watched == {})
    && (v.state == Paused && v.pausedByLimit ==> |v.transports| == v.limit)
    && (v.closeCalled <==> v.state.Rank() >= Closing.Rank())
    && (v.closeCalled ==> v.listeners == {} && (v.state == Closed <==> v.transports == {}))
    && v.finals == (if v.state == Closed then 1 else 0)
  }

  /** The conditions on the callers are exact. */
  lemma StepIsSafeIffCareful(v: Snapshot, e: Event)
    requires Safe(v) && v.limit > 0 && Enabled(v, e)
    ensures Safe(Step(v, e)) <==> Careful(v, e)
  {
    match e {
      case Accept(_, available) => AcceptIsSafe(v, available);
      case Lost(id) => LostIsSafe(v, id);
      case Listen(socks) => assert socks == {} ==> v.listeners + socks == v.listeners;
      case _ =>
    }
  }

  lemma {:induction false} AcceptIsSafe(v: Snapshot, available: nat)
    requires Safe(v) && v.state == Started
    ensures Safe(AfterAccept(v, available))
    decreases available
  {
    if !IsFull(v) && available > 0 {
      assert |v.transports + {v.nextId}| == |v.transports| + 1;
      AcceptIsSafe(AfterMade(v), available - 1);
    }
  }

  /** As many connections are accepted as there is room for, and the channel pauses exactly if that fills it. */
  lemma {:induction false} AcceptsWhatThereIsRoomFor(v: Snapshot, available: nat)
    requires Safe(v) && v.state == Started
    ensures var n, room := AfterAccept(v, available), v.limit - |v.transports|;
      && v.transports <= n.transports && |n.transports| == |v.transports| + (if available < room then available else room)
      && (if available < room then n.state == Started && n.watched == v.watched else n.state == Paused && n.watched == {} && n.pausedByLimit)
    decreases available
  {
    if !IsFull(v) && available > 0 {
      assert |v.transports + {v.nextId}| == |v.transports| + 1;
      AcceptsWhatThereIsRoomFor(AfterMade(v), available - 1);
    }
  }

  lemma LostIsSafe(v: Snapshot, id: nat)
    requires Safe(v) && v.limit > 0 && id in v.transports
    ensures Safe(AfterLost(v, id))
  {
    assert |v.transports - {id}| == |v.transports| - 1;
  }

  ghost predicate Run(v: Snapshot, es: seq<Event>, end: Snapshot)
    decreases |es|
  {
    if es == [] then v == end
    else Enabled(v, es[0]) && Careful(v, es[0]) && Run(Step(v, es[0]), es[1..], end)
  }

  /**
    Every run: the limit holds, listeners are watched only while started, a pause because of the
    limit lasts only while the channel is full, and a closed channel is finally closed once, when
    its last connection is gone, and never opens again.
   */
  lemma {:induction false} EveryRunIsSafe(v: Snapshot, es: seq<Event>, end: Snapshot)
    requires Safe(v) && v.limit > 0 && Run(v, es, end)
    ensures Safe(end) && end.limit == v.limit
    ensures v.closeCalled ==> end.closeCalled && end.transports <= v.transports
    decreases |es|
  {
    if es != [] {
      StepIsSafeIffCareful(v, es[0]);
      hide Safe;
      ClosedShrinks(v, es[0]);
      hide Step, Enabled, Careful;
      EveryRunIsSafe(Step(v, es[0]), es[1..], end);
    }
  }

  lemma ClosedShrinks(v: Snapshot, e: Event)
    requires Safe(v) && Enabled(v, e) && Careful(v, e)
    ensures Step(v, e).limit == v.limit
    ensures v.closeCalled ==> Step(v, e).closeCalled && Step(v, e).transports <= v.transports
  {
  }

  // ---------- what each operation is for ----------

  /** Closing shuts every connection down first, unless the channel has never been started or is shut down already. */
  lemma ClosingShutsDown(v: Snapshot)
    requires Safe(v) && (v.state == Started || v.state == Paused)
    ensures v.transports <= AfterClose(v).shut && AfterClose(v).transports == v.transports
  {
  }

  /** A channel that has never been started, or has been shut down before, closes without shutting its connections down. */
  lemma ClosingOtherwiseDoesNot(v: Snapshot)
    requires Safe(v) && v.state != Started && v.state != Paused
    ensures AfterClose(v).shut == v.shut
  {
  }

  /** A shutdown stops accepting, comes to its own state but never back to it, and shuts all connections down each time. */
  lemma ShutdownStopsAccepting(v: Snapshot)
    requires Safe(v)
    ensures var n := Step(v, Shutdown);
      && (n.state == ShuttingDown <==> v.state != Closing && v.state != Closed) && n.watched == {}
      && v.transports <= n.shut && n.transports == v.transports
  {
  }

  /** A close call is remembered; it is the final close at once exactly if there are no connections. */
  lemma CloseCloses(v: Snapshot)
    requires Safe(v)
    ensures var n := Step(v, Close);
      && n.closeCalled && n.watched == {} && n.listeners == {} && n.transports == v.transports
      && n.state == (if v.transports == {} then Closed else Closing)
  {
  }

  /** A pause stops accepting, in every state that can still accept, until the next start, which watches all listeners. */
  lemma PausedUntilStarted(v: Snapshot, socks: set<nat>)
    requires Safe(v) && !v.closeCalled
    ensures var n := Step(v, Pause);
      && n.state == Paused && n.watched == {} && n.listeners == v.listeners && !n.pausedByLimit
      && Step(Step(n, Listen(socks)), Start).watched == v.listeners + socks
      && Step(n, Start).state == Started && !Step(n, Start).pausedByLimit
  {
  }

  /** A channel that is closing refuses to start and changes nothing. */
  lemma ClosingDoesNotStart(v: Snapshot)
    requires Safe(v) && v.closeCalled
    ensures Step(v, Start) == v
  {
  }

  /** Any loss starts a paused channel again, whoever has paused it. */
  lemma LossResumes(v: Snapshot, id: nat)
    requires Safe(v) && id in v.transports && v.state == Paused && v.limit > 0
    ensures AfterLost(v, id).state == Started && AfterLost(v, id).watched == v.listeners
  {
    assert |v.transports - {id}| == |v.transports| - 1;
  }

  /** And nothing else is started by a loss. */
  lemma LossStartsIff(v: Snapshot, id: nat)
    requires Safe(v) && id in v.transports && v.limit > 0
    ensures var n := AfterLost(v, id);
      && (n.state == Started <==> v.state == Started || v.state == Paused)
      && (!v.closeCalled && n.state != Started ==> n.state == v.state && n.watched == v.watched)
      && n.transports == v.transports - {id} && n.listeners == v.listeners
  {
    LostIsSafe(v, id);
    assert |v.transports - {id}| == |v.transports| - 1;
  }

  /** The last loss, and no other, finally closes a closing channel. */
  lemma LastLossCloses(v: Snapshot, id: nat)
    requires Safe(v) && id in v.transports && v.closeCalled
    ensures AfterLost(v, id).state == Closed <==> v.transports == {id}
  {
    assert v.transports - {id} == {} <==> v.transports == {id};
  }

  ghost predicate CarelessRun(v: Snapshot, es: seq<Event>, end: Snapshot)
    decreases |es|
  {
    if es == [] then v == end else Enabled(v, es[0]) && CarelessRun(Step(v, es[0]), es[1..], end)
  }

  /** Pausing a channel that is closing makes it forget that: it is not closed by any losses, unless it is told again. */
  lemma {:induction false} PausedWhileClosingNeverCloses(v: Snapshot, es: seq<Event>, end: Snapshot)
    requires Safe(v) && v.state == Closing && CarelessRun(AfterPause(v, false), es, end) && Close !in es
    ensures end.state != Closed && end.finals == 0
  {
    StaysOpen(AfterPause(v, false), es, end);
  }

  lemma {:induction false} StaysOpen(v: Snapshot, es: seq<Event>, end: Snapshot)
    requires v.state.Rank() < Closing.Rank() && CarelessRun(v, es, end) && Close !in es
    ensures end.state.Rank() < Closing.Rank() && end.finals == v.finals
    decreases |es|
  {
    if es != [] {
      assert es[0] != Close;
      StepStaysOpen(v, es[0]);
      StaysOpen(Step(v, es[0]), es[1..], end);
    }
  }

  lemma StepStaysOpen(v: Snapshot, e: Event)
    requires v.state.Rank() < Closing.Rank() && Enabled(v, e) && e != Close
    ensures Step(v, e).state.Rank() < Closing.Rank() && Step(v, e).finals == v.finals
  {
    if e.Accept? { AcceptStaysOpen(v, e.available); }
  }

  lemma {:induction false} AcceptStaysOpen(v: Snapshot, available: nat)
    requires v.state.Rank() < Closing.Rank()
    ensures AfterAccept(v, available).state.Rank() < Closing.Rank()
    decreases available
  {
    if !IsFull(v) && available > 0 { AcceptStaysOpen(AfterMade(v), available - 1); }
  }

  /** A shutdown is not final: the channel may be started again. */
  lemma ShutdownCanBeUndone(v: Snapshot)
    requires Safe(v) && v.state == ShuttingDown
    ensures AfterStart(v).state == Started && AfterStart(v).watched == v.listeners
  {
  }

  lemma CloseIsSafe(v: Snapshot)
    requires Safe(v)
    ensures Safe(AfterClose(v))
  {
  }

  // ---------- the channel ----------

  class StreamChannel {
    const limit: nat
    var state: State
    var transports: set<nat>
    var listeners: set<nat>
    var watched: set<nat>
    var nextId: nat

    ghost var closeCalled: bool
    ghost var pausedByLimit: bool
    ghost var shut: set<nat>
    ghost var finals: nat

    ghost function View(): Snapshot
      reads this
    {
      Snapshot(state, limit, transports, listeners, watched, nextId, closeCalled, pausedByLimit, shut, finals)
    }

    constructor (limit: nat)
      ensures View() == Fresh(limit) && Safe(View())
      ensures state == Created && transports == {} && listeners == {} && watched == {} && !closeCalled && !pausedByLimit
    {
      this.limit := limit;
      state, transports, listeners, watched, nextId := Created, {}, {}, {}, 0;
      closeCalled, pausedByLimit, shut, finals := false, false, {}, 0;
    }

    method Listen(socks: set<nat>)
      modifies this
      ensures View() == AfterListen(old(View()), socks)
      ensures old(Safe(View()) && !closeCalled) ==> Safe(View())
    {
      listeners := listeners + socks;
    }

    method Start() returns (r: Result<()>)
      modifies this
      ensures View() == AfterStart(old(View()))
      ensures r.Success? <==> old(state.Rank() < Closing.Rank())
      ensures old(Safe(View())) ==> Safe(View())
    {
      if state.Rank() >= Closing.Rank() { return Failure; }
      state := Started;
      watched := watched + listeners;
      pausedByLimit := false;
      r := Success(());
    }

    method Pause(ghost byLimit: bool)
      modifies this
      ensures View() == AfterPause(old(View()), byLimit)
    {
      state := Paused;
      watched := watched - listeners;
      pausedByLimit := byLimit;
    }

    method Shutdown()
      modifies this
      ensures View() == AfterShutdown(old(View()))
      ensures old(Safe(View())) ==> Safe(View())
    {
      if state.Rank() < ShuttingDown.Rank() {
        if state.Rank() < Paused.Rank() { Pause(false); }
        state := ShuttingDown;
      }
      shut := shut + transports;
    }

    method Close()
      modifies this
      ensures View() == AfterClose(old(View()))
      ensures old(Safe(View())) ==> Safe(View())
    {
      if Safe(View()) { CloseIsSafe(View()); }
      hide Safe;
      if state.Rank() >= Closing.Rank() { return; }
      if state == Started { Pause(false); }
      if state == Paused { Shutdown(); }
      state := Closing;
      closeCalled := true;
      listeners := {};
      if transports == {} { FinalClose(); }
    }

    method FinalClose()
      modifies this
      ensures View() == AfterFinalClose(old(View()))
    {
      state := Closed;
      finals := finals + 1;
    }

    /** Accepts what is there, until the channel is full or `accept` would block. */
    method ReadFromListener(available: nat)
      requires Safe(View()) && state == Started
      modifies this
      ensures View() == AfterAccept(old(View()), available) && Safe(View())
    {
      AcceptIsSafe(View(), available);
      ghost var before := View();
      hide Safe, AfterMade, AfterPause;
      var left: nat := available;
      while true
        invariant AfterAccept(View(), left) == AfterAccept(before, available)
        decreases left
      {
        if |transports| >= limit {
          Pause(true);
          break;
        }
        if left == 0 { break; }
        ConnectionMade();
        left := left - 1;
      }
    }

    method ConnectionMade()
      modifies this
      ensures View() == AfterMade(old(View()))
    {
      transports := transports + {nextId};
      nextId := nextId + 1;
    }

    method ConnectionLost(id: nat)
      requires id in transports
      modifies this
      ensures View() == AfterLost(old(View()), id)
      ensures old(Safe(View())) && limit > 0 ==> Safe(View())
    {
      if Safe(View()) && limit > 0 { LostIsSafe(View(), id); }
      transports := transports - {id};
      if state == Paused && |transports| < limit {
        var started := Start();
      }
      if transports == {} && state.Rank() >= Closing.Rank() { FinalClose(); }
    }
  }
}
