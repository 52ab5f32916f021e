/**
  Buffered writing and the closing of a transport: one step for every call and every callback of
  the event loop. What the socket answers is an input of the step. Who waits for the buffer to drain
  is woken or cancelled in one step and goes on in another, as the event loop does it.
 */
module Streams {
  import opened Varints

  datatype State = Opened | Closing | Closed

  /** How a call of `send` ends. */
  datatype Send = Sent(n: nat) | Blocked | Failed

  /** How a call of `recv` ends, and what the receiving callback makes of it. */
  datatype Recv = Received | Refused | Ended(keep: bool) | Nothing | Lost

  /** The future on which somebody waits for the buffer to drain: none, pending, or cancelled. */
  datatype Waiter = Nobody | Waiting | Cancelled

  /**
    The fields of the transport, `attached` while it has its socket and loop; who has been woken or
    cancelled and has not gone on yet; final closes the loop is to call; then what has happened.
   */
  datatype Link = Link(
    state: State, attached: bool, buffer: seq<byte>, reading: bool, writing: bool,
    waiter: Waiter, resuming: nat, scheduled: nat,
    written: seq<byte>, accepted: seq<byte>, forced: bool, jammed: bool, orphans: nat, closes: nat)

  const FRESH := Link(Opened, true, [], true, false, Nobody, 0, 0, [], [], false, false, 0, 0)

  // ---------- what each call does ----------

  function AfterFinalClose(l: Link): Link {
    l.(state := Closed, attached := false, closes := l.closes + 1)
  }

  /** Without a socket and a loop this raises an exception, as do a shutdown and a write. */
  function AfterForceClose(l: Link): Link {
    if l.state == Closed || !l.attached then l
    else AfterFinalClose(l.(
      forced := true, buffer := [], reading := false, writing := if l.buffer == [] then l.writing else false))
  }

  function AfterClose(l: Link): Link {
    if l.state == Closing then l
    else if l.state == Closed then l.(state := Closing)
    else
      var c := l.(state := Closing, reading := false);
      if l.buffer == [] then AfterFinalClose(c.(writing := false)) else c
  }

  function AfterShutdown(l: Link): Link {
    if !l.attached then l else l.(writing := false)
  }

  datatype Answer = Done | Buffered | Broken | Raised

  function AfterWrite(l: Link, data: seq<byte>, outcome: Send): (Link, Answer)
    requires outcome.Sent? ==> outcome.n <= |data|
  {
    if l.buffer != [] then (l.(buffer := l.buffer + data, written := l.written + data), Buffered)
    else if !l.attached then (l, Raised)
    else
      var w := l.(written := l.written + data);
      match outcome
      case Failed => (AfterForceClose(w), Broken)
      case Blocked => (w.(buffer := data, writing := true), Buffered)
      case Sent(n) =>
        var s := w.(accepted := l.accepted + data[..n]);
        if n == |data| then (s.(scheduled := l.scheduled + if l.state == Closing then 1 else 0), Done)
        else (s.(buffer := data[n..], writing := true), Buffered)
  }

  /** The buffer has drained: a cancelled future makes this an exception, before anything is closed. */
  function AfterDrain(l: Link): Link {
    match l.waiter
    case Cancelled => l.(jammed := l.jammed || l.state == Closing)
    case Waiting => AfterWaking(l.(waiter := Nobody, resuming := l.resuming + 1))
    case Nobody => AfterWaking(l)
  }

  function AfterWaking(l: Link): Link {
    if l.state == Closing then AfterFinalClose(l) else l
  }

  function AfterWritable(l: Link, outcome: Send): Link
    requires outcome.Sent? ==> outcome.n <= |l.buffer|
  {
    if l.buffer == [] || !l.attached then l
    else match outcome
      case Failed => AfterForceClose(l)
      case Blocked => l
      case Sent(n) =>
        var s := l.(buffer := l.buffer[n..], accepted := l.accepted + l.buffer[..n]);
        if n < |l.buffer| then s else AfterDrain(s.(writing := false))
  }

  function AfterReadable(l: Link, outcome: Recv): Link {
    match outcome
    case Received => l
    case Nothing => l
    case Refused => AfterForceClose(l)
    case Lost => AfterForceClose(l)
    case Ended(keep) => if keep && l.state != Opened then l.(reading := false) else AfterClose(l)
  }

  /** There is nothing to wait for without data; a second waiter is refused, as is any without a loop. */
  function AfterWait(l: Link): Link {
    if l.buffer == [] || l.waiter != Nobody || !l.attached then l else l.(waiter := Waiting)
  }

  /** By a timer, or with the task that waits. */
  function AfterCancelWait(l: Link): Link {
    if l.waiter == Waiting then l.(waiter := Cancelled, resuming := l.resuming + 1) else l
  }

  /** Who goes on clears the future, also that of somebody who has begun to wait since. */
  function AfterResume(l: Link): Link
    requires l.resuming > 0
  {
    l.(waiter := Nobody, resuming := l.resuming - 1, orphans := l.orphans + if l.waiter == Waiting then 1 else 0)
  }

  // ---------- every run of calls and callbacks ----------

  datatype Event =
    | Write(data: seq<byte>, sent: Send)
    | WaitForAll
    | CancelWait
    | Resume
    | Writable(sent: Send)
    | Readable(received: Recv)
    | CallClose
    | CallForceClose
    | CallShutdown
    | ScheduledClose

  /** A callback runs only while it is registered; a socket takes no more than it is given. */
  predicate Enabled(l: Link, e: Event) {
    match e
    case Write(data, sent) => sent.Sent? ==> sent.n <= |data|
    case Writable(sent) => l.writing && (sent.Sent? ==> sent.n <= |l.buffer|)
    case Readable(_) => l.reading
    case Resume => l.resuming > 0
    case ScheduledClose => l.scheduled > 0
    case _ => true
  }

  function Step(l: Link, e: Event): Link
    requires Enabled(l, e)
  {
    match e
    case Write(data, sent) => AfterWrite(l, data, sent).0
    case WaitForAll => AfterWait(l)
    case CancelWait => AfterCancelWait(l)
    case Resume => AfterResume(l)
    case Writable(sent) => AfterWritable(l, sent)
    case Readable(received) => AfterReadable(l, received)
    case CallClose => AfterClose(l)
    case CallForceClose => AfterForceClose(l)
    case CallShutdown => AfterShutdown(l)
    case ScheduledClose => AfterFinalClose(l.(scheduled := l.scheduled - 1))
  }

  /**
    What callers have to see to: no empty write to a busy socket, no close of a closed transport, no
    shutdown with data in the buffer, no new waiter before the last one has gone on.
   */
  predicate Careful(l: Link, e: Event) {
    match e
    case Write(data, sent) => !(data == [] && sent.Blocked? && l.buffer == [] && l.attached)
    case CallClose => l.state != Closed
    case CallShutdown => l.buffer == [] || !l.attached
    case WaitForAll => !(l.resuming > 0 && AfterWait(l) != l)
    case _ => true
  }

  /** What nobody can see to: the buffer drains while a waiter has been cancelled and has not gone on. */
  predicate Jams(l: Link, e: Event) {
    l.state == Closing && l.attached && l.waiter == Cancelled && l.buffer != [] && e == Writable(Sent(|l.buffer|))
  }

  /** Nothing written is lost or sent twice before a forced close, and only a suffix of it after one. */
  predicate Conserved(l: Link) {
    if l.forced then l.accepted <= l.written && l.buffer == []
    else l.accepted + l.buffer == l.written
  }

  /** Who waits waits for data, unless he has been forgotten by a forced close; nobody else's future is cleared. */
  predicate WaitingInTurn(l: Link) {
    && l.resuming <= 1 && l.orphans == 0
    && (l.waiter == Waiting ==> l.resuming == 0 && (l.buffer != [] || l.forced))
    && (l.waiter == Cancelled ==> l.resuming == 1)
  }

  predicate Safe(l: Link) {
    && Conserved(l) && WaitingInTurn(l) && !l.jammed
    && (l.writing <==> l.buffer != [])
    && (l.reading <==> l.state == Opened)
    && (l.state == Closing ==> l.buffer != [])
    && (l.state == Closed ==> l.buffer == [])
    && (l.forced ==> l.state == Closed)
    && (l.attached <==> l.state != Closed)
    && l.closes == (if l.state == Closed then 1 else 0)
    && l.scheduled == 0
  }

  /** What is left of that once a drain has met a cancelled waiter while the transport was closing. */
  predicate Jammed(l: Link) {
    && Conserved(l) && WaitingInTurn(l) && l.jammed
    && (l.writing <==> l.buffer != [])
    && !l.reading && l.state != Opened
    && (l.attached <==> l.state == Closing)
    && (l.attached ==> l.closes == 0 && !l.forced)
    && (!l.attached ==> l.closes > 0)
  }

  predicate Regular(l: Link) {
    if l.jammed then Jammed(l) else Safe(l)
  }

  /** The conditions are exact. */
  lemma StepIsSafeIffCareful(l: Link, e: Event)
    requires Safe(l) && Enabled(l, e)
    ensures Safe(Step(l, e)) <==> Careful(l, e) && !Jams(l, e)
  {
    match e {
      case Write(data, sent) => WriteIsSafe(l, data, sent);
      case Writable(sent) => WritableIsSafe(l, sent);
      case _ =>
    }
  }

  lemma WriteIsSafe(l: Link, data: seq<byte>, sent: Send)
    requires Safe(l) && Enabled(l, Write(data, sent))
    ensures Safe(AfterWrite(l, data, sent).0) <==> Careful(l, Write(data, sent))
  {
    WriteConserves(l, data, sent);
  }

  lemma WriteConserves(l: Link, data: seq<byte>, sent: Send)
    requires Conserved(l) && Enabled(l, Write(data, sent)) && (l.forced || l.state == Closed ==> !l.attached)
    ensures Conserved(AfterWrite(l, data, sent).0)
  {
    if sent.Sent? {
      assert l.accepted + data[..sent.n] + data[sent.n..] == l.accepted + data;
      assert l.accepted + data[..|data|] + [] == l.accepted + data;
    }
    if l.buffer == [] {
      assert l.accepted + [] == l.accepted;
    } else {
      assert l.accepted + (l.buffer + data) == l.accepted + l.buffer + data;
    }
  }

  lemma WritableIsSafe(l: Link, sent: Send)
    requires Safe(l) && Enabled(l, Writable(sent))
    ensures Safe(AfterWritable(l, sent)) <==> !Jams(l, Writable(sent))
  {
    WritableConserves(l, sent);
  }

  lemma WritableConserves(l: Link, sent: Send)
    requires Conserved(l) && Enabled(l, Writable(sent))
    ensures Conserved(AfterWritable(l, sent))
  {
    if sent.Sent? {
      assert l.buffer[..sent.n] + l.buffer[sent.n..] == l.buffer;
      assert l.accepted + l.buffer[..sent.n] + l.buffer[sent.n..] == l.accepted + l.buffer;
    }
  }

  /** Careful callers keep what can be kept. */
  lemma StepIsRegular(l: Link, e: Event)
    requires Regular(l) && Enabled(l, e) && Careful(l, e)
    ensures Regular(Step(l, e)) && (Step(l, e).jammed <==> l.jammed || Jams(l, e))
  {
    if l.jammed {
      JammedStays(l, e);
    } else {
      StepIsSafeIffCareful(l, e);
      if Jams(l, e) { JamIsRegular(l); }
    }
  }

  lemma JamIsRegular(l: Link)
    requires Safe(l) && Jams(l, Writable(Sent(|l.buffer|))) && Enabled(l, Writable(Sent(|l.buffer|)))
    ensures Jammed(AfterWritable(l, Sent(|l.buffer|)))
  {
    WritableConserves(l, Sent(|l.buffer|));
  }

  lemma JammedStays(l: Link, e: Event)
    requires Jammed(l) && Enabled(l, e) && Careful(l, e)
    ensures Jammed(Step(l, e))
  {
    match e {
      case Write(data, sent) => WriteConserves(l, data, sent);
      case Writable(sent) => WritableConserves(l, sent);
      case _ =>
    }
  }

  ghost predicate Run(l: Link, es: seq<Event>, end: Link)
    decreases |es|
  {
    if es == [] then l == end
    else Enabled(l, es[0]) && Careful(l, es[0]) && Run(Step(l, es[0]), es[1..], end)
  }

  /**
    Every run: bytes are conserved and registrations right, and there is one final close at most, unless the
    run jams; a jam leaves bytes conserved.
   */
  lemma {:induction false} EveryRunIsRegular(l: Link, es: seq<Event>, end: Link)
    requires Regular(l) && Run(l, es, end)
    ensures Regular(end) && (Safe(end) <==> !end.jammed) && (l.jammed ==> end.jammed)
    ensures l.state == Closed ==> end.state == Closed && end.accepted == l.accepted
    ensures l.accepted <= end.accepted && l.written <= end.written
    decreases |es|
  {
    if es != [] {
      StepIsRegular(l, es[0]);
      StepExtends(l, es[0]);
      hide Regular, Safe;
      EveryRunIsRegular(Step(l, es[0]), es[1..], end);
    }
  }

  lemma StepExtends(l: Link, e: Event)
    requires Regular(l) && Enabled(l, e) && Careful(l, e)
    ensures var n := Step(l, e);
      && l.accepted <= n.accepted && l.written <= n.written
      && (l.state == Closed ==> n.state == Closed && n.accepted == l.accepted)
      && (l.state == Closing ==> n.state != Opened)
  {
    if e.Write? { WriteExtends(l, e.data, e.sent); }
    if e.Writable? { WritableExtends(l, e.sent); }
    hide AfterWrite, AfterWritable, Conserved, WaitingInTurn;
  }

  lemma WriteExtends(l: Link, data: seq<byte>, sent: Send)
    requires Enabled(l, Write(data, sent)) && (l.state == Closed ==> !l.attached)
    ensures var n := AfterWrite(l, data, sent).0;
      && l.accepted <= n.accepted && l.written <= n.written
      && (l.state == Closed ==> n.state == Closed && n.accepted == l.accepted)
      && (l.state == Closing ==> n.state != Opened)
  {
  }

  lemma WritableExtends(l: Link, sent: Send)
    requires Enabled(l, Writable(sent)) && (l.state == Closed ==> !l.attached)
    ensures var n := AfterWritable(l, sent);
      && l.accepted <= n.accepted && l.written <= n.written
      && (l.state == Closed ==> n.state == Closed && n.accepted == l.accepted)
      && (l.state == Closing ==> n.state != Opened)
  {
  }

  /** The k-th event of a run jams it. */
  ghost predicate JamsAt(l: Link, es: seq<Event>, k: nat, before: Link) {
    k < |es| && Run(l, es[..k], before) && Jams(before, es[k])
  }

  /** A run ends in a safe state exactly if in none of its steps the buffer drained, in CLOSING, under a cancelled waiter. */
  lemma {:induction false} RunIsSafeIffNothingJams(l: Link, es: seq<Event>, end: Link)
    requires Safe(l) && Run(l, es, end)
    ensures Safe(end) <==> !exists k: nat, before :: JamsAt(l, es, k, before)
    decreases |es|
  {
    if es == [] { return; }
    var n := Step(l, es[0]);
    StepIsRegular(l, es[0]);
    hide Safe, Regular, Jams;
    if Jams(l, es[0]) {
      assert es[..0] == [] && JamsAt(l, es, 0, l);
      EveryRunIsRegular(n, es[1..], end);
    } else {
      assert Safe(n) by { RegularIsSafe(n); }
      RunIsSafeIffNothingJams(n, es[1..], end);
      if k: nat, before :| JamsAt(n, es[1..], k, before) {
        assert es[..k + 1][1..] == es[1..][..k];
        assert JamsAt(l, es, k + 1, before);
      }
      forall k: nat, before | JamsAt(l, es, k, before)
        ensures JamsAt(n, es[1..], k - 1, before)
      {
        assert k == 0 ==> before == l;
        FirstStep(l, es, k, before);
      }
    }
  }

  lemma RegularIsSafe(l: Link)
    requires Regular(l) && !l.jammed
    ensures Safe(l)
  {
  }

  lemma FirstStep(l: Link, es: seq<Event>, k: nat, end: Link)
    requires 0 < k <= |es| && Run(l, es[..k], end)
    ensures Enabled(l, es[0]) && Careful(l, es[0]) && Run(Step(l, es[0]), es[1..][..k - 1], end)
  {
    assert es[..k][1..] == es[1..][..k - 1];
  }

  /** What an orderly close means: everything written has been accepted, but for what a jammed transport still had to send. */
  lemma {:induction false} OrderlyCloseDeliversEverything(es: seq<Event>, end: Link)
    requires Run(FRESH, es, end) && end.state == Closed && !end.forced
    ensures end.accepted + end.buffer == end.written && (!end.jammed ==> end.accepted == end.written)
  {
    EveryRunIsRegular(FRESH, es, end);
    assert end.accepted + [] == end.accepted;
  }

  /** An error of the socket or of the receiving callback, or a call of `_force_close`. */
  predicate Fails(l: Link, e: Event) {
    l.attached && match e
    case Write(_, sent) => sent == Failed && l.buffer == []
    case Writable(sent) => sent == Failed && l.buffer != []
    case Readable(received) => received == Refused || received == Lost
    case CallForceClose => true
    case _ => false
  }

  /**
    A failure closes at once. Otherwise an open transport closes at the end of input and when told to, but
    with data to send only once that has gone out, and not if a waiter is cancelled then and has not gone on.
   */
  lemma ClosesIff(l: Link, e: Event)
    requires Safe(l) && l.state != Closed && Enabled(l, e) && Careful(l, e)
    ensures var ends := e.CallClose? || (e.Readable? && e.received.Ended?);
      && (Step(l, e).forced <==> Fails(l, e))
      && (Step(l, e).state == Closed <==>
            || Fails(l, e)
            || (l.state == Opened && l.buffer == [] && ends)
            || (l.state == Closing && e == Writable(Sent(|l.buffer|)) && l.waiter != Cancelled))
      && (Step(l, e).state == Opened <==> l.state == Opened && !Fails(l, e) && !ends)
  {
  }

  /** What the socket says it has taken is what counts as accepted, no more and no less. */
  lemma AcceptedIsWhatWasTaken(l: Link, e: Event)
    requires Regular(l) && Enabled(l, e) && Careful(l, e) && l.attached
    ensures |Step(l, e).accepted| == |l.accepted| + match e {
      case Write(_, Sent(n)) => if l.buffer == [] then n else 0
      case Writable(Sent(n)) => n
      case _ => 0
    }
  {
  }

  /** What was written is what callers gave, in the order they gave it. */
  lemma WrittenIsWhatWasGiven(l: Link, e: Event)
    requires Regular(l) && Enabled(l, e) && Careful(l, e)
    ensures Step(l, e).written == l.written + if e.Write? && (l.attached || l.buffer != []) then e.data else []
  {
    hide Conserved, WaitingInTurn;
    match e {
      case Write(data, sent) => WriteRecords(l, data, sent);
      case Writable(sent) => DrainRecordsNothing(l, sent);
      case _ =>
    }
  }

  lemma WriteRecords(l: Link, data: seq<byte>, sent: Send)
    requires Enabled(l, Write(data, sent))
    ensures AfterWrite(l, data, sent).0.written == l.written + if l.attached || l.buffer != [] then data else []
  {
  }

  lemma DrainRecordsNothing(l: Link, sent: Send)
    requires Enabled(l, Writable(sent))
    ensures AfterWritable(l, sent).written == l.written
  {
  }

  /** The socket may take all of what it is given, or any part, at a write and at a drain. */
  lemma SocketMayTakeAnything(l: Link, data: seq<byte>, n: nat)
    requires Safe(l)
    ensures n <= |data| <==> Enabled(l, Write(data, Sent(n)))
    ensures l.buffer != [] && n <= |l.buffer| <==> Enabled(l, Writable(Sent(n)))
  {
  }

  /** The answer of a write: everything is out, something is kept, the transport broke, or it has no socket. */
  lemma AnswerTells(l: Link, data: seq<byte>, sent: Send)
    requires Regular(l) && Enabled(l, Write(data, sent)) && Careful(l, Write(data, sent))
    ensures var (n, answer) := AfterWrite(l, data, sent);
      && (answer == Done <==> l.attached && n.attached && n.buffer == [])
      && (answer == Buffered <==> n.buffer != [])
      && (answer == Broken <==> l.attached && !n.attached)
      && (answer == Raised <==> !l.attached && l.buffer == []) && (answer == Raised ==> n == l)
  {
    if sent.Sent? && sent.n < |data| { assert data[sent.n..] != []; }
  }

  /** `eof_received` is asked whether to stay open, but while reading the answer makes no difference. */
  lemma EndOfInputAlwaysCloses(l: Link, keep: bool)
    requires Regular(l) && l.reading
    ensures AfterReadable(l, Ended(keep)) == AfterClose(l) && AfterReadable(l, Ended(keep)).state != Opened
  {
  }

  /** Only a transport that is not open would be kept, and lose no more than its reader. */
  lemma KeptOnlyIfNotOpen(l: Link)
    ensures AfterReadable(l, Ended(false)) == AfterClose(l)
    ensures l.state != Opened ==> AfterReadable(l, Ended(true)) == l.(reading := false)
  {
  }

  // ---------- a drain that meets a cancelled waiter ----------

  /** CLOSING with nothing to send: no callback is registered that would bring the final close. */
  predicate Stuck(l: Link) {
    l.state == Closing && l.attached && l.buffer == [] && !l.reading && l.scheduled == 0
  }

  /** The drain of a closing transport is its final close exactly if no waiter is cancelled and still to go on; else it is stuck. */
  lemma DrainClosesIff(l: Link)
    requires Safe(l) && l.state == Closing
    ensures var n := AfterWritable(l, Sent(|l.buffer|));
      && (n.state == Closed <==> l.waiter != Cancelled)
      && (Stuck(n) && n.jammed <==> l.waiter == Cancelled)
  {
  }

  /** What brings a stuck transport on: force, an error, or any write but an empty one to a busy socket. */
  predicate Rescues(e: Event) {
    e == CallForceClose || (e.Write? && !(e.data == [] && e.sent == Blocked))
  }

  ghost predicate CarelessRun(l: Link, es: seq<Event>, end: Link)
    decreases |es|
  {
    if es == [] then l == end else Enabled(l, es[0]) && CarelessRun(Step(l, es[0]), es[1..], end)
  }

  lemma StuckStaysIff(l: Link, e: Event)
    requires Stuck(l) && Enabled(l, e)
    ensures Stuck(Step(l, e)) <==> !Rescues(e)
    ensures !Rescues(e) ==> Step(l, e).closes == l.closes
  {
  }

  ghost predicate Unhelpful(es: seq<Event>) {
    forall e :: e in es ==> !Rescues(e)
  }

  /** Without that it is stuck for good, closing it again included. */
  lemma {:induction false} StuckUntilRescued(l: Link, es: seq<Event>, end: Link)
    requires Stuck(l) && CarelessRun(l, es, end) && Unhelpful(es)
    ensures Stuck(end) && end.closes == l.closes
    decreases |es|
  {
    if es != [] {
      assert es[0] in es;
      StuckStaysIff(l, es[0]);
      hide Step, Enabled, Stuck;
      StuckUntilRescued(Step(l, es[0]), es[1..], end);
    }
  }

  /** With one more event a stuck transport can come to its final close exactly if the event is of that kind. */
  lemma {:induction false} StuckClosesIff(l: Link, e: Event)
    requires Jammed(l) && Stuck(l) && Enabled(l, e)
    ensures (exists more, end :: CarelessRun(Step(l, e), more, end) && Unhelpful(more) && end.closes > l.closes) <==> Rescues(e)
  {
    StuckStaysIff(l, e);
    if Rescues(e) {
      var more, end := RescueCloses(l, e);
    } else {
      hide Step, Stuck;
      forall more, end | CarelessRun(Step(l, e), more, end) && Unhelpful(more)
        ensures end.closes == l.closes
      {
        StuckUntilRescued(Step(l, e), more, end);
      }
    }
  }

  lemma {:induction false} RescueCloses(l: Link, e: Event) returns (more: seq<Event>, end: Link)
    requires Jammed(l) && Stuck(l) && Enabled(l, e) && Rescues(e)
    ensures CarelessRun(Step(l, e), more, end) && Unhelpful(more) && end.closes > l.closes
  {
    var n := Step(l, e);
    if n.state == Closed {
      more, end := [], n;
    } else if n.scheduled > 0 {
      more, end := OneMore(n, ScheduledClose);
    } else {
      var drain := Writable(Sent(|n.buffer|));
      if n.waiter == Cancelled {
        more, end := OneMore(Step(n, Resume), drain);
        assert ([Resume] + more)[1..] == more;
        more := [Resume] + more;
      } else {
        more, end := OneMore(n, drain);
      }
    }
  }

  lemma {:induction false} OneMore(l: Link, e: Event) returns (es: seq<Event>, end: Link)
    requires Enabled(l, e)
    ensures es == [e] && end == Step(l, e) && CarelessRun(l, es, end)
  {
    es, end := [e], Step(l, e);
    assert es[1..] == [];
  }

  /** A write that goes out whole has the final close called by the loop exactly in a stuck state, never in a safe one. */
  lemma WriteSchedulesACloseIff(l: Link, data: seq<byte>)
    requires Regular(l)
    ensures AfterWrite(l, data, Sent(|data|)).0.scheduled > l.scheduled
      <==> l.state == Closing && l.buffer == [] && l.attached
    ensures AfterWrite(l, data, Sent(|data|)).0.scheduled > l.scheduled ==> l.jammed
  {
  }

  /** Two such writes are two final closes. */
  lemma TwoWritesCloseTwice(l: Link, a: seq<byte>, b: seq<byte>)
    requires Jammed(l) && Stuck(l)
    ensures var w := AfterWrite(AfterWrite(l, a, Sent(|a|)).0, b, Sent(|b|)).0;
      && w.scheduled == 2
      && Step(Step(w, ScheduledClose), ScheduledClose).closes == 2
      && Step(Step(w, ScheduledClose), ScheduledClose).scheduled == 0
  {
  }

  // ---------- who waits for the buffer to drain ----------

  /** With data, a socket and nobody else, somebody comes to wait, and the drain wakes him. */
  lemma WaiterIsWoken(l: Link)
    requires l.buffer != [] && l.attached && l.writing && l.waiter == Nobody
    ensures var w := Step(l, WaitForAll);
      && w.waiter == Waiting && Step(w, WaitForAll) == w
      && Step(w, Writable(Sent(|l.buffer|))).resuming == l.resuming + 1
      && Step(w, Writable(Sent(|l.buffer|))).waiter == Nobody
  {
  }

  /** A cancellation jams the drain of a closing transport, until who was cancelled has gone on. */
  lemma CancelledWaiterJams(l: Link)
    requires Safe(l) && l.state == Closing && l.waiter == Waiting
    ensures var drain, c := Writable(Sent(|l.buffer|)), Step(l, CancelWait);
      && Stuck(Step(c, drain)) && Step(c, drain).closes == 0
      && Step(Step(c, Resume), drain).state == Closed
  {
  }

  /** The future changes hands in four ways and in no other. */
  lemma WaiterChangesIff(l: Link, e: Event)
    requires Regular(l) && Enabled(l, e) && Careful(l, e)
    ensures var n := Step(l, e);
      && (n.waiter == Waiting <==>
            || (l.waiter == Nobody && e == WaitForAll && l.buffer != [] && l.attached)
            || (l.waiter == Waiting && e != CancelWait && !(l.attached && e == Writable(Sent(|l.buffer|)))))
      && (n.waiter == Cancelled <==>
            || (l.waiter == Waiting && e == CancelWait)
            || (l.waiter == Cancelled && e != Resume))
  {
    hide Conserved;
  }

  /** Who is woken or cancelled has still to go on, and does that once. */
  lemma EachWaiterGoesOn(l: Link, e: Event)
    requires Regular(l) && Enabled(l, e) && Careful(l, e)
    ensures var n := Step(l, e);
      n.resuming == l.resuming + (if l.waiter == Waiting && n.waiter != Waiting then 1 else 0) - (if e == Resume then 1 else 0)
  {
    hide Conserved;
    match e {
      case Write(data, sent) =>
        WriteLeavesWaiters(l, data, sent);
        hide AfterWrite;
      case _ =>
    }
  }

  lemma WriteLeavesWaiters(l: Link, data: seq<byte>, sent: Send)
    requires Enabled(l, Write(data, sent))
    ensures var n := AfterWrite(l, data, sent).0; n.waiter == l.waiter && n.resuming == l.resuming
  {
  }

  /** Who waits is woken when the buffer has drained, or cancelled, and nothing else ends his waiting. */
  lemma WaitingEndsIff(l: Link, e: Event)
    requires Regular(l) && l.waiter == Waiting && Enabled(l, e) && Careful(l, e)
    ensures Step(l, e).waiter != Waiting <==> e == CancelWait || (l.attached && e == Writable(Sent(|l.buffer|)))
    ensures Step(l, e).waiter != Waiting ==> Step(l, e).resuming == 1
  {
  }

  /** Who begins to wait before the last one has gone on is forgotten when that one does. */
  lemma OverlappingWaiterIsForgotten(l: Link)
    requires Regular(l) && l.resuming > 0
    ensures AfterResume(AfterWait(l)).orphans == (if Careful(l, WaitForAll) then 0 else 1)
    ensures AfterResume(AfterWait(l)).waiter == Nobody
  {
  }

  lemma {:induction false} DetachedKeepsTheWaiter(l: Link, es: seq<Event>, end: Link)
    requires Regular(l) && !l.attached && Run(l, es, end)
    ensures !end.attached && (end.waiter == Waiting <==> l.waiter == Waiting && CancelWait !in es)
    decreases |es|
  {
    if es != [] {
      StepIsRegular(l, es[0]);
      DetachedStep(l, es[0]);
      assert CancelWait in es <==> es[0] == CancelWait || CancelWait in es[1..];
      hide Regular, Step, Enabled, Careful;
      DetachedKeepsTheWaiter(Step(l, es[0]), es[1..], end);
    }
  }

  lemma DetachedStep(l: Link, e: Event)
    requires Regular(l) && !l.attached && Enabled(l, e) && Careful(l, e)
    ensures !Step(l, e).attached && (Step(l, e).waiter == Waiting <==> l.waiter == Waiting && e != CancelWait)
  {
  }

  /** A forced close does not wake who waits for the buffer to drain; only a timeout of his own does. */
  lemma {:induction false} ForcedCloseStrandsTheWaiter(l: Link, es: seq<Event>, end: Link)
    requires Regular(l) && l.waiter == Waiting && Run(AfterForceClose(l), es, end)
    ensures end.waiter == Waiting <==> CancelWait !in es
  {
    StepIsRegular(l, CallForceClose);
    DetachedKeepsTheWaiter(AfterForceClose(l), es, end);
  }

  /** The k-th event of a run takes the socket away while somebody waits: a failure, or a scheduled close. Nobody cancels him later. */
  ghost predicate LeavesWaiter(l: Link, es: seq<Event>, k: nat, before: Link) {
    && k < |es| && Run(l, es[..k], before) && before.attached && before.waiter == Waiting
    && (Fails(before, es[k]) || es[k] == ScheduledClose) && CancelWait !in es[k + 1..]
  }

  lemma DetachesIff(l: Link, e: Event)
    requires Regular(l) && l.attached && l.waiter == Waiting && Enabled(l, e) && Careful(l, e)
    ensures !Step(l, e).attached && Step(l, e).waiter == Waiting <==> Fails(l, e) || e == ScheduledClose
  {
  }

  lemma NewWaiterIsAttached(l: Link, e: Event)
    requires Regular(l) && l.attached && l.waiter != Waiting && Enabled(l, e) && Careful(l, e)
    ensures Step(l, e).waiter == Waiting ==> Step(l, e).attached
  {
  }

  /** A closed transport still has a waiter exactly if its socket was taken away while he waited and nobody has cancelled him since. */
  lemma {:induction false} WaiterIsLeftIff(l: Link, es: seq<Event>, end: Link)
    requires Regular(l) && l.attached && Run(l, es, end) && !end.attached
    ensures end.waiter == Waiting <==> exists k: nat, before :: LeavesWaiter(l, es, k, before)
    decreases |es|
  {
    var n := Step(l, es[0]);
    StepIsRegular(l, es[0]);
    if l.waiter == Waiting { DetachesIff(l, es[0]); } else { NewWaiterIsAttached(l, es[0]); }
    hide Regular, Fails, Step, Enabled, Careful;
    if !n.attached {
      DetachedKeepsTheWaiter(n, es[1..], end);
      if end.waiter == Waiting { assert es[..0] == [] && LeavesWaiter(l, es, 0, l); }
      forall k: nat, before | LeavesWaiter(l, es, k, before)
        ensures k == 0 && before == l
      {
        if k > 0 { FirstStep(l, es, k, before); DetachedKeepsTheWaiter(n, es[1..][..k - 1], before); }
      }
    } else {
      WaiterIsLeftIff(n, es[1..], end);
      if k: nat, before :| LeavesWaiter(n, es[1..], k, before) {
        assert es[..k + 1][1..] == es[1..][..k] && es[1..][k + 1..] == es[k + 2..];
        assert LeavesWaiter(l, es, k + 1, before);
      }
      forall k: nat, before | LeavesWaiter(l, es, k, before)
        ensures end.waiter == Waiting
      {
        assert k == 0 ==> before == l;
        FirstStep(l, es, k, before);
        assert es[1..][k..] == es[k + 1..];
        assert LeavesWaiter(n, es[1..], k - 1, before);
      }
    }
  }

  // ---------- what goes wrong when callers are not careful ----------

  /** A writer is registered but there is nothing to send. */
  predicate Idle(l: Link) {
    l.state == Opened && l.attached && l.writing && l.buffer == []
  }

  /** Writing nothing to a busy socket is what makes a writer idle. */
  lemma EmptyWriteLeavesAWriter(l: Link, data: seq<byte>, sent: Send)
    requires Safe(l) && l.state == Opened && Enabled(l, Write(data, sent))
    ensures Idle(AfterWrite(l, data, sent).0) <==> l.buffer == [] && data == [] && sent == Blocked
  {
  }

  /** Every call of an idle writer finds no data; he is idle until data is kept for him, or the transport is closed or shut down. */
  lemma IdleWriterStaysIff(l: Link, e: Event)
    requires Idle(l) && Enabled(l, e)
    ensures e.Writable? ==> Step(l, e) == l
    ensures Idle(Step(l, e)) <==> match e {
      case Write(data, Sent(n)) => n == |data|
      case Write(data, Blocked) => data == []
      case Write(_, Failed) => false
      case Readable(received) => received == Received || received == Nothing
      case Writable(_) => true
      case WaitForAll => true
      case CancelWait => true
      case Resume => true
      case ScheduledClose => false
      case _ => false
    }
  {
  }

  /** A close removes an idle writer, a forced one leaves it to a loop that has no socket for it. */
  lemma IdleWriterIsRemovedIff(l: Link)
    requires Idle(l)
    ensures !AfterClose(l).writing && AfterClose(l).state == Closed
    ensures AfterForceClose(l).writing && AfterForceClose(l).state == Closed
  {
  }

  /** Errors of the reading side, and calls of `_force_close`: what still reaches a transport that does not send. */
  predicate Breaks(e: Event) {
    e == CallForceClose || e == Readable(Refused) || e == Readable(Lost)
  }

  predicate Stranded(l: Link) {
    && l.buffer != [] && !l.writing && l.scheduled == 0 && l.attached && l.state != Closed
    && (l.reading <==> l.state == Opened) && !l.forced && l.accepted + l.buffer == l.written && l.closes == 0
    && !l.jammed
  }

  /** A closed transport stays closed exactly if `close` is not called again; otherwise it is in CLOSING for good. */
  lemma {:induction false} StaysClosedIffNotClosedAgain(l: Link, es: seq<Event>, end: Link)
    requires Safe(l) && l.state == Closed && CarelessRun(l, es, end)
    ensures end.state == if CallClose in es then Closing else Closed
    ensures end.accepted == l.accepted && end.closes == 1
  {
    DetachedForGood(l, es, end);
  }

  /** The socket is gone and no callback is left. */
  predicate Detached(l: Link) {
    !l.attached && l.buffer == [] && !l.reading && !l.writing && l.scheduled == 0 && l.state != Opened
  }

  lemma {:induction false} DetachedForGood(l: Link, es: seq<Event>, end: Link)
    requires Detached(l) && CarelessRun(l, es, end)
    ensures end.state == if CallClose in es then Closing else l.state
    ensures end.accepted == l.accepted && end.closes == l.closes
    decreases |es|
  {
    if es != [] {
      assert CallClose in es <==> es[0] == CallClose || CallClose in es[1..];
      DetachedForGood(Step(l, es[0]), es[1..], end);
    }
  }

  /**
    After a shutdown with data in the buffer that data is never sent, whatever callers do; and the final
    close comes exactly if there is an error of the reading side or a forced close.
   */
  lemma {:induction false} ShutdownStrandsData(l: Link, es: seq<Event>, end: Link)
    requires Safe(l) && l.state != Closed && l.buffer != [] && CarelessRun(AfterShutdown(l), es, end)
    ensures end.accepted == l.accepted
    ensures end.closes == if exists i :: 0 <= i < |es| && Breaks(es[i]) then 1 else 0
  {
    StrandedUntilBroken(AfterShutdown(l), es, end);
  }

  lemma {:induction false} StrandedUntilBroken(l: Link, es: seq<Event>, end: Link)
    requires Stranded(l) && CarelessRun(l, es, end)
    ensures end.accepted == l.accepted
    ensures end.closes == if exists i :: 0 <= i < |es| && Breaks(es[i]) then 1 else 0
    decreases |es|
  {
    if es != [] {
      var n := Step(l, es[0]);
      StrandedStep(l, es[0]);
      if Breaks(es[0]) {
        DetachedForGood(n, es[1..], end);
      } else {
        StrandedUntilBroken(n, es[1..], end);
        assert forall i :: 1 <= i < |es| ==> es[i] == es[1..][i - 1];
      }
    }
  }

  lemma StrandedStep(l: Link, e: Event)
    requires Stranded(l) && Enabled(l, e)
    ensures var n := Step(l, e);
      && n.accepted == l.accepted
      && if Breaks(e) then Detached(n) && n.state == Closed && n.closes == 1 else Stranded(n)
  {
    if e.Write? { assert l.accepted + (l.buffer + e.data) == l.accepted + l.buffer + e.data; }
  }

  // ---------- the transport ----------

  class Stream {
    var state: State
    /** Whether it still has its socket and loop. */
    var attached: bool
    var writeBuffer: seq<byte>
    var readerOn: bool
    var writerOn: bool
    var writeEmptyWaiter: Waiter
    var finalCloses: nat

    ghost var resuming: nat
    ghost var written: seq<byte>
    ghost var accepted: seq<byte>
    ghost var forced: bool
    ghost var jammed: bool
    ghost var orphans: nat
    ghost var closes: nat

    ghost function View(): Link
      reads this
    {
      Link(state, attached, writeBuffer, readerOn, writerOn, writeEmptyWaiter, resuming, finalCloses,
           written, accepted, forced, jammed, orphans, closes)
    }

    constructor ()
      ensures View() == FRESH && Safe(View())
      ensures state == Opened && attached && readerOn && !writerOn && writeBuffer == [] && writeEmptyWaiter == Nobody && finalCloses == 0
    {
      state, attached, writeBuffer, readerOn, writerOn, writeEmptyWaiter, finalCloses := Opened, true, [], true, false, Nobody, 0;
      resuming, written, accepted, forced, jammed, orphans, closes := 0, [], [], false, false, 0, 0;
    }

    /** True if everything went out, false if some was kept; nothing if the transport broke. */
    method WriteSync(data: seq<byte>, outcome: Send) returns (answer: Answer)
      requires Enabled(View(), Write(data, outcome))
      modifies this
      ensures (View(), answer) == AfterWrite(old(View()), data, outcome)
      ensures old(Regular(View()) && Careful(View(), Write(data, outcome))) ==> Regular(View())
    {
      ghost var before := View();
      answer := SendOrKeep(data, outcome);
      hide Regular, Careful, AfterWrite;
      if Regular(before) && Careful(before, Write(data, outcome)) { StepIsRegular(before, Write(data, outcome)); }
    }

    method SendOrKeep(data: seq<byte>, outcome: Send) returns (answer: Answer)
      requires outcome.Sent? ==> outcome.n <= |data|
      modifies this
      ensures (View(), answer) == AfterWrite(old(View()), data, outcome)
    {
      hide Regular;
      var rest := data;
      if writeBuffer == [] {
        if !attached { return Raised; }
        match outcome {
          case Blocked =>
          case Failed =>
            written := written + data;
            ForceClose();
            return Broken;
          case Sent(n) =>
            accepted := accepted + data[..n];
            rest := data[n..];
            if rest == [] {
              written := written + data;
              if state == Closing { finalCloses := finalCloses + 1; }
              return Done;
            }
        }
        writerOn := true;
      }
      written := written + data;
      writeBuffer := writeBuffer + rest;
      answer := Buffered;
      assert [] + rest == rest;
    }

    method OnWritable(outcome: Send)
      requires Enabled(View(), Writable(outcome))
      modifies this
      ensures View() == AfterWritable(old(View()), outcome)
      ensures old(Regular(View())) ==> Regular(View())
    {
      ghost var before := View();
      if Regular(before) { StepIsRegular(before, Writable(outcome)); }
      if writeBuffer == [] || !attached { return; }
      match outcome {
        case Blocked =>
        case Failed => ForceClose();
        case Sent(n) =>
          accepted := accepted + writeBuffer[..n];
          writeBuffer := writeBuffer[n..];
          if writeBuffer == [] {
            writerOn := false;
            WakeWaiter();
          }
      }
    }

    /** Setting the result of a cancelled future raises an exception, and the rest of the callback is skipped. */
    method WakeWaiter()
      modifies this
      ensures View() == AfterDrain(old(View()))
    {
      if writeEmptyWaiter == Cancelled {
        jammed := jammed || state == Closing;
        return;
      }
      if writeEmptyWaiter == Waiting {
        writeEmptyWaiter := Nobody;
        resuming := resuming + 1;
      }
      if state == Closing { FinalClose(); }
    }

    /** `wait_for_write_all` up to where it waits; fails if somebody else waits, or without a loop. */
    method WaitForWriteAll() returns (r: Answer)
      modifies this
      ensures View() == AfterWait(old(View()))
      ensures old(writeBuffer != [] && attached && writeEmptyWaiter == Nobody) ==> writeEmptyWaiter == Waiting
      ensures r == (if old(writeBuffer) == [] then Done else if old(writeEmptyWaiter != Nobody || !attached) then Raised else Buffered)
      ensures old(Regular(View()) && Careful(View(), WaitForAll)) ==> Regular(View())
    {
      if writeBuffer == [] { return Done; }
      if writeEmptyWaiter != Nobody || !attached { return Raised; }
      writeEmptyWaiter := Waiting;
      r := Buffered;
    }

    /** The `finally` of `wait_for_write_all`. */
    method OnResume()
      requires resuming > 0
      modifies this
      ensures View() == AfterResume(old(View()))
      ensures old(Regular(View())) ==> Regular(View())
    {
      if writeEmptyWaiter == Waiting { orphans := orphans + 1; }
      writeEmptyWaiter := Nobody;
      resuming := resuming - 1;
    }

    method OnReadable(outcome: Recv)
      requires Enabled(View(), Readable(outcome))
      modifies this
      ensures View() == AfterReadable(old(View()), outcome)
      ensures old(Regular(View())) ==> Regular(View())
    {
      ghost var before := View();
      if Regular(before) { StepIsRegular(before, Readable(outcome)); }
      match outcome {
        case Nothing =>
        case Received =>
        case Refused => ForceClose();
        case Lost => ForceClose();
        case Ended(keep) =>
          if keep && state != Opened {
            readerOn := false;
          } else {
            Close();
          }
      }
    }

    method Shutdown()
      modifies this
      ensures View() == AfterShutdown(old(View()))
    {
      if attached { writerOn := false; }
    }

    method Close()
      modifies this
      ensures View() == AfterClose(old(View()))
      ensures old(Regular(View()) && state != Closed) ==> Regular(View())
    {
      if state == Closing { return; }
      var wasClosed := state == Closed;
      state := Closing;
      if wasClosed { return; }
      readerOn := false;
      if writeBuffer == [] {
        writerOn := false;
        FinalClose();
      }
    }

    method ForceClose()
      modifies this
      ensures View() == AfterForceClose(old(View()))
      ensures old(Regular(View())) ==> Regular(View())
    {
      if state == Closed || !attached { return; }
      forced := true;
      if writeBuffer != [] {
        writeBuffer := [];
        writerOn := false;
      }
      readerOn := false;
      FinalClose();
    }

    method FinalClose()
      modifies this
      ensures View() == AfterFinalClose(old(View()))
    {
      state, attached := Closed, false;
      closes := closes + 1;
    }
  }
}
