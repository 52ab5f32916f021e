/**
  A connection: a stream, the framing of what it receives, and the handler that runs a task for
  every message. Two of them and a reliable pipe of bytes between them.
 */
module Connections {
  import opened Framing
  import opened Handlers
  import opened Results
  import opened Streams
  import opened Varints

  // ---------- the receiving connection ----------

  datatype Conn = Conn(link: Link, kept: seq<byte>, handler: Serial<Parcel>)

  /** The final close of the stream closes the handler and drops what has not been parsed. */
  function WithLink(c: Conn, link: Link): Conn {
    if c.link.state != Closed && link.state == Closed then Conn(link, [], Handlers.AfterClose(c.handler))
    else c.(link := link)
  }

  function SubmitAll(h: Serial<Parcel>, ps: seq<Parcel>): Serial<Parcel>
    decreases |ps|
  {
    if ps == [] then h else AfterSubmit(SubmitAll(h, ps[..|ps| - 1]), ps[|ps| - 1])
  }

  function AfterData(c: Conn, data: seq<byte>): Conn {
    match Feed(c.kept + data)
    case Failure => WithLink(c.(kept := c.kept + data), AfterForceClose(c.link))
    case Success((n, ps)) => Conn(c.link, (c.kept + data)[n..], SubmitAll(c.handler, ps))
  }

  function AfterEof(c: Conn): Conn {
    WithLink(c.(handler := Handlers.AfterShutdown(c.handler)), AfterReadable(c.link, Ended(true)))
  }

  function AfterCloseCall(c: Conn): Conn {
    if c.link.state == Closed then c
    else WithLink(c.(handler := Handlers.AfterShutdown(c.handler)), Streams.AfterClose(c.link))
  }

  // ---------- two ends and a pipe ----------

  /** What the sender has been asked to send, the bytes on their way, the bytes that have arrived. */
  datatype System = System(sender: Link, sent: seq<Parcel>, flight: seq<byte>, received: seq<byte>, receiver: Conn)

  datatype Action =
    | Send(parcel: Parcel, outcome: Streams.Send)
    | SenderEvent(event: Streams.Event)
    | Arrive(n: nat)
    | Eof
    | CloseReceiver
    | ReceiverEvent(event: Streams.Event)
    | HandlerEvent(step: Handlers.Event<Parcel>)

  /**
    The pipe hands on any number of the bytes in flight. Submitting is left to the connection, and
    so is closing the handler.
   */
  predicate Possible(s: System, a: Action) {
    match a
    case Send(p, outcome) => Packable(p) ==> Streams.Enabled(s.sender, Write(Frame(p.meta, p.payload), outcome))
    case SenderEvent(e) => !e.Write? && Streams.Enabled(s.sender, e) && Streams.Careful(s.sender, e)
    case Arrive(n) => s.receiver.link.reading && 0 < n <= |s.flight|
    case Eof => s.receiver.link.reading
    case CloseReceiver => true
    case ReceiverEvent(e) =>
      && !e.CallClose? && !(e.Readable? && e.received.Ended?)
      && Streams.Enabled(s.receiver.link, e) && Streams.Careful(s.receiver.link, e)
    case HandlerEvent(e) => !e.Submit? && !e.CallClose? && Handlers.Enabled(s.receiver.handler, e)
  }

  /** What the socket has newly accepted is in flight. */
  function WithSender(s: System, l: Link): System
    requires s.sender.accepted <= l.accepted
  {
    s.(sender := l, flight := s.flight + l.accepted[|s.sender.accepted|..])
  }

  function Next(s: System, a: Action): System
    requires Possible(s, a) && Regular(s.sender)
  {
    match a
    case Send(p, outcome) =>
      if !Packable(p) then s
      else
        var data := Frame(p.meta, p.payload);
        Streams.StepExtends(s.sender, Write(data, outcome));
        var (l, answer) := AfterWrite(s.sender, data, outcome);
        if answer == Answer.Raised then s else WithSender(s, l).(sent := s.sent + [p])
    case SenderEvent(e) => Streams.StepExtends(s.sender, e); WithSender(s, Streams.Step(s.sender, e))
    case Arrive(n) =>
      s.(flight := s.flight[n..], received := s.received + s.flight[..n], receiver := AfterData(s.receiver, s.flight[..n]))
    case Eof => s.(receiver := AfterEof(s.receiver))
    case CloseReceiver => s.(receiver := AfterCloseCall(s.receiver))
    case ReceiverEvent(e) => s.(receiver := WithLink(s.receiver, Streams.Step(s.receiver.link, e)))
    case HandlerEvent(e) => s.(receiver := s.receiver.(handler := Handlers.Step(s.receiver.handler, e)))
  }

  const START := System(FRESH, [], [], [], Conn(FRESH, [], Handlers.Fresh(false)))

  /** A handler that has ended by itself takes no harm from tasks it will never look at. */
  ghost predicate SafeHandler(h: Serial<Parcel>) {
    || Sound(h)
    || (h.closed && h.pc.Stopped? && h.started <= h.submitted && (h.shutAt.Some? ==> h.shutAt.value <= |h.submitted|))
  }

  ghost predicate SenderSide(s: System) {
    && Regular(s.sender) && AllPackable(s.sent) && s.sender.written == EncodeAll(s.sent)
    && s.received + s.flight == s.sender.accepted
  }

  /** Everything that has arrived has been parsed, whatever the chunks were. */
  ghost predicate Parsed(kept: seq<byte>, received: seq<byte>, submitted: seq<Parcel>) {
    && |kept| <= |received| && kept == received[|received| - |kept|..]
    && NextParcel(kept) == Success(None)
    && Feed(received) == Success((|received| - |kept|, submitted))
  }

  ghost predicate ReceiverSide(c: Conn, received: seq<byte>, sent: seq<Parcel>) {
    && Regular(c.link) && SafeHandler(c.handler)
    && c.handler.submitted <= sent
    && (c.link.state == Closed ==> c.handler.closed && c.kept == [])
    && (c.handler.closed ==> c.link.state == Closed || c.handler.pc.Stopped?)
    && (c.link.reading ==> Parsed(c.kept, received, c.handler.submitted))
  }

  ghost predicate Consistent(s: System) {
    SenderSide(s) && ReceiverSide(s.receiver, s.received, s.sent)
  }

  lemma {:induction false} SubmitAllSubmits(h: Serial<Parcel>, ps: seq<Parcel>)
    requires SafeHandler(h)
    ensures SafeHandler(SubmitAll(h, ps)) || (h.closed && !h.pc.Stopped?)
    ensures var n := SubmitAll(h, ps);
      n.submitted == h.submitted + ps && n.closed == h.closed && n.pc == h.pc && n.started == h.started && n.strict == h.strict
    decreases |ps|
  {
    hide Queue;
    if ps != [] {
      var front, last := ps[..|ps| - 1], ps[|ps| - 1];
      SubmitAllSubmits(h, front);
      assert front + [last] == ps;
      assert h.submitted + (front + [last]) == h.submitted + front + [last];
      var m := SubmitAll(h, front);
      if Sound(m) { SubmitIsSound(m, last); }
    }
  }

  lemma {:induction false} SenderSideIsKept(s: System, a: Action)
    requires SenderSide(s) && Possible(s, a)
    ensures SenderSide(Next(s, a)) && s.sent <= Next(s, a).sent
  {
    hide Regular, Frame, Streams.Step, AfterWrite, Streams.Enabled;
    match a {
      case Send(p, outcome) => if Packable(p) { SendIsRight(s, p, outcome); }
      case SenderEvent(e) =>
        StepIsRegular(s.sender, e);
        Streams.StepExtends(s.sender, e);
        OnlyWritesWrite(s.sender, e);
      case Arrive(n) =>
        assert s.received + s.flight[..n] + s.flight[n..] == s.received + s.flight;
      case _ =>
    }
  }

  lemma {:induction false} SendIsRight(s: System, p: Parcel, outcome: Streams.Send)
    requires SenderSide(s) && Packable(p) && Possible(s, Send(p, outcome))
    ensures SenderSide(Next(s, Send(p, outcome))) && s.sent <= Next(s, Send(p, outcome)).sent
  {
    var data := Frame(p.meta, p.payload);
    assert outcome.Sent? ==> outcome.n <= |data|;
    hide Regular, Frame, Streams.Step, AfterWrite, Streams.Enabled;
    FrameIsNotEmpty(p);
    StepIsRegular(s.sender, Write(data, outcome));
    Streams.StepExtends(s.sender, Write(data, outcome));
    WriteIsRecorded(s.sender, data, outcome);
    EncodeAllConcat(s.sent, [p]);
    OneParcel(p);
    hide EncodeAll, Packable;
    NewlyAccepted(s.received, s.flight, s.sender.accepted, AfterWrite(s.sender, data, outcome).0.accepted);
  }

  lemma NewlyAccepted(received: seq<byte>, flight: seq<byte>, before: seq<byte>, after: seq<byte>)
    requires received + flight == before <= after
    ensures received + (flight + after[|before|..]) == after
  {
    assert after == before + after[|before|..];
  }

  lemma FrameIsNotEmpty(p: Parcel)
    ensures Frame(p.meta, p.payload) != []
  {
  }

  lemma {:induction false} OneParcel(p: Parcel)
    ensures EncodeAll([p]) == Frame(p.meta, p.payload)
  {
    assert [p][1..] == [];
  }

  lemma WriteIsRecorded(l: Link, data: seq<byte>, outcome: Streams.Send)
    requires Streams.Enabled(l, Write(data, outcome)) && Regular(l)
    ensures Streams.Step(l, Write(data, outcome)) == AfterWrite(l, data, outcome).0
    ensures var (n, answer) := AfterWrite(l, data, outcome);
      n.written == (if answer == Answer.Raised then l.written else l.written + data) && (answer == Answer.Raised ==> n == l)
  {
  }

  lemma OnlyWritesWrite(l: Link, e: Streams.Event)
    requires Streams.Enabled(l, e) && !e.Write?
    ensures Streams.Step(l, e).written == l.written
  {
    match e {
      case Writable(sent) => DrainsWriteNothing(l, sent);
      case _ => hide AfterWritable;
    }
  }

  lemma DrainsWriteNothing(l: Link, sent: Streams.Send)
    requires Streams.Enabled(l, Writable(sent))
    ensures AfterWritable(l, sent).written == l.written
  {
  }

  /** The bytes that have arrived are a front part of the encoding of what was sent. */
  lemma {:induction false} ArrivedIsAPrefix(s: System)
    requires SenderSide(s)
    ensures s.received + s.flight <= EncodeAll(s.sent) && s.received <= EncodeAll(s.sent)
  {
    assert s.received <= s.received + s.flight;
  }

  // ---------- the receiving side ----------

  lemma LinkMoves(c: Conn, link: Link, received: seq<byte>, sent: seq<Parcel>)
    requires ReceiverSide(c, received, sent) && Regular(link)
    requires (c.link.state == Closed ==> link.state == Closed) && (link.reading ==> c.link.reading)
    ensures ReceiverSide(WithLink(c, link), received, sent)
  {
    hide Parsed, Sound;
    if Sound(c.handler) { StepIsSoundIffCareful(c.handler, Handlers.CallClose); }
  }

  lemma HandlerMoves(c: Conn, e: Handlers.Event<Parcel>, received: seq<byte>, sent: seq<Parcel>)
    requires ReceiverSide(c, received, sent) && !e.Submit? && !e.CallClose? && Handlers.Enabled(c.handler, e)
    ensures ReceiverSide(c.(handler := Handlers.Step(c.handler, e)), received, sent)
  {
    hide Regular, Sound, Feed, NextParcel;
    if Sound(c.handler) { StepIsSoundIffCareful(c.handler, e); }
    Handlers.StepExtends(c.handler, e);
    OnlySubmitSubmits(c.handler, e);
  }

  lemma OnlySubmitSubmits(h: Serial<Parcel>, e: Handlers.Event<Parcel>)
    requires Handlers.Enabled(h, e) && !e.Submit? && !e.CallClose?
    ensures Handlers.Step(h, e).submitted == h.submitted
    ensures (h.closed ==> Handlers.Step(h, e).closed) && (Handlers.Step(h, e).closed ==> h.closed || Handlers.Step(h, e).pc.Stopped?)
    ensures h.pc.Stopped? ==> Handlers.Step(h, e).pc.Stopped? && Handlers.Step(h, e).started == h.started
  {
    match e {
      case Pop =>
      case Report(_) =>
      case _ =>
    }
  }

  lemma {:induction false} DataMoves(c: Conn, data: seq<byte>, received: seq<byte>, sent: seq<Parcel>)
    requires ReceiverSide(c, received, sent) && c.link.reading
    requires AllPackable(sent) && received + data <= EncodeAll(sent)
    ensures ReceiverSide(AfterData(c, data), received + data, sent)
    ensures AfterData(c, data).link.reading || Feed(received + data).Failure?
  {
    assert c.link.state == Opened;
    hide Regular, Sound, Parsed, SubmitAll, EncodeAll, Feed, Continued;
    ParsedGoesOn(c.kept, received, c.handler.submitted, data);
    match Feed(c.kept + data) {
      case Failure => RefusedCloses(c, data, received + data, sent);
      case Success((n, ps)) =>
        SubmitAllSubmits(c.handler, ps);
        FeedFindsAPrefix(sent, received + data);
    }
  }

  /** Feeding what was kept with the new data is feeding everything. */
  lemma {:induction false} ParsedGoesOn(kept: seq<byte>, received: seq<byte>, submitted: seq<Parcel>, data: seq<byte>)
    requires Parsed(kept, received, submitted)
    ensures match Feed(kept + data) {
      case Failure => Feed(received + data).Failure?
      case Success((n, ps)) =>
        && Parsed((kept + data)[n..], received + data, submitted + ps)
        && Feed(received + data).Success? && Feed(received + data).value.1 == submitted + ps
    }
  {
    hide NextParcel, Feed;
    FeedInTwoSteps(received, data);
    if Feed(kept + data).Success? {
      var (n, ps) := Feed(kept + data).value;
      FeedIsSound(kept + data);
      Dropped(received, data, |received| - |kept|, n);
    }
  }

  lemma RefusedCloses(c: Conn, data: seq<byte>, received: seq<byte>, sent: seq<Parcel>)
    requires Regular(c.link) && SafeHandler(c.handler) && c.handler.submitted <= sent && c.link.reading
    ensures var n := WithLink(c.(kept := c.kept + data), AfterForceClose(c.link));
      ReceiverSide(n, received, sent)
  {
    hide Sound, Parsed;
    if Sound(c.handler) { StepIsSoundIffCareful(c.handler, Handlers.CallClose); }
    StepIsRegular(c.link, CallForceClose);
  }

  lemma EventMoves(c: Conn, e: Streams.Event, received: seq<byte>, sent: seq<Parcel>)
    requires ReceiverSide(c, received, sent) && Streams.Enabled(c.link, e) && Streams.Careful(c.link, e)
    ensures ReceiverSide(WithLink(c, Streams.Step(c.link, e)), received, sent)
  {
    StepIsRegular(c.link, e);
    Streams.StepExtends(c.link, e);
    assert Regular(c.link);
    var link := Streams.Step(c.link, e);
    assert link.reading ==> link.state == Opened;
    assert link.state == Opened ==> c.link.state == Opened;
    hide Streams.Step, Regular, Streams.Careful, Streams.Enabled;
    LinkMoves(c, link, received, sent);
  }

  lemma ShutdownMoves(c: Conn, received: seq<byte>, sent: seq<Parcel>)
    requires ReceiverSide(c, received, sent)
    ensures ReceiverSide(c.(handler := Handlers.AfterShutdown(c.handler)), received, sent)
  {
    hide ReceiverSide;
    HandlerMoves(c, Handlers.CallShutdown, received, sent);
  }

  lemma EofMoves(c: Conn, received: seq<byte>, sent: seq<Parcel>)
    requires ReceiverSide(c, received, sent) && c.link.reading
    ensures ReceiverSide(AfterEof(c), received, sent)
  {
    hide ReceiverSide, Handlers.AfterShutdown;
    ShutdownMoves(c, received, sent);
    EventMoves(c.(handler := Handlers.AfterShutdown(c.handler)), Readable(Ended(true)), received, sent);
  }

  lemma CloseMoves(c: Conn, received: seq<byte>, sent: seq<Parcel>)
    requires ReceiverSide(c, received, sent)
    ensures ReceiverSide(AfterCloseCall(c), received, sent)
  {
    hide ReceiverSide, Handlers.AfterShutdown;
    ShutdownMoves(c, received, sent);
    if c.link.state != Closed {
      EventMoves(c.(handler := Handlers.AfterShutdown(c.handler)), Streams.CallClose, received, sent);
    }
  }

  lemma {:induction false} ReceiverSideIsKept(s: System, a: Action)
    requires Consistent(s) && Possible(s, a)
    ensures var n := Next(s, a); ReceiverSide(n.receiver, n.received, n.sent)
  {
    var c := s.receiver;
    ArrivedIsAPrefix(s);
    match a {
      case Arrive(n) =>
        assert s.received + s.flight[..n] <= s.received + s.flight;
        DataMoves(c, s.flight[..n], s.received, s.sent);
      case Eof => EofMoves(c, s.received, s.sent);
      case CloseReceiver => CloseMoves(c, s.received, s.sent);
      case ReceiverEvent(e) => EventMoves(c, e, s.received, s.sent);
      case HandlerEvent(e) => HandlerMoves(c, e, s.received, s.sent);
      case Send(_, _) => SenderSideIsKept(s, a);
      case SenderEvent(_) => SenderSideIsKept(s, a);
    }
  }

  // ---------- every run ----------

  ghost predicate Runs(s: System, actions: seq<Action>, end: System)
    decreases |actions|
  {
    if actions == [] then s == end
    else Regular(s.sender) && Possible(s, actions[0]) && Runs(Next(s, actions[0]), actions[1..], end)
  }

  /** Started tasks are always for a front part of the messages sent, in order: none split, lost or repeated. */
  lemma {:induction false} StartedIsAPrefixOfSent(s: System, actions: seq<Action>, end: System)
    requires Consistent(s) && Runs(s, actions, end)
    ensures Consistent(end) && end.receiver.handler.started <= end.sent && s.sent <= end.sent
    decreases |actions|
  {
    if actions == [] {
      hide SenderSide;
      HandledInOrder(s);
    } else {
      hide SenderSide, ReceiverSide, Possible, Next;
      SenderSideIsKept(s, actions[0]);
      ReceiverSideIsKept(s, actions[0]);
      StartedIsAPrefixOfSent(Next(s, actions[0]), actions[1..], end);
    }
  }

  lemma HandledInOrder(s: System)
    requires ReceiverSide(s.receiver, s.received, s.sent)
    ensures s.receiver.handler.started <= s.sent
  {
    var h := s.receiver.handler;
    assert h.started <= h.submitted;
  }

  lemma {:induction false} StartIsConsistent(strict: bool)
    ensures Consistent(START.(receiver := Conn(FRESH, [], Handlers.Fresh(strict))))
  {
    var h: Serial<Parcel> := Handlers.Fresh(strict);
    assert Queue(h.submitted, 0, None) == [];
    assert Sound(h);
  }

  /** When everything has come to rest and nobody has closed, every message sent has been handled. */
  lemma {:induction false} AtRestEverythingIsHandled(s: System)
    requires Consistent(s) && AllAccepted(s.sent)
    requires s.sender.buffer == [] && !s.sender.forced && s.flight == []
    requires s.receiver.link.reading && !s.receiver.handler.closed
    requires s.receiver.handler.pc.Parked? && !s.receiver.handler.event
    ensures s.receiver.handler.started == s.sent && s.receiver.handler.finished == |s.sent| && s.receiver.kept == []
  {
    var h := s.receiver.handler;
    assert s.received == EncodeAll(s.sent) by {
      assert s.received + [] == s.received;
      assert s.sender.accepted + [] == s.sender.accepted;
    }
    assert Sound(h);
    assert s.received + [] == s.received;
    FeedIsComplete(s.sent, []);
    AsleepMeansAllIsDone(h);
  }

  /** Without oversize packets the receiver never closes because of what it is sent. */
  lemma {:induction false} ArrivingDataIsNotRefused(s: System, n: nat)
    requires Consistent(s) && AllAccepted(s.sent) && Possible(s, Arrive(n))
    ensures Next(s, Arrive(n)).receiver.link == s.receiver.link
  {
    ArrivedIsAPrefix(s);
    assert Parsed(s.receiver.kept, s.received, s.receiver.handler.submitted);
    hide Regular, Feed, NextParcel, EncodeAll, Continued, SubmitAll, SafeHandler, SenderSide, ReceiverSide, Parsed;
    var data := s.flight[..n];
    assert s.received + data <= s.received + s.flight;
    assert s.received + data <= EncodeAll(s.sent);
    NoPartIsRefused(s.sent, s.received + data);
    ParsedGoesOn(s.receiver.kept, s.received, s.receiver.handler.submitted, data);
  }

  /** Data that is refused closes the receiver by force, and nothing else of it does. */
  lemma {:induction false} ArrivalClosesIff(s: System, n: nat)
    requires Consistent(s) && Possible(s, Arrive(n))
    ensures var c := Next(s, Arrive(n)).receiver;
      && (c.link == s.receiver.link <==> Feed(s.received + s.flight[..n]).Success?)
      && (c.link != s.receiver.link ==> c.link.state == Closed && c.link.forced && c.handler.closed && c.kept == [])
  {
    var data := s.flight[..n];
    assert Parsed(s.receiver.kept, s.received, s.receiver.handler.submitted);
    assert s.receiver.link.state == Opened && s.receiver.link.attached && !s.receiver.link.forced;
    hide Regular, Feed, NextParcel, EncodeAll, Continued, SubmitAll, SafeHandler, SenderSide, ReceiverSide, Parsed;
    ParsedGoesOn(s.receiver.kept, s.received, s.receiver.handler.submitted, data);
  }

  // ---------- everything can arrive ----------

  /** A message is sent exactly if its sizes fit the header and the sender has its socket, or something to send. */
  lemma {:induction false} SentIff(s: System, p: Parcel, outcome: Streams.Send)
    requires Consistent(s) && Possible(s, Send(p, outcome))
    ensures Next(s, Send(p, outcome)).sent
      == s.sent + if |p.meta| < 0x1_0000 && |p.payload| < 0x1_0000 && (s.sender.attached || s.sender.buffer != []) then [p] else []
  {
    hide Regular, Frame;
  }

  /** A close call of the receiver is always possible; it stops the reading and shuts the handler down, unless that is closed. */
  lemma CloseReceiverStopsReading(s: System)
    requires Consistent(s)
    ensures Possible(s, CloseReceiver)
    ensures var c := Next(s, CloseReceiver).receiver; !c.link.reading && (c.handler.closing || c.link.state == Closed)
  {
  }

  /** All that is in the buffer of the sender goes out at once. */
  lemma {:induction false} AllGoesOut(s: System) returns (actions: seq<Action>, end: System)
    requires Consistent(s) && Safe(s.sender) && !s.sender.forced
    ensures Runs(s, actions, end) && Consistent(end) && end.receiver == s.receiver && end.sent == s.sent
    ensures end.received + end.flight == EncodeAll(end.sent)
  {
    var drain := SenderEvent(Writable(Sent(|s.sender.buffer|)));
    if s.sender.buffer == [] {
      assert s.sender.accepted + [] == s.sender.accepted;
      actions, end := [], s;
    } else {
      WritableConserves(s.sender, Sent(|s.sender.buffer|));
      SenderSideIsKept(s, drain);
      ReceiverSideIsKept(s, drain);
      end := Next(s, drain);
      assert end.sender.buffer == [] && !end.sender.forced;
      assert end.sender.accepted + [] == end.sender.accepted;
      actions := SingleAction(s, drain);
    }
  }

  lemma {:induction false} SingleAction(s: System, a: Action) returns (actions: seq<Action>)
    requires Regular(s.sender) && Possible(s, a)
    ensures actions == [a] && Runs(s, actions, Next(s, a))
  {
    actions := [a];
    assert actions[1..] == [];
    assert Runs(Next(s, a), actions[1..], Next(s, a));
  }

  /** All that is in flight arrives at once, and every message sent is submitted. */
  lemma {:induction false} AllArrives(s: System) returns (actions: seq<Action>, end: System)
    requires Consistent(s) && AllAccepted(s.sent) && s.receiver.link.reading && s.received + s.flight == EncodeAll(s.sent)
    ensures Runs(s, actions, end) && Consistent(end) && end.sent == s.sent && end.receiver.handler.submitted == s.sent
    ensures end.receiver.link == s.receiver.link && end.receiver.handler.pc == s.receiver.handler.pc
    ensures end.receiver.handler.closed == s.receiver.handler.closed && end.receiver.handler.strict == s.receiver.handler.strict
    ensures s.receiver.handler.shutAt.None? ==> end.receiver.handler.shutAt.None?
  {
    if s.flight == [] {
      assert s.received + [] == s.received;
      actions, end := [], s;
    } else {
      var a := Arrive(|s.flight|);
      assert s.flight[..|s.flight|] == s.flight;
      assert Regular(s.sender);
      ArrivingDataIsNotRefused(s, |s.flight|);
      SenderSideIsKept(s, a);
      ReceiverSideIsKept(s, a);
      end := Next(s, a);
      ArrivalKeepsTheHandler(s);
      actions := SingleAction(s, a);
    }
    assert Parsed(end.receiver.kept, end.received, end.receiver.handler.submitted);
    hide SenderSide, ReceiverSide, Parsed, Next, NextParcel;
    EverythingIsParsed(end.receiver.kept, end.received, end.receiver.handler.submitted, end.sent);
  }

  lemma {:induction false} EverythingIsParsed(kept: seq<byte>, received: seq<byte>, submitted: seq<Parcel>, sent: seq<Parcel>)
    requires Parsed(kept, received, submitted) && AllAccepted(sent) && received == EncodeAll(sent)
    ensures submitted == sent
  {
    assert received + [] == received;
    EndIsIncomplete();
    FeedIsComplete(sent, []);
  }

  lemma {:induction false} ArrivalKeepsTheHandler(s: System)
    requires Consistent(s) && Possible(s, Arrive(|s.flight|)) && Next(s, Arrive(|s.flight|)).receiver.link == s.receiver.link
    requires s.receiver.link.reading
    ensures var h, n := s.receiver.handler, Next(s, Arrive(|s.flight|)).receiver.handler;
      n.pc == h.pc && n.closed == h.closed && n.strict == h.strict && (h.shutAt.None? ==> n.shutAt.None?)
  {
    var fed := Feed(s.receiver.kept + s.flight[..|s.flight|]);
    if fed.Success? {
      SubmitAllSubmits(s.receiver.handler, fed.value.1);
      SubmitAllKeepsTheMark(s.receiver.handler, fed.value.1);
    }
    assert s.receiver.link.state == Opened;
    hide Feed, SubmitAll;
  }

  lemma {:induction false} SubmitAllKeepsTheMark(h: Serial<Parcel>, ps: seq<Parcel>)
    ensures SubmitAll(h, ps).shutAt == h.shutAt
    decreases |ps|
  {
    if ps != [] { SubmitAllKeepsTheMark(h, ps[..|ps| - 1]); }
  }

  /**
    While the sender has its socket in good order and the receiver reads, every message sent can still
    arrive and be handled, whatever has happened before.
   */
  lemma {:induction false} EverythingCanBeHandled(s: System) returns (actions: seq<Action>, end: System)
    requires Consistent(s) && AllAccepted(s.sent) && Safe(s.sender) && !s.sender.forced
    requires s.receiver.link.reading && !Over(s.receiver.handler) && s.receiver.handler.shutAt.None?
    ensures Runs(s, actions, end) && end.sent == s.sent && end.receiver.handler.started == s.sent
  {
    var first, out := AllGoesOut(s);
    var second, there := AllArrives(out);
    hide Consistent, Safe, AllAccepted;
    assert there.receiver.handler.shutAt.None?;
    var third, done := LoopCatchesUp(there);
    RunsOn(s, first, out, second, there);
    RunsOn(s, first + second, there, third, done);
    actions, end := first + second + third, done;
  }

  lemma {:induction false} RunsOn(s: System, a: seq<Action>, mid: System, b: seq<Action>, end: System)
    requires Runs(s, a, mid) && Runs(mid, b, end)
    ensures Runs(s, a + b, end)
    decreases |a|
  {
    if a == [] {
      assert a + b == b;
    } else {
      assert (a + b)[1..] == a[1..] + b;
      RunsOn(Next(s, a[0]), a[1..], mid, b, end);
    }
  }

  // ---------- the end of input ----------

  /** With nothing to write the final close comes at once and closes the handler; otherwise the handler is shut down. */
  lemma EndOfInputStep(c: Conn)
    requires Regular(c.link) && c.link.reading && !c.handler.closed && !c.handler.closing
    ensures AfterEof(c).handler.pending == (if c.link.buffer == [] then [] else c.handler.pending + [None])
    ensures AfterEof(c).handler.closed <==> c.link.buffer == []
    ensures AfterEof(c).link.state == if c.link.buffer == [] then Closed else Closing
  {
  }

  /** A close call shuts the handler down, whatever the stream does; with nothing to write the final close comes at once. */
  lemma CloseCallStep(c: Conn)
    requires Regular(c.link) && c.link.state != Closed && !c.handler.closing && !c.handler.closed
    ensures var n, now := AfterCloseCall(c), c.link.state == Opened && c.link.buffer == [];
      && n.handler.closing && n.handler.shutAt == Some(|c.handler.submitted|) && n.handler.submitted == c.handler.submitted
      && n.handler.pending == (if now then [] else c.handler.pending + [None])
      && (n.handler.closed <==> now) && (n.link.state == Closed <==> now) && (!now ==> n.link.state == Closing)
  {
  }

  /** Nothing submitted after a close call or the end of input ever starts, also not by others than the connection. */
  lemma {:induction false} NothingSubmittedLaterStarts(c: Conn, closed: Conn, es: seq<Handlers.Event<Parcel>>, end: Serial<Parcel>)
    requires Sound(c.handler) && Regular(c.link) && c.link.state != Closed
    requires closed == AfterCloseCall(c) || (c.link.reading && closed == AfterEof(c))
    requires Handlers.Run(closed.handler, es, end)
    ensures end.started <= c.handler.submitted
  {
    var h := Handlers.AfterShutdown(c.handler);
    StepIsSoundIffCareful(c.handler, Handlers.CallShutdown);
    StepIsSoundIffCareful(h, Handlers.CallClose);
    assert closed.handler == h || closed.handler == Handlers.AfterClose(h);
    assert h.closing && h.submitted == c.handler.submitted;
    NothingRunsAfterShutdown(closed.handler, es, end);
  }

  /** Left alone after a close call, the loop of a handler that is not over ends, and the handler is closed. */
  lemma {:induction false} CloseCallEndsTheLoop(c: Conn, fails: nat -> bool)
    requires Sound(c.handler) && Regular(c.link) && c.link.state != Closed && !Over(c.handler)
    requires !AfterCloseCall(c).handler.closed
    ensures var end := Drained(AfterCloseCall(c).handler, fails); end.closed && end.pc.Stopped?
  {
    StepIsSoundIffCareful(c.handler, Handlers.CallShutdown);
    EverythingRuns(AfterCloseCall(c).handler, fails);
  }

  /** The loop has ended, or ends without starting anything more. */
  predicate Over(h: Serial<Parcel>) {
    h.closed || h.pc.Stopped? || (h.strict && h.pc.Reporting?)
  }

  lemma OverStaysOver(h: Serial<Parcel>, e: Handlers.Event<Parcel>)
    requires SafeHandler(h) && Over(h) && Handlers.Enabled(h, e) && !e.Submit?
    ensures Over(Handlers.Step(h, e)) && Handlers.Step(h, e).started == h.started
  {
    if Sound(h) && h.closed { ClosedStartsNothing(h, e); }
    hide Sound;
  }

  lemma {:induction false} ReceiverStaysOver(s: System, a: Action)
    requires Consistent(s) && Possible(s, a) && Over(s.receiver.handler)
    ensures var c := Next(s, a).receiver;
      Over(c.handler) && c.handler.started == s.receiver.handler.started
  {
    var c := s.receiver;
    assert SafeHandler(c.handler);
    match a {
      case HandlerEvent(e) =>
        hide SafeHandler, Regular, Handlers.Step;
        OverStaysOver(c.handler, e);
      case Arrive(n) =>
        var fed := Feed(c.kept + s.flight[..n]);
        if fed.Success? { SubmitAllSubmits(c.handler, fed.value.1); }
        hide SafeHandler, Regular, SubmitAll, Feed;
      case ReceiverEvent(e) => hide SafeHandler, Regular, Streams.Step;
      case _ => hide SafeHandler, Regular;
    }
  }

  /**
    Once the loop has ended, or is about to, nothing starts in any run, also not for messages that still
    arrive: a connection goes on reading when its strict handler has closed itself.
   */
  lemma {:induction false} NothingStartsOnceOver(s: System, actions: seq<Action>, end: System)
    requires Consistent(s) && Over(s.receiver.handler) && Runs(s, actions, end)
    ensures end.receiver.handler.started == s.receiver.handler.started
    decreases |actions|
  {
    if actions != [] {
      ReceiverStaysOver(s, actions[0]);
      SenderSideIsKept(s, actions[0]);
      ReceiverSideIsKept(s, actions[0]);
      hide SenderSide, ReceiverSide, Possible, Next, Over;
      NothingStartsOnceOver(Next(s, actions[0]), actions[1..], end);
    }
  }

  /** The tasks of a receiver that are to run: one for each message submitted before the first shutdown. */
  function DueTasks(s: System): seq<Parcel>
    requires s.receiver.handler.shutAt.Some? ==> s.receiver.handler.shutAt.value <= |s.receiver.handler.submitted|
  {
    Due(s.receiver.handler)
  }

  /** If there is nothing to write at the end of input, tasks that wait never start, whatever happens afterwards. */
  lemma {:induction false} EndOfInputDropsWaitingTasks(s: System, actions: seq<Action>, end: System)
    requires Consistent(s) && Possible(s, Eof) && Runs(Next(s, Eof), actions, end)
    requires s.receiver.link.buffer == [] || Over(s.receiver.handler)
    ensures end.receiver.handler.started == s.receiver.handler.started
  {
    SenderSideIsKept(s, Eof);
    ReceiverSideIsKept(s, Eof);
    assert Regular(s.receiver.link);
    hide SenderSide, ReceiverSide;
    NothingStartsOnceOver(Next(s, Eof), actions, end);
  }

  /** The rest of the buffer goes out. */
  function Drain(s: System): Action {
    ReceiverEvent(Writable(Sent(|s.receiver.link.buffer|)))
  }

  /** If the buffer of a closing receiver drains before the handler has caught up, the tasks that still wait never start, unless the drain jams. */
  lemma {:induction false} DrainDropsWaitingTasks(s: System, actions: seq<Action>, end: System)
    requires Consistent(s) && s.receiver.link.state == Closing && Possible(s, Drain(s)) && Runs(Next(s, Drain(s)), actions, end)
    requires s.receiver.link.waiter != Waiter.Cancelled || Over(s.receiver.handler)
    ensures end.receiver.handler.started == s.receiver.handler.started
  {
    SenderSideIsKept(s, Drain(s));
    ReceiverSideIsKept(s, Drain(s));
    assert Regular(s.receiver.link);
    hide SenderSide, ReceiverSide;
    NothingStartsOnceOver(Next(s, Drain(s)), actions, end);
  }

  /** After such a drain the tasks that wait can still all start exactly if it has jammed and the loop goes on, or nothing waits. */
  lemma {:induction false} WaitingTasksSurviveDrainIff(s: System)
    requires Consistent(s) && s.receiver.link.state == Closing && Possible(s, Drain(s))
    ensures var h := s.receiver.handler;
      (exists actions, end :: Runs(Next(s, Drain(s)), actions, end) && end.receiver.handler.started == DueTasks(s))
      <==> h.started == DueTasks(s) || (s.receiver.link.waiter == Waiter.Cancelled && !Over(h))
  {
    var h := s.receiver.handler;
    var n, none: seq<Action> := Next(s, Drain(s)), [];
    SenderSideIsKept(s, Drain(s));
    ReceiverSideIsKept(s, Drain(s));
    assert Runs(n, none, n);
    if s.receiver.link.waiter == Waiter.Cancelled && !Over(h) {
      assert n.receiver.handler == h;
      var actions, end := LoopCatchesUp(n);
    } else {
      DrainDropsWaitingTasks(s, none, n);
      hide Consistent, Next, Possible, Over;
      forall actions, end | Runs(n, actions, end)
        ensures end.receiver.handler.started == h.started
      {
        DrainDropsWaitingTasks(s, actions, end);
      }
      if h.started == DueTasks(s) { assert Runs(n, none, n) && n.receiver.handler.started == DueTasks(s); }
    }
  }

  /** Steps of the loop alone are possible in the whole system. */
  lemma {:induction false} LoopRunsAlone(s: System, es: seq<Handlers.Event<Parcel>>, h: Serial<Parcel>) returns (actions: seq<Action>)
    requires Regular(s.sender) && Handlers.Run(s.receiver.handler, es, h)
    requires forall e :: e in es ==> e.Wake? || e.Pop? || e.End? || e.Report?
    ensures Runs(s, actions, s.(receiver := s.receiver.(handler := h)))
    decreases |es|
  {
    if es == [] { return []; }
    hide Regular, Handlers.Step, Handlers.Enabled;
    assert es[0] in es;
    var a := HandlerEvent(es[0]);
    var rest := LoopRunsAlone(Next(s, a), es[1..], h);
    actions := [a] + rest;
    assert actions[1..] == rest;
  }

  /**
    After the end of input every task that waits can still start exactly if there is something left to
    write and the loop goes on, or nothing waits.
   */
  lemma {:induction false} WaitingTasksCanStartIff(s: System)
    requires Consistent(s) && Possible(s, Eof)
    ensures var h := s.receiver.handler;
      (exists actions, end :: Runs(Next(s, Eof), actions, end) && end.receiver.handler.started == DueTasks(s))
      <==> h.started == DueTasks(s) || (s.receiver.link.buffer != [] && !Over(h))
  {
    var h := s.receiver.handler;
    if s.receiver.link.buffer != [] && !Over(h) {
      var actions, end := CatchesUp(s);
    } else {
      var n, none: seq<Action> := Next(s, Eof), [];
      assert Runs(n, none, n);
      EndOfInputDropsWaitingTasks(s, none, n);
      hide Consistent, Next, Possible, Over;
      forall actions, end | Runs(n, actions, end)
        ensures end.receiver.handler.started == h.started
      {
        EndOfInputDropsWaitingTasks(s, actions, end);
      }
      if h.started == DueTasks(s) { assert Runs(n, none, n) && n.receiver.handler.started == DueTasks(s); }
    }
  }

  lemma {:induction false} CatchesUp(s: System) returns (actions: seq<Action>, end: System)
    requires Consistent(s) && Possible(s, Eof) && s.receiver.link.buffer != [] && !Over(s.receiver.handler)
    ensures Runs(Next(s, Eof), actions, end) && end.receiver.handler.started == DueTasks(s)
  {
    var h := s.receiver.handler;
    var n := Next(s, Eof);
    assert Regular(s.receiver.link) && Sound(h);
    assert n.receiver.handler == Handlers.AfterShutdown(h);
    DueStays(h);
    SenderSideIsKept(s, Eof);
    ReceiverSideIsKept(s, Eof);
    hide Consistent, SenderSide, ReceiverSide, Handlers.AfterShutdown, Next;
    actions, end := LoopCatchesUp(n);
  }

  /** Left alone, a loop that is not over starts all that is due. */
  lemma {:induction false} LoopCatchesUp(s: System) returns (actions: seq<Action>, end: System)
    requires Consistent(s) && !Over(s.receiver.handler)
    ensures Runs(s, actions, end) && end.receiver.handler.started == DueTasks(s) && end.sent == s.sent
  {
    var h := s.receiver.handler;
    var fails: nat -> bool := _ => false;
    assert Regular(s.sender) && Sound(h);
    hide Regular, Sound;
    EverythingRuns(h, fails);
    var es := DrainingIsARun(h, fails);
    actions := LoopRunsAlone(s, es, Drained(h, fails));
    end := s.(receiver := s.receiver.(handler := Drained(h, fails)));
  }

  lemma DueStays(h: Serial<Parcel>)
    requires Sound(h) && !Over(h)
    ensures var n := Handlers.AfterShutdown(h);
      Due(n) == Due(h) && !n.closed && !n.pc.Stopped? && !(n.strict && n.pc.Reporting?)
  {
  }

  // ---------- the connection ----------

  /** A stream, its handler, and what has been received but not parsed. */
  class Connection {
    const stream: Stream
    const handler: SerialHandler<Parcel>
    var readBuffer: seq<byte>

    ghost function View(): Conn
      reads this, stream, handler
    {
      Conn(stream.View(), readBuffer, handler.View())
    }

    constructor (closeOnException: bool)
      ensures View() == Conn(FRESH, [], Handlers.Fresh(closeOnException))
      ensures fresh(stream) && fresh(handler)
    {
      stream := new Stream();
      handler := new SerialHandler(closeOnException);
      readBuffer := [];
    }

    /** The final close of the stream reaches the handler and the read buffer. */
    method FollowStream(ghost before: Conn)
      requires View() == before.(link := stream.View()) && before.link.state != Closed
      modifies this, handler
      ensures View() == WithLink(before, stream.View()) && stream.View() == old(stream.View())
    {
      if stream.state == Closed {
        handler.Close();
        readBuffer := [];
      }
    }

    method DataReceived(data: seq<byte>)
      modifies this, stream, handler
      ensures View() == AfterData(old(View()), data)
    {
      hide Feed, SubmitAll;
      readBuffer := readBuffer + data;
      var fed := FeedData(readBuffer);
      if fed.Failure? {
        ghost var before := View();
        if stream.state != Closed {
          stream.ForceClose();
          FollowStream(before);
        }
        return;
      }
      var (used, messages) := fed.value;
      readBuffer := readBuffer[used..];
      SubmitMessages(messages);
    }

    method SubmitMessages(messages: seq<Parcel>)
      modifies handler
      ensures handler.View() == SubmitAll(old(handler.View()), messages)
    {
      for i := 0 to |messages|
        invariant handler.View() == SubmitAll(old(handler.View()), messages[..i])
      {
        assert messages[..i + 1][..i] == messages[..i];
        handler.Submit(messages[i]);
      }
      assert messages[..|messages|] == messages;
    }

    /** `eof_received` shuts the handler down and asks for the stream to be kept; it closes all the same. */
    method EofReceived()
      requires stream.readerOn && stream.state != Closed
      modifies this, stream, handler
      ensures View() == AfterEof(old(View()))
    {
      handler.Shutdown();
      ghost var before := View();
      stream.OnReadable(Ended(true));
      FollowStream(before);
    }

    method Close()
      modifies this, stream, handler
      ensures View() == AfterCloseCall(old(View()))
    {
      if stream.state == Closed { return; }
      handler.Shutdown();
      ghost var before := View();
      stream.Close();
      FollowStream(before);
    }

    method OnWritable(outcome: Streams.Send)
      requires Streams.Enabled(stream.View(), Writable(outcome))
      modifies this, stream, handler
      ensures View() == WithLink(old(View()), AfterWritable(old(stream.View()), outcome))
    {
      ghost var before := View();
      var wasClosed := stream.state == Closed;
      stream.OnWritable(outcome);
      if !wasClosed { FollowStream(before); }
    }

    /** `send_message`: a message that does not fit the header is refused before anything is written. */
    method SendMessage(p: Parcel, outcome: Streams.Send) returns (answer: Answer)
      requires Packable(p) ==> Streams.Enabled(stream.View(), Write(Frame(p.meta, p.payload), outcome))
      modifies this, stream, handler
      ensures answer == if !Packable(p) then Answer.Raised else
        AfterWrite(old(stream.View()), Frame(p.meta, p.payload), outcome).1
      ensures View() == if !Packable(p) then old(View()) else
        WithLink(old(View()), AfterWrite(old(stream.View()), Frame(p.meta, p.payload), outcome).0)
    {
      var data := EncodeParcel(p);
      if data.Failure? { return Answer.Raised; }
      ghost var before := View();
      var wasClosed := stream.state == Closed;
      answer := stream.WriteSync(data.value, outcome);
      if !wasClosed { FollowStream(before); }
    }
  }
}
