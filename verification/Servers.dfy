/**
  A channel with the transports of its connections: closing the channel shuts them down, and the final
  close of a transport is a connection lost to the channel.
 */
module Servers {
  import Channels
  import Streams

  datatype Server = Server(channel: Channels.Snapshot, links: map<nat, Streams.Link>)

  datatype Event = OnLink(id: nat, event: Streams.Event)

  /** The channel closes; one that has been started or paused shuts its connections down first. */
  function AfterClose(s: Server): Server {
    Server(Channels.AfterClose(s.channel),
           if s.channel.state == Channels.Started || s.channel.state == Channels.Paused
           then map id | id in s.links :: Streams.AfterShutdown(s.links[id]) else s.links)
  }

  predicate Enabled(s: Server, e: Event) {
    e.id in s.links && e.id in s.channel.transports && Streams.Enabled(s.links[e.id], e.event)
  }

  function Step(s: Server, e: Event): Server
    requires Enabled(s, e)
  {
    var l := Streams.Step(s.links[e.id], e.event);
    if l.state == Streams.Closed then Server(Channels.AfterLost(s.channel, e.id), s.links - {e.id})
    else s.(links := s.links[e.id := l])
  }

  ghost predicate Run(s: Server, es: seq<Event>, end: Server)
    decreases |es|
  {
    if es == [] then s == end else Enabled(s, es[0]) && Run(Step(s, es[0]), es[1..], end)
  }

  /** The channel is safe and has exactly the connections whose transports are there. */
  ghost predicate Joined(s: Server) {
    Channels.Safe(s.channel) && s.channel.limit > 0 && s.links.Keys == s.channel.transports
  }

  ghost predicate Live(s: Server) {
    Joined(s) && forall id :: id in s.links ==> Streams.Safe(s.links[id]) && s.links[id].state != Streams.Closed
  }

  /** An error of the reading side of this connection, or a forced close of it. */
  predicate Breaks(e: Event, id: nat) {
    e.id == id && Streams.Breaks(e.event)
  }

  lemma StepStaysJoined(s: Server, e: Event)
    requires Joined(s) && s.channel.closeCalled && Enabled(s, e)
    ensures Joined(Step(s, e)) && Step(s, e).channel.closeCalled
  {
    hide Streams.Step, Streams.Enabled;
    Channels.StepIsSafeIffCareful(s.channel, Channels.Lost(e.id));
    Channels.ClosedShrinks(s.channel, Channels.Lost(e.id));
  }

  /** A connection with unsent data that has been shut down stays, unless it is broken. */
  lemma {:induction false} StrandedConnectionStays(s: Server, id: nat, es: seq<Event>, end: Server)
    requires Joined(s) && s.channel.closeCalled && id in s.links && Streams.Stranded(s.links[id]) && Run(s, es, end)
    requires forall i :: 0 <= i < |es| ==> !Breaks(es[i], id)
    ensures Joined(end) && end.channel.closeCalled && id in end.links && end.channel.state != Channels.Closed
    decreases |es|
  {
    assert id in s.channel.transports;
    if es != [] {
      StepStaysJoined(s, es[0]);
      if es[0].id == id { Streams.StrandedStep(s.links[id], es[0].event); }
      hide Joined, Streams.Step, Streams.Enabled;
      StrandedConnectionStays(Step(s, es[0]), id, es[1..], end);
    }
  }

  lemma ShutdownStrands(l: Streams.Link)
    requires Streams.Safe(l) && l.state != Streams.Closed
    ensures var n := Streams.AfterShutdown(l);
      if l.buffer == [] then Streams.Safe(n) && n.state == Streams.Opened else Streams.Stranded(n)
  {
  }

  lemma CloseStaysJoined(s: Server)
    requires Joined(s) && (s.channel.state == Channels.Started || s.channel.state == Channels.Paused)
    ensures Joined(AfterClose(s)) && AfterClose(s).channel.closeCalled && AfterClose(s).links.Keys == s.links.Keys
  {
    Channels.CloseIsSafe(s.channel);
    Channels.ClosingShutsDown(s.channel);
  }

  /** Only a started or paused channel stops its connections from sending when it closes. */
  lemma CloseStopsSendingIff(s: Server, id: nat)
    requires Live(s) && id in s.links && s.links[id].buffer != []
    ensures id in AfterClose(s).links
    ensures !AfterClose(s).links[id].writing <==> s.channel.state == Channels.Started || s.channel.state == Channels.Paused
  {
  }

  /** Before that a connection can send what it has and be closed in order, and then it is lost to the channel. */
  lemma ConnectionSendsAndCloses(s: Server, id: nat)
    requires Live(s) && id in s.links && s.links[id].state == Streams.Opened && s.links[id].buffer != []
    ensures var drain := OnLink(id, Streams.Writable(Streams.Sent(|s.links[id].buffer|)));
      && Enabled(s, drain)
      && var sent := Step(s, drain);
        && id in sent.links && sent.links[id].accepted == s.links[id].accepted + s.links[id].buffer
        && sent.channel == s.channel && Enabled(sent, OnLink(id, Streams.CallClose))
        && var lost := Step(sent, OnLink(id, Streams.CallClose));
          id !in lost.links && lost.channel == Channels.AfterLost(s.channel, id)
  {
    assert s.links[id].buffer[..|s.links[id].buffer|] == s.links[id].buffer;
  }

  /** After the close of a started or paused channel it is finally closed only if every connection that had unsent data has been broken. */
  lemma {:induction false} FinallyClosedOnlyIfBroken(s: Server, es: seq<Event>, end: Server, id: nat)
    requires Live(s) && (s.channel.state == Channels.Started || s.channel.state == Channels.Paused)
    ensures Run(AfterClose(s), es, end) && end.channel.state == Channels.Closed && id in s.links && s.links[id].buffer != [] ==>
      exists i :: 0 <= i < |es| && Breaks(es[i], id)
  {
    if Run(AfterClose(s), es, end) && id in s.links && s.links[id].buffer != []
      && forall i :: 0 <= i < |es| ==> !Breaks(es[i], id)
    {
      CloseStaysJoined(s);
      ShutdownStrands(s.links[id]);
      StrandedConnectionStays(AfterClose(s), id, es, end);
    }
  }

  /** It can be finally closed without breaking any connection exactly if none had unsent data. */
  lemma {:induction false} CanCloseInOrderIff(s: Server)
    requires Live(s) && (s.channel.state == Channels.Started || s.channel.state == Channels.Paused)
    ensures (exists es, end :: Run(AfterClose(s), es, end) && Orderly(es) && end.channel.state == Channels.Closed)
      <==> forall id :: id in s.links ==> s.links[id].buffer == []
  {
    if id :| id in s.links && s.links[id].buffer != [] {
      forall es, end | Run(AfterClose(s), es, end) && Orderly(es)
        ensures end.channel.state != Channels.Closed
      {
        if end.channel.state == Channels.Closed { FinallyClosedOnlyIfBroken(s, es, end, id); }
      }
    } else {
      CloseStaysJoined(s);
      forall id | id in s.links
        ensures Ready(AfterClose(s).links[id])
      {
        ShutdownStrands(s.links[id]);
      }
      hide Joined, AfterClose;
      var es, end := ClosesAll(AfterClose(s));
    }
  }

  ghost predicate Orderly(es: seq<Event>) {
    forall i :: 0 <= i < |es| ==> !Streams.Breaks(es[i].event)
  }

  predicate Ready(l: Streams.Link) {
    l.state == Streams.Opened && l.buffer == []
  }

  lemma {:induction false} ClosesAll(s: Server) returns (es: seq<Event>, end: Server)
    requires Joined(s) && s.channel.closeCalled && forall id :: id in s.links ==> Ready(s.links[id])
    ensures Run(s, es, end) && Orderly(es) && end.channel.state == Channels.Closed
    decreases |s.links|
  {
    if s.links == map[] {
      assert s.channel.transports == {};
      return [], s;
    }
    var id :| id in s.links;
    var e := OnLink(id, Streams.CallClose);
    StepStaysJoined(s, e);
    hide Joined;
    var rest;
    rest, end := ClosesAll(Step(s, e));
    es := [e] + rest;
    assert es[1..] == rest;
  }
}
