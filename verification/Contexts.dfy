/**
  The calls of a connection. Each end numbers the calls it opens, one with odd and the other with
  even numbers, and keeps a table of the calls that are open.
 */
module Contexts {
  import opened Results

  const MAX_TRANSMISSION_ID := 0x1_0000_0000 - 1

  datatype Kind = Inbound | Outbound

  /** The fields of one end, and how many numbers it has given away. */
  datatype Table = Table(initiative: bool, nextId: nat, open: map<nat, Kind>, given: nat)

  function First(initiative: bool): nat {
    if initiative then 1 else 2
  }

  function Fresh(initiative: bool): Table {
    Table(initiative, First(initiative), map[], 0)
  }

  /** Numbers of this end's own calls. */
  predicate Own(t: Table, id: nat) {
    id % 2 == First(t.initiative) % 2
  }

  // ---------- operations ----------

  /** A new call: its number, or nothing once the numbers are used up. */
  function Opened(t: Table): (r: Result<(nat, Table)>)
    ensures r.Success? <==> t.nextId <= MAX_TRANSMISSION_ID
  {
    if t.nextId > MAX_TRANSMISSION_ID then Failure
    else Success((t.nextId, t.(nextId := t.nextId + 2, open := t.open[t.nextId := Outbound], given := t.given + 1)))
  }

  /** A call of the other end. Only the passive end looks at its number. */
  function Received(t: Table, id: nat): (r: Result<Table>)
    ensures r.Success? <==> id !in t.open && (t.initiative || id % 2 == 1)
  {
    if id in t.open || (!t.initiative && id % 2 != 1) then Failure
    else Success(t.(open := t.open[id := Inbound]))
  }

  function Released(t: Table, id: nat): Table {
    t.(open := t.open - {id})
  }

  // ---------- one end, whatever the other sends ----------

  /** No number that will still be given away is in use. */
  ghost predicate Safe(t: Table) {
    && t.nextId == First(t.initiative) + 2 * t.given <= MAX_TRANSMISSION_ID + 2
    && forall id :: id in t.open && Own(t, id) ==> id < t.nextId
  }

  datatype Event = Open | Receive(id: nat) | Release(id: nat)

  function Step(t: Table, e: Event): Table {
    match e
    case Open => (match Opened(t) case Success((_, n)) => n case Failure => t)
    case Receive(id) => (match Received(t, id) case Success(n) => n case Failure => t)
    case Release(id) => Released(t, id)
  }

  /** The initiative end takes any number from the other; one it would have given away itself later is harmful. */
  lemma StepIsSafeIff(t: Table, e: Event)
    requires Safe(t)
    ensures Safe(Step(t, e)) <==> !(e.Receive? && t.initiative && e.id % 2 == 1 && e.id >= t.nextId && e.id !in t.open)
  {
    var n := Step(t, e);
    if e.Receive? && t.initiative && e.id % 2 == 1 && e.id >= t.nextId && e.id !in t.open {
      assert e.id in n.open && Own(n, e.id);
    }
  }

  /** A new call never takes the place of an open one. */
  lemma OpeningOverwritesNothing(t: Table)
    requires Safe(t) && Opened(t).Success?
    ensures var (id, n) := Opened(t).value;
      id !in t.open && Own(t, id) && id <= MAX_TRANSMISSION_ID && n.open == t.open[id := Outbound]
  {
    var (id, _) := Opened(t).value;
    assert id in t.open && Own(t, id) ==> id < t.nextId;
  }

  /** Numbers last for 2^31 calls of the initiative end and one less of the passive end. */
  lemma NumbersLast(t: Table)
    requires Safe(t)
    ensures Opened(t).Success? <==> t.given < 0x8000_0000 - if t.initiative then 0 else 1
    ensures Opened(t).Success? ==> Opened(t).value.0 == First(t.initiative) + 2 * t.given
  {
  }

  /** A received call is open as one of the other end until it is released, and nothing else changes. */
  lemma ReceivedUntilReleased(t: Table, id: nat)
    requires id !in t.open && (t.initiative || id % 2 == 1)
    ensures var n := Step(t, Receive(id));
      && id in n.open && n.open[id] == Inbound && n.open.Keys == t.open.Keys + {id}
      && Step(n, Release(id)) == t && Step(n, Receive(id)) == n
  {
    assert t.open[id := Inbound] - {id} == t.open;
  }

  function Run(t: Table, es: seq<Event>): Table
    decreases |es|
  {
    if es == [] then t else Run(Step(t, es[0]), es[1..])
  }

  /** A sequence of events is one event after the other. */
  lemma {:induction false} RunInParts(t: Table, a: seq<Event>, b: seq<Event>, e: Event)
    ensures Run(t, a + b) == Run(Run(t, a), b) && Run(t, [e]) == Step(t, e)
    decreases |a|
  {
    assert [e][1..] == [];
    if a == [] {
      assert a + b == b;
    } else {
      assert (a + b)[1..] == a[1..] + b;
      RunInParts(Step(t, a[0]), a[1..], b, e);
    }
  }

  /** In no step of these events a number is received too early. */
  ghost predicate SafeRun(t: Table, es: seq<Event>)
    decreases |es|
  {
    Safe(t) && (es == [] || SafeRun(Step(t, es[0]), es[1..]))
  }

  lemma {:induction false} PassiveRunIsSafe(t: Table, es: seq<Event>)
    requires Safe(t) && !t.initiative
    ensures SafeRun(t, es)
    decreases |es|
  {
    if es != [] {
      StepIsSafeIff(t, es[0]);
      PassiveRunIsSafe(Step(t, es[0]), es[1..]);
    }
  }

  /** The passive end is safe from anything the other end sends. */
  lemma {:induction false} PassiveEndIsAlwaysSafe(t: Table, es: seq<Event>)
    requires Safe(t) && !t.initiative
    ensures Safe(Run(t, es)) && !Run(t, es).initiative && Run(t, es).nextId >= t.nextId
    decreases |es|
  {
    if es != [] {
      StepIsSafeIff(t, es[0]);
      PassiveEndIsAlwaysSafe(Step(t, es[0]), es[1..]);
    }
  }

  /** The initiative end is not: a number sent too early is in use when it is given away, and its call is overwritten. */
  lemma EarlyNumberIsOverwritten(t: Table)
    requires Safe(t) && t.initiative && Opened(t).Success? && t.nextId !in t.open
    ensures var r := Step(t, Receive(t.nextId));
      r.open[t.nextId] == Inbound && Step(r, Open).open == r.open[t.nextId := Outbound]
  {
  }

  // ---------- two ends ----------

  /** Two ends, and the numbers of the calls that are on their way to each. */
  datatype Pair = Pair(initiative: Table, passive: Table, toInitiative: set<nat>, toPassive: set<nat>)

  const START := Pair(Fresh(true), Fresh(false), {}, {})

  datatype Action =
    | OpenInitiative
    | OpenPassive
    | ArriveInitiative(id: nat)
    | ArrivePassive(id: nat)
    | ReleaseInitiative(id: nat)
    | ReleasePassive(id: nat)

  /** An opened call reaches the other end once, if at all, and in any order. */
  predicate Possible(p: Pair, a: Action) {
    match a
    case ArriveInitiative(id) => id in p.toInitiative
    case ArrivePassive(id) => id in p.toPassive
    case _ => true
  }

  function Next(p: Pair, a: Action): Pair
    requires Possible(p, a)
  {
    match a
    case OpenInitiative =>
      (match Opened(p.initiative)
       case Success((id, n)) => p.(initiative := n, toPassive := p.toPassive + {id})
       case Failure => p)
    case OpenPassive =>
      (match Opened(p.passive)
       case Success((id, n)) => p.(passive := n, toInitiative := p.toInitiative + {id})
       case Failure => p)
    case ArriveInitiative(id) =>
      p.(initiative := Step(p.initiative, Receive(id)), toInitiative := p.toInitiative - {id})
    case ArrivePassive(id) =>
      p.(passive := Step(p.passive, Receive(id)), toPassive := p.toPassive - {id})
    case ReleaseInitiative(id) => p.(initiative := Released(p.initiative, id))
    case ReleasePassive(id) => p.(passive := Released(p.passive, id))
  }

  /** What has been sent to t, and what of that it has in its table, carries numbers the peer has given away. */
  ghost predicate Agrees(t: Table, peer: Table, coming: set<nat>) {
    && Safe(t)
    && (forall id :: id in t.open ==> (Own(t, id) <==> t.open[id] == Outbound))
    && (forall id :: id in t.open && !Own(t, id) ==> id < peer.nextId && id !in coming)
    && (forall id :: id in coming ==> !Own(t, id) && id < peer.nextId)
  }

  ghost predicate Consistent(p: Pair) {
    && p.initiative.initiative && !p.passive.initiative
    && Agrees(p.initiative, p.passive, p.toInitiative)
    && Agrees(p.passive, p.initiative, p.toPassive)
  }

  lemma ActionIsConsistent(p: Pair, a: Action)
    requires Consistent(p) && Possible(p, a)
    ensures Consistent(Next(p, a))
  {
    match a {
      case OpenInitiative => OpeningAgrees(p.initiative, p.passive, p.toInitiative, p.toPassive);
      case OpenPassive => OpeningAgrees(p.passive, p.initiative, p.toPassive, p.toInitiative);
      case ArriveInitiative(id) => ArrivingAgrees(p.initiative, p.passive, p.toInitiative, id);
      case ArrivePassive(id) => ArrivingAgrees(p.passive, p.initiative, p.toPassive, id);
      case _ =>
    }
  }

  lemma OpeningAgrees(t: Table, peer: Table, coming: set<nat>, going: set<nat>)
    requires t.initiative != peer.initiative && Agrees(t, peer, coming) && Agrees(peer, t, going)
    ensures Opened(t).Success? ==>
      var (id, n) := Opened(t).value; Agrees(n, peer, coming) && Agrees(peer, n, going + {id})
  {
    StepIsSafeIff(t, Open);
  }

  lemma ArrivingAgrees(t: Table, peer: Table, coming: set<nat>, id: nat)
    requires t.initiative != peer.initiative && Agrees(t, peer, coming) && id in coming
    ensures Received(t, id).Success? && Agrees(Received(t, id).value, peer, coming - {id})
  {
    StepIsSafeIff(t, Receive(id));
  }

  /** A call of the initiative end is open there, then on its way, then open at both ends, and is closed at each end by itself. */
  lemma InitiativeCallGoesThrough(p: Pair)
    requires Consistent(p) && p.initiative.nextId <= MAX_TRANSMISSION_ID
    ensures var id := p.initiative.nextId;
      var sent := Next(p, OpenInitiative);
      && id in sent.initiative.open && id in sent.toPassive && id !in sent.passive.open
      && var there := Next(sent, ArrivePassive(id));
        && id in there.passive.open && there.passive.open[id] == Inbound && id !in there.toPassive
        && id in there.initiative.open && there.initiative.open[id] == Outbound
        && id !in Next(there, ReleasePassive(id)).passive.open && id in Next(there, ReleasePassive(id)).initiative.open
        && id !in Next(there, ReleaseInitiative(id)).initiative.open && id in Next(there, ReleaseInitiative(id)).passive.open
  {
    ActionIsConsistent(p, OpenInitiative);
    WhatComesIsWelcome(Next(p, OpenInitiative));
    NextIsFree(p.initiative);
  }

  /** And so is one of the passive end. */
  lemma PassiveCallGoesThrough(p: Pair)
    requires Consistent(p) && p.passive.nextId <= MAX_TRANSMISSION_ID
    ensures var id := p.passive.nextId;
      var sent := Next(p, OpenPassive);
      && id in sent.passive.open && id in sent.toInitiative && id !in sent.initiative.open
      && var there := Next(sent, ArriveInitiative(id));
        && id in there.initiative.open && there.initiative.open[id] == Inbound && id !in there.toInitiative
        && id in there.passive.open && there.passive.open[id] == Outbound
        && id !in Next(there, ReleaseInitiative(id)).initiative.open && id in Next(there, ReleaseInitiative(id)).passive.open
        && id !in Next(there, ReleasePassive(id)).passive.open && id in Next(there, ReleasePassive(id)).initiative.open
  {
    ActionIsConsistent(p, OpenPassive);
    WhatComesIsWelcome(Next(p, OpenPassive));
    NextIsFree(p.passive);
  }

  ghost predicate Runs(p: Pair, actions: seq<Action>, end: Pair)
    decreases |actions|
  {
    if actions == [] then p == end
    else Possible(p, actions[0]) && Runs(Next(p, actions[0]), actions[1..], end)
  }

  /** In every run the two ends keep their numbers apart. */
  lemma {:induction false} EveryRunIsConsistent(p: Pair, actions: seq<Action>, end: Pair)
    requires Consistent(p) && Runs(p, actions, end)
    ensures Consistent(end)
    decreases |actions|
  {
    if actions != [] {
      ActionIsConsistent(p, actions[0]);
      hide Consistent;
      EveryRunIsConsistent(Next(p, actions[0]), actions[1..], end);
    }
  }

  lemma StartIsConsistent()
    ensures Consistent(START)
  {
  }

  /** In no run does the check for reused numbers fail, is a number refused, or an open call overwritten. */
  lemma {:induction false} NoCallIsRefusedOrOverwritten(actions: seq<Action>, p: Pair)
    requires Runs(START, actions, p)
    ensures forall id :: id in p.toInitiative ==> Received(p.initiative, id).Success?
    ensures forall id :: id in p.toPassive ==> Received(p.passive, id).Success?
    ensures p.initiative.nextId !in p.initiative.open && p.passive.nextId !in p.passive.open
  {
    StartIsConsistent();
    hide Consistent, Runs;
    EveryRunIsConsistent(START, actions, p);
    WhatComesIsWelcome(p);
  }

  lemma WhatComesIsWelcome(p: Pair)
    requires Consistent(p)
    ensures forall id :: id in p.toInitiative ==> Received(p.initiative, id).Success?
    ensures forall id :: id in p.toPassive ==> Received(p.passive, id).Success?
    ensures p.initiative.nextId !in p.initiative.open && p.passive.nextId !in p.passive.open
  {
    NextIsFree(p.initiative);
    NextIsFree(p.passive);
  }

  lemma NextIsFree(t: Table)
    requires Safe(t)
    ensures t.nextId !in t.open
  {
    assert Own(t, t.nextId);
  }

  // ---------- the tables and their contexts ----------

  class Context {
    const transmissionId: nat
    const kind: Kind
    var isClosed: bool
    var manager: ContextManager?

    constructor (transmissionId: nat, kind: Kind, manager: ContextManager)
      ensures this.transmissionId == transmissionId && this.kind == kind && !isClosed && this.manager == manager
    {
      this.transmissionId, this.kind, this.manager := transmissionId, kind, manager;
      isClosed := false;
    }

    /** Closing twice is closing once; the first time the context leaves the table of its manager. */
    method Close()
      requires !isClosed ==> manager != null && manager.Valid() && this in manager.all
      modifies this, manager
      ensures isClosed
      ensures old(isClosed) ==> unchanged(this) && (manager != null ==> unchanged(manager))
      ensures !old(isClosed) ==>
        && old(manager).Valid() && old(manager).View() == Released(old(manager.View()), transmissionId)
        && old(manager).all == old(manager.all) && manager == null
    {
      if isClosed { return; }
      isClosed := true;
      var m := manager;
      m.ReleaseContext(transmissionId, this);
      manager := null;
    }
  }

  class ContextManager {
    const initiative: bool
    var outboundTransmissionId: nat
    var contexts: map<nat, Context>

    ghost var given: nat
    /** Every context there has ever been. */
    ghost var all: set<Context>

    ghost function View(): Table
      reads this, contexts.Values
    {
      Table(initiative, outboundTransmissionId, map id | id in contexts :: contexts[id].kind, given)
    }

    ghost predicate Lists(c: Context)
      reads this
    {
      c.transmissionId in contexts && contexts[c.transmissionId] == c
    }

    /** The table holds exactly the contexts that have not been closed. */
    ghost predicate Valid()
      reads this, all
    {
      && (forall id :: id in contexts ==> contexts[id] in all && contexts[id].transmissionId == id)
      && (forall c :: c in all ==> (!c.isClosed <==> Lists(c)))
      && (forall c :: c in all && !c.isClosed ==> c.manager == this)
    }

    constructor (initiative: bool)
      ensures Valid() && View() == Fresh(initiative) && all == {}
    {
      this.initiative := initiative;
      outboundTransmissionId := if initiative then 1 else 2;
      contexts, given, all := map[], 0, {};
    }

    method NextTransmissionId() returns (r: Result<nat>)
      modifies this`outboundTransmissionId
      ensures if old(outboundTransmissionId) > MAX_TRANSMISSION_ID
        then r == Failure && outboundTransmissionId == old(outboundTransmissionId)
        else r == Success(old(outboundTransmissionId)) && outboundTransmissionId == old(outboundTransmissionId) + 2
    {
      var transmissionId := outboundTransmissionId;
      if transmissionId > MAX_TRANSMISSION_ID { return Failure; }
      outboundTransmissionId := outboundTransmissionId + 2;
      r := Success(transmissionId);
    }

    method NewOutboundContext() returns (r: Result<Context>)
      requires Valid() && Safe(View())
      modifies this
      ensures Valid() && Safe(View())
      ensures match Opened(old(View())) {
        case Failure => r == Failure && View() == old(View()) && all == old(all)
        case Success((id, n)) =>
          r.Success? && fresh(r.value) && r.value.transmissionId == id && View() == n && all == old(all) + {r.value}
      }
    {
      ghost var before := View();
      StepIsSafeIff(before, Open);
      if Opened(before).Success? { OpeningOverwritesNothing(before); }
      hide Safe;
      var id := NextTransmissionId();
      if id.Failure? { return Failure; }
      given := given + 1;
      var context := Add(id.value, Outbound);
      r := Success(context);
    }

    /** Fails for a number in use and, at the passive end only, for an even number. */
    method NewInboundContext(id: nat) returns (r: Result<Context>)
      requires Valid()
      modifies this
      ensures Valid()
      ensures match Received(old(View()), id) {
        case Failure => r == Failure && View() == old(View()) && all == old(all)
        case Success(n) =>
          r.Success? && fresh(r.value) && r.value.transmissionId == id && View() == n && all == old(all) + {r.value}
      }
    {
      if id in contexts { return Failure; }
      if !initiative && id % 2 != 1 { return Failure; }
      var context := Add(id, Inbound);
      r := Success(context);
    }

    /** A call of this end, a call of the other, or the end of the call with this number if it is open. */
    method Apply(event: Event)
      requires Valid() && Safe(View())
      modifies this, all
      ensures Valid() && View() == Step(old(View()), event)
      ensures old(all) <= all && fresh(all - old(all))
    {
      match event {
        case Open =>
          var mine := NewOutboundContext();
        case Receive(id) =>
          var theirs := NewInboundContext(id);
        case Release(id) =>
          ghost var before := View();
          if id in contexts {
            contexts[id].Close();
          } else {
            assert before == Released(before, id);
          }
      }
    }

    /** Any sequence of them leaves the table of the specification, in it exactly the contexts that have not been closed. */
    method ApplyAll(events: seq<Event>)
      requires Valid() && SafeRun(View(), events)
      modifies this, all
      ensures Valid() && View() == Run(old(View()), events)
      ensures old(all) <= all && fresh(all - old(all))
    {
      ghost var start := View();
      assert events[0..] == events;
      for i := 0 to |events|
        invariant Valid() && SafeRun(View(), events[i..]) && Run(View(), events[i..]) == Run(start, events)
        invariant old(all) <= all && fresh(all - old(all))
      {
        assert events[i..][1..] == events[i + 1..];
        hide Safe, Step;
        Apply(events[i]);
      }
    }

    /** A new context in the table, under a number that is free. */
    method Add(id: nat, kind: Kind) returns (context: Context)
      requires Valid() && id !in contexts
      modifies this`contexts, this`all
      ensures Valid() && fresh(context) && context.transmissionId == id && all == old(all) + {context}
      ensures View() == old(View()).(open := old(View()).open[id := kind])
    {
      context := new Context(id, kind, this);
      contexts := contexts[id := context];
      all := all + {context};
    }

    /** The table without one context; `closing` is the one that has just been marked as closed. */
    method ReleaseContext(id: nat, ghost closing: Context)
      requires forall i :: i in contexts ==> contexts[i] in all && contexts[i].transmissionId == i
      requires closing in all && closing.isClosed && closing.transmissionId == id && Lists(closing)
      requires forall c :: c in all && c != closing ==> (!c.isClosed <==> Lists(c))
      requires forall c :: c in all && !c.isClosed ==> c.manager == this
      modifies this`contexts
      ensures Valid() && View() == Released(old(View()), id)
    {
      if id !in contexts { return; }
      contexts := contexts - {id};
    }
  }
}
