/**
  The packets of the Python protocol on a stream: two 16-bit sizes, the meta message, the payload.
  Packets are taken from the front of what has been received as long as they are complete.
 */
module Framing {
  import opened Results
  import opened Varints

  const HEADER_SIZE := 4
  const MAX_PACKET_LENGTH := 8 * 1024

  /** Sizes are stored in 16 bits, the high byte first; what does not fit is cut off. */
  function Size16(n: nat): (s: seq<byte>)
    ensures |s| == 2
  {
    [n / 256 % 256, n % 256]
  }

  function Pair(high: int, low: int): int {
    high * 256 + low
  }

  lemma SizesCutOff(n: nat)
    ensures Pair(Size16(n)[0], Size16(n)[1]) == n % 0x1_0000
  {
    assert n == n / 0x1_0000 * 0x1_0000 + n / 256 % 256 * 256 + n % 256;
  }

  function Frame(meta: seq<byte>, payload: seq<byte>): seq<byte> {
    Size16(|meta|) + Size16(|payload|) + meta + payload
  }

  datatype Parcel = Parcel(meta: seq<byte>, payload: seq<byte>)

  /** The header can be packed at all. */
  predicate Packable(p: Parcel) {
    |p.meta| < 0x1_0000 && |p.payload| < 0x1_0000
  }

  /** The receiver takes it. */
  predicate Accepted(p: Parcel) {
    Packable(p) && |p.payload| <= MAX_PACKET_LENGTH
  }

  function EncodeParcel(p: Parcel): (r: Result<seq<byte>>)
    ensures r.Success? <==> Packable(p)
    ensures r.Success? ==> |r.value| == HEADER_SIZE + |p.meta| + |p.payload|
  {
    if Packable(p) then Success(Frame(p.meta, p.payload)) else Failure
  }

  function EncodeAll(ps: seq<Parcel>): seq<byte> {
    if ps == [] then [] else Frame(ps[0].meta, ps[0].payload) + EncodeAll(ps[1..])
  }

  // ---------- taking packets from the front ----------

  /** The first packet and its size, or none if it is not complete; failure if it is too large. */
  function NextParcel(data: seq<byte>): (r: Result<Option<(nat, Parcel)>>)
    ensures r.Success? && r.value.Some? ==> 0 < r.value.value.0 <= |data|
  {
    if |data| < HEADER_SIZE then Success(None)
    else
      var m, p := Pair(data[0], data[1]), Pair(data[2], data[3]);
      var used := HEADER_SIZE + m + p;
      if used > |data| then Success(None)
      else if p > MAX_PACKET_LENGTH then Failure
      else Success(Some((used, Parcel(data[HEADER_SIZE..HEADER_SIZE + m], data[HEADER_SIZE + m..used]))))
  }

  /** What feeding gives if the first n bytes have given these packets and the others give r. */
  function Continued(first: seq<Parcel>, n: nat, r: Result<(nat, seq<Parcel>)>): (c: Result<(nat, seq<Parcel>)>)
    ensures c.Success? <==> r.Success?
    ensures r.Success? ==> c.value == (n + r.value.0, first + r.value.1)
  {
    if r.Failure? then Failure else Success((n + r.value.0, first + r.value.1))
  }

  lemma ContinuedTwice(a: seq<Parcel>, n: nat, b: seq<Parcel>, m: nat, r: Result<(nat, seq<Parcel>)>)
    ensures Continued(a, n, Continued(b, m, r)) == Continued(a + b, n + m, r)
  {
    if r.Success? { assert a + (b + r.value.1) == a + b + r.value.1; }
  }

  lemma ContinuedFromNothing(r: Result<(nat, seq<Parcel>)>)
    ensures Continued([], 0, r) == r
  {
    if r.Success? { assert [] + r.value.1 == r.value.1; }
  }

  function Feed(data: seq<byte>): (r: Result<(nat, seq<Parcel>)>)
    ensures r.Success? ==> r.value.0 <= |data|
    decreases |data|
  {
    match NextParcel(data)
    case Failure => Failure
    case Success(None) => Success((0, []))
    case Success(Some((used, p))) => Continued([p], used, Feed(data[used..]))
  }

  method FeedData(data: seq<byte>) returns (r: Result<(nat, seq<Parcel>)>)
    ensures r == Feed(data)
  {
    hide NextParcel, Continued;
    var used, messages := 0, [];
    assert data[0..] == data;
    ContinuedFromNothing(Feed(data));
    while true
      invariant used <= |data|
      invariant Feed(data) == Continued(messages, used, Feed(data[used..]))
      decreases |data| - used
    {
      var next := NextParcel(data[used..]);
      if next.Failure? { return Failure; }
      if next.value.None? {
        assert messages + [] == messages;
        return Success((used, messages));
      }
      var (consumed, p) := next.value.value;
      assert data[used..][consumed..] == data[used + consumed..];
      ContinuedTwice(messages, used, [p], consumed, Feed(data[used + consumed..]));
      messages := messages + [p];
      used := used + consumed;
    }
  }

  /** A complete packet at the front is found, whatever follows. */
  lemma FrameIsDecoded(p: Parcel, rest: seq<byte>)
    requires Packable(p)
    ensures NextParcel(Frame(p.meta, p.payload) + rest)
      == if Accepted(p) then Success(Some((|Frame(p.meta, p.payload)|, p))) else Failure
    ensures (Frame(p.meta, p.payload) + rest)[|Frame(p.meta, p.payload)|..] == rest
  {
    FrameHeader(p, rest);
    FrameBody(p, rest);
    hide Frame, Pair;
  }

  lemma FrameHeader(p: Parcel, rest: seq<byte>)
    requires Packable(p)
    ensures var data := Frame(p.meta, p.payload) + rest;
      |data| >= HEADER_SIZE && Pair(data[0], data[1]) == |p.meta| && Pair(data[2], data[3]) == |p.payload|
  {
    var data := Frame(p.meta, p.payload) + rest;
    SizesCutOff(|p.meta|);
    SizesCutOff(|p.payload|);
    hide Size16, Pair;
    assert data[0] == Size16(|p.meta|)[0] && data[1] == Size16(|p.meta|)[1];
    assert data[2] == Size16(|p.payload|)[0] && data[3] == Size16(|p.payload|)[1];
  }

  lemma FrameBody(p: Parcel, rest: seq<byte>)
    ensures |Frame(p.meta, p.payload)| == HEADER_SIZE + |p.meta| + |p.payload|
    ensures var data, m, used := Frame(p.meta, p.payload) + rest, |p.meta|, |Frame(p.meta, p.payload)|;
      data[HEADER_SIZE..HEADER_SIZE + m] == p.meta && data[HEADER_SIZE + m..used] == p.payload && data[used..] == rest
  {
    hide Size16;
  }

  /** The header, byte by byte: two sizes, the high byte first; then the meta message, then the payload. */
  lemma FrameLayout(p: Parcel)
    requires Packable(p)
    ensures var f, m, n := Frame(p.meta, p.payload), |p.meta|, |p.payload|;
      && |f| == 4 + m + n
      && f[0] == m / 256 && f[1] == m % 256 && f[2] == n / 256 && f[3] == n % 256
      && f[4..4 + m] == p.meta && f[4 + m..] == p.payload
  {
    assert |p.meta| / 256 % 256 == |p.meta| / 256 && |p.payload| / 256 % 256 == |p.payload| / 256;
  }

  /** A packet is incomplete, or too large, by the sizes in its header and nothing else. */
  lemma IncompleteIff(data: seq<byte>, m: int, n: int)
    requires |data| >= 4 ==> m == 256 * (data[0] as int) + data[1] as int && n == 256 * (data[2] as int) + data[3] as int
    ensures NextParcel(data) == Success(None) <==> |data| < 4 || |data| < 4 + m + n
    ensures NextParcel(data) == Failure <==> |data| >= 4 && |data| >= 4 + m + n && n > 8192
  {
  }

  /** Conversely, a packet that is found is there in encoded form. */
  lemma DecodedIsFrame(data: seq<byte>)
    ensures NextParcel(data).Success? && NextParcel(data).value.Some? ==>
      var (used, p) := NextParcel(data).value.value;
      Accepted(p) && used == |Frame(p.meta, p.payload)| && data == Frame(p.meta, p.payload) + data[used..]
  {
    if NextParcel(data).Success? && NextParcel(data).value.Some? {
      var (used, p) := NextParcel(data).value.value;
      SizesComeBack(data[0], data[1]);
      SizesComeBack(data[2], data[3]);
      var m := |p.meta|;
      assert data == data[..2] + data[2..4] + data[4..4 + m] + data[4 + m..used] + data[used..];
      assert data[..2] == Size16(m) && data[2..4] == Size16(|p.payload|);
    }
  }

  lemma SizesComeBack(high: byte, low: byte)
    ensures 0 <= Pair(high, low) < 0x1_0000 && Size16(Pair(high, low)) == [high, low]
  {
    assert Pair(high, low) / 256 == high && Pair(high, low) % 256 == low;
  }

  /** More data behind a complete or oversize packet changes nothing about it. */
  lemma DecodeIsStable(data: seq<byte>, more: seq<byte>)
    requires NextParcel(data) != Success(None)
    ensures NextParcel(data + more) == NextParcel(data)
    ensures NextParcel(data).Success? ==>
      var used := NextParcel(data).value.value.0; (data + more)[used..] == data[used..] + more
  {
    if NextParcel(data).Success? {
      DecodedIsFrame(data);
      var (used, p) := NextParcel(data).value.value;
      var f := Frame(p.meta, p.payload);
      assert data + more == f + (data[used..] + more);
      FrameIsDecoded(p, data[used..] + more);
    }
  }

  // ---------- what a stream of packets is taken for ----------

  ghost predicate AllAccepted(ps: seq<Parcel>) {
    forall i :: 0 <= i < |ps| ==> Accepted(ps[i])
  }

  ghost predicate AllPackable(ps: seq<Parcel>) {
    forall i :: 0 <= i < |ps| ==> Packable(ps[i])
  }

  /** What feeding gives is what is there: all complete packets, and nothing of the incomplete one behind them. */
  lemma {:induction false} FeedIsSound(data: seq<byte>)
    requires Feed(data).Success?
    ensures var (n, ps) := Feed(data).value;
      AllAccepted(ps) && data[..n] == EncodeAll(ps) && NextParcel(data[n..]) == Success(None)
    decreases |data|
  {
    if NextParcel(data).value.Some? {
      hide NextParcel, Frame, Accepted, Continued;
      var (used, p) := NextParcel(data).value.value;
      DecodedIsFrame(data);
      FeedIsSound(data[used..]);
      var (n, ps) := Feed(data[used..]).value;
      Front(data, Frame(p.meta, p.payload), data[used..], n);
      EncodeOneMore(p, ps);
    } else {
      assert data[0..] == data;
    }
  }

  lemma Front(data: seq<byte>, head: seq<byte>, tail: seq<byte>, n: nat)
    requires data == head + tail && n <= |tail|
    ensures data[..|head| + n] == head + tail[..n] && data[|head| + n..] == tail[n..]
  {
  }

  lemma {:induction false} EncodeOneMore(p: Parcel, ps: seq<Parcel>)
    ensures EncodeAll([p] + ps) == Frame(p.meta, p.payload) + EncodeAll(ps)
  {
    assert ([p] + ps)[1..] == ps;
  }

  lemma {:induction false} FeedIsComplete(ps: seq<Parcel>, rest: seq<byte>)
    requires AllAccepted(ps) && NextParcel(rest) == Success(None)
    ensures Feed(EncodeAll(ps) + rest) == Success((|EncodeAll(ps)|, ps))
  {
    hide NextParcel, Frame;
    if ps == [] {
      assert [] + rest == rest;
    } else {
      var f := Frame(ps[0].meta, ps[0].payload);
      assert EncodeAll(ps) + rest == f + (EncodeAll(ps[1..]) + rest);
      FrameIsDecoded(ps[0], EncodeAll(ps[1..]) + rest);
      FeedIsComplete(ps[1..], rest);
      assert ps == [ps[0]] + ps[1..];
    }
  }

  /** Whatever front part of a stream of packets has arrived, only packets of the stream are found, in order. */
  lemma {:induction false} FeedFindsAPrefix(ps: seq<Parcel>, data: seq<byte>)
    requires AllPackable(ps) && data <= EncodeAll(ps) && Feed(data).Success?
    ensures Feed(data).value.1 <= ps
    decreases |ps|
  {
    hide Frame, NextParcel, Continued;
    var next := NextParcel(data).value;
    if next.Some? {
      DecodedIsFrame(data);
      var (used, p) := next.value;
      var f := Frame(ps[0].meta, ps[0].payload);
      assert data + EncodeAll(ps)[|data|..] == EncodeAll(ps);
      DecodeIsStable(data, EncodeAll(ps)[|data|..]);
      FrameIsDecoded(ps[0], EncodeAll(ps[1..]));
      assert EncodeAll(ps) == f + EncodeAll(ps[1..]);
      assert data[used..] == EncodeAll(ps)[used..][..|data| - used];
      FeedFindsAPrefix(ps[1..], data[used..]);
      assert ps == [p] + ps[1..];
    }
  }

  /** As long as no packet is oversize, no front part of the stream is refused. */
  lemma {:induction false} NoPartIsRefused(ps: seq<Parcel>, data: seq<byte>)
    requires AllAccepted(ps) && data <= EncodeAll(ps)
    ensures Feed(data).Success?
  {
    var rest := EncodeAll(ps)[|data|..];
    assert data + rest == EncodeAll(ps) == EncodeAll(ps) + [];
    FeedInTwoSteps(data, rest);
    FeedIsComplete(ps, []);
  }

  lemma {:induction false} EncodeAllConcat(a: seq<Parcel>, b: seq<Parcel>)
    ensures EncodeAll(a + b) == EncodeAll(a) + EncodeAll(b)
  {
    hide Frame;
    if a == [] {
      assert a + b == b;
    } else {
      assert (a + b)[1..] == a[1..] + b;
      EncodeAllConcat(a[1..], b);
    }
  }

  // ---------- receiving in chunks ----------

  /** Feeding in two steps, what is left over kept in between, finds the same as feeding once. */
  lemma {:induction false} FeedInTwoSteps(data: seq<byte>, more: seq<byte>)
    ensures Feed(data).Failure? ==> Feed(data + more).Failure?
    ensures Feed(data).Success? ==>
      var (n, ps) := Feed(data).value;
      Feed(data + more) == Continued(ps, n, Feed(data[n..] + more))
    decreases |data|
  {
    hide NextParcel, Continued;
    if NextParcel(data) == Success(None) {
      assert data[0..] == data;
      ContinuedFromNothing(Feed(data + more));
    } else {
      DecodeIsStable(data, more);
      if NextParcel(data).Success? {
        var (used, p) := NextParcel(data).value.value;
        FeedInTwoSteps(data[used..], more);
        if Feed(data[used..]).Success? {
          var (n, ps) := Feed(data[used..]).value;
          assert data[used..][n..] == data[used + n..];
          ContinuedTwice([p], used, ps, n, Feed(data[used + n..] + more));
        }
      }
    }
  }

  /** The messages a connection hands on, whether it is still alive, and what it keeps for later. */
  datatype Intake = Intake(messages: seq<Parcel>, alive: bool, kept: seq<byte>)

  function Receive(i: Intake, chunk: seq<byte>): Intake {
    if !i.alive then i
    else match Feed(i.kept + chunk)
      case Failure => Intake(i.messages, false, [])
      case Success((n, ps)) => Intake(i.messages + ps, true, (i.kept + chunk)[n..])
  }

  function ReceiveAll(i: Intake, chunks: seq<seq<byte>>): Intake
    decreases |chunks|
  {
    if chunks == [] then i else ReceiveAll(Receive(i, chunks[0]), chunks[1..])
  }

  function Joined(chunks: seq<seq<byte>>): seq<byte> {
    if chunks == [] then [] else chunks[0] + Joined(chunks[1..])
  }

  const EMPTY := Intake([], true, [])

  /** Whether a connection survives does not depend on the chunks; nor does what it hands on if it does. */
  lemma {:induction false} ChunksDoNotMatter(i: Intake, chunks: seq<seq<byte>>)
    requires i.alive && NextParcel(i.kept) == Success(None)
    ensures var all := Feed(i.kept + Joined(chunks));
      var end := ReceiveAll(i, chunks);
      && (end.alive <==> all.Success?)
      && (end.alive ==> end.messages == i.messages + all.value.1 && end.kept == (i.kept + Joined(chunks))[all.value.0..])
      && i.messages <= end.messages
    decreases |chunks|
  {
    hide NextParcel, Feed, Continued;
    if chunks == [] {
      assert i.kept + [] == i.kept && i.messages + [] == i.messages;
      IncompleteGivesNothing(i.kept);
    } else {
      var data := i.kept + chunks[0];
      var tail := Joined(chunks[1..]);
      assert i.kept + Joined(chunks) == data + tail;
      FeedInTwoSteps(data, tail);
      var next := Receive(i, chunks[0]);
      if next.alive {
        FeedIsSound(data);
        var (n, ps) := Feed(data).value;
        ChunksDoNotMatter(next, chunks[1..]);
        var r := Feed(data[n..] + tail);
        if r.Success? {
          assert i.messages + ps + r.value.1 == i.messages + (ps + r.value.1);
          Dropped(data, tail, n, r.value.0);
        }
      } else {
        DeadStaysDead(next, chunks[1..]);
      }
    }
  }

  lemma IncompleteGivesNothing(data: seq<byte>)
    requires NextParcel(data) == Success(None)
    ensures Feed(data) == Success((0, [])) && data[0..] == data
  {
  }

  lemma Dropped(data: seq<byte>, tail: seq<byte>, n: nat, m: nat)
    requires n <= |data| && n + m <= |data + tail|
    ensures (data + tail)[n + m..] == (data[n..] + tail)[m..]
  {
  }

  lemma {:induction false} DeadStaysDead(i: Intake, chunks: seq<seq<byte>>)
    requires !i.alive
    ensures ReceiveAll(i, chunks) == i
    decreases |chunks|
  {
    if chunks != [] { DeadStaysDead(i, chunks[1..]); }
  }

  /** Exactly the streams without an oversize packet arrive as they were sent, however they are cut. */
  lemma {:induction false} AllArriveIffAccepted(ps: seq<Parcel>, chunks: seq<seq<byte>>)
    requires AllPackable(ps) && Joined(chunks) == EncodeAll(ps)
    ensures ReceiveAll(EMPTY, chunks) == Intake(ps, true, []) <==> AllAccepted(ps)
  {
    hide Frame, NextParcel, Feed, Joined, ReceiveAll, EncodeAll;
    var all := EncodeAll(ps);
    assert [] + Joined(chunks) == all && all + [] == all && all[|all|..] == [];
    EndIsIncomplete();
    ChunksDoNotMatter(EMPTY, chunks);
    FeedFindsAllIff(ps);
    if Feed(all).Success? { assert [] + Feed(all).value.1 == Feed(all).value.1; }
  }

  lemma {:induction false} FeedFindsAllIff(ps: seq<Parcel>)
    ensures Feed(EncodeAll(ps)) == Success((|EncodeAll(ps)|, ps)) <==> AllAccepted(ps)
    ensures Feed(EncodeAll(ps)).Success? && Feed(EncodeAll(ps)).value.1 == ps ==> AllAccepted(ps)
  {
    hide Frame, NextParcel, Feed;
    if AllAccepted(ps) {
      assert EncodeAll(ps) + [] == EncodeAll(ps);
      EndIsIncomplete();
      FeedIsComplete(ps, []);
    } else if Feed(EncodeAll(ps)).Success? {
      FeedIsSound(EncodeAll(ps));
    }
  }

  lemma EndIsIncomplete()
    ensures NextParcel([]) == Success(None)
  {
  }

  /** With an oversize packet the chunks do matter: messages before it in the same chunk are lost. */
  lemma {:induction false} OversizeLosesItsChunk(ps: seq<Parcel>, big: Parcel)
    requires AllAccepted(ps) && Packable(big) && !Accepted(big)
    ensures ReceiveAll(EMPTY, [EncodeAll(ps + [big])]) == Intake([], false, [])
    ensures ReceiveAll(EMPTY, [EncodeAll(ps), EncodeAll([big])]) == Intake(ps, false, [])
  {
    hide Frame, NextParcel;
    var a, b := EncodeAll(ps), EncodeAll([big]);
    EncodeAllConcat(ps, [big]);
    EndIsIncomplete();
    FeedIsComplete(ps, []);
    assert a + [] == a && [] + a == a;
    FeedInTwoSteps(a, b);
    assert a[|a|..] + b == b;
    assert b == Frame(big.meta, big.payload) + [] by { assert [big][1..] == []; }
    FrameIsDecoded(big, []);
    assert Feed(b).Failure? && Feed(a + b).Failure?;
    assert [] + (a + b) == a + b && [] + b == b;
    assert [] + ps == ps;
    var first := Receive(EMPTY, a);
    assert first == Intake(ps, true, []);
    assert Receive(first, b) == Intake(ps, false, []);
    assert Receive(EMPTY, a + b) == Intake([], false, []);
    var none: seq<seq<byte>> := [];
    assert [a, b][1..] == [b] && [b][1..] == none && [a + b][1..] == none;
    assert ReceiveAll(first, [b]) == ReceiveAll(Receive(first, b), none);
    assert ReceiveAll(EMPTY, [a + b]) == ReceiveAll(Receive(EMPTY, a + b), none);
  }
}
