/**
  Exact sends and receives over a stream socket (TcpSocket.cpp) and the packet framing on
  top of them (readTcpPacket in HubServer.cpp).

  The results of the socket calls form a finite schedule.  A loop that is still waiting
  when the schedule ends is Starved: it has neither succeeded nor failed.
 */
module TcpStream {
  import opened Wire

  datatype Status = Done | Failed | Starved

  /** One ::send: a byte count, a retryable error (EINTR or EAGAIN), or a failure (0 or another errno). */
  datatype SendResult = Sent(n: nat) | SendRetry | SendError

  /** One ::recv. */
  datatype RecvResult = Got(n: nat) | Interrupted | Again | RecvError | PeerClosed

  // ── Sending ────────────────────────────────────────────────────────────────

  /** How a send of `len` bytes ends, how many of them went out, and what is left of the schedule. */
  function SendOutcome(len: nat, sched: seq<SendResult>): (r: (Status, nat, seq<SendResult>))
    ensures r.1 <= len && (r.0 == Done <==> r.1 == len)
    decreases |sched|
  {
    if len == 0 then (Done, 0, sched)
    else if sched == [] then (Starved, 0, [])
    else if sched[0].SendError? || sched[0] == Sent(0) then (Failed, 0, sched[1..])
    else if sched[0].SendRetry? then SendOutcome(len, sched[1..])
    else
      var k := Min(sched[0].n, len);
      var (st, n, rest) := SendOutcome(len - k, sched[1..]);
      (st, k + n, rest)
  }

  /** One ::send that ends the loop. */
  predicate SendFails(r: SendResult) {
    r.SendError? || r == Sent(0)
  }

  /** The bytes a run of sends takes; a retryable error takes none. */
  function SendTotal(sched: seq<SendResult>): nat {
    if sched == [] then 0 else (if sched[0].Sent? then sched[0].n else 0) + SendTotal(sched[1..])
  }

  /**
    sendExactly without its loop.  Let `k` be the first failing call, or the end of the schedule,
    and `total` what the calls before it take: `total` bytes go out, at most all of them; the
    send succeeds exactly when that is all, and otherwise fails exactly when there is such a call.
   */
  lemma {:induction false} SendIs(len: nat, sched: seq<SendResult>, k: nat)
    requires k <= |sched| && (forall i :: 0 <= i < k ==> !SendFails(sched[i])) && (k < |sched| ==> SendFails(sched[k]))
    ensures var r, total := SendOutcome(len, sched), SendTotal(sched[..k]);
            && r.1 == Min(len, total)
            && r.0 == if total >= len then Done else if k < |sched| then Failed else Starved
    decreases |sched|
  {
    if len > 0 && k > 0 {
      var n := if sched[0].Sent? then sched[0].n else 0;
      assert sched[..k][0] == sched[0] && sched[..k][1..] == sched[1..][..k - 1];
      SendIs(len - Min(n, len), sched[1..], k - 1);
    } else if k == 0 {
      assert sched[..0] == [];
    }
  }

  // ── Receiving ──────────────────────────────────────────────────────────────

  datatype RecvOutcome = Received(rest: seq<Byte>, sched: seq<RecvResult>) | Broken | Waiting

  /** The bytes one ::recv delivers; a count never exceeds what has arrived. */
  function Count(r: RecvResult, want: nat, incoming: seq<Byte>): nat {
    if r.Got? then Min(Min(r.n, want), |incoming|) else 0
  }

  /** recvExactly with `want` bytes still to come and `got` already read. */
  function RecvExactly(want: nat, got: nat, incoming: seq<Byte>, sched: seq<RecvResult>): (r: RecvOutcome)
    ensures r.Received? ==> want <= |incoming| && r.rest == incoming[want..]
    decreases |sched|
  {
    if want == 0 then Received(incoming, sched)
    else if sched == [] then Waiting
    else if sched[0].RecvError? || sched[0].PeerClosed? then Broken
    else if sched[0].Interrupted? then RecvExactly(want, got, incoming, sched[1..])
    else
      var k := Count(sched[0], want, incoming);
      if k == 0 && got == 0 then Broken
      else RecvExactly(want - k, got + k, incoming[k..], sched[1..])
  }

  function RecvTotal(sched: seq<RecvResult>): nat {
    if sched == [] then 0 else RecvBrings(sched[0]) + RecvTotal(sched[1..])
  }

  /** The call breaks the receive: an error, the end of the stream, or nothing there with nothing read yet. */
  predicate RecvStops(r: RecvResult, got: nat) {
    r.RecvError? || r.PeerClosed? || ((r.Again? || r == Got(0)) && got == 0)
  }

  /** `k` is the first breaking call when `got` bytes were read before, or the end of the schedule. */
  ghost predicate FirstStop(got: nat, sched: seq<RecvResult>, k: nat) {
    && k <= |sched| && (forall i :: 0 <= i < k ==> !RecvStops(sched[i], got + RecvTotal(sched[..i])))
    && (k < |sched| ==> RecvStops(sched[k], got + RecvTotal(sched[..k])))
  }

  function RecvBrings(r: RecvResult): nat {
    if r.Got? then r.n else 0
  }

  lemma FirstStopRest(got: nat, sched: seq<RecvResult>, k: nat)
    requires FirstStop(got, sched, k) && k > 0
    ensures !RecvStops(sched[0], got) && FirstStop(got + RecvBrings(sched[0]), sched[1..], k - 1)
    ensures RecvTotal(sched[..k]) == RecvBrings(sched[0]) + RecvTotal(sched[1..][..k - 1])
  {
    assert sched[..0] == [];
    forall i | 0 <= i <= k - 1
      ensures RecvTotal(sched[..i + 1]) == RecvBrings(sched[0]) + RecvTotal(sched[1..][..i])
    {
      assert sched[..i + 1][1..] == sched[1..][..i];
    }
    forall i | 0 <= i < k - 1
      ensures !RecvStops(sched[1..][i], got + RecvBrings(sched[0]) + RecvTotal(sched[1..][..i]))
    {
      assert !RecvStops(sched[i + 1], got + RecvTotal(sched[..i + 1]));
    }
  }

  ghost predicate EndsAs(r: RecvOutcome, enough: bool, breaks: bool) {
    if enough then r.Received? else if breaks then r.Broken? else r.Waiting?
  }

  /**
    recvExactly without its loop, when the bytes asked for are there: the receive succeeds
    exactly when the calls before the first breaking one bring enough, and otherwise breaks
    exactly when there is such a call.
   */
  lemma {:induction false} RecvIs(want: nat, got: nat, incoming: seq<Byte>, sched: seq<RecvResult>, k: nat)
    requires 0 < want <= |incoming| && FirstStop(got, sched, k)
    ensures EndsAs(RecvExactly(want, got, incoming, sched), RecvTotal(sched[..k]) >= want, k < |sched|)
    decreases |sched|
  {
    if k == 0 {
      RecvStopsFirst(want, got, incoming, sched);
    } else {
      var n := RecvBrings(sched[0]);
      FirstStopRest(got, sched, k);
      if n < want {
        RecvContinues(want, got, incoming, sched, n);
        RecvIs(want - n, got + n, incoming[n..], sched[1..], k - 1);
      } else {
        RecvDone(want, got, incoming, sched);
      }
    }
  }

  lemma RecvStopsFirst(want: nat, got: nat, incoming: seq<Byte>, sched: seq<RecvResult>)
    requires 0 < want && (sched != [] ==> RecvStops(sched[0], got + RecvTotal(sched[..0])))
    ensures EndsAs(RecvExactly(want, got, incoming, sched), RecvTotal(sched[..0]) >= want, 0 < |sched|)
  {
    assert sched[..0] == [];
  }

  lemma RecvContinues(want: nat, got: nat, incoming: seq<Byte>, sched: seq<RecvResult>, n: nat)
    requires want <= |incoming| && sched != [] && !RecvStops(sched[0], got) && n == RecvBrings(sched[0]) < want
    ensures RecvExactly(want, got, incoming, sched) == RecvExactly(want - n, got + n, incoming[n..], sched[1..])
  {
    assert incoming[0..] == incoming;
  }

  lemma RecvDone(want: nat, got: nat, incoming: seq<Byte>, sched: seq<RecvResult>)
    requires 0 < want <= |incoming| && sched != [] && !RecvStops(sched[0], got) && RecvBrings(sched[0]) >= want
    ensures RecvExactly(want, got, incoming, sched).Received?
  {
    assert Count(sched[0], want, incoming) == want;
  }

  // ── Packets ────────────────────────────────────────────────────────────────

  datatype Packet = Packet(cmdType: Byte, deviceId: Byte, endpoint: Byte, seqNo: Byte, payload: seq<Byte>)

  predicate Fits(p: Packet) {
    |p.payload| < 0x1_0000
  }

  /** The length field holds 16 bits. */
  function Encode(p: Packet): (b: seq<Byte>) {
    EncodeHeader(Header(p.cmdType, p.deviceId, p.endpoint, p.seqNo, |p.payload| % 0x1_0000)) + p.payload
  }

  function EncodeAll(ps: seq<Packet>): (b: seq<Byte>) {
    if ps == [] then [] else Encode(ps[0]) + EncodeAll(ps[1..])
  }

  lemma {:induction false} EncodeAllAppend(a: seq<Packet>, b: seq<Packet>)
    ensures EncodeAll(a + b) == EncodeAll(a) + EncodeAll(b)
  {
    if a == [] {
      assert a + b == b;
    } else {
      assert (a + b)[1..] == a[1..] + b;
      EncodeAllAppend(a[1..], b);
    }
  }

  lemma EncodeOne(p: Packet)
    ensures EncodeAll([p]) == Encode(p)
  {
    assert EncodeAll([p]) == Encode(p) + EncodeAll([p][1..]);
  }

  datatype ReadOutcome = Read(p: Packet, rest: seq<Byte>, sched: seq<RecvResult>) | ReadFailed | ReadWaiting

  /** readTcpPacket: the header, then as many payload bytes as it announces. */
  function ReadPacket(incoming: seq<Byte>, sched: seq<RecvResult>): (r: ReadOutcome) {
    match RecvExactly(HEADER_LEN, 0, incoming, sched)
    case Broken => ReadFailed
    case Waiting => ReadWaiting
    case Received(afterHeader, sched1) =>
      var h := DecodeHeader(incoming);
      match RecvExactly(h.payloadLen, 0, afterHeader, sched1)
      case Broken => ReadFailed
      case Waiting => ReadWaiting
      case Received(rest, sched2) =>
        Read(Packet(h.cmdType, h.deviceId, h.endpoint, h.seqNo, afterHeader[..h.payloadLen]), rest, sched2)
  }

  /** Uses `read` up to `n` times, each time on what the last one left: what was read, and how it ended. */
  function Repeat(read: (seq<Byte>, seq<RecvResult>) -> ReadOutcome, n: nat, incoming: seq<Byte>,
                  sched: seq<RecvResult>): (r: (seq<Packet>, Status))
    ensures |r.0| <= n && (r.1 == Done <==> |r.0| == n)
  {
    if n == 0 then ([], Done)
    else match read(incoming, sched)
      case ReadFailed => ([], Failed)
      case ReadWaiting => ([], Starved)
      case Read(p, rest, sched') =>
        var more := Repeat(read, n - 1, rest, sched');
        ([p] + more.0, more.1)
  }

  /** Reads up to `n` packets one after the other. */
  function ReadMany(n: nat, incoming: seq<Byte>, sched: seq<RecvResult>): (r: (seq<Packet>, Status))
    ensures |r.0| <= n && (r.1 == Done <==> |r.0| == n)
  {
    Repeat(ReadPacket, n, incoming, sched)
  }

  lemma EncodedHead(p: Packet, tail: seq<Byte>)
    requires Fits(p)
    ensures var wire := Encode(p) + tail;
            && |Encode(p)| == HEADER_LEN + |p.payload| && wire[HEADER_LEN..] == p.payload + tail
            && DecodeHeader(wire) == Header(p.cmdType, p.deviceId, p.endpoint, p.seqNo, |p.payload|)
  {
    var h := Header(p.cmdType, p.deviceId, p.endpoint, p.seqNo, |p.payload|);
    assert Encode(p) + tail == EncodeHeader(h) + (p.payload + tail);
    HeaderRoundTrip(h, p.payload + tail);
  }

  /** Whatever the schedule, one read of a packet at the head of the stream yields that packet or none. */
  lemma ReadEncoded(p: Packet, rest: seq<Byte>, sched: seq<RecvResult>)
    requires Fits(p)
    ensures var r := ReadPacket(Encode(p) + rest, sched);
            r.Read? ==> r.p == p && r.rest == rest
  {
    EncodedHead(p, rest);
    assert (p.payload + rest)[..|p.payload|] == p.payload && (p.payload + rest)[|p.payload|..] == rest;
  }

  lemma FirstEncoded(ps: seq<Packet>, rest: seq<Byte>) returns (tail: seq<Byte>)
    requires ps != []
    ensures tail == EncodeAll(ps[1..]) + rest && EncodeAll(ps) + rest == Encode(ps[0]) + tail
  {
    tail := EncodeAll(ps[1..]) + rest;
  }

  /** The packets read are always a prefix of the packets sent, in order; all of them unless a read failed or waits. */
  lemma {:induction false} FramingRoundTrip(ps: seq<Packet>, rest: seq<Byte>, sched: seq<RecvResult>)
    requires forall i :: 0 <= i < |ps| ==> Fits(ps[i])
    ensures var (qs, st) := ReadMany(|ps|, EncodeAll(ps) + rest, sched);
            qs == ps[..|qs|] && (st == Done <==> |qs| == |ps|)
    decreases ps
  {
    if ps != [] {
      var tail := FirstEncoded(ps, rest);
      ReadEncoded(ps[0], tail, sched);
      var r := ReadPacket(Encode(ps[0]) + tail, sched);
      if r.Read? {
        FramingRoundTrip(ps[1..], rest, r.sched);
        PrefixCons(ps, ReadMany(|ps| - 1, tail, r.sched).0);
      }
    }
  }

  lemma PrefixCons(ps: seq<Packet>, qs: seq<Packet>)
    requires ps != [] && |qs| < |ps| && qs == ps[1..][..|qs|]
    ensures [ps[0]] + qs == ps[..|qs| + 1]
  {}

  /** No schedule gets a packet out of these bytes alone. */
  ghost predicate Unreadable(part: seq<Byte>) {
    forall sched :: !ReadPacket(part, sched).Read?
  }

  lemma PrefixUnreadable(p: Packet, n: nat)
    requires Fits(p) && n < |Encode(p)|
    ensures Unreadable(Encode(p)[..n])
  {
    EncodedHead(p, []);
    assert Encode(p) + [] == Encode(p);
    if n >= HEADER_LEN {
      assert DecodeHeader(Encode(p)[..n]) == DecodeHeader(Encode(p));
    }
  }

  /** One ::recv that brings all that is asked for. */
  lemma RecvAtOnce(want: nat, incoming: seq<Byte>, sched: seq<RecvResult>)
    requires 0 < want <= |incoming| && sched != [] && sched[0] == Got(want)
    ensures RecvExactly(want, 0, incoming, sched) == Received(incoming[want..], sched[1..])
  {
    assert RecvExactly(0, want, incoming[want..], sched[1..]) == Received(incoming[want..], sched[1..]);
  }

  lemma ReadAtOnce(p: Packet, rest: seq<Byte>, sched: seq<RecvResult>)
    requires Fits(p) && p.payload != []
    requires |sched| >= 2 && sched[0] == Got(HEADER_LEN) && sched[1] == Got(|p.payload|)
    ensures ReadPacket(Encode(p) + rest, sched) == Read(p, rest, sched[1..][1..])
  {
    var wire := Encode(p) + rest;
    EncodedHead(p, rest);
    RecvAtOnce(HEADER_LEN, wire, sched);
    RecvAtOnce(|p.payload|, p.payload + rest, sched[1..]);
    ReadEncoded(p, rest, sched);
  }

  lemma RepeatOnce(read: (seq<Byte>, seq<RecvResult>) -> ReadOutcome, m: nat, wire: seq<Byte>, sched: seq<RecvResult>,
                   p: Packet, rest: seq<Byte>, sched': seq<RecvResult>)
    requires m > 0 && read(wire, sched) == Read(p, rest, sched') && !read(rest, sched').Read?
    ensures Repeat(read, m, wire, sched).0 == [p]
  {
    assert Repeat(read, m - 1, rest, sched').0 == [];
  }

  /** A connection that breaks once one packet has been read off it. */
  lemma ReadsOneThenBreaks(p: Packet, rest: seq<Byte>, m: nat)
    requires Fits(p) && p.payload != [] && m > 0
    ensures ReadMany(m, Encode(p) + rest, [Got(HEADER_LEN), Got(|p.payload|), RecvError]).0 == [p]
  {
    var sched := [Got(HEADER_LEN), Got(|p.payload|), RecvError];
    ReadAtOnce(p, rest, sched);
    assert sched[1..][1..] == [RecvError];
    RepeatOnce(ReadPacket, m, Encode(p) + rest, sched, p, rest, [RecvError]);
  }

  /** Whatever the schedule, one use of `read` on `wire` yields `p` and leaves `rest`, or yields nothing. */
  ghost predicate Yields(read: (seq<Byte>, seq<RecvResult>) -> ReadOutcome, wire: seq<Byte>, p: Packet,
                         rest: seq<Byte>) {
    forall sched {:trigger read(wire, sched)} ::
      read(wire, sched).Read? ==> read(wire, sched).p == p && read(wire, sched).rest == rest
  }

  /** `wires` are what the packets leave one after the other; the last yields nothing. */
  ghost predicate Chain(read: (seq<Byte>, seq<RecvResult>) -> ReadOutcome, ps: seq<Packet>, wires: seq<seq<Byte>>) {
    && |wires| == |ps| + 1
    && (forall i :: 0 <= i < |ps| ==> Yields(read, wires[i], ps[i], wires[i + 1]))
    && (forall sched {:trigger read(wires[|ps|], sched)} :: !read(wires[|ps|], sched).Read?)
  }

  lemma {:induction false} ChainReads(read: (seq<Byte>, seq<RecvResult>) -> ReadOutcome, ps: seq<Packet>,
                                      wires: seq<seq<Byte>>, i: nat, m: nat, sched: seq<RecvResult>)
    requires Chain(read, ps, wires) && i <= |ps|
    ensures var qs := Repeat(read, m, wires[i], sched).0;
            i + |qs| <= |ps| && qs == ps[i..i + |qs|]
    decreases m
  {
    if m > 0 && i < |ps| {
      var r := read(wires[i], sched);
      assert Yields(read, wires[i], ps[i], wires[i + 1]);
      if r.Read? {
        ChainReads(read, ps, wires, i + 1, m - 1, r.sched);
      }
    }
  }

  lemma EncodedYields(p: Packet, tail: seq<Byte>)
    requires Fits(p)
    ensures Yields(ReadPacket, Encode(p) + tail, p, tail)
  {
    forall sched ensures var r := ReadPacket(Encode(p) + tail, sched); r.Read? ==> r.p == p && r.rest == tail {
      ReadEncoded(p, tail, sched);
    }
  }

  /** The bytes from packet `i` on. */
  function WireFrom(ps: seq<Packet>, part: seq<Byte>, i: nat): seq<Byte>
    requires i <= |ps|
  {
    EncodeAll(ps[i..]) + part
  }

  lemma EncodedChain(ps: seq<Packet>, part: seq<Byte>) returns (wires: seq<seq<Byte>>)
    requires Unreadable(part) && forall i :: 0 <= i < |ps| ==> Fits(ps[i])
    ensures Chain(ReadPacket, ps, wires) && wires[0] == EncodeAll(ps) + part
  {
    wires := seq(|ps| + 1, i requires 0 <= i <= |ps| => WireFrom(ps, part, i));
    forall i | 0 <= i < |ps| ensures Yields(ReadPacket, wires[i], ps[i], wires[i + 1]) {
      var tail := FirstEncoded(ps[i..], part);
      assert ps[i..][1..] == ps[i + 1..];
      EncodedYields(ps[i], tail);
    }
    assert ps[0..] == ps && ps[|ps|..] == [];
    assert wires[|ps|] == part;
  }

  /** Whole packets followed by less than one: whatever is read are the first of the whole ones. */
  lemma ReadsWholePackets(ps: seq<Packet>, part: seq<Byte>, m: nat, sched: seq<RecvResult>)
    requires Unreadable(part) && forall i :: 0 <= i < |ps| ==> Fits(ps[i])
    ensures var qs := ReadMany(m, EncodeAll(ps) + part, sched).0;
            |qs| <= |ps| && qs == ps[..|qs|]
  {
    var wires := EncodedChain(ps, part);
    ChainReads(ReadPacket, ps, wires, 0, m, sched);
  }

  // ── When a read fails ──────────────────────────────────────────────────────

  /** The blocks readTcpPacket asks for: each packet's header, then its payload. */
  function Blocks(ps: seq<Packet>): (bs: seq<nat>)
  {
    if ps == [] then [] else [HEADER_LEN, |ps[0].payload|] + Blocks(ps[1..])
  }

  /** The schedule reports no error and no end of stream, and every count is positive. */
  predicate Healthy(sched: seq<RecvResult>) {
    forall i :: 0 <= i < |sched| ==> sched[i].Interrupted? || sched[i].Again? || (sched[i].Got? && sched[i].n > 0)
  }

  /**
    An EAGAIN arrives when a block has been asked for and none of it has been read: counting
    only block sizes and the schedule's counts, never the bytes.
   */
  function AgainAtBlockStart(blocks: seq<nat>, got: nat, sched: seq<RecvResult>): bool
    requires blocks != [] ==> got <= blocks[0]
    decreases |sched| + |blocks|
  {
    if blocks == [] then false
    else if got == blocks[0] then AgainAtBlockStart(blocks[1..], 0, sched)
    else if sched == [] then false
    else if sched[0].Again? && got == 0 then true
    else
      var k := if sched[0].Got? then Min(sched[0].n, blocks[0] - got) else 0;
      AgainAtBlockStart(blocks, got + k, sched[1..])
  }

  /** Within one block. */
  lemma {:induction false} RecvBreaksAtStart(want: nat, got: nat, incoming: seq<Byte>, sched: seq<RecvResult>,
                                             blocks: seq<nat>)
    requires Healthy(sched) && want <= |incoming|
    ensures var r := RecvExactly(want, got, incoming, sched);
            && (r.Broken? ==> AgainAtBlockStart([got + want] + blocks, got, sched))
            && (r.Waiting? ==> !AgainAtBlockStart([got + want] + blocks, got, sched))
            && (r.Received? ==>
                 && Healthy(r.sched)
                 && (AgainAtBlockStart([got + want] + blocks, got, sched) <==> AgainAtBlockStart(blocks, 0, r.sched)))
    decreases |sched|
  {
    if want == 0 {
      assert ([got] + blocks)[1..] == blocks;
    } else if sched != [] {
      assert forall i :: 0 <= i < |sched[1..]| ==> sched[1..][i] == sched[i + 1];
      if sched[0].Interrupted? {
        RecvBreaksAtStart(want, got, incoming, sched[1..], blocks);
      } else {
        var k := Count(sched[0], want, incoming);
        if k > 0 || got > 0 {
          RecvBreaksAtStart(want - k, got + k, incoming[k..], sched[1..], blocks);
        }
      }
    }
  }

  /** Within one packet. */
  lemma PacketBreaksAtStart(p: Packet, tail: seq<Byte>, sched: seq<RecvResult>, blocks: seq<nat>)
    requires Fits(p) && Healthy(sched)
    ensures var r := ReadPacket(Encode(p) + tail, sched);
            var all := [HEADER_LEN] + ([|p.payload|] + blocks);
            && (r.ReadFailed? ==> AgainAtBlockStart(all, 0, sched))
            && (r.ReadWaiting? ==> !AgainAtBlockStart(all, 0, sched))
            && (r.Read? ==>
                 && Healthy(r.sched)
                 && (AgainAtBlockStart(all, 0, sched) <==> AgainAtBlockStart(blocks, 0, r.sched)))
  {
    var wire := Encode(p) + tail;
    EncodedHead(p, tail);
    RecvBreaksAtStart(HEADER_LEN, 0, wire, sched, [|p.payload|] + blocks);
    var r1 := RecvExactly(HEADER_LEN, 0, wire, sched);
    if r1.Received? {
      RecvBreaksAtStart(|p.payload|, 0, r1.rest, r1.sched, blocks);
    }
  }

  /**
    With a healthy schedule, reading back the packets fails exactly when an EAGAIN lands at
    the start of a header or of a payload.
   */
  lemma {:induction false} FailsIffAgainAtStart(ps: seq<Packet>, rest: seq<Byte>, sched: seq<RecvResult>)
    requires forall i :: 0 <= i < |ps| ==> Fits(ps[i])
    requires Healthy(sched)
    ensures ReadMany(|ps|, EncodeAll(ps) + rest, sched).1 == Failed <==> AgainAtBlockStart(Blocks(ps), 0, sched)
    decreases ps
  {
    if ps != [] {
      var tail := FirstEncoded(ps, rest);
      BlocksHead(ps);
      PacketBreaksAtStart(ps[0], tail, sched, Blocks(ps[1..]));
      ReadEncoded(ps[0], tail, sched);
      var r := ReadPacket(Encode(ps[0]) + tail, sched);
      if r.Read? {
        FailsIffAgainAtStart(ps[1..], rest, r.sched);
      }
    }
  }

  lemma BlocksHead(ps: seq<Packet>)
    requires ps != []
    ensures Blocks(ps) == [HEADER_LEN] + ([|ps[0].payload|] + Blocks(ps[1..]))
  {
  }

  /** An EAGAIN between a header and its payload: the packet is lost, although all of it arrives. */
  lemma AgainAfterHeaderFails(p: Packet, rest: seq<Byte>)
    requires Fits(p) && p.payload != []
    ensures var sched := [Got(HEADER_LEN), Again, Got(|p.payload|)];
            Healthy(sched) && ReadMany(1, Encode(p) + rest, sched) == ([], Failed)
  {
    var sched, wire := [Got(HEADER_LEN), Again, Got(|p.payload|)], Encode(p) + rest;
    EncodedHead(p, rest);
    RecvAtOnce(HEADER_LEN, wire, sched);
    assert RecvExactly(|p.payload|, 0, wire[HEADER_LEN..], sched[1..]) == Broken;
  }

  // ── When a read waits ──────────────────────────────────────────────────────

  /** How many calls of the schedule deliver bytes. */
  function Deliveries(sched: seq<RecvResult>): nat {
    if sched == [] then 0 else (if sched[0].Got? then 1 else 0) + Deliveries(sched[1..])
  }

  lemma {:induction false} RecvProgress(want: nat, got: nat, incoming: seq<Byte>, sched: seq<RecvResult>)
    requires Healthy(sched) && want <= |incoming|
    ensures var r := RecvExactly(want, got, incoming, sched);
            && (r.Waiting? ==> Deliveries(sched) < want)
            && (r.Received? ==> Healthy(r.sched) && Deliveries(sched) <= Deliveries(r.sched) + want)
    decreases |sched|
  {
    if want > 0 && sched != [] {
      assert forall i :: 0 <= i < |sched[1..]| ==> sched[1..][i] == sched[i + 1];
      var k := Count(sched[0], want, incoming);
      if sched[0].Interrupted? || k > 0 || got > 0 {
        RecvProgress(want - k, got + k, incoming[k..], sched[1..]);
      }
    }
  }

  lemma PacketProgress(p: Packet, tail: seq<Byte>, sched: seq<RecvResult>)
    requires Fits(p) && Healthy(sched)
    ensures var r := ReadPacket(Encode(p) + tail, sched);
            && (r.ReadWaiting? ==> Deliveries(sched) < |Encode(p)|)
            && (r.Read? ==> Healthy(r.sched) && Deliveries(sched) <= Deliveries(r.sched) + |Encode(p)|)
  {
    var wire := Encode(p) + tail;
    EncodedHead(p, tail);
    RecvProgress(HEADER_LEN, 0, wire, sched);
    var r1 := RecvExactly(HEADER_LEN, 0, wire, sched);
    if r1.Received? {
      RecvProgress(|p.payload|, 0, r1.rest, r1.sched);
    }
  }

  lemma {:induction false} WaitsOnlyForBytes(ps: seq<Packet>, rest: seq<Byte>, sched: seq<RecvResult>)
    requires forall i :: 0 <= i < |ps| ==> Fits(ps[i])
    requires Healthy(sched)
    ensures ReadMany(|ps|, EncodeAll(ps) + rest, sched).1 == Starved ==> Deliveries(sched) < |EncodeAll(ps)|
    decreases ps
  {
    if ps != [] {
      var tail := FirstEncoded(ps, rest);
      PacketProgress(ps[0], tail, sched);
      ReadEncoded(ps[0], tail, sched);
      var r := ReadPacket(Encode(ps[0]) + tail, sched);
      if r.Read? {
        WaitsOnlyForBytes(ps[1..], rest, r.sched);
      }
    }
  }

  /**
    Every list of packets comes back whole from every healthy schedule that delivers at least
    one byte per byte sent and raises no EAGAIN at the start of a header or payload.
   */
  lemma FramingComplete(ps: seq<Packet>, rest: seq<Byte>, sched: seq<RecvResult>)
    requires forall i :: 0 <= i < |ps| ==> Fits(ps[i])
    requires Healthy(sched) && Deliveries(sched) >= |EncodeAll(ps)|
    requires !AgainAtBlockStart(Blocks(ps), 0, sched)
    ensures ReadMany(|ps|, EncodeAll(ps) + rest, sched) == (ps, Done)
  {
    FailsIffAgainAtStart(ps, rest, sched);
    WaitsOnlyForBytes(ps, rest, sched);
    FramingRoundTrip(ps, rest, sched);
    assert ps[..|ps|] == ps;
  }

  // ── The socket, in place ───────────────────────────────────────────────────

  class TcpSocket {
    /** Bytes handed to the network so far, and bytes arrived but not yet read. */
    var sent: seq<Byte>
    var incoming: seq<Byte>

    constructor (incoming: seq<Byte>)
      ensures sent == [] && this.incoming == incoming
    {
      sent, this.incoming := [], incoming;
    }

    /** Whatever the schedule, a prefix of `data` goes out; all of it exactly when the send is Done. */
    method SendExactly(data: seq<Byte>, sched: seq<SendResult>) returns (status: Status, rest: seq<SendResult>)
      modifies this`sent
      ensures status == SendOutcome(|data|, sched).0 && rest == SendOutcome(|data|, sched).2
      ensures sent == old(sent) + data[..SendOutcome(|data|, sched).1]
    {
      var written, i := 0, 0;
      assert sched[0..] == sched;
      while written < |data|
        invariant 0 <= written <= |data| && 0 <= i <= |sched|
        invariant sent == old(sent) + data[..written]
        invariant var (st, n, left) := SendOutcome(|data| - written, sched[i..]);
                  SendOutcome(|data|, sched) == (st, written + n, left)
        decreases |sched| - i
      {
        if i == |sched| { return Starved, []; }
        var res := sched[i];
        assert sched[i..][1..] == sched[i + 1..];
        i := i + 1;
        if res.SendRetry? { continue; }
        if res.SendError? || res.n == 0 { return Failed, sched[i..]; }
        var k := Min(res.n, |data| - written);
        sent := sent + data[written..written + k];
        written := written + k;
      }
      assert data[..written] == data;
      return Done, sched[i..];
    }

    /** recvExactly: `buf` holds the next `len` bytes when Done; otherwise the connection broke or the call waits. */
    method Receive(len: nat, sched: seq<RecvResult>) returns (status: Status, buf: seq<Byte>, rest: seq<RecvResult>)
      modifies this`incoming
      ensures status == Done <==> RecvExactly(len, 0, old(incoming), sched).Received?
      ensures status == Starved <==> RecvExactly(len, 0, old(incoming), sched).Waiting?
      ensures status == Done ==>
                && len <= |old(incoming)| && buf == old(incoming)[..len] && incoming == old(incoming)[len..]
                && rest == RecvExactly(len, 0, old(incoming), sched).sched
    {
      var i := 0;
      buf := [];
      assert sched[0..] == sched;
      while |buf| < len
        invariant |buf| <= len && 0 <= i <= |sched| && |buf| <= |old(incoming)|
        invariant buf == old(incoming)[..|buf|] && incoming == old(incoming)[|buf|..]
        invariant RecvExactly(len, 0, old(incoming), sched) == RecvExactly(len - |buf|, |buf|, incoming, sched[i..])
        decreases |sched| - i
      {
        if i == |sched| { return Starved, buf, []; }
        var res := sched[i];
        assert sched[i..][1..] == sched[i + 1..];
        i := i + 1;
        if res.Interrupted? { continue; }
        if res.RecvError? || res.PeerClosed? { return Failed, buf, sched[i..]; }
        var k := Count(res, len - |buf|, incoming);
        if k == 0 && buf == [] { return Failed, buf, sched[i..]; }
        assert incoming[k..] == old(incoming)[|buf| + k..];
        buf, incoming := buf + incoming[..k], incoming[k..];
      }
      return Done, buf, sched[i..];
    }

    /** readTcpPacket on this socket. */
    method ReadTcpPacket(sched: seq<RecvResult>) returns (status: Status, p: Packet, rest: seq<RecvResult>)
      modifies this`incoming
      ensures status == Done <==> ReadPacket(old(incoming), sched).Read?
      ensures status == Starved <==> ReadPacket(old(incoming), sched).ReadWaiting?
      ensures status == Done ==> ReadPacket(old(incoming), sched) == Read(p, incoming, rest)
    {
      p := Packet(0, 0, 0, 0, []);
      var head, payload;
      status, head, rest := Receive(HEADER_LEN, sched);
      if status != Done { return; }
      var h := DecodeHeader(head);
      assert h == DecodeHeader(old(incoming));
      payload := [];
      if h.payloadLen > 0 {
        status, payload, rest := Receive(h.payloadLen, rest);
        if status != Done { return; }
      }
      p := Packet(h.cmdType, h.deviceId, h.endpoint, h.seqNo, payload);
    }
  }
}
