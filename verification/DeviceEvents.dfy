/**
  DEVICE_EVENT from the firmware's send_device_event (device_session.c) to the branch that
  onTcpReadable takes in the daemon (HubServer.cpp), byte for byte.

  The event socket is shared by all sessions, opened when it is needed and closed when a send
  falls short, and an event that cannot be sent is dropped.
 */
module DeviceEvents {
  import opened Wire
  import opened TcpStream
  import Table = SessionTable
  import Tasks = TaskProtocol

  const DEVICE_BASE_PORT := 7789
  const PAYLOAD_LEN := 8
  const PACKET_LEN := HEADER_LEN + PAYLOAD_LEN
  const CONNECT: Byte := 1
  const DISCONNECT: Byte := 2

  datatype Config = Config(deviceId: Byte, speed: Byte, usbClass: Byte, subclass: Byte, protocol: Byte)

  /**
    One call of send_device_event: its arguments, the session's header number, and how socket,
    connect and send turn out (`sent` bytes are taken, 0 on an error).
   */
  datatype Attempt = Attempt(cfg: Config, seqNo: Byte, connect: bool, socketOk: bool, connectOk: bool, sent: nat)

  /** send_device_event's packet. */
  function EventPacket(a: Attempt): (p: Packet)
    ensures Fits(p) && |p.payload| == PAYLOAD_LEN && |Encode(p)| == PACKET_LEN
  {
    var port := DEVICE_BASE_PORT + a.cfg.deviceId;
    Packet(CMD_DEVICE_EVENT, a.cfg.deviceId, 0, a.seqNo,
           [a.cfg.deviceId, if a.connect then CONNECT else DISCONNECT, a.cfg.speed, a.cfg.usbClass, a.cfg.subclass,
            a.cfg.protocol, port % 256, port / 256])
  }

  /** The packet's fields: command 0x10, then the device, 1 for CONNECT or 2 for DISCONNECT, and the port last. */
  lemma EventLayout(a: Attempt)
    ensures var p := EventPacket(a);
            && p.cmdType == 0x10 && p.deviceId == a.cfg.deviceId && p.endpoint == 0 && p.seqNo == a.seqNo
            && |p.payload| == 8 && p.payload[0] == a.cfg.deviceId && p.payload[1] == (if a.connect then 1 else 2)
            && p.payload[2] == a.cfg.speed && p.payload[3] == a.cfg.usbClass
            && p.payload[4] == a.cfg.subclass && p.payload[5] == a.cfg.protocol
            && p.payload[6] as int + 256 * (p.payload[7] as int) == 7789 + a.cfg.deviceId
  {}

  function EventPackets(attempts: seq<Attempt>): (ps: seq<Packet>)
    ensures |ps| == |attempts| && forall i :: 0 <= i < |ps| ==> ps[i] == EventPacket(attempts[i]) && Fits(ps[i])
  {
    seq(|attempts|, i requires 0 <= i < |attempts| => EventPacket(attempts[i]))
  }

  // ── The event socket ───────────────────────────────────────────────────────

  /** The bytes taken by each connection closed so far, and by the open one, if any. */
  datatype Link = Link(closed: seq<seq<Byte>>, current: Option<seq<Byte>>)

  const NO_LINK := Link([], None)

  function Streams(l: Link): seq<seq<Byte>> {
    l.closed + (if l.current.Some? then [l.current.value] else [])
  }

  function EnsureConnected(l: Link, a: Attempt): Link {
    if l.current.None? && a.socketOk && a.connectOk then l.(current := Some([])) else l
  }

  /** A short or failed send closes the connection. */
  function SendOn(l: Link, a: Attempt): Link
    requires l.current.Some?
  {
    var stream := l.current.value + Encode(EventPacket(a))[..Min(a.sent, PACKET_LEN)];
    if a.sent >= PACKET_LEN then l.(current := Some(stream)) else Link(l.closed + [stream], None)
  }

  function Transmit(l: Link, a: Attempt): Link {
    var m := EnsureConnected(l, a);
    if m.current.None? then m else SendOn(m, a)
  }

  function TransmitAll(attempts: seq<Attempt>): Link
    decreases |attempts|
  {
    if attempts == [] then NO_LINK
    else Transmit(TransmitAll(attempts[..|attempts| - 1]), attempts[|attempts| - 1])
  }

  /** The connection is up after the last attempt, told from the outcomes alone. */
  predicate Up(attempts: seq<Attempt>)
    decreases |attempts|
  {
    attempts != [] &&
    var a := attempts[|attempts| - 1];
    a.sent >= PACKET_LEN && (Up(attempts[..|attempts| - 1]) || (a.socketOk && a.connectOk))
  }

  lemma {:induction false} UpIsCurrent(attempts: seq<Attempt>)
    ensures TransmitAll(attempts).current.Some? <==> Up(attempts)
    decreases |attempts|
  {
    if attempts != [] {
      UpIsCurrent(attempts[..|attempts| - 1]);
    }
  }

  /** An attempt succeeds when it leaves the connection up. */
  predicate SucceedsAt(attempts: seq<Attempt>, i: nat)
    requires i < |attempts|
  {
    Up(attempts[..i + 1])
  }

  // ── What a connection carries ──────────────────────────────────────────────

  /** The attempts `from` up to `to`, and the first `part` bytes of the next one's packet. */
  datatype Span = Span(from: nat, to: nat, part: nat)

  predicate SpanOk(attempts: seq<Attempt>, s: Span) {
    s.from <= s.to <= |attempts| && s.part < PACKET_LEN && (s.part > 0 ==> s.to < |attempts|)
  }

  function Carried(attempts: seq<Attempt>, s: Span): seq<Byte>
    requires SpanOk(attempts, s)
  {
    EncodeAll(EventPackets(attempts[s.from..s.to]))
    + (if s.part == 0 then [] else Encode(EventPacket(attempts[s.to]))[..s.part])
  }

  predicate InSpan(s: Span, i: nat) {
    s.from <= i < s.to
  }

  /**
    `spans` describes the connections of `l` in the order they were opened: each carries
    consecutive attempts and at most a part of one more, they do not overlap, and the open
    one reaches up to the last attempt.
   */
  ghost predicate Describes(attempts: seq<Attempt>, l: Link, spans: seq<Span>) {
    && |spans| == |Streams(l)|
    && (forall k :: 0 <= k < |spans| ==> SpanOk(attempts, spans[k]) && Streams(l)[k] == Carried(attempts, spans[k]))
    && (forall j, k :: 0 <= j < k < |spans| ==> spans[j].to < spans[k].from)
    && (forall k :: 0 <= k < |l.closed| ==> spans[k].to < |attempts|)
    && (l.current.Some? ==> spans[|l.closed|].to == |attempts| && spans[|l.closed|].part == 0)
  }

  /** Some connection carries attempt `i` whole. */
  ghost predicate Covered(spans: seq<Span>, i: nat) {
    exists k :: 0 <= k < |spans| && InSpan(spans[k], i)
  }

  /** A new connection starts at attempt `n`. */
  function OpenSpan(spans: seq<Span>, l: Link, a: Attempt, n: nat): seq<Span> {
    if l.current.None? && a.socketOk && a.connectOk then spans + [Span(n, n, 0)] else spans
  }

  function SendSpan(s: Span, a: Attempt, n: nat): Span {
    if a.sent >= PACKET_LEN then Span(s.from, n + 1, 0) else Span(s.from, n, a.sent)
  }

  function NextSpans(spans: seq<Span>, l: Link, a: Attempt, n: nat): seq<Span> {
    var ready := OpenSpan(spans, l, a, n);
    if EnsureConnected(l, a).current.None? || ready == [] then ready
    else ready[|ready| - 1 := SendSpan(ready[|ready| - 1], a, n)]
  }

  /**
    Over every sequence of attempts: each connection carries consecutive attempted events and
    at most a proper part of one more, and exactly the attempts that succeed are on one of them.
   */
  lemma {:induction false} ConnectionsCarry(attempts: seq<Attempt>) returns (spans: seq<Span>)
    ensures Describes(attempts, TransmitAll(attempts), spans)
    ensures forall i :: 0 <= i < |attempts| ==> (Covered(spans, i) <==> SucceedsAt(attempts, i))
    decreases |attempts|
  {
    spans := [];
    if attempts != [] {
      var n := |attempts| - 1;
      var front, a := attempts[..n], attempts[n];
      var was := ConnectionsCarry(front);
      assert front + [a] == attempts;
      spans := NextSpans(was, TransmitAll(front), a, n);
      TransmitDescribes(front, TransmitAll(front), a, was);
      DescribesEnds(front, TransmitAll(front), was);
      CoverageExtends(front, a, was);
    }
  }

  lemma TransmitDescribes(front: seq<Attempt>, l: Link, a: Attempt, spans: seq<Span>)
    requires Describes(front, l, spans)
    ensures Describes(front + [a], Transmit(l, a), NextSpans(spans, l, a, |front|))
  {
    var ready := OpenSpan(spans, l, a, |front|);
    OpenDescribes(front, l, a, spans);
    if EnsureConnected(l, a).current.Some? {
      SendDescribes(front, EnsureConnected(l, a), a, ready);
    } else {
      StillDescribes(front, l, a, spans);
    }
  }

  lemma CarriedExtends(front: seq<Attempt>, a: Attempt, s: Span)
    requires SpanOk(front, s)
    ensures SpanOk(front + [a], s) && Carried(front + [a], s) == Carried(front, s)
  {
    assert (front + [a])[s.from..s.to] == front[s.from..s.to];
  }

  lemma OpenDescribes(front: seq<Attempt>, l: Link, a: Attempt, spans: seq<Span>)
    requires Describes(front, l, spans)
    ensures Describes(front, EnsureConnected(l, a), OpenSpan(spans, l, a, |front|))
  {
    if l.current.None? && a.socketOk && a.connectOk {
      assert front[|front|..|front|] == [];
      assert Streams(EnsureConnected(l, a)) == Streams(l) + [[]];
    }
  }

  lemma StillDescribes(front: seq<Attempt>, l: Link, a: Attempt, spans: seq<Span>)
    requires Describes(front, l, spans) && l.current.None?
    ensures Describes(front + [a], l, spans)
  {
    forall k | 0 <= k < |spans|
      ensures SpanOk(front + [a], spans[k]) && Streams(l)[k] == Carried(front + [a], spans[k])
    {
      CarriedExtends(front, a, spans[k]);
    }
  }

  /** The open connection takes the whole packet or a part of it. */
  lemma SendCarried(front: seq<Attempt>, a: Attempt, s: Span)
    requires SpanOk(front, s) && s.to == |front| && s.part == 0
    ensures var r := SendSpan(s, a, |front|);
            && SpanOk(front + [a], r)
            && Carried(front + [a], r) == Carried(front, s) + Encode(EventPacket(a))[..Min(a.sent, PACKET_LEN)]
  {
    var all, r := front + [a], SendSpan(s, a, |front|);
    var ps, p := EventPackets(front[s.from..s.to]), EventPacket(a);
    if a.sent >= PACKET_LEN {
      assert all[r.from..r.to] == front[s.from..s.to] + [a];
      assert EventPackets(all[r.from..r.to]) == ps + [p];
      EncodeAllAppend(ps, [p]);
      EncodeOne(p);
      assert Encode(p)[..PACKET_LEN] == Encode(p);
    } else {
      assert all[r.from..r.to] == front[s.from..s.to];
    }
  }

  lemma SendDescribes(front: seq<Attempt>, l: Link, a: Attempt, spans: seq<Span>)
    requires Describes(front, l, spans) && l.current.Some?
    ensures Describes(front + [a], SendOn(l, a), spans[|spans| - 1 := SendSpan(spans[|spans| - 1], a, |front|)])
  {
    var all, m, c := front + [a], SendOn(l, a), |l.closed|;
    var sent := spans[c := SendSpan(spans[c], a, |front|)];
    SendCarried(front, a, spans[c]);
    assert Streams(l)[c] == l.current.value && Streams(m)[c] == Carried(all, sent[c]);
    forall k | 0 <= k < |sent| ensures SpanOk(all, sent[k]) && Streams(m)[k] == Carried(all, sent[k]) {
      if k < c {
        CarriedExtends(front, a, spans[k]);
        assert Streams(m)[k] == l.closed[k] == Streams(l)[k];
      }
    }
  }

  /** The last attempt is covered exactly when it succeeds; the coverage of the others stays. */
  lemma CoverageExtends(front: seq<Attempt>, a: Attempt, was: seq<Span>)
    requires EndAt(was, TransmitAll(front), |front|)
    requires forall i :: 0 <= i < |front| ==> (Covered(was, i) <==> SucceedsAt(front, i))
    ensures var all, spans := front + [a], NextSpans(was, TransmitAll(front), a, |front|);
            forall i :: 0 <= i < |all| ==> (Covered(spans, i) <==> SucceedsAt(all, i))
  {
    var n, l, all := |front|, TransmitAll(front), front + [a];
    UpIsCurrent(front);
    assert all[..n] == front && all[..n + 1] == all;
    LastCoverage(was, l, a, n);
    forall i | 0 <= i < n ensures Covered(NextSpans(was, l, a, n), i) <==> SucceedsAt(all, i) {
      assert all[..i + 1] == front[..i + 1];
      EarlierCoverage(was, l, a, n, i);
    }
  }

  lemma DescribesEnds(attempts: seq<Attempt>, l: Link, spans: seq<Span>)
    requires Describes(attempts, l, spans)
    ensures EndAt(spans, l, |attempts|)
  {}

  /** No span reaches past attempt `n`, and the open connection's reaches up to it. */
  ghost predicate EndAt(spans: seq<Span>, l: Link, n: nat) {
    && (forall k :: 0 <= k < |spans| ==> spans[k].to <= n)
    && (l.current.Some? ==> spans != [] && spans[|spans| - 1].from <= spans[|spans| - 1].to == n)
  }

  lemma EarlierCoverage(was: seq<Span>, l: Link, a: Attempt, n: nat, i: nat)
    requires EndAt(was, l, n) && i < n
    ensures Covered(NextSpans(was, l, a, n), i) <==> Covered(was, i)
  {
    SameCoverage(was, NextSpans(was, l, a, n), i);
  }

  lemma LastCoverage(was: seq<Span>, l: Link, a: Attempt, n: nat)
    requires EndAt(was, l, n)
    ensures Covered(NextSpans(was, l, a, n), n) <==> EnsureConnected(l, a).current.Some? && a.sent >= PACKET_LEN
  {
    var spans := NextSpans(was, l, a, n);
    if EnsureConnected(l, a).current.Some? && a.sent >= PACKET_LEN {
      assert InSpan(spans[|spans| - 1], n);
    } else {
      assert forall k :: 0 <= k < |spans| ==> !InSpan(spans[k], n);
    }
  }

  lemma SameCoverage(was: seq<Span>, spans: seq<Span>, i: nat)
    requires |was| <= |spans|
    requires forall k :: 0 <= k < |was| ==> (InSpan(spans[k], i) <==> InSpan(was[k], i))
    requires forall k :: |was| <= k < |spans| ==> !InSpan(spans[k], i)
    ensures Covered(spans, i) <==> Covered(was, i)
  {
    if k :| 0 <= k < |was| && InSpan(was[k], i) {
      assert InSpan(spans[k], i);
    }
  }

  // ── What the daemon reads ──────────────────────────────────────────────────

  /** What onTcpReadable makes of a packet, as far as the session table is concerned. */
  function Interpret(p: Packet): Table.Message {
    if p.cmdType != CMD_DEVICE_EVENT || |p.payload| < PAYLOAD_LEN then Table.NoChange
    else if p.payload[1] == CONNECT then Table.Connect(p.payload[0])
    else if p.payload[1] == DISCONNECT then Table.Disconnect(p.payload[0])
    else Table.NoChange
  }

  /** The CONNECTs (true) and DISCONNECTs (false) of `dev` among the packets, in order. */
  function EventsRead(ps: seq<Packet>, dev: Byte): seq<bool>
    decreases |ps|
  {
    if ps == [] then []
    else
      var m := Interpret(ps[|ps| - 1]);
      EventsRead(ps[..|ps| - 1], dev)
      + (if m == Table.Connect(dev) then [true] else if m == Table.Disconnect(dev) then [false] else [])
  }

  /** The events attempted for `dev`, in order. */
  function EventsOf(attempts: seq<Attempt>, dev: Byte): seq<bool>
    decreases |attempts|
  {
    if attempts == [] then []
    else
      var a := attempts[|attempts| - 1];
      EventsOf(attempts[..|attempts| - 1], dev) + (if a.cfg.deviceId == dev then [a.connect] else [])
  }

  lemma {:induction false} EventsOfAppend(a: seq<Attempt>, b: seq<Attempt>, dev: Byte)
    ensures EventsOf(a + b, dev) == EventsOf(a, dev) + EventsOf(b, dev)
    decreases |b|
  {
    if b == [] {
      assert a + b == a;
    } else {
      assert (a + b)[..|a + b| - 1] == a + b[..|b| - 1];
      EventsOfAppend(a, b[..|b| - 1], dev);
    }
  }

  lemma {:induction false} AttemptsReadBack(attempts: seq<Attempt>, dev: Byte)
    ensures EventsRead(EventPackets(attempts), dev) == EventsOf(attempts, dev)
    decreases |attempts|
  {
    if attempts != [] {
      var n := |attempts| - 1;
      AttemptsReadBack(attempts[..n], dev);
      assert EventPackets(attempts)[..n] == EventPackets(attempts[..n]);
    }
  }

  /** How many of the events attempted for `dev` come before the connection was opened. */
  function EarlierEvents(attempts: seq<Attempt>, s: Span, dev: Byte): nat
    requires SpanOk(attempts, s)
  {
    |EventsOf(attempts[..s.from], dev)|
  }

  /**
    Whatever the receive schedule, the events of a device that the daemon reads off one
    connection are the events attempted for it, without a gap, from the opening of the
    connection on; the first is the opening attempt's if that was this device's.
   */
  lemma ConnectionReads(attempts: seq<Attempt>, s: Span, dev: Byte, m: nat, sched: seq<RecvResult>)
    requires SpanOk(attempts, s)
    ensures var events, got := EventsOf(attempts, dev), EventsRead(ReadMany(m, Carried(attempts, s), sched).0, dev);
            var i := EarlierEvents(attempts, s, dev);
            && i + |got| <= |events| && got == events[i..i + |got|]
            && (got != [] && attempts[s.from].cfg.deviceId == dev ==> got[0] == attempts[s.from].connect)
  {
    var n := PacketsRead(attempts, s, m, sched);
    SegmentRead(attempts, s.from, s.from + n, dev, ReadMany(m, Carried(attempts, s), sched).0);
  }

  lemma SegmentRead(attempts: seq<Attempt>, from: nat, to: nat, dev: Byte, ps: seq<Packet>)
    requires from <= to <= |attempts| && ps == EventPackets(attempts[from..to])
    ensures var events, got := EventsOf(attempts, dev), EventsRead(ps, dev);
            var i := |EventsOf(attempts[..from], dev)|;
            && i + |got| <= |events| && got == events[i..i + |got|]
            && (got != [] && attempts[from].cfg.deviceId == dev ==> got[0] == attempts[from].connect)
  {
    AttemptsReadBack(attempts[from..to], dev);
    SegmentEvents(attempts, from, to, dev);
  }

  /** The packets read off a connection are those of its first attempts. */
  lemma PacketsRead(attempts: seq<Attempt>, s: Span, m: nat, sched: seq<RecvResult>) returns (n: nat)
    requires SpanOk(attempts, s)
    ensures s.from + n <= s.to
    ensures ReadMany(m, Carried(attempts, s), sched).0 == EventPackets(attempts[s.from..s.from + n])
  {
    var part := PartUnreadable(attempts, s);
    n := BeginningRead(EventPackets(attempts[s.from..s.to]), part, m, sched);
    EventPacketsCut(attempts, s.from, s.to, n);
  }

  lemma BeginningRead(ps: seq<Packet>, part: seq<Byte>, m: nat, sched: seq<RecvResult>) returns (n: nat)
    requires Unreadable(part) && forall i :: 0 <= i < |ps| ==> Fits(ps[i])
    ensures n <= |ps| && ReadMany(m, EncodeAll(ps) + part, sched).0 == ps[..n]
  {
    ReadsWholePackets(ps, part, m, sched);
    n := |ReadMany(m, EncodeAll(ps) + part, sched).0|;
  }

  lemma EventPacketsCut(attempts: seq<Attempt>, from: nat, to: nat, n: nat)
    requires from + n <= to <= |attempts|
    ensures EventPackets(attempts[from..to])[..n] == EventPackets(attempts[from..from + n])
  {}

  lemma PartUnreadable(attempts: seq<Attempt>, s: Span) returns (part: seq<Byte>)
    requires SpanOk(attempts, s)
    ensures Unreadable(part) && Carried(attempts, s) == EncodeAll(EventPackets(attempts[s.from..s.to])) + part
  {
    part := if s.part == 0 then [] else Encode(EventPacket(attempts[s.to]))[..s.part];
    if s.part > 0 {
      PrefixUnreadable(EventPacket(attempts[s.to]), s.part);
    }
  }

  /** The events of consecutive attempts are consecutive among the device's events. */
  lemma SegmentEvents(attempts: seq<Attempt>, from: nat, to: nat, dev: Byte)
    requires from <= to <= |attempts|
    ensures var events, got := EventsOf(attempts, dev), EventsOf(attempts[from..to], dev);
            var i := |EventsOf(attempts[..from], dev)|;
            && i + |got| <= |events| && got == events[i..i + |got|]
            && (got != [] && attempts[from].cfg.deviceId == dev ==> got[0] == attempts[from].connect)
  {
    var pre, seg, post := attempts[..from], attempts[from..to], attempts[to..];
    assert attempts == pre + (seg + post);
    EventsOfAppend(pre, seg + post, dev);
    EventsOfAppend(seg, post, dev);
    if seg != [] {
      FirstEvent(seg, dev);
    }
  }

  lemma FirstEvent(seg: seq<Attempt>, dev: Byte)
    requires seg != []
    ensures var got := EventsOf(seg, dev);
            got != [] && seg[0].cfg.deviceId == dev ==> got[0] == seg[0].connect
  {
    assert seg == [seg[0]] + seg[1..] && [seg[0]][..0] == [];
    EventsOfAppend([seg[0]], seg[1..], dev);
  }

  /** `got` alternates, starting with a CONNECT or not. */
  ghost predicate TakesTurns(got: seq<bool>, connectFirst: bool) {
    forall i :: 0 <= i < |got| ==> got[i] == ((i % 2 == 0) == connectFirst)
  }

  /** The events read off connection `s` take turns, from CONNECT iff an even number came before it was opened. */
  ghost predicate TurnsOn(attempts: seq<Attempt>, s: Span, dev: Byte, m: nat, sched: seq<RecvResult>)
    requires SpanOk(attempts, s)
  {
    TakesTurns(EventsRead(ReadMany(m, Carried(attempts, s), sched).0, dev), EarlierEvents(attempts, s, dev) % 2 == 0)
  }

  lemma SliceTakesTurns(events: seq<bool>, i: nat, got: seq<bool>)
    requires Tasks.Alternating(events) && i + |got| <= |events| && got == events[i..i + |got|]
    ensures TakesTurns(got, i % 2 == 0)
  {
    forall j | 0 <= j < |got| ensures got[j] == ((j % 2 == 0) == (i % 2 == 0)) {
      assert got[j] == events[i + j];
    }
  }

  /**
    From the firmware's tasks to the daemon's table: over every run of the tasks, every way the
    calls of send_device_event turn out, attempts of other sessions in between, and every
    receive schedule, what the daemon reads of a device off one connection takes turns.
   */
  lemma EventsTakeTurns(usbipMode: bool, acts: seq<Tasks.Action>, attempts: seq<Attempt>, dev: Byte)
    returns (spans: seq<Span>)
    requires EventsOf(attempts, dev) == Tasks.Events(Tasks.Run(Tasks.Init(usbipMode), acts).session.log)
    ensures Describes(attempts, TransmitAll(attempts), spans)
    ensures forall k, m: nat, sched :: 0 <= k < |spans| ==> TurnsOn(attempts, spans[k], dev, m, sched)
  {
    spans := ConnectionsCarry(attempts);
    Tasks.ControlTaskLog(usbipMode, acts);
    forall k, m: nat, sched | 0 <= k < |spans| ensures TurnsOn(attempts, spans[k], dev, m, sched) {
      ReadsTakeTurns(attempts, spans[k], dev, m, sched);
    }
  }

  lemma ReadsTakeTurns(attempts: seq<Attempt>, s: Span, dev: Byte, m: nat, sched: seq<RecvResult>)
    requires Tasks.Alternating(EventsOf(attempts, dev)) && SpanOk(attempts, s)
    ensures TurnsOn(attempts, s, dev, m, sched)
  {
    ConnectionReads(attempts, s, dev, m, sched);
    SliceTakesTurns(EventsOf(attempts, dev), EarlierEvents(attempts, s, dev),
                    EventsRead(ReadMany(m, Carried(attempts, s), sched).0, dev));
  }

  /** With a healthy schedule that brings all the bytes, every whole event on a connection is read. */
  lemma ConnectionReadWhole(attempts: seq<Attempt>, s: Span, dev: Byte, sched: seq<RecvResult>)
    requires SpanOk(attempts, s)
    requires var ps := EventPackets(attempts[s.from..s.to]);
             Healthy(sched) && Deliveries(sched) >= |EncodeAll(ps)| && !AgainAtBlockStart(Blocks(ps), 0, sched)
    ensures EventsRead(ReadMany(s.to - s.from, Carried(attempts, s), sched).0, dev)
            == EventsOf(attempts[s.from..s.to], dev)
  {
    var ps := EventPackets(attempts[s.from..s.to]);
    FramingComplete(ps, Carried(attempts, s)[|EncodeAll(ps)|..], sched);
    AttemptsReadBack(attempts[s.from..s.to], dev);
  }

  // ── Over all connections ───────────────────────────────────────────────────

  /** The attempts that arrive, in order; `arrived` says which do. */
  function Received(attempts: seq<Attempt>, arrived: seq<bool>): seq<Attempt>
    requires |arrived| == |attempts|
    decreases |attempts|
  {
    if attempts == [] then []
    else
      var n := |attempts| - 1;
      Received(attempts[..n], arrived[..n]) + (if arrived[n] then [attempts[n]] else [])
  }

  /** How many attempts for `dev` do not. */
  function Missed(attempts: seq<Attempt>, arrived: seq<bool>, dev: Byte): nat
    requires |arrived| == |attempts|
    decreases |attempts|
  {
    if attempts == [] then 0
    else
      var n := |attempts| - 1;
      Missed(attempts[..n], arrived[..n], dev) + (if attempts[n].cfg.deviceId == dev && !arrived[n] then 1 else 0)
  }

  /** Whenever an attempt for `dev` arrives, an even number of them before it did not. */
  ghost predicate MissesInPairs(attempts: seq<Attempt>, arrived: seq<bool>, dev: Byte)
    requires |arrived| == |attempts|
    decreases |attempts|
  {
    attempts == [] ||
    var n := |attempts| - 1;
    && MissesInPairs(attempts[..n], arrived[..n], dev)
    && (attempts[n].cfg.deviceId == dev && arrived[n] ==> Missed(attempts[..n], arrived[..n], dev) % 2 == 0)
  }

  lemma ReceivedExtends(attempts: seq<Attempt>, arrived: seq<bool>, dev: Byte)
    requires |arrived| == |attempts| > 0
    ensures var n := |attempts| - 1;
            EventsOf(Received(attempts, arrived), dev) == EventsOf(Received(attempts[..n], arrived[..n]), dev)
              + (if attempts[n].cfg.deviceId == dev && arrived[n] then [attempts[n].connect] else [])
  {
    var n := |attempts| - 1;
    if arrived[n] {
      EventsOfAppend(Received(attempts[..n], arrived[..n]), [attempts[n]], dev);
      assert [attempts[n]][..0] == [];
    } else {
      assert Received(attempts, arrived) == Received(attempts[..n], arrived[..n]);
    }
  }

  /** What arrives and what is missed together are all attempts; everything arrives iff nothing is missed. */
  lemma {:induction false} ReceivedUnlessMissed(attempts: seq<Attempt>, arrived: seq<bool>, dev: Byte)
    requires |arrived| == |attempts|
    ensures |EventsOf(attempts, dev)| == |EventsOf(Received(attempts, arrived), dev)| + Missed(attempts, arrived, dev)
    ensures EventsOf(Received(attempts, arrived), dev) == EventsOf(attempts, dev)
       <==> Missed(attempts, arrived, dev) == 0
    decreases |attempts|
  {
    if attempts != [] {
      ReceivedUnlessMissed(attempts[..|attempts| - 1], arrived[..|attempts| - 1], dev);
      ReceivedExtends(attempts, arrived, dev);
    }
  }

  /** Whatever arrives of alternating events still alternates from CONNECT exactly when they are missed in pairs. */
  lemma {:induction false} ReceivedAlternate(attempts: seq<Attempt>, arrived: seq<bool>, dev: Byte)
    requires |arrived| == |attempts| && Tasks.Alternating(EventsOf(attempts, dev))
    ensures Tasks.Alternating(EventsOf(Received(attempts, arrived), dev)) <==> MissesInPairs(attempts, arrived, dev)
    decreases |attempts|
  {
    if attempts != [] {
      var n := |attempts| - 1;
      var front, mask, a := attempts[..n], arrived[..n], attempts[n];
      var events, got := EventsOf(front, dev), EventsOf(Received(front, mask), dev);
      AlternatingFront(events, if a.cfg.deviceId == dev then [a.connect] else []);
      ReceivedAlternate(front, mask, dev);
      ReceivedExtends(attempts, arrived, dev);
      ReceivedUnlessMissed(front, mask, dev);
      if a.cfg.deviceId == dev && arrived[n] {
        AlternatingFront(got, [a.connect]);
        Tasks.AlternatingAppend(events, a.connect);
        if Tasks.Alternating(got) {
          Tasks.AlternatingAppend(got, a.connect);
        }
      } else {
        assert got + [] == got;
      }
    }
  }

  lemma AlternatingFront(a: seq<bool>, b: seq<bool>)
    ensures Tasks.Alternating(a + b) ==> Tasks.Alternating(a)
  {
    if Tasks.Alternating(a + b) {
      forall i | 0 <= i < |a| ensures a[i] == (i % 2 == 0) {
        assert a[i] == (a + b)[i];
      }
    }
  }

  lemma {:induction false} ReceivedAppend(a: seq<Attempt>, m: seq<bool>, b: seq<Attempt>, n: seq<bool>)
    requires |a| == |m| && |b| == |n|
    ensures Received(a + b, m + n) == Received(a, m) + Received(b, n)
    decreases |b|
  {
    if b == [] {
      assert a + b == a && m + n == m;
    } else {
      var k := |b| - 1;
      assert (a + b)[..|a| + k] == a + b[..k] && (m + n)[..|a| + k] == m + n[..k];
      ReceivedAppend(a, m, b[..k], n[..k]);
    }
  }

  lemma {:induction false} ReceivedAllOrNone(attempts: seq<Attempt>, arrived: seq<bool>, all: bool)
    requires |arrived| == |attempts| && forall i :: 0 <= i < |arrived| ==> arrived[i] == all
    ensures Received(attempts, arrived) == if all then attempts else []
    decreases |attempts|
  {
    if attempts != [] {
      ReceivedAllOrNone(attempts[..|attempts| - 1], arrived[..|attempts| - 1], all);
    }
  }

  // ── The daemon's reads of all connections ──────────────────────────────────

  /** How often one connection is read, and under which schedule. */
  datatype Reading = Reading(times: nat, sched: seq<RecvResult>)

  function PacketsOff(stream: seq<Byte>, r: Reading): seq<Packet> {
    ReadMany(r.times, stream, r.sched).0
  }

  /** What is read off each connection. */
  function AllPackets(streams: seq<seq<Byte>>, readings: seq<Reading>): (lists: seq<seq<Packet>>)
    requires |streams| == |readings|
    ensures |lists| == |streams|
    ensures forall k :: 0 <= k < |lists| ==> lists[k] == PacketsOff(streams[k], readings[k])
  {
    seq(|streams|, k requires 0 <= k < |streams| => PacketsOff(streams[k], readings[k]))
  }

  /** The events of `dev` in each list of packets. */
  function EventLists(lists: seq<seq<Packet>>, dev: Byte): (events: seq<seq<bool>>)
    ensures |events| == |lists|
  {
    seq(|lists|, k requires 0 <= k < |lists| => EventsRead(lists[k], dev))
  }

  /** The first `k` lists, one after the other. */
  function Flat<T>(lists: seq<seq<T>>, k: nat): seq<T>
    requires k <= |lists|
  {
    if k == 0 then [] else Flat(lists, k - 1) + lists[k - 1]
  }

  /** The events of `dev` read off all connections, in the order they were opened. */
  function ReadOff(streams: seq<seq<Byte>>, readings: seq<Reading>, dev: Byte): seq<bool>
    requires |streams| == |readings|
  {
    Flat(EventLists(AllPackets(streams, readings), dev), |streams|)
  }

  function Counts(lists: seq<seq<Packet>>): (counts: seq<nat>)
    ensures |counts| == |lists|
  {
    seq(|lists|, k requires 0 <= k < |lists| => |lists[k]|)
  }

  /** Attempt `i` is among the first `counts[k]` of some connection `k`. */
  ghost predicate ArrivesAt(spans: seq<Span>, counts: seq<nat>, i: nat)
    requires |counts| == |spans|
  {
    exists k :: 0 <= k < |spans| && spans[k].from <= i < spans[k].from + counts[k]
  }

  ghost function Arrived(n: nat, spans: seq<Span>, counts: seq<nat>): (arrived: seq<bool>)
    requires |counts| == |spans|
    ensures |arrived| == n
  {
    seq(n, i requires 0 <= i < n => ArrivesAt(spans, counts, i))
  }

  /** The spans lie one after the other, and what is read of each lies within it. */
  ghost predicate ReadsWithin(n: nat, spans: seq<Span>, counts: seq<nat>) {
    && |counts| == |spans|
    && (forall k :: 0 <= k < |spans| ==> spans[k].from + counts[k] <= spans[k].to <= n)
    && (forall j, k :: 0 <= j < k < |spans| ==> spans[j].to < spans[k].from)
  }

  /** The attempts read off each connection. */
  ghost function ReadParts(attempts: seq<Attempt>, spans: seq<Span>, counts: seq<nat>): (parts: seq<seq<Attempt>>)
    requires ReadsWithin(|attempts|, spans, counts)
    ensures |parts| == |spans|
  {
    seq(|spans|, k requires 0 <= k < |spans| => attempts[spans[k].from..spans[k].from + counts[k]])
  }

  /** Where connection `k` starts. */
  ghost function Edge(n: nat, spans: seq<Span>, k: nat): nat {
    if k < |spans| then spans[k].from else n
  }

  /** Between what is read of one connection and the start of the next, nothing arrives. */
  lemma GapMissed(n: nat, spans: seq<Span>, counts: seq<nat>, k: nat, i: nat)
    requires ReadsWithin(n, spans, counts) && k <= |spans| && i < Edge(n, spans, k)
    requires k > 0 ==> spans[k - 1].from + counts[k - 1] <= i
    ensures !ArrivesAt(spans, counts, i)
  {
    forall j | 0 <= j < |spans| ensures !(spans[j].from <= i < spans[j].from + counts[j]) {
      if j < k - 1 { assert spans[j].to < spans[k - 1].from; }
      if j > k { assert spans[k].to < spans[j].from; }
    }
  }

  /** What arrives of the attempts before connection `k` was opened. */
  ghost function ArrivedBefore(attempts: seq<Attempt>, spans: seq<Span>, counts: seq<nat>, k: nat): seq<Attempt>
    requires ReadsWithin(|attempts|, spans, counts) && k <= |spans|
  {
    var e := Edge(|attempts|, spans, k);
    Received(attempts[..e], Arrived(|attempts|, spans, counts)[..e])
  }

  lemma {:induction false} ArrivedIsRead(attempts: seq<Attempt>, spans: seq<Span>, counts: seq<nat>, k: nat)
    requires ReadsWithin(|attempts|, spans, counts) && k <= |spans|
    ensures ArrivedBefore(attempts, spans, counts, k) == Flat(ReadParts(attempts, spans, counts), k)
  {
    if k == 0 {
      NothingFirst(attempts, spans, counts);
    } else {
      ArrivedIsRead(attempts, spans, counts, k - 1);
      OneMorePart(attempts, spans, counts, k);
    }
  }

  lemma OneMorePart(attempts: seq<Attempt>, spans: seq<Span>, counts: seq<nat>, k: nat)
    requires ReadsWithin(|attempts|, spans, counts) && 0 < k <= |spans|
    ensures ArrivedBefore(attempts, spans, counts, k)
            == ArrivedBefore(attempts, spans, counts, k - 1) + ReadParts(attempts, spans, counts)[k - 1]
  {
    var n, mask := |attempts|, Arrived(|attempts|, spans, counts);
    ArrivedPart(n, spans, counts, k);
    ReceivedParts(attempts, mask, spans[k - 1].from, spans[k - 1].from + counts[k - 1], Edge(n, spans, k));
  }

  lemma NothingFirst(attempts: seq<Attempt>, spans: seq<Span>, counts: seq<nat>)
    requires ReadsWithin(|attempts|, spans, counts)
    ensures ArrivedBefore(attempts, spans, counts, 0) == []
  {
    var e, mask := Edge(|attempts|, spans, 0), Arrived(|attempts|, spans, counts);
    forall i | 0 <= i < e ensures !mask[..e][i] {
      GapMissed(|attempts|, spans, counts, 0, i);
    }
    ReceivedAllOrNone(attempts[..e], mask[..e], false);
  }

  /** From the start of one connection to that of the next: what is read arrives, the rest does not. */
  lemma ArrivedPart(n: nat, spans: seq<Span>, counts: seq<nat>, k: nat)
    requires ReadsWithin(n, spans, counts) && 0 < k <= |spans|
    ensures var a, e, mask := spans[k - 1].from, Edge(n, spans, k), Arrived(n, spans, counts);
            && a + counts[k - 1] <= e <= n
            && (forall i :: a <= i < a + counts[k - 1] ==> mask[i])
            && (forall i :: a + counts[k - 1] <= i < e ==> !mask[i])
  {
    var a, e, mask := spans[k - 1].from, Edge(n, spans, k), Arrived(n, spans, counts);
    assert a + counts[k - 1] <= e <= n;
    forall i | a <= i < a + counts[k - 1] ensures mask[i] {
      assert spans[k - 1].from <= i < spans[k - 1].from + counts[k - 1];
    }
    forall i | a + counts[k - 1] <= i < e ensures !mask[i] {
      GapMissed(n, spans, counts, k, i);
    }
  }

  lemma ReceivedParts(attempts: seq<Attempt>, mask: seq<bool>, a: nat, b: nat, e: nat)
    requires a <= b <= e <= |attempts| == |mask|
    requires (forall i :: a <= i < b ==> mask[i]) && (forall i :: b <= i < e ==> !mask[i])
    ensures Received(attempts[..e], mask[..e]) == Received(attempts[..a], mask[..a]) + attempts[a..b]
  {
    ReceivedPart(attempts, mask, a, b, true);
    ReceivedPart(attempts, mask, b, e, false);
  }

  lemma ReceivedPart(attempts: seq<Attempt>, mask: seq<bool>, a: nat, b: nat, all: bool)
    requires a <= b <= |attempts| == |mask| && forall i :: a <= i < b ==> mask[i] == all
    ensures Received(attempts[..b], mask[..b])
            == Received(attempts[..a], mask[..a]) + (if all then attempts[a..b] else [])
  {
    var x, m, y, n := attempts[..a], mask[..a], attempts[a..b], mask[a..b];
    assert attempts[..b] == x + y;
    assert mask[..b] == m + n;
    ReceivedJoin(x, m, y, n, all);
  }

  lemma ReceivedJoin(x: seq<Attempt>, m: seq<bool>, y: seq<Attempt>, n: seq<bool>, all: bool)
    requires |x| == |m| && |y| == |n| && forall i :: 0 <= i < |n| ==> n[i] == all
    ensures Received(x + y, m + n) == Received(x, m) + (if all then y else [])
  {
    ReceivedAppend(x, m, y, n);
    ReceivedAllOrNone(y, n, all);
  }

  /** The packets read off each connection are those of its first attempts. */
  ghost predicate ReadAs(attempts: seq<Attempt>, spans: seq<Span>, lists: seq<seq<Packet>>) {
    && ReadsWithin(|attempts|, spans, Counts(lists))
    && forall k :: 0 <= k < |spans| ==>
         lists[k] == EventPackets(attempts[spans[k].from..spans[k].from + Counts(lists)[k]])
  }

  lemma DescribedReads(attempts: seq<Attempt>, l: Link, spans: seq<Span>, readings: seq<Reading>)
    requires Describes(attempts, l, spans) && |readings| == |spans|
    ensures ReadAs(attempts, spans, AllPackets(Streams(l), readings))
  {
    var lists := AllPackets(Streams(l), readings);
    var counts := Counts(lists);
    forall k | 0 <= k < |spans|
      ensures spans[k].from + counts[k] <= spans[k].to <= |attempts|
      ensures lists[k] == EventPackets(attempts[spans[k].from..spans[k].from + counts[k]])
    {
      var n := PacketsRead(attempts, spans[k], readings[k].times, readings[k].sched);
      assert lists[k] == PacketsOff(Carried(attempts, spans[k]), readings[k]);
    }
  }

  lemma PartsReadBack(attempts: seq<Attempt>, spans: seq<Span>, lists: seq<seq<Packet>>, dev: Byte)
    requires ReadAs(attempts, spans, lists)
    ensures Flat(EventLists(lists, dev), |lists|)
            == EventsOf(Flat(ReadParts(attempts, spans, Counts(lists)), |lists|), dev)
  {
    var parts := ReadParts(attempts, spans, Counts(lists));
    forall k | 0 <= k < |lists| ensures EventLists(lists, dev)[k] == EventsOf(parts[k], dev) {
      ReadBack(lists[k], parts[k], dev);
    }
    EventsOfFlat(parts, EventLists(lists, dev), dev, |lists|);
  }

  lemma {:induction false} EventsOfFlat(parts: seq<seq<Attempt>>, events: seq<seq<bool>>, dev: Byte, k: nat)
    requires k <= |parts| == |events|
    requires forall i :: 0 <= i < |parts| ==> events[i] == EventsOf(parts[i], dev)
    ensures Flat(events, k) == EventsOf(Flat(parts, k), dev)
  {
    if k > 0 {
      EventsOfFlat(parts, events, dev, k - 1);
      EventsOfAppend(Flat(parts, k - 1), parts[k - 1], dev);
    }
  }

  lemma ReadBack(ps: seq<Packet>, seg: seq<Attempt>, dev: Byte)
    requires ps == EventPackets(seg)
    ensures EventsRead(ps, dev) == EventsOf(seg, dev)
  {
    AttemptsReadBack(seg, dev);
  }

  /**
    Whatever is read off each connection, under whatever schedules: the device's events read,
    in the order the connections were opened, are those of the attempts in the parts read.
   */
  lemma DaemonReads(attempts: seq<Attempt>, readings: seq<Reading>, dev: Byte) returns (spans: seq<Span>)
    requires |readings| == |Streams(TransmitAll(attempts))|
    ensures var streams := Streams(TransmitAll(attempts));
            var counts := Counts(AllPackets(streams, readings));
            && Describes(attempts, TransmitAll(attempts), spans) && ReadsWithin(|attempts|, spans, counts)
            && (forall i :: 0 <= i < |attempts| ==> (Covered(spans, i) <==> SucceedsAt(attempts, i)))
            && ReadOff(streams, readings, dev)
               == EventsOf(Received(attempts, Arrived(|attempts|, spans, counts)), dev)
  {
    spans := ConnectionsCarry(attempts);
    var lists := AllPackets(Streams(TransmitAll(attempts)), readings);
    DescribedReads(attempts, TransmitAll(attempts), spans, readings);
    PartsReadBack(attempts, spans, lists, dev);
    ArrivedIsRead(attempts, spans, Counts(lists), |spans|);
    var mask := Arrived(|attempts|, spans, Counts(lists));
    assert attempts[..|attempts|] == attempts && mask[..|attempts|] == mask;
  }

  /**
    Over every run of the firmware's tasks, every outcome of the calls and every reading of every
    connection: what the daemon reads of a device alternates from CONNECT exactly when, before
    each of its attempts that is read, an even number of them was not.
   */
  lemma DaemonSeesTurns(usbipMode: bool, acts: seq<Tasks.Action>, attempts: seq<Attempt>, readings: seq<Reading>,
                        dev: Byte) returns (spans: seq<Span>)
    requires EventsOf(attempts, dev) == Tasks.Events(Tasks.Run(Tasks.Init(usbipMode), acts).session.log)
    requires |readings| == |Streams(TransmitAll(attempts))|
    ensures var streams := Streams(TransmitAll(attempts));
            var counts := Counts(AllPackets(streams, readings));
            && Describes(attempts, TransmitAll(attempts), spans) && |counts| == |spans|
            && (Tasks.Alternating(ReadOff(streams, readings, dev))
                <==> MissesInPairs(attempts, Arrived(|attempts|, spans, counts), dev))
  {
    spans := DaemonReads(attempts, readings, dev);
    Tasks.ControlTaskLog(usbipMode, acts);
    var counts := Counts(AllPackets(Streams(TransmitAll(attempts)), readings));
    ReceivedAlternate(attempts, Arrived(|attempts|, spans, counts), dev);
  }

  /** The attempts whose send took the whole packet. */
  ghost function Taken(attempts: seq<Attempt>): (arrived: seq<bool>)
    ensures |arrived| == |attempts|
  {
    seq(|attempts|, i requires 0 <= i < |attempts| => SucceedsAt(attempts, i))
  }

  /** When every connection is read whole, what arrives is what the sends took. */
  lemma WholeReadsTaken(attempts: seq<Attempt>, readings: seq<Reading>, dev: Byte) returns (spans: seq<Span>)
    requires |readings| == |Streams(TransmitAll(attempts))| && Tasks.Alternating(EventsOf(attempts, dev))
    ensures var streams := Streams(TransmitAll(attempts));
            var counts := Counts(AllPackets(streams, readings));
            && Describes(attempts, TransmitAll(attempts), spans) && |counts| == |spans|
            && ((forall k :: 0 <= k < |spans| ==> spans[k].from + counts[k] == spans[k].to) ==>
                 && ReadOff(streams, readings, dev) == EventsOf(Received(attempts, Taken(attempts)), dev)
                 && (Tasks.Alternating(ReadOff(streams, readings, dev))
                     <==> MissesInPairs(attempts, Taken(attempts), dev)))
  {
    spans := DaemonReads(attempts, readings, dev);
    var counts := Counts(AllPackets(Streams(TransmitAll(attempts)), readings));
    if forall k :: 0 <= k < |spans| ==> spans[k].from + counts[k] == spans[k].to {
      WholeIsTaken(attempts, spans, counts);
      ReceivedAlternate(attempts, Taken(attempts), dev);
    }
  }

  lemma WholeIsTaken(attempts: seq<Attempt>, spans: seq<Span>, counts: seq<nat>)
    requires |counts| == |spans| && forall k :: 0 <= k < |spans| ==> spans[k].from + counts[k] == spans[k].to
    requires forall i :: 0 <= i < |attempts| ==> (Covered(spans, i) <==> SucceedsAt(attempts, i))
    ensures Arrived(|attempts|, spans, counts) == Taken(attempts)
  {
    forall i | 0 <= i < |attempts| ensures ArrivesAt(spans, counts, i) <==> SucceedsAt(attempts, i) {
      WholeArrives(spans, counts, i);
    }
  }

  lemma WholeArrives(spans: seq<Span>, counts: seq<nat>, i: nat)
    requires |counts| == |spans| && forall k :: 0 <= k < |spans| ==> spans[k].from + counts[k] == spans[k].to
    ensures ArrivesAt(spans, counts, i) <==> Covered(spans, i)
  {
    if k :| 0 <= k < |spans| && InSpan(spans[k], i) {
      assert spans[k].from <= i < spans[k].from + counts[k];
    }
    if k :| 0 <= k < |spans| && spans[k].from <= i < spans[k].from + counts[k] {
      assert InSpan(spans[k], i);
    }
  }

  // ── Inputs that break the turns ────────────────────────────────────────────

  /** An attempt that gets as far as the send. */
  function Try(cfg: Config, connect: bool, sent: nat): Attempt {
    Attempt(cfg, 0, connect, true, true, sent)
  }

  /** A connection that breaks after one packet, read `times` times. */
  function OneThenBreak(times: nat): Reading {
    Reading(times, [Got(HEADER_LEN), Got(PAYLOAD_LEN), RecvError])
  }

  function Bytes(a: Attempt): seq<Byte> {
    Encode(EventPacket(a))
  }

  lemma TryTransmits(front: seq<Attempt>, a: Attempt, l: Link)
    requires a.socketOk && a.connectOk && l == TransmitAll(front)
    ensures var cur := if l.current.Some? then l.current.value else [];
            TransmitAll(front + [a]) ==
              if a.sent >= PACKET_LEN then Link(l.closed, Some(cur + Bytes(a)))
              else Link(l.closed + [cur + Bytes(a)[..a.sent]], None)
  {
    assert (front + [a])[..|front|] == front;
    assert Encode(EventPacket(a))[..PACKET_LEN] == Encode(EventPacket(a));
  }

  lemma FirstEventRead(a: Attempt, rest: seq<Byte>, times: nat)
    requires times > 0
    ensures EventsRead(PacketsOff(Bytes(a) + rest, OneThenBreak(times)), a.cfg.deviceId) == [a.connect]
  {
    ReadsOneThenBreaks(EventPacket(a), rest, times);
    assert [EventPacket(a)][..0] == [];
  }

  lemma NoEventRead(a: Attempt, n: nat, r: Reading, dev: Byte)
    requires n < PACKET_LEN
    ensures EventsRead(PacketsOff(Bytes(a)[..n], r), dev) == []
  {
    PrefixUnreadable(EventPacket(a), n);
    assert EncodeAll([]) + Bytes(a)[..n] == Bytes(a)[..n];
    ReadsWholePackets([], Bytes(a)[..n], r.times, r.sched);
  }

  lemma ReadOffTwo(streams: seq<seq<Byte>>, r: Reading, dev: Byte, first: seq<bool>, second: seq<bool>)
    requires |streams| == 2
    requires EventsRead(PacketsOff(streams[0], r), dev) == first && EventsRead(PacketsOff(streams[1], r), dev) == second
    ensures ReadOff(streams, [r, r], dev) == first + second
  {
    var events := EventLists(AllPackets(streams, [r, r]), dev);
    assert Flat(events, 1) == first;
    assert Flat(events, 2) == first + second;
  }

  /** A DISCONNECT that cannot be sent: the daemon reads CONNECT off each of two connections. */
  lemma LostDisconnect(cfg: Config, times: nat)
    requires times > 0
    ensures var streams := Streams(TransmitAll([Try(cfg, true, 14), Try(cfg, false, 0), Try(cfg, true, 14)]));
            && |streams| == 2
            && ReadOff(streams, [OneThenBreak(times), OneThenBreak(times)], cfg.deviceId) == [true, true]
  {
    var up, down := Try(cfg, true, 14), Try(cfg, false, 0);
    TryTransmits([], up, NO_LINK);
    assert [] + [up] == [up] && [] + Bytes(up) == Bytes(up);
    TryTransmits([up], down, Link([], Some(Bytes(up))));
    assert [up] + [down] == [up, down] && Bytes(up) + Bytes(down)[..0] == Bytes(up) + [];
    TryTransmits([up, down], up, Link([Bytes(up) + []], None));
    assert [up, down] + [up] == [up, down, up];
    FirstEventRead(up, [], times);
    ReadOffTwo([Bytes(up) + [], Bytes(up) + []], OneThenBreak(times), cfg.deviceId, [true], [true]);
    assert [] + Bytes(up) == Bytes(up) + [];
    assert Streams(TransmitAll([up, down, up])) == [Bytes(up) + [], Bytes(up) + []];
  }

  /** A CONNECT cut short: the daemon reads DISCONNECT first. */
  lemma LostConnect(cfg: Config, times: nat)
    requires times > 0
    ensures var streams := Streams(TransmitAll([Try(cfg, true, 3), Try(cfg, false, 14)]));
            && |streams| == 2
            && ReadOff(streams, [OneThenBreak(times), OneThenBreak(times)], cfg.deviceId) == [false]
  {
    var up, down := Try(cfg, true, 3), Try(cfg, false, 14);
    var cut := Bytes(up)[..3];
    TryTransmits([], up, NO_LINK);
    assert [] + [up] == [up] && [] + cut == cut;
    TryTransmits([up], down, Link([cut], None));
    assert [up] + [down] == [up, down] && [] + Bytes(down) == Bytes(down) + [];
    NoEventRead(up, 3, OneThenBreak(times), cfg.deviceId);
    FirstEventRead(down, [], times);
    ReadOffTwo([cut, Bytes(down) + []], OneThenBreak(times), cfg.deviceId, [], [false]);
    assert Streams(TransmitAll([up, down])) == [cut, Bytes(down) + []];
  }

  /**
    A DISCONNECT that the socket takes but the network loses: every send for the device
    succeeds, another device's failed send opens a new connection, and the daemon reads
    CONNECT off both.
   */
  lemma DisconnectLostInNetwork(cfg: Config, other: Config, times: nat)
    requires times > 0 && other.deviceId != cfg.deviceId
    ensures var attempts := [Try(cfg, true, 14), Try(cfg, false, 14), Try(other, true, 0), Try(cfg, true, 14)];
            var streams := Streams(TransmitAll(attempts));
            && MissesInPairs(attempts, Taken(attempts), cfg.deviceId) && |streams| == 2
            && ReadOff(streams, [OneThenBreak(times), OneThenBreak(times)], cfg.deviceId) == [true, true]
  {
    var up, down, fail := Try(cfg, true, 14), Try(cfg, false, 14), Try(other, true, 0);
    TwoConnections(up, down, fail);
    FirstEventRead(up, Bytes(down), times);
    FirstEventRead(up, [], times);
    ReadOffTwo([Bytes(up) + Bytes(down), Bytes(up) + []], OneThenBreak(times), cfg.deviceId, [true], [true]);
    AllTaken(up, down, fail, cfg.deviceId);
  }

  lemma TwoConnections(up: Attempt, down: Attempt, fail: Attempt)
    requires up.socketOk && up.connectOk && up.sent >= PACKET_LEN
    requires down.socketOk && down.connectOk && down.sent >= PACKET_LEN
    requires fail.socketOk && fail.connectOk && fail.sent == 0
    ensures Streams(TransmitAll([up, down, fail, up])) == [Bytes(up) + Bytes(down), Bytes(up) + []]
  {
    TryTransmits([], up, NO_LINK);
    assert [] + [up] == [up] && [] + Bytes(up) == Bytes(up);
    TryTransmits([up], down, Link([], Some(Bytes(up))));
    assert [up] + [down] == [up, down];
    TryTransmits([up, down], fail, Link([], Some(Bytes(up) + Bytes(down))));
    assert [up, down] + [fail] == [up, down, fail];
    assert Bytes(up) + Bytes(down) + Bytes(fail)[..0] == Bytes(up) + Bytes(down);
    TryTransmits([up, down, fail], up, Link([Bytes(up) + Bytes(down)], None));
    assert [up, down, fail] + [up] == [up, down, fail, up] && [] + Bytes(up) == Bytes(up) + [];
  }

  lemma AllTaken(up: Attempt, down: Attempt, fail: Attempt, dev: Byte)
    requires up.socketOk && up.connectOk && up.sent >= PACKET_LEN
    requires down.socketOk && down.connectOk && down.sent >= PACKET_LEN && fail.cfg.deviceId != dev
    ensures MissesInPairs([up, down, fail, up], Taken([up, down, fail, up]), dev)
  {
    var attempts := [up, down, fail, up];
    forall i | 0 <= i < |attempts| && attempts[i].cfg.deviceId == dev ensures Taken(attempts)[i] {
      assert attempts[..i + 1][|attempts[..i + 1]| - 1] == attempts[i];
    }
    NoneMissed(attempts, Taken(attempts), dev);
  }

  lemma {:induction false} NoneMissed(attempts: seq<Attempt>, arrived: seq<bool>, dev: Byte)
    requires |arrived| == |attempts|
    requires forall i :: 0 <= i < |attempts| && attempts[i].cfg.deviceId == dev ==> arrived[i]
    ensures Missed(attempts, arrived, dev) == 0 && MissesInPairs(attempts, arrived, dev)
    decreases |attempts|
  {
    if attempts != [] {
      NoneMissed(attempts[..|attempts| - 1], arrived[..|attempts| - 1], dev);
    }
  }

  // ── The sender, in place ───────────────────────────────────────────────────

  class EventSender {
    var eventSock: int
    var eventConnected: bool
    /** The bytes each connection has taken; the last is the open one's while there is one. */
    var closed: seq<seq<Byte>>
    var stream: seq<Byte>

    ghost predicate Valid()
      reads this
    {
      eventSock >= 0 <==> eventConnected
    }

    ghost function View(): Link
      reads this
    {
      Link(closed, if eventConnected then Some(stream) else None)
    }

    constructor ()
      ensures Valid() && View() == NO_LINK
    {
      eventSock, eventConnected, closed, stream := -1, false, [], [];
    }

    /** ensure_event_tcp_connected; `fd` is the number a successful socket call returns. */
    method Connect(a: Attempt, fd: nat)
      requires Valid()
      modifies this
      ensures Valid() && View() == EnsureConnected(old(View()), a)
    {
      if eventSock >= 0 && eventConnected { return; }
      if !a.socketOk {
        eventSock, eventConnected := -1, false;
        return;
      }
      eventSock := fd;
      if !a.connectOk {
        eventSock, eventConnected := -1, false;
        return;
      }
      eventConnected, stream := true, [];
    }

    /** send_device_event; the header number is used up exactly when there is a connection. */
    method SendDeviceEvent(a: Attempt, fd: nat) returns (seqNo: Byte)
      requires Valid()
      modifies this
      ensures Valid() && View() == Transmit(old(View()), a)
      ensures seqNo == if EnsureConnected(old(View()), a).current.Some? then (a.seqNo + 1) % 256 else a.seqNo
    {
      Connect(a, fd);
      if eventSock < 0 || !eventConnected { return a.seqNo; }
      seqNo := (a.seqNo + 1) % 256;
      var sent := Min(a.sent, PACKET_LEN);
      stream := stream + Encode(EventPacket(a))[..sent];
      if sent != PACKET_LEN {
        closed := closed + [stream];
        eventSock, eventConnected := -1, false;
      }
    }

    /** Any sequence of calls. */
    method SendAll(attempts: seq<Attempt>, fd: nat)
      requires Valid() && View() == NO_LINK
      modifies this
      ensures Valid() && View() == TransmitAll(attempts)
    {
      for i := 0 to |attempts|
        invariant Valid() && View() == TransmitAll(attempts[..i])
      {
        var _ := SendDeviceEvent(attempts[i], fd);
        assert attempts[..i + 1][..i] == attempts[..i];
      }
      assert attempts[..|attempts|] == attempts;
    }
  }
}
