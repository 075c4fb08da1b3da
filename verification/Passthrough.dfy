/**
  PassthroughHandler.cpp: the bridge between a session's kernel descriptor and its TCP
  connection.  Kernel reads become RAW_DATA packets; RAW_DATA payloads are written back.
 */
module Passthrough {
  import opened Wire
  import opened TcpStream

  const READ_BUF := 65536
  const MAX_PAYLOAD := 65535

  /** One ::read of the kernel descriptor. */
  datatype KernelRead = Data(bytes: seq<Byte>) | Drained | KernelEof | KernelError

  /** One ::write to it; EAGAIN counts as an error there. */
  datatype KernelWrite = Wrote(n: nat) | WriteInterrupted | WriteError

  predicate ReadsFit(input: seq<KernelRead>) {
    forall i :: 0 <= i < |input| && input[i].Data? ==> 0 < |input[i].bytes| <= READ_BUF
  }

  /** The payload_len cap. */
  function Cap(data: seq<Byte>): (r: seq<Byte>)
    ensures |r| <= MAX_PAYLOAD
  {
    if |data| > MAX_PAYLOAD then data[..MAX_PAYLOAD] else data
  }

  function RawPacket(deviceId: Byte, seqNo: nat, data: seq<Byte>): (p: Packet)
    ensures Fits(p)
  {
    Packet(CMD_RAW_DATA, deviceId, 0, seqNo % 256, Cap(data))
  }

  /** The reads before the first one that ends the drain. */
  function Frames(input: seq<KernelRead>): (fs: seq<seq<Byte>>)
    ensures |fs| <= |input|
  {
    if input == [] || !input[0].Data? then [] else [input[0].bytes] + Frames(input[1..])
  }

  lemma {:induction false} FramesAre(input: seq<KernelRead>)
    ensures var fs := Frames(input);
            && (forall i :: 0 <= i < |fs| ==> input[i] == Data(fs[i]))
            && (|fs| < |input| ==> !input[|fs|].Data?)
    decreases input
  {
    if input != [] && input[0].Data? {
      FramesAre(input[1..]);
    }
  }

  /** The drain ends with EAGAIN (or, in a finite schedule, with nothing more to read). */
  predicate EndsDrained(input: seq<KernelRead>) {
    |Frames(input)| == |input| || input[|Frames(input)|].Drained?
  }

  /** Position `i` of the drain: another frame, or its end. */
  lemma FrameAt(input: seq<KernelRead>, i: nat)
    requires i <= |Frames(input)|
    ensures i < |input| && input[i].Data? ==> i < |Frames(input)| && Frames(input)[i] == input[i].bytes
    ensures i == |input| || !input[i].Data? ==>
              && i == |Frames(input)|
              && (EndsDrained(input) <==> i == |input| || input[i].Drained?)
  {
    FramesAre(input);
  }

  function RawPackets(deviceId: Byte, seqNo: nat, frames: seq<seq<Byte>>): (ps: seq<Packet>)
    ensures |ps| == |frames|
    ensures forall i :: 0 <= i < |ps| ==> ps[i] == RawPacket(deviceId, seqNo + i, frames[i])
  {
    seq(|frames|, i requires 0 <= i < |frames| => RawPacket(deviceId, seqNo + i, frames[i]))
  }

  function Payloads(ps: seq<Packet>): (bs: seq<seq<Byte>>) {
    seq(|ps|, i requires 0 <= i < |ps| => ps[i].payload)
  }

  /** Reads that filled the whole buffer. */
  function FullReads(frames: seq<seq<Byte>>): nat {
    if frames == [] then 0 else (if |frames[0]| == READ_BUF then 1 else 0) + FullReads(frames[1..])
  }

  /** A full read loses exactly its last byte, any other read nothing. */
  lemma CapLosesLastByte(frame: seq<Byte>)
    requires |frame| <= READ_BUF
    ensures frame == Cap(frame) + (if |frame| == READ_BUF then frame[READ_BUF - 1..] else [])
    ensures |frame| == |Cap(frame)| + (if |frame| == READ_BUF then 1 else 0)
  {}

  /**
    Kernel-to-device conservation: the payloads, joined, fall short of the reads, joined, by
    one byte per full read; they are equal exactly when no read filled the buffer.
   */
  lemma {:induction false} DrainConserves(deviceId: Byte, seqNo: nat, frames: seq<seq<Byte>>)
    requires forall i :: 0 <= i < |frames| ==> |frames[i]| <= READ_BUF
    ensures var joined := Concat(Payloads(RawPackets(deviceId, seqNo, frames)));
            && |Concat(frames)| == |joined| + FullReads(frames)
            && (joined == Concat(frames) <==> forall i :: 0 <= i < |frames| ==> |frames[i]| <= MAX_PAYLOAD)
    decreases frames
  {
    if frames != [] {
      var ps := Payloads(RawPackets(deviceId, seqNo, frames));
      var qs := Payloads(RawPackets(deviceId, seqNo + 1, frames[1..]));
      DrainConserves(deviceId, seqNo + 1, frames[1..]);
      assert ps[1..] == qs && ps[0] == Cap(frames[0]);
      CapLosesLastByte(frames[0]);
      FullReadsZero(frames);
    }
  }

  /** A drain with one read that fills the buffer: its last byte is missing on the wire. */
  lemma FullReadLosesByte(deviceId: Byte, seqNo: nat, frame: seq<Byte>)
    requires |frame| == READ_BUF
    ensures var joined := Concat(Payloads(RawPackets(deviceId, seqNo, [frame])));
            joined == frame[..READ_BUF - 1] && joined != Concat([frame])
  {
    var ps := Payloads(RawPackets(deviceId, seqNo, [frame]));
    assert ps == [Cap(frame)];
    assert ps[1..] == [] && [frame][1..] == [];
  }

  lemma {:induction false} FullReadsZero(frames: seq<seq<Byte>>)
    requires forall i :: 0 <= i < |frames| ==> |frames[i]| <= READ_BUF
    ensures FullReads(frames) == 0 <==> forall i :: 0 <= i < |frames| ==> |frames[i]| <= MAX_PAYLOAD
    decreases frames
  {
    if frames != [] {
      FullReadsZero(frames[1..]);
      assert forall i :: 0 < i < |frames| ==> frames[i] == frames[1..][i - 1];
    }
  }

  /**
    For every drain whose sends succeed and every receive schedule that delivers the bytes and
    raises no EAGAIN at a block start, readTcpPacket at the other end recovers one packet per
    read, in order, with consecutive sequence numbers and the read's bytes up to the cap.
   */
  lemma DrainedFramesArrive(deviceId: Byte, seqNo: nat, frames: seq<seq<Byte>>, sched: seq<RecvResult>)
    requires Healthy(sched) && Deliveries(sched) >= |EncodeAll(RawPackets(deviceId, seqNo, frames))|
    requires !AgainAtBlockStart(Blocks(RawPackets(deviceId, seqNo, frames)), 0, sched)
    ensures var (ps, st) := ReadMany(|frames|, EncodeAll(RawPackets(deviceId, seqNo, frames)), sched);
            && st == Done && |ps| == |frames|
            && forall i :: 0 <= i < |ps| ==>
                 ps[i].payload == Cap(frames[i]) && ps[i].seqNo == (seqNo + i) % 256 && ps[i].deviceId == deviceId
  {
    var ps := RawPackets(deviceId, seqNo, frames);
    assert EncodeAll(ps) + [] == EncodeAll(ps);
    FramingComplete(ps, [], sched);
  }

  // ── What a drain puts on the wire ──────────────────────────────────────────

  /** The two sends of one packet: how they end, how many of its bytes go out, what is left of the schedule. */
  function PacketOutcome(data: seq<Byte>, sched: seq<SendResult>): (r: (Status, nat, seq<SendResult>))
    ensures r.1 <= HEADER_LEN + |Cap(data)| && (r.0 == Done <==> r.1 == HEADER_LEN + |Cap(data)|)
  {
    var header := SendOutcome(HEADER_LEN, sched);
    if header.0 != Done then header
    else
      var body := SendOutcome(|Cap(data)|, header.2);
      (body.0, HEADER_LEN + body.1, body.2)
  }

  /**
    The packets of a drain one after the other: a packet whose send fails leaves a part of
    itself on the wire and the next one follows; a send that is still blocked ends it.
   */
  function DrainOutcome(deviceId: Byte, seqNo: nat, frames: seq<seq<Byte>>, sched: seq<SendResult>):
    (r: (Status, seq<Byte>))
    decreases |frames|
  {
    if frames == [] then (Done, [])
    else
      var first := PacketOutcome(frames[0], sched);
      var bytes := Encode(RawPacket(deviceId, seqNo, frames[0]))[..first.1];
      if first.0 == Starved then (Starved, bytes)
      else
        var more := DrainOutcome(deviceId, seqNo + 1, frames[1..], first.2);
        (if more.0 == Done then first.0 else more.0, bytes + more.1)
  }

  /** A drain succeeds exactly when the wire carries every packet whole. */
  lemma {:induction false} DrainedWhole(deviceId: Byte, seqNo: nat, frames: seq<seq<Byte>>, sched: seq<SendResult>)
    ensures var r := DrainOutcome(deviceId, seqNo, frames, sched);
            var whole := EncodeAll(RawPackets(deviceId, seqNo, frames));
            |r.1| <= |whole| && (r.0 == Done <==> |r.1| == |whole|) && (r.0 == Done ==> r.1 == whole)
    decreases |frames|
  {
    if frames != [] {
      var first := PacketOutcome(frames[0], sched);
      var ps := RawPackets(deviceId, seqNo, frames);
      assert ps[1..] == RawPackets(deviceId, seqNo + 1, frames[1..]);
      DrainedWhole(deviceId, seqNo + 1, frames[1..], first.2);
    }
  }

  /** The 8-bit counter wraps as the packet numbers do. */
  lemma CounterWraps(deviceId: Byte, seqNo: Byte, i: nat, frame: seq<Byte>)
    ensures RawPacket(deviceId, (seqNo + i) % 256, frame) == RawPacket(deviceId, seqNo + i, frame)
    ensures ((seqNo + i) % 256 + 1) % 256 == (seqNo + (i + 1)) % 256
  {}

  function Encodings(deviceId: Byte, seqNo: nat, frames: seq<seq<Byte>>): (bs: seq<seq<Byte>>) {
    seq(|frames|, i requires 0 <= i < |frames| => Encode(RawPacket(deviceId, seqNo + i, frames[i])))
  }

  ghost predicate Beginnings(pieces: seq<seq<Byte>>, whole: seq<seq<Byte>>) {
    |pieces| <= |whole| && forall i :: 0 <= i < |pieces| ==> pieces[i] <= whole[i]
  }

  lemma BeginningsCons(piece: seq<Byte>, pieces: seq<seq<Byte>>, first: seq<Byte>, whole: seq<seq<Byte>>)
    requires piece <= first && Beginnings(pieces, whole)
    ensures Beginnings([piece] + pieces, [first] + whole)
    ensures [piece] + pieces == [first] + whole <==> piece == first && pieces == whole
    ensures Concat([piece] + pieces) == piece + Concat(pieces)
  {
    assert ([piece] + pieces)[1..] == pieces && ([first] + whole)[1..] == whole;
    assert ([piece] + pieces)[0] == piece && ([first] + whole)[0] == first;
  }

  /**
    Packet by packet: unless a send is still blocked, every packet of the drain has its turn and
    leaves a beginning of itself on the wire, and the drain succeeds exactly when none is cut.
   */
  lemma {:induction false} DrainPieces(deviceId: Byte, seqNo: nat, frames: seq<seq<Byte>>, sched: seq<SendResult>)
    returns (pieces: seq<seq<Byte>>)
    ensures var r, whole := DrainOutcome(deviceId, seqNo, frames, sched), Encodings(deviceId, seqNo, frames);
            && r.1 == Concat(pieces) && Beginnings(pieces, whole)
            && (r.0 != Starved ==> |pieces| == |frames|) && (r.0 == Done <==> pieces == whole)
    decreases |frames|
  {
    pieces := [];
    if frames != [] {
      var first := PacketOutcome(frames[0], sched);
      var whole := Encode(RawPacket(deviceId, seqNo, frames[0]));
      assert Encodings(deviceId, seqNo, frames) == [whole] + Encodings(deviceId, seqNo + 1, frames[1..]);
      if first.0 != Starved {
        pieces := DrainPieces(deviceId, seqNo + 1, frames[1..], first.2);
      }
      BeginningsCons(whole[..first.1], pieces, whole, Encodings(deviceId, seqNo + 1, frames[1..]));
      pieces := [whole[..first.1]] + pieces;
    }
  }

  /** onVhciReadable succeeds exactly when the first read that brings no data, if any, says "drained". */
  lemma EndsDrainedIs(input: seq<KernelRead>)
    ensures EndsDrained(input) <==>
              forall i :: 0 <= i < |input| && !input[i].Data? && (forall j :: 0 <= j < i ==> input[j].Data?) ==>
                            input[i].Drained?
  {
    FramesAre(input);
    var n := |Frames(input)|;
    assert forall j :: 0 <= j < n ==> input[j].Data?;
  }

  /** The worse of what has happened and what is still to come. */
  function Joined(sofar: Status, more: Status): Status {
    if more == Done then sofar else more
  }

  /** `i` packets have been dealt with: what is still to come completes the drain's outcome. */
  ghost predicate Draining(deviceId: Byte, seqNo: Byte, frames: seq<seq<Byte>>, sched: seq<SendResult>, i: nat,
                           status: Status, left: seq<SendResult>, before: seq<Byte>, sent: seq<Byte>) {
    i <= |frames| &&
    var all, more := DrainOutcome(deviceId, seqNo, frames, sched), DrainOutcome(deviceId, seqNo + i, frames[i..], left);
    all.0 == Joined(status, more.0) && before + all.1 == sent + more.1
  }

  lemma DrainOne(deviceId: Byte, seqNo: Byte, frames: seq<seq<Byte>>, sched: seq<SendResult>, i: nat,
                 status: Status, left: seq<SendResult>, before: seq<Byte>, sent: seq<Byte>)
    requires i < |frames| && Draining(deviceId, seqNo, frames, sched, i, status, left, before, sent)
    requires status == Done || status == Failed
    ensures var o := PacketOutcome(frames[i], left);
            var now := sent + Encode(RawPacket(deviceId, (seqNo + i) % 256, frames[i]))[..o.1];
            var all := DrainOutcome(deviceId, seqNo, frames, sched);
            if o.0 == Starved then all.0 == Starved && before + all.1 == now
            else Draining(deviceId, seqNo, frames, sched, i + 1, if o.0 == Failed then Failed else status, o.2,
                          before, now)
  {
    assert frames[i..][1..] == frames[i + 1..];
    CounterWraps(deviceId, seqNo, i, frames[i]);
    var o := PacketOutcome(frames[i], left);
    var bytes := Encode(RawPacket(deviceId, seqNo + i, frames[i]))[..o.1];
    var more := DrainOutcome(deviceId, seqNo + i + 1, frames[i + 1..], o.2);
    assert sent + (bytes + more.1) == sent + bytes + more.1;
  }

  lemma DrainStarts(deviceId: Byte, seqNo: Byte, frames: seq<seq<Byte>>, sched: seq<SendResult>, before: seq<Byte>)
    ensures Draining(deviceId, seqNo, frames, sched, 0, Done, sched, before, before)
  {
    assert frames[0..] == frames;
  }

  lemma DrainEnds(deviceId: Byte, seqNo: Byte, frames: seq<seq<Byte>>, sched: seq<SendResult>,
                  status: Status, left: seq<SendResult>, before: seq<Byte>, sent: seq<Byte>)
    requires Draining(deviceId, seqNo, frames, sched, |frames|, status, left, before, sent)
    ensures DrainOutcome(deviceId, seqNo, frames, sched).0 == status
    ensures before + DrainOutcome(deviceId, seqNo, frames, sched).1 == sent
  {
    assert frames[|frames|..] == [];
    assert sent + [] == sent;
  }

  // ── Writing to the kernel ──────────────────────────────────────────────────

  /** How a write of `len` bytes ends and how many bytes were written; a zero count is tried again. */
  function WriteOutcome(len: nat, sched: seq<KernelWrite>): (r: (Status, nat))
    ensures r.1 <= len && (r.0 == Done <==> r.1 == len)
    decreases |sched|
  {
    if len == 0 then (Done, 0)
    else if sched == [] then (Starved, 0)
    else if sched[0].WriteError? then (Failed, 0)
    else
      var k := if sched[0].Wrote? then Min(sched[0].n, len) else 0;
      var (st, n) := WriteOutcome(len - k, sched[1..]);
      (st, k + n)
  }

  function WriteTotal(sched: seq<KernelWrite>): nat {
    if sched == [] then 0 else (if sched[0].Wrote? then sched[0].n else 0) + WriteTotal(sched[1..])
  }

  /** writeToKernel without its loop: only an error other than EINTR ends it early. */
  lemma {:induction false} WriteIs(len: nat, sched: seq<KernelWrite>, k: nat)
    requires k <= |sched| && (forall i :: 0 <= i < k ==> !sched[i].WriteError?)
    requires k < |sched| ==> sched[k].WriteError?
    ensures var r, total := WriteOutcome(len, sched), WriteTotal(sched[..k]);
            && r.1 == Min(len, total)
            && r.0 == if total >= len then Done else if k < |sched| then Failed else Starved
    decreases |sched|
  {
    if len > 0 && k > 0 {
      var n := if sched[0].Wrote? then sched[0].n else 0;
      assert sched[..k][0] == sched[0] && sched[..k][1..] == sched[1..][..k - 1];
      WriteIs(len - Min(n, len), sched[1..], k - 1);
    } else if k == 0 {
      assert sched[..0] == [];
    }
  }

  // ── The handler, in place ──────────────────────────────────────────────────

  class PassthroughHandler {
    const deviceId: Byte
    const sock: TcpSocket
    var seqNo: Byte
    /** Bytes written to the kernel descriptor so far. */
    var toKernel: seq<Byte>

    constructor (deviceId: Byte, sock: TcpSocket)
      ensures this.deviceId == deviceId && this.sock == sock && seqNo == 0 && toKernel == []
    {
      this.deviceId, this.sock, seqNo, toKernel := deviceId, sock, 0, [];
    }

    /** sendRawDataPacket: as many bytes of the packet as its two sends take, all of them exactly when Done. */
    method SendRawDataPacket(data: seq<Byte>, sched: seq<SendResult>) returns (status: Status, rest: seq<SendResult>)
      modifies this`seqNo, sock`sent
      ensures seqNo == (old(seqNo) + 1) % 256
      ensures status == PacketOutcome(data, sched).0 && rest == PacketOutcome(data, sched).2
      ensures sock.sent ==
              old(sock.sent) + Encode(RawPacket(deviceId, old(seqNo), data))[..PacketOutcome(data, sched).1]
    {
      var actual := Cap(data);
      var header := EncodeHeader(Header(CMD_RAW_DATA, deviceId, 0, seqNo, |actual|));
      ghost var n := PacketOutcome(data, sched).1;
      assert Encode(RawPacket(deviceId, seqNo, data)) == header + actual;
      seqNo := (seqNo + 1) % 256;
      status, rest := sock.SendExactly(header, sched);
      if status != Done {
        assert (header + actual)[..n] == header[..n];
        return;
      }
      status, rest := sock.SendExactly(actual, rest);
      assert header + actual[..n - HEADER_LEN] == (header + actual)[..n];
    }

    /** The next packet of a drain; a failed one is remembered in `status`. */
    method SendNext(frame: seq<Byte>, status: Status, left: seq<SendResult>, ghost start: Byte,
                    ghost frames: seq<seq<Byte>>, ghost sched: seq<SendResult>, ghost i: nat, ghost before: seq<Byte>)
      returns (status': Status, left': seq<SendResult>)
      requires i < |frames| && frame == frames[i] && status != Starved && seqNo == (start + i) % 256
      requires Draining(deviceId, start, frames, sched, i, status, left, before, sock.sent)
      modifies this`seqNo, sock`sent
      ensures seqNo == (start + (i + 1)) % 256
      ensures status' == Starved ==>
                var all := DrainOutcome(deviceId, start, frames, sched);
                all.0 == Starved && before + all.1 == sock.sent
      ensures status' != Starved ==> Draining(deviceId, start, frames, sched, i + 1, status', left', before, sock.sent)
    {
      CounterWraps(deviceId, start, i, frame);
      DrainOne(deviceId, start, frames, sched, i, status, left, before, sock.sent);
      status', left' := SendRawDataPacket(frame, left);
      if status' == Done {
        status' := status;
      }
    }

    /**
      onVhciReadable: one packet per read until the drain ends.  `status` is Done when every
      send succeeded, Failed when some send failed, Starved when one is still blocked.
     */
    method OnVhciReadable(input: seq<KernelRead>, sched: seq<SendResult>) returns (ok: bool, status: Status)
      requires ReadsFit(input)
      modifies this`seqNo, sock`sent
      ensures status == DrainOutcome(deviceId, old(seqNo), Frames(input), sched).0
      ensures sock.sent == old(sock.sent) + DrainOutcome(deviceId, old(seqNo), Frames(input), sched).1
      ensures status != Starved ==> ok == EndsDrained(input) && seqNo == (old(seqNo) + |Frames(input)|) % 256
    {
      status := Done;
      var i, left := 0, sched;
      ghost var frames := Frames(input);
      DrainStarts(deviceId, seqNo, frames, sched, sock.sent);
      while i < |input| && input[i].Data?
        invariant 0 <= i <= |frames| && status != Starved
        invariant seqNo == (old(seqNo) + i) % 256
        invariant Draining(deviceId, old(seqNo), frames, sched, i, status, left, old(sock.sent), sock.sent)
      {
        FrameAt(input, i);
        status, left := SendNext(input[i].bytes, status, left, old(seqNo), frames, sched, i, old(sock.sent));
        if status == Starved { return false, Starved; }
        i := i + 1;
      }
      FrameAt(input, i);
      DrainEnds(deviceId, old(seqNo), frames, sched, status, left, old(sock.sent), sock.sent);
      ok := i == |input| || input[i].Drained?;
    }

    /** onDeviceData: the payload reaches the kernel in order, all of it exactly when the write succeeds. */
    method OnDeviceData(payload: seq<Byte>, sched: seq<KernelWrite>) returns (status: Status)
      modifies this`toKernel
      ensures status == WriteOutcome(|payload|, sched).0
      ensures toKernel == old(toKernel) + payload[..WriteOutcome(|payload|, sched).1]
    {
      var written, i := 0, 0;
      assert sched[0..] == sched;
      while written < |payload|
        invariant 0 <= written <= |payload| && 0 <= i <= |sched|
        invariant toKernel == old(toKernel) + payload[..written]
        invariant var (st, n) := WriteOutcome(|payload| - written, sched[i..]);
                  WriteOutcome(|payload|, sched) == (st, written + n)
        decreases |sched| - i
      {
        if i == |sched| { return Starved; }
        var w := sched[i];
        assert sched[i..][1..] == sched[i + 1..];
        i := i + 1;
        if w.WriteInterrupted? { continue; }
        if w.WriteError? { return Failed; }
        var k := Min(w.n, |payload| - written);
        toKernel := toKernel + payload[written..written + k];
        written := written + k;
      }
      return Done;
    }
  }
}
