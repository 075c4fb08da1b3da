/**
  The firmware's data path for one device: send_raw cuts a frame into datagrams and
  session_down_task turns received datagrams back into driver writes (device_session.c).
 */
module DeviceSession {
  import opened Wire
  import opened Reassembly

  const RX_BUF := HEADER_LEN + FRAG_HEADER_LEN + MTU_PAYLOAD + 8

  /** A frame cut at every MTU_PAYLOAD bytes. */
  function Chunks(data: seq<Byte>): (cs: seq<seq<Byte>>)
    ensures |cs| > 0
    decreases |data|
  {
    if |data| <= MTU_PAYLOAD then [data] else [data[..MTU_PAYLOAD]] + Chunks(data[MTU_PAYLOAD..])
  }

  /** Cutting loses nothing, no chunk exceeds the MTU, and the count is the length rounded up. */
  lemma {:induction false} ChunksRejoin(data: seq<Byte>)
    ensures Concat(Chunks(data)) == data
    ensures forall i :: 0 <= i < |Chunks(data)| ==> |Chunks(data)[i]| <= MTU_PAYLOAD
    ensures data != [] ==> |Chunks(data)| == (|data| + MTU_PAYLOAD - 1) / MTU_PAYLOAD
    decreases |data|
  {
    if |data| <= MTU_PAYLOAD {
      assert Concat([data]) == data + Concat([]);
    } else {
      var rest := data[MTU_PAYLOAD..];
      ChunksRejoin(rest);
      assert Chunks(data)[1..] == Chunks(rest);
      assert data == data[..MTU_PAYLOAD] + rest;
      assert forall i :: 0 < i < |Chunks(data)| ==> Chunks(data)[i] == Chunks(rest)[i - 1];
    }
  }

  /** The i-th chunk sits at offset i * MTU_PAYLOAD of the frame. */
  lemma {:induction false} ChunkAt(data: seq<Byte>, i: nat)
    requires i < |Chunks(data)| && |data| > 0
    ensures i * MTU_PAYLOAD <= |data|
    ensures Chunks(data)[i] == if (i + 1) * MTU_PAYLOAD <= |data| then data[i * MTU_PAYLOAD..(i + 1) * MTU_PAYLOAD]
                               else data[i * MTU_PAYLOAD..]
    decreases |data|
  {
    if |data| > MTU_PAYLOAD && i > 0 {
      var rest := data[MTU_PAYLOAD..];
      ChunkAt(rest, i - 1);
      assert Chunks(data)[i] == Chunks(rest)[i - 1];
    }
  }

  /** The lengths are cast to 16 bits, as in the source; within the MTU the cast changes nothing. */
  function RawDatagram(deviceId: Byte, seqNo: Byte, data: seq<Byte>): (d: seq<Byte>) {
    EncodeHeader(Header(CMD_RAW_DATA, deviceId, 0, seqNo, |data| % 0x1_0000)) + data
  }

  function FragDatagram(deviceId: Byte, seqNo: Byte, f: Fragment): (d: seq<Byte>) {
    EncodeHeader(Header(CMD_RAW_FRAG, deviceId, 0, seqNo, (FRAG_HEADER_LEN + |f.chunk|) % 0x1_0000))
    + EncodeFragHeader(FragHeader(f.tseq, f.idx, f.total)) + f.chunk
  }

  function FragmentAt(tseq: U16, data: seq<Byte>, i: nat): (f: Fragment)
    requires i < |Chunks(data)| < 256
  {
    Fragment(tseq, i, |Chunks(data)|, Chunks(data)[i])
  }

  /** The i-th datagram of a fragmented frame whose first header number is `seqNo`. */
  function FrameDatagram(deviceId: Byte, seqNo: Byte, tseq: U16, data: seq<Byte>, i: nat): (d: seq<Byte>)
    requires i < |Chunks(data)| < 256
  {
    FragDatagram(deviceId, (seqNo + i) % 256, FragmentAt(tseq, data, i))
  }

  lemma WrapNext(n: Byte, i: nat)
    ensures ((n + i) % 256 + 1) % 256 == (n + (i + 1)) % 256
  {}

  /** What session_down_task makes of one datagram. */
  datatype Received = Ignored | Frame(payload: seq<Byte>) | Piece(f: Fragment)

  function Receive(datagram: seq<Byte>): (r: Received) {
    var buf := if |datagram| > RX_BUF then datagram[..RX_BUF] else datagram;
    if |buf| < HEADER_LEN then Ignored
    else
      var payload := buf[HEADER_LEN..];
      if buf[0] == CMD_RAW_DATA then Frame(payload)
      else if buf[0] != CMD_RAW_FRAG || |payload| < FRAG_HEADER_LEN then Ignored
      else
        var fh := DecodeFragHeader(payload);
        Piece(Fragment(fh.transferSeq, fh.fragIdx, fh.fragTotal, payload[FRAG_HEADER_LEN..]))
  }

  /**
    What is made of a datagram depends on its first byte and its length alone: command 0x30 is
    a frame, 0x31 with at least four more bytes a fragment, and anything else is ignored.  The
    header's other fields, its length included, are not looked at.
   */
  lemma ReceiveIs(header: seq<Byte>, payload: seq<Byte>)
    requires |header| == 6 && |payload| <= 1412
    ensures header[0] == 0x30 ==> Receive(header + payload) == Frame(payload)
    ensures header[0] == 0x31 && |payload| >= 4 ==>
              Receive(header + payload)
              == Piece(Fragment(payload[0] as int + 256 * (payload[1] as int), payload[2], payload[3], payload[4..]))
    ensures (header[0] == 0x31 && |payload| < 4) || (header[0] != 0x30 && header[0] != 0x31) ==>
              Receive(header + payload) == Ignored
  {
    assert (header + payload)[6..] == payload;
  }

  /** Less than a header is ignored; more than the receive buffer is cut. */
  lemma ReceiveEnds(datagram: seq<Byte>)
    ensures |datagram| < 6 ==> Receive(datagram) == Ignored
    ensures |datagram| > 1418 ==> Receive(datagram) == Receive(datagram[..1418])
  {}

  /** The receiver recovers from the bytes exactly the frame or the fragment that was sent. */
  lemma RawRoundTrip(deviceId: Byte, seqNo: Byte, data: seq<Byte>)
    requires |data| <= MTU_PAYLOAD
    ensures Receive(RawDatagram(deviceId, seqNo, data)) == Frame(data)
  {
    HeaderRoundTrip(Header(CMD_RAW_DATA, deviceId, 0, seqNo, |data|), data);
  }

  lemma FragRoundTrip(deviceId: Byte, seqNo: Byte, f: Fragment)
    requires |f.chunk| <= MTU_PAYLOAD
    ensures Receive(FragDatagram(deviceId, seqNo, f)) == Piece(f)
  {
    var fh := FragHeader(f.tseq, f.idx, f.total);
    FragHeaderRoundTrip(fh, f.chunk);
    assert FragDatagram(deviceId, seqNo, f)[HEADER_LEN..] == EncodeFragHeader(fh) + f.chunk;
  }

  /** The datagrams of one frame as they arrive: datagram `order[k]` comes k-th. */
  ghost function Arrivals(deviceId: Byte, seqNo: Byte, tseq: U16, data: seq<Byte>, order: seq<nat>):
    (ds: seq<seq<Byte>>)
    requires |Chunks(data)| < 256 && forall k :: 0 <= k < |order| ==> order[k] < |Chunks(data)|
  {
    seq(|order|, k requires 0 <= k < |order| => FrameDatagram(deviceId, seqNo, tseq, data, order[k]))
  }

  /** The fragments the receiver reads out of the datagrams. */
  ghost function Pieces(ds: seq<seq<Byte>>): (fs: seq<Fragment>)
    requires forall k :: 0 <= k < |ds| ==> Receive(ds[k]).Piece?
  {
    seq(|ds|, k requires 0 <= k < |ds| => Receive(ds[k]).f)
  }

  /**
    Fragmentation round trip.  The datagrams of one frame of 1401 to 11200 bytes, received in
    any order and with any repetitions by a slot that is idle or busy with another transfer,
    deliver nothing before the last missing one and the whole frame with it.
   */
  lemma FragmentationRoundTrip(s: Slot, deviceId: Byte, seqNo: Byte, tseq: U16, data: seq<Byte>, order: seq<nat>)
    requires SlotOk(s) && (!s.active || s.tseq != tseq)
    requires MTU_PAYLOAD < |data| <= MAX_FRAGS * MTU_PAYLOAD
    requires order != [] && forall k :: 0 <= k < |order| ==> order[k] < |Chunks(data)|
    requires !Complete(|Chunks(data)|, {}, order[..|order| - 1])
    ensures |Chunks(data)| <= MAX_FRAGS && Concat(Chunks(data)) == data
    ensures var ds := Arrivals(deviceId, seqNo, tseq, data, order);
            && (forall k :: 0 <= k < |ds| ==> Receive(ds[k]).Piece?)
            && Outputs(s, Pieces(ds)) ==
                 Silent(|order| - 1) + [if Complete(|Chunks(data)|, {}, order) then Some(Chunks(data)) else None]
  {
    ChunksRejoin(data);
    ClampedChunks(data);
    var ds := Arrivals(deviceId, seqNo, tseq, data, order);
    forall k | 0 <= k < |order|
      ensures Receive(ds[k]) == Piece(Select(tseq, Chunks(data), order)[k])
    {
      FragRoundTrip(deviceId, (seqNo + order[k]) % 256, FragmentAt(tseq, data, order[k]));
    }
    assert Pieces(ds) == Select(tseq, Chunks(data), order);
    DeliversOnLastMissing(s, tseq, Chunks(data), order, {});
  }

  lemma ClampedChunks(data: seq<Byte>)
    ensures Clamped(Chunks(data)) == Chunks(data)
  {
    ChunksRejoin(data);
  }

  /** Any 65536 consecutive fragmented transfers carry different numbers. */
  lemma TransferNumbersDistinct(start: U16, i: nat, j: nat)
    requires i < j < i + 0x1_0000
    ensures (start + i) % 0x1_0000 != (start + j) % 0x1_0000
  {}

  /** Datagram `piece` of frame number `frame` of a run of frames; the frame's first header carries `seqNo`. */
  datatype Pick = Pick(frame: nat, piece: nat, seqNo: Byte)

  ghost predicate Picks(frames: seq<seq<Byte>>, p: Pick) {
    p.frame < |frames| && |frames[p.frame]| > MTU_PAYLOAD && p.piece < |Chunks(frames[p.frame])| < 256
  }

  /** SendRaw's datagram, for consecutive fragmented frames numbered from `start`. */
  ghost function PickedDatagram(deviceId: Byte, start: U16, frames: seq<seq<Byte>>, p: Pick): (d: seq<Byte>)
    requires Picks(frames, p)
  {
    FrameDatagram(deviceId, p.seqNo, (start + p.frame) % 0x1_0000, frames[p.frame], p.piece)
  }

  ghost function PickedDatagrams(deviceId: Byte, start: U16, frames: seq<seq<Byte>>, picks: seq<Pick>):
    (ds: seq<seq<Byte>>)
    requires forall k :: 0 <= k < |picks| ==> Picks(frames, picks[k])
    ensures |ds| == |picks|
  {
    seq(|picks|, k requires 0 <= k < |picks| => PickedDatagram(deviceId, start, frames, picks[k]))
  }

  /** The transfers in flight, by number; a number names at most one frame of the run. */
  ghost function InFlight(start: U16, frames: seq<seq<Byte>>): map<U16, seq<seq<Byte>>> {
    map n: U16 | FrameNumber(start, n) < |frames| :: Chunks(frames[FrameNumber(start, n)])
  }

  ghost function FrameNumber(start: U16, n: U16): nat {
    (n - start) % 0x1_0000
  }

  lemma NumberedFrame(start: U16, i: nat)
    requires i < 0x1_0000
    ensures FrameNumber(start, (start + i) % 0x1_0000) == i
  {}

  lemma FragmentInFlight(start: U16, frames: seq<seq<Byte>>, n: U16, piece: nat)
    requires FrameNumber(start, n) < |frames| && piece < |Chunks(frames[FrameNumber(start, n)])| < 256
    ensures var data := frames[FrameNumber(start, n)];
            && FragmentOf(InFlight(start, frames), FragmentAt(n, data, piece))
            && InFlight(start, frames)[n] == Chunks(data)
  {}

  /** The receiver reads out of the datagram a fragment of the transfer it belongs to. */
  lemma PickedPiece(deviceId: Byte, start: U16, frames: seq<seq<Byte>>, p: Pick)
    requires |frames| <= 0x1_0000 && Picks(frames, p)
    ensures var r := Receive(PickedDatagram(deviceId, start, frames, p));
            && r.Piece? && FragmentOf(InFlight(start, frames), r.f)
            && InFlight(start, frames)[r.f.tseq] == Chunks(frames[p.frame])
  {
    NumberedFrame(start, p.frame);
    FrameDatagramReads(deviceId, p.seqNo, (start + p.frame) % 0x1_0000, frames[p.frame], p.piece);
    PieceInFlight(start, frames, (start + p.frame) % 0x1_0000, p,
                  Receive(PickedDatagram(deviceId, start, frames, p)));
  }

  lemma PieceInFlight(start: U16, frames: seq<seq<Byte>>, n: U16, p: Pick, r: Received)
    requires Picks(frames, p) && FrameNumber(start, n) == p.frame && r == Piece(FragmentAt(n, frames[p.frame], p.piece))
    ensures FragmentOf(InFlight(start, frames), r.f)
    ensures InFlight(start, frames)[r.f.tseq] == Chunks(frames[p.frame])
  {
    FragmentInFlight(start, frames, n, p.piece);
  }

  lemma FrameDatagramReads(deviceId: Byte, seqNo: Byte, tseq: U16, data: seq<Byte>, i: nat)
    requires i < |Chunks(data)| < 256
    ensures Receive(FrameDatagram(deviceId, seqNo, tseq, data, i)) == Piece(FragmentAt(tseq, data, i))
  {
    ChunksRejoin(data);
    FragRoundTrip(deviceId, (seqNo + i) % 256, FragmentAt(tseq, data, i));
  }

  /**
    For any run of at most 65536 fragmented frames and any interleaving, loss, repetition and
    reordering of their datagrams, from an idle slot or one holding a part of one of them:
    whatever a datagram makes the receiver deliver is, byte for byte, the frame it belongs to.
   */
  lemma InterleavedFrames(s: Slot, deviceId: Byte, start: U16, frames: seq<seq<Byte>>, picks: seq<Pick>)
    requires SlotOk(s) && Holds(s, InFlight(start, frames))
    requires |frames| <= 0x1_0000
    requires forall k :: 0 <= k < |picks| ==> Picks(frames, picks[k])
    ensures var ds := PickedDatagrams(deviceId, start, frames, picks);
            && (forall k :: 0 <= k < |ds| ==> Receive(ds[k]).Piece?)
            && var o := Outputs(s, Pieces(ds));
               |o| == |picks| && forall k :: 0 <= k < |o| && o[k].Some? ==> Concat(o[k].value) == frames[picks[k].frame]
  {
    var ds, t := PickedDatagrams(deviceId, start, frames, picks), InFlight(start, frames);
    forall k | 0 <= k < |ds|
      ensures Receive(ds[k]).Piece? && FragmentOf(t, Receive(ds[k]).f)
      ensures t[Receive(ds[k]).f.tseq] == Chunks(frames[picks[k].frame])
    {
      PickedPiece(deviceId, start, frames, picks[k]);
    }
    var fs := Pieces(ds);
    assert forall k :: 0 <= k < |fs| ==> fs[k] == Receive(ds[k]).f;
    InterleavedDeliveries(s, fs, t);
    forall k | 0 <= k < |fs| && Outputs(s, fs)[k].Some?
      ensures Concat(Outputs(s, fs)[k].value) == frames[picks[k].frame]
    {
      ClampedChunks(frames[picks[k].frame]);
      ChunksRejoin(frames[picks[k].frame]);
    }
  }

  lemma FragmentSent(deviceId: Byte, seqNo: Byte, tseq: U16, data: seq<Byte>, i: nat, chunk: seq<Byte>)
    requires i < |Chunks(data)| < 256 && chunk == Chunks(data)[i]
    ensures FragDatagram(deviceId, (seqNo + i) % 256, Fragment(tseq, i, |Chunks(data)|, chunk))
            == FrameDatagram(deviceId, seqNo, tseq, data, i)
    ensures ((seqNo + i) % 256 + 1) % 256 == (seqNo + (i + 1)) % 256
  {
    WrapNext(seqNo, i);
  }

  function OutputOf(o: Option<seq<seq<Byte>>>): seq<seq<Byte>> {
    if o.Some? then o.value else []
  }

  /** The `i`-th output of a run is what the `i`-th push delivers from where the run has come. */
  lemma {:induction false} OutputAt(s: Slot, fs: seq<Fragment>, i: nat)
    requires SlotOk(s) && i < |fs|
    ensures var t := After(s, fs[..i]);
            && After(s, fs[..i + 1]) == Push(t, fs[i])
            && (Delivers(t, fs[i]) ==> Collect(t, fs[i]).total <= MAX_FRAGS)
            && Outputs(s, fs)[i] == if Delivers(t, fs[i]) then Some(Delivery(t, fs[i])) else None
    decreases fs
  {
    PushKeepsSlot(After(s, fs[..i]), fs[i]);
    assert fs[..i + 1] == fs[..i] + [fs[i]];
    AfterExtends(s, fs[..i], fs[i]);
    if i > 0 {
      PushKeepsSlot(s, fs[0]);
      OutputAt(Push(s, fs[0]), fs[1..], i - 1);
      assert fs[..i][1..] == fs[1..][..i - 1] && fs[..i][0] == fs[0];
    } else {
      assert fs[..0] == [];
    }
  }

  lemma SilentThen(n: nat, o: Option<seq<seq<Byte>>>)
    ensures forall k :: 0 <= k < n ==> (Silent(n) + [o])[k] == None
    ensures (Silent(n) + [o])[n] == o
  {}

  // ── The in-place session ───────────────────────────────────────────────────

  class Session {
    const deviceId: Byte
    var sock: int
    var seqNo: Byte
    var outTransferSeq: U16
    const reasm: Reassembler

    ghost predicate Valid()
      reads this, reasm, reasm.have, reasm.data
    {
      reasm.Valid()
    }

    /** A session as it stands after "Activate session": counters zero, reassembly cleared. */
    constructor (deviceId: Byte, sock: int)
      ensures Valid() && fresh(reasm) && fresh(reasm.have) && fresh(reasm.data)
      ensures this.deviceId == deviceId && this.sock == sock && seqNo == 0 && outTransferSeq == 0 && !reasm.active
    {
      this.deviceId, this.sock, seqNo, outTransferSeq := deviceId, sock, 0, 0;
      reasm := new Reassembler();
    }

    /**
      send_raw: nothing without a socket; one RAW_DATA datagram up to the MTU; otherwise the
      fragments in order under a fresh transfer number, with consecutive header numbers,
      unless there would be more than 255 of them, which uses the number up and sends nothing.
     */
    method SendRaw(data: seq<Byte>) returns (sent: seq<seq<Byte>>)
      modifies this`seqNo, this`outTransferSeq
      ensures sock < 0 ==> sent == [] && seqNo == old(seqNo) && outTransferSeq == old(outTransferSeq)
      ensures sock >= 0 && |data| <= MTU_PAYLOAD ==>
                && sent == [RawDatagram(deviceId, old(seqNo), data)]
                && seqNo == (old(seqNo) + 1) % 256 && outTransferSeq == old(outTransferSeq)
      ensures sock >= 0 && |data| > MTU_PAYLOAD ==> outTransferSeq == (old(outTransferSeq) + 1) % 0x1_0000
      ensures sock >= 0 && |data| > MTU_PAYLOAD && |Chunks(data)| > 255 ==> sent == [] && seqNo == old(seqNo)
      ensures sock >= 0 && |data| > MTU_PAYLOAD && |Chunks(data)| <= 255 ==>
                && |sent| == |Chunks(data)| && seqNo == (old(seqNo) + |sent|) % 256
                && forall i :: 0 <= i < |sent| ==>
                     sent[i] == FrameDatagram(deviceId, old(seqNo), old(outTransferSeq), data, i)
    {
      sent := [];
      if sock < 0 { return; }
      if |data| <= MTU_PAYLOAD {
        sent := [RawDatagram(deviceId, seqNo, data)];
        seqNo := (seqNo + 1) % 256;
      } else {
        ChunksRejoin(data);
        var totalFrags := (|data| + MTU_PAYLOAD - 1) / MTU_PAYLOAD;
        var tseq := outTransferSeq;
        outTransferSeq := (outTransferSeq + 1) % 0x1_0000;
        if totalFrags > 255 { return; }
        sent := SendFragments(tseq, data, totalFrags);
      }
    }

    method SendFragments(tseq: U16, data: seq<Byte>, totalFrags: nat) returns (sent: seq<seq<Byte>>)
      requires |data| > MTU_PAYLOAD && totalFrags == |Chunks(data)| <= 255
      modifies this`seqNo
      ensures |sent| == totalFrags && seqNo == (old(seqNo) + totalFrags) % 256
      ensures forall i :: 0 <= i < |sent| ==> sent[i] == FrameDatagram(deviceId, old(seqNo), tseq, data, i)
    {
      sent := [];
      for i := 0 to totalFrags
        invariant |sent| == i && seqNo == (old(seqNo) + i) % 256
        invariant forall k :: 0 <= k < i ==> sent[k] == FrameDatagram(deviceId, old(seqNo), tseq, data, k)
      {
        ChunkAt(data, i);
        var offset := i * MTU_PAYLOAD;
        var chunkLen := if offset + MTU_PAYLOAD <= |data| then MTU_PAYLOAD else |data| - offset;
        var chunk := data[offset..offset + chunkLen];
        FragmentSent(deviceId, old(seqNo), tseq, data, i, chunk);
        sent := sent + [FragDatagram(deviceId, seqNo, Fragment(tseq, i, totalFrags, chunk))];
        seqNo := (seqNo + 1) % 256;
      }
    }

    /**
      One turn of session_down_task: what the driver is given, or, in USB/IP mode, the command
      passed to usb_handle_submit.  Fragments are dropped in USB/IP mode.
     */
    method OnDatagram(datagram: seq<Byte>, usbipMode: bool, failAt: nat)
      returns (sent: seq<seq<Byte>>, submit: Option<seq<Byte>>)
      requires Valid()
      modifies reasm, reasm.have, reasm.data
      ensures Valid()
      ensures submit == if usbipMode && Receive(datagram).Frame? then Some(Receive(datagram).payload) else None
      ensures usbipMode || !Receive(datagram).Piece? ==> reasm.View() == old(reasm.View())
      ensures usbipMode || Receive(datagram).Ignored? ==> sent == []
      ensures !usbipMode && Receive(datagram).Frame? ==> sent == [Receive(datagram).payload]
      ensures !usbipMode && Receive(datagram).Piece? ==>
                var s, f := old(reasm.View()), Receive(datagram).f;
                && reasm.View() == Push(s, f)
                && (Delivers(s, f) ==> Collect(s, f).total <= MAX_FRAGS)
                && sent == if Delivers(s, f) then HandedOver(Delivery(s, f), failAt) else []
    {
      sent, submit := [], None;
      match Receive(datagram)
      case Ignored =>
      case Frame(payload) =>
        if usbipMode {
          submit := Some(payload);
        } else {
          sent := [payload];
        }
      case Piece(f) =>
        if !usbipMode {
          var complete;
          complete, sent := reasm.ReasmPush(f, failAt);
        }
    }

    /** The driver is given all that arrives, datagram by datagram, and refuses nothing. */
    method OnDatagrams(ds: seq<seq<Byte>>) returns (outs: seq<seq<seq<Byte>>>)
      requires Valid() && forall k :: 0 <= k < |ds| ==> Receive(ds[k]).Piece?
      modifies reasm, reasm.have, reasm.data
      ensures Valid() && SlotOk(old(reasm.View())) && |outs| == |ds|
      ensures forall k :: 0 <= k < |ds| ==>
                var o := Outputs(old(reasm.View()), Pieces(ds))[k];
                outs[k] == if o.Some? then o.value else []
    {
      outs := [];
      ghost var start, fs := reasm.View(), Pieces(ds);
      for i := 0 to |ds|
        invariant Valid() && |outs| == i && reasm.View() == After(start, fs[..i])
        invariant forall k :: 0 <= k < i ==> outs[k] == OutputOf(Outputs(start, fs)[k])
      {
        var sent := NextDatagram(ds[i], start, fs, i);
        outs := outs + [sent];
      }
    }

    method NextDatagram(d: seq<Byte>, ghost start: Slot, ghost fs: seq<Fragment>, ghost i: nat)
      returns (sent: seq<seq<Byte>>)
      requires Valid() && SlotOk(start) && i < |fs| && Receive(d) == Piece(fs[i])
      requires reasm.View() == After(start, fs[..i])
      modifies reasm, reasm.have, reasm.data
      ensures Valid() && reasm.View() == After(start, fs[..i + 1]) && sent == OutputOf(Outputs(start, fs)[i])
    {
      OutputAt(start, fs, i);
      var submit;
      sent, submit := OnDatagram(d, false, MAX_FRAGS);
    }

    /**
      Fragmentation, end to end: a frame of 1401 to 11200 bytes is sent as datagrams, and they
      arrive in any order and with any repetitions at a session that is idle or busy with
      another transfer.  The driver gets nothing before the last missing one arrives and then,
      chunk after chunk, the frame.
     */
    method ReceiveFrame(seqNo: Byte, tseq: U16, data: seq<Byte>, order: seq<nat>)
      returns (outs: seq<seq<seq<Byte>>>)
      requires Valid() && (!reasm.active || reasm.transferSeq != tseq)
      requires MTU_PAYLOAD < |data| <= MAX_FRAGS * MTU_PAYLOAD
      requires order != [] && forall k :: 0 <= k < |order| ==> order[k] < |Chunks(data)| < 256
      requires !Complete(|Chunks(data)|, {}, order[..|order| - 1])
      modifies reasm, reasm.have, reasm.data
      ensures Valid() && |outs| == |order|
      ensures forall k :: 0 <= k < |order| - 1 ==> outs[k] == []
      ensures Concat(outs[|order| - 1]) == if Complete(|Chunks(data)|, {}, order) then data else []
    {
      FragmentationRoundTrip(reasm.View(), deviceId, seqNo, tseq, data, order);
      ghost var start := reasm.View();
      var ds := seq(|order|, k requires 0 <= k < |order| && order[k] < |Chunks(data)| < 256 =>
                      FrameDatagram(deviceId, seqNo, tseq, data, order[k]));
      assert ds == Arrivals(deviceId, seqNo, tseq, data, order);
      outs := OnDatagrams(ds);
      SilentThen(|order| - 1, Outputs(start, Pieces(ds))[|order| - 1]);
    }
  }
}
