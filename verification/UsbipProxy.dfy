/**
  The USB/IP proxy: usb_handle_submit in device_session.c with the driver calls it makes
  (usb_driver.c), over the 48-byte big-endian messages of usbip_proto.h.
 */
module UsbipProxy {
  import opened Wire
  import DeviceSession

  const MSG_LEN := 48
  const IN_BUF := 1280
  const CTRL_MAX := 1024
  const FRAME_MAX := 512

  const CMD_SUBMIT: U32 := 1
  const CMD_UNLINK: U32 := 2
  const RET_SUBMIT: U32 := 3
  const RET_UNLINK: U32 := 4
  const DIR_IN: U32 := 1

  // ── Messages ───────────────────────────────────────────────────────────────

  function EncodeWords(ws: seq<U32>): (b: seq<Byte>)
    ensures |b| == 4 * |ws|
  {
    if ws == [] then [] else EncodeBe32(ws[0]) + EncodeWords(ws[1..])
  }

  /** The i-th word of an encoded message reads back as it was written. */
  lemma {:induction false} WordAt(ws: seq<U32>, rest: seq<Byte>, i: nat)
    requires i < |ws|
    ensures DecodeBe32(EncodeWords(ws) + rest, 4 * i) == ws[i]
    decreases ws
  {
    var b := EncodeWords(ws) + rest;
    if i == 0 {
      assert b[0..4] == EncodeBe32(ws[0]);
      Be32RoundTrip(b, 0, ws[0]);
    } else {
      WordAt(ws[1..], rest, i - 1);
      var c := EncodeWords(ws[1..]) + rest;
      assert b == EncodeBe32(ws[0]) + c;
      assert forall k :: 4 <= k < |b| ==> b[k] == c[k - 4];
    }
  }

  /** The fields of a command that the proxy reads. */
  function Command(raw: seq<Byte>): U32 requires |raw| >= MSG_LEN { DecodeBe32(raw, 0) }
  function Seqnum(raw: seq<Byte>): U32 requires |raw| >= MSG_LEN { DecodeBe32(raw, 4) }
  function Direction(raw: seq<Byte>): U32 requires |raw| >= MSG_LEN { DecodeBe32(raw, 12) }
  function Endpoint(raw: seq<Byte>): U32 requires |raw| >= MSG_LEN { DecodeBe32(raw, 16) }
  function BufferLength(raw: seq<Byte>): U32 requires |raw| >= MSG_LEN { DecodeBe32(raw, 24) }

  /** A reply as the host's USB/IP stack decodes it. */
  datatype Reply =
    | RetSubmit(seqnum: U32, devid: U32, direction: U32, ep: U32, status: U32, actualLength: U32,
                startFrame: U32, numberOfPackets: U32, errorCount: U32, data: seq<Byte>)
    | RetUnlink(unlinkSeqnum: U32, unlinkStatus: U32)
    | Malformed

  function DecodeReply(b: seq<Byte>): (r: Reply) {
    if |b| < MSG_LEN then Malformed
    else if DecodeBe32(b, 0) == RET_SUBMIT then
      RetSubmit(DecodeBe32(b, 4), DecodeBe32(b, 8), DecodeBe32(b, 12), DecodeBe32(b, 16), DecodeBe32(b, 20),
                DecodeBe32(b, 24), DecodeBe32(b, 28), DecodeBe32(b, 32), DecodeBe32(b, 36), b[MSG_LEN..])
    else if DecodeBe32(b, 0) == RET_UNLINK then RetUnlink(DecodeBe32(b, 4), DecodeBe32(b, 20))
    else Malformed
  }

  // ── The driver ─────────────────────────────────────────────────────────────

  /** How a control transfer ends. */
  datatype ControlEnd = NotSubmitted | TimedOut | Completed(status: nat, data: seq<Byte>)

  /**
    The completion, frame or status that the call takes, for each of the three kinds of transfer.
    It is the request's own as long as none of an earlier request arrives after its timeout.
   */
  datatype Hardware = Hardware(control: ControlEnd, frame: Option<seq<Byte>>, outStatus: int)

  function Cut(data: seq<Byte>, n: nat): (r: seq<Byte>)
    ensures |r| == Min(|data|, n)
  {
    data[..Min(|data|, n)]
  }

  /** The bytes in the control transfer's buffer, which is 1024 bytes long after the setup packet. */
  function ControlData(hw: Hardware): (r: seq<Byte>)
    requires hw.control.Completed?
  {
    Cut(hw.control.data, CTRL_MAX)
  }

  /** The frame the IN callback queues: it copies at most USB_FRAME_MAX bytes. */
  function Frame(hw: Hardware): (r: seq<Byte>)
    requires hw.frame.Some?
  {
    Cut(hw.frame.value, FRAME_MAX)
  }

  /** Status and byte count of a transfer, and the IN buffer after it. */
  datatype Outcome = Outcome(status: U32, actual: nat, buf: seq<Byte>)

  function Overwrite(buf: seq<Byte>, data: seq<Byte>): (r: seq<Byte>)
    requires |data| <= |buf|
    ensures |r| == |buf| && r[..|data|] == data
  {
    data + buf[|data|..]
  }

  /** usb_drv_control for an IN stage of at most `maxIn` bytes. */
  function ControlIn(maxIn: nat, hw: Hardware, buf: seq<Byte>): (r: Outcome)
    requires |buf| == IN_BUF && maxIn <= IN_BUF
    ensures |r.buf| == IN_BUF && r.actual <= IN_BUF
  {
    if maxIn > CTRL_MAX || !hw.control.Completed? || hw.control.status != 0 then Outcome(1, 0, buf)
    else if maxIn == 0 || ControlData(hw) == [] then Outcome(0, |ControlData(hw)|, buf)
    else
      var data := Cut(ControlData(hw), maxIn);
      Outcome(0, |data|, Overwrite(buf, data))
  }

  /** usb_drv_recv. */
  function BulkIn(maxIn: nat, hw: Hardware, buf: seq<Byte>): (r: Outcome)
    requires |buf| == IN_BUF && maxIn <= IN_BUF
    ensures |r.buf| == IN_BUF && r.actual <= IN_BUF
  {
    if hw.frame.None? then Outcome(1, 0, buf)
    else
      var data := Cut(Frame(hw), maxIn);
      Outcome(0, |data|, Overwrite(buf, data))
  }

  /** The transfer a CMD_SUBMIT asks for. */
  function Transfer(raw: seq<Byte>, hw: Hardware, buf: seq<Byte>): (r: Outcome)
    requires |raw| >= MSG_LEN && |buf| == IN_BUF
    ensures |r.buf| == IN_BUF && r.actual <= IN_BUF
    ensures Direction(raw) != DIR_IN ==> r.actual == 0
  {
    var maxIn := Min(BufferLength(raw), IN_BUF);
    var outLen := Min(BufferLength(raw), |raw| - MSG_LEN);
    if Direction(raw) == DIR_IN then
      (if Endpoint(raw) == 0 then ControlIn(maxIn, hw, buf) else BulkIn(maxIn, hw, buf))
    else if Endpoint(raw) == 0 then
      Outcome(if outLen > CTRL_MAX || !hw.control.Completed? || hw.control.status != 0 then 1 else 0, 0, buf)
    else Outcome(if hw.outStatus != 0 then 1 else 0, 0, buf)
  }

  /** What the USB driver is asked to do. */
  datatype UsbCall =
    | ControlCall(setup: seq<Byte>, out: seq<Byte>, maxIn: nat)
    | ReceiveCall(maxIn: nat)
    | SendCall(out: seq<Byte>)

  /** The driver call a CMD_SUBMIT makes. */
  function Asked(raw: seq<Byte>): (c: UsbCall)
    requires |raw| >= MSG_LEN
  {
    var maxIn := Min(BufferLength(raw), IN_BUF);
    var out := raw[MSG_LEN..MSG_LEN + Min(BufferLength(raw), |raw| - MSG_LEN)];
    if Endpoint(raw) == 0 then
      (if Direction(raw) == DIR_IN then ControlCall(raw[40..48], [], maxIn) else ControlCall(raw[40..48], out, 0))
    else if Direction(raw) == DIR_IN then ReceiveCall(maxIn)
    else SendCall(out)
  }

  /** One driver call for each SUBMIT of full length and none for anything else. */
  function AskedBy(raw: seq<Byte>): (cs: seq<UsbCall>) {
    if |raw| >= MSG_LEN && Command(raw) == CMD_SUBMIT then [Asked(raw)] else []
  }

  // ── Replies ────────────────────────────────────────────────────────────────

  predicate Answered(raw: seq<Byte>) {
    |raw| >= MSG_LEN && (Command(raw) == CMD_SUBMIT || Command(raw) == CMD_UNLINK)
  }

  /** A RET_SUBMIT is built in allocated memory, a RET_UNLINK is not. */
  predicate Replied(raw: seq<Byte>, mallocOk: bool) {
    Answered(raw) && (Command(raw) == CMD_SUBMIT ==> mallocOk)
  }

  /** The bytes of the reply, with memory available. */
  function ReplyBytes(raw: seq<Byte>, hw: Hardware, buf: seq<Byte>): (b: seq<Byte>)
    requires Answered(raw) && |buf| == IN_BUF
  {
    if Command(raw) == CMD_UNLINK then
      EncodeWords([RET_UNLINK, Seqnum(raw), 0, 0, 0, 0, 0, 0, 0, 0, 0, 0])
    else
      var r := Transfer(raw, hw, buf);
      EncodeWords([RET_SUBMIT, Seqnum(raw), 0, Direction(raw), Endpoint(raw), r.status, r.actual,
                   0, 0xFFFF_FFFF, 0, 0, 0])
      + r.buf[..r.actual]
  }

  /**
    Every reply is well formed: it carries the command's seqnum, a RET_SUBMIT is followed by
    exactly actual_length bytes and echoes direction and endpoint, and the whole is at most
    1328 bytes, which is within one unfragmented datagram.
   */
  lemma ReplyDecodes(raw: seq<Byte>, hw: Hardware, buf: seq<Byte>)
    requires Answered(raw) && |buf| == IN_BUF
    ensures var b := ReplyBytes(raw, hw, buf);
            var r := Transfer(raw, hw, buf);
            && |b| <= MSG_LEN + IN_BUF <= MTU_PAYLOAD
            && (Command(raw) == CMD_UNLINK ==> DecodeReply(b) == RetUnlink(Seqnum(raw), 0))
            && (Command(raw) == CMD_SUBMIT ==>
                 && DecodeReply(b) == RetSubmit(Seqnum(raw), 0, Direction(raw), Endpoint(raw), r.status, r.actual,
                                                0, 0xFFFF_FFFF, 0, r.buf[..r.actual])
                 && |DecodeReply(b).data| == DecodeReply(b).actualLength)
  {
    if Command(raw) == CMD_UNLINK {
      var ws: seq<U32> := [RET_UNLINK, Seqnum(raw), 0, 0, 0, 0, 0, 0, 0, 0, 0, 0];
      assert EncodeWords(ws) + [] == EncodeWords(ws);
      WordAt(ws, [], 0);
      WordAt(ws, [], 1);
      WordAt(ws, [], 5);
    } else {
      var r := Transfer(raw, hw, buf);
      SubmitReplyDecodes(Seqnum(raw), Direction(raw), Endpoint(raw), r.status, r.actual, r.buf[..r.actual]);
    }
  }

  lemma SubmitReplyDecodes(seqnum: U32, dir: U32, ep: U32, status: U32, actual: U32, data: seq<Byte>)
    ensures var b := EncodeWords([RET_SUBMIT, seqnum, 0, dir, ep, status, actual, 0, 0xFFFF_FFFF, 0, 0, 0]) + data;
            DecodeReply(b) == RetSubmit(seqnum, 0, dir, ep, status, actual, 0, 0xFFFF_FFFF, 0, data)
  {
    var ws: seq<U32> := [RET_SUBMIT, seqnum, 0, dir, ep, status, actual, 0, 0xFFFF_FFFF, 0, 0, 0];
    forall i | 0 <= i < 12 ensures DecodeBe32(EncodeWords(ws) + data, 4 * i) == ws[i] {
      WordAt(ws, data, i);
    }
    var b := EncodeWords(ws) + data;
    assert DecodeBe32(b, 4 * 0) == RET_SUBMIT && DecodeBe32(b, 4 * 1) == seqnum && DecodeBe32(b, 4 * 2) == 0;
    assert DecodeBe32(b, 4 * 3) == dir && DecodeBe32(b, 4 * 4) == ep && DecodeBe32(b, 4 * 5) == status;
    assert DecodeBe32(b, 4 * 6) == actual && DecodeBe32(b, 4 * 7) == 0 && DecodeBe32(b, 4 * 8) == 0xFFFF_FFFF;
    assert DecodeBe32(b, 4 * 9) == 0;
    assert b[MSG_LEN..] == data;
  }

  /** The outcome of a SUBMIT, told from the words of the command: status and the bytes that come back. */
  ghost predicate Answers(ws: seq<U32>, given: nat, hw: Hardware, buf: seq<Byte>, status: U32, data: seq<Byte>)
    requires |ws| == 12 && |buf| == IN_BUF
  {
    var asked := Min(ws[6], 1280);
    if ws[3] == 1 && ws[4] == 0 then
      if !hw.control.Completed? || hw.control.status != 0 || asked > 1024 then status == 1 && data == []
      else
        && status == 0
        && data == if asked > 0 then Cut(Cut(hw.control.data, 1024), asked) else buf[..Min(|hw.control.data|, 1024)]
    else if ws[3] == 1 then
      if hw.frame.None? then status == 1 && data == []
      else status == 0 && data == Cut(Cut(hw.frame.value, 512), asked)
    else if ws[4] == 0 then
      && data == []
      && status == if !hw.control.Completed? || hw.control.status != 0 || Min(ws[6], given) > 1024 then 1 else 0
    else data == [] && status == if hw.outStatus != 0 then 1 else 0
  }

  /**
    The reply to a command of twelve words and whatever follows them, word by word.  Command 2,
    UNLINK, gets [4, ws[1], 0, ...]; command 1, SUBMIT, gets [3, ws[1], 0, ws[3], ws[4], status,
    length, 0, 0xFFFFFFFF, 0, 0, 0] and that many bytes; no other command is answered.
   */
  lemma ReplyWords(ws: seq<U32>, rest: seq<Byte>, hw: Hardware, buf: seq<Byte>) returns (status: U32, data: seq<Byte>)
    requires |ws| == 12 && |buf| == IN_BUF
    ensures Answered(EncodeWords(ws) + rest) <==> ws[0] == 1 || ws[0] == 2
    ensures ws[0] == 2 ==>
              ReplyBytes(EncodeWords(ws) + rest, hw, buf) == EncodeWords([4, ws[1], 0, 0, 0, 0, 0, 0, 0, 0, 0, 0])
    ensures ws[0] == 1 ==>
              && Answers(ws, |rest|, hw, buf, status, data) && |data| <= 1280
              && ReplyBytes(EncodeWords(ws) + rest, hw, buf)
                 == EncodeWords([3, ws[1], 0, ws[3], ws[4], status, |data|, 0, 0xFFFF_FFFF, 0, 0, 0]) + data
  {
    var raw := EncodeWords(ws) + rest;
    FieldsAre(ws, rest);
    var r := Transfer(raw, hw, buf);
    status, data := r.status, r.buf[..r.actual];
    TransferAnswers(ws, rest, hw, buf);
  }

  /** What a command asks of the device, by its number, direction, endpoint, length, setup packet and OUT data. */
  ghost function CallsFor(cmd: U32, dir: U32, ep: U32, len: U32, setup: seq<Byte>, out: seq<Byte>): seq<UsbCall> {
    if cmd != 1 then []
    else if ep == 0 then [if dir == 1 then ControlCall(setup, [], Min(len, 1280)) else ControlCall(setup, out, 0)]
    else [if dir == 1 then ReceiveCall(Min(len, 1280)) else SendCall(out)]
  }

  /**
    What the device is asked, in the command's own words: the last two are the setup packet, the
    bytes that follow are the OUT data, no more of them than the seventh word says.
   */
  lemma AskedWords(ws: seq<U32>, rest: seq<Byte>)
    requires |ws| == 12
    ensures AskedBy(EncodeWords(ws) + rest)
            == CallsFor(ws[0], ws[3], ws[4], ws[6], EncodeWords(ws[10..]), rest[..Min(ws[6], |rest|)])
  {
    FieldsAre(ws, rest);
    PartsAre(ws, rest, Min(ws[6], |rest|));
    AskedIs(EncodeWords(ws) + rest, EncodeWords(ws[10..]), rest[..Min(ws[6], |rest|)]);
  }

  lemma AskedIs(raw: seq<Byte>, setup: seq<Byte>, out: seq<Byte>)
    requires |raw| >= 48 && raw[40..48] == setup && raw[48..48 + Min(BufferLength(raw), |raw| - 48)] == out
    ensures AskedBy(raw) == CallsFor(Command(raw), Direction(raw), Endpoint(raw), BufferLength(raw), setup, out)
  {}

  lemma PartsAre(ws: seq<U32>, rest: seq<Byte>, n: nat)
    requires |ws| == 12 && n <= |rest|
    ensures var raw := EncodeWords(ws) + rest;
            |raw| == 48 + |rest| && raw[40..48] == EncodeWords(ws[10..]) && raw[48..48 + n] == rest[..n]
  {
    WordsSplit(ws, 10);
    Slices(EncodeWords(ws[..10]), EncodeWords(ws[10..]), rest, n);
  }

  lemma Slices(words: seq<Byte>, setup: seq<Byte>, rest: seq<Byte>, n: nat)
    requires |words| == 40 && |setup| == 8 && n <= |rest|
    ensures var raw := words + setup + rest;
            raw[40..48] == setup && raw[48..48 + n] == rest[..n]
  {}

  lemma {:induction false} WordsSplit(ws: seq<U32>, k: nat)
    requires k <= |ws|
    ensures EncodeWords(ws) == EncodeWords(ws[..k]) + EncodeWords(ws[k..])
    decreases k
  {
    if k > 0 {
      WordsSplit(ws[1..], k - 1);
      assert ws[..k][1..] == ws[1..][..k - 1] && ws[1..][k - 1..] == ws[k..];
    } else {
      assert ws[..0] == [] && ws[0..] == ws;
    }
  }

  lemma FieldsAre(ws: seq<U32>, rest: seq<Byte>)
    requires |ws| == 12
    ensures var raw := EncodeWords(ws) + rest;
            && |raw| == 48 + |rest| && Command(raw) == ws[0] && Seqnum(raw) == ws[1] && Direction(raw) == ws[3]
            && Endpoint(raw) == ws[4] && BufferLength(raw) == ws[6]
  {
    WordAt(ws, rest, 0);
    WordAt(ws, rest, 1);
    WordAt(ws, rest, 3);
    WordAt(ws, rest, 4);
    WordAt(ws, rest, 6);
  }

  lemma TransferAnswers(ws: seq<U32>, rest: seq<Byte>, hw: Hardware, buf: seq<Byte>)
    requires |ws| == 12 && |buf| == IN_BUF
    ensures var r := Transfer(EncodeWords(ws) + rest, hw, buf);
            Answers(ws, |rest|, hw, buf, r.status, r.buf[..r.actual])
  {
    FieldsAre(ws, rest);
  }

  /** The control transfer is submitted and the device completes it. */
  predicate ControlOk(hw: Hardware, maxIn: nat) {
    hw.control.Completed? && hw.control.status == 0 && maxIn <= CTRL_MAX
  }

  /**
    What comes back for an IN request.  From a bulk endpoint, and for a control request of 1 to
    1024 bytes, it is the device's own bytes, cut to the shorter of the request and the IN
    buffer.  A control request for no bytes is answered with as many bytes as the transfer
    reports, out of what earlier requests left in the IN buffer: so a control reply is the
    device's data exactly when bytes were asked for or none were reported.
   */
  lemma InDataIsDeviceData(raw: seq<Byte>, hw: Hardware, buf: seq<Byte>)
    requires Answered(raw) && Command(raw) == CMD_SUBMIT && |buf| == IN_BUF && Direction(raw) == DIR_IN
    ensures var r := DecodeReply(ReplyBytes(raw, hw, buf));
            var maxIn := Min(BufferLength(raw), IN_BUF);
            r.RetSubmit? &&
            if Endpoint(raw) != 0 then
              if hw.frame.Some? then r.status == 0 && r.data == Cut(Frame(hw), maxIn)
              else r.status == 1 && r.data == []
            else if !ControlOk(hw, maxIn) then r.status == 1 && r.data == []
            else
              && r.status == 0
              && r.data == (if maxIn > 0 then Cut(ControlData(hw), maxIn) else buf[..|ControlData(hw)|])
              && (r.data == Cut(ControlData(hw), maxIn) <==> BufferLength(raw) > 0 || ControlData(hw) == [])
  {
    ReplyDecodes(raw, hw, buf);
  }

  /** A SUBMIT for no bytes from the control endpoint, completed with one byte: the reply is an old byte. */
  lemma ZeroLengthRepliesOldByte(buf: seq<Byte>)
    requires |buf| == IN_BUF
    ensures var ws: seq<U32> := [CMD_SUBMIT, 5, 0, DIR_IN, 0, 0, 0, 0, 0, 0, 0, 0];
            var hw := Hardware(Completed(0, [1]), None, 0);
            && Answered(EncodeWords(ws))
            && DecodeReply(ReplyBytes(EncodeWords(ws), hw, buf)).RetSubmit?
            && DecodeReply(ReplyBytes(EncodeWords(ws), hw, buf)).data == [buf[0]]
  {
    var ws: seq<U32> := [CMD_SUBMIT, 5, 0, DIR_IN, 0, 0, 0, 0, 0, 0, 0, 0];
    var raw, hw := EncodeWords(ws), Hardware(Completed(0, [1]), None, 0);
    assert raw + [] == raw;
    WordAt(ws, [], 0);
    WordAt(ws, [], 3);
    WordAt(ws, [], 4);
    WordAt(ws, [], 6);
    InDataIsDeviceData(raw, hw, buf);
    assert ControlData(hw) == [1];
  }

  // ── Runs ───────────────────────────────────────────────────────────────────

  datatype Request = Request(raw: seq<Byte>, hw: Hardware)

  /** The commands that get an answer, in order. */
  function Answerable(cmds: seq<Request>): (r: seq<Request>)
    ensures forall i :: 0 <= i < |r| ==> Answered(r[i].raw)
    decreases |cmds|
  {
    if cmds == [] then []
    else
      var front, last := cmds[..|cmds| - 1], cmds[|cmds| - 1];
      Answerable(front) + (if Answered(last.raw) then [last] else [])
  }

  /** The IN buffer after a command: only a SUBMIT can change it. */
  function BufAfter(c: Request, buf: seq<Byte>): (r: seq<Byte>)
    requires |buf| == IN_BUF
    ensures |r| == IN_BUF
  {
    if |c.raw| >= MSG_LEN && Command(c.raw) == CMD_SUBMIT then Transfer(c.raw, c.hw, buf).buf else buf
  }

  /** The reply to one command, if it gets one. */
  function ReplyOrNone(c: Request, buf: seq<Byte>): (rs: seq<seq<Byte>>)
    requires |buf| == IN_BUF
  {
    if Answered(c.raw) then [ReplyBytes(c.raw, c.hw, buf)] else []
  }

  function BufAfterAll(cmds: seq<Request>, buf: seq<Byte>): (r: seq<Byte>)
    requires |buf| == IN_BUF
    ensures |r| == IN_BUF
    decreases |cmds|
  {
    if cmds == [] then buf else BufAfter(cmds[|cmds| - 1], BufAfterAll(cmds[..|cmds| - 1], buf))
  }

  /** The replies to a sequence of commands, with memory available throughout. */
  function Replies(cmds: seq<Request>, buf: seq<Byte>): (rs: seq<seq<Byte>>)
    requires |buf| == IN_BUF
    decreases |cmds|
  {
    if cmds == [] then []
    else
      var front, last := cmds[..|cmds| - 1], cmds[|cmds| - 1];
      Replies(front, buf) + ReplyOrNone(last, BufAfterAll(front, buf))
  }

  /** `b` is a well-formed reply to `raw`, small enough never to be fragmented. */
  predicate ReplyTo(b: seq<Byte>, raw: seq<Byte>)
    requires Answered(raw)
  {
    var r := DecodeReply(b);
    && |b| <= MSG_LEN + IN_BUF <= MTU_PAYLOAD
    && if Command(raw) == CMD_SUBMIT
       then r.RetSubmit? && r.seqnum == Seqnum(raw) && |r.data| == r.actualLength
       else r.RetUnlink? && r.unlinkSeqnum == Seqnum(raw)
  }

  /** Every SUBMIT or UNLINK of at least 48 bytes gets exactly one reply, in order, and nothing else does. */
  lemma {:induction false} OneReplyEach(cmds: seq<Request>, buf: seq<Byte>)
    requires |buf| == IN_BUF
    ensures |Replies(cmds, buf)| == |Answerable(cmds)|
    ensures forall i :: 0 <= i < |Answerable(cmds)| ==> ReplyTo(Replies(cmds, buf)[i], Answerable(cmds)[i].raw)
    decreases |cmds|
  {
    if cmds != [] {
      var front, last := cmds[..|cmds| - 1], cmds[|cmds| - 1];
      OneReplyEach(front, buf);
      if Answered(last.raw) {
        ReplyDecodes(last.raw, last.hw, BufAfterAll(front, buf));
      }
    }
  }

  /** The words of a command that is long enough to hold them. */
  function WordsOf(raw: seq<Byte>): (ws: seq<U32>)
    requires |raw| >= MSG_LEN
    ensures |ws| == 12
  {
    seq(12, i requires 0 <= i < 12 => DecodeBe32(raw, 4 * i))
  }

  /** Over any commands, each reply's second word is the second word of the command it answers. */
  lemma RepliesEchoSeqnum(cmds: seq<Request>, buf: seq<Byte>, i: nat)
    requires |buf| == IN_BUF && i < |Answerable(cmds)|
    ensures |Replies(cmds, buf)| == |Answerable(cmds)| && |Replies(cmds, buf)[i]| >= 48
    ensures WordsOf(Replies(cmds, buf)[i])[1] == WordsOf(Answerable(cmds)[i].raw)[1]
    ensures WordsOf(Answerable(cmds)[i].raw)[0] == 1 || WordsOf(Answerable(cmds)[i].raw)[0] == 2
  {
    OneReplyEach(cmds, buf);
    assert ReplyTo(Replies(cmds, buf)[i], Answerable(cmds)[i].raw);
  }

  /** The datagrams that carry replies, one each, with header numbers from `start`. */
  function Numbered(deviceId: Byte, start: nat, rs: seq<seq<Byte>>): (ds: seq<seq<Byte>>)
    ensures |ds| == |rs|
  {
    seq(|rs|, i requires 0 <= i < |rs| => DeviceSession.RawDatagram(deviceId, (start + i) % 256, rs[i]))
  }

  /** Replies within one datagram each (as OneReplyEach shows them to be) arrive byte for byte. */
  lemma NumberedArrive(deviceId: Byte, start: nat, rs: seq<seq<Byte>>, i: nat)
    requires i < |rs| && |rs[i]| <= MTU_PAYLOAD
    ensures DeviceSession.Receive(Numbered(deviceId, start, rs)[i]) == DeviceSession.Frame(rs[i])
  {
    DeviceSession.RawRoundTrip(deviceId, (start + i) % 256, rs[i]);
  }

  lemma NumberedAppend(deviceId: Byte, start: nat, a: seq<seq<Byte>>, b: seq<seq<Byte>>)
    ensures Numbered(deviceId, start, a + b) == Numbered(deviceId, start, a) + Numbered(deviceId, start + |a|, b)
  {}

  /** `cmds` have been handled from number `start` and IN buffer `was`: what was sent, and the number and buffer now. */
  ghost predicate Handled(cmds: seq<Request>, deviceId: Byte, start: Byte, was: seq<Byte>,
                          sent: seq<seq<Byte>>, seqNo: Byte, buf: seq<Byte>)
    requires |was| == IN_BUF
  {
    && seqNo == (start + |sent|) % 256
    && buf == BufAfterAll(cmds, was)
    && sent == Numbered(deviceId, start, Replies(cmds, was))
  }

  /** One more command adds its datagram, if any, under the next number. */
  lemma HandledNext(cmds: seq<Request>, k: nat, deviceId: Byte, start: Byte, was: seq<Byte>, sent: seq<seq<Byte>>,
                    seqNo: Byte, buf: seq<Byte>, out: seq<seq<Byte>>, seqNo': Byte, buf': seq<Byte>)
    requires |was| == IN_BUF && k < |cmds| && Handled(cmds[..k], deviceId, start, was, sent, seqNo, buf)
    requires out == Numbered(deviceId, start + |sent|, ReplyOrNone(cmds[k], buf))
    requires seqNo' == (start + (|sent| + |out|)) % 256 && buf' == BufAfter(cmds[k], buf)
    ensures Handled(cmds[..k + 1], deviceId, start, was, sent + out, seqNo', buf')
  {
    assert cmds[..k + 1][..k] == cmds[..k];
    NumberedAppend(deviceId, start, Replies(cmds[..k], was), ReplyOrNone(cmds[k], buf));
  }

  class Proxy {
    const session: DeviceSession.Session
    /** The static IN buffer: it keeps its bytes from one request to the next. */
    const inBuf: array<Byte>

    ghost predicate Valid() {
      inBuf.Length == IN_BUF
    }

    constructor (session: DeviceSession.Session)
      ensures Valid() && this.session == session && fresh(inBuf)
    {
      this.session := session;
      inBuf := new Byte[IN_BUF](i => 0);
    }

    /** usb_handle_submit: the datagrams it sends. */
    method HandleSubmit(c: Request, mallocOk: bool) returns (sent: seq<seq<Byte>>, asked: seq<UsbCall>)
      requires Valid()
      modifies inBuf, session`seqNo, session`outTransferSeq
      ensures asked == AskedBy(c.raw)
      ensures inBuf[..] == BufAfter(c, old(inBuf[..]))
      ensures session.outTransferSeq == old(session.outTransferSeq)
      ensures session.sock < 0 || !Replied(c.raw, mallocOk) ==> sent == [] && session.seqNo == old(session.seqNo)
      ensures session.sock >= 0 && Replied(c.raw, mallocOk) ==>
                && sent == [DeviceSession.RawDatagram(session.deviceId, old(session.seqNo),
                                                      ReplyBytes(c.raw, c.hw, old(inBuf[..])))]
                && session.seqNo == (old(session.seqNo) + 1) % 256
    {
      var raw := c.raw;
      asked := [];
      if |raw| < MSG_LEN { return [], []; }
      if Command(raw) == CMD_UNLINK {
        ReplyDecodes(raw, c.hw, inBuf[..]);
        sent := session.SendRaw(EncodeWords([RET_UNLINK, Seqnum(raw), 0, 0, 0, 0, 0, 0, 0, 0, 0, 0]));
        return;
      }
      if Command(raw) != CMD_SUBMIT { return [], []; }
      ReplyDecodes(raw, c.hw, inBuf[..]);
      var status, actual, call := RunTransfer(raw, c.hw);
      asked := [call];
      if !mallocOk { return [], asked; }
      var inLen := if Direction(raw) == DIR_IN && actual > 0 then actual else 0;
      var head := EncodeWords([RET_SUBMIT, Seqnum(raw), 0, Direction(raw), Endpoint(raw), status, actual,
                               0, 0xFFFF_FFFF, 0, 0, 0]);
      sent := session.SendRaw(head + inBuf[..inLen]);
    }

    method RunTransfer(raw: seq<Byte>, hw: Hardware) returns (status: U32, actual: nat, call: UsbCall)
      requires Valid() && |raw| >= MSG_LEN
      modifies inBuf
      ensures call == Asked(raw)
      ensures Outcome(status, actual, inBuf[..]) == Transfer(raw, hw, old(inBuf[..]))
    {
      var length, dataAvail := BufferLength(raw), |raw| - MSG_LEN;
      status, actual := 0, 0;
      var r: int;
      if Direction(raw) == DIR_IN {
        var maxIn := Min(length, IN_BUF);
        if Endpoint(raw) == 0 {
          call := ControlCall(raw[40..48], [], maxIn);
          r := UsbControlIn(maxIn, hw);
        } else {
          call := ReceiveCall(maxIn);
          r := UsbRecv(maxIn, hw);
        }
        if r < 0 { status := 1; } else { actual := r; }
      } else {
        var outLen := Min(length, dataAvail);
        var out := raw[MSG_LEN..MSG_LEN + outLen];
        if Endpoint(raw) == 0 {
          call := ControlCall(raw[40..48], out, 0);
          r := UsbControlOut(outLen, hw);
          if r < 0 { status := 1; }
        } else {
          call := SendCall(out);
          if hw.outStatus != 0 { status := 1; }
        }
      }
    }

    /** usb_drv_control with an IN stage: the byte count, or a negative error. */
    method UsbControlIn(maxIn: nat, hw: Hardware) returns (r: int)
      requires Valid() && maxIn <= IN_BUF
      modifies inBuf
      ensures (if r < 0 then Outcome(1, 0, inBuf[..]) else Outcome(0, r, inBuf[..]))
              == ControlIn(maxIn, hw, old(inBuf[..]))
    {
      if maxIn > CTRL_MAX || !hw.control.Completed? { return -1; }
      if hw.control.status != 0 { return -(hw.control.status as int); }
      var data := ControlData(hw);
      if maxIn > 0 && |data| > 0 {
        var n := Min(|data|, maxIn);
        CopyIn(data[..n]);
        return n;
      }
      return |data|;
    }

    /** usb_drv_control with an OUT stage; the caller looks only at the sign. */
    method UsbControlOut(outLen: nat, hw: Hardware) returns (r: int)
      ensures r < 0 <==> outLen > CTRL_MAX || !hw.control.Completed? || hw.control.status != 0
    {
      if outLen > CTRL_MAX || !hw.control.Completed? { return -1; }
      if hw.control.status != 0 { return -(hw.control.status as int); }
      return |ControlData(hw)|;
    }

    method UsbRecv(maxIn: nat, hw: Hardware) returns (r: int)
      requires Valid() && maxIn <= IN_BUF
      modifies inBuf
      ensures (if r < 0 then Outcome(1, 0, inBuf[..]) else Outcome(0, r, inBuf[..]))
              == BulkIn(maxIn, hw, old(inBuf[..]))
    {
      if hw.frame.None? { return -1; }
      var frame := Frame(hw);
      var n := Min(|frame|, maxIn);
      CopyIn(frame[..n]);
      return n;
    }

    /** memcpy to the start of the IN buffer. */
    method CopyIn(data: seq<Byte>)
      requires Valid() && |data| <= IN_BUF
      modifies inBuf
      ensures inBuf[..] == Overwrite(old(inBuf[..]), data)
    {
      for i := 0 to |data|
        invariant inBuf[..i] == data[..i] && inBuf[i..] == old(inBuf[i..])
      {
        inBuf[i] := data[i];
      }
      assert inBuf[..] == inBuf[..|data|] + inBuf[|data|..];
    }

    /**
      Any sequence of commands on a live socket with memory available: the replies go out one
      unfragmented datagram each, in order, numbered consecutively, and nothing else does.
     */
    method HandleAll(cmds: seq<Request>) returns (sent: seq<seq<Byte>>)
      requires Valid() && session.sock >= 0
      modifies inBuf, session`seqNo, session`outTransferSeq
      ensures sent == Numbered(session.deviceId, old(session.seqNo), Replies(cmds, old(inBuf[..])))
    {
      sent := [];
      ghost var start, buf := session.seqNo, inBuf[..];
      var k := 0;
      while k < |cmds|
        invariant 0 <= k <= |cmds| && Progress(cmds, k, start, buf, sent)
      {
        sent := HandleNext(cmds, k, start, buf, sent);
        k := k + 1;
      }
      assert cmds[..k] == cmds;
    }

    /** The first `k` commands have been handled, starting from number `start` and IN buffer `was`. */
    ghost predicate Progress(cmds: seq<Request>, k: nat, start: Byte, was: seq<Byte>, sent: seq<seq<Byte>>)
      requires |was| == IN_BUF && k <= |cmds|
      reads inBuf, session
    {
      Handled(cmds[..k], session.deviceId, start, was, sent, session.seqNo, inBuf[..])
    }

    method HandleNext(cmds: seq<Request>, k: nat, ghost start: Byte, ghost was: seq<Byte>, sent: seq<seq<Byte>>)
      returns (sent': seq<seq<Byte>>)
      requires Valid() && session.sock >= 0 && |was| == IN_BUF && k < |cmds| && Progress(cmds, k, start, was, sent)
      modifies inBuf, session`seqNo, session`outTransferSeq
      ensures Progress(cmds, k + 1, start, was, sent')
    {
      ghost var seqNo, buf := session.seqNo, inBuf[..];
      var out := HandleOne(cmds[k], start, |sent|);
      HandledNext(cmds, k, session.deviceId, start, was, sent, seqNo, buf, out, session.seqNo, inBuf[..]);
      sent' := sent + out;
    }

    method HandleOne(c: Request, ghost start: Byte, ghost n: nat) returns (sent: seq<seq<Byte>>)
      requires Valid() && session.sock >= 0 && session.seqNo == (start + n) % 256
      modifies inBuf, session`seqNo, session`outTransferSeq
      ensures inBuf[..] == BufAfter(c, old(inBuf[..]))
      ensures sent == Numbered(session.deviceId, start + n, ReplyOrNone(c, old(inBuf[..])))
      ensures session.seqNo == (start + (n + |sent|)) % 256
    {
      DeviceSession.WrapNext(start, n);
      var asked;
      sent, asked := HandleSubmit(c, true);
    }
  }
}
