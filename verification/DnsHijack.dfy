/**
  The portal's DNS responder (dns_server_task in wifi_manager.c): the scan for the end of
  the question and the reply it builds, against a decoder for the message format of
  section 4.1 of RFC 1035.
 */
module DnsHijack {
  import opened Wire

  const DNS_HEADER := 12
  const RESP_SIZE := 512
  const RECV_MAX := 511
  const ANSWER_LEN := 16
  const AP_IP: seq<Byte> := [4, 3, 2, 1]

  // ── The responder ──────────────────────────────────────────────────────────

  /** The offset just past the name that starts at `at`: after its root label or its pointer. */
  function ScanName(msg: seq<Byte>, at: nat): (ne: nat)
    ensures ne > at
    decreases |msg| - at
  {
    if at >= |msg| || msg[at] == 0 then at + 1
    else if msg[at] >= 0xC0 then at + 2
    else ScanName(msg, at + msg[at] + 1)
  }

  function QuestionEnd(msg: seq<Byte>): nat {
    ScanName(msg, DNS_HEADER) + 4
  }

  /** Sixteen bytes: a pointer to offset 12, type A, class IN, three seconds, and the portal's address. */
  function AnswerRecord(): (a: seq<Byte>)
    ensures |a| == ANSWER_LEN
  {
    [0xC0, 0x0C, 0, 1, 0, 1, 0, 0, 0, 3, 0, 4] + AP_IP
  }

  function ReplyHeader(msg: seq<Byte>): (h: seq<Byte>)
    requires |msg| >= 2
    ensures |h| == DNS_HEADER
  {
    [msg[0], msg[1], 0x81, 0x80, 0, 1, 0, 1, 0, 0, 0, 0]
  }

  function Reply(msg: seq<Byte>): (r: seq<Byte>)
    requires DNS_HEADER <= QuestionEnd(msg) <= |msg|
    ensures |r| == QuestionEnd(msg) + ANSWER_LEN
  {
    ReplyHeader(msg) + msg[DNS_HEADER..QuestionEnd(msg)] + AnswerRecord()
  }

  /** What recvfrom leaves of a datagram. */
  function Heard(datagram: seq<Byte>): seq<Byte> {
    datagram[..Min(|datagram|, RECV_MAX)]
  }

  /** The reply would be written past the end of its buffer, which the code does not check. */
  datatype Turn = Stopped | Dropped | OutOfBounds | Answered(n: nat)

  /**
    One turn of dns_server_task on any datagram.  A message shorter than a header ends it, one
    whose question runs past its end is dropped, one whose question ends after offset 496 makes
    it write out of bounds, and every other is answered with the reply.
   */
  method HandleQuery(datagram: seq<Byte>, resp: array<Byte>) returns (turn: Turn)
    requires resp.Length == RESP_SIZE
    modifies resp
    ensures turn == Stopped <==> |Heard(datagram)| < DNS_HEADER
    ensures turn == Dropped <==> DNS_HEADER <= |Heard(datagram)| < QuestionEnd(Heard(datagram))
    ensures turn == OutOfBounds <==> 496 < QuestionEnd(Heard(datagram)) <= |Heard(datagram)|
    ensures turn.Answered? ==>
              && turn.n <= RESP_SIZE && DNS_HEADER <= QuestionEnd(Heard(datagram)) <= |Heard(datagram)|
              && resp[..turn.n] == Reply(Heard(datagram))
  {
    var msg := Heard(datagram);
    if |msg| < DNS_HEADER { return Stopped; }
    var ne, found := DNS_HEADER, false;
    while ne < |msg| && msg[ne] != 0 && !found
      invariant DNS_HEADER <= ne
      invariant if found then ne == ScanName(msg, DNS_HEADER) else ScanName(msg, ne) == ScanName(msg, DNS_HEADER)
      decreases if found then 0 else 1, |msg| - ne
    {
      if msg[ne] >= 0xC0 {
        ne, found := ne + 2, true;
      } else {
        ne := ne + msg[ne] + 1;
      }
    }
    if !found {
      ne := ne + 1;
    }
    var qend := ne + 4;
    if qend > |msg| { return Dropped; }
    if qend + ANSWER_LEN > resp.Length { return OutOfBounds; }
    var n := WriteReply(msg, qend, resp);
    return Answered(n);
  }

  method WriteReply(msg: seq<Byte>, qend: nat, resp: array<Byte>) returns (n: nat)
    requires DNS_HEADER <= qend <= |msg| && qend + ANSWER_LEN <= resp.Length
    modifies resp
    ensures n == qend + ANSWER_LEN
    ensures resp[..n] == ReplyHeader(msg) + msg[DNS_HEADER..qend] + AnswerRecord()
  {
    WriteAt(resp, 0, ReplyHeader(msg));
    WriteAt(resp, DNS_HEADER, msg[DNS_HEADER..qend]);
    WriteAt(resp, qend, AnswerRecord());
    n := qend + ANSWER_LEN;
  }

  /** memcpy into the response. */
  method WriteAt(resp: array<Byte>, at: nat, data: seq<Byte>)
    requires at + |data| <= resp.Length
    modifies resp
    ensures resp[..at + |data|] == old(resp[..at]) + data
  {
    for i := 0 to |data|
      invariant resp[..at + i] == old(resp[..at]) + data[..i]
    {
      resp[at + i] := data[i];
      assert resp[..at + i + 1] == resp[..at + i] + [data[i]];
    }
    assert data[..|data|] == data;
  }

  // ── RFC 1035, for reference ────────────────────────────────────────────────

  predicate IsLabel(l: seq<Byte>) {
    1 <= |l| <= 63
  }

  function EncodeName(labels: seq<seq<Byte>>): (b: seq<Byte>)
    requires forall i :: 0 <= i < |labels| ==> IsLabel(labels[i])
  {
    if labels == [] then [0]
    else
      assert IsLabel(labels[0]);
      var len: Byte := |labels[0]|;
      [len] + labels[0] + EncodeName(labels[1..])
  }

  datatype Name = Name(labels: seq<seq<Byte>>, next: nat) | BadName

  /** A name at `at`; a pointer must lead to before `start`, where the present run of labels began. */
  function DecodeName(msg: seq<Byte>, at: nat, start: nat): (n: Name)
    decreases start, |msg| - at
  {
    if at >= |msg| then BadName
    else if msg[at] == 0 then Name([], at + 1)
    else if msg[at] >= 0xC0 then
      if at + 1 >= |msg| then BadName
      else
        var target := 256 * ((msg[at] as int) - 0xC0) + msg[at + 1];
        if target >= start then BadName
        else
          var n := DecodeName(msg, target, target);
          if n.BadName? then BadName else Name(n.labels, at + 2)
    else if msg[at] > 63 || at + 1 + msg[at] > |msg| then BadName
    else
      var n := DecodeName(msg, at + 1 + msg[at], start);
      if n.BadName? then BadName else Name([msg[at + 1..at + 1 + msg[at]]] + n.labels, n.next)
  }

  function Word(msg: seq<Byte>, at: nat): U16
    requires at + 2 <= |msg|
  {
    Le16(msg[at + 1], msg[at])
  }

  datatype Message =
    | Message(id: U16, flags: U16, counts: seq<U16>, qname: seq<seq<Byte>>, qtype: U16, qclass: U16,
              aname: seq<seq<Byte>>, atype: U16, aclass: U16, ttl: U32, rdata: seq<Byte>)
    | BadMessage

  /** A message with one question and one answer. */
  function DecodeMessage(msg: seq<Byte>): (m: Message) {
    if |msg| < DNS_HEADER then BadMessage
    else
      var q := DecodeName(msg, DNS_HEADER, DNS_HEADER);
      if q.BadName? || q.next + 4 > |msg| then BadMessage
      else
        var at := q.next + 4;
        var a := DecodeName(msg, at, at);
        if a.BadName? || a.next + 10 > |msg| then BadMessage
        else
          var len := Word(msg, a.next + 8);
          if a.next + 10 + len != |msg| then BadMessage
          else Message(Word(msg, 0), Word(msg, 2), [Word(msg, 4), Word(msg, 6), Word(msg, 8), Word(msg, 10)],
                       q.labels, Word(msg, q.next), Word(msg, q.next + 2),
                       a.labels, Word(msg, a.next), Word(msg, a.next + 2), DecodeBe32(msg, a.next + 4),
                       msg[a.next + 10..])
  }

  // ── The scan and the reply are right ───────────────────────────────────────

  lemma {:induction false} NameScans(pre: seq<Byte>, labels: seq<seq<Byte>>, post: seq<Byte>, start: nat)
    requires forall i :: 0 <= i < |labels| ==> IsLabel(labels[i])
    ensures var msg := pre + EncodeName(labels) + post;
            && ScanName(msg, |pre|) == |pre| + |EncodeName(labels)|
            && DecodeName(msg, |pre|, start) == Name(labels, |pre| + |EncodeName(labels)|)
    decreases labels
  {
    var msg := pre + EncodeName(labels) + post;
    if labels != [] {
      var l := labels[0];
      var pre' := pre + [|l|] + l;
      assert msg == pre' + EncodeName(labels[1..]) + post;
      NameScans(pre', labels[1..], post, start);
      assert msg[|pre|] == |l| && msg[|pre| + 1..|pre| + 1 + |l|] == l;
      assert [l] + labels[1..] == labels;
    }
  }

  function EncodeLabels(labels: seq<seq<Byte>>): (b: seq<Byte>)
    requires forall i :: 0 <= i < |labels| ==> IsLabel(labels[i])
  {
    if labels == [] then []
    else
      assert IsLabel(labels[0]);
      var len: Byte := |labels[0]|;
      [len] + labels[0] + EncodeLabels(labels[1..])
  }

  /** A name that ends in a pointer: the scan ends after the pointer's two bytes. */
  lemma {:induction false} PointerScans(pre: seq<Byte>, labels: seq<seq<Byte>>, p: Byte, q: Byte, post: seq<Byte>)
    requires (forall i :: 0 <= i < |labels| ==> IsLabel(labels[i])) && p >= 0xC0
    ensures ScanName(pre + EncodeLabels(labels) + ([p, q] + post), |pre|) == |pre| + |EncodeLabels(labels)| + 2
    decreases labels
  {
    var msg := pre + EncodeLabels(labels) + ([p, q] + post);
    if labels == [] {
      assert msg[|pre|] == p;
    } else {
      var len: Byte := |labels[0]|;
      var more := pre + ([len] + labels[0]);
      assert msg == more + EncodeLabels(labels[1..]) + ([p, q] + post);
      assert msg[|pre|] == len;
      PointerScans(more, labels[1..], p, q, post);
    }
  }

  /**
    For every query with one question under an uncompressed name of 1 to 63 byte labels,
    whatever follows it, the scan ends just past the root label.
   */
  lemma ScanEndsAfterRoot(header: seq<Byte>, labels: seq<seq<Byte>>, qtail: seq<Byte>, more: seq<Byte>)
    requires |header| == DNS_HEADER && |qtail| == 4 && forall i :: 0 <= i < |labels| ==> IsLabel(labels[i])
    ensures var msg := header + EncodeName(labels) + (qtail + more);
            ScanName(msg, DNS_HEADER) == DNS_HEADER + |EncodeName(labels)|
    ensures var msg := header + EncodeName(labels) + (qtail + more);
            QuestionEnd(msg) <= |msg| && msg[DNS_HEADER..QuestionEnd(msg)] == EncodeName(labels) + qtail
  {
    NameScans(header, labels, qtail + more, 0);
  }

  /**
    The reply decodes to the query's identifier and question, and one A record for the
    question's own name, reached through a compression pointer, with the portal's address; it fits the
    response buffer exactly when the question ends at or before offset 496.
   */
  lemma ReplyDecodes(header: seq<Byte>, labels: seq<seq<Byte>>, qtail: seq<Byte>, more: seq<Byte>)
    requires |header| == DNS_HEADER && |qtail| == 4 && forall i :: 0 <= i < |labels| ==> IsLabel(labels[i])
    ensures var msg := header + EncodeName(labels) + (qtail + more);
            && DNS_HEADER <= QuestionEnd(msg) <= |msg|
            && DecodeMessage(Reply(msg)) ==
                 Message(Word(header, 0), 0x8180, [1, 1, 0, 0], labels, Word(qtail, 0), Word(qtail, 2),
                         labels, 1, 1, 3, [4, 3, 2, 1])
            && (|Reply(msg)| <= RESP_SIZE <==> QuestionEnd(msg) <= 496)
  {
    var name := EncodeName(labels);
    var msg := header + name + (qtail + more);
    ScanEndsAfterRoot(header, labels, qtail, more);
    assert ReplyHeader(msg) == ReplyHeader(header);
    assert Reply(msg) == ReplyHeader(header) + name + (qtail + AnswerRecord());
    ReplyShape(Reply(msg), ReplyHeader(header), labels, qtail);
  }

  /** Names within the 255 octets of section 2.3.4 of RFC 1035 never make the reply too long. */
  lemma LegalNamesFit(header: seq<Byte>, labels: seq<seq<Byte>>, qtail: seq<Byte>, more: seq<Byte>)
    requires |header| == DNS_HEADER && |qtail| == 4 && forall i :: 0 <= i < |labels| ==> IsLabel(labels[i])
    requires |EncodeName(labels)| <= 255
    ensures var msg := header + EncodeName(labels) + (qtail + more); QuestionEnd(msg) <= 271 < 496
  {
    ScanEndsAfterRoot(header, labels, qtail, more);
  }

  /** `n` labels of 63 bytes and one of 33. */
  function LongName(n: nat): (labels: seq<seq<Byte>>)
    ensures forall i :: 0 <= i < |labels| ==> IsLabel(labels[i])
  {
    if n == 0 then [seq(33, i => 97)] else [seq(63, i => 97)] + LongName(n - 1)
  }

  lemma {:induction false} LongNameLength(n: nat)
    ensures |EncodeName(LongName(n))| == 64 * n + 35
  {
    if n == 0 {
      assert LongName(0)[1..] == [];
    } else {
      LongNameLength(n - 1);
      assert LongName(n)[1..] == LongName(n - 1);
    }
  }

  /** A question of 483 name bytes ends at offset 499, within a received message, and its reply has 515 bytes. */
  lemma LongNameOverflows(header: seq<Byte>, qtail: seq<Byte>)
    requires |header| == DNS_HEADER && |qtail| == 4
    ensures var msg := header + EncodeName(LongName(7)) + (qtail + []);
            && |msg| == 499 <= RECV_MAX && QuestionEnd(msg) == 499 && |Reply(msg)| == 515 > RESP_SIZE
  {
    LongNameLength(7);
    ScanEndsAfterRoot(header, LongName(7), qtail, []);
  }

  /** Decoding header, name, question tail and answer record put together. */
  lemma ReplyShape(r: seq<Byte>, h: seq<Byte>, labels: seq<seq<Byte>>, qtail: seq<Byte>)
    requires |h| == DNS_HEADER && |qtail| == 4 && forall i :: 0 <= i < |labels| ==> IsLabel(labels[i])
    requires r == h + EncodeName(labels) + (qtail + AnswerRecord())
    ensures DecodeMessage(r) ==
            Message(Word(h, 0), Word(h, 2), [Word(h, 4), Word(h, 6), Word(h, 8), Word(h, 10)],
                    labels, Word(qtail, 0), Word(qtail, 2), labels, 1, 1, 3, AP_IP)
  {
    NameScans(h, labels, qtail + AnswerRecord(), DNS_HEADER);
    Parts(r, h, EncodeName(labels), qtail, AnswerRecord());
    PartsDecode(r, h, DNS_HEADER + |EncodeName(labels)|, labels, qtail);
  }

  lemma Parts(r: seq<Byte>, a: seq<Byte>, b: seq<Byte>, c: seq<Byte>, d: seq<Byte>)
    requires r == a + b + (c + d)
    ensures r[..|a|] == a && r[|a| + |b|..|a| + |b| + |c|] == c && r[|a| + |b| + |c|..] == d
  {}

  lemma PartsDecode(r: seq<Byte>, h: seq<Byte>, q: nat, labels: seq<seq<Byte>>, qtail: seq<Byte>)
    requires |h| == DNS_HEADER && |qtail| == 4 && q > DNS_HEADER && |r| == q + 4 + ANSWER_LEN
    requires r[..DNS_HEADER] == h && r[q..q + 4] == qtail && r[q + 4..] == AnswerRecord()
    requires DecodeName(r, DNS_HEADER, DNS_HEADER) == Name(labels, q)
    ensures DecodeMessage(r) ==
            Message(Word(h, 0), Word(h, 2), [Word(h, 4), Word(h, 6), Word(h, 8), Word(h, 10)],
                    labels, Word(qtail, 0), Word(qtail, 2), labels, 1, 1, 3, AP_IP)
  {
    assert r[0..0 + |h|] == h;
    WordsOf(r, 0, h);
    WordsOf(r, q, qtail);
    AnswerFields(r, q + 4, labels);
  }

  /** The 16-bit fields of a part of the message. */
  lemma WordsOf(r: seq<Byte>, at: nat, part: seq<Byte>)
    requires at + |part| <= |r| && r[at..at + |part|] == part
    ensures forall i: nat {:trigger Word(part, i)} :: i + 2 <= |part| ==> Word(r, at + i) == Word(part, i)
  {
    forall i: nat | i + 2 <= |part| ensures Word(r, at + i) == Word(part, i) {
      assert r[at..at + |part|][i] == part[i] && r[at..at + |part|][i + 1] == part[i + 1];
    }
  }

  lemma AnswerFields(r: seq<Byte>, at: nat, labels: seq<seq<Byte>>)
    requires at > DNS_HEADER && |r| == at + ANSWER_LEN && r[at..] == AnswerRecord()
    requires DecodeName(r, DNS_HEADER, DNS_HEADER).Name? && DecodeName(r, DNS_HEADER, DNS_HEADER).labels == labels
    ensures DecodeName(r, at, at) == Name(labels, at + 2)
    ensures Word(r, at + 2) == 1 && Word(r, at + 4) == 1 && DecodeBe32(r, at + 6) == 3 && Word(r, at + 10) == 4
    ensures r[at + 12..] == AP_IP
  {
    var a := AnswerRecord();
    forall i | 0 <= i < ANSWER_LEN ensures r[at + i] == a[i] {
      assert r[at..][i] == a[i];
    }
    assert r[at + 0] == 0xC0 && r[at + 1] == 0x0C && r[at + 2] == 0 && r[at + 3] == 1;
    assert r[at + 4] == 0 && r[at + 5] == 1;
    assert r[at + 6] == 0 && r[at + 7] == 0 && r[at + 8] == 0 && r[at + 9] == 3 && r[at + 10] == 0 && r[at + 11] == 4;
    assert r[at + 12..] == r[at..][12..];
  }
}
