/**
  The byte formats shared by the daemon and the firmware: the packed little-endian
  structs of Protocol.h and the 32-bit big-endian words of the USB/IP messages.
 */
module Wire {

  type Byte = b: int | 0 <= b < 256
  type U16 = n: int | 0 <= n < 0x1_0000
  type U32 = n: int | 0 <= n < 0x1_0000_0000

  const MTU_PAYLOAD := 1400
  const HEADER_LEN := 6
  const FRAG_HEADER_LEN := 4

  const CMD_DEVICE_EVENT: Byte := 0x10
  const CMD_RAW_DATA: Byte := 0x30
  const CMD_RAW_FRAG: Byte := 0x31

  function Le16(lo: int, hi: int): int {
    lo + 256 * hi
  }

  function Be32(b0: int, b1: int, b2: int, b3: int): int {
    256 * (256 * (256 * b0 + b1) + b2) + b3
  }

  datatype Option<+T> = None | Some(value: T)

  datatype Header = Header(cmdType: Byte, deviceId: Byte, endpoint: Byte, seqNo: Byte, payloadLen: U16)

  datatype FragHeader = FragHeader(transferSeq: U16, fragIdx: Byte, fragTotal: Byte)

  function EncodeHeader(h: Header): (b: seq<Byte>)
    ensures |b| == HEADER_LEN
  {
    [h.cmdType, h.deviceId, h.endpoint, h.seqNo, h.payloadLen % 256, h.payloadLen / 256]
  }

  /** Reads the packed struct at the start of `b`, as the memcpy into a Header does. */
  function DecodeHeader(b: seq<Byte>): (h: Header)
    requires |b| >= HEADER_LEN
  {
    Header(b[0], b[1], b[2], b[3], Le16(b[4], b[5]))
  }

  lemma HeaderRoundTrip(h: Header, rest: seq<Byte>)
    ensures DecodeHeader(EncodeHeader(h) + rest) == h
    ensures (EncodeHeader(h) + rest)[HEADER_LEN..] == rest
  {
    var b := EncodeHeader(h) + rest;
    assert b[4] == h.payloadLen % 256 && b[5] == h.payloadLen / 256;
  }

  function EncodeFragHeader(h: FragHeader): (b: seq<Byte>)
    ensures |b| == FRAG_HEADER_LEN
  {
    [h.transferSeq % 256, h.transferSeq / 256, h.fragIdx, h.fragTotal]
  }

  function DecodeFragHeader(b: seq<Byte>): (h: FragHeader)
    requires |b| >= FRAG_HEADER_LEN
  {
    FragHeader(Le16(b[0], b[1]), b[2], b[3])
  }

  lemma FragHeaderRoundTrip(h: FragHeader, rest: seq<Byte>)
    ensures DecodeFragHeader(EncodeFragHeader(h) + rest) == h
    ensures (EncodeFragHeader(h) + rest)[FRAG_HEADER_LEN..] == rest
  {
    var b := EncodeFragHeader(h) + rest;
    assert b[0] == h.transferSeq % 256 && b[1] == h.transferSeq / 256;
  }

  function EncodeBe32(n: U32): (b: seq<Byte>)
    ensures |b| == 4
  {
    [n / 256 / 256 / 256, n / 256 / 256 % 256, n / 256 % 256, n % 256]
  }

  function DecodeBe32(b: seq<Byte>, at: nat): (n: U32)
    requires at + 4 <= |b|
  {
    Be32(b[at], b[at + 1], b[at + 2], b[at + 3])
  }

  lemma Be32RoundTrip(b: seq<Byte>, at: nat, n: U32)
    requires at + 4 <= |b|
    requires b[at..at + 4] == EncodeBe32(n)
    ensures DecodeBe32(b, at) == n
  {
    var s := b[at..at + 4];
    assert s[0] == b[at] && s[1] == b[at + 1] && s[2] == b[at + 2] && s[3] == b[at + 3];
    Div256(n, n / 256, n % 256);
  }

  lemma Div256(n: int, q: int, r: int)
    requires n == 256 * q + r && 0 <= r < 256
    ensures n / 256 == q && n % 256 == r
  {}

  /** Each field of the header in its place, the length with its low byte first. */
  lemma HeaderLayout(h: Header)
    ensures var b := EncodeHeader(h);
            && |b| == 6 && b[0] == h.cmdType && b[1] == h.deviceId && b[2] == h.endpoint && b[3] == h.seqNo
            && b[4] as int + 256 * (b[5] as int) == h.payloadLen
  {}

  lemma FragHeaderLayout(h: FragHeader)
    ensures var b := EncodeFragHeader(h);
            |b| == 4 && b[0] as int + 256 * (b[1] as int) == h.transferSeq && b[2] == h.fragIdx && b[3] == h.fragTotal
  {}

  /** The first byte of a big-endian word is the most significant. */
  lemma Be32Layout(b: seq<Byte>, at: nat)
    requires at + 4 <= |b|
    ensures DecodeBe32(b, at) == 0x100_0000 * (b[at] as int) + 0x1_0000 * (b[at + 1] as int)
                                 + 0x100 * (b[at + 2] as int) + b[at + 3] as int
  {}

  function Min(a: nat, b: nat): nat {
    if a < b then a else b
  }

  /** The C string at the start of a buffer. */
  function CString(a: seq<Byte>): (r: seq<Byte>)
    ensures r <= a && 0 !in r
    ensures |r| < |a| ==> a[|r|] == 0
  {
    if a == [] || a[0] == 0 then [] else [a[0]] + CString(a[1..])
  }

  /** strlen sees everything up to the first NUL. */
  lemma CStringIs(a: seq<Byte>, n: nat)
    requires n <= |a| && 0 !in a[..n] && (n < |a| ==> a[n] == 0)
    ensures CString(a) == a[..n]
  {
    assert forall i :: 0 <= i < n ==> a[i] == a[..n][i];
    assert |CString(a)| == n;
  }

  lemma CStringWhole(s: seq<Byte>)
    requires 0 !in s
    ensures CString(s) == s
  {
    assert s[..|s|] == s;
    CStringIs(s, |s|);
  }

  /** Bytes after the first NUL do not matter. */
  lemma {:induction false} CStringStops(u: seq<Byte>, rest: seq<Byte>)
    requires rest != [] && rest[0] == 0
    ensures CString(u + rest) == CString(u)
  {
    if u == [] {
      assert u + rest == rest;
    } else {
      assert (u + rest)[0] == u[0] && (u + rest)[1..] == u[1..] + rest;
      CStringStops(u[1..], rest);
    }
  }

  /** The bytes of a list of byte strings, one after the other. */
  function Concat(ss: seq<seq<Byte>>): (b: seq<Byte>)
  {
    if ss == [] then [] else ss[0] + Concat(ss[1..])
  }

  lemma {:induction false} ConcatAppend(a: seq<seq<Byte>>, b: seq<seq<Byte>>)
    ensures Concat(a + b) == Concat(a) + Concat(b)
  {
    if a == [] {
      assert a + b == b;
    } else {
      assert (a + b)[0] == a[0] && (a + b)[1..] == a[1..] + b;
      ConcatAppend(a[1..], b);
    }
  }
}
