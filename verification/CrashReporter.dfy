/**
  crash_reporter.c: a 600-byte ring in memory that survives a reset, its reconstruction and
  sanitising at the next boot, and the report sent in pieces.
 */
module CrashReporter {
  import opened Wire

  const RTC_BUF_SIZE := 600
  const PENDING_SIZE := RTC_BUF_SIZE + 64
  const CHUNK := 200
  const CRASH_MAGIC: U32 := 0xC0FFEE42

  /** The most recent `n` bytes. */
  function Last(s: seq<Byte>, n: nat): (r: seq<Byte>) {
    if |s| <= n then s else s[|s| - n..]
  }

  /** The ring read in chronological order. */
  function Chronological(buf: seq<Byte>, pos: nat, wrapped: bool): (r: seq<Byte>)
    requires pos < |buf|
  {
    if wrapped then buf[pos..] + buf[..pos] else buf[..pos]
  }

  /** Writing one byte at the position and advancing it keeps the most recent bytes. */
  lemma WriteByte(buf: seq<Byte>, pos: nat, wrapped: bool, b: Byte)
    requires |buf| == RTC_BUF_SIZE && pos < RTC_BUF_SIZE
    ensures var wraps := pos + 1 >= RTC_BUF_SIZE;
            Chronological(buf[pos := b], if wraps then 0 else pos + 1, wrapped || wraps)
            == Last(Chronological(buf, pos, wrapped) + [b], RTC_BUF_SIZE)
  {
    var old', new' := Chronological(buf, pos, wrapped), buf[pos := b];
    if pos + 1 < RTC_BUF_SIZE {
      if wrapped {
        assert new'[pos + 1..] + new'[..pos + 1] == (buf[pos..] + buf[..pos] + [b])[1..];
      } else {
        assert new'[..pos + 1] == buf[..pos] + [b];
      }
    } else if wrapped {
      assert new' == (buf[pos..] + buf[..pos] + [b])[1..];
    } else {
      assert new' == buf[..pos] + [b];
    }
  }

  /** Keeping the last bytes after each piece is keeping the last bytes of the whole. */
  lemma LastAgain(a: seq<Byte>, b: seq<Byte>, c: seq<Byte>, n: nat)
    ensures Last(Last(a + b, n) + c, n) == Last(a + (b + c), n)
  {
    LastTwice(a + b, c, n);
    assert a + b + c == a + (b + c);
  }

  lemma LastTwice(a: seq<Byte>, b: seq<Byte>, n: nat)
    ensures Last(Last(a, n) + b, n) == Last(a + b, n)
  {}

  /** The most recent bytes once `i` bytes of `msg` have followed `start`. */
  ghost function LastWith(start: seq<Byte>, msg: seq<Byte>, i: nat): seq<Byte>
    requires i <= |msg|
  {
    Last(start + msg[..i], RTC_BUF_SIZE)
  }

  lemma LastPrefix(start: seq<Byte>, msg: seq<Byte>, i: nat)
    requires i <= |msg|
    ensures |start| <= RTC_BUF_SIZE ==> LastWith(start, msg, 0) == start
    ensures LastWith(start, msg, |msg|) == Last(start + msg, RTC_BUF_SIZE)
    ensures i < |msg| ==> Last(LastWith(start, msg, i) + [msg[i]], RTC_BUF_SIZE) == LastWith(start, msg, i + 1)
  {
    assert start + msg[..0] == start && msg[..|msg|] == msg;
    if i < |msg| {
      LastAgain(start, msg[..i], [msg[i]], RTC_BUF_SIZE);
      assert msg[..i] + [msg[i]] == msg[..i + 1];
    }
  }

  lemma ConcatOneMore(a: seq<seq<Byte>>, b: seq<Byte>)
    ensures Concat(a + [b]) == Concat(a) + b
  {
    ConcatAppend(a, [b]);
    assert Concat([b]) == b + Concat([]);
  }

  predicate Printable(c: Byte) {
    c == 10 || c == 9 || 0x20 <= c <= 0x7E
  }

  function Sanitised(s: seq<Byte>): (r: seq<Byte>)
    ensures |r| == |s|
    ensures forall i :: 0 <= i < |s| ==> r[i] == if s[i] == 10 || s[i] == 9 || 32 <= s[i] <= 126 then s[i] else 46
  {
    seq(|s|, i requires 0 <= i < |s| => if Printable(s[i]) then s[i] else 46)
  }

  class CrashReporter {
    var magic: U32
    const buf: array<Byte>
    var pos: nat
    var wrapped: bool
    const pending: array<Byte>
    var hasPending: bool

    /** Without the magic number the ring's fields hold whatever the memory held. */
    ghost predicate Valid()
      reads this
    {
      && buf.Length == RTC_BUF_SIZE && pending.Length == PENDING_SIZE && buf != pending
      && (magic == CRASH_MAGIC ==> pos < RTC_BUF_SIZE)
    }

    /** What a boot would find in the ring. */
    ghost function Contents(): (s: seq<Byte>)
      requires Valid() && magic == CRASH_MAGIC
      reads this, buf
    {
      Chronological(buf[..], pos, wrapped)
    }

    /** The text that would be sent. */
    ghost function Report(): (s: seq<Byte>)
      reads pending
    {
      CString(pending[..])
    }

    /** A power-on: the ring's memory holds no magic number, and otherwise anything. */
    constructor (magic: U32, pos: nat, wrapped: bool)
      requires magic != CRASH_MAGIC
      ensures Valid() && this.magic == magic && !hasPending && fresh(buf) && fresh(pending)
    {
      this.magic, this.pos, this.wrapped, hasPending := magic, pos, wrapped, false;
      buf := new Byte[RTC_BUF_SIZE](i => 0);
      pending := new Byte[PENDING_SIZE](i => 0);
    }

    /** crash_reporter_append: the ring holds the most recent 600 bytes. */
    method Append(msg: seq<Byte>)
      requires Valid()
      modifies this`pos, this`wrapped, buf
      ensures Valid()
      ensures magic == CRASH_MAGIC ==> Contents() == Last(old(Contents()) + msg, RTC_BUF_SIZE)
      ensures magic != CRASH_MAGIC ==> pos == old(pos) && wrapped == old(wrapped) && buf[..] == old(buf[..])
    {
      if magic != CRASH_MAGIC { return; }
      ghost var start := Contents();
      LastPrefix(start, msg, 0);
      for i := 0 to |msg|
        invariant Valid() && Contents() == LastWith(start, msg, i)
      {
        LastPrefix(start, msg, i);
        AppendByte(msg[i]);
      }
      LastPrefix(start, msg, |msg|);
    }

    method AppendByte(b: Byte)
      requires Valid() && magic == CRASH_MAGIC
      modifies this`pos, this`wrapped, buf
      ensures Valid() && Contents() == Last(old(Contents()) + [b], RTC_BUF_SIZE)
    {
      WriteByte(buf[..], pos, wrapped, b);
      buf[pos] := b;
      assert buf[..] == old(buf[..])[pos := b];
      pos := pos + 1;
      if pos >= RTC_BUF_SIZE {
        pos := 0;
        wrapped := true;
      }
    }

    /** Any sequence of appends. */
    method AppendAll(msgs: seq<seq<Byte>>)
      requires Valid() && magic == CRASH_MAGIC
      modifies this`pos, this`wrapped, buf
      ensures Valid() && |Contents()| <= RTC_BUF_SIZE
      ensures Contents() == Last(old(Contents()) + Concat(msgs), RTC_BUF_SIZE)
    {
      ghost var start := Contents();
      assert start + Concat(msgs[..0]) == start;
      for i := 0 to |msgs|
        invariant Valid() && Contents() == Last(start + Concat(msgs[..i]), RTC_BUF_SIZE)
      {
        Append(msgs[i]);
        LastAgain(start, Concat(msgs[..i]), msgs[i], RTC_BUF_SIZE);
        assert msgs[..i + 1] == msgs[..i] + [msgs[i]];
        ConcatOneMore(msgs[..i], msgs[i]);
      }
      assert msgs[..|msgs|] == msgs;
    }

    /**
      crash_reporter_init: after a crash with a valid, non-empty ring, the pending report is the
      sanitised ring, and strlen sees all of it; the ring starts again empty either way.
     */
    method Init(isCrash: bool)
      requires Valid()
      modifies this, buf, pending
      ensures Valid() && magic == CRASH_MAGIC && Contents() == []
      ensures var found := isCrash && old(magic) == CRASH_MAGIC && old(Contents()) != [];
              if found then hasPending && Report() == Sanitised(old(Contents()))
              else hasPending == old(hasPending) && pending[..] == old(pending[..])
    {
      if isCrash && magic == CRASH_MAGIC && (pos > 0 || wrapped) {
        hasPending := true;
        var out := Reconstruct();
        Sanitise(out);
        ghost var text := pending[..];
        assert text[..out] == Sanitised(old(Contents()));
        CStringIs(text, out);
      }
      magic, pos, wrapped := CRASH_MAGIC, 0, false;
      for i := 0 to RTC_BUF_SIZE
        modifies buf
      {
        buf[i] := 0;
      }
    }

    method Reconstruct() returns (out: nat)
      requires Valid() && magic == CRASH_MAGIC
      modifies pending
      ensures out == |Contents()| <= RTC_BUF_SIZE
      ensures pending[..out] == Contents() && pending[out] == 0
    {
      if wrapped {
        var tail := RTC_BUF_SIZE - pos;
        Copy(0, pos, tail);
        Copy(tail, 0, pos);
        out := RTC_BUF_SIZE;
      } else {
        Copy(0, 0, pos);
        out := pos;
      }
      assert pending[..out] == Contents();
      pending[out] := 0;
    }

    /** memcpy from the ring into the pending buffer. */
    method Copy(to: nat, from: nat, n: nat)
      requires Valid() && to + n <= PENDING_SIZE && from + n <= RTC_BUF_SIZE
      modifies pending
      ensures pending[to..to + n] == buf[from..from + n]
      ensures pending[..to] == old(pending[..to])
    {
      for i := 0 to n
        invariant pending[to..to + i] == buf[from..from + i]
        invariant pending[..to] == old(pending[..to])
      {
        pending[to + i] := buf[from + i];
      }
    }

    /** The in-place pass over the first `out` bytes. */
    method Sanitise(out: nat)
      requires Valid() && out < PENDING_SIZE
      modifies pending
      ensures pending[..out] == Sanitised(old(pending[..out])) && pending[out] == old(pending[out])
    {
      for i := 0 to out
        invariant forall j :: 0 <= j < i ==> pending[j] == (if Printable(old(pending[j])) then old(pending[j]) else 46)
        invariant forall j :: i <= j < PENDING_SIZE ==> pending[j] == old(pending[j])
      {
        var c := pending[i];
        if c != 10 && c != 9 && (c < 0x20 || c > 0x7E) {
          pending[i] := 46;
        }
      }
    }

    /** crash_send_task: pieces of 1 to 200 bytes that join to the whole report. */
    method Send() returns (lines: seq<seq<Byte>>)
      requires Valid()
      ensures Concat(lines) == Report()
      ensures forall i :: 0 <= i < |lines| ==> 0 < |lines[i]| <= 200 && (i < |lines| - 1 ==> |lines[i]| == 200)
    {
      var text := CString(pending[..]);
      lines := [];
      var off := 0;
      while off < |text|
        invariant 0 <= off && (off <= |text| ==> Concat(lines) == text[..off])
        invariant off > |text| ==> Concat(lines) == text
        invariant forall i :: 0 <= i < |lines| ==> 0 < |lines[i]| <= 200 && (i < |lines| - 1 ==> |lines[i]| == 200)
        invariant off < |text| && lines != [] ==> |lines[|lines| - 1]| == 200
      {
        var chunk := if |text| - off < CHUNK then |text| - off else CHUNK;
        var piece := text[off..off + chunk];
        ConcatOneMore(lines, piece);
        assert text[..off] + piece == text[..off + chunk];
        assert text[..|text|] == text;
        lines := lines + [piece];
        off := off + CHUNK;
      }
      assert text[..|text|] == text;
    }
  }
}
