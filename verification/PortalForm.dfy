/**
  The captive portal's form: url_decode, form_field and the choice made by
  post_save_handler (wifi_manager.c), against the urlencoded form the portal submits.
 */
module PortalForm {
  import opened Wire

  const RAW_MAX := 255
  const BODY_MAX := 511
  const SSID_ROOM := 31
  const PASS_ROOM := 63

  const PLUS: Byte := 43
  const PERCENT: Byte := 37
  const EQUALS: Byte := 61
  const AMP: Byte := 38
  const SPACE: Byte := 32

  const SSID_LIST: seq<Byte> := [115, 115, 105, 100, 95, 108, 105, 115, 116]
  const SSID_MANUAL: seq<Byte> := [115, 115, 105, 100, 95, 109, 97, 110, 117, 97, 108]
  const PASS: seq<Byte> := [112, 97, 115, 115]

  // ── Decoding ───────────────────────────────────────────────────────────────

  function HexDigit(c: Byte): (d: int)
    ensures -1 <= d < 16
  {
    if 48 <= c <= 57 then c - 48
    else if 65 <= c <= 70 then c - 55
    else if 97 <= c <= 102 then c - 87
    else -1
  }

  predicate IsSpace(c: Byte) {
    c == 32 || 9 <= c <= 13
  }

  /** (char)strtol of two characters in base 16: leading space and sign are skipped, a bad digit ends the number. */
  function StrtolTwo(a: Byte, b: Byte): (v: Byte) {
    var x, y := HexDigit(a), HexDigit(b);
    if x >= 0 then (if y >= 0 then 16 * x + y else x)
    else if y < 0 then 0
    else if IsSpace(a) || a == 43 then y
    else if a == 45 then (256 - y) % 256
    else 0
  }

  /** url_decode of a C string into `room` bytes before the terminator. */
  function UrlDecode(src: seq<Byte>, room: nat): (dst: seq<Byte>)
    ensures |dst| <= room
  {
    if src == [] || room == 0 then []
    else if src[0] == PLUS then [SPACE] + UrlDecode(src[1..], room - 1)
    else if src[0] == PERCENT && |src| >= 3 then [StrtolTwo(src[1], src[2])] + UrlDecode(src[3..], room - 1)
    else [src[0]] + UrlDecode(src[1..], room - 1)
  }

  function Prefix(s: seq<Byte>, n: nat): seq<Byte> {
    if |s| <= n then s else s[..n]
  }

  /** The index of the first occurrence of `pat`, as strstr finds it. */
  function Find(s: seq<Byte>, pat: seq<Byte>): (r: Option<nat>)
    ensures r.Some? ==> r.value + |pat| <= |s|
    decreases |s|
  {
    if |s| < |pat| then None
    else if s[..|pat|] == pat then Some(0)
    else if s == [] then None
    else
      var r := Find(s[1..], pat);
      if r.None? then None else Some(r.value + 1)
  }

  /** The bytes up to the next ampersand. */
  function UpToAmp(s: seq<Byte>): (r: seq<Byte>) {
    if s == [] || s[0] == AMP then [] else [s[0]] + UpToAmp(s[1..])
  }

  /** form_field: the decoded value, if the key is found. */
  function Field(body: seq<Byte>, key: seq<Byte>, room: nat): (r: Option<seq<Byte>>) {
    var at := Find(body, key + [EQUALS]);
    if at.None? then None
    else Some(UrlDecode(Prefix(UpToAmp(body[at.value + |key| + 1..]), RAW_MAX), room))
  }

  /** A field's value as the handler's C string; empty when the field is missing. */
  function FieldText(body: seq<Byte>, key: seq<Byte>, room: nat): (r: seq<Byte>) {
    var f := Field(body, key, room);
    if f.None? then [] else CString(f.value)
  }

  datatype Saved = EmptyBody | MissingSsid | Saved(ssid: seq<Byte>, pass: seq<Byte>)

  /** The request as it stands in the handler's 512-byte buffer, up to the first NUL. */
  function BodyText(request: seq<Byte>): seq<Byte> {
    CString(Prefix(request, BODY_MAX))
  }

  /** post_save_handler: a non-empty manual SSID wins, then the list's. */
  function Save(request: seq<Byte>): (r: Saved) {
    if request == [] then EmptyBody else Choose(BodyText(request))
  }

  function Choose(body: seq<Byte>): (r: Saved) {
    var manual := FieldText(body, SSID_MANUAL, SSID_ROOM);
    var ssid := if manual != [] then manual else FieldText(body, SSID_LIST, SSID_ROOM);
    if ssid == [] then MissingSsid else Saved(ssid, FieldText(body, PASS, PASS_ROOM))
  }

  // ── What the browser submits ───────────────────────────────────────────────

  predicate Unreserved(c: Byte) {
    48 <= c <= 57 || 65 <= c <= 90 || 97 <= c <= 122 || c == 42 || c == 45 || c == 46 || c == 95
  }

  function HexChar(d: int): (c: Byte)
    requires 0 <= d < 16
  {
    if d < 10 then 48 + d else 55 + d
  }

  function EncodeByte(c: Byte): (r: seq<Byte>)
    ensures 1 <= |r| <= 3
  {
    if Unreserved(c) then [c] else if c == SPACE then [PLUS] else [PERCENT, HexChar(c / 16), HexChar(c % 16)]
  }

  function FormEncode(v: seq<Byte>): (r: seq<Byte>)
    ensures |r| <= 3 * |v|
  {
    if v == [] then [] else EncodeByte(v[0]) + FormEncode(v[1..])
  }

  function Pair(key: seq<Byte>, v: seq<Byte>): seq<Byte> {
    key + [EQUALS] + FormEncode(v)
  }

  /** The select is there only when the scan found networks. */
  function ListPart(list: Option<seq<Byte>>): seq<Byte> {
    if list.Some? then Pair(SSID_LIST, list.value) + [AMP] else []
  }

  function FormBody(list: Option<seq<Byte>>, manual: seq<Byte>, pass: seq<Byte>): seq<Byte> {
    ListPart(list) + (Pair(SSID_MANUAL, manual) + [AMP] + Pair(PASS, pass))
  }

  lemma Regroup(a: seq<Byte>, b: seq<Byte>, x: seq<Byte>, c: seq<Byte>)
    ensures a + (b + x + c) == a + b + (x + c)
    ensures a + (b + x + c) == a + (b + x) + c + []
    ensures (a + x) + (b + x + c) == [] + a + (x + (b + x + c))
    ensures [] + (b + x + c) == b + x + c
  {}

  // ── Decoding undoes encoding ───────────────────────────────────────────────

  lemma EncodedByteDecodes(c: Byte, rest: seq<Byte>, room: nat)
    requires room > 0
    ensures UrlDecode(EncodeByte(c) + rest, room) == [c] + UrlDecode(rest, room - 1)
  {
    var s := EncodeByte(c) + rest;
    if Unreserved(c) || c == SPACE {
      assert s[1..] == rest;
    } else {
      assert s[3..] == rest;
      assert HexDigit(HexChar(c / 16)) == c / 16 && HexDigit(HexChar(c % 16)) == c % 16;
    }
  }

  /** Any value, cut to the room there is. */
  lemma {:induction false} DecodeEncoded(v: seq<Byte>, room: nat)
    ensures UrlDecode(FormEncode(v), room) == Prefix(v, room)
    decreases v
  {
    if v != [] && room > 0 {
      EncodedByteDecodes(v[0], FormEncode(v[1..]), room);
      DecodeEncoded(v[1..], room - 1);
    }
  }

  /** The encoding never contains a separator or a NUL. */
  lemma {:induction false} EncodedHasNoSeparator(v: seq<Byte>)
    ensures EQUALS !in FormEncode(v) && AMP !in FormEncode(v) && 0 !in FormEncode(v)
    decreases v
  {
    if v != [] {
      EncodedHasNoSeparator(v[1..]);
      assert EQUALS !in EncodeByte(v[0]) && AMP !in EncodeByte(v[0]);
    }
  }

  lemma {:induction false} UpToAmpIs(a: seq<Byte>, rest: seq<Byte>)
    requires AMP !in a && (rest == [] || rest[0] == AMP)
    ensures UpToAmp(a + rest) == a
  {
    if a == [] {
      assert a + rest == rest;
    } else {
      assert (a + rest)[0] == a[0] && (a + rest)[1..] == a[1..] + rest;
      UpToAmpIs(a[1..], rest);
    }
  }

  /** A hexadecimal digit in either case. */
  function HexCharAs(d: int, lower: bool): (c: Byte)
    requires 0 <= d < 16
  {
    if d < 10 then 48 + d else if lower then 87 + d else 55 + d
  }

  /**
    The decoder on anything: a plus is a space, a percent sign followed by two digits in either
    case is their byte, one with fewer than two bytes after it stands for itself, and so does
    every other byte.
   */
  lemma DecodeIs(c: Byte, h: int, l: int, up: bool, low: bool, rest: seq<Byte>, room: nat)
    requires room > 0 && 0 <= h < 16 && 0 <= l < 16
    ensures UrlDecode([43] + rest, room) == [32] + UrlDecode(rest, room - 1)
    ensures UrlDecode([37, HexCharAs(h, up), HexCharAs(l, low)] + rest, room)
            == [16 * h + l] + UrlDecode(rest, room - 1)
    ensures |rest| < 2 ==> UrlDecode([37] + rest, room) == [37] + UrlDecode(rest, room - 1)
    ensures c != 37 && c != 43 ==> UrlDecode([c] + rest, room) == [c] + UrlDecode(rest, room - 1)
    ensures UrlDecode([], room) == [] && UrlDecode([c] + rest, 0) == []
  {
    var x, y := HexCharAs(h, up), HexCharAs(l, low);
    assert ([37, x, y] + rest)[3..] == rest;
    assert ([43] + rest)[1..] == rest && ([37] + rest)[1..] == rest && ([c] + rest)[1..] == rest;
  }

  /** Two characters that strtol cannot read give 0; one digit before a bad one gives that digit. */
  lemma BadDigits(a: Byte, b: Byte, h: int)
    requires 0 <= h < 16
    ensures HexDigit(a) < 0 && HexDigit(b) < 0 ==> StrtolTwo(a, b) == 0
    ensures HexDigit(b) < 0 ==> StrtolTwo(HexCharAs(h, true), b) == h
  {}

  // ── Finding the right field ────────────────────────────────────────────────

  /** No equals sign of `s` comes right after `c` (or first). */
  predicate NeverAfter(s: seq<Byte>, c: Byte) {
    forall k :: 0 <= k < |s| && s[k] == EQUALS ==> k > 0 && s[k - 1] != c
  }

  lemma NeverAfterConcat(a: seq<Byte>, b: seq<Byte>, c: Byte)
    requires NeverAfter(a, c) && NeverAfter(b, c)
    ensures NeverAfter(a + b, c)
  {
    forall k | 0 <= k < |a + b| && (a + b)[k] == EQUALS ensures k > 0 && (a + b)[k - 1] != c {
      if k >= |a| { assert b[k - |a|] == EQUALS; }
    }
  }

  predicate MatchAt(s: seq<Byte>, pat: seq<Byte>, q: nat) {
    q + |pat| <= |s| && s[q..q + |pat|] == pat
  }

  /** Find returns the least matching index, and nothing when there is none. */
  lemma {:induction false} FindIsFirst(s: seq<Byte>, pat: seq<Byte>, at: Option<nat>)
    requires pat != []
    requires at.Some? ==> MatchAt(s, pat, at.value) && forall q: nat :: q < at.value ==> !MatchAt(s, pat, q)
    requires at.None? ==> forall q: nat :: !MatchAt(s, pat, q)
    ensures Find(s, pat) == at
    decreases |s|
  {
    if |s| >= |pat| {
      assert s[0..0 + |pat|] == s[..|pat|];
      assert at == Some(0) <==> MatchAt(s, pat, 0);
      if at != Some(0) {
        var t := s[1..];
        forall q: nat ensures MatchAt(t, pat, q) <==> MatchAt(s, pat, q + 1) {
          if q + |pat| <= |t| { assert t[q..q + |pat|] == s[q + 1..q + 1 + |pat|]; }
        }
        FindIsFirst(t, pat, if at.None? then None else Some(at.value - 1));
      }
    }
  }

  /** A match puts an equals sign right after the key's last character. */
  lemma MatchEnd(s: seq<Byte>, key: seq<Byte>, q: nat)
    requires key != [] && MatchAt(s, key + [EQUALS], q)
    ensures s[q + |key|] == EQUALS && s[q + |key| - 1] == key[|key| - 1]
  {
    var pat := key + [EQUALS];
    assert s[q..q + |pat|][|key|] == pat[|key|] && s[q..q + |pat|][|key| - 1] == pat[|key| - 1];
  }

  lemma FindNone(s: seq<Byte>, key: seq<Byte>)
    requires key != [] && NeverAfter(s, key[|key| - 1])
    ensures Find(s, key + [EQUALS]) == None
  {
    forall q: nat ensures !MatchAt(s, key + [EQUALS], q) {
      if MatchAt(s, key + [EQUALS], q) { MatchEnd(s, key, q); }
    }
    FindIsFirst(s, key + [EQUALS], None);
  }

  /** The first occurrence of `key=` is the real one if no earlier equals sign follows the key's last character. */
  lemma FindAfter(a: seq<Byte>, key: seq<Byte>, rest: seq<Byte>)
    requires key != [] && EQUALS !in key && NeverAfter(a, key[|key| - 1])
    ensures Find(a + (key + [EQUALS]) + rest, key + [EQUALS]) == Some(|a|)
  {
    var pat := key + [EQUALS];
    var s := a + pat + rest;
    assert MatchAt(s, pat, |a|);
    forall q: nat | q < |a| ensures !MatchAt(s, pat, q) {
      var e := q + |key|;
      if e < |a| {
        assert s[e] == a[e] && s[e - 1] == a[e - 1];
      } else {
        assert s[e] == key[e - |a|];
      }
      if MatchAt(s, pat, q) { MatchEnd(s, key, q); }
    }
    FindIsFirst(s, pat, Some(|a|));
  }

  lemma ValueStarts(a: seq<Byte>, key: seq<Byte>, tail: seq<Byte>)
    requires key != [] && EQUALS !in key && NeverAfter(a, key[|key| - 1])
    ensures Find(a + (key + [EQUALS]) + tail, key + [EQUALS]) == Some(|a|)
    ensures (a + (key + [EQUALS]) + tail)[|a| + |key| + 1..] == tail
  {
    FindAfter(a, key, tail);
  }

  /** Cutting at the ampersand and decoding recovers the value. */
  lemma ValueText(v: seq<Byte>, rest: seq<Byte>, room: nat)
    requires rest == [] || rest[0] == AMP
    requires 3 * |v| <= RAW_MAX && 0 !in v
    ensures CString(UrlDecode(Prefix(UpToAmp(FormEncode(v) + rest), RAW_MAX), room)) == Prefix(v, room)
  {
    EncodedHasNoSeparator(v);
    UpToAmpIs(FormEncode(v), rest);
    DecodeEncoded(v, room);
    CStringWhole(Prefix(v, room));
  }

  /** form_field on a body where the key comes after `a` and its value is followed by `rest`. */
  lemma FieldAfter(a: seq<Byte>, key: seq<Byte>, v: seq<Byte>, rest: seq<Byte>, room: nat)
    requires key != [] && EQUALS !in key && NeverAfter(a, key[|key| - 1])
    requires rest == [] || rest[0] == AMP
    requires 3 * |v| <= RAW_MAX && 0 !in v
    ensures FieldText(a + Pair(key, v) + rest, key, room) == Prefix(v, room)
  {
    ValueStarts(a, key, FormEncode(v) + rest);
    PairRegroup(a, key, v, rest);
    ValueText(v, rest, room);
  }

  lemma PairRegroup(a: seq<Byte>, key: seq<Byte>, v: seq<Byte>, rest: seq<Byte>)
    ensures a + Pair(key, v) + rest == a + (key + [EQUALS]) + (FormEncode(v) + rest)
  {}

  lemma PairNeverAfter(key: seq<Byte>, v: seq<Byte>, c: Byte)
    requires key != [] && EQUALS !in key && key[|key| - 1] != c
    ensures NeverAfter(Pair(key, v), c)
  {
    EncodedHasNoSeparator(v);
    var p := Pair(key, v);
    forall k | 0 <= k < |p| ensures p[k] == EQUALS ==> k > 0 && p[k - 1] != c {
      if k < |key| {
        assert p[k] == key[k];
      } else if k > |key| {
        assert p[k] == FormEncode(v)[k - |key| - 1];
      } else {
        assert p[k - 1] == key[|key| - 1];
      }
    }
  }

  /** A key that can be searched for: non-empty and without an equals sign. */
  predicate IsKey(key: seq<Byte>) {
    key != [] && EQUALS !in key
  }

  function LastChar(key: seq<Byte>): Byte
    requires IsKey(key)
  {
    key[|key| - 1]
  }

  /** A pair followed by an ampersand. */
  lemma PairAmpNeverAfter(key: seq<Byte>, v: seq<Byte>, c: Byte)
    requires IsKey(key) && LastChar(key) != c
    ensures NeverAfter(Pair(key, v) + [AMP], c)
  {
    PairNeverAfter(key, v, c);
    NeverAfterConcat(Pair(key, v), [AMP], c);
  }

  /** Two pairs one after the other: each value is found under its own key. */
  lemma LastOfTwo(a: seq<Byte>, k1: seq<Byte>, v1: seq<Byte>, k2: seq<Byte>, v2: seq<Byte>, rest: seq<Byte>, room: nat)
    requires IsKey(k1) && IsKey(k2) && LastChar(k1) != LastChar(k2) && NeverAfter(a, LastChar(k2))
    requires (rest == [] || rest[0] == AMP) && 3 * |v2| <= RAW_MAX && 0 !in v2
    ensures FieldText(a + (Pair(k1, v1) + [AMP]) + Pair(k2, v2) + rest, k2, room) == Prefix(v2, room)
  {
    PairAmpNeverAfter(k1, v1, LastChar(k2));
    NeverAfterConcat(a, Pair(k1, v1) + [AMP], LastChar(k2));
    FieldAfter(a + (Pair(k1, v1) + [AMP]), k2, v2, rest, room);
  }

  /** The three keys end in different letters, which is what keeps the searches apart. */
  lemma PortalKeys()
    ensures IsKey(SSID_LIST) && IsKey(SSID_MANUAL) && IsKey(PASS)
    ensures LastChar(SSID_LIST) != LastChar(SSID_MANUAL) && LastChar(SSID_MANUAL) != LastChar(PASS)
    ensures LastChar(PASS) != LastChar(SSID_LIST)
  {}

  lemma ListPartNeverAfter(list: Option<seq<Byte>>, c: Byte)
    requires IsKey(SSID_LIST) && LastChar(SSID_LIST) != c
    ensures NeverAfter(ListPart(list), c)
  {
    if list.Some? { PairAmpNeverAfter(SSID_LIST, list.value, c); }
  }

  lemma ManualField(list: Option<seq<Byte>>, manual: seq<Byte>, pass: seq<Byte>)
    requires 0 !in manual && 3 * |manual| <= RAW_MAX
    ensures FieldText(FormBody(list, manual, pass), SSID_MANUAL, SSID_ROOM) == Prefix(manual, SSID_ROOM)
  {
    PortalKeys();
    var rest := [AMP] + Pair(PASS, pass);
    ListPartNeverAfter(list, LastChar(SSID_MANUAL));
    FieldAfter(ListPart(list), SSID_MANUAL, manual, rest, SSID_ROOM);
    Regroup(ListPart(list), Pair(SSID_MANUAL, manual), [AMP], Pair(PASS, pass));
  }

  lemma PassField(list: Option<seq<Byte>>, manual: seq<Byte>, pass: seq<Byte>)
    requires 0 !in pass && 3 * |pass| <= RAW_MAX
    ensures FieldText(FormBody(list, manual, pass), PASS, PASS_ROOM) == Prefix(pass, PASS_ROOM)
  {
    PortalKeys();
    ListPartNeverAfter(list, LastChar(PASS));
    LastOfTwo(ListPart(list), SSID_MANUAL, manual, PASS, pass, [], PASS_ROOM);
    Regroup(ListPart(list), Pair(SSID_MANUAL, manual), [AMP], Pair(PASS, pass));
  }

  lemma ListField(list: Option<seq<Byte>>, manual: seq<Byte>, pass: seq<Byte>)
    requires list.Some? ==> 0 !in list.value && 3 * |list.value| <= RAW_MAX
    ensures FieldText(FormBody(list, manual, pass), SSID_LIST, SSID_ROOM) ==
            if list.Some? then Prefix(list.value, SSID_ROOM) else []
  {
    PortalKeys();
    if list.Some? {
      var rest := [AMP] + (Pair(SSID_MANUAL, manual) + [AMP] + Pair(PASS, pass));
      FieldAfter([], SSID_LIST, list.value, rest, SSID_ROOM);
      Regroup(Pair(SSID_LIST, list.value), Pair(SSID_MANUAL, manual), [AMP], Pair(PASS, pass));
    } else {
      ListAbsent(manual, pass);
      Regroup([], Pair(SSID_MANUAL, manual), [AMP], Pair(PASS, pass));
    }
  }

  lemma ListAbsent(manual: seq<Byte>, pass: seq<Byte>)
    ensures Find(Pair(SSID_MANUAL, manual) + [AMP] + Pair(PASS, pass), SSID_LIST + [EQUALS]) == None
  {
    PortalKeys();
    var c := LastChar(SSID_LIST);
    PairAmpNeverAfter(SSID_MANUAL, manual, c);
    PairNeverAfter(PASS, pass, c);
    NeverAfterConcat(Pair(SSID_MANUAL, manual) + [AMP], Pair(PASS, pass), c);
    FindNone(Pair(SSID_MANUAL, manual) + [AMP] + Pair(PASS, pass), SSID_LIST);
  }

  /**
    Form round trip: for all NUL-free values whose encoding fits the request buffer, the saved
    SSID is the manual one if there is one, else the list's, and the password is the password,
    each cut to the room of its buffer; the form is refused exactly when there is no SSID at all.
   */
  lemma FormRoundTrip(list: Option<seq<Byte>>, manual: seq<Byte>, pass: seq<Byte>)
    requires 0 !in manual && 0 !in pass && (list.Some? ==> 0 !in list.value)
    requires 3 * |manual| <= RAW_MAX && 3 * |pass| <= RAW_MAX && (list.Some? ==> 3 * |list.value| <= RAW_MAX)
    requires |FormBody(list, manual, pass)| <= BODY_MAX
    ensures var chosen := if manual != [] then manual else if list.Some? then list.value else [];
            Save(FormBody(list, manual, pass)) ==
              if chosen == [] then MissingSsid else Saved(Prefix(chosen, SSID_ROOM), Prefix(pass, PASS_ROOM))
  {
    BodyUncut(list, manual, pass);
    ManualField(list, manual, pass);
    PassField(list, manual, pass);
    ListField(list, manual, pass);
  }

  lemma BodyUncut(list: Option<seq<Byte>>, manual: seq<Byte>, pass: seq<Byte>)
    requires |FormBody(list, manual, pass)| <= BODY_MAX
    ensures var body := FormBody(list, manual, pass); body != [] && BodyText(body) == body
  {
    EncodedHasNoSeparator(manual);
    EncodedHasNoSeparator(pass);
    if list.Some? { EncodedHasNoSeparator(list.value); }
    CStringWhole(FormBody(list, manual, pass));
  }

  /** An empty request is refused; only the first 511 bytes, up to a NUL, are looked at. */
  lemma RequestIsCut(request: seq<Byte>, n: nat)
    ensures Save([]) == EmptyBody
    ensures |request| > 511 ==> Save(request) == Save(request[..511])
    ensures 0 < n < |request| && n < 511 && request[n] == 0 ==> Save(request) == Save(request[..n])
  {
    if 0 < n < |request| && n < 511 && request[n] == 0 {
      var body := Prefix(request, BODY_MAX);
      assert body == request[..n] + body[n..];
      CStringStops(request[..n], body[n..]);
    }
  }

  /** Within the portal's own limits nothing is cut, not even by the request buffer. */
  lemma PortalLimitsFit(list: Option<seq<Byte>>, manual: seq<Byte>, pass: seq<Byte>)
    requires |manual| <= SSID_ROOM && |pass| <= PASS_ROOM && (list.Some? ==> |list.value| <= SSID_ROOM)
    ensures |FormBody(list, manual, pass)| <= BODY_MAX
    ensures 3 * |manual| <= RAW_MAX && 3 * |pass| <= RAW_MAX && (list.Some? ==> 3 * |list.value| <= RAW_MAX)
    ensures Prefix(manual, SSID_ROOM) == manual && Prefix(pass, PASS_ROOM) == pass
    ensures list.Some? ==> Prefix(list.value, SSID_ROOM) == list.value
  {}

  // ── The decoder's loop ─────────────────────────────────────────────────────

  /** What the decoder does at position `i`: the byte it writes and where it goes on. */
  function DecodeAt(src: seq<Byte>, i: nat): (r: (Byte, nat))
    requires i < |src|
    ensures i < r.1 <= |src|
  {
    if src[i] == PLUS then (SPACE, i + 1)
    else if src[i] == PERCENT && i + 2 < |src| then (StrtolTwo(src[i + 1], src[i + 2]), i + 3)
    else (src[i], i + 1)
  }

  lemma DecodeOne(src: seq<Byte>, i: nat, room: nat, done: seq<Byte>)
    requires i < |src| && room > 0
    ensures var (c, next) := DecodeAt(src, i);
            done + UrlDecode(src[i..], room) == done + [c] + UrlDecode(src[next..], room - 1)
  {
    var (c, next) := DecodeAt(src, i);
    assert src[i..][next - i..] == src[next..];
  }

  /** url_decode: writes the decoded bytes and a terminator into `dst`. */
  method UrlDecodeInto(dst: array<Byte>, src: seq<Byte>) returns (n: nat)
    requires dst.Length > 0 && 0 !in src
    modifies dst
    ensures n < dst.Length && dst[..n] == UrlDecode(src, dst.Length - 1) && dst[n] == 0
  {
    var i, j := 0, 0;
    ghost var all := UrlDecode(src, dst.Length - 1);
    assert src[0..] == src;
    while i < |src| && j < dst.Length - 1
      invariant 0 <= i <= |src| && 0 <= j <= dst.Length - 1
      invariant all == dst[..j] + UrlDecode(src[i..], dst.Length - 1 - j)
      decreases |src| - i
    {
      DecodeOne(src, i, dst.Length - 1 - j, dst[..j]);
      if src[i] == PLUS {
        dst[j] := SPACE;
        i := i + 1;
      } else if src[i] == PERCENT && i + 2 < |src| {
        dst[j] := StrtolTwo(src[i + 1], src[i + 2]);
        i := i + 3;
      } else {
        dst[j] := src[i];
        i := i + 1;
      }
      assert dst[..j + 1] == dst[..j] + [dst[j]];
      j := j + 1;
    }
    dst[j] := 0;
    n := j;
  }

  lemma {:induction false} UpToAmpIn(s: seq<Byte>, c: Byte)
    requires c !in s
    ensures c !in UpToAmp(s)
  {
    if s != [] {
      UpToAmpIn(s[1..], c);
    }
  }

  /** form_field: leaves the buffer alone when the key is missing. */
  method FormFieldInto(buf: array<Byte>, body: seq<Byte>, key: seq<Byte>) returns (found: bool)
    requires buf.Length > 0 && 0 !in body
    modifies buf
    ensures found == Field(body, key, buf.Length - 1).Some?
    ensures found ==> CString(buf[..]) == FieldText(body, key, buf.Length - 1)
    ensures !found ==> buf[..] == old(buf[..])
  {
    var at := Find(body, key + [EQUALS]);
    if at.None? { return false; }
    var p := body[at.value + |key| + 1..];
    var raw := Prefix(UpToAmp(p), RAW_MAX);
    UpToAmpIn(p, 0);
    var n := UrlDecodeInto(buf, raw);
    CStringStops(buf[..n], buf[n..]);
    assert buf[..] == buf[..n] + buf[n..];
    return true;
  }

  /** post_save_handler on any request body. */
  method PostSave(request: seq<Byte>) returns (r: Saved)
    ensures r == Save(request)
  {
    if |request| == 0 { return EmptyBody; }
    var body := BodyText(request);
    var ssid := new Byte[SSID_ROOM + 1](i => 0);
    var pass := new Byte[PASS_ROOM + 1](i => 0);
    var found := FormFieldInto(ssid, body, SSID_MANUAL);
    if !found || ssid[0] == 0 {
      assert FieldText(body, SSID_MANUAL, SSID_ROOM) == [];
      found := FormFieldInto(ssid, body, SSID_LIST);
    }
    if ssid[0] == 0 {
      return MissingSsid;
    }
    found := FormFieldInto(pass, body, PASS);
    return Saved(CString(ssid[..]), CString(pass[..]));
  }
}
