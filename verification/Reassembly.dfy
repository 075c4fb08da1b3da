/**
  One-slot reassembly of RAW_FRAG datagrams (reasm_push in device_session.c).

  Slot is the value of one reasm_state_t; Push, Delivers and Delivery say what one call
  does to it.  Reassembler is the in-place version, proved to follow them.
 */
module Reassembly {
  import opened Wire

  const MAX_FRAGS := 8
  const FRAG_LEN := 1536

  /** A fragment as handed to reasm_push. */
  datatype Fragment = Fragment(tseq: U16, idx: Byte, total: Byte, chunk: seq<Byte>)

  /** `data[i]` stands for the first `lens[i]` bytes of the source's i-th buffer. */
  datatype Slot = Slot(active: bool, tseq: U16, total: Byte, received: nat,
                       have: seq<bool>, data: seq<seq<Byte>>)

  /** The slot after the memset and the assignments that follow it. */
  function Fresh(tseq: U16, total: Byte): (s: Slot)
    ensures |s.have| == |s.data| == MAX_FRAGS
    ensures forall i :: 0 <= i < MAX_FRAGS ==> !s.have[i] && s.data[i] == []
  {
    Slot(true, tseq, total, 0, seq(MAX_FRAGS, i => false), seq(MAX_FRAGS, i => []))
  }

  function Clamp(chunk: seq<Byte>): (r: seq<Byte>) {
    if |chunk| > FRAG_LEN then chunk[..FRAG_LEN] else chunk
  }

  predicate Accepted(f: Fragment) {
    f.total != 0 && f.idx < f.total && f.idx < MAX_FRAGS
  }

  /** A new transfer, or another transfer's number, resets the slot. */
  function Start(s: Slot, f: Fragment): Slot {
    if !s.active || s.tseq != f.tseq then Fresh(f.tseq, f.total) else s
  }

  /** A chunk that is already there is not stored again. */
  function Store(t: Slot, f: Fragment): Slot
    requires |t.have| == |t.data| == MAX_FRAGS && f.idx < MAX_FRAGS
  {
    if t.have[f.idx] then t
    else t.(have := t.have[f.idx := true], data := t.data[f.idx := Clamp(f.chunk)], received := t.received + 1)
  }

  /** The slot before the completion test. */
  function Collect(s: Slot, f: Fragment): (c: Slot)
    requires |s.have| == |s.data| == MAX_FRAGS && Accepted(f)
    ensures |c.have| == |c.data| == MAX_FRAGS && c.active && c.tseq == f.tseq
  {
    Store(Start(s, f), f)
  }

  predicate Delivers(s: Slot, f: Fragment)
    requires |s.have| == |s.data| == MAX_FRAGS
  {
    Accepted(f) && Collect(s, f).received >= Collect(s, f).total
  }

  function Push(s: Slot, f: Fragment): (t: Slot)
    requires |s.have| == |s.data| == MAX_FRAGS
    ensures |t.have| == |t.data| == MAX_FRAGS
  {
    if !Accepted(f) then s
    else Collect(s, f).(active := !Delivers(s, f))
  }

  /** Number of flags that are set. */
  ghost function Count(have: seq<bool>): (n: nat)
    ensures n <= |have|
  {
    if have == [] then 0 else (if have[0] then 1 else 0) + Count(have[1..])
  }

  lemma {:induction false} CountSet(have: seq<bool>, i: nat)
    requires i < |have| && !have[i]
    ensures Count(have[i := true]) == Count(have) + 1
  {
    if i == 0 {
      assert have[i := true][1..] == have[1..];
    } else {
      assert have[i := true][1..] == have[1..][i - 1 := true];
      CountSet(have[1..], i - 1);
    }
  }

  lemma {:induction false} CountNone(have: seq<bool>)
    requires forall i :: 0 <= i < |have| ==> !have[i]
    ensures Count(have) == 0
  {
    if have != [] {
      CountNone(have[1..]);
    }
  }

  /** Pigeonhole: `n` set flags fill the first `n` places exactly when none lies beyond them. */
  lemma {:induction false} CountFillsPrefix(have: seq<bool>, n: nat)
    requires n <= |have| && Count(have) == n
    ensures (forall i :: 0 <= i < n ==> have[i]) <==> (forall i :: n <= i < |have| ==> !have[i])
  {
    CountSplit(have, n);
    CountFull(have[..n]);
    if forall i :: n <= i < |have| ==> !have[i] {
      CountNone(have[n..]);
      assert forall i :: 0 <= i < n ==> have[i] == have[..n][i];
    }
    if forall i :: 0 <= i < n ==> have[i] {
      forall i | n <= i < |have| ensures !have[i] {
        if have[i] {
          CountSome(have[n..], i - n);
        }
      }
    }
  }

  lemma {:induction false} CountSplit(have: seq<bool>, n: nat)
    requires n <= |have|
    ensures Count(have) == Count(have[..n]) + Count(have[n..])
  {
    if n == 0 {
      assert have[0..] == have;
    } else {
      assert have[..n][1..] == have[1..][..n - 1] && have[1..][n - 1..] == have[n..];
      CountSplit(have[1..], n - 1);
    }
  }

  lemma {:induction false} CountFull(have: seq<bool>)
    ensures Count(have) == |have| <==> forall i :: 0 <= i < |have| ==> have[i]
  {
    if have != [] {
      CountFull(have[1..]);
      if forall i :: 0 <= i < |have| ==> have[i] {
        assert forall i :: 0 <= i < |have| - 1 ==> have[1..][i];
      }
      if Count(have) == |have| {
        forall i | 0 <= i < |have| ensures have[i] {
          if i > 0 { assert have[i] == have[1..][i - 1]; }
        }
      }
    }
  }

  lemma {:induction false} CountSome(have: seq<bool>, i: nat)
    requires i < |have| && have[i]
    ensures Count(have) > 0
  {
    if i > 0 {
      CountSome(have[1..], i - 1);
    }
  }

  // ── The slot invariant, under arbitrary pushes ─────────────────────────────

  ghost predicate SlotOk(s: Slot) {
    && |s.have| == |s.data| == MAX_FRAGS
    && s.received == Count(s.have)
    && (s.active ==> s.received < s.total)
    && (forall i :: 0 <= i < MAX_FRAGS ==> |s.data[i]| <= FRAG_LEN)
  }

  /** One push keeps the invariant; a delivery has exactly `total` flags set, and total <= 8. */
  lemma PushKeepsSlot(s: Slot, f: Fragment)
    requires SlotOk(s)
    ensures SlotOk(Push(s, f))
    ensures Delivers(s, f) ==> Collect(s, f).received == Collect(s, f).total <= MAX_FRAGS
  {
    if Accepted(f) {
      var t := Start(s, f);
      if !s.active || s.tseq != f.tseq {
        CountNone(t.have);
      }
      if !t.have[f.idx] {
        CountSet(t.have, f.idx);
      }
    }
  }

  /** What the driver is given on a delivery: the buffers 0..total-1. */
  function Delivery(s: Slot, f: Fragment): (d: seq<seq<Byte>>)
    requires |s.have| == |s.data| == MAX_FRAGS && Delivers(s, f) && Collect(s, f).total <= MAX_FRAGS
    ensures |d| == Collect(s, f).total
  {
    Collect(s, f).data[..Collect(s, f).total]
  }

  /** The chunks the driver sees if it refuses number `failAt`: those up to and including it. */
  function HandedOver(chunks: seq<seq<Byte>>, failAt: nat): seq<seq<Byte>> {
    if failAt < |chunks| then chunks[..failAt + 1] else chunks
  }

  /** A driver that refuses nothing gets every chunk; otherwise the chunks up to and including the refused one. */
  lemma HandedOverIs(chunks: seq<seq<Byte>>, failAt: nat)
    ensures failAt >= |chunks| ==> HandedOver(chunks, failAt) == chunks
    ensures failAt < |chunks| ==> |HandedOver(chunks, failAt)| == failAt + 1 && HandedOver(chunks, failAt) <= chunks
  {}

  /** A chunk is kept whole up to 1536 bytes and cut there. */
  lemma ClampIs(chunk: seq<Byte>)
    ensures |chunk| <= 1536 ==> Clamp(chunk) == chunk
    ensures |chunk| > 1536 ==> |Clamp(chunk)| == 1536 && Clamp(chunk) <= chunk
  {}

  /** What each push of a run hands to the driver, if anything. */
  ghost function Outputs(s: Slot, fs: seq<Fragment>): (o: seq<Option<seq<seq<Byte>>>>)
    requires SlotOk(s)
    ensures |o| == |fs|
    decreases fs
  {
    if fs == [] then [] else
    PushKeepsSlot(s, fs[0]);
    [if Delivers(s, fs[0]) then Some(Delivery(s, fs[0])) else None] + Outputs(Push(s, fs[0]), fs[1..])
  }

  ghost function After(s: Slot, fs: seq<Fragment>): (t: Slot)
    requires SlotOk(s)
    ensures SlotOk(t)
    decreases fs
  {
    if fs == [] then s else
    PushKeepsSlot(s, fs[0]);
    After(Push(s, fs[0]), fs[1..])
  }

  /** Every buffer handed over on the delivery was filled by a fragment of the collection. */
  ghost predicate HoleFree(s: Slot, f: Fragment)
    requires |s.have| == |s.data| == MAX_FRAGS && Delivers(s, f)
  {
    forall i :: 0 <= i < Collect(s, f).total && i < MAX_FRAGS ==> Collect(s, f).have[i]
  }

  /**
    A delivery has no hole exactly when the pushed fragment's index and all those counted
    before it lie below the collection's total, which can be tested before the push.
   */
  lemma DeliveryHoleFree(s: Slot, f: Fragment)
    requires SlotOk(s) && Delivers(s, f)
    ensures Start(s, f).total <= MAX_FRAGS
    ensures HoleFree(s, f) <==>
            f.idx < Start(s, f).total && forall i :: Start(s, f).total <= i < MAX_FRAGS ==> !Start(s, f).have[i]
  {
    var c, n := Collect(s, f), Start(s, f).total;
    PushKeepsSlot(s, f);
    CountFillsPrefix(c.have, n);
    var was := Start(s, f).have;
    assert c.have == was[f.idx := true];
    if f.idx >= n {
      assert c.have[f.idx];
    } else {
      assert forall i :: n <= i < MAX_FRAGS ==> c.have[i] == was[i];
    }
  }

  // ── Holes over runs ────────────────────────────────────────────────────────

  lemma {:induction false} AfterExtends(s: Slot, fs: seq<Fragment>, f: Fragment)
    requires SlotOk(s)
    ensures After(s, fs + [f]) == Push(After(s, fs), f)
    decreases fs
  {
    if fs == [] {
      assert fs + [f] == [f];
      PushKeepsSlot(s, f);
      assert After(s, [f]) == After(Push(s, f), [f][1..]);
    } else {
      PushKeepsSlot(s, fs[0]);
      assert (fs + [f])[1..] == fs[1..] + [f];
      AfterExtends(Push(s, fs[0]), fs[1..], f);
    }
  }

  predicate Opens(s: Slot, f: Fragment) {
    Accepted(f) && (!s.active || s.tseq != f.tseq)
  }

  /** The push that opened the collection which push `k` of the run belongs to. */
  ghost function OpenedAt(s: Slot, fs: seq<Fragment>, k: nat): (c: nat)
    requires SlotOk(s) && k < |fs|
    ensures c <= k
  {
    if k == 0 || Opens(After(s, fs[..k]), fs[k]) then k else OpenedAt(s, fs, k - 1)
  }

  /** The indices of the fragments accepted from push `c` up to, not including, push `k`. */
  ghost function Indices(fs: seq<Fragment>, c: nat, k: nat): set<int>
    requires c <= k <= |fs|
  {
    set j | c <= j < k && Accepted(fs[j]) :: fs[j].idx
  }

  /** The slot's total is the one the collection opened with, and its flags are the indices accepted since. */
  ghost predicate CollectedSince(t: Slot, fs: seq<Fragment>, c: nat, k: nat)
    requires |t.have| == MAX_FRAGS && c < k <= |fs|
  {
    && Accepted(fs[c]) && t.total == fs[c].total
    && forall i :: 0 <= i < MAX_FRAGS ==> (t.have[i] <==> i in Indices(fs, c, k))
  }

  lemma IndicesExtend(fs: seq<Fragment>, c: nat, k: nat)
    requires c <= k < |fs|
    ensures Indices(fs, c, k + 1) == Indices(fs, c, k) + (if Accepted(fs[k]) then {fs[k].idx as int} else {})
  {}

  /** One push within a collection, or opening one. */
  lemma CollectKeepsIndices(t: Slot, fs: seq<Fragment>, c: nat, k: nat)
    requires SlotOk(t) && c <= k < |fs| && Accepted(fs[k])
    requires if Opens(t, fs[k]) then c == k else c < k && CollectedSince(t, fs, c, k)
    ensures CollectedSince(Collect(t, fs[k]), fs, c, k + 1)
  {
    IndicesExtend(fs, c, k);
    assert Collect(t, fs[k]).have == Start(t, fs[k]).have[fs[k].idx := true];
    if Opens(t, fs[k]) {
      assert Indices(fs, k, k) == {};
    }
  }

  /** From an idle slot, whatever is being collected after push `k` was opened by push OpenedAt. */
  lemma {:induction false} RunCollects(s: Slot, fs: seq<Fragment>, k: nat)
    requires SlotOk(s) && !s.active && k < |fs|
    ensures var t := After(s, fs[..k]);
            Accepted(fs[k]) ==> CollectedSince(Collect(t, fs[k]), fs, OpenedAt(s, fs, k), k + 1)
    ensures After(s, fs[..k + 1]).active ==> CollectedSince(After(s, fs[..k + 1]), fs, OpenedAt(s, fs, k), k + 1)
  {
    var t, c := After(s, fs[..k]), OpenedAt(s, fs, k);
    assert fs[..k + 1] == fs[..k] + [fs[k]];
    AfterExtends(s, fs[..k], fs[k]);
    if k > 0 {
      RunCollects(s, fs, k - 1);
      assert fs[..k - 1 + 1] == fs[..k];
    }
    if Accepted(fs[k]) {
      CollectKeepsIndices(t, fs, c, k);
    } else if t.active {
      IndicesExtend(fs, c, k);
    }
  }

  /** The `k`-th push of the run delivers. */
  ghost predicate DeliversAt(s: Slot, fs: seq<Fragment>, k: nat)
    requires SlotOk(s) && k < |fs|
  {
    Delivers(After(s, fs[..k]), fs[k])
  }

  /** Every fragment accepted into the collection of push `k` has an index below the total that opened it. */
  ghost predicate IndicesBelowTotal(s: Slot, fs: seq<Fragment>, k: nat)
    requires SlotOk(s) && k < |fs|
  {
    var c := OpenedAt(s, fs, k);
    forall j :: c <= j <= k && Accepted(fs[j]) ==> fs[j].idx < fs[c].total
  }

  lemma DeliveryAtHoleFree(s: Slot, fs: seq<Fragment>, k: nat)
    requires SlotOk(s) && !s.active && k < |fs| && DeliversAt(s, fs, k)
    ensures HoleFree(After(s, fs[..k]), fs[k]) <==> IndicesBelowTotal(s, fs, k)
  {
    var t, c := After(s, fs[..k]), OpenedAt(s, fs, k);
    var d := Collect(t, fs[k]);
    RunCollects(s, fs, k);
    PushKeepsSlot(t, fs[k]);
    CountFillsPrefix(d.have, d.total);
    if IndicesBelowTotal(s, fs, k) {
      forall i | d.total <= i < MAX_FRAGS ensures !d.have[i] {}
    } else {
      var j :| c <= j <= k && Accepted(fs[j]) && fs[j].idx >= fs[c].total;
      assert fs[j].idx as int in Indices(fs, c, k + 1);
      assert d.have[fs[j].idx];
    }
  }

  /**
    From an idle slot, under any pushes at all: every delivery of the run is free of holes
    exactly when, in every collection that delivers, no accepted fragment's index reaches
    the total declared by the fragment that opened the collection.
   */
  lemma RunsHoleFree(s: Slot, fs: seq<Fragment>)
    requires SlotOk(s) && !s.active
    ensures (forall k :: 0 <= k < |fs| && DeliversAt(s, fs, k) ==> HoleFree(After(s, fs[..k]), fs[k]))
       <==> (forall k :: 0 <= k < |fs| && DeliversAt(s, fs, k) ==> IndicesBelowTotal(s, fs, k))
  {
    forall k | 0 <= k < |fs| && DeliversAt(s, fs, k)
      ensures HoleFree(After(s, fs[..k]), fs[k]) <==> IndicesBelowTotal(s, fs, k)
    {
      DeliveryAtHoleFree(s, fs, k);
    }
  }

  // ── What a run delivers, from the fragments alone ──────────────────────────

  /** Push `j` is the first of the collection that brings index `i`. */
  ghost predicate FirstWith(fs: seq<Fragment>, c: nat, k: nat, i: int, j: nat)
    requires c <= k <= |fs|
  {
    c <= j < k && Accepted(fs[j]) && fs[j].idx == i && i !in Indices(fs, c, j)
  }

  /** Each buffer holds the chunk of the first fragment with its index, or nothing. */
  ghost predicate HoldsFirst(t: Slot, fs: seq<Fragment>, c: nat, k: nat)
    requires |t.data| == MAX_FRAGS && c <= k <= |fs|
  {
    && (forall i :: 0 <= i < MAX_FRAGS && i !in Indices(fs, c, k) ==> t.data[i] == [])
    && (forall i, j: nat :: 0 <= i < MAX_FRAGS && FirstWith(fs, c, k, i, j) ==> t.data[i] == Clamp(fs[j].chunk))
  }

  lemma CollectHoldsFirst(t: Slot, fs: seq<Fragment>, c: nat, k: nat)
    requires SlotOk(t) && c <= k < |fs| && Accepted(fs[k])
    requires if Opens(t, fs[k]) then c == k else c < k && CollectedSince(t, fs, c, k) && HoldsFirst(t, fs, c, k)
    ensures HoldsFirst(Collect(t, fs[k]), fs, c, k + 1)
  {
    var f, d := fs[k], Collect(t, fs[k]);
    IndicesExtend(fs, c, k);
    if Opens(t, f) {
      assert Indices(fs, k, k) == {};
    }
    forall i, j: nat | 0 <= i < MAX_FRAGS && FirstWith(fs, c, k + 1, i, j) ensures d.data[i] == Clamp(fs[j].chunk) {
      if j < k {
        assert fs[j].idx as int in Indices(fs, c, k);
        assert FirstWith(fs, c, k, i, j);
      }
    }
  }

  lemma {:induction false} RunHoldsFirst(s: Slot, fs: seq<Fragment>, k: nat)
    requires SlotOk(s) && !s.active && k < |fs|
    ensures Accepted(fs[k]) ==> HoldsFirst(Collect(After(s, fs[..k]), fs[k]), fs, OpenedAt(s, fs, k), k + 1)
    ensures After(s, fs[..k + 1]).active ==> HoldsFirst(After(s, fs[..k + 1]), fs, OpenedAt(s, fs, k), k + 1)
  {
    var t, c := After(s, fs[..k]), OpenedAt(s, fs, k);
    assert fs[..k + 1] == fs[..k] + [fs[k]];
    AfterExtends(s, fs[..k], fs[k]);
    if k > 0 {
      RunHoldsFirst(s, fs, k - 1);
      RunCollects(s, fs, k - 1);
      assert fs[..k - 1 + 1] == fs[..k];
    }
    if Accepted(fs[k]) {
      CollectHoldsFirst(t, fs, c, k);
    } else if t.active {
      IndicesExtend(fs, c, k);
      SkippedHoldsFirst(t, fs, c, k);
    }
  }

  lemma SkippedHoldsFirst(t: Slot, fs: seq<Fragment>, c: nat, k: nat)
    requires |t.data| == MAX_FRAGS && c <= k < |fs| && !Accepted(fs[k]) && HoldsFirst(t, fs, c, k)
    ensures HoldsFirst(t, fs, c, k + 1)
  {
    IndicesExtend(fs, c, k);
    forall i, j: nat | 0 <= i < MAX_FRAGS && FirstWith(fs, c, k + 1, i, j) ensures t.data[i] == Clamp(fs[j].chunk) {
      assert FirstWith(fs, c, k, i, j);
    }
  }

  /** The flags that are set are as many as the indices they stand for. */
  lemma {:induction false} CountIsSize(have: seq<bool>, s: set<int>)
    requires forall i :: 0 <= i < |have| ==> (have[i] <==> i in s)
    requires forall i :: i in s ==> 0 <= i < |have|
    ensures Count(have) == |s|
    decreases |have|
  {
    if have == [] {
      assert forall i :: i !in s;
    } else {
      var n := |have| - 1;
      CountSplit(have, n);
      CountIsSize(have[..n], s - {n});
      assert have[n..] == [have[n]] && [have[n]][1..] == [];
      if have[n] {
        assert s == (s - {n}) + {n};
      } else {
        assert s - {n} == s;
      }
    }
  }

  /**
    From an idle slot, under any pushes at all, consistent or not: push `k` delivers exactly
    when it brings the distinct indices accepted since the collection was opened up to the
    total that opened it; and buffer `i` of the delivery is the first chunk that came with
    index `i`, or empty if none did.
   */
  lemma RunsDeliver(s: Slot, fs: seq<Fragment>, k: nat)
    requires SlotOk(s) && !s.active && k < |fs|
    ensures var c := OpenedAt(s, fs, k);
            DeliversAt(s, fs, k) <==> Accepted(fs[k]) && |Indices(fs, c, k + 1)| >= fs[c].total
    ensures DeliversAt(s, fs, k) ==>
              var t, c := After(s, fs[..k]), OpenedAt(s, fs, k);
              && Collect(t, fs[k]).total <= MAX_FRAGS && |Delivery(t, fs[k])| == fs[c].total
              && (forall i :: 0 <= i < fs[c].total && i !in Indices(fs, c, k + 1) ==> Delivery(t, fs[k])[i] == [])
              && (forall i, j: nat :: 0 <= i < fs[c].total && FirstWith(fs, c, k + 1, i, j) ==>
                    Delivery(t, fs[k])[i] == Clamp(fs[j].chunk))
  {
    var t, c := After(s, fs[..k]), OpenedAt(s, fs, k);
    RunCollects(s, fs, k);
    RunHoldsFirst(s, fs, k);
    PushKeepsSlot(t, fs[k]);
    if Accepted(fs[k]) {
      var d := Collect(t, fs[k]);
      CollectCounts(t, fs[k]);
      CountIsSize(d.have, Indices(fs, c, k + 1));
    }
  }

  lemma CollectCounts(t: Slot, f: Fragment)
    requires SlotOk(t) && Accepted(f)
    ensures Collect(t, f).received == Count(Collect(t, f).have)
  {
    PushKeepsSlot(t, f);
  }

  /** Two fragments of one transfer with different totals are enough to deliver a hole. */
  lemma InconsistentTotalsDeliverHole(idle: Slot)
    requires SlotOk(idle) && !idle.active
    ensures var f := Fragment(7, 0, 2, [65]);
            var g := Fragment(7, 5, 8, [66]);
            var s := Push(idle, f);
            !Delivers(idle, f) && Delivers(s, g) && Collect(s, g).total == 2 && Delivery(s, g) == [[65], []]
  {
    var f := Fragment(7, 0, 2, [65]);
    var g := Fragment(7, 5, 8, [66]);
    var s := Push(idle, f);
    assert Delivery(s, g) == [Collect(s, g).data[0], Collect(s, g).data[1]];
  }

  /** A transfer that starts by declaring more than 8 fragments delivers nothing, whatever follows under its number. */
  lemma {:induction false} OversizeNeverDelivers(s: Slot, fs: seq<Fragment>)
    requires SlotOk(s) && s.active && s.total > MAX_FRAGS
    requires forall i :: 0 <= i < |fs| ==> fs[i].tseq == s.tseq
    ensures forall i :: 0 <= i < |fs| ==> Outputs(s, fs)[i] == None
    ensures After(s, fs).active && After(s, fs).tseq == s.tseq && After(s, fs).total == s.total
    decreases fs
  {
    if fs != [] {
      PushKeepsSlot(s, fs[0]);
      OversizeNeverDelivers(Push(s, fs[0]), fs[1..]);
    }
  }

  /** The first accepted fragment of such a transfer, from an idle slot or another transfer. */
  lemma OversizeFirstFragment(s: Slot, f: Fragment, fs: seq<Fragment>)
    requires SlotOk(s) && (!s.active || s.tseq != f.tseq)
    requires Accepted(f) && f.total > MAX_FRAGS
    requires forall i :: 0 <= i < |fs| ==> fs[i].tseq == f.tseq
    ensures forall i :: 0 <= i < |fs| + 1 ==> Outputs(s, [f] + fs)[i] == None
  {
    PushKeepsSlot(s, f);
    OversizeNeverDelivers(Push(s, f), fs);
    assert ([f] + fs)[1..] == fs;
  }

  // ── Interleaved transfers ──────────────────────────────────────────────────

  /** `f` is one of the fragments of transfer `transfers[f.tseq]`. */
  ghost predicate FragmentOf(transfers: map<U16, seq<seq<Byte>>>, f: Fragment) {
    && f.tseq in transfers
    && f.total == |transfers[f.tseq]|
    && f.idx < f.total
    && f.chunk == transfers[f.tseq][f.idx]
  }

  ghost predicate Holds(s: Slot, transfers: map<U16, seq<seq<Byte>>>) {
    s.active ==>
      && s.tseq in transfers
      && s.total == |transfers[s.tseq]|
      && (forall i :: 0 <= i < |s.have| && s.have[i] && i < |s.data| ==>
            i < s.total && s.data[i] == Clamp(transfers[s.tseq][i]))
  }

  ghost function Clamped(chunks: seq<seq<Byte>>): (r: seq<seq<Byte>>) {
    seq(|chunks|, i requires 0 <= i < |chunks| => Clamp(chunks[i]))
  }

  lemma PushOfTransfer(s: Slot, f: Fragment, transfers: map<U16, seq<seq<Byte>>>)
    requires SlotOk(s) && Holds(s, transfers) && FragmentOf(transfers, f)
    ensures Holds(Push(s, f), transfers)
    ensures Delivers(s, f) ==>
              Collect(s, f).total <= MAX_FRAGS && Delivery(s, f) == Clamped(transfers[f.tseq])
  {
    PushKeepsSlot(s, f);
    if Accepted(f) {
      var c := Collect(s, f);
      forall i | 0 <= i < MAX_FRAGS && c.have[i]
        ensures i < c.total == |transfers[f.tseq]| && c.data[i] == Clamp(transfers[f.tseq][i])
      {
        if i != f.idx { assert c.have[i] == Start(s, f).have[i] && c.data[i] == Start(s, f).data[i]; }
      }
      if Delivers(s, f) {
        DeliveryHoleFree(s, f);
        forall i | 0 <= i < c.total ensures Delivery(s, f)[i] == Clamped(transfers[f.tseq])[i] {
          assert c.have[i];
        }
      }
    }
  }

  /**
    Whatever the interleaving, loss, repetition or order, each delivery is the whole of the
    transfer its last fragment belongs to, in index order: never a mix, never a part.
   */
  lemma {:induction false} InterleavedDeliveries(s: Slot, fs: seq<Fragment>, transfers: map<U16, seq<seq<Byte>>>)
    requires SlotOk(s) && Holds(s, transfers)
    requires forall i :: 0 <= i < |fs| ==> FragmentOf(transfers, fs[i])
    ensures forall i :: 0 <= i < |fs| ==> fs[i].tseq in transfers
    ensures forall i :: 0 <= i < |fs| ==>
              Outputs(s, fs)[i] == None || Outputs(s, fs)[i] == Some(Clamped(transfers[fs[i].tseq]))
    decreases fs
  {
    if fs != [] {
      PushKeepsSlot(s, fs[0]);
      PushOfTransfer(s, fs[0], transfers);
      InterleavedDeliveries(Push(s, fs[0]), fs[1..], transfers);
      forall i | 0 <= i < |fs|
        ensures Outputs(s, fs)[i] == None || Outputs(s, fs)[i] == Some(Clamped(transfers[fs[i].tseq]))
      {
        if i > 0 {
          assert fs[i] == fs[1..][i - 1];
          assert Outputs(s, fs)[i] == Outputs(Push(s, fs[0]), fs[1..])[i - 1];
        }
      }
    }
  }

  // ── One transfer, in any order, with repetitions ───────────────────────────

  /** The fragments of `chunks` in the order (and with the repetitions) of `order`. */
  ghost function Select(tseq: U16, chunks: seq<seq<Byte>>, order: seq<nat>): (fs: seq<Fragment>)
    requires |chunks| < 256
    requires forall i :: 0 <= i < |order| ==> order[i] < |chunks|
    ensures |fs| == |order|
  {
    seq(|order|, i requires 0 <= i < |order| => Fragment(tseq, order[i], |chunks|, chunks[order[i]]))
  }

  lemma SelectRest(tseq: U16, chunks: seq<seq<Byte>>, order: seq<nat>) returns (fs: seq<Fragment>)
    requires |chunks| < 256 && order != []
    requires forall i :: 0 <= i < |order| ==> order[i] < |chunks|
    ensures fs == Select(tseq, chunks, order[1..])
    ensures Select(tseq, chunks, order) == [Fragment(tseq, order[0], |chunks|, chunks[order[0]])] + fs
  {
    fs := Select(tseq, chunks, order[1..]);
  }

  /** The slot is collecting transfer `tseq` and holds exactly the fragments in `got`. */
  ghost predicate Collecting(s: Slot, tseq: U16, chunks: seq<seq<Byte>>, got: set<nat>) {
    && SlotOk(s) && s.active && s.tseq == tseq && s.total == |chunks|
    && (forall i :: 0 <= i < MAX_FRAGS ==> (s.have[i] <==> i in got))
    && (forall i :: 0 <= i < MAX_FRAGS && i in got ==> i < |chunks| && s.data[i] == Clamp(chunks[i]))
  }

  /** Every index below `n` is in `got` or in `order`. */
  ghost predicate Complete(n: nat, got: set<nat>, order: seq<nat>) {
    forall i :: 0 <= i < n ==> i in got || i in order
  }

  lemma CountUpTo(have: seq<bool>, n: nat)
    requires n <= |have| && forall i :: n <= i < |have| ==> !have[i]
    ensures Count(have) <= n && (Count(have) == n <==> forall i :: 0 <= i < n ==> have[i])
  {
    CountSplit(have, n);
    CountNone(have[n..]);
    CountFull(have[..n]);
    assert forall i :: 0 <= i < n ==> have[..n][i] == have[i];
  }

  /** The slot can take fragment `idx`: it collects this transfer, or is free for it. */
  ghost predicate Ready(s: Slot, tseq: U16, chunks: seq<seq<Byte>>, got: set<nat>) {
    && 0 < |chunks| <= MAX_FRAGS
    && SlotOk(s)
    && (Collecting(s, tseq, chunks, got) || (got == {} && (!s.active || s.tseq != tseq)))
  }

  lemma CollectHave(s: Slot, tseq: U16, chunks: seq<seq<Byte>>, got: set<nat>, idx: nat)
    requires Ready(s, tseq, chunks, got) && idx < |chunks|
    ensures var c := Collect(s, Fragment(tseq, idx, |chunks|, chunks[idx]));
            && c.total == |chunks| && c.received == Count(c.have)
            && (forall i :: 0 <= i < MAX_FRAGS ==> (c.have[i] <==> i in got + {idx}))
            && (forall i :: 0 <= i < MAX_FRAGS && i in got + {idx} ==> i < |chunks| && c.data[i] == Clamp(chunks[i]))
  {
    var f := Fragment(tseq, idx, |chunks|, chunks[idx]);
    PushKeepsSlot(s, f);
    assert Push(s, f).have == Collect(s, f).have;
  }

  /** One more fragment: either it completes the set and delivers, or the slot holds one more. */
  lemma CollectOne(s: Slot, tseq: U16, chunks: seq<seq<Byte>>, got: set<nat>, idx: nat)
    requires Ready(s, tseq, chunks, got) && idx < |chunks|
    ensures var f := Fragment(tseq, idx, |chunks|, chunks[idx]);
            if Complete(|chunks|, got + {idx}, [])
            then Delivers(s, f) && Collect(s, f).total <= MAX_FRAGS && Delivery(s, f) == Clamped(chunks)
            else !Delivers(s, f) && Collecting(Push(s, f), tseq, chunks, got + {idx})
  {
    var f := Fragment(tseq, idx, |chunks|, chunks[idx]);
    CollectHave(s, tseq, chunks, got, idx);
    PushKeepsSlot(s, f);
    CountUpTo(Collect(s, f).have, |chunks|);
    if Complete(|chunks|, got + {idx}, []) {
      assert Delivers(s, f);
    } else {
      var i :| 0 <= i < |chunks| && i !in got + {idx};
      assert !Collect(s, f).have[i];
    }
  }

  /** `n` pushes that deliver nothing. */
  ghost function Silent(n: nat): seq<Option<seq<seq<Byte>>>> {
    seq(n, i => None)
  }

  lemma SilentCons(n: nat, r: Option<seq<seq<Byte>>>)
    ensures [None] + (Silent(n) + [r]) == Silent(n + 1) + [r]
  {
    assert [None] + Silent(n) == Silent(n + 1);
  }

  lemma CompleteCons(n: nat, got: set<nat>, i: nat, order: seq<nat>)
    ensures Complete(n, got, [i] + order) <==> Complete(n, got + {i}, order)
  {}

  lemma OutputsCons(s: Slot, tseq: U16, chunks: seq<seq<Byte>>, got: set<nat>, idx: nat, fs: seq<Fragment>)
    requires Ready(s, tseq, chunks, got) && idx < |chunks|
    ensures var f := Fragment(tseq, idx, |chunks|, chunks[idx]);
            if Complete(|chunks|, got + {idx}, [])
            then Outputs(s, [f]) == [Some(Clamped(chunks))]
            else
              && Ready(Push(s, f), tseq, chunks, got + {idx})
              && Outputs(s, [f] + fs) == [None] + Outputs(Push(s, f), fs)
  {
    var f := Fragment(tseq, idx, |chunks|, chunks[idx]);
    CollectOne(s, tseq, chunks, got, idx);
    PushKeepsSlot(s, f);
    assert ([f] + fs)[1..] == fs;
  }

  /**
    From an idle slot or one busy with another transfer, pushing the fragments in any order
    and with any repetitions delivers nothing until the last missing index arrives, and then
    delivers the whole transfer.
   */
  lemma {:induction false} DeliversOnLastMissing(s: Slot, tseq: U16, chunks: seq<seq<Byte>>, order: seq<nat>,
                                                 got: set<nat>)
    requires Ready(s, tseq, chunks, got)
    requires order != [] && forall i :: 0 <= i < |order| ==> order[i] < |chunks|
    requires !Complete(|chunks|, got, order[..|order| - 1])
    ensures Outputs(s, Select(tseq, chunks, order)) ==
              Silent(|order| - 1) + [if Complete(|chunks|, got, order) then Some(Clamped(chunks)) else None]
    decreases order
  {
    var rest, got' := order[1..], got + {order[0]};
    var f := Fragment(tseq, order[0], |chunks|, chunks[order[0]]);
    var fs := SelectRest(tseq, chunks, order);
    assert order == [order[0]] + rest;
    OutputsCons(s, tseq, chunks, got, order[0], fs);
    CompleteCons(|chunks|, got, order[0], rest);
    if rest == [] {
      assert [f] + fs == [f];
    } else {
      assert order[..|order| - 1] == [order[0]] + rest[..|rest| - 1];
      CompleteCons(|chunks|, got, order[0], rest[..|rest| - 1]);
      DeliversOnLastMissing(Push(s, f), tseq, chunks, rest, got');
      SilentCons(|rest| - 1, if Complete(|chunks|, got, order) then Some(Clamped(chunks)) else None);
    }
  }

  // ── The in-place state ─────────────────────────────────────────────────────

  class Reassembler {
    var active: bool
    var transferSeq: U16
    var total: Byte
    var received: nat
    const have: array<bool>
    const data: array<seq<Byte>>

    ghost predicate Valid()
      reads this, have, data
    {
      have.Length == data.Length == MAX_FRAGS && SlotOk(View())
    }

    ghost function View(): (s: Slot)
      reads this, have, data
    {
      Slot(active, transferSeq, total, received, have[..], data[..])
    }

    constructor ()
      ensures Valid() && !active && fresh(have) && fresh(data)
    {
      active, transferSeq, total, received := false, 0, 0, 0;
      have := new bool[MAX_FRAGS](i => false);
      data := new seq<Byte>[MAX_FRAGS](i => []);
      new;
      CountNone(have[..]);
    }

    /** The memset and the three assignments after it. */
    method Reset(tseq: U16, total: Byte)
      requires have.Length == data.Length == MAX_FRAGS
      modifies this, have, data
      ensures View() == Fresh(tseq, total)
    {
      for i := 0 to MAX_FRAGS
        invariant forall j :: 0 <= j < i ==> !have[j] && data[j] == []
      {
        have[i] := false;
        data[i] := [];
      }
      active, transferSeq, this.total, received := true, tseq, total, 0;
    }

    method StoreChunk(idx: nat, chunk: seq<Byte>)
      requires have.Length == data.Length == MAX_FRAGS && idx < MAX_FRAGS && !have[idx]
      modifies this`received, have, data
      ensures View() == old(View()).(have := old(have[..])[idx := true], data := old(data[..])[idx := Clamp(chunk)],
                                     received := old(received) + 1)
    {
      data[idx] := Clamp(chunk);
      have[idx] := true;
      received := received + 1;
    }

    /** Everything before the completion test. */
    method CollectFragment(f: Fragment)
      requires have.Length == data.Length == MAX_FRAGS && Accepted(f)
      modifies this, have, data
      ensures View() == Collect(old(View()), f)
    {
      if !active || transferSeq != f.tseq {
        Reset(f.tseq, f.total);
      }
      if !have[f.idx] {
        StoreChunk(f.idx, f.chunk);
      }
    }

    /**
      The driver's send fails at chunk number `failAt` (never, when that is no less than
      the number of chunks); `sent` lists the chunks handed to it.
     */
    method ReasmPush(f: Fragment, failAt: nat) returns (complete: bool, sent: seq<seq<Byte>>)
      requires Valid()
      modifies this, have, data
      ensures Valid()
      ensures View() == Push(old(View()), f)
      ensures complete == Delivers(old(View()), f)
      ensures complete ==> Collect(old(View()), f).total <= MAX_FRAGS
      ensures sent == if complete then HandedOver(Delivery(old(View()), f), failAt) else []
    {
      PushKeepsSlot(View(), f);
      if f.total == 0 || f.idx >= f.total || f.idx >= MAX_FRAGS {
        return false, [];
      }
      CollectFragment(f);
      if received < total {
        return false, [];
      }
      sent := Deliver(failAt);
      active := false;
      complete := true;
    }

    /** Hands the buffers to the driver until it refuses one. */
    method Deliver(failAt: nat) returns (sent: seq<seq<Byte>>)
      requires have.Length == data.Length == MAX_FRAGS && total <= MAX_FRAGS
      ensures sent == HandedOver(data[..total], failAt)
    {
      sent := [];
      var i := 0;
      while i < total
        invariant 0 <= i <= total && i <= failAt
        invariant sent == data[..i]
      {
        sent := sent + [data[i]];
        if i == failAt { break; }
        i := i + 1;
      }
    }
  }
}
