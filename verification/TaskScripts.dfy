/**
  What the firmware's tasks do over every run, as scripts: the calls of session_ctrl_task and
  of hub_discover_task are rounds of a few fixed shapes, cut off anywhere, and the variables
  are what those calls make of them.
 */
module TaskScripts {
  import opened Wire
  import opened TaskProtocol
  import WifiManager

  // ── The control task's calls ───────────────────────────────────────────────

  datatype Call =
    | SawFound | ReadAddress(ip: nat) | Socket(ok: bool) | Bind(ok: bool) | Timeout(ok: bool) | PublishSock
    | AskReady(ok: bool) | CheckLost(isLost: bool)
    | SendEvent(connect: bool) | ClearSessionLost | SetSessionActive | SawLost
    | ClearSessionActive | SetSessionLost | TakeBack | CloseSocket

  /** What the control task does in one step; a wait that does not end does nothing. */
  function CallsOf(c: Session, h: Hub, ok: bool): seq<Call> {
    match c.pc
    case WaitFound => if h.foundBit then [SawFound] else []
    case ReadIp => [ReadAddress(h.ip)]
    case OpenSock => [Socket(ok)]
    case BindSock => if ok then [Bind(true)] else [Bind(false), CloseSocket]
    case SetTimeout => if ok then [Timeout(true)] else [Timeout(false), CloseSocket]
    case Publish => [PublishSock]
    case CheckReady | LoopTest => [AskReady(ok)]
    case LoopLost | AfterLoop => [CheckLost(h.lostBit)]
    case AbortClose | CloseSock => [CloseSocket]
    case AbortClear | TakeSock => [TakeBack]
    case SendConnect => [SendEvent(true)]
    case ClearLost | ClearLostAgain => [ClearSessionLost]
    case SetActive => [SetSessionActive]
    case WaitDaemonLost => if h.lostBit then [SawLost] else []
    case ClearActive => [ClearSessionActive]
    case SetLost => [SetSessionLost]
    case SendDisconnect => [SendEvent(false)]
  }

  function Calls(s: State, acts: seq<Action>): seq<Call>
    decreases |acts|
  {
    if acts == [] then []
    else
      var n := |acts| - 1;
      var r := Run(s, acts[..n]);
      Calls(s, acts[..n]) + MoreCalls(r, acts[n])
  }

  // ── Rounds ─────────────────────────────────────────────────────────────────

  /** The wait for the USB device: none outside USB/IP mode, an answer at once, or polls until an answer or a loss. */
  datatype Wait = NoWait | Ready | Polled(polls: nat, ready: bool)

  datatype Round =
    | NoSocket(ip: nat) | NoBind(ip: nat) | NoTimeout(ip: nat)
    | Aborted(ip: nat, wait: Wait)
    | Served(ip: nat, wait: Wait)

  predicate Legal(usbipMode: bool, r: Round) {
    (r.Served? ==> r.wait.NoWait? == !usbipMode) && (r.Aborted? ==> usbipMode && r.wait.Polled?)
  }

  function Polls(n: nat): seq<Call> {
    if n == 0 then [] else Polls(n - 1) + [AskReady(false), CheckLost(false)]
  }

  function Waiting(w: Wait): seq<Call> {
    match w
    case NoWait => []
    case Ready => [AskReady(true)]
    case Polled(n, ready) =>
      [AskReady(false)] + Polls(n) + (if ready then [AskReady(true)] else [AskReady(false), CheckLost(true)])
  }

  function Up(ip: nat): seq<Call> {
    [SawFound, ReadAddress(ip), Socket(true), Bind(true), Timeout(true), PublishSock]
  }

  function Service(): seq<Call> {
    [SendEvent(true), ClearSessionLost, SetSessionActive, SawLost, ClearSessionActive, SetSessionLost, TakeBack,
     CloseSocket, SendEvent(false), ClearSessionLost]
  }

  /** After polling, the daemon must not be lost. */
  function Cleared(w: Wait): seq<Call> {
    Waiting(w) + (if w.Polled? then [CheckLost(false)] else [])
  }

  /** One turn of the control task's loop, from DAEMON_FOUND to the next wait for it. */
  function Script(r: Round): seq<Call> {
    match r
    case NoSocket(ip) => [SawFound, ReadAddress(ip), Socket(false)]
    case NoBind(ip) => [SawFound, ReadAddress(ip), Socket(true), Bind(false), CloseSocket]
    case NoTimeout(ip) => [SawFound, ReadAddress(ip), Socket(true), Bind(true), Timeout(false), CloseSocket]
    case Aborted(ip, w) => Up(ip) + Waiting(w) + [CheckLost(true), CloseSocket, TakeBack]
    case Served(ip, w) => Up(ip) + Cleared(w) + Service()
  }

  function Played(rounds: seq<Round>): seq<Call>
    decreases |rounds|
  {
    if rounds == [] then [] else Played(rounds[..|rounds| - 1]) + Script(rounds[|rounds| - 1])
  }

  // ── Where the control task stands in its round ─────────────────────────────

  ghost predicate InUsbWait(pc: Ctrl) {
    pc.LoopTest? || pc.LoopLost? || pc.AfterLoop? || pc.AbortClose? || pc.AbortClear?
  }

  ghost predicate PastWait(pc: Ctrl) {
    || pc.SendConnect? || pc.ClearLost? || pc.SetActive? || pc.WaitDaemonLost? || pc.ClearActive? || pc.SetLost?
    || pc.TakeSock? || pc.CloseSock? || pc.SendDisconnect? || pc.ClearLostAgain?
  }

  ghost predicate WaitOk(usbipMode: bool, pc: Ctrl, w: Wait) {
    && (InUsbWait(pc) ==> usbipMode && w.Polled?)
    && (pc.CheckReady? ==> usbipMode)
    && (pc.AbortClose? || pc.AbortClear? ==> w.Polled?)
    && (PastWait(pc) ==> w.NoWait? == !usbipMode)
  }

  ghost function Served9(pc: Ctrl): nat {
    if pc.SendConnect? then 0 else if pc.ClearLost? then 1 else if pc.SetActive? then 2
    else if pc.WaitDaemonLost? then 3 else if pc.ClearActive? then 4 else if pc.SetLost? then 5
    else if pc.TakeSock? then 6 else if pc.CloseSock? then 7 else if pc.SendDisconnect? then 8 else 9
  }

  ghost function Sofar(pc: Ctrl, ip: nat, w: Wait): seq<Call> {
    if PastWait(pc) then Up(ip) + Cleared(w) + Service()[..Served9(pc)]
    else match pc
      case WaitFound => []
      case ReadIp => [SawFound]
      case OpenSock => [SawFound, ReadAddress(ip)]
      case BindSock => [SawFound, ReadAddress(ip), Socket(true)]
      case SetTimeout => [SawFound, ReadAddress(ip), Socket(true), Bind(true)]
      case Publish => [SawFound, ReadAddress(ip), Socket(true), Bind(true), Timeout(true)]
      case LoopTest => Up(ip) + [AskReady(false)] + Polls(if w.Polled? then w.polls else 0)
      case LoopLost => Up(ip) + [AskReady(false)] + Polls(if w.Polled? then w.polls else 0) + [AskReady(false)]
      case AfterLoop => Up(ip) + Waiting(w)
      case AbortClose => Up(ip) + Waiting(w) + [CheckLost(true)]
      case AbortClear => Up(ip) + Waiting(w) + [CheckLost(true), CloseSocket]
      case _ => Up(ip)
  }

  /** What remains of the wait once this step is taken. */
  ghost function NextWait(c: Session, h: Hub, ok: bool, w: Wait): Wait {
    if c.pc.Publish? && !c.usbipMode then NoWait
    else if c.pc.CheckReady? then (if ok then Ready else Polled(0, true))
    else if c.pc.LoopTest? && ok && w.Polled? then Polled(w.polls, true)
    else if c.pc.LoopLost? && w.Polled? then (if h.lostBit then Polled(w.polls, false) else Polled(w.polls + 1, true))
    else w
  }

  ghost function NextAddress(c: Session, h: Hub, ip: nat): nat {
    if c.pc.ReadIp? then h.ip else ip
  }

  /** The round that the step ends, if it ends one. */
  ghost function Ends(c: Session, ok: bool, ip: nat, w: Wait): Option<Round> {
    if c.pc.OpenSock? && !ok then Some(NoSocket(ip))
    else if c.pc.BindSock? && !ok then Some(NoBind(ip))
    else if c.pc.SetTimeout? && !ok then Some(NoTimeout(ip))
    else if c.pc.AbortClear? then Some(Aborted(ip, w))
    else if c.pc.ClearLostAgain? then Some(Served(ip, w))
    else None
  }

  /** The step goes on with the round or ends it. */
  ghost predicate InScript(c: Session, h: Hub, ok: bool, ip: nat, w: Wait) {
    var pc := NextPc(c.pc, c.usbipMode, h, ok);
    var calls, ends := Sofar(c.pc, ip, w) + CallsOf(c, h, ok), Ends(c, ok, ip, w);
    if ends.None? then calls == Sofar(pc, NextAddress(c, h, ip), NextWait(c, h, ok, w))
    else pc == WaitFound && calls == Script(ends.value)
  }

  lemma StepInScript(c: Session, h: Hub, ok: bool, ip: nat, w: Wait)
    requires WaitOk(c.usbipMode, c.pc, w)
    ensures InScript(c, h, ok, ip, w)
  {
    if PastWait(c.pc) {
      ServiceStep(c, h, ok, ip, w);
    } else if InUsbWait(c.pc) || c.pc.CheckReady? {
      UsbWaitStep(c, h, ok, ip, w);
    } else {
      OpeningStep(c, h, ok, ip, w);
    }
  }

  lemma WaitStaysOk(c: Session, h: Hub, ok: bool, ip: nat, w: Wait)
    requires WaitOk(c.usbipMode, c.pc, w)
    ensures WaitOk(c.usbipMode, NextPc(c.pc, c.usbipMode, h, ok), NextWait(c, h, ok, w))
    ensures Ends(c, ok, ip, w).Some? ==> Legal(c.usbipMode, Ends(c, ok, ip, w).value)
  {}

  lemma OpeningStep(c: Session, h: Hub, ok: bool, ip: nat, w: Wait)
    requires WaitOk(c.usbipMode, c.pc, w) && !PastWait(c.pc) && !InUsbWait(c.pc) && !c.pc.CheckReady?
    ensures InScript(c, h, ok, ip, w)
  {
    if c.pc.Publish? && !c.usbipMode {
      assert Service()[..0] == [] && Cleared(NoWait) == [];
      assert Up(ip) + [] + [] == Up(ip);
    }
  }

  /** The call at each point of the service, and where it leads. */
  lemma ServiceCall(c: Session, h: Hub, ok: bool)
    requires PastWait(c.pc)
    ensures var k, pc, calls := Served9(c.pc), NextPc(c.pc, c.usbipMode, h, ok), CallsOf(c, h, ok);
            && k <= 9
            && (calls == [] ==> pc == c.pc)
            && (calls != [] ==> calls == [Service()[k]])
            && (calls != [] && k < 9 ==> PastWait(pc) && Served9(pc) == k + 1)
            && (k == 9 <==> c.pc == ClearLostAgain) && (k == 9 ==> calls != [] && pc == WaitFound)
  {}

  lemma ServiceNext(pre: seq<Call>, k: nat)
    requires k <= 9
    ensures pre + Service()[..k] + [Service()[k]] == pre + Service()[..k + 1]
    ensures Service()[..10] == Service() && pre + Service()[..k] + [] == pre + Service()[..k]
  {}

  lemma ServiceStep(c: Session, h: Hub, ok: bool, ip: nat, w: Wait)
    requires WaitOk(c.usbipMode, c.pc, w) && PastWait(c.pc)
    ensures InScript(c, h, ok, ip, w)
  {
    ServiceCall(c, h, ok);
    ServiceNext(Up(ip) + Cleared(w), Served9(c.pc));
  }

  lemma UsbWaitStep(c: Session, h: Hub, ok: bool, ip: nat, w: Wait)
    requires WaitOk(c.usbipMode, c.pc, w) && (InUsbWait(c.pc) || c.pc.CheckReady?)
    ensures InScript(c, h, ok, ip, w)
  {
    if c.pc.CheckReady? || c.pc.AfterLoop? {
      WaitEnds(Up(ip), Waiting(w));
    } else if c.pc.LoopTest? || c.pc.LoopLost? {
      PollingStep(c, h, ok, ip, w);
    } else {
      AbortStep(Up(ip) + Waiting(w));
    }
  }

  lemma PollingStep(c: Session, h: Hub, ok: bool, ip: nat, w: Wait)
    requires WaitOk(c.usbipMode, c.pc, w) && (c.pc.LoopTest? || c.pc.LoopLost?)
    ensures InScript(c, h, ok, ip, w)
  {
    PollStep(Up(ip), Polls(w.polls));
  }

  lemma WaitEnds(up: seq<Call>, wait: seq<Call>)
    ensures Service()[..0] == [] && Cleared(Ready) == [AskReady(true)]
    ensures up + [AskReady(true)] + [] == up + [AskReady(true)] && up + [AskReady(false)] + [] == up + [AskReady(false)]
    ensures up + wait + [CheckLost(false)] == up + (wait + [CheckLost(false)]) + []
  {}

  lemma PollStep(up: seq<Call>, p: seq<Call>)
    ensures var a := [AskReady(false)];
            && up + a + p + [AskReady(true)] == up + (a + p + [AskReady(true)])
            && up + a + p + a + [CheckLost(true)] == up + (a + p + [AskReady(false), CheckLost(true)])
            && up + a + p + a + [CheckLost(false)] == up + a + (p + [AskReady(false), CheckLost(false)])
  {}

  lemma AbortStep(s: seq<Call>)
    ensures s + [CheckLost(true)] + [CloseSocket] == s + [CheckLost(true), CloseSocket]
    ensures s + [CheckLost(true), CloseSocket] + [TakeBack] == s + [CheckLost(true), CloseSocket, TakeBack]
  {}

  /** Whatever point the round has reached, it can still become a legal one. */
  lemma SofarInScript(usbipMode: bool, pc: Ctrl, ip: nat, w: Wait) returns (r: Round)
    requires WaitOk(usbipMode, pc, w)
    ensures Legal(usbipMode, r) && Sofar(pc, ip, w) <= Script(r)
  {
    if PastWait(pc) {
      r := Served(ip, w);
      ServiceCut(Up(ip) + Cleared(w), Served9(pc));
    } else if pc.LoopTest? || pc.LoopLost? {
      r := Aborted(ip, Polled(w.polls, false));
      PollsCut(Up(ip), Polls(w.polls));
    } else if InUsbWait(pc) {
      r := Aborted(ip, w);
    } else {
      r := Served(ip, if usbipMode then Ready else NoWait);
      assert Script(r) == Up(ip) + (Cleared(r.wait) + Service());
    }
  }

  lemma ServiceCut(pre: seq<Call>, k: nat)
    requires k <= 10
    ensures pre + Service()[..k] <= pre + Service()
  {}

  lemma PollsCut(up: seq<Call>, p: seq<Call>)
    ensures var a, tail := [AskReady(false)], [CheckLost(true), CloseSocket, TakeBack];
            && up + a + p <= up + (a + p + [AskReady(false), CheckLost(true)]) + tail
            && up + a + p + a <= up + (a + p + [AskReady(false), CheckLost(true)]) + tail
  {
    var a, tail := [AskReady(false)], [CheckLost(true), CloseSocket, TakeBack];
    assert up + (a + p + [AskReady(false), CheckLost(true)]) + tail
        == up + a + p + ([AskReady(false), CheckLost(true)] + tail);
    assert up + (a + p + [AskReady(false), CheckLost(true)]) + tail == up + a + p + a + ([CheckLost(true)] + tail);
  }

  /**
    Over every run, in either mode: what session_ctrl_task has done is a sequence of whole
    rounds, each of one of the five shapes, and the beginning of one more.  In particular it
    opens a socket only after DAEMON_FOUND, announces a device in USB/IP mode only after
    "ready" or after finding DAEMON_LOST clear, and undoes what it did on every way out.
   */
  lemma {:induction false} ControlFollowsScript(usbipMode: bool, acts: seq<Action>)
    returns (rounds: seq<Round>, part: seq<Call>, r: Round)
    ensures forall i :: 0 <= i < |rounds| ==> Legal(usbipMode, rounds[i])
    ensures Legal(usbipMode, r) && part <= Script(r)
    ensures Calls(Init(usbipMode), acts) == Played(rounds) + part
  {
    var ip, w;
    rounds, ip, w := RoundsPlayed(usbipMode, acts);
    var pc := Run(Init(usbipMode), acts).session.pc;
    part := Sofar(pc, ip, w);
    r := SofarInScript(usbipMode, pc, ip, w);
  }

  lemma {:induction false} RoundsPlayed(usbipMode: bool, acts: seq<Action>)
    returns (rounds: seq<Round>, ip: nat, w: Wait)
    ensures forall i :: 0 <= i < |rounds| ==> Legal(usbipMode, rounds[i])
    ensures var c := Run(Init(usbipMode), acts).session;
            && c.usbipMode == usbipMode && WaitOk(usbipMode, c.pc, w)
            && Calls(Init(usbipMode), acts) == Played(rounds) + Sofar(c.pc, ip, w)
    decreases |acts|
  {
    rounds, ip, w := [], 0, NoWait;
    if acts != [] {
      var n := |acts| - 1;
      var s := Run(Init(usbipMode), acts[..n]);
      rounds, ip, w := RoundsPlayed(usbipMode, acts[..n]);
      rounds, ip, w := OneStepOfCalls(s, acts[n], Run(Init(usbipMode), acts), Calls(Init(usbipMode), acts[..n]),
                                      rounds, ip, w);
    }
  }

  /** What the action adds to the control task's calls. */
  function MoreCalls(s: State, a: Action): seq<Call> {
    if a.CtrlAct? then CallsOf(s.session, s.hub, a.ok) else []
  }

  lemma OneStepOfCalls(s: State, a: Action, t: State, calls: seq<Call>, rounds: seq<Round>, ip: nat, w: Wait)
    returns (rounds': seq<Round>, ip': nat, w': Wait)
    requires t == Step(s, a) && WaitOk(s.session.usbipMode, s.session.pc, w)
    requires calls == Played(rounds) + Sofar(s.session.pc, ip, w)
    requires forall i :: 0 <= i < |rounds| ==> Legal(s.session.usbipMode, rounds[i])
    ensures forall i :: 0 <= i < |rounds'| ==> Legal(s.session.usbipMode, rounds'[i])
    ensures t.session.usbipMode == s.session.usbipMode && WaitOk(s.session.usbipMode, t.session.pc, w')
    ensures calls + MoreCalls(s, a) == Played(rounds') + Sofar(t.session.pc, ip', w')
  {
    if a.CtrlAct? {
      var c, h, ok := s.session, s.hub, a.ok;
      StepInScript(c, h, ok, ip, w);
      WaitStaysOk(c, h, ok, ip, w);
      ip', w' := NextAddress(c, h, ip), NextWait(c, h, ok, w);
      rounds' := RoundExtends(rounds, calls, Sofar(c.pc, ip, w), MoreCalls(s, a), Ends(c, ok, ip, w),
                              Sofar(t.session.pc, ip', w'), c.usbipMode);
    } else {
      rounds', ip', w' := rounds, ip, w;
      assert calls + [] == calls;
    }
  }

  /** One more step: the round goes on or is finished. */
  lemma RoundExtends(rounds: seq<Round>, calls: seq<Call>, now: seq<Call>, more: seq<Call>, done: Option<Round>,
                     next: seq<Call>, usbipMode: bool) returns (rounds': seq<Round>)
    requires calls == Played(rounds) + now && forall i :: 0 <= i < |rounds| ==> Legal(usbipMode, rounds[i])
    requires done.None? ==> now + more == next
    requires done.Some? ==> now + more == Script(done.value) && next == [] && Legal(usbipMode, done.value)
    ensures calls + more == Played(rounds') + next && forall i :: 0 <= i < |rounds'| ==> Legal(usbipMode, rounds'[i])
  {
    RegroupCalls(Played(rounds), now, more);
    if done.Some? {
      rounds' := rounds + [done.value];
      PlayedOneMore(rounds, done.value);
    } else {
      rounds' := rounds;
    }
  }

  lemma RegroupCalls(a: seq<Call>, b: seq<Call>, c: seq<Call>)
    ensures a + b + c == a + (b + c)
  {}

  lemma PlayedOneMore(rounds: seq<Round>, r: Round)
    ensures Played(rounds + [r]) + [] == Played(rounds) + Script(r)
  {
    assert (rounds + [r])[..|rounds|] == rounds;
    assert Played(rounds + [r]) + [] == Played(rounds + [r]);
  }

  // ── What the calls make of the variables ───────────────────────────────────

  datatype Vars = Vars(daemonIp: nat, published: bool, open: bool, bound: bool, active: bool, lost: bool)

  function Effect(v: Vars, c: Call): Vars {
    match c
    case ReadAddress(ip) => v.(daemonIp := ip)
    case Socket(ok) => if ok then v.(open := true, bound := false) else v
    case Bind(ok) => v.(bound := ok)
    case PublishSock => v.(published := true)
    case TakeBack => v.(published := false)
    case CloseSocket => v.(open := false, bound := false)
    case SetSessionActive => v.(active := true)
    case ClearSessionActive => v.(active := false)
    case SetSessionLost => v.(lost := true)
    case ClearSessionLost => v.(lost := false)
    case _ => v
  }

  function Effects(v: Vars, calls: seq<Call>): Vars
    decreases |calls|
  {
    if calls == [] then v else Effect(Effects(v, calls[..|calls| - 1]), calls[|calls| - 1])
  }

  function VarsOf(c: Session): Vars {
    Vars(c.daemonIp, c.sock.Some?, c.openSock.Some?, c.bound, c.active, c.lost)
  }

  const NO_VARS := Vars(0, false, false, false, false, false)

  lemma EffectsAppend(v: Vars, calls: seq<Call>, more: seq<Call>)
    requires |more| <= 2
    ensures Effects(v, calls + more) == Effects(Effects(v, calls), more)
  {
    if more == [] {
      assert calls + more == calls;
    } else if |more| == 1 {
      assert (calls + more)[..|calls|] == calls && more[..0] == [];
    } else {
      assert (calls + more)[..|calls| + 1] == calls + more[..1] && (calls + more[..1])[..|calls|] == calls;
      assert more[..1][..0] == [];
    }
  }

  lemma FewEffects(v: Vars, a: Call, b: Call)
    ensures Effects(v, [a]) == Effect(v, a) && Effects(v, [a, b]) == Effect(Effect(v, a), b)
  {
    assert [a][..0] == [] && [a, b][..1] == [a];
  }

  lemma StepEffects(c: Session, h: Hub, ok: bool)
    requires SessionInv(c)
    ensures |CallsOf(c, h, ok)| <= 2 && VarsOf(CtrlStep(c, h, ok)) == Effects(VarsOf(c), CallsOf(c, h, ok))
  {
    if PastWait(c.pc) {
      ServiceEffects(c, h, ok);
    } else {
      EarlyEffects(c, h, ok);
    }
    CallsEffects(VarsOf(c), CallsOf(c, h, ok));
  }

  lemma CallsEffects(v: Vars, calls: seq<Call>)
    requires |calls| <= 2
    ensures Effects(v, calls) == if calls == [] then v else if |calls| == 1 then Effect(v, calls[0])
                                 else Effect(Effect(v, calls[0]), calls[1])
  {
    if calls != [] {
      FewEffects(v, calls[0], calls[|calls| - 1]);
      assert calls == if |calls| == 1 then [calls[0]] else [calls[0], calls[1]];
    }
  }

  ghost predicate CallDoes(c: Session, h: Hub, ok: bool) {
    var calls := CallsOf(c, h, ok);
    |calls| <= 1 && VarsOf(CtrlStep(c, h, ok)) == if calls == [] then VarsOf(c) else Effect(VarsOf(c), calls[0])
  }

  lemma ServiceEffects(c: Session, h: Hub, ok: bool)
    requires SessionInv(c) && PastWait(c.pc)
    ensures CallDoes(c, h, ok)
  {
    if Served9(c.pc) < 4 { RisingEffects(c, h, ok); } else { FallingEffects(c, h, ok); }
  }

  lemma RisingEffects(c: Session, h: Hub, ok: bool)
    requires SessionInv(c) && PastWait(c.pc) && Served9(c.pc) < 4
    ensures CallDoes(c, h, ok)
  {}

  lemma FallingEffects(c: Session, h: Hub, ok: bool)
    requires SessionInv(c) && PastWait(c.pc) && Served9(c.pc) >= 4
    ensures CallDoes(c, h, ok)
  {}

  lemma EarlyEffects(c: Session, h: Hub, ok: bool)
    requires SessionInv(c) && !PastWait(c.pc)
    ensures var calls, v := CallsOf(c, h, ok), VarsOf(c);
            && |calls| <= 2
            && VarsOf(CtrlStep(c, h, ok)) == if calls == [] then v else if |calls| == 1 then Effect(v, calls[0])
                                             else Effect(Effect(v, calls[0]), calls[1])
  {}

  lemma OneStepOfVars(s: State, a: Action, t: State)
    requires SessionInv(s.session) && t == Step(s, a)
    ensures var calls := MoreCalls(s, a);
            |calls| <= 2 && VarsOf(t.session) == Effects(VarsOf(s.session), calls)
  {
    if a.CtrlAct? { StepEffects(s.session, s.hub, a.ok); }
  }

  lemma SessionHolds(usbipMode: bool, acts: seq<Action>, s: State)
    requires s == Run(Init(usbipMode), acts)
    ensures SessionInv(s.session)
  {
    RunKeeps(Init(usbipMode), acts);
  }

  /** Over every run the session's variables are exactly what the calls made of them. */
  lemma {:induction false} VariablesFollowCalls(usbipMode: bool, acts: seq<Action>)
    ensures VarsOf(Run(Init(usbipMode), acts).session) == Effects(NO_VARS, Calls(Init(usbipMode), acts))
    decreases |acts|
  {
    if acts != [] {
      var n := |acts| - 1;
      var s, calls := Run(Init(usbipMode), acts[..n]), Calls(Init(usbipMode), acts[..n]);
      VariablesFollowCalls(usbipMode, acts[..n]);
      SessionHolds(usbipMode, acts[..n], s);
      OneStepOfVars(s, acts[n], Run(Init(usbipMode), acts));
      EffectsAppend(NO_VARS, calls, MoreCalls(s, acts[n]));
    }
  }

  // ── The log ────────────────────────────────────────────────────────────────

  function AsCall(o: Obs): Call {
    match o
    case Opened(_) => Socket(true)
    case Closed(_) => CloseSocket
    case DeviceEvent(connect) => SendEvent(connect)
    case SawDaemonLost => SawLost
  }

  predicate Visible(c: Call) {
    c == Socket(true) || c.CloseSocket? || c.SendEvent? || c.SawLost?
  }

  function Seen(calls: seq<Call>): seq<Call>
    decreases |calls|
  {
    if calls == [] then []
    else
      var last := calls[|calls| - 1];
      Seen(calls[..|calls| - 1]) + (if Visible(last) then [last] else [])
  }

  function LogCalls(log: seq<Obs>): seq<Call> {
    seq(|log|, i requires 0 <= i < |log| => AsCall(log[i]))
  }

  lemma SeenAppend(calls: seq<Call>, more: seq<Call>)
    requires |more| <= 2
    ensures Seen(calls + more) == Seen(calls) + Seen(more)
  {
    if more == [] {
      assert calls + more == calls;
    } else if |more| == 1 {
      assert (calls + more)[..|calls|] == calls && more[..0] == [];
    } else {
      assert (calls + more)[..|calls| + 1] == calls + more[..1] && (calls + more[..1])[..|calls|] == calls;
      assert more[..1][..0] == [];
    }
  }

  lemma StepSeen(c: Session, h: Hub, ok: bool)
    ensures |CallsOf(c, h, ok)| <= 2 && LogCalls(Emits(c, h, ok)) == Seen(CallsOf(c, h, ok))
  {
    var calls := CallsOf(c, h, ok);
    if |calls| == 1 {
      assert calls[..0] == [];
    } else if |calls| == 2 {
      assert calls[..1][..0] == [] && Seen(calls[..1]) == [];
    }
  }

  /** Over every run the log holds exactly the opens, closes, events and observed losses among the calls. */
  lemma {:induction false} LogIsSeen(usbipMode: bool, acts: seq<Action>)
    ensures LogCalls(Run(Init(usbipMode), acts).session.log) == Seen(Calls(Init(usbipMode), acts))
    decreases |acts|
  {
    if acts != [] {
      var n := |acts| - 1;
      var s := Run(Init(usbipMode), acts[..n]);
      LogIsSeen(usbipMode, acts[..n]);
      OneStepOfLog(s, acts[n], Run(Init(usbipMode), acts));
      SeenAppend(Calls(Init(usbipMode), acts[..n]), MoreCalls(s, acts[n]));
    }
  }

  lemma OneStepOfLog(s: State, a: Action, t: State)
    requires t == Step(s, a)
    ensures |MoreCalls(s, a)| <= 2 && LogCalls(t.session.log) == LogCalls(s.session.log) + Seen(MoreCalls(s, a))
  {
    if a.CtrlAct? {
      var e := Emits(s.session, s.hub, a.ok);
      StepSeen(s.session, s.hub, a.ok);
      assert LogCalls(s.session.log + e) == LogCalls(s.session.log) + LogCalls(e);
    } else {
      assert LogCalls(s.session.log) + [] == LogCalls(s.session.log);
    }
  }

  // ── What the calls see ─────────────────────────────────────────────────────

  /** What the control task sees at a step is so at that step. */
  lemma SeenIsSo(s: State, a: Action, c: Call)
    requires c in MoreCalls(s, a)
    ensures a.CtrlAct?
    ensures c == SawFound ==> s.hub.foundBit
    ensures c == SawLost ==> s.hub.lostBit
    ensures c.CheckLost? ==> c.isLost == s.hub.lostBit
    ensures c.ReadAddress? ==> c.ip == s.hub.ip
    ensures c.AskReady? || c.Socket? || c.Bind? || c.Timeout? ==> c.ok == a.ok
  {}

  /** Standing before the address or the socket, the task left its wait at a step that found DAEMON_FOUND set. */
  lemma {:induction false} LeftWaitWhenFound(usbipMode: bool, acts: seq<Action>, s: State) returns (m: nat)
    requires s == Run(Init(usbipMode), acts) && (s.session.pc == ReadIp || s.session.pc == OpenSock)
    ensures m < |acts| && acts[m].CtrlAct?
    ensures var r := Run(Init(usbipMode), acts[..m]); r.hub.foundBit && r.session.log == s.session.log
    decreases |acts|
  {
    m := |acts| - 1;
    var before := acts[..m];
    var r := Run(Init(usbipMode), before);
    BeforeOpening(r, acts[m], s);
    if r.session.pc == ReadIp || r.session.pc == OpenSock {
      m := LeftWaitWhenFound(usbipMode, before, r);
      assert before[..m] == acts[..m];
    }
  }

  lemma BeforeOpening(r: State, a: Action, s: State)
    requires s == Step(r, a) && (s.session.pc == ReadIp || s.session.pc == OpenSock)
    ensures s.session.log == r.session.log
    ensures r.session.pc == ReadIp || r.session.pc == OpenSock || (a.CtrlAct? && r.hub.foundBit)
  {}

  /** Over every run: a socket is opened only if DAEMON_FOUND was seen set, with nothing done in between. */
  lemma OpensAfterFound(usbipMode: bool, acts: seq<Action>, a: Action, k: nat) returns (m: nat)
    requires var log := Run(Init(usbipMode), acts).session.log;
             Step(Run(Init(usbipMode), acts), a).session.log == log + [Opened(k)]
    ensures m < |acts| && acts[m].CtrlAct?
    ensures var r := Run(Init(usbipMode), acts[..m]);
            r.hub.foundBit && r.session.log == Run(Init(usbipMode), acts).session.log
  {
    var s := Run(Init(usbipMode), acts);
    OnlyOpenSockOpens(s, a, k);
    m := LeftWaitWhenFound(usbipMode, acts, s);
  }

  lemma OnlyOpenSockOpens(s: State, a: Action, k: nat)
    requires Step(s, a).session.log == s.session.log + [Opened(k)]
    ensures a.CtrlAct? && s.session.pc == OpenSock
  {
    assert (s.session.log + [Opened(k)])[|s.session.log|] == Opened(k);
    if a.CtrlAct? {
      var e := Emits(s.session, s.hub, a.ok);
      assert (s.session.log + e)[|s.session.log|..] == e;
    }
  }

  // ── The discovery task ─────────────────────────────────────────────────────

  datatype Deed =
    | SawReady | Search(reply: Option<nat>) | SetFound(found: bool) | SetAddress(ip: nat) | SetDaemonPort
    | ClearLostBit | SetFoundBit | SawWifiLost | ClearFoundBit | SetLostBit

  /** What the discovery task does in one step; a search without a usable reply is a miss. */
  function DeedsOf(h: Hub, wifiReady: bool, wifiLost: bool, reply: Option<nat>): seq<Deed> {
    match h.pc
    case WaitReady => if wifiReady then [SawReady] else []
    case Searching => [Search(if reply.Some? && reply.value != 0 then reply else None)]
    case FoundFlag(_) => [SetFound(true)]
    case FoundIp(a) => [SetAddress(a)]
    case FoundPort | LostPort => [SetDaemonPort]
    case FoundClearLost => [ClearLostBit]
    case FoundSetBit => [SetFoundBit]
    case WaitWifiLost => if wifiLost then [SawWifiLost] else []
    case LostFlag => [SetFound(false)]
    case LostIp => [SetAddress(0)]
    case LostClearFound => [ClearFoundBit]
    case LostSetBit => [SetLostBit]
  }

  function Deeds(s: State, acts: seq<Action>): seq<Deed>
    decreases |acts|
  {
    if acts == [] then []
    else
      var n := |acts| - 1;
      var r := Run(s, acts[..n]);
      Deeds(s, acts[..n]) + MoreDeeds(r, acts[n])
  }

  function Misses(n: nat): seq<Deed> {
    if n == 0 then [] else Misses(n - 1) + [Search(None)]
  }

  /** From WIFI_READY to DAEMON_LOST: `misses` searches without a reply, then one from `addr`. */
  datatype Discovery = Discovery(misses: nat, addr: nat)

  function Rest(a: nat): seq<Deed> {
    [Search(Some(a)), SetFound(true), SetAddress(a), SetDaemonPort, ClearLostBit, SetFoundBit,
     SawWifiLost, SetFound(false), SetAddress(0), SetDaemonPort, ClearFoundBit, SetLostBit]
  }

  function Chapter(d: Discovery): seq<Deed> {
    [SawReady] + Misses(d.misses) + Rest(d.addr)
  }

  function Told(ds: seq<Discovery>): seq<Deed>
    decreases |ds|
  {
    if ds == [] then [] else Told(ds[..|ds| - 1]) + Chapter(ds[|ds| - 1])
  }

  ghost function RestAt(pc: Discover): nat {
    match pc
    case FoundFlag(_) => 1
    case FoundIp(_) => 2
    case FoundPort => 3
    case FoundClearLost => 4
    case FoundSetBit => 5
    case WaitWifiLost => 6
    case LostFlag => 7
    case LostIp => 8
    case LostPort => 9
    case LostClearFound => 10
    case LostSetBit => 11
    case _ => 0
  }

  /** The chapter so far. */
  ghost function Page(pc: Discover, d: Discovery): seq<Deed> {
    if pc.WaitReady? then []
    else [SawReady] + Misses(d.misses) + Rest(d.addr)[..RestAt(pc)]
  }

  ghost predicate AddrOk(pc: Discover, d: Discovery) {
    d.addr != 0 && (pc.FoundFlag? || pc.FoundIp? ==> pc.addr == d.addr)
  }

  /** The discovery the step leaves the task in. */
  ghost function NextDiscovery(h: Hub, reply: Option<nat>, d: Discovery): Discovery {
    if h.pc.WaitReady? then Discovery(0, 1)
    else if !h.pc.Searching? then d
    else if reply.Some? && reply.value != 0 then Discovery(d.misses, reply.value)
    else Discovery(d.misses + 1, d.addr)
  }

  /** The deed at each point after the reply, and where it leads. */
  lemma RestDeed(h: Hub, ready: bool, lost: bool, reply: Option<nat>, d: Discovery)
    requires AddrOk(h.pc, d) && !h.pc.WaitReady? && !h.pc.Searching?
    ensures var k, pc, deeds := RestAt(h.pc), DiscoverStep(h, ready, lost, reply).pc, DeedsOf(h, ready, lost, reply);
            && 1 <= k <= 11
            && (deeds == [] ==> pc == h.pc)
            && (deeds != [] ==> deeds == [Rest(d.addr)[k]])
            && (deeds != [] && k < 11 ==> RestAt(pc) == k + 1 && !pc.WaitReady?)
            && (k == 11 <==> h.pc == LostSetBit) && (k == 11 ==> deeds != [] && pc == WaitReady)
            && AddrOk(pc, d)
  {}

  lemma RestNext(pre: seq<Deed>, addr: nat, k: nat)
    requires k <= 11
    ensures pre + Rest(addr)[..k] + [Rest(addr)[k]] == pre + Rest(addr)[..k + 1]
    ensures Rest(addr)[..12] == Rest(addr) && pre + Rest(addr)[..k] + [] == pre + Rest(addr)[..k]
  {}

  lemma StepInChapter(h: Hub, ready: bool, lost: bool, reply: Option<nat>, d: Discovery)
    requires AddrOk(h.pc, d)
    ensures var next, d' := DiscoverStep(h, ready, lost, reply), NextDiscovery(h, reply, d);
            && AddrOk(next.pc, d')
            && Page(h.pc, d) + DeedsOf(h, ready, lost, reply)
               == if h.pc.LostSetBit? then Chapter(d) else Page(next.pc, d')
  {
    if h.pc.WaitReady? {
      assert [SawReady] + [] + [] == [SawReady];
    } else if h.pc.Searching? {
      SearchStep([SawReady], Misses(d.misses), d.addr);
      SearchStep([SawReady], Misses(d.misses), if reply.Some? then reply.value else 0);
    } else {
      RestDeed(h, ready, lost, reply, d);
      RestNext([SawReady] + Misses(d.misses), d.addr, RestAt(h.pc));
    }
  }

  lemma SearchStep(ready: seq<Deed>, m: seq<Deed>, a: nat)
    ensures Rest(a)[..0] == [] && Rest(a)[..1] == [Search(Some(a))]
    ensures ready + m + [] + [Search(None)] == ready + (m + [Search(None)]) + []
    ensures ready + m + [] + [Search(Some(a))] == ready + m + [Search(Some(a))]
  {}

  /**
    Over every run: what hub_discover_task has done is a sequence of whole chapters and the
    beginning of one more.  In particular it searches only after WIFI_READY, sets the address
    before DAEMON_FOUND, and forgets it only after WIFI_LOST.
   */
  lemma DiscoveryFollowsScript(usbipMode: bool, acts: seq<Action>)
    returns (ds: seq<Discovery>, part: seq<Deed>, d: Discovery)
    ensures Deeds(Init(usbipMode), acts) == Told(ds) + part && part <= Chapter(d)
  {
    ds, d := ChaptersTold(usbipMode, acts);
    part := Page(Run(Init(usbipMode), acts).hub.pc, d);
    RestCut([SawReady] + Misses(d.misses), d.addr, RestAt(Run(Init(usbipMode), acts).hub.pc));
  }

  lemma RestCut(pre: seq<Deed>, addr: nat, k: nat)
    requires k <= 12
    ensures pre + Rest(addr)[..k] <= pre + Rest(addr)
  {}

  lemma {:induction false} ChaptersTold(usbipMode: bool, acts: seq<Action>) returns (ds: seq<Discovery>, d: Discovery)
    ensures var h := Run(Init(usbipMode), acts).hub;
            AddrOk(h.pc, d) && Deeds(Init(usbipMode), acts) == Told(ds) + Page(h.pc, d)
    decreases |acts|
  {
    ds, d := [], Discovery(0, 1);
    if acts != [] {
      var n := |acts| - 1;
      var s, deeds := Run(Init(usbipMode), acts[..n]), Deeds(Init(usbipMode), acts[..n]);
      ds, d := ChaptersTold(usbipMode, acts[..n]);
      ds, d := OneStepOfDeeds(s, acts[n], Run(Init(usbipMode), acts), deeds, ds, d);
    }
  }

  /** What the action adds to the discovery task's deeds. */
  function MoreDeeds(s: State, a: Action): seq<Deed> {
    if a.DiscoverAct? then DeedsOf(s.hub, s.wifi.ready, s.wifi.lost, a.reply) else []
  }

  lemma OneStepOfDeeds(s: State, a: Action, t: State, deeds: seq<Deed>, ds: seq<Discovery>, d: Discovery)
    returns (ds': seq<Discovery>, d': Discovery)
    requires t == Step(s, a) && AddrOk(s.hub.pc, d) && deeds == Told(ds) + Page(s.hub.pc, d)
    ensures AddrOk(t.hub.pc, d') && deeds + MoreDeeds(s, a) == Told(ds') + Page(t.hub.pc, d')
  {
    if a.DiscoverAct? {
      StepInChapter(s.hub, s.wifi.ready, s.wifi.lost, a.reply, d);
      d' := NextDiscovery(s.hub, a.reply, d);
      ds' := ChapterExtends(ds, deeds, Page(s.hub.pc, d), MoreDeeds(s, a), s.hub.pc.LostSetBit?, d, Page(t.hub.pc, d'));
    } else {
      ds', d' := ds, d;
      assert deeds + [] == deeds;
    }
  }

  lemma ChapterExtends(ds: seq<Discovery>, deeds: seq<Deed>, now: seq<Deed>, more: seq<Deed>, done: bool, d: Discovery,
                       next: seq<Deed>) returns (ds': seq<Discovery>)
    requires deeds == Told(ds) + now
    requires if done then now + more == Chapter(d) && next == [] else now + more == next
    ensures deeds + more == Told(ds') + next
  {
    ds' := ds;
    assert deeds + more == Told(ds) + (now + more);
    if done {
      ds' := ds + [d];
      assert ds'[..|ds|] == ds;
      assert Told(ds') + [] == Told(ds');
    }
  }

  datatype HubVars = HubVars(found: bool, ip: nat, foundBit: bool, lostBit: bool)

  function HubEffect(v: HubVars, d: Deed): HubVars {
    match d
    case SetFound(b) => v.(found := b)
    case SetAddress(ip) => v.(ip := ip)
    case SetFoundBit => v.(foundBit := true)
    case ClearFoundBit => v.(foundBit := false)
    case SetLostBit => v.(lostBit := true)
    case ClearLostBit => v.(lostBit := false)
    case _ => v
  }

  function HubEffects(deeds: seq<Deed>): HubVars
    decreases |deeds|
  {
    if deeds == [] then HubVars(false, 0, false, false)
    else HubEffect(HubEffects(deeds[..|deeds| - 1]), deeds[|deeds| - 1])
  }

  function HubVarsOf(h: Hub): HubVars {
    HubVars(h.found, h.ip, h.foundBit, h.lostBit)
  }

  lemma HubEffectsAppend(deeds: seq<Deed>, more: seq<Deed>)
    requires |more| <= 1
    ensures HubEffects(deeds + more)
            == if more == [] then HubEffects(deeds) else HubEffect(HubEffects(deeds), more[0])
  {
    if more == [] {
      assert deeds + more == deeds;
    } else {
      assert (deeds + more)[..|deeds|] == deeds;
    }
  }

  ghost predicate DeedDoes(h: Hub, ready: bool, lost: bool, reply: Option<nat>) {
    var more, next := DeedsOf(h, ready, lost, reply), DiscoverStep(h, ready, lost, reply);
    |more| <= 1 && HubVarsOf(next) == if more == [] then HubVarsOf(h) else HubEffect(HubVarsOf(h), more[0])
  }

  lemma DeedEffects(h: Hub, ready: bool, lost: bool, reply: Option<nat>)
    ensures DeedDoes(h, ready, lost, reply)
  {
    if RestAt(h.pc) < 6 { FindingEffects(h, ready, lost, reply); } else { LosingEffects(h, ready, lost, reply); }
  }

  lemma FindingEffects(h: Hub, ready: bool, lost: bool, reply: Option<nat>)
    requires RestAt(h.pc) < 6
    ensures DeedDoes(h, ready, lost, reply)
  {}

  lemma LosingEffects(h: Hub, ready: bool, lost: bool, reply: Option<nat>)
    requires RestAt(h.pc) >= 6
    ensures DeedDoes(h, ready, lost, reply)
  {}

  lemma OneStepOfHub(s: State, a: Action, t: State)
    requires t == Step(s, a)
    ensures var more := MoreDeeds(s, a);
            |more| <= 1
            && HubVarsOf(t.hub) == if more == [] then HubVarsOf(s.hub) else HubEffect(HubVarsOf(s.hub), more[0])
  {
    if a.DiscoverAct? { DeedEffects(s.hub, s.wifi.ready, s.wifi.lost, a.reply); }
  }

  /** Over every run the discovery task's variables and bits are exactly what its deeds made of them. */
  lemma {:induction false} HubFollowsDeeds(usbipMode: bool, acts: seq<Action>)
    ensures HubVarsOf(Run(Init(usbipMode), acts).hub) == HubEffects(Deeds(Init(usbipMode), acts))
    decreases |acts|
  {
    if acts != [] {
      var n := |acts| - 1;
      var s := Run(Init(usbipMode), acts[..n]);
      HubFollowsDeeds(usbipMode, acts[..n]);
      OneStepOfHub(s, acts[n], Run(Init(usbipMode), acts));
      HubEffectsAppend(Deeds(Init(usbipMode), acts[..n]), MoreDeeds(s, acts[n]));
    }
  }

  /** What the discovery task sees at a step is so at that step. */
  lemma DeedIsSo(s: State, a: Action, d: Deed)
    requires d in MoreDeeds(s, a)
    ensures a.DiscoverAct?
    ensures d == SawReady ==> s.wifi.ready
    ensures d == SawWifiLost ==> s.wifi.lost
    ensures d.Search? && d.reply.Some? ==> d.reply == a.reply && d.reply.value != 0
    ensures d.Search? && d.reply.None? ==> a.reply.None? || a.reply.value == 0
  {}

  // ── Wi-Fi ──────────────────────────────────────────────────────────────────

  function BitsOf(w: Wifi): WifiManager.Bits {
    WifiManager.Bits(w.ready, w.lost, w.apMode, w.connecting, false)
  }

  /** The handler as one piece, with as many disconnects behind it as `retry` says. */
  function Handled(w: Wifi, gotIp: bool, retry: bool): WifiManager.Bits {
    var count := if retry then 0 else WifiManager.MAX_RETRY;
    WifiManager.Handle(WifiManager.State(BitsOf(w), count),
                       if gotIp then WifiManager.GotIp else WifiManager.Disconnected(false)).bits
  }

  /**
    Run to its end, the handler's steps do to the bits what the whole handler does in one go:
    on GOT_IP, on a disconnect with retries left, and on one without.
   */
  lemma HandlerStepsAreHandler(w: Wifi, retry: bool)
    requires w.staStarted && w.handler == HandlerIdle
    ensures var r := HandlerStep(HandlerStep(WifiEventStep(w, true), retry), retry);
            r.handler == HandlerIdle && BitsOf(r) == Handled(w, true, retry)
    ensures var three := HandlerStep(HandlerStep(HandlerStep(WifiEventStep(w, false), retry), retry), retry);
            var r := if retry then HandlerStep(three, retry) else HandlerStep(HandlerStep(three, retry), retry);
            r.handler == HandlerIdle && BitsOf(r) == Handled(w, false, retry)
  {}

  /** The boot task ends in station mode with CONNECTING set, or in access-point mode with LOST set. */
  lemma BootEnds(usbipMode: bool)
    ensures var w := BootStep(BootStep(BootStep(BootStep(Init(usbipMode).wifi, true), true), true), true);
            w.boot == BootDone && w.staStarted && BitsOf(w) == WifiManager.Bits(false, false, false, true, false)
    ensures var w := BootStep(BootStep(BootStep(Init(usbipMode).wifi, false), false), false);
            w.boot == BootDone && !w.staStarted && BitsOf(w) == WifiManager.Bits(false, true, true, false, false)
  {}

  // ── Announcing a device that is not there ──────────────────────────────────

  lemma {:induction false} OthersMakeNoCalls(s: State, acts: seq<Action>, more: seq<Action>)
    requires OthersOnly(acts, more)
    ensures Calls(s, more) == Calls(s, acts)
    decreases |more|
  {
    if |more| == |acts| {
      assert more == acts;
    } else {
      var n := |more| - 1;
      OthersMakeNoCalls(s, acts, more[..n]);
      assert Calls(s, more[..n]) + [] == Calls(s, more[..n]);
    }
  }

  /** One step of the control task at a known point, with the answer `ok`. */
  lemma ControlStep(acts: seq<Action>, s: State, ok: bool) returns (acts': seq<Action>, s': State)
    requires s == Run(Init(true), acts)
    ensures s' == Run(Init(true), acts') && s'.wifi == s.wifi && s'.hub == s.hub
    ensures s'.session == CtrlStep(s.session, s.hub, ok)
    ensures Calls(Init(true), acts') == Calls(Init(true), acts) + CallsOf(s.session, s.hub, ok)
  {
    acts', s' := Extend(true, s, acts, CtrlAct(ok));
    assert acts'[..|acts|] == acts;
  }

  /** No answer so far to "is the USB device ready" was yes. */
  predicate NeverReady(calls: seq<Call>) {
    AskReady(true) !in calls
  }

  lemma ToReadyCheck(acts: seq<Action>, s: State) returns (acts': seq<Action>, s': State)
    requires s == Run(Init(true), acts) && s.session == Init(true).session && s.hub.foundBit
    requires NeverReady(Calls(Init(true), acts))
    ensures s' == Run(Init(true), acts') && s'.wifi == s.wifi && s'.hub == s.hub && s'.session.pc == CheckReady
    ensures NeverReady(Calls(Init(true), acts'))
  {
    acts', s' := acts, s;
    var pcs := [WaitFound, ReadIp, OpenSock, BindSock, SetTimeout, Publish, CheckReady];
    var i := 0;
    while i < 6
      invariant 0 <= i <= 6 && s' == Run(Init(true), acts') && s'.wifi == s.wifi && s'.hub == s.hub
      invariant s'.session.pc == pcs[i] && s'.session.usbipMode && NeverReady(Calls(Init(true), acts'))
    {
      acts', s' := ControlStep(acts', s', true);
      i := i + 1;
    }
  }

  /**
    In USB/IP mode the wait for the device ends when the daemon is lost.  If it is found again
    before the check that follows, the device is announced although it never was ready.
   */
  lemma AnnouncedWithoutDevice() returns (acts: seq<Action>)
    ensures NeverReady(Calls(Init(true), acts)) && SendEvent(true) in Calls(Init(true), acts)
  {
    var s;
    acts, s := DaemonFound(true);
    OthersMakeNoCalls(Init(true), [], acts);
    acts, s := ToReadyCheck(acts, s);
    acts, s := IntoLoop(acts, s);
    acts, s := LeftWhileLost(acts, s);
    acts := Announce(acts, s);
  }

  lemma IntoLoop(acts: seq<Action>, s: State) returns (acts': seq<Action>, s': State)
    requires s == Run(Init(true), acts) && s.session.pc == CheckReady && NeverReady(Calls(Init(true), acts))
    ensures s' == Run(Init(true), acts') && s'.wifi == s.wifi && s'.hub == s.hub && s'.session.pc == LoopLost
    ensures NeverReady(Calls(Init(true), acts'))
  {
    acts', s' := ControlStep(acts, s, false);
    assert s'.session.pc == LoopTest;
    acts', s' := ControlStep(acts', s', false);
  }

  lemma Announce(acts: seq<Action>, s: State) returns (acts': seq<Action>)
    requires s == Run(Init(true), acts) && s.session.pc == AfterLoop && !s.hub.lostBit
    requires NeverReady(Calls(Init(true), acts))
    ensures NeverReady(Calls(Init(true), acts')) && SendEvent(true) in Calls(Init(true), acts')
  {
    var s';
    acts', s' := ControlStep(acts, s, true);
    assert s'.session.pc == SendConnect;
    ghost var calls := Calls(Init(true), acts');
    acts', s' := ControlStep(acts', s', true);
    assert Calls(Init(true), acts') == calls + [SendEvent(true)];
  }

  lemma LeftWhileLost(acts: seq<Action>, s: State) returns (acts': seq<Action>, s': State)
    requires s == Run(Init(true), acts) && s.session.pc == LoopLost && NeverReady(Calls(Init(true), acts))
    requires s.wifi.staStarted && s.wifi.handler == HandlerIdle && s.hub.pc == WaitWifiLost
    ensures s' == Run(Init(true), acts') && s'.session.pc == AfterLoop && !s'.hub.lostBit
    ensures NeverReady(Calls(Init(true), acts'))
  {
    var a := acts;
    acts', s' := WifiDrops(true, acts, s);
    OthersMakeNoCalls(Init(true), a, acts');
    acts', s' := ControlStep(acts', s', true);
    a := acts';
    acts', s' := WifiReturns(true, acts', s');
    OthersMakeNoCalls(Init(true), a, acts');
    a := acts';
    acts', s' := Discovered(true, acts', s', 1);
    OthersMakeNoCalls(Init(true), a, acts');
  }
}
