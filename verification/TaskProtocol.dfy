/**
  The firmware tasks that coordinate through event bits: the Wi-Fi boot task and event
  handler, hub_discover_task and session_ctrl_task, as one state machine.

  Every event-bit call, assignment and socket call is one atomic step; any task may take
  the next step.  A run is a sequence of actions; an action of a task that is blocked
  changes nothing.
 */
module TaskProtocol {
  import opened Wire

  datatype Boot = BootStart | StaClear | StaSet | StaStart | ApClear | ApSet | BootDone

  datatype Handler =
    | HandlerIdle
    | DiscClear | DiscSetLost | DiscDecide | DiscConnecting
    | FallbackClear | FallbackSet
    | GotIpClear | GotIpSet

  datatype Discover =
    | WaitReady | Searching
    | FoundFlag(addr: nat) | FoundIp(addr: nat) | FoundPort | FoundClearLost | FoundSetBit
    | WaitWifiLost
    | LostFlag | LostIp | LostPort | LostClearFound | LostSetBit

  datatype Ctrl =
    | WaitFound | ReadIp | OpenSock | BindSock | SetTimeout | Publish
    | CheckReady | LoopTest | LoopLost | AfterLoop | AbortClose | AbortClear
    | SendConnect | ClearLost | SetActive | WaitDaemonLost
    | ClearActive | SetLost | TakeSock | CloseSock | SendDisconnect | ClearLostAgain

  /** What session_ctrl_task does to the outside; sockets are numbered as they are opened. */
  datatype Obs = Opened(k: nat) | Closed(k: nat) | DeviceEvent(connect: bool) | SawDaemonLost

  /** Written by the boot task and the event handler. */
  datatype Wifi = Wifi(boot: Boot, handler: Handler, staStarted: bool,
                       ready: bool, lost: bool, apMode: bool, connecting: bool)

  /** Written by hub_discover_task. */
  datatype Hub = Hub(pc: Discover, found: bool, ip: nat, foundBit: bool, lostBit: bool)

  /** Written by session_ctrl_task; `local` numbers the socket its local variable holds. */
  datatype Session = Session(pc: Ctrl, usbipMode: bool, daemonIp: nat, sock: Option<nat>, local: nat,
                             openSock: Option<nat>, bound: bool, active: bool, lost: bool, log: seq<Obs>)

  datatype State = State(wifi: Wifi, hub: Hub, session: Session)

  function Init(usbipMode: bool): State {
    State(Wifi(BootStart, HandlerIdle, false, false, false, false, false),
          Hub(WaitReady, false, 0, false, false),
          Session(WaitFound, usbipMode, 0, None, 0, None, false, false, false, []))
  }

  /** `ok` and `reply` are the outcomes of the call the step makes, if any. */
  datatype Action =
    | BootAct(hasCreds: bool)
    | WifiEvent(gotIp: bool)
    | HandlerAct(retry: bool)
    | DiscoverAct(reply: Option<nat>)
    | CtrlAct(ok: bool)

  function BootStep(w: Wifi, hasCreds: bool): Wifi {
    match w.boot
    case BootStart => w.(boot := if hasCreds then StaClear else ApClear)
    case StaClear => w.(boot := StaSet, apMode := false)
    case StaSet => w.(boot := StaStart, connecting := true)
    case StaStart => w.(boot := BootDone, staStarted := true)
    case ApClear => w.(boot := ApSet, ready := false, connecting := false)
    case ApSet => w.(boot := BootDone, lost := true, apMode := true)
    case BootDone => w
  }

  /** STA and IP events are raised only once station mode has been started. */
  function WifiEventStep(w: Wifi, gotIp: bool): Wifi {
    if w.staStarted && w.handler == HandlerIdle then w.(handler := if gotIp then GotIpClear else DiscClear) else w
  }

  function HandlerStep(w: Wifi, retry: bool): Wifi {
    match w.handler
    case HandlerIdle => w
    case DiscClear => w.(handler := DiscSetLost, ready := false, connecting := false)
    case DiscSetLost => w.(handler := DiscDecide, lost := true)
    case DiscDecide => w.(handler := if retry then DiscConnecting else FallbackClear)
    case DiscConnecting => w.(handler := HandlerIdle, connecting := true)
    case FallbackClear => w.(handler := FallbackSet, ready := false, connecting := false)
    case FallbackSet => w.(handler := HandlerIdle, lost := true, apMode := true)
    case GotIpClear => w.(handler := GotIpSet, lost := false, connecting := false, apMode := false)
    case GotIpSet => w.(handler := HandlerIdle, ready := true)
  }

  /** A reply comes from a non-zero address. */
  function DiscoverStep(h: Hub, wifiReady: bool, wifiLost: bool, reply: Option<nat>): Hub {
    match h.pc
    case WaitReady => if wifiReady then h.(pc := Searching) else h
    case Searching => if reply.Some? && reply.value != 0 then h.(pc := FoundFlag(reply.value)) else h
    case FoundFlag(a) => h.(pc := FoundIp(a), found := true)
    case FoundIp(a) => h.(pc := FoundPort, ip := a)
    case FoundPort => h.(pc := FoundClearLost)
    case FoundClearLost => h.(pc := FoundSetBit, lostBit := false)
    case FoundSetBit => h.(pc := WaitWifiLost, foundBit := true)
    case WaitWifiLost => if wifiLost then h.(pc := LostFlag) else h
    case LostFlag => h.(pc := LostIp, found := false)
    case LostIp => h.(pc := LostPort, ip := 0)
    case LostPort => h.(pc := LostClearFound)
    case LostClearFound => h.(pc := LostSetBit, foundBit := false)
    case LostSetBit => h.(pc := WaitReady, lostBit := true)
  }

  /** Number of sockets opened so far: the next one's number. */
  function OpenedCount(log: seq<Obs>): nat
    decreases |log|
  {
    if log == [] then 0
    else OpenedCount(log[..|log| - 1]) + (if log[|log| - 1].Opened? then 1 else 0)
  }

  /** What the step shows to the outside: at most one observation. */
  function Emits(c: Session, h: Hub, ok: bool): seq<Obs> {
    if c.pc.OpenSock? && ok then [Opened(OpenedCount(c.log))]
    else if (c.pc.BindSock? || c.pc.SetTimeout?) && !ok then [Closed(c.local)]
    else if c.pc.AbortClose? || c.pc.CloseSock? then [Closed(c.local)]
    else if c.pc.SendConnect? then [DeviceEvent(true)]
    else if c.pc.WaitDaemonLost? && h.lostBit then [SawDaemonLost]
    else if c.pc.SendDisconnect? then [DeviceEvent(false)]
    else []
  }

  function NextPc(pc: Ctrl, usbipMode: bool, h: Hub, ok: bool): Ctrl {
    match pc
    case WaitFound => if h.foundBit then ReadIp else WaitFound
    case ReadIp => OpenSock
    case OpenSock => if ok then BindSock else WaitFound
    case BindSock => if ok then SetTimeout else WaitFound
    case SetTimeout => if ok then Publish else WaitFound
    case Publish => if usbipMode then CheckReady else SendConnect
    case CheckReady => if ok then SendConnect else LoopTest
    case LoopTest => if ok then AfterLoop else LoopLost
    case LoopLost => if h.lostBit then AfterLoop else LoopTest
    case AfterLoop => if h.lostBit then AbortClose else SendConnect
    case AbortClose => AbortClear
    case AbortClear => WaitFound
    case SendConnect => ClearLost
    case ClearLost => SetActive
    case SetActive => WaitDaemonLost
    case WaitDaemonLost => if h.lostBit then ClearActive else WaitDaemonLost
    case ClearActive => SetLost
    case SetLost => TakeSock
    case TakeSock => CloseSock
    case CloseSock => SendDisconnect
    case SendDisconnect => ClearLostAgain
    case ClearLostAgain => WaitFound
  }

  /** Each variable changes only at the steps that assign it; the socket follows open and close. */
  function CtrlStep(c: Session, h: Hub, ok: bool): Session {
    var e := Emits(c, h, ok);
    var opens := e != [] && e[0].Opened?;
    var closes := e != [] && e[0].Closed?;
    c.(pc := NextPc(c.pc, c.usbipMode, h, ok),
       daemonIp := if c.pc.ReadIp? then h.ip else c.daemonIp,
       local := if opens then e[0].k else c.local,
       openSock := if opens then Some(e[0].k) else if closes then None else c.openSock,
       bound := if opens || closes then false else c.bound || c.pc.BindSock?,
       sock := if c.pc.Publish? then Some(c.local) else if c.pc.AbortClear? || c.pc.TakeSock? then None else c.sock,
       active := (c.active || c.pc.SetActive?) && !c.pc.ClearActive?,
       lost := (c.lost || c.pc.SetLost?) && !c.pc.ClearLost? && !c.pc.ClearLostAgain?,
       log := c.log + e)
  }

  function Step(s: State, a: Action): State {
    match a
    case BootAct(hasCreds) => s.(wifi := BootStep(s.wifi, hasCreds))
    case WifiEvent(gotIp) => s.(wifi := WifiEventStep(s.wifi, gotIp))
    case HandlerAct(retry) => s.(wifi := HandlerStep(s.wifi, retry))
    case DiscoverAct(reply) => s.(hub := DiscoverStep(s.hub, s.wifi.ready, s.wifi.lost, reply))
    case CtrlAct(ok) => s.(session := CtrlStep(s.session, s.hub, ok))
  }

  function Run(s: State, acts: seq<Action>): State
    decreases |acts|
  {
    if acts == [] then s else Step(Run(s, acts[..|acts| - 1]), acts[|acts| - 1])
  }

  // ── Event bits ─────────────────────────────────────────────────────────────

  ghost predicate WifiInv(w: Wifi) {
    && !(w.ready && w.lost)
    && (!w.staStarted ==> w.handler == HandlerIdle && !w.ready)
    && (w.boot != BootDone ==> !w.staStarted)
    && (match w.handler
        case DiscSetLost | DiscDecide | DiscConnecting | FallbackClear | FallbackSet => !w.ready
        case GotIpSet => !w.lost
        case _ => true)
  }

  /** The bits and the address are functions of where the discovery task stands. */
  ghost predicate HubInv(h: Hub) {
    && (h.foundBit <==> FoundZone(h.pc))
    && (h.lostBit ==> LostZone(h.pc))
    && (h.ip != 0 <==> AddressZone(h.pc))
    && (h.pc.FoundFlag? || h.pc.FoundIp? ==> h.pc.addr != 0)
  }

  predicate FoundZone(pc: Discover) {
    match pc case WaitWifiLost | LostFlag | LostIp | LostPort | LostClearFound => true case _ => false
  }

  predicate LostZone(pc: Discover) {
    match pc case WaitReady | Searching | FoundFlag(_) | FoundIp(_) | FoundPort | FoundClearLost => true case _ => false
  }

  predicate AddressZone(pc: Discover) {
    match pc case FoundPort | FoundClearLost | FoundSetBit | WaitWifiLost | LostFlag | LostIp => true case _ => false
  }

  /** The control task holds an open socket. */
  predicate Holding(pc: Ctrl) {
    && !pc.WaitFound? && !pc.ReadIp? && !pc.OpenSock? && !pc.AbortClear? && !pc.SendDisconnect? && !pc.ClearLostAgain?
  }

  /** `s->sock` names it. */
  predicate Published(pc: Ctrl) {
    || pc.AbortClear?
    || (Holding(pc) && !pc.BindSock? && !pc.SetTimeout? && !pc.Publish? && !pc.CloseSock?)
  }

  /** The last DEVICE_EVENT attempted is a CONNECT. */
  predicate Announced(pc: Ctrl) {
    pc.ClearLost? || pc.SetActive? || pc.WaitDaemonLost? || TearingDown(pc)
  }

  predicate TearingDown(pc: Ctrl) {
    pc.ClearActive? || pc.SetLost? || pc.TakeSock? || pc.CloseSock? || pc.SendDisconnect?
  }

  ghost predicate SessionInv(c: Session) {
    && (c.active <==> c.pc == WaitDaemonLost || c.pc == ClearActive)
    && (c.lost <==> c.pc == TakeSock || c.pc == CloseSock || c.pc == SendDisconnect || c.pc == ClearLostAgain)
    && c.openSock == (if Holding(c.pc) then Some(c.local) else None)
    && (Holding(c.pc) && c.pc != BindSock ==> c.bound)
    && c.sock == (if Published(c.pc) then Some(c.local) else None)
  }

  // ── The control task's log ─────────────────────────────────────────────────

  ghost function Events(log: seq<Obs>): seq<bool>
    decreases |log|
  {
    if log == [] then []
    else
      var last := log[|log| - 1];
      Events(log[..|log| - 1]) + (if last.DeviceEvent? then [last.connect] else [])
  }

  ghost function Sockets(log: seq<Obs>): seq<Obs>
    decreases |log|
  {
    if log == [] then []
    else
      var last := log[|log| - 1];
      Sockets(log[..|log| - 1]) + (if last.Opened? || last.Closed? then [last] else [])
  }

  /** A DAEMON_LOST was observed after the last DEVICE_EVENT. */
  ghost predicate LostSinceEvent(log: seq<Obs>)
    decreases |log|
  {
    log != [] &&
    var last := log[|log| - 1];
    last.SawDaemonLost? || (!last.DeviceEvent? && LostSinceEvent(log[..|log| - 1]))
  }

  /** CONNECT, DISCONNECT, CONNECT, ... */
  ghost predicate Alternating(es: seq<bool>) {
    forall i :: 0 <= i < |es| ==> es[i] == (i % 2 == 0)
  }

  /** Socket 0 opened and closed, then socket 1 opened and closed, ... */
  ghost predicate OneAtATime(ss: seq<Obs>) {
    forall i :: 0 <= i < |ss| ==> ss[i] == if i % 2 == 0 then Opened(i / 2) else Closed(i / 2)
  }

  ghost predicate EventsOk(log: seq<Obs>, pc: Ctrl) {
    Alternating(Events(log)) && (|Events(log)| % 2 == 1 <==> Announced(pc))
  }

  ghost predicate SocketsOk(log: seq<Obs>, pc: Ctrl, local: nat) {
    && OneAtATime(Sockets(log))
    && (|Sockets(log)| % 2 == 1 <==> Holding(pc))
    && OpenedCount(log) == (|Sockets(log)| + 1) / 2
    && (Holding(pc) ==> local == |Sockets(log)| / 2)
  }

  ghost predicate LostOk(log: seq<Obs>, pc: Ctrl) {
    && (TearingDown(pc) ==> LostSinceEvent(log))
    && (forall i :: 0 <= i < |log| && log[i] == DeviceEvent(false) ==> LostSinceEvent(log[..i]))
  }

  ghost predicate LogInv(c: Session) {
    EventsOk(c.log, c.pc) && SocketsOk(c.log, c.pc, c.local) && LostOk(c.log, c.pc)
  }

  ghost predicate Inv(s: State) {
    WifiInv(s.wifi) && HubInv(s.hub) && SessionInv(s.session) && LogInv(s.session)
  }

  // How one step's observation relates to where the control task stands before and after it.

  ghost predicate EventStep(e: seq<Obs>, pc: Ctrl, pc': Ctrl) {
    if e != [] && e[0].DeviceEvent? then e[0].connect == !Announced(pc) == Announced(pc')
    else Announced(pc') == Announced(pc)
  }

  ghost predicate SocketStep(e: seq<Obs>, pc: Ctrl, local: nat, count: nat, pc': Ctrl, local': nat) {
    if e != [] && e[0].Opened? then !Holding(pc) && Holding(pc') && local' == count == e[0].k
    else if e != [] && e[0].Closed? then Holding(pc) && !Holding(pc') && e[0].k == local
    else Holding(pc') == Holding(pc) && local' == local
  }

  ghost predicate LostStep(e: seq<Obs>, pc: Ctrl, pc': Ctrl) {
    && (TearingDown(pc') ==> e == [SawDaemonLost] || (TearingDown(pc) && (e == [] || !e[0].DeviceEvent?)))
    && (e == [DeviceEvent(false)] ==> TearingDown(pc))
  }

  lemma CtrlEventStep(c: Session, h: Hub, ok: bool)
    ensures |Emits(c, h, ok)| <= 1 && EventStep(Emits(c, h, ok), c.pc, NextPc(c.pc, c.usbipMode, h, ok))
  {}

  lemma CtrlSocketStep(c: Session, h: Hub, ok: bool)
    ensures SocketStep(Emits(c, h, ok), c.pc, c.local, OpenedCount(c.log),
                       NextPc(c.pc, c.usbipMode, h, ok), CtrlStep(c, h, ok).local)
  {}

  lemma CtrlLostStep(c: Session, h: Hub, ok: bool)
    ensures LostStep(Emits(c, h, ok), c.pc, NextPc(c.pc, c.usbipMode, h, ok))
  {}

  lemma LogAppend(log: seq<Obs>, o: Obs)
    ensures Events(log + [o]) == Events(log) + (if o.DeviceEvent? then [o.connect] else [])
    ensures Sockets(log + [o]) == Sockets(log) + (if o.Opened? || o.Closed? then [o] else [])
    ensures OpenedCount(log + [o]) == OpenedCount(log) + (if o.Opened? then 1 else 0)
    ensures LostSinceEvent(log + [o]) <==> o.SawDaemonLost? || (!o.DeviceEvent? && LostSinceEvent(log))
  {
    assert (log + [o])[..|log + [o]| - 1] == log;
  }

  lemma LostAppend(log: seq<Obs>, o: Obs)
    requires forall i :: 0 <= i < |log| && log[i] == DeviceEvent(false) ==> LostSinceEvent(log[..i])
    requires o == DeviceEvent(false) ==> LostSinceEvent(log)
    ensures var m := log + [o]; forall i :: 0 <= i < |m| && m[i] == DeviceEvent(false) ==> LostSinceEvent(m[..i])
  {
    var m := log + [o];
    forall i | 0 <= i < |m| && m[i] == DeviceEvent(false) ensures LostSinceEvent(m[..i]) {
      if i < |log| {
        assert m[..i] == log[..i] && m[i] == log[i];
      } else {
        assert m[..i] == log;
      }
    }
  }

  lemma EventsGrow(log: seq<Obs>, e: seq<Obs>, pc: Ctrl, pc': Ctrl)
    requires |e| <= 1 && EventsOk(log, pc) && EventStep(e, pc, pc')
    ensures EventsOk(log + e, pc')
  {
    if e == [] {
      assert log + e == log;
    } else {
      assert e == [e[0]];
      LogAppend(log, e[0]);
      Parity(|Events(log)|);
      if e[0].DeviceEvent? {
        AlternatingAppend(Events(log), e[0].connect);
      }
    }
  }

  lemma AlternatingAppend(es: seq<bool>, e: bool)
    requires Alternating(es)
    ensures Alternating(es + [e]) <==> e == (|es| % 2 == 0)
  {
    assert (es + [e])[|es|] == e;
  }

  lemma SocketsGrow(log: seq<Obs>, e: seq<Obs>, pc: Ctrl, local: nat, pc': Ctrl, local': nat)
    requires |e| <= 1 && SocketsOk(log, pc, local) && SocketStep(e, pc, local, OpenedCount(log), pc', local')
    ensures SocketsOk(log + e, pc', local')
  {
    if e == [] {
      assert log + e == log;
    } else {
      assert e == [e[0]];
      LogAppend(log, e[0]);
      Parity(|Sockets(log)|);
      if e[0].Opened? || e[0].Closed? {
        OneMoreInTurn(Sockets(log), e[0]);
      }
    }
  }

  lemma Parity(n: nat)
    ensures n % 2 == 0 ==> (n + 1) % 2 == 1 && (n + 1) / 2 == n / 2 && (n + 2) / 2 == n / 2 + 1
    ensures n % 2 == 1 ==> (n + 1) % 2 == 0 && (n + 1) / 2 == n / 2 + 1 == (n + 2) / 2
  {}

  lemma OneMoreInTurn(ss: seq<Obs>, o: Obs)
    requires OneAtATime(ss) && o == if |ss| % 2 == 0 then Opened(|ss| / 2) else Closed(|ss| / 2)
    ensures OneAtATime(ss + [o])
  {}

  lemma LostGrows(log: seq<Obs>, e: seq<Obs>, pc: Ctrl, pc': Ctrl)
    requires |e| <= 1 && LostOk(log, pc) && LostStep(e, pc, pc')
    ensures LostOk(log + e, pc')
  {
    if e == [] {
      assert log + e == log;
    } else {
      assert e == [e[0]];
      LogAppend(log, e[0]);
      LostAppend(log, e[0]);
    }
  }

  lemma CtrlKeepsLog(c: Session, h: Hub, ok: bool)
    requires LogInv(c)
    ensures LogInv(CtrlStep(c, h, ok))
  {
    var e, d := Emits(c, h, ok), CtrlStep(c, h, ok);
    CtrlEventStep(c, h, ok);
    EventsGrow(c.log, e, c.pc, d.pc);
    CtrlSocketStep(c, h, ok);
    SocketsGrow(c.log, e, c.pc, c.local, d.pc, d.local);
    CtrlLostStep(c, h, ok);
    LostGrows(c.log, e, c.pc, d.pc);
  }

  lemma CtrlKeepsSession(c: Session, h: Hub, ok: bool)
    requires SessionInv(c)
    ensures SessionInv(CtrlStep(c, h, ok))
  {}

  lemma WifiKeeps(w: Wifi, b: bool)
    requires WifiInv(w)
    ensures WifiInv(BootStep(w, b)) && WifiInv(WifiEventStep(w, b)) && WifiInv(HandlerStep(w, b))
  {}

  lemma DiscoverKeeps(h: Hub, wifiReady: bool, wifiLost: bool, reply: Option<nat>)
    requires HubInv(h)
    ensures HubInv(DiscoverStep(h, wifiReady, wifiLost, reply))
  {}

  lemma StepKeeps(s: State, a: Action)
    requires Inv(s)
    ensures Inv(Step(s, a))
  {
    match a
    case BootAct(b) => WifiKeeps(s.wifi, b);
    case WifiEvent(b) => WifiKeeps(s.wifi, b);
    case HandlerAct(b) => WifiKeeps(s.wifi, b);
    case DiscoverAct(reply) => DiscoverKeeps(s.hub, s.wifi.ready, s.wifi.lost, reply);
    case CtrlAct(ok) =>
      CtrlKeepsSession(s.session, s.hub, ok);
      CtrlKeepsLog(s.session, s.hub, ok);
  }

  lemma {:induction false} RunKeeps(s: State, acts: seq<Action>)
    requires Inv(s)
    ensures Inv(Run(s, acts))
    decreases |acts|
  {
    if acts != [] {
      RunKeeps(s, acts[..|acts| - 1]);
      StepKeeps(Run(s, acts[..|acts| - 1]), acts[|acts| - 1]);
    }
  }

  // ── Main results ───────────────────────────────────────────────────────────

  /**
    Under every interleaving no pair of opposite bits is ever set together, and while
    SESSION_ACTIVE is set the session's socket is published, open and bound.
   */
  lemma BitsExclusive(usbipMode: bool, acts: seq<Action>)
    ensures var s := Run(Init(usbipMode), acts);
            && !(s.wifi.ready && s.wifi.lost)
            && !(s.hub.foundBit && s.hub.lostBit)
            && !(s.session.active && s.session.lost)
            && (s.session.active ==> s.session.sock.Some? && s.session.openSock == s.session.sock && s.session.bound)
  {
    RunKeeps(Init(usbipMode), acts);
  }

  /**
    Over every run, the DEVICE_EVENTs attempted alternate from CONNECT, each DISCONNECT comes
    after a DAEMON_LOST observed since the CONNECT, and every reply socket is closed exactly
    once before the next is opened.
   */
  lemma ControlTaskLog(usbipMode: bool, acts: seq<Action>)
    ensures var log := Run(Init(usbipMode), acts).session.log;
            && Alternating(Events(log))
            && OneAtATime(Sockets(log))
            && (forall i :: 0 <= i < |log| && log[i] == DeviceEvent(false) ==> LostSinceEvent(log[..i]))
  {
    RunKeeps(Init(usbipMode), acts);
  }

  /** While DAEMON_FOUND is set the address is there, except in the two steps before the bit is cleared. */
  lemma FoundBitAndAddress(usbipMode: bool, acts: seq<Action>)
    ensures var h := Run(Init(usbipMode), acts).hub;
            h.foundBit ==> (h.ip != 0 <==> h.pc != LostPort && h.pc != LostClearFound)
  {
    RunKeeps(Init(usbipMode), acts);
  }

  // ── The daemon's address ───────────────────────────────────────────────────

  /** The discovery task accepts a reply from `reply.value`. */
  predicate Accepts(h: Hub, a: Action) {
    a.DiscoverAct? && h.pc == Searching && a.reply.Some? && a.reply.value != 0
  }

  /** The address of the last reply accepted in the run; 0 before any. */
  ghost function LastReply(s: State, acts: seq<Action>): nat
    decreases |acts|
  {
    if acts == [] then 0
    else
      var front, a := acts[..|acts| - 1], acts[|acts| - 1];
      if Accepts(Run(s, front).hub, a) then a.reply.value else LastReply(s, front)
  }

  /** The last step of the run at which the control task read the address. */
  ghost function LastRead(s: State, acts: seq<Action>): (r: Option<nat>)
    ensures r.Some? ==> r.value < |acts|
    decreases |acts|
  {
    if acts == [] then None
    else
      var n := |acts| - 1;
      if acts[n].CtrlAct? && Run(s, acts[..n]).session.pc == ReadIp then Some(n) else LastRead(s, acts[..n])
  }

  /** Between accepting a reply and clearing the address, the discovery task holds the last reply's. */
  ghost predicate HoldsReply(h: Hub, reply: nat) {
    (h.pc.FoundFlag? || h.pc.FoundIp? ==> h.pc.addr == reply) && (h.ip != 0 ==> h.ip == reply)
  }

  lemma {:induction false} AddressIsLastReply(usbipMode: bool, acts: seq<Action>)
    ensures HoldsReply(Run(Init(usbipMode), acts).hub, LastReply(Init(usbipMode), acts))
    decreases |acts|
  {
    if acts != [] {
      var front, a := acts[..|acts| - 1], acts[|acts| - 1];
      var s := Run(Init(usbipMode), front);
      AddressIsLastReply(usbipMode, front);
      RunKeeps(Init(usbipMode), front);
      if a.DiscoverAct? {
        DiscoverHoldsReply(s.hub, s.wifi.ready, s.wifi.lost, a.reply, LastReply(Init(usbipMode), front));
      }
    }
  }

  lemma DiscoverHoldsReply(h: Hub, wifiReady: bool, wifiLost: bool, reply: Option<nat>, last: nat)
    requires HubInv(h) && HoldsReply(h, last)
    ensures HoldsReply(DiscoverStep(h, wifiReady, wifiLost, reply),
                       if Accepts(h, DiscoverAct(reply)) then reply.value else last)
  {}

  /** The session's address is the one that stood at the last read; past the read there is one. */
  lemma {:induction false} AddressIsLastRead(usbipMode: bool, acts: seq<Action>)
    ensures var s, read := Run(Init(usbipMode), acts), LastRead(Init(usbipMode), acts);
            && (read.None? ==> s.session.daemonIp == 0 && (s.session.pc == WaitFound || s.session.pc == ReadIp))
            && (read.Some? ==> s.session.daemonIp == Run(Init(usbipMode), acts[..read.value]).hub.ip)
    decreases |acts|
  {
    if acts != [] {
      var n := |acts| - 1;
      AddressIsLastRead(usbipMode, acts[..n]);
      StepReads(Run(Init(usbipMode), acts[..n]), acts[n], Run(Init(usbipMode), acts));
      var read := LastRead(Init(usbipMode), acts[..n]);
      if read.Some? {
        assert acts[..n][..read.value] == acts[..read.value];
      }
    }
  }

  /** The session's address changes only at the read, and only the read leads past the read. */
  lemma StepReads(s: State, a: Action, t: State)
    requires t == Step(s, a)
    ensures var atRead := a.CtrlAct? && s.session.pc == ReadIp;
            && t.session.daemonIp == (if atRead then s.hub.ip else s.session.daemonIp)
            && (!atRead && (s.session.pc == WaitFound || s.session.pc == ReadIp) ==>
                 t.session.pc == WaitFound || t.session.pc == ReadIp)
  {}

  /** What the control task records: the last reply's address, unless the discovery task has cleared it. */
  lemma RecordedAddress(usbipMode: bool, acts: seq<Action>, ok: bool)
    ensures var s := Run(Init(usbipMode), acts);
            s.session.pc == ReadIp ==>
              CtrlStep(s.session, s.hub, ok).daemonIp ==
                if AddressZone(s.hub.pc) then LastReply(Init(usbipMode), acts) else 0
  {
    RunKeeps(Init(usbipMode), acts);
    AddressIsLastReply(usbipMode, acts);
  }

  /**
    Over every run, an active session has read the address at some step, and that address is
    the daemon's current one exactly when the address was there at the read, is there now, and
    the last reply accepted is still the one it was at the read, or one from the same address.
   */
  lemma ActiveAddress(usbipMode: bool, acts: seq<Action>)
    ensures var s0 := Init(usbipMode);
            var s, read := Run(s0, acts), LastRead(s0, acts);
            s.session.active ==>
              && read.Some?
              && (s.session.daemonIp == s.hub.ip && s.hub.ip != 0 <==>
                   && AddressZone(Run(s0, acts[..read.value]).hub.pc) && AddressZone(s.hub.pc)
                   && LastReply(s0, acts) == LastReply(s0, acts[..read.value]))
  {
    RunKeeps(Init(usbipMode), acts);
    AddressIsLastReply(usbipMode, acts);
    AddressIsLastRead(usbipMode, acts);
    var read := LastRead(Init(usbipMode), acts);
    if read.Some? {
      RunKeeps(Init(usbipMode), acts[..read.value]);
      AddressIsLastReply(usbipMode, acts[..read.value]);
    }
  }

  lemma Extend(mode: bool, s: State, acts: seq<Action>, a: Action) returns (more: seq<Action>, t: State)
    requires s == Run(Init(mode), acts)
    ensures more == acts + [a] && t == Step(s, a) == Run(Init(mode), more)
  {
    more, t := acts + [a], Step(s, a);
    assert more[..|more| - 1] == acts;
  }

  /** Between the two runs the control task takes no step. */
  ghost predicate OthersOnly(acts: seq<Action>, more: seq<Action>) {
    acts <= more && forall i :: |acts| <= i < |more| ==> !more[i].CtrlAct?
  }

  /** Where the control task stands after `i` undisturbed steps from its read, outside USB/IP mode. */
  function ToActive(i: nat): Ctrl {
    match i
    case 0 => ReadIp
    case 1 => OpenSock
    case 2 => BindSock
    case 3 => SetTimeout
    case 4 => Publish
    case 5 => SendConnect
    case 6 => ClearLost
    case 7 => SetActive
    case _ => WaitDaemonLost
  }

  lemma TowardsActive(c: Session, h: Hub, i: nat)
    requires i < 8 && c.pc == ToActive(i) && !c.usbipMode
    ensures var d := CtrlStep(c, h, true);
            && d.pc == ToActive(i + 1) && !d.usbipMode && (i == 7 ==> d.active)
            && d.daemonIp == if i == 0 then h.ip else c.daemonIp
  {}

  /** The control task runs alone from its read, or the step after it, until the session is active. */
  lemma Activate(mode: bool, acts: seq<Action>, s: State, from: nat) returns (acts': seq<Action>, s': State)
    requires s == Run(Init(mode), acts) && !s.session.usbipMode && from < 8 && s.session.pc == ToActive(from)
    ensures s' == Run(Init(mode), acts') && s'.wifi == s.wifi && s'.hub == s.hub && s'.session.active
    ensures s'.session.daemonIp == if from == 0 then s.hub.ip else s.session.daemonIp
    decreases 8 - from
  {
    TowardsActive(s.session, s.hub, from);
    acts', s' := Extend(mode, s, acts, CtrlAct(true));
    if from < 7 {
      acts', s' := Activate(mode, acts', s', from + 1);
    }
  }

  /** Wi-Fi is lost between the control task's wait and its read: the session goes active without an address. */
  lemma ActiveWithoutAddress() returns (acts: seq<Action>)
    ensures var s := Run(Init(false), acts); s.session.active && s.session.daemonIp == 0
  {
    var s;
    acts, s := FoundThenLost(false);
    acts, s := Activate(false, acts, s, 0);
  }

  /**
    Wi-Fi is lost and found again after the read, and another daemon answers: the session goes
    active on the old address while every bit says that all is well.
   */
  lemma ActiveOnStaleAddress() returns (acts: seq<Action>)
    ensures var s := Run(Init(false), acts);
            && s.session.active && s.session.daemonIp == 1 && s.hub.ip == 2
            && s.hub.foundBit && !s.hub.lostBit && s.wifi.ready
  {
    var s;
    acts, s := DaemonFound(false);
    acts, s := Extend(false, s, acts, CtrlAct(true));
    acts, s := Extend(false, s, acts, CtrlAct(true));
    acts, s := WifiDrops(false, acts, s);
    acts, s := WifiReturns(false, acts, s);
    acts, s := Discovered(false, acts, s, 2);
    acts, s := Activate(false, acts, s, 1);
  }

  lemma WifiDrops(mode: bool, acts: seq<Action>, s: State) returns (acts': seq<Action>, s': State)
    requires s == Run(Init(mode), acts)
    requires s.wifi.staStarted && s.wifi.handler == HandlerIdle && s.hub.pc == WaitWifiLost
    ensures s' == Run(Init(mode), acts') && s'.session == s.session
    ensures s'.wifi.staStarted && s'.wifi.handler == HandlerIdle && s'.hub.pc == WaitReady && s'.hub.lostBit
    ensures OthersOnly(acts, acts')
  {
    acts', s' := Extend(mode, s, acts, WifiEvent(false));
    acts', s' := HandlerRetries(mode, acts', s');
    acts', s' := DaemonForgotten(mode, acts', s');
  }

  lemma HandlerRetries(mode: bool, acts: seq<Action>, s: State) returns (acts': seq<Action>, s': State)
    requires s == Run(Init(mode), acts) && s.wifi.staStarted && s.wifi.handler == DiscClear
    ensures s' == Run(Init(mode), acts') && s'.session == s.session && s'.hub == s.hub
    ensures s'.wifi.staStarted && s'.wifi.handler == HandlerIdle && s'.wifi.lost
    ensures OthersOnly(acts, acts')
  {
    acts', s' := Extend(mode, s, acts, HandlerAct(true));
    acts', s' := Extend(mode, s', acts', HandlerAct(true));
    acts', s' := Extend(mode, s', acts', HandlerAct(true));
    acts', s' := Extend(mode, s', acts', HandlerAct(true));
  }

  lemma DaemonForgotten(mode: bool, acts: seq<Action>, s: State) returns (acts': seq<Action>, s': State)
    requires s == Run(Init(mode), acts) && s.wifi.lost && s.hub.pc == WaitWifiLost
    ensures s' == Run(Init(mode), acts') && s'.session == s.session && s'.wifi == s.wifi
    ensures s'.hub.pc == WaitReady && s'.hub.lostBit
    ensures OthersOnly(acts, acts')
  {
    acts', s' := acts, s;
    var pcs := [WaitWifiLost, LostFlag, LostIp, LostPort, LostClearFound, LostSetBit, WaitReady];
    var i := 0;
    while i < 6
      invariant 0 <= i <= 6 && s' == Run(Init(mode), acts') && s'.session == s.session && s'.wifi == s.wifi
      invariant s'.hub.pc == pcs[i] && (i == 6 ==> s'.hub.lostBit) && OthersOnly(acts, acts')
    {
      acts', s' := Extend(mode, s', acts', DiscoverAct(None));
      i := i + 1;
    }
  }

  lemma WifiReturns(mode: bool, acts: seq<Action>, s: State) returns (acts': seq<Action>, s': State)
    requires s == Run(Init(mode), acts) && s.wifi.staStarted && s.wifi.handler == HandlerIdle
    ensures s' == Run(Init(mode), acts') && s'.session == s.session && s'.hub == s.hub
    ensures s'.wifi.ready && s'.wifi.staStarted && s'.wifi.handler == HandlerIdle
    ensures OthersOnly(acts, acts')
  {
    acts', s' := Extend(mode, s, acts, WifiEvent(true));
    acts', s' := Extend(mode, s', acts', HandlerAct(true));
    acts', s' := Extend(mode, s', acts', HandlerAct(true));
  }

  /** With Wi-Fi up, a reply from `addr` takes the discovery task to its wait. */
  lemma Discovered(mode: bool, acts: seq<Action>, s: State, addr: nat) returns (acts': seq<Action>, s': State)
    requires s == Run(Init(mode), acts) && s.wifi.ready && s.hub.pc == WaitReady && addr != 0
    ensures s' == Run(Init(mode), acts') && s'.session == s.session && s'.wifi == s.wifi
    ensures s'.hub.pc == WaitWifiLost && s'.hub.foundBit && !s'.hub.lostBit && s'.hub.ip == addr
    ensures OthersOnly(acts, acts')
  {
    acts', s' := acts, s;
    var pcs := [WaitReady, Searching, FoundFlag(addr), FoundIp(addr), FoundPort, FoundClearLost, FoundSetBit,
                WaitWifiLost];
    var i := 0;
    while i < 7
      invariant 0 <= i <= 7 && s' == Run(Init(mode), acts') && s'.wifi == s.wifi && s'.session == s.session
      invariant s'.hub.pc == pcs[i] && (i > 3 ==> s'.hub.ip == addr)
      invariant (i > 5 ==> !s'.hub.lostBit) && (i == 7 ==> s'.hub.foundBit) && OthersOnly(acts, acts')
    {
      acts', s' := Extend(mode, s', acts', DiscoverAct(Some(addr)));
      i := i + 1;
    }
  }

  lemma FoundThenLost(mode: bool) returns (acts: seq<Action>, s: State)
    ensures s == Run(Init(mode), acts) && s.session.pc == ReadIp && s.hub.ip == 0 && s.session.usbipMode == mode
  {
    acts, s := DaemonFound(mode);
    acts, s := Extend(mode, s, acts, CtrlAct(true));
    acts, s := WifiDrops(mode, acts, s);
    NoAddressYet(mode, acts, s);
  }

  lemma NoAddressYet(mode: bool, acts: seq<Action>, s: State)
    requires s == Run(Init(mode), acts) && s.hub.pc == WaitReady
    ensures s.hub.ip == 0
  {
    RunKeeps(Init(mode), acts);
  }

  lemma DaemonFound(mode: bool) returns (acts: seq<Action>, s: State)
    ensures s == Run(Init(mode), acts) && s.session == Init(mode).session && s.hub.ip == 1
    ensures s.wifi.staStarted && s.wifi.handler == HandlerIdle && s.hub.pc == WaitWifiLost && s.hub.foundBit
    ensures OthersOnly([], acts)
  {
    acts, s := Online(mode);
    acts, s := Discovered(mode, acts, s, 1);
  }

  lemma Online(mode: bool) returns (acts: seq<Action>, s: State)
    ensures s == Run(Init(mode), acts) && s.session == Init(mode).session && s.hub == Init(mode).hub
    ensures s.wifi.ready && s.wifi.staStarted && s.wifi.handler == HandlerIdle
    ensures OthersOnly([], acts)
  {
    acts, s := [], Init(mode);
    acts, s := Extend(mode, s, acts, BootAct(true));
    acts, s := Extend(mode, s, acts, BootAct(true));
    acts, s := Extend(mode, s, acts, BootAct(true));
    acts, s := Extend(mode, s, acts, BootAct(true));
    acts, s := WifiReturns(mode, acts, s);
  }
}
