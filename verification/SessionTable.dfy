/**
  The daemon's session table as a value: the four maps of HubServer, the port table of
  VhciDriver and the open descriptors, and what each event of main's loop does to them.

  Calls into the system appear as outcomes carried by the event.  An index entry that
  still points at a destroyed session is Dangling.
 */
module SessionTable {
  import opened Wire

  const MAX_PORTS := 8

  datatype Session = Session(port: nat, vhciFd: nat, kernelFd: nat, tcp: Option<nat>)

  datatype Ptr = Live(dev: Byte) | Dangling

  datatype Table = Table(sessions: map<Byte, Session>, byVhci: map<nat, Ptr>, byTcp: map<nat, Ptr>,
                         pending: set<nat>, ports: set<nat>, open: set<nat>)

  const EMPTY := Table(map[], map[], map[], {}, {}, {})

  /** A socketpair: spv[0] goes to the kernel, spv[1] stays with the daemon. */
  datatype Pair = Pair(kernelFd: nat, vhciFd: nat)

  /** What readTcpPacket and the packet's type amount to. */
  datatype Message = ReadFailed | Connect(dev: Byte) | Disconnect(dev: Byte) | NoChange

  /** How the calls made while handling one event turn out. */
  datatype Outcome = Outcome(msg: Message, detachOk: bool, pair: Option<Pair>, attachOk: bool, handlerOk: bool)

  datatype Event =
    | Accept(conn: Option<nat>)
    | FdReady(fd: nat, hangup: bool, input: bool, outcome: Outcome)

  // ── Operations ─────────────────────────────────────────────────────────────

  function Fds(s: Session): set<nat> {
    {s.vhciFd, s.kernelFd} + (if s.tcp.Some? then {s.tcp.value} else {})
  }

  /** Destroying a session leaves every pointer to it dangling. */
  function Forget(index: map<nat, Ptr>, dev: Byte): (r: map<nat, Ptr>) {
    map fd | fd in index :: if index[fd] == Live(dev) then Dangling else index[fd]
  }

  function RemoveSession(t: Table, dev: Byte): Table {
    if dev !in t.sessions then t else
      var s := t.sessions[dev];
      t.(sessions := t.sessions - {dev},
         byVhci := Forget(t.byVhci - {s.vhciFd}, dev),
         byTcp := Forget(if s.tcp.Some? then t.byTcp - {s.tcp.value} else t.byTcp, dev),
         open := t.open - Fds(s))
  }

  /** Called when `dev` has no session; the descriptors have left their previous owner. */
  function AddSession(t: Table, dev: Byte, s: Session): Table {
    t.(sessions := t.sessions[dev := s],
       byVhci := t.byVhci[s.vhciFd := Live(dev)],
       byTcp := if s.tcp.Some? then t.byTcp[s.tcp.value := Live(dev)] else t.byTcp)
  }

  /** The lowest port not in use. */
  function FreePort(ports: set<nat>, from: nat): (p: Option<nat>)
    requires from <= MAX_PORTS
    ensures p.Some? ==>
              from <= p.value < MAX_PORTS && p.value !in ports && forall q :: from <= q < p.value ==> q in ports
    ensures p.None? ==> forall q :: from <= q < MAX_PORTS ==> q in ports
    decreases MAX_PORTS - from
  {
    if from == MAX_PORTS then None
    else if from !in ports then Some(from)
    else FreePort(ports, from + 1)
  }

  function Attach(ports: set<nat>, sysfsOk: bool): Option<nat> {
    if sysfsOk then FreePort(ports, 0) else None
  }

  function Detach(ports: set<nat>, port: nat, sysfsOk: bool): set<nat> {
    if sysfsOk then ports - {port} else ports
  }

  /** main's disconnect callback. */
  function OnDisconnect(t: Table, dev: Byte, detachOk: bool): Table {
    if dev !in t.sessions then t
    else RemoveSession(t.(ports := Detach(t.ports, t.sessions[dev].port, detachOk)), dev)
  }

  /** A new session on the socketpair and the port, for a connection held by the caller. */
  function Attached(t: Table, dev: Byte, conn: nat, p: Pair, port: nat): Table {
    AddSession(t.(ports := t.ports + {port}, open := t.open + {p.kernelFd, p.vhciFd}),
               dev, Session(port, p.vhciFd, p.kernelFd, Some(conn)))
  }

  /** main's doUsbAttach; the connection's descriptor arrives through a 16-bit port field. */
  function DoUsbAttach(t: Table, dev: Byte, fd: nat, o: Outcome): Table {
    var port := Attach(t.ports, o.attachOk);
    var conn := fd % 0x1_0000;
    if o.pair.None? || port.None? then t
    else if conn !in t.pending then t.(ports := t.ports + {port.value})
    else Attached(t.(pending := t.pending - {conn}), dev, conn, o.pair.value, port.value)
  }

  /** The session loses its socket to a local variable, its port is freed, and it is removed. */
  function ResetRemoved(t: Table, dev: Byte): Table
    requires dev in t.sessions
  {
    var s := t.sessions[dev];
    RemoveSession(t.(sessions := t.sessions[dev := s.(tcp := None)], ports := t.ports - {s.port}), dev)
  }

  predicate ReattachSucceeds(t: Table, dev: Byte, o: Outcome)
    requires dev in t.sessions
  {
    o.pair.Some? && Attach(ResetRemoved(t, dev).ports, o.attachOk).Some?
  }

  /** USB reset: remove, then attach again with the same connection. */
  function OnUsbReset(t: Table, dev: Byte, o: Outcome): Table
    requires dev in t.sessions && t.sessions[dev].tcp.Some?
  {
    var conn := t.sessions[dev].tcp.value;
    var r := ResetRemoved(t, dev);
    if !ReattachSucceeds(t, dev, o) then r.(open := r.open - {conn})
    else Attached(r, dev, conn, o.pair.value, Attach(r.ports, o.attachOk).value)
  }

  function OnConnect(t: Table, fd: nat, dev: Byte, o: Outcome): Table {
    var u := OnDisconnect(t, dev, o.detachOk);
    if fd in u.pending then DoUsbAttach(u, dev, fd, o) else u
  }

  /** The connection belongs to a live session. */
  predicate Indexed(t: Table, fd: nat) {
    fd in t.byTcp && t.byTcp[fd].Live?
  }

  /** A dangling entry of a socket that is not pending is not followed: nothing changes. */
  function OnTcpReadable(t: Table, fd: nat, o: Outcome): Table {
    if (fd !in t.pending && !Indexed(t, fd)) || o.msg.ReadFailed? then
      if fd in t.pending then t.(pending := t.pending - {fd}, open := t.open - {fd})
      else if Indexed(t, fd) then OnDisconnect(t, t.byTcp[fd].dev, o.detachOk)
      else t
    else match o.msg
      case Connect(dev) => OnConnect(t, fd, dev, o)
      case Disconnect(dev) => OnDisconnect(t, dev, o.detachOk)
      case _ => t
  }

  function OnFdReady(t: Table, fd: nat, hangup: bool, input: bool, o: Outcome): Table {
    if fd in t.byTcp then
      if hangup then (if t.byTcp[fd].Live? then RemoveSession(t, t.byTcp[fd].dev) else t)
      else if input then OnTcpReadable(t, fd, o)
      else t
    else if fd in t.byVhci then
      if !t.byVhci[fd].Live? then t
      else
        var dev := t.byVhci[fd].dev;
        if hangup then (if dev in t.sessions && t.sessions[dev].tcp.Some? then OnUsbReset(t, dev, o) else t)
        else if input && !o.handlerOk then RemoveSession(t, dev)
        else t
    else if input then OnTcpReadable(t, fd, o)
    else t
  }

  function Step(t: Table, e: Event): Table {
    match e
    case Accept(conn) =>
      if conn.None? then t else t.(pending := t.pending + {conn.value}, open := t.open + {conn.value})
    case FdReady(fd, hangup, input, o) => OnFdReady(t, fd, hangup, input, o)
  }

  function Run(t: Table, es: seq<Event>): Table
    decreases |es|
  {
    if es == [] then t else Step(Run(t, es[..|es| - 1]), es[|es| - 1])
  }
}
