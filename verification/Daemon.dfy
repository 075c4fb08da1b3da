/**
  The daemon's objects as they are updated in place: VhciDriver's port table, HubServer's
  maps of session pointers, and the callbacks and event loop of main.  Every method is
  proved to change the table exactly as SessionTable says.
 */
module Daemon {
  import opened Wire
  import opened SessionTable
  import opened SessionInvariant
  import opened SessionRuns

  /** The open descriptors; closing one that is not open is a precondition failure. */
  class Descriptors {
    var open: set<nat>

    constructor ()
      ensures open == {}
    {
      open := {};
    }

    method Close(fd: nat)
      requires fd in open
      modifies this
      ensures open == old(open) - {fd}
    {
      open := open - {fd};
    }

    method Opened(fd: nat)
      requires fd !in open
      modifies this
      ensures open == old(open) + {fd}
    {
      open := open + {fd};
    }
  }

  class VhciDriver {
    const ports: array<bool>

    ghost predicate Valid() {
      ports.Length == MAX_PORTS
    }

    ghost function InUse(): (s: set<nat>)
      requires Valid()
      reads ports
    {
      set p: nat | p < MAX_PORTS && ports[p]
    }

    constructor ()
      ensures Valid() && fresh(ports) && InUse() == {}
    {
      ports := new bool[MAX_PORTS](i => false);
    }

    /** Takes the lowest free port if the sysfs write succeeds; -1 otherwise. */
    method AttachPort(sysfsOk: bool) returns (port: int)
      requires Valid()
      modifies ports
      ensures Attach(old(InUse()), sysfsOk).None? ==> port == -1 && InUse() == old(InUse())
      ensures Attach(old(InUse()), sysfsOk).Some? ==>
                port == Attach(old(InUse()), sysfsOk).value && InUse() == old(InUse()) + {port}
    {
      port := -1;
      var i := 0;
      while i < MAX_PORTS
        invariant 0 <= i <= MAX_PORTS
        invariant forall q :: 0 <= q < i ==> ports[q]
      {
        if !ports[i] { port := i; break; }
        i := i + 1;
      }
      assert port >= 0 ==> FreePort(InUse(), 0) == Some(port);
      if port < 0 { return; }
      if !sysfsOk { return -1; }
      ports[port] := true;
    }

    method DetachPort(port: int, sysfsOk: bool) returns (ok: bool)
      requires Valid()
      modifies ports
      ensures ok == (port in old(InUse()) && sysfsOk)
      ensures InUse() == if ok then old(InUse()) - {port} else old(InUse())
    {
      if port < 0 || port >= MAX_PORTS || !ports[port] { return false; }
      if !sysfsOk { return false; }
      ports[port] := false;
      return true;
    }

    method ReleasePort(port: int)
      requires Valid()
      modifies ports
      ensures InUse() == old(InUse()) - {port}
    {
      if port >= 0 && port < MAX_PORTS {
        ports[port] := false;
      }
    }

    /** At shutdown exactly the ports whose sysfs write fails stay marked. */
    method DetachAll(sysfsOk: seq<bool>)
      requires Valid() && |sysfsOk| == MAX_PORTS
      modifies ports
      ensures InUse() == set p | p in old(InUse()) && !sysfsOk[p]
    {
      for i := 0 to MAX_PORTS
        invariant forall p: nat :: p < MAX_PORTS ==> (ports[p] <==> old(ports[p]) && (p < i ==> !sysfsOk[p]))
      {
        if ports[i] {
          ghost var before := InUse();
          var ok := DetachPort(i, sysfsOk[i]);
          assert forall p: nat :: p < MAX_PORTS ==> (ports[p] <==> p in InUse());
          assert forall p: nat :: p < MAX_PORTS ==> (p in before <==> old(ports[p]) && (p < i ==> !sysfsOk[p]));
        }
      }
    }
  }

  /** One connected device; `tcpSock` is empty once the socket has been moved out. */
  class DeviceSession {
    const deviceId: Byte
    const vhciPort: nat
    const vhciFd: nat
    const kernelFd: nat
    var tcpSock: Option<nat>

    constructor (deviceId: Byte, vhciPort: nat, vhciFd: nat, kernelFd: nat, tcpSock: Option<nat>)
      ensures this.deviceId == deviceId && this.vhciPort == vhciPort && this.vhciFd == vhciFd
      ensures this.kernelFd == kernelFd && this.tcpSock == tcpSock
    {
      this.deviceId, this.vhciPort, this.vhciFd := deviceId, vhciPort, vhciFd;
      this.kernelFd, this.tcpSock := kernelFd, tcpSock;
    }

    ghost function Value(): Session
      reads this
    {
      Session(vhciPort, vhciFd, kernelFd, tcpSock)
    }
  }

  /** A pointer dangles when the table no longer owns the object it points at. */
  ghost function PtrTo(sessions: map<Byte, DeviceSession>, s: DeviceSession): Ptr {
    if s.deviceId in sessions && sessions[s.deviceId] == s then Live(s.deviceId) else Dangling
  }

  ghost function Index(sessions: map<Byte, DeviceSession>, m: map<nat, DeviceSession>): map<nat, Ptr> {
    map fd | fd in m :: PtrTo(sessions, m[fd])
  }

  lemma IndexReplaced(sessions: map<Byte, DeviceSession>, m: map<nat, DeviceSession>, s: DeviceSession, fd: nat)
    requires forall f :: f in m ==> m[f] != s
    ensures Index(sessions[s.deviceId := s], m[fd := s])
            == Forget(Index(sessions, m), s.deviceId)[fd := Live(s.deviceId)]
    ensures s.deviceId !in sessions ==> Forget(Index(sessions, m), s.deviceId) == Index(sessions, m)
  {}

  lemma IndexRemoved(sessions: map<Byte, DeviceSession>, m: map<nat, DeviceSession>, d: Byte)
    ensures Index(sessions - {d}, m) == Forget(Index(sessions, m), d)
  {}

  lemma IndexErased(sessions: map<Byte, DeviceSession>, m: map<nat, DeviceSession>, fd: nat)
    ensures Index(sessions, m - {fd}) == Index(sessions, m) - {fd}
  {}

  class HubServer {
    const fds: Descriptors
    var sessions: map<Byte, DeviceSession>
    var vhciFdMap: map<nat, DeviceSession>
    var tcpFdMap: map<nat, DeviceSession>
    var pending: set<nat>

    ghost predicate Valid()
      reads this
    {
      forall d :: d in sessions ==> sessions[d].deviceId == d
    }

    constructor (fds: Descriptors)
      ensures Valid() && this.fds == fds
      ensures sessions == map[] && vhciFdMap == map[] && tcpFdMap == map[] && pending == {}
    {
      this.fds := fds;
      sessions, vhciFdMap, tcpFdMap, pending := map[], map[], map[], {};
    }

    ghost function Values(): map<Byte, Session>
      reads this, sessions.Values
    {
      map d | d in sessions :: sessions[d].Value()
    }

    method OnTcpAccept(conn: Option<nat>)
      requires Valid() && (conn.Some? ==> conn.value !in fds.open)
      modifies this`pending, fds
      ensures pending == old(pending) + (if conn.Some? then {conn.value} else {})
      ensures fds.open == old(fds.open) + (if conn.Some? then {conn.value} else {})
    {
      if conn.None? { return; }
      fds.Opened(conn.value);
      pending := pending + {conn.value};
    }

    /** Whether the socket was found; it leaves the pending map and is now the caller's. */
    method ExtractPendingSocket(fd: nat) returns (sock: Option<nat>)
      modifies this`pending
      ensures sock == (if fd in old(pending) then Some(fd) else None)
      ensures pending == old(pending) - {fd}
    {
      if fd in pending {
        pending := pending - {fd};
        return Some(fd);
      }
      return None;
    }

    /**
      A session that the device already has is destroyed by the assignment: its descriptors
      are closed, and index entries under other descriptors are left dangling.
     */
    method NewSession(deviceId: Byte, vhciPort: nat, vhciFd: nat, kernelFd: nat, tcpSock: nat)
      requires Valid()
      requires deviceId in sessions ==> Closable(sessions[deviceId].Value())
      modifies this, fds
      ensures Valid() && pending == old(pending) && deviceId in sessions && fresh(sessions[deviceId])
      ensures sessions == old(sessions)[deviceId := sessions[deviceId]]
      ensures sessions[deviceId].Value() == Session(vhciPort, vhciFd, kernelFd, Some(tcpSock))
      ensures fds.open == old(fds.open) - old(if deviceId in sessions then Fds(sessions[deviceId].Value()) else {})
      ensures Index(sessions, vhciFdMap) == Forget(old(Index(sessions, vhciFdMap)), deviceId)[vhciFd := Live(deviceId)]
      ensures Index(sessions, tcpFdMap) == Forget(old(Index(sessions, tcpFdMap)), deviceId)[tcpSock := Live(deviceId)]
      ensures deviceId !in old(sessions) ==>
                && Forget(old(Index(sessions, vhciFdMap)), deviceId) == old(Index(sessions, vhciFdMap))
                && Forget(old(Index(sessions, tcpFdMap)), deviceId) == old(Index(sessions, tcpFdMap))
    {
      var s := new DeviceSession(deviceId, vhciPort, vhciFd, kernelFd, Some(tcpSock));
      IndexReplaced(sessions, tcpFdMap, s, tcpSock);
      IndexReplaced(sessions, vhciFdMap, s, vhciFd);
      tcpFdMap := tcpFdMap[tcpSock := s];
      vhciFdMap := vhciFdMap[vhciFd := s];
      if deviceId in sessions {
        Destroy(sessions[deviceId]);
      }
      sessions := sessions[deviceId := s];
    }

    /** The destructor closes the session's two descriptors and, if still there, its socket. */
    method Destroy(s: DeviceSession)
      requires Closable(s.Value())
      modifies fds
      ensures fds.open == old(fds.open) - Fds(s.Value())
    {
      fds.Close(s.vhciFd);
      fds.Close(s.kernelFd);
      if s.tcpSock.Some? {
        fds.Close(s.tcpSock.value);
      }
    }

    /** removeSession: the session's entries are erased and it is destroyed. */
    method Remove(deviceId: Byte)
      requires Valid()
      requires deviceId in sessions ==> Closable(sessions[deviceId].Value())
      modifies this, fds
      ensures Valid() && pending == old(pending) && sessions == old(sessions) - {deviceId}
      ensures deviceId !in old(sessions) ==>
                fds.open == old(fds.open) && vhciFdMap == old(vhciFdMap) && tcpFdMap == old(tcpFdMap)
      ensures deviceId in old(sessions) ==>
                var s := old(sessions[deviceId].Value());
                && fds.open == old(fds.open) - Fds(s)
                && Index(sessions, vhciFdMap) == Forget(old(Index(sessions, vhciFdMap)) - {s.vhciFd}, deviceId)
                && Index(sessions, tcpFdMap) ==
                     Forget(if s.tcp.Some? then old(Index(sessions, tcpFdMap)) - {s.tcp.value}
                            else old(Index(sessions, tcpFdMap)), deviceId)
    {
      if deviceId !in sessions {
        assert sessions - {deviceId} == sessions;
        return;
      }
      var s := sessions[deviceId];
      IndexErased(sessions, vhciFdMap, s.vhciFd);
      IndexRemoved(sessions, vhciFdMap - {s.vhciFd}, deviceId);
      IndexRemoved(sessions, tcpFdMap, deviceId);
      vhciFdMap := vhciFdMap - {s.vhciFd};
      if s.tcpSock.Some? {
        IndexErased(sessions, tcpFdMap, s.tcpSock.value);
        IndexRemoved(sessions, tcpFdMap - {s.tcpSock.value}, deviceId);
        tcpFdMap := tcpFdMap - {s.tcpSock.value};
      }
      sessions := sessions - {deviceId};
      Destroy(s);
    }

    ghost predicate Closable(s: Session)
      reads fds
    {
      Fds(s) <= fds.open && s.vhciFd != s.kernelFd && (s.tcp.Some? ==> s.tcp.value !in {s.vhciFd, s.kernelFd})
    }
  }

  /** main: the hub, the port table, the callbacks and the loop over epoll events. */
  class EventLoop {
    const fds: Descriptors
    const vhci: VhciDriver
    const hub: HubServer

    ghost predicate Valid()
      reads hub
    {
      hub.Valid() && vhci.Valid() && hub.fds == fds
    }

    ghost function View(): Table
      requires Valid()
      reads hub, hub.sessions.Values, vhci.ports, fds
    {
      Table(hub.Values(), Index(hub.sessions, hub.vhciFdMap), Index(hub.sessions, hub.tcpFdMap),
            hub.pending, vhci.InUse(), fds.open)
    }

    constructor ()
      ensures Valid() && View() == EMPTY
      ensures fresh(hub) && fresh(fds) && fresh(vhci.ports)
    {
      var open := new Descriptors();
      fds := open;
      vhci := new VhciDriver();
      hub := new HubServer(open);
    }

    /** The disconnect callback. */
    method DisconnectDevice(dev: Byte, detachOk: bool)
      requires Valid() && (dev in hub.sessions ==> hub.Closable(hub.sessions[dev].Value()))
      modifies hub, fds, vhci.ports
      ensures Valid() && View() == OnDisconnect(old(View()), dev, detachOk)
      ensures hub.sessions == old(hub.sessions) - {dev}
    {
      if dev !in hub.sessions {
        assert hub.sessions - {dev} == hub.sessions;
        return;
      }
      var ok := vhci.DetachPort(hub.sessions[dev].vhciPort, detachOk);
      hub.Remove(dev);
      assert hub.Values() == old(hub.Values()) - {dev};
      assert vhci.InUse() == Detach(old(vhci.InUse()), old(hub.sessions[dev].vhciPort), detachOk);
    }

    method AddToTable(dev: Byte, port: nat, p: Pair, conn: nat)
      requires Valid() && dev !in hub.sessions
      modifies hub, fds
      ensures Valid() && View() == AddSession(old(View()), dev, Session(port, p.vhciFd, p.kernelFd, Some(conn)))
      ensures fresh(hub.sessions.Values - old(hub.sessions.Values))
    {
      hub.NewSession(dev, port, p.vhciFd, p.kernelFd, conn);
      assert hub.Values() == old(hub.Values())[dev := hub.sessions[dev].Value()];
    }

    /** socketpair and vhci.attach; without a port the pair is closed again. */
    method OpenPort(o: Outcome) returns (port: int)
      requires Valid() && FreshPair(o, fds.open)
      modifies fds, vhci.ports
      ensures Valid()
      ensures o.pair.None? || Attach(old(vhci.InUse()), o.attachOk).None? ==>
                port == -1 && View() == old(View())
      ensures o.pair.Some? && Attach(old(vhci.InUse()), o.attachOk).Some? ==>
                && port == Attach(old(vhci.InUse()), o.attachOk).value
                && View() == old(View()).(ports := old(View()).ports + {port},
                                          open := old(View()).open + {o.pair.value.kernelFd, o.pair.value.vhciFd})
    {
      if o.pair.None? { return -1; }
      var p := o.pair.value;
      fds.Opened(p.kernelFd);
      fds.Opened(p.vhciFd);
      port := vhci.AttachPort(o.attachOk);
      if port < 0 {
        fds.Close(p.kernelFd);
        fds.Close(p.vhciFd);
        assert fds.open == old(fds.open);
      }
    }

    /** doUsbAttach: the connection's descriptor comes back out of a 16-bit port field. */
    method AttachDevice(dev: Byte, fd: nat, o: Outcome)
      requires Valid() && dev !in hub.sessions && FreshPair(o, fds.open)
      modifies hub, fds, vhci.ports
      ensures Valid() && View() == DoUsbAttach(old(View()), dev, fd, o)
      ensures fresh(hub.sessions.Values - old(hub.sessions.Values))
    {
      var port := OpenPort(o);
      if port < 0 { return; }
      var sock := hub.ExtractPendingSocket(fd % 0x1_0000);
      if sock.None? {
        fds.Close(o.pair.value.kernelFd);
        fds.Close(o.pair.value.vhciFd);
        assert fds.open == old(fds.open);
        assert hub.pending == old(hub.pending);
        return;
      }
      assert View() ==
             old(View()).(pending := old(View()).pending - {fd % 0x1_0000}, ports := vhci.InUse(), open := fds.open);
      AddToTable(dev, port, o.pair.value, sock.value);
    }

    /** The re-attach after a USB reset, with the session's own socket moved out beforehand. */
    method ResetDevice(dev: Byte, o: Outcome)
      requires Valid() && dev in hub.sessions && hub.sessions[dev].tcpSock.Some?
      requires hub.Closable(hub.sessions[dev].Value()) && FreshPair(o, ResetRemoved(View(), dev).open)
      modifies hub, hub.sessions.Values, fds, vhci.ports
      ensures Valid() && View() == OnUsbReset(old(View()), dev, o)
      ensures fresh(hub.sessions.Values - old(hub.sessions.Values))
    {
      var conn := hub.sessions[dev].tcpSock.value;
      TakeOutForReset(dev);
      Reattach(dev, conn, o);
    }

    method Reattach(dev: Byte, conn: nat, o: Outcome)
      requires Valid() && dev !in hub.sessions && conn in fds.open && FreshPair(o, fds.open)
      modifies hub, fds, vhci.ports
      ensures Valid()
      ensures var port := Attach(old(vhci.InUse()), o.attachOk);
              View() == if o.pair.Some? && port.Some?
                        then Attached(old(View()), dev, conn, o.pair.value, port.value)
                        else old(View()).(open := old(View()).open - {conn})
      ensures fresh(hub.sessions.Values - old(hub.sessions.Values))
    {
      var port := OpenPort(o);
      if port >= 0 {
        AddToTable(dev, port, o.pair.value, conn);
      } else {
        fds.Close(conn);
      }
    }

    method TakeOutForReset(dev: Byte)
      requires Valid() && dev in hub.sessions && hub.sessions[dev].tcpSock.Some?
      requires hub.Closable(hub.sessions[dev].Value())
      modifies hub, hub.sessions.Values, fds, vhci.ports
      ensures Valid() && View() == ResetRemoved(old(View()), dev)
      ensures hub.sessions == old(hub.sessions) - {dev}
      ensures old(hub.sessions[dev].tcpSock.value) in fds.open
    {
      var s := hub.sessions[dev];
      s.tcpSock := None;
      vhci.ReleasePort(s.vhciPort);
      hub.Remove(dev);
    }

    /** Every session's destructor could run now without closing anything twice. */
    ghost predicate AllClosable()
      requires Valid()
      reads hub, hub.sessions.Values, fds
    {
      forall d :: d in hub.sessions ==> hub.sessions[d].tcpSock.Some? && hub.Closable(hub.sessions[d].Value())
    }

    /** CONNECT: the device's old session goes first; only a pending connection is attached. */
    method ConnectDevice(fd: nat, dev: Byte, o: Outcome)
      requires Valid() && (dev in hub.sessions ==> hub.Closable(hub.sessions[dev].Value()))
      requires FreshPair(o, OnDisconnect(View(), dev, o.detachOk).open)
      modifies hub, fds, vhci.ports
      ensures Valid() && View() == OnConnect(old(View()), fd, dev, o)
      ensures fresh(hub.sessions.Values - old(hub.sessions.Values))
    {
      if dev in hub.sessions {
        DisconnectDevice(dev, o.detachOk);
      }
      if fd in hub.pending {
        AttachDevice(dev, fd, o);
      }
    }

    /** HubServer::onTcpReadable with its callbacks; `o.msg` is what readTcpPacket yields. */
    method TcpReadable(fd: nat, o: Outcome)
      requires Valid() && AllClosable() && hub.pending <= fds.open
      requires fd in hub.tcpFdMap && fd !in hub.pending ==> PtrTo(hub.sessions, hub.tcpFdMap[fd]).Live?
      requires o.msg.Connect? ==> FreshPair(o, OnDisconnect(View(), o.msg.dev, o.detachOk).open)
      modifies hub, fds, vhci.ports
      ensures Valid() && View() == OnTcpReadable(old(View()), fd, o)
      ensures fresh(hub.sessions.Values - old(hub.sessions.Values))
    {
      var found := fd in hub.pending || fd in hub.tcpFdMap;
      if !found || o.msg.ReadFailed? {
        if fd in hub.pending {
          DropPending(fd);
        } else if fd in hub.tcpFdMap {
          DisconnectDevice(hub.tcpFdMap[fd].deviceId, o.detachOk);
        }
        return;
      }
      match o.msg
      case Connect(dev) =>
        ConnectDevice(fd, dev, o);
      case Disconnect(dev) =>
        DisconnectDevice(dev, o.detachOk);
      case _ =>
    }

    method DropPending(fd: nat)
      requires Valid() && fd in hub.pending && fd in fds.open
      modifies hub, fds
      ensures Valid() && View() == old(View()).(pending := old(View()).pending - {fd}, open := old(View()).open - {fd})
      ensures hub.sessions == old(hub.sessions)
    {
      var sock := hub.ExtractPendingSocket(fd);
      fds.Close(fd);
    }

    lemma OwnedClosable(t: Table)
      requires Inv(t)
      ensures t.pending <= t.open
      ensures forall d :: d in t.sessions ==> Fds(t.sessions[d]) <= t.open && Distinct(t.sessions[d])
    {}

    lemma ViewClosable()
      requires Valid() && Inv(View())
      ensures AllClosable() && hub.pending <= fds.open
    {
      OwnedClosable(View());
      forall d | d in hub.sessions ensures hub.sessions[d].tcpSock.Some? && hub.Closable(hub.sessions[d].Value()) {
        assert View().sessions[d] == hub.sessions[d].Value();
      }
    }

    method RemoveDevice(dev: Byte)
      requires Valid() && dev in hub.sessions && hub.Closable(hub.sessions[dev].Value())
      modifies hub, fds
      ensures Valid() && View() == RemoveSession(old(View()), dev)
      ensures hub.sessions == old(hub.sessions) - {dev}
    {
      hub.Remove(dev);
      assert hub.Values() == old(hub.Values()) - {dev};
    }

    /** An event on any descriptor but the two listening ones. */
    method FdEvent(fd: nat, hangup: bool, input: bool, o: Outcome)
      requires Valid() && AllClosable() && hub.pending <= fds.open
      requires Allowed(View(), FdReady(fd, hangup, input, o)) && Defined(View(), FdReady(fd, hangup, input, o))
      requires VhciExact(View().sessions, View().byVhci)
      modifies hub, hub.sessions.Values, fds, vhci.ports
      ensures Valid() && View() == OnFdReady(old(View()), fd, hangup, input, o)
      ensures fresh(hub.sessions.Values - old(hub.sessions.Values))
    {
      if fd in hub.tcpFdMap {
        if hangup {
          RemoveDevice(hub.tcpFdMap[fd].deviceId);
        } else if input {
          TcpReadable(fd, o);
        }
      } else if fd in hub.vhciFdMap {
        VhciEvent(fd, hangup, input, o);
      } else if input {
        TcpReadable(fd, o);
      }
    }

    method VhciEvent(fd: nat, hangup: bool, input: bool, o: Outcome)
      requires Valid() && AllClosable() && fd !in hub.tcpFdMap && fd in hub.vhciFdMap
      requires Allowed(View(), FdReady(fd, hangup, input, o))
      requires VhciExact(View().sessions, View().byVhci)
      modifies hub, hub.sessions.Values, fds, vhci.ports
      ensures Valid() && View() == OnFdReady(old(View()), fd, hangup, input, o)
      ensures fresh(hub.sessions.Values - old(hub.sessions.Values))
    {
      var s := hub.vhciFdMap[fd];
      assert View().byVhci[fd].Live?;
      if hangup {
        ResetDevice(s.deviceId, o);
      } else if input && !o.handlerOk {
        RemoveDevice(s.deviceId);
      }
    }

    /** One epoll event: the table makes the model's step and keeps its invariant. */
    method HandleEvent(e: Event)
      requires Valid() && Inv(View()) && Allowed(View(), e) && Defined(View(), e)
      modifies hub, hub.sessions.Values, fds, vhci.ports
      ensures Valid() && View() == Step(old(View()), e) && Inv(View())
      ensures IndexAgreement(old(View())) ==> (IndexAgreement(View()) <==> !FailedReset(old(View()), e))
      ensures fresh(hub.sessions.Values - old(hub.sessions.Values))
    {
      StepKeepsAll(View(), e);
      ViewClosable();
      Dispatch(e);
    }

    lemma StepKeepsAll(t: Table, e: Event)
      requires Inv(t) && Allowed(t, e)
      ensures Inv(Step(t, e)) && VhciExact(t.sessions, t.byVhci)
      ensures IndexAgreement(t) ==> (IndexAgreement(Step(t, e)) <==> !FailedReset(t, e))
    {
      StepKeeps(t, e);
    }

    method AcceptConnection(conn: Option<nat>)
      requires Valid() && (conn.Some? ==> conn.value !in fds.open)
      modifies hub, fds
      ensures Valid() && hub.sessions == old(hub.sessions) && View() == Step(old(View()), Accept(conn))
    {
      hub.OnTcpAccept(conn);
    }

    method Dispatch(e: Event)
      requires Valid() && AllClosable() && hub.pending <= fds.open
      requires Allowed(View(), e) && Defined(View(), e) && VhciExact(View().sessions, View().byVhci)
      modifies hub, hub.sessions.Values, fds, vhci.ports
      ensures Valid() && View() == Step(old(View()), e)
      ensures fresh(hub.sessions.Values - old(hub.sessions.Values))
    {
      match e
      case Accept(conn) => AcceptConnection(conn);
      case FdReady(fd, hangup, input, o) => FdEvent(fd, hangup, input, o);
    }

    /** main's loop over the events the system reports. */
    method Loop(es: seq<Event>)
      requires Valid() && Inv(View()) && RunAllowed(View(), es) && RunDefined(View(), es)
      modifies hub, hub.sessions.Values, fds, vhci.ports
      ensures Valid() && View() == Run(old(View()), es) && Inv(View())
    {
      ghost var t := View();
      for i := 0 to |es|
        invariant Valid() && View() == Run(t, es[..i]) && Inv(View())
        invariant fresh(hub.sessions.Values - old(hub.sessions.Values))
      {
        assert Allowed(Run(t, es[..i]), es[i]) && Defined(Run(t, es[..i]), es[i]);
        HandleEvent(es[i]);
        RunExtends(t, es, i);
      }
      assert es[..|es|] == es;
    }
  }
}
