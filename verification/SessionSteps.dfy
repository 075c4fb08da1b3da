/**
  What each event of main's loop leaves behind, told by the sessions, the pending sockets, the
  ports, the open descriptors and the stale index entries alone.  With the invariant, which
  fixes the live entries of both indexes, this is the whole table.
 */
module SessionSteps {
  import opened Wire
  import opened SessionTable
  import opened SessionInvariant

  /** The descriptors whose entry in tcp_fd_map_ dangles. */
  ghost function Stale(index: map<nat, Ptr>): set<nat> {
    set fd | fd in index && index[fd].Dangling?
  }

  /** Everything about a table but its live index entries. */
  ghost predicate Is(r: Table, sessions: map<Byte, Session>, pending: set<nat>, ports: set<nat>, open: set<nat>,
                     stale: set<nat>) {
    && r.sessions == sessions && r.pending == pending && r.ports == ports && r.open == open
    && Stale(r.byTcp) == stale
  }

  /** With the invariant, that is the whole table. */
  lemma TablesAgree(t: Table, r: Table)
    requires Inv(t) && Inv(r) && Is(r, t.sessions, t.pending, t.ports, t.open, Stale(t.byTcp))
    ensures t == r
  {
    VhciAgree(t.sessions, t.byVhci, r.byVhci);
    TcpAgree(t.sessions, t.byTcp, r.byTcp);
  }

  lemma VhciAgree(m: map<Byte, Session>, a: map<nat, Ptr>, b: map<nat, Ptr>)
    requires VhciExact(m, a) && VhciExact(m, b)
    ensures a == b
  {
    assert forall fd :: fd in a ==> fd in b && a[fd] == b[fd];
    assert forall fd :: fd in b ==> fd in a;
  }

  lemma TcpAgree(m: map<Byte, Session>, a: map<nat, Ptr>, b: map<nat, Ptr>)
    requires TcpAgrees(m, a) && TcpAgrees(m, b) && Stale(a) == Stale(b)
    ensures a == b
  {
    forall fd | fd in a ensures fd in b && a[fd] == b[fd] {
      if a[fd].Dangling? { assert fd in Stale(b); }
    }
    forall fd | fd in b ensures fd in a {
      if b[fd].Dangling? { assert fd in Stale(a); }
    }
  }

  ghost function Three(s: Session): set<nat>
    requires s.tcp.Some?
  {
    {s.vhciFd, s.kernelFd, s.tcp.value}
  }

  ghost predicate LeastFree(p: nat, ports: set<nat>) {
    p < 8 && p !in ports && forall q: nat :: q < p ==> q in ports
  }

  ghost predicate PortLeft(ports: set<nat>) {
    exists p: nat :: p < 8 && p !in ports
  }

  /** The socket belongs to the device's session. */
  ghost predicate Owns(t: Table, dev: Byte, fd: nat) {
    dev in t.sessions && t.sessions[dev].tcp == Some(fd)
  }

  ghost predicate Known(t: Table, fd: nat) {
    fd in t.pending || exists dev :: Owns(t, dev, fd)
  }

  // ── Without a device ───────────────────────────────────────────────────────

  /** The sessions, open descriptors and ports once `dev` is disconnected. */
  ghost function SessionsWithout(t: Table, dev: Byte): map<Byte, Session> {
    t.sessions - {dev}
  }

  ghost function OpenWithout(t: Table, dev: Byte): set<nat>
    requires Inv(t)
  {
    if dev in t.sessions then t.open - Three(t.sessions[dev]) else t.open
  }

  ghost function PortsWithout(t: Table, dev: Byte, freed: bool): set<nat> {
    if dev in t.sessions && freed then t.ports - {t.sessions[dev].port} else t.ports
  }

  lemma StaleRemoved(m: map<Byte, Session>, index: map<nat, Ptr>, dev: Byte)
    requires TcpAgrees(m, index) && dev in m
    ensures Stale(Forget(index - {m[dev].tcp.value}, dev)) == Stale(index)
  {
    assert Forget(index - {m[dev].tcp.value}, dev) == index - {m[dev].tcp.value};
  }

  lemma StaleAdded(index: map<nat, Ptr>, fd: nat, dev: Byte)
    ensures Stale(index[fd := Live(dev)]) == Stale(index) - {fd}
    ensures Stale(index[fd := Dangling]) == Stale(index) + {fd}
  {}

  lemma RemovedIs(t: Table, dev: Byte)
    requires Inv(t)
    ensures Is(RemoveSession(t, dev), SessionsWithout(t, dev), t.pending, t.ports, OpenWithout(t, dev), Stale(t.byTcp))
  {
    if dev in t.sessions {
      StaleRemoved(t.sessions, t.byTcp, dev);
      FdsAre(t.sessions[dev]);
    } else {
      assert t.sessions - {dev} == t.sessions;
    }
  }

  lemma FdsAre(s: Session)
    ensures s.tcp.Some? ==> Fds(s) == Three(s)
    ensures s.tcp.None? ==> Fds(s) == {s.vhciFd, s.kernelFd}
  {}

  lemma DisconnectedIs(t: Table, dev: Byte, detachOk: bool)
    requires Inv(t)
    ensures Is(OnDisconnect(t, dev, detachOk), SessionsWithout(t, dev), t.pending, PortsWithout(t, dev, detachOk),
               OpenWithout(t, dev), Stale(t.byTcp))
  {
    RemovedIs(t, dev);
  }

  // ── Messages ───────────────────────────────────────────────────────────────

  lemma OwnedIndexed(t: Table, fd: nat)
    requires Inv(t)
    ensures Known(t, fd) <==> fd in t.pending || Indexed(t, fd)
    ensures forall dev :: Owns(t, dev, fd) ==> Indexed(t, fd) && t.byTcp[fd] == Live(dev) && fd !in t.pending
    ensures Known(t, fd) ==> fd !in t.byVhci
  {
    forall dev | Owns(t, dev, fd) ensures Indexed(t, fd) && t.byTcp[fd] == Live(dev) && fd !in t.pending {
      assert fd in Fds(t.sessions[dev]);
    }
    if Indexed(t, fd) { assert Owns(t, t.byTcp[fd].dev, fd); }
    if Known(t, fd) { NotVhci(t, fd); }
  }

  lemma NotVhci(t: Table, fd: nat)
    requires Inv(t) && Known(t, fd)
    ensures fd !in t.byVhci
  {
    forall d | d in t.sessions ensures t.sessions[d].vhciFd != fd {
      assert t.sessions[d].vhciFd in Fds(t.sessions[d]);
      forall dev | Owns(t, dev, fd) ensures t.sessions[d].vhciFd != fd {
        assert fd in Fds(t.sessions[dev]);
      }
    }
  }

  /** A message on a known socket, without a hang-up, is handled as onTcpReadable handles it. */
  lemma Readable(t: Table, fd: nat, o: Outcome)
    requires Inv(t) && Known(t, fd)
    ensures Step(t, FdReady(fd, false, true, o)) == OnTcpReadable(t, fd, o)
  {
    OwnedIndexed(t, fd);
  }

  /** DISCONNECT: the device's session goes, with its three descriptors, and its port exactly if detach succeeds. */
  lemma DisconnectStep(t: Table, fd: nat, dev: Byte, o: Outcome)
    requires Inv(t) && Known(t, fd) && o.msg == Disconnect(dev)
    ensures Is(Step(t, FdReady(fd, false, true, o)),
               t.sessions - {dev}, t.pending,
               if dev in t.sessions && o.detachOk then t.ports - {t.sessions[dev].port} else t.ports,
               if dev in t.sessions then t.open - Three(t.sessions[dev]) else t.open,
               Stale(t.byTcp))
  {
    Readable(t, fd, o);
    OwnedIndexed(t, fd);
    DisconnectedIs(t, dev, o.detachOk);
  }

  /** A failed read: a pending socket is closed; a session's socket takes exactly that session with it. */
  lemma ReadFailedStep(t: Table, fd: nat, o: Outcome)
    requires Inv(t) && Known(t, fd) && o.msg == ReadFailed
    ensures fd in t.pending ==>
              Is(Step(t, FdReady(fd, false, true, o)),
                 t.sessions, t.pending - {fd}, t.ports, t.open - {fd}, Stale(t.byTcp))
    ensures forall dev :: Owns(t, dev, fd) ==>
              Is(Step(t, FdReady(fd, false, true, o)), t.sessions - {dev}, t.pending,
                 if o.detachOk then t.ports - {t.sessions[dev].port} else t.ports,
                 t.open - Three(t.sessions[dev]), Stale(t.byTcp))
  {
    Readable(t, fd, o);
    OwnedIndexed(t, fd);
    forall dev | Owns(t, dev, fd)
      ensures Is(OnTcpReadable(t, fd, o), t.sessions - {dev}, t.pending,
                 if o.detachOk then t.ports - {t.sessions[dev].port} else t.ports,
                 t.open - Three(t.sessions[dev]), Stale(t.byTcp))
    {
      DisconnectedIs(t, dev, o.detachOk);
    }
  }

  /** Any other message changes nothing. */
  lemma OtherMessageStep(t: Table, fd: nat, o: Outcome)
    requires Inv(t) && Known(t, fd) && o.msg == NoChange
    ensures Step(t, FdReady(fd, false, true, o)) == t
  {
    Readable(t, fd, o);
  }

  /** The device is disconnected and no more: its CONNECT found no socketpair, no port or no pending socket. */
  ghost predicate OnlyDisconnected(t: Table, r: Table, dev: Byte, o: Outcome)
    requires Inv(t)
  {
    Is(r, SessionsWithout(t, dev), t.pending, PortsWithout(t, dev, o.detachOk), OpenWithout(t, dev), Stale(t.byTcp))
  }

  /**
    CONNECT: the device's old session goes first.  Then, if the socket is pending and there is a
    socketpair and a port, the least free port is taken; the session gets it, the second end of
    the pair as its own, the first as the kernel's, and the pending socket that the number, cut
    to 16 bits, names.  If there is none of that name, only the port is lost.
   */
  lemma ConnectStep(t: Table, fd: nat, dev: Byte, o: Outcome) returns (p: nat)
    requires Inv(t) && Known(t, fd) && o.msg == Connect(dev)
    ensures var r, ports := Step(t, FdReady(fd, false, true, o)), PortsWithout(t, dev, o.detachOk);
            var conn := fd % 0x1_0000;
            if fd !in t.pending || o.pair.None? || !o.attachOk || !PortLeft(ports) then OnlyDisconnected(t, r, dev, o)
            else if conn !in t.pending then
              && LeastFree(p, ports)
              && Is(r, SessionsWithout(t, dev), t.pending, ports + {p}, OpenWithout(t, dev), Stale(t.byTcp))
            else
              && LeastFree(p, ports)
              && Is(r, t.sessions[dev := Session(p, o.pair.value.vhciFd, o.pair.value.kernelFd, Some(conn))],
                    t.pending - {conn}, ports + {p},
                    OpenWithout(t, dev) + {o.pair.value.kernelFd, o.pair.value.vhciFd}, Stale(t.byTcp) - {conn})
  {
    Readable(t, fd, o);
    OwnedIndexed(t, fd);
    DisconnectedIs(t, dev, o.detachOk);
    p := 0;
    if fd in t.pending && o.pair.Some? {
      var u := OnDisconnect(t, dev, o.detachOk);
      p := AttachStep(u, dev, fd, o);
      Replaced(t.sessions, dev, Session(p, o.pair.value.vhciFd, o.pair.value.kernelFd, Some(fd % 0x1_0000)));
    }
  }

  lemma Replaced(m: map<Byte, Session>, dev: Byte, s: Session)
    ensures (m - {dev})[dev := s] == m[dev := s]
  {}

  lemma AttachStep(u: Table, dev: Byte, fd: nat, o: Outcome) returns (p: nat)
    requires dev !in u.sessions && o.pair.Some?
    ensures var r, conn := DoUsbAttach(u, dev, fd, o), fd % 0x1_0000;
            if !o.attachOk || !PortLeft(u.ports) then r == u
            else if conn !in u.pending then
              LeastFree(p, u.ports) && Is(r, u.sessions, u.pending, u.ports + {p}, u.open, Stale(u.byTcp))
            else
              && LeastFree(p, u.ports)
              && Is(r, u.sessions[dev := Session(p, o.pair.value.vhciFd, o.pair.value.kernelFd, Some(conn))],
                    u.pending - {conn}, u.ports + {p}, u.open + {o.pair.value.kernelFd, o.pair.value.vhciFd},
                    Stale(u.byTcp) - {conn})
  {
    var port := Attach(u.ports, o.attachOk);
    AttachIs(u.ports, o.attachOk);
    StaleAdded(u.byTcp, fd % 0x1_0000, dev);
    p := if port.Some? then port.value else 0;
  }

  /** A port is found exactly when there is one and the sysfs write succeeds, and it is the least. */
  lemma AttachIs(ports: set<nat>, sysfsOk: bool)
    ensures Attach(ports, sysfsOk).Some? <==> sysfsOk && PortLeft(ports)
    ensures Attach(ports, sysfsOk).Some? ==> LeastFree(Attach(ports, sysfsOk).value, ports)
  {
    if sysfsOk && FreePort(ports, 0).Some? {
      assert FreePort(ports, 0).value !in ports;
    }
  }

  // ── The other events ───────────────────────────────────────────────────────

  /** A hang-up on a session's socket: the session goes and its port stays in use. */
  lemma TcpHangupStep(t: Table, fd: nat, dev: Byte, input: bool, o: Outcome)
    requires Inv(t) && Owns(t, dev, fd)
    ensures Is(Step(t, FdReady(fd, true, input, o)), t.sessions - {dev}, t.pending, t.ports,
               t.open - Three(t.sessions[dev]), Stale(t.byTcp))
  {
    OwnedIndexed(t, fd);
    RemovedIs(t, dev);
  }

  /** A handler error on a session's own end of the pair does the same; without an error nothing changes. */
  lemma HandlerStep(t: Table, dev: Byte, input: bool, o: Outcome)
    requires Inv(t) && dev in t.sessions && t.sessions[dev].vhciFd !in Stale(t.byTcp)
    ensures var r := Step(t, FdReady(t.sessions[dev].vhciFd, false, input, o));
            if input && !o.handlerOk then
              Is(r, t.sessions - {dev}, t.pending, t.ports, t.open - Three(t.sessions[dev]), Stale(t.byTcp))
            else r == t
  {
    OwnEnd(t, dev);
    RemovedIs(t, dev);
  }

  lemma OwnEnd(t: Table, dev: Byte)
    requires Inv(t) && dev in t.sessions && t.sessions[dev].vhciFd !in Stale(t.byTcp)
    ensures t.sessions[dev].vhciFd !in t.byTcp
  {
    var fd := t.sessions[dev].vhciFd;
    if fd in t.byTcp {
      assert Owns(t, t.byTcp[fd].dev, fd);
      NotVhci(t, fd);
    }
  }

  /**
    A hang-up on a session's own end is a USB reset.  With a socketpair and a successful write
    the device has a new session on the new pair, the same socket, and the least port free once
    its own is; otherwise the session and its three descriptors are gone, its port is free, and
    the index entry of its socket is stale.
   */
  lemma ResetStep(t: Table, dev: Byte, input: bool, o: Outcome) returns (p: nat)
    requires Inv(t) && dev in t.sessions && t.sessions[dev].vhciFd !in Stale(t.byTcp)
    ensures var s := t.sessions[dev];
            var r, ports := Step(t, FdReady(s.vhciFd, true, input, o)), t.ports - {s.port};
            if o.pair.Some? && o.attachOk then
              && LeastFree(p, ports)
              && Is(r, t.sessions[dev := Session(p, o.pair.value.vhciFd, o.pair.value.kernelFd, s.tcp)], t.pending,
                    ports + {p}, t.open - {s.vhciFd, s.kernelFd} + {o.pair.value.kernelFd, o.pair.value.vhciFd},
                    Stale(t.byTcp))
            else Is(r, t.sessions - {dev}, t.pending, ports, t.open - Three(s), Stale(t.byTcp) + {s.tcp.value})
  {
    var s := t.sessions[dev];
    OwnEnd(t, dev);
    ResetTakenOut(t, dev);
    ReattachNeverOutOfPorts(t, dev, o);
    p := ReattachIs(t, dev, o);
    ClosedThree(t.open, s);
  }

  lemma ClosedThree(open: set<nat>, s: Session)
    requires s.tcp.Some?
    ensures open - {s.vhciFd, s.kernelFd} - {s.tcp.value} == open - Three(s)
  {}

  /** The re-attach, from the table with the session taken out. */
  lemma ReattachIs(t: Table, dev: Byte, o: Outcome) returns (p: nat)
    requires Inv(t) && dev in t.sessions
    ensures var u, conn := ResetRemoved(t, dev), t.sessions[dev].tcp.value;
            if ReattachSucceeds(t, dev, o) then
              && LeastFree(p, u.ports)
              && Is(OnUsbReset(t, dev, o),
                    t.sessions[dev := Session(p, o.pair.value.vhciFd, o.pair.value.kernelFd, t.sessions[dev].tcp)],
                    u.pending, u.ports + {p}, u.open + {o.pair.value.kernelFd, o.pair.value.vhciFd},
                    Stale(u.byTcp) - {conn})
            else Is(OnUsbReset(t, dev, o), u.sessions, u.pending, u.ports, u.open - {conn}, Stale(u.byTcp))
  {
    var u := ResetRemoved(t, dev);
    var port := Attach(u.ports, o.attachOk);
    AttachIs(u.ports, o.attachOk);
    StaleAdded(u.byTcp, t.sessions[dev].tcp.value, dev);
    p := if port.Some? then port.value else 0;
    if o.pair.Some? {
      Replaced(t.sessions, dev, Session(p, o.pair.value.vhciFd, o.pair.value.kernelFd, t.sessions[dev].tcp));
      ResetRemovedKeeps(t, dev);
    }
  }

  lemma ResetTakenOut(t: Table, dev: Byte)
    requires Inv(t) && dev in t.sessions
    ensures var s := t.sessions[dev];
            && s.tcp.Some? && s.tcp.value !in Stale(t.byTcp)
            && Is(ResetRemoved(t, dev), t.sessions - {dev}, t.pending, t.ports - {s.port},
                  t.open - {s.vhciFd, s.kernelFd}, Stale(t.byTcp) + {s.tcp.value})
  {
    var s := t.sessions[dev];
    ResetRemovedKeeps(t, dev);
    FdsAre(s.(tcp := None));
    StaleAdded(t.byTcp, s.tcp.value, dev);
  }

  /** An accepted connection becomes pending and open; a failed accept changes nothing. */
  lemma AcceptStep(t: Table, conn: Option<nat>)
    ensures var new' := if conn.Some? then {conn.value} else {};
            Is(Step(t, Accept(conn)), t.sessions, t.pending + new', t.ports, t.open + new', Stale(t.byTcp))
  {}

  /** An event on a descriptor that is no session's and not pending changes nothing. */
  lemma UnknownStep(t: Table, fd: nat, hangup: bool, input: bool, o: Outcome)
    requires Inv(t) && !Known(t, fd) && forall dev :: dev in t.sessions ==> t.sessions[dev].vhciFd != fd
    ensures Step(t, FdReady(fd, hangup, input, o)) == t
  {
    OwnedIndexed(t, fd);
  }

  /** A ready event with neither flag changes nothing; on a pending socket a hang-up is not looked at. */
  lemma FlagsStep(t: Table, fd: nat, hangup: bool, input: bool, o: Outcome)
    requires Inv(t)
    ensures Step(t, FdReady(fd, false, false, o)) == t
    ensures fd in t.pending && fd !in Stale(t.byTcp) ==>
              Step(t, FdReady(fd, hangup, input, o)) == if input then Step(t, FdReady(fd, false, true, o)) else t
  {
    if fd in t.pending && fd !in Stale(t.byTcp) {
      OwnedIndexed(t, fd);
      if fd in t.byTcp {
        assert Owns(t, t.byTcp[fd].dev, fd);
      }
    }
  }
}
