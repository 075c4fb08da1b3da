/**
  What every run of the daemon's event loop keeps: index agreement, conservation of
  descriptors, and the port discipline.
 */
module SessionInvariant {
  import opened Wire
  import opened SessionTable

  // ── The invariant ──────────────────────────────────────────────────────────

  /** vhci_fd_map_ points exactly at the live sessions, each under its own descriptor. */
  ghost predicate VhciExact(sessions: map<Byte, Session>, index: map<nat, Ptr>) {
    && (forall d :: d in sessions ==> sessions[d].vhciFd in index && index[sessions[d].vhciFd] == Live(d))
    && (forall fd :: fd in index ==> index[fd].Live? && index[fd].dev in sessions
                                     && sessions[index[fd].dev].vhciFd == fd)
  }

  /** The same for tcp_fd_map_, but for entries that dangle. */
  ghost predicate TcpAgrees(sessions: map<Byte, Session>, index: map<nat, Ptr>) {
    && (forall d :: d in sessions ==> sessions[d].tcp.Some? && sessions[d].tcp.value in index
                                      && index[sessions[d].tcp.value] == Live(d))
    && (forall fd :: fd in index && index[fd].Live? ==>
          index[fd].dev in sessions && sessions[index[fd].dev].tcp == Some(fd))
  }

  ghost predicate NoDangling(index: map<nat, Ptr>) {
    forall fd :: fd in index ==> index[fd].Live?
  }

  ghost predicate IndexAgreement(t: Table) {
    VhciExact(t.sessions, t.byVhci) && TcpAgrees(t.sessions, t.byTcp) && NoDangling(t.byTcp)
  }

  /** All descriptors held by sessions. */
  ghost function SessionFds(sessions: map<Byte, Session>): set<nat> {
    set d, fd | d in sessions && fd in Fds(sessions[d]) :: fd
  }

  ghost predicate Distinct(s: Session) {
    s.tcp.Some? && s.vhciFd != s.kernelFd && s.vhciFd != s.tcp.value && s.kernelFd != s.tcp.value
  }

  /**
    The open descriptors are the disjoint union of the pending sockets, the three
    descriptors of each session, and `extra` (held by a local variable in mid-step).
   */
  ghost predicate FdsOwned(sessions: map<Byte, Session>, pending: set<nat>, open: set<nat>, extra: set<nat>) {
    && (forall d :: d in sessions ==> Distinct(sessions[d]))
    && (forall d, d' :: d in sessions && d' in sessions && d != d' ==> Fds(sessions[d]) !! Fds(sessions[d']))
    && pending !! SessionFds(sessions) && extra !! pending && extra !! SessionFds(sessions)
    && open == pending + SessionFds(sessions) + extra
  }

  ghost function LivePorts(sessions: map<Byte, Session>): set<nat> {
    set d | d in sessions :: sessions[d].port
  }

  /** Live sessions hold different ports, all marked in use. */
  ghost predicate PortsHeld(sessions: map<Byte, Session>, ports: set<nat>) {
    && (forall d :: d in sessions ==> sessions[d].port in ports)
    && (forall d, d' :: d in sessions && d' in sessions && sessions[d].port == sessions[d'].port ==> d == d')
    && (forall p :: p in ports ==> p < MAX_PORTS)
  }

  /** Ports marked in use that no live session holds. */
  ghost function Orphans(sessions: map<Byte, Session>, ports: set<nat>): set<nat> {
    ports - LivePorts(sessions)
  }

  ghost predicate Inv(t: Table) {
    && VhciExact(t.sessions, t.byVhci) && TcpAgrees(t.sessions, t.byTcp)
    && FdsOwned(t.sessions, t.pending, t.open, {}) && PortsHeld(t.sessions, t.ports)
  }

  // ── The environment ────────────────────────────────────────────────────────

  /** Descriptors still open when the step reaches its socketpair call. */
  ghost function OpenAtSocketpair(t: Table, e: Event): set<nat> {
    if e.Accept? then t.open
    else if e.hangup && e.fd in t.byVhci && t.byVhci[e.fd].Live? && t.byVhci[e.fd].dev in t.sessions
    then ResetRemoved(t, t.byVhci[e.fd].dev).open
    else if e.outcome.msg.Connect? then OnDisconnect(t, e.outcome.msg.dev, e.outcome.detachOk).open
    else t.open
  }

  /** The system hands out descriptors that are not open at that moment. */
  ghost predicate Allowed(t: Table, e: Event) {
    match e
    case Accept(conn) => conn.Some? ==> conn.value !in t.open
    case FdReady(fd, _, _, o) =>
      o.pair.Some? ==>
        && o.pair.value.kernelFd != o.pair.value.vhciFd
        && o.pair.value.kernelFd !in OpenAtSocketpair(t, e)
        && o.pair.value.vhciFd !in OpenAtSocketpair(t, e)
  }

  /** The step follows no dangling pointer; without dangling entries every step is defined. */
  ghost predicate Defined(t: Table, e: Event) {
    e.FdReady? && e.fd in t.byTcp && t.byTcp[e.fd].Dangling? ==> !e.hangup && (e.input ==> e.fd in t.pending)
  }

  /** A USB reset whose re-attach fails. */
  ghost predicate FailedReset(t: Table, e: Event) {
    && e.FdReady? && e.hangup && e.fd !in t.byTcp && e.fd in t.byVhci && t.byVhci[e.fd].Live?
    && t.byVhci[e.fd].dev in t.sessions && t.sessions[t.byVhci[e.fd].dev].tcp.Some?
    && !ReattachSucceeds(t, t.byVhci[e.fd].dev, e.outcome)
  }

  // ── Indexes ────────────────────────────────────────────────────────────────

  lemma VhciRemoved(m: map<Byte, Session>, index: map<nat, Ptr>, d: Byte)
    requires VhciExact(m, index) && d in m
    ensures VhciExact(m - {d}, Forget(index - {m[d].vhciFd}, d))
  {
    assert Forget(index - {m[d].vhciFd}, d) == index - {m[d].vhciFd};
  }

  lemma TcpRemoved(m: map<Byte, Session>, index: map<nat, Ptr>, d: Byte)
    requires TcpAgrees(m, index) && d in m
    ensures TcpAgrees(m - {d}, Forget(index - {m[d].tcp.value}, d))
    ensures NoDangling(index) ==> NoDangling(Forget(index - {m[d].tcp.value}, d))
  {
    assert Forget(index - {m[d].tcp.value}, d) == index - {m[d].tcp.value};
  }

  /** A removal that no longer sees the session's socket leaves its entry behind. */
  lemma TcpLeftBehind(m: map<Byte, Session>, index: map<nat, Ptr>, d: Byte)
    requires TcpAgrees(m, index) && d in m
    ensures TcpAgrees(m - {d}, Forget(index, d))
    ensures Forget(index, d) == index[m[d].tcp.value := Dangling]
  {
    assert Forget(index, d) == index[m[d].tcp.value := Dangling];
  }

  lemma VhciAdded(m: map<Byte, Session>, index: map<nat, Ptr>, d: Byte, s: Session)
    requires VhciExact(m, index) && d !in m
    requires forall d' :: d' in m ==> m[d'].vhciFd != s.vhciFd
    ensures VhciExact(m[d := s], index[s.vhciFd := Live(d)])
  {}

  lemma TcpAdded(m: map<Byte, Session>, index: map<nat, Ptr>, d: Byte, s: Session)
    requires TcpAgrees(m, index) && d !in m && s.tcp.Some?
    requires forall d' :: d' in m ==> m[d'].tcp != s.tcp
    ensures TcpAgrees(m[d := s], index[s.tcp.value := Live(d)])
    ensures NoDangling(index[s.tcp.value := Live(d)])
       <==> forall fd :: fd in index && fd != s.tcp.value ==> index[fd].Live?
  {
    var r := index[s.tcp.value := Live(d)];
    forall fd | fd in index && fd != s.tcp.value && NoDangling(r) ensures index[fd].Live? {
      assert fd in r && r[fd] == index[fd];
    }
  }

  // ── Descriptors ────────────────────────────────────────────────────────────

  lemma SessionFdsRemoved(m: map<Byte, Session>, d: Byte)
    requires d in m
    requires forall d' :: d' in m && d' != d ==> Fds(m[d]) !! Fds(m[d'])
    ensures SessionFds(m) == SessionFds(m - {d}) + Fds(m[d]) && SessionFds(m - {d}) !! Fds(m[d])
  {
    forall fd | fd in SessionFds(m) - Fds(m[d]) ensures fd in SessionFds(m - {d}) {
      var d' :| d' in m && fd in Fds(m[d']);
      assert d' in m - {d} && (m - {d})[d'] == m[d'];
    }
  }

  lemma SessionFdsAdded(m: map<Byte, Session>, d: Byte, s: Session)
    requires d !in m
    ensures SessionFds(m[d := s]) == SessionFds(m) + Fds(s)
  {
    var n := m[d := s];
    assert n[d] == s;
    forall fd | fd in SessionFds(m) ensures fd in SessionFds(n) {
      var d' :| d' in m && fd in Fds(m[d']);
      assert n[d'] == m[d'];
    }
  }

  /** A session out of the map leaves its descriptors with the caller. */
  lemma TakeOut(m: map<Byte, Session>, pending: set<nat>, open: set<nat>, d: Byte)
    requires FdsOwned(m, pending, open, {}) && d in m
    ensures FdsOwned(m - {d}, pending, open, Fds(m[d]))
  {
    SessionFdsRemoved(m, d);
  }

  lemma PutIn(m: map<Byte, Session>, pending: set<nat>, open: set<nat>, d: Byte, s: Session)
    requires FdsOwned(m, pending, open, Fds(s)) && d !in m && Distinct(s)
    ensures FdsOwned(m[d := s], pending, open, {})
  {
    SessionFdsAdded(m, d, s);
    var n := m[d := s];
    forall e, f | e in n && f in n && e != f ensures Fds(n[e]) !! Fds(n[f]) {
      if e == d { assert Fds(m[f]) <= SessionFds(m); }
      if f == d { assert Fds(m[e]) <= SessionFds(m); }
    }
  }

  lemma TakePending(m: map<Byte, Session>, pending: set<nat>, open: set<nat>, fd: nat)
    requires FdsOwned(m, pending, open, {}) && fd in pending
    ensures FdsOwned(m, pending - {fd}, open, {fd})
  {}

  lemma Close(m: map<Byte, Session>, pending: set<nat>, open: set<nat>, extra: set<nat>, fds: set<nat>)
    requires FdsOwned(m, pending, open, extra) && fds <= extra
    ensures FdsOwned(m, pending, open - fds, extra - fds)
  {}

  lemma Opened(m: map<Byte, Session>, pending: set<nat>, open: set<nat>, extra: set<nat>, fds: set<nat>)
    requires FdsOwned(m, pending, open, extra) && fds !! open
    ensures FdsOwned(m, pending, open + fds, extra + fds)
  {}

  lemma HeldLocally(m: map<Byte, Session>, pending: set<nat>, open: set<nat>, s: Session)
    requires Distinct(s) && FdsOwned(m, pending, open, Fds(s))
    ensures forall d :: d in m ==> m[d].vhciFd != s.vhciFd && m[d].tcp != s.tcp
  {
    forall d | d in m ensures m[d].vhciFd != s.vhciFd && m[d].tcp != s.tcp {
      assert m[d].vhciFd in Fds(m[d]) && Fds(m[d]) <= SessionFds(m);
      assert m[d].tcp.value in Fds(m[d]);
    }
  }

  // ── Ports ──────────────────────────────────────────────────────────────────

  lemma PortsRemoved(m: map<Byte, Session>, ports: set<nat>, d: Byte)
    requires PortsHeld(m, ports) && d in m
    ensures PortsHeld(m - {d}, ports) && Orphans(m - {d}, ports) == Orphans(m, ports) + {m[d].port}
    ensures PortsHeld(m - {d}, ports - {m[d].port}) && Orphans(m - {d}, ports - {m[d].port}) == Orphans(m, ports)
  {
    forall p | p in LivePorts(m) && p != m[d].port ensures p in LivePorts(m - {d}) {
      var d' :| d' in m && m[d'].port == p;
      assert d' in m - {d} && (m - {d})[d'].port == p;
    }
    assert LivePorts(m - {d}) == LivePorts(m) - {m[d].port};
  }

  lemma PortsAdded(m: map<Byte, Session>, ports: set<nat>, d: Byte, s: Session)
    requires PortsHeld(m, ports) && d !in m && s.port < MAX_PORTS && s.port !in ports
    ensures PortsHeld(m[d := s], ports + {s.port}) && Orphans(m[d := s], ports + {s.port}) == Orphans(m, ports)
  {
    var n := m[d := s];
    assert n[d].port == s.port;
    forall p | p in LivePorts(m) ensures p in LivePorts(n) {
      var d' :| d' in m && m[d'].port == p;
      assert n[d'].port == p;
    }
    assert LivePorts(n) == LivePorts(m) + {s.port};
  }

  lemma PortLeftBehind(m: map<Byte, Session>, ports: set<nat>, port: nat)
    requires PortsHeld(m, ports) && port < MAX_PORTS && port !in ports
    ensures PortsHeld(m, ports + {port}) && Orphans(m, ports + {port}) == Orphans(m, ports) + {port}
  {}

  // ── Each operation ─────────────────────────────────────────────────────────

  /** What a step from `t` to `r` keeps, beside turning the ports `orphaned` into orphans. */
  ghost predicate Kept(t: Table, r: Table, orphaned: set<nat>) {
    && Inv(r) && (NoDangling(t.byTcp) ==> NoDangling(r.byTcp))
    && Orphans(r.sessions, r.ports) == Orphans(t.sessions, t.ports) + orphaned
  }

  lemma RemoveKeeps(t: Table, dev: Byte)
    requires Inv(t) && dev in t.sessions
    ensures Kept(t, RemoveSession(t, dev), {t.sessions[dev].port})
  {
    VhciRemoved(t.sessions, t.byVhci, dev);
    TcpRemoved(t.sessions, t.byTcp, dev);
    TakeOut(t.sessions, t.pending, t.open, dev);
    Close(t.sessions - {dev}, t.pending, t.open, Fds(t.sessions[dev]), Fds(t.sessions[dev]));
    PortsRemoved(t.sessions, t.ports, dev);
  }

  ghost function FailedDetach(t: Table, dev: Byte, detachOk: bool): set<nat> {
    if dev in t.sessions && !detachOk then {t.sessions[dev].port} else {}
  }

  lemma DisconnectKeeps(t: Table, dev: Byte, detachOk: bool)
    requires Inv(t)
    ensures Kept(t, OnDisconnect(t, dev, detachOk), FailedDetach(t, dev, detachOk))
    ensures dev !in OnDisconnect(t, dev, detachOk).sessions
  {
    if dev in t.sessions {
      RemoveKeeps(t, dev);
      PortsRemoved(t.sessions, t.ports, dev);
    }
  }

  /** A fresh socketpair and a free port, for a connection held by the caller. */
  lemma AttachedKeeps(t: Table, dev: Byte, conn: nat, p: Pair, port: nat)
    requires VhciExact(t.sessions, t.byVhci) && TcpAgrees(t.sessions, t.byTcp) && PortsHeld(t.sessions, t.ports)
    requires FdsOwned(t.sessions, t.pending, t.open, {conn}) && dev !in t.sessions
    requires port < MAX_PORTS && port !in t.ports
    requires p.kernelFd != p.vhciFd && p.kernelFd !in t.open && p.vhciFd !in t.open
    ensures var r := Attached(t, dev, conn, p, port);
            && Inv(r) && Orphans(r.sessions, r.ports) == Orphans(t.sessions, t.ports)
            && (NoDangling(r.byTcp) <==> forall fd :: fd in t.byTcp && fd != conn ==> t.byTcp[fd].Live?)
  {
    var s := Session(port, p.vhciFd, p.kernelFd, Some(conn));
    var open := t.open + {p.kernelFd, p.vhciFd};
    assert conn in t.open;
    Opened(t.sessions, t.pending, t.open, {conn}, {p.kernelFd, p.vhciFd});
    assert {conn} + {p.kernelFd, p.vhciFd} == Fds(s);
    HeldLocally(t.sessions, t.pending, open, s);
    VhciAdded(t.sessions, t.byVhci, dev, s);
    TcpAdded(t.sessions, t.byTcp, dev, s);
    PutIn(t.sessions, t.pending, open, dev, s);
    PortsAdded(t.sessions, t.ports, dev, s);
  }

  ghost predicate FreshPair(o: Outcome, open: set<nat>) {
    o.pair.Some? ==>
      && o.pair.value.kernelFd != o.pair.value.vhciFd
      && o.pair.value.kernelFd !in open && o.pair.value.vhciFd !in open
  }

  /** The port attached and then left behind because the connection was not found. */
  ghost function LostPort(t: Table, fd: nat, o: Outcome): set<nat> {
    var port := Attach(t.ports, o.attachOk);
    if fd in t.pending && o.pair.Some? && port.Some? && fd % 0x1_0000 !in t.pending then {port.value} else {}
  }

  lemma AttachKeeps(t: Table, dev: Byte, fd: nat, o: Outcome)
    requires Inv(t) && dev !in t.sessions && fd in t.pending && FreshPair(o, t.open)
    ensures Kept(t, DoUsbAttach(t, dev, fd, o), LostPort(t, fd, o))
  {
    var port, conn := Attach(t.ports, o.attachOk), fd % 0x1_0000;
    if o.pair.Some? && port.Some? {
      if conn in t.pending {
        TakePending(t.sessions, t.pending, t.open, conn);
        AttachedKeeps(t.(pending := t.pending - {conn}), dev, conn, o.pair.value, port.value);
      } else {
        PortLeftBehind(t.sessions, t.ports, port.value);
      }
    }
  }

  lemma ConnectKeeps(t: Table, fd: nat, dev: Byte, o: Outcome)
    requires Inv(t) && FreshPair(o, OnDisconnect(t, dev, o.detachOk).open)
    ensures Kept(t, OnConnect(t, fd, dev, o),
                 FailedDetach(t, dev, o.detachOk) + LostPort(OnDisconnect(t, dev, o.detachOk), fd, o))
  {
    var u := OnDisconnect(t, dev, o.detachOk);
    DisconnectKeeps(t, dev, o.detachOk);
    if fd in u.pending {
      AttachKeeps(u, dev, fd, o);
      KeptTwice(t, u, OnConnect(t, fd, dev, o), FailedDetach(t, dev, o.detachOk), LostPort(u, fd, o));
    } else {
      assert FailedDetach(t, dev, o.detachOk) + {} == FailedDetach(t, dev, o.detachOk);
    }
  }

  lemma KeptTwice(t: Table, u: Table, r: Table, a: set<nat>, b: set<nat>)
    requires Kept(t, u, a) && Kept(u, r, b)
    ensures Kept(t, r, a + b)
  {}

  /** A reset takes the session out, frees its port, and leaves its connection with the caller. */
  lemma ResetRemovedKeeps(t: Table, dev: Byte)
    requires Inv(t) && dev in t.sessions
    ensures var r, conn := ResetRemoved(t, dev), t.sessions[dev].tcp.value;
            && r.sessions == t.sessions - {dev}
            && VhciExact(r.sessions, r.byVhci) && TcpAgrees(r.sessions, r.byTcp) && PortsHeld(r.sessions, r.ports)
            && FdsOwned(r.sessions, r.pending, r.open, {conn})
            && r.byTcp == t.byTcp[conn := Dangling]
            && t.sessions[dev].port !in r.ports && t.sessions[dev].port < MAX_PORTS
            && Orphans(r.sessions, r.ports) == Orphans(t.sessions, t.ports)
  {
    var r, s := ResetRemoved(t, dev), t.sessions[dev];
    assert r.sessions == t.sessions - {dev};
    VhciRemoved(t.sessions, t.byVhci, dev);
    TcpLeftBehind(t.sessions, t.byTcp, dev);
    TakeOut(t.sessions, t.pending, t.open, dev);
    Close(t.sessions - {dev}, t.pending, t.open, Fds(s), {s.vhciFd, s.kernelFd});
    assert Fds(s) - {s.vhciFd, s.kernelFd} == {s.tcp.value};
    assert Fds(s.(tcp := None)) == {s.vhciFd, s.kernelFd};
    PortsRemoved(t.sessions, t.ports, dev);
  }

  /** The freed port is free again, so only a failed socketpair or sysfs write stops a re-attach. */
  lemma ReattachNeverOutOfPorts(t: Table, dev: Byte, o: Outcome)
    requires Inv(t) && dev in t.sessions
    ensures ReattachSucceeds(t, dev, o) <==> o.pair.Some? && o.attachOk
  {
    ResetRemovedKeeps(t, dev);
  }

  /** A reset keeps the invariant; it keeps index agreement exactly when the re-attach succeeds. */
  lemma ResetKeeps(t: Table, dev: Byte, o: Outcome)
    requires Inv(t) && dev in t.sessions && FreshPair(o, ResetRemoved(t, dev).open)
    ensures var r := OnUsbReset(t, dev, o);
            && Inv(r) && Orphans(r.sessions, r.ports) == Orphans(t.sessions, t.ports)
            && (NoDangling(t.byTcp) ==> (NoDangling(r.byTcp) <==> ReattachSucceeds(t, dev, o)))
  {
    var r, conn := ResetRemoved(t, dev), t.sessions[dev].tcp.value;
    ResetRemovedKeeps(t, dev);
    if ReattachSucceeds(t, dev, o) {
      AttachedKeeps(r, dev, conn, o.pair.value, Attach(r.ports, o.attachOk).value);
      OneDangles(t.byTcp, r.byTcp, conn);
    } else {
      CloseLast(r.sessions, r.pending, r.open, conn);
      OneDangles(t.byTcp, r.byTcp, conn);
    }
  }

  lemma OneDangles(index: map<nat, Ptr>, r: map<nat, Ptr>, fd: nat)
    requires r == index[fd := Dangling]
    ensures !NoDangling(r)
    ensures NoDangling(index) ==> forall f :: f in r && f != fd ==> r[f].Live?
  {
    assert fd in r && !r[fd].Live?;
  }

  lemma CloseLast(m: map<Byte, Session>, pending: set<nat>, open: set<nat>, fd: nat)
    requires FdsOwned(m, pending, open, {fd})
    ensures FdsOwned(m, pending, open - {fd}, {})
  {
    Close(m, pending, open, {fd}, {fd});
    assert {fd} - {fd} == {};
  }

  // ── Every step ─────────────────────────────────────────────────────────────

  /** Ports a step leaves in use with no session: teardowns that skip detach, or whose sysfs write fails. */
  ghost function OrphanedBy(t: Table, e: Event): set<nat> {
    match e
    case Accept(_) => {}
    case FdReady(fd, hangup, input, o) =>
      if fd in t.byTcp && hangup then SkippedDetach(t, t.byTcp[fd])
      else if fd !in t.byTcp && fd in t.byVhci then
        (if !hangup && input && !o.handlerOk then SkippedDetach(t, t.byVhci[fd]) else {})
      else if input then OrphanedByMessage(t, fd, o)
      else {}
  }

  ghost function SkippedDetach(t: Table, p: Ptr): set<nat> {
    if p.Live? && p.dev in t.sessions then {t.sessions[p.dev].port} else {}
  }

  ghost function OrphanedByMessage(t: Table, fd: nat, o: Outcome): set<nat> {
    if fd !in t.pending && !Indexed(t, fd) then {}
    else match o.msg
      case ReadFailed =>
        if fd !in t.pending then FailedDetach(t, t.byTcp[fd].dev, o.detachOk) else {}
      case Connect(dev) => FailedDetach(t, dev, o.detachOk) + LostPort(OnDisconnect(t, dev, o.detachOk), fd, o)
      case Disconnect(dev) => FailedDetach(t, dev, o.detachOk)
      case NoChange => {}
  }

  lemma PendingClosedKeeps(t: Table, fd: nat)
    requires Inv(t) && fd in t.pending
    ensures Kept(t, t.(pending := t.pending - {fd}, open := t.open - {fd}), {})
  {
    TakePending(t.sessions, t.pending, t.open, fd);
    CloseLast(t.sessions, t.pending - {fd}, t.open, fd);
  }

  lemma AcceptKeeps(t: Table, fd: nat)
    requires Inv(t) && fd !in t.open
    ensures Kept(t, t.(pending := t.pending + {fd}, open := t.open + {fd}), {})
  {}

  lemma ReadableKeeps(t: Table, fd: nat, o: Outcome)
    requires Inv(t)
    requires o.msg.Connect? ==> FreshPair(o, OnDisconnect(t, o.msg.dev, o.detachOk).open)
    ensures Kept(t, OnTcpReadable(t, fd, o), OrphanedByMessage(t, fd, o))
  {
    if (fd !in t.pending && !Indexed(t, fd)) || o.msg.ReadFailed? {
      if fd in t.pending {
        PendingClosedKeeps(t, fd);
      } else if Indexed(t, fd) {
        DisconnectKeeps(t, t.byTcp[fd].dev, o.detachOk);
      }
    } else if o.msg.Connect? {
      ConnectKeeps(t, fd, o.msg.dev, o);
    } else if o.msg.Disconnect? {
      DisconnectKeeps(t, o.msg.dev, o.detachOk);
    }
  }

  /**
    Every step the system allows keeps the invariant and orphans exactly the ports named by
    OrphanedBy; from full index agreement it keeps it unless it is a failed USB reset.
   */
  lemma StepKeeps(t: Table, e: Event)
    requires Inv(t) && Allowed(t, e)
    ensures Inv(Step(t, e))
    ensures Orphans(Step(t, e).sessions, Step(t, e).ports) == Orphans(t.sessions, t.ports) + OrphanedBy(t, e)
    ensures NoDangling(t.byTcp) ==> (NoDangling(Step(t, e).byTcp) <==> !FailedReset(t, e))
  {
    match e
    case Accept(conn) =>
      if conn.Some? { AcceptKeeps(t, conn.value); }
    case FdReady(fd, hangup, input, o) =>
      if fd !in t.byTcp && fd in t.byVhci && hangup {
        ResetReadyKeeps(t, fd, input, o);
      } else {
        FdReadyKeeps(t, fd, hangup, input, o);
      }
  }

  lemma ResetReadyKeeps(t: Table, fd: nat, input: bool, o: Outcome)
    requires Inv(t) && fd !in t.byTcp && fd in t.byVhci && Allowed(t, FdReady(fd, true, input, o))
    ensures var r := OnFdReady(t, fd, true, input, o);
            && Inv(r) && Orphans(r.sessions, r.ports) == Orphans(t.sessions, t.ports) + {}
            && (NoDangling(t.byTcp) ==> (NoDangling(r.byTcp) <==> !FailedReset(t, FdReady(fd, true, input, o))))
  {
    ResetKeeps(t, t.byVhci[fd].dev, o);
  }

  lemma FdReadyKeeps(t: Table, fd: nat, hangup: bool, input: bool, o: Outcome)
    requires Inv(t) && Allowed(t, FdReady(fd, hangup, input, o))
    requires fd in t.byTcp || fd !in t.byVhci || !hangup
    ensures Kept(t, OnFdReady(t, fd, hangup, input, o), OrphanedBy(t, FdReady(fd, hangup, input, o)))
    ensures !FailedReset(t, FdReady(fd, hangup, input, o))
  {
    if fd in t.byTcp && hangup {
      TcpHangupKeeps(t, fd);
    } else if fd !in t.byTcp && fd in t.byVhci {
      HandlerKeeps(t, fd, input, o);
    } else if input {
      ReadableKeeps(t, fd, o);
    }
  }

  lemma TcpHangupKeeps(t: Table, fd: nat)
    requires Inv(t) && fd in t.byTcp
    ensures Kept(t, if t.byTcp[fd].Live? then RemoveSession(t, t.byTcp[fd].dev) else t, SkippedDetach(t, t.byTcp[fd]))
  {
    if t.byTcp[fd].Live? { RemoveKeeps(t, t.byTcp[fd].dev); }
  }

  lemma HandlerKeeps(t: Table, fd: nat, input: bool, o: Outcome)
    requires Inv(t) && fd in t.byVhci
    ensures Kept(t, if input && !o.handlerOk then RemoveSession(t, t.byVhci[fd].dev) else t,
                 if input && !o.handlerOk then SkippedDetach(t, t.byVhci[fd]) else {})
  {
    if input && !o.handlerOk { RemoveKeeps(t, t.byVhci[fd].dev); }
  }
}
