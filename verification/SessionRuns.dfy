/**
  Theorems about whole runs of the daemon's event loop.
 */
module SessionRuns {
  import opened Wire
  import opened SessionTable
  import opened SessionInvariant

  /** Every descriptor the system hands out in the run is not open at that moment. */
  ghost predicate RunAllowed(t: Table, es: seq<Event>) {
    forall i :: 0 <= i < |es| ==> Allowed(Run(t, es[..i]), es[i])
  }

  /** No step of the run follows a dangling pointer; SessionTable gives such a step as no change. */
  ghost predicate RunDefined(t: Table, es: seq<Event>) {
    forall i :: 0 <= i < |es| ==> Defined(Run(t, es[..i]), es[i])
  }

  lemma UndefinedChangesNothing(t: Table, e: Event)
    requires !Defined(t, e)
    ensures Step(t, e) == t
  {}

  lemma RunPrefix(t: Table, es: seq<Event>, n: nat)
    requires n <= |es| && RunAllowed(t, es)
    ensures RunAllowed(t, es[..n])
  {
    forall i | 0 <= i < n ensures Allowed(Run(t, es[..n][..i]), es[..n][i]) {
      assert es[..n][..i] == es[..i];
      assert Allowed(Run(t, es[..i]), es[i]);
    }
  }

  /** The ports left in use without a session by the steps of the run. */
  ghost function OrphanedOver(t: Table, es: seq<Event>): set<nat>
    decreases |es|
  {
    if es == [] then {}
    else
      var n := |es| - 1;
      OrphanedOver(t, es[..n]) + OrphanedBy(Run(t, es[..n]), es[n])
  }

  /**
    Over every run, successful and failed attaches and re-attaches included: the live index
    entries agree with the sessions, the open descriptors are exactly the disjoint union of
    pending sockets and session descriptors, and the ports in use are exactly the live
    sessions', all different, the orphans there were, and those the run's steps orphaned.
   */
  lemma {:induction false} RunKeeps(t: Table, es: seq<Event>)
    requires Inv(t) && RunAllowed(t, es)
    ensures var r := Run(t, es);
            && Inv(r) && Orphans(r.sessions, r.ports) == Orphans(t.sessions, t.ports) + OrphanedOver(t, es)
            && r.ports == LivePorts(r.sessions) + (Orphans(t.sessions, t.ports) + OrphanedOver(t, es))
            && LivePorts(r.sessions) !! Orphans(t.sessions, t.ports) + OrphanedOver(t, es)
    decreases |es|
  {
    if es != [] {
      var n := |es| - 1;
      RunPrefix(t, es, n);
      RunKeeps(t, es[..n]);
      assert Allowed(Run(t, es[..n]), es[n]);
      StepGrows(Run(t, es[..n]), es[n], Run(t, es));
    }
    LiveOrOrphaned(Run(t, es).sessions, Run(t, es).ports);
  }

  lemma StepGrows(t: Table, e: Event, r: Table)
    requires Inv(t) && Allowed(t, e) && r == Step(t, e)
    ensures Inv(r) && Orphans(r.sessions, r.ports) == Orphans(t.sessions, t.ports) + OrphanedBy(t, e)
  {
    StepKeeps(t, e);
  }

  lemma LiveOrOrphaned(m: map<Byte, Session>, ports: set<nat>)
    requires PortsHeld(m, ports)
    ensures ports == LivePorts(m) + Orphans(m, ports) && LivePorts(m) !! Orphans(m, ports)
  {}

  /** The daemon starts in a state where all of it holds. */
  lemma EmptyOk()
    ensures Inv(EMPTY) && IndexAgreement(EMPTY) && Orphans(EMPTY.sessions, EMPTY.ports) == {}
  {
    assert SessionFds(EMPTY.sessions) == {};
  }

  /** Both indexes agree with the sessions at every point of a run iff no USB reset in it fails to re-attach. */
  lemma {:induction false} IndexAgreementOverRuns(t: Table, es: seq<Event>)
    requires Inv(t) && NoDangling(t.byTcp) && RunAllowed(t, es)
    ensures (forall i :: 0 <= i <= |es| ==> IndexAgreement(Run(t, es[..i])))
       <==> (forall i :: 0 <= i < |es| ==> !FailedReset(Run(t, es[..i]), es[i]))
  {
    if forall i :: 0 <= i < |es| ==> !FailedReset(Run(t, es[..i]), es[i]) {
      forall i | 0 <= i <= |es| ensures IndexAgreement(Run(t, es[..i])) {
        AgreementUpTo(t, es, i);
      }
    }
    if i :| 0 <= i < |es| && FailedReset(Run(t, es[..i]), es[i]) {
      RunPrefix(t, es, i);
      RunKeeps(t, es[..i]);
      assert Allowed(Run(t, es[..i]), es[i]);
      StepKeeps(Run(t, es[..i]), es[i]);
      RunExtends(t, es, i);
      assert !IndexAgreement(Run(t, es[..i])) || !IndexAgreement(Run(t, es[..i + 1]));
    }
  }

  lemma RunExtends(t: Table, es: seq<Event>, i: nat)
    requires i < |es|
    ensures Run(t, es[..i + 1]) == Step(Run(t, es[..i]), es[i])
  {
    assert es[..i + 1][..i] == es[..i] && es[..i + 1][i] == es[i];
  }

  lemma {:induction false} AgreementUpTo(t: Table, es: seq<Event>, i: nat)
    requires Inv(t) && NoDangling(t.byTcp) && RunAllowed(t, es) && i <= |es|
    requires forall j :: 0 <= j < |es| ==> !FailedReset(Run(t, es[..j]), es[j])
    ensures IndexAgreement(Run(t, es[..i])) && Inv(Run(t, es[..i]))
    decreases i
  {
    if i > 0 {
      AgreementUpTo(t, es, i - 1);
      assert Allowed(Run(t, es[..i - 1]), es[i - 1]) && !FailedReset(Run(t, es[..i - 1]), es[i - 1]);
      StepKeeps(Run(t, es[..i - 1]), es[i - 1]);
      RunExtends(t, es, i - 1);
    }
  }

  /** Accept, CONNECT, then a reset whose sysfs write fails: descriptor 5 is closed, its index entry stays. */
  lemma FailedResetLeavesEntry()
    ensures var up := Outcome(Connect(0), true, Some(Pair(6, 7)), true, true);
            var down := Outcome(NoChange, true, Some(Pair(6, 7)), false, true);
            var es := [Accept(Some(5)), FdReady(5, false, true, up), FdReady(7, true, false, down)];
            && RunAllowed(EMPTY, es) && RunDefined(EMPTY, es)
            && Run(EMPTY, es).byTcp == map[5 := Dangling] && 5 !in Run(EMPTY, es).open
  {
    var up := Outcome(Connect(0), true, Some(Pair(6, 7)), true, true);
    var down := Outcome(NoChange, true, Some(Pair(6, 7)), false, true);
    var es := [Accept(Some(5)), FdReady(5, false, true, up), FdReady(7, true, false, down)];
    var t1, t2 := Step(EMPTY, es[0]), Step(Step(EMPTY, es[0]), es[1]);
    assert t1 == Table(map[], map[], map[], {5}, {}, {5});
    assert t2 == Table(map[0 := Session(0, 7, 6, Some(5))], map[7 := Live(0)], map[5 := Live(0)], {}, {0}, {5, 6, 7});
    assert es[..0] == [] && es[..3] == es;
    RunExtends(EMPTY, es, 0);
    RunExtends(EMPTY, es, 1);
    RunExtends(EMPTY, es, 2);
    assert ResetRemoved(t2, 0).open == {5};
    assert ResetRemoved(t2, 0).byTcp == map[5 := Dangling];
  }

  // ── Ports ──────────────────────────────────────────────────────────────────

  lemma {:induction false} LivePortsCount(m: map<Byte, Session>)
    requires forall d, d' :: d in m && d' in m && m[d].port == m[d'].port ==> d == d'
    ensures |LivePorts(m)| == |m|
    decreases |m|
  {
    if m == map[] {
      assert LivePorts(m) == {};
    } else {
      var d :| d in m;
      var n := m - {d};
      assert n.Keys == m.Keys - {d};
      LivePortsCount(n);
      forall p | p in LivePorts(m) && p != m[d].port ensures p in LivePorts(n) {
        var d' :| d' in m && m[d'].port == p;
        assert d' in n && n[d'].port == p;
      }
      assert LivePorts(m) == LivePorts(n) + {m[d].port};
    }
  }

  lemma {:induction false} CountBelow(s: set<nat>, n: nat)
    requires forall p :: p in s ==> p < n
    ensures |s| <= n
  {
    if n > 0 {
      CountBelow(s - {n - 1}, n - 1);
    } else {
      assert s == {};
    }
  }

  /** Orphans and live sessions together never exceed the eight ports. */
  lemma SessionsFitPorts(t: Table)
    requires Inv(t)
    ensures |t.sessions| + |Orphans(t.sessions, t.ports)| <= MAX_PORTS
  {
    LiveAndOrphaned(t.sessions, t.ports);
    CountBelow(t.ports, MAX_PORTS);
  }

  lemma LiveAndOrphaned(m: map<Byte, Session>, ports: set<nat>)
    requires PortsHeld(m, ports)
    ensures |m| + |Orphans(m, ports)| == |ports|
  {
    LivePortsCount(m);
    Partition(ports, LivePorts(m));
  }

  lemma Partition(s: set<nat>, a: set<nat>)
    requires a <= s
    ensures |s| == |a| + |s - a|
  {
    assert s == a + (s - a);
  }

  /** Once every port is orphaned, no later event gives any device a session. */
  lemma ExhaustionIsPermanent(t: Table, es: seq<Event>)
    requires Inv(t) && RunAllowed(t, es)
    requires |Orphans(t.sessions, t.ports)| == MAX_PORTS
    ensures Run(t, es).sessions == map[]
  {
    RunKeeps(t, es);
    var r := Run(t, es);
    SubsetCount(Orphans(t.sessions, t.ports), Orphans(r.sessions, r.ports));
    SessionsFitPorts(r);
  }

  lemma SubsetCount(a: set<nat>, b: set<nat>)
    requires a <= b
    ensures |a| <= |b|
  {
    assert b == a + (b - a);
  }

  // ── CONNECT ────────────────────────────────────────────────────────────────

  /**
    CONNECT for `dev` on the pending socket `fd`.  No other session changes.  Without a
    socketpair or a port, `dev` is left without a session and `fd` stays pending.  Otherwise
    the outcome is the map update "`dev` now has a session on `fd`, and `fd` is no longer
    pending" exactly when `fd` survives the 16-bit field it travels in.
   */
  lemma ConnectIsMapUpdate(t: Table, fd: nat, dev: Byte, o: Outcome)
    requires Inv(t) && fd in t.pending && o.msg == Connect(dev)
    ensures var r := Step(t, FdReady(fd, false, true, o));
            var port := Attach(OnDisconnect(t, dev, o.detachOk).ports, o.attachOk);
            && r.sessions - {dev} == t.sessions - {dev}
            && (o.pair.None? || port.None? ==> dev !in r.sessions && r.pending == t.pending)
            && (o.pair.Some? && port.Some? ==>
                 (r.pending == t.pending - {fd} && dev in r.sessions
                   && r.sessions[dev] == Session(port.value, o.pair.value.vhciFd, o.pair.value.kernelFd, Some(fd))
                  <==> fd < 0x1_0000))
  {
    var u := OnDisconnect(t, dev, o.detachOk);
    PendingUnindexed(t, fd);
    assert Step(t, FdReady(fd, false, true, o)) == DoUsbAttach(u, dev, fd, o);
    DisconnectSessions(t, dev, o.detachOk);
    AttachSessions(u, dev, fd, o);
  }

  /** Two connections whose numbers agree in their low 16 bits: the session ends up on the wrong one. */
  lemma ConnectTakesOtherSocket()
    ensures var es := [Accept(Some(5)), Accept(Some(65541)),
                       FdReady(65541, false, true, Outcome(Connect(0), true, Some(Pair(6, 7)), true, true))];
            && RunAllowed(EMPTY, es) && RunDefined(EMPTY, es)
            && Run(EMPTY, es).sessions == map[0 := Session(0, 7, 6, Some(5))] && Run(EMPTY, es).pending == {65541}
  {
    var o := Outcome(Connect(0), true, Some(Pair(6, 7)), true, true);
    var es := [Accept(Some(5)), Accept(Some(65541)), FdReady(65541, false, true, o)];
    var t2 := Table(map[], map[], map[], {5, 65541}, {}, {5, 65541});
    assert es[..0] == [] && es[..3] == es;
    RunExtends(EMPTY, es, 0);
    RunExtends(EMPTY, es, 1);
    RunExtends(EMPTY, es, 2);
    assert Run(EMPTY, es[..2]) == t2;
    assert OnConnect(t2, 65541, 0, o).pending == {65541};
  }

  lemma DisconnectSessions(t: Table, dev: Byte, detachOk: bool)
    ensures var u := OnDisconnect(t, dev, detachOk); u.sessions == t.sessions - {dev} && u.pending == t.pending
  {
    if dev !in t.sessions { assert t.sessions - {dev} == t.sessions; }
  }

  lemma AttachSessions(u: Table, dev: Byte, fd: nat, o: Outcome)
    requires fd in u.pending && dev !in u.sessions
    ensures var r := DoUsbAttach(u, dev, fd, o);
            var port := Attach(u.ports, o.attachOk);
            && r.sessions - {dev} == u.sessions
            && (o.pair.None? || port.None? ==> r == u)
            && (o.pair.Some? && port.Some? ==>
                 (r.pending == u.pending - {fd} && dev in r.sessions
                   && r.sessions[dev] == Session(port.value, o.pair.value.vhciFd, o.pair.value.kernelFd, Some(fd))
                  <==> fd < 0x1_0000))
  {
    var r := DoUsbAttach(u, dev, fd, o);
    assert r.sessions - {dev} == u.sessions;
    if fd >= 0x1_0000 {
      assert fd in r.pending;
    }
  }

  // ── One session per connection ─────────────────────────────────────────────

  /** The event makes onTcpReadable handle a CONNECT for `dev` that came in on `fd`. */
  ghost predicate HandlesConnect(t: Table, e: Event, fd: nat, dev: Byte) {
    && e.FdReady? && e.fd == fd && !e.hangup && e.input && e.outcome.msg == Connect(dev)
    && (fd in t.pending || Indexed(t, fd))
  }

  /**
    A CONNECT gives its device a session exactly when the socket it came in on is still pending,
    so is the one its number is cut to, and the socketpair and the port are there.
   */
  lemma ConnectCreates(t: Table, e: Event, fd: nat, dev: Byte)
    requires Inv(t) && HandlesConnect(t, e, fd, dev)
    ensures dev in Step(t, e).sessions <==>
              && fd in t.pending && fd % 0x1_0000 in t.pending && e.outcome.pair.Some?
              && Attach(OnDisconnect(t, dev, e.outcome.detachOk).ports, e.outcome.attachOk).Some?
    ensures dev in Step(t, e).sessions ==> Step(t, e).pending == t.pending - {fd % 0x1_0000}
  {
    if fd in t.pending { PendingUnindexed(t, fd); }
    assert Step(t, e) == OnConnect(t, fd, dev, e.outcome);
    DisconnectSessions(t, dev, e.outcome.detachOk);
  }

  /** Only an accept adds a pending socket. */
  lemma PendingGrows(t: Table, e: Event)
    ensures Step(t, e).pending <= t.pending + (if e.Accept? && e.conn.Some? then {e.conn.value} else {})
  {
    if e.FdReady? {
      ReadablePending(t, e.fd, e.outcome);
      forall dev ensures RemoveSession(t, dev).pending == t.pending {}
      forall dev | dev in t.sessions && t.sessions[dev].tcp.Some?
        ensures OnUsbReset(t, dev, e.outcome).pending == t.pending
      {
        ResetPending(t, dev, e.outcome);
      }
    }
  }

  lemma ResetPending(t: Table, dev: Byte, o: Outcome)
    requires dev in t.sessions && t.sessions[dev].tcp.Some?
    ensures OnUsbReset(t, dev, o).pending == t.pending
  {}

  lemma ReadablePending(t: Table, fd: nat, o: Outcome)
    ensures OnTcpReadable(t, fd, o).pending <= t.pending
  {
    if o.msg.Connect? {
      var u := OnDisconnect(t, o.msg.dev, o.detachOk);
      DisconnectSessions(t, o.msg.dev, o.detachOk);
      assert DoUsbAttach(u, o.msg.dev, fd, o).pending <= u.pending;
    }
  }

  lemma {:induction false} StaysTaken(t: Table, es: seq<Event>, conn: nat, i: nat, j: nat)
    requires i <= j <= |es| && conn !in Run(t, es[..i]).pending
    requires forall k :: i <= k < j ==> es[k] != Accept(Some(conn))
    ensures conn !in Run(t, es[..j]).pending
    decreases j
  {
    if i < j {
      StaysTaken(t, es, conn, i, j - 1);
      RunExtends(t, es, j - 1);
      PendingGrows(Run(t, es[..j - 1]), es[j - 1]);
    }
  }

  /** Step `i` of the run handles a CONNECT that came in on `fd` and gives its device a session. */
  ghost predicate CreatesAt(t: Table, es: seq<Event>, fd: nat, i: nat)
    requires i < |es|
  {
    && es[i].FdReady? && es[i].outcome.msg.Connect?
    && HandlesConnect(Run(t, es[..i]), es[i], fd, es[i].outcome.msg.dev)
    && es[i].outcome.msg.dev in Run(t, es[..i + 1]).sessions
  }

  /**
    Over every run, whatever happens in between and however many devices send their events over
    it: at most one CONNECT that comes in on a connection creates a session, until its number
    is accepted anew.
   */
  lemma OneSessionPerConnection(t: Table, es: seq<Event>, fd: nat, i: nat, j: nat)
    requires Inv(t) && RunAllowed(t, es) && i < j < |es|
    requires forall k :: i < k < j ==> es[k] != Accept(Some(fd % 0x1_0000))
    requires CreatesAt(t, es, fd, i)
    ensures !CreatesAt(t, es, fd, j)
  {
    var conn := fd % 0x1_0000;
    CreationTakes(t, es, fd, i);
    StaysTaken(t, es, conn, i + 1, j);
    if CreatesAt(t, es, fd, j) {
      CreationTakes(t, es, fd, j);
    }
  }

  lemma CreationTakes(t: Table, es: seq<Event>, fd: nat, i: nat)
    requires Inv(t) && RunAllowed(t, es) && i < |es| && CreatesAt(t, es, fd, i)
    ensures fd % 0x1_0000 in Run(t, es[..i]).pending && fd % 0x1_0000 !in Run(t, es[..i + 1]).pending
  {
    RunPrefix(t, es, i);
    RunKeeps(t, es[..i]);
    RunExtends(t, es, i);
    ConnectCreates(Run(t, es[..i]), es[i], fd, es[i].outcome.msg.dev);
  }

  /** Two devices announced over one connection: the second is left without a session. */
  lemma SecondDeviceUnserved()
    ensures var es := [Accept(Some(5)),
                       FdReady(5, false, true, Outcome(Connect(0), true, Some(Pair(6, 7)), true, true)),
                       FdReady(5, false, true, Outcome(Connect(1), true, Some(Pair(8, 9)), true, true))];
            && RunAllowed(EMPTY, es) && RunDefined(EMPTY, es)
            && Run(EMPTY, es).sessions == map[0 := Session(0, 7, 6, Some(5))]
  {
    var first := Outcome(Connect(0), true, Some(Pair(6, 7)), true, true);
    var second := Outcome(Connect(1), true, Some(Pair(8, 9)), true, true);
    var es := [Accept(Some(5)), FdReady(5, false, true, first), FdReady(5, false, true, second)];
    assert es[..0] == [] && es[..3] == es;
    RunExtends(EMPTY, es, 0);
    RunExtends(EMPTY, es, 1);
    RunExtends(EMPTY, es, 2);
    FirstServed();
    SecondIgnored(FirstSession());
  }

  /** One session, of device 0 on connection 5. */
  function FirstSession(): Table {
    Table(map[0 := Session(0, 7, 6, Some(5))], map[7 := Live(0)], map[5 := Live(0)], {}, {0}, {5, 6, 7})
  }

  lemma FirstServed()
    ensures var t := Table(map[], map[], map[], {5}, {}, {5});
            var o := Outcome(Connect(0), true, Some(Pair(6, 7)), true, true);
            Step(EMPTY, Accept(Some(5))) == t && Step(t, FdReady(5, false, true, o)) == FirstSession()
  {}

  lemma SecondIgnored(t: Table)
    requires Indexed(t, 5) && 5 !in t.pending && 1 !in t.sessions
    ensures Step(t, FdReady(5, false, true, Outcome(Connect(1), true, Some(Pair(8, 9)), true, true))) == t
  {}

  /** A pending socket is in neither index, but for a dangling entry, so its events reach onTcpReadable. */
  lemma PendingUnindexed(t: Table, fd: nat)
    requires Inv(t) && fd in t.pending
    ensures fd !in t.byVhci && (fd in t.byTcp ==> t.byTcp[fd].Dangling?)
  {
    forall d | d in t.sessions ensures t.sessions[d].vhciFd != fd && t.sessions[d].tcp.value != fd {
      assert t.sessions[d].vhciFd in Fds(t.sessions[d]) && t.sessions[d].tcp.value in Fds(t.sessions[d]);
    }
  }

  /** When the device's old session is detached cleanly, its CONNECT never fails for want of a port. */
  lemma ReconnectFindsPort(t: Table, dev: Byte)
    requires Inv(t) && dev in t.sessions
    ensures Attach(OnDisconnect(t, dev, true).ports, true).Some?
  {
    assert t.sessions[dev].port < MAX_PORTS;
    assert t.sessions[dev].port !in OnDisconnect(t, dev, true).ports;
  }
}
