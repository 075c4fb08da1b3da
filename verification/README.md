# WirelessHub in Dafny

WirelessHub carries USB/IP between an ESP32 and a Linux daemon. This project models its
stateful cores and proves what they keep over every run, every input and every schedule of
system-call outcomes:

- `SessionTable`, `SessionInvariant`, `SessionRuns`: the daemon's session table as a value.
  It holds the owning map, the two pointer indexes, the pending sockets, the eight VHCI ports
  and the open descriptors. Every event of main's loop is one step of a state machine.
- `SessionSteps`: what each event does to the table, for every table of a run, said without the
  operations themselves: which session, descriptors, port and stale entries there are afterwards.
- `Daemon`: the same state as objects updated in place (`HubServer`, `VhciDriver`, main's
  callbacks and loop). Every method is proved to make exactly the step of the value model.
- `Reassembly`, `DeviceSession`: fragmentation into datagrams and the one-slot reassembly.
- `TaskProtocol`: the Wi-Fi, discovery and session-control tasks of the firmware, with every
  event-bit call, assignment and socket call as one atomic step and arbitrary interleaving.
- `TaskScripts`: what the control and discovery tasks have done after any run, as rounds of a few
  fixed shapes cut off anywhere, and the variables as what those calls made of them.
- `WifiManager`: the retry counter and event bits against what the event history alone says.
- `TcpStream`, `Passthrough`: exact sends and receives under arbitrary short counts, packet
  framing, and draining the kernel descriptor.
- `DeviceEvents`: DEVICE_EVENT packets from the firmware's control task to the daemon's branch.
- `UsbipProxy`: the USB/IP request and reply proxy with its buffer bounds.
- `CrashReporter`, `PortalForm`, `DnsHijack`: the crash-log ring, the form decoder, the DNS
  responder.
- `Wire`: the packed little-endian headers and the big-endian words they share.

Where the source updates state in place, a class does too. Its methods tie the new state to a
specification function of the old one, and the theorems are proved about those functions.

## Properties that fail, and exactly when they hold

- Index agreement: broken by a USB reset whose re-attach fails. `FailedResetLeavesEntry` is a
  three-event run that does it; `IndexAgreementOverRuns` shows that both indexes agree throughout
  a run if and only if no such reset occurs in it.
- CONNECT as a map update: the descriptor travels through a 16-bit port field.
  `ConnectTakesOtherSocket` is a run that puts the session on another connection;
  `ConnectIsMapUpdate` shows that it is the update if and only if the descriptor is below 65536.
- Alternating DEVICE_EVENTs at the daemon: an event that cannot be sent is dropped, and one that
  the socket took can be lost with the connection. `LostDisconnect` and `DisconnectLostInNetwork`
  make the daemon read CONNECT twice, `LostConnect` DISCONNECT first. `DaemonSeesTurns` shows, for
  every reading of every connection, that a device's events read in the order the connections were
  opened alternate if and only if an even number of its attempts went unread before each one that
  is read; `ReceivedUnlessMissed` that they are all of them if and only if none went unread. On each
  connection they always take turns (`EventsTakeTurns`).
- A session for every CONNECT: all devices' events share one connection, and a connection serves one
  session. `SecondDeviceUnserved` is a run that leaves the second device without one;
  `ConnectCreates` gives the exact condition, and `OneSessionPerConnection` shows over every run
  that at most one CONNECT of a connection creates a session.
- An active session on the daemon's address: `ActiveWithoutAddress` is an interleaving without an
  address, `ActiveOnStaleAddress` one with an old address while every bit is in order.
  `ActiveAddress` gives the exact condition over every run.
- A device announced only when it is there: in USB/IP mode `AnnouncedWithoutDevice` is a run that
  sends CONNECT although the device never was ready. `ControlFollowsScript` shows over every run
  that a CONNECT follows either a "ready" answer or a wait ended by DAEMON_LOST whose next check
  found it clear again, and nothing else.
- Hole-free delivery: two fragments of one transfer with different totals can deliver an empty
  chunk (`InconsistentTotalsDeliverHole`). `DeliveryHoleFree` gives the exact condition on the slot
  and the fragment before the push, `RunsHoleFree` the one on the fragments of a whole run.
- Packet framing: with a healthy connection, reading fails if and only if an EAGAIN lands before
  the first byte of a header or of a payload (`FailsIffAgainAtStart`); `AgainAfterHeaderFails` is
  such a schedule.
- Kernel-to-device conservation: holds if and only if no read fills the 65536-byte buffer
  (`DrainConserves`); `FullReadLosesByte` is a drain with one such read.
- Control IN data coming from the device: a request for no bytes is answered out of the buffer's
  old content if the transfer reports any (`ZeroLengthRepliesOldByte`). `InDataIsDeviceData` shows
  that the data is the device's if and only if bytes were asked for or none were reported, where
  the device's data is that of the completion the call takes.
- DNS replies staying in their buffer: `LongNameOverflows` is a question of 499 bytes whose reply
  has 515. `HandleQuery` stays in bounds if and only if the question is not complete or ends at or
  before offset 496; `LegalNamesFit` shows that names within RFC 1035's 255 octets always do.

## Environment

- Any descriptor may be reported ready. Main never registers a pending socket with epoll, so
  runs limited to its literal epoll set would never create a session.
- The system hands out only descriptors that are not open at that moment.
- Outcomes of system calls are parameters; schedules are finite, and a loop that is still
  retrying when its schedule ends is `Starved` (or `Waiting`). A receive that finds nothing
  arrived counts as EAGAIN.
- A step that would follow a dangling pointer has no meaning in C++. The value model gives it as
  no change of the table; the in-place loop (`Daemon.EventLoop.Loop`) requires that there is none.
- Connections are taken to be read in the order they were opened when their events are put together.
- A USB completion or frame that arrives after its request timed out is not carried over to the next
  request, which would take it for its own.
- Station and IP events arrive only after station mode was started, and a discovery reply comes
  from a non-zero address.

## Where the code and its own comments differ

The model follows the code.

- `WIFI_AUTH_FAIL_BIT` is not cleared by a retry (`esp-codes/main/wifi_manager.h:20-22` says a new
  attempt clears it). It is cleared by GOT_IP and by a station start.
- A failed transfer is answered with status 1 (`esp-codes/main/usbip_proto.h:63` says a negative
  errno).
- A completed transfer is handed to the driver chunk by chunk; it is never joined in a buffer.
- The DAEMON_FOUND bit is still set for two steps after the address has been cleared.

## Model

| member | source | states |
|---|---|---|
| `Wire.HeaderRoundTrip` | daemon/src/protocol/Protocol.h:57-64 | every header reads back from its six packed bytes whatever follows them, and what follows starts right after |
| `Wire.FragHeaderRoundTrip` | daemon/src/protocol/Protocol.h:84-89 | the same for the four-byte fragment header |
| `Wire.Be32RoundTrip` | esp-codes/main/usbip_proto.h:18-25 | a 32-bit word written big-endian anywhere in a message reads back |
| `Wire.HeaderLayout` | daemon/src/protocol/Protocol.h:57-64 | command, device, endpoint and number are bytes 0 to 3, the length bytes 4 and 5 with the low one first |
| `Wire.FragHeaderLayout` | daemon/src/protocol/Protocol.h:84-89 | the transfer number is bytes 0 and 1 with the low one first, then index and total |
| `Wire.Be32Layout` | esp-codes/main/usbip_proto.h:18-25 | a word is its four bytes, the highest first |
| `Wire.CStringIs` | esp-codes/main/crash_reporter.c:93-109 | strlen sees everything up to the first NUL and nothing more |
| `SessionTable.FreePort` | daemon/src/usbip/VhciDriver.cpp:32-56 | the port found is free and every lower one is taken; none is found only when all are taken |
| `SessionInvariant.RemoveKeeps` | daemon/src/network/HubServer.cpp:267-282 | removing a session keeps index agreement, descriptor ownership and the port discipline, and orphans exactly its port |
| `SessionInvariant.DisconnectKeeps` | daemon/src/main.cpp:92-104 | the disconnect callback keeps the invariant, leaves the device without a session, and orphans its port exactly when the sysfs write fails |
| `SessionInvariant.AttachedKeeps` | daemon/src/network/HubServer.cpp:244-265 | adding a session on a fresh pair and a free port keeps the invariant; no index entry dangles afterwards iff none other than the connection's own dangled before |
| `SessionInvariant.AttachKeeps` | daemon/src/main.cpp:55-84 | an attach, failing at any point or succeeding, keeps the invariant and loses a port only when the connection is not found |
| `SessionInvariant.ConnectKeeps` | daemon/src/network/HubServer.cpp:167-181 | CONNECT with replacement keeps the invariant and orphans exactly the ports of a failed detach and of a lost connection |
| `SessionInvariant.ResetRemovedKeeps` | daemon/src/main.cpp:169-176 | taking a session out for a USB reset frees its port and leaves exactly one dangling entry, its connection's, and one descriptor owned by the caller |
| `SessionInvariant.ReattachNeverOutOfPorts` | daemon/src/main.cpp:175-191 | a re-attach fails only for want of a socketpair or by a failed sysfs write, never for want of a port |
| `SessionInvariant.ResetKeeps` | daemon/src/main.cpp:163-194 | a USB reset keeps the invariant and every orphan; from index agreement it keeps agreement iff the re-attach succeeds |
| `SessionInvariant.ReadableKeeps` | daemon/src/network/HubServer.cpp:127-191 | every outcome of onTcpReadable keeps the invariant and orphans exactly the ports named; what each leaves is in the `SessionSteps` rows |
| `SessionInvariant.TcpHangupKeeps` | daemon/src/main.cpp:147-154 | a TCP hang-up keeps the invariant and orphans the session's port, since it skips detach |
| `SessionInvariant.HandlerKeeps` | daemon/src/main.cpp:196-205 | a handler error keeps the invariant and orphans the session's port |
| `SessionInvariant.AcceptKeeps` | daemon/src/network/HubServer.cpp:63-78 | an accepted connection is owned by the pending map alone |
| `SessionInvariant.StepKeeps` | daemon/src/main.cpp:117-216 | every step keeps index agreement of live entries, conservation of descriptors and the port discipline, orphans exactly the ports named, and loses full agreement iff it is a failed reset |
| `SessionRuns.RunKeeps` | daemon/src/main.cpp:110-217 | over every run the open descriptors are exactly the disjoint union of pending sockets and each session's three, live index entries agree, and the ports in use are exactly the live sessions' (all different), the earlier orphans, and those orphaned by the run's own steps |
| `SessionRuns.EmptyOk` | daemon/src/main.cpp:44-52 | the daemon starts with all of it true and no orphan |
| `SessionRuns.IndexAgreementOverRuns` | daemon/src/main.cpp:147-207 | both indexes point exactly at the live sessions at every point of a run iff no USB reset in it fails to re-attach |
| `SessionRuns.FailedResetLeavesEntry` | daemon/src/network/HubServer.cpp:275-281 | a concrete allowed run after which a closed descriptor still has an index entry |
| `SessionRuns.SessionsFitPorts` | daemon/src/usbip/VhciDriver.cpp:32-56 | live sessions and orphaned ports together never exceed eight |
| `SessionRuns.ExhaustionIsPermanent` | daemon/src/usbip/VhciDriver.cpp:32-80 | once all eight ports are orphaned, no later run gives any device a session |
| `SessionRuns.ConnectIsMapUpdate` | daemon/src/network/HubServer.cpp:167-181 | from any reachable table, stale entries included: no other session changes; without pair or port the device has no session and the socket stays pending; otherwise the result is the map update iff the descriptor is below 65536 |
| `SessionRuns.ConnectTakesOtherSocket` | daemon/src/main.cpp:68-82 | a run in which CONNECT on socket 65541 puts the session on socket 5 and leaves 65541 pending |
| `SessionRuns.ConnectCreates` | daemon/src/network/HubServer.cpp:167-181 | a CONNECT gives its device a session iff the socket it came in on is still pending, so is the one its number is cut to, and pair and port are there |
| `SessionRuns.OneSessionPerConnection` | daemon/src/network/HubServer.cpp:173-180 | over every run, however many devices announce themselves on it, at most one CONNECT of a connection creates a session |
| `SessionRuns.SecondDeviceUnserved` | daemon/src/network/HubServer.cpp:173-180 | a run in which the second device's CONNECT on the same connection leaves it without a session |
| `SessionRuns.PendingUnindexed` | daemon/src/main.cpp:209-215 | a pending socket is in neither index, but for a stale entry, so its events reach onTcpReadable |
| `SessionRuns.ReconnectFindsPort` | daemon/src/usbip/VhciDriver.cpp:58-75 | after a clean detach of its old session, a device's CONNECT never fails for want of a port |
| `SessionSteps.TablesAgree` | daemon/src/network/HubServer.h:83-94 | under the invariant a table is fixed by its sessions, pending sockets, ports, open descriptors and stale entries, so the step results below fix the whole table |
| `SessionSteps.DisconnectStep` | daemon/src/network/HubServer.cpp:183-187 | a DISCONNECT on any known socket removes exactly that device, closes its three descriptors and frees its port iff the detach succeeds |
| `SessionSteps.ReadFailedStep` | daemon/src/network/HubServer.cpp:127-151 | a failed read closes exactly the pending socket, or disconnects exactly the session that owns the socket |
| `SessionSteps.OtherMessageStep` | daemon/src/network/HubServer.cpp:152-191 | any other packet leaves the whole table as it was |
| `SessionSteps.ConnectStep` | daemon/src/network/HubServer.cpp:167-181 | after a CONNECT the device has a session on the least free port, the new pair and the pending socket its truncated descriptor names, and otherwise it is disconnected, with exactly the port lost if the name finds no socket |
| `SessionSteps.AttachIs` | daemon/src/usbip/VhciDriver.cpp:32-56 | a port is given iff one of the eight is free and the sysfs write succeeds, and it is the least |
| `SessionSteps.TcpHangupStep` | daemon/src/main.cpp:147-154 | a hang-up on a session's socket removes exactly that session and leaves its port in use |
| `SessionSteps.HandlerStep` | daemon/src/main.cpp:196-205 | a handler error removes exactly the session and leaves its port in use; without one nothing changes |
| `SessionSteps.ResetStep` | daemon/src/main.cpp:163-194 | a reset leaves the session on the same connection, the new pair and the least port once its own is free, iff a pair and the sysfs write succeed; otherwise the session is gone, its three descriptors are closed and the socket's entry is stale |
| `SessionSteps.AcceptStep` | daemon/src/network/HubServer.cpp:63-78 | an accepted connection becomes pending and open and nothing else changes |
| `SessionSteps.UnknownStep` | daemon/src/main.cpp:145-215 | an event on a descriptor of no session that is not pending changes nothing |
| `SessionSteps.FlagsStep` | daemon/src/main.cpp:145-215 | an event without a flag changes nothing, and a hang-up on a pending socket is not looked at |
| `Daemon.Descriptors.Close` | daemon/src/network/HubServer.h:26-29 | only an open descriptor is closed, so none is closed twice |
| `Daemon.VhciDriver.AttachPort` | daemon/src/usbip/VhciDriver.cpp:32-56 | the port table's scan takes the lowest free port iff the sysfs write succeeds, and otherwise changes nothing |
| `Daemon.VhciDriver.DetachPort` | daemon/src/usbip/VhciDriver.cpp:58-75 | succeeds iff the port was in use and the write succeeded, and then frees just that port |
| `Daemon.VhciDriver.ReleasePort` | daemon/src/usbip/VhciDriver.cpp:77-80 | frees just that port, in range or not |
| `Daemon.VhciDriver.DetachAll` | daemon/src/usbip/VhciDriver.cpp:104-109 | exactly the ports whose sysfs write fails stay marked |
| `Daemon.HubServer.OnTcpAccept` | daemon/src/network/HubServer.cpp:63-78 | an accepted descriptor becomes open and pending; a failed accept changes nothing |
| `Daemon.HubServer.ExtractPendingSocket` | daemon/src/network/HubServer.cpp:234-242 | found iff pending, and then no longer pending |
| `Daemon.HubServer.NewSession` | daemon/src/network/HubServer.cpp:244-265 | one new session object, reached by both indexes under its descriptors; a session it replaces is closed and its other entries dangle; nothing else moves |
| `Daemon.HubServer.Destroy` | daemon/src/network/HubServer.h:26-29 | exactly the session's own descriptors are closed, each once |
| `Daemon.HubServer.Remove` | daemon/src/network/HubServer.cpp:267-282 | exactly that session's descriptors are closed; an entry the erase did not reach dangles |
| `Daemon.EventLoop.constructor` | daemon/src/main.cpp:44-52 | the objects start as the empty table |
| `Daemon.EventLoop.DisconnectDevice` | daemon/src/main.cpp:92-104 | the objects follow the table's disconnect |
| `Daemon.EventLoop.AttachDevice` | daemon/src/main.cpp:55-84 | the objects follow the table's attach on every failing path and the successful one |
| `Daemon.EventLoop.ConnectDevice` | daemon/src/network/HubServer.cpp:156-181 | the objects follow the table's CONNECT, old session first |
| `Daemon.EventLoop.ResetDevice` | daemon/src/main.cpp:163-194 | the objects follow the table's reset, with the socket moved out before the session is destroyed |
| `Daemon.EventLoop.TcpReadable` | daemon/src/network/HubServer.cpp:127-191 | the objects follow the table's reading of a message |
| `Daemon.EventLoop.HandleEvent` | daemon/src/main.cpp:117-216 | one epoll event makes the table's step, keeps the invariant, and keeps index agreement iff it is not a failed reset |
| `Daemon.EventLoop.Loop` | daemon/src/main.cpp:110-217 | the loop over any events refines the table's run and keeps the invariant |
| `Reassembly.PushKeepsSlot` | esp-codes/main/device_session.c:205-241 | after any push, even with inconsistent totals, `received` counts the flags, is at most 8, and is below the total while active; a delivery has exactly total <= 8 flags set |
| `Reassembly.DeliveryHoleFree` | esp-codes/main/device_session.c:205-241 | a delivery has no hole iff the fragment's index and all counted before it are below the collection's total, testable before the push |
| `Reassembly.RunsHoleFree` | esp-codes/main/device_session.c:205-241 | over any pushes from an idle slot, all deliveries are hole-free iff in every delivering collection each accepted index is below the total of the fragment that opened it |
| `Reassembly.InconsistentTotalsDeliverHole` | esp-codes/main/device_session.c:209-240 | two fragments with different totals make any idle slot deliver an empty chunk |
| `Reassembly.OversizeNeverDelivers` | esp-codes/main/device_session.c:209-240 | a slot whose transfer declared more than 8 fragments delivers nothing, whatever follows under that number |
| `Reassembly.OversizeFirstFragment` | esp-codes/main/device_session.c:209-240 | the same from the first accepted fragment on |
| `Reassembly.PushOfTransfer` | esp-codes/main/device_session.c:205-241 | with consistent totals a delivery is the whole transfer its last fragment belongs to |
| `Reassembly.InterleavedDeliveries` | esp-codes/main/device_session.c:205-241 | under any interleaving, loss, repetition and order, each delivery is exactly one transfer's chunks in index order |
| `Reassembly.CollectOne` | esp-codes/main/device_session.c:205-241 | one more fragment delivers the transfer iff it completes the set, and otherwise is added to it |
| `Reassembly.DeliversOnLastMissing` | esp-codes/main/device_session.c:205-241 | in any order with any repetitions, nothing is delivered before the last missing index and the whole transfer with it |
| `Reassembly.Reassembler.ReasmPush` | esp-codes/main/device_session.c:205-241 | the in-place slot follows the value model, and the driver gets the chunks in order up to the one it refuses |
| `Reassembly.Reassembler.Deliver` | esp-codes/main/device_session.c:228-240 | the buffers go out in index order up to and including the refused one |
| `Reassembly.HandedOverIs` | esp-codes/main/device_session.c:228-240 | the driver is handed every chunk in order, or those up to and including the one it refuses |
| `Reassembly.ClampIs` | esp-codes/main/device_session.c:219-226 | a chunk is kept whole up to 1536 bytes and cut there |
| `Reassembly.RunsDeliver` | esp-codes/main/device_session.c:205-241 | over any pushes a push delivers iff it brings the distinct indices since the collection was opened to its total, and each buffer is the first chunk that came with its index |
| `DeviceSession.ChunksRejoin` | esp-codes/main/device_session.c:164-170 | cutting loses nothing, no chunk exceeds 1400 bytes, and the count is the length rounded up |
| `DeviceSession.ChunkAt` | esp-codes/main/device_session.c:172-200 | the i-th chunk is the frame's bytes from offset 1400 i |
| `DeviceSession.RawRoundTrip` | esp-codes/main/device_session.c:145-163 | the receiver recovers exactly the frame sent in one datagram |
| `DeviceSession.FragRoundTrip` | esp-codes/main/device_session.c:172-200 | the receiver recovers exactly the fragment sent |
| `DeviceSession.FragmentationRoundTrip` | esp-codes/main/device_session.c:134-241 | for every frame of 1401 to 11200 bytes, its datagrams in any order with any repetitions deliver once, with the last missing one, and the chunks join to the frame |
| `DeviceSession.TransferNumbersDistinct` | esp-codes/main/device_session.c:166-171 | any 65536 consecutive fragmented transfers carry different numbers |
| `DeviceSession.InterleavedFrames` | esp-codes/main/device_session.c:134-241 | for up to 65536 fragmented frames in flight, from an idle slot or one in mid-transfer, and any interleaving of their datagrams, whatever is delivered is byte for byte the frame the last datagram belongs to |
| `DeviceSession.Session.SendRaw` | esp-codes/main/device_session.c:134-202 | nothing without a socket, one datagram up to the MTU, else numbered fragments at the right offsets under one fresh transfer number, or nothing beyond 255 of them |
| `DeviceSession.Session.SendFragments` | esp-codes/main/device_session.c:172-200 | the i-th datagram carries the i-th chunk, with consecutive header numbers |
| `DeviceSession.Session.OnDatagram` | esp-codes/main/device_session.c:504-575 | by its bytes and the mode alone a datagram is ignored, written to the driver, pushed into the slot with the chunks up to a refused one handed over, or in USB/IP mode passed to the proxy (fragments dropped) |
| `DeviceSession.Session.OnDatagrams` | esp-codes/main/device_session.c:504-575 | over any datagrams what reaches the driver is what each one's delivery hands over, in order |
| `DeviceSession.Session.ReceiveFrame` | esp-codes/main/device_session.c:134-241 | the datagrams of a frame, in any order with repetitions, reach the driver as nothing until the last missing one and then as the frame's bytes exactly |
| `DeviceSession.ReceiveIs` | esp-codes/main/device_session.c:504-575 | a datagram is a frame, a fragment or ignored by its first byte and length alone, with the fragment's fields at bytes 6 to 9 |
| `DeviceSession.ReceiveEnds` | esp-codes/main/device_session.c:504-575 | a datagram shorter than a header is ignored and one longer than the buffer is cut |
| `DeviceSession.Session.constructor` | esp-codes/main/device_session.c:416-419 | an activated session starts with zero counters and an idle slot |
| `TaskProtocol.StepKeeps` | esp-codes/main/device_session.c:365-467 | every atomic step of any task keeps the invariant over bits, address, socket and log |
| `TaskProtocol.RunKeeps` | esp-codes/main/device_session.c:365-467 | so does every interleaving |
| `TaskProtocol.BitsExclusive` | esp-codes/main/wifi_manager.c:537-590 | under every interleaving READY/LOST, FOUND/LOST and ACTIVE/LOST are never both set, and ACTIVE implies the published reply socket is open and bound |
| `TaskProtocol.ControlTaskLog` | esp-codes/main/device_session.c:365-467 | over every run DEVICE_EVENTs alternate from CONNECT, each DISCONNECT follows an observed DAEMON_LOST, and each reply socket is closed exactly once before the next opens |
| `TaskProtocol.FoundBitAndAddress` | esp-codes/main/hub_client.c:115-148 | while DAEMON_FOUND is set the address is there, except in exactly the two steps before the bit is cleared |
| `TaskProtocol.RecordedAddress` | esp-codes/main/device_session.c:370-380 | what the control task records is the last reply's address if the discovery task has not cleared it, and 0 otherwise |
| `TaskProtocol.ActiveAddress` | esp-codes/main/device_session.c:370-443 | over every run an active session has the daemon's current address iff the address was there at its last read, is there now, and the last accepted reply is from the same address as at the read |
| `TaskProtocol.ActiveWithoutAddress` | esp-codes/main/device_session.c:370-420 | an interleaving after which the session is active without an address |
| `TaskProtocol.ActiveOnStaleAddress` | esp-codes/main/hub_client.c:115-148 | an interleaving after which the session is active on address 1 while the daemon is at 2, FOUND is set, LOST is clear and Wi-Fi is ready |
| `TaskScripts.ControlFollowsScript` | esp-codes/main/device_session.c:365-467 | over every run the control task's calls are whole rounds of five shapes and the beginning of one more: no socket before DAEMON_FOUND, no CONNECT in USB/IP mode before "ready" or a clear DAEMON_LOST, and every way out undone |
| `TaskScripts.VariablesFollowCalls` | esp-codes/main/device_session.c:365-467 | over every run the address, socket, bound, active and lost variables are what those calls made of them |
| `TaskScripts.LogIsSeen` | esp-codes/main/device_session.c:365-467 | over every run the log is the opens, closes, events and observed losses among the calls, in order |
| `TaskScripts.SeenIsSo` | esp-codes/main/device_session.c:365-443 | a bit or address the control task sees at a step is the one discovery holds at that step |
| `TaskScripts.OpensAfterFound` | esp-codes/main/device_session.c:369-388 | over every run a socket is opened only after a step that found DAEMON_FOUND set, with nothing done in between |
| `TaskScripts.DiscoveryFollowsScript` | esp-codes/main/hub_client.c:36-150 | over every run discovery's deeds are whole chapters and the beginning of one more: search only after WIFI_READY, the address before DAEMON_FOUND, and both forgotten only after WIFI_LOST |
| `TaskScripts.HubFollowsDeeds` | esp-codes/main/hub_client.c:115-148 | over every run discovery's flag, address and bits are what its deeds made of them |
| `TaskScripts.DeedIsSo` | esp-codes/main/hub_client.c:36-150 | the Wi-Fi bit and the reply discovery sees at a step are those of that step |
| `TaskScripts.HandlerStepsAreHandler` | esp-codes/main/wifi_manager.c:531-590 | the handler's atomic steps, run to the end, do to the bits what the whole handler does |
| `TaskScripts.BootEnds` | esp-codes/main/wifi_manager.c:593-619 | the boot task ends with station mode connecting or with the access point up and Wi-Fi lost |
| `TaskScripts.AnnouncedWithoutDevice` | esp-codes/main/device_session.c:398-416 | a run in USB/IP mode that sends CONNECT although the device never was ready |
| `WifiManager.RetryTrace` | esp-codes/main/wifi_manager.c:542-588 | the counter is the disconnects since the last GOT_IP modulo six; the access point starts exactly on every sixth |
| `WifiManager.BitsTrace` | esp-codes/main/wifi_manager.c:531-590 | all five bits after any events, read off the history alone |
| `WifiManager.FallbackCount` | esp-codes/main/wifi_manager.c:542-575 | an unbroken streak of n disconnects falls back n / 6 times |
| `WifiManager.Manager.constructor` | esp-codes/main/wifi_manager.c:593-619 | bits after boot, with and without stored credentials |
| `WifiManager.Manager.OnEvent` | esp-codes/main/wifi_manager.c:531-590 | the handler follows the value model and reports a fallback iff one happens |
| `WifiManager.Manager.OnEvents` | esp-codes/main/wifi_manager.c:531-590 | any sequence of events, with the number of fallbacks |
| `WifiManager.Manager.StartApMode` | esp-codes/main/wifi_manager.c:447-506 | access-point bits set, READY cleared, the counter and the failure bit left alone |
| `WifiManager.Manager.StartStaMode` | esp-codes/main/wifi_manager.c:508-528 | CONNECTING set, access-point and failure bits cleared, READY and LOST left alone |
| `TcpStream.RecvExactly` | daemon/src/network/TcpSocket.cpp:67-93 | a completed receive has consumed exactly the bytes asked for |
| `TcpStream.ReadEncoded` | daemon/src/network/HubServer.cpp:80-125 | whatever the schedule, reading a packet at the head of the stream yields that packet or none |
| `TcpStream.FramingRoundTrip` | daemon/src/network/HubServer.cpp:80-125 | the packets read are always a prefix of the packets sent, in order |
| `TcpStream.ReadsWholePackets` | daemon/src/network/HubServer.cpp:80-125 | from whole packets followed by a cut one, any number of reads yields only whole ones, in order |
| `TcpStream.RecvBreaksAtStart` | daemon/src/network/TcpSocket.cpp:67-93 | within a block a healthy receive breaks only by an EAGAIN before its first byte |
| `TcpStream.PacketBreaksAtStart` | daemon/src/network/HubServer.cpp:97-124 | the same for a header followed by its payload |
| `TcpStream.FailsIffAgainAtStart` | daemon/src/network/TcpSocket.cpp:67-93 | with a healthy schedule, reading fails iff an EAGAIN lands at the start of a header or payload |
| `TcpStream.AgainAfterHeaderFails` | daemon/src/network/TcpSocket.cpp:67-93 | an EAGAIN between a header and its payload loses the packet although all its bytes arrive |
| `TcpStream.WaitsOnlyForBytes` | daemon/src/network/TcpSocket.cpp:67-93 | a read that still waits has seen fewer deliveries than there are bytes |
| `TcpStream.FramingComplete` | daemon/src/network/HubServer.cpp:80-125 | every list of packets comes back whole from every healthy schedule with enough deliveries and no such EAGAIN |
| `TcpStream.TcpSocket.SendExactly` | daemon/src/network/TcpSocket.cpp:36-65 | a prefix of the data goes out, all of it exactly when the send succeeds |
| `TcpStream.SendIs` | daemon/src/network/TcpSocket.cpp:36-65 | a send puts out what the calls before the first failing one take, succeeds iff that is all of it, and otherwise fails iff there is such a call; retries take nothing |
| `TcpStream.TcpSocket.Receive` | daemon/src/network/TcpSocket.cpp:67-93 | the loop follows the value model and fills the buffer with the next bytes of the stream |
| `TcpStream.RecvIs` | daemon/src/network/TcpSocket.cpp:67-93 | a receive succeeds iff the calls before the first breaking one bring enough, and otherwise breaks iff there is such a call |
| `TcpStream.TcpSocket.ReadTcpPacket` | daemon/src/network/HubServer.cpp:80-125 | the method reads what the value model reads, from the bytes on the socket |
| `Passthrough.CapLosesLastByte` | daemon/src/handlers/PassthroughHandler.cpp:25-31 | a full read loses exactly its last byte, any other nothing |
| `Passthrough.DrainConserves` | daemon/src/handlers/PassthroughHandler.cpp:15-92 | the payloads fall short of the reads by one byte per full read, and equal them iff there is none |
| `Passthrough.FullReadLosesByte` | daemon/src/handlers/PassthroughHandler.cpp:25-31 | one read that fills the buffer reaches the wire without its last byte |
| `Passthrough.DrainedFramesArrive` | daemon/src/handlers/PassthroughHandler.cpp:67-92 | readTcpPacket recovers one packet per kernel read, in order, with the bytes up to the cap and consecutive numbers modulo 256 |
| `Passthrough.DrainedWhole` | daemon/src/handlers/PassthroughHandler.cpp:15-92 | a drain's sends all succeed iff the wire carries every packet whole |
| `Passthrough.DrainPieces` | daemon/src/handlers/PassthroughHandler.cpp:15-92 | the wire is one beginning of each packet after the other, every packet has its turn unless a send is still blocked, and success means none is cut |
| `Passthrough.EndsDrainedIs` | daemon/src/handlers/PassthroughHandler.cpp:67-92 | the handler succeeds iff the first read without data, if any, is EAGAIN |
| `Passthrough.WriteIs` | daemon/src/handlers/PassthroughHandler.cpp:49-63 | the kernel gets what the writes before the first error take, and EINTR costs nothing |
| `Passthrough.PassthroughHandler.SendRawDataPacket` | daemon/src/handlers/PassthroughHandler.cpp:15-47 | exactly the bytes its two sends take go out, the whole packet iff both succeed; the number advances either way |
| `Passthrough.PassthroughHandler.OnVhciReadable` | daemon/src/handlers/PassthroughHandler.cpp:67-92 | one packet per read until the drain ends, the part of a failed packet staying on the wire before the next; true iff it ended with EAGAIN |
| `Passthrough.PassthroughHandler.OnDeviceData` | daemon/src/handlers/PassthroughHandler.cpp:49-63 | the payload reaches the kernel in order, all of it iff the write succeeds |
| `DeviceEvents.ConnectionsCarry` | esp-codes/main/device_session.c:63-132 | over every sequence of attempts and outcomes each connection carries consecutive attempted events and at most a proper part of one more, connections do not overlap, and exactly the successful attempts are on one |
| `DeviceEvents.EventLayout` | esp-codes/main/device_session.c:88-116 | command 0x10, and a payload of device, 1 or 2 for CONNECT or DISCONNECT, speed, the three class bytes and the port 7789 plus the device |
| `DeviceEvents.ConnectionReads` | daemon/src/network/HubServer.cpp:127-191 | under every receive schedule the events of a device read off one connection are its attempted events without a gap from the opening on, the first being the opening attempt's |
| `DeviceEvents.EventsTakeTurns` | esp-codes/main/device_session.c:365-467 | over every run of the firmware's tasks, every outcome of the calls, other sessions' attempts in between and every receive schedule, what the daemon reads of a device off one connection alternates |
| `DeviceEvents.ConnectionReadWhole` | daemon/src/network/HubServer.cpp:80-125 | a healthy schedule with all the bytes yields every whole event of a connection |
| `DeviceEvents.UpIsCurrent` | esp-codes/main/device_session.c:63-86 | whether there is a connection is told from the outcomes alone |
| `DeviceEvents.DaemonReads` | daemon/src/network/HubServer.cpp:80-191 | for every number of reads and schedule per connection, a device's events read in opening order are exactly those of the attempts in the parts read |
| `DeviceEvents.DaemonSeesTurns` | esp-codes/main/device_session.c:365-467 | over every run of the tasks, outcome of the calls and reading of the connections, a device's events read alternate from CONNECT iff an even number of its attempts went unread before each that is read |
| `DeviceEvents.WholeReadsTaken` | esp-codes/main/device_session.c:88-132 | when every connection is read whole, the events read are those the sends took, and alternate iff the failed sends come in pairs |
| `DeviceEvents.ReceivedUnlessMissed` | esp-codes/main/device_session.c:88-132 | whichever attempts arrive, those and the missed ones are all of them, and all events arrive iff none is missed |
| `DeviceEvents.ReceivedAlternate` | esp-codes/main/device_session.c:88-132 | whichever attempts arrive, alternating events still alternate iff an even number is missed before each that arrives |
| `DeviceEvents.LostDisconnect` | esp-codes/main/device_session.c:118-126 | a DISCONNECT that cannot be sent: off the two connections' bytes the daemon reads CONNECT, CONNECT |
| `DeviceEvents.LostConnect` | esp-codes/main/device_session.c:118-126 | a CONNECT cut after three bytes: the daemon reads DISCONNECT first |
| `DeviceEvents.DisconnectLostInNetwork` | esp-codes/main/device_session.c:60-132 | every send for the device succeeds, yet the daemon reads CONNECT, CONNECT, as the first connection breaks after one packet |
| `DeviceEvents.EventSender.Connect` | esp-codes/main/device_session.c:63-86 | a connection is kept, opened, or not there, by the two flags and the outcomes |
| `DeviceEvents.EventSender.SendDeviceEvent` | esp-codes/main/device_session.c:88-132 | the sender follows the value model; a short send closes the connection, and the header number is used up iff there was one |
| `DeviceEvents.EventSender.SendAll` | esp-codes/main/device_session.c:88-132 | any sequence of calls |
| `UsbipProxy.WordAt` | esp-codes/main/usbip_proto.h:18-25 | every word of an encoded message reads back |
| `UsbipProxy.ReplyDecodes` | esp-codes/main/device_session.c:250-361 | every reply carries the command's seqnum, a RET_SUBMIT is followed by exactly actual_length bytes, and no reply exceeds 1328 bytes |
| `UsbipProxy.ReplyWords` | esp-codes/main/device_session.c:250-361 | for any twelve words and what follows: only commands 1 and 2 are answered, the reply is given word by word with the command's seqnum, direction and endpoint, and status and data are those of the transfer asked for, cut to the seventh word and 1280 |
| `UsbipProxy.AskedWords` | esp-codes/main/device_session.c:284-334 | the device is asked once for each SUBMIT and never otherwise, with the last eight header bytes as setup packet and the bytes that follow, up to the seventh word, as OUT data |
| `UsbipProxy.RepliesEchoSeqnum` | esp-codes/main/device_session.c:250-361 | over any command sequence each reply carries the seqnum word of its own command |
| `UsbipProxy.InDataIsDeviceData` | esp-codes/main/usb_driver.c:407-523 | an IN reply is the bytes of the completion taken, cut to the shorter of request and buffer, an oversize control request is refused, and a control reply is that data iff bytes were asked for or none were reported |
| `UsbipProxy.ZeroLengthRepliesOldByte` | esp-codes/main/usb_driver.c:515-522 | a control request for no bytes that completes with one is answered with the buffer's old first byte |
| `UsbipProxy.OneReplyEach` | esp-codes/main/device_session.c:250-361 | over any command sequence each SUBMIT or UNLINK of at least 48 bytes gets exactly one reply, in order, and nothing else does |
| `UsbipProxy.NumberedArrive` | esp-codes/main/device_session.c:145-163 | each reply datagram decodes to exactly the reply |
| `UsbipProxy.Proxy.HandleSubmit` | esp-codes/main/device_session.c:250-361 | one unfragmented datagram for each command replied to and none otherwise, without a socket or without memory; one driver call for each SUBMIT, whether replied to or not |
| `UsbipProxy.Proxy.HandleAll` | esp-codes/main/device_session.c:250-361 | the replies to any command sequence go out one datagram each, in order, consecutively numbered |
| `UsbipProxy.Proxy.RunTransfer` | esp-codes/main/device_session.c:284-334 | status, byte count and IN buffer are those of the transfer asked for, and the driver call is the one the command asks for |
| `UsbipProxy.Proxy.UsbControlIn` | esp-codes/main/usb_driver.c:472-523 | byte count or error, and the buffer overwritten by no more than was asked |
| `UsbipProxy.Proxy.UsbControlOut` | esp-codes/main/usb_driver.c:472-523 | negative iff too long, not completed or failed |
| `UsbipProxy.Proxy.UsbRecv` | esp-codes/main/usb_driver.c:407-427 | the queued frame, cut to the request |
| `CrashReporter.WriteByte` | esp-codes/main/crash_reporter.c:31-38 | writing at the position and advancing it keeps the most recent 600 bytes in order |
| `CrashReporter.CrashReporter.Append` | esp-codes/main/crash_reporter.c:31-38 | the ring holds the most recent 600 bytes; without the magic number nothing changes, whatever the fields hold |
| `CrashReporter.CrashReporter.AppendAll` | esp-codes/main/crash_reporter.c:31-38 | after any sequence of appends the ring holds the last 600 bytes of their concatenation |
| `CrashReporter.CrashReporter.Init` | esp-codes/main/crash_reporter.c:79-116 | after a crash the pending text is the whole sanitised ring as a C string; from any memory without the magic number, position included, the ring starts again empty |
| `CrashReporter.CrashReporter.Reconstruct` | esp-codes/main/crash_reporter.c:93-103 | the ring is laid out in chronological order and terminated |
| `CrashReporter.CrashReporter.Sanitise` | esp-codes/main/crash_reporter.c:104-109 | in place, newline, tab and 0x20 to 0x7E stay and every other byte becomes a dot, so no NUL remains |
| `CrashReporter.CrashReporter.Send` | esp-codes/main/crash_reporter.c:59-69 | pieces that join to the whole report, each but the last exactly 200 bytes and none empty |
| `PortalForm.DecodeEncoded` | esp-codes/main/wifi_manager.c:185-201 | decoding undoes form encoding for every value, up to the room there is |
| `PortalForm.DecodeIs` | esp-codes/main/wifi_manager.c:185-201 | the decoder on any input: plus, percent with digits in either case, a truncated percent, any other byte, no room |
| `PortalForm.BadDigits` | esp-codes/main/wifi_manager.c:185-201 | two bytes that are no digits decode to 0, and a digit before a bad one to itself |
| `PortalForm.FindIsFirst` | esp-codes/main/wifi_manager.c:205-220 | the search returns the least matching index, and nothing when there is none |
| `PortalForm.FindAfter` | esp-codes/main/wifi_manager.c:205-220 | the first occurrence of `key=` is the field itself when no earlier equals sign follows the key's last letter |
| `PortalForm.FieldAfter` | esp-codes/main/wifi_manager.c:205-220 | a field is recovered from any place in the body |
| `PortalForm.FormRoundTrip` | esp-codes/main/wifi_manager.c:364-384 | for all NUL-free values whose form fits the 511-byte request, the saved SSID is the manual one if non-empty, else the list's, and the password is the password; refused iff there is no SSID |
| `PortalForm.RequestIsCut` | esp-codes/main/wifi_manager.c:364-384 | an empty request is refused, and only the first 511 bytes up to a NUL count |
| `PortalForm.PortalLimitsFit` | esp-codes/main/wifi_manager.c:279-292 | within 31-byte SSIDs and a 63-byte password nothing is cut, not even by the request buffer |
| `PortalForm.UrlDecodeInto` | esp-codes/main/wifi_manager.c:185-201 | the loop writes exactly the decoded bytes and a terminator |
| `PortalForm.FormFieldInto` | esp-codes/main/wifi_manager.c:205-220 | found iff the key is there; the buffer then holds the field, and is untouched otherwise |
| `PortalForm.PostSave` | esp-codes/main/wifi_manager.c:364-384 | for any request, empty, too long or with NULs included, the handler's choice is the one the text in its buffer says |
| `DnsHijack.NameScans` | esp-codes/main/wifi_manager.c:103-110 | for every name of 1 to 63 byte labels at any offset, the scan and the RFC 1035 decoder end at the same place |
| `DnsHijack.PointerScans` | esp-codes/main/wifi_manager.c:103-110 | a name that ends in a compression pointer ends after the pointer's two bytes |
| `DnsHijack.ScanEndsAfterRoot` | esp-codes/main/wifi_manager.c:103-113 | the scan ends just past the root label and the question is exactly the bytes up to there plus four |
| `DnsHijack.ReplyDecodes` | esp-codes/main/wifi_manager.c:113-132 | the reply decodes to the same ID and question plus one A record whose pointer resolves to the question name; it fits iff the question ends at or before 496 |
| `DnsHijack.HandleQuery` | esp-codes/main/wifi_manager.c:81-134 | for any datagram: a short message ends the responder, an unfinished question is dropped, one ending after offset 496 writes out of bounds, and every other is answered with the reply |
| `DnsHijack.LegalNamesFit` | esp-codes/main/wifi_manager.c:104-132 | names within the 255 octets of RFC 1035 never reach that offset |
| `DnsHijack.LongNameOverflows` | esp-codes/main/wifi_manager.c:81-132 | a 483-byte name makes a question that ends at 499 within the received 511 bytes and a reply of 515 |

## Left out

- HandleQuery: gives a write past the 512-byte response as the outcome `OutOfBounds`; what such a write does to other memory is not modelled.
- SendDeviceEvent: one call is one step; two sessions racing on the shared event socket are not modelled.
- InDataIsDeviceData: speaks of the completion the call takes; that a completion or frame arriving after a timeout is taken by the next request is not modelled, because when it arrives is up to the USB host library.
- SendAll: header numbers are given with each attempt, because the session's counter is shared with send_raw and reset at every activation.
- BitsTrace: GOT_IP and disconnect events only; a new station start from the portal reboots the device.
- Reassembly buffers: a buffer stands for its first `lens[i]` bytes, so stale bytes beyond them are not modelled.
- List SSIDs of 32 bytes: the code cuts them to 31, and so does the model.
- The two halves together: the firmware sends RAW_DATA over UDP while the daemon reads TCP, so their data paths are modelled separately and only DEVICE_EVENT is followed across.
- The upstream polling loop of the firmware.
- UDP discovery transport, socket creation, epoll registration, sysfs writes and modprobe: outcomes only.
- USB host library, PHY, watchdog and descriptor walking: hardware behaviour.
- HTTP handlers, portal HTML, stored credentials and the Wi-Fi scan: platform plumbing.
- DNS host-name copy, log forwarding, CMD_LOG and Log.h: they only feed log lines.
- daemon/tests/WasdMouseTest.cpp: an interactive fake device.
- Liveness and timing: they rest on the scheduler and the network.
- Data races on the slot, the counters and reused socket numbers across a session restart: the code relies on delays there.
