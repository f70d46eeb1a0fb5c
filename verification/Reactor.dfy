/** The edge-triggered reactor as a state machine: steps of the server's event loop interleaved
    with arbitrary steps of peers and kernel.

    The kernel's epoll behaviour is stated by the steps: a registered descriptor enters the
    ready set whenever bytes or the end of the stream arrive (and possibly at other times), and
    leaves it when epoll_wait reports it. */
module Reactor {
  import opened Basics

  type Fd = nat
  type Id = nat

  // ---------- Connections ----------

  /** One direction of a connection. Bytes accepted from the peer's writes travel over the wire
      into the receive buffer, are read into the server's buffer, and reach the callback. */
  datatype Conn = Conn(accepted: seq<Byte>, wire: seq<Byte>, recv: seq<Byte>, buffered: seq<Byte>, delivered: seq<Byte>,
                       peerClosed: bool, eof: bool)
  {
    /** No byte is lost, duplicated or reordered; the end of the stream comes last. */
    ghost predicate Conserves() {
      && accepted == delivered + buffered + recv + wire
      && (eof ==> peerClosed && wire == [])
    }

    predicate Readable() {
      recv != [] || eof
    }
  }

  datatype ReadResult = Data(bytes: seq<Byte>) | EndOfStream | WouldBlock | ReadFailed

  const NewConn := Conn([], [], [], [], [], false, false)

  /** The peer writes. */
  function Write(c: Conn, b: seq<Byte>): Conn {
    c.(accepted := c.accepted + b, wire := c.wire + b)
  }

  /** The first n bytes on the wire arrive. */
  function Arrive(c: Conn, n: nat): Conn
    requires n <= |c.wire|
  {
    c.(wire := c.wire[n..], recv := c.recv + c.wire[..n])
  }

  /** What the network can do to a connection: something on the wire arrives, or its end does. */
  ghost predicate NetworkAct(c: Conn, c': Conn) {
    || (exists n: nat :: 0 < n <= |c.wire| && c' == Arrive(c, n))
    || (c.peerClosed && c.wire == [] && c' == c.(eof := true))
  }

  lemma WriteConserves(c: Conn, b: seq<Byte>)
    requires c.Conserves() && !c.peerClosed
    ensures Write(c, b).Conserves()
  {
    assert c.delivered + c.buffered + c.recv + (c.wire + b) == c.accepted + b;
  }

  lemma ArriveConserves(c: Conn, n: nat)
    requires c.Conserves() && n <= |c.wire|
    ensures Arrive(c, n).Conserves()
  {
    var rest := c.delivered + c.buffered;
    assert c.wire == c.wire[..n] + c.wire[n..];
    assert rest + (c.recv + c.wire[..n]) + c.wire[n..] == rest + c.recv + (c.wire[..n] + c.wire[n..]);
  }

  lemma NetworkConserves(c: Conn, c': Conn)
    requires c.Conserves() && NetworkAct(c, c')
    ensures c'.Conserves() && SameEnds(c, c')
    ensures c.eof && c.recv == [] ==> c' == c
  {
    if n: nat :| 0 < n <= |c.wire| && c' == Arrive(c, n) {
      ArriveConserves(c, n);
    }
  }

  /** What the network leaves alone: what the peer handed over and what the server took. */
  ghost predicate SameEnds(c: Conn, c': Conn) {
    && c'.accepted == c.accepted && c'.peerClosed == c.peerClosed
    && c'.delivered == c.delivered && c'.buffered == c.buffered
  }

  // ---------- The server ----------

  /** Where the server is: at epoll_wait, or at event i of a batch. */
  datatype Pc =
    | Waiting
    | Dispatching(events: seq<Fd>, i: nat)
    | Accepting(events: seq<Fd>, i: nat)
    | Registering(events: seq<Fd>, i: nat, fd: Fd)
    | Reading(events: seq<Fd>, i: nat)
    | Delivering(events: seq<Fd>, i: nat)
    | Closing(events: seq<Fd>, i: nat, graceful: bool)
    | Stopping
    | Stopped

  datatype ClosedConn = ClosedConn(id: Id, graceful: bool)

  /** `net` holds the streams of all connections there ever were; `conns` says which connection
      a descriptor of the server stands for, and `open` which descriptors the server holds. */
  datatype State = State(
    serverFd: Fd, epollFd: Fd, bufferSize: nat, maxEvents: nat,
    net: map<Id, Conn>, conns: map<Fd, Id>, registered: set<Fd>, ready: set<Fd>, backlog: seq<Id>,
    closed: seq<ClosedConn>, open: set<Fd>, pc: Pc)

  predicate Initial(s: State) {
    && s.net == map[] && s.conns == map[] && s.registered == {} && s.ready == {} && s.backlog == [] && s.closed == []
    && s.serverFd != s.epollFd && s.open == {s.serverFd, s.epollFd} && s.pc == Waiting
  }

  predicate Attached(s: State, fd: Fd) {
    fd in s.conns && s.conns[fd] in s.net
  }

  /** The stream behind a descriptor. */
  function Stream(s: State, fd: Fd): Conn
    requires Attached(s, fd)
  {
    s.net[s.conns[fd]]
  }

  function Advance(events: seq<Fd>, i: nat): Pc {
    if i + 1 < |events| then Dispatching(events, i + 1) else Waiting
  }

  // ---------- Steps of the environment ----------

  /** A peer connects: a new connection waits to be accepted. */
  ghost predicate ConnectStep(s: State, s': State, id: Id) {
    !s.pc.Stopped? && id !in s.net && s' == s.(net := s.net[id := NewConn], backlog := s.backlog + [id])
  }

  /** The peer of a connection hands bytes to its kernel. */
  ghost predicate WriteStep(s: State, s': State, id: Id, b: seq<Byte>) {
    id in s.net && !s.net[id].peerClosed && s' == s.(net := s.net[id := Write(s.net[id], b)])
  }

  ghost predicate FinishStep(s: State, s': State, id: Id) {
    id in s.net && s' == s.(net := s.net[id := s.net[id].(peerClosed := true)])
  }

  /** Descriptors that epoll watches for this connection. */
  function Watching(s: State, id: Id): set<Fd> {
    set fd | fd in s.registered && fd in s.conns && s.conns[fd] == id
  }

  ghost predicate ArriveStep(s: State, s': State, id: Id, c': Conn) {
    && id in s.net && NetworkAct(s.net[id], c')
    && s' == s.(net := s.net[id := c'], ready := s.ready + Watching(s, id))
  }

  ghost predicate SpuriousStep(s: State, s': State, fd: Fd) {
    fd in s.registered && s' == s.(ready := s.ready + {fd})
  }

  /** The peer of connection `id` acts. */
  ghost predicate PeerStep(s: State, s': State, id: Id) {
    (exists b :: WriteStep(s, s', id, b)) || FinishStep(s, s', id)
  }

  ghost predicate KernelStep(s: State, s': State) {
    || (exists id :: ConnectStep(s, s', id))
    || (exists id, c' :: ArriveStep(s, s', id, c'))
    || (exists fd :: SpuriousStep(s, s', fd))
  }

  ghost predicate EnvStep(s: State, s': State) {
    KernelStep(s, s') || exists id :: PeerStep(s, s', id)
  }

  // ---------- Steps of the server ----------

  /** epoll_wait: a batch of ready descriptors; the listening socket is level-triggered. */
  predicate IsBatch(s: State, events: seq<Fd>) {
    && 0 < |events| <= s.maxEvents && Distinct(events)
    && (forall k :: 0 <= k < |events| ==> events[k] in s.ready || (events[k] == s.serverFd && s.backlog != []))
  }

  function Reported(s: State, events: seq<Fd>): State {
    s.(ready := s.ready - (set e | e in events), pc := Dispatching(events, 0))
  }

  ghost predicate WaitStep(s: State, s': State, events: seq<Fd>) {
    s.pc == Waiting && IsBatch(s, events) && s' == Reported(s, events)
  }

  ghost predicate DispatchStep(s: State, s': State) {
    && s.pc.Dispatching? && s.pc.i < |s.pc.events|
    && s' == s.(pc := if s.pc.events[s.pc.i] == s.serverFd then Accepting(s.pc.events, s.pc.i) else Reading(s.pc.events, s.pc.i))
  }

  /** accept returns an unused descriptor for the oldest pending connection. */
  ghost predicate AcceptStep(s: State, s': State, fd: Fd) {
    && s.pc.Accepting? && s.backlog != [] && fd !in s.open
    && s' == s.(conns := s.conns[fd := s.backlog[0]], backlog := s.backlog[1..], open := s.open + {fd},
                pc := Registering(s.pc.events, s.pc.i, fd))
  }

  /** accept finds nothing, or fails. */
  ghost predicate AcceptEndStep(s: State, s': State) {
    s.pc.Accepting? && s' == s.(pc := Advance(s.pc.events, s.pc.i))
  }

  /** EPOLL_CTL_ADD reports a descriptor that is already readable. */
  ghost predicate RegisterStep(s: State, s': State) {
    && s.pc.Registering? && Attached(s, s.pc.fd)
    && s' == s.(registered := s.registered + {s.pc.fd},
                ready := if Stream(s, s.pc.fd).Readable() then s.ready + {s.pc.fd} else s.ready,
                pc := Accepting(s.pc.events, s.pc.i))
  }

  /** Making the socket non-blocking or registering it failed: it is closed. */
  ghost predicate RejectStep(s: State, s': State) {
    && s.pc.Registering? && Attached(s, s.pc.fd)
    && s' == s.(conns := s.conns - {s.pc.fd}, closed := s.closed + [ClosedConn(s.conns[s.pc.fd], false)],
                open := s.open - {s.pc.fd}, pc := Accepting(s.pc.events, s.pc.i))
  }

  predicate AtConn(s: State) {
    (s.pc.Reading? || s.pc.Delivering? || s.pc.Closing?) && s.pc.i < |s.pc.events| && Attached(s, s.pc.events[s.pc.i])
  }

  function CurrentFd(s: State): Fd
    requires AtConn(s)
  {
    s.pc.events[s.pc.i]
  }

  function Current(s: State): Conn
    requires AtConn(s)
  {
    Stream(s, CurrentFd(s))
  }

  /** s with another stream behind the current descriptor. */
  function WithCurrent(s: State, c: Conn, pc: Pc): State
    requires AtConn(s)
  {
    s.(net := s.net[s.conns[CurrentFd(s)] := c], pc := pc)
  }

  function Take(c: Conn, n: nat): Conn
    requires n <= |c.recv|
  {
    c.(recv := c.recv[n..], buffered := c.recv[..n])
  }

  function Handed(c: Conn): Conn {
    c.(delivered := c.delivered + c.buffered, buffered := [])
  }

  ghost predicate ReadStep(s: State, s': State, n: nat) {
    && AtConn(s) && s.pc.Reading? && 0 < n <= |Current(s).recv| && n <= s.bufferSize
    && s' == WithCurrent(s, Take(Current(s), n), Delivering(s.pc.events, s.pc.i))
  }

  ghost predicate DeliverStep(s: State, s': State) {
    && AtConn(s) && s.pc.Delivering?
    && s' == WithCurrent(s, Handed(Current(s)), Reading(s.pc.events, s.pc.i))
  }

  /** read returns 0 at the end of the stream, and always when asked for no bytes. */
  ghost predicate ReadEofStep(s: State, s': State) {
    && AtConn(s) && s.pc.Reading? && (s.bufferSize == 0 || (Current(s).recv == [] && Current(s).eof))
    && s' == s.(pc := Closing(s.pc.events, s.pc.i, true))
  }

  ghost predicate ReadErrorStep(s: State, s': State) {
    AtConn(s) && s.pc.Reading? && s' == s.(pc := Closing(s.pc.events, s.pc.i, false))
  }

  ghost predicate WouldBlockStep(s: State, s': State) {
    && AtConn(s) && s.pc.Reading? && s.bufferSize > 0 && !Current(s).Readable()
    && s' == s.(pc := Advance(s.pc.events, s.pc.i))
  }

  ghost predicate CloseStep(s: State, s': State) {
    && AtConn(s) && s.pc.Closing?
    && var fd := CurrentFd(s);
       s' == s.(conns := s.conns - {fd}, registered := s.registered - {fd}, ready := s.ready - {fd}, open := s.open - {fd},
                closed := s.closed + [ClosedConn(s.conns[fd], s.pc.graceful)], pc := Advance(s.pc.events, s.pc.i))
  }

  /** Cleanup outside the loop closes the epoll descriptor, which forgets what it watched. */
  ghost predicate CloseEpollStep(s: State, s': State) {
    s.pc == Waiting && s' == s.(registered := {}, ready := {}, open := s.open - {s.epollFd}, pc := Stopping)
  }

  /** Then it closes the listening descriptor, and whoever was waiting to be accepted is dropped. */
  ghost predicate CloseListenerStep(s: State, s': State) {
    s.pc == Stopping && s' == s.(backlog := [], open := s.open - {s.serverFd}, pc := Stopped)
  }

  ghost predicate ServerStep(s: State, s': State) {
    || (exists events :: WaitStep(s, s', events))
    || DispatchStep(s, s')
    || (exists fd :: AcceptStep(s, s', fd)) || AcceptEndStep(s, s')
    || RegisterStep(s, s') || RejectStep(s, s')
    || (exists n :: ReadStep(s, s', n)) || DeliverStep(s, s')
    || ReadEofStep(s, s') || ReadErrorStep(s, s') || WouldBlockStep(s, s')
    || CloseStep(s, s') || CloseEpollStep(s, s') || CloseListenerStep(s, s')
  }

  ghost predicate Step(s: State, s': State) {
    s' == s || EnvStep(s, s') || ServerStep(s, s')
  }

  ghost predicate StepAt(run: seq<State>, k: nat)
    requires k + 1 < |run|
  {
    Step(run[k], run[k + 1])
  }

  ghost predicate AreSteps(run: seq<State>) {
    forall k :: 0 <= k < |run| - 1 ==> StepAt(run, k)
  }

  ghost predicate IsRun(run: seq<State>) {
    run != [] && Initial(run[0]) && AreSteps(run)
  }

  lemma RunsJoin(run: seq<State>, rest: seq<State>)
    requires run != [] && AreSteps(run) && AreSteps(rest)
    requires rest != [] ==> Step(run[|run| - 1], rest[0])
    ensures AreSteps(run + rest)
  {
    var whole := run + rest;
    forall k | 0 <= k < |whole| - 1
      ensures StepAt(whole, k)
    {
      if k < |run| - 1 {
        assert StepAt(run, k);
      } else if k >= |run| {
        assert StepAt(rest, k - |run|);
      }
    }
  }

  // ---------- The invariant ----------

  predicate OutsideBatch(pc: Pc) {
    pc.Waiting? || pc.Stopping? || pc.Stopped?
  }

  /** The events of the current batch that have not been dealt with. */
  ghost function Held(pc: Pc): seq<Fd> {
    if OutsideBatch(pc) then [] else if pc.i <= |pc.events| then pc.events[pc.i..] else []
  }

  ghost predicate PcOk(s: State) {
    && (!OutsideBatch(s.pc) ==>
          && s.pc.i < |s.pc.events| && Distinct(s.pc.events)
          && (forall k :: s.pc.i <= k < |s.pc.events| ==> s.pc.events[k] == s.serverFd || s.pc.events[k] in s.registered))
    && (s.pc.Accepting? || s.pc.Registering? ==> s.pc.events[s.pc.i] == s.serverFd)
    && (s.pc.Reading? || s.pc.Delivering? || s.pc.Closing? ==> s.pc.events[s.pc.i] in s.registered)
  }

  ghost predicate FdsOk(s: State) {
    && s.serverFd !in s.conns && s.epollFd !in s.conns && s.serverFd != s.epollFd && s.ready <= s.registered
    && (!s.pc.Stopping? && !s.pc.Stopped? ==>
          s.registered == if s.pc.Registering? && s.pc.fd in s.conns then s.conns.Keys - {s.pc.fd} else s.conns.Keys)
    && (s.pc.Registering? ==> s.pc.fd in s.conns && s.pc.fd !in s.registered)
    && (s.pc.Stopping? || s.pc.Stopped? ==> s.registered == {})
    && (forall id :: id in s.backlog ==> id in s.net)
    && (forall fd :: fd in s.conns ==> s.conns[fd] in s.net)
  }

  /** The server holds its clients' descriptors and, until it closes them, its own two. */
  ghost predicate OpenOk(s: State) {
    s.open == s.conns.Keys + (if s.pc.Stopping? || s.pc.Stopped? then {} else {s.epollFd})
              + (if s.pc.Stopped? then {} else {s.serverFd})
  }

  /** Whatever is readable is pending in the kernel or still to be drained in this batch. */
  ghost predicate Covered(s: State) {
    forall fd :: fd in s.registered && Attached(s, fd) && Stream(s, fd).Readable() ==> fd in s.ready || fd in Held(s.pc)
  }

  /** Bytes are in the read buffer only between a read and the callback. */
  ghost predicate BufferOk(s: State, id: Id)
    requires id in s.net
  {
    s.net[id].buffered != [] ==> s.pc.Delivering? && AtConn(s) && s.conns[CurrentFd(s)] == id
  }

  ghost predicate StreamsOk(s: State) {
    && (forall id :: id in s.net ==> s.net[id].Conserves() && BufferOk(s, id))
    && (forall k :: 0 <= k < |s.closed| ==> s.closed[k].id in s.net && ClosedOk(s.net[s.closed[k].id], s.closed[k].graceful, s.bufferSize))
    && (s.pc.Closing? && s.pc.graceful && s.bufferSize > 0 && AtConn(s) ==> Current(s).recv == [] && Current(s).eof)
  }

  /** A connection closed after the end of its stream has delivered everything. */
  ghost predicate ClosedOk(c: Conn, graceful: bool, bufferSize: nat) {
    graceful && bufferSize > 0 ==> c.delivered == c.accepted && c.eof && c.recv == c.wire == c.buffered == []
  }

  ghost predicate Inv(s: State) {
    PcOk(s) && FdsOk(s) && OpenOk(s) && Covered(s) && StreamsOk(s)
  }

  lemma InitialInv(s: State)
    requires Initial(s)
    ensures Inv(s)
  {
  }

  lemma ConnectKeepsInv(s: State, s': State, id: Id)
    requires Inv(s) && ConnectStep(s, s', id)
    ensures Inv(s')
  {
    assert NewConn.Conserves();
  }

  /** What others may do to one stream: it still conserves, the server's end is as it was, a stream
      that was drained to its end stays so, and what becomes readable becomes ready. */
  ghost predicate Harmless(s: State, id: Id, c': Conn, extra: set<Fd>)
    requires id in s.net
  {
    var c := s.net[id];
    && c'.Conserves() && c'.delivered == c.delivered && c'.buffered == c.buffered
    && (c.eof && c.recv == [] ==> c'.eof && c'.recv == c'.wire == [] && c'.accepted == c.accepted)
    && extra <= s.registered && (c'.Readable() && !c.Readable() ==> Watching(s, id) <= extra)
  }

  lemma HarmlessKeepsStreams(s: State, s': State, id: Id, c': Conn, extra: set<Fd>)
    requires StreamsOk(s) && id in s.net && Harmless(s, id, c', extra)
    requires s' == s.(net := s.net[id := c'], ready := s.ready + extra)
    ensures StreamsOk(s')
  {
  }

  lemma HarmlessKeepsInv(s: State, s': State, id: Id, c': Conn, extra: set<Fd>)
    requires Inv(s) && id in s.net && Harmless(s, id, c', extra)
    requires s' == s.(net := s.net[id := c'], ready := s.ready + extra)
    ensures Inv(s')
  {
    HarmlessKeepsStreams(s, s', id, c', extra);
    assert Covered(s');
  }

  lemma PeerKeepsInv(s: State, s': State, id: Id)
    requires Inv(s) && PeerStep(s, s', id)
    ensures Inv(s')
  {
    var c := s.net[id];
    assert c.Conserves() && s.ready + {} == s.ready;
    if b :| WriteStep(s, s', id, b) {
      WriteConserves(c, b);
      HarmlessKeepsInv(s, s', id, Write(c, b), {});
    } else {
      HarmlessKeepsInv(s, s', id, c.(peerClosed := true), {});
    }
  }

  lemma ArriveKeepsInv(s: State, s': State, id: Id, c': Conn)
    requires Inv(s) && ArriveStep(s, s', id, c')
    ensures Inv(s')
  {
    NetworkConserves(s.net[id], c');
    HarmlessKeepsInv(s, s', id, c', Watching(s, id));
  }

  lemma EnvKeepsInv(s: State, s': State)
    requires Inv(s) && EnvStep(s, s')
    ensures Inv(s')
  {
    if id :| ConnectStep(s, s', id) {
      ConnectKeepsInv(s, s', id);
    } else if id, c' :| ArriveStep(s, s', id, c') {
      ArriveKeepsInv(s, s', id, c');
    } else if id :| PeerStep(s, s', id) {
      PeerKeepsInv(s, s', id);
    }
  }

  lemma WaitKeepsInv(s: State, s': State, events: seq<Fd>)
    requires Inv(s) && WaitStep(s, s', events)
    ensures Inv(s')
  {
    assert Held(s'.pc) == events;
  }

  /** Moving on to the next event gives up only the current one. */
  lemma HeldAdvance(events: seq<Fd>, i: nat, fd: Fd)
    requires i < |events|
    ensures fd in events[i..] ==> fd == events[i] || fd in Held(Advance(events, i))
  {
    assert events[i..] == [events[i]] + events[i + 1..];
  }

  lemma AdvanceCovers(s: State, s': State)
    requires Covered(s) && !OutsideBatch(s.pc) && s.pc.i < |s.pc.events|
    requires s'.pc == Advance(s.pc.events, s.pc.i)
    requires s'.registered <= s.registered
    requires s'.net == s.net && forall fd :: fd in s'.registered && fd in s'.conns ==> fd in s.conns && s.conns[fd] == s'.conns[fd]
    requires forall fd :: fd in s.ready && fd in s'.registered ==> fd in s'.ready
    requires var e := s.pc.events[s.pc.i]; e in s'.registered && Attached(s', e) ==> !Stream(s', e).Readable()
    ensures Covered(s')
  {
    forall fd | fd in s'.registered && Attached(s', fd) && Stream(s', fd).Readable()
      ensures fd in s'.ready || fd in Held(s'.pc)
    {
      HeldAdvance(s.pc.events, s.pc.i, fd);
    }
  }

  lemma AcceptKeepsInv(s: State, s': State, fd: Fd)
    requires Inv(s) && AcceptStep(s, s', fd)
    ensures Inv(s')
  {
    assert s'.conns.Keys == s.conns.Keys + {fd};
    assert s'.conns.Keys - {fd} == s.conns.Keys;
  }

  lemma AcceptEndKeepsInv(s: State, s': State)
    requires Inv(s) && AcceptEndStep(s, s')
    ensures Inv(s')
  {
    AdvanceCovers(s, s');
  }

  lemma RegisterKeepsInv(s: State, s': State)
    requires Inv(s) && (RegisterStep(s, s') || RejectStep(s, s'))
    ensures Inv(s')
  {
  }

  lemma ReadConserves(c: Conn, n: nat)
    requires c.Conserves() && c.buffered == [] && n <= |c.recv|
    ensures Take(c, n).Conserves()
  {
    assert c.recv == c.recv[..n] + c.recv[n..];
    assert c.delivered + (c.recv[..n] + c.recv[n..]) == c.delivered + c.recv[..n] + c.recv[n..];
  }

  lemma ReadKeepsInv(s: State, s': State, n: nat)
    requires Inv(s) && ReadStep(s, s', n)
    ensures Inv(s')
  {
    ReadConserves(Current(s), n);
    assert Held(s'.pc) == Held(s.pc) && CurrentFd(s) == Held(s.pc)[0];
  }

  lemma DeliverKeepsInv(s: State, s': State)
    requires Inv(s) && DeliverStep(s, s')
    ensures Inv(s')
  {
    var c := Current(s);
    assert c.delivered + c.buffered + [] == c.delivered + c.buffered;
    assert Held(s'.pc) == Held(s.pc);
  }

  lemma ReadEndKeepsInv(s: State, s': State)
    requires Inv(s) && (ReadEofStep(s, s') || ReadErrorStep(s, s'))
    ensures Inv(s')
  {
    assert Held(s'.pc) == Held(s.pc);
  }

  lemma WouldBlockKeepsInv(s: State, s': State)
    requires Inv(s) && WouldBlockStep(s, s')
    ensures Inv(s')
  {
    AdvanceCovers(s, s');
  }

  lemma CloseKeepsInv(s: State, s': State)
    requires Inv(s) && CloseStep(s, s')
    ensures Inv(s')
  {
    var c := Current(s);
    assert c.accepted == c.delivered + (c.buffered + c.recv + c.wire);
    AdvanceCovers(s, s');
  }

  lemma ServerKeepsInv(s: State, s': State)
    requires Inv(s) && ServerStep(s, s')
    ensures Inv(s')
  {
    if exists events :: WaitStep(s, s', events) {
      var events :| WaitStep(s, s', events);
      WaitKeepsInv(s, s', events);
    } else if DispatchStep(s, s') {
      assert Held(s'.pc) == Held(s.pc);
    } else if exists fd :: AcceptStep(s, s', fd) {
      var fd :| AcceptStep(s, s', fd);
      AcceptKeepsInv(s, s', fd);
    } else if AcceptEndStep(s, s') {
      AcceptEndKeepsInv(s, s');
    } else if RegisterStep(s, s') || RejectStep(s, s') {
      RegisterKeepsInv(s, s');
    } else if exists n :: ReadStep(s, s', n) {
      var n :| ReadStep(s, s', n);
      ReadKeepsInv(s, s', n);
    } else if DeliverStep(s, s') {
      DeliverKeepsInv(s, s');
    } else if ReadEofStep(s, s') || ReadErrorStep(s, s') {
      ReadEndKeepsInv(s, s');
    } else if WouldBlockStep(s, s') {
      WouldBlockKeepsInv(s, s');
    } else if CloseStep(s, s') {
      CloseKeepsInv(s, s');
    }
  }

  lemma {:induction false} RunKeepsInv(run: seq<State>, k: nat)
    requires IsRun(run) && k < |run|
    ensures Inv(run[k])
  {
    if k == 0 {
      InitialInv(run[0]);
    } else {
      RunKeepsInv(run, k - 1);
      assert StepAt(run, k - 1);
      if EnvStep(run[k - 1], run[k]) {
        EnvKeepsInv(run[k - 1], run[k]);
      } else if ServerStep(run[k - 1], run[k]) {
        ServerKeepsInv(run[k - 1], run[k]);
      }
    }
  }

  // ---------- The results ----------

  /** Every client with unread bytes or an unseen end of stream is pending in the kernel. */
  ghost predicate NothingLost(s: State) {
    forall fd :: fd in s.conns ==>
      && Attached(s, fd)
      && (Stream(s, fd).recv != [] || Stream(s, fd).eof ==> fd in s.registered && fd in s.ready)
  }

  /** No lost readiness: whenever the server waits, nothing readable is without a pending event. */
  lemma NoLostReadiness(run: seq<State>, k: nat)
    requires IsRun(run) && k < |run| && run[k].pc == Waiting
    ensures NothingLost(run[k])
  {
    RunKeepsInv(run, k);
    assert Covered(run[k]);
  }

  /** In every state of every run, what was delivered and what is under way make up, in order,
      what was accepted, for every connection there ever was. */
  lemma StreamConserved(run: seq<State>, k: nat, id: Id)
    requires IsRun(run) && k < |run| && id in run[k].net
    ensures var c := run[k].net[id]; c.accepted == c.delivered + c.buffered + c.recv + c.wire
    ensures run[k].net[id].delivered <= run[k].net[id].accepted
  {
    RunKeepsInv(run, k);
    var c := run[k].net[id];
    assert c.Conserves();
    assert c.accepted == c.delivered + (c.buffered + c.recv + c.wire);
  }

  /** With a read buffer of at least one byte, a connection that the server closed because its
      peer had finished delivered every byte, and has done so ever since. */
  lemma GracefulCloseDeliversAll(run: seq<State>, k: nat, j: nat)
    requires IsRun(run) && k < |run| && j < |run[k].closed|
    ensures run[k].closed[j].id in run[k].net
    ensures run[k].bufferSize > 0 && run[k].closed[j].graceful ==>
              run[k].net[run[k].closed[j].id].delivered == run[k].net[run[k].closed[j].id].accepted
  {
    RunKeepsInv(run, k);
    assert StreamsOk(run[k]);
  }

  lemma {:induction false} ParametersFixed(run: seq<State>, k: nat)
    requires IsRun(run) && k < |run|
    ensures run[k].bufferSize == run[0].bufferSize && run[k].serverFd == run[0].serverFd && run[k].epollFd == run[0].epollFd
  {
    if k > 0 {
      ParametersFixed(run, k - 1);
      assert StepAt(run, k - 1);
    }
  }

  ghost predicate DeliveredAll(s: State, id: Id) {
    id in s.net && s.net[id].delivered == s.net[id].accepted
  }

  ghost predicate GracefulIsComplete(run: seq<State>) {
    forall k, j :: 0 <= k < |run| && 0 <= j < |run[k].closed| && run[k].closed[j].graceful ==>
      DeliveredAll(run[k], run[k].closed[j].id)
  }

  lemma AcceptOneRun(s: State, fd: Fd) returns (run: seq<State>)
    requires Initial(s) && s.maxEvents > 0 && fd != s.serverFd && fd != s.epollFd
    ensures IsRun(run) && run[0] == s
    ensures run[|run| - 1] == s.(net := map[0 := NewConn], conns := map[fd := 0], registered := {fd}, open := s.open + {fd})
  {
    var events := [s.serverFd];
    var s1 := s.(net := map[0 := NewConn], backlog := [0]);
    var s2 := s1.(pc := Dispatching(events, 0));
    var s3 := s2.(pc := Accepting(events, 0));
    var s4 := s3.(conns := map[fd := 0], backlog := [], open := s.open + {fd}, pc := Registering(events, 0, fd));
    var s5 := s4.(registered := {fd}, pc := Accepting(events, 0));
    var s6 := s5.(pc := Waiting);
    run := [s, s1, s2, s3, s4, s5, s6];
    assert ConnectStep(s, s1, 0) && WaitStep(s1, s2, events) && AcceptStep(s3, s4, fd) && RegisterStep(s4, s5);
  }

  /** Reading with an empty buffer looks like the end of the stream. */
  lemma CloseUnreadRun(s: State, fd: Fd) returns (run: seq<State>)
    requires s.bufferSize == 0 && s.maxEvents > 0 && s.pc == Waiting && fd != s.serverFd
    requires s.conns == map[fd := 0] && 0 in s.net && s.registered == s.ready == {fd} && s.closed == []
    ensures |run| > 0 && run[0] == s && AreSteps(run)
    ensures run[|run| - 1].closed == [ClosedConn(0, true)] && run[|run| - 1].net == s.net
  {
    var events := [fd];
    var s1 := s.(ready := {}, pc := Dispatching(events, 0));
    var s2 := s1.(pc := Reading(events, 0));
    var s3 := s2.(pc := Closing(events, 0, true));
    var s4 := s3.(conns := map[], registered := {}, open := s.open - {fd}, closed := [ClosedConn(0, true)], pc := Waiting);
    run := [s, s1, s2, s3, s4];
    assert WaitStep(s, s1, events) && CloseStep(s3, s4);
  }

  /** With an empty buffer, bytes that arrived can be closed away unread. */
  lemma EmptyBufferRun(s: State, b: Byte) returns (run: seq<State>)
    requires Initial(s) && s.bufferSize == 0 && s.maxEvents > 0
    ensures IsRun(run) && run[0] == s && !GracefulIsComplete(run)
  {
    var fd := s.serverFd + s.epollFd + 1;
    var accepted := AcceptOneRun(s, fd);
    var c1, c2 := Write(NewConn, [b]), Arrive(Write(NewConn, [b]), 1);
    var s0 := accepted[|accepted| - 1];
    var s1 := s0.(net := map[0 := c1]);
    var s2 := s0.(net := map[0 := c2], ready := {fd});
    assert WriteStep(s0, s1, 0, [b]) && PeerStep(s0, s1, 0);
    assert ArriveStep(s1, s2, 0, c2) by {
      assert Watching(s1, 0) == {fd};
    }
    var unread := CloseUnreadRun(s2, fd);
    RunsJoin(accepted, [s1]);
    RunsJoin(accepted + [s1], unread);
    run := accepted + [s1] + unread;
    var k := |run| - 1;
    assert run[k] == unread[|unread| - 1] && !DeliveredAll(run[k], run[k].closed[0].id);
  }

  /** A graceful close means complete delivery, in every run, exactly when the buffer is not empty. */
  lemma GracefulIsCompleteIff(bufferSize: nat)
    ensures (forall run: seq<State> :: IsRun(run) && run[0].bufferSize == bufferSize ==> GracefulIsComplete(run)) <==> bufferSize > 0
  {
    if bufferSize > 0 {
      forall run: seq<State> | IsRun(run) && run[0].bufferSize == bufferSize
        ensures GracefulIsComplete(run)
      {
        forall k: nat, j: nat | k < |run| && j < |run[k].closed| && run[k].closed[j].graceful
          ensures DeliveredAll(run[k], run[k].closed[j].id)
        {
          ParametersFixed(run, k);
          GracefulCloseDeliversAll(run, k, j);
        }
      }
    } else {
      var run := EmptyBufferRun(State(3, 4, 0, 1, map[], map[], {}, {}, [], [], {3, 4}, Waiting), 7);
    }
  }

  /** A stopped server holds exactly its clients' descriptors: it has released all of them exactly
      when no client was connected. */
  lemma StopReleasesAllIffNoClients(run: seq<State>, k: nat)
    requires IsRun(run) && k < |run| && run[k].pc.Stopped?
    ensures run[k].open == run[k].conns.Keys
    ensures run[k].open == {} <==> run[k].conns == map[]
  {
    RunKeepsInv(run, k);
  }
}
