/** The server's loops as code, run against a kernel whose every call is a step of the reactor's
    state machine: the loops implement the machine, so what holds on all its runs holds of them.

    Between two calls peers and network may act; `budget` says how many more times they will,
    which is what makes draining a descriptor end. */
module Server {
  import opened Basics
  import opened Reactor

  datatype WaitResult = Batch(events: seq<Fd>) | TimedOut | Interrupted | WaitFailed
  datatype AcceptResult = Accepted(fd: Fd) | NoneLeft

  // ---------- Peers and network ----------

  /** What the actions of others leave alone. */
  ghost predicate SameServer(s: State, s': State) {
    && s'.pc == s.pc && s'.conns == s.conns && s'.registered == s.registered && s'.closed == s.closed && s'.open == s.open
    && SameSetup(s, s')
    && forall id :: id in s.net ==>
         id in s'.net && s'.net[id].delivered == s.net[id].delivered && s'.net[id].buffered == s.net[id].buffered
  }

  ghost predicate SameSetup(s: State, s': State) {
    s'.serverFd == s.serverFd && s'.epollFd == s.epollFd && s'.bufferSize == s.bufferSize && s'.maxEvents == s.maxEvents
  }

  /** What a connection has had delivered, if it exists. */
  ghost function Delivered(s: State, id: Id): seq<Byte> {
    if id in s.net then s.net[id].delivered else []
  }

  ghost predicate SameDelivered(s: State, s': State) {
    forall id :: Delivered(s', id) == Delivered(s, id)
  }

  /** Connection id is behind a descriptor that epoll watches. */
  ghost predicate Watched(s: State, id: Id) {
    exists fd :: fd in s.registered && fd in s.conns && s.conns[fd] == id
  }

  // ---------- The kernel ----------

  /** Besides its state the kernel remembers what it answered: the connections it handed out, those
      it made non-blocking, those for which fcntl or epoll_ctl failed, and what epoll_wait returned. */
  class Kernel {
    var s: State
    var budget: nat
    ghost var run: seq<State>
    ghost var accepted: seq<Id>
    ghost var nonBlocking: set<Id>
    ghost var failed: set<Id>
    ghost var waits: seq<WaitResult>

    /** The kernel is in the last state of a run. */
    ghost predicate Valid()
      reads this
    {
      IsRun(run) && run[|run| - 1] == s
    }

    constructor (initial: State, actions: nat)
      requires Initial(initial)
      ensures Valid() && s == initial && run == [initial] && budget == actions
      ensures accepted == [] && nonBlocking == {} && failed == {} && waits == []
    {
      s, budget, run := initial, actions, [initial];
      accepted, nonBlocking, failed, waits := [], {}, {}, [];
    }

    lemma Invariant()
      requires Valid()
      ensures Inv(s)
    {
      RunKeepsInv(run, |run| - 1);
    }

    method Take(s': State)
      requires Valid() && Step(s, s')
      modifies this`s, this`run
      ensures Valid() && s == s' && run == old(run) + [s']
    {
      RunsJoin(run, [s']);
      s, run := s', run + [s'];
    }

    method Act()
      requires Valid() && budget > 0
      modifies this`s, this`run, this`budget
      ensures Valid() && old(run) <= run && budget == old(budget) - 1
      ensures SameServer(old(s), s) && SameDelivered(old(s), s)
    {
      budget := budget - 1;
      var s', id: Id, fd: Fd, b: seq<Byte>, n: nat := s, *, *, *, *;
      if
      case !s.pc.Stopped? && id !in s.net =>
        s' := s.(net := s.net[id := NewConn], backlog := s.backlog + [id]);
        assert ConnectStep(s, s', id);
      case id in s.net && !s.net[id].peerClosed =>
        s' := s.(net := s.net[id := Write(s.net[id], b)]);
        assert WriteStep(s, s', id, b) && PeerStep(s, s', id);
      case id in s.net =>
        s' := s.(net := s.net[id := s.net[id].(peerClosed := true)]);
        assert FinishStep(s, s', id) && PeerStep(s, s', id);
      case id in s.net && 0 < n <= |s.net[id].wire| =>
        s' := s.(net := s.net[id := Arrive(s.net[id], n)], ready := s.ready + Watching(s, id));
        assert ArriveStep(s, s', id, Arrive(s.net[id], n));
      case id in s.net && s.net[id].peerClosed && s.net[id].wire == [] =>
        s' := s.(net := s.net[id := s.net[id].(eof := true)], ready := s.ready + Watching(s, id));
        assert ArriveStep(s, s', id, s.net[id].(eof := true));
      case fd in s.registered =>
        s' := s.(ready := s.ready + {fd});
        assert SpuriousStep(s, s', fd);
      case true =>
      Take(s');
    }

    method Interfere()
      requires Valid()
      modifies this`s, this`run, this`budget
      ensures Valid() && old(run) <= run && SameServer(old(s), s) && SameDelivered(old(s), s)
      ensures budget < old(budget) || (budget == old(budget) && s == old(s))
    {
      var more: bool := *;
      while budget > 0 && more
        invariant Valid() && old(run) <= run && SameServer(old(s), s) && SameDelivered(old(s), s)
        invariant budget < old(budget) || (budget == old(budget) && s == old(s))
        decreases budget
      {
        Act();
        more := *;
      }
    }

    method EpollWait() returns (result: WaitResult)
      requires Valid() && s.pc == Waiting
      modifies this`s, this`run, this`budget, this`waits
      ensures Valid() && old(run) <= run && SameSetup(old(s), s) && SameDelivered(old(s), s)
      ensures waits == old(waits) + [result]
      ensures s.pc == if result.Batch? then Dispatching(result.events, 0) else Waiting
      ensures result.Batch? ==> 0 < |result.events| <= s.maxEvents
    {
      Interfere();
      var events: seq<Fd> := *;
      if {
        case IsBatch(s, events) =>
          assert WaitStep(s, Reported(s, events), events);
          Take(Reported(s, events));
          result := Batch(events);
        case true => result := TimedOut;
        case true => result := Interrupted;
        case true => result := WaitFailed;
      }
      waits := waits + [result];
    }

    /** Looking at the next event of the batch. */
    method Dispatch() returns (fd: Fd)
      requires Valid() && s.pc.Dispatching? && s.pc.i < |s.pc.events|
      modifies this`s, this`run
      ensures Valid() && old(run) <= run
      ensures fd == old(s.pc).events[old(s.pc).i]
      ensures var pc := old(s.pc);
              s == old(s).(pc := if fd == s.serverFd then Accepting(pc.events, pc.i) else Reading(pc.events, pc.i))
      ensures fd != s.serverFd ==> AtConn(s)
    {
      Invariant();
      fd := s.pc.events[s.pc.i];
      Take(s.(pc := if fd == s.serverFd then Accepting(s.pc.events, s.pc.i) else Reading(s.pc.events, s.pc.i)));
    }

    method Accept() returns (result: AcceptResult)
      requires Valid() && s.pc.Accepting?
      modifies this`s, this`run, this`budget, this`accepted
      ensures Valid() && old(run) <= run && SameSetup(old(s), s) && SameDelivered(old(s), s)
      ensures s.registered == old(s.registered) && s.closed == old(s.closed)
      ensures var pc := old(s.pc);
              s.pc == if result.Accepted? then Registering(pc.events, pc.i, result.fd) else Advance(pc.events, pc.i)
      ensures if result.Accepted? then
                && result.fd !in old(s.open) && result.fd !in old(s.conns) && result.fd in s.conns
                && s.conns == old(s.conns)[result.fd := s.conns[result.fd]]
                && accepted == old(accepted) + [s.conns[result.fd]]
              else s.conns == old(s.conns) && accepted == old(accepted)
      ensures budget < old(budget) || (budget == old(budget) && (result.Accepted? ==> |s.backlog| < |old(s.backlog)|))
    {
      Invariant();
      Interfere();
      var fd: Fd := *;
      if
      case s.backlog != [] && fd !in s.open =>
        var s' := s.(conns := s.conns[fd := s.backlog[0]], backlog := s.backlog[1..], open := s.open + {fd},
                     pc := Registering(s.pc.events, s.pc.i, fd));
        assert AcceptStep(s, s', fd);
        accepted := accepted + [s.backlog[0]];
        Take(s');
        result := Accepted(fd);
      case true =>
        Take(s.(pc := Advance(s.pc.events, s.pc.i)));
        result := NoneLeft;
    }

    method MakeNonBlocking(fd: Fd) returns (ok: bool)
      requires Valid() && s.pc.Registering? && s.pc.fd == fd && fd in s.conns
      modifies this`nonBlocking, this`failed
      ensures nonBlocking == old(nonBlocking) + if ok then {s.conns[fd]} else {}
      ensures failed == old(failed) + if ok then {} else {s.conns[fd]}
    {
      ok := *;
      if ok {
        nonBlocking := nonBlocking + {s.conns[fd]};
      } else {
        failed := failed + {s.conns[fd]};
      }
    }

    /** Only sockets that do not block may be watched: they are read until nothing is left. */
    method EpollCtlAdd(fd: Fd) returns (ok: bool)
      requires Valid() && s.pc.Registering? && s.pc.fd == fd && fd in s.conns && s.conns[fd] in nonBlocking
      modifies this`s, this`run, this`failed
      ensures Valid() && old(run) <= run && SameSetup(old(s), s) && SameDelivered(old(s), s)
      ensures failed == old(failed) + if ok then {} else {old(s.conns[fd])}
      ensures !ok ==> s == old(s)
      ensures ok ==> s.pc == Accepting(old(s.pc).events, old(s.pc).i) && s.registered == old(s.registered) + {fd}
      ensures s.conns == old(s.conns) && s.backlog == old(s.backlog) && s.closed == old(s.closed)
    {
      ok := *;
      Invariant();
      if ok {
        Take(s.(registered := s.registered + {fd}, ready := if Stream(s, fd).Readable() then s.ready + {fd} else s.ready,
                pc := Accepting(s.pc.events, s.pc.i)));
      } else {
        failed := failed + {s.conns[fd]};
      }
    }

    /** Closing a connection that was just accepted, which is right only if a call for it failed. */
    method CloseRejected(fd: Fd)
      requires Valid() && s.pc.Registering? && s.pc.fd == fd && fd in s.conns && s.conns[fd] in failed
      modifies this`s, this`run
      ensures Valid() && old(run) <= run && SameSetup(old(s), s) && SameDelivered(old(s), s)
      ensures s.pc == Accepting(old(s.pc).events, old(s.pc).i) && s.backlog == old(s.backlog)
      ensures s.conns == old(s.conns) - {fd} && s.registered == old(s.registered)
    {
      Invariant();
      Take(s.(conns := s.conns - {fd}, closed := s.closed + [ClosedConn(s.conns[fd], false)], open := s.open - {fd},
              pc := Accepting(s.pc.events, s.pc.i)));
    }

    method Read(fd: Fd) returns (result: ReadResult)
      requires Valid() && AtConn(s) && s.pc.Reading? && CurrentFd(s) == fd
      modifies this`s, this`run, this`budget
      ensures Valid() && old(run) <= run && SameSetup(old(s), s) && s.conns == old(s.conns) && SameDelivered(old(s), s)
      ensures Attached(s, fd) && Stream(s, fd).delivered == old(Stream(s, fd)).delivered
      ensures var pc := old(s.pc);
              s.pc == match result
                case Data(_) => Delivering(pc.events, pc.i)
                case EndOfStream => Closing(pc.events, pc.i, true)
                case WouldBlock => Advance(pc.events, pc.i)
                case ReadFailed => Closing(pc.events, pc.i, false)
      ensures result.Data? ==> 0 < |result.bytes| <= s.bufferSize && Stream(s, fd).buffered == result.bytes
      ensures result.WouldBlock? ==> !Stream(s, fd).Readable()
      ensures budget < old(budget) || (budget == old(budget) && (result.Data? ==> |Stream(s, fd).recv| < |old(Stream(s, fd)).recv|))
    {
      Interfere();
      var c, events, i := Current(s), s.pc.events, s.pc.i;
      var n: nat := *;
      if
      case 0 < n <= |c.recv| && n <= s.bufferSize =>
        var s' := WithCurrent(s, Reactor.Take(c, n), Delivering(events, i));
        assert ReadStep(s, s', n);
        Take(s');
        result := Data(c.recv[..n]);
      case s.bufferSize == 0 || (c.recv == [] && c.eof) =>
        Take(s.(pc := Closing(events, i, true)));
        result := EndOfStream;
      case s.bufferSize > 0 && !c.Readable() =>
        Take(s.(pc := Advance(events, i)));
        result := WouldBlock;
      case true =>
        Take(s.(pc := Closing(events, i, false)));
        result := ReadFailed;
    }

    /** The callback takes exactly the bytes in the buffer. */
    method Hand(fd: Fd, bytes: seq<Byte>)
      requires Valid() && AtConn(s) && s.pc.Delivering? && CurrentFd(s) == fd && Current(s).buffered == bytes
      modifies this`s, this`run
      ensures Valid() && old(run) <= run && s == WithCurrent(old(s), Handed(old(Current(s))), Reading(old(s.pc).events, old(s.pc).i))
      ensures Attached(s, fd) && Stream(s, fd).delivered == old(Current(s)).delivered + bytes
      ensures Stream(s, fd).recv == old(Current(s)).recv
    {
      Take(WithCurrent(s, Handed(Current(s)), Reading(s.pc.events, s.pc.i)));
    }

    method DeregisterAndClose(fd: Fd)
      requires Valid() && AtConn(s) && s.pc.Closing? && CurrentFd(s) == fd
      modifies this`s, this`run
      ensures Valid() && old(run) <= run && SameSetup(old(s), s) && SameDelivered(old(s), s)
      ensures s.pc == Advance(old(s.pc).events, old(s.pc).i)
      ensures s.conns == old(s.conns) - {fd} && s.closed == old(s.closed) + [ClosedConn(old(s.conns[fd]), old(s.pc).graceful)]
    {
      Take(s.(conns := s.conns - {fd}, registered := s.registered - {fd}, ready := s.ready - {fd}, open := s.open - {fd},
              closed := s.closed + [ClosedConn(s.conns[fd], s.pc.graceful)], pc := Advance(s.pc.events, s.pc.i)));
    }

    method CloseEpoll()
      requires Valid() && s.pc == Waiting
      modifies this`s, this`run
      ensures Valid() && old(run) <= run && s.pc == Stopping && s.conns == old(s.conns) && SameSetup(old(s), s)
      ensures SameDelivered(old(s), s)
      ensures s.open == old(s.open) - {s.epollFd}
    {
      Take(s.(registered := {}, ready := {}, open := s.open - {s.epollFd}, pc := Stopping));
    }

    method CloseListener()
      requires Valid() && s.pc == Stopping
      modifies this`s, this`run
      ensures Valid() && old(run) <= run && s.pc == Stopped && s.conns == old(s.conns) && SameSetup(old(s), s)
      ensures SameDelivered(old(s), s)
      ensures s.open == old(s.open) - {s.serverFd}
    {
      Take(s.(backlog := [], open := s.open - {s.serverFd}, pc := Stopped));
    }
  }

  // ---------- The server ----------

  /** One invocation of the data callback, for the connection the descriptor stood for. */
  datatype Call = Call(fd: Fd, id: Id, bytes: seq<Byte>)

  /** What the calls handed over for one connection, in order. */
  ghost function HandedOver(calls: seq<Call>, id: Id): seq<Byte> {
    if calls == [] then []
    else
      var last := calls[|calls| - 1];
      HandedOver(calls[..|calls| - 1], id) + if last.id == id then last.bytes else []
  }

  /** The callback has had exactly what was delivered, connection by connection. */
  ghost predicate AllHanded(calls: seq<Call>, s: State) {
    forall id :: HandedOver(calls, id) == Delivered(s, id)
  }

  lemma HandedMore(calls: seq<Call>, call: Call, id: Id)
    ensures HandedOver(calls + [call], id) == HandedOver(calls, id) + if call.id == id then call.bytes else []
  {
    assert (calls + [call])[..|calls|] == calls;
  }

  lemma AllHandedMore(calls: seq<Call>, call: Call, s: State, s': State)
    requires AllHanded(calls, s) && Delivered(s', call.id) == Delivered(s, call.id) + call.bytes
    requires forall id :: id != call.id ==> Delivered(s', id) == Delivered(s, id)
    ensures AllHanded(calls + [call], s')
  {
    forall id
      ensures HandedOver(calls + [call], id) == Delivered(s', id)
    {
      HandedMore(calls, call, id);
    }
  }

  /** The calls since `before` were made for one descriptor. */
  ghost predicate OnlyFor(before: seq<Call>, calls: seq<Call>, fd: Fd) {
    before <= calls && forall k :: |before| <= k < |calls| ==> calls[k].fd == fd
  }

  class TcpServer {
    const kernel: Kernel
    var serverFd: int
    var epollFd: int
    var isRunning: bool
    var calls: seq<Call>

    ghost predicate Listening()
      reads this, kernel
    {
      && kernel.Valid() && serverFd == kernel.s.serverFd && epollFd == kernel.s.epollFd && kernel.s.pc == Waiting
      && AllHanded(calls, kernel.s)
    }

    ghost predicate Released()
      reads this, kernel
    {
      kernel.Valid() && serverFd == epollFd == -1 && !isRunning && kernel.s.pc == Stopped && AllHanded(calls, kernel.s)
    }

    /** The socket is bound and listening, and watched by epoll. */
    constructor (k: Kernel)
      requires k.Valid() && Initial(k.s)
      ensures Listening() && kernel == k && isRunning && calls == []
    {
      kernel, serverFd, epollFd, isRunning, calls := k, k.s.serverFd, k.s.epollFd, true, [];
    }

    method Cleanup()
      requires Listening() || Released()
      modifies this`serverFd, this`epollFd, this`isRunning, kernel`s, kernel`run
      ensures Released() && old(kernel.run) <= kernel.run
      ensures kernel.s.conns == old(kernel.s.conns) && SameSetup(old(kernel.s), kernel.s)
    {
      if epollFd >= 0 {
        kernel.CloseEpoll();
        epollFd := -1;
      }
      if serverFd >= 0 {
        kernel.CloseListener();
        serverFd := -1;
      }
      isRunning := false;
    }

    method Stop()
      requires (isRunning && Listening()) || Released()
      modifies this`serverFd, this`epollFd, this`isRunning, kernel`s, kernel`run
      ensures Released() && old(kernel.run) <= kernel.run
      ensures kernel.s.conns == old(kernel.s.conns)
    {
      if isRunning {
        Cleanup();
      }
    }

    /** Every connection handed out since then is watched, unless a call for it failed. */
    ghost predicate DealtWith(before: seq<Id>)
      reads kernel
    {
      && before <= kernel.accepted
      && forall k :: |before| <= k < |kernel.accepted| ==>
           kernel.accepted[k] in kernel.failed || Watched(kernel.s, kernel.accepted[k])
    }

    /** Accepts until nothing is left; every new connection is watched, or closed if making it
        non-blocking or watching it failed. */
    method AcceptAll()
      requires kernel.Valid() && kernel.s.pc.Accepting?
      modifies kernel`s, kernel`run, kernel`budget, kernel`accepted, kernel`nonBlocking, kernel`failed
      ensures kernel.Valid() && old(kernel.run) <= kernel.run && SameSetup(old(kernel.s), kernel.s)
      ensures SameDelivered(old(kernel.s), kernel.s)
      ensures kernel.s.pc == Advance(old(kernel.s.pc).events, old(kernel.s.pc).i)
      ensures old(kernel.s.conns.Keys) <= kernel.s.conns.Keys == kernel.s.registered
      ensures DealtWith(old(kernel.accepted)) && old(kernel.failed) <= kernel.failed
    {
      ghost var events, i := kernel.s.pc.events, kernel.s.pc.i;
      ghost var before := kernel.accepted;
      while true
        invariant kernel.Valid() && old(kernel.run) <= kernel.run && SameSetup(old(kernel.s), kernel.s)
        invariant SameDelivered(old(kernel.s), kernel.s)
        invariant kernel.s.pc == Accepting(events, i) && old(kernel.s.conns.Keys) <= kernel.s.conns.Keys
        invariant DealtWith(before) && old(kernel.failed) <= kernel.failed
        decreases kernel.budget, |kernel.s.backlog|
      {
        var accepted := kernel.Accept();
        if accepted.NoneLeft? {
          break;
        }
        Admit(accepted.fd, before);
      }
      kernel.Invariant();
    }

    /** The rest of the accept loop's body, for one connection that was just handed out. */
    method Admit(fd: Fd, ghost before: seq<Id>)
      requires kernel.Valid() && kernel.s.pc.Registering? && kernel.s.pc.fd == fd && fd in kernel.s.conns
      requires before < kernel.accepted && kernel.accepted[|kernel.accepted| - 1] == kernel.s.conns[fd]
      requires forall k :: |before| <= k < |kernel.accepted| - 1 ==>
                 kernel.accepted[k] in kernel.failed || Watched(kernel.s, kernel.accepted[k])
      modifies kernel`s, kernel`run, kernel`nonBlocking, kernel`failed
      ensures kernel.Valid() && old(kernel.run) <= kernel.run && SameSetup(old(kernel.s), kernel.s)
      ensures SameDelivered(old(kernel.s), kernel.s)
      ensures kernel.s.pc == Accepting(old(kernel.s.pc).events, old(kernel.s.pc).i) && kernel.s.backlog == old(kernel.s.backlog)
      ensures old(kernel.s.conns.Keys) - {fd} <= kernel.s.conns.Keys
      ensures DealtWith(before) && old(kernel.failed) <= kernel.failed
    {
      kernel.Invariant();
      var nonBlocking := kernel.MakeNonBlocking(fd);
      if !nonBlocking {
        kernel.CloseRejected(fd);
        return;
      }
      var watched := kernel.EpollCtlAdd(fd);
      if !watched {
        kernel.CloseRejected(fd);
      }
    }

    /** One read, and the callback for what it brought. */
    method ReadSome(fd: Fd) returns (result: ReadResult)
      requires kernel.Valid() && AtConn(kernel.s) && kernel.s.pc.Reading? && CurrentFd(kernel.s) == fd
      requires AllHanded(calls, kernel.s)
      modifies this`calls, kernel`s, kernel`run, kernel`budget
      ensures kernel.Valid() && old(kernel.run) <= kernel.run && SameSetup(old(kernel.s), kernel.s)
      ensures kernel.s.conns == old(kernel.s.conns) && AllHanded(calls, kernel.s)
      ensures var pc := old(kernel.s.pc);
              kernel.s.pc == match result
                case Data(_) => pc
                case EndOfStream => Closing(pc.events, pc.i, true)
                case WouldBlock => Advance(pc.events, pc.i)
                case ReadFailed => Closing(pc.events, pc.i, false)
      ensures calls == if result.Data? then old(calls) + [Call(fd, kernel.s.conns[fd], result.bytes)] else old(calls)
      ensures Attached(kernel.s, fd) && (result.WouldBlock? ==> !Stream(kernel.s, fd).Readable())
      ensures kernel.budget < old(kernel.budget)
           || (kernel.budget == old(kernel.budget) && (result.Data? ==> |Stream(kernel.s, fd).recv| < |old(Stream(kernel.s, fd)).recv|))
    {
      result := kernel.Read(fd);
      if result.Data? {
        var call := Call(fd, kernel.s.conns[fd], result.bytes);
        ghost var s := kernel.s;
        kernel.Hand(fd, result.bytes);
        AllHandedMore(calls, call, s, kernel.s);
        calls := calls + [call];
      }
    }

    /** Reads until the descriptor has nothing more or is finished; every byte read goes to the
        callback, in order. */
    method ReadAll(fd: Fd) returns (connectionClosed: bool)
      requires kernel.Valid() && AtConn(kernel.s) && kernel.s.pc.Reading? && CurrentFd(kernel.s) == fd
      requires AllHanded(calls, kernel.s)
      modifies this`calls, kernel`s, kernel`run, kernel`budget
      ensures kernel.Valid() && old(kernel.run) <= kernel.run && SameSetup(old(kernel.s), kernel.s)
      ensures kernel.s.conns == old(kernel.s.conns) && Attached(kernel.s, fd)
      ensures var pc := old(kernel.s.pc);
              if connectionClosed then kernel.s.pc.Closing? && kernel.s.pc.events == pc.events && kernel.s.pc.i == pc.i
              else kernel.s.pc == Advance(pc.events, pc.i) && Stream(kernel.s, fd).recv == [] && !Stream(kernel.s, fd).eof
      ensures AllHanded(calls, kernel.s) && OnlyFor(old(calls), calls, fd)
    {
      ghost var events, i := kernel.s.pc.events, kernel.s.pc.i;
      connectionClosed := false;
      while true
        invariant kernel.Valid() && old(kernel.run) <= kernel.run && SameSetup(old(kernel.s), kernel.s)
        invariant kernel.s.conns == old(kernel.s.conns)
        invariant kernel.s.pc == Reading(events, i) && Attached(kernel.s, fd)
        invariant AllHanded(calls, kernel.s) && OnlyFor(old(calls), calls, fd)
        decreases kernel.budget, |Stream(kernel.s, fd).recv|
      {
        var result := ReadSome(fd);
        match result {
          case Data(_) =>
          case EndOfStream =>
            connectionClosed := true;
            break;
          case WouldBlock =>
            break;
          case ReadFailed =>
            connectionClosed := true;
            break;
        }
      }
    }

    /** One event of the batch. */
    method Handle(ghost events: seq<Fd>, ghost i: nat)
      requires kernel.Valid() && i < |events| && kernel.s.pc == Dispatching(events, i) && serverFd == kernel.s.serverFd
      requires AllHanded(calls, kernel.s)
      modifies this`calls, kernel`s, kernel`run, kernel`budget, kernel`accepted, kernel`nonBlocking, kernel`failed
      ensures kernel.Valid() && old(kernel.run) <= kernel.run && SameSetup(old(kernel.s), kernel.s)
      ensures kernel.s.pc == Advance(events, i) && old(calls) <= calls && AllHanded(calls, kernel.s)
    {
      var currentFd := kernel.Dispatch();
      if currentFd == serverFd {
        AcceptAll();
      } else {
        var connectionClosed := ReadAll(currentFd);
        if connectionClosed {
          kernel.DeregisterAndClose(currentFd);
        }
      }
    }

    /** There were at most `rounds` waits since `before`, and none but the last can have failed: timeouts
        and interrupts went on to the next one. */
    ghost predicate WaitedFor(rounds: nat, before: seq<WaitResult>)
      reads kernel
    {
      && before <= kernel.waits && |kernel.waits| <= |before| + rounds
      && forall k :: |before| <= k < |kernel.waits| - 1 ==> !kernel.waits[k].WaitFailed?
    }

    /** The event loop. After at most `rounds` waits somebody calls stop; only that, or a failing
        epoll_wait, ends it. Nothing readable is ever waited for without a pending event, the callback
        has what was delivered, and both own descriptors are released. */
    method Run(rounds: nat)
      requires isRunning && Listening()
      modifies this, kernel
      ensures Released() && old(kernel.run) <= kernel.run && old(calls) <= calls
      ensures WaitedFor(rounds, old(kernel.waits))
      ensures |kernel.waits| < |old(kernel.waits)| + rounds ==>
                old(kernel.waits) < kernel.waits && kernel.waits[|kernel.waits| - 1].WaitFailed?
      ensures AllHanded(calls, kernel.s)
      ensures forall k :: 0 <= k < |kernel.run| && kernel.run[k].pc == Waiting ==> NothingLost(kernel.run[k])
      ensures kernel.s.open == kernel.s.conns.Keys
    {
      var left := rounds;
      while isRunning
        invariant old(kernel.run) <= kernel.run && old(calls) <= calls
        invariant if isRunning then Listening() else Released()
        invariant WaitedFor(rounds, old(kernel.waits)) && left <= rounds
        invariant isRunning ==> |kernel.waits| == |old(kernel.waits)| + rounds - left
        invariant !isRunning ==> |kernel.waits| == |old(kernel.waits)| + rounds
        invariant old(kernel.waits) < kernel.waits && isRunning ==> !kernel.waits[|kernel.waits| - 1].WaitFailed?
        decreases isRunning, left
      {
        if left == 0 {
          Stop();
        } else {
          left := left - 1;
          var result := kernel.EpollWait();
          if result.WaitFailed? {
            break;
          }
          if result.Batch? {
            HandleBatch(result.events);
          }
        }
      }
      Cleanup();
      RunMeaning();
    }

    /** What holds of all runs of the machine holds of this one. */
    lemma RunMeaning()
      requires Released()
      ensures forall k :: 0 <= k < |kernel.run| && kernel.run[k].pc == Waiting ==> NothingLost(kernel.run[k])
      ensures kernel.s.open == kernel.s.conns.Keys
    {
      forall k | 0 <= k < |kernel.run| && kernel.run[k].pc == Waiting
        ensures NothingLost(kernel.run[k])
      {
        NoLostReadiness(kernel.run, k);
      }
      StopReleasesAllIffNoClients(kernel.run, |kernel.run| - 1);
    }

    method HandleBatch(events: seq<Fd>)
      requires kernel.Valid() && events != [] && kernel.s.pc == Dispatching(events, 0)
      requires serverFd == kernel.s.serverFd && epollFd == kernel.s.epollFd && AllHanded(calls, kernel.s)
      modifies this`calls, kernel`s, kernel`run, kernel`budget, kernel`accepted, kernel`nonBlocking, kernel`failed
      ensures Listening() && old(kernel.run) <= kernel.run && old(calls) <= calls
    {
      for i := 0 to |events|
        invariant kernel.Valid() && serverFd == kernel.s.serverFd && epollFd == kernel.s.epollFd
        invariant kernel.s.pc == if i < |events| then Dispatching(events, i) else Waiting
        invariant old(kernel.run) <= kernel.run && old(calls) <= calls && AllHanded(calls, kernel.s)
      {
        Handle(events, i);
      }
    }
  }
}
