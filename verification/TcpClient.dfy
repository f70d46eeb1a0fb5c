/** The client: sending over a non-blocking socket that takes any part of what it is offered, and
    the worker that reads what the server sends back. Every write is a step of a joint run, in which
    the server and the network act in between as they like. */
module Client {
  import opened Basics
  import opened Reactor
  import opened EndToEnd

  datatype WriteResult = Written(n: nat) | Refused(wouldBlock: bool)
  datatype WaitResult = Events(readable: bool) | TimedOut | Interrupted | WaitFailed

  /** Why the worker stopped reading. */
  datatype End = ServerDropped(graceful: bool) | Told | PollFailed

  ghost function Joined(chunks: seq<seq<Byte>>): seq<Byte> {
    if chunks == [] then [] else Joined(chunks[..|chunks| - 1]) + chunks[|chunks| - 1]
  }

  lemma JoinedMore(chunks: seq<seq<Byte>>, chunk: seq<Byte>)
    ensures Joined(chunks + [chunk]) == Joined(chunks) + chunk
  {
    assert (chunks + [chunk])[..|chunks|] == chunks;
  }

  lemma DrainedIsAll(c: Conn)
    requires c.Conserves() && c.buffered == c.recv == c.wire == []
    ensures c.delivered == c.accepted
  {
    assert c.delivered + [] + [] + [] == c.delivered;
  }

  /** What network and server can do to the incoming stream; `edge` tells that something arrived. */
  method ActOn(c: Conn) returns (c': Conn, edge: bool)
    requires c.Conserves()
    ensures c'.Conserves() && c'.delivered == c.delivered && c'.buffered == c.buffered
    ensures !edge ==> (c'.Readable() <==> c.Readable())
  {
    var b: seq<Byte>, n: nat := *, *;
    if
    case !c.peerClosed =>
      WriteConserves(c, b);
      c', edge := Write(c, b), false;
    case 0 < n <= |c.wire| =>
      ArriveConserves(c, n);
      c', edge := Arrive(c, n), true;
    case c.peerClosed && c.wire == [] =>
      c', edge := c.(eof := true), true;
    case true =>
      c', edge := c.(peerClosed := true), false;
  }

  // ---------- The socket and its epoll instance ----------

  /** Besides its state the socket remembers what write, read and epoll_wait answered. */
  class Socket {
    ghost const Me: Id
    ghost var run: seq<Joint>
    ghost var writeLog: seq<WriteResult>
    ghost var readLog: seq<ReadResult>
    ghost var waitLog: seq<WaitResult>
    var inbound: Conn
    var ready: bool
    var open: set<int>
    var budget: nat
    const bufferSize: nat

    /** The outgoing stream is connection Me of a joint run. */
    ghost predicate Valid()
      reads this
    {
      IsJointRun(run, Me) && inbound.Conserves()
    }

    ghost function Now(): Joint
      requires run != []
      reads this
    {
      run[|run| - 1]
    }

    /** The connection exists and this end has not been closed. */
    ghost predicate Alive()
      reads this
    {
      run != [] && Me in Now().s.net && !Now().s.net[Me].peerClosed
    }

    ghost predicate NothingLost()
      reads this
    {
      inbound.Readable() ==> ready
    }

    lemma Links()
      requires Valid()
      ensures Me in Now().s.net ==> Now().s.net[Me].accepted == Taken(Now().log)
    {
      JointRunLinks(run, Me, |run| - 1);
    }

    constructor (ghost me: Id, ghost before: seq<Joint>, fd: int, epfd: int, size: nat, actions: nat)
      requires IsJointRun(before, me)
      ensures Valid() && Me == me && run == before && inbound == NewConn && !ready && open == {fd, epfd}
      ensures bufferSize == size && budget == actions && writeLog == [] && readLog == [] && waitLog == []
    {
      Me, run := me, before;
      inbound, ready, open, bufferSize, budget := NewConn, false, {fd, epfd}, size, actions;
      writeLog, readLog, waitLog := [], [], [];
      new;
      assert NewConn.Conserves();
    }

    /** Server, other peers and network act on the outgoing side any number of times, and on the
        incoming side up to `budget` times in all, where arrivals raise an edge. */
    method Interfere()
      requires Valid()
      modifies this`run, this`inbound, this`ready, this`budget
      ensures Valid() && old(run) <= run && Now().log == old(Now().log) && SamePeerSide(old(Now().s), Now().s, Me)
      ensures inbound.delivered == old(inbound.delivered) && inbound.buffered == old(inbound.buffered)
      ensures old(NothingLost()) ==> NothingLost()
      ensures budget < old(budget) || (budget == old(budget) && inbound == old(inbound) && ready == old(ready))
    {
      ghost var rest: seq<Joint> := OthersAct();
      OthersExtend(run, rest, Me);
      run := run + rest;
      var more: bool := *;
      while budget > 0 && more
        invariant inbound.Conserves()
        invariant inbound.delivered == old(inbound.delivered) && inbound.buffered == old(inbound.buffered)
        invariant old(NothingLost()) ==> NothingLost()
        invariant budget < old(budget) || (budget == old(budget) && inbound == old(inbound) && ready == old(ready))
        decreases budget
        modifies this`inbound, this`ready, this`budget
      {
        budget := budget - 1;
        var c', edge := ActOn(inbound);
        inbound, ready := c', ready || edge;
        more := *;
      }
    }

    /** Any continuation of the run by others. */
    ghost method OthersAct() returns (rest: seq<Joint>)
      requires Valid()
      ensures AreOthersSteps([Now()] + rest, Me)
    {
      assert AreOthersSteps([Now()] + [], Me);
      rest :| AreOthersSteps([Now()] + rest, Me);
    }

    ghost method TakeStep(j: Joint)
      requires Valid() && JointStep(Now(), j, Me)
      modifies this`run
      ensures Valid() && run == old(run) + [j]
    {
      JointStepExtends(run, j, Me);
      run := run + [j];
    }

    /** A call of send_data begins. */
    ghost method Begin(payload: seq<Byte>)
      requires Valid()
      modifies this`run
      ensures Valid() && old(run) <= run && Now() == old(Now()).(log := old(Now()).log + [Send(payload, 0, Sending)])
    {
      var j := Now().(log := Now().log + [Send(payload, 0, Sending)]);
      assert BeginStep(Now(), j, payload);
      TakeStep(j);
    }

    /** The call in progress ends. */
    ghost method Return(outcome: Outcome)
      requires Valid() && Now().log != [] && !outcome.Sending?
      requires var last := Now().log[|Now().log| - 1];
               last.outcome.Sending? && (outcome.SUCCESS? ==> last.sent == |last.payload|)
      modifies this`run
      ensures Valid() && old(run) <= run && Now().s == old(Now()).s
      ensures var log := old(Now()).log; var k := |log| - 1; Now().log == log[k := log[k].(outcome := outcome)]
    {
      var k := |Now().log| - 1;
      var j := Now().(log := Now().log[k := Now().log[k].(outcome := outcome)]);
      assert ReturnStep(Now(), j, outcome);
      TakeStep(j);
    }

    /** The rest of the payload of the call in progress. */
    ghost predicate Offers(data: seq<Byte>)
      reads this
    {
      && run != [] && Now().log != []
      && var last := Now().log[|Now().log| - 1];
         last.outcome.Sending? && last.sent <= |last.payload| && data == last.payload[last.sent..]
    }

    /** write takes a non-empty prefix, or nothing; a refusal uses up one of the budget. */
    method Write(data: seq<Byte>) returns (result: WriteResult)
      requires Valid() && Alive() && data != [] && Offers(data)
      modifies this`run, this`inbound, this`ready, this`budget, this`writeLog
      ensures Valid() && Alive() && old(run) <= run && writeLog == old(writeLog) + [result]
      ensures result.Written? ==> 0 < result.n <= |data|
      ensures var log := old(Now()).log; var k := |log| - 1;
              Now().log == if result.Written? then log[k := log[k].(sent := log[k].sent + result.n)] else log
      ensures result == Refused(true) ==> budget < old(budget)
      ensures budget <= old(budget)
      ensures inbound.delivered == old(inbound.delivered) && inbound.buffered == old(inbound.buffered)
      ensures old(NothingLost()) ==> NothingLost()
    {
      Interfere();
      var n: nat := *;
      if {
        case 0 < n <= |data| =>
          Hand(n);
          result := Written(n);
        case budget > 0 =>
          budget := budget - 1;
          result := Refused(true);
        case true =>
          result := Refused(false);
      }
      writeLog := writeLog + [result];
    }

    /** The kernel takes the next n bytes. */
    ghost method Hand(n: nat)
      requires Valid() && Alive() && Now().log != []
      requires var last := Now().log[|Now().log| - 1]; last.outcome.Sending? && last.sent + n <= |last.payload|
      modifies this`run
      ensures Valid() && Alive() && old(run) <= run
      ensures var log := old(Now()).log; var k := |log| - 1; Now().log == log[k := log[k].(sent := log[k].sent + n)]
    {
      var now := Now();
      var k := |now.log| - 1;
      var last := now.log[k];
      var b := last.payload[last.sent..last.sent + n];
      var j := Joint(now.s.(net := now.s.net[Me := Reactor.Write(now.s.net[Me], b)]), now.log[k := last.(sent := last.sent + n)]);
      assert HandStep(now, j, Me, n);
      TakeStep(j);
    }

    /** epoll_wait: an edge is taken when it is reported; EPOLLIN says whether there is something to
        read. Nobody may wait while something is readable and no edge is pending. */
    method EpollWait() returns (result: WaitResult)
      requires Valid() && NothingLost()
      modifies this`run, this`inbound, this`ready, this`budget, this`waitLog
      ensures waitLog == old(waitLog) + [result]
      ensures Valid() && old(run) <= run && Now().log == old(Now()).log && SamePeerSide(old(Now()).s, Now().s, Me)
      ensures inbound.delivered == old(inbound.delivered) && inbound.buffered == old(inbound.buffered)
      ensures result != Events(true) ==> NothingLost()
    {
      Interfere();
      if {
        case ready =>
          ready := false;
          result := Events(inbound.Readable());
        case true => result := TimedOut;
        case true => result := Interrupted;
        case true => result := WaitFailed;
      }
      waitLog := waitLog + [result];
    }

    method Read() returns (result: ReadResult)
      requires Valid() && inbound.buffered == []
      modifies this`run, this`inbound, this`ready, this`budget, this`readLog
      ensures readLog == old(readLog) + [result]
      ensures Valid() && old(run) <= run && Now().log == old(Now()).log && SamePeerSide(old(Now()).s, Now().s, Me)
      ensures inbound.delivered == old(inbound.delivered)
      ensures inbound.buffered == if result.Data? then result.bytes else []
      ensures result.Data? ==> 0 < |result.bytes| <= bufferSize
      ensures result.WouldBlock? ==> !inbound.Readable()
      ensures result.EndOfStream? && bufferSize > 0 ==> inbound.delivered == inbound.accepted && inbound.peerClosed
      ensures budget < old(budget) || (budget == old(budget) && (result.Data? ==> |inbound.recv| < |old(inbound.recv)|))
    {
      Interfere();
      var n: nat := *;
      if {
        case 0 < n <= |inbound.recv| && n <= bufferSize =>
          result := Data(inbound.recv[..n]);
          ReadConserves(inbound, n);
          inbound := Take(inbound, n);
        case bufferSize == 0 || (inbound.recv == [] && inbound.eof) =>
          if bufferSize > 0 {
            DrainedIsAll(inbound);
          }
          result := EndOfStream;
        case bufferSize > 0 && !inbound.Readable() =>
          result := WouldBlock;
        case true =>
          result := ReadFailed;
      }
      readLog := readLog + [result];
    }

    /** The callback takes what was read. */
    method HandUp(bytes: seq<Byte>)
      requires Valid() && inbound.buffered == bytes
      modifies this`inbound
      ensures Valid() && inbound == old(inbound).(delivered := old(inbound).delivered + bytes, buffered := [])
    {
      assert inbound.delivered + bytes + [] == inbound.delivered + bytes;
      inbound := Handed(inbound);
    }

    method CloseEpoll(fd: int)
      modifies this`open
      ensures open == old(open) - {fd}
    {
      open := open - {fd};
    }

    /** Closing the connection tells the server that nothing more will come. */
    method CloseConnection(fd: int)
      requires Valid()
      modifies this`open, this`run
      ensures Valid() && open == old(open) - {fd} && old(run) <= run && Now().log == old(Now()).log && !Alive()
    {
      open := open - {fd};
      if Alive() {
        Finish();
      }
    }

    ghost method Finish()
      requires Valid() && Alive()
      modifies this`run
      ensures Valid() && old(run) <= run && Now().log == old(Now()).log && !Alive()
    {
      var s := Now().s;
      var j := Now().(s := s.(net := s.net[Me := s.net[Me].(peerClosed := true)]));
      assert FinishStep(s, j.s, Me);
      TakeStep(j);
    }
  }

  // ---------- What ends the worker ----------

  ghost predicate Drops(result: ReadResult) {
    result.EndOfStream? || result.ReadFailed?
  }

  /** The answers of epoll_wait and read went from waited0 to waited and from fetched0 to fetched. There
      were at most `rounds` waits; a failing one ends the worker, a timeout or an interrupt does not;
      a read that ends the stream or fails ends it, and no other does; else it went all rounds. */
  ghost predicate Ended(end: End, rounds: nat, waited0: seq<WaitResult>, waited: seq<WaitResult>,
                        fetched0: seq<ReadResult>, fetched: seq<ReadResult>)
  {
    && waited0 <= waited && fetched0 <= fetched && |waited| <= |waited0| + rounds
    && (forall k :: |waited0| <= k < |waited| - 1 ==> !waited[k].WaitFailed?)
    && (end.PollFailed? <==> waited0 < waited && waited[|waited| - 1].WaitFailed?)
    && (forall k :: |fetched0| <= k < |fetched| - 1 ==> !Drops(fetched[k]))
    && (end.ServerDropped? <==> fetched0 < fetched && Drops(fetched[|fetched| - 1]))
    && (end.ServerDropped? ==> (end.graceful <==> fetched[|fetched| - 1].EndOfStream?))
    && (end.Told? ==> |waited| == |waited0| + rounds)
  }

  lemma EndedLater(end: End, rounds: nat, waited0: seq<WaitResult>, waited1: seq<WaitResult>, waited: seq<WaitResult>,
                   fetched0: seq<ReadResult>, fetched1: seq<ReadResult>, fetched: seq<ReadResult>)
    requires Ended(Told, rounds, waited0, waited1, fetched0, fetched1)
    requires Ended(end, 1, waited1, waited, fetched1, fetched)
    ensures Ended(end, rounds + 1, waited0, waited, fetched0, fetched)
  {
  }

  // ---------- The client ----------

  class TcpClient {
    const socket: Socket
    var isConnected: bool
    var clientFd: int
    var epollFd: int
    var chunks: seq<seq<Byte>>

    /** Incoming: the callback has had exactly what was read. Outgoing: no call is in progress. */
    ghost predicate Valid()
      reads this, socket
    {
      && socket.Valid() && (isConnected ==> socket.Alive()) && socket.inbound.buffered == []
      && socket.inbound.delivered == Joined(chunks)
      && AllDone(Log())
    }

    ghost predicate AllDone(log: seq<Send>) {
      forall k :: 0 <= k < |log| ==> !log[k].outcome.Sending?
    }

    /** The calls of send_data so far. */
    ghost function Log(): seq<Send>
      reads this, socket
    {
      if socket.run == [] then [] else socket.Now().log
    }

    constructor (ghost me: Id, ghost before: seq<Joint>, fd: nat, epfd: nat, bufferSize: nat, budget: nat)
      requires IsJointRun(before, me) && before[|before| - 1].log == []
      requires var s := before[|before| - 1].s; me in s.net && !s.net[me].peerClosed
      ensures Valid() && isConnected && clientFd == fd && epollFd == epfd && Log() == [] && chunks == []
      ensures fresh(socket) && socket.open == {fd, epfd} && socket.bufferSize == bufferSize && socket.run == before
    {
      socket := new Socket(me, before, fd, epfd, bufferSize, budget);
      isConnected, clientFd, epollFd, chunks := true, fd, epfd, [];
    }

    /** The writes since `before` all went on, except perhaps the last: only a refusal other than
        would-block is final. */
    ghost predicate WroteOn(before: seq<WriteResult>, gaveUp: bool)
      reads socket
    {
      && before <= socket.writeLog
      && (forall k :: |before| <= k < |socket.writeLog| - 1 ==> socket.writeLog[k] != Refused(false))
      && (gaveUp <==> |before| < |socket.writeLog| && socket.writeLog[|socket.writeLog| - 1] == Refused(false))
    }

    /** The write loop: everything is handed over unless a write fails for good. */
    method WriteAll(payload: seq<Byte>) returns (code: Outcome, dataPtr: nat)
      requires socket.Valid() && socket.Alive() && socket.Offers(payload)
      requires var log := socket.Now().log; log[|log| - 1] == Send(payload, 0, Sending)
      modifies socket`run, socket`inbound, socket`ready, socket`budget, socket`writeLog
      ensures socket.Valid() && socket.Alive() && old(socket.run) <= socket.run
      ensures socket.inbound.buffered == old(socket.inbound.buffered) && socket.inbound.delivered == old(socket.inbound.delivered)
      ensures dataPtr <= |payload| && code == if dataPtr == |payload| then SUCCESS else READ_FAILED
      ensures var log := old(socket.Now()).log; socket.Now().log == log[|log| - 1 := Send(payload, dataPtr, Sending)]
      ensures old(socket.NothingLost()) ==> socket.NothingLost()
      ensures WroteOn(old(socket.writeLog), code.READ_FAILED?)
    {
      var bytesLeft := |payload|;
      ghost var log := socket.Now().log;
      code, dataPtr := SUCCESS, 0;
      assert log == log[|log| - 1 := Send(payload, 0, Sending)];
      while bytesLeft > 0
        invariant socket.Valid() && socket.Alive() && old(socket.run) <= socket.run
        invariant socket.inbound.buffered == old(socket.inbound.buffered) && socket.inbound.delivered == old(socket.inbound.delivered)
        invariant dataPtr + bytesLeft == |payload| && dataPtr <= |payload|
        invariant socket.Now().log == log[|log| - 1 := Send(payload, dataPtr, Sending)]
        invariant old(socket.NothingLost()) ==> socket.NothingLost()
        invariant WroteOn(old(socket.writeLog), false)
        decreases bytesLeft, socket.budget
      {
        var result := socket.Write(payload[dataPtr..]);
        if result.Written? {
          bytesLeft, dataPtr := bytesLeft - result.n, dataPtr + result.n;
        } else if !result.wouldBlock {
          return READ_FAILED, dataPtr;
        }
      }
    }

    /** The body of send_data between the two log entries: nothing is sent without a connection. */
    method Transmit(payload: seq<Byte>) returns (code: Outcome, sent: nat)
      requires Valid()
      modifies socket`run, socket`inbound, socket`ready, socket`budget, socket`writeLog
      ensures socket.Valid() && (isConnected ==> socket.Alive()) && old(socket.run) <= socket.run
      ensures socket.inbound.buffered == [] && socket.inbound.delivered == Joined(chunks)
      ensures old(socket.NothingLost()) ==> socket.NothingLost()
      ensures sent <= |payload| && Log() == old(Log()) + [Send(payload, sent, code)]
      ensures code == if isConnected && clientFd >= 0 && sent == |payload| then SUCCESS else READ_FAILED
      ensures !isConnected || clientFd < 0 ==> sent == 0 && socket.writeLog == old(socket.writeLog)
      ensures isConnected && clientFd >= 0 ==> WroteOn(old(socket.writeLog), code.READ_FAILED?)
    {
      ghost var log := Log();
      sent := 0;
      socket.Begin(payload);
      if !isConnected || clientFd < 0 {
        code := READ_FAILED;
      } else {
        code, sent := WriteAll(payload);
      }
      assert Log() == log + [Send(payload, sent, Sending)];
      socket.Return(code);
    }

    /** Hands over a prefix of the payload; success means all of it. The log, and with it what the
        connection has accepted, grows by exactly that prefix. */
    method SendData(payload: seq<Byte>) returns (code: Outcome, ghost sent: nat)
      requires Valid()
      modifies socket`run, socket`inbound, socket`ready, socket`budget, socket`writeLog
      ensures Valid() && old(socket.run) <= socket.run && (old(socket.NothingLost()) ==> socket.NothingLost())
      ensures sent <= |payload| && Log() == old(Log()) + [Send(payload, sent, code)]
      ensures code == if isConnected && clientFd >= 0 && sent == |payload| then SUCCESS else READ_FAILED
      ensures !isConnected || clientFd < 0 ==> sent == 0 && socket.writeLog == old(socket.writeLog)
      // a connected client gives up only after a refusal that is not would-block
      ensures isConnected && clientFd >= 0 ==> WroteOn(old(socket.writeLog), code.READ_FAILED?)
      ensures Taken(Log()) == Taken(old(Log())) + payload[..sent]
      ensures socket.Me in socket.Now().s.net ==> socket.Now().s.net[socket.Me].accepted == Taken(Log())
    {
      ghost var log := Log();
      code, sent := Transmit(payload);
      TakenMore(log, Send(payload, sent, code));
      socket.Links();
    }

    /** The callback has what was just read. */
    method CallBack(bytes: seq<Byte>)
      requires socket.Valid() && (isConnected ==> socket.Alive()) && AllDone(Log())
      requires socket.inbound.buffered == bytes && socket.inbound.delivered == Joined(chunks)
      modifies this`chunks, socket`inbound
      ensures Valid() && chunks == old(chunks) + [bytes] && socket.inbound.recv == old(socket.inbound.recv)
    {
      JoinedMore(chunks, bytes);
      socket.HandUp(bytes);
      chunks := chunks + [bytes];
    }

    /** One read, and the callback for what it brought. */
    method ReadSome() returns (result: ReadResult)
      requires Valid()
      modifies this`chunks, socket`run, socket`inbound, socket`ready, socket`budget, socket`readLog
      ensures Valid() && Log() == old(Log()) && old(socket.run) <= socket.run
      ensures socket.readLog == old(socket.readLog) + [result]
      ensures chunks == if result.Data? then old(chunks) + [result.bytes] else old(chunks)
      ensures result.WouldBlock? ==> !socket.inbound.Readable()
      ensures result.EndOfStream? && socket.bufferSize > 0 ==>
                socket.inbound.delivered == socket.inbound.accepted && socket.inbound.peerClosed
      ensures socket.budget < old(socket.budget)
           || (socket.budget == old(socket.budget) && (result.Data? ==> |socket.inbound.recv| < |old(socket.inbound.recv)|))
    {
      result := socket.Read();
      if result.Data? {
        CallBack(result.bytes);
      }
    }

    /** The reads since `before` brought data, and the last one told how the loop ended. */
    ghost predicate ReadOn(before: seq<ReadResult>, serverDropped: bool, graceful: bool)
      reads socket
    {
      && before < socket.readLog && (forall k :: |before| <= k < |socket.readLog| - 1 ==> socket.readLog[k].Data?)
      && var last := socket.readLog[|socket.readLog| - 1];
         && !last.Data? && (graceful <==> last.EndOfStream?)
         && (serverDropped <==> last.EndOfStream? || last.ReadFailed?)
    }

    /** Reads until nothing more is there or the server is gone. */
    method ReadAll() returns (serverDropped: bool, graceful: bool)
      requires Valid()
      modifies this`chunks, socket`run, socket`inbound, socket`ready, socket`budget, socket`readLog
      ensures Valid() && Log() == old(Log()) && old(socket.run) <= socket.run && old(chunks) <= chunks
      ensures ReadOn(old(socket.readLog), serverDropped, graceful)
      ensures !serverDropped ==> socket.inbound.recv == [] && !socket.inbound.eof
      ensures graceful && socket.bufferSize > 0 ==> Joined(chunks) == socket.inbound.accepted && socket.inbound.peerClosed
    {
      serverDropped, graceful := false, false;
      while true
        invariant Valid() && Log() == old(Log()) && old(socket.run) <= socket.run && old(chunks) <= chunks && !serverDropped && !graceful
        invariant old(socket.readLog) <= socket.readLog
        invariant forall k :: |old(socket.readLog)| <= k < |socket.readLog| ==> socket.readLog[k].Data?
        decreases socket.budget, |socket.inbound.recv|
      {
        var result := ReadSome();
        match result {
          case Data(_) =>
          case EndOfStream =>
            serverDropped, graceful := true, true;
            break;
          case WouldBlock =>
            break;
          case ReadFailed =>
            serverDropped := true;
            break;
        }
      }
    }

    /** One round of the worker's loop: a wait, and the reads for what it reports. Told stands for
        going on. A failing epoll_wait leaves the client marked connected. */
    method WorkOnce() returns (end: End)
      requires Valid() && isConnected && socket.NothingLost()
      modifies this`isConnected, this`chunks
      modifies socket`run, socket`inbound, socket`ready, socket`budget, socket`readLog, socket`waitLog
      ensures Valid() && Log() == old(Log()) && old(socket.run) <= socket.run && old(chunks) <= chunks
      ensures isConnected <==> !end.ServerDropped?
      ensures Ended(end, 1, old(socket.waitLog), socket.waitLog, old(socket.readLog), socket.readLog)
      ensures !end.ServerDropped? ==> socket.NothingLost()
      ensures end == ServerDropped(true) && socket.bufferSize > 0 ==>
                Joined(chunks) == socket.inbound.accepted && socket.inbound.peerClosed
    {
      end := Told;
      var result := socket.EpollWait();
      if result.WaitFailed? {
        return PollFailed;
      }
      if result == Events(true) {
        var serverDropped, graceful := ReadAll();
        if serverDropped {
          isConnected, end := false, ServerDropped(graceful);
        }
      }
    }

    /** The worker's loop; after at most `rounds` waits somebody clears the flag. When the server
        has finished, everything it sent has reached the callback. */
    method Work(rounds: nat) returns (end: End)
      requires Valid() && isConnected && socket.NothingLost()
      modifies this`isConnected, this`chunks
      modifies socket`run, socket`inbound, socket`ready, socket`budget, socket`readLog, socket`waitLog
      ensures Valid() && Log() == old(Log()) && old(socket.run) <= socket.run && old(chunks) <= chunks
      ensures isConnected <==> end.PollFailed?
      ensures Ended(end, rounds, old(socket.waitLog), socket.waitLog, old(socket.readLog), socket.readLog)
      ensures !end.ServerDropped? ==> socket.NothingLost()
      ensures end == ServerDropped(true) && socket.bufferSize > 0 ==>
                Joined(chunks) == socket.inbound.accepted && socket.inbound.peerClosed
    {
      var left: nat := rounds;
      end := Told;
      while isConnected
        invariant Valid() && Log() == old(Log()) && old(socket.run) <= socket.run && old(chunks) <= chunks
        invariant left <= rounds && (isConnected ==> end == Told) && (end.Told? && !isConnected ==> left == 0)
        invariant !end.PollFailed?
        invariant Ended(end, rounds - left, old(socket.waitLog), socket.waitLog, old(socket.readLog), socket.readLog)
        invariant !end.ServerDropped? ==> socket.NothingLost()
        invariant end == ServerDropped(true) && socket.bufferSize > 0 ==>
                Joined(chunks) == socket.inbound.accepted && socket.inbound.peerClosed
        decreases isConnected, left
      {
        if left == 0 {
          isConnected := false;
        } else {
          ghost var waited, fetched := socket.waitLog, socket.readLog;
          end := WorkOnce();
          EndedLater(end, rounds - left, old(socket.waitLog), waited, socket.waitLog,
                     old(socket.readLog), fetched, socket.readLog);
          left := left - 1;
          if end.PollFailed? {
            break;
          }
        }
      }
    }

    ghost predicate Opened()
      reads this, socket
    {
      clientFd >= 0 && epollFd >= 0 && clientFd in socket.open && epollFd in socket.open
    }

    method ShutdownPipeline()
      requires Valid()
      modifies this`isConnected, this`clientFd, this`epollFd, socket`open, socket`run
      ensures Valid() && !isConnected && clientFd < 0 && epollFd < 0 && (old(Opened()) ==> clientFd == epollFd == -1) && Log() == old(Log()) && old(socket.run) <= socket.run
      ensures old(Opened()) ==> socket.open == old(socket.open) - {old(clientFd), old(epollFd)} && !socket.Alive()
    {
      isConnected := false;
      if epollFd >= 0 {
        socket.CloseEpoll(epollFd);
        epollFd := -1;
      }
      if clientFd >= 0 {
        socket.CloseConnection(clientFd);
        clientFd := -1;
      }
    }

    /** Both descriptors are released exactly when the client was still connected: not after the
        server dropped the connection. */
    method Disconnect()
      requires Valid() && Opened()
      modifies this`isConnected, this`clientFd, this`epollFd, socket`open, socket`run
      ensures Valid() && !isConnected && Log() == old(Log()) && old(socket.run) <= socket.run
      ensures socket.open == if old(isConnected) then old(socket.open) - {old(clientFd), old(epollFd)} else old(socket.open)
      ensures Opened() <==> !old(isConnected)
    {
      if isConnected {
        ShutdownPipeline();
      }
    }
  }
}
