/** One client and the server together: runs of the reactor in which the peer of one connection
    is a client that logs its calls of send_data. Everything else, the server, the other peers and
    the network, interleaves freely with the client's writes. */
module EndToEnd {
  import opened Basics
  import opened Reactor

  // ---------- The client's log ----------

  datatype Outcome = Sending | SUCCESS | READ_FAILED

  /** One call of send_data: its payload, how much of it the kernel has taken, and how it ended. */
  datatype Send = Send(payload: seq<Byte>, sent: nat, outcome: Outcome)

  ghost predicate Honest(x: Send) {
    x.sent <= |x.payload| && (x.outcome.SUCCESS? ==> x.sent == |x.payload|)
  }

  ghost predicate AllHonest(log: seq<Send>) {
    forall k :: 0 <= k < |log| ==> Honest(log[k])
  }

  /** What the kernel took, call after call. */
  ghost function Taken(log: seq<Send>): seq<Byte> {
    if log == [] then []
    else
      var last := log[|log| - 1];
      Taken(log[..|log| - 1]) + last.payload[..if last.sent <= |last.payload| then last.sent else |last.payload|]
  }

  ghost function Payloads(log: seq<Send>): seq<Byte> {
    if log == [] then [] else Payloads(log[..|log| - 1]) + log[|log| - 1].payload
  }

  lemma TakenMore(log: seq<Send>, x: Send)
    requires Honest(x)
    ensures Taken(log + [x]) == Taken(log) + x.payload[..x.sent]
  {
    assert (log + [x])[..|log|] == log;
  }

  lemma {:induction false} AllTaken(log: seq<Send>)
    requires AllHonest(log) && forall k :: 0 <= k < |log| ==> log[k].outcome.SUCCESS?
    ensures Taken(log) == Payloads(log)
  {
    if log != [] {
      AllTaken(log[..|log| - 1]);
      var last := log[|log| - 1];
      assert Honest(last) && last.payload[..last.sent] == last.payload;
    }
  }

  /** When every call but the last succeeded, what was taken is a prefix of what was meant. */
  lemma TakenIsPrefix(log: seq<Send>)
    requires AllHonest(log) && forall k :: 0 <= k < |log| - 1 ==> log[k].outcome.SUCCESS?
    ensures Taken(log) <= Payloads(log)
  {
    if log != [] {
      AllTaken(log[..|log| - 1]);
      var last := log[|log| - 1];
      assert Honest(last) && last.payload[..last.sent] <= last.payload;
    }
  }

  // ---------- Joint runs ----------

  datatype Joint = Joint(s: State, log: seq<Send>)

  /** Whatever the client does not do itself: the server, the other peers, and the kernel act. */
  ghost predicate OthersStep(s: State, s': State, me: Id) {
    s' == s || ServerStep(s, s') || KernelStep(s, s') || exists id :: id != me && PeerStep(s, s', id)
  }

  ghost predicate BeginStep(j: Joint, j': Joint, payload: seq<Byte>) {
    j' == j.(log := j.log + [Send(payload, 0, Sending)])
  }

  /** The call in progress hands the next n bytes of its payload to the kernel. */
  ghost predicate HandStep(j: Joint, j': Joint, me: Id, n: nat) {
    && j.log != []
    && var last := j.log[|j.log| - 1];
       && last.outcome.Sending? && last.sent + n <= |last.payload|
       && WriteStep(j.s, j'.s, me, last.payload[last.sent..last.sent + n])
       && j'.log == j.log[|j.log| - 1 := last.(sent := last.sent + n)]
  }

  /** The call in progress returns: success if nothing is left, failure at any time. */
  ghost predicate ReturnStep(j: Joint, j': Joint, outcome: Outcome) {
    && j.log != [] && j'.s == j.s
    && var last := j.log[|j.log| - 1];
       && last.outcome.Sending? && (outcome.READ_FAILED? || (outcome.SUCCESS? && last.sent == |last.payload|))
       && j'.log == j.log[|j.log| - 1 := last.(outcome := outcome)]
  }

  ghost predicate JointStep(j: Joint, j': Joint, me: Id) {
    || (OthersStep(j.s, j'.s, me) && j'.log == j.log)
    || (FinishStep(j.s, j'.s, me) && j'.log == j.log)
    || (exists payload :: BeginStep(j, j', payload))
    || (exists n :: HandStep(j, j', me, n))
    || (exists outcome :: ReturnStep(j, j', outcome))
  }

  ghost predicate JointStepAt(run: seq<Joint>, me: Id, k: nat)
    requires k + 1 < |run|
  {
    JointStep(run[k], run[k + 1], me)
  }

  ghost predicate AreJointSteps(run: seq<Joint>, me: Id) {
    forall k :: 0 <= k < |run| - 1 ==> JointStepAt(run, me, k)
  }

  ghost predicate IsJointRun(run: seq<Joint>, me: Id) {
    run != [] && Initial(run[0].s) && run[0].log == [] && AreJointSteps(run, me)
  }

  lemma JointRunsJoin(run: seq<Joint>, rest: seq<Joint>, me: Id)
    requires run != [] && AreJointSteps(run, me) && AreJointSteps(rest, me)
    requires rest != [] ==> JointStep(run[|run| - 1], rest[0], me)
    ensures AreJointSteps(run + rest, me)
  {
    var whole := run + rest;
    forall k | 0 <= k < |whole| - 1
      ensures JointStepAt(whole, me, k)
    {
      if k < |run| - 1 {
        assert JointStepAt(run, me, k);
      } else if k >= |run| {
        assert JointStepAt(rest, me, k - |run|);
      }
    }
  }

  /** Seen from the server a joint run is a run like any other. */
  ghost function States(run: seq<Joint>): seq<State> {
    seq(|run|, k requires 0 <= k < |run| => run[k].s)
  }

  lemma JointStepIsStep(j: Joint, j': Joint, me: Id)
    requires JointStep(j, j', me)
    ensures Step(j.s, j'.s)
  {
    if FinishStep(j.s, j'.s, me) || exists n :: HandStep(j, j', me, n) {
      assert PeerStep(j.s, j'.s, me);
    } else if OthersStep(j.s, j'.s, me) && (exists id :: id != me && PeerStep(j.s, j'.s, id)) {
      assert EnvStep(j.s, j'.s);
    }
  }

  lemma JointRunIsRun(run: seq<Joint>, me: Id)
    requires IsJointRun(run, me)
    ensures IsRun(States(run))
  {
    var states := States(run);
    forall k | 0 <= k < |states| - 1
      ensures StepAt(states, k)
    {
      assert JointStepAt(run, me, k);
      JointStepIsStep(run[k], run[k + 1], me);
    }
  }

  // ---------- Others at work ----------

  ghost predicate OthersAt(run: seq<Joint>, me: Id, k: nat)
    requires k + 1 < |run|
  {
    OthersStep(run[k].s, run[k + 1].s, me) && run[k + 1].log == run[k].log
  }

  /** Between two calls of the client anything may happen except what only the client does. */
  ghost predicate AreOthersSteps(run: seq<Joint>, me: Id) {
    forall k :: 0 <= k < |run| - 1 ==> OthersAt(run, me, k)
  }

  lemma {:induction false} OthersRun(run: seq<Joint>, me: Id, k: nat)
    requires AreOthersSteps(run, me) && k < |run|
    ensures run[k].log == run[0].log && SamePeerSide(run[0].s, run[k].s, me)
  {
    if k > 0 {
      OthersRun(run, me, k - 1);
      assert OthersAt(run, me, k - 1);
      OthersKeepPeerSide(run[k - 1].s, run[k].s, me);
    }
  }

  lemma OthersExtend(run: seq<Joint>, rest: seq<Joint>, me: Id)
    requires IsJointRun(run, me) && AreOthersSteps([run[|run| - 1]] + rest, me)
    ensures IsJointRun(run + rest, me)
    ensures var last := (run + rest)[|run + rest| - 1];
            last.log == run[|run| - 1].log && SamePeerSide(run[|run| - 1].s, last.s, me)
  {
    var both := [run[|run| - 1]] + rest;
    OthersRun(both, me, |both| - 1);
    forall k | 0 <= k < |rest| - 1
      ensures JointStepAt(rest, me, k)
    {
      assert OthersAt(both, me, k + 1);
    }
    if rest != [] {
      assert OthersAt(both, me, 0);
    }
    JointRunsJoin(run, rest, me);
  }

  lemma JointStepExtends(run: seq<Joint>, j: Joint, me: Id)
    requires IsJointRun(run, me) && JointStep(run[|run| - 1], j, me)
    ensures IsJointRun(run + [j], me)
  {
    JointRunsJoin(run, [j], me);
  }

  // ---------- What links the two ends ----------

  /** The log is honest, and the connection, once there is one, has accepted what was handed over. */
  ghost predicate Linked(j: Joint, me: Id) {
    && AllHonest(j.log) && Taken(j.log) == if me in j.s.net then j.s.net[me].accepted else []
  }

  ghost predicate SamePeerSide(s: State, s': State, me: Id) {
    && (me in s.net ==> me in s'.net && s'.net[me].accepted == s.net[me].accepted && s'.net[me].peerClosed == s.net[me].peerClosed)
    && (me !in s.net && me in s'.net ==> s'.net[me].accepted == [])
  }

  lemma ServerKeepsPeerSide(s: State, s': State, me: Id)
    requires ServerStep(s, s')
    ensures SamePeerSide(s, s', me)
  {
  }

  lemma KernelKeepsPeerSide(s: State, s': State, me: Id)
    requires KernelStep(s, s')
    ensures SamePeerSide(s, s', me)
  {
    if id, c' :| ArriveStep(s, s', id, c') {
      ArriveKeepsEnds(s.net[id], c');
    }
  }

  lemma PeersKeepPeerSide(s: State, s': State, id: Id, me: Id)
    requires id != me && PeerStep(s, s', id)
    ensures SamePeerSide(s, s', me)
  {
  }

  /** No one but its peer adds to what a connection accepted, or finishes it. */
  lemma OthersKeepPeerSide(s: State, s': State, me: Id)
    requires OthersStep(s, s', me)
    ensures SamePeerSide(s, s', me)
  {
    if ServerStep(s, s') {
      ServerKeepsPeerSide(s, s', me);
    } else if KernelStep(s, s') {
      KernelKeepsPeerSide(s, s', me);
    } else if id :| id != me && PeerStep(s, s', id) {
      PeersKeepPeerSide(s, s', id, me);
    }
  }

  lemma ArriveKeepsEnds(c: Conn, c': Conn)
    requires NetworkAct(c, c')
    ensures SameEnds(c, c')
  {
  }

  /** The last entry of the log is replaced. */
  lemma LastReplaced(log: seq<Send>, x: Send)
    requires AllHonest(log) && log != [] && Honest(x)
    ensures var k := |log| - 1; AllHonest(log[k := x]) && log[k].sent <= |log[k].payload|
    ensures var k := |log| - 1; Taken(log) == Taken(log[..k]) + log[k].payload[..log[k].sent]
    ensures var k := |log| - 1; Taken(log[k := x]) == Taken(log[..k]) + x.payload[..x.sent]
  {
    var k := |log| - 1;
    assert Honest(log[k]);
    assert log == log[..k] + [log[k]] && log[k := x] == log[..k] + [x];
    TakenMore(log[..k], log[k]);
    TakenMore(log[..k], x);
  }

  lemma PrefixGrows(before: seq<Byte>, payload: seq<Byte>, m: nat, n: nat)
    requires m + n <= |payload|
    ensures before + payload[..m] + payload[m..m + n] == before + payload[..m + n]
  {
    assert payload[..m] + payload[m..m + n] == payload[..m + n];
  }

  lemma HandLinks(j: Joint, j': Joint, me: Id, n: nat)
    requires Linked(j, me) && HandStep(j, j', me, n)
    ensures Linked(j', me)
  {
    var k := |j.log| - 1;
    var last := j.log[k];
    LastReplaced(j.log, last.(sent := last.sent + n));
    PrefixGrows(Taken(j.log[..k]), last.payload, last.sent, n);
  }

  lemma ReturnLinks(j: Joint, j': Joint, me: Id, outcome: Outcome)
    requires Linked(j, me) && ReturnStep(j, j', outcome)
    ensures Linked(j', me)
  {
    LastReplaced(j.log, j.log[|j.log| - 1].(outcome := outcome));
  }

  lemma BeginLinks(j: Joint, j': Joint, me: Id, payload: seq<Byte>)
    requires Linked(j, me) && BeginStep(j, j', payload)
    ensures Linked(j', me)
  {
    TakenMore(j.log, Send(payload, 0, Sending));
  }

  lemma OthersLink(j: Joint, j': Joint, me: Id)
    requires Linked(j, me) && (OthersStep(j.s, j'.s, me) || FinishStep(j.s, j'.s, me)) && j'.log == j.log
    ensures Linked(j', me)
  {
    if OthersStep(j.s, j'.s, me) {
      OthersKeepPeerSide(j.s, j'.s, me);
    }
  }

  lemma JointStepLinks(j: Joint, j': Joint, me: Id)
    requires Linked(j, me) && JointStep(j, j', me)
    ensures Linked(j', me)
  {
    if payload :| BeginStep(j, j', payload) {
      BeginLinks(j, j', me, payload);
    } else if n :| HandStep(j, j', me, n) {
      HandLinks(j, j', me, n);
    } else if outcome :| ReturnStep(j, j', outcome) {
      ReturnLinks(j, j', me, outcome);
    } else {
      OthersLink(j, j', me);
    }
  }

  lemma {:induction false} JointRunLinks(run: seq<Joint>, me: Id, k: nat)
    requires IsJointRun(run, me) && k < |run|
    ensures Linked(run[k], me)
  {
    if k > 0 {
      JointRunLinks(run, me, k - 1);
      assert JointStepAt(run, me, k - 1);
      JointStepLinks(run[k - 1], run[k], me);
    }
  }

  // ---------- The results ----------

  /** From send_data to the server's callback: in every state of every joint run, the bytes
      delivered and those under way are, in order, the ones the calls have handed over; and as long
      as no failed call was followed by another, what is delivered is a prefix of what was meant. */
  lemma StreamArrives(run: seq<Joint>, me: Id, k: nat)
    requires IsJointRun(run, me) && k < |run| && me in run[k].s.net
    ensures var c := run[k].s.net[me]; c.delivered + c.buffered + c.recv + c.wire == Taken(run[k].log)
    ensures (forall j :: 0 <= j < |run[k].log| - 1 ==> run[k].log[j].outcome.SUCCESS?) ==>
              run[k].s.net[me].delivered <= Payloads(run[k].log)
  {
    JointRunLinks(run, me, k);
    JointRunIsRun(run, me);
    StreamConserved(States(run), k, me);
    if forall j :: 0 <= j < |run[k].log| - 1 ==> run[k].log[j].outcome.SUCCESS? {
      TakenIsPrefix(run[k].log);
    }
  }

  /** When all calls succeeded, a connection that the server closed at the end of its stream has
      delivered exactly the payloads. */
  lemma AllDelivered(run: seq<Joint>, me: Id, k: nat, j: nat)
    requires IsJointRun(run, me) && k < |run| && run[k].s.bufferSize > 0
    requires j < |run[k].s.closed| && run[k].s.closed[j] == ClosedConn(me, true)
    requires forall i :: 0 <= i < |run[k].log| ==> run[k].log[i].outcome.SUCCESS?
    ensures me in run[k].s.net && run[k].s.net[me].delivered == Payloads(run[k].log)
  {
    JointRunLinks(run, me, k);
    JointRunIsRun(run, me);
    GracefulCloseDeliversAll(States(run), k, j);
    AllTaken(run[k].log);
  }
}
