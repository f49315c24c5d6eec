/** The transition system is not too strict: every sequence of frames can get through it completely. */
module Progress {
  import opened Bytes
  import opened Ring
  import opened Dissector
  import opened Pipeline
  import PB = PacketBuffer
  import RP = RingProtocol
  import Pub = Publisher

  ghost predicate Reachable(r: Ring, s: State, localIps: set<U32>) {
    exists trace: seq<State> :: Run(trace, localIps) && trace[0].q.ring == r && trace[|trace| - 1] == s
  }

  lemma ReachableInv(r: Ring, s: State, localIps: set<U32>)
    requires Reachable(r, s, localIps)
    ensures Inv(s, localIps)
  {
    var trace: seq<State> :| Run(trace, localIps) && trace[0].q.ring == r && trace[|trace| - 1] == s;
    Always(trace, |trace| - 1, localIps);
  }

  lemma ReachableStep(r: Ring, s: State, e: Event, localIps: set<U32>)
    requires Reachable(r, s, localIps) && Enabled(s, e)
    ensures Reachable(r, Apply(s, e, localIps), localIps)
  {
    var trace: seq<State> :| Run(trace, localIps) && trace[0].q.ring == r && trace[|trace| - 1] == s;
    var s' := Apply(s, e, localIps);
    assert Next(s, s', localIps);
    Longer(trace, s', localIps);
    assert (trace + [s'])[0] == trace[0] && (trace + [s'])[|trace|] == s';
  }

  lemma Longer(trace: seq<State>, s: State, localIps: set<U32>)
    requires Run(trace, localIps) && Next(trace[|trace| - 1], s, localIps)
    ensures Run(trace + [s], localIps)
  {
    var longer := trace + [s];
    forall k | 0 <= k < |longer| - 1 ensures Next(longer[k], longer[k + 1], localIps) {
      if k < |trace| - 1 {
        assert Next(trace[k], trace[k + 1], localIps);
      }
    }
  }

  /** Nobody is inside the ring and no stop was requested. */
  ghost predicate Quiet(q: RP.State) {
    q.threads == [RP.Idle, RP.Idle] && |q.args| == 2 && q.lock == None && !q.stop && q.ring.Valid()
  }

  /** The three steps of a call that does not block, on the ring alone. */
  ghost predicate Call(q: RP.State, i: nat, role: RP.Role, data: seq<Byte>, q1: RP.State, q2: RP.State, q3: RP.State) {
    && RP.Enabled(q, RP.Enter(i, role, data)) && q1 == RP.Apply(q, RP.Enter(i, role, data))
    && RP.Enabled(q1, RP.Test(i)) && q2 == RP.Apply(q1, RP.Test(i))
    && RP.Enabled(q2, RP.Finish(i, None)) && q3 == RP.Apply(q2, RP.Finish(i, None))
    && q2.threads == q.threads[i := RP.In(role, RP.Passed)] && !q2.stop
  }

  lemma WriteCall(q: RP.State, data: seq<Byte>) returns (q1: RP.State, q2: RP.State, q3: RP.State)
    requires Quiet(q) && q.ring.count < q.ring.capacity && 0 < |data| <= SLOT_SIZE
    ensures Call(q, 0, RP.Writer, data, q1, q2, q3)
    ensures Quiet(q3) && q3.ring.count == q.ring.count + 1
  {
    q1 := RP.Apply(q, RP.Enter(0, RP.Writer, data));
    q2 := RP.Apply(q1, RP.Test(0));
    q3 := RP.Apply(q2, RP.Finish(0, None));
    PutAppends(q.ring, data);
  }

  lemma ReadCall(q: RP.State) returns (q1: RP.State, q2: RP.State, q3: RP.State)
    requires Quiet(q) && q.ring.count > 0
    ensures Call(q, 1, RP.Reader, [], q1, q2, q3)
    ensures Quiet(q3) && q3.ring.count == q.ring.count - 1 && q3.completed != []
  {
    q1 := RP.Apply(q, RP.Enter(1, RP.Reader, []));
    q2 := RP.Apply(q1, RP.Test(1));
    q3 := RP.Apply(q2, RP.Finish(1, None));
    TakeRemoves(q.ring);
  }

  lemma QueueStepReachable(r: Ring, s: State, e: RP.Event, q: RP.State, producer: Producer, consumer: Consumer,
                           localIps: set<U32>)
    requires Reachable(r, s, localIps) && RP.Enabled(s.q, e) && Allowed(s, e) && q == RP.Apply(s.q, e)
    requires producer == NextProducer(s.q, s.producer, e) && consumer == NextConsumer(s.q, s.consumer, e)
    ensures Reachable(r, s.(q := q, producer := producer, consumer := consumer), localIps)
  {
    ReachableStep(r, s, Queue(e), localIps);
  }

  lemma CallReachable(r: Ring, s: State, i: nat, role: RP.Role, data: seq<Byte>,
                      q1: RP.State, q2: RP.State, q3: RP.State, localIps: set<U32>)
    requires Reachable(r, s, localIps) && Call(s.q, i, role, data, q1, q2, q3) && Allowed(s, RP.Enter(i, role, data))
    ensures Reachable(r, s.(q := q3, producer := if i == 0 then Running else s.producer,
                         consumer := if i == 0 then s.consumer else Processing), localIps)
  {
    QueueStepReachable(r, s, RP.Enter(i, role, data), q1, s.producer, s.consumer, localIps);
    QueueStepReachable(r, s.(q := q1), RP.Test(i), q2, s.producer, s.consumer, localIps);
    QueueStepReachable(r, s.(q := q2), RP.Finish(i, None), q3, if i == 0 then Running else s.producer,
                       if i == 0 then s.consumer else Processing, localIps);
  }

  /** A write into a ring with a free slot. */
  lemma WriteThrough(r: Ring, s: State, p: Stamped, localIps: set<U32>) returns (q: RP.State)
    requires Reachable(r, s, localIps) && Quiet(s.q) && s.q.ring.count < s.q.ring.capacity
    requires s.producer == Sending && s.received != [] && s.received[|s.received| - 1] == p && 0 < |p.frame| <= BUF_SIZE
    ensures Quiet(q) && q.ring.count == s.q.ring.count + 1
    ensures Reachable(r, s.(q := q, producer := Running), localIps)
  {
    var q1, q2;
    q1, q2, q := WriteCall(s.q, PB.Encode(p));
    CallReachable(r, s, 0, RP.Writer, PB.Encode(p), q1, q2, q, localIps);
  }

  /** A read from a ring that is not empty. */
  lemma ReadThrough(r: Ring, s: State, localIps: set<U32>) returns (q: RP.State)
    requires Reachable(r, s, localIps) && Quiet(s.q) && s.q.ring.count > 0 && s.consumer == Reading
    ensures Quiet(q) && q.ring.count == s.q.ring.count - 1 && q.completed != []
    ensures Reachable(r, s.(q := q, consumer := Processing), localIps)
  {
    var q1, q2;
    q1, q2, q := ReadCall(s.q);
    CallReachable(r, s, 1, RP.Reader, [], q1, q2, q, localIps);
  }

  /** Everything received so far has been handled, and both threads are at the top of their loops. */
  ghost predicate Drained(r: Ring, s: State, ps: seq<Stamped>, localIps: set<U32>) {
    && Reachable(r, s, localIps) && Quiet(s.q) && s.q.ring.count == 0
    && s.producer == Running && s.consumer == Top && s.received == ps && s.work.seen == ps
  }

  lemma OneThrough(r: Ring, s: State, ps: seq<Stamped>, p: Stamped, o: Pub.Oracle, localIps: set<U32>)
    returns (s': State)
    requires Drained(r, s, ps, localIps) && 0 < |p.frame| <= BUF_SIZE && !Pub.SawStop(o)
    ensures Drained(r, s', ps + [p], localIps)
  {
    ReachableStep(r, s, Receive(p.frame, p.ts), localIps);
    var s1 := Apply(s, Receive(p.frame, p.ts), localIps);
    var q2 := WriteThrough(r, s1, p, localIps);
    var s2 := s1.(q := q2, producer := Running);
    ReachableStep(r, s2, BeginRead, localIps);
    var s3 := Apply(s2, BeginRead, localIps);
    var q4 := ReadThrough(r, s3, localIps);
    s' := Handled(r, s3.(q := q4, consumer := Processing), p, o, localIps);
  }

  lemma Handled(r: Ring, s: State, p: Stamped, o: Pub.Oracle, localIps: set<U32>) returns (s': State)
    requires Reachable(r, s, localIps) && s.consumer == Processing && s.q.completed != [] && !Pub.SawStop(o)
    requires s.received == s.work.seen + [p]
    ensures Reachable(r, s', localIps) && s'.consumer == Top && s'.work.seen == s.work.seen + [p]
    ensures s'.q == s.q && s'.producer == s.producer && s'.received == s.received
  {
    ReachableInv(r, s, localIps);
    NextInOrder(s.q, s.producer, s.received, |s.work.seen|);
    PassEncoded(s, p, o, localIps);
    PassMovesOn(s, p, o, localIps);
    ReachableStep(r, s, Handle(o), localIps);
    s' := Apply(s, Handle(o), localIps);
  }

  lemma PassMovesOn(s: State, p: Stamped, o: Pub.Oracle, localIps: set<U32>)
    requires |p.frame| <= BUF_SIZE
    ensures var s' := PassFrame(s, p, o, localIps);
            && s'.consumer == Top && s'.work.seen == s.work.seen + [p]
            && s'.q == s.q && s'.producer == s.producer && s'.received == s.received
  {
  }

  lemma NewRing(r: Ring) returns (q: RP.State)
    requires Empty(r)
    ensures RP.Init(q) && Quiet(q) && q.ring == r
  {
    q := RP.State(r, false, [RP.Idle, RP.Idle], [[], []], None, [], []);
  }

  lemma Start(r: Ring, attempts: Pub.Attempts, localIps: set<U32>) returns (s: State)
    requires Empty(r)
    ensures Drained(r, s, [], localIps)
  {
    var q := NewRing(r);
    s := State(q, Running, Top, [], Work([], Zeros(), [], map[], []), Pub.Construct(attempts), [], []);
    assert Init(s);
    assert Run([s], localIps) && [s][0] == s;
  }

  /** From every new ring, any frames can be received and handled completely and in order, whatever the broker
      answers short of the stop exit. */
  lemma {:induction false} AllGetThrough(r: Ring, attempts: Pub.Attempts, ps: seq<Stamped>, os: seq<Pub.Oracle>,
                                         localIps: set<U32>)
    returns (s: State)
    requires Empty(r) && |os| == |ps|
    requires forall k :: 0 <= k < |ps| ==> 0 < |ps[k].frame| <= BUF_SIZE && !Pub.SawStop(os[k])
    ensures Drained(r, s, ps, localIps)
  {
    if ps == [] {
      s := Start(r, attempts, localIps);
    } else {
      var n := |ps| - 1;
      s := AllGetThrough(r, attempts, ps[..n], os[..n], localIps);
      s := OneThrough(r, s, ps[..n], ps[n], os[n], localIps);
      assert ps == ps[..n] + [ps[n]];
    }
  }
}
