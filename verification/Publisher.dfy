/** `RabbitMqPublisher`: connect, disconnect and publish against an AMQP library and broker that may answer
    anything. The answers of one call are an `Oracle`; a statement for all oracles is a statement about every
    behaviour of the environment. Only the environment knows which publish a confirm belongs to. */
module Publisher {
  import opened Bytes
  import opened Json

  type Handle = nat

  const MAX_ATTEMPTS := 3
  const MAX_CONFIRM_WAIT_MS := 5000
  const POLL_INTERVAL_MS := 50
  const MAX_POLLS := 100

  datatype Attempt = NoSocket | OpenFailed | LoginFailed | ChannelFailed | ConfirmFailed | Connected

  /** A failing send may or may not have reached the broker. */
  datatype Send = SendOk | SendFailed(delivered: bool)

  /** One wait for a frame. A confirm answers some unconfirmed publish of the connection, not necessarily
      the oldest; without one outstanding there is nothing to confirm and the wait times out. */
  datatype Poll = Timeout(stopSeen: bool) | WaitError | OtherFrame | Confirm(pick: nat, ack: bool)

  type Attempts = a: seq<Attempt> | |a| == 3 witness [NoSocket, NoSocket, NoSocket]
  type Polls = p: seq<Poll> | |p| == 100 witness seq(100, _ => WaitError)

  datatype Oracle = Oracle(attempts: Attempts, send: Send, polls: Polls)

  datatype Outcome =
    | Skipped | NoConnection | NullHandle | SendError | StopExit | WaitFailed | TimedOut
    | Nacked(id: nat) | Confirmed(id: nat)
  {
    /** The boolean `publish` returns. */
    predicate Ok() { Skipped? || Confirmed? }
  }

  /** A connection object of the library: how often it was destroyed, and the publishes sent on it that the
      broker has not confirmed yet. */
  datatype Connection = Connection(destroyed: nat, pending: seq<nat>)

  /** The publisher's fields together with every connection object ever made for it; a handle is an index
      into these. Publish calls are numbered, and the number of a call is the identity of its frame. */
  datatype State = State(conn: Option<Handle>, connected: bool, made: seq<Connection>, calls: nat)

  // ---- The transitions --------------------------------------------------------------------------

  function NewConnection(s: State): State {
    s.(conn := Some(|s.made|), made := s.made + [Connection(0, [])])
  }

  /** Destroying a connection object takes its confirm queue with it. */
  function Disconnect(s: State): State {
    if s.conn.None? then s
    else s.(conn := None, made := Destroy(s.made, s.conn.value))
  }

  function Destroy(made: seq<Connection>, h: Handle): seq<Connection> {
    if h < |made| then made[h := Connection(made[h].destroyed + 1, [])] else made
  }

  function Attempting(s: State, attempts: Attempts, k: nat): (State, bool)
    requires k <= MAX_ATTEMPTS
    decreases MAX_ATTEMPTS - k
  {
    if k == MAX_ATTEMPTS then (s, false) else
    var n := NewConnection(s);
    match attempts[k]
    case NoSocket => (Disconnect(n), false)
    case Connected => (n, true)
    case _ => Attempting(Disconnect(n), attempts, k + 1)
  }

  function Connect(s: State, attempts: Attempts): (State, bool) {
    Attempting(Disconnect(s), attempts, 0)
  }

  function Queue(s: State, h: Handle): seq<nat> {
    if h < |s.made| then s.made[h].pending else []
  }

  function SetQueue(s: State, h: Handle, q: seq<nat>): State {
    if h < |s.made| then s.(made := s.made[h := s.made[h].(pending := q)]) else s
  }

  function Deliver(s: State, h: Handle, id: nat): State {
    SetQueue(s, h, Queue(s, h) + [id])
  }

  /** The confirm loop from its k-th iteration on. */
  function Await(s: State, h: Handle, polls: Polls, k: nat): (State, Outcome)
    requires k <= MAX_POLLS
    decreases MAX_POLLS - k
  {
    if k == MAX_POLLS then (s.(connected := false), TimedOut) else
    match polls[k]
    case Timeout(stopSeen) => if stopSeen then (s, StopExit) else Await(s, h, polls, k + 1)
    case WaitError => (s.(connected := false), WaitFailed)
    case OtherFrame => Await(s, h, polls, k + 1)
    case Confirm(pick, ack) =>
      var q := Queue(s, h);
      if q == [] then Await(s, h, polls, k + 1) else
      var i := if pick < |q| then pick else 0;
      (SetQueue(s, h, q[..i] + q[i + 1..]), if ack then Confirmed(q[i]) else Nacked(q[i]))
  }

  function PublishConnected(s: State, id: nat, o: Oracle): (State, Outcome) {
    if s.conn.None? then (s, NullHandle) else
    var h := s.conn.value;
    match o.send
    case SendFailed(delivered) => ((if delivered then Deliver(s, h, id) else s).(connected := false), SendError)
    case SendOk => Await(Deliver(s, h, id), h, o.polls, 0)
  }

  function PublishReady(s: State, id: nat, o: Oracle): (State, Outcome) {
    if s.connected then PublishConnected(s, id, o) else (s, NoConnection)
  }

  function EnsureConnected(s: State, attempts: Attempts): State {
    if s.connected then s else
    var (t, ok) := Connect(s, attempts);
    t.(connected := ok)
  }

  function Counted(s: State): State {
    s.(calls := s.calls + 1)
  }

  function PublishSent(s: State, id: nat, o: Oracle): (State, Outcome) {
    PublishReady(EnsureConnected(s, o.attempts), id, o)
  }

  function Publish(s: State, protocol: Byte, o: Oracle): (State, Outcome) {
    if !Publishable(protocol) then (Counted(s), Skipped) else PublishSent(Counted(s), s.calls, o)
  }

  const BLANK_STATE := State(None, false, [], 0)

  function Construct(attempts: Attempts): State {
    EnsureConnected(BLANK_STATE, attempts)
  }

  // ---- The class --------------------------------------------------------------------------------

  /** What the library and the broker keep; its answers come in as oracle values. */
  class Broker {
    var made: seq<Connection>

    constructor ()
      ensures made == []
    {
      made := [];
    }
  }

  class RabbitMqPublisher {
    const broker: Broker
    var conn: Option<Handle>
    var connected: bool
    var calls: nat

    ghost function Snapshot(): State
      reads this, broker
    {
      State(conn, connected, broker.made, calls)
    }

    constructor (broker: Broker, attempts: Attempts)
      requires broker.made == []
      modifies broker
      ensures Snapshot() == Construct(attempts) && this.broker == broker
    {
      this.broker := broker;
      conn, connected, calls := None, false, 0;
      new;
      var ok := ConnectBroker(attempts);
      connected := ok;
    }

    method OpenHandle()
      modifies this`conn, broker
      ensures Snapshot() == NewConnection(old(Snapshot()))
    {
      conn := Some(|broker.made|);
      broker.made := broker.made + [Connection(0, [])];
    }

    method DisconnectBroker()
      modifies this`conn, broker
      ensures Snapshot() == Disconnect(old(Snapshot()))
    {
      if conn.Some? {
        broker.made := Destroy(broker.made, conn.value);
        conn := None;
      }
    }

    method ConnectBroker(attempts: Attempts) returns (ok: bool)
      modifies this`conn, broker
      ensures (Snapshot(), ok) == Connect(old(Snapshot()), attempts)
    {
      if conn.Some? {
        DisconnectBroker();
      }
      var attempt := 1;
      while attempt <= MAX_ATTEMPTS
        invariant 1 <= attempt <= MAX_ATTEMPTS + 1
        invariant Attempting(Snapshot(), attempts, attempt - 1) == Connect(old(Snapshot()), attempts)
      {
        OpenHandle();
        var answer := attempts[attempt - 1];
        if answer == NoSocket {
          DisconnectBroker();
          return false;
        }
        if answer == Connected {
          return true;
        }
        DisconnectBroker();
        attempt := attempt + 1;
      }
      return false;
    }

    method PublishFrame(protocol: Byte, o: Oracle) returns (r: Outcome)
      modifies this, broker
      ensures (Snapshot(), r) == Publish(old(Snapshot()), protocol, o)
    {
      var id := calls;
      calls := calls + 1;
      if !Publishable(protocol) {
        return Skipped;
      }
      if !connected {
        connected := ConnectBroker(o.attempts);
        if !connected {
          return NoConnection;
        }
      }
      r := SendAndConfirm(id, o);
    }

    method SendAndConfirm(id: nat, o: Oracle) returns (r: Outcome)
      modifies this`connected, broker
      ensures (Snapshot(), r) == PublishConnected(old(Snapshot()), id, o)
    {
      if conn.None? {
        return NullHandle;
      }
      var h := conn.value;
      if o.send == SendOk || o.send.delivered {
        if h < |broker.made| {
          broker.made := broker.made[h := broker.made[h].(pending := broker.made[h].pending + [id])];
        }
      }
      if o.send != SendOk {
        connected := false;
        return SendError;
      }
      r := ConfirmLoop(h, o.polls);
    }

    /** The broker's part: it gives up one of the unconfirmed publishes, if there is any. */
    method TakeConfirm(h: Handle, pick: nat) returns (id: Option<nat>)
      modifies broker
      ensures var q := old(Queue(Snapshot(), h));
              if q == [] then id == None && Snapshot() == old(Snapshot())
              else
                var i := if pick < |q| then pick else 0;
                id == Some(q[i]) && Snapshot() == SetQueue(old(Snapshot()), h, q[..i] + q[i + 1..])
    {
      var q := if h < |broker.made| then broker.made[h].pending else [];
      if q == [] {
        return None;
      }
      var i := if pick < |q| then pick else 0;
      broker.made := broker.made[h := broker.made[h].(pending := q[..i] + q[i + 1..])];
      return Some(q[i]);
    }

    method ConfirmLoop(h: Handle, polls: Polls) returns (r: Outcome)
      modifies this`connected, broker
      ensures (Snapshot(), r) == Await(old(Snapshot()), h, polls, 0)
    {
      var waited := 0;
      var k := 0;
      while waited < MAX_CONFIRM_WAIT_MS
        invariant waited == POLL_INTERVAL_MS * k && 0 <= k <= MAX_POLLS
        invariant Snapshot() == old(Snapshot())
        invariant Await(Snapshot(), h, polls, k) == Await(old(Snapshot()), h, polls, 0)
        decreases MAX_CONFIRM_WAIT_MS - waited
      {
        match polls[k] {
          case Timeout(stopSeen) =>
            if stopSeen {
              return StopExit;
            }
          case WaitError =>
            connected := false;
            return WaitFailed;
          case OtherFrame =>
          case Confirm(pick, ack) =>
            var id := TakeConfirm(h, pick);
            if id.Some? {
              return if ack then Confirmed(id.value) else Nacked(id.value);
            }
        }
        waited, k := waited + POLL_INTERVAL_MS, k + 1;
      }
      connected := false;
      return TimedOut;
    }
  }

  // ---- Handle balance ---------------------------------------------------------------------------

  /** The connection object in `conn`, if any, is alive; every other one ever made was destroyed exactly once
      (so at most one is alive); a publisher that believes to be connected has one. */
  ghost predicate Balanced(s: State) {
    && (s.conn.Some? ==> s.conn.value < |s.made|)
    && (s.connected ==> s.conn.Some?)
    && (forall h :: 0 <= h < |s.made| ==> s.made[h].destroyed == if s.conn == Some(h) then 0 else 1)
    && (forall h, i :: 0 <= h < |s.made| && 0 <= i < |s.made[h].pending| ==> s.made[h].pending[i] < s.calls)
  }

  /** No publish of the live connection is waiting for its confirm. */
  predicate Clear(s: State) {
    s.connected && s.conn.Some? ==> Queue(s, s.conn.value) == []
  }

  lemma DisconnectBalanced(s: State)
    requires Balanced(s) && !s.connected
    ensures Balanced(Disconnect(s)) && Disconnect(s).conn == None
  {
  }

  lemma NewConnectionBalanced(s: State)
    requires Balanced(s) && s.conn == None
    ensures Balanced(NewConnection(s))
  {
  }

  lemma {:induction false} AttemptingBalanced(s: State, attempts: Attempts, k: nat)
    requires Balanced(s) && s.conn == None && k <= MAX_ATTEMPTS
    ensures var (t, ok) := Attempting(s, attempts, k);
            && Balanced(t) && (ok <==> t.conn.Some?) && !t.connected
            && (ok ==> Queue(t, t.conn.value) == [])
            && |t.made| <= |s.made| + (MAX_ATTEMPTS - k) && t.calls == s.calls
    decreases MAX_ATTEMPTS - k
  {
    if k < MAX_ATTEMPTS {
      NewConnectionBalanced(s);
      DisconnectBalanced(NewConnection(s));
      if attempts[k] != NoSocket && attempts[k] != Connected {
        AttemptingBalanced(Disconnect(NewConnection(s)), attempts, k + 1);
      }
    }
  }

  lemma ConnectBalanced(s: State, attempts: Attempts)
    requires Balanced(s) && !s.connected
    ensures var (t, ok) := Connect(s, attempts);
            && Balanced(t.(connected := ok)) && (ok <==> t.conn.Some?)
            && (ok ==> Queue(t, t.conn.value) == [])
            && |t.made| <= |s.made| + MAX_ATTEMPTS && t.calls == s.calls
  {
    DisconnectBalanced(s);
    AttemptingBalanced(Disconnect(s), attempts, 0);
  }

  lemma ConnectedState(s: State, attempts: Attempts) returns (t: State)
    requires Balanced(s)
    ensures t == EnsureConnected(s, attempts)
    ensures Balanced(t) && |t.made| <= |s.made| + MAX_ATTEMPTS && t.calls == s.calls
    ensures Clear(s) <==> Clear(t)
  {
    if !s.connected {
      ConnectBalanced(s, attempts);
    }
    t := EnsureConnected(s, attempts);
  }

  lemma ConfirmBalanced(s: State, h: Handle, i: nat)
    requires Balanced(s) && s.conn == Some(h) && i < |Queue(s, h)|
    ensures var q := Queue(s, h); Balanced(SetQueue(s, h, q[..i] + q[i + 1..]))
  {
  }

  lemma {:induction false} AwaitBalanced(s: State, h: Handle, polls: Polls, k: nat)
    requires Balanced(s) && s.conn == Some(h) && k <= MAX_POLLS
    ensures var (t, r) := Await(s, h, polls, k);
            Balanced(t) && r != NullHandle && r != Skipped && |t.made| == |s.made| && t.calls == s.calls
    decreases MAX_POLLS - k
  {
    if k < MAX_POLLS {
      AwaitBalanced(s, h, polls, k + 1);
      if polls[k].Confirm? && Queue(s, h) != [] {
        ConfirmBalanced(s, h, if polls[k].pick < |Queue(s, h)| then polls[k].pick else 0);
      }
    }
  }

  /** What one call may do to the handles. */
  ghost predicate KeepsBalance(s: State, p: (State, Outcome)) {
    Balanced(p.0) && p.1 != NullHandle && |p.0.made| <= |s.made| + 3 && p.0.calls == s.calls + 1
  }

  lemma ReadyBalanced(s: State, s1: State, o: Oracle)
    requires Balanced(s1) && |s1.made| <= |s.made| + MAX_ATTEMPTS && s1.calls == s.calls + 1
    ensures KeepsBalance(s, PublishReady(s1, s.calls, o)) && PublishReady(s1, s.calls, o).1 != Skipped
  {
    if s1.connected {
      SendBalanced(s1, s.calls, o);
    }
  }

  /** Every call keeps the balance, never hands a null handle to the library and opens at most 3 handles; it
      skips exactly the frames of other protocols. */
  lemma PublishBalanced(s: State, protocol: Byte, o: Oracle)
    requires Balanced(s)
    ensures KeepsBalance(s, Publish(s, protocol, o))
    ensures Publish(s, protocol, o).1 == Skipped <==> !Publishable(protocol)
  {
    CountedBalanced(s);
    if Publishable(protocol) {
      SentBalanced(s, Counted(s), o);
    }
  }

  lemma SentBalanced(s: State, s0: State, o: Oracle)
    requires Balanced(s0) && |s0.made| == |s.made| && s0.calls == s.calls + 1
    ensures KeepsBalance(s, PublishSent(s0, s.calls, o)) && PublishSent(s0, s.calls, o).1 != Skipped
  {
    var s1 := ConnectedState(s0, o.attempts);
    ReadyBalanced(s, s1, o);
  }

  lemma CountedBalanced(s: State)
    requires Balanced(s)
    ensures KeepsBalance(s, (Counted(s), Skipped)) && (Clear(Counted(s)) <==> Clear(s))
    ensures Balanced(Counted(s)) && |Counted(s).made| == |s.made| && Counted(s).calls == s.calls + 1
  {
  }

  lemma SendBalanced(s: State, id: nat, o: Oracle)
    requires Balanced(s) && s.connected && id < s.calls
    ensures var (t, r) := PublishConnected(s, id, o);
            Balanced(t) && r != NullHandle && r != Skipped && |t.made| == |s.made| && t.calls == s.calls
  {
    var h := s.conn.value;
    assert Balanced(Deliver(s, h, id));
    AwaitBalanced(Deliver(s, h, id), h, o.polls, 0);
  }

  // ---- Confirms belong to their frames ----------------------------------------------------------

  /** With exactly this call's publish outstanding, the loop can only consume its confirm, and except for
      the stop exit it leaves nothing outstanding on a connection that stays in use. */
  lemma {:induction false} AwaitOwn(s: State, h: Handle, id: nat, o: Oracle, k: nat)
    requires s.conn == Some(h) && Queue(s, h) == [id] && k <= MAX_POLLS
    ensures Matches(id, o, Await(s, h, o.polls, k))
    decreases MAX_POLLS - k
  {
    if k < MAX_POLLS {
      AwaitOwn(s, h, id, o, k + 1);
    }
  }

  /** Some poll of the call saw the stop flag. */
  predicate SawStop(o: Oracle) {
    exists k :: 0 <= k < |o.polls| && o.polls[k] == Timeout(true)
  }

  /** What one call may do to the confirms. */
  predicate Matches(id: nat, o: Oracle, p: (State, Outcome)) {
    && (p.1.Confirmed? || p.1.Nacked? ==> p.1.id == id)
    && (p.1 == StopExit ==> SawStop(o))
    && (p.1 != StopExit ==> Clear(p.0))
  }

  lemma PublishMatches(s: State, protocol: Byte, o: Oracle)
    requires Balanced(s) && Clear(s)
    ensures Matches(s.calls, o, Publish(s, protocol, o))
  {
    CountedBalanced(s);
    if Publishable(protocol) {
      var s1 := ConnectedState(Counted(s), o.attempts);
      ReadyMatches(s1, s.calls, o);
    }
  }

  lemma ReadyMatches(s: State, id: nat, o: Oracle)
    requires Balanced(s) && Clear(s)
    ensures Matches(id, o, PublishReady(s, id, o))
  {
    if s.connected {
      var h := s.conn.value;
      assert Queue(Deliver(s, h, id), h) == [id];
      AwaitOwn(Deliver(s, h, id), h, id, o, 0);
    }
  }

  ghost predicate ConfirmsOwn(s: State) {
    forall protocol: Byte, o: Oracle :: var r := Publish(s, protocol, o).1; r.Confirmed? ==> r.id == s.calls
  }

  /** The next call is certain to be told about its own frame exactly when nothing is outstanding on the
      connection it would use. */
  lemma ConfirmsOwnExactly(s: State)
    requires Balanced(s)
    ensures ConfirmsOwn(s) <==> Clear(s)
  {
    if Clear(s) {
      forall protocol: Byte, o: Oracle
        ensures var r := Publish(s, protocol, o).1; r.Confirmed? ==> r.id == s.calls
      {
        PublishMatches(s, protocol, o);
      }
    } else {
      var h := s.conn.value;
      var polls: Polls := seq(MAX_POLLS, _ => Confirm(0, true));
      var o := Oracle([NoSocket, NoSocket, NoSocket], SendOk, polls);
      var q := Queue(Deliver(s, h, s.calls), h);
      assert q[0] == s.made[h].pending[0] < s.calls;
      assert Publish(s, 6, o).1 == Confirmed(q[0]);
    }
  }

  // ---- What the environment's answers decide ----------------------------------------------------

  /** The attempt that ends the connect loop: without a socket a retry is pointless, all other failures are
      tried again. */
  predicate EndsAt(attempts: Attempts, k: nat) {
    && k < 3 && (attempts[k] == NoSocket || attempts[k] == Connected)
    && forall j :: 0 <= j < k ==> attempts[j] != NoSocket && attempts[j] != Connected
  }

  ghost predicate CanConnect(attempts: Attempts) {
    exists k: nat :: EndsAt(attempts, k) && attempts[k] == Connected
  }

  lemma {:induction false} AttemptingExactly(s: State, attempts: Attempts, k: nat)
    requires k <= 3 && forall j :: 0 <= j < k ==> attempts[j] != NoSocket && attempts[j] != Connected
    ensures var (t, ok) := Attempting(s, attempts, k);
            && (ok <==> CanConnect(attempts))
            && (forall i: nat :: EndsAt(attempts, i) ==> |t.made| == |s.made| + i + 1 - k)
            && ((forall i: nat :: !EndsAt(attempts, i)) ==> |t.made| == |s.made| + 3 - k)
    decreases 3 - k
  {
    if k < 3 {
      if attempts[k] == NoSocket || attempts[k] == Connected {
        assert EndsAt(attempts, k);
      } else {
        AttemptingExactly(Disconnect(NewConnection(s)), attempts, k + 1);
      }
    }
  }

  /** `connect` succeeds exactly when some attempt does before any fails for want of a socket; it makes one
      handle per attempt up to the one that ends the loop, and three if none does. */
  lemma ConnectExactly(s: State, attempts: Attempts)
    ensures var (t, ok) := Connect(s, attempts);
            && (ok <==> CanConnect(attempts))
            && (forall k: nat :: EndsAt(attempts, k) ==> |t.made| == |s.made| + k + 1)
            && ((forall k: nat :: !EndsAt(attempts, k)) ==> |t.made| == |s.made| + 3)
    ensures EnsureConnected(s, attempts).connected <==> s.connected || CanConnect(attempts)
  {
    AttemptingExactly(Disconnect(s), attempts, 0);
  }

  /** Polls after which the confirm loop goes on. */
  predicate Undecided(p: Poll) {
    p == Timeout(false) || p == OtherFrame
  }

  predicate DecidedAt(polls: Polls, k: nat) {
    k < 100 && !Undecided(polls[k]) && forall j :: 0 <= j < k ==> Undecided(polls[j])
  }

  /** The broker's first answer was an acknowledgement. */
  ghost predicate Acked(polls: Polls) {
    exists k: nat :: DecidedAt(polls, k) && polls[k].Confirm? && polls[k].ack
  }

  /** What each deciding poll must lead to. */
  predicate AnsweredBy(p: Poll, r: Outcome) {
    match p
    case Timeout(stopSeen) => r == StopExit
    case WaitError => r == WaitFailed
    case Confirm(_, ack) => if ack then r.Confirmed? else r.Nacked?
    case OtherFrame => false
  }

  ghost predicate Answered(polls: Polls, r: Outcome) {
    && (forall k: nat :: DecidedAt(polls, k) ==> AnsweredBy(polls[k], r))
    && ((forall k: nat :: !DecidedAt(polls, k)) ==> r == TimedOut)
  }

  lemma {:induction false} AwaitExactly(s: State, h: Handle, polls: Polls, k: nat)
    requires Queue(s, h) != [] && k <= 100 && forall j :: 0 <= j < k ==> Undecided(polls[j])
    ensures Answered(polls, Await(s, h, polls, k).1)
    decreases 100 - k
  {
    if k < 100 {
      if Undecided(polls[k]) {
        AwaitExactly(s, h, polls, k + 1);
      } else {
        assert DecidedAt(polls, k);
      }
    }
  }

  lemma AckedExactly(polls: Polls, r: Outcome)
    requires Answered(polls, r)
    ensures r.Confirmed? <==> Acked(polls)
    ensures r != Skipped && r != NoConnection && r != SendError
  {
    if k: nat :| DecidedAt(polls, k) {
      assert AnsweredBy(polls[k], r);
    }
  }

  /** A publish call gets as far as waiting for the confirm. */
  ghost predicate Waits(s: State, o: Oracle) {
    (s.connected || CanConnect(o.attempts)) && o.send == SendOk
  }

  ghost predicate Decided(s: State, o: Oracle, r: Outcome) {
    && (r == NoConnection <==> !s.connected && !CanConnect(o.attempts))
    && (r == SendError <==> (s.connected || CanConnect(o.attempts)) && o.send != SendOk)
    && (Waits(s, o) ==> Answered(o.polls, r))
    && (r.Confirmed? <==> Waits(s, o) && Acked(o.polls))
  }

  lemma SentExactly(s: State, id: nat, o: Oracle)
    requires Balanced(s)
    ensures Decided(s, o, PublishSent(s, id, o).1)
  {
    ConnectExactly(s, o.attempts);
    var s1 := ConnectedState(s, o.attempts);
    if s1.connected {
      ReadyExactly(s1, id, o);
    }
  }

  lemma ReadyExactly(s: State, id: nat, o: Oracle)
    requires Balanced(s) && s.connected
    ensures Decided(s, o, PublishReady(s, id, o).1)
  {
    if o.send == SendOk {
      var t := Deliver(s, s.conn.value, id);
      AwaitExactly(t, s.conn.value, o.polls, 0);
      AckedExactly(o.polls, Await(t, s.conn.value, o.polls, 0).1);
    }
  }

  /** The outcome of a call in terms of its arguments and the environment's answers; in particular a call
      returns true exactly for the other protocols and for acknowledged publishes. */
  lemma OutcomeExactly(s: State, protocol: Byte, o: Oracle)
    requires Balanced(s)
    ensures var r := Publish(s, protocol, o).1;
            var published := protocol in {0, 1, 6, 17};
            && (r == Skipped <==> !published)
            && (published ==> Decided(s, o, r))
            && (r.Ok() <==> !published || (Waits(s, o) && Acked(o.polls)))
  {
    PublishBalanced(s, protocol, o);
    CountedBalanced(s);
    SentExactly(Counted(s), s.calls, o);
  }

  // ---- Outstanding publishes, as the outcomes show them -----------------------------------------

  /** Outcomes after which the connection is not used again. */
  predicate Drops(r: Outcome) {
    r == NoConnection || r == SendError || r == WaitFailed || r == TimedOut
  }

  /** Some stop exit was not followed by an outcome that drops the connection. */
  predicate Tainted(rs: seq<Outcome>) {
    exists i :: 0 <= i < |rs| && rs[i] == StopExit && !DropsAfter(rs, i)
  }

  predicate DropsAfter(rs: seq<Outcome>, i: nat) {
    exists j :: i < j < |rs| && Drops(rs[j])
  }

  lemma TaintedAppend(rs: seq<Outcome>, r: Outcome)
    ensures Tainted(rs + [r]) <==> r == StopExit || (!Drops(r) && Tainted(rs))
  {
    var now, n := rs + [r], |rs|;
    forall i | 0 <= i < n ensures DropsAfter(now, i) <==> Drops(r) || DropsAfter(rs, i) {
      if Drops(r) {
        assert Drops(now[n]);
      } else if DropsAfter(rs, i) {
        var j :| i < j < n && Drops(rs[j]);
        assert Drops(now[j]);
      }
    }
    if r == StopExit {
      assert now[n] == StopExit && !DropsAfter(now, n);
    } else if !Drops(r) && Tainted(rs) {
      var i :| 0 <= i < n && rs[i] == StopExit && !DropsAfter(rs, i);
      assert now[i] == StopExit && !DropsAfter(now, i);
    }
  }

  /** A stop exit leaves something outstanding, a dropped connection nothing, and every other outcome leaves
      things as they were. */
  ghost predicate Shows(clear: bool, p: (State, Outcome)) {
    Clear(p.0) <==> Drops(p.1) || (clear && p.1 != StopExit)
  }

  lemma {:induction false} AwaitShows(s: State, h: Handle, polls: Polls, k: nat)
    requires s.connected && s.conn == Some(h) && Queue(s, h) != [] && k <= MAX_POLLS
    ensures Shows(|Queue(s, h)| == 1, Await(s, h, polls, k))
    decreases MAX_POLLS - k
  {
    if k < MAX_POLLS {
      AwaitShows(s, h, polls, k + 1);
      if polls[k].Confirm? {
        ConfirmShows(s, h, if polls[k].pick < |Queue(s, h)| then polls[k].pick else 0);
      }
    }
  }

  lemma ConfirmShows(s: State, h: Handle, i: nat)
    requires s.connected && s.conn == Some(h) && i < |Queue(s, h)|
    ensures var q := Queue(s, h); Clear(SetQueue(s, h, q[..i] + q[i + 1..])) <==> |q| == 1
  {
  }

  lemma ReadyShows(s: State, id: nat, o: Oracle)
    requires Balanced(s)
    ensures Shows(Clear(s), PublishReady(s, id, o))
  {
    if s.connected {
      var h := s.conn.value;
      assert Queue(Deliver(s, h, id), h) == Queue(s, h) + [id];
      AwaitShows(Deliver(s, h, id), h, o.polls, 0);
    }
  }

  lemma PublishShows(s: State, protocol: Byte, o: Oracle)
    requires Balanced(s)
    ensures Shows(Clear(s), Publish(s, protocol, o))
  {
    CountedBalanced(s);
    if Publishable(protocol) {
      SentShows(Counted(s), s.calls, o);
    }
  }

  lemma SentShows(s: State, id: nat, o: Oracle)
    requires Balanced(s)
    ensures Shows(Clear(s), PublishSent(s, id, o))
  {
    var s1 := ConnectedState(s, o.attempts);
    ReadyShows(s1, id, o);
  }

  // ---- Whole runs -------------------------------------------------------------------------------

  datatype Call = Call(protocol: Byte, o: Oracle)

  function Run(s: State, calls: seq<Call>): (State, seq<Outcome>) {
    if calls == [] then (s, []) else
    var (t, rs) := Run(s, calls[..|calls| - 1]);
    var last := calls[|calls| - 1];
    var (u, r) := Publish(t, last.protocol, last.o);
    (u, rs + [r])
  }

  /** Over every run: the handles balance, and something is outstanding exactly when the outcomes show it. */
  lemma {:induction false} RunInvariant(attempts: Attempts, calls: seq<Call>)
    ensures var (t, rs) := Run(Construct(attempts), calls);
            && |rs| == |calls| == t.calls && Balanced(t)
            && |t.made| <= 3 * (|calls| + 1)
            && (Clear(t) <==> !Tainted(rs))
  {
    if calls == [] {
      var _ := ConnectedState(BLANK_STATE, attempts);
    } else {
      var n := |calls| - 1;
      RunInvariant(attempts, calls[..n]);
      var (t, rs) := Run(Construct(attempts), calls[..n]);
      PublishBalanced(t, calls[n].protocol, calls[n].o);
      PublishShows(t, calls[n].protocol, calls[n].o);
      TaintedAppend(rs, Publish(t, calls[n].protocol, calls[n].o).1);
    }
  }

  /** After every run the next call is certain to be told about its own frame if and only if every stop exit so
      far was followed by an outcome that drops the connection. */
  lemma ConfirmsOwnVisibly(attempts: Attempts, calls: seq<Call>)
    ensures var (t, rs) := Run(Construct(attempts), calls);
            ConfirmsOwn(t) <==> !Tainted(rs)
  {
    RunInvariant(attempts, calls);
    ConfirmsOwnExactly(Run(Construct(attempts), calls).0);
  }

  /** Over every run: a true result for a frame that was sent means that the broker answered with an
      acknowledgement and, unless a stop exit was left standing, that it was the one for that very frame,
      although delivery tags are never compared. */
  lemma ConfirmsMatch(attempts: Attempts, calls: seq<Call>)
    requires calls != []
    ensures var rs := Run(Construct(attempts), calls).1;
            var k := |calls| - 1;
            && |rs| == |calls|
            && (!Tainted(rs[..k]) && rs[k].Ok() && Publishable(calls[k].protocol) ==> rs[k] == Confirmed(k))
            && (rs[k].Ok() && Publishable(calls[k].protocol) ==> calls[k].o.send == SendOk && Acked(calls[k].o.polls))
  {
    var k := |calls| - 1;
    RunInvariant(attempts, calls[..k]);
    RunInvariant(attempts, calls);
    var (t, before) := Run(Construct(attempts), calls[..k]);
    assert Run(Construct(attempts), calls).1[..k] == before;
    PublishBalanced(t, calls[k].protocol, calls[k].o);
    OutcomeExactly(t, calls[k].protocol, calls[k].o);
    if !Tainted(before) {
      PublishMatches(t, calls[k].protocol, calls[k].o);
    }
  }

  /** The stop exit is a real exception: after it, a later call can be told about an earlier frame. */
  lemma StopExitBreaksMatching()
    ensures exists attempts: Attempts, calls: seq<Call> ::
              |calls| == 2 && Run(Construct(attempts), calls).1 == [StopExit, Confirmed(0)]
  {
    var attempts: Attempts := [Connected, NoSocket, NoSocket];
    FirstConnection();
    var stop, stale := StopThenStale(Construct(attempts), 0);
    RunTwo(Construct(attempts), Call(6, stop), Call(6, stale));
  }

  lemma FirstConnection()
    ensures var s := Construct([Connected, NoSocket, NoSocket]);
            s.connected && s.conn == Some(0) && |s.made| == 1 && s.calls == 0 && Queue(s, 0) == []
  {
  }

  lemma StopThenStale(s: State, h: Handle) returns (stop: Oracle, stale: Oracle)
    requires s.connected && s.conn == Some(h) && h < |s.made| && Queue(s, h) == []
    ensures var (t, r) := Publish(s, 6, stop);
            r == StopExit && Publish(t, 6, stale).1 == Confirmed(s.calls)
  {
    var none: Attempts := [NoSocket, NoSocket, NoSocket];
    stop := Oracle(none, SendOk, seq(MAX_POLLS, _ => Timeout(true)));
    stale := Oracle(none, SendOk, seq(MAX_POLLS, _ => Confirm(0, true)));
    var t := Publish(s, 6, stop).0;
    assert t.connected && t.conn == Some(h) && Queue(t, h) == [s.calls];
  }

  lemma RunTwo(s: State, a: Call, b: Call)
    ensures var (t, r) := Publish(s, a.protocol, a.o);
            Run(s, [a, b]).1 == [r, Publish(t, b.protocol, b.o).1]
  {
    assert [a, b][..1] == [a] && [a][..0] == [];
    assert Run(s, [a]) == (Publish(s, a.protocol, a.o).0, [] + [Publish(s, a.protocol, a.o).1]);
  }

  /** After any run of n calls the destructor leaves every connection object, at most 3n + 3 of them,
      destroyed exactly once. */
  lemma DestructorReleasesAll(attempts: Attempts, calls: seq<Call>)
    ensures var t := Disconnect(Run(Construct(attempts), calls).0);
            && |t.made| <= 3 * (|calls| + 1)
            && forall h :: 0 <= h < |t.made| ==> t.made[h].destroyed == 1
  {
    RunInvariant(attempts, calls);
  }
}
