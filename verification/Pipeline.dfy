/** The whole engine as one transition system: the capture thread (thread 0, a writer) and the pipeline
    thread (thread 1, a reader) on the shared ring, with the static frame buffer, the flow table and the
    publisher of the pipeline thread. */
module Pipeline {
  import opened Bytes
  import opened Dissector
  import opened Stats
  import opened FlowTracker
  import opened Json
  import PB = PacketBuffer
  import RP = RingProtocol
  import Pub = Publisher

  type Stamped = PB.Stamped

  /** Running: at the top of the drain loop. Sending: inside `PacketBuffer::write`. Ended: loop left, with
      the last frame refused or not. */
  datatype Producer = Running | Sending | Ended(refused: bool)

  /** Top: at the loop condition. Reading: inside `PacketBuffer::read`. Processing: with a slot in hand. */
  datatype Consumer = Top | Reading | Processing | Finished

  datatype Handed = Handed(frame: EnrichedFrame, flow: FlowRecord, isRetransmit: bool)

  /** The pipeline thread's own data. */
  datatype Work = Work(
    seen: seq<Stamped>,           // frames it has finished with
    buf: FrameBuf,
    dissected: seq<Dissected>,    // what survived filter and dissector
    table: Table,
    handed: seq<Handed>)          // arguments of the publish calls

  datatype State = State(
    q: RP.State, producer: Producer, consumer: Consumer,
    received: seq<Stamped>,       // frames taken from the socket, stamped
    work: Work,
    pub: Pub.State,
    outcomes: seq<Pub.Outcome>,   // results of the publish calls
    answers: seq<Pub.Oracle>)     // what library and broker answered in them

  datatype Event =
    | Receive(frame: seq<Byte>, ts: U64)
    | ProducerQuits
    | BeginRead
    | ConsumerQuits
    | Queue(e: RP.Event)
    | Handle(o: Pub.Oracle)

  ghost predicate Init(s: State) {
    && RP.Init(s.q) && |s.q.threads| == 2
    && s.producer == Running && s.consumer == Top
    && s.received == [] && s.work == Work([], Zeros(), [], map[], []) && s.outcomes == [] && s.answers == []
    && exists attempts: Pub.Attempts :: s.pub == Pub.Construct(attempts)
  }

  /** Static storage starts out zeroed. */
  function Zeros(): FrameBuf {
    seq(BUF_SIZE, _ => 0)
  }

  /** Which thread may enter the ring, and with what. */
  predicate Allowed(s: State, e: RP.Event) {
    e.Enter? ==>
      if e.i == 0 then
        s.producer == Sending && e.role == RP.Writer
        && s.received != [] && e.data == PB.Encode(s.received[|s.received| - 1])
      else s.consumer == Reading && e.role == RP.Reader
  }

  ghost predicate Enabled(s: State, e: Event) {
    match e
    case Receive(frame, ts) => s.producer == Running && 0 < |frame| <= BUF_SIZE
    case ProducerQuits => s.producer == Running
    case BeginRead => s.consumer == Top && !s.q.stop
    case ConsumerQuits => s.consumer == Top && s.q.stop
    case Queue(re) => RP.Enabled(s.q, re) && Allowed(s, re)
    case Handle(o) => s.consumer == Processing && s.q.completed != [] && (Pub.SawStop(o) ==> s.q.stop)
  }

  /** The frame buffer after the next frame has been copied over its start. */
  function Load(buf: FrameBuf, frame: seq<Byte>): FrameBuf
    requires |frame| <= BUF_SIZE
  {
    frame + buf[|frame|..]
  }

  /** Where a thread of the ring leaves its caller: after a refused write the capture loop ends, after a
      refused read the pipeline loop ends. */
  ghost function NextProducer(q: RP.State, producer: Producer, e: RP.Event): Producer
    requires RP.Enabled(q, e)
  {
    if !e.Finish? || e.i != 0 then producer
    else if RP.GivesUp(q, q.threads[0].role) then Ended(true) else Running
  }

  ghost function NextConsumer(q: RP.State, consumer: Consumer, e: RP.Event): Consumer
    requires RP.Enabled(q, e)
  {
    if !e.Finish? || e.i == 0 then consumer
    else if RP.GivesUp(q, q.threads[e.i].role) then Finished else Processing
  }

  function Examine(buf: FrameBuf, p: Stamped, localIps: set<U32>): Option<Dissected>
    requires |p.frame| <= BUF_SIZE
  {
    Process(Load(buf, p.frame), |p.frame|, p.ts, localIps)
  }

  function Track(w: Work, d: Dissected): Work {
    var f := StatsStage(d);
    var table := Step(w.table, f);
    w.(dissected := w.dissected + [d], table := table,
       handed := w.handed + [Handed(f, Lookup(table, f.flowKey), IsRetransmit(w.table, f))])
  }

  /** The frame loaded into the buffer and, if the dissector made something of it, tracked. */
  function Consume(w: Work, p: Stamped, d: Option<Dissected>): Work
    requires |p.frame| <= BUF_SIZE
  {
    var loaded := w.(buf := Load(w.buf, p.frame), seen := w.seen + [p]);
    if d.None? then loaded else Track(loaded, d.value)
  }

  function PassFrame(s: State, p: Stamped, o: Pub.Oracle, localIps: set<U32>): State
    requires |p.frame| <= BUF_SIZE
  {
    var d := Examine(s.work.buf, p, localIps);
    var done := s.(consumer := Top, work := Consume(s.work, p, d));
    if d.None? then done else
    var (pub, outcome) := Pub.Publish(s.pub, StatsStage(d.value).protocol, o);
    done.(pub := pub, outcomes := s.outcomes + [outcome], answers := s.answers + [o])
  }

  /** One pass of the pipeline loop over the slot just read; a slot too short or too long is dropped. */
  function Pass(s: State, slot: seq<Byte>, o: Pub.Oracle, localIps: set<U32>): State {
    if |slot| < PB.TIMESTAMP_SIZE || |slot| - PB.TIMESTAMP_SIZE > BUF_SIZE then s.(consumer := Top)
    else PassFrame(s, PB.Decode(slot), o, localIps)
  }

  ghost function Apply(s: State, e: Event, localIps: set<U32>): State
    requires Enabled(s, e)
  {
    match e
    case Receive(frame, ts) => s.(producer := Sending, received := s.received + [PB.Stamped(ts, frame)])
    case ProducerQuits => s.(producer := Ended(false))
    case BeginRead => s.(consumer := Reading)
    case ConsumerQuits => s.(consumer := Finished)
    case Queue(re) =>
      s.(q := RP.Apply(s.q, re), producer := NextProducer(s.q, s.producer, re),
         consumer := NextConsumer(s.q, s.consumer, re))
    case Handle(o) => Pass(s, s.q.completed[|s.q.completed| - 1], o, localIps)
  }

  ghost predicate Next(s: State, s': State, localIps: set<U32>) {
    exists e :: Enabled(s, e) && s' == Apply(s, e, localIps)
  }

  ghost predicate Run(trace: seq<State>, localIps: set<U32>) {
    && |trace| > 0 && Init(trace[0])
    && forall k :: 0 <= k < |trace| - 1 ==> Next(trace[k], trace[k + 1], localIps)
  }

  // ---- The two threads on the ring --------------------------------------------------------------

  /** Accepted slots are the stamped images of the received frames, in order; at most the last received
      frame is missing, while it is being written or after it was refused at stop. */
  ghost predicate CaptureInv(q: RP.State, producer: Producer, received: seq<Stamped>) {
    && |q.threads| == 2 && |q.args| == 2
    && (forall k :: 0 <= k < |received| ==> 0 < |received[k].frame| <= BUF_SIZE)
    && |q.accepted| + (if producer == Sending || producer == Ended(true) then 1 else 0) == |received|
    && (forall k :: 0 <= k < |q.accepted| ==> q.accepted[k] == PB.Encode(received[k]))
    && (producer == Ended(true) ==> q.stop)
    && (q.threads[0].In? ==>
         producer == Sending && q.threads[0].role == RP.Writer && q.args[0] == PB.Encode(received[|received| - 1]))
  }

  /** The pipeline thread only reads, one slot at a time. */
  ghost predicate ReaderInv(q: RP.State, consumer: Consumer, handled: nat) {
    && |q.threads| == 2 && |q.args| == 2
    && (q.threads[1].In? ==> consumer == Reading && q.threads[1].role == RP.Reader)
    && |q.completed| == handled + (if consumer == Processing then 1 else 0)
  }

  lemma CaptureQueueStep(q: RP.State, producer: Producer, received: seq<Stamped>, e: RP.Event)
    requires CaptureInv(q, producer, received) && RP.Enabled(q, e)
    requires q.threads[1].In? ==> q.threads[1].role == RP.Reader
    requires e.Enter? && e.i == 0 ==>
               producer == Sending && e.role == RP.Writer && e.data == PB.Encode(received[|received| - 1])
    ensures CaptureInv(RP.Apply(q, e), NextProducer(q, producer, e), received)
  {
  }

  lemma ReaderQueueStep(q: RP.State, consumer: Consumer, handled: nat, e: RP.Event)
    requires ReaderInv(q, consumer, handled) && RP.Enabled(q, e)
    requires q.threads[0].In? ==> q.threads[0].role == RP.Writer
    requires e.Enter? && e.i == 1 ==> consumer == Reading && e.role == RP.Reader
    ensures ReaderInv(RP.Apply(q, e), NextConsumer(q, consumer, e), handled)
  {
  }

  /** A slot in hand is the image of the next received frame: reads come back in the order of receipt. */
  lemma NextInOrder(q: RP.State, producer: Producer, received: seq<Stamped>, handled: nat)
    requires RP.Inv(q) && CaptureInv(q, producer, received) && |q.completed| == handled + 1
    ensures handled < |received| && q.completed[handled] == PB.Encode(received[handled])
  {
  }

  // ---- What the pipeline thread has computed ----------------------------------------------------

  ghost predicate Sized(ps: seq<Stamped>) {
    forall k :: 0 <= k < |ps| ==> |ps[k].frame| <= BUF_SIZE
  }

  /** Frames pushed one after the other through the one frame buffer. */
  function Replay(ps: seq<Stamped>, localIps: set<U32>): (FrameBuf, seq<Dissected>)
    requires Sized(ps)
  {
    if ps == [] then (Zeros(), []) else
    var p := ps[|ps| - 1];
    var (before, ds) := Replay(ps[..|ps| - 1], localIps);
    var d := Examine(before, p, localIps);
    (Load(before, p.frame), if d.None? then ds else ds + [d.value])
  }

  /** Each frame with its record and retransmit flag at the time it was tracked. */
  function Tracked(h: seq<EnrichedFrame>): seq<Handed> {
    if h == [] then [] else
    var before, f := h[..|h| - 1], h[|h| - 1];
    Tracked(before) + [Handed(f, Lookup(After(h), f.flowKey), IsRetransmit(After(before), f))]
  }

  ghost predicate ReplayInv(w: Work, localIps: set<U32>) {
    Sized(w.seen) && w.buf == Replay(w.seen, localIps).0 && w.dissected == Replay(w.seen, localIps).1
  }

  ghost predicate TrackInv(w: Work) {
    w.table == After(Enriched(w.dissected)) && w.handed == Tracked(Enriched(w.dissected))
  }

  ghost predicate ResultInv(received: seq<Stamped>, w: Work, localIps: set<U32>) {
    w.seen <= received && ReplayInv(w, localIps) && TrackInv(w)
  }

  lemma EnrichedAppend(ds: seq<Dissected>, d: Dissected)
    ensures Enriched(ds + [d]) == Enriched(ds) + [StatsStage(d)]
  {
  }

  lemma {:induction false} TrackedAppend(h: seq<EnrichedFrame>, f: EnrichedFrame)
    ensures After(h + [f]) == Step(After(h), f)
    ensures Tracked(h + [f])
            == Tracked(h) + [Handed(f, Lookup(Step(After(h), f), f.flowKey), IsRetransmit(After(h), f))]
  {
    assert (h + [f])[..|h|] == h;
  }

  lemma TrackResults(w: Work, d: Dissected)
    requires TrackInv(w)
    ensures TrackInv(Track(w, d))
  {
    EnrichedAppend(w.dissected, d);
    TrackedAppend(Enriched(w.dissected), StatsStage(d));
  }

  lemma {:induction false} ReplayAppend(ps: seq<Stamped>, p: Stamped, localIps: set<U32>)
    requires Sized(ps) && |p.frame| <= BUF_SIZE
    ensures Sized(ps + [p])
    ensures var (buf, ds) := Replay(ps, localIps);
            var d := Examine(buf, p, localIps);
            && Replay(ps + [p], localIps).0 == Load(buf, p.frame)
            && Replay(ps + [p], localIps).1 == if d.None? then ds else ds + [d.value]
  {
    assert (ps + [p])[..|ps|] == ps;
  }

  lemma ConsumeTracks(w: Work, p: Stamped, d: Option<Dissected>)
    requires |p.frame| <= BUF_SIZE && TrackInv(w)
    ensures TrackInv(Consume(w, p, d))
  {
    if d.Some? {
      TrackResults(w.(buf := Load(w.buf, p.frame), seen := w.seen + [p]), d.value);
    }
  }

  lemma ConsumeReplays(w: Work, p: Stamped, localIps: set<U32>)
    requires ReplayInv(w, localIps) && |p.frame| <= BUF_SIZE
    ensures ReplayInv(Consume(w, p, Examine(w.buf, p, localIps)), localIps)
  {
    ReplayAppend(w.seen, p, localIps);
  }

  lemma ConsumeResults(received: seq<Stamped>, w: Work, p: Stamped, localIps: set<U32>)
    requires ResultInv(received, w, localIps)
    requires |w.seen| < |received| && received[|w.seen|] == p && |p.frame| <= BUF_SIZE
    ensures ResultInv(received, Consume(w, p, Examine(w.buf, p, localIps)), localIps)
  {
    ConsumeTracks(w, p, Examine(w.buf, p, localIps));
    ConsumeReplays(w, p, localIps);
    PrefixExtends(w.seen, received, p);
  }

  lemma PrefixExtends<T>(a: seq<T>, b: seq<T>, x: T)
    requires a <= b && |a| < |b| && b[|a|] == x
    ensures a + [x] <= b
  {
  }

  // ---- Confirms ---------------------------------------------------------------------------------

  /** Every confirm so far was for its own frame; a publish left unconfirmed by the stop exit is never
      followed by another publish. */
  ghost predicate ConfirmInv(pub: Pub.State, outcomes: seq<Pub.Outcome>, stop: bool, consumer: Consumer) {
    && Pub.Balanced(pub) && |outcomes| == pub.calls
    && (forall k :: 0 <= k < |outcomes| && outcomes[k].Confirmed? ==> outcomes[k].id == k)
    && (Pub.Clear(pub) || (stop && (consumer == Top || consumer == Finished)))
  }

  /** A true result means a frame of another protocol, or an acknowledgement. */
  ghost predicate Honest(r: Pub.Outcome, o: Pub.Oracle, protocol: Byte) {
    && (r == Pub.Skipped <==> !Publishable(protocol))
    && (r.Ok() && Publishable(protocol) ==> o.send == Pub.SendOk && Pub.Acked(o.polls))
  }

  /** One honest outcome per dissected frame. */
  ghost predicate HonestInv(outcomes: seq<Pub.Outcome>, answers: seq<Pub.Oracle>, ds: seq<Dissected>) {
    && |outcomes| == |answers| == |ds|
    && forall k :: 0 <= k < |ds| ==> Honest(outcomes[k], answers[k], StatsStage(ds[k]).protocol)
  }

  lemma HonestStep(pub: Pub.State, outcomes: seq<Pub.Outcome>, answers: seq<Pub.Oracle>, ds: seq<Dissected>,
                   d: Dissected, o: Pub.Oracle)
    requires Pub.Balanced(pub) && HonestInv(outcomes, answers, ds)
    ensures HonestInv(outcomes + [Pub.Publish(pub, StatsStage(d).protocol, o).1], answers + [o], ds + [d])
  {
    Pub.OutcomeExactly(pub, StatsStage(d).protocol, o);
    assert Honest(Pub.Publish(pub, StatsStage(d).protocol, o).1, o, StatsStage(d).protocol);
  }

  lemma ConfirmStep(pub: Pub.State, outcomes: seq<Pub.Outcome>, stop: bool, protocol: Byte, o: Pub.Oracle)
    requires ConfirmInv(pub, outcomes, stop, Processing) && (Pub.SawStop(o) ==> stop)
    ensures var (pub', r) := Pub.Publish(pub, protocol, o);
            ConfirmInv(pub', outcomes + [r], stop, Top)
  {
    Pub.PublishBalanced(pub, protocol, o);
    Pub.PublishMatches(pub, protocol, o);
  }

  lemma ConfirmQueueStep(q: RP.State, pub: Pub.State, outcomes: seq<Pub.Outcome>, consumer: Consumer,
                         handled: nat, e: RP.Event)
    requires ConfirmInv(pub, outcomes, q.stop, consumer) && ReaderInv(q, consumer, handled) && RP.Enabled(q, e)
    ensures ConfirmInv(pub, outcomes, RP.Apply(q, e).stop, NextConsumer(q, consumer, e))
  {
  }

  // ---- Every reachable state --------------------------------------------------------------------

  ghost predicate Inv(s: State, localIps: set<U32>) {
    && RP.Inv(s.q)
    && CaptureInv(s.q, s.producer, s.received)
    && ReaderInv(s.q, s.consumer, |s.work.seen|)
    && ResultInv(s.received, s.work, localIps)
    && ConfirmInv(s.pub, s.outcomes, s.q.stop, s.consumer)
    && HonestInv(s.outcomes, s.answers, s.work.dissected)
  }

  lemma QueueStep(s: State, re: RP.Event, localIps: set<U32>)
    requires Inv(s, localIps) && Enabled(s, Queue(re))
    ensures Inv(Apply(s, Queue(re), localIps), localIps)
  {
    RP.InvStep(s.q, RP.Apply(s.q, re));
    CaptureQueueStep(s.q, s.producer, s.received, re);
    ReaderQueueStep(s.q, s.consumer, |s.work.seen|, re);
    ConfirmQueueStep(s.q, s.pub, s.outcomes, s.consumer, |s.work.seen|, re);
  }

  lemma PassStep(s: State, p: Stamped, o: Pub.Oracle, localIps: set<U32>)
    requires Inv(s, localIps) && s.consumer == Processing && (Pub.SawStop(o) ==> s.q.stop)
    requires |s.work.seen| < |s.received| && p == s.received[|s.work.seen|] && |p.frame| <= BUF_SIZE
    ensures Inv(PassFrame(s, p, o, localIps), localIps)
  {
    ConsumeResults(s.received, s.work, p, localIps);
    var d := Examine(s.work.buf, p, localIps);
    if d.Some? {
      ConfirmStep(s.pub, s.outcomes, s.q.stop, StatsStage(d.value).protocol, o);
      HonestStep(s.pub, s.outcomes, s.answers, s.work.dissected, d.value, o);
    }
  }

  /** A slot written by the capture thread is never dropped. */
  lemma PassEncoded(s: State, p: Stamped, o: Pub.Oracle, localIps: set<U32>)
    requires |p.frame| <= BUF_SIZE
    ensures Pass(s, PB.Encode(p), o, localIps) == PassFrame(s, p, o, localIps)
  {
    PB.DecodeEncode(p);
  }

  lemma HandleStep(s: State, o: Pub.Oracle, localIps: set<U32>)
    requires Inv(s, localIps) && Enabled(s, Handle(o))
    ensures Inv(Apply(s, Handle(o), localIps), localIps)
  {
    var n := |s.work.seen|;
    NextInOrder(s.q, s.producer, s.received, n);
    PassEncoded(s, s.received[n], o, localIps);
    PassStep(s, s.received[n], o, localIps);
  }

  lemma LocalStep(s: State, e: Event, localIps: set<U32>)
    requires Inv(s, localIps) && Enabled(s, e) && !e.Queue? && !e.Handle?
    ensures Inv(Apply(s, e, localIps), localIps)
  {
    if e.Receive? {
      ReceiveStep(s.q, s.received, PB.Stamped(e.ts, e.frame), s.work, localIps);
    }
  }

  lemma ReceiveStep(q: RP.State, received: seq<Stamped>, p: Stamped, w: Work, localIps: set<U32>)
    requires CaptureInv(q, Running, received) && 0 < |p.frame| <= BUF_SIZE && ResultInv(received, w, localIps)
    ensures CaptureInv(q, Sending, received + [p]) && ResultInv(received + [p], w, localIps)
  {
    assert w.seen <= received + [p];
  }

  lemma InvStep(s: State, s': State, localIps: set<U32>)
    requires Inv(s, localIps) && Next(s, s', localIps)
    ensures Inv(s', localIps)
  {
    var e :| Enabled(s, e) && s' == Apply(s, e, localIps);
    match e
    case Queue(re) => QueueStep(s, re, localIps);
    case Handle(o) => HandleStep(s, o, localIps);
    case _ => LocalStep(s, e, localIps);
  }

  lemma InvInit(s: State, localIps: set<U32>)
    requires Init(s)
    ensures Inv(s, localIps)
  {
    RP.InvInit(s.q);
    var attempts: Pub.Attempts :| s.pub == Pub.Construct(attempts);
    Pub.RunInvariant(attempts, []);
  }

  lemma {:induction false} Always(trace: seq<State>, k: nat, localIps: set<U32>)
    requires Run(trace, localIps) && k < |trace|
    ensures Inv(trace[k], localIps)
  {
    if k == 0 {
      InvInit(trace[0], localIps);
    } else {
      Always(trace, k - 1, localIps);
      assert Next(trace[k - 1], trace[k - 1 + 1], localIps);
      InvStep(trace[k - 1], trace[k], localIps);
    }
  }

  // ---- The theorems -----------------------------------------------------------------------------

  /** End to end, in every reachable state: the ring accepted all received frames in order but for at most
      the last one, which is missing for good only after a stop; reads follow the same order; and the calls
      to publish are those of the frames read so far, pushed in order through filter, dissector, enrichment
      and flow tracking. */
  lemma EndToEnd(trace: seq<State>, k: nat, localIps: set<U32>)
    requires Run(trace, localIps) && k < |trace|
    ensures var s := trace[k];
            var w := s.work;
            && |s.q.accepted| <= |s.received| <= |s.q.accepted| + 1
            && (forall j :: 0 <= j < |s.q.accepted| ==> s.q.accepted[j] == PB.Encode(s.received[j]))
            && (|s.received| > |s.q.accepted| && s.producer != Sending ==> s.q.stop)
            && s.q.completed <= s.q.accepted
            && Sized(w.seen) && w.seen <= s.received && |w.seen| <= |s.q.completed|
            && w.dissected == Replay(w.seen, localIps).1
            && w.handed == Tracked(Enriched(w.dissected))
  {
    Always(trace, k, localIps);
  }

  lemma RefusalStep(q: RP.State, producer: Producer, received: seq<Stamped>, e: RP.Event)
    requires CaptureInv(q, producer, received) && RP.Enabled(q, e)
    requires producer != Ended(true) && NextProducer(q, producer, e) == Ended(true)
    ensures producer == Sending && q.stop && q.ring.count == q.ring.capacity
  {
  }

  /** The capture thread is inside a write, at stop and with a full ring. */
  ghost predicate Stuck(s: State) {
    s.producer == Sending && s.q.stop && s.q.ring.count == s.q.ring.capacity
  }

  /** In every run a received frame is given up only at stop and with a full ring. */
  lemma {:induction false} RefusalMeansFull(trace: seq<State>, k: nat, localIps: set<U32>)
    requires Run(trace, localIps) && k < |trace| && trace[k].producer == Ended(true)
    ensures exists j :: 0 <= j < k && Stuck(trace[j])
  {
    if k > 0 {
      var s := trace[k - 1];
      if s.producer == Ended(true) {
        RefusalMeansFull(trace, k - 1, localIps);
      } else {
        Always(trace, k - 1, localIps);
        assert Next(s, trace[k - 1 + 1], localIps);
        RefusalNext(s, trace[k], localIps);
      }
    }
  }

  lemma RefusalNext(s: State, s': State, localIps: set<U32>)
    requires CaptureInv(s.q, s.producer, s.received) && Next(s, s', localIps)
    requires s.producer != Ended(true) && s'.producer == Ended(true)
    ensures Stuck(s)
  {
    var e :| Enabled(s, e) && s' == Apply(s, e, localIps);
    if e.Queue? {
      RefusalStep(s.q, s.producer, s.received, e.e);
    }
  }

  /** Every frame on its own, as if the buffer were always clean. */
  function FilterMap(ps: seq<Stamped>, localIps: set<U32>): seq<Dissected>
    requires Sized(ps)
  {
    if ps == [] then [] else
    var d := Examine(Zeros(), ps[|ps| - 1], localIps);
    FilterMap(ps[..|ps| - 1], localIps) + (if d.None? then [] else [d.value])
  }

  /** On self-contained frames the shared buffer makes no difference: the run is a plain filter-map. */
  lemma {:induction false} ReplayIsFilterMap(ps: seq<Stamped>, localIps: set<U32>)
    requires Sized(ps) && forall k :: 0 <= k < |ps| ==> SelfContained(ps[k].frame)
    ensures Replay(ps, localIps).1 == FilterMap(ps, localIps)
  {
    if ps != [] {
      var n := |ps| - 1;
      ReplayIsFilterMap(ps[..n], localIps);
      var p := ps[n];
      var a, b := Load(Zeros(), p.frame), Load(Replay(ps[..n], localIps).0, p.frame);
      assert a[..|p.frame|] == p.frame == b[..|p.frame|];
      Agreement(a, b, |p.frame|, |p.frame|, p.ts, localIps);
    }
  }

  /** On settled frames it makes no difference to what is tracked and published. */
  lemma {:induction false} ReplayEnriched(ps: seq<Stamped>, localIps: set<U32>)
    requires Sized(ps) && forall k :: 0 <= k < |ps| ==> Settled(ps[k].frame)
    ensures Enriched(Replay(ps, localIps).1) == Enriched(FilterMap(ps, localIps))
  {
    if ps != [] {
      var n := |ps| - 1;
      ReplayEnriched(ps[..n], localIps);
      var (buf, ds) := Replay(ps[..n], localIps);
      CleanOrNot(buf, ps[n], localIps);
      EnrichedMore(ds, Examine(buf, ps[n], localIps));
      EnrichedMore(FilterMap(ps[..n], localIps), Examine(Zeros(), ps[n], localIps));
    }
  }

  lemma CleanOrNot(buf: FrameBuf, p: Stamped, localIps: set<U32>)
    requires |p.frame| <= BUF_SIZE && Settled(p.frame)
    ensures var x, y := Examine(buf, p, localIps), Examine(Zeros(), p, localIps);
            (x.Some? <==> y.Some?) && (x.Some? ==> StatsStage(x.value) == StatsStage(y.value))
  {
    var a, b := Load(Zeros(), p.frame), Load(buf, p.frame);
    assert a[..|p.frame|] == p.frame == b[..|p.frame|];
    PaddingInvariant(a, b, |p.frame|, |p.frame|, p.ts, localIps);
  }

  lemma EnrichedMore(ds: seq<Dissected>, d: Option<Dissected>)
    ensures d.None? ==> Enriched(ds + []) == Enriched(ds)
    ensures d.Some? ==> Enriched(ds + [d.value]) == Enriched(ds) + [StatsStage(d.value)]
  {
    assert ds + [] == ds;
  }

  /** The calls to publish are those of the filter-map of a prefix of the frames received, each frame taken on
      its own, provided the frames are settled; on self-contained ones the dissected frames agree too. */
  lemma PublishedInOrder(trace: seq<State>, k: nat, localIps: set<U32>)
    requires Run(trace, localIps) && k < |trace|
    requires forall j :: 0 <= j < |trace[k].received| ==> Settled(trace[k].received[j].frame)
    ensures var w := trace[k].work;
            && |w.seen| <= |trace[k].received| && Sized(trace[k].received[..|w.seen|])
            && var ds := FilterMap(trace[k].received[..|w.seen|], localIps);
            && w.handed == Tracked(Enriched(ds))
            && ((forall j :: 0 <= j < |trace[k].received| ==> SelfContained(trace[k].received[j].frame)) ==>
                 w.dissected == ds)
  {
    EndToEnd(trace, k, localIps);
    var received, seen := trace[k].received, trace[k].work.seen;
    assert seen == received[..|seen|];
    ReplayEnriched(seen, localIps);
    if forall j :: 0 <= j < |received| ==> SelfContained(received[j].frame) {
      ReplayIsFilterMap(seen, localIps);
    }
  }

  /** In the running engine a true result for a published frame always means that the broker acknowledged that
      very frame: after the one exit that could leave a confirm behind, no further call is made. */
  lemma ConfirmsMatchEver(trace: seq<State>, k: nat, j: nat, localIps: set<U32>)
    requires Run(trace, localIps) && k < |trace| && j < |trace[k].outcomes|
    ensures |trace[k].outcomes| == |trace[k].answers| == |trace[k].work.dissected|
    ensures trace[k].outcomes[j].Ok() && Publishable(StatsStage(trace[k].work.dissected[j]).protocol) ==>
              && trace[k].outcomes[j] == Pub.Confirmed(j)
              && trace[k].answers[j].send == Pub.SendOk && Pub.Acked(trace[k].answers[j].polls)
  {
    Always(trace, k, localIps);
    var s := trace[k];
    assert Honest(s.outcomes[j], s.answers[j], StatsStage(s.work.dissected[j]).protocol);
  }

  predicate Bounded(d: Dissected, localIps: set<U32>) {
    Directed(d, localIps) && StatsStage(d).packetSize <= 2026
  }

  ghost predicate AllBounded(ds: seq<Dissected>, localIps: set<U32>) {
    forall i :: 0 <= i < |ds| ==> Bounded(ds[i], localIps)
  }

  lemma ExaminedFrame(buf: FrameBuf, p: Stamped, localIps: set<U32>)
    requires |p.frame| <= BUF_SIZE && Examine(buf, p, localIps).Some?
    ensures Bounded(Examine(buf, p, localIps).value, localIps)
  {
    if !Examine(buf, p, localIps).value.Arp? {
      PacketSizeBound(Load(buf, p.frame), |p.frame|, p.ts, localIps);
    }
  }

  lemma BoundedAppend(ds: seq<Dissected>, d: Option<Dissected>, localIps: set<U32>)
    requires AllBounded(ds, localIps) && (d.Some? ==> Bounded(d.value, localIps))
    ensures AllBounded(if d.None? then ds else ds + [d.value], localIps)
  {
  }

  lemma {:induction false} ReplayedFrames(ps: seq<Stamped>, localIps: set<U32>)
    requires Sized(ps)
    ensures |Replay(ps, localIps).1| <= |ps| && AllBounded(Replay(ps, localIps).1, localIps)
  {
    if ps != [] {
      var n := |ps| - 1;
      ReplayedFrames(ps[..n], localIps);
      var (before, ds) := Replay(ps[..n], localIps);
      var d := Examine(before, ps[n], localIps);
      if d.Some? {
        ExaminedFrame(before, ps[n], localIps);
      }
      BoundedAppend(ds, d, localIps);
    }
  }

  /** In every reachable state the bytes of every flow went the way its addresses say. */
  lemma OneSidedEver(trace: seq<State>, k: nat, localIps: set<U32>, key: string)
    requires Run(trace, localIps) && k < |trace| && key in trace[k].work.table
    ensures var r := trace[k].work.table[key];
            && Sided(r, key, localIps) && KeyOfFrame(key)
            && (|| (r.inboundBytes == r.totalBytes && r.outboundBytes == 0)
                || (r.inboundBytes == 0 && r.outboundBytes == r.totalBytes)
                || (r.inboundBytes == 0 && r.outboundBytes == 0))
  {
    Always(trace, k, localIps);
    ReplayedFrames(trace[k].work.seen, localIps);
    forall i | 0 <= i < |trace[k].work.dissected| ensures Directed(trace[k].work.dissected[i], localIps) {
      assert Bounded(trace[k].work.dissected[i], localIps);
    }
    OneSided(trace[k].work.dissected, localIps, key);
  }

  /** In every state reached with fewer than 2^32 frames read, every counter is exact and bytes are bounded. */
  lemma CountersExactEver(trace: seq<State>, k: nat, localIps: set<U32>, key: string)
    requires Run(trace, localIps) && k < |trace| && key in trace[k].work.table
    requires |trace[k].work.seen| < TWO_32
    ensures var w := trace[k].work;
            var g, r := OfKey(Enriched(w.dissected), key), w.table[key];
            && r.totalBytes == Total(g, Size) <= 2026 * |w.dissected|
            && r.inboundBytes == Total(g, SizeIn) && r.outboundBytes == Total(g, SizeOut)
            && r.synCount == Total(g, OneSyn) && r.synAckCount == Total(g, OneSynAck) && r.rstCount == Total(g, OneRst)
            && r.retransmitCount + |r.retransmitSet| == Total(g, OneSequenced)
  {
    Always(trace, k, localIps);
    var w := trace[k].work;
    ReplayedFrames(w.seen, localIps);
    var h := Enriched(w.dissected);
    forall f | f in h ensures f.packetSize <= 2026 {
      var i :| 0 <= i < |h| && h[i] == f;
      assert Bounded(w.dissected[i], localIps);
    }
    NoCounterWraps(h, key);
  }
}
