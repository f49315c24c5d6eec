/** One iteration of the pipeline thread's loop in `main`, on the real objects: it refines the corresponding
    step of the transition system. */
module Engine {
  import opened Bytes
  import opened Dissector
  import opened Stats
  import opened FlowTracker
  import opened Pipeline
  import PB = PacketBuffer
  import Pub = Publisher

  /** Filter, dissect, enrich, track and publish one frame. With a slot in the queue the iteration does to the
      frame buffer, the flow table and the publisher exactly what one pass of the transition system does; without
      one it changes nothing. */
  method Iterate(pb: PB.PacketBuffer, frameBuf: array<Byte>, flows: FlowTable, publisher: Pub.RabbitMqPublisher,
                 localIps: set<U32>, stopAtTest: bool, stopAtCheck: bool, o: Pub.Oracle, ghost w: Work)
    returns (r: PB.ReadOutcome, outcome: Option<Pub.Outcome>, ghost after: Work)
    requires pb.Valid() && PB.Framed(pb.Queue()) && frameBuf != pb.ring.buffer && frameBuf.Length == BUF_SIZE
    requires stopAtTest ==> stopAtCheck
    requires w.buf == frameBuf[..] && w.table == flows.table
    modifies pb.ring`tail, pb.ring`count, frameBuf, flows, publisher, publisher.broker
    ensures pb.Valid() && PB.Framed(pb.Queue())
    ensures after.buf == frameBuf[..] && after.table == flows.table
    ensures r != PB.Got ==>
              && old(pb.Queue()) == [] && after == w
              && publisher.Snapshot() == old(publisher.Snapshot()) && outcome == None
    ensures r == PB.Got ==>
              && old(pb.Queue()) != [] && pb.Queue() == old(pb.Queue())[1..]
              && |old(pb.Queue())[0]| >= PB.TIMESTAMP_SIZE
              && var p := PB.Decode(old(pb.Queue())[0]);
              && |p.frame| <= BUF_SIZE
              && var d := Examine(w.buf, p, localIps);
              && after == Consume(w, p, d)
              && (d.None? ==> publisher.Snapshot() == old(publisher.Snapshot()) && outcome == None)
              && (d.Some? ==>
                   var (pub, r) := Pub.Publish(old(publisher.Snapshot()), StatsStage(d.value).protocol, o);
                   publisher.Snapshot() == pub && outcome == Some(r))
  {
    outcome := None;
    var filtered;
    r, filtered := FilterStage(pb, frameBuf, stopAtTest, stopAtCheck);
    if r != PB.Got {
      after := w;
      return;
    }
    ghost var p := PB.Decode(old(pb.Queue())[0]);
    after := w.(buf := Load(w.buf, p.frame), seen := w.seen + [p]);
    if filtered.None? {
      return;
    }
    var dissected := Dissect(frameBuf[..], filtered.value, localIps);
    if dissected.None? {
      return;
    }
    var enriched := StatsStage(dissected.value);
    var rec, isRetransmit := flows.Track(enriched);
    after := Track(after, dissected.value);
    assert after.handed[|after.handed| - 1] == Handed(enriched, rec, isRetransmit);
    var result := publisher.PublishFrame(enriched.protocol, o);
    outcome := Some(result);
  }
}
