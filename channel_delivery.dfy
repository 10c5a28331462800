/** How `readEvents` hands events to the report jobs over their channels.
    Each job's channel is unbuffered, so a send completes only when the job
    takes the event. A report that returns early (at the first event older
    than its bound, or at its cap) takes no further event, and the next
    send to it never completes: the reader stops there, the later jobs get
    nothing more, and no stream is closed. `RecordFile.ReadEvents` is the
    delivery when every job reads its stream to the close. */
module ChannelDelivery {
  import opened Wrappers
  import opened Ints
  import opened Ev
  import opened EventStream
  import opened RecordFile
  import ReadOrder

  /** How a job takes events from its channel: until the channel is closed,
      or it returns after taking `n` of them. */
  datatype Reading = ToClose | Returns(n: nat)

  /** Whether the job takes the event sent at position `i` of the stream. */
  predicate Takes(r: Reading, i: nat) {
    r.ToClose? || i < r.n
  }

  /** Whether the job takes the first `count` events of the stream. */
  predicate TakesFirst(r: Reading, count: nat) {
    r.ToClose? || count <= r.n
  }

  /** A report with a time bound (views, loads, top) takes events up to and
      including the first one older than the bound, then returns; with no
      such event it reads to the close. */
  function BoundedReading(events: seq<Ev>, minTime: uint32): (r: Reading)
    ensures forall i :: 0 <= i < |events| ==> (Takes(r, i) <==> i <= FirstOlder(events, minTime))
  {
    var k := FirstOlder(events, minTime);
    if k < |events| then Returns(k + 1) else ToClose
  }

  /** The number of jobs, in job order, that take the event at position `i`
      before the first one that does not. */
  function Taking(readers: seq<Reading>, i: nat): (k: nat)
    ensures k <= |readers|
    ensures forall j :: 0 <= j < k ==> Takes(readers[j], i)
    ensures k < |readers| ==> !Takes(readers[k], i)
  {
    if readers == [] then 0
    else if !Takes(readers[0], i) then 0
    else 1 + Taking(readers[1..], i)
  }

  /** `readEvents` as written, on the events of a file that reads cleanly,
      from stream position `i` on: each event is sent to the jobs in order
      until a send finds its job gone; the deliveries so far, and whether
      the reader is left blocked. */
  function Deliver(evs: seq<Ev>, readers: seq<Reading>, i: nat): (seq<Delivery>, bool)
    decreases |evs|
  {
    if evs == [] then (CloseAll(|readers|), false)
    else
      var k := Taking(readers, i);
      if k < |readers| then (SendAll(evs[0], k), true)
      else
        var rest := Deliver(evs[1..], readers, i + 1);
        (SendAll(evs[0], |readers|) + rest.0, rest.1)
  }

  /** Every log entry is a send. */
  predicate OnlySends(log: seq<Delivery>) {
    forall d :: d in log ==> d.Send?
  }

  lemma {:induction false} SendAllPrefix(e: Ev, k: nat, n: nat)
    requires k <= n
    ensures SendAll(e, k) <= SendAll(e, n)
    ensures OnlySends(SendAll(e, n))
    decreases n
  {
    if n > 0 {
      if k < n {
        SendAllPrefix(e, k, n - 1);
      } else {
        SendAllPrefix(e, k - 1, n - 1);
      }
    }
  }

  /** When every job takes every event, the reader never blocks and the
      deliveries are the full fan-out followed by closing every job. */
  lemma {:induction false} DeliverWhenAllTake(evs: seq<Ev>, readers: seq<Reading>, i: nat)
    requires forall j :: 0 <= j < |readers| ==> TakesFirst(readers[j], i + |evs|)
    ensures Deliver(evs, readers, i) == (FanOut(evs, |readers|) + CloseAll(|readers|), false)
    decreases |evs|
  {
    if evs != [] {
      assert Taking(readers, i) == |readers|;
      DeliverWhenAllTake(evs[1..], readers, i + 1);
      assert FanOut(evs, |readers|) == SendAll(evs[0], |readers|) + FanOut(evs[1..], |readers|);
      AppendAssoc(SendAll(evs[0], |readers|), FanOut(evs[1..], |readers|), CloseAll(|readers|));
    } else {
      assert FanOut(evs, |readers|) + CloseAll(|readers|) == CloseAll(|readers|);
    }
  }

  /** When some job stops before the end of the stream, the reader is left
      blocked: the deliveries are a prefix of the fan-out and hold no close. */
  lemma {:induction false} DeliverWhenOneStops(evs: seq<Ev>, readers: seq<Reading>, i: nat, job: nat)
    requires evs != [] && job < |readers| && !TakesFirst(readers[job], i + |evs|)
    ensures Deliver(evs, readers, i).1
    ensures Deliver(evs, readers, i).0 <= FanOut(evs, |readers|)
    ensures OnlySends(Deliver(evs, readers, i).0)
    decreases |evs|
  {
    var n := |readers|;
    var k := Taking(readers, i);
    SendAllPrefix(evs[0], k, n);
    if k == n {
      assert Takes(readers[job], i);
      DeliverWhenOneStops(evs[1..], readers, i + 1, job);
      var rest := Deliver(evs[1..], readers, i + 1).0;
      assert forall d :: d in SendAll(evs[0], n) + rest ==> d in SendAll(evs[0], n) || d in rest;
    }
  }

  /** The reader finishes and closes every stream exactly when every job
      takes every event; otherwise no stream is closed. */
  lemma DeliverBlocksIffEarlyStop(evs: seq<Ev>, readers: seq<Reading>)
    ensures var (log, blocked) := Deliver(evs, readers, 0);
      && (blocked <==> exists j :: 0 <= j < |readers| && !TakesFirst(readers[j], |evs|))
      && (!blocked ==> log == FanOut(evs, |readers|) + CloseAll(|readers|))
      && (blocked ==> log <= FanOut(evs, |readers|) && OnlySends(log))
  {
    if j :| 0 <= j < |readers| && !TakesFirst(readers[j], |evs|) {
      DeliverWhenOneStops(evs, readers, 0, j);
    } else {
      DeliverWhenAllTake(evs, readers, 0);
    }
  }

  /** Two LOAD events, at times 10 and 20, stored oldest first as the app
      writes them, read by a views report with bound 15 and by a second job
      that reads to the close. The views report takes the first event, finds
      it too old and returns; the send of the second event to it never
      completes, so the second job receives only the first event and never
      sees its stream closed, while `ReadEvents` promises it both events and
      the close. */
  lemma EarlyStopBlocksReader(p1: Payload, p2: Payload, unmarshal: Bytes -> Option<Ev>)
    requires unmarshal(p1) == Some(ReadOrder.Early) && unmarshal(p2) == Some(ReadOrder.Late)
    ensures var (evs, panicked) := ReadFrom(Frames([p1, p2]), 0, unmarshal);
      var readers := [BoundedReading(evs, 15), ToClose];
      && evs == [ReadOrder.Early, ReadOrder.Late] && panicked.None?
      && Deliver(evs, readers, 0) == ([Send(0, ReadOrder.Early), Send(1, ReadOrder.Early)], true)
      && Received(Deliver(evs, readers, 0).0, 1) == [Send(1, ReadOrder.Early)]
      && Received(FanOut(evs, 2) + CloseAll(2), 1)
           == [Send(1, ReadOrder.Early), Send(1, ReadOrder.Late), Close(1)]
  {
    ReadTwoRecords(p1, p2, unmarshal);
    var evs := [ReadOrder.Early, ReadOrder.Late];
    DeliverTwo();
    var log := [Send(0, ReadOrder.Early), Send(1, ReadOrder.Early)];
    assert Received(log, 1) == Received(log[1..], 1);
    EachJobGetsEveryEvent(evs, 2, 1);
    assert SendsTo(evs[1..], 1) == [Send(1, ReadOrder.Late)] + SendsTo([], 1);
    assert SendsTo(evs, 1) == [Send(1, ReadOrder.Early)] + SendsTo(evs[1..], 1);
  }

  /** The two records read back as the two events, with no panic. */
  lemma ReadTwoRecords(p1: Payload, p2: Payload, unmarshal: Bytes -> Option<Ev>)
    requires unmarshal(p1) == Some(ReadOrder.Early) && unmarshal(p2) == Some(ReadOrder.Late)
    ensures ReadFrom(Frames([p1, p2]), 0, unmarshal) == ([ReadOrder.Early, ReadOrder.Late], None)
  {
    var file := Frames([p1, p2]);
    DecodeFrames([p1, p2]);
    ReadFollowsFraming(file, 0, unmarshal);
    assert ReadFrom(file, 0, unmarshal).0 == [ReadOrder.Early, ReadOrder.Late];
  }

  /** The views report takes the first event and returns, so the second
      event's first send blocks. */
  lemma DeliverTwo()
    ensures var evs := [ReadOrder.Early, ReadOrder.Late];
      Deliver(evs, [BoundedReading(evs, 15), ToClose], 0)
        == ([Send(0, ReadOrder.Early), Send(1, ReadOrder.Early)], true)
  {
    var evs := [ReadOrder.Early, ReadOrder.Late];
    assert FirstOlder(evs, 15) == 0;
    var readers := [BoundedReading(evs, 15), ToClose];
    assert readers == [Returns(1), ToClose];
    assert Taking(readers, 1) == 0;
    assert Taking(readers, 0) == 2;
    assert Deliver(evs[1..], readers, 1) == ([], true);
    assert SendAll(ReadOrder.Early, 1) == [Send(0, ReadOrder.Early)];
    assert SendAll(ReadOrder.Early, 2) + [] == [Send(0, ReadOrder.Early), Send(1, ReadOrder.Early)];
  }

  /** The intended behaviour: every report keeps taking (and discarding)
      events until its channel is closed. Then the reader never blocks, the
      deliveries are exactly those of `ReadEvents` on a file that reads
      cleanly, and each job gets every event in file order and one close. */
  lemma DrainingJobsGetEverything(file: Bytes, readers: seq<Reading>, unmarshal: Bytes -> Option<Ev>)
    requires ReadFrom(file, 0, unmarshal).1.None?
    requires forall j :: 0 <= j < |readers| ==> readers[j].ToClose?
    ensures var evs := ReadFrom(file, 0, unmarshal).0;
      && Deliver(evs, readers, 0) == (FanOut(evs, |readers|) + CloseAll(|readers|), false)
      && forall job :: 0 <= job < |readers| ==>
           Received(Deliver(evs, readers, 0).0, job) == SendsTo(evs, job) + [Close(job)]
  {
    var evs := ReadFrom(file, 0, unmarshal).0;
    DeliverWhenAllTake(evs, readers, 0);
    forall job | 0 <= job < |readers|
      ensures Received(FanOut(evs, |readers|) + CloseAll(|readers|), job) == SendsTo(evs, job) + [Close(job)]
    {
      EachJobGetsEveryEvent(evs, |readers|, job);
    }
  }
}
