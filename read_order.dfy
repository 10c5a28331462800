/** The order in which the block reader hands events to the reports. Each
    report stops at the first event older than its bound, which keeps
    exactly the events inside the window only when the stream is newest
    first. `readEventsFromFile` sends the blocks last first, but the events
    of each block in the order they were stored, which is oldest first. */
module ReadOrder {
  import opened Wrappers
  import opened Ints
  import opened Ev
  import opened EventStream
  import BlockFile
  import ViewsReport

  /** Times never increase along the stream. */
  predicate NewestFirst(events: seq<Ev>) {
    forall i, j :: 0 <= i < j < |events| ==> events[i].time >= events[j].time
  }

  /** Times never decrease along the stream: the order in which events are
      stamped, sent to the writer and batched. */
  predicate OldestFirst(events: seq<Ev>) {
    forall i, j :: 0 <= i < j < |events| ==> events[i].time <= events[j].time
  }

  /** On a newest-first stream the early stop is exact: the events before
      it are precisely those inside the window. */
  lemma BreakIsExact(events: seq<Ev>, minTime: uint32)
    requires NewestFirst(events)
    ensures forall i :: 0 <= i < |events| ==> (i < FirstOlder(events, minTime) <==> events[i].time >= minTime)
  {
    var k := FirstOlder(events, minTime);
    forall i | 0 <= i < |events| && i >= k
      ensures events[i].time < minTime
    {
      assert events[k].time < minTime;
    }
  }

  // ---- As written ----

  /** A LOAD of content id 1 at time 10 and one of content id 2 at time 20,
      stored together in one block. */
  const Early: Ev := Ev(LOAD, 10, 0, 0, 1, None, None)
  const Late: Ev := Ev(LOAD, 20, 0, 0, 2, None, None)

  /** Read back, the block comes oldest first, so a views report with bound
      15 stops at the first event and counts nothing, although the LOAD of
      content id 2 at time 20 lies inside its window. */
  lemma BlockOrderDropsWindow(pack: seq<Ev> -> Option<Bytes>, unpack: Bytes -> Option<seq<Ev>>)
    requires pack([Early, Late]).Some? && 0 < |pack([Early, Late]).value| < TWO_TO_THE_32
    requires unpack(pack([Early, Late]).value) == Some([Early, Late])
    ensures var file := BlockFile.BlockFrames(BlockFile.PackAll([[Early, Late]], pack));
      var sent := BlockFile.ReadBack(file, |file|, unpack).0;
      && sent == [Early, Late]
      && sent[1].evType == LOAD && sent[1].time >= 15
      && Loaded(sent, 15) == []
      && ViewsReport.ViewCounts(Loaded(sent, 15), 0) == map[]
  {
    var bs := [[Early, Late]];
    BlockFile.WriteThenRead(bs, pack, unpack);
    assert BlockFile.Reverse(bs) == bs;
    assert BlockFile.Concat(bs) == [Early, Late];
    assert FirstOlder([Early, Late], 15) == 0;
  }

  // ---- Corrected ----

  /** Each block's events, last first. */
  function ReverseEach(bs: seq<seq<Ev>>): (r: seq<seq<Ev>>)
    ensures |r| == |bs|
    ensures forall i :: 0 <= i < |bs| ==> r[i] == BlockFile.Reverse(bs[i])
    decreases |bs|
  {
    if bs == [] then [] else [BlockFile.Reverse(bs[0])] + ReverseEach(bs[1..])
  }

  /** Unpacking followed by reversing the block's events. */
  function UnpackNewestFirst(unpack: Bytes -> Option<seq<Ev>>): Bytes -> Option<seq<Ev>> {
    p => if unpack(p).Some? then Some(BlockFile.Reverse(unpack(p).value)) else None
  }

  /** The reader as intended: the blocks last first, and the events of
      each block last first too. */
  function ReadNewestFirst(file: Bytes, unpack: Bytes -> Option<seq<Ev>>): (seq<Ev>, BlockFile.Outcome) {
    BlockFile.ReadBack(file, |file|, UnpackNewestFirst(unpack))
  }

  /** With each block reversed, reading a file written block by block sends
      every event in exactly the reverse of the order written, so when the
      events were written oldest first they arrive newest first and each
      report's stop keeps exactly the events inside its window. */
  lemma CorrectedReadIsNewestFirst(bs: seq<seq<Ev>>, pack: seq<Ev> -> Option<Bytes>,
                                   unpack: Bytes -> Option<seq<Ev>>, minTime: uint32)
    requires forall b :: b in bs ==> pack(b).Some? && 0 < |pack(b).value| < TWO_TO_THE_32
    requires forall b :: b in bs ==> unpack(pack(b).value) == Some(b)
    requires OldestFirst(BlockFile.Concat(bs))
    ensures var file := BlockFile.BlockFrames(BlockFile.PackAll(bs, pack));
      var sent := ReadNewestFirst(file, unpack).0;
      && ReadNewestFirst(file, unpack).1 == BlockFile.Finished(BlockFile.Clean)
      && sent == BlockFile.Reverse(BlockFile.Concat(bs))
      && NewestFirst(sent)
      && forall i :: 0 <= i < |sent| ==> (i < FirstOlder(sent, minTime) <==> sent[i].time >= minTime)
  {
    var ps := BlockFile.PackAll(bs, pack);
    BlockFile.PackAllAt(bs, pack);
    assert forall p :: p in ps ==> 0 < |p| < TWO_TO_THE_32 by {
      forall p | p in ps ensures 0 < |p| < TWO_TO_THE_32 {
        var i :| 0 <= i < |ps| && ps[i] == p;
        assert bs[i] in bs;
      }
    }
    BlockFile.ScanBackFrames(ps);
    var file := BlockFile.BlockFrames(ps);
    BlockFile.UnpackReversed(bs, ps, pack, unpack);
    var blocks := ReverseEach(BlockFile.Reverse(bs));
    BlockFile.ReadBackFollowsScan(file, |file|, UnpackNewestFirst(unpack), blocks);
    ConcatReverseEach(bs);
    ReversedIsNewestFirst(BlockFile.Concat(bs));
    BreakIsExact(BlockFile.Reverse(BlockFile.Concat(bs)), minTime);
  }

  /** Reversing the blocks and each block's events reverses the events. */
  lemma {:induction false} ConcatReverseEach(bs: seq<seq<Ev>>)
    ensures BlockFile.Concat(ReverseEach(BlockFile.Reverse(bs))) == BlockFile.Reverse(BlockFile.Concat(bs))
    decreases |bs|
  {
    if bs != [] {
      var init, last := bs[..|bs| - 1], bs[|bs| - 1];
      var r := BlockFile.Reverse(init);
      assert BlockFile.Reverse(bs) == [last] + r;
      assert ([last] + r)[1..] == r;
      assert ReverseEach([last] + r) == [BlockFile.Reverse(last)] + ReverseEach(r);
      var each := [BlockFile.Reverse(last)] + ReverseEach(r);
      assert each[1..] == ReverseEach(r);
      ConcatReverseEach(init);
      ConcatSnoc(init, last);
      assert init + [last] == bs;
      ReverseAppend(BlockFile.Concat(init), last);
    }
  }

  lemma {:induction false} ConcatSnoc(bs: seq<seq<Ev>>, x: seq<Ev>)
    ensures BlockFile.Concat(bs + [x]) == BlockFile.Concat(bs) + x
    decreases |bs|
  {
    if bs == [] {
      assert BlockFile.Concat([x]) == x + BlockFile.Concat([]);
    } else {
      assert (bs + [x])[1..] == bs[1..] + [x];
      ConcatSnoc(bs[1..], x);
      AppendAssoc(bs[0], BlockFile.Concat(bs[1..]), x);
    }
  }

  lemma {:induction false} ReverseAppend(a: seq<Ev>, b: seq<Ev>)
    ensures BlockFile.Reverse(a + b) == BlockFile.Reverse(b) + BlockFile.Reverse(a)
    decreases |b|
  {
    if b == [] {
      assert a + b == a;
    } else {
      var init, last := b[..|b| - 1], b[|b| - 1];
      assert (a + b)[..|a + b| - 1] == a + init;
      assert (a + b)[|a + b| - 1] == last;
      ReverseAppend(a, init);
      AppendAssoc([last], BlockFile.Reverse(init), BlockFile.Reverse(a));
    }
  }

  /** Reversing an oldest-first stream gives a newest-first one. */
  lemma ReversedIsNewestFirst(events: seq<Ev>)
    requires OldestFirst(events)
    ensures NewestFirst(BlockFile.Reverse(events))
  {
    var r := BlockFile.Reverse(events);
    var n := |events|;
    forall i, j | 0 <= i < j < n
      ensures r[i].time >= r[j].time
    {
      BlockFile.ReverseAt(events, i);
      BlockFile.ReverseAt(events, j);
    }
  }
}
