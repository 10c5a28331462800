/** The batched storage format: events are grouped into blocks, each block
    is marshalled and gzipped (opaque here: `pack`), and the compressed
    payload is stored followed by its length as 4 big-endian bytes. Written
    by `app/post.go` (`writeEvents`, `writeBlock`), read from the end of the
    file backwards by `report/read.go` (`readEventsFromFile`). */
module BlockFile {
  import opened Wrappers
  import opened Ints
  import opened Ev

  // ---- The 4-byte big-endian length ----

  /** `binary.BigEndian.PutUint32`. */
  function PutUint32(n: uint32): (b: Bytes)
    ensures |b| == 4
  {
    [n / 0x100_0000, (n / 0x1_0000) % 0x100, (n / 0x100) % 0x100, n % 0x100]
  }

  /** The reader's `(int(b[0]) << 24) + (int(b[1]) << 16) + (int(b[2]) << 8) + int(b[3])`. */
  function Uint32At(b: Bytes): (n: nat)
    requires |b| == 4
    ensures n < TWO_TO_THE_32
  {
    (b[0] as int) * 0x100_0000 + (b[1] as int) * 0x1_0000 + (b[2] as int) * 0x100 + (b[3] as int)
  }

  /** The reader's decoding inverts the writer's encoding. */
  lemma Uint32AtPut(n: uint32)
    ensures Uint32At(PutUint32(n)) == n
  {
    var b := PutUint32(n);
    assert b[0] * 0x100_0000 + (n % 0x100_0000) == n;
    SplitSecondByte(n);
    SplitThirdByte(n);
  }

  lemma SplitSecondByte(n: nat)
    ensures ((n / 0x1_0000) % 0x100) * 0x1_0000 + n % 0x1_0000 == n % 0x100_0000
  {
    var q, r := n / 0x100_0000, n % 0x100_0000;
    assert n == q * 0x100_0000 + r;
    assert n / 0x1_0000 == q * 0x100 + r / 0x1_0000;
    assert n % 0x1_0000 == r % 0x1_0000;
  }

  lemma SplitThirdByte(n: nat)
    ensures ((n / 0x100) % 0x100) * 0x100 + n % 0x100 == n % 0x1_0000
  {
    var q, r := n / 0x1_0000, n % 0x1_0000;
    assert n == q * 0x1_0000 + r;
    assert n / 0x100 == q * 0x100 + r / 0x100;
    assert n % 0x100 == r % 0x100;
  }

  // ---- Writing ----

  /** What `writeBlock` appends for a compressed payload. The length is
      converted with `uint32(len(...))`, so it wraps for payloads of 4 GiB
      or more. */
  function BlockFrame(payload: Bytes): (f: Bytes)
    ensures |f| == |payload| + 4
    ensures f[..|payload|] == payload
  {
    payload + PutUint32(ToUint32(|payload|))
  }

  /** The frames of several payloads, in writing order. */
  function BlockFrames(ps: seq<Bytes>): (f: Bytes)
    decreases |ps|
  {
    if ps == [] then [] else BlockFrames(ps[..|ps| - 1]) + BlockFrame(ps[|ps| - 1])
  }

  /** Why `writeBlock` returns an error. */
  datatype WriteError = PackFailed | DataWriteFailed | LengthWriteFailed

  /** The data file the events are appended to. */
  class DataFile {
    var contents: Bytes

    constructor ()
      ensures contents == []
    {
      contents := [];
    }

    /** `writeBlock`: `packed` is the outcome of `proto.Marshal` followed by
        gzip (None when either fails), the flags are the outcomes of the
        two writes. Nothing is written when packing or the first write
        fails; a failed second write leaves the payload without its length. */
    method WriteBlock(packed: Option<Bytes>, dataWriteOk: bool, lengthWriteOk: bool)
      returns (err: Option<WriteError>)
      modifies this
      ensures err.None? <==> packed.Some? && dataWriteOk && lengthWriteOk
      ensures packed.None? ==> err == Some(PackFailed) && contents == old(contents)
      ensures packed.Some? && !dataWriteOk ==> err == Some(DataWriteFailed) && contents == old(contents)
      ensures packed.Some? && dataWriteOk && !lengthWriteOk ==>
                err == Some(LengthWriteFailed) && contents == old(contents) + packed.value
      ensures err.None? ==> contents == old(contents) + BlockFrame(packed.value)
      ensures contents == old(contents) + WrittenBytes(packed, dataWriteOk, lengthWriteOk)
    {
      if packed.None? {
        return Some(PackFailed);
      }
      var gzipped := packed.value;
      if !dataWriteOk {
        return Some(DataWriteFailed);
      }
      contents := contents + gzipped;
      var lengthBytes := PutUint32(ToUint32(|gzipped|));
      if !lengthWriteOk {
        return Some(LengthWriteFailed);
      }
      contents := contents + lengthBytes;
      err := None;
    }
  }

  /** What reaches `writeEvents`: an event from the channel, with the
      outcomes of the data write and the length write `writeBlock` would
      make if this event completes a block, or the context's cancellation. */
  datatype Input = Event(e: Ev, dataOk: bool, lengthOk: bool) | Cancel

  /** What `writeBlock` leaves appended to the file for one block: nothing
      when packing or the data write fails, the payload alone when only
      the length write fails, the whole frame otherwise. */
  function WrittenBytes(packed: Option<Bytes>, dataOk: bool, lengthOk: bool): (w: Bytes)
    ensures packed.None? || !dataOk ==> w == []
    ensures packed.Some? && dataOk && lengthOk ==> |w| == |packed.value| + 4
    ensures packed.Some? && dataOk && !lengthOk ==> |w| == |packed.value|
    ensures packed.Some? && dataOk ==> w[..|packed.value|] == packed.value
  {
    if packed.None? || !dataOk then []
    else if lengthOk then BlockFrame(packed.value)
    else packed.value
  }

  /** Every write the loop may make succeeds. */
  predicate WritesSucceed(inputs: seq<Input>) {
    forall i :: 0 <= i < |inputs| && inputs[i].Event? ==> inputs[i].dataOk && inputs[i].lengthOk
  }

  /** The events received before the first cancellation. */
  function Received(inputs: seq<Input>): seq<Ev> {
    if inputs == [] || inputs[0].Cancel? then [] else [inputs[0].e] + Received(inputs[1..])
  }

  /** The effective block size: `len >= blockSize` holds after every append
      when blockSize is 0, so blocks then hold one event each. */
  function Threshold(blockSize: int): (t: nat)
    ensures t >= 1 && (blockSize >= 1 ==> t == blockSize)
  {
    if blockSize >= 1 then blockSize else 1
  }

  /** The blocks completed and the pending block after the events `evs`. */
  function Batch(evs: seq<Ev>, blockSize: int): (r: (seq<seq<Ev>>, seq<Ev>))
    decreases |evs|
  {
    if evs == [] then ([], [])
    else
      var prev := Batch(evs[..|evs| - 1], blockSize);
      var pending := prev.1 + [evs[|evs| - 1]];
      if |pending| >= blockSize then (prev.0 + [pending], []) else (prev.0, pending)
  }

  function Flatten(bs: seq<seq<Ev>>): seq<Ev>
    decreases |bs|
  {
    if bs == [] then [] else Flatten(bs[..|bs| - 1]) + bs[|bs| - 1]
  }

  /** Batching loses, duplicates and reorders nothing: the completed blocks
      followed by the pending one are exactly the events in arrival order;
      every completed block has exactly the threshold's size and the pending
      block is always shorter. */
  lemma {:induction false} BatchInvariant(evs: seq<Ev>, blockSize: int)
    ensures Flatten(Batch(evs, blockSize).0) + Batch(evs, blockSize).1 == evs
    ensures forall b :: b in Batch(evs, blockSize).0 ==> |b| == Threshold(blockSize)
    ensures |Batch(evs, blockSize).1| < Threshold(blockSize)
    decreases |evs|
  {
    if evs != [] {
      var init := evs[..|evs| - 1];
      BatchInvariant(init, blockSize);
      var prev := Batch(init, blockSize);
      var last := evs[|evs| - 1];
      var pending := prev.1 + [last];
      assert evs == init + [last];
      AppendAssoc(Flatten(prev.0), prev.1, [last]);
      if |pending| >= blockSize {
        var bs := prev.0 + [pending];
        assert Batch(evs, blockSize) == (bs, []);
        assert bs[..|bs| - 1] == prev.0;
        assert Flatten(bs) == Flatten(prev.0) + pending;
      } else {
        assert Batch(evs, blockSize) == (prev.0, pending);
      }
    }
  }

  /** The payloads of the blocks, as long as every block packs. */
  function PackAll(bs: seq<seq<Ev>>, pack: seq<Ev> -> Option<Bytes>): seq<Bytes>
    requires forall b :: b in bs ==> pack(b).Some?
    decreases |bs|
  {
    if bs == [] then [] else PackAll(bs[..|bs| - 1], pack) + [pack(bs[|bs| - 1]).value]
  }

  /** What the writer leaves in the file for the completed blocks `bs`:
      their frames in order, or None when one of them fails to pack. */
  function Frames(bs: seq<seq<Ev>>, pack: seq<Ev> -> Option<Bytes>): Option<Bytes>
    decreases |bs|
  {
    if bs == [] then Some([])
    else
      var init := Frames(bs[..|bs| - 1], pack);
      var p := pack(bs[|bs| - 1]);
      if init.None? || p.None? then None else Some(init.value + BlockFrame(p.value))
  }

  /** The frames exist exactly when every block packs, and are then the
      frames of the blocks' payloads. */
  lemma {:induction false} FramesPack(bs: seq<seq<Ev>>, pack: seq<Ev> -> Option<Bytes>)
    ensures Frames(bs, pack).Some? <==> forall b :: b in bs ==> pack(b).Some?
    ensures Frames(bs, pack).Some? ==> Frames(bs, pack).value == BlockFrames(PackAll(bs, pack))
    decreases |bs|
  {
    if bs != [] {
      var init, last := bs[..|bs| - 1], bs[|bs| - 1];
      FramesPack(init, pack);
      assert bs == init + [last];
      assert forall b :: b in bs <==> b in init || b == last;
    }
  }

  /** `writeEvents` with its pending block; the loop ends at the context's
      cancellation, dropping the pending block unwritten. The data file is
      opened for appending, so `base` is what it held before. */
  class BlockWriter {
    const blockSize: int
    const file: DataFile
    var pending: seq<Ev>
    ghost var base: Bytes
    ghost var blocks: seq<seq<Ev>>
    ghost var seen: seq<Ev>

    ghost predicate Valid()
      reads this
    {
      Batch(seen, blockSize) == (blocks, pending)
    }

    constructor (blockSize: int, file: DataFile)
      ensures this.blockSize == blockSize && this.file == file
      ensures Valid() && seen == [] && pending == [] && base == file.contents
    {
      this.blockSize := blockSize;
      this.file := file;
      pending := [];
      base := file.contents;
      blocks := [];
      seen := [];
    }

    /** One received event: append it, and write and reset the block once
        it reaches the block size. A failed pack or write panics; it then
        leaves in the file what `writeBlock` wrote before failing. */
    method Append(e: Ev, dataOk: bool, lengthOk: bool, pack: seq<Ev> -> Option<Bytes>) returns (panicked: bool)
      requires Valid()
      requires Frames(blocks, pack).Some? && file.contents == base + Frames(blocks, pack).value
      modifies this, file
      ensures Valid() && seen == old(seen) + [e] && base == old(base)
      ensures |old(pending)| + 1 < blockSize ==>
        && !panicked && blocks == old(blocks) && pending == old(pending) + [e]
        && file.contents == old(file.contents)
      ensures |old(pending)| + 1 >= blockSize ==>
        && pending == [] && blocks == old(blocks) + [old(pending) + [e]]
        && (panicked <==> !(pack(old(pending) + [e]).Some? && dataOk && lengthOk))
        && file.contents == old(file.contents) + WrittenBytes(pack(old(pending) + [e]), dataOk, lengthOk)
      ensures !panicked ==> Frames(blocks, pack).Some? && file.contents == base + Frames(blocks, pack).value
    {
      ghost var done := blocks;
      BatchSnoc(seen, e, blockSize);
      pending := pending + [e];
      seen := seen + [e];
      if |pending| >= blockSize {
        var block := pending;
        blocks := blocks + [block];
        var err := file.WriteBlock(pack(block), dataOk, lengthOk);
        if err.None? {
          FramesAppended(base, done, block, pack, file.contents);
        }
        pending := [];
        panicked := err.Some?;
      } else {
        panicked := false;
      }
    }

    /** The loop of `writeEvents` over what arrives on the two channels. It
        panics at `make` for a negative block size, or at the first block
        that fails to pack or to be written; otherwise it appends to the
        file the frames of the completed blocks. */
    method WriteEvents(inputs: seq<Input>, pack: seq<Ev> -> Option<Bytes>) returns (panicked: bool)
      requires Valid() && seen == [] && pending == [] && blocks == []
      modifies this, file
      ensures Valid() && seen <= Received(inputs)
      ensures blockSize < 0 ==> panicked && file.contents == old(file.contents)
      ensures !panicked ==>
        && seen == Received(inputs)
        && Frames(blocks, pack).Some? && file.contents == old(file.contents) + Frames(blocks, pack).value
      ensures panicked && blockSize >= 0 ==> FailedBlock(inputs, seen, blocks, pack, old(file.contents), file.contents)
      ensures blockSize >= 0 && WritesSucceed(inputs) && Frames(Batch(Received(inputs), blockSize).0, pack).Some?
              ==> !panicked
    {
      if blockSize < 0 {
        // `make([]*ev.Ev, 0, a.blockSize)` panics on a negative capacity.
        return true;
      }
      base := file.contents;
      var i := 0;
      while i < |inputs| && inputs[i].Event?
        invariant 0 <= i <= |inputs|
        invariant Valid() && base == old(file.contents)
        invariant seen == Received(inputs[..i])
        invariant forall k :: 0 <= k < i ==> inputs[k].Event?
        invariant Frames(blocks, pack).Some? && file.contents == base + Frames(blocks, pack).value
      {
        ghost var before, block := blocks, pending + [inputs[i].e];
        ReceivedSnoc(inputs, i);
        panicked := Append(inputs[i].e, inputs[i].dataOk, inputs[i].lengthOk, pack);
        if panicked {
          Failed(inputs, i, pack, before, block, seen, base, file.contents);
          FailedCause(inputs, i, blockSize, pack, before, block);
          return;
        }
        i := i + 1;
      }
      ReceivedStop(inputs, i);
      panicked := false;
    }
  }

  /** The state a panic at a block leaves: the block is the last one
      completed from what was received, and it failed to pack or its data
      or length write failed; every earlier block packed, and the file holds
      the frames of the earlier blocks followed by what `writeBlock` wrote
      for the failed one. */
  ghost predicate FailedBlock(inputs: seq<Input>, seen: seq<Ev>, blocks: seq<seq<Ev>>,
                              pack: seq<Ev> -> Option<Bytes>, start: Bytes, contents: Bytes)
  {
    && 0 < |seen| <= |inputs| && inputs[|seen| - 1].Event? && blocks != []
    && var b := blocks[|blocks| - 1];
       var last := inputs[|seen| - 1];
       && !(pack(b).Some? && last.dataOk && last.lengthOk)
       && Frames(blocks[..|blocks| - 1], pack).Some?
       && contents == start + Frames(blocks[..|blocks| - 1], pack).value + WrittenBytes(pack(b), last.dataOk, last.lengthOk)
  }

  /** A block that panics within the loop leaves the state `FailedBlock`
      describes. */
  lemma Failed(inputs: seq<Input>, i: nat, pack: seq<Ev> -> Option<Bytes>,
               before: seq<seq<Ev>>, failed: seq<Ev>, seen: seq<Ev>, start: Bytes, contents: Bytes)
    requires i < |inputs| && forall k :: 0 <= k <= i ==> inputs[k].Event?
    requires seen == Received(inputs[..i + 1])
    requires Frames(before, pack).Some?
    requires !(pack(failed).Some? && inputs[i].dataOk && inputs[i].lengthOk)
    requires contents == start + Frames(before, pack).value
                         + WrittenBytes(pack(failed), inputs[i].dataOk, inputs[i].lengthOk)
    ensures seen <= Received(inputs)
    ensures FailedBlock(inputs, seen, before + [failed], pack, start, contents)
  {
    ReceivedPrefix(inputs, i + 1);
    var bs := before + [failed];
    assert bs[..|bs| - 1] == before;
    assert bs[|bs| - 1] == failed;
    assert inputs[|seen| - 1] == inputs[i];
  }

  /** Only a failed write, or a block of what was received that does not
      pack, makes a block panic. */
  lemma FailedCause(inputs: seq<Input>, i: nat, blockSize: int, pack: seq<Ev> -> Option<Bytes>,
                    before: seq<seq<Ev>>, failed: seq<Ev>)
    requires i < |inputs| && forall k :: 0 <= k <= i ==> inputs[k].Event?
    requires Batch(Received(inputs[..i + 1]), blockSize).0 == before + [failed]
    requires !(pack(failed).Some? && inputs[i].dataOk && inputs[i].lengthOk)
    ensures !(WritesSucceed(inputs) && Frames(Batch(Received(inputs), blockSize).0, pack).Some?)
  {
    ReceivedBlocksPrefix(inputs, i + 1, blockSize);
    var all := Batch(Received(inputs), blockSize).0;
    FramesPack(all, pack);
    assert all[..|before| + 1] == before + [failed];
    assert all[|before|] == failed;
  }

  /** The first `n` events, all received before any cancellation, are the
      first `n` events received. */
  lemma {:induction false} ReceivedPrefix(inputs: seq<Input>, n: nat)
    requires n <= |inputs| && forall k :: 0 <= k < n ==> inputs[k].Event?
    ensures |Received(inputs[..n])| == n
    ensures Received(inputs[..n]) <= Received(inputs)
    decreases n
  {
    if n > 0 {
      assert inputs[..n][1..] == inputs[1..][..n - 1];
      ReceivedPrefix(inputs[1..], n - 1);
    }
  }

  /** Completing more events only adds blocks at the end. */
  lemma {:induction false} BatchGrows(evs: seq<Ev>, k: nat, blockSize: int)
    requires k <= |evs|
    ensures Batch(evs[..k], blockSize).0 <= Batch(evs, blockSize).0
    decreases |evs|
  {
    if k < |evs| {
      var init := evs[..|evs| - 1];
      assert init[..k] == evs[..k];
      BatchGrows(init, k, blockSize);
    } else {
      assert evs[..k] == evs;
    }
  }

  /** The blocks completed by any point of the loop are the first blocks
      of everything received. */
  lemma ReceivedBlocksPrefix(inputs: seq<Input>, n: nat, blockSize: int)
    requires n <= |inputs| && forall k :: 0 <= k < n ==> inputs[k].Event?
    ensures |Received(inputs[..n])| == n
    ensures Batch(Received(inputs[..n]), blockSize).0 <= Batch(Received(inputs), blockSize).0
  {
    ReceivedPrefix(inputs, n);
    assert Received(inputs)[..n] == Received(inputs[..n]);
    BatchGrows(Received(inputs), n, blockSize);
  }

  lemma BatchSnoc(evs: seq<Ev>, e: Ev, blockSize: int)
    ensures var prev := Batch(evs, blockSize);
      var pending := prev.1 + [e];
      Batch(evs + [e], blockSize) == if |pending| >= blockSize then (prev.0 + [pending], []) else (prev.0, pending)
  {
    assert (evs + [e])[..|evs|] == evs;
  }

  /** Writing the frame of one more packed block after the frames of the
      earlier ones gives the frames of all of them. */
  lemma FramesAppended(start: Bytes, bs: seq<seq<Ev>>, b: seq<Ev>, pack: seq<Ev> -> Option<Bytes>, contents: Bytes)
    requires Frames(bs, pack).Some? && pack(b).Some?
    requires contents == start + Frames(bs, pack).value + BlockFrame(pack(b).value)
    ensures Frames(bs + [b], pack).Some? && contents == start + Frames(bs + [b], pack).value
  {
    assert (bs + [b])[..|bs|] == bs;
    AppendAssoc(start, Frames(bs, pack).value, BlockFrame(pack(b).value));
  }

  lemma {:induction false} ReceivedSnoc(inputs: seq<Input>, i: nat)
    requires i < |inputs| && inputs[i].Event?
    requires forall k :: 0 <= k < i ==> inputs[k].Event?
    ensures Received(inputs[..i + 1]) == Received(inputs[..i]) + [inputs[i].e]
    decreases i
  {
    if i > 0 {
      assert inputs[..i + 1][1..] == inputs[1..][..i];
      assert inputs[..i][1..] == inputs[1..][..i - 1];
      ReceivedSnoc(inputs[1..], i - 1);
    }
  }

  lemma {:induction false} ReceivedStop(inputs: seq<Input>, i: nat)
    requires i <= |inputs| && (i == |inputs| || inputs[i].Cancel?)
    requires forall k :: 0 <= k < i ==> inputs[k].Event?
    ensures Received(inputs[..i]) == Received(inputs)
    decreases i
  {
    if i == |inputs| {
      assert inputs[..i] == inputs;
    } else if i > 0 {
      assert inputs[..i][1..] == inputs[1..][..i - 1];
      ReceivedStop(inputs[1..], i - 1);
    }
  }

  // ---- Reading backwards (report/read.go) ----

  /** How the backward scan ends: at the start of the file, at a length
      that fails validation (reading stops without an error), or in a
      panic because fewer than 4 bytes remain and the seek goes before the
      start of the file. */
  datatype Stop = Clean | InvalidLength | SeekPanic

  /** The payloads found scanning back from offset `end`, in visiting
      order, and how the scan stops. */
  function ScanBack(file: Bytes, end: nat): (r: (seq<Bytes>, Stop))
    requires end <= |file|
    decreases end
  {
    if end == 0 then ([], Clean)
    else if end < 4 then ([], SeekPanic)
    else
      var length := Uint32At(file[end - 4..end]);
      if length <= 0 || length > end - 4 then ([], InvalidLength)
      else
        var start := end - 4 - length;
        var rest := ScanBack(file, start);
        ([file[start..end - 4]] + rest.0, rest.1)
  }

  /** How `readEventsFromFile` ends: normally (at the start of the file or
      at an invalid length), or in a panic. */
  datatype Outcome = Finished(stop: Stop) | SeekFailed | UnpackFailed

  /** What reading the block that ends at offset `end > 0` gives: the
      events of a valid block and where it starts, or how the run ends.
      `unpack` is gunzip followed by `proto.Unmarshal` of a block (None
      when either fails, which panics). */
  datatype Step = Halt(outcome: Outcome) | Next(evs: seq<Ev>, start: nat)

  function StepBack(file: Bytes, end: nat, unpack: Bytes -> Option<seq<Ev>>): (s: Step)
    requires 0 < end <= |file|
    ensures s.Next? ==> s.start < end
  {
    if end < 4 then Halt(SeekFailed)
    else
      var length := Uint32At(file[end - 4..end]);
      if length <= 0 || length > end - 4 then Halt(Finished(InvalidLength))
      else
        var start := end - 4 - length;
        var evs := unpack(file[start..end - 4]);
        if evs.None? then Halt(UnpackFailed) else Next(evs.value, start)
  }

  /** The events the reader sends from offset `end` backwards, and how the
      run ends. */
  function ReadBack(file: Bytes, end: nat, unpack: Bytes -> Option<seq<Ev>>): (r: (seq<Ev>, Outcome))
    requires end <= |file|
    decreases end
  {
    if end == 0 then ([], Finished(Clean))
    else
      match StepBack(file, end, unpack)
      case Halt(outcome) => ([], outcome)
      case Next(evs, start) =>
        var rest := ReadBack(file, start, unpack);
        (evs + rest.0, rest.1)
  }

  /** The statistics fields of the report runner that `readEventsFromFile`
      updates. */
  class Runner {
    var currentReportEventCount: uint32
    var lastReportEventCount: uint32
    var fileSize: int

    constructor ()
      ensures currentReportEventCount == 0 && lastReportEventCount == 0 && fileSize == 0
    {
      currentReportEventCount, lastReportEventCount, fileSize := 0, 0, 0;
    }

    /** `readEventsFromFile` on the whole file `file`: `sent` is what goes
        on the events channel. Unless it panics, the counters end equal to
        the number of events sent (as a wrapping uint32). */
    method ReadEventsFromFile(file: Bytes, unpack: Bytes -> Option<seq<Ev>>)
      returns (sent: seq<Ev>, outcome: Outcome)
      requires |file| < TWO_TO_THE_63
      modifies this
      ensures (sent, outcome) == ReadBack(file, |file|, unpack)
      ensures fileSize == |file|
      ensures currentReportEventCount == ToUint32(|sent|)
      ensures outcome.Finished? ==> lastReportEventCount == currentReportEventCount
      ensures !outcome.Finished? ==> lastReportEventCount == old(lastReportEventCount)
    {
      currentReportEventCount := 0;
      var size := |file|;
      fileSize := size;
      sent := [];
      assert [] + ReadBack(file, size, unpack).0 == ReadBack(file, |file|, unpack).0;
      while size > 0
        invariant 0 <= size <= |file|
        invariant ReadBack(file, |file|, unpack).0 == sent + ReadBack(file, size, unpack).0
        invariant ReadBack(file, |file|, unpack).1 == ReadBack(file, size, unpack).1
        invariant currentReportEventCount == ToUint32(|sent|)
        invariant fileSize == |file| && lastReportEventCount == old(lastReportEventCount)
        decreases size
      {
        ghost var step := StepBack(file, size, unpack);
        var offset := size - 4;
        if offset < 0 {
          // `file.Seek` to a negative offset fails, and the reader panics.
          assert step == Halt(SeekFailed);
          ReadBackHalts(file, size, unpack, sent);
          return sent, SeekFailed;
        }
        var length := Uint32At(file[offset..size]);
        if length <= 0 || length > size - 4 {
          assert step == Halt(Finished(InvalidLength));
          ReadBackHalts(file, size, unpack, sent);
          break;
        }
        offset := offset - length;
        // The length check makes the panic branch on a negative offset dead.
        assert offset >= 0;
        var block := file[offset..offset + length];
        var evs := unpack(block);
        if evs.None? {
          assert step == Halt(UnpackFailed);
          ReadBackHalts(file, size, unpack, sent);
          return sent, UnpackFailed;
        }
        assert step == Next(evs.value, offset);
        ReadBackStep(file, size, unpack, sent);
        CountUp(currentReportEventCount, sent, evs.value);
        currentReportEventCount := ToUint32(currentReportEventCount + ToUint32(|evs.value|));
        sent := sent + evs.value;
        size := offset;
      }
      assert sent + [] == sent;
      outcome := ReadBack(file, size, unpack).1;
      lastReportEventCount := currentReportEventCount;
    }
  }

  /** A block that ends the run sends nothing more. */
  lemma ReadBackHalts(file: Bytes, size: nat, unpack: Bytes -> Option<seq<Ev>>, sent: seq<Ev>)
    requires 0 < size <= |file| && StepBack(file, size, unpack).Halt?
    ensures sent + ReadBack(file, size, unpack).0 == sent
    ensures ReadBack(file, size, unpack).1 == StepBack(file, size, unpack).outcome
  {
    assert sent + [] == sent;
  }

  /** One block of the backward read: its events come first, then those
      of the blocks before it. */
  lemma ReadBackStep(file: Bytes, size: nat, unpack: Bytes -> Option<seq<Ev>>, sent: seq<Ev>)
    requires 0 < size <= |file| && StepBack(file, size, unpack).Next?
    ensures var step := StepBack(file, size, unpack);
      && sent + ReadBack(file, size, unpack).0 == (sent + step.evs) + ReadBack(file, step.start, unpack).0
      && ReadBack(file, size, unpack).1 == ReadBack(file, step.start, unpack).1
  {
    var step := StepBack(file, size, unpack);
    var rest := ReadBack(file, step.start, unpack).0;
    assert ReadBack(file, size, unpack).0 == step.evs + rest;
    AppendAssoc(sent, step.evs, rest);
  }

  /** The counter after one more block: a wrapping count of everything
      sent so far. */
  lemma CountUp(count: uint32, sent: seq<Ev>, more: seq<Ev>)
    requires count == ToUint32(|sent|)
    ensures ToUint32(count + ToUint32(|more|)) == ToUint32(|sent + more|)
  {
    AddUint32(|sent|, |more|);
  }

  /** The events of the blocks, in the order given. */
  function Concat(bs: seq<seq<Ev>>): seq<Ev>
    decreases |bs|
  {
    if bs == [] then [] else bs[0] + Concat(bs[1..])
  }

  function Reverse<T>(xs: seq<T>): (r: seq<T>)
    ensures |r| == |xs|
    decreases |xs|
  {
    if xs == [] then [] else [xs[|xs| - 1]] + Reverse(xs[..|xs| - 1])
  }

  /** The reader looks only at the bytes before `end`. */
  lemma {:induction false} ScanBackPrefix(file: Bytes, more: Bytes, end: nat)
    requires end <= |file|
    ensures ScanBack(file + more, end) == ScanBack(file, end)
    decreases end
  {
    if end >= 4 {
      assert (file + more)[end - 4..end] == file[end - 4..end];
      var length := Uint32At(file[end - 4..end]);
      if 0 < length <= end - 4 {
        assert (file + more)[end - 4 - length..end - 4] == file[end - 4 - length..end - 4];
        ScanBackPrefix(file, more, end - 4 - length);
      }
    }
  }

  /** Round trip of the framing: scanning a file made of the frames of
      payloads p1..pk (each non-empty and under 4 GiB) visits pk..p1, each
      exactly once, and ends cleanly at the start of the file. */
  lemma {:induction false} ScanBackFrames(ps: seq<Bytes>)
    requires forall p :: p in ps ==> 0 < |p| < TWO_TO_THE_32
    ensures ScanBack(BlockFrames(ps), |BlockFrames(ps)|) == (Reverse(ps), Clean)
    decreases |ps|
  {
    if ps != [] {
      var init := ps[..|ps| - 1];
      var p := ps[|ps| - 1];
      assert forall q :: q in init ==> q in ps;
      ScanBackFrames(init);
      ScanBackLast(BlockFrames(init), p);
    }
  }

  /** Scanning back over one more frame visits its payload first. */
  lemma ScanBackLast(prefix: Bytes, p: Bytes)
    requires 0 < |p| < TWO_TO_THE_32
    ensures var file := prefix + BlockFrame(p);
      ScanBack(file, |file|) == ([p] + ScanBack(prefix, |prefix|).0, ScanBack(prefix, |prefix|).1)
  {
    var file := prefix + BlockFrame(p);
    var end := |file|;
    assert file[end - 4..end] == PutUint32(|p|);
    Uint32AtPut(|p|);
    assert file[end - 4 - |p|..end - 4] == p;
    ScanBackPrefix(prefix, BlockFrame(p), |prefix|);
  }

  /** Block by block, the reader sends the unpacked events of each visited
      block, blocks in visiting order and events in their stored order. */
  lemma {:induction false} ReadBackFollowsScan(file: Bytes, end: nat, unpack: Bytes -> Option<seq<Ev>>, blocks: seq<seq<Ev>>)
    requires end <= |file|
    requires |blocks| == |ScanBack(file, end).0|
    requires forall i :: 0 <= i < |blocks| ==> unpack(ScanBack(file, end).0[i]) == Some(blocks[i])
    ensures ReadBack(file, end, unpack).0 == Concat(blocks)
    ensures ReadBack(file, end, unpack).1 == match ScanBack(file, end).1
      case SeekPanic => SeekFailed
      case other => Finished(other)
    decreases end
  {
    if end >= 4 {
      var length := Uint32At(file[end - 4..end]);
      if 0 < length <= end - 4 {
        var start := end - 4 - length;
        assert ScanBack(file, end).0 == [file[start..end - 4]] + ScanBack(file, start).0;
        assert unpack(file[start..end - 4]) == Some(blocks[0]);
        ReadBackFollowsScan(file, start, unpack, blocks[1..]);
      }
    }
  }

  /** End to end: when every block's packing unpacks to its events, reading
      a file written block by block sends the events of the last block
      first, and within each block the events in the order they arrived;
      the run ends cleanly. */
  lemma WriteThenRead(bs: seq<seq<Ev>>, pack: seq<Ev> -> Option<Bytes>, unpack: Bytes -> Option<seq<Ev>>)
    requires forall b :: b in bs ==> pack(b).Some? && 0 < |pack(b).value| < TWO_TO_THE_32
    requires forall b :: b in bs ==> unpack(pack(b).value) == Some(b)
    ensures var file := BlockFrames(PackAll(bs, pack));
      ReadBack(file, |file|, unpack) == (Concat(Reverse(bs)), Finished(Clean))
  {
    var ps := PackAll(bs, pack);
    PackAllAt(bs, pack);
    assert forall p :: p in ps ==> 0 < |p| < TWO_TO_THE_32 by {
      forall p | p in ps ensures 0 < |p| < TWO_TO_THE_32 {
        var i :| 0 <= i < |ps| && ps[i] == p;
        assert bs[i] in bs;
      }
    }
    ScanBackFrames(ps);
    var file := BlockFrames(ps);
    UnpackReversed(bs, ps, pack, unpack);
    ReadBackFollowsScan(file, |file|, unpack, Reverse(bs));
  }

  lemma UnpackReversed(bs: seq<seq<Ev>>, ps: seq<Bytes>, pack: seq<Ev> -> Option<Bytes>, unpack: Bytes -> Option<seq<Ev>>)
    requires |ps| == |bs|
    requires forall i :: 0 <= i < |bs| ==> pack(bs[i]) == Some(ps[i])
    requires forall b :: b in bs ==> pack(b).Some? && unpack(pack(b).value) == Some(b)
    ensures forall i :: 0 <= i < |bs| ==> unpack(Reverse(ps)[i]) == Some(Reverse(bs)[i])
  {
    forall i | 0 <= i < |bs|
      ensures unpack(Reverse(ps)[i]) == Some(Reverse(bs)[i])
    {
      ReverseAt(ps, i);
      ReverseAt(bs, i);
      assert bs[|bs| - 1 - i] in bs;
    }
  }

  lemma {:induction false} PackAllAt(bs: seq<seq<Ev>>, pack: seq<Ev> -> Option<Bytes>)
    requires forall b :: b in bs ==> pack(b).Some?
    ensures |PackAll(bs, pack)| == |bs|
    ensures forall i :: 0 <= i < |bs| ==> pack(bs[i]) == Some(PackAll(bs, pack)[i])
    decreases |bs|
  {
    if bs != [] {
      var init := bs[..|bs| - 1];
      assert forall b :: b in init ==> b in bs;
      PackAllAt(init, pack);
    }
  }

  lemma {:induction false} ReverseAt<T>(xs: seq<T>, i: nat)
    requires i < |xs|
    ensures Reverse(xs)[i] == xs[|xs| - 1 - i]
    decreases |xs|
  {
    if i > 0 {
      ReverseAt(xs[..|xs| - 1], i - 1);
    }
  }
}
