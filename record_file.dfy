/** The per-event storage format: each event is stored as its marshalled
    bytes behind a uvarint length prefix. Written by `app/app.go`
    (`writeEvent`) and `main.go` (`writeEventsToFile`), read back by
    `report/runner.go` (`readEvents`). Protobuf marshalling is opaque: the
    writer is handed its outcome, the reader is handed an unmarshal function. */
module RecordFile {
  import opened Wrappers
  import opened Ints
  import opened Ev
  import Uvarint

  /** A Go byte slice: its length is an `int`. */
  type Payload = b: Bytes | |b| < TWO_TO_THE_63

  /** One stored record: uvarint(len(data)) followed by the data. */
  function Frame(data: Payload): (f: Bytes)
    ensures |data| < |f| <= |data| + Uvarint.MAX_LEN
  {
    Uvarint.ReadEncode(|data|, data);
    Uvarint.Encode(|data|) + data
  }

  function Frames(ps: seq<Payload>): Bytes {
    if ps == [] then [] else Frame(ps[0]) + Frames(ps[1..])
  }

  /** The output file with its buffered writer, as the bytes written so far. */
  class EventFile {
    var contents: Bytes

    constructor ()
      ensures contents == []
    {
      contents := [];
    }

    /** `writeEvent` (app/app.go): marshal, then one write of prefix and
        data; `marshalled` is the outcome of `proto.Marshal` (None for an
        error) and `writeOk` that of the write. A failed step writes nothing
        and is reported. */
    method WriteEvent(marshalled: Option<Payload>, writeOk: bool) returns (ok: bool)
      modifies this
      ensures ok <==> marshalled.Some? && writeOk
      ensures contents == old(contents) + (if ok then Frame(marshalled.value) else [])
    {
      if marshalled.None? {
        return false;
      }
      var data := marshalled.value;
      var buf: Bytes := [];
      buf := buf + Uvarint.Encode(|data|);
      buf := buf + data;
      if !writeOk {
        return false;
      }
      contents := contents + buf;
      ok := true;
    }

    /** The loop of `writeEventsToFile` (main.go) over the events received;
        a failure skips that event only. */
    method WriteEventsToFile(attempts: seq<Attempt>)
      modifies this
      ensures contents == old(contents) + Frames(Stored(attempts))
    {
      var i := 0;
      while i < |attempts|
        invariant 0 <= i <= |attempts|
        invariant contents == old(contents) + Frames(Stored(attempts[..i]))
      {
        ghost var before := contents;
        var ok := WriteEvent(attempts[i].marshalled, attempts[i].writeOk);
        WrittenStep(old(contents), attempts, i, before, contents);
        i := i + 1;
      }
      assert attempts[..i] == attempts;
    }
  }

  /** One event handed to the writer: the outcome of marshalling it and of
      writing its frame. */
  datatype Attempt = Attempt(marshalled: Option<Payload>, writeOk: bool) {
    predicate Succeeds() {
      marshalled.Some? && writeOk
    }
  }

  /** The payloads of the attempts that succeed, in order. */
  function Stored(attempts: seq<Attempt>): seq<Payload> {
    if attempts == [] then []
    else
      var a := attempts[|attempts| - 1];
      Stored(attempts[..|attempts| - 1]) + (if a.Succeeds() then [a.marshalled.value] else [])
  }

  lemma {:induction false} FramesAppend(ps: seq<Payload>, qs: seq<Payload>)
    ensures Frames(ps + qs) == Frames(ps) + Frames(qs)
  {
    if ps == [] {
      assert ps + qs == qs;
    } else {
      assert (ps + qs)[0] == ps[0];
      assert (ps + qs)[1..] == ps[1..] + qs;
      FramesAppend(ps[1..], qs);
    }
  }

  /** The file after one more attempt of the writing loop. */
  lemma WrittenStep(start: Bytes, attempts: seq<Attempt>, i: nat, before: Bytes, after: Bytes)
    requires i < |attempts|
    requires before == start + Frames(Stored(attempts[..i]))
    requires after == before + (if attempts[i].Succeeds() then Frame(attempts[i].marshalled.value) else [])
    ensures after == start + Frames(Stored(attempts[..i + 1]))
  {
    var written := Frames(Stored(attempts[..i]));
    var frame := if attempts[i].Succeeds() then Frame(attempts[i].marshalled.value) else [];
    StoredStep(attempts, i);
    calc {
      after;
      (start + written) + frame;
      { AppendAssoc(start, written, frame); }
      start + (written + frame);
      start + Frames(Stored(attempts[..i + 1]));
    }
  }

  lemma StoredStep(attempts: seq<Attempt>, i: nat)
    requires i < |attempts|
    ensures var a := attempts[i];
      Frames(Stored(attempts[..i + 1]))
        == Frames(Stored(attempts[..i])) + (if a.Succeeds() then Frame(a.marshalled.value) else [])
  {
    var a := attempts[i];
    assert attempts[..i + 1][..i] == attempts[..i];
    if a.Succeeds() {
      FramesAppend(Stored(attempts[..i]), [a.marshalled.value]);
      assert Frames([a.marshalled.value]) == Frame(a.marshalled.value) + Frames([]);
    } else {
      assert Stored(attempts[..i]) + [] == Stored(attempts[..i]);
    }
  }

  // ---- Reading (report/runner.go) ----

  /** Why `readEvents` panics. */
  datatype Panic = BadLength | ShortPayload | BadMessage

  /** One step of the reader at offset `pos`: clean end of file, a panic, or
      a payload and the offset after it. */
  datatype Step = End | Fail(why: Panic) | Record(payload: Bytes, next: nat)

  function NextRecord(s: Bytes, pos: nat): (st: Step)
    requires pos <= |s|
    ensures st.Record? ==> pos < st.next <= |s| && |st.payload| < st.next - pos
    ensures st.Record? ==> st.payload == s[st.next - |st.payload|..st.next]
  {
    match Uvarint.Read(s[pos..])
    case Eof => End
    case UnexpectedEof => Fail(BadLength)
    case Overflow => Fail(BadLength)
    case Value(len, n) =>
      if pos + n + len > |s| then Fail(ShortPayload)
      else Record(s[pos + n..pos + n + len], pos + n + len)
  }

  /** The framing alone: the payloads found from `pos` up to the first
      failure, and that failure if there is one. */
  function DecodeFrom(s: Bytes, pos: nat): (r: (seq<Bytes>, Option<Panic>))
    requires pos <= |s|
    decreases |s| - pos
  {
    match NextRecord(s, pos)
    case End => ([], None)
    case Fail(why) => ([], Some(why))
    case Record(p, next) => var rest := DecodeFrom(s, next); ([p] + rest.0, rest.1)
  }

  /** What the reader delivers from `pos`: the unmarshalled events up to the
      first panic, and that panic if there is one. */
  function ReadFrom(s: Bytes, pos: nat, unmarshal: Bytes -> Option<Ev>): (r: (seq<Ev>, Option<Panic>))
    requires pos <= |s|
    decreases |s| - pos
  {
    match NextRecord(s, pos)
    case End => ([], None)
    case Fail(why) => ([], Some(why))
    case Record(p, next) =>
      if unmarshal(p).None? then ([], Some(BadMessage))
      else var rest := ReadFrom(s, next, unmarshal); ([unmarshal(p).value] + rest.0, rest.1)
  }

  lemma {:induction false} DecodeFramesAt(ps: seq<Payload>, pre: Bytes)
    ensures DecodeFrom(pre + Frames(ps), |pre|) == (ps, None)
    decreases |ps|
  {
    var s := pre + Frames(ps);
    if ps == [] {
      assert s[|pre|..] == [];
    } else {
      var p := ps[0];
      var tail := Frames(ps[1..]);
      assert s == (pre + Frame(p)) + tail;
      FrameIsRecord(pre, p, tail);
      DecodeFramesAt(ps[1..], pre + Frame(p));
      assert ps == [p] + ps[1..];
    }
  }

  /** A frame after `pre` is read back as one record ending where the frame
      ends. */
  lemma FrameIsRecord(pre: Bytes, p: Payload, tail: Bytes)
    ensures |pre| <= |(pre + Frame(p)) + tail|
    ensures NextRecord((pre + Frame(p)) + tail, |pre|) == Record(p, |pre + Frame(p)|)
  {
    var s := (pre + Frame(p)) + tail;
    var e := Uvarint.Encode(|p|);
    var n := |e|;
    assert s[|pre|..] == e + (p + tail);
    Uvarint.ReadEncode(|p|, p + tail);
    assert s[|pre| + n..|pre| + n + |p|] == p;
  }

  /** Round trip: reading a file made of frames yields exactly the framed
      payloads, in order, and ends cleanly. */
  lemma DecodeFrames(ps: seq<Payload>)
    ensures DecodeFrom(Frames(ps), 0) == (ps, None)
  {
    DecodeFramesAt(ps, []);
    assert [] + Frames(ps) == Frames(ps);
  }

  /** When every payload unmarshals, the reader delivers exactly the
      unmarshalled events of the framing, in file order. */
  lemma {:induction false} ReadFollowsFraming(s: Bytes, pos: nat, unmarshal: Bytes -> Option<Ev>)
    requires pos <= |s|
    requires forall p :: p in DecodeFrom(s, pos).0 ==> unmarshal(p).Some?
    ensures |ReadFrom(s, pos, unmarshal).0| == |DecodeFrom(s, pos).0|
    ensures ReadFrom(s, pos, unmarshal).1 == DecodeFrom(s, pos).1
    ensures forall i :: 0 <= i < |DecodeFrom(s, pos).0| ==>
              Some(ReadFrom(s, pos, unmarshal).0[i]) == unmarshal(DecodeFrom(s, pos).0[i])
    decreases |s| - pos
  {
    match NextRecord(s, pos)
    case End =>
    case Fail(_) =>
    case Record(p, next) =>
      assert p == DecodeFrom(s, pos).0[0];
      assert DecodeFrom(s, pos).0 == [p] + DecodeFrom(s, next).0;
      ReadFollowsFraming(s, next, unmarshal);
  }

  /** What a job's channel sees: an event, or the close. */
  datatype Delivery = Send(job: nat, e: Ev) | Close(job: nat)

  /** Every event to every job, jobs in list order, events in file order. */
  function FanOut(evs: seq<Ev>, jobs: nat): seq<Delivery>
  {
    if evs == [] then [] else SendAll(evs[0], jobs) + FanOut(evs[1..], jobs)
  }

  function SendAll(e: Ev, jobs: nat): (log: seq<Delivery>)
    ensures |log| == jobs
  {
    if jobs == 0 then [] else SendAll(e, jobs - 1) + [Send(jobs - 1, e)]
  }

  function CloseAll(jobs: nat): (log: seq<Delivery>)
    ensures |log| == jobs
  {
    if jobs == 0 then [] else CloseAll(jobs - 1) + [Close(jobs - 1)]
  }

  /** `readEvents`: decode record after record, send each event to every
      job, and close every job's stream at the clean end of the file. A
      panic ends the run with the events sent so far and no stream closed. */
  method ReadEvents(file: Bytes, jobs: nat, unmarshal: Bytes -> Option<Ev>)
    returns (log: seq<Delivery>, panicked: Option<Panic>)
    ensures panicked == ReadFrom(file, 0, unmarshal).1
    ensures log == FanOut(ReadFrom(file, 0, unmarshal).0, jobs) + (if panicked.None? then CloseAll(jobs) else [])
  {
    ghost var sent: seq<Ev> := [];
    log := [];
    var step := ReadRecord(file, 0, unmarshal);
    var pos := 0;
    assert [] + ReadFrom(file, 0, unmarshal).0 == ReadFrom(file, 0, unmarshal).0;
    while step.Got?
      invariant pos <= |file|
      invariant step.Got? ==> pos < step.next <= |file|
      invariant ReadFrom(file, 0, unmarshal).0 == sent + ReadFrom(file, pos, unmarshal).0
      invariant ReadFrom(file, 0, unmarshal).1 == ReadFrom(file, pos, unmarshal).1
      invariant ReadStep(file, pos, unmarshal, step)
      invariant log == FanOut(sent, jobs)
      decreases |file| - pos
    {
      ghost var rest := ReadFrom(file, step.next, unmarshal).0;
      AppendAssoc(sent, [step.e], rest);
      log := SendToEveryJob(log, step.e, jobs);
      FanOutSnoc(sent, step.e, jobs);
      sent := sent + [step.e];
      pos := step.next;
      step := ReadRecord(file, pos, unmarshal);
    }
    assert sent + [] == sent;
    if step.Stop? {
      return log, Some(step.why);
    }
    log := CloseEveryJob(log, jobs);
    panicked := None;
  }

  /** How one iteration's outcome at `pos` determines what is read from there. */
  ghost predicate ReadStep(file: Bytes, pos: nat, unmarshal: Bytes -> Option<Ev>, step: EventStep)
    requires pos <= |file|
  {
    && (step.Done? ==> ReadFrom(file, pos, unmarshal) == ([], None))
    && (step.Stop? ==> ReadFrom(file, pos, unmarshal) == ([], Some(step.why)))
    && (step.Got? ==> pos < step.next <= |file|)
    && (step.Got? ==>
          ReadFrom(file, pos, unmarshal) == ([step.e] + ReadFrom(file, step.next, unmarshal).0, ReadFrom(file, step.next, unmarshal).1))
  }

  /** The outcome of one iteration of the reading loop. */
  datatype EventStep = Done | Stop(why: Panic) | Got(e: Ev, next: nat)

  /** One iteration: `binary.ReadUvarint` for the length (io.EOF ends the
      loop, any other error panics), `io.ReadFull` of that many bytes
      (a short read panics), then `proto.Unmarshal` (an error panics). */
  method ReadRecord(file: Bytes, pos: nat, unmarshal: Bytes -> Option<Ev>) returns (step: EventStep)
    requires pos <= |file|
    ensures step.Got? ==> pos < step.next <= |file|
    ensures ReadStep(file, pos, unmarshal, step)
  {
    var length := Uvarint.Read(file[pos..]);
    if length.Eof? {
      return Done;
    }
    if !length.Value? {
      return Stop(BadLength);
    }
    if pos + length.n + length.x > |file| {
      return Stop(ShortPayload);
    }
    var next := pos + length.n + length.x;
    var data := file[pos + length.n..next];
    assert NextRecord(file, pos) == Record(data, next);
    var e := unmarshal(data);
    if e.None? {
      return Stop(BadMessage);
    }
    step := Got(e.value, next);
  }

  /** The loop `for _, job := range r.Jobs { job.events <- e }`. */
  method SendToEveryJob(log: seq<Delivery>, e: Ev, jobs: nat) returns (log': seq<Delivery>)
    ensures log' == log + SendAll(e, jobs)
  {
    log' := log;
    var j := 0;
    while j < jobs
      invariant 0 <= j <= jobs
      invariant log' == log + SendAll(e, j)
    {
      log' := log' + [Send(j, e)];
      j := j + 1;
    }
  }

  /** The loop `for _, job := range r.Jobs { close(job.events) }`. */
  method CloseEveryJob(log: seq<Delivery>, jobs: nat) returns (log': seq<Delivery>)
    ensures log' == log + CloseAll(jobs)
  {
    log' := log;
    var j := 0;
    while j < jobs
      invariant 0 <= j <= jobs
      invariant log' == log + CloseAll(j)
    {
      log' := log' + [Close(j)];
      j := j + 1;
    }
  }

  lemma {:induction false} FanOutSnoc(evs: seq<Ev>, e: Ev, jobs: nat)
    ensures FanOut(evs + [e], jobs) == FanOut(evs, jobs) + SendAll(e, jobs)
  {
    if evs == [] {
      assert FanOut([e], jobs) == SendAll(e, jobs) + FanOut([], jobs);
    } else {
      assert (evs + [e])[1..] == evs[1..] + [e];
      FanOutSnoc(evs[1..], e, jobs);
    }
  }

  /** What one job receives out of the whole delivery log. */
  function Received(log: seq<Delivery>, job: nat): seq<Delivery> {
    if log == [] then []
    else (if log[0].job == job then [log[0]] else []) + Received(log[1..], job)
  }

  lemma {:induction false} ReceivedAppend(a: seq<Delivery>, b: seq<Delivery>, job: nat)
    ensures Received(a + b, job) == Received(a, job) + Received(b, job)
  {
    if a == [] {
      assert a + b == b;
    } else {
      var head := if a[0].job == job then [a[0]] else [];
      assert (a + b)[0] == a[0];
      assert (a + b)[1..] == a[1..] + b;
      assert Received(a + b, job) == head + Received(a[1..] + b, job);
      ReceivedAppend(a[1..], b, job);
      assert Received(a, job) == head + Received(a[1..], job);
      AppendAssoc(head, Received(a[1..], job), Received(b, job));
    }
  }

  lemma {:induction false} ReceivedSendAll(e: Ev, jobs: nat, job: nat)
    ensures Received(SendAll(e, jobs), job) == if job < jobs then [Send(job, e)] else []
  {
    if jobs > 0 {
      ReceivedAppend(SendAll(e, jobs - 1), [Send(jobs - 1, e)], job);
      ReceivedSendAll(e, jobs - 1, job);
      assert Received([Send(jobs - 1, e)], job) == (if job == jobs - 1 then [Send(job, e)] else []) + Received([], job);
    }
  }

  lemma {:induction false} ReceivedCloseAll(jobs: nat, job: nat)
    ensures Received(CloseAll(jobs), job) == if job < jobs then [Close(job)] else []
  {
    if jobs > 0 {
      ReceivedAppend(CloseAll(jobs - 1), [Close(jobs - 1)], job);
      ReceivedCloseAll(jobs - 1, job);
      assert Received([Close(jobs - 1)], job) == (if job == jobs - 1 then [Close(job)] else []) + Received([], job);
    }
  }

  /** The sends of `evs` to one job, in order. */
  function SendsTo(evs: seq<Ev>, job: nat): seq<Delivery> {
    if evs == [] then [] else [Send(job, evs[0])] + SendsTo(evs[1..], job)
  }

  /** Each job's stream holds every event, in file order, and nothing else. */
  lemma {:induction false} EachJobGetsEveryEvent(evs: seq<Ev>, jobs: nat, job: nat)
    requires job < jobs
    ensures Received(FanOut(evs, jobs), job) == SendsTo(evs, job)
    ensures Received(FanOut(evs, jobs) + CloseAll(jobs), job) == SendsTo(evs, job) + [Close(job)]
  {
    if evs != [] {
      ReceivedAppend(SendAll(evs[0], jobs), FanOut(evs[1..], jobs), job);
      ReceivedSendAll(evs[0], jobs, job);
      EachJobGetsEveryEvent(evs[1..], jobs, job);
    }
    ReceivedAppend(FanOut(evs, jobs), CloseAll(jobs), job);
    ReceivedCloseAll(jobs, job);
  }
}
