/** The views-per-content-id report in its two versions: `Views.Generate`
    of `report/views.go`, whose time bound comes from a clock, and the
    older one of `report/loads.go`, with a fixed bound. Both count the LOAD
    events per content id up to the first event older than the bound, then
    delete the content ids with fewer views than the cutoff. */
module ViewsReport {
  import opened Wrappers
  import opened Ints
  import opened Ev
  import opened EventStream

  /** `Views` of `report/views.go`; the clock `MinEvTime` is an argument of
      `Generate`. `EstimatedSize` is only a capacity hint. */
  datatype Views = Views(cutoff: int, estimatedSize: int)

  /** `Views` of `report/loads.go`, with its fixed time bound. */
  datatype FixedViews = FixedViews(cutoff: int, estimatedSize: int, minEvTime: uint32)

  /** `Result`: the content, here the map before its JSON encoding, and its
      media type. */
  datatype ViewsResult = ViewsResult(content: map<uint32, uint32>, contentType: string)

  const JSON_CONTENT_TYPE: string := "application/json"

  /** The report: each loaded content id whose uint32 count is at least the
      cutoff converted to uint32, with that count. */
  function ViewCounts(loads: seq<uint32>, cutoff: int): map<uint32, uint32> {
    map c | c in loads && ToUint32(Count(loads, c)) >= ToUint32(cutoff) :: ToUint32(Count(loads, c))
  }

  /** `m` holds, for each loaded content id and no other, its uint32 count. */
  ghost predicate CountsOf(m: map<uint32, uint32>, loads: seq<uint32>) {
    && (forall c :: c in m <==> c in loads)
    && (forall c :: c in m ==> m[c] == ToUint32(Count(loads, c)))
  }

  /** The counting loop: one uint32 counter per content id, incremented for
      each LOAD event before the first event older than the bound. */
  method CountViews(events: seq<Ev>, minEvTime: uint32) returns (cidViews: map<uint32, uint32>)
    ensures forall c :: c in cidViews <==> c in Loaded(events, minEvTime)
    ensures forall c :: c in cidViews ==> cidViews[c] == ToUint32(Count(Loaded(events, minEvTime), c))
  {
    cidViews := map[];
    var i := 0;
    while i < |events|
      invariant i <= FirstOlder(events, minEvTime)
      invariant CountsOf(cidViews, LoadCids(events[..i]))
    {
      var e := events[i];
      if e.time < minEvTime {
        break;
      }
      CountEvent(events, i, cidViews);
      if e.evType == LOAD {
        cidViews := cidViews[e.cid := Inc32(Lookup(cidViews, e.cid, 0))];
      }
      i := i + 1;
    }
    assert i == FirstOlder(events, minEvTime);
  }

  /** Reading the event at `i` counts it when it is a LOAD. */
  lemma CountEvent(events: seq<Ev>, i: nat, m: map<uint32, uint32>)
    requires i < |events| && CountsOf(m, LoadCids(events[..i]))
    ensures var e := events[i];
      CountsOf(if e.evType == LOAD then m[e.cid := Inc32(Lookup(m, e.cid, 0))] else m, LoadCids(events[..i + 1]))
  {
    var e := events[i];
    assert events[..i + 1] == events[..i] + [e];
    LoadCidsSnoc(events[..i], e);
    if e.evType == LOAD {
      assert LoadCids(events[..i + 1]) == LoadCids(events[..i]) + [e.cid];
      CountStep(m, LoadCids(events[..i]), e.cid);
    } else {
      assert LoadCids(events[..i + 1]) == LoadCids(events[..i]);
    }
  }

  /** One more load of `c` adds one to its truncated count and leaves the
      other counts alone. */
  lemma CountStep(m: map<uint32, uint32>, loads: seq<uint32>, c: uint32)
    requires CountsOf(m, loads)
    ensures CountsOf(m[c := Inc32(Lookup(m, c, 0))], loads + [c])
  {
    var m' := m[c := Inc32(Lookup(m, c, 0))];
    forall d | d in m' ensures m'[d] == ToUint32(Count(loads + [c], d)) {
      CountSnoc(loads, c, d);
      if d == c {
        Inc32OfCount(Count(loads, c));
      }
    }
  }

  /** The deletion loop: keeps exactly the entries whose views are at least
      `uint32(cutoff)`, unchanged. The order in which Go visits the keys is
      left open. */
  method DropBelow(cidViews: map<uint32, uint32>, cutoff: int) returns (kept: map<uint32, uint32>)
    ensures forall c :: c in kept <==> c in cidViews && cidViews[c] >= ToUint32(cutoff)
    ensures forall c :: c in kept ==> kept[c] == cidViews[c]
  {
    kept := cidViews;
    var todo := cidViews.Keys;
    while todo != {}
      invariant todo <= cidViews.Keys
      invariant forall c :: c in kept <==> c in cidViews && (c in todo || cidViews[c] >= ToUint32(cutoff))
      invariant forall c :: c in kept ==> kept[c] == cidViews[c]
      decreases |todo|
    {
      var c :| c in todo;
      if kept[c] < ToUint32(cutoff) {
        kept := kept - {c};
      }
      todo := todo - {c};
    }
  }

  /** `Views.Generate` of `report/views.go`, with the clock's reading
      `minEvTimeUnix` in Unix seconds. */
  method Generate(v: Views, events: seq<Ev>, minEvTimeUnix: int) returns (r: ViewsResult)
    ensures r.contentType == JSON_CONTENT_TYPE
    ensures r.content == ViewCounts(Loaded(events, ToUint32(minEvTimeUnix)), v.cutoff)
  {
    var minEvTime := ToUint32(minEvTimeUnix);
    var cidViews := CountViews(events, minEvTime);
    cidViews := DropBelow(cidViews, v.cutoff);
    r := ViewsResult(cidViews, JSON_CONTENT_TYPE);
  }

  /** `Views.Generate` of `report/loads.go`. */
  method GenerateFixed(v: FixedViews, events: seq<Ev>) returns (r: map<uint32, uint32>)
    ensures r == ViewCounts(Loaded(events, v.minEvTime), v.cutoff)
  {
    var cidViews := CountViews(events, v.minEvTime);
    r := DropBelow(cidViews, v.cutoff);
  }

  /** With a cutoff inside the uint32 range and fewer loads than a uint32
      counts, a content id is reported exactly when it was loaded at least
      `cutoff` times and at least once, and it is reported with its number
      of loads. */
  lemma ViewCountsSpec(loads: seq<uint32>, cutoff: int)
    requires 0 <= cutoff < TWO_TO_THE_32 && |loads| < TWO_TO_THE_32
    ensures forall c :: c in ViewCounts(loads, cutoff) <==> Count(loads, c) >= cutoff && Count(loads, c) > 0
    ensures forall c :: c in ViewCounts(loads, cutoff) ==> ViewCounts(loads, cutoff)[c] == Count(loads, c)
  {
  }

  /** A negative cutoff is not "no cutoff": `uint32(-1)` is the largest
      uint32, so with fewer loads than that nothing is reported. */
  lemma MinusOneCutoffDropsAll(loads: seq<uint32>)
    requires |loads| < TWO_TO_THE_32 - 1
    ensures ViewCounts(loads, -1) == map[]
  {
    forall c | c in loads ensures ToUint32(Count(loads, c)) < ToUint32(-1) {
      ToUint32AtMost(Count(loads, c));
    }
  }

  /** A higher cutoff reports a subset, with the same counts. */
  lemma CutoffMonotone(loads: seq<uint32>, lo: int, hi: int)
    requires 0 <= lo <= hi < TWO_TO_THE_32
    ensures ViewCounts(loads, hi).Keys <= ViewCounts(loads, lo).Keys
    ensures forall c :: c in ViewCounts(loads, hi) ==> ViewCounts(loads, hi)[c] == ViewCounts(loads, lo)[c]
  {
  }

  /** Events after the first one older than the bound do not change the
      report. */
  lemma ViewsIgnoreTail(events: seq<Ev>, tail: seq<Ev>, minTime: uint32, cutoff: int)
    requires FirstOlder(events, minTime) < |events|
    ensures ViewCounts(Loaded(events[..FirstOlder(events, minTime) + 1] + tail, minTime), cutoff)
      == ViewCounts(Loaded(events, minTime), cutoff)
  {
    LoadedIgnoresTail(events, tail, minTime);
  }
}
