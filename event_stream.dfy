/** What the reports read from the event channel. A report that has a
    time bound stops at the first event older than it, assuming the events
    arrive newest first; the readers do not guarantee that order (see
    `ReadOrder`). */
module EventStream {
  import opened Ints
  import opened Ev

  /** Index of the first event with `time < minTime`, or the length when
      there is none: the reports read exactly the events before it. */
  function FirstOlder(events: seq<Ev>, minTime: uint32): (k: nat)
    ensures k <= |events|
    ensures forall i :: 0 <= i < k ==> events[i].time >= minTime
    ensures k < |events| ==> events[k].time < minTime
  {
    if events == [] then 0
    else if events[0].time < minTime then 0
    else 1 + FirstOlder(events[1..], minTime)
  }

  /** The content ids of the LOAD events, in order. */
  function LoadCids(events: seq<Ev>): (cids: seq<uint32>)
    ensures |cids| <= |events|
  {
    if events == [] then []
    else
      var last := events[|events| - 1];
      LoadCids(events[..|events| - 1]) + (if last.evType == LOAD then [last.cid] else [])
  }

  /** Occurrences of `c` in `s`. */
  function Count(s: seq<uint32>, c: uint32): (n: nat)
    ensures n <= |s|
    ensures n > 0 <==> c in s
  {
    if s == [] then 0
    else Count(s[..|s| - 1], c) + (if s[|s| - 1] == c then 1 else 0)
  }

  /** The content ids of the LOAD events a time-bounded report counts. */
  function Loaded(events: seq<Ev>, minTime: uint32): seq<uint32> {
    LoadCids(events[..FirstOlder(events, minTime)])
  }

  /** Only the events before the first too-old one matter: cutting the
      stream right after it, or replacing everything after it, leaves the
      counted loads unchanged. */
  lemma LoadedIgnoresTail(events: seq<Ev>, tail: seq<Ev>, minTime: uint32)
    requires FirstOlder(events, minTime) < |events|
    ensures var k := FirstOlder(events, minTime);
      Loaded(events[..k + 1] + tail, minTime) == Loaded(events, minTime)
  {
    var k := FirstOlder(events, minTime);
    var other := events[..k + 1] + tail;
    assert other[k] == events[k];
    assert forall i :: 0 <= i < k ==> other[i] == events[i];
    assert FirstOlder(other, minTime) == k;
    assert other[..k] == events[..k];
  }

  /** Each counted load is a LOAD event read before the stop. */
  lemma {:induction false} LoadCidsSound(events: seq<Ev>, c: uint32)
    requires c in LoadCids(events)
    ensures exists i :: 0 <= i < |events| && events[i].evType == LOAD && events[i].cid == c
    decreases |events|
  {
    var init := events[..|events| - 1];
    var last := events[|events| - 1];
    if c in LoadCids(init) {
      LoadCidsSound(init, c);
      var i :| 0 <= i < |init| && init[i].evType == LOAD && init[i].cid == c;
      assert events[i] == init[i];
    } else {
      assert last.evType == LOAD && last.cid == c;
    }
  }

  /** Reading more events only adds loads at the end. */
  lemma {:induction false} LoadCidsPrefix(events: seq<Ev>, j: nat, k: nat)
    requires j <= k <= |events|
    ensures LoadCids(events[..j]) <= LoadCids(events[..k])
    decreases k
  {
    if j < k {
      LoadCidsPrefix(events, j, k - 1);
      assert events[..k][..k - 1] == events[..k - 1];
    }
  }

  lemma LoadCidsSnoc(events: seq<Ev>, e: Ev)
    ensures LoadCids(events + [e]) == LoadCids(events) + (if e.evType == LOAD then [e.cid] else [])
  {
    assert (events + [e])[..|events|] == events;
  }

  lemma CountSnoc(s: seq<uint32>, x: uint32, c: uint32)
    ensures Count(s + [x], c) == Count(s, c) + (if x == c then 1 else 0)
  {
    assert (s + [x])[..|s|] == s;
  }
}
