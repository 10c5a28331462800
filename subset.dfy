/** `Subset.Generate` of `report/subset.go`: the events that pass a filter,
    in stream order, up to a limit. */
module SubsetReport {
  import opened Wrappers
  import opened Ev

  /** `Subset`: the filter (any Go function of the event) and the limit. */
  datatype Subset = Subset(filter: Ev -> bool, limit: int)

  /** The events of `events` that pass `f`, in order. */
  function Matching(events: seq<Ev>, f: Ev -> bool): (r: seq<Ev>)
    ensures |r| <= |events|
    ensures forall i :: 0 <= i < |r| ==> f(r[i])
  {
    if events == [] then []
    else
      var last := events[|events| - 1];
      Matching(events[..|events| - 1], f) + (if f(last) then [last] else [])
  }

  /** How many matches stop the loop: the check `len(data) >= Limit` runs
      after an append, so a limit below one still lets one match through. */
  function Cap(limit: int): (n: nat)
    ensures n >= 1 && n >= limit
  {
    if limit < 1 then 1 else limit
  }

  /** The report: `None` for the panic of `make` with a negative capacity,
      otherwise the first `Cap(limit)` matches (all of them if fewer). */
  function SubsetOf(s: Subset, events: seq<Ev>): Option<seq<Ev>> {
    if s.limit < 0 then None
    else
      var m := Matching(events, s.filter);
      Some(if |m| <= Cap(s.limit) then m else m[..Cap(s.limit)])
  }

  /** Reading more events only adds matches at the end. */
  lemma {:induction false} MatchingPrefix(events: seq<Ev>, f: Ev -> bool, j: nat, k: nat)
    requires j <= k <= |events|
    ensures Matching(events[..j], f) <= Matching(events[..k], f)
    decreases k
  {
    if j < k {
      MatchingPrefix(events, f, j, k - 1);
      assert events[..k][..k - 1] == events[..k - 1];
    }
  }

  lemma MatchingSnoc(events: seq<Ev>, f: Ev -> bool, i: nat)
    requires i < |events|
    ensures Matching(events[..i + 1], f) == Matching(events[..i], f) + (if f(events[i]) then [events[i]] else [])
  {
    assert events[..i + 1][..i] == events[..i];
  }

  /** `Subset.Generate`, with the number of events it took from the
      stream: all of them, or exactly up to the match that reached the cap. */
  method Generate(s: Subset, events: seq<Ev>) returns (r: Option<seq<Ev>>, consumed: nat)
    ensures r == SubsetOf(s, events)
    ensures consumed <= |events|
    ensures r.Some? ==> r.value == Matching(events[..consumed], s.filter)
    ensures r.Some? && consumed < |events| ==>
      consumed > 0 && s.filter(events[consumed - 1]) && |r.value| == Cap(s.limit)
  {
    if s.limit < 0 {
      return None, 0;
    }
    var data: seq<Ev> := [];
    var i := 0;
    while i < |events|
      invariant i <= |events|
      invariant data == Matching(events[..i], s.filter)
      invariant |data| < Cap(s.limit)
    {
      var e := events[i];
      MatchingSnoc(events, s.filter, i);
      i := i + 1;
      if s.filter(e) {
        data := data + [e];
        if |data| >= s.limit {
          CapReached(s, events, i, data);
          return Some(data), i;
        }
      }
    }
    assert events[..i] == events;
    return Some(data), i;
  }

  /** Once the matches read so far reach the cap, they are the report. */
  lemma CapReached(s: Subset, events: seq<Ev>, i: nat, data: seq<Ev>)
    requires s.limit >= 0 && i <= |events|
    requires data == Matching(events[..i], s.filter) && |data| == Cap(s.limit)
    ensures SubsetOf(s, events) == Some(data)
  {
    MatchingPrefix(events, s.filter, i, |events|);
    assert events[..|events|] == events;
    var m := Matching(events, s.filter);
    assert data <= m;
    assert m[..Cap(s.limit)] == data;
    assert |m| == Cap(s.limit) ==> m == data;
    assert SubsetOf(s, events) == Some(if |m| <= Cap(s.limit) then m else m[..Cap(s.limit)]);
  }

  /** Every event reported passes the filter, the report is the leading
      part of the matching events, it holds at most `max(Limit, 1)` events,
      and it holds every match when there are fewer than `Limit`. */
  lemma SubsetSpec(s: Subset, events: seq<Ev>)
    ensures SubsetOf(s, events).None? <==> s.limit < 0
    ensures var r := SubsetOf(s, events);
      r.Some? ==>
        && (forall i :: 0 <= i < |r.value| ==> s.filter(r.value[i]))
        && r.value <= Matching(events, s.filter)
        && |r.value| <= Cap(s.limit)
        && (|Matching(events, s.filter)| < s.limit ==> r.value == Matching(events, s.filter))
  {
  }

  /** With a limit of zero, one matching event still gets through. */
  lemma ZeroLimitKeepsOne(f: Ev -> bool, events: seq<Ev>)
    requires Matching(events, f) != []
    ensures SubsetOf(Subset(f, 0), events) == Some([Matching(events, f)[0]])
  {
    var m := Matching(events, f);
    assert Cap(0) == 1;
    assert SubsetOf(Subset(f, 0), events) == Some(if |m| <= 1 then m else m[..1]);
    assert m[..1] == [m[0]];
    if |m| == 1 {
      assert m == [m[0]];
    }
  }
}
