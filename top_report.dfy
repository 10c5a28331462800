/** `Top.Generate` of `report/top.go`: count the LOAD events per content id
    until the first event older than the time bound, keep a bounded
    min-heap of (content id, views) items, and report the drained heap as a
    map. The step that finds the heap slot of a content id already in the
    heap is a parameter: `Stored` reads the `itemIndex` map as the source
    does, `Searched` uses the slot the item actually occupies. */
module TopReport {
  import opened Wrappers
  import opened Ints
  import opened Ev
  import opened EventStream
  import opened ItemHeaps

  /** `Top`: how many content ids to report (`N`). Its clock, `MinEvTime`,
      is an argument of `Generate`. */
  datatype Top = Top(n: int)

  /** What `Generate` keeps while reading: the heap slice and the three maps. */
  datatype Tally = Tally(
    items: seq<Item>,
    cidViews: map<uint32, uint32>,
    inHeap: map<uint32, bool>,
    itemIndex: map<uint32, int>)

  const Start: Tally := Tally([], map[], map[], map[])

  /** How the heap slot of a content id in the heap is found. */
  datatype IndexRule = Stored | Searched

  /** The first slot holding content id `c`, or the length when none does. */
  function PositionOf(s: seq<Item>, c: uint32): (k: nat)
    ensures k <= |s|
    ensures k < |s| ==> s[k].cid == c
    ensures k == |s| ==> forall i :: 0 <= i < |s| ==> s[i].cid != c
  {
    if s == [] then 0
    else if s[0].cid == c then 0
    else 1 + PositionOf(s[1..], c)
  }

  /** One LOAD event of content id `c`; `None` is a run-time panic. */
  function Observe(n: int, rule: IndexRule, st: Tally, c: uint32): Option<Tally> {
    var v := Inc32(Lookup(st.cidViews, c, 0));
    var views := st.cidViews[c := v];
    if Lookup(st.inHeap, c, false) then
      var index := SlotOf(rule, st, c);
      if 0 <= index < |st.items| then
        Some(st.(items := Fixed(st.items[index := st.items[index].(views := v)], index), cidViews := views))
      else
        None
    else if |st.items| < n then
      var items := Pushed(st.items, Item(c, v));
      Some(Tally(items, views, st.inHeap[c := true], st.itemIndex[c := |items| - 1]))
    else if |st.items| == 0 then
      None
    else if v > st.items[0].views then
      var removed := Popped(st.items).1;
      Some(Tally(
        Pushed(Popped(st.items).0, Item(c, v)),
        views,
        st.inHeap[removed.cid := false][c := true],
        (st.itemIndex - {removed.cid})[c := 0]))
    else
      Some(st.(cidViews := views))
  }

  /** The state after the LOAD events of content ids `cids`, in order. */
  function Run(n: int, rule: IndexRule, cids: seq<uint32>): Option<Tally> {
    if cids == [] then Some(Start)
    else
      match Run(n, rule, cids[..|cids| - 1])
      case None => None
      case Some(st) => Observe(n, rule, st, cids[|cids| - 1])
  }

  /** `topN`: the items in the order the heap pops leave them, the last
      popped first. */
  function Drained(s: seq<Item>): (d: seq<Item>)
    ensures |d| == |s|
    decreases |s|
  {
    if s == [] then [] else Drained(Popped(s).0) + [Popped(s).1]
  }

  lemma DrainedStep(s: seq<Item>)
    requires |s| > 0
    ensures Drained(s) == Drained(Popped(s).0) + [Popped(s).1]
  {
  }

  /** `resultMap`, filled in order. */
  function MapOf(s: seq<Item>): map<uint32, uint32> {
    if s == [] then map[]
    else MapOf(s[..|s| - 1])[s[|s| - 1].cid := s[|s| - 1].views]
  }

  /** The map `Generate` encodes, or `None` for a panic. */
  function Report(t: Top, rule: IndexRule, events: seq<Ev>, minTime: uint32): Option<map<uint32, uint32>> {
    match Run(t.n, rule, Loaded(events, minTime))
    case None => None
    case Some(st) => Some(MapOf(Drained(st.items)))
  }

  // Invariants of the reading loop.

  ghost predicate HeapInv(n: int, items: seq<Item>) {
    && Ordered(items, |items|)
    && (items == [] || |items| <= n)
    && DistinctCids(items)
  }

  ghost predicate FlagsInv(st: Tally) {
    && (forall c :: Lookup(st.inHeap, c, false) <==> c in Cids(st.items))
    && (forall c :: c in st.itemIndex ==> 0 <= st.itemIndex[c] < |st.items|)
  }

  ghost predicate CountsInv(cidViews: map<uint32, uint32>, loads: seq<uint32>) {
    && (forall c :: Lookup(cidViews, c, 0) == ToUint32(Count(loads, c)))
    && (forall c :: c in cidViews <==> c in loads)
  }

  ghost predicate BoundsInv(n: int, items: seq<Item>, loads: seq<uint32>) {
    && (forall x :: x in items ==> x.views <= |loads| && x.cid in loads)
    && (|items| < n ==> forall c :: c in loads ==> c in Cids(items))
  }

  ghost predicate Inv(n: int, st: Tally, loads: seq<uint32>) {
    && HeapInv(n, st.items)
    && FlagsInv(st)
    && CountsInv(st.cidViews, loads)
    && BoundsInv(n, st.items, loads)
  }

  lemma CountsStep(m: map<uint32, uint32>, loads: seq<uint32>, c: uint32)
    requires CountsInv(m, loads)
    ensures Inc32(Lookup(m, c, 0)) == ToUint32(Count(loads + [c], c)) <= |loads| + 1
    ensures CountsInv(m[c := Inc32(Lookup(m, c, 0))], loads + [c])
  {
    var x := Lookup(m, c, 0);
    var k := Count(loads, c);
    assert x == ToUint32(k);
    CountSnoc(loads, c, c);
    assert Count(loads + [c], c) == k + 1;
    CountUp(k, x, |loads|);
    CountStepMap(m, loads, c, Inc32(x));
  }

  /** Counting up a truncated count `k` that is at most `bound`. */
  lemma CountUp(k: nat, x: uint32, bound: nat)
    requires x == ToUint32(k) && k <= bound
    ensures Inc32(x) == ToUint32(k + 1) <= bound + 1
  {
    Inc32OfCount(k);
    ToUint32AtMost(k + 1);
  }

  lemma CountStepMap(m: map<uint32, uint32>, loads: seq<uint32>, c: uint32, v: uint32)
    requires CountsInv(m, loads) && v == ToUint32(Count(loads + [c], c))
    ensures CountsInv(m[c := v], loads + [c])
  {
    var m' := m[c := v];
    forall d ensures Lookup(m', d, 0) == ToUint32(Count(loads + [c], d)) {
      CountSnoc(loads, c, d);
      if d != c {
        assert Lookup(m', d, 0) == Lookup(m, d, 0);
      }
    }
  }

  lemma CidsSetViews(s: seq<Item>, i: nat, v: uint32)
    requires i < |s|
    ensures Cids(s[i := s[i].(views := v)]) == Cids(s)
    ensures DistinctCids(s) ==> DistinctCids(s[i := s[i].(views := v)])
  {
    var u := s[i := s[i].(views := v)];
    forall c | c in Cids(s) ensures c in Cids(u) {
      var x :| x in s && x.cid == c;
      var k :| 0 <= k < |s| && s[k] == x;
      assert u[k].cid == c;
    }
    forall c | c in Cids(u) ensures c in Cids(s) {
      var x :| x in u && x.cid == c;
      var k :| 0 <= k < |u| && u[k] == x;
      assert s[k].cid == c;
    }
  }

  /** The slot `Generate` updates for a content id in the heap. */
  function SlotOf(rule: IndexRule, st: Tally, c: uint32): int {
    if rule == Stored then Lookup(st.itemIndex, c, 0) else PositionOf(st.items, c)
  }

  /** For a content id in the heap, either rule finds a slot in range. */
  lemma SlotInRange(rule: IndexRule, st: Tally, c: uint32)
    requires FlagsInv(st) && c in Cids(st.items)
    ensures 0 <= SlotOf(rule, st, c) < |st.items|
  {
    var x :| x in st.items && x.cid == c;
    var k :| 0 <= k < |st.items| && st.items[k] == x;
  }

  /** Updating one slot's views to a count no larger than the loads seen,
      then fixing the heap, keeps the heap invariants. */
  lemma FixItems(n: int, items: seq<Item>, index: nat, v: uint32, loads: seq<uint32>, c: uint32)
    requires HeapInv(n, items) && BoundsInv(n, items, loads)
    requires index < |items| && v <= |loads| + 1 && c in Cids(items)
    ensures var after := Fixed(items[index := items[index].(views := v)], index);
      && HeapInv(n, after)
      && Cids(after) == Cids(items)
      && BoundsInv(n, after, loads + [c])
  {
    var u := items[index := items[index].(views := v)];
    SetViewsFixable(items, index, v);
    FixedSpec(u, index);
    CidsSetViews(items, index, v);
    var after := Fixed(u, index);
    CidsOfPermutation(u, after);
    forall x | x in after ensures x.views <= |loads| + 1 && x.cid in loads + [c] {
      assert x in multiset(u);
      var k :| 0 <= k < |u| && u[k] == x;
      if k != index {
        assert items[k] == x;
      } else {
        assert items[k].cid == x.cid;
        assert items[k] in items;
      }
    }
  }

  /** Pushing a new content id into a heap with room keeps the heap invariants. */
  lemma PushItems(n: int, items: seq<Item>, v: uint32, loads: seq<uint32>, c: uint32)
    requires HeapInv(n, items) && BoundsInv(n, items, loads)
    requires |items| < n && c !in Cids(items) && v <= |loads| + 1
    ensures var after := Pushed(items, Item(c, v));
      && HeapInv(n, after)
      && Cids(after) == Cids(items) + {c}
      && BoundsInv(n, after, loads + [c])
  {
    PushedSpec(items, Item(c, v));
    var after := Pushed(items, Item(c, v));
    forall x | x in after ensures x.views <= |loads| + 1 && x.cid in loads + [c] {
      assert x in multiset(items) + multiset{Item(c, v)};
    }
  }

  /** Replacing the root of a full heap by a new content id keeps the heap
      invariants. */
  lemma ReplaceItems(n: int, items: seq<Item>, v: uint32, loads: seq<uint32>, c: uint32)
    requires HeapInv(n, items) && BoundsInv(n, items, loads)
    requires |items| >= n && |items| > 0 && c !in Cids(items) && v <= |loads| + 1
    ensures var after := Pushed(Popped(items).0, Item(c, v));
      && HeapInv(n, after)
      && Cids(after) == Cids(items) - {items[0].cid} + {c}
      && BoundsInv(n, after, loads + [c])
  {
    PoppedSpec(items);
    var rest := Popped(items).0;
    PushedSpec(rest, Item(c, v));
    var after := Pushed(rest, Item(c, v));
    forall x | x in after ensures x.views <= |loads| + 1 && x.cid in loads + [c] {
      assert x in multiset(rest) + multiset{Item(c, v)};
      if x != Item(c, v) {
        assert x in multiset(items);
      }
    }
  }

  /** A content id in the heap: its views are updated and the heap fixed. */
  lemma FixBranch(n: int, rule: IndexRule, st: Tally, loads: seq<uint32>, c: uint32)
    requires Inv(n, st, loads) && Lookup(st.inHeap, c, false)
    ensures Observe(n, rule, st, c).Some?
    ensures Inv(n, Observe(n, rule, st, c).value, loads + [c])
    ensures Cids(Observe(n, rule, st, c).value.items) == Cids(st.items)
  {
    var v := Inc32(Lookup(st.cidViews, c, 0));
    CountsStep(st.cidViews, loads, c);
    SlotInRange(rule, st, c);
    var index: nat := SlotOf(rule, st, c);
    FixItems(n, st.items, index, v, loads, c);
    var items := Fixed(st.items[index := st.items[index].(views := v)], index);
    assert Observe(n, rule, st, c) == Some(st.(items := items, cidViews := st.cidViews[c := v]));
  }

  /** A new content id while the heap has room: it is pushed. */
  lemma PushBranch(n: int, rule: IndexRule, st: Tally, loads: seq<uint32>, c: uint32)
    requires Inv(n, st, loads) && !Lookup(st.inHeap, c, false) && |st.items| < n
    ensures Observe(n, rule, st, c).Some?
    ensures Inv(n, Observe(n, rule, st, c).value, loads + [c])
    ensures Cids(Observe(n, rule, st, c).value.items) == Cids(st.items) + {c}
  {
    var v := Inc32(Lookup(st.cidViews, c, 0));
    CountsStep(st.cidViews, loads, c);
    PushItems(n, st.items, v, loads, c);
    var items := Pushed(st.items, Item(c, v));
    var after := Tally(items, st.cidViews[c := v], st.inHeap[c := true], st.itemIndex[c := |items| - 1]);
    assert Observe(n, rule, st, c) == Some(after);
    PushFlags(st, after, c);
  }

  lemma PushFlags(st: Tally, after: Tally, c: uint32)
    requires FlagsInv(st) && c !in Cids(st.items)
    requires Cids(after.items) == Cids(st.items) + {c} && |after.items| == |st.items| + 1
    requires after.inHeap == st.inHeap[c := true]
    requires after.itemIndex == st.itemIndex[c := |after.items| - 1]
    ensures FlagsInv(after)
  {
  }

  /** A new content id with more views than the root of a full heap: the
      root is popped and the new item pushed. */
  lemma ReplaceBranch(n: int, rule: IndexRule, st: Tally, loads: seq<uint32>, c: uint32)
    requires Inv(n, st, loads) && !Lookup(st.inHeap, c, false) && |st.items| >= n && |st.items| > 0
    requires Inc32(Lookup(st.cidViews, c, 0)) > st.items[0].views
    ensures Observe(n, rule, st, c).Some?
    ensures Inv(n, Observe(n, rule, st, c).value, loads + [c])
    ensures Cids(Observe(n, rule, st, c).value.items) == Cids(st.items) - {st.items[0].cid} + {c}
  {
    var v := Inc32(Lookup(st.cidViews, c, 0));
    CountsStep(st.cidViews, loads, c);
    ReplaceItems(n, st.items, v, loads, c);
    PoppedSpec(st.items);
    var removed := Popped(st.items).1;
    var items := Pushed(Popped(st.items).0, Item(c, v));
    var after := Tally(items, st.cidViews[c := v], st.inHeap[removed.cid := false][c := true],
      (st.itemIndex - {removed.cid})[c := 0]);
    assert Observe(n, rule, st, c) == Some(after);
    ReplaceFlags(st, after, removed.cid, c);
  }

  lemma ReplaceFlags(st: Tally, after: Tally, r: uint32, c: uint32)
    requires FlagsInv(st) && r != c && c !in Cids(st.items)
    requires Cids(after.items) == Cids(st.items) - {r} + {c} && |after.items| == |st.items| > 0
    requires after.inHeap == st.inHeap[r := false][c := true]
    requires after.itemIndex == (st.itemIndex - {r})[c := 0]
    ensures FlagsInv(after)
  {
  }

  /** A new content id with no more views than the root of a full heap:
      only its count changes. */
  lemma KeepBranch(n: int, rule: IndexRule, st: Tally, loads: seq<uint32>, c: uint32)
    requires Inv(n, st, loads) && !Lookup(st.inHeap, c, false) && |st.items| >= n && |st.items| > 0
    requires Inc32(Lookup(st.cidViews, c, 0)) <= st.items[0].views
    ensures Observe(n, rule, st, c).Some?
    ensures Inv(n, Observe(n, rule, st, c).value, loads + [c])
    ensures Observe(n, rule, st, c).value.items == st.items
  {
    CountsStep(st.cidViews, loads, c);
  }

  /** Each LOAD keeps the invariants, and panics exactly when `N <= 0`,
      where the heap stays empty and its root is read. */
  lemma ObserveKeepsInv(n: int, rule: IndexRule, st: Tally, loads: seq<uint32>, c: uint32)
    requires Inv(n, st, loads)
    ensures Observe(n, rule, st, c).None? <==> n <= 0
    ensures Observe(n, rule, st, c).Some? ==> Inv(n, Observe(n, rule, st, c).value, loads + [c])
  {
    var v := Inc32(Lookup(st.cidViews, c, 0));
    if Lookup(st.inHeap, c, false) {
      FixBranch(n, rule, st, loads, c);
      assert st.items != [];
    } else if |st.items| < n {
      PushBranch(n, rule, st, loads, c);
    } else if |st.items| == 0 {
    } else if v > st.items[0].views {
      ReplaceBranch(n, rule, st, loads, c);
    } else {
      KeepBranch(n, rule, st, loads, c);
    }
  }

  /** A content id not in a full heap enters only with strictly more views
      than the root, and then takes the root's place. */
  lemma EntersFullHeap(n: int, rule: IndexRule, st: Tally, loads: seq<uint32>, c: uint32)
    requires Inv(n, st, loads) && n > 0 && !Lookup(st.inHeap, c, false) && |st.items| >= n
    ensures Observe(n, rule, st, c).Some?
    ensures var after := Observe(n, rule, st, c).value.items;
      && (c in Cids(after) <==> ToUint32(Count(loads + [c], c)) > st.items[0].views)
      && (c in Cids(after) ==> Cids(after) == Cids(st.items) - {st.items[0].cid} + {c})
      && (c !in Cids(after) ==> after == st.items)
  {
    CountsStep(st.cidViews, loads, c);
    if Inc32(Lookup(st.cidViews, c, 0)) > st.items[0].views {
      ReplaceBranch(n, rule, st, loads, c);
    } else {
      KeepBranch(n, rule, st, loads, c);
    }
  }

  lemma {:induction false} RunKeepsInv(n: int, rule: IndexRule, cids: seq<uint32>)
    ensures Run(n, rule, cids).None? <==> n <= 0 && |cids| > 0
    ensures Run(n, rule, cids).Some? ==> Inv(n, Run(n, rule, cids).value, cids)
    decreases |cids|
  {
    if cids != [] {
      var init := cids[..|cids| - 1];
      RunKeepsInv(n, rule, init);
      assert init + [cids[|cids| - 1]] == cids;
      if Run(n, rule, init).Some? {
        ObserveKeepsInv(n, rule, Run(n, rule, init).value, init, cids[|cids| - 1]);
      }
    }
  }

  lemma CidsSnoc(s: seq<Item>, x: Item)
    ensures Cids(s + [x]) == Cids(s) + {x.cid}
  {
    assert forall y :: y in s + [x] <==> y in s || y == x;
  }

  /** Draining an ordered heap yields its items with views non-increasing. */
  lemma {:induction false} DrainedSorted(s: seq<Item>)
    requires Ordered(s, |s|)
    ensures multiset(Drained(s)) == multiset(s)
    ensures forall i, j :: 0 <= i < j < |s| ==> Drained(s)[i].views >= Drained(s)[j].views
    decreases |s|
  {
    if s != [] {
      PoppedSpec(s);
      var rest := Popped(s).0;
      var x := Popped(s).1;
      DrainedSorted(rest);
      var d := Drained(s);
      assert d == Drained(rest) + [x];
      forall i | 0 <= i < |rest| ensures d[i].views >= x.views {
        assert d[i] in multiset(Drained(rest));
        var k :| 0 <= k < |rest| && rest[k] == d[i];
      }
    }
  }

  /** Draining keeps the content ids, and distinct ones stay distinct. */
  lemma {:induction false} DrainedDistinct(s: seq<Item>)
    requires Ordered(s, |s|) && DistinctCids(s)
    ensures DistinctCids(Drained(s)) && Cids(Drained(s)) == Cids(s)
    decreases |s|
  {
    if s != [] {
      PoppedSpec(s);
      var rest := Popped(s).0;
      var x := Popped(s).1;
      DrainedDistinct(rest);
      var d := Drained(s);
      assert d == Drained(rest) + [x];
      CidsSnoc(Drained(rest), x);
      forall i | 0 <= i < |rest| ensures d[i].cid != x.cid {
        assert d[i] in Drained(rest);
      }
      assert x in s by {
        assert x == s[0];
      }
    }
  }

  /** The map has one key per content id of the items, and no more entries
      than items. */
  lemma {:induction false} MapOfKeys(s: seq<Item>)
    ensures MapOf(s).Keys == Cids(s)
    ensures |MapOf(s)| <= |s|
    decreases |s|
  {
    if s != [] {
      var init := s[..|s| - 1];
      MapOfKeys(init);
      assert s == init + [s[|s| - 1]];
      CidsSnoc(init, s[|s| - 1]);
    }
  }

  lemma DistinctInit(s: seq<Item>)
    requires DistinctCids(s) && s != []
    ensures DistinctCids(s[..|s| - 1]) && s[|s| - 1].cid !in Cids(s[..|s| - 1])
  {
    var init := s[..|s| - 1];
    forall y | y in init ensures y.cid != s[|s| - 1].cid {
      var k :| 0 <= k < |init| && init[k] == y;
    }
  }

  /** With distinct content ids, every item is in the map with its views. */
  lemma {:induction false} MapOfDistinct(s: seq<Item>)
    requires DistinctCids(s)
    ensures |MapOf(s)| == |s|
    ensures forall x :: x in s ==> x.cid in MapOf(s) && MapOf(s)[x.cid] == x.views
    decreases |s|
  {
    if s != [] {
      var init := s[..|s| - 1];
      var last := s[|s| - 1];
      DistinctInit(s);
      MapOfDistinct(init);
      MapOfKeys(init);
      assert s == init + [last];
      forall x | x in s ensures x.cid in MapOf(s) && MapOf(s)[x.cid] == x.views {
        if x != last {
          var k :| 0 <= k < |s| && s[k] == x;
          assert x in init;
        }
      }
    }
  }

  /** The report panics exactly when `N <= 0` and some LOAD was counted; it
      then holds at most `N` content ids, all loaded, each with at most as
      many views as loads were counted; and it holds either `N` content ids
      or every loaded one. */
  lemma ReportSpec(t: Top, rule: IndexRule, events: seq<Ev>, minTime: uint32)
    ensures var loads := Loaded(events, minTime);
      var r := Report(t, rule, events, minTime);
      && (r.None? <==> t.n <= 0 && |loads| > 0)
      && (r.Some? ==> |r.value| <= t.n || r.value == map[])
      && (r.Some? ==> forall c :: c in r.value ==> c in loads && r.value[c] <= |loads|)
      && (r.Some? ==> |r.value| == t.n || forall c :: c in loads ==> c in r.value)
  {
    var loads := Loaded(events, minTime);
    RunKeepsInv(t.n, rule, loads);
    if Run(t.n, rule, loads).Some? {
      var st := Run(t.n, rule, loads).value;
      var d := Drained(st.items);
      DrainedSorted(st.items);
      DrainedDistinct(st.items);
      MapOfKeys(d);
      MapOfDistinct(d);
      forall c | c in MapOf(d) ensures c in loads && MapOf(d)[c] <= |loads| {
        var x :| x in d && x.cid == c;
        assert x in multiset(st.items);
      }
    }
  }

  /** Events after the first one older than the bound do not affect the
      report. */
  lemma ReportIgnoresTail(t: Top, rule: IndexRule, events: seq<Ev>, tail: seq<Ev>, minTime: uint32)
    requires FirstOlder(events, minTime) < |events|
    ensures Report(t, rule, events[..FirstOlder(events, minTime) + 1] + tail, minTime)
      == Report(t, rule, events, minTime)
  {
    LoadedIgnoresTail(events, tail, minTime);
  }

  // The `Searched` rule: the slot a content id actually occupies.

  /** Every item's views are its content id's running count. */
  ghost predicate Exact(st: Tally) {
    forall x :: x in st.items ==> x.views == Lookup(st.cidViews, x.cid, 0)
  }

  /** No loaded content id outside the heap has more views than an item in it. */
  ghost predicate Outranked(st: Tally, loads: seq<uint32>) {
    forall c, x :: c in loads && c !in Cids(st.items) && x in st.items ==> Lookup(st.cidViews, c, 0) <= x.views
  }

  /** The state after a content id in the heap is loaded again, found by
      searching. */
  lemma FixSearched(n: int, st: Tally, loads: seq<uint32>, c: uint32) returns (index: nat, v: uint32)
    requires Inv(n, st, loads) && Lookup(st.inHeap, c, false)
    ensures v == Inc32(Lookup(st.cidViews, c, 0))
    ensures index < |st.items| && st.items[index].cid == c
    ensures forall k :: 0 <= k < |st.items| && k != index ==> st.items[k].cid != c
    ensures Observe(n, Searched, st, c)
      == Some(st.(items := Fixed(st.items[index := Item(c, v)], index), cidViews := st.cidViews[c := v]))
    ensures multiset(Fixed(st.items[index := Item(c, v)], index)) == multiset(st.items[index := Item(c, v)])
    ensures Cids(Fixed(st.items[index := Item(c, v)], index)) == Cids(st.items)
  {
    v := Inc32(Lookup(st.cidViews, c, 0));
    SlotInRange(Searched, st, c);
    index := PositionOf(st.items, c);
    assert st.items[index].(views := v) == Item(c, v);
    SetViewsFixable(st.items, index, v);
    FixedSpec(st.items[index := Item(c, v)], index);
    CidsSetViews(st.items, index, v);
    CidsOfPermutation(st.items[index := Item(c, v)], Fixed(st.items[index := Item(c, v)], index));
  }

  lemma FixKeepsExact(n: int, st: Tally, loads: seq<uint32>, c: uint32)
    requires Inv(n, st, loads) && Exact(st) && Lookup(st.inHeap, c, false)
    ensures Observe(n, Searched, st, c).Some? && Exact(Observe(n, Searched, st, c).value)
  {
    var index, v := FixSearched(n, st, loads, c);
    var u := st.items[index := Item(c, v)];
    var m := st.cidViews[c := v];
    forall x | x in Fixed(u, index) ensures x.views == Lookup(m, x.cid, 0) {
      assert x in multiset(u);
      var k :| 0 <= k < |u| && u[k] == x;
      if k != index {
        assert st.items[k] in st.items;
      }
    }
  }

  /** Counting up a content id in the heap only raises its item's views,
      as long as the count does not wrap. */
  lemma FixKeepsOutranked(n: int, st: Tally, loads: seq<uint32>, c: uint32)
    requires Inv(n, st, loads) && Exact(st) && Outranked(st, loads) && Lookup(st.inHeap, c, false)
    requires |loads| + 1 < TWO_TO_THE_32
    ensures Observe(n, Searched, st, c).Some? && Outranked(Observe(n, Searched, st, c).value, loads + [c])
  {
    var index, v := FixSearched(n, st, loads, c);
    var u := st.items[index := Item(c, v)];
    var m := st.cidViews[c := v];
    var after := Fixed(u, index);
    ToUint32AtMost(Count(loads, c));
    assert v == Lookup(st.cidViews, c, 0) + 1;
    assert st.items[index] in st.items;
    forall d, x | d in loads + [c] && d !in Cids(after) && x in after ensures Lookup(m, d, 0) <= x.views {
      assert d != c && d in loads && d !in Cids(st.items);
      assert Lookup(m, d, 0) == Lookup(st.cidViews, d, 0);
      assert Lookup(st.cidViews, d, 0) <= st.items[index].views;
      assert x in multiset(u);
      var k :| 0 <= k < |u| && u[k] == x;
      if k != index {
        assert x == st.items[k] && x in st.items;
      } else {
        assert x.views == v;
      }
    }
  }

  /** A content id pushed into a heap with room: its item carries its count,
      and every loaded content id is now in the heap. */
  lemma PushKeepsRank(n: int, st: Tally, loads: seq<uint32>, c: uint32)
    requires Inv(n, st, loads) && Exact(st) && !Lookup(st.inHeap, c, false) && |st.items| < n
    ensures Observe(n, Searched, st, c).Some?
    ensures Exact(Observe(n, Searched, st, c).value)
    ensures Outranked(Observe(n, Searched, st, c).value, loads + [c])
  {
    PushBranch(n, Searched, st, loads, c);
    var v := Inc32(Lookup(st.cidViews, c, 0));
    var after := Observe(n, Searched, st, c).value;
    assert after.items == Pushed(st.items, Item(c, v)) && after.cidViews == st.cidViews[c := v];
    PushedSpec(st.items, Item(c, v));
    forall x | x in after.items ensures x.views == Lookup(after.cidViews, x.cid, 0) {
      assert x in multiset(st.items) + multiset{Item(c, v)};
      if x != Item(c, v) {
        assert x in st.items;
      }
    }
  }

  /** The root of a full heap, popped for a content id with more views, had
      no more views than any content id left outside. */
  lemma ReplaceKeepsRank(n: int, st: Tally, loads: seq<uint32>, c: uint32)
    requires Inv(n, st, loads) && Exact(st) && Outranked(st, loads)
    requires !Lookup(st.inHeap, c, false) && |st.items| >= n && |st.items| > 0
    requires Inc32(Lookup(st.cidViews, c, 0)) > st.items[0].views
    ensures Observe(n, Searched, st, c).Some?
    ensures Exact(Observe(n, Searched, st, c).value)
    ensures Outranked(Observe(n, Searched, st, c).value, loads + [c])
  {
    ReplaceBranch(n, Searched, st, loads, c);
    var v := Inc32(Lookup(st.cidViews, c, 0));
    var after := Observe(n, Searched, st, c).value;
    assert after.items == Pushed(Popped(st.items).0, Item(c, v)) && after.cidViews == st.cidViews[c := v];
    ReplaceRank(st, after, loads, c, v);
  }

  lemma ReplaceRank(st: Tally, after: Tally, loads: seq<uint32>, c: uint32, v: uint32)
    requires Exact(st) && Outranked(st, loads) && Ordered(st.items, |st.items|)
    requires |st.items| > 0 && c !in Cids(st.items) && v > st.items[0].views
    requires after.items == Pushed(Popped(st.items).0, Item(c, v)) && after.cidViews == st.cidViews[c := v]
    requires Cids(after.items) == Cids(st.items) - {st.items[0].cid} + {c}
    ensures Exact(after) && Outranked(after, loads + [c])
  {
    ReplaceViews(st, after, c, v);
    var r := st.items[0];
    assert r in st.items;
    forall d | d in loads + [c] && d !in Cids(after.items) ensures Lookup(after.cidViews, d, 0) <= r.views {
      assert d != c && d in loads;
      assert Lookup(after.cidViews, d, 0) == Lookup(st.cidViews, d, 0);
      if d == r.cid {
        assert r.views == Lookup(st.cidViews, d, 0);
      } else {
        assert d !in Cids(st.items);
      }
    }
  }

  /** After the root is replaced, every item carries its count and has at
      least the old root's views. */
  lemma ReplaceViews(st: Tally, after: Tally, c: uint32, v: uint32)
    requires Exact(st) && Ordered(st.items, |st.items|)
    requires |st.items| > 0 && c !in Cids(st.items) && v > st.items[0].views
    requires after.items == Pushed(Popped(st.items).0, Item(c, v)) && after.cidViews == st.cidViews[c := v]
    ensures forall x :: x in after.items ==>
      x.views == Lookup(after.cidViews, x.cid, 0) && st.items[0].views <= x.views
  {
    PoppedSpec(st.items);
    var rest := Popped(st.items).0;
    PushedSpec(rest, Item(c, v));
    forall x | x in after.items ensures x.views == Lookup(after.cidViews, x.cid, 0) && st.items[0].views <= x.views {
      assert x in multiset(rest) + multiset{Item(c, v)};
      if x != Item(c, v) {
        assert x in multiset(st.items);
        var k :| 0 <= k < |rest| && rest[k] == x;
      }
    }
  }

  /** A content id left out of a full heap has no more views than its root. */
  lemma KeepKeepsRank(n: int, st: Tally, loads: seq<uint32>, c: uint32)
    requires Inv(n, st, loads) && Exact(st) && Outranked(st, loads)
    requires !Lookup(st.inHeap, c, false) && |st.items| >= n && |st.items| > 0
    requires Inc32(Lookup(st.cidViews, c, 0)) <= st.items[0].views
    ensures Observe(n, Searched, st, c).Some?
    ensures Exact(Observe(n, Searched, st, c).value)
    ensures Outranked(Observe(n, Searched, st, c).value, loads + [c])
  {
    KeepBranch(n, Searched, st, loads, c);
    var after := Observe(n, Searched, st, c).value;
    assert after.cidViews == st.cidViews[c := Inc32(Lookup(st.cidViews, c, 0))];
    forall x | x in st.items ensures st.items[0].views <= x.views {
      var k :| 0 <= k < |st.items| && st.items[k] == x;
      RootIsMin(st.items, |st.items|, k);
    }
  }

  /** With the `Searched` rule each LOAD keeps the items' views equal to
      the counts and keeps every content id left out outranked. */
  lemma ObserveKeepsRank(n: int, st: Tally, loads: seq<uint32>, c: uint32)
    requires Inv(n, st, loads) && Exact(st) && Outranked(st, loads) && |loads| + 1 < TWO_TO_THE_32
    ensures Observe(n, Searched, st, c).Some? ==>
      Exact(Observe(n, Searched, st, c).value) && Outranked(Observe(n, Searched, st, c).value, loads + [c])
  {
    if Lookup(st.inHeap, c, false) {
      FixKeepsExact(n, st, loads, c);
      FixKeepsOutranked(n, st, loads, c);
    } else if |st.items| < n {
      PushKeepsRank(n, st, loads, c);
    } else if |st.items| == 0 {
    } else if Inc32(Lookup(st.cidViews, c, 0)) > st.items[0].views {
      ReplaceKeepsRank(n, st, loads, c);
    } else {
      KeepKeepsRank(n, st, loads, c);
    }
  }

  lemma {:induction false} RunKeepsRank(n: int, cids: seq<uint32>)
    requires |cids| < TWO_TO_THE_32
    ensures Run(n, Searched, cids).Some? ==>
      Exact(Run(n, Searched, cids).value) && Outranked(Run(n, Searched, cids).value, cids)
    decreases |cids|
  {
    if cids != [] {
      var init := cids[..|cids| - 1];
      RunKeepsRank(n, init);
      RunKeepsInv(n, Searched, init);
      assert init + [cids[|cids| - 1]] == cids;
      if Run(n, Searched, init).Some? {
        ObserveKeepsRank(n, Run(n, Searched, init).value, init, cids[|cids| - 1]);
      }
    }
  }

  /** The report of a heap maps each content id of its items to that
      item's views. */
  lemma MapOfDrained(s: seq<Item>)
    requires Ordered(s, |s|) && DistinctCids(s)
    ensures MapOf(Drained(s)).Keys == Cids(s)
    ensures forall x :: x in s ==> MapOf(Drained(s))[x.cid] == x.views
  {
    var d := Drained(s);
    DrainedSorted(s);
    DrainedDistinct(s);
    MapOfKeys(d);
    MapOfDistinct(d);
    forall x | x in s ensures MapOf(d)[x.cid] == x.views {
      assert x in multiset(d);
    }
  }

  /** With the `Searched` rule, and fewer loads than a uint32 counts, the
      report gives each content id its number of loads, and no loaded
      content id left out has more loads than one reported. */
  lemma SearchedReportIsTop(t: Top, events: seq<Ev>, minTime: uint32)
    requires |Loaded(events, minTime)| < TWO_TO_THE_32
    ensures var loads := Loaded(events, minTime);
      var r := Report(t, Searched, events, minTime);
      && (r.Some? ==> forall c :: c in r.value ==> r.value[c] == Count(loads, c))
      && (r.Some? ==> forall c, d :: c in loads && c !in r.value && d in r.value ==> Count(loads, c) <= Count(loads, d))
  {
    var loads := Loaded(events, minTime);
    RunKeepsInv(t.n, Searched, loads);
    RunKeepsRank(t.n, loads);
    if Run(t.n, Searched, loads).Some? {
      RankedReport(Run(t.n, Searched, loads).value, loads);
    }
  }

  lemma RankedReport(st: Tally, loads: seq<uint32>)
    requires Ordered(st.items, |st.items|) && DistinctCids(st.items)
    requires Exact(st) && Outranked(st, loads) && CountsInv(st.cidViews, loads) && |loads| < TWO_TO_THE_32
    ensures var r := MapOf(Drained(st.items));
      && (forall c :: c in r ==> r[c] == Count(loads, c))
      && (forall c, d :: c in loads && c !in r && d in r ==> Count(loads, c) <= Count(loads, d))
  {
    var r := MapOf(Drained(st.items));
    MapOfDrained(st.items);
    forall c | c in r ensures r[c] == Count(loads, c) {
      var x :| x in st.items && x.cid == c;
      assert x.views == Lookup(st.cidViews, c, 0) == Count(loads, c);
    }
    forall c, d | c in loads && c !in r && d in r ensures Count(loads, c) <= Count(loads, d) {
      var x :| x in st.items && x.cid == d;
      assert c !in Cids(st.items);
      assert Lookup(st.cidViews, c, 0) <= x.views;
      assert Lookup(st.cidViews, c, 0) == Count(loads, c);
      assert x.views == Lookup(st.cidViews, d, 0) == Count(loads, d);
    }
  }

  /** A LOAD event of content id `c` at time 100. */
  function LoadAt100(c: uint32): Ev {
    Ev(LOAD, 100, 0, 0, c, None, None)
  }

  /** As written, with room for two content ids, the loads 7, 7, 9, 9
      report content id 9 with one view although it was loaded twice: after
      9 is pushed and sifted to the root, its stored index still names the
      slot it was appended to, which now holds 7. */
  lemma StaleIndexMiscounts()
    ensures var events := [LoadAt100(7), LoadAt100(7), LoadAt100(9), LoadAt100(9)];
      && Report(Top(2), Stored, events, 0) == Some(map[7 := 2, 9 := 1])
      && Count(Loaded(events, 0), 9) == 2
  {
    FourLoads();
    StaleRun();
    StaleDrain();
  }

  lemma FourLoads()
    ensures Loaded([LoadAt100(7), LoadAt100(7), LoadAt100(9), LoadAt100(9)], 0) == [7, 7, 9, 9]
    ensures Count([7, 7, 9, 9], 9) == 2
  {
    var events := [LoadAt100(7), LoadAt100(7), LoadAt100(9), LoadAt100(9)];
    assert FirstOlder(events, 0) == 4;
    assert events[..4] == events;
    assert events[..3][..2] == events[..2];
    assert events[..2][..1] == events[..1];
    assert events[..1][..0] == [];
    assert LoadCids(events[..1]) == [7];
    assert LoadCids(events[..2]) == [7, 7];
    assert LoadCids(events[..3]) == [7, 7, 9];
    var loads: seq<uint32> := [7, 7, 9, 9];
    assert loads[..3] == [7, 7, 9];
    assert [7, 7, 9][..2] == [7, 7];
    assert [7, 7][..1] == [7];
  }

  lemma StaleDrain()
    ensures MapOf(Drained([Item(9, 1), Item(7, 2)])) == map[7 := 2, 9 := 1]
  {
    var b := Item(7, 2);
    var c := Item(9, 1);
    assert Swapped([c, b], 0, 1) == [b, c];
    assert SiftDown([b, c], 1, 0) == ([b, c], 0);
    assert [b, c][..1] == [b];
    assert Popped([c, b]) == ([b], c);
    assert SiftDown([b], 0, 0) == ([b], 0);
    assert Popped([b]) == ([], b);
    assert Drained([b]) == [b];
    assert Drained([c, b]) == [b, c];
    assert [b, c][..1] == [b];
    assert [b][..0] == [];
    assert MapOf([b]) == map[7 := 2];
  }

  lemma RunSnoc(n: int, rule: IndexRule, cids: seq<uint32>, c: uint32, st: Tally)
    requires Run(n, rule, cids) == Some(st)
    ensures Run(n, rule, cids + [c]) == Observe(n, rule, st, c)
  {
    assert (cids + [c])[..|cids|] == cids;
  }

  lemma StaleRun()
    ensures Run(2, Stored, [7, 7, 9, 9])
      == Some(Tally([Item(9, 1), Item(7, 2)], map[7 := 2, 9 := 2], map[7 := true, 9 := true], map[7 := 0, 9 := 1]))
  {
    var st1 := Tally([Item(7, 1)], map[7 := 1], map[7 := true], map[7 := 0]);
    var st2 := Tally([Item(7, 2)], map[7 := 2], map[7 := true], map[7 := 0]);
    var st3 := Tally([Item(9, 1), Item(7, 2)], map[7 := 2, 9 := 1], map[7 := true, 9 := true], map[7 := 0, 9 := 1]);
    assert Run(2, Stored, []) == Some(Start);
    StaleStep1();
    RunSnoc(2, Stored, [], 7, Start);
    assert [] + [7] == [7];
    StaleStep2();
    RunSnoc(2, Stored, [7], 7, st1);
    assert [7] + [7] == [7, 7];
    StaleStep3();
    RunSnoc(2, Stored, [7, 7], 9, st2);
    assert [7, 7] + [9] == [7, 7, 9];
    StaleStep4();
    RunSnoc(2, Stored, [7, 7, 9], 9, st3);
    assert [7, 7, 9] + [9] == [7, 7, 9, 9];
  }

  lemma StaleStep1()
    ensures Observe(2, Stored, Start, 7) == Some(Tally([Item(7, 1)], map[7 := 1], map[7 := true], map[7 := 0]))
  {
    assert Pushed([], Item(7, 1)) == [Item(7, 1)];
  }

  lemma StaleStep2()
    ensures Observe(2, Stored, Tally([Item(7, 1)], map[7 := 1], map[7 := true], map[7 := 0]), 7)
      == Some(Tally([Item(7, 2)], map[7 := 2], map[7 := true], map[7 := 0]))
  {
    var st := Tally([Item(7, 1)], map[7 := 1], map[7 := true], map[7 := 0]);
    assert SlotOf(Stored, st, 7) == 0;
    assert [Item(7, 1)][0 := Item(7, 2)] == [Item(7, 2)];
    assert SiftDown([Item(7, 2)], 1, 0) == ([Item(7, 2)], 0);
    assert Fixed([Item(7, 2)], 0) == [Item(7, 2)];
    assert map[7 := 1][7 := 2] == map[7 := 2];
  }

  lemma StaleStep3()
    ensures Observe(2, Stored, Tally([Item(7, 2)], map[7 := 2], map[7 := true], map[7 := 0]), 9)
      == Some(Tally([Item(9, 1), Item(7, 2)], map[7 := 2, 9 := 1], map[7 := true, 9 := true], map[7 := 0, 9 := 1]))
  {
    assert [Item(7, 2)] + [Item(9, 1)] == [Item(7, 2), Item(9, 1)];
    assert Swapped([Item(7, 2), Item(9, 1)], 0, 1) == [Item(9, 1), Item(7, 2)];
    assert SiftUp([Item(9, 1), Item(7, 2)], 0) == [Item(9, 1), Item(7, 2)];
    assert SiftUp([Item(7, 2), Item(9, 1)], 1) == [Item(9, 1), Item(7, 2)];
    assert Pushed([Item(7, 2)], Item(9, 1)) == [Item(9, 1), Item(7, 2)];
    assert map[7 := 2][9 := 1] == map[7 := 2, 9 := 1];
  }

  /** The stale index 1 of content id 9 names the slot of content id 7. */
  lemma StaleStep4()
    ensures Observe(2, Stored, Tally([Item(9, 1), Item(7, 2)], map[7 := 2, 9 := 1], map[7 := true, 9 := true], map[7 := 0, 9 := 1]), 9)
      == Some(Tally([Item(9, 1), Item(7, 2)], map[7 := 2, 9 := 2], map[7 := true, 9 := true], map[7 := 0, 9 := 1]))
  {
    var st := Tally([Item(9, 1), Item(7, 2)], map[7 := 2, 9 := 1], map[7 := true, 9 := true], map[7 := 0, 9 := 1]);
    assert SlotOf(Stored, st, 9) == 1;
    assert [Item(9, 1), Item(7, 2)][1 := Item(7, 2)] == [Item(9, 1), Item(7, 2)];
    assert SiftDown([Item(9, 1), Item(7, 2)], 2, 1) == ([Item(9, 1), Item(7, 2)], 1);
    assert Fixed([Item(9, 1), Item(7, 2)], 1) == [Item(9, 1), Item(7, 2)];
    assert map[7 := 2, 9 := 1][9 := 2] == map[7 := 2, 9 := 2];
  }

  // `Generate` itself, step by step.

  /** The body of the reading loop for one LOAD event of content id `c`;
      `ok` is false where the source panics. */
  method CountLoad(n: int, h: ItemHeap, cidViews: map<uint32, uint32>, inHeap: map<uint32, bool>,
                   itemIndex: map<uint32, int>, c: uint32)
    returns (ok: bool, cidViews': map<uint32, uint32>, inHeap': map<uint32, bool>, itemIndex': map<uint32, int>)
    modifies h
    ensures var before := Observe(n, Stored, Tally(old(h.items), cidViews, inHeap, itemIndex), c);
      && (ok <==> before.Some?)
      && (ok ==> before.value == Tally(h.items, cidViews', inHeap', itemIndex'))
  {
    var v := Inc32(Lookup(cidViews, c, 0));
    cidViews', inHeap', itemIndex' := cidViews[c := v], inHeap, itemIndex;
    ok := true;
    if Lookup(inHeap, c, false) {
      var index := Lookup(itemIndex, c, 0);
      if !(0 <= index < h.Len()) {
        ok := false;
        return;
      }
      h.SetViews(index, v);
      h.Fix(index);
    } else if h.Len() < n {
      h.HeapPush(Item(c, v));
      inHeap' := inHeap[c := true];
      itemIndex' := itemIndex[c := h.Len() - 1];
    } else if h.Len() == 0 {
      ok := false;
    } else if v > h.items[0].views {
      var removed := h.HeapPop();
      inHeap' := inHeap[removed.cid := false];
      itemIndex' := itemIndex - {removed.cid};
      h.HeapPush(Item(c, v));
      inHeap' := inHeap'[c := true];
      itemIndex' := itemIndex'[c := 0];
    }
  }

  /** `topN`: pops every item, filling the array from its end. */
  method DrainTop(h: ItemHeap) returns (topN: array<Item>)
    modifies h
    ensures fresh(topN)
    ensures topN[..] == Drained(old(h.items))
    ensures h.items == []
  {
    topN := new Item[h.Len()](_ => Item(0, 0));
    var i := topN.Length;
    while i > 0
      invariant 0 <= i <= topN.Length
      invariant |h.items| == i
      invariant Drained(h.items) + topN[i..] == Drained(old(h.items))
      modifies h, topN
    {
      ghost var before := h.items;
      ghost var placed := topN[i..];
      var x := h.HeapPop();
      topN[i - 1] := x;
      DrainedStep(before);
      assert topN[i - 1..] == [x] + placed;
      AppendAssoc(Drained(h.items), [x], placed);
      i := i - 1;
    }
  }

  /** `resultMap`: one entry per item, in array order. */
  method ResultMap(topN: array<Item>) returns (m: map<uint32, uint32>)
    ensures m == MapOf(topN[..])
  {
    m := map[];
    for k := 0 to topN.Length
      invariant m == MapOf(topN[..k])
    {
      assert topN[..k + 1][..k] == topN[..k];
      m := m[topN[k].cid := topN[k].views];
    }
    assert topN[..topN.Length] == topN[..];
  }

  /** `Top.Generate` with the clock's reading `minEvTimeUnix` (Unix
      seconds): the map it encodes as JSON, or `None` for a panic. */
  method Generate(t: Top, events: seq<Ev>, minEvTimeUnix: int) returns (r: Option<map<uint32, uint32>>)
    ensures r == Report(t, Stored, events, ToUint32(minEvTimeUnix))
  {
    var minEvTime := ToUint32(minEvTimeUnix);
    var h := new ItemHeap();
    var cidViews: map<uint32, uint32> := map[];
    var inHeap: map<uint32, bool> := map[];
    var itemIndex: map<uint32, int> := map[];
    var i := 0;
    while i < |events|
      invariant i <= |events|
      invariant i <= FirstOlder(events, minEvTime)
      invariant Run(t.n, Stored, LoadCids(events[..i])) == Some(Tally(h.items, cidViews, inHeap, itemIndex))
    {
      var e := events[i];
      if e.time < minEvTime {
        break;
      }
      ghost var loads := LoadCids(events[..i]);
      assert events[..i + 1] == events[..i] + [e];
      LoadCidsSnoc(events[..i], e);
      if e.evType != LOAD {
        assert LoadCids(events[..i + 1]) == loads;
        i := i + 1;
        continue;
      }
      assert LoadCids(events[..i + 1]) == loads + [e.cid];
      ghost var st := Tally(h.items, cidViews, inHeap, itemIndex);
      RunSnoc(t.n, Stored, loads, e.cid, st);
      var ok;
      ok, cidViews, inHeap, itemIndex := CountLoad(t.n, h, cidViews, inHeap, itemIndex, e.cid);
      if !ok {
        PanicReported(t, events, minEvTime, i);
        return None;
      }
      assert Run(t.n, Stored, loads + [e.cid]) == Some(Tally(h.items, cidViews, inHeap, itemIndex));
      i := i + 1;
    }
    assert i == FirstOlder(events, minEvTime);
    var topN := DrainTop(h);
    var m := ResultMap(topN);
    r := Some(m);
  }

  /** A panic on the LOAD event at `i`, before the first event older than
      the bound, is the report's panic. */
  lemma PanicReported(t: Top, events: seq<Ev>, minTime: uint32, i: nat)
    requires i < |events| && events[i].evType == LOAD
    requires i < FirstOlder(events, minTime)
    requires Run(t.n, Stored, LoadCids(events[..i + 1])).None?
    ensures Report(t, Stored, events, minTime).None?
  {
    RunKeepsInv(t.n, Stored, LoadCids(events[..i + 1]));
    LoadCidsPrefix(events, i + 1, FirstOlder(events, minTime));
    RunKeepsInv(t.n, Stored, Loaded(events, minTime));
  }
}
