/** `ItemHeap` of `report/top.go`, a slice of (content id, views) items
    ordered as a min-heap on views, together with the `container/heap`
    operations the report calls on it (Push, Pop, Fix and their sift-up and
    sift-down loops), since which slot an item lands in matters to the
    report's index bookkeeping. */
module ItemHeaps {
  import opened Ints

  datatype Item = Item(cid: uint32, views: uint32)

  function Parent(i: nat): nat
    requires i > 0
  {
    (i - 1) / 2
  }

  /** The item at `k` has no fewer views than its parent. */
  ghost predicate EdgeOk(s: seq<Item>, k: nat)
    requires 0 < k < |s|
  {
    s[Parent(k)].views <= s[k].views
  }

  /** Min-heap order on the first `n` items. */
  ghost predicate Ordered(s: seq<Item>, n: nat)
    requires n <= |s|
  {
    forall k :: 0 < k < n ==> EdgeOk(s, k)
  }

  /** The children of `p` among the first `n` items have at least `v` views. */
  ghost predicate ChildrenAtLeast(s: seq<Item>, n: nat, p: nat, v: int)
    requires n <= |s|
  {
    && (2 * p + 1 < n ==> v <= s[2 * p + 1].views)
    && (2 * p + 2 < n ==> v <= s[2 * p + 2].views)
  }

  ghost predicate DistinctCids(s: seq<Item>) {
    forall i, j :: 0 <= i < j < |s| ==> s[i].cid != s[j].cid
  }

  /** The content ids held. */
  ghost function Cids(s: seq<Item>): set<uint32> {
    set x | x in s :: x.cid
  }

  function Swapped(s: seq<Item>, i: nat, j: nat): seq<Item>
    requires i < |s| && j < |s|
  {
    s[i := s[j]][j := s[i]]
  }

  /** Sift-up state: ordered except between `j` and its parent, and that
      parent is no larger than `j`'s children. */
  ghost predicate UpInv(s: seq<Item>, j: nat)
    requires j < |s|
  {
    && (forall k :: 0 < k < |s| && k != j ==> EdgeOk(s, k))
    && (j > 0 ==> ChildrenAtLeast(s, |s|, j, s[Parent(j)].views))
  }

  /** Sift-down state within the first `n` items, having started at `i0`
      and now at `i`: ordered except between `i` and its children (and,
      before the first move, between `i0` and its parent), and `i`'s parent
      is no larger than `i`'s children. */
  ghost predicate DownInv(s: seq<Item>, n: nat, i0: nat, i: nat)
    requires i < |s| && n <= |s|
  {
    && (forall k :: 0 < k < n && k != 2 * i + 1 && k != 2 * i + 2 && (i > i0 || k != i0) ==> EdgeOk(s, k))
    && (i > 0 ==> ChildrenAtLeast(s, n, i, s[Parent(i)].views))
  }

  /** Within the first `n` items, `j` is a child of `i` with the fewest views. */
  ghost predicate SmallestChild(s: seq<Item>, n: nat, i: nat, j: nat)
    requires n <= |s|
  {
    && (j == 2 * i + 1 || j == 2 * i + 2) && j < n
    && s[j].views <= s[2 * i + 1].views
    && (2 * i + 2 < n ==> s[j].views <= s[2 * i + 2].views)
  }

  /** The root of an ordered heap has the fewest views. */
  lemma {:induction false} RootIsMin(s: seq<Item>, n: nat, k: nat)
    requires n <= |s| && Ordered(s, n) && k < n
    ensures s[0].views <= s[k].views
    decreases k
  {
    if k > 0 {
      assert EdgeOk(s, k);
      RootIsMin(s, n, Parent(k));
    }
  }

  lemma SwapPermutes(s: seq<Item>, i: nat, j: nat)
    requires i < |s| && j < |s|
    ensures multiset(Swapped(s, i, j)) == multiset(s)
  {
  }

  lemma SwapKeepsDistinct(s: seq<Item>, i: nat, j: nat)
    requires i < |s| && j < |s|
    ensures DistinctCids(s) ==> DistinctCids(Swapped(s, i, j))
  {
    var t := Swapped(s, i, j);
    if DistinctCids(s) {
      forall a, b | 0 <= a < b < |t| ensures t[a].cid != t[b].cid {
        var a' := if a == i then j else if a == j then i else a;
        var b' := if b == i then j else if b == j then i else b;
        assert t[a] == s[a'] && t[b] == s[b'];
      }
    }
  }

  lemma UpStep(s: seq<Item>, j: nat)
    requires 0 < j < |s| && UpInv(s, j) && s[j].views < s[Parent(j)].views
    ensures UpInv(Swapped(s, Parent(j), j), Parent(j))
  {
    var p := Parent(j);
    var t := Swapped(s, p, j);
    forall k | 0 < k < |t| && k != p ensures EdgeOk(t, k) {
      if k == j {
      } else if k == 2 * j + 1 || k == 2 * j + 2 {
        assert Parent(k) == j;
      } else if Parent(k) == p {
        assert EdgeOk(s, k);
      } else {
        assert EdgeOk(s, k);
        assert t[Parent(k)] == s[Parent(k)] && t[k] == s[k];
      }
    }
    if p > 0 {
      assert EdgeOk(s, p);
      var sib := if j == 2 * p + 1 then 2 * p + 2 else 2 * p + 1;
      if sib < |s| {
        assert Parent(sib) == p && EdgeOk(s, sib);
      }
    }
  }

  lemma UpStop(s: seq<Item>, j: nat)
    requires j < |s| && UpInv(s, j) && (j > 0 ==> EdgeOk(s, j))
    ensures Ordered(s, |s|)
  {
  }

  lemma DownStep(s: seq<Item>, n: nat, i0: nat, i: nat, j: nat)
    requires i < |s| && n <= |s| && i0 <= i && DownInv(s, n, i0, i)
    requires SmallestChild(s, n, i, j) && s[j].views < s[i].views
    ensures DownInv(Swapped(s, i, j), n, i0, j)
  {
    assert Parent(j) == i;
    var t := Swapped(s, i, j);
    forall k | 0 < k < n && k != 2 * j + 1 && k != 2 * j + 2 && (j > i0 || k != i0)
      ensures EdgeOk(t, k)
    {
      if k == j {
      } else if k == 2 * i + 1 || k == 2 * i + 2 {
        assert Parent(k) == i;
      } else if k == i {
        assert t[Parent(k)] == s[Parent(k)];
      } else {
        assert EdgeOk(s, k);
        assert t[Parent(k)] == s[Parent(k)] && t[k] == s[k];
      }
    }
    if 2 * j + 1 < n {
      assert Parent(2 * j + 1) == j && EdgeOk(s, 2 * j + 1);
    }
    if 2 * j + 2 < n {
      assert Parent(2 * j + 2) == j && EdgeOk(s, 2 * j + 2);
    }
  }

  lemma DownStop(s: seq<Item>, n: nat, i0: nat, i: nat)
    requires i < |s| && n <= |s| && i0 <= i && DownInv(s, n, i0, i)
    requires ChildrenAtLeast(s, n, i, s[i].views)
    ensures i > i0 || i0 == 0 ==> Ordered(s, n)
  {
    if i > i0 || i0 == 0 {
      forall k | 0 < k < n ensures EdgeOk(s, k) {
        if k == 2 * i + 1 || k == 2 * i + 2 {
          assert Parent(k) == i;
        }
      }
    }
  }

  /** A sift-down that stopped where it started leaves only the edge to
      the parent to check, as a sift-up expects. */
  lemma DownThenUp(s: seq<Item>, i: nat)
    requires i < |s| && DownInv(s, |s|, i, i) && ChildrenAtLeast(s, |s|, i, s[i].views)
    ensures UpInv(s, i)
  {
    forall k | 0 < k < |s| && k != i ensures EdgeOk(s, k) {
      if k == 2 * i + 1 || k == 2 * i + 2 {
        assert Parent(k) == i;
      }
    }
  }

  /** Setting the views of one item of an ordered heap leaves the state
      `Fix` expects. */
  lemma SetViewsFixable(s: seq<Item>, i: nat, v: uint32)
    requires i < |s| && Ordered(s, |s|)
    ensures DownInv(s[i := s[i].(views := v)], |s|, i, i)
  {
    var t := s[i := s[i].(views := v)];
    forall k | 0 < k < |s| && k != 2 * i + 1 && k != 2 * i + 2 && k != i ensures EdgeOk(t, k) {
      assert EdgeOk(s, k);
    }
    if i > 0 {
      assert EdgeOk(s, i);
      if 2 * i + 1 < |s| {
        assert Parent(2 * i + 1) == i && EdgeOk(s, 2 * i + 1);
      }
      if 2 * i + 2 < |s| {
        assert Parent(2 * i + 2) == i && EdgeOk(s, 2 * i + 2);
      }
    }
  }

  lemma RootBelowRest(before: seq<Item>, rest: seq<Item>, x: Item)
    requires |before| > 0 && Ordered(before, |before|) && x == before[0]
    requires multiset(rest) + multiset{x} == multiset(before)
    ensures forall k :: 0 <= k < |rest| ==> x.views <= rest[k].views
  {
    forall k | 0 <= k < |rest| ensures x.views <= rest[k].views {
      assert rest[k] in multiset(before);
      var k' :| 0 <= k' < |before| && before[k'] == rest[k];
      RootIsMin(before, |before|, k');
    }
  }

  lemma CidsAfterPop(before: seq<Item>, full: seq<Item>, x: Item)
    requires |full| > 0 && DistinctCids(full) && full[|full| - 1] == x
    requires multiset(full) == multiset(before)
    ensures DistinctCids(full[..|full| - 1])
    ensures Cids(full[..|full| - 1]) == Cids(before) - {x.cid}
  {
    var rest := full[..|full| - 1];
    assert full == rest + [x];
    forall c | c in Cids(before) - {x.cid} ensures c in Cids(rest) {
      var y :| y in before && y.cid == c;
      assert y in multiset(full);
      assert y in full;
      var k :| 0 <= k < |full| && full[k] == y;
      assert k < |rest|;
      assert rest[k] == y;
    }
    forall c | c in Cids(rest) ensures c in Cids(before) - {x.cid} {
      var y :| y in rest && y.cid == c;
      var k :| 0 <= k < |rest| && rest[k] == y;
      assert full[k] == y;
      assert y in multiset(before);
    }
  }

  lemma CidsAfterPush(before: seq<Item>, x: Item)
    requires DistinctCids(before) && x.cid !in Cids(before)
    ensures DistinctCids(before + [x])
    ensures Cids(before + [x]) == Cids(before) + {x.cid}
  {
    var after := before + [x];
    forall a, b | 0 <= a < b < |after| ensures after[a].cid != after[b].cid {
      if b == |before| {
        assert before[a] in before;
      }
    }
    assert forall y :: y in after <==> y in before || y == x;
  }

  /** Items with the same multiset hold the same content ids. */
  lemma CidsOfPermutation(a: seq<Item>, b: seq<Item>)
    requires multiset(a) == multiset(b)
    ensures Cids(a) == Cids(b)
  {
    assert forall y :: y in a <==> y in multiset(a);
    assert forall y :: y in b <==> y in multiset(b);
  }

  lemma AppendKeepsOrder(s: seq<Item>, x: Item)
    requires Ordered(s, |s|)
    ensures UpInv(s + [x], |s|)
  {
    var t := s + [x];
    forall k | 0 < k < |t| && k != |s| ensures EdgeOk(t, k) {
      assert EdgeOk(s, k);
    }
  }

  lemma LastToRoot(s: seq<Item>)
    requires |s| > 0 && Ordered(s, |s|)
    ensures DownInv(Swapped(s, 0, |s| - 1), |s| - 1, 0, 0)
  {
    var n := |s| - 1;
    var t := Swapped(s, 0, n);
    forall k | 0 < k < n && k != 1 && k != 2 ensures EdgeOk(t, k) {
      assert EdgeOk(s, k);
      assert t[k] == s[k] && t[Parent(k)] == s[Parent(k)];
    }
  }

  lemma PrefixKeepsOrder(s: seq<Item>, n: nat)
    requires n <= |s| && Ordered(s, n)
    ensures Ordered(s[..n], n)
  {
    forall k | 0 < k < n ensures EdgeOk(s[..n], k) {
      assert EdgeOk(s, k);
    }
  }

  // The `container/heap` algorithms on the item slice, as functions.

  /** `up`: swap the item at `j` with its parent while it has fewer views. */
  function SiftUp(s: seq<Item>, j: nat): (t: seq<Item>)
    requires j < |s|
    ensures |t| == |s|
    decreases j
  {
    if j > 0 && s[j].views < s[Parent(j)].views then SiftUp(Swapped(s, Parent(j), j), Parent(j))
    else s
  }

  /** `down` within the first `n` items: swap the item at `i` with its
      smaller child while that child has fewer views; also gives the slot
      where the item came to rest. */
  function SiftDown(s: seq<Item>, n: nat, i: nat): (r: (seq<Item>, nat))
    requires i < |s| && n <= |s|
    ensures |r.0| == |s| && i <= r.1 < |s|
    decreases |s| - i
  {
    var j1 := 2 * i + 1;
    if j1 >= n then (s, i)
    else
      var j := if j1 + 1 < n && s[j1 + 1].views < s[j1].views then j1 + 1 else j1;
      if !(s[j].views < s[i].views) then (s, i)
      else SiftDown(Swapped(s, i, j), n, j)
  }

  /** `heap.Push`. */
  function Pushed(s: seq<Item>, x: Item): (t: seq<Item>)
    ensures |t| == |s| + 1
  {
    SiftUp(s + [x], |s|)
  }

  /** `heap.Pop`: the remaining items and the item taken off. */
  function Popped(s: seq<Item>): (r: (seq<Item>, Item))
    requires |s| > 0
    ensures |r.0| == |s| - 1
  {
    var n := |s| - 1;
    var t := SiftDown(Swapped(s, 0, n), n, 0).0;
    (t[..n], t[n])
  }

  /** `heap.Fix`: sift down, and sift up if the item did not move down. */
  function Fixed(s: seq<Item>, i: nat): (t: seq<Item>)
    requires i < |s|
    ensures |t| == |s|
  {
    var r := SiftDown(s, |s|, i);
    if r.1 > i then r.0 else SiftUp(r.0, i)
  }

  lemma {:induction false} SiftUpSpec(s: seq<Item>, j: nat)
    requires j < |s| && UpInv(s, j)
    ensures Ordered(SiftUp(s, j), |s|)
    ensures multiset(SiftUp(s, j)) == multiset(s)
    ensures DistinctCids(s) ==> DistinctCids(SiftUp(s, j))
    decreases j
  {
    if j > 0 && s[j].views < s[Parent(j)].views {
      UpStep(s, j);
      SwapPermutes(s, Parent(j), j);
      SwapKeepsDistinct(s, Parent(j), j);
      SiftUpSpec(Swapped(s, Parent(j), j), Parent(j));
    } else {
      UpStop(s, j);
    }
  }

  /** Sifting down only permutes the items. */
  lemma {:induction false} SiftDownPermutes(s: seq<Item>, n: nat, i: nat)
    requires i < |s| && n <= |s|
    ensures multiset(SiftDown(s, n, i).0) == multiset(s)
    decreases |s| - i
  {
    var j1 := 2 * i + 1;
    if j1 >= n {
      assert SiftDown(s, n, i).0 == s;
      return;
    }
    var j := if j1 + 1 < n && s[j1 + 1].views < s[j1].views then j1 + 1 else j1;
    if !(s[j].views < s[i].views) {
      assert SiftDown(s, n, i).0 == s;
      return;
    }
    var t := Swapped(s, i, j);
    assert SiftDown(s, n, i) == SiftDown(t, n, j);
    SiftDownPermutes(t, n, j);
    SwapPermutes(s, i, j);
  }

  /** Sifting down leaves the items from `n` on in place, and changes
      nothing when the item stays where it is. */
  lemma {:induction false} SiftDownInPlace(s: seq<Item>, n: nat, i: nat)
    requires i < |s| && n <= |s|
    ensures forall k :: n <= k < |s| ==> SiftDown(s, n, i).0[k] == s[k]
    ensures SiftDown(s, n, i).1 == i ==> SiftDown(s, n, i).0 == s
    decreases |s| - i
  {
    var j1 := 2 * i + 1;
    if j1 < n {
      var j := if j1 + 1 < n && s[j1 + 1].views < s[j1].views then j1 + 1 else j1;
      if s[j].views < s[i].views {
        var t := Swapped(s, i, j);
        assert SiftDown(s, n, i) == SiftDown(t, n, j);
        SiftDownInPlace(t, n, j);
      }
    }
  }

  lemma {:induction false} SiftDownDistinct(s: seq<Item>, n: nat, i: nat)
    requires i < |s| && n <= |s| && DistinctCids(s)
    ensures DistinctCids(SiftDown(s, n, i).0)
    decreases |s| - i
  {
    var j1 := 2 * i + 1;
    if j1 < n {
      var j := if j1 + 1 < n && s[j1 + 1].views < s[j1].views then j1 + 1 else j1;
      if s[j].views < s[i].views {
        SwapPermutes(s, i, j);
        SwapKeepsDistinct(s, i, j);
        var t := Swapped(s, i, j);
        assert SiftDown(s, n, i) == SiftDown(t, n, j);
        SiftDownDistinct(t, n, j);
      }
    }
  }

  /** Sifting down from the state `down` starts in restores the order once
      the item has moved, or when it started at the root. */
  lemma {:induction false} SiftDownOrders(s: seq<Item>, n: nat, i0: nat, i: nat)
    requires i0 <= i < |s| && n <= |s| && DownInv(s, n, i0, i)
    ensures var r := SiftDown(s, n, i);
      && (r.1 > i0 || i0 == 0 ==> Ordered(r.0, n))
      && (r.1 == i ==> ChildrenAtLeast(s, n, i, s[i].views))
    decreases |s| - i
  {
    var j1 := 2 * i + 1;
    if j1 >= n {
      DownStop(s, n, i0, i);
    } else {
      var j := if j1 + 1 < n && s[j1 + 1].views < s[j1].views then j1 + 1 else j1;
      if !(s[j].views < s[i].views) {
        DownStop(s, n, i0, i);
      } else {
        assert SmallestChild(s, n, i, j);
        DownStep(s, n, i0, i, j);
        var t := Swapped(s, i, j);
        assert SiftDown(s, n, i) == SiftDown(t, n, j);
        SiftDownOrders(t, n, i0, j);
      }
    }
  }

  /** Pushing keeps the heap ordered and adds exactly the new item. */
  lemma PushedSpec(s: seq<Item>, x: Item)
    requires Ordered(s, |s|)
    ensures Ordered(Pushed(s, x), |s| + 1)
    ensures multiset(Pushed(s, x)) == multiset(s) + multiset{x}
    ensures DistinctCids(s) && x.cid !in Cids(s) ==>
      DistinctCids(Pushed(s, x)) && Cids(Pushed(s, x)) == Cids(s) + {x.cid}
  {
    AppendKeepsOrder(s, x);
    SiftUpSpec(s + [x], |s|);
    if DistinctCids(s) && x.cid !in Cids(s) {
      CidsAfterPush(s, x);
      CidsOfPermutation(s + [x], Pushed(s, x));
    }
  }

  /** Popping takes off the root, which has the fewest views, and keeps the
      rest ordered. */
  lemma PoppedSpec(s: seq<Item>)
    requires |s| > 0 && Ordered(s, |s|)
    ensures Popped(s).1 == s[0]
    ensures Ordered(Popped(s).0, |s| - 1)
    ensures multiset(Popped(s).0) + multiset{Popped(s).1} == multiset(s)
    ensures forall k :: 0 <= k < |s| - 1 ==> Popped(s).1.views <= Popped(s).0[k].views
    ensures DistinctCids(s) ==> DistinctCids(Popped(s).0) && Cids(Popped(s).0) == Cids(s) - {s[0].cid}
  {
    PoppedSplit(s);
    PoppedOrder(s);
    if DistinctCids(s) {
      PoppedCids(s);
    }
  }

  lemma PoppedOrder(s: seq<Item>)
    requires |s| > 0 && Ordered(s, |s|)
    ensures Ordered(Popped(s).0, |s| - 1)
    ensures forall k :: 0 <= k < |s| - 1 ==> Popped(s).1.views <= Popped(s).0[k].views
  {
    var n := |s| - 1;
    var sw := Swapped(s, 0, n);
    var full := SiftDown(sw, n, 0).0;
    PoppedSplit(s);
    LastToRoot(s);
    SiftDownOrders(sw, n, 0, 0);
    PrefixKeepsOrder(full, n);
    RootBelowRest(s, Popped(s).0, Popped(s).1);
  }

  lemma PoppedCids(s: seq<Item>)
    requires |s| > 0 && DistinctCids(s)
    ensures DistinctCids(Popped(s).0) && Cids(Popped(s).0) == Cids(s) - {s[0].cid}
  {
    var n := |s| - 1;
    var sw := Swapped(s, 0, n);
    var full := SiftDown(sw, n, 0).0;
    PoppedSplit(s);
    SiftDownDistinct(sw, n, 0);
    CidsAfterPop(s, full, s[0]);
  }

  /** `heap.Pop` leaves the sifted items followed by the old root, and cuts
      that root off. */
  lemma PoppedSplit(s: seq<Item>)
    requires |s| > 0
    ensures var n := |s| - 1;
      var full := SiftDown(Swapped(s, 0, n), n, 0).0;
      && Popped(s).1 == s[0] && Popped(s).0 == full[..n]
      && full == Popped(s).0 + [Popped(s).1]
      && multiset(full) == multiset(s)
      && multiset(Popped(s).0) + multiset{Popped(s).1} == multiset(s)
  {
    var n := |s| - 1;
    var sw := Swapped(s, 0, n);
    SwapPermutes(s, 0, n);
    SwapKeepsDistinct(s, 0, n);
    SiftDownPermutes(sw, n, 0);
    SiftDownInPlace(sw, n, 0);
    var full := SiftDown(sw, n, 0).0;
    assert full[n] == sw[n] == s[0];
    assert full == full[..n] + [full[n]];
  }

  /** Fixing the slot whose item changed restores the order. */
  lemma FixedSpec(s: seq<Item>, i: nat)
    requires i < |s| && DownInv(s, |s|, i, i)
    ensures Ordered(Fixed(s, i), |s|)
    ensures multiset(Fixed(s, i)) == multiset(s)
    ensures DistinctCids(s) ==> DistinctCids(Fixed(s, i))
  {
    SiftDownPermutes(s, |s|, i);
    SiftDownInPlace(s, |s|, i);
    SiftDownOrders(s, |s|, i, i);
    if DistinctCids(s) {
      SiftDownDistinct(s, |s|, i);
    }
    var r := SiftDown(s, |s|, i);
    if r.1 == i {
      DownThenUp(s, i);
      SiftUpSpec(s, i);
    }
  }

  class ItemHeap {
    var items: seq<Item>

    constructor ()
      ensures items == []
    {
      items := [];
    }

    function Len(): (n: nat)
      reads this
      ensures n == |items|
    {
      |items|
    }

    /** `Less`: fewer views. */
    predicate Less(i: nat, j: nat)
      reads this
      requires i < |items| && j < |items|
    {
      items[i].views < items[j].views
    }

    method Swap(i: nat, j: nat)
      requires i < |items| && j < |items|
      modifies this
      ensures items == Swapped(old(items), i, j)
    {
      items := items[i := items[j]][j := items[i]];
    }

    /** `ItemHeap.Push`: append. */
    method PushBack(x: Item)
      modifies this
      ensures items == old(items) + [x]
    {
      items := items + [x];
    }

    /** `ItemHeap.Pop`: remove and return the last item. */
    method PopBack() returns (x: Item)
      requires |items| > 0
      modifies this
      ensures x == old(items)[|old(items)| - 1]
      ensures items == old(items)[..|old(items)| - 1]
    {
      x := items[|items| - 1];
      items := items[..|items| - 1];
    }

    method Up(j0: nat)
      requires j0 < |items|
      modifies this
      ensures items == SiftUp(old(items), j0)
    {
      var j: nat := j0;
      while j > 0 && Less(j, Parent(j))
        invariant j < |items| == |old(items)|
        invariant SiftUp(items, j) == SiftUp(old(items), j0)
        decreases j
      {
        var i := Parent(j);
        Swap(i, j);
        j := i;
      }
    }

    /** Reports whether the item moved. */
    method Down(i0: nat, n: nat) returns (moved: bool)
      requires i0 < |items| && n <= |items|
      modifies this
      ensures items == SiftDown(old(items), n, i0).0
      ensures moved <==> SiftDown(old(items), n, i0).1 > i0
    {
      var i: nat := i0;
      while true
        invariant i0 <= i < |items| == |old(items)|
        invariant SiftDown(items, n, i) == SiftDown(old(items), n, i0)
        decreases |items| - i
      {
        var j1 := 2 * i + 1;
        if j1 >= n {
          break;
        }
        var j := j1;
        if j1 + 1 < n && Less(j1 + 1, j1) {
          j := j1 + 1;
        }
        if !Less(j, i) {
          break;
        }
        Swap(i, j);
        i := j;
      }
      moved := i > i0;
    }

    /** `(*h)[i].Views = v`. */
    method SetViews(i: nat, v: uint32)
      requires i < |items|
      modifies this
      ensures items == old(items)[i := old(items)[i].(views := v)]
    {
      items := items[i := items[i].(views := v)];
    }

    method HeapPush(x: Item)
      modifies this
      ensures items == Pushed(old(items), x)
    {
      PushBack(x);
      Up(|items| - 1);
    }

    method HeapPop() returns (x: Item)
      requires |items| > 0
      modifies this
      ensures (items, x) == Popped(old(items))
    {
      var n := |items| - 1;
      Swap(0, n);
      var _ := Down(0, n);
      x := PopBack();
    }

    method Fix(i: nat)
      requires i < |items|
      modifies this
      ensures items == Fixed(old(items), i)
    {
      var moved := Down(i, |items|);
      if !moved {
        Up(i);
      }
    }
  }
}
