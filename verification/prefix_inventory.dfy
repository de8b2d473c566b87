/** What the two adjacent-only checks of the prefix audit amount to. */
module PrefixInventory {
  import opened Options
  import opened Distinctness
  import opened SemaphoreJournal
  import opened PrefixAudit
  import V1 = CreditAudit

  // ------------------------------------------------------------ the admission inventory

  predicate Holds(x: Interval, id: nat) { x.first <= id <= x.last }

  /** Every ID from 1 to n lies in exactly one interval, and no interval reaches outside. */
  ghost predicate Partitions(s: multiset<Interval>, n: int) {
    && (forall x :: x in s ==> 1 <= x.first <= x.last <= n && s[x] == 1)
    && (forall x, y, id :: x in s && y in s && Holds(x, id) && Holds(y, id) ==> x == y)
    && (forall id: nat :: 1 <= id <= n ==> Covered(s, id))
  }

  ghost predicate Covered(s: multiset<Interval>, id: nat) {
    exists x :: x in s && Holds(x, id)
  }

  /** Known admission clocks do not decrease as IDs increase. */
  ghost predicate ClocksFollowIds(s: multiset<Interval>) {
    forall x, y :: x in s && y in s && x.clock.Some? && y.clock.Some? && x.first < y.first ==>
      x.clock.value <= y.clock.value
  }

  ghost predicate Swept(s: multiset<Interval>, w: Sweep) {
    && Partitions(s, w.next - 1) && ClocksFollowIds(s)
    && (forall x :: x in s && x.clock.Some? ==> w.clock.Some? && x.clock.value <= w.clock.value)
  }

  lemma {:induction false} SweptNext(s: multiset<Interval>, w: Sweep, x: Interval)
    requires Swept(s, w) && w.ok && w.next >= 1 && SweepStep(w, x).ok && x.first <= x.last
    ensures Swept(s + multiset{x}, SweepStep(w, x))
  {
    var t := s + multiset{x};
    assert x !in s;
    forall id: nat | 1 <= id <= x.last ensures Covered(t, id) {
      if id < w.next {
        assert Covered(s, id);
        var y :| y in s && Holds(y, id);
        assert y in t;
      } else {
        assert x in t && Holds(x, id);
      }
    }
  }

  lemma {:induction false} SweepPartitions(sorted: seq<Interval>)
    requires SweepRun(sorted).ok && forall x :: x in sorted ==> 1 <= x.first <= x.last
    ensures Swept(multiset(sorted), SweepRun(sorted))
    ensures SweepRun(sorted).next >= 1
  {
    if sorted != [] {
      var front, x := sorted[..|sorted|-1], sorted[|sorted|-1];
      assert sorted == front + [x];
      SweepPartitions(front);
      SweptNext(multiset(front), SweepRun(front), x);
    }
  }

  ghost predicate OrderedIntervals(s: seq<Interval>) {
    forall i, k :: 0 <= i < k < |s| ==> Precedes(s[i], s[k])
  }

  lemma {:induction false} InsertOrdered(x: Interval, s: seq<Interval>)
    requires OrderedIntervals(s)
    ensures OrderedIntervals(InsertInterval(x, s))
  {
    if s != [] && !Precedes(x, s[0]) {
      InsertOrdered(x, s[1..]);
      var rest := InsertInterval(x, s[1..]);
      assert s == [s[0]] + s[1..];
      forall k | 0 <= k < |rest| ensures Precedes(s[0], rest[k]) {
        assert rest[k] in multiset(rest);
        assert rest[k] == x || rest[k] in s[1..];
      }
    }
  }

  lemma {:induction false} SortOrdered(s: seq<Interval>)
    ensures OrderedIntervals(SortIntervals(s))
  {
    if s != [] {
      SortOrdered(s[1..]);
      InsertOrdered(s[0], SortIntervals(s[1..]));
    }
  }

  /** In a partition listed in order, each interval starts right after the one before. */
  lemma {:induction false} NextStarts(sorted: seq<Interval>, n: int, k: nat, next: nat)
    requires OrderedIntervals(sorted) && Partitions(multiset(sorted), n) && k < |sorted|
    requires next == if k == 0 then 1 else sorted[k-1].last + 1
    requires forall i :: 0 <= i < k ==> sorted[i].last < next
    ensures sorted[k].first == next
  {
    var x := sorted[k];
    assert x in multiset(sorted);
    if k > 0 {
      var before := sorted[k-1];
      assert before in multiset(sorted);
      assert Precedes(before, x);
      if x.first < next {
        assert Holds(before, x.first) && Holds(x, x.first);
        Twice(sorted, k - 1, k);
      }
    }
    forall y | y in multiset(sorted) ensures x.first > next ==> !Holds(y, next) {
      var i :| 0 <= i < |sorted| && sorted[i] == y;
      if i > k { assert Precedes(x, y); }
    }
    assert x.first > next ==> Covered(multiset(sorted), next);
  }

  /** The sweep of the first k intervals of an ordered partition, stated by position. */
  ghost predicate SweptTo(sorted: seq<Interval>, k: nat, w: Sweep)
    requires k <= |sorted|
  {
    && w.ok && w.next == (if k == 0 then 1 else sorted[k-1].last + 1)
    && (forall i :: 0 <= i < k ==> sorted[i].last < w.next)
    && (w.clock.Some? ==> exists i :: 0 <= i < k && sorted[i].clock == w.clock)
  }

  lemma {:induction false} SweptToNext(sorted: seq<Interval>, n: int, k: nat, w: Sweep)
    requires Partitions(multiset(sorted), n) && ClocksFollowIds(multiset(sorted))
    requires k < |sorted| && SweptTo(sorted, k, w) && sorted[k].first == w.next
    ensures SweptTo(sorted, k + 1, SweepStep(w, sorted[k]))
  {
    var x := sorted[k];
    assert x in multiset(sorted);
    if w.clock.Some? {
      var i :| 0 <= i < k && sorted[i].clock == w.clock;
      assert sorted[i] in multiset(sorted);
      assert sorted[i].first <= sorted[i].last < x.first;
    }
    assert x.clock.Some? ==> sorted[k].clock == SweepStep(w, x).clock;
  }

  lemma {:induction false} PartitionSweeps(sorted: seq<Interval>, n: int, k: nat)
    requires OrderedIntervals(sorted) && Partitions(multiset(sorted), n) && ClocksFollowIds(multiset(sorted))
    requires k <= |sorted|
    ensures SweptTo(sorted, k, SweepRun(sorted[..k]))
  {
    if k > 0 {
      hide OrderedIntervals, Partitions, ClocksFollowIds, SweepStep;
      PartitionSweeps(sorted, n, k - 1);
      assert sorted[..k][..k-1] == sorted[..k-1];
      NextStarts(sorted, n, k - 1, SweepRun(sorted[..k-1]).next);
      SweptToNext(sorted, n, k - 1, SweepRun(sorted[..k-1]));
    }
  }

  lemma {:induction false} InventoryRanges(j: Journal)
    requires WellShaped(j)
    ensures forall x :: x in Inventory(j) ==> 1 <= x.first <= x.last
  {
    RowRanges(j.operations);
    LossRanges(j.losses);
    forall x | x in Inventory(j) ensures 1 <= x.first <= x.last {
      if x in RowIntervals(j.operations) {
        var row :| row in j.operations && x == Interval(row.id, row.id, row.entry);
        assert RowValid(j, row);
      } else {
        var loss :| loss in j.losses && x == Interval(loss.first, loss.last, loss.bound);
        assert LossValid(j, loss);
      }
    }
  }

  lemma {:induction false} RowRanges(rows: seq<Row>)
    ensures forall x :: x in RowIntervals(rows) ==> exists row :: row in rows && x == Interval(row.id, row.id, row.entry)
  {
    if rows != [] {
      RowRanges(rows[..|rows|-1]);
      assert rows == rows[..|rows|-1] + [rows[|rows|-1]];
      assert rows[|rows|-1] in rows;
    }
  }

  lemma {:induction false} LossRanges(losses: seq<Loss>)
    ensures forall x :: x in LossIntervals(losses) ==>
              exists loss :: loss in losses && x == Interval(loss.first, loss.last, loss.bound)
  {
    if losses != [] {
      LossRanges(losses[..|losses|-1]);
      assert losses == losses[..|losses|-1] + [losses[|losses|-1]];
      assert losses[|losses|-1] in losses;
    }
  }

  /** PARTITION. The sorted sweep accepts exactly the inventories whose operation IDs and loss
      ranges partition 1..observed and whose known clocks follow the IDs. */
  lemma {:induction false} InventoryExactlyPartitions(j: Journal)
    requires WellShaped(j)
    ensures InventoryExact(j) <==>
              Partitions(multiset(Inventory(j)), j.counts.observed) && ClocksFollowIds(multiset(Inventory(j)))
    ensures j.counts.observed == |j.operations| + LostCount(j.losses)
  {
    var sorted, n := SortIntervals(Inventory(j)), j.counts.observed;
    var all := multiset(sorted);
    SortedRanges(j);
    hide Inventory, SortIntervals, SweepRun, Partitions, ClocksFollowIds, OrderedIntervals;
    if InventoryExact(j) {
      SweepAccepts(sorted, n);
    }
    if Partitions(all, n) && ClocksFollowIds(all) {
      SortOrdered(Inventory(j));
      PartitionSweepsAll(sorted, n);
    }
  }

  lemma {:induction false} SortedRanges(j: Journal)
    requires WellShaped(j)
    ensures forall x :: x in SortIntervals(Inventory(j)) ==> 1 <= x.first <= x.last
  {
    InventoryRanges(j);
    hide Inventory, WellShaped;
    forall x | x in SortIntervals(Inventory(j)) ensures x in Inventory(j) {
      assert x in multiset(SortIntervals(Inventory(j)));
      assert x in multiset(Inventory(j));
    }
  }

  lemma {:induction false} SweepAccepts(sorted: seq<Interval>, n: nat)
    requires forall x :: x in sorted ==> 1 <= x.first <= x.last
    requires SweepRun(sorted).ok && SweepRun(sorted).next - 1 == n
    ensures Partitions(multiset(sorted), n) && ClocksFollowIds(multiset(sorted))
  {
    SweepPartitions(sorted);
  }

  lemma {:induction false} PartitionSweepsAll(sorted: seq<Interval>, n: nat)
    requires OrderedIntervals(sorted) && Partitions(multiset(sorted), n) && ClocksFollowIds(multiset(sorted))
    ensures SweepRun(sorted).ok && SweepRun(sorted).next - 1 == n
  {
    PartitionSweeps(sorted, n, |sorted|);
    assert sorted[..|sorted|] == sorted;
    var w := SweepRun(sorted);
    forall y | y in multiset(sorted) ensures !Holds(y, w.next) {
      var i :| 0 <= i < |sorted| && sorted[i] == y;
    }
    assert w.next <= n ==> Covered(multiset(sorted), w.next);
    if sorted != [] { assert sorted[|sorted|-1] in multiset(sorted); }
  }

  // --------------------------------------------------------------------- cookie lifetimes

  ghost predicate OrderedEpochs(s: seq<Epoch>) {
    forall i, k :: 0 <= i < k < |s| ==> EpochPrecedes(s[i], s[k])
  }

  lemma {:induction false} InsertEpochOrdered(e: Epoch, s: seq<Epoch>)
    requires OrderedEpochs(s)
    ensures OrderedEpochs(InsertEpoch(e, s))
  {
    if s != [] && !EpochPrecedes(e, s[0]) {
      InsertEpochOrdered(e, s[1..]);
      var rest := InsertEpoch(e, s[1..]);
      assert s == [s[0]] + s[1..];
      forall k | 0 <= k < |rest| ensures EpochPrecedes(s[0], rest[k]) {
        assert rest[k] in multiset(rest);
        assert rest[k] == e || rest[k] in s[1..];
      }
    }
  }

  lemma {:induction false} SortEpochsOrdered(s: seq<Epoch>)
    ensures OrderedEpochs(SortEpochs(s))
  {
    if s != [] {
      SortEpochsOrdered(s[1..]);
      InsertEpochOrdered(s[0], SortEpochs(s[1..]));
    }
  }

  ghost predicate PairClash(s: seq<Epoch>) {
    exists a, b :: a in s && b in s && a != b && V1.CookieClash(a, b)
  }

  lemma {:induction false} ClashesPermute(s: seq<Epoch>)
    requires Distinct(s) && forall e :: e in s && e.destroy.Some? ==> e.creation < e.destroy.value
    ensures V1.AnyCookieClash(s) <==> PairClash(s)
  {
    if PairClash(s) {
      var a, b :| a in s && b in s && a != b && V1.CookieClash(a, b);
      var i :| 0 <= i < |s| && s[i] == a;
      var k :| 0 <= k < |s| && s[k] == b;
      assert V1.CookieClash(b, a);
    }
    if V1.AnyCookieClash(s) {
      var i, k :| 0 <= i < k < |s| && V1.CookieClash(s[i], s[k]);
      assert s[i] in s && s[k] in s;
    }
  }

  /** ADJACENCY. Comparing only neighbours in (cookie, creation) order finds a reused pointer
      exactly when the version-1 comparison of every pair does. */
  lemma {:induction false} AdjacentReuseIsAnyClash(epochs: seq<Epoch>)
    requires UniqueEpochs(epochs)
    requires forall e :: e in epochs && e.destroy.Some? ==> e.creation < e.destroy.value
    ensures AdjacentReuse(SortEpochs(epochs)) <==> V1.AnyCookieClash(epochs)
  {
    var sorted := SortEpochs(epochs);
    SortEpochsOrdered(epochs);
    SortedSame(epochs);
    ClashesPermute(epochs);
    ClashesPermute(sorted);
    hide V1.CookieClash, SortEpochs, OrderedEpochs, UniqueEpochs;
    assert PairClash(epochs) <==> PairClash(sorted);
    hide PairClash;
    if AdjacentReuse(sorted) { ReuseClashes(sorted); } else { NoReuseNoClash(sorted); }
  }

  lemma {:induction false} SortedSame(epochs: seq<Epoch>)
    requires UniqueEpochs(epochs)
    ensures Distinct(epochs) && Distinct(SortEpochs(epochs))
    ensures forall e :: e in SortEpochs(epochs) <==> e in epochs
  {
    var sorted := SortEpochs(epochs);
    hide SortEpochs;
    PermutationDistinct(epochs, sorted);
    forall e ensures e in sorted <==> e in epochs {
      assert e in sorted <==> e in multiset(sorted);
      assert e in epochs <==> e in multiset(epochs);
    }
  }

  lemma {:induction false} ReuseClashes(sorted: seq<Epoch>)
    requires OrderedEpochs(sorted) && AdjacentReuse(sorted)
    ensures V1.AnyCookieClash(sorted)
  {
    var i :| 0 <= i < |sorted| - 1 && sorted[i].cookie == sorted[i+1].cookie &&
      (sorted[i].destroy.None? || sorted[i].destroy.value >= sorted[i+1].creation);
    assert EpochPrecedes(sorted[i], sorted[i+1]);
    assert V1.CookieClash(sorted[i], sorted[i+1]);
  }

  lemma {:induction false} NoReuseNoClash(sorted: seq<Epoch>)
    requires OrderedEpochs(sorted) && !AdjacentReuse(sorted)
    requires forall e :: e in sorted && e.destroy.Some? ==> e.creation < e.destroy.value
    ensures !V1.AnyCookieClash(sorted)
  {
    forall i, k | 0 <= i < k < |sorted| ensures !V1.CookieClash(sorted[i], sorted[k]) {
      assert EpochPrecedes(sorted[i], sorted[i+1]);
      assert EpochPrecedes(sorted[i], sorted[k]);
      assert i + 1 < k ==> EpochPrecedes(sorted[i+1], sorted[k]);
      assert sorted[i] in sorted;
    }
  }
}
