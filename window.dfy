/** The `SlidingNewImage` of `PercentileFilter::apply`: a buffer of slots
    and two counted selection trees over it.  A slot is live in at most one
    tree: the `maxHeap` holds the low partition and points at its largest
    value, the `minHeap` holds the high partition and points at its smallest
    value. */
module Window {
  import Circular
  import opened Tree

  /** `int(x)` for a float x: truncation toward zero. */
  function Trunc(x: real): (k: int)
    ensures 0.0 <= x ==> k as real <= x < k as real + 1.0
    ensures x < 0.0 ==> k as real - 1.0 < x <= k as real
  {
    if x >= 0.0 then x.Floor else -((-x).Floor)
  }

  /** The product `total * (1 - percentile)` for a count `total`, written
      as a sum of `total` equal terms; `ShareProduct` proves it equal to the
      product. */
  function Share(total: int, percentile: real): real
    decreases total
  {
    if total <= 0 then 0.0 else Share(total - 1, percentile) + (1.0 - percentile)
  }

  lemma {:induction false} ShareProduct(total: nat, percentile: real)
    ensures Share(total, percentile) == total as real * (1.0 - percentile)
  {
    if total > 0 {
      ShareProduct(total - 1, percentile);
      assert total as real * (1.0 - percentile) == (total - 1) as real * (1.0 - percentile) + (1.0 - percentile);
    }
  }

  /** `desiredMinHeapSize`: how many of `total` live values `rebalance`
      keeps in the high partition for a given percentile. */
  function Desired(total: int, percentile: real): (d: int)
    ensures total >= 1 ==> 0 <= d <= total - 1
  {
    Circular.Clamp(Trunc(Share(total, percentile)), 0, total - 1)
  }

  /** For the median, the low partition keeps the lower half, rounded up. */
  lemma MedianSplit(total: int)
    requires total >= 1
    ensures total - Desired(total, 0.5) == (total + 1) / 2
  {
    var half := total / 2;
    ShareProduct(total, 0.5);
    assert total as real * (1.0 - 0.5) == half as real + (total % 2) as real * 0.5;
    assert Trunc(Share(total, 0.5)) == half;
  }

  /** Every value of the low partition lies at or below every value of the
      high partition. */
  ghost predicate Ordered(buf: seq<real>, low: set<int>, high: set<int>) {
    forall i, j :: i in low && j in high && 0 <= i < |buf| && 0 <= j < |buf| ==> buf[i] <= buf[j]
  }

  /** v is the largest value in the slots of `low`. */
  ghost predicate IsMax(buf: seq<real>, low: set<int>, v: real) {
    (exists i :: i in low && 0 <= i < |buf| && buf[i] == v) &&
    forall i :: i in low && 0 <= i < |buf| ==> buf[i] <= v
  }

  ghost predicate IsMin(buf: seq<real>, high: set<int>, v: real) {
    (exists i :: i in high && 0 <= i < |buf| && buf[i] == v) &&
    forall i :: i in high && 0 <= i < |buf| ==> v <= buf[i]
  }

  /** Where `insert` puts a value: into the low partition when the window is
      empty or when the value is below the pivot `p`. */
  function Place(empty: bool, val: real, p: real): (toLow: bool)
    ensures toLow <==> empty || val < p
  {
    empty || val < p
  }

  /** Inserting keeps the partitions ordered when the pivot it compares with
      is the largest low value, or when the window was empty. */
  lemma InsertOrdered(buf: seq<real>, low: set<int>, high: set<int>, key: int, val: real, p: real)
    requires Ordered(buf, low, high) && 0 <= key < |buf| && key !in low + high
    requires (low == {} && high == {}) || IsMax(buf, low, p)
    ensures var toLow := Place(low + high == {}, val, p);
      Ordered(buf[key := val], if toLow then low + {key} else low, if toLow then high else high + {key})
  {
    var buf' := buf[key := val];
    if low != {} {
      var i0 :| i0 in low && 0 <= i0 < |buf| && buf[i0] == p;
      if !Place(low + high == {}, val, p) {
        forall i, j | i in low && j in high + {key} && 0 <= i < |buf'| && 0 <= j < |buf'|
          ensures buf'[i] <= buf'[j]
        {
          if j == key {
            assert buf'[i] == buf[i] <= p <= val;
          }
        }
      } else {
        forall i, j | i in low + {key} && j in high && 0 <= i < |buf'| && 0 <= j < |buf'|
          ensures buf'[i] <= buf'[j]
        {
          if i == key {
            assert buf[i0] <= buf[j];
          }
        }
      }
    }
  }

  /** Where `insert` should put a value so that the partitions stay
      ordered: when the low partition is empty the pivot `p` is stale, so
      the value goes low only if it lies below the smallest high value `q`
      (or if the high partition is empty too). */
  function PlaceChecked(lowEmpty: bool, highEmpty: bool, val: real, p: real, q: real): (toLow: bool)
    ensures !lowEmpty ==> (toLow <==> val < p)
    ensures lowEmpty ==> (toLow <==> highEmpty || val < q)
  {
    if lowEmpty then highEmpty || val < q else val < p
  }

  /** With `p` the largest low value and `q` the smallest high value, the
      checked placement keeps the partitions ordered whatever the state. */
  lemma CheckedOrdered(buf: seq<real>, low: set<int>, high: set<int>, key: int, val: real, p: real, q: real)
    requires Ordered(buf, low, high) && 0 <= key < |buf| && key !in low + high
    requires low != {} ==> IsMax(buf, low, p)
    requires high != {} ==> IsMin(buf, high, q)
    ensures var toLow := PlaceChecked(low == {}, high == {}, val, p, q);
      Ordered(buf[key := val], if toLow then low + {key} else low, if toLow then high else high + {key})
  {
    var buf' := buf[key := val];
    if PlaceChecked(low == {}, high == {}, val, p, q) {
      forall i, j | i in low + {key} && j in high && 0 <= i < |buf'| && 0 <= j < |buf'|
        ensures buf'[i] <= buf'[j]
      {
        if i == key && low != {} {
          var i0 :| i0 in low && 0 <= i0 < |buf| && buf[i0] == p;
          assert buf[i0] <= buf[j];
        }
      }
    } else {
      forall i, j | i in low && j in high + {key} && 0 <= i < |buf'| && 0 <= j < |buf'|
        ensures buf'[i] <= buf'[j]
      {
        if j == key {
          assert buf'[i] == buf[i] <= p <= val;
        }
      }
    }
  }

  /** The placement as written breaks the order.  The low partition has
      just lost its only slot to a `remove`, so the max-tree's root points
      at a dead slot and `pivot()` reads whatever that slot last held, here
      0.0.  A value of -1.0 then goes low although the high partition holds
      -5.0.  With a percentile of 0 and three live values, `rebalance`
      wants two of them high, finds two, moves nothing, and the pivot
      reported as the minimum is -1.0, above two of the three values.  The
      checked placement sends -1.0 to the high partition instead.
      The buffer is cut down to three slots.  In the full 1x4 trace the
      dead slot the root names is slot 0 and -1.0 is stored in another
      slot; here both roles are given to slot 0, which holds the stale 0.0
      before the insert and -1.0 after it.  Slots 1 and 2 are the two high
      -5.0 values, and no other live slot takes part. */
  lemma StalePivot()
    ensures Ordered([0.0, -5.0, -5.0], {}, {1, 2})
    ensures Place(false, -1.0, 0.0)
    ensures !Ordered([-1.0, -5.0, -5.0], {0}, {1, 2})
    ensures Desired(3, 0.0) == 2 && IsMax([-1.0, -5.0, -5.0], {0}, -1.0)
    ensures {1, 2} <= set i | i in {0, 1, 2} && [-1.0, -5.0, -5.0][i] < -1.0
    ensures !PlaceChecked(true, false, -1.0, 0.0, -5.0)
  {
    var buf := [-1.0, -5.0, -5.0];
    assert buf[0] > buf[1];
    assert Share(3, 0.0) == 3.0;
    assert buf[0] == -1.0;
  }

  /** Moving the smallest high value into the low partition keeps the
      partitions ordered. */
  lemma MoveDownOrdered(buf: seq<real>, low: set<int>, high: set<int>, k: int)
    requires Ordered(buf, low, high) && k in high && 0 <= k < |buf| && IsMin(buf, high, buf[k])
    ensures Ordered(buf, low + {k}, high - {k})
  {
  }

  /** Moving the largest low value into the high partition keeps the
      partitions ordered. */
  lemma MoveUpOrdered(buf: seq<real>, low: set<int>, high: set<int>, k: int)
    requires Ordered(buf, low, high) && k in low && 0 <= k < |buf| && IsMax(buf, low, buf[k])
    ensures Ordered(buf, low - {k}, high + {k})
  {
  }

  lemma DisjointSize(a: set<int>, b: set<int>)
    requires a !! b
    ensures |a + b| == |a| + |b|
  {
    assert a * b == {};
  }

  /** Moving one slot from one partition to the other keeps their union. */
  lemma MoveKeepsLive(from: set<int>, to: set<int>, k: int)
    requires k in from
    ensures (to + {k}) + (from - {k}) == to + from
    ensures (from - {k}) + (to + {k}) == from + to
  {
  }

  lemma SubsetSize<T>(a: set<T>, b: set<T>)
    requires a <= b
    ensures |a| <= |b|
  {
    assert b == a + (b - a);
  }

  /** With ordered partitions and the pivot the largest low value, the pivot
      has rank |low| among the live values: fewer than |low| values lie
      below it and at least |low| lie at or below it. */
  lemma PivotRank(buf: seq<real>, low: set<int>, high: set<int>, v: real)
    requires low !! high && Ordered(buf, low, high) && IsMax(buf, low, v)
    requires forall i :: i in low + high ==> 0 <= i < |buf|
    ensures |set i | i in low + high && buf[i] < v| < |low|
    ensures |low| <= |set i | i in low + high && buf[i] <= v|
  {
    var i0 :| i0 in low && 0 <= i0 < |buf| && buf[i0] == v;
    var below := set i | i in low + high && buf[i] < v;
    assert below <= low - {i0};
    SubsetSize(below, low - {i0});
    SubsetSize(low, set i | i in low + high && buf[i] <= v);
  }

  /** The window of `PercentileFilter::apply`. */
  class SlidingNewImage {
    var buf: seq<real>
    var minHeap: seq<Node>
    var maxHeap: seq<Node>

    /** Both trees are sound over the buffer, they have the same size, and no
        slot is live in both. */
    ghost predicate Valid()
      reads this
    {
      Pair(buf, minHeap, maxHeap)
    }

    /** The low partition: the slots live in the max-tree. */
    ghost function Low(): set<int>
      reads this
    {
      Live(maxHeap, |buf|)
    }

    /** The high partition: the slots live in the min-tree. */
    ghost function High(): set<int>
      reads this
    {
      Live(minHeap, |buf|)
    }

    /** `SlidingNewImage(maxKey)`: `maxKey` zeroed slots, and trees of the
        smallest complete size with at least `2 * maxKey - 1` nodes, every
        leaf pointing at its slot and nothing live. */
    constructor (maxKey: int)
      requires maxKey >= 1
      ensures Valid() && |buf| == maxKey && Low() == {} && High() == {}
      ensures forall k :: 0 <= k < maxKey ==> buf[k] == 0.0
      ensures Full(|minHeap|) && 2 * maxKey - 1 <= |minHeap| && (|minHeap| - 1) / 2 < 2 * maxKey - 1
    {
      var b := seq(maxKey, _ => 0.0);
      var heapSize := 1;
      while heapSize < 2 * |b| - 1
        invariant Full(heapSize) && (heapSize - 1) / 2 < 2 * |b| - 1
        decreases 2 * |b| - heapSize
      {
        heapSize := heapSize + heapSize + 1;
      }
      var mins := seq(heapSize, _ => Node(0, 0));
      var maxs := seq(heapSize, _ => Node(0, 0));
      var i := 0;
      while i < |b|
        invariant 0 <= i <= |b| && |mins| == |maxs| == heapSize
        invariant forall q :: 0 <= q < heapSize ==> mins[q].second == 0 && maxs[q].second == 0
        invariant forall q :: 0 <= q < heapSize ==> 0 <= mins[q].first < |b| && 0 <= maxs[q].first < |b|
        invariant forall k :: 0 <= k < i ==> mins[Leaf(|b|, k)].first == k && maxs[Leaf(|b|, k)].first == k
      {
        mins := mins[i + |b| - 1 := Node(i, mins[i + |b| - 1].second)];
        maxs := maxs[i + |b| - 1 := Node(i, maxs[i + |b| - 1].second)];
        i := i + 1;
      }
      DeadTree(mins, b, |b|, true);
      DeadTree(maxs, b, |b|, false);
      buf, minHeap, maxHeap := b, mins, maxs;
    }

    /** `isEmpty()`: nothing is live in either tree. */
    method IsEmpty() returns (empty: bool)
      requires Valid()
      ensures empty <==> Low() + High() == {}
    {
      RootSummary(minHeap, buf, |buf|, true);
      RootSummary(maxHeap, buf, |buf|, false);
      empty := (maxHeap[0].second + minHeap[0].second) == 0;
    }

    /** `pivot()`: the value the max-tree's root points at, which is the
        largest low value whenever the low partition is not empty. */
    method Pivot() returns (v: real)
      requires Valid()
      ensures 0 <= maxHeap[0].first < |buf| && v == buf[maxHeap[0].first]
      ensures Low() != {} ==> IsMax(buf, Low(), v)
    {
      RootSummary(maxHeap, buf, |buf|, false);
      v := buf[maxHeap[0].first];
    }

    /** `updateFrom(pos)`: repair both trees after leaf `pos` was set live or
        dead (and the buffer changed at a slot dead in both). */
    method UpdateFrom(pos: int, ghost min0: seq<Node>, ghost max0: seq<Node>, ghost buf0: seq<real>)
      requires Touched(min0, buf0, minHeap, buf, |buf|, true, pos)
      requires Touched(max0, buf0, maxHeap, buf, |buf|, false, pos)
      requires Shape(minHeap, |buf|) && Shape(maxHeap, |buf|) && |minHeap| == |maxHeap|
      requires Live(minHeap, |buf|) !! Live(maxHeap, |buf|)
      modifies this
      ensures Valid() && buf == old(buf)
      ensures High() == Live(old(minHeap), |buf|) && Low() == Live(old(maxHeap), |buf|)
    {
      ghost var mins, maxs := minHeap, maxHeap;
      minHeap := Climb(minHeap, buf, |buf|, true, pos, min0, buf0);
      maxHeap := Climb(maxHeap, buf, |buf|, false, pos, max0, buf0);
      SameLeaves(mins, minHeap, |buf|);
      SameLeaves(maxs, maxHeap, |buf|);
      RootSummary(minHeap, buf, |buf|, true);
      RootSummary(maxHeap, buf, |buf|, false);
    }

    /** The leaf stores that `insert`, `remove` and both `rebalance` loops
        make before `updateFrom`: slot `key` becomes live in the max-tree iff
        `low` is 1 and live in the min-tree iff `high` is 1. */
    method SetSlot(key: int, low: int, high: int)
      requires Valid() && 0 <= key < |buf| && 0 <= low <= 1 && 0 <= high <= 1 && low + high <= 1
      modifies this
      ensures Valid() && buf == old(buf)
      ensures Low() == if low == 1 then old(Low()) + {key} else old(Low()) - {key}
      ensures High() == if high == 1 then old(High()) + {key} else old(High()) - {key}
    {
      ghost var min0, max0 := minHeap, maxHeap;
      var heapIdx := key + |buf| - 1;
      maxHeap := maxHeap[heapIdx := Node(maxHeap[heapIdx].first, low)];
      minHeap := minHeap[heapIdx := Node(minHeap[heapIdx].first, high)];
      SetLeaf(max0, |buf|, key, low);
      SetLeaf(min0, |buf|, key, high);
      UpdateFrom(heapIdx, min0, max0, buf);
    }

    /** `insert(key, val)`: store the value, put the slot in the low partition
        if the window was empty or the value is below the pivot read before
        the store, and in the high partition otherwise. */
    method Insert(key: int, val: real)
      requires Valid() && 0 <= key < |buf| && key !in Low() + High()
      modifies this
      ensures Valid() && buf == old(buf)[key := val]
      ensures var toLow := Place(old(Low() + High()) == {}, val, old(buf[maxHeap[0].first]));
        Low() == (if toLow then old(Low()) + {key} else old(Low())) &&
        High() == (if toLow then old(High()) else old(High()) + {key})
    {
      ghost var buf0 := buf;
      var p := Pivot();
      buf := buf[key := val];
      PairBufferChange(buf0, minHeap, maxHeap, key, val);
      var empty := IsEmpty();
      var toLow := empty || val < p;
      SetSlot(key, if toLow then 1 else 0, if toLow then 0 else 1);
    }

    /** What the two roots say: the values they point at and whether each
        partition is empty; each value is the extreme of its partition
        whenever that partition is not empty. */
    method Ends() returns (p: real, q: real, lowEmpty: bool, highEmpty: bool)
      requires Valid()
      ensures p == buf[maxHeap[0].first] && q == buf[minHeap[0].first]
      ensures (lowEmpty <==> Low() == {}) && (highEmpty <==> High() == {})
      ensures Low() != {} ==> IsMax(buf, Low(), p)
      ensures High() != {} ==> IsMin(buf, High(), q)
    {
      p := Pivot();
      RootSummary(minHeap, buf, |buf|, true);
      RootSummary(maxHeap, buf, |buf|, false);
      q := buf[minHeap[0].first];
      lowEmpty, highEmpty := maxHeap[0].second == 0, minHeap[0].second == 0;
    }

    /** `insert(key, val)` with the checked placement: the same leaf stores
        and repair, but when the low partition is empty the value is compared
        with the smallest high value instead of the stale pivot.  Ordered
        partitions stay ordered. */
    method InsertChecked(key: int, val: real)
      requires Valid() && 0 <= key < |buf| && key !in Low() + High()
      modifies this
      ensures Valid() && buf == old(buf)[key := val]
      ensures var toLow := PlaceChecked(old(Low()) == {}, old(High()) == {}, val,
                                        old(buf[maxHeap[0].first]), old(buf[minHeap[0].first]));
        Low() == (if toLow then old(Low()) + {key} else old(Low())) &&
        High() == (if toLow then old(High()) else old(High()) + {key})
      ensures Low() + High() == old(Low() + High()) + {key}
      ensures Ordered(old(buf), old(Low()), old(High())) ==> Ordered(buf, Low(), High())
    {
      ghost var buf0, low, high := buf, Low(), High();
      var p, q, lowEmpty, highEmpty := Ends();
      var toLow := PlaceChecked(lowEmpty, highEmpty, val, p, q);
      assert toLow == PlaceChecked(low == {}, high == {}, val, p, q);
      buf := buf[key := val];
      PairBufferChange(buf0, minHeap, maxHeap, key, val);
      assert Low() == low && High() == high;
      assert low - {key} == low && high - {key} == high;
      SetSlot(key, if toLow then 1 else 0, if toLow then 0 else 1);
      if Ordered(buf0, low, high) {
        CheckedOrdered(buf0, low, high, key, val, p, q);
      }
    }

    /** `remove(key)`: the slot becomes dead in both trees. */
    method Remove(key: int)
      requires Valid() && 0 <= key < |buf|
      modifies this
      ensures Valid() && buf == old(buf)
      ensures Low() == old(Low()) - {key} && High() == old(High()) - {key}
      ensures Low() + High() == old(Low() + High()) - {key}
      ensures Ordered(buf, old(Low()), old(High())) ==> Ordered(buf, Low(), High())
    {
      SetSlot(key, 0, 0);
    }

    /** One step of `rebalance`'s first loop: the slot the min-tree's root
        points at, the smallest high value, moves to the low partition. */
    method MoveDown() returns (ghost k: int)
      requires Valid() && minHeap[0].second != 0
      modifies this
      ensures Valid() && buf == old(buf)
      ensures k in old(High()) && IsMin(buf, old(High()), buf[k])
      ensures Low() == old(Low()) + {k} && High() == old(High()) - {k}
      ensures Low() + High() == old(Low() + High())
      ensures minHeap[0].second == old(minHeap[0].second) - 1
      ensures maxHeap[0].second == old(maxHeap[0].second) + 1
      ensures Ordered(buf, old(Low()), old(High())) ==> Ordered(buf, Low(), High())
    {
      RootSummary(minHeap, buf, |buf|, true);
      RootSummary(maxHeap, buf, |buf|, false);
      k := minHeap[0].first;
      assert IsMin(buf, High(), buf[k]);
      ghost var low, high := Low(), High();
      SetSlot(minHeap[0].first, 1, 0);
      MoveKeepsLive(high, low, k);
      if Ordered(buf, low, high) {
        MoveDownOrdered(buf, low, high, k);
      }
      RootSummary(minHeap, buf, |buf|, true);
      RootSummary(maxHeap, buf, |buf|, false);
    }

    /** One step of `rebalance`'s second loop: the slot the max-tree's root
        points at, the largest low value, moves to the high partition. */
    method MoveUp() returns (ghost k: int)
      requires Valid() && maxHeap[0].second != 0
      modifies this
      ensures Valid() && buf == old(buf)
      ensures k in old(Low()) && IsMax(buf, old(Low()), buf[k])
      ensures Low() == old(Low()) - {k} && High() == old(High()) + {k}
      ensures Low() + High() == old(Low() + High())
      ensures minHeap[0].second == old(minHeap[0].second) + 1
      ensures maxHeap[0].second == old(maxHeap[0].second) - 1
      ensures Ordered(buf, old(Low()), old(High())) ==> Ordered(buf, Low(), High())
    {
      RootSummary(minHeap, buf, |buf|, true);
      RootSummary(maxHeap, buf, |buf|, false);
      k := maxHeap[0].first;
      assert IsMax(buf, Low(), buf[k]);
      ghost var low, high := Low(), High();
      SetSlot(maxHeap[0].first, 0, 1);
      MoveKeepsLive(low, high, k);
      if Ordered(buf, low, high) {
        MoveUpOrdered(buf, low, high, k);
      }
      RootSummary(minHeap, buf, |buf|, true);
      RootSummary(maxHeap, buf, |buf|, false);
    }

    /** `rebalance`'s first loop: while the high partition holds more than
        `desired` values, its smallest moves to the low partition. */
    method ShrinkHigh(desired: int)
      requires Valid() && 0 <= desired
      modifies this
      ensures Valid() && buf == old(buf) && Low() + High() == old(Low() + High())
      ensures |High()| == if old(|High()|) > desired then desired else old(|High()|)
      ensures Ordered(buf, old(Low()), old(High())) ==> Ordered(buf, Low(), High())
    {
      RootSummary(minHeap, buf, |buf|, true);
      ghost var live := Low() + High();
      ghost var ordered := Ordered(buf, Low(), High());
      ghost var size := minHeap[0].second;
      while minHeap[0].second > desired
        invariant Valid() && buf == old(buf) && Low() + High() == live
        invariant (if size > desired then desired else size) <= minHeap[0].second <= size
        invariant ordered ==> Ordered(buf, Low(), High())
        decreases minHeap[0].second
      {
        ghost var k := MoveDown();
      }
      RootSummary(minHeap, buf, |buf|, true);
    }

    /** `rebalance`'s second loop: while the high partition holds fewer than
        `desired` values, the largest low value moves into it. */
    method GrowHigh(desired: int)
      requires Valid() && desired <= |Low() + High()|
      modifies this
      ensures Valid() && buf == old(buf) && Low() + High() == old(Low() + High())
      ensures |High()| == if old(|High()|) < desired then desired else old(|High()|)
      ensures Ordered(buf, old(Low()), old(High())) ==> Ordered(buf, Low(), High())
    {
      RootSummary(minHeap, buf, |buf|, true);
      RootSummary(maxHeap, buf, |buf|, false);
      DisjointSize(Low(), High());
      ghost var live := Low() + High();
      ghost var ordered := Ordered(buf, Low(), High());
      ghost var size := minHeap[0].second;
      ghost var total := minHeap[0].second + maxHeap[0].second;
      assert desired <= total;
      while minHeap[0].second < desired
        invariant Valid() && buf == old(buf) && Low() + High() == live
        invariant minHeap[0].second + maxHeap[0].second == total
        invariant size <= minHeap[0].second <= (if size < desired then desired else size)
        invariant ordered ==> Ordered(buf, Low(), High())
        decreases desired - minHeap[0].second
      {
        ghost var k := MoveUp();
      }
      RootSummary(minHeap, buf, |buf|, true);
    }

    /** `rebalance(percentile)`: move root values across until the high
        partition holds `Desired(total, percentile)` of the `total` live
        values.  The live slots stay the same, and ordered partitions stay
        ordered. */
    method Rebalance(percentile: real)
      requires Valid() && Low() + High() != {}
      modifies this
      ensures Valid() && buf == old(buf)
      ensures Low() + High() == old(Low() + High())
      ensures |High()| == Desired(|old(Low() + High())|, percentile)
      ensures Ordered(buf, old(Low()), old(High())) ==> Ordered(buf, Low(), High())
    {
      RootSummary(minHeap, buf, |buf|, true);
      RootSummary(maxHeap, buf, |buf|, false);
      DisjointSize(Low(), High());
      ghost var size := |Low() + High()|;
      var total := maxHeap[0].second + minHeap[0].second;
      assert total == size;
      var desiredMinHeapSize := Desired(total, percentile);
      ShrinkHigh(desiredMinHeapSize);
      GrowHigh(desiredMinHeapSize);
      assert |High()| == desiredMinHeapSize;
    }
  }
}
