/** A set of unsigned numbers kept as disjoint intervals inside a ground range (libdevcore/RangeMask.h).

  The map from begin to end is the list of its pairs in order. */
module RangeMasks {
  const UNSIGNED := 0x1_0000_0000

  /** [begin, end). */
  datatype Range = Range(begin: nat, end: nat)

  predicate Within(r: Range, x: nat) {
    r.begin <= x < r.end
  }

  /** Ranges are not empty, in order, and do not touch. */
  ghost predicate Separated(ranges: seq<Range>) {
    && (forall k :: 0 <= k < |ranges| ==> ranges[k].begin < ranges[k].end)
    && (forall j, k :: 0 <= j < k < |ranges| ==> ranges[j].end < ranges[k].begin)
  }

  ghost predicate Inside(ranges: seq<Range>, all: Range) {
    forall k :: 0 <= k < |ranges| ==> all.begin <= ranges[k].begin && ranges[k].end <= all.end
  }

  ghost predicate In(ranges: seq<Range>, x: nat) {
    exists k :: 0 <= k < |ranges| && Within(ranges[k], x)
  }

  /** upper_bound: the first range that begins after x. */
  function UpperBound(ranges: seq<Range>, x: nat): (u: nat)
    ensures u <= |ranges|
    ensures Separated(ranges) ==> forall k :: 0 <= k < u ==> ranges[k].begin <= x
    ensures Separated(ranges) ==> forall k :: u <= k < |ranges| ==> x < ranges[k].begin
  {
    if ranges == [] || x < ranges[0].begin then 0 else 1 + UpperBound(ranges[1..], x)
  }

  /** The range before the bound is the only one that can hold x. */
  lemma InLast(ranges: seq<Range>, x: nat)
    requires Separated(ranges)
    ensures var u := UpperBound(ranges, x); In(ranges, x) <==> u > 0 && Within(ranges[u - 1], x)
  {
    var u := UpperBound(ranges, x);
    if u > 0 && Within(ranges[u - 1], x) {
      assert In(ranges, x);
    }
  }

  /** A new range in place of those from `lo` to `hi`. */
  lemma Spliced(ranges: seq<Range>, lo: nat, hi: nat, r: Range)
    requires Separated(ranges) && lo <= hi <= |ranges| && r.begin < r.end
    requires (lo > 0 ==> ranges[lo - 1].end < r.begin) && (hi < |ranges| ==> r.end < ranges[hi].begin)
    ensures Separated(ranges[..lo] + [r] + ranges[hi..])
    ensures forall x: nat ::
      In(ranges[..lo] + [r] + ranges[hi..], x) <==> In(ranges[..lo], x) || Within(r, x) || In(ranges[hi..], x)
  {
    var spliced := ranges[..lo] + [r] + ranges[hi..];
    forall j, k | 0 <= j < k < |spliced|
      ensures spliced[j].end < spliced[k].begin
    {
      if j < lo && k > lo {
        assert spliced[k] == ranges[hi + (k - lo - 1)];
      }
    }
    InBoth(ranges[..lo] + [r], ranges[hi..]);
    InBoth(ranges[..lo], [r]);
    InOne(r);
  }

  lemma InOne(r: Range)
    ensures forall x: nat :: In([r], x) <==> Within(r, x)
  {
    forall x: nat
      ensures In([r], x) <==> Within(r, x)
    {
      assert Within(r, x) ==> Within([r][0], x);
    }
  }

  lemma InBoth(a: seq<Range>, b: seq<Range>)
    ensures forall x: nat :: In(a + b, x) <==> In(a, x) || In(b, x)
  {
    forall x: nat
      ensures In(a + b, x) <==> In(a, x) || In(b, x)
    {
      if In(a, x) {
        var k :| 0 <= k < |a| && Within(a[k], x);
        assert Within((a + b)[k], x);
      }
      if In(b, x) {
        var k :| 0 <= k < |b| && Within(b[k], x);
        assert Within((a + b)[|a| + k], x);
      }
    }
  }

  // ---------------------------------------------------------------- counting

  function Interval(begin: nat, end: nat): set<nat> {
    set x: nat | begin <= x < end && Within(Range(begin, end), x)
  }

  lemma NoElements()
    ensures Elements([]) == {}
  {
  }

  lemma {:induction false} IntervalSize(begin: nat, end: nat)
    requires begin <= end
    ensures |Interval(begin, end)| == end - begin
    decreases end - begin
  {
    if begin < end {
      IntervalSize(begin, end - 1);
      assert Interval(begin, end) == Interval(begin, end - 1) + {end - 1};
    }
  }

  ghost function Elements(ranges: seq<Range>): (elements: set<nat>)
    ensures forall x :: x in elements <==> In(ranges, x)
  {
    if ranges == [] then {}
    else
      var n := |ranges|;
      assert ranges == ranges[..n - 1] + [ranges[n - 1]];
      InBoth(ranges[..n - 1], [ranges[n - 1]]);
      InOne(ranges[n - 1]);
      Elements(ranges[..n - 1]) + Interval(ranges[n - 1].begin, ranges[n - 1].end)
  }

  lemma ElementsSnoc(ranges: seq<Range>)
    requires Separated(ranges) && ranges != []
    ensures var n := |ranges|;
      |Elements(ranges)| == |Elements(ranges[..n - 1])| + (ranges[n - 1].end - ranges[n - 1].begin)
  {
    var n := |ranges|;
    IntervalSize(ranges[n - 1].begin, ranges[n - 1].end);
    assert Elements(ranges[..n - 1]) !! Interval(ranges[n - 1].begin, ranges[n - 1].end);
  }

  /** The least range that covers both. */
  function Hull(a: Range, b: Range): (hull: Range)
    ensures hull.begin <= a.begin && hull.begin <= b.begin && (hull.begin == a.begin || hull.begin == b.begin)
    ensures hull.end >= a.end && hull.end >= b.end && (hull.end == a.end || hull.end == b.end)
  {
    Range(if b.begin < a.begin then b.begin else a.begin, if b.end > a.end then b.end else a.end)
  }

  lemma StillInside(ranges: seq<Range>, all: Range, more: Range)
    requires Inside(ranges, all) && more.begin <= all.begin && all.end <= more.end
    ensures Inside(ranges, more)
  {
  }

  lemma RangeInside(ranges: seq<Range>, all: Range, k: nat)
    requires Inside(ranges, all) && k < |ranges|
    ensures all.begin <= ranges[k].begin && ranges[k].end <= all.end
  {
  }

  lemma InNothing()
    ensures forall x: nat :: !In([], x)
  {
  }

  // ---------------------------------------------------------------- the smallest elements

  /** So many elements of the mask, or all if there are fewer, and none left out is smaller than any of them. */
  ghost predicate SmallestOf(some: seq<Range>, ranges: seq<Range>, items: nat) {
    && |Elements(some)| == (if items < |Elements(ranges)| then items else |Elements(ranges)|)
    && Elements(some) <= Elements(ranges)
    && forall x, y :: x in Elements(some) && y in Elements(ranges) - Elements(some) ==> x < y
  }

  /** The sum of where a range begins and how many elements are still wanted stays an unsigned number. */
  ghost predicate FitsAt(ranges: seq<Range>, k: nat, items: nat)
    requires k < |ranges|
  {
    ranges[k].begin + (items - |Elements(ranges[..k])|) < UNSIGNED
  }

  ghost predicate NoWrap(ranges: seq<Range>, items: nat) {
    forall k :: 0 <= k < |ranges| && |Elements(ranges[..k])| < items ==> FitsAt(ranges, k, items)
  }

  /** Taken is everything before range k and of range k as many elements as are still wanted, as 32 bits add up. */
  ghost predicate CutAt(taken: seq<Range>, ranges: seq<Range>, k: nat, items: nat)
    requires k < |ranges|
  {
    var left := items - |Elements(ranges[..k])|;
    && 0 < left
    && taken == ranges[..k] + [Range(ranges[k].begin, (ranges[k].begin + left) % UNSIGNED)]
    && (FitsAt(ranges, k, items) ==> ranges[k].begin + left <= ranges[k].end)
    && (!FitsAt(ranges, k, items) ==> (ranges[k].begin + left) % UNSIGNED < ranges[k].begin)
  }

  class RangeMask {
    var all: Range
    var ranges: seq<Range>

    ghost predicate Valid()
      reads this
    {
      all.begin <= all.end < UNSIGNED && Separated(ranges) && Inside(ranges, all)
    }

    ghost predicate Has(x: nat)
      reads this
    {
      In(ranges, x)
    }

    constructor (all: Range)
      requires all.begin <= all.end < UNSIGNED
      ensures Valid() && this.all == all && ranges == []
    {
      this.all, ranges := all, [];
    }

    method Contains(x: nat) returns (contains: bool)
      requires Valid()
      ensures contains <==> Has(x)
    {
      InLast(ranges, x);
      var it := UpperBound(ranges, x);
      if it == 0 {
        return false;
      }
      contains := ranges[it - 1].end > x;
    }

    /** Whether everything in the ground range is there. */
    method Full() returns (full: bool)
      requires Valid()
      ensures full <==> forall x :: Within(all, x) ==> Has(x)
    {
      full := all.begin == all.end || (|ranges| == 1 && ranges[0].begin == all.begin && ranges[0].end == all.end);
      if full {
        forall x | Within(all, x)
          ensures Has(x)
        {
          assert Within(ranges[0], x);
        }
      } else {
        var x := Missing();
        assert Within(all, x) && !Has(x);
      }
    }

    /** Some number that is not there. */
    lemma Missing() returns (x: nat)
      requires Valid() && all.begin < all.end && ranges != [all]
      ensures Within(all, x) && !Has(x)
    {
      if ranges == [] || all.begin < ranges[0].begin {
        x := all.begin;
      } else {
        x := ranges[0].end;
        assert |ranges| == 1 ==> ranges == [ranges[0]] && ranges[0] != all;
        assert |ranges| > 1 ==> ranges[0].end < ranges[1].begin < ranges[1].end <= all.end;
      }
    }

    /** size(): the number of elements. */
    method Size() returns (c: nat)
      requires Valid()
      ensures c == |Elements(ranges)|
    {
      hide Elements, Separated;
      NoElements();
      c := 0;
      for k := 0 to |ranges|
        invariant c == |Elements(ranges[..k])|
      {
        InOrder(k);
        SizeOrder(k);
        c := c + (ranges[k].end - ranges[k].begin);
      }
      assert ranges[..|ranges|] == ranges;
    }

    /** next(): the smallest element after t, or the end of the ground range. After the largest unsigned number it starts
      over from the smallest element. */
    method Next(t: nat) returns (n: nat)
      requires Valid() && t < UNSIGNED
      ensures var from := (t + 1) % UNSIGNED;
        if exists x :: x >= from && Has(x) then n >= from && Has(n) && forall x :: from <= x < n ==> !Has(x)
        else n == all.end
    {
      var from := (t + 1) % UNSIGNED;
      var uit := UpperBound(ranges, from);
      InLast(ranges, from);
      if uit > 0 && ranges[uit - 1].begin <= from && ranges[uit - 1].end > from {
        return from;
      }
      n := if uit == |ranges| then all.end else ranges[uit].begin;
      if uit < |ranges| {
        assert Within(ranges[uit], n);
      }
      forall x | from <= x && (uit < |ranges| ==> x < n)
        ensures !Has(x)
      {
        NoneBetween(from, x);
      }
    }

    /** Between a number that is not there and the next range there is nothing. */
    lemma NoneBetween(from: nat, x: nat)
      requires Valid() && from <= x && !Has(from)
      requires var u := UpperBound(ranges, from); u < |ranges| ==> x < ranges[u].begin
      ensures !Has(x)
    {
      var u := UpperBound(ranges, from);
      forall k | 0 <= k < |ranges|
        ensures !Within(ranges[k], x)
      {
        assert k < u ==> ranges[k].begin <= from && !Within(ranges[k], from);
        assert k > u ==> ranges[u].end < ranges[k].begin;
      }
    }

    /** The complement in the ground range. */
    method Inverted() returns (ret: RangeMask)
      requires Valid()
      ensures fresh(ret) && ret.Valid() && ret.all == all
      ensures forall x: nat :: In(ret.ranges, x) <==> Within(all, x) && !In(ranges, x)
    {
      hide In, Separated, Gaps;
      ret := new RangeMask(all);
      NothingInverted(all.begin);
      var last := all.begin;
      for k := 0 to |ranges|
        invariant ret.all == all && Gaps(ret.ranges, ranges[..k], all.begin, last)
        invariant last == (if k == 0 then all.begin else ranges[k - 1].end) <= all.end
      {
        PrefixSnoc(ranges, k);
        InOrder(k);
        GapAdded(ret.ranges, ranges[..k], ranges[k], all.begin, last);
        if ranges[k].begin != last {
          ret.ranges := ret.ranges + [Range(last, ranges[k].begin)];
        }
        last := ranges[k].end;
      }
      assert ranges[..|ranges|] == ranges;
      LastGap(ret.ranges, ranges, all, last);
      if last != all.end {
        ret.ranges := ret.ranges + [Range(last, all.end)];
      }
    }

    lemma InOrder(k: nat)
      requires Valid() && k < |ranges|
      ensures Separated(ranges[..k]) && all.begin <= ranges[k].begin < ranges[k].end <= all.end
      ensures k > 0 ==> ranges[k - 1].end < ranges[k].begin
    {
    }

    lemma SizeOrder(k: nat)
      requires Valid() && k < |ranges|
      ensures |Elements(ranges[..k + 1])| == |Elements(ranges[..k])| + (ranges[k].end - ranges[k].begin)
    {
      hide Elements;
      assert ranges[..k + 1][..k] == ranges[..k];
      ElementsSnoc(ranges[..k + 1]);
    }

    /** Adds a range, which has to be inside the ground range. */
    method UnionWith(m: Range)
      requires Valid() && (m.begin < m.end ==> all.begin <= m.begin && m.end <= all.end)
      modifies this`ranges
      ensures Valid()
      ensures forall x: nat :: In(ranges, x) <==> In(old(ranges), x) || Within(m, x)
      ensures m in old(ranges) ==> ranges == old(ranges)
    {
      if m in ranges {
        InItsRange(m);
      }
      hide In, Separated;
      var i := m.begin;
      while i < m.end
        invariant Valid() && m.begin <= i
        invariant m in old(ranges) ==> ranges == old(ranges) && (i == m.begin || i == m.end)
        invariant forall x: nat :: In(ranges, x) <==> In(old(ranges), x) || (m.begin <= x < i && x < m.end)
        decreases m.end - i
      {
        var done;
        i, done := UnionStep(i, m.end);
        if done {
          break;
        }
      }
    }

    lemma InItsRange(m: Range)
      requires Valid() && m in ranges
      ensures In(ranges, m.begin)
      ensures UpperBound(ranges, m.begin) > 0 && ranges[UpperBound(ranges, m.begin) - 1].end == m.end
    {
      var k :| 0 <= k < |ranges| && ranges[k] == m;
      assert Within(ranges[k], m.begin);
      InLast(ranges, m.begin);
    }

    /** Adds another mask; the ground range becomes the least that covers both. A mask may be added to itself. */
    method UnionWithMask(m: RangeMask)
      requires Valid() && m.Valid()
      modifies this
      ensures Valid() && all == Hull(old(all), old(m.all))
      ensures forall x: nat :: In(ranges, x) <==> In(old(ranges), x) || In(old(m.ranges), x)
    {
      hide In, Separated, Inside;
      StillInside(ranges, all, Hull(all, m.all));
      all := Hull(all, m.all);
      StillInside(m.ranges, m.all, all);
      InNothing();
      assert m.ranges[..0] == [];
      for k := 0 to |m.ranges|
        invariant Valid() && all == Hull(old(all), old(m.all)) && m.ranges == old(m.ranges)
        invariant forall x: nat :: In(ranges, x) <==> In(old(ranges), x) || In(m.ranges[..k], x)
      {
        PrefixSnoc(m.ranges, k);
        InBoth(m.ranges[..k], [m.ranges[k]]);
        InOne(m.ranges[k]);
        RangeInside(m.ranges, all, k);
        UnionWith(m.ranges[k]);
      }
      assert m.ranges[..|m.ranges|] == m.ranges;
    }

    /** operator-=: complement, union, complement. What is in the other mask goes, but whatever it brings into the ground
      range comes in. A mask subtracted from itself has already become its complement when it is looked at, so it stays
      what it was. The last clause says exactly when the outcome is the difference of the two sets. */
    method Subtract(m: RangeMask)
      requires Valid() && m.Valid()
      modifies this
      ensures Valid() && all == Hull(old(all), old(m.all))
      ensures m != this ==> forall x: nat ::
        In(ranges, x) <==> (In(old(ranges), x) || (Within(all, x) && !Within(old(all), x))) && !In(old(m.ranges), x)
      ensures m == this ==> forall x: nat :: In(ranges, x) <==> In(old(ranges), x)
      ensures (forall x: nat :: In(ranges, x) <==> In(old(ranges), x) && !In(old(m.ranges), x)) <==>
        if m == this then old(ranges) == [] else forall x :: Within(all, x) && !Within(old(all), x) ==> In(m.ranges, x)
    {
      if ranges != [] {
        SomethingIn();
      }
      hide In, Separated, Inside;
      OnlyInGround();
      var inverse := Inverted();
      all, ranges := inverse.all, inverse.ranges;
      UnionWithMask(m);
      inverse := Inverted();
      all, ranges := inverse.all, inverse.ranges;
    }

    lemma SomethingIn()
      requires Valid() && ranges != []
      ensures exists x: nat :: In(ranges, x)
    {
      assert Within(ranges[0], ranges[0].begin);
      assert In(ranges, ranges[0].begin);
    }

    lemma BeginsWith(least: nat)
      requires Valid() && In(ranges, least) && forall x: nat :: In(ranges, x) ==> least <= x
      ensures ranges != [] && ranges[0].begin == least
    {
      assert Within(ranges[0], ranges[0].begin);
      assert In(ranges, ranges[0].begin);
    }

    lemma OnlyInGround()
      requires Valid()
      ensures forall x: nat :: In(ranges, x) ==> Within(all, x)
    {
    }

    /** lowest(): the smallest elements, up to a number of them. */
    method Lowest(items: nat) returns (ret: RangeMask)
      requires Valid() && items < UNSIGNED
      ensures fresh(ret) && ret.all == all
      ensures ret.Valid() <==> NoWrap(ranges, items)
      ensures NoWrap(ranges, items) ==> SmallestOf(ret.ranges, ranges, items)
    {
      hide Elements, Separated, Inside, In, SmallestOf, NoWrap;
      ret := new RangeMask(all);
      var left: nat := items;
      var k := 0;
      NoElements();
      while k < |ranges| && left != 0
        invariant k <= |ranges| && ret.all == all
        invariant left != 0 || k == 0 ==> ret.ranges == ranges[..k] && left == items - |Elements(ranges[..k])|
        invariant left != 0 && k > 0 ==> FitsAt(ranges, k - 1, items)
        invariant left == 0 && k > 0 ==> CutAt(ret.ranges, ranges, k - 1, items)
        decreases |ranges| - k
      {
        InOrder(k);
        SizeOrder(k);
        PrefixSnoc(ranges, k);
        var r := ranges[k];
        var sum := (r.begin + left) % UNSIGNED;
        var end := if sum < r.end then sum else r.end;
        Taken(r, left, sum);
        ret.ranges := ret.ranges + [Range(r.begin, end)];
        left := (left - (end - r.begin)) % UNSIGNED;
        k := k + 1;
      }
      if left == 0 && k > 0 {
        CutIsSmallest(ret.ranges, k - 1, items);
      } else {
        PrefixIsSmallest(k, items);
      }
    }

    /** The arithmetic of one range. */
    lemma Taken(r: Range, left: nat, sum: nat)
      requires r.begin < r.end < UNSIGNED && 0 < left < UNSIGNED && sum == (r.begin + left) % UNSIGNED
      ensures r.begin + left >= UNSIGNED ==> sum < r.begin && (left - (sum - r.begin)) % UNSIGNED == 0
      ensures r.begin + left < UNSIGNED ==> sum == r.begin + left
      ensures sum < r.end && r.begin + left < UNSIGNED ==> (left - (sum - r.begin)) % UNSIGNED == 0
      ensures sum >= r.end ==> r.begin + left < UNSIGNED && (left - (r.end - r.begin)) % UNSIGNED == sum - r.end
    {
    }

    /** The elements before a range are no more than the numbers it begins after. */
    lemma {:induction false} CountBefore(j: nat, k: nat)
      requires Valid() && j <= k < |ranges|
      ensures 0 <= |Elements(ranges[..k])| - |Elements(ranges[..j])| <= ranges[k].begin - ranges[j].begin
      ensures |Elements(ranges[..k + 1])| > |Elements(ranges[..k])|
      decreases k
    {
      hide Elements;
      InOrder(k);
      SizeOrder(k);
      if j < k {
        CountBefore(j, k - 1);
        SizeOrder(k - 1);
      }
    }

    lemma NoWrapBefore(k: nat, items: nat)
      requires Valid() && k < |ranges| && |Elements(ranges[..k])| < items && FitsAt(ranges, k, items)
      requires k == |ranges| - 1 || items <= |Elements(ranges[..k + 1])|
      ensures NoWrap(ranges, items)
    {
      hide Elements, In, Separated, Inside;
      forall j | 0 <= j < |ranges| && |Elements(ranges[..j])| < items
        ensures ranges[j].begin + (items - |Elements(ranges[..j])|) < UNSIGNED
      {
        if j <= k {
          CountBefore(j, k);
        } else {
          CountBefore(k + 1, j);
        }
      }
    }

    lemma CutIsSmallest(taken: seq<Range>, k: nat, items: nat)
      requires Valid() && k < |ranges| && CutAt(taken, ranges, k, items)
      ensures Separated(taken) && Inside(taken, all) <==> NoWrap(ranges, items)
      ensures NoWrap(ranges, items) ==> SmallestOf(taken, ranges, items)
    {
      hide Elements;
      if FitsAt(ranges, k, items) {
        SizeOrder(k);
        NoWrapBefore(k, items);
        CutInside(taken, k, items);
        CutSmallest(taken, k, items);
      } else {
        assert !(taken[k].begin < taken[k].end);
      }
    }

    lemma CutInside(taken: seq<Range>, k: nat, items: nat)
      requires Valid() && k < |ranges| && CutAt(taken, ranges, k, items) && FitsAt(ranges, k, items)
      ensures Separated(taken) && Inside(taken, all)
    {
      hide Elements;
    }

    lemma CutSmallest(taken: seq<Range>, k: nat, items: nat)
      requires Valid() && k < |ranges| && CutAt(taken, ranges, k, items) && FitsAt(ranges, k, items)
      ensures SmallestOf(taken, ranges, items)
    {
      hide Elements, In, Separated, Inside;
      CutInside(taken, k, items);
      ElementsSnoc(taken);
      assert taken[..k] == ranges[..k];
      SizeOrder(k);
      CountWhole(k);
      CutOrdered(taken, k, items);
    }

    lemma CutOrdered(taken: seq<Range>, k: nat, items: nat)
      requires Valid() && k < |ranges| && CutAt(taken, ranges, k, items) && FitsAt(ranges, k, items)
      ensures Elements(taken) <= Elements(ranges)
      ensures forall x, y :: x in Elements(taken) && y in Elements(ranges) - Elements(taken) ==> x < y
    {
      hide Elements;
      var cut := taken[k].end;
      forall x: nat | In(taken, x)
        ensures In(ranges, x) && x < cut
      {
        var j :| 0 <= j < |taken| && Within(taken[j], x);
        assert Within(ranges[j], x);
      }
      forall y: nat | In(ranges, y) && !In(taken, y)
        ensures y >= cut
      {
        var j :| 0 <= j < |ranges| && Within(ranges[j], y);
        assert j <= k ==> !Within(taken[j], y);
      }
    }

    lemma CountWhole(k: nat)
      requires Valid() && k < |ranges|
      ensures |Elements(ranges[..k + 1])| <= |Elements(ranges)|
    {
      hide Elements;
      var last := |ranges| - 1;
      assert ranges[..last + 1] == ranges;
      if k < last {
        CountBefore(k + 1, last);
      }
    }

    lemma PrefixIsSmallest(k: nat, items: nat)
      requires Valid() && k <= |ranges| && |Elements(ranges[..k])| <= items
      requires if k == 0 then ranges == [] || items == 0
        else k == |ranges| && |Elements(ranges[..k])| < items && FitsAt(ranges, k - 1, items)
      ensures Separated(ranges[..k]) && Inside(ranges[..k], all)
      ensures NoWrap(ranges, items) && SmallestOf(ranges[..k], ranges, items)
    {
      if k > 0 {
        assert ranges[..k] == ranges;
        SizeOrder(k - 1);
        NoWrapBefore(k - 1, items);
      }
    }

    /** Covers the numbers from i on, as far as one range reaches. */
    method UnionStep(i: nat, end: nat) returns (next: nat, done: bool)
      requires Valid() && all.begin <= i < end <= all.end
      modifies this`ranges
      ensures Valid()
      ensures done ==> forall x: nat :: In(ranges, x) <==> In(old(ranges), x) || i <= x < end
      ensures !done ==> i < next
      ensures !done ==> forall x: nat :: In(ranges, x) <==> In(old(ranges), x) || (i <= x < next && x < end)
      ensures In(old(ranges), i) ==>
        !done && ranges == old(ranges) && next == ranges[UpperBound(ranges, i) - 1].end
    {
      InLast(ranges, i);
      hide In, Separated, Inside;
      InAround(i);
      var after := UpperBound(ranges, i);
      if after == 0 || ranges[after - 1].end < i {
        next, done := UnionAbove(i, end, after);
      } else if ranges[after - 1].end == i {
        next, done := UnionBelow(i, end, after);
      } else {
        next, done := ranges[after - 1].end, false;
      }
    }

    /** The range before i is too low to be merged with. */
    method UnionAbove(i: nat, end: nat, after: nat) returns (next: nat, done: bool)
      requires Valid() && all.begin <= i < end <= all.end && after == UpperBound(ranges, i)
      requires after > 0 ==> ranges[after - 1].end < i
      modifies this`ranges
      ensures Valid()
      ensures done ==> forall x: nat :: In(ranges, x) <==> In(old(ranges), x) || i <= x < end
      ensures !done ==> i < next
      ensures !done ==> forall x: nat :: In(ranges, x) <==> In(old(ranges), x) || (i <= x < next && x < end)
    {
      hide In, Separated, Inside;
      InAround(i);
      if after == |ranges| || ranges[after].begin > end {
        // nothing near: the range stands alone
        Merged(ranges, after, after, Range(i, end), all);
        ranges := ranges[..after] + [Range(i, end)] + ranges[after..];
        return end, true;
      }
      // the range above joins in; it begins after i, because the bound is strict
      next, done := ranges[after].end, false;
      Merged(ranges, after, after + 1, Range(i, next), all);
      ErasedAbove(ranges, after, Range(i, next));
      ranges := ranges[..after] + [Range(i, next)] + ranges[after..];
      ranges := Erased(ranges, after + 1);
    }

    /** The range below reaches up to i and not past it. */
    method UnionBelow(i: nat, end: nat, after: nat) returns (next: nat, done: bool)
      requires Valid() && all.begin <= i < end <= all.end && after == UpperBound(ranges, i)
      requires after > 0 && ranges[after - 1].end == i
      modifies this`ranges
      ensures Valid()
      ensures done ==> forall x: nat :: In(ranges, x) <==> In(old(ranges), x) || i <= x < end
      ensures !done ==> i < next
      ensures !done ==> forall x: nat :: In(ranges, x) <==> In(old(ranges), x) || (i <= x < next && x < end)
    {
      hide In, Separated, Inside;
      InAround(i);
      var below := ranges[after - 1].begin;
      if after == |ranges| || ranges[after].begin > end {
        // only the range below grows
        Merged(ranges, after - 1, after, Range(below, end), all);
        assert ranges[after - 1 := Range(below, end)] == ranges[..after - 1] + [Range(below, end)] + ranges[after..];
        ranges := ranges[after - 1 := Range(below, end)];
        return end, true;
      }
      // the ranges on both sides become one
      next, done := ranges[after].end, false;
      Merged(ranges, after - 1, after + 1, Range(below, next), all);
      ErasedBelow(ranges, after, Range(below, next));
      ranges := ranges[after - 1 := Range(below, next)];
      ranges := Erased(ranges, after);
    }

    /** What lies around i. */
    lemma InAround(i: nat)
      requires Valid()
      ensures var u := UpperBound(ranges, i);
        && (u > 0 ==> forall x: nat :: Within(ranges[u - 1], x) ==> In(ranges, x))
        && (u < |ranges| ==> forall x: nat :: Within(ranges[u], x) ==> In(ranges, x))
        && (u > 0 ==> all.begin <= ranges[u - 1].begin <= i && ranges[u - 1].begin < ranges[u - 1].end)
        && (u < |ranges| ==> i < ranges[u].begin < ranges[u].end <= all.end)
        && (0 < u < |ranges| ==> ranges[u - 1].end < ranges[u].begin)
        && (u > 1 ==> ranges[u - 2].end < ranges[u - 1].begin)
        && (u + 1 < |ranges| ==> ranges[u].end < ranges[u + 1].begin)
    {
    }
  }

  // ---------------------------------------------------------------- where the numbers run out

  /** The wish for almost all numbers, counted from 5, wraps around to a range that ends before it begins. */
  method LowestWraps() returns (cut: RangeMask)
    ensures !cut.Valid()
  {
    var mask := FromFive();
    FirstWraps(mask.ranges);
    cut := mask.Lowest(0xFFFF_FFFF);
  }

  lemma FirstWraps(ranges: seq<Range>)
    requires ranges != [] && ranges[0].begin > 0
    ensures !NoWrap(ranges, UNSIGNED - 1)
  {
    NoElements();
    assert ranges[..0] == [];
    assert !FitsAt(ranges, 0, UNSIGNED - 1);
  }

  /** After the largest unsigned number comes the smallest element. */
  method NextStartsOver() returns (next: nat)
    ensures next == 5
  {
    var mask := FromFive();
    next := mask.Next(0xFFFF_FFFF);
    assert mask.Has(5);
  }

  /** The numbers from 5 on, below 10. */
  method FromFive() returns (mask: RangeMask)
    ensures fresh(mask) && mask.Valid() && mask.ranges != [] && mask.ranges[0].begin == 5
    ensures forall x: nat :: In(mask.ranges, x) <==> 5 <= x < 10
  {
    mask := new RangeMask(Range(0, 10));
    InNothing();
    mask.UnionWith(Range(5, 10));
    mask.BeginsWith(5);
  }

  /** Nothing, without nothing, is something. */
  method DifferenceGrows() returns (difference: RangeMask)
    ensures difference.Valid() && difference.Has(1)
  {
    difference := new RangeMask(Range(0, 1));
    var other := new RangeMask(Range(0, 2));
    difference.Subtract(other);
    assert difference.Has(1);
  }

  function Erased(ranges: seq<Range>, k: nat): seq<Range>
    requires k < |ranges|
  {
    ranges[..k] + ranges[k + 1..]
  }

  lemma ErasedAbove(ranges: seq<Range>, k: nat, r: Range)
    requires k < |ranges|
    ensures Erased(ranges[..k] + [r] + ranges[k..], k + 1) == ranges[..k] + [r] + ranges[k + 1..]
  {
  }

  lemma ErasedBelow(ranges: seq<Range>, k: nat, r: Range)
    requires 0 < k < |ranges|
    ensures Erased(ranges[k - 1 := r], k) == ranges[..k - 1] + [r] + ranges[k + 1..]
  {
  }

  lemma PrefixSnoc(ranges: seq<Range>, k: nat)
    requires k < |ranges|
    ensures ranges[..k + 1] == ranges[..k] + [ranges[k]]
  {
  }

  /** A range takes the place of those it covers. */
  lemma Merged(ranges: seq<Range>, lo: nat, hi: nat, r: Range, all: Range)
    requires Inside(ranges, all) && all.begin <= r.begin && r.end <= all.end
    requires Separated(ranges) && lo <= hi <= |ranges| && r.begin < r.end
    requires (lo > 0 ==> ranges[lo - 1].end < r.begin) && (hi < |ranges| ==> r.end < ranges[hi].begin)
    requires forall k :: lo <= k < hi ==> r.begin <= ranges[k].begin && ranges[k].end <= r.end
    ensures Separated(ranges[..lo] + [r] + ranges[hi..]) && Inside(ranges[..lo] + [r] + ranges[hi..], all)
    ensures forall x: nat :: In(ranges[..lo] + [r] + ranges[hi..], x) <==> In(ranges, x) || Within(r, x)
  {
    hide Separated;
    Spliced(ranges, lo, hi, r);
    assert ranges == ranges[..lo] + ranges[lo..hi] + ranges[hi..];
    InBoth(ranges[..lo] + ranges[lo..hi], ranges[hi..]);
    InBoth(ranges[..lo], ranges[lo..hi]);
  }

  /** The ranges up to `last` and the gaps between them from `start` on. */
  ghost predicate Gaps(gaps: seq<Range>, ranges: seq<Range>, start: nat, last: nat) {
    && Separated(gaps) && Separated(ranges) && start <= last
    && (forall k :: 0 <= k < |ranges| ==> ranges[k].end <= last)
    && (forall k :: 0 <= k < |gaps| ==> start <= gaps[k].begin && gaps[k].end <= last)
    && (gaps != [] && ranges != [] ==> gaps[|gaps| - 1].end < last) && (gaps != [] ==> ranges != [])
    && forall x: nat :: In(gaps, x) <==> start <= x < last && !In(ranges, x)
  }

  lemma NothingInverted(start: nat)
    ensures Gaps([], [], start, start)
  {
  }

  lemma GapAdded(gaps: seq<Range>, ranges: seq<Range>, r: Range, start: nat, last: nat)
    requires Gaps(gaps, ranges, start, last) && last <= r.begin < r.end
    requires ranges != [] ==> last < r.begin && last == ranges[|ranges| - 1].end
    requires ranges == [] ==> last == start
    ensures Gaps(if r.begin != last then gaps + [Range(last, r.begin)] else gaps, ranges + [r], start, r.end)
  {
    var gap := Range(last, r.begin);
    InBoth(gaps, [gap]);
    InOne(gap);
    InBoth(ranges, [r]);
    InOne(r);
    forall k | 0 <= k < |ranges|
      ensures ranges[k].end < r.begin
    {
    }
    forall k | 0 <= k < |gaps|
      ensures gaps[k].end < last
    {
      assert k < |gaps| - 1 ==> gaps[k].end < gaps[|gaps| - 1].begin;
    }
  }

  lemma LastGap(gaps: seq<Range>, ranges: seq<Range>, all: Range, last: nat)
    requires Gaps(gaps, ranges, all.begin, last) && last <= all.end
    requires forall k :: 0 <= k < |ranges| ==> all.begin <= ranges[k].begin
    ensures var whole := if last != all.end then gaps + [Range(last, all.end)] else gaps;
      && Separated(whole) && (forall k :: 0 <= k < |whole| ==> all.begin <= whole[k].begin && whole[k].end <= all.end)
      && forall x: nat :: In(whole, x) <==> Within(all, x) && !In(ranges, x)
  {
    var gap := Range(last, all.end);
    InBoth(gaps, [gap]);
    InOne(gap);
    forall k | 0 <= k < |gaps|
      ensures gaps[k].end < last
    {
      assert k < |gaps| - 1 ==> gaps[k].end < gaps[|gaps| - 1].begin;
    }
  }
}
