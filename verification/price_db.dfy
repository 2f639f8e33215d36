/**
 * The per-session price store of the means-to-an-end service (problem_03):
 * a map from i32 timestamps to i32 prices, an insert that overwrites, and a
 * query for the mean price over an inclusive timestamp range, summed in i64
 * and divided with truncation toward zero.
 */
module PriceStore {

  /** Rust's i32. */
  newtype int32 = x: int | -0x8000_0000 <= x < 0x8000_0000

  const Int32Min: int := -0x8000_0000
  const Int32Max: int := 0x7FFF_FFFF
  const Int64Min: int := -0x8000_0000_0000_0000
  const Int64Max: int := 0x7FFF_FFFF_FFFF_FFFF

  /**
   * Rust's `/` on signed integers for a positive divisor: the quotient rounded
   * toward zero, so the remainder is zero or has the sign of the dividend.
   * (Dafny's own `/` is Euclidean and differs for negative dividends.)
   */
  function TruncDiv(a: int, b: int): (q: int)
    requires b > 0
    ensures var r := a - q * b;
            && -b < r < b
            && (a >= 0 ==> 0 <= r) && (a < 0 ==> r <= 0)
  {
    if a >= 0 then a / b else -((-a) / b)
  }

  /** The timestamp t (any integer) holds a price in m. */
  predicate Holds(m: map<int32, int32>, t: int) {
    Int32Min <= t <= Int32Max && t as int32 in m
  }

  /** The price at t, or 0 when t holds none. */
  function PriceAt(m: map<int32, int32>, t: int): int {
    if Holds(m, t) then m[t as int32] as int else 0
  }

  /** Sum of the prices whose timestamps lie in [lo, hi]. */
  function Sum(m: map<int32, int32>, lo: int, hi: int): int
    decreases hi - lo
  {
    if hi < lo then 0 else Sum(m, lo, hi - 1) + PriceAt(m, hi)
  }

  /** Number of prices whose timestamps lie in [lo, hi]. */
  function Count(m: map<int32, int32>, lo: int, hi: int): nat
    decreases hi - lo
  {
    if hi < lo then 0 else Count(m, lo, hi - 1) + (if Holds(m, hi) then 1 else 0)
  }

  /** Some timestamp of m lies in [lo, hi]. */
  predicate SomeInRange(m: map<int32, int32>, lo: int, hi: int) {
    exists t: int32 :: t in m && lo <= t as int <= hi
  }

  /** The range holds a price exactly when the count is positive. */
  lemma {:induction false} CountPositiveIff(m: map<int32, int32>, lo: int, hi: int)
    ensures Count(m, lo, hi) > 0 <==> SomeInRange(m, lo, hi)
    decreases hi - lo
  {
    if hi >= lo {
      CountPositiveIff(m, lo, hi - 1);
      if Holds(m, hi) {
        assert (hi as int32) in m;
      } else if SomeInRange(m, lo, hi) {
        var t: int32 :| t in m && lo <= t as int <= hi;
        assert t as int != hi;
        assert SomeInRange(m, lo, hi - 1);
      }
    }
  }

  /** An empty range holds no price and sums to 0. */
  lemma {:induction false} CountZeroSumZero(m: map<int32, int32>, lo: int, hi: int)
    requires Count(m, lo, hi) == 0
    ensures Sum(m, lo, hi) == 0
    decreases hi - lo
  {
    if hi >= lo {
      CountZeroSumZero(m, lo, hi - 1);
    }
  }

  /** No more prices than timestamps in the range. */
  lemma {:induction false} CountAtMostWidth(m: map<int32, int32>, lo: int, hi: int)
    requires lo <= hi + 1
    ensures Count(m, lo, hi) <= hi - lo + 1
    decreases hi - lo
  {
    if hi >= lo {
      CountAtMostWidth(m, lo, hi - 1);
    }
  }

  /** Every sum of n prices lies between n times the smallest and n times the largest i32. */
  lemma {:induction false} SumWithinInt32Multiples(m: map<int32, int32>, lo: int, hi: int)
    ensures Count(m, lo, hi) * Int32Min <= Sum(m, lo, hi) <= Count(m, lo, hi) * Int32Max
    decreases hi - lo
  {
    if hi >= lo {
      SumWithinInt32Multiples(m, lo, hi - 1);
    }
  }

  /**
   * The i64 accumulator never overflows: a sum over any range of i32
   * timestamps fits in i64. This covers every partial sum of the fold, since
   * after the keys up to k it holds Sum(m, lo, k).
   */
  lemma SumFitsInt64(m: map<int32, int32>, lo: int, hi: int)
    requires Int32Min <= lo && hi <= Int32Max
    ensures Int64Min <= Sum(m, lo, hi) <= Int64Max
  {
    SumWithinInt32Multiples(m, lo, hi);
    var c := Count(m, lo, hi);
    if lo <= hi + 1 {
      CountAtMostWidth(m, lo, hi);
    } else {
      assert c == 0;
    }
    assert c <= 0x1_0000_0000;
  }

  /** A non-empty range holds a price that count times does not exceed the sum. */
  lemma {:induction false} SumAboveSmallest(m: map<int32, int32>, lo: int, hi: int)
    requires Count(m, lo, hi) > 0
    ensures exists t: int32 :: t in m && lo <= t as int <= hi
                               && Count(m, lo, hi) * (m[t] as int) <= Sum(m, lo, hi)
    decreases hi - lo
  {
    var c0, s0 := Count(m, lo, hi - 1), Sum(m, lo, hi - 1);
    if !Holds(m, hi) {
      SumAboveSmallest(m, lo, hi - 1);
      var t: int32 :| t in m && lo <= t as int <= hi - 1 && c0 * (m[t] as int) <= s0;
      assert t in m && lo <= t as int <= hi;
    } else {
      var th := hi as int32;
      var p := m[th] as int;
      assert Count(m, lo, hi) == c0 + 1 && Sum(m, lo, hi) == s0 + p;
      if c0 == 0 {
        CountZeroSumZero(m, lo, hi - 1);
        assert th in m && lo <= th as int <= hi;
      } else {
        SumAboveSmallest(m, lo, hi - 1);
        var t: int32 :| t in m && lo <= t as int <= hi - 1 && c0 * (m[t] as int) <= s0;
        var pt := m[t] as int;
        MinStep(c0, s0, pt, p);
        if p < pt {
          assert th in m && lo <= th as int <= hi;
        } else {
          assert t in m && lo <= t as int <= hi;
        }
      }
    }
  }

  /** A non-empty range holds a price that count times is at least the sum. */
  lemma {:induction false} SumBelowLargest(m: map<int32, int32>, lo: int, hi: int)
    requires Count(m, lo, hi) > 0
    ensures exists t: int32 :: t in m && lo <= t as int <= hi
                               && Sum(m, lo, hi) <= Count(m, lo, hi) * (m[t] as int)
    decreases hi - lo
  {
    var c0, s0 := Count(m, lo, hi - 1), Sum(m, lo, hi - 1);
    if !Holds(m, hi) {
      SumBelowLargest(m, lo, hi - 1);
      var t: int32 :| t in m && lo <= t as int <= hi - 1 && s0 <= c0 * (m[t] as int);
      assert t in m && lo <= t as int <= hi;
    } else {
      var th := hi as int32;
      var p := m[th] as int;
      assert Count(m, lo, hi) == c0 + 1 && Sum(m, lo, hi) == s0 + p;
      if c0 == 0 {
        CountZeroSumZero(m, lo, hi - 1);
        assert th in m && lo <= th as int <= hi;
      } else {
        SumBelowLargest(m, lo, hi - 1);
        var t: int32 :| t in m && lo <= t as int <= hi - 1 && s0 <= c0 * (m[t] as int);
        var pt := m[t] as int;
        MaxStep(c0, s0, pt, p);
        if pt < p {
          assert th in m && lo <= th as int <= hi;
        } else {
          assert t in m && lo <= t as int <= hi;
        }
      }
    }
  }

  /** Adding price p to a sum bounded below by c0 copies of pt keeps a bound by the smaller of the two. */
  lemma MinStep(c0: nat, s0: int, pt: int, p: int)
    requires c0 * pt <= s0
    ensures (c0 + 1) * (if p < pt then p else pt) <= s0 + p
  {
    if p < pt {
      MulMonotone(c0, p, pt);
      assert (c0 + 1) * p == c0 * p + p;
    } else {
      assert (c0 + 1) * pt == c0 * pt + pt;
    }
  }

  /** Adding price p to a sum bounded above by c0 copies of pt keeps a bound by the larger of the two. */
  lemma MaxStep(c0: nat, s0: int, pt: int, p: int)
    requires s0 <= c0 * pt
    ensures s0 + p <= (c0 + 1) * (if pt < p then p else pt)
  {
    if pt < p {
      MulMonotone(c0, pt, p);
      assert (c0 + 1) * p == c0 * p + p;
    } else {
      assert (c0 + 1) * pt == c0 * pt + pt;
    }
  }

  lemma MulMonotone(c: nat, x: int, y: int)
    requires x <= y
    ensures c * x <= c * y
  {
    assert c * y - c * x == c * (y - x);
  }

  lemma MulPositive(c: int, d: int)
    requires c > 0
    ensures d > 0 ==> c * d > 0
    ensures d <= 0 ==> c * d <= 0
  {
  }

  /** If c * a <= s <= c * b, truncating s / c lands in [a, b]. */
  lemma TruncDivBetween(s: int, c: int, a: int, b: int)
    requires c > 0 && c * a <= s <= c * b
    ensures a <= TruncDiv(s, c) <= b
  {
    var q := TruncDiv(s, c);
    var r := s - q * c;
    assert c * (q + 1 - a) == q * c + c - c * a;
    MulPositive(c, q + 1 - a);
    assert c * (b + 1 - q) == c * b + c - q * c;
    MulPositive(c, b + 1 - q);
  }

  /**
   * `PriceDb::query`: 0 for an inverted range or a range without prices;
   * otherwise the i64 sum of the in-range prices divided by their count,
   * truncated toward zero. The mean lies between the smallest and the largest
   * in-range price, which is why the final `as i32` cast loses nothing.
   */
  function Average(m: map<int32, int32>, minTime: int32, maxTime: int32): (r: int32)
    ensures minTime > maxTime ==> r == 0
    ensures !SomeInRange(m, minTime as int, maxTime as int) ==> r == 0
    ensures var lo, hi := minTime as int, maxTime as int;
            Count(m, lo, hi) > 0 ==>
              && r as int == TruncDiv(Sum(m, lo, hi), Count(m, lo, hi))
              && (exists t: int32 :: t in m && minTime <= t <= maxTime && m[t] <= r)
              && (exists t: int32 :: t in m && minTime <= t <= maxTime && r <= m[t])
  {
    var lo, hi := minTime as int, maxTime as int;
    CountPositiveIff(m, lo, hi);
    if minTime > maxTime then
      0
    else
      var count := Count(m, lo, hi);
      if count == 0 then
        0
      else
        var sum := Sum(m, lo, hi);
        SumFitsInt64(m, lo, hi);
        MeanBetweenExtremes(m, lo, hi);
        TruncDiv(sum, count) as int32
  }

  /** The truncated mean of a non-empty range is one of its prices or lies between two of them. */
  lemma MeanBetweenExtremes(m: map<int32, int32>, lo: int, hi: int)
    requires Count(m, lo, hi) > 0
    ensures var q := TruncDiv(Sum(m, lo, hi), Count(m, lo, hi));
            && Int32Min <= q <= Int32Max
            && (exists t: int32 :: t in m && lo <= t as int <= hi && m[t] as int <= q)
            && (exists t: int32 :: t in m && lo <= t as int <= hi && q <= m[t] as int)
  {
    var c, s := Count(m, lo, hi), Sum(m, lo, hi);
    SumAboveSmallest(m, lo, hi);
    SumBelowLargest(m, lo, hi);
    var t1: int32 :| t1 in m && lo <= t1 as int <= hi && c * (m[t1] as int) <= s;
    var t2: int32 :| t2 in m && lo <= t2 as int <= hi && s <= c * (m[t2] as int);
    TruncDivBetween(s, c, m[t1] as int, m[t2] as int);
  }

  /** Sums and counts over adjacent ranges add up. */
  lemma {:induction false} RangeSplit(m: map<int32, int32>, lo: int, mid: int, hi: int)
    requires lo <= mid <= hi + 1
    ensures Sum(m, lo, hi) == Sum(m, lo, mid - 1) + Sum(m, mid, hi)
    ensures Count(m, lo, hi) == Count(m, lo, mid - 1) + Count(m, mid, hi)
    decreases hi - lo
  {
    if hi >= mid {
      RangeSplit(m, lo, mid, hi - 1);
    }
  }

  /** A range without prices contributes nothing. */
  lemma EmptyRange(m: map<int32, int32>, lo: int, hi: int)
    requires !SomeInRange(m, lo, hi)
    ensures Sum(m, lo, hi) == 0 && Count(m, lo, hi) == 0
  {
    CountPositiveIff(m, lo, hi);
    CountZeroSumZero(m, lo, hi);
  }

  /** A one-timestamp range holds the price at that timestamp, if any. */
  lemma SingleTimestamp(m: map<int32, int32>, t: int)
    ensures Sum(m, t, t) == PriceAt(m, t)
    ensures Count(m, t, t) == if Holds(m, t) then 1 else 0
  {
  }

  /** The data of the Rust test `test_query_success`: prices 10, 20, 30 at timestamps 100, 200, 300. */
  function SamplePrices(): map<int32, int32> {
    map[100 := 10, 200 := 20, 300 := 30]
  }

  /** A range that avoids 100, 200 and 300 holds no sample price. */
  lemma SampleGap(lo: int, hi: int)
    requires hi < 100 || 300 < lo || (100 < lo && hi < 200) || (200 < lo && hi < 300)
    ensures Sum(SamplePrices(), lo, hi) == 0 && Count(SamplePrices(), lo, hi) == 0
  {
    var m := SamplePrices();
    forall t: int32 | t in m ensures !(lo <= t as int <= hi) {
      assert t == 100 || t == 200 || t == 300;
    }
    EmptyRange(m, lo, hi);
  }

  /** Both bounds are inclusive: [150, 250] holds only the price 20. */
  lemma SampleQueryOnePrice()
    ensures Average(SamplePrices(), 150, 250) == 20
  {
    var m := SamplePrices();
    RangeSplit(m, 150, 200, 250);
    RangeSplit(m, 200, 201, 250);
    SampleGap(150, 199);
    SampleGap(201, 250);
    SingleTimestamp(m, 200);
  }

  lemma SampleRangeTwoPrices()
    ensures Sum(SamplePrices(), 200, 500) == 50 && Count(SamplePrices(), 200, 500) == 2
  {
    var m := SamplePrices();
    RangeSplit(m, 200, 201, 500);
    RangeSplit(m, 201, 300, 500);
    RangeSplit(m, 300, 301, 500);
    SampleGap(201, 299);
    SampleGap(301, 500);
    SingleTimestamp(m, 200);
    SingleTimestamp(m, 300);
  }

  /** Both bounds are inclusive: [200, 500] holds 20 and 30, whose mean is 25. */
  lemma SampleQueryTwoPrices()
    ensures Average(SamplePrices(), 200, 500) == 25
  {
    SampleRangeTwoPrices();
    assert TruncDiv(50, 2) == 25;
  }

  /** A negative sum is divided toward zero: the mean of -1 and -2 is -1, not the floor -2. */
  lemma NegativeMeanTruncates()
    ensures Average(map[1 := -1, 2 := -2], 1, 2) == -1
  {
    var m: map<int32, int32> := map[1 := -1, 2 := -2];
    assert Sum(m, 1, 2) == -3 && Count(m, 1, 2) == 2;
  }

  /** `PriceDb`: the prices of one session, keyed by timestamp. */
  class PriceDb {
    var prices: map<int32, int32>

    /** `PriceDb::new`: an empty store. */
    constructor ()
      ensures prices == map[]
    {
      prices := map[];
    }

    /** `PriceDb::insert`: the timestamp now maps to the price, replacing any earlier one; nothing else changes. */
    method Insert(timestamp: int32, price: int32)
      modifies this
      ensures prices == old(prices)[timestamp := price]
      // The next two restate the map update for the other timestamps.
      ensures forall t :: t != timestamp ==> (t in prices <==> t in old(prices))
      ensures forall t :: t != timestamp && t in prices ==> prices[t] == old(prices)[t]
    {
      prices := prices[timestamp := price];
    }

    /** `PriceDb::query`: reads the store and never changes it. */
    function Query(minTime: int32, maxTime: int32): (r: int32)
      reads this
      ensures minTime > maxTime ==> r == 0
      ensures prices == map[] ==> r == 0
    {
      Average(prices, minTime, maxTime)
    }
  }
}
