/** The host side of the clock-synchronisation exchange: `calc_avg`, the
    overflow-free average of two `int64` nanosecond values, and the offset
    statistics `calc_time_offset` gathers over the round trips. */
module ClockSync {
  import opened Sequences

  const Int64Min: int := -0x8000_0000_0000_0000
  const Int64Max: int := 0x7fff_ffff_ffff_ffff

  predicate InInt64(x: int)
  {
    Int64Min <= x <= Int64Max
  }

  /** C++ `/` on integers: the quotient truncated toward zero. */
  function TDiv(a: int, d: int): int
    requires d != 0
  {
    if (a >= 0) == (d > 0) then Abs(a) / Abs(d) else -(Abs(a) / Abs(d))
  }

  /** C++ `%` on integers: the remainder takes the sign of `a`. */
  function TMod(a: int, d: int): int
    requires d != 0
  {
    a - d * TDiv(a, d)
  }

  function Abs(x: int): nat
  {
    if x < 0 then -x else x
  }

  function Min(a: int, b: int): int { if a <= b then a else b }
  function Max(a: int, b: int): int { if a <= b then b else a }

  /** `calc_avg( a, b, p_leftover )`: the average, and the value `*p_leftover`
      holds afterwards when it starts at `leftover`. The result is the mean
      rounded one way or the other, so it lies between the inputs. */
  function CalcAvg(a: int, b: int, leftover: int): (r: (int, int))
    ensures -1 <= 2 * r.0 - (a + b) <= 1
    ensures Min(a, b) <= r.0 <= Max(a, b)
  {
    Halve(a);
    Halve(b);
    var avg := TDiv(a, 2) + TDiv(b, 2);
    var rest := TMod(a, 2) + TMod(b, 2);
    Halve(rest);
    (avg + TDiv(rest, 2), leftover + TMod(rest, 2))
  }

  /** For non-negative inputs `calc_avg` agrees with the exact `(a+b)/2`, and
      the leftover counts the half that was dropped. */
  lemma CalcAvgNonNegative(a: int, b: int, leftover: int)
    requires a >= 0 && b >= 0
    ensures CalcAvg(a, b, leftover).0 == (a + b) / 2
    ensures CalcAvg(a, b, leftover).1 == leftover + if a % 2 != b % 2 then 1 else 0
  {
    Halve(a);
    Halve(b);
    Halve(TMod(a, 2) + TMod(b, 2));
  }

  /** For non-positive inputs it agrees with C++'s truncated `(a+b)/2`. */
  lemma CalcAvgNonPositive(a: int, b: int, leftover: int)
    requires a <= 0 && b <= 0
    ensures CalcAvg(a, b, leftover).0 == TDiv(a + b, 2)
  {
    Halve(a);
    Halve(b);
    Halve(TMod(a, 2) + TMod(b, 2));
    Halve(a + b);
  }

  /** No intermediate value of `calc_avg` leaves the `int64` range when the
      inputs are in it, which is what the function exists for. */
  lemma CalcAvgNoOverflow(a: int, b: int, leftover: int)
    requires InInt64(a) && InInt64(b)
    ensures InInt64(TDiv(a, 2)) && InInt64(TDiv(a, 2) + TDiv(b, 2))
    ensures InInt64(TMod(a, 2) + TMod(b, 2)) && InInt64(CalcAvg(a, b, leftover).0)
  {
    Halve(a);
    Halve(b);
  }

  /** Truncated halving: the quotient and a remainder in -1..1 carrying the
      sign of `a`. */
  lemma Halve(a: int)
    ensures 2 * TDiv(a, 2) + TMod(a, 2) == a
    ensures a >= 0 ==> TDiv(a, 2) == a / 2 && TMod(a, 2) == a % 2
    ensures a >= 0 ==> 0 <= TMod(a, 2) <= 1 && 0 <= TDiv(a, 2) <= a
    ensures a < 0 ==> -1 <= TMod(a, 2) <= 0 && a < TDiv(a, 2) <= 0
  {
  }

  /** With opposite signs the result can round away from zero, unlike the
      truncated `(a+b)/2`: `calc_avg( -1, 2 )` is 1. */
  lemma CalcAvgMixedSigns()
    ensures CalcAvg(-1, 2, 0).0 == 1 && TDiv(-1 + 2, 2) == 0
  {
  }

  /** The four timestamps of one round trip: host send, device receive,
      device send, host receive. */
  datatype Sync = Sync(t0: int, t1: int, t2: int, t3: int)

  /** The offset estimated from one round trip. */
  function Offset(s: Sync): (r: int)
    ensures -2 <= 2 * r - ((s.t0 + s.t3) - (s.t1 + s.t2)) <= 2
  {
    CalcAvg(s.t0, s.t3, 0).0 - CalcAvg(s.t1, s.t2, 0).0
  }

  /** A device whose clock runs `delta` behind the host and answers at once,
      with equal transit times both ways, yields exactly `delta`. */
  lemma SymmetricRoundTrip(t: int, latency: int, delta: int)
    ensures var device := t + latency - delta;
      Offset(Sync(t, device, device, t + 2 * latency)) == delta
  {
  }

  /** The values `calc_time_offset` feeds its running average, which is not
      itself modelled; `min` and `max` as it reports them. */
  datatype OffsetStats = OffsetStats(fed: seq<int>, min: int, max: int)

  /** Each value twice, in order. */
  function Doubled(xs: seq<int>): (r: seq<int>)
    ensures |r| == 2 * |xs|
  {
    if |xs| == 0 then [] else Doubled(xs[..|xs| - 1]) + [xs[|xs| - 1], xs[|xs| - 1]]
  }

  /** Feeding every value twice leaves the mean unchanged. */
  lemma {:induction false} DoubledSum(xs: seq<int>)
    ensures Sum(Doubled(xs)) == 2 * Sum(xs)
  {
    if |xs| > 0 {
      var init := xs[..|xs| - 1];
      var d := Doubled(init) + [xs[|xs| - 1], xs[|xs| - 1]];
      DoubledSum(init);
      assert d[..|d| - 1] == Doubled(init) + [xs[|xs| - 1]];
      assert d[..|d| - 1][..|d| - 2] == Doubled(init);
    }
  }

  lemma DoubledMean(xs: seq<int>)
    requires |xs| > 0
    ensures Sum(Doubled(xs)) as real / (|Doubled(xs)| as real) == Sum(xs) as real / (|xs| as real)
  {
    DoubledSum(xs);
  }

  function Offsets(ss: seq<Sync>): (r: seq<int>)
    ensures |r| == |ss|
  {
    Map(Offset, ss)
  }

  lemma OffsetsAt(ss: seq<Sync>, i: int)
    requires 0 <= i < |ss|
    ensures Offsets(ss)[i] == Offset(ss[i])
  {
  }

  /** `calc_time_offset` over the round trips the device answered, one per
      repetition: the first is ignored; every later offset is fed to the
      average twice and tracked by `min` and `max`, which stay 0 with fewer
      than two round trips. */
  method CalcTimeOffset(samples: seq<Sync>) returns (stats: OffsetStats)
    ensures |samples| <= 1 ==> stats == OffsetStats([], 0, 0)
    ensures |samples| >= 1 ==> stats.fed == Doubled(Offsets(samples[1..]))
    ensures |samples| >= 2 ==> forall i :: 1 <= i < |samples| ==> stats.min <= Offset(samples[i]) <= stats.max
    ensures |samples| >= 2 ==> exists i :: 1 <= i < |samples| && stats.min == Offset(samples[i])
    ensures |samples| >= 2 ==> exists i :: 1 <= i < |samples| && stats.max == Offset(samples[i])
    ensures |samples| >= 2 && (forall i :: 1 <= i < |samples| ==> Offset(samples[i]) == Offset(samples[1])) ==>
      stats.min == stats.max == Offset(samples[1])
  {
    var offsets := Offsets(samples);
    stats := TrackOffsets(offsets);
    if |samples| >= 1 {
      MapDrop(Offset, samples, 1);
    }
    forall j | 0 <= j < |samples|
      ensures offsets[j] == Offset(samples[j])
    {
      OffsetsAt(samples, j);
    }
  }

  /** The loop of `calc_time_offset`, given the offset each round trip yields. */
  method TrackOffsets(offsets: seq<int>) returns (stats: OffsetStats)
    ensures |offsets| <= 1 ==> stats == OffsetStats([], 0, 0)
    ensures |offsets| >= 1 ==> stats.fed == Doubled(offsets[1..])
    ensures |offsets| >= 2 ==> forall i :: 1 <= i < |offsets| ==> stats.min <= offsets[i] <= stats.max
    ensures |offsets| >= 2 ==> exists i :: 1 <= i < |offsets| && stats.min == offsets[i]
    ensures |offsets| >= 2 ==> exists i :: 1 <= i < |offsets| && stats.max == offsets[i]
  {
    var fed: seq<int> := [];
    var maxOffset := 0;
    var minOffset := 0;
    ghost var minAt, maxAt := 1, 1;
    var i := 0;
    while i < |offsets|
      invariant 0 <= i <= |offsets|
      invariant i <= 1 ==> fed == [] && minOffset == 0 && maxOffset == 0
      invariant i >= 1 ==> fed == Doubled(offsets[1..i])
      invariant i >= 2 ==> forall j :: 1 <= j < i ==> minOffset <= offsets[j] <= maxOffset
      invariant i >= 2 ==> 1 <= minAt < i && minOffset == offsets[minAt]
      invariant i >= 2 ==> 1 <= maxAt < i && maxOffset == offsets[maxAt]
    {
      var timeOffset := offsets[i];
      if i > 0 {
        DoubledStep(offsets[1..i + 1]);
        assert offsets[1..i + 1][..i - 1] == offsets[1..i];
        fed := fed + [timeOffset, timeOffset];
        if i == 1 {
          maxOffset, maxAt := timeOffset, i;
          minOffset, minAt := timeOffset, i;
        }
        if timeOffset > maxOffset {
          maxOffset, maxAt := timeOffset, i;
        }
        if timeOffset < minOffset {
          minOffset, minAt := timeOffset, i;
        }
      }
      i := i + 1;
    }
    if |offsets| >= 1 {
      assert offsets[1..i] == offsets[1..];
    }
    stats := OffsetStats(fed, minOffset, maxOffset);
  }

  lemma DoubledStep(xs: seq<int>)
    requires |xs| > 0
    ensures Doubled(xs) == Doubled(xs[..|xs| - 1]) + [xs[|xs| - 1], xs[|xs| - 1]]
  {
  }

}
