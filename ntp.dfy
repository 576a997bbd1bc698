/**
 * The player's clock-offset estimator (ak_rpi/ntp.py).
 *
 * One probe yields four millisecond timestamps from which the on-wire
 * calculation of section 8 of RFC 5905 derives the one-way latency and the
 * offset of the server clock. A sync run collects the offsets of a batch of
 * probes, drops the failed ones, discards samples that lie a variance or more
 * away from the mean, and stores the truncated mean of what is left; when
 * either step leaves nothing, the previous offset is kept.
 *
 * Python's float arithmetic is modelled by exact `real` arithmetic.
 */
module Ntp {
  import opened Wrappers

  // ------------------------------------------------------------------------
  // One probe
  // ------------------------------------------------------------------------

  /** The four timestamps of one probe, in milliseconds: the request leaves the
      player (local clock), reaches the server (server clock), the response
      leaves the server (server clock) and reaches the player (local clock). */
  datatype SyncResponse = SyncResponse(reqSentAt: int, reqReceivedAt: int, resSentAt: int, resReceivedAt: int)

  /** Half of the round trip, not counting the time the server held the request.
      It is negative exactly when the server claims to have held the request
      longer than the whole round trip took. */
  function OnewayLatency(s: SyncResponse): (l: real)
    ensures l < 0.0 <==> s.resSentAt - s.reqReceivedAt > s.resReceivedAt - s.reqSentAt
  {
    ((s.resReceivedAt - s.reqSentAt) - (s.resSentAt - s.reqReceivedAt)) as real / 2.0
  }

  /** How far the server clock leads the local clock: the server's receipt time
      minus the local send time advanced by one leg of the trip. This is the
      offset of RFC 5905, ((T2 - T1) + (T3 - T4)) / 2. */
  function Offset(s: SyncResponse): (o: real)
    ensures o == ((s.reqReceivedAt - s.reqSentAt) + (s.resSentAt - s.resReceivedAt)) as real / 2.0
  {
    s.reqReceivedAt as real - (s.reqSentAt as real + OnewayLatency(s))
  }

  /** When the server clock runs `theta` ahead of the local one and both legs
      take `d`, the probe recovers exactly `theta` and `d`; and conversely the
      two derived values explain the four timestamps in that way. */
  lemma SymmetricDelayRecovery(s: SyncResponse, theta: real, d: real)
    ensures (Offset(s) == theta && OnewayLatency(s) == d)
        <==> (s.reqReceivedAt as real == s.reqSentAt as real + d + theta
              && s.resReceivedAt as real == s.resSentAt as real + d - theta)
  {
  }

  /** Moving the server clock by `server` and the local clock by `local` moves
      the offset by their difference and leaves the latency alone. */
  lemma ClockShift(s: SyncResponse, local: int, server: int)
    ensures var t := SyncResponse(s.reqSentAt + local, s.reqReceivedAt + server,
                                  s.resSentAt + server, s.resReceivedAt + local);
            Offset(t) == Offset(s) + (server - local) as real
            && OnewayLatency(t) == OnewayLatency(s)
  {
  }

  // ------------------------------------------------------------------------
  // Aggregating a batch of offsets
  // ------------------------------------------------------------------------

  /** Left-to-right sum, as Python's `sum`. */
  function Sum(s: seq<real>): real
  {
    if s == [] then 0.0 else Sum(s[..|s| - 1]) + s[|s| - 1]
  }

  /** The arithmetic mean; a batch of equal samples has that sample as mean. */
  function Mean(s: seq<real>): (m: real)
    requires |s| > 0
    ensures (forall i :: 0 <= i < |s| ==> s[i] == s[0]) ==> m == s[0]
  {
    var n := |s| as real;
    assert (forall i :: 0 <= i < |s| ==> s[i] == s[0]) ==> Sum(s) / n == s[0] by {
      if forall i :: 0 <= i < |s| ==> s[i] == s[0] {
        SumBetween(s, s[0], s[0]);
        assert Sum(s) == n * s[0];
      }
    }
    Sum(s) / n
  }

  function Abs(x: real): real
  {
    if x < 0.0 then -x else x
  }

  /** A product of reals, kept behind a function so that the proofs below
      reason about products only through MulPositive. */
  function Mul(a: real, b: real): real
  {
    a * b
  }

  lemma MulPositive(a: real, b: real)
    requires a > 0.0 && b > 0.0
    ensures Mul(a, b) > 0.0
  {
  }

  function Square(x: real): real
  {
    Mul(Abs(x), Abs(x))
  }

  /** A square is positive unless its root is zero. */
  lemma SquarePositive(d: real)
    requires d != 0.0
    ensures Square(d) > 0.0
  {
    MulPositive(Abs(d), Abs(d));
  }

  function SquaredDeviations(s: seq<real>, m: real): (r: seq<real>)
    ensures forall i :: 0 <= i < |r| ==> 0.0 <= r[i]
  {
    var r := seq(|s|, i requires 0 <= i < |s| => Square(s[i] - m));
    forall i | 0 <= i < |r| ensures 0.0 <= r[i] {
      if s[i] - m != 0.0 { SquarePositive(s[i] - m); }
    }
    r
  }

  /** Population variance: the mean squared deviation from the mean. */
  function Variance(s: seq<real>): (v: real)
    requires |s| > 0
    ensures v >= 0.0
  {
    var sq := SquaredDeviations(s, Mean(s));
    SumAtLeast(sq, 0.0);
    Sum(sq) / |s| as real
  }

  /** Every term at least `lo` bounds the sum below by `|s| * lo`. */
  lemma {:induction false} SumAtLeast(s: seq<real>, lo: real)
    requires forall i :: 0 <= i < |s| ==> lo <= s[i]
    ensures |s| as real * lo <= Sum(s)
  {
    if s != [] {
      SumAtLeast(s[..|s| - 1], lo);
    }
  }

  /** Terms within `[lo, hi]` bound the sum by `|s| * lo` and `|s| * hi`. */
  lemma {:induction false} SumBetween(s: seq<real>, lo: real, hi: real)
    requires forall i :: 0 <= i < |s| ==> lo <= s[i] <= hi
    ensures |s| as real * lo <= Sum(s) <= |s| as real * hi
  {
    if s != [] {
      SumBetween(s[..|s| - 1], lo, hi);
    }
  }

  /** Strict bounds on a non-empty sum from strict bounds on its terms. */
  lemma {:induction false} SumStrictlyBetween(s: seq<real>, lo: real, hi: real)
    requires |s| > 0
    requires forall i :: 0 <= i < |s| ==> lo < s[i] < hi
    ensures |s| as real * lo < Sum(s) < |s| as real * hi
  {
    if |s| > 1 {
      SumStrictlyBetween(s[..|s| - 1], lo, hi);
    }
  }

  /** A sum of non-negative terms is zero only when every term is. */
  lemma {:induction false} SumZeroOfNonNegative(s: seq<real>)
    requires forall i :: 0 <= i < |s| ==> 0.0 <= s[i]
    requires Sum(s) == 0.0
    ensures forall i :: 0 <= i < |s| ==> s[i] == 0.0
  {
    if s != [] {
      var init := s[..|s| - 1];
      SumAtLeast(init, 0.0);
      assert Sum(init) == 0.0 && s[|s| - 1] == 0.0;
      SumZeroOfNonNegative(init);
      forall i | 0 <= i < |s| ensures s[i] == 0.0 {
        if i < |s| - 1 { assert s[i] == init[i]; }
      }
    }
  }

  /** The mean lies between any bounds of the samples. */
  lemma MeanBetween(s: seq<real>, lo: real, hi: real)
    requires |s| > 0
    requires forall i :: 0 <= i < |s| ==> lo <= s[i] <= hi
    ensures lo <= Mean(s) <= hi
  {
    SumBetween(s, lo, hi);
    var n := |s| as real;
    assert Sum(s) / n >= lo by { assert Sum(s) >= n * lo; }
    assert Sum(s) / n <= hi by { assert Sum(s) <= n * hi; }
  }

  /** The mean lies strictly between strict bounds of the samples. */
  lemma MeanStrictlyBetween(s: seq<real>, lo: real, hi: real)
    requires |s| > 0
    requires forall i :: 0 <= i < |s| ==> lo < s[i] < hi
    ensures lo < Mean(s) < hi
  {
    SumStrictlyBetween(s, lo, hi);
    var n := |s| as real;
    assert Sum(s) / n > lo by { assert Sum(s) > n * lo; }
    assert Sum(s) / n < hi by { assert Sum(s) < n * hi; }
  }

  /** A sum of non-negative terms with one positive term is positive. */
  lemma {:induction false} SumPositive(s: seq<real>, k: nat)
    requires forall i :: 0 <= i < |s| ==> 0.0 <= s[i]
    requires k < |s| && s[k] > 0.0
    ensures Sum(s) > 0.0
  {
    var init := s[..|s| - 1];
    SumAtLeast(init, 0.0);
    if k < |s| - 1 {
      assert init[k] == s[k];
      SumPositive(init, k);
    }
  }

  /** The variance is zero exactly when every sample equals the mean. */
  lemma VarianceZeroIff(s: seq<real>)
    requires |s| > 0
    ensures Variance(s) == 0.0 <==> forall i :: 0 <= i < |s| ==> s[i] == Mean(s)
  {
    var m := Mean(s);
    var sq := SquaredDeviations(s, m);
    SumAtLeast(sq, 0.0);
    if k :| 0 <= k < |s| && s[k] != m {
      SquarePositive(s[k] - m);
      SumPositive(sq, k);
      var n := |s| as real;
      assert Sum(sq) / n > 0.0;
    } else {
      SumBetween(sq, 0.0, 0.0);
    }
  }

  /** The samples of `s`, in order, whose distance from `center` is below
      `threshold`: the list comprehension of ntp.py:52-54. */
  function KeepWithin(s: seq<real>, center: real, threshold: real): (r: seq<real>)
    ensures forall x :: multiset(r)[x] == if Abs(x - center) < threshold then multiset(s)[x] else 0
  {
    if s == [] then []
    else
      var rest := KeepWithin(s[1..], center, threshold);
      assert s == [s[0]] + s[1..];
      if Abs(s[0] - center) < threshold then [s[0]] + rest else rest
  }

  /** The filter keeps exactly the samples within the threshold and takes
      nothing the input does not have. */
  lemma {:induction false} KeepWithinMembers(s: seq<real>, center: real, threshold: real)
    ensures forall x :: x in KeepWithin(s, center, threshold) <==> x in s && Abs(x - center) < threshold
    ensures multiset(KeepWithin(s, center, threshold)) <= multiset(s)
  {
    if s != [] {
      KeepWithinMembers(s[1..], center, threshold);
      assert s == [s[0]] + s[1..];
    }
  }

  /** The samples strictly closer to the mean than the variance. The threshold
      is the variance, not the standard deviation. */
  function NonOutliers(offsets: seq<real>): (r: seq<real>)
    requires |offsets| > 0
    ensures forall x :: x in r <==> x in offsets && Abs(x - Mean(offsets)) < Variance(offsets)
    ensures forall x :: Abs(x - Mean(offsets)) < Variance(offsets) ==> multiset(r)[x] == multiset(offsets)[x]
  {
    KeepWithinMembers(offsets, Mean(offsets), Variance(offsets));
    KeepWithin(offsets, Mean(offsets), Variance(offsets))
  }

  /** Python's `int()` on a float: truncation toward zero. */
  function TruncateTowardZero(x: real): (n: int)
    ensures 0.0 <= x ==> n as real <= x < n as real + 1.0
    ensures x < 0.0 ==> n as real - 1.0 < x <= n as real
  {
    if x >= 0.0 then x.Floor else -((-x).Floor)
  }

  lemma TruncateMonotone(x: real, y: real)
    requires x <= y
    ensures TruncateTowardZero(x) <= TruncateTowardZero(y)
  {
  }

  /** The offset a sync run stores for the collected `offsets`, or None when
      there are none or none of them is a non-outlier (ntp.py:45-60). */
  function Aggregate(offsets: seq<real>): (r: Option<int>)
    ensures r.None? <==> (offsets == []
                          || forall x :: x in offsets ==> Abs(x - Mean(offsets)) >= Variance(offsets))
  {
    if |offsets| == 0 then None
    else
      var kept := NonOutliers(offsets);
      if |kept| == 0 then None
      else
        assert kept[0] in kept;
        Some(TruncateTowardZero(Mean(kept)))
  }

  /** Samples that do not spread (a single one, or all equal) never yield an
      offset: the variance is zero and no distance is below it. */
  lemma NoSpreadYieldsNothing(offsets: seq<real>)
    requires |offsets| > 0
    requires forall i :: 0 <= i < |offsets| ==> offsets[i] == offsets[0]
    ensures Variance(offsets) == 0.0
    ensures Aggregate(offsets) == None
  {
    MeanBetween(offsets, offsets[0], offsets[0]);
    VarianceZeroIff(offsets);
  }

  /** A stored offset lies within the truncated range of the samples. */
  lemma AggregateWithinSamples(offsets: seq<real>, lo: real, hi: real)
    requires forall i :: 0 <= i < |offsets| ==> lo <= offsets[i] <= hi
    ensures Aggregate(offsets).Some? ==>
              TruncateTowardZero(lo) <= Aggregate(offsets).value <= TruncateTowardZero(hi)
  {
    if Aggregate(offsets).Some? {
      var kept := NonOutliers(offsets);
      assert forall i :: 0 <= i < |kept| ==> lo <= kept[i] <= hi by {
        forall i | 0 <= i < |kept| ensures lo <= kept[i] <= hi {
          assert kept[i] in kept;
        }
      }
      MeanBetween(kept, lo, hi);
      TruncateMonotone(lo, Mean(kept));
      TruncateMonotone(Mean(kept), hi);
    }
  }

  /** A stored offset is less than the variance plus one millisecond away from
      the mean of all samples. */
  lemma AggregateNearMean(offsets: seq<real>)
    requires |offsets| > 0
    ensures Aggregate(offsets).Some? ==>
              Abs(Aggregate(offsets).value as real - Mean(offsets)) < Variance(offsets) + 1.0
  {
    if Aggregate(offsets).Some? {
      var m, v := Mean(offsets), Variance(offsets);
      var kept := NonOutliers(offsets);
      assert forall i :: 0 <= i < |kept| ==> m - v < kept[i] < m + v by {
        forall i | 0 <= i < |kept| ensures m - v < kept[i] < m + v {
          assert kept[i] in kept;
        }
      }
      MeanStrictlyBetween(kept, m - v, m + v);
    }
  }

  lemma SumAppend(s: seq<real>, x: real)
    ensures Sum(s + [x]) == Sum(s) + x
  {
    assert (s + [x])[..|s|] == s;
  }

  lemma SumOfTwo(a: real, b: real)
    ensures Sum([a, b]) == a + b
  {
    SumAppend([], a);
    SumAppend([a], b);
    assert [] + [a] == [a] && [a] + [b] == [a, b];
  }

  lemma SumOfFive(a: real, b: real, c: real, d: real, e: real)
    ensures Sum([a, b, c, d, e]) == a + b + c + d + e
  {
    SumOfTwo(a, b);
    SumAppend([a, b], c);
    SumAppend([a, b, c], d);
    SumAppend([a, b, c, d], e);
    assert [a, b] + [c] == [a, b, c] && [a, b, c] + [d] == [a, b, c, d] && [a, b, c, d] + [e] == [a, b, c, d, e];
  }

  /** Filtering keeps every sample when all of them are close enough. */
  lemma {:induction false} KeepWithinAll(s: seq<real>, center: real, threshold: real)
    requires forall i :: 0 <= i < |s| ==> Abs(s[i] - center) < threshold
    ensures KeepWithin(s, center, threshold) == s
  {
    if s != [] {
      KeepWithinAll(s[1..], center, threshold);
      assert s == [s[0]] + s[1..];
    }
  }

  lemma OutlierExampleStatistics()
    ensures Mean([100.0, 102.0, 98.0, 101.0, 500.0]) == 180.2
    ensures Variance([100.0, 102.0, 98.0, 101.0, 500.0]) == 25569.76
  {
    var s := [100.0, 102.0, 98.0, 101.0, 500.0];
    SumOfFive(100.0, 102.0, 98.0, 101.0, 500.0);
    var sq := SquaredDeviations(s, 180.2);
    assert sq == [6432.04, 6115.24, 6756.84, 6272.64, 102272.04];
    SumOfFive(6432.04, 6115.24, 6756.84, 6272.64, 102272.04);
  }

  /** The variance threshold keeps a gross outlier: the mean is 180.2, the
      variance 25569.76, all five samples survive and 180 is stored. */
  lemma OutlierExample()
    ensures NonOutliers([100.0, 102.0, 98.0, 101.0, 500.0]) == [100.0, 102.0, 98.0, 101.0, 500.0]
    ensures Aggregate([100.0, 102.0, 98.0, 101.0, 500.0]) == Some(180)
  {
    var s := [100.0, 102.0, 98.0, 101.0, 500.0];
    OutlierExampleStatistics();
    KeepWithinAll(s, 180.2, 25569.76);
    assert NonOutliers(s) == s;
    assert TruncateTowardZero(180.2) == 180;
  }

  /** Two samples one millisecond apart also yield nothing: each lies 0.5 from
      the mean and the variance is 0.25. */
  lemma TwoSampleExample()
    ensures Variance([0.0, 1.0]) == 0.25
    ensures Aggregate([0.0, 1.0]) == None
  {
    var s := [0.0, 1.0];
    SumOfTwo(0.0, 1.0);
    var sq := SquaredDeviations(s, 0.5);
    assert sq == [0.25, 0.25];
    SumOfTwo(0.25, 0.25);
    assert Variance(s) == 0.25;
    assert KeepWithin(s, 0.5, 0.25) == [];
  }

  // ------------------------------------------------------------------------
  // One probe cycle
  // ------------------------------------------------------------------------

  const HTTP_OK := 200

  /** The server's part of a sync response body. */
  datatype ServerStamps = ServerStamps(reqSentAt: int, reqReceivedAt: int, resSentAt: int)

  /** What decoding a response body gives: the stamps, a JSON document that
      fails validation, or text that is not JSON at all. */
  datatype Body = Parsed(stamps: ServerStamps) | Invalid | NotJson

  /** What `get_sync` gives back: a response, or an exception raised by the
      HTTP transport (a connection error or a timeout) instead of one. */
  datatype HttpResponse = HttpResponse(statusCode: int, body: Body) | TransportError

  /** One probe as the player sees it: the server's answer and the monotonic
      tick read right after it arrived. */
  datatype Probe = Probe(response: HttpResponse, monotonicAtResponse: int)

  /** The errors a cycle does not catch, each of which ends the whole sync run:
      the request itself failing, and decoding a successful response whose
      body is not JSON. */
  datatype SyncError = RequestFailed | ResponseNotJson

  predicate Raises(response: HttpResponse)
  {
    response.TransportError? || (response.statusCode == HTTP_OK && response.body.NotJson?)
  }

  predicate Contributes(response: HttpResponse)
  {
    response.HttpResponse? && response.statusCode == HTTP_OK && response.body.Parsed?
  }

  /** One cycle (ntp.py:62-77): a failing request raises; a non-200 status or
      a body that fails validation contributes nothing; a successful body that
      is not JSON raises; a valid body contributes the probe's offset. */
  function SyncCycle(response: HttpResponse, localTimeAtResponse: int): (r: Result<Option<real>, SyncError>)
    ensures r.Failure? <==> Raises(response)
    ensures r.Failure? ==> r.error == (if response.TransportError? then RequestFailed else ResponseNotJson)
    ensures r == Success(None) <==> !Raises(response) && !Contributes(response)
    ensures Contributes(response) ==>
              var t := response.body.stamps;
              r == Success(Some(((t.reqReceivedAt - t.reqSentAt) + (t.resSentAt - localTimeAtResponse)) as real / 2.0))
  {
    if response.TransportError? then Failure(RequestFailed)
    else if response.statusCode != HTTP_OK then Success(None)
    else
      match response.body
      case NotJson => Failure(ResponseNotJson)
      case Invalid => Success(None)
      case Parsed(t) =>
        Success(Some(Offset(SyncResponse(t.reqSentAt, t.reqReceivedAt, t.resSentAt, localTimeAtResponse))))
  }

  /** The positions, in increasing order, of the probes whose cycle yields an
      offset. */
  function Contributing(probes: seq<Probe>): (idx: seq<nat>)
    ensures forall j :: 0 <= j < |idx| ==> idx[j] < |probes| && Contributes(probes[idx[j]].response)
    ensures forall j, k :: 0 <= j < k < |idx| ==> idx[j] < idx[k]
    ensures forall i :: 0 <= i < |probes| && Contributes(probes[i].response) ==> i in idx
  {
    if probes == [] then []
    else
      var init := probes[..|probes| - 1];
      assert forall i :: 0 <= i < |init| ==> init[i] == probes[i];
      Contributing(init) + (if Contributes(probes[|probes| - 1].response) then [|probes| - 1] else [])
  }

  // ------------------------------------------------------------------------
  // The synchroniser
  // ------------------------------------------------------------------------

  /** The clock synchroniser: a start-up epoch, the monotonic tick at that
      instant, the number of probes per run and the current offset estimate. */
  class NTP {
    var serverTimeOffset: int
    const nCycles: int
    const startupTime: int
    const startupTimeMonotonic: int

    /** `startupTime` is the wall clock and `startupTimeMonotonic` the tick
        source, both read once at start-up; the offset starts at zero. */
    constructor (startupTime: int, startupTimeMonotonic: int, nCycles: int)
      ensures serverTimeOffset == 0
      ensures this.startupTime == startupTime && this.startupTimeMonotonic == startupTimeMonotonic
      ensures this.nCycles == nCycles
    {
      this.startupTime := startupTime;
      this.startupTimeMonotonic := startupTimeMonotonic;
      this.nCycles := nCycles;
      serverTimeOffset := 0;
    }

    /** Local time at monotonic tick `monotonicNow`: the start-up epoch at the
        start-up tick, and no earlier than it at any later tick. */
    function LocalTime(monotonicNow: int): (t: int)
      ensures monotonicNow == startupTimeMonotonic ==> t == startupTime
      ensures monotonicNow >= startupTimeMonotonic ==> t >= startupTime
    {
      startupTime + (monotonicNow - startupTimeMonotonic)
    }

    /** Server time at monotonic tick `monotonicNow`: ahead of local time
        exactly when the stored offset is positive. */
    function ServerTime(monotonicNow: int): (t: int)
      reads this
      ensures monotonicNow == startupTimeMonotonic ==> t == startupTime + serverTimeOffset
      ensures t > LocalTime(monotonicNow) <==> serverTimeOffset > 0
    {
      LocalTime(monotonicNow) + serverTimeOffset
    }

    /** Local time starts at the start-up epoch and advances exactly as the
        tick source does, so it never goes back while the ticks do not. */
    lemma LocalTimeFollowsTicks(a: int, b: int)
      ensures LocalTime(startupTimeMonotonic) == startupTime
      ensures LocalTime(b) - LocalTime(a) == b - a
      ensures a <= b ==> LocalTime(a) <= LocalTime(b)
    {
    }

    /** Server time is local time shifted by the stored offset. */
    lemma ServerTimeFollowsTicks(a: int, b: int)
      ensures ServerTime(a) - LocalTime(a) == serverTimeOffset
      ensures ServerTime(b) - ServerTime(a) == b - a
      ensures a <= b ==> ServerTime(a) <= ServerTime(b)
    {
    }

    /** The probes of one run: `range(n_cyles)` is empty for a negative count. */
    function CycleCount(): nat
    {
      if nCycles < 0 then 0 else nCycles
    }

    /** The outcome of one cycle for `probe`, with the player's time of receipt
        read off the tick source. */
    function CycleOf(probe: Probe): Result<Option<real>, SyncError>
    {
      SyncCycle(probe.response, LocalTime(probe.monotonicAtResponse))
    }

    /** The offsets a run collects from `probes`, in order, dropping the cycles
        that contribute nothing (ntp.py:43-44); the first cycle that raises ends it. */
    function Collect(probes: seq<Probe>): (r: Result<seq<real>, SyncError>)
      ensures r.Failure? <==> exists i :: 0 <= i < |probes| && Raises(probes[i].response)
      ensures r.Success? ==> |r.value| <= |probes|
      ensures r.Success? ==>
                (r.value == [] <==> forall i :: 0 <= i < |probes| ==> !Contributes(probes[i].response))
    {
      if probes == [] then Success([])
      else
        var init, last := probes[..|probes| - 1], probes[|probes| - 1];
        assert forall i :: 0 <= i < |init| ==> init[i] == probes[i];
        match Collect(init)
        case Failure(e) => Failure(e)
        case Success(offsets) =>
          match CycleOf(last)
          case Failure(e) => Failure(e)
          case Success(None) => Success(offsets)
          case Success(Some(o)) => Success(offsets + [o])
    }

    /** `offsets[j]` is the offset the cycle of probe `idx[j]` yields, for every `j`. */
    predicate OffsetsOf(probes: seq<Probe>, idx: seq<nat>, offsets: seq<real>)
    {
      |offsets| == |idx|
      && forall j :: 0 <= j < |idx| ==>
           idx[j] < |probes| && CycleOf(probes[idx[j]]) == Success(Some(offsets[j]))
    }

    /** The collected offsets are, in order, the offsets of the contributing
        probes: one per contributing probe and nothing else. */
    lemma {:induction false} CollectOffsets(probes: seq<Probe>)
      ensures Collect(probes).Success? ==> OffsetsOf(probes, Contributing(probes), Collect(probes).value)
    {
      if probes != [] && Collect(probes).Success? {
        var init, last := probes[..|probes| - 1], probes[|probes| - 1];
        CollectOffsets(init);
        var offsets, idx := Collect(init).value, Contributing(init);
        var cycle := CycleOf(last);
        if cycle.value.Some? {
          assert Contributes(last.response);
          assert Contributing(probes) == idx + [|probes| - 1];
          OffsetsOfExtend(probes, idx, offsets, cycle.value.value);
        } else {
          assert !Contributes(last.response);
          assert Contributing(probes) == idx;
          OffsetsOfExtend(probes, idx, offsets, 0.0);
        }
      }
    }

    /** One more probe keeps the pairing of the earlier ones, and pairs itself
        with `o` when its cycle yields `o`. */
    lemma OffsetsOfExtend(probes: seq<Probe>, idx: seq<nat>, offsets: seq<real>, o: real)
      requires probes != [] && OffsetsOf(probes[..|probes| - 1], idx, offsets)
      ensures OffsetsOf(probes, idx, offsets)
      ensures CycleOf(probes[|probes| - 1]) == Success(Some(o)) ==>
                OffsetsOf(probes, idx + [|probes| - 1], offsets + [o])
    {
      var init := probes[..|probes| - 1];
      forall j | 0 <= j < |idx| ensures CycleOf(probes[idx[j]]) == Success(Some(offsets[j])) {
        assert init[idx[j]] == probes[idx[j]];
      }
    }

    /** A run fails with the error of the first cycle that raises. */
    lemma {:induction false} CollectFirstFailure(probes: seq<Probe>, k: nat)
      requires k < |probes| && Raises(probes[k].response)
      requires forall i :: 0 <= i < k ==> !Raises(probes[i].response)
      ensures Collect(probes) == Failure(CycleOf(probes[k]).error)
    {
      var init := probes[..|probes| - 1];
      assert forall i :: 0 <= i < |init| ==> init[i] == probes[i];
      if k < |init| {
        CollectFirstFailure(init, k);
      }
    }

    /** A sync run over the answers to its `CycleCount()` probes. A cycle that
        raises aborts it; otherwise the new offset is stored and returned, or,
        when no offset survives, the previous one is kept and returned. */
    method Sync(probes: seq<Probe>) returns (r: Result<int, SyncError>)
      requires |probes| == CycleCount()
      modifies this
      ensures Collect(probes).Failure? ==>
                r == Failure(Collect(probes).error) && serverTimeOffset == old(serverTimeOffset)
      ensures Collect(probes).Success? ==>
                serverTimeOffset == Aggregate(Collect(probes).value).GetOr(old(serverTimeOffset))
                && r == Success(serverTimeOffset)
      ensures r.Success? ==> forall now :: ServerTime(now) == LocalTime(now) + r.value
    {
      var offsets: seq<real> := [];
      var i := 0;
      while i < |probes|
        invariant 0 <= i <= |probes|
        invariant Collect(probes[..i]) == Success(offsets)
      {
        var probe := probes[i];
        var cycle := CycleOf(probe);
        assert probes[..i + 1][..i] == probes[..i];
        if cycle.Failure? {
          assert forall j :: 0 <= j < i ==> probes[..i][j] == probes[j];
          CollectFirstFailure(probes, i);
          return Failure(cycle.error);
        }
        if cycle.value.Some? {
          offsets := offsets + [cycle.value.value];
        }
        i := i + 1;
      }
      assert probes[..i] == probes;
      if |offsets| == 0 {
        return Success(serverTimeOffset);
      }
      var averageOffset := Mean(offsets);
      var variance := Variance(offsets);
      var nonOutliers := KeepWithin(offsets, averageOffset, variance);
      if |nonOutliers| == 0 {
        return Success(serverTimeOffset);
      }
      serverTimeOffset := TruncateTowardZero(Mean(nonOutliers));
      return Success(serverTimeOffset);
    }
  }
}
