/** The ADC's two-level average and its exact distance from the mean. */
module Adc {
  import opened Octets
  import opened Arithmetic

  type Sample = n: nat | n < 0x1_0000
  type Ticks32 = n: nat | n < 0x1_0000_0000

  const U64_LIMIT: nat := 0x1_0000_0000_0000_0000

  datatype AveragingConfig = AveragingConfig(
    sampleInterval: Ticks32,
    avgIntervalsPerRequest: Count16,
    combineAvgValues: Count16)

  function Sum(s: seq<Sample>): nat {
    if s == [] then 0 else s[0] + Sum(s[1..])
  }

  lemma {:induction false} SumAppend(a: seq<Sample>, b: seq<Sample>)
    ensures Sum(a + b) == Sum(a) + Sum(b)
  {
    if a == [] {
      assert a + b == b;
    } else {
      assert (a + b)[1..] == a[1..] + b;
      SumAppend(a[1..], b);
    }
  }

  /** Consecutive groups of exactly `n` samples, a shorter remainder dropped. */
  function Groups(s: seq<Sample>, n: nat): (gs: seq<seq<Sample>>)
    requires n > 0
    ensures forall i | 0 <= i < |gs| :: |gs[i]| == n
    decreases |s|
  {
    if |s| < n then [] else [s[..n]] + Groups(s[n..], n)
  }

  /** One group's truncated mean. */
  function GroupMean(g: seq<Sample>, n: nat): nat
    requires n > 0
  {
    Sum(g) / n
  }

  /** What truncating a group's mean drops. */
  function GroupLeft(g: seq<Sample>, n: nat): nat
    requires n > 0
  {
    Sum(g) % n
  }

  /** Level one: the sum of the groups' truncated means. */
  function MeansSum(gs: seq<seq<Sample>>, n: nat): nat
    requires n > 0
  {
    if gs == [] then 0 else GroupMean(gs[0], n) + MeansSum(gs[1..], n)
  }

  /** What level one truncates away. */
  function Remainders(gs: seq<seq<Sample>>, n: nat): nat
    requires n > 0
  {
    if gs == [] then 0 else GroupLeft(gs[0], n) + Remainders(gs[1..], n)
  }

  predicate Accepted(samples: seq<Sample>, config: AveragingConfig) {
    && config.avgIntervalsPerRequest > 0
    && config.combineAvgValues > 0
    && |samples| >= config.avgIntervalsPerRequest * config.combineAvgValues
  }

  /** The samples the average is taken over. */
  function Used(samples: seq<Sample>, config: AveragingConfig): seq<Sample>
    requires Accepted(samples, config)
  {
    samples[..config.avgIntervalsPerRequest * config.combineAvgValues]
  }

  function AveragedValue(samples: seq<Sample>, config: AveragingConfig): Result<nat> {
    if !Accepted(samples, config) then Err(InvalidParameter)
    else
      var n := config.avgIntervalsPerRequest;
      Ok(MeansSum(Groups(Used(samples, config), n), n) / config.combineAvgValues)
  }

  /** The averaging loop as written: one pass over the chunks, one accumulator. */
  method ResolveAdcAveragedValue(samples: seq<Sample>, config: AveragingConfig) returns (r: Result<nat>)
    ensures r == AveragedValue(samples, config)
  {
    var groupSize: nat := config.avgIntervalsPerRequest;
    var groupCount: nat := config.combineAvgValues;
    if groupSize == 0 || groupCount == 0 {
      return Err(InvalidParameter);
    }
    var needed: nat := groupSize * groupCount;
    if |samples| < needed {
      return Err(InvalidParameter);
    }
    hide Sum, Groups, MeansSum, GroupMean;
    var combinedSum := 0;
    var rest := samples[..needed];
    while |rest| >= groupSize
      invariant combinedSum + MeansSum(Groups(rest, groupSize), groupSize)
                == MeansSum(Groups(samples[..needed], groupSize), groupSize)
    {
      var groupSum := SumOf(rest[..groupSize]);
      GroupsStep(rest, groupSize);
      combinedSum := combinedSum + groupSum / groupSize;
      MeanOf(rest[..groupSize], groupSize);
      rest := rest[groupSize..];
    }
    GroupsEnd(rest, groupSize);
    r := Ok(combinedSum / groupCount);
  }

  lemma MeanOf(g: seq<Sample>, n: nat)
    requires n > 0
    ensures GroupMean(g, n) == Sum(g) / n
  {
  }

  lemma GroupsEnd(s: seq<Sample>, n: nat)
    requires |s| < n
    ensures MeansSum(Groups(s, n), n) == 0
  {
  }

  lemma GroupsStep(s: seq<Sample>, n: nat)
    requires 0 < n <= |s|
    ensures MeansSum(Groups(s, n), n) == GroupMean(s[..n], n) + MeansSum(Groups(s[n..], n), n)
    ensures Remainders(Groups(s, n), n) == GroupLeft(s[..n], n) + Remainders(Groups(s[n..], n), n)
    ensures |Groups(s, n)| == 1 + |Groups(s[n..], n)|
  {
    hide GroupMean, GroupLeft;
    assert Groups(s, n)[1..] == Groups(s[n..], n);
  }

  method SumOf(s: seq<Sample>) returns (sum: nat)
    ensures sum == Sum(s)
  {
    sum := 0;
    for i := 0 to |s|
      invariant sum == Sum(s[..i])
    {
      assert s[..i + 1] == s[..i] + [s[i]];
      SumAppend(s[..i], [s[i]]);
      sum := sum + s[i];
    }
    assert s[..|s|] == s;
  }

  // ── What is averaged ─────────────────────────────────────────────────────

  /** Rejected exactly if a count is zero or samples are missing. */
  lemma RejectedExactly(samples: seq<Sample>, config: AveragingConfig)
    ensures AveragedValue(samples, config).Ok? <==>
              && config.avgIntervalsPerRequest != 0 && config.combineAvgValues != 0
              && |samples| >= config.avgIntervalsPerRequest * config.combineAvgValues
    ensures AveragedValue(samples, config).Err? ==> AveragedValue(samples, config).error == InvalidParameter
  {
  }

  /** Samples beyond those needed do not matter. */
  lemma SpareIgnored(samples: seq<Sample>, spare: seq<Sample>, config: AveragingConfig)
    requires Accepted(samples, config)
    ensures AveragedValue(samples + spare, config) == AveragedValue(samples, config)
  {
    assert Used(samples + spare, config) == Used(samples, config);
  }

  /** The groups are the consecutive runs of `n` samples from the first on. */
  lemma {:induction false} GroupsAreSlices(s: seq<Sample>, n: nat, k: nat)
    requires n > 0 && |s| == n * k
    ensures |Groups(s, n)| == k
    ensures forall i | 0 <= i < k :: 0 <= n * i <= n * i + n <= |s| && Groups(s, n)[i] == s[n * i..n * i + n]
    decreases k
  {
    if k == 0 {
    } else {
      TakeOne(n, k);
      var rest := s[n..];
      GroupsAreSlices(rest, n, k - 1);
      forall i | 0 <= i < k
        ensures 0 <= n * i <= n * i + n <= |s| && Groups(s, n)[i] == s[n * i..n * i + n]
      {
        if i > 0 {
          TakeOne(n, i);
          assert rest[n * (i - 1)..n * (i - 1) + n] == s[n * i..n * i + n];
        }
      }
    }
  }

  // ── Exact error ──────────────────────────────────────────────────────────

  lemma {:induction false} GroupsCover(s: seq<Sample>, n: nat, k: nat)
    requires n > 0 && |s| == n * k
    ensures |Groups(s, n)| == k
    ensures Sum(s) == n * MeansSum(Groups(s, n), n) + Remainders(Groups(s, n), n)
    decreases k
  {
    if k == 0 {
      assert s == [];
    } else {
      TakeOne(n, k);
      GroupsCover(s[n..], n, k - 1);
      GroupsStep(s, n);
      SumAppend(s[..n], s[n..]);
      assert s[..n] + s[n..] == s;
      hide Sum, Groups, MeansSum, Remainders, GroupMean, GroupLeft;
      GroupSplit(s[..n], n);
      var rest := Groups(s[n..], n);
      Combine(n, GroupMean(s[..n], n), GroupLeft(s[..n], n), MeansSum(rest, n), Remainders(rest, n));
    }
  }

  lemma TakeOne(n: nat, k: nat)
    requires k > 0
    ensures n * k == n + n * (k - 1) && n * (k - 1) >= 0
  {
  }

  lemma GroupSplit(g: seq<Sample>, n: nat)
    requires n > 0
    ensures Sum(g) == n * GroupMean(g, n) + GroupLeft(g, n)
    ensures GroupLeft(g, n) <= n - 1
  {
    hide Sum;
  }

  lemma Combine(n: nat, q: nat, r: nat, means: nat, left: nat)
    ensures (n * q + r) + (n * means + left) == n * (q + means) + (r + left)
  {
  }

  lemma {:induction false} RemaindersBound(gs: seq<seq<Sample>>, n: nat)
    requires n > 0
    ensures Remainders(gs, n) <= |gs| * (n - 1)
  {
    hide Sum, GroupLeft;
    if gs == [] {
    } else {
      GroupSplit(gs[0], n);
      RemaindersBound(gs[1..], n);
      Distribute(1, |gs| - 1, n - 1);
    }
  }

  /** Dividing in two steps: the gap between the quotient of the whole and the two-step
      quotient is 0 or 1, and which of them is decided by what the steps left over. */
  lemma TwoStepQuotient(n: nat, k: nat, a: nat, left: nat)
    requires n > 0 && k > 0 && left <= k * (n - 1)
    ensures n * k > 0
    ensures (n * a + left) / (n * k) == a / k + (if n * (a % k) + left < n * k then 0 else 1)
  {
    var (r, rho) := (a / k, a % k);
    var extra := n * rho + left;
    Product(n, k);
    assert a == r * k + rho;
    Reassociate(n, k, r, rho);
    MulMonotone(rho, k - 1, n);
    Expand(n, k);
    if extra < n * k {
      QuotientUnique(r, n * a + left, n * k);
    } else {
      assert (r + 1) * (n * k) == r * (n * k) + n * k;
      QuotientUnique(r + 1, n * a + left, n * k);
    }
  }

  lemma Product(n: nat, k: nat)
    requires n > 0 && k > 0
    ensures n * k > 0
  {
  }

  lemma Reassociate(n: nat, k: nat, r: nat, rho: nat)
    ensures n * (r * k + rho) == r * (n * k) + n * rho
  {
  }

  lemma Expand(n: nat, k: nat)
    requires n > 0 && k > 0
    ensures (k - 1) * n + k * (n - 1) < 2 * (n * k)
  {
  }

  /** For every accepted input the two-level average is the floor mean of the samples used,
      or one below it; it is the floor mean exactly when the truncated parts of both levels
      together stay below one step of the mean. */
  lemma AverageError(samples: seq<Sample>, config: AveragingConfig)
    requires Accepted(samples, config)
    ensures var (n, k) := (config.avgIntervalsPerRequest, config.combineAvgValues);
            && 0 < n * k <= |samples|
            && var (s, gs) := (samples[..n * k], Groups(samples[..n * k], n));
            && Sum(s) / (n * k) == AveragedValue(samples, config).value
                 + (if n * (MeansSum(gs, n) % k) + Remainders(gs, n) < n * k then 0 else 1)
  {
    var (n, k) := (config.avgIntervalsPerRequest, config.combineAvgValues);
    var s := Used(samples, config);
    var gs := Groups(s, n);
    hide Sum, Groups, MeansSum, Remainders;
    GroupsCover(s, n, k);
    RemaindersBound(gs, n);
    TwoStepQuotient(n, k, MeansSum(gs, n), Remainders(gs, n));
  }

  /** The average can really be one below the floor mean: samples 1, 0, 1, 2 in two groups
      of two average to 0, while their mean is 1. */
  lemma AverageCanLoseOne()
    ensures var (samples, config) := ([1, 0, 1, 2], AveragingConfig(1, 2, 2));
            && Accepted(samples, config)
            && AveragedValue(samples, config) == Ok(0)
            && Sum(Used(samples, config)) / 4 == 1
  {
    var s: seq<Sample> := [1, 0, 1, 2];
    assert s[..4] == s && s[..2] == [1, 0] && s[2..] == [1, 2];
    assert s[2..][..2] == [1, 2] && s[2..][2..] == [];
    assert Sum([1, 0]) == 1 + Sum([0]) && Sum([1, 2]) == 1 + Sum([2]);
    assert [1, 0] + [1, 2] == s;
    SumAppend([1, 0], [1, 2]);
    GroupsStep(s, 2);
    GroupsStep(s[2..], 2);
    GroupsEnd([], 2);
  }

  /** With one sample per group, or a single group, the result is the floor mean. */
  lemma OneLevelExact(samples: seq<Sample>, config: AveragingConfig)
    requires Accepted(samples, config)
    requires config.avgIntervalsPerRequest == 1 || config.combineAvgValues == 1
    ensures var count: nat := config.avgIntervalsPerRequest * config.combineAvgValues;
            0 < count <= |samples| && AveragedValue(samples, config).value == Sum(samples[..count]) / count
  {
    var (n, k) := (config.avgIntervalsPerRequest, config.combineAvgValues);
    var gs := Groups(Used(samples, config), n);
    hide Sum, Groups, MeansSum, Remainders;
    AverageError(samples, config);
    GroupsCover(Used(samples, config), n, k);
    RemaindersBound(gs, n);
    if n == 1 {
      assert MeansSum(gs, n) % k < k;
    } else {
      assert MeansSum(gs, n) % 1 == 0;
    }
  }

  // ── Range ────────────────────────────────────────────────────────────────

  ghost predicate Within(s: seq<Sample>, lo: nat, hi: nat) {
    forall i | 0 <= i < |s| :: lo <= s[i] <= hi
  }

  lemma {:induction false} SumWithin(s: seq<Sample>, lo: nat, hi: nat)
    requires Within(s, lo, hi)
    ensures |s| * lo <= Sum(s) <= |s| * hi
  {
    if s == [] {
    } else {
      SumWithin(s[1..], lo, hi);
      Distribute(1, |s| - 1, lo);
      Distribute(1, |s| - 1, hi);
    }
  }

  lemma MeanWithin(g: seq<Sample>, n: nat, lo: nat, hi: nat)
    requires n > 0 && |g| == n && Within(g, lo, hi)
    ensures lo <= GroupMean(g, n) <= hi
  {
    SumWithin(g, lo, hi);
    QuotientBetween(Sum(g), n, lo, hi);
  }

  lemma QuotientBetween(x: nat, d: nat, lo: nat, hi: nat)
    requires d > 0 && d * lo <= x <= d * hi
    ensures lo <= x / d <= hi
  {
    QuotientAtLeast(lo, x, d);
    QuotientAtLeast(hi + 1, x, d);
    assert (hi + 1) * d == d * hi + d;
  }

  lemma {:induction false} MeansWithin(s: seq<Sample>, n: nat, lo: nat, hi: nat)
    requires n > 0 && Within(s, lo, hi)
    ensures var gs := Groups(s, n);
            |gs| * lo <= MeansSum(gs, n) <= |gs| * hi
    decreases |s|
  {
    if |s| >= n {
      var (gs, rest) := (Groups(s, n), Groups(s[n..], n));
      assert gs[1..] == rest;
      MeanWithin(s[..n], n, lo, hi);
      MeansWithin(s[n..], n, lo, hi);
      Distribute(1, |rest|, lo);
      Distribute(1, |rest|, hi);
    }
  }

  /** The result lies between the least and the greatest sample used. */
  lemma AverageWithin(samples: seq<Sample>, config: AveragingConfig, lo: nat, hi: nat)
    requires Accepted(samples, config)
    requires Within(samples[..config.avgIntervalsPerRequest * config.combineAvgValues], lo, hi)
    ensures lo <= AveragedValue(samples, config).value <= hi
  {
    var (n, k) := (config.avgIntervalsPerRequest, config.combineAvgValues);
    var s := Used(samples, config);
    hide Sum, Groups, MeansSum, GroupMean;
    GroupsCover(s, n, k);
    MeansWithin(s, n, lo, hi);
    QuotientBetween(MeansSum(Groups(s, n), n), k, lo, hi);
  }

  lemma {:induction false} PartialMeans(gs: seq<seq<Sample>>, n: nat, i: nat)
    requires 0 < n < 0x1_0000 && i <= |gs| && forall j | 0 <= j < |gs| :: |gs[j]| == n
    ensures MeansSum(gs[..i], n) <= i * 0xFFFF
    decreases i
  {
    if i == 0 {
    } else {
      PartialMeans(gs[1..], n, i - 1);
      assert gs[..i][1..] == gs[1..][..i - 1];
      MeanWithin(gs[0], n, 0, 0xFFFF);
    }
  }

  /** No intermediate value overflows 64 bits: no group's sum, and no prefix of the combined
      sum; the final value fits 16 bits, so narrowing it is exact. */
  lemma NoOverflow(samples: seq<Sample>, config: AveragingConfig)
    requires Accepted(samples, config)
    ensures var gs := Groups(Used(samples, config), config.avgIntervalsPerRequest);
            && (forall i | 0 <= i < |gs| :: Sum(gs[i]) < U64_LIMIT)
            && (forall i | 0 <= i <= |gs| :: MeansSum(gs[..i], config.avgIntervalsPerRequest) < U64_LIMIT)
            && AveragedValue(samples, config).value <= 0xFFFF
  {
    var (n, k) := (config.avgIntervalsPerRequest, config.combineAvgValues);
    var gs := Groups(Used(samples, config), n);
    hide Sum, Groups, MeansSum, GroupMean;
    GroupsCover(Used(samples, config), n, k);
    AverageWithin(samples, config, 0, 0xFFFF);
    forall i | 0 <= i < |gs|
      ensures Sum(gs[i]) < U64_LIMIT
    {
      SumWithin(gs[i], 0, 0xFFFF);
    }
    forall i | 0 <= i <= |gs|
      ensures MeansSum(gs[..i], n) < U64_LIMIT
    {
      PartialMeans(gs, n, i);
    }
  }

  // ── Timing ───────────────────────────────────────────────────────────────

  function CheckedMul64(a: nat, b: nat): Result<nat> {
    if a * b < U64_LIMIT then Ok(a * b) else Err(Other)
  }

  function SampleWindowTicks(config: AveragingConfig): Result<nat> {
    var needed :- CheckedMul64(config.avgIntervalsPerRequest, config.combineAvgValues);
    CheckedMul64(needed, config.sampleInterval)
  }

  /** The window is always representable, whatever the configuration. */
  lemma WindowNeverOverflows(config: AveragingConfig)
    ensures SampleWindowTicks(config) ==
            Ok(config.avgIntervalsPerRequest * config.combineAvgValues * config.sampleInterval)
  {
    var n: nat, k: nat, t: nat := config.avgIntervalsPerRequest, config.combineAvgValues, config.sampleInterval;
    MulMonotone(n, 0xFFFF, k);
    MulMonotone(k, 0xFFFF, 0xFFFF);
    var needed: nat := n * k;
    MulMonotone(needed, 0xFFFE_0001, t);
    MulMonotone(t, 0xFFFF_FFFF, 0xFFFE_0001);
  }
}
