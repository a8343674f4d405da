/** Weighted samples and the accumulators that summarise them (DataSample.h), over exact reals. */
module Accumulator {
  datatype Sample<V> = Sample(time: real, value: V, weight: real, stddev: real)

  // ---------------------------------------------------------------- numeric samples

  datatype Totals = Totals(timesum: real, sum: real, sumsq: real, weight: real)

  const ZERO := Totals(0.0, 0.0, 0.0, 0.0)

  ghost function Plus(a: Totals, b: Totals): Totals {
    Totals(a.timesum + b.timesum, a.sum + b.sum, a.sumsq + b.sumsq, a.weight + b.weight)
  }

  /** What a sample stands for: weight many readings with this mean and standard deviation. */
  ghost function Worth(s: Sample<real>): Totals {
    Totals(s.time * s.weight, s.value * s.weight, s.weight * (s.stddev * s.stddev + s.value * s.value), s.weight)
  }

  ghost function TotalWorth(samples: seq<Sample<real>>): Totals
    decreases |samples|
  {
    if samples == [] then ZERO
    else Plus(TotalWorth(samples[..|samples| - 1]), Worth(samples[|samples| - 1]))
  }

  /** The variance that the totals describe is not negative. */
  ghost predicate Possible(a: Totals) {
    a.weight >= 0.0 && a.sumsq >= 0.0 && a.weight * a.sumsq >= a.sum * a.sum
  }

  ghost predicate IsRoot(sqrt: real -> real) {
    forall v {:trigger sqrt(v)} | v >= 0.0 :: sqrt(v) >= 0.0 && sqrt(v) * sqrt(v) == v
  }

  class NumberAccumulator {
    var timesum: real
    var sum: real
    var sumsq: real
    var weight: real

    function Total(): Totals
      reads this
    {
      Totals(timesum, sum, sumsq, weight)
    }

    constructor ()
      ensures Total() == ZERO
    {
      timesum, sum, sumsq, weight := 0.0, 0.0, 0.0, 0.0;
    }

    /** operator+= for an accumulator, which may be this one. */
    method AddAccumulator(x: NumberAccumulator)
      modifies this
      ensures Total() == Plus(old(Total()), old(x.Total()))
    {
      timesum := timesum + x.timesum;
      sum := sum + x.sum;
      sumsq := sumsq + x.sumsq;
      weight := weight + x.weight;
    }

    /** operator+= for a sample. */
    method AddSample(x: Sample<real>)
      modifies this
      ensures Total() == Plus(old(Total()), Worth(x))
    {
      if x.weight == 0.0 {
        return;
      }
      timesum := timesum + x.time * x.weight;
      sum := sum + x.value * x.weight;
      var samplesq := x.weight * (x.stddev * x.stddev + x.value * x.value);
      sumsq := sumsq + samplesq;
      weight := weight + x.weight;
    }

    /** operator+= for one sample after another: everything added so far still has a variance that is not negative. */
    method AddSamples(samples: seq<Sample<real>>)
      modifies this
      ensures Total() == Plus(old(Total()), TotalWorth(samples))
      ensures Possible(old(Total())) && (forall s | s in samples :: s.weight >= 0.0) ==> Possible(Total())
      ensures Possible(Total()) && weight > 0.0 ==> Variance(Total()) >= 0.0
    {
      ghost var before := Total();
      for i := 0 to |samples|
        invariant Total() == Plus(before, TotalWorth(samples[..i]))
      {
        assert samples[..i + 1][..i] == samples[..i];
        AddSample(samples[i]);
      }
      assert samples[..|samples|] == samples;
      if Possible(before) && forall s | s in samples :: s.weight >= 0.0 {
        TotalsPossible(samples);
        PlusPossible(before, TotalWorth(samples));
      }
      if Possible(Total()) && weight > 0.0 {
        VarianceNotNegative(Total());
      }
    }

    /** operator+= for the summary of an accumulator, which may be this one: the same as for the accumulator itself. */
    method AddSummary(b: NumberAccumulator, sqrt: real -> real)
      requires b.weight != 0.0 && Variance(b.Total()) >= 0.0 && IsRoot(sqrt)
      modifies this
      ensures Total() == Plus(old(Total()), old(b.Total()))
    {
      AddSample(b.GetSample(sqrt));
    }

    /** A new accumulator, samples added, and get_sample. */
    static method Summarized(samples: seq<Sample<real>>, sqrt: real -> real) returns (r: Sample<real>)
      requires SumOf(samples, (s: Sample<real>) => s.weight) > 0.0 && IsRoot(sqrt)
      requires forall s | s in samples :: s.weight >= 0.0
      ensures IsSummary(r, samples)
    {
      var a := new NumberAccumulator();
      a.AddSamples(samples);
      assert a.Total() == TotalWorth(samples);
      assert a.weight > 0.0 && Possible(a.Total()) by {
        TotalSums(samples);
        TotalsPossible(samples);
      }
      SummaryMeans(samples, sqrt);
      r := a.GetSample(sqrt);
    }

    /** get_sample: one sample that is worth as much as everything added so far. */
    function GetSample(sqrt: real -> real): (r: Sample<real>)
      requires weight != 0.0 && Variance(Total()) >= 0.0 && IsRoot(sqrt)
      reads this
      ensures Worth(r) == Total() && r.stddev >= 0.0
    {
      SummaryWorth(Total(), sqrt);
      Summary(Total(), sqrt)
    }
  }

  /** get. */
  function Summary(a: Totals, sqrt: real -> real): Sample<real>
    requires a.weight != 0.0
  {
    Sample(a.timesum / a.weight, a.sum / a.weight, a.weight, sqrt(Variance(a)))
  }

  function Variance(a: Totals): real
    requires a.weight != 0.0
  {
    var mean := a.sum / a.weight;
    a.sumsq / a.weight - mean * mean
  }

  lemma MulNotNegative(x: real, y: real)
    requires x >= 0.0 && y >= 0.0
    ensures x * y >= 0.0
  {
  }

  lemma MulPositive(x: real, y: real, z: real)
    requires x > 0.0 && y > 0.0 && z == x * y
    ensures z > 0.0
  {
  }

  lemma FactorNotNegative(x: real, y: real)
    requires x > 0.0 && x * y >= 0.0
    ensures y >= 0.0
  {
    if y < 0.0 {
      MulPositive(x, -y, x * -y);
    }
  }

  lemma SquareNotNegative(x: real)
    ensures x * x >= 0.0
  {
  }

  lemma VarianceNotNegative(a: Totals)
    requires a.weight > 0.0 && Possible(a)
    ensures Variance(a) >= 0.0
  {
    MeanBelow(a.weight, a.sum, a.sumsq);
  }

  lemma MeanBelow(w: real, s: real, q: real)
    requires w > 0.0 && w * q >= s * s
    ensures q / w - (s / w) * (s / w) >= 0.0
  {
    var m := s / w;
    assert s == w * m;
    assert w * q >= w * (w * (m * m));
    FactorNotNegative(w, q - w * (m * m));
    assert q / w >= m * m;
  }

  lemma SummaryWorth(a: Totals, sqrt: real -> real)
    requires a.weight != 0.0 && Variance(a) >= 0.0 && IsRoot(sqrt)
    ensures Worth(Summary(a, sqrt)) == a && Summary(a, sqrt).stddev >= 0.0
  {
  }

  // ---------------------------------------------------------------- the sums written out

  /** The sum of f over the samples. */
  ghost function SumOf<V>(samples: seq<Sample<V>>, f: Sample<V> -> real): real
    decreases |samples|
  {
    if samples == [] then 0.0 else SumOf(samples[..|samples| - 1], f) + f(samples[|samples| - 1])
  }

  lemma {:induction false} TotalSums(samples: seq<Sample<real>>)
    ensures TotalWorth(samples).weight == SumOf(samples, (s: Sample<real>) => s.weight)
    ensures TotalWorth(samples).timesum == SumOf(samples, (s: Sample<real>) => s.weight * s.time)
    ensures TotalWorth(samples).sum == SumOf(samples, (s: Sample<real>) => s.weight * s.value)
    decreases |samples|
  {
    if samples != [] {
      TotalSums(samples[..|samples| - 1]);
    }
  }

  /** What the samples deviate from m, squared and weighted, with what they deviate in themselves. */
  ghost function Deviation(m: real): Sample<real> -> real {
    (s: Sample<real>) => s.weight * (s.stddev * s.stddev + (s.value - m) * (s.value - m))
  }

  lemma {:induction false} TotalDeviation(samples: seq<Sample<real>>, m: real)
    ensures var a := TotalWorth(samples);
            SumOf(samples, Deviation(m)) == a.sumsq - 2.0 * m * a.sum + m * m * a.weight
    decreases |samples|
  {
    if samples != [] {
      var s := samples[|samples| - 1];
      TotalDeviation(samples[..|samples| - 1], m);
      DeviationOf(s, m);
    }
  }

  lemma DeviationOf(s: Sample<real>, m: real)
    ensures Deviation(m)(s) == Worth(s).sumsq - 2.0 * m * Worth(s).sum + m * m * Worth(s).weight
  {
  }

  /**
   The summary of samples has their whole weight, the weighted mean of their times and values, and
   the standard deviation of all the readings that they stand for.
   */
  lemma SummaryMeans(samples: seq<Sample<real>>, sqrt: real -> real)
    requires SumOf(samples, (s: Sample<real>) => s.weight) > 0.0 && IsRoot(sqrt)
    requires forall s | s in samples :: s.weight >= 0.0
    ensures TotalWorth(samples).weight > 0.0
    ensures IsSummary(Summary(TotalWorth(samples), sqrt), samples)
  {
    var a := TotalWorth(samples);
    TotalSums(samples);
    assert Variance(a) >= 0.0 by {
      TotalsPossible(samples);
      VarianceNotNegative(a);
    }
    SummaryIs(samples, a, Summary(a, sqrt), sqrt);
  }

  lemma SummaryIs(samples: seq<Sample<real>>, a: Totals, r: Sample<real>, sqrt: real -> real)
    requires a == TotalWorth(samples) && a.weight > 0.0 && Variance(a) >= 0.0 && IsRoot(sqrt) && r == Summary(a, sqrt)
    ensures IsSummary(r, samples)
  {
    TotalSums(samples);
    Averages(a, r, sqrt);
    TotalDeviation(samples, r.value);
  }

  /** The sums that a summary stands for, written out. */
  ghost predicate IsSummary(r: Sample<real>, samples: seq<Sample<real>>) {
    && r.weight == SumOf(samples, (s: Sample<real>) => s.weight)
    && r.time * r.weight == SumOf(samples, (s: Sample<real>) => s.weight * s.time)
    && r.value * r.weight == SumOf(samples, (s: Sample<real>) => s.weight * s.value)
    && r.stddev >= 0.0 && r.stddev * r.stddev * r.weight == SumOf(samples, Deviation(r.value))
  }

  lemma Averages(a: Totals, r: Sample<real>, sqrt: real -> real)
    requires a.weight > 0.0 && Variance(a) >= 0.0 && IsRoot(sqrt) && r == Summary(a, sqrt)
    ensures r.weight == a.weight && r.time * r.weight == a.timesum && r.value * r.weight == a.sum && r.stddev >= 0.0
    ensures r.value == a.sum / a.weight
    ensures r.stddev * r.stddev * r.weight == a.sumsq - 2.0 * r.value * a.sum + r.value * r.value * a.weight
  {
    Undivided(a.timesum, a.weight);
    Undivided(a.sum, a.weight);
    Undivided(a.sumsq, a.weight);
    MeanDeviation(a.weight, a.sum, a.sumsq, r.value, a.sumsq / a.weight, Variance(a));
    assert r.stddev * r.stddev == Variance(a);
  }

  lemma Undivided(x: real, w: real)
    requires w != 0.0
    ensures x / w * w == x
  {
  }

  lemma MeanDeviation(w: real, sum: real, sumsq: real, m: real, q: real, v: real)
    requires m * w == sum && q * w == sumsq && v == q - m * m
    ensures v * w == sumsq - 2.0 * m * sum + m * m * w
  {
    assert m * sum == m * m * w;
  }

  /** Totals that describe a variance add up to totals that do. */
  lemma PlusPossible(a: Totals, b: Totals)
    requires Possible(a) && Possible(b)
    ensures Possible(Plus(a, b))
  {
    if a.weight == 0.0 {
      ZeroSum(a);
      MulNotNegative(b.weight, a.sumsq);
    } else if b.weight == 0.0 {
      ZeroSum(b);
      MulNotNegative(a.weight, b.sumsq);
    } else {
      var w, v, m, n := a.weight, b.weight, a.sum / a.weight, b.sum / b.weight;
      var p, q := a.sumsq - w * (m * m), b.sumsq - v * (n * n);
      assert a.sum == w * m && b.sum == v * n;
      Excess(a, m, p);
      Excess(b, n, q);
      SpreadIdentity(w, v, m, n, p, q);
      MulNotNegative(w + v, p + q);
      MulNotNegative(w, v);
      SquareNotNegative(m - n);
      MulNotNegative(w * v, (m - n) * (m - n));
    }
  }

  lemma ZeroSum(a: Totals)
    requires Possible(a) && a.weight == 0.0
    ensures a.sum == 0.0
  {
    NoSquare(a.sum);
  }

  lemma NoSquare(x: real)
    requires x * x <= 0.0
    ensures x == 0.0
  {
    if x != 0.0 {
      SquarePositive(x, x * x);
    }
  }

  lemma SquarePositive(x: real, y: real)
    requires x != 0.0 && y == x * x
    ensures y > 0.0
  {
    if x < 0.0 {
      MulPositive(-x, -x, y);
    } else {
      MulPositive(x, x, y);
    }
  }

  lemma Excess(a: Totals, m: real, p: real)
    requires Possible(a) && a.weight > 0.0 && a.sum == a.weight * m && p == a.sumsq - a.weight * (m * m)
    ensures p >= 0.0
  {
    assert a.weight * p == a.weight * a.sumsq - a.sum * a.sum;
    FactorNotNegative(a.weight, p);
  }

  lemma SpreadIdentity(w: real, v: real, m: real, n: real, p: real, q: real)
    ensures (w + v) * ((p + w * (m * m)) + (q + v * (n * n))) - (w * m + v * n) * (w * m + v * n)
            == (w + v) * (p + q) + (w * v) * ((m - n) * (m - n))
  {
  }

  lemma WorthPossible(s: Sample<real>)
    requires s.weight >= 0.0
    ensures Possible(Worth(s))
  {
    var w, d, v := s.weight, s.stddev, s.value;
    SquareNotNegative(d);
    SquareNotNegative(v);
    MulNotNegative(w, d * d + v * v);
    MulNotNegative(w, w);
    MulNotNegative(w * w, d * d);
    assert w * (w * (d * d + v * v)) - (v * w) * (v * w) == (w * w) * (d * d);
  }

  /** Samples of non-negative weight never add up to a negative variance. */
  lemma {:induction false} TotalsPossible(samples: seq<Sample<real>>)
    requires forall s | s in samples :: s.weight >= 0.0
    ensures Possible(TotalWorth(samples))
    decreases |samples|
  {
    if samples != [] {
      TotalsPossible(samples[..|samples| - 1]);
      WorthPossible(samples[|samples| - 1]);
      PlusPossible(TotalWorth(samples[..|samples| - 1]), Worth(samples[|samples| - 1]));
    }
  }

  lemma {:induction false} TotalWorthAppend(a: seq<Sample<real>>, b: seq<Sample<real>>)
    ensures TotalWorth(a + b) == Plus(TotalWorth(a), TotalWorth(b))
    decreases |b|
  {
    if b == [] {
      assert a + b == a;
    } else {
      assert (a + b)[..|a + b| - 1] == a + b[..|b| - 1];
      TotalWorthAppend(a, b[..|b| - 1]);
    }
  }

  // ---------------------------------------------------------------- summaries of summaries

  /** Raw samples, and groups that are summarised before they are added to something else. */
  datatype Grouping = Raw(sample: Sample<real>) | Group(parts: seq<Grouping>)

  ghost function Samples(g: Grouping): seq<Sample<real>> {
    match g
    case Raw(s) => [s]
    case Group(parts) => AllSamples(parts)
  }

  ghost function AllSamples(gs: seq<Grouping>): seq<Sample<real>> {
    if gs == [] then [] else Samples(gs[0]) + AllSamples(gs[1..])
  }

  /** No weight is negative and no group is empty of weight, so every summary divides by a positive weight. */
  ghost predicate Weighted(g: Grouping) {
    match g
    case Raw(s) => s.weight >= 0.0
    case Group(parts) => TotalWorth(AllSamples(parts)).weight > 0.0 && forall p | p in parts :: Weighted(p)
  }

  lemma {:induction false} WeightedSamples(gs: seq<Grouping>)
    requires forall g | g in gs :: Weighted(g)
    ensures forall s | s in AllSamples(gs) :: s.weight >= 0.0
  {
    if gs != [] {
      assert Weighted(gs[0]);
      if gs[0].Group? {
        WeightedSamples(gs[0].parts);
      }
      WeightedSamples(gs[1..]);
    }
  }

  /** Summarising groups, and groups of groups, is worth as much as all the raw samples together. */
  ghost function Condensed(g: Grouping, sqrt: real -> real): (r: Sample<real>)
    requires Weighted(g) && IsRoot(sqrt)
    ensures Worth(r) == TotalWorth(Samples(g))
  {
    match g
    case Raw(s) =>
      assert [s][..0] == [];
      s
    case Group(parts) =>
      WeightedSamples(parts);
      TotalsPossible(AllSamples(parts));
      var total := TotalWorth(AllCondensed(parts, sqrt));
      VarianceNotNegative(total);
      SummaryWorth(total, sqrt);
      Summary(total, sqrt)
  }

  ghost function AllCondensed(gs: seq<Grouping>, sqrt: real -> real): (rs: seq<Sample<real>>)
    requires (forall g | g in gs :: Weighted(g)) && IsRoot(sqrt)
    ensures TotalWorth(rs) == TotalWorth(AllSamples(gs))
  {
    if gs == [] then []
    else
      var first, rest := Condensed(gs[0], sqrt), AllCondensed(gs[1..], sqrt);
      CondensedNext(first, rest, Samples(gs[0]), AllSamples(gs[1..]));
      [first] + rest
  }

  lemma CondensedNext(s: Sample<real>, rest: seq<Sample<real>>, group: seq<Sample<real>>, more: seq<Sample<real>>)
    requires Worth(s) == TotalWorth(group) && TotalWorth(rest) == TotalWorth(more)
    ensures TotalWorth([s] + rest) == TotalWorth(group + more)
  {
    assert [s][..0] == [];
    TotalWorthAppend([s], rest);
    TotalWorthAppend(group, more);
  }

  // ---------------------------------------------------------------- text samples

  const MULTIPLE := "<multiple>"

  datatype TextTotals = TextTotals(timesum: real, sum: string, weight: real)

  const NO_TEXT := TextTotals(0.0, "", 0.0)

  ghost function TextPlus(a: TextTotals, s: Sample<string>): TextTotals {
    var sum := if a.weight == 0.0 then s.value else if a.sum == s.value then a.sum else MULTIPLE;
    TextTotals(a.timesum + s.time * s.weight, sum, a.weight + s.weight)
  }

  ghost function TextFold(a: TextTotals, samples: seq<Sample<string>>): TextTotals
    decreases |samples|
  {
    if samples == [] then a else TextFold(TextPlus(a, samples[0]), samples[1..])
  }

  /** get. */
  function TextSummary(a: TextTotals): Sample<string>
    requires a.weight != 0.0
  {
    Sample(a.timesum / a.weight, a.sum, a.weight, 0.0)
  }

  class TextAccumulator {
    var timesum: real
    var sum: string
    var weight: real

    function Total(): TextTotals
      reads this
    {
      TextTotals(timesum, sum, weight)
    }

    constructor ()
      ensures Total() == NO_TEXT
    {
      timesum, sum, weight := 0.0, "", 0.0;
    }

    /** operator+= for a sample; unlike the numeric one it does not step over a weight of zero. */
    method AddSample(x: Sample<string>)
      modifies this
      ensures Total() == TextPlus(old(Total()), x)
    {
      timesum := timesum + x.time * x.weight;
      if weight == 0.0 {
        sum := x.value;
      } else if sum != x.value {
        sum := MULTIPLE;
      }
      weight := weight + x.weight;
    }

    /** get_sample. */
    function GetSample(): (r: Sample<string>)
      requires weight != 0.0
      reads this
      ensures r.time * r.weight == timesum && r.value == sum && r.weight == weight && r.stddev == 0.0
    {
      TextSummary(Total())
    }
  }

  ghost predicate AllAre(samples: seq<Sample<string>>, v: string) {
    forall s | s in samples :: s.value == v
  }

  /** Once there is weight, the text stays only while every value is the same. */
  lemma {:induction false} FoldOntoWeight(a: TextTotals, samples: seq<Sample<string>>)
    requires a.weight > 0.0 && forall s | s in samples :: s.weight >= 0.0
    ensures var r := TextFold(a, samples);
            && r.weight > 0.0
            && r.sum == if AllAre(samples, a.sum) then a.sum else MULTIPLE
    decreases |samples|
  {
    if samples != [] {
      assert samples == [samples[0]] + samples[1..];
      FoldOntoWeight(TextPlus(a, samples[0]), samples[1..]);
    }
  }

  /** Values without weight are forgotten: the text is decided from the first sample with weight on. */
  lemma {:induction false} FoldOntoNothing(a: TextTotals, samples: seq<Sample<string>>, k: nat)
    requires a.weight == 0.0 && k < |samples|
    requires forall s | s in samples :: s.weight >= 0.0
    requires samples[k].weight > 0.0 && forall i | 0 <= i < k :: samples[i].weight == 0.0
    ensures var r, v := TextFold(a, samples), samples[k].value;
            && r.weight > 0.0
            && r.sum == if AllAre(samples[k..], v) then v else MULTIPLE
    decreases |samples|
  {
    var rest := samples[1..];
    if k == 0 {
      assert samples[0..] == [samples[0]] + rest;
      FoldOntoWeight(TextPlus(a, samples[0]), rest);
    } else {
      assert rest[k - 1..] == samples[k..];
      FoldOntoNothing(TextPlus(a, samples[0]), rest, k - 1);
    }
  }

  lemma {:induction false} FoldSums(a: TextTotals, samples: seq<Sample<string>>)
    ensures TextFold(a, samples).timesum == a.timesum + TextFold(NO_TEXT, samples).timesum
    ensures TextFold(a, samples).weight == a.weight + TextFold(NO_TEXT, samples).weight
    decreases |samples|
  {
    if samples != [] {
      FoldSums(TextPlus(a, samples[0]), samples[1..]);
      FoldSums(TextPlus(NO_TEXT, samples[0]), samples[1..]);
    }
  }

  /** Times and weights add up, whatever the texts are. */
  lemma {:induction false} TextSums(samples: seq<Sample<string>>)
    ensures TextFold(NO_TEXT, samples).weight == SumOf(samples, (s: Sample<string>) => s.weight)
    ensures TextFold(NO_TEXT, samples).timesum == SumOf(samples, (s: Sample<string>) => s.weight * s.time)
    decreases |samples|
  {
    if samples != [] {
      TextSums(samples[..|samples| - 1]);
      FoldLast(NO_TEXT, samples);
    }
  }

  lemma {:induction false} FoldLast(a: TextTotals, samples: seq<Sample<string>>)
    requires samples != []
    ensures TextFold(a, samples) == TextPlus(TextFold(a, samples[..|samples| - 1]), samples[|samples| - 1])
    decreases |samples|
  {
    if |samples| > 1 {
      FoldLast(TextPlus(a, samples[0]), samples[1..]);
      assert samples[1..][..|samples| - 2] == samples[..|samples| - 1][1..];
    }
  }

  /**
   Adding the summary of a group is the same as adding its samples one by one, except when the
   accumulator already has weight and holds a text which all the samples of the group share from
   the first one with weight on, but not some earlier one without weight.
   */
  lemma TextGroups(a: TextTotals, group: seq<Sample<string>>, k: nat)
    requires a.weight >= 0.0 && k < |group|
    requires forall s | s in group :: s.weight >= 0.0
    requires group[k].weight > 0.0 && forall i | 0 <= i < k :: group[i].weight == 0.0
    ensures TextFold(NO_TEXT, group).weight > 0.0
    ensures TextPlus(a, TextSummary(TextFold(NO_TEXT, group))) == TextFold(a, group) <==>
            (a.weight == 0.0 || a.sum == MULTIPLE || AllAre(group[..k], a.sum) || !AllAre(group[k..], a.sum))
  {
    FoldOntoNothing(NO_TEXT, group, k);
    var whole := TextFold(NO_TEXT, group);
    FoldSums(a, group);
    SummarySums(a, whole);
    if a.weight == 0.0 {
      FoldOntoNothing(a, group, k);
    } else {
      FoldOntoWeight(a, group);
      AllAreParts(group, k, a.sum);
    }
  }

  /** A group whose summary agrees with the accumulator, where its first sample, without weight, does not. */
  lemma TextGroupsExample()
    ensures var a, group := TextTotals(0.0, "x", 1.0), [Sample(0.0, "y", 0.0, 0.0), Sample(0.0, "x", 1.0, 0.0)];
            && TextPlus(a, TextSummary(TextFold(NO_TEXT, group))).sum == "x"
            && TextFold(a, group).sum == "<multiple>"
  {
    var group := [Sample(0.0, "y", 0.0, 0.0), Sample(0.0, "x", 1.0, 0.0)];
    assert group[1..] == [group[1]];
  }

  lemma SummarySums(a: TextTotals, b: TextTotals)
    requires b.weight != 0.0
    ensures var r := TextPlus(a, TextSummary(b)); r.timesum == a.timesum + b.timesum && r.weight == a.weight + b.weight
  {
    assert b.timesum / b.weight * b.weight == b.timesum;
  }

  lemma AllAreParts(samples: seq<Sample<string>>, k: nat, v: string)
    requires k < |samples|
    ensures AllAre(samples, v) <==> AllAre(samples[..k], v) && AllAre(samples[k..], v)
    ensures AllAre(samples[k..], v) ==> samples[k].value == v
  {
    assert samples == samples[..k] + samples[k..];
    assert samples[k] in samples[k..];
  }

  /** When every sample has weight, groups can always be summarised first. */
  lemma TextGroupsCompose(a: TextTotals, group: seq<Sample<string>>)
    requires a.weight >= 0.0 && group != [] && forall s | s in group :: s.weight > 0.0
    ensures TextFold(NO_TEXT, group).weight > 0.0
    ensures TextPlus(a, TextSummary(TextFold(NO_TEXT, group))) == TextFold(a, group)
  {
    TextGroups(a, group, 0);
  }
}
