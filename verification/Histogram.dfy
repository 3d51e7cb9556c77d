/** The self-rescaling histogram: a fixed number of buckets that are folded in place
    whenever a sample falls outside the range they cover. */
module Histogram {
  import opened Folds
  import opened Sequences

  /** Where the buckets lie on the number line. */
  datatype Scale = Scale(minBucket: real, maxBucket: real, bucketSize: real) {

    /** `buckets` buckets from `minBucket` on: starting at 0, or, once a negative
        sample was seen, centred around half a bucket. */
    predicate Ok(buckets: nat) {
      && buckets >= 2 && bucketSize >= 1.0
      && (minBucket == 0.0 ==> maxBucket == (buckets - 1) as real * bucketSize)
      && (minBucket != 0.0 ==> bucketSize >= 2.0 && minBucket == -maxBucket &&
                               2.0 * maxBucket == (buckets - 1) as real * bucketSize)
    }

    /** How far below its bucket a sample may lie. */
    function Slack(): real {
      if minBucket == 0.0 then 0.0 else bucketSize / 2.0
    }

    /** `val` may be filed in bucket `j`. */
    ghost predicate Near(val: real, j: int) {
      minBucket + j as real * bucketSize - Slack() <= val < minBucket + (j + 1) as real * bucketSize
    }

    predicate Covers(val: real) {
      minBucket <= val < maxBucket + bucketSize
    }

    /** `val` lies in bucket `j`. */
    ghost predicate Within(val: real, j: int) {
      minBucket + j as real * bucketSize <= val < minBucket + (j + 1) as real * bucketSize
    }

    function Up(): Scale {
      Scale(minBucket, 2.0 * maxBucket, 2.0 * bucketSize)
    }

    function Out(): Scale {
      Scale(2.0 * minBucket, 2.0 * maxBucket, 2.0 * bucketSize)
    }

    function Convert(): Scale {
      Scale(-maxBucket, maxBucket, 2.0 * bucketSize)
    }
  }

  /** What the three ways of growing do to the scale. */
  lemma GrowthSpelled(s: Scale)
    ensures s.Up().minBucket == s.minBucket && s.Up().maxBucket == 2.0 * s.maxBucket && s.Up().bucketSize == 2.0 * s.bucketSize
    ensures s.Out().minBucket == 2.0 * s.minBucket && s.Out().maxBucket == 2.0 * s.maxBucket && s.Out().bucketSize == 2.0 * s.bucketSize
    ensures s.Convert().minBucket == -s.maxBucket && s.Convert().maxBucket == s.maxBucket && s.Convert().bucketSize == 2.0 * s.bucketSize
  {
  }

  lemma Span(s: Scale, buckets: nat)
    requires s.Ok(buckets)
    ensures s.maxBucket + s.bucketSize - s.minBucket == buckets as real * s.bucketSize
    ensures s.minBucket < s.maxBucket
    ensures s.maxBucket + s.bucketSize >= 2.0 && (s.minBucket == 0.0 || s.minBucket <= -1.0)
  {
    SpanOf((buckets - 1) as real, s.minBucket, s.maxBucket, s.bucketSize);
  }

  lemma SpanOf(n: real, min: real, max: real, b: real)
    requires n >= 1.0 && b >= 1.0 && (min == 0.0 ==> max == n * b)
    requires min != 0.0 ==> b >= 2.0 && min == -max && 2.0 * max == n * b
    ensures max + b - min == (n + 1.0) * b && min < max && max + b >= 2.0 && (min == 0.0 || min <= -1.0)
  {
    AtLeast(n, b);
    Ends(min, max, b, n * b);
  }

  lemma AtLeast(n: real, b: real)
    requires n >= 1.0 && b >= 0.0
    ensures n * b >= b
  {
    Mono(1.0, n, b);
  }

  lemma Ends(min: real, max: real, b: real, span: real)
    requires b >= 1.0 && span >= b && (min == 0.0 ==> max == span)
    requires min != 0.0 ==> b >= 2.0 && min == -max && 2.0 * max == span
    ensures max - min == span && min < max && max + b >= 2.0 && (min == 0.0 || min <= -1.0)
  {
  }

  lemma UpOk(s: Scale, buckets: nat)
    requires s.Ok(buckets) && s.minBucket == 0.0
    ensures s.Up().Ok(buckets)
  {
    Double(buckets - 1, s.bucketSize);
  }

  lemma OutOk(s: Scale, buckets: nat)
    requires s.Ok(buckets) && s.minBucket != 0.0
    ensures s.Out().Ok(buckets) && s.Out().minBucket != 0.0
  {
    Double(buckets - 1, s.bucketSize);
  }

  lemma ConvertOk(s: Scale, buckets: nat)
    requires s.Ok(buckets) && s.minBucket == 0.0
    ensures s.Convert().Ok(buckets) && s.Convert().minBucket != 0.0
  {
    Span(s, buckets);
    Double(buckets - 1, s.bucketSize);
  }

  // ---------- small facts about products ----------

  lemma Scaled(x: int, y: int, b: real)
    ensures (x + y) as real * b == x as real * b + y as real * b
  {
  }

  lemma Double(x: int, b: real)
    ensures x as real * (2.0 * b) == 2.0 * (x as real * b)
  {
  }

  lemma Mono(x: real, y: real, b: real)
    requires x <= y && b >= 0.0
    ensures x * b <= y * b
  {
  }

  // ---------- samples stay near their buckets ----------

  lemma Doubled(j': int, d: int, b: real, j: int)
    requires b > 0.0 && 2 * j' + d <= j <= 2 * j' + d + 1
    ensures j' as real * (2.0 * b) == 2.0 * (j' as real * b) && (j' + 1) as real * (2.0 * b) == 2.0 * ((j' + 1) as real * b)
    ensures 2.0 * (j' as real * b) + d as real * b <= j as real * b
    ensures (j + 1) as real * b <= 2.0 * ((j' + 1) as real * b) + d as real * b
  {
    Mono((2 * j' + d) as real, j as real, b);
    Mono((j + 1) as real, (2 * j' + d + 2) as real, b);
    Scaled(2 * j', d, b);
    Scaled(2 * j' + 2, d, b);
    Double(j', b);
    Double(j' + 1, b);
    assert (2 * j') as real * b == 2.0 * (j' as real * b);
    assert (2 * j' + 2) as real * b == 2.0 * ((j' + 1) as real * b);
  }

  /** Moving a sample from bucket `j` to `j'` of a scale twice as coarse. */
  lemma NearMoves(s: Scale, s': Scale, val: real, j: int, j': int, d: int)
    requires s.bucketSize > 0.0 && s'.bucketSize == 2.0 * s.bucketSize && s.Near(val, j)
    requires 2 * j' + d <= j <= 2 * j' + d + 1
    requires s.minBucket + d as real * s.bucketSize <= s'.minBucket
    requires s'.minBucket - s'.Slack() <= s.minBucket + d as real * s.bucketSize - s.Slack()
    ensures s'.Near(val, j')
  {
    var b := s.bucketSize;
    var low, high, shift := j' as real * b, (j' + 1) as real * b, d as real * b;
    Doubled(j', d, b, j);
    assert s'.minBucket + j' as real * s'.bucketSize == s'.minBucket + 2.0 * low;
    assert s'.minBucket + (j' + 1) as real * s'.bucketSize == s'.minBucket + 2.0 * high;
    assert 2.0 * low + shift <= j as real * b && (j + 1) as real * b <= 2.0 * high + shift;
  }

  /** The buckets tally the samples that are not lost, each of them near its bucket. */
  ghost predicate Filed(s: Scale, buckets: seq<int>, history: seq<Sample>, slots: seq<int>) {
    Counted(buckets, history, slots) && AllNear(s, history, slots)
  }

  ghost predicate AllNear(s: Scale, history: seq<Sample>, slots: seq<int>)
    requires |history| == |slots|
  {
    forall k :: 0 <= k < |history| && slots[k] != LOST ==> s.Near(history[k].val, slots[k])
  }

  /** Samples that move along with the buckets stay near them. */
  lemma AllMove(s: Scale, s': Scale, history: seq<Sample>, slots: seq<int>, d: int, lo: int)
    requires |history| == |slots| && AllNear(s, history, slots)
    requires s.bucketSize > 0.0 && s'.bucketSize == 2.0 * s.bucketSize
    requires s.minBucket + d as real * s.bucketSize <= s'.minBucket
    requires s'.minBucket - s'.Slack() <= s.minBucket + d as real * s.bucketSize - s.Slack()
    ensures AllNear(s', history, Moved(slots, d, lo))
  {
    var slots' := Moved(slots, d, lo);
    forall k | 0 <= k < |history| && slots'[k] != LOST
      ensures s'.Near(history[k].val, slots'[k])
    {
      MovedAt(slots, d, lo, k);
      hide Moved;
      NearMoves(s, s', history[k].val, slots[k], slots'[k], d);
    }
  }

  lemma UpFiled(s: Scale, buckets: seq<int>, history: seq<Sample>, slots: seq<int>)
    requires s.Ok(|buckets|) && s.minBucket == 0.0 && Filed(s, buckets, history, slots)
    ensures Filed(s.Up(), FoldUp(buckets), history, Moved(slots, 0, 0))
  {
    hide FoldUp, Moved, AllNear;
    FoldUpCounted(buckets, history, slots);
    AllMove(s, s.Up(), history, slots, 0, 0);
  }

  lemma ConvertFiled(s: Scale, buckets: seq<int>, history: seq<Sample>, slots: seq<int>)
    requires s.Ok(|buckets|) && s.minBucket == 0.0 && Filed(s, buckets, history, slots)
    ensures Filed(s.Convert(), FoldConvert(buckets), history, Moved(slots, -|buckets|, (|buckets| + 1) / 2))
  {
    var n, b := |buckets|, s.bucketSize;
    hide FoldConvert, Moved, AllNear;
    FoldConvertCounted(buckets, history, slots);
    ConvertOk(s, n);
    Scaled(n - 1, 1, b);
    assert (-n) as real * b == -(n as real * b);
    AllMove(s, s.Convert(), history, slots, -n, (n + 1) / 2);
  }

  /** Where the outward fold leaves the lower end. */
  lemma OutShift(s: Scale, n: nat, half: int)
    requires s.Ok(n) && s.minBucket != 0.0 && half == n / 2
    ensures s.minBucket + (-half) as real * s.bucketSize <= s.Out().minBucket
    ensures s.Out().minBucket - s.Out().Slack() <= s.minBucket + (-half) as real * s.bucketSize - s.Slack()
  {
    var b := s.bucketSize;
    Mono((n - 1) as real, (2 * half) as real, b);
    Mono((2 * half) as real, n as real, b);
    Scaled(n - 1, 1, b);
    assert (2 * half) as real * b == 2.0 * (half as real * b);
    assert (-half) as real * b == -(half as real * b);
  }

  lemma OutFiled(s: Scale, buckets: seq<int>, history: seq<Sample>, slots: seq<int>)
    requires s.Ok(|buckets|) && s.minBucket != 0.0 && Filed(s, buckets, history, slots)
    ensures Filed(s.Out(), FoldOut(buckets), history, Moved(slots, -(|buckets| / 2), (|buckets| - |buckets| / 2) / 2))
  {
    hide FoldOut, Moved, AllNear;
    FoldOutCounted(buckets, history, slots);
    OutShift(s, |buckets|, |buckets| / 2);
    AllMove(s, s.Out(), history, slots, -(|buckets| / 2), (|buckets| - |buckets| / 2) / 2);
  }

  // ---------- the reference histogram ----------

  /** Nothing is lost. */
  ghost predicate Whole(slots: seq<int>) {
    forall k :: 0 <= k < |slots| ==> slots[k] >= 0
  }

  /** The plain histogram: all samples whose value divided by the bucket size rounds down to `j`. */
  ghost function Plain(history: seq<Sample>, bucketSize: real, j: int): int
    requires bucketSize > 0.0
  {
    if history == [] then 0
    else
      var last := history[|history| - 1];
      Plain(history[..|history| - 1], bucketSize, j) + if (last.val / bucketSize).Floor == j then last.number else 0
  }

  lemma TimesOver(c: real, x: real, b: real)
    requires b > 0.0
    ensures c <= x / b <==> c * b <= x
  {
  }

  lemma FloorUnique(x: real, b: real, j: int)
    requires b > 0.0
    ensures j as real * b <= x < (j + 1) as real * b <==> (x / b).Floor == j
  {
    TimesOver(j as real, x, b);
    TimesOver((j + 1) as real, x, b);
  }

  lemma {:induction false} TallyIsPlain(s: Scale, history: seq<Sample>, slots: seq<int>, j: int)
    requires |history| == |slots| && s.bucketSize > 0.0 && s.minBucket == 0.0 && Whole(slots)
    requires forall k :: 0 <= k < |history| ==> s.Near(history[k].val, slots[k])
    ensures Tally(history, slots, j) == Plain(history, s.bucketSize, j)
  {
    if history == [] {
    } else {
      var n := |history| - 1;
      TallyIsPlain(s, history[..n], slots[..n], j);
      FloorUnique(history[n].val, s.bucketSize, slots[n]);
    }
  }

  /** As long as no sample was negative, the buckets are the plain histogram at the current width. */
  lemma FiledIsPlain(s: Scale, buckets: seq<int>, history: seq<Sample>, slots: seq<int>)
    requires s.Ok(|buckets|) && s.minBucket == 0.0 && Filed(s, buckets, history, slots) && Whole(slots)
    ensures forall j :: 0 <= j < |buckets| ==> buckets[j] == Plain(history, s.bucketSize, j)
  {
    forall j | 0 <= j < |buckets|
      ensures buckets[j] == Plain(history, s.bucketSize, j)
    {
      TallyIsPlain(s, history, slots, j);
    }
  }

  // ---------- conservation ----------

  ghost function Numbers(history: seq<Sample>): int {
    if history == [] then 0 else Numbers(history[..|history| - 1]) + history[|history| - 1].number
  }

  /** How much of the samples is in some bucket. */
  ghost function Held(history: seq<Sample>, slots: seq<int>): int
    requires |history| == |slots|
  {
    if history == [] then 0
    else
      var n := |history| - 1;
      Held(history[..n], slots[..n]) + if slots[n] == LOST then 0 else history[n].number
  }

  lemma {:induction false} WholeHeld(history: seq<Sample>, slots: seq<int>)
    requires |history| == |slots| && Whole(slots)
    ensures Held(history, slots) == Numbers(history)
  {
    if history == [] {
    } else {
      WholeHeld(history[..|history| - 1], slots[..|history| - 1]);
    }
  }

  lemma {:induction false} TotalChanged(row: seq<int>, at: nat, x: int)
    requires at < |row|
    ensures Total(row[at := x]) == Total(row) - row[at] + x
  {
    if at == 0 {
      assert row[at := x][1..] == row[1..];
    } else {
      assert row[at := x][1..] == row[1..][at - 1 := x];
      TotalChanged(row[1..], at - 1, x);
    }
  }

  lemma {:induction false} TotalZeros(row: seq<int>)
    requires forall i :: 0 <= i < |row| ==> row[i] == 0
    ensures Total(row) == 0
  {
    if row == [] {
    } else {
      TotalZeros(row[1..]);
    }
  }

  lemma {:induction false} TalliesTotal(history: seq<Sample>, slots: seq<int>, row: seq<int>)
    requires Counted(row, history, slots)
    ensures Total(row) == Held(history, slots)
    decreases |history|
  {
    if history == [] {
      TotalZeros(row);
    } else {
      var n := |history| - 1;
      var at, number := slots[n], history[n].number;
      if at == LOST {
        TalliesTotal(history[..n], slots[..n], row);
      } else {
        TotalChanged(row, at, row[at] - number);
        TalliesTotal(history[..n], slots[..n], row[at := row[at] - number]);
      }
    }
  }

  /** The sums of the values, of their squares and of their logarithms. */
  datatype Sums = Sums(sum: real, squares: real, logs: real)

  function Plus(a: Sums, b: Sums): Sums {
    Sums(a.sum + b.sum, a.squares + b.squares, a.logs + b.logs)
  }

  function One(s: Sample): Sums {
    Sums(s.val * s.number as real, s.val * s.val * s.number as real, s.log * s.number as real)
  }

  ghost function SumsOf(history: seq<Sample>): Sums {
    if history == [] then Sums(0.0, 0.0, 0.0) else Plus(SumsOf(history[..|history| - 1]), One(history[|history| - 1]))
  }

  /** What one sample more adds to the sums. */
  lemma SumsSpelled(history: seq<Sample>, val: real, number: int, log: real)
    ensures var before, after := SumsOf(history), SumsOf(history + [Sample(val, number, log)]);
            && after.sum == before.sum + val * number as real
            && after.squares == before.squares + val * val * number as real
            && after.logs == before.logs + log * number as real
  {
    assert (history + [Sample(val, number, log)])[..|history|] == history;
  }

  lemma Product(x: real, y: real)
    requires x >= 0.0 && y >= 0.0
    ensures x * y >= 0.0
  {
  }

  lemma Positive(n: real, x: real)
    requires n > 0.0 && n * x >= 0.0
    ensures x >= 0.0
  {
  }

  /** n v^2 - 2 s v + q is not negative if n q >= s^2. */
  lemma Discriminant(n: real, s: real, q: real, v: real)
    requires n > 0.0 && n * q >= s * s
    ensures n * v * v - 2.0 * s * v + q >= 0.0
  {
    var d := n * v - s;
    assert d * d >= 0.0;
    assert d * d == n * (n * v * v) - n * (2.0 * s * v) + s * s;
    assert n * (n * v * v - 2.0 * s * v + q) == n * (n * v * v) - n * (2.0 * s * v) + n * q;
    Positive(n, n * v * v - 2.0 * s * v + q);
  }

  lemma Spread(n: real, s: real, q: real, v: real, m: real)
    requires n >= 0.0 && m >= 0.0 && n * q >= s * s && (n == 0.0 ==> s == 0.0 && q == 0.0)
    ensures (n + m) * (q + v * v * m) >= (s + v * m) * (s + v * m)
  {
    var e := n * v * v - 2.0 * s * v + q;
    assert e >= 0.0 by {
      if n > 0.0 { Discriminant(n, s, q, v); }
    }
    Product(m, e);
    assert (n + m) * (q + v * v * m) == n * q + m * q + n * (v * v * m) + m * (v * v * m);
    assert (s + v * m) * (s + v * m) == s * s + 2.0 * s * (v * m) + (v * m) * (v * m);
    assert m * e == n * (v * v * m) - 2.0 * s * (v * m) + m * q;
    assert m * (v * v * m) == (v * m) * (v * m);
  }

  /** The number of samples times the sum of squares is at least the sum squared. */
  ghost predicate Scattered(n: int, s: Sums) {
    && n >= 0 && n as real * s.squares >= s.sum * s.sum
    && (n == 0 ==> s.sum == 0.0 && s.squares == 0.0)
  }

  lemma ScatteredStep(n: int, s: Sums, sample: Sample)
    requires Scattered(n, s) && sample.number >= 0
    ensures Scattered(n + sample.number, Plus(s, One(sample)))
  {
    Spread(n as real, s.sum, s.squares, sample.val, sample.number as real);
  }

  /** The variance is never negative. */
  lemma {:induction false} VarianceNotNegative(history: seq<Sample>)
    requires forall k :: 0 <= k < |history| ==> history[k].number >= 0
    ensures Scattered(Numbers(history), SumsOf(history))
  {
    if history == [] {
    } else {
      hide Scattered, One;
      var n := |history| - 1;
      VarianceNotNegative(history[..n]);
      ScatteredStep(Numbers(history[..n]), SumsOf(history[..n]), history[n]);
    }
  }

  lemma {:induction false} SumsConcat(history: seq<Sample>, more: seq<Sample>)
    ensures SumsOf(history + more) == Plus(SumsOf(history), SumsOf(more))
    decreases |more|
  {
    hide One;
    if more == [] {
      assert history + more == history;
    } else {
      var n := |more| - 1;
      assert (history + more)[..|history| + n] == history + more[..n];
      SumsConcat(history, more[..n]);
    }
  }

  // ---------- powers of two ----------

  ghost function Power(n: nat): (p: real)
    ensures p >= 1.0
  {
    if n == 0 then 1.0 else 2.0 * Power(n - 1)
  }

  lemma {:induction false} PowerOrder(m: nat, n: nat)
    ensures Power(m) < Power(n) <==> m < n
    decreases m + n
  {
    if m == 0 || n == 0 {
    } else {
      PowerOrder(m - 1, n - 1);
    }
  }

  // ---------- the reference: every sample remembers its bucket ----------

  /** A scale, the samples so far and the bucket of each. */
  datatype Grid = Grid(scale: Scale, history: seq<Sample>, slots: seq<int>) {
    ghost function Up(): Grid {
      Grid(scale.Up(), history, Moved(slots, 0, 0))
    }

    ghost function Out(n: nat): Grid {
      Grid(scale.Out(), history, Moved(slots, -(n / 2), (n - n / 2) / 2))
    }

    ghost function Convert(n: int): Grid {
      Grid(scale.Convert(), history, Moved(slots, -n, (n + 1) / 2))
    }
  }

  ghost function Empty(n: nat): Grid {
    Grid(Scale(0.0, (n - 1) as real, 1.0), [], [])
  }

  /** How far a value is outside of the range. */
  ghost function Gap(s: Scale, val: real): real {
    if val < s.minBucket then s.minBucket - val else val - s.maxBucket - s.bucketSize
  }

  /** Grow until `val` is in range. Every step at least doubles the side that is too short. */
  ghost function Covered(n: nat, g: Grid, val: real): (c: Grid)
    requires g.scale.Ok(n)
    ensures c.scale.Ok(n) && c.scale.minBucket <= val < c.scale.maxBucket + c.scale.bucketSize
    ensures c.history == g.history && |c.slots| == |g.slots|
    decreases if g.scale.minBucket == 0.0 && val < 0.0 then 1 else 0, Gap(g.scale, val)
  {
    Span(g.scale, n);
    if g.scale.minBucket <= val < g.scale.maxBucket + g.scale.bucketSize then g
    else if g.scale.minBucket != 0.0 then
      OutOk(g.scale, n);
      Span(g.scale.Out(), n);
      Covered(n, g.Out(n), val)
    else if val < 0.0 then
      ConvertOk(g.scale, n);
      Covered(n, g.Convert(n), val)
    else
      UpOk(g.scale, n);
      Span(g.scale.Up(), n);
      Covered(n, g.Up(), val)
  }

  lemma CoveredStep(n: nat, g: Grid, val: real)
    requires g.scale.Ok(n)
    ensures g.scale.minBucket <= val < g.scale.maxBucket + g.scale.bucketSize ==> Covered(n, g, val) == g
    ensures g.scale.minBucket != 0.0 && !(g.scale.minBucket <= val < g.scale.maxBucket + g.scale.bucketSize) ==>
              g.Out(n).scale.Ok(n) && Covered(n, g, val) == Covered(n, g.Out(n), val)
    ensures g.scale.minBucket == 0.0 && val < 0.0 ==>
              g.Convert(n).scale.Ok(n) && Covered(n, g, val) == Covered(n, g.Convert(n), val)
    ensures g.scale.minBucket == 0.0 && val >= g.scale.maxBucket + g.scale.bucketSize ==>
              g.Up().scale.Ok(n) && Covered(n, g, val) == Covered(n, g.Up(), val)
  {
    Span(g.scale, n);
    if g.scale.minBucket != 0.0 {
      OutOk(g.scale, n);
    } else {
      UpOk(g.scale, n);
      ConvertOk(g.scale, n);
    }
  }

  ghost function Sampled(n: nat, g: Grid, sample: Sample): (r: Grid)
    requires g.scale.Ok(n)
    ensures r.scale.Ok(n) && r.history == g.history + [sample] && |r.slots| == |g.slots| + 1
    ensures r.scale.Within(sample.val, r.slots[|g.slots|])
  {
    var c := Covered(n, g, sample.val);
    IndexInRange(c.scale, n, sample.val);
    Grid(c.scale, c.history + [sample], c.slots + [((sample.val - c.scale.minBucket) / c.scale.bucketSize).Floor])
  }

  /** Grow upwards to a bucket size. */
  ghost function Raised(g: Grid, bucketSize: real): Grid
    requires g.scale.bucketSize >= 1.0
    decreases bucketSize - g.scale.bucketSize
  {
    if g.scale.bucketSize < bucketSize then Raised(g.Up(), bucketSize) else g
  }

  /** All samples of two grids that start at the same value. */
  ghost function Joint(g: Grid, h: Grid): Grid
    requires g.scale.bucketSize >= 1.0 && h.scale.bucketSize >= 1.0
  {
    var g', h' := Raised(g, h.scale.bucketSize), Raised(h, g.scale.bucketSize);
    Grid(g'.scale, g.history + h.history, g'.slots + h'.slots)
  }

  // ---------- the histogram object ----------

  class HistStor {
    var minBucket: real
    var maxBucket: real
    var bucketSize: real
    var sum: real
    var squares: real
    var logs: real
    var samples: int
    var cvec: array<int>
    ghost var history: seq<Sample>  // everything sampled or added since the last reset
    ghost var slots: seq<int>       // where each of it is filed
    ghost var growth: nat

    ghost function Now(): Scale
      reads this
    {
      Scale(minBucket, maxBucket, bucketSize)
    }

    ghost function State(): Grid
      reads this
    {
      Grid(Now(), history, slots)
    }

    ghost predicate Valid()
      reads this
    {
      && Now().Ok(cvec.Length) && bucketSize == Power(growth)
      && samples == Numbers(history) && Sums(sum, squares, logs) == SumsOf(history)
    }

    ghost predicate Faithful()
      reads this, cvec
    {
      Filed(Now(), cvec[..], history, slots)
    }

    constructor (buckets: nat)
      requires buckets >= 2
      ensures Valid() && Faithful() && fresh(cvec) && cvec.Length == buckets && State() == Empty(buckets)
    {
      cvec := new int[buckets];
      minBucket, maxBucket, bucketSize := 0.0, (buckets - 1) as real, 1.0;
      sum, squares, logs, samples := 0.0, 0.0, 0.0, 0;
      history, slots, growth := [], [], 0;
      new;
      for i := 0 to cvec.Length
        invariant cvec.Length == buckets && fresh(cvec)
        invariant forall j :: 0 <= j < i ==> cvec[j] == 0
        invariant minBucket == 0.0 && maxBucket == (buckets - 1) as real && bucketSize == 1.0
        invariant sum == squares == logs == 0.0 && samples == 0 && history == [] && slots == [] && growth == 0
      {
        cvec[i] := 0;
      }
    }

    method Reset()
      requires cvec.Length >= 2
      modifies this, cvec
      ensures Valid() && Faithful() && cvec == old(cvec) && State() == Empty(cvec.Length)
    {
      minBucket, maxBucket, bucketSize := 0.0, (cvec.Length - 1) as real, 1.0;
      for i := 0 to cvec.Length
        invariant unchanged(this`cvec) && i <= cvec.Length && forall j :: 0 <= j < i ==> cvec[j] == 0
        invariant minBucket == 0.0 && maxBucket == (cvec.Length - 1) as real && bucketSize == 1.0
      {
        cvec[i] := 0;
      }
      sum, squares, logs, samples := 0.0, 0.0, 0.0, 0;
      history, slots, growth := [], [], 0;
    }

    method GrowUp()
      requires Valid() && minBucket == 0.0
      modifies this`maxBucket, this`bucketSize, this`slots, this`growth, cvec
      ensures Valid() && State() == old(State()).Up() && cvec[..] == FoldUp(old(cvec[..])) && growth == old(growth) + 1
      ensures old(Faithful()) ==> Faithful()
    {
      hide FoldUp, Filed, Moved;
      ghost var before, scale := cvec[..], Now();
      FoldUpInPlace(cvec);
      if Filed(scale, before, history, slots) { UpFiled(scale, before, history, slots); }
      UpOk(scale, cvec.Length);
      maxBucket := 2.0 * maxBucket;
      bucketSize := 2.0 * bucketSize;
      slots, growth := Moved(slots, 0, 0), growth + 1;
    }

    method GrowOut()
      requires Valid() && minBucket != 0.0
      modifies this`minBucket, this`maxBucket, this`bucketSize, this`slots, this`growth, cvec
      ensures Valid() && State() == old(State()).Out(cvec.Length) && cvec[..] == FoldOut(old(cvec[..])) && minBucket != 0.0
      ensures old(Faithful()) ==> Faithful()
    {
      hide FoldOut, Filed, Moved;
      ghost var before, scale := cvec[..], Now();
      FoldOutInPlace(cvec);
      if Filed(scale, before, history, slots) { OutFiled(scale, before, history, slots); }
      OutOk(scale, cvec.Length);
      maxBucket := 2.0 * maxBucket;
      minBucket := 2.0 * minBucket;
      bucketSize := 2.0 * bucketSize;
      slots, growth := Moved(slots, -(cvec.Length / 2), (cvec.Length - cvec.Length / 2) / 2), growth + 1;
    }

    method GrowConvert()
      requires Valid() && minBucket == 0.0
      modifies this`minBucket, this`bucketSize, this`slots, this`growth, cvec
      ensures Valid() && State() == old(State()).Convert(cvec.Length) && cvec[..] == FoldConvert(old(cvec[..])) && minBucket != 0.0
      ensures old(Faithful()) ==> Faithful()
    {
      hide FoldConvert, Filed, Moved;
      ghost var before, scale := cvec[..], Now();
      FoldConvertInPlace(cvec);
      if Filed(scale, before, history, slots) { ConvertFiled(scale, before, history, slots); }
      ConvertOk(scale, cvec.Length);
      minBucket := -maxBucket;
      bucketSize := 2.0 * bucketSize;
      slots, growth := Moved(slots, -cvec.Length, (cvec.Length + 1) / 2), growth + 1;
    }

    /** Grow outwards until a negative `val` is covered. */
    method CoverBelow(val: real)
      requires Valid() && minBucket != 0.0 && val < 0.0
      modifies this`minBucket, this`maxBucket, this`bucketSize, this`slots, this`growth, cvec
      ensures Valid() && minBucket <= val < maxBucket + bucketSize && State() == Covered(cvec.Length, old(State()), val)
      ensures old(Faithful()) ==> Faithful()
    {
      hide Covered, Filed;
      Span(Now(), cvec.Length);
      while val < minBucket
        invariant Valid() && minBucket != 0.0 && Covered(cvec.Length, State(), val) == Covered(cvec.Length, old(State()), val)
        invariant old(Faithful()) ==> Faithful()
        decreases minBucket - val
      {
        CoveredStep(cvec.Length, State(), val);
        Span(Now(), cvec.Length);
        GrowOut();
      }
      Span(Now(), cvec.Length);
      CoveredStep(cvec.Length, State(), val);
    }

    /** Grow outwards until `val` is covered. */
    method CoverAbove(val: real)
      requires Valid() && minBucket != 0.0 && minBucket <= val
      modifies this`minBucket, this`maxBucket, this`bucketSize, this`slots, this`growth, cvec
      ensures Valid() && minBucket <= val < maxBucket + bucketSize && State() == Covered(cvec.Length, old(State()), val)
      ensures old(Faithful()) ==> Faithful()
    {
      hide Covered, Filed;
      Span(Now(), cvec.Length);
      while val >= maxBucket + bucketSize
        invariant Valid() && minBucket != 0.0 && minBucket <= val && Covered(cvec.Length, State(), val) == Covered(cvec.Length, old(State()), val)
        invariant old(Faithful()) ==> Faithful()
        decreases val - maxBucket - bucketSize
      {
        CoveredStep(cvec.Length, State(), val);
        Span(Now(), cvec.Length);
        GrowOut();
      }
      Span(Now(), cvec.Length);
      CoveredStep(cvec.Length, State(), val);
    }

    /** Grow upwards until `val` is covered. */
    method CoverUp(val: real)
      requires Valid() && minBucket == 0.0 && val >= 0.0
      modifies this`minBucket, this`maxBucket, this`bucketSize, this`slots, this`growth, cvec
      ensures Valid() && minBucket <= val < maxBucket + bucketSize && State() == Covered(cvec.Length, old(State()), val)
      ensures old(Faithful()) ==> Faithful()
    {
      hide Covered, Filed;
      Span(Now(), cvec.Length);
      while val >= maxBucket + bucketSize
        invariant Valid() && minBucket == 0.0 && Covered(cvec.Length, State(), val) == Covered(cvec.Length, old(State()), val)
        invariant old(Faithful()) ==> Faithful()
        decreases val - maxBucket - bucketSize
      {
        CoveredStep(cvec.Length, State(), val);
        Span(Now(), cvec.Length);
        GrowUp();
      }
      Span(Now(), cvec.Length);
      CoveredStep(cvec.Length, State(), val);
    }

    /** Grow until `val` is covered. */
    method Cover(val: real)
      requires Valid()
      modifies this`minBucket, this`maxBucket, this`bucketSize, this`slots, this`growth, cvec
      ensures Valid() && minBucket <= val < maxBucket + bucketSize && State() == Covered(cvec.Length, old(State()), val)
      ensures old(Faithful()) ==> Faithful()
    {
      hide Covered, Filed;
      Span(Now(), cvec.Length);
      assert minBucket < maxBucket;
      CoveredStep(cvec.Length, State(), val);
      if val < minBucket {
        if minBucket == 0.0 {
          GrowConvert();
        }
        CoverBelow(val);
      } else if val >= maxBucket + bucketSize {
        if minBucket == 0.0 {
          CoverUp(val);
        } else {
          CoverAbove(val);
        }
      }
    }

    method AddUp(sample: Folds.Sample)
      modifies `sum, `squares, `logs, `samples
      ensures samples == old(samples) + sample.number
      ensures Sums(sum, squares, logs) == Plus(old(Sums(sum, squares, logs)), One(sample))
    {
      sum := sum + sample.val * sample.number as real;
      squares := squares + sample.val * sample.val * sample.number as real;
      logs := logs + sample.log * sample.number as real;
      samples := samples + sample.number;
    }

    /** Count a value a number of times. */
    method Sample(sample: Folds.Sample)
      requires Valid()
      modifies this, cvec
      ensures Valid() && cvec == old(cvec) && State() == Sampled(cvec.Length, old(State()), sample)
      ensures |slots| == |old(slots)| + 1 && Now().Within(sample.val, slots[|old(slots)|])
      ensures old(Faithful()) ==> Faithful()
    {
      hide Filed, Covered, Numbers, SumsOf, One, Scale.Ok, Scale.Near;
      Cover(sample.val);
      var index := ((sample.val - minBucket) / bucketSize).Floor;
      IndexInRange(Now(), cvec.Length, sample.val);
      assert 0 <= index < cvec.Length;
      FileOne(Now(), cvec[..], history, slots, sample, index);
      ghost var after := cvec[..][index := cvec[index] + sample.number];
      cvec[index] := cvec[index] + sample.number;
      assert cvec[..] == after;
      AddUp(sample);
      history, slots := history + [sample], slots + [index];
    }

    /** Grow upwards to the bucket size of another histogram, if that is larger. */
    method RaiseTo(size: real, ghost power: nat)
      requires Valid() && size == Power(power) && (minBucket == 0.0 || bucketSize >= size)
      modifies this`maxBucket, this`bucketSize, this`slots, this`growth, cvec
      ensures Valid() && State() == Raised(old(State()), size) && growth == if old(growth) < power then power else old(growth)
      ensures old(Faithful()) ==> Faithful()
    {
      hide Filed, Power;
      PowerOrder(growth, power);
      while bucketSize < size
        invariant Valid() && (minBucket == 0.0 || bucketSize >= size) && Raised(State(), size) == Raised(old(State()), size)
        invariant growth == old(growth) || growth <= power
        invariant growth >= old(growth) && (bucketSize < size <==> growth < power)
        invariant old(Faithful()) ==> Faithful()
        decreases power - growth
      {
        GrowUp();
        PowerOrder(growth, power);
      }
    }

    /** Bring two histograms that start at the same value to the same bucket size. */
    method Align(hs: HistStor)
      requires Valid() && hs.Valid() && (this == hs || cvec != hs.cvec)
      requires cvec.Length == hs.cvec.Length && minBucket == hs.minBucket
      modifies this`maxBucket, this`bucketSize, this`slots, this`growth, cvec
      modifies hs`maxBucket, hs`bucketSize, hs`slots, hs`growth, hs.cvec
      ensures Valid() && hs.Valid() && Now() == hs.Now()
      ensures State() == Raised(old(State()), old(hs.bucketSize)) && hs.State() == Raised(old(hs.State()), old(bucketSize))
      ensures old(Faithful()) ==> Faithful()
      ensures old(hs.Faithful()) ==> hs.Faithful()
    {
      hide Filed, Power;
      SameMin(Now(), hs.Now(), cvec.Length);
      PowerOrder(growth, hs.growth);
      PowerOrder(hs.growth, growth);
      hs.RaiseTo(bucketSize, growth);
      RaiseTo(hs.bucketSize, hs.growth);
      SameMin(Now(), hs.Now(), cvec.Length);
    }

    /** Add all samples of another histogram, which may have to grow along. */
    method Add(hs: HistStor)
      requires Valid() && hs.Valid() && (this == hs || cvec != hs.cvec)
      requires cvec.Length == hs.cvec.Length && minBucket == hs.minBucket
      modifies this, cvec, hs`maxBucket, hs`bucketSize, hs`slots, hs`growth, hs.cvec
      ensures Valid() && hs.Valid() && cvec == old(cvec) && minBucket == old(minBucket)
      ensures State() == Joint(old(State()), old(hs.State()))
      ensures this != hs ==> hs.State() == Raised(old(hs.State()), old(bucketSize))
      ensures old(Faithful() && hs.Faithful()) ==> Faithful() && hs.Faithful()
    {
      hide Filed, Scale.Ok, SumsOf, Numbers, Raised;
      SumsConcat(history, hs.history);
      Align(hs);
      sum := sum + hs.sum;
      logs := logs + hs.logs;
      squares := squares + hs.squares;
      samples := samples + hs.samples;
      ghost var mine, theirs := cvec[..], hs.cvec[..];
      AddInPlace(cvec, hs.cvec);
      NumbersConcat(history, hs.history);
      if Filed(Now(), mine, history, slots) && Filed(Now(), theirs, hs.history, hs.slots) {
        FileAll(Now(), mine, theirs, cvec[..], history, hs.history, slots, hs.slots);
      }
      history, slots := history + hs.history, slots + hs.slots;
    }
  }

  method AddInPlace(a: array<int>, b: array<int>)
    requires a.Length == b.Length
    modifies a
    ensures forall k :: 0 <= k < a.Length ==> a[k] == old(a[k]) + old(b[k])
  {
    for i := 0 to a.Length
      invariant forall k :: 0 <= k < a.Length ==> a[k] == old(a[k]) + if k < i then old(b[k]) else 0
      invariant a != b ==> unchanged(b)
    {
      a[i] := a[i] + b[i];
    }
  }

  /** Histograms that start below 0 at the same value have the same bucket size. */
  lemma SameMin(s: Scale, t: Scale, buckets: nat)
    requires s.Ok(buckets) && t.Ok(buckets) && s.minBucket == t.minBucket
    ensures s.minBucket != 0.0 ==> s == t
    ensures s.bucketSize == t.bucketSize ==> s == t
  {
    if s.minBucket != 0.0 {
      var n := (buckets - 1) as real;
      assert n * s.bucketSize == n * t.bucketSize;
      assert n * (s.bucketSize - t.bucketSize) == 0.0;
    }
  }

  lemma {:induction false} NumbersConcat(history: seq<Sample>, more: seq<Sample>)
    ensures Numbers(history + more) == Numbers(history) + Numbers(more)
    decreases |more|
  {
    if more == [] {
      assert history + more == history;
    } else {
      var n := |more| - 1;
      assert (history + more)[..|history| + n] == history + more[..n];
      NumbersConcat(history, more[..n]);
    }
  }

  lemma {:induction false} TallyConcat(history: seq<Sample>, more: seq<Sample>, slots: seq<int>, slots': seq<int>, i: int)
    requires |history| == |slots| && |more| == |slots'|
    ensures Tally(history + more, slots + slots', i) == Tally(history, slots, i) + Tally(more, slots', i)
    decreases |more|
  {
    if more == [] {
      assert history + more == history && slots + slots' == slots;
    } else {
      var n := |more| - 1;
      assert (history + more)[..|history| + n] == history + more[..n];
      assert (slots + slots')[..|history| + n] == slots + slots'[..n];
      TallyConcat(history, more[..n], slots, slots'[..n], i);
    }
  }

  /** Bucket-wise addition gives the histogram of the combined samples. */
  lemma FileAll(s: Scale, a: seq<int>, b: seq<int>, c: seq<int>, history: seq<Sample>, more: seq<Sample>, slots: seq<int>, slots': seq<int>)
    requires Filed(s, a, history, slots) && Filed(s, b, more, slots') && |a| == |b| == |c|
    requires forall i :: 0 <= i < |c| ==> c[i] == a[i] + b[i]
    ensures Filed(s, c, history + more, slots + slots')
  {
    forall i | 0 <= i < |c|
      ensures c[i] == Tally(history + more, slots + slots', i)
    {
      TallyConcat(history, more, slots, slots', i);
    }
  }

  /** The computed index names a bucket, and it is the bucket the value belongs to. */
  lemma IndexInRange(s: Scale, buckets: nat, val: real)
    requires s.Ok(buckets) && s.minBucket <= val < s.maxBucket + s.bucketSize
    ensures var index := ((val - s.minBucket) / s.bucketSize).Floor;
            0 <= index < buckets && s.Near(val, index) && s.Within(val, index)
  {
    Span(s, buckets);
    var x, b := val - s.minBucket, s.bucketSize;
    var index := (x / b).Floor;
    FloorUnique(x, b, index);
    TimesOver(0.0, x, b);
    TimesOver(buckets as real, x, b);
  }

  lemma FileOne(s: Scale, buckets: seq<int>, history: seq<Sample>, slots: seq<int>, sample: Sample, index: nat)
    requires index < |buckets| && s.Near(sample.val, index)
    ensures Filed(s, buckets, history, slots) ==>
              Filed(s, buckets[index := buckets[index] + sample.number], history + [sample], slots + [index])
    ensures Numbers(history + [sample]) == Numbers(history) + sample.number
    ensures SumsOf(history + [sample]) == Plus(SumsOf(history), One(sample))
  {
    hide One;
    var history', slots' := history + [sample], slots + [index];
    assert history'[..|history|] == history && slots'[..|slots|] == slots;
  }

  // ---------- folding in place ----------

  method FoldUpInPlace(cvec: array<int>)
    modifies cvec
    ensures cvec[..] == FoldUp(old(cvec[..]))
  {
    var size := cvec.Length;
    var half := (size + 1) / 2;
    ghost var s := cvec[..];
    var pair := 0;
    for i := 0 to half
      invariant pair == 2 * i
      invariant forall k :: 0 <= k < i ==> cvec[k] == FoldUp(s)[k]
      invariant forall k :: i <= k < size ==> cvec[k] == s[k]
    {
      cvec[i] := cvec[pair];
      if pair + 1 < size {
        cvec[i] := cvec[i] + cvec[pair + 1];
      }
      pair := pair + 2;
    }
    assert pair == size || pair == size + 1;
    for i := half to size
      invariant forall k :: 0 <= k < i ==> cvec[k] == FoldUp(s)[k]
    {
      cvec[i] := 0;
    }
  }

  method FoldConvertInPlace(cvec: array<int>)
    modifies cvec
    ensures cvec[..] == FoldConvert(old(cvec[..]))
  {
    var size := cvec.Length;
    var half := (size + 1) / 2;
    ghost var s := cvec[..];
    var pair := size - 1;
    for i := size downto half
      invariant pair == 2 * i - size - 1
      invariant forall k :: i <= k < size ==> cvec[k] == FoldConvert(s)[k]
      invariant forall k :: 0 <= k < i ==> cvec[k] == s[k]
    {
      cvec[i] := cvec[pair];
      if pair - 1 >= 0 {
        cvec[i] := cvec[i] + cvec[pair - 1];
      }
      pair := pair - 2;
    }
    for i := half downto 0
      invariant forall k :: i <= k < size ==> cvec[k] == FoldConvert(s)[k]
    {
      cvec[i] := 0;
    }
  }

  method FoldOutInPlace(cvec: array<int>)
    modifies cvec
    ensures cvec[..] == FoldOut(old(cvec[..]))
  {
    var size := cvec.Length;
    var zero := size / 2;
    var topHalf := zero + (size - zero + 1) / 2;
    var bottomHalf := (size - zero) / 2;
    ghost var s := cvec[..];
    FoldLow(cvec, zero, bottomHalf);
    FoldHigh(cvec, zero, topHalf);
    assert cvec[..] == FoldOut(s);
  }

  method FoldLow(cvec: array<int>, zero: nat, bottomHalf: nat)
    requires zero == cvec.Length / 2 && bottomHalf == (cvec.Length - zero) / 2
    modifies cvec
    ensures forall k :: 0 <= k < zero ==> cvec[k] == FoldOut(old(cvec[..]))[k]
    ensures forall k :: zero <= k < cvec.Length ==> cvec[k] == old(cvec[k])
  {
    ghost var s := cvec[..];
    OutBottom(cvec.Length);
    var lowPair := zero - 1;
    for i := zero downto bottomHalf
      invariant lowPair == 2 * i - zero - 1
      invariant forall k :: i <= k < zero ==> cvec[k] == FoldOut(s)[k]
      invariant forall k :: 0 <= k < i || zero <= k < cvec.Length ==> cvec[k] == s[k]
    {
      cvec[i] := cvec[lowPair];
      if lowPair - 1 >= 0 {
        cvec[i] := cvec[i] + cvec[lowPair - 1];
      }
      lowPair := lowPair - 2;
    }
    assert lowPair == 0 || lowPair == -1 || lowPair == -2;
    for i := bottomHalf downto 0
      invariant forall k :: i <= k < zero ==> cvec[k] == FoldOut(s)[k]
      invariant forall k :: zero <= k < cvec.Length ==> cvec[k] == s[k]
    {
      cvec[i] := 0;
    }
  }

  method FoldHigh(cvec: array<int>, zero: nat, topHalf: nat)
    requires zero == cvec.Length / 2 && topHalf == zero + (cvec.Length - zero + 1) / 2
    modifies cvec
    ensures forall k :: 0 <= k < zero ==> cvec[k] == old(cvec[k])
    ensures forall k :: zero <= k < cvec.Length ==> cvec[k] == FoldOut(old(cvec[..]))[k]
  {
    ghost var s := cvec[..];
    var size := cvec.Length;
    var highPair := zero;
    for i := zero to topHalf
      invariant highPair == 2 * i - zero
      invariant forall k :: zero <= k < i ==> cvec[k] == FoldOut(s)[k]
      invariant forall k :: 0 <= k < zero || i <= k < size ==> cvec[k] == s[k]
    {
      cvec[i] := cvec[highPair];
      if highPair + 1 < size {
        cvec[i] := cvec[i] + cvec[highPair + 1];
      }
      highPair := highPair + 2;
    }
    assert highPair == size || highPair == size + 1;
    for i := topHalf to size
      invariant forall k :: zero <= k < i ==> cvec[k] == FoldOut(s)[k]
      invariant forall k :: 0 <= k < zero ==> cvec[k] == s[k]
    {
      cvec[i] := 0;
    }
  }
}
