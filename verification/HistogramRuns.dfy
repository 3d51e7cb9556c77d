/** Whole runs of histograms: what the buckets hold after any samples and additions, and what is lost. */
module HistogramRuns {
  import opened Folds
  import opened Histogram
  import opened Sequences

  ghost predicate NonNegative(history: seq<Sample>) {
    forall k :: 0 <= k < |history| ==> history[k].val >= 0.0
  }

  /** Without negative samples, or with an even number of buckets, nothing is lost. */
  ghost predicate Sound(n: nat, g: Grid) {
    && g.scale.Ok(n) && |g.history| == |g.slots|
    && (NonNegative(g.history) ==> g.scale.minBucket == 0.0)
    && (n % 2 == 0 || NonNegative(g.history) ==> Whole(g.slots))
  }

  lemma EmptySound(n: nat)
    requires n >= 2
    ensures Sound(n, Empty(n))
  {
  }

  lemma {:induction false} CoveredSound(n: nat, g: Grid, val: real)
    requires g.scale.Ok(n)
    ensures var c := Covered(n, g, val);
            && (g.scale.minBucket == 0.0 && val >= 0.0 ==> c.scale.minBucket == 0.0)
            && (Whole(g.slots) && (n % 2 == 0 || (g.scale.minBucket == 0.0 && val >= 0.0)) ==> Whole(c.slots))
    decreases if g.scale.minBucket == 0.0 && val < 0.0 then 1 else 0, Gap(g.scale, val)
  {
    hide Covered;
    CoveredStep(n, g, val);
    Span(g.scale, n);
    if g.scale.minBucket <= val < g.scale.maxBucket + g.scale.bucketSize {
    } else if g.scale.minBucket != 0.0 {
      OutBottom(n);
      Span(g.scale.Out(), n);
      CoveredSound(n, g.Out(n), val);
    } else if val < 0.0 {
      CoveredSound(n, g.Convert(n), val);
    } else {
      Span(g.scale.Up(), n);
      CoveredSound(n, g.Up(), val);
    }
  }

  lemma SampledSound(n: nat, g: Grid, sample: Sample)
    requires Sound(n, g)
    ensures Sound(n, Sampled(n, g, sample))
  {
    hide Covered;
    CoveredSound(n, g, sample.val);
    var c, r := Covered(n, g, sample.val), Sampled(n, g, sample);
    IndexInRange(c.scale, n, sample.val);
    if NonNegative(r.history) {
      assert r.history[|g.history|] == sample && r.history[..|g.history|] == g.history;
      assert NonNegative(g.history);
    }
  }

  lemma {:induction false} RaisedSound(n: nat, g: Grid, size: real)
    requires Sound(n, g) && (g.scale.minBucket == 0.0 || g.scale.bucketSize >= size)
    ensures Sound(n, Raised(g, size)) && Raised(g, size).history == g.history
    ensures Raised(g, size).scale.minBucket == g.scale.minBucket
    decreases size - g.scale.bucketSize
  {
    if g.scale.bucketSize < size {
      UpOk(g.scale, n);
      RaisedSound(n, g.Up(), size);
    } else {
    }
  }

  /** Adding takes the larger of the two bucket sizes. */
  lemma {:induction false} RaisedSize(g: Grid, k: nat, p: nat)
    requires g.scale.bucketSize == Power(k)
    ensures Raised(g, Power(p)).scale.bucketSize == Power(if k < p then p else k)
    decreases p - k
  {
    PowerOrder(k, p);
    if k < p {
      RaisedSize(g.Up(), k + 1, p);
    } else {
    }
  }

  lemma JointSize(g: Grid, h: Grid, k: nat, p: nat)
    requires g.scale.bucketSize == Power(k) && h.scale.bucketSize == Power(p)
    ensures Joint(g, h).scale.bucketSize == Power(if k < p then p else k)
    ensures Joint(g, h).history == g.history + h.history
  {
    RaisedSize(g, k, p);
  }

  lemma JointSound(n: nat, g: Grid, h: Grid)
    requires Sound(n, g) && Sound(n, h) && g.scale.minBucket == h.scale.minBucket
    ensures Sound(n, Joint(g, h)) && Sound(n, Raised(h, g.scale.bucketSize))
  {
    SameMin(g.scale, h.scale, n);
    RaisedSound(n, g, h.scale.bucketSize);
    RaisedSound(n, h, g.scale.bucketSize);
    var r := Joint(g, h);
    hide Raised;
    if NonNegative(r.history) {
      assert r.history[..|g.history|] == g.history && r.history[|g.history|..] == h.history;
      assert NonNegative(g.history) && NonNegative(h.history);
    }
  }

  ghost predicate Shows(h: HistStor, n: nat, g: Grid)
    reads h, h.cvec
  {
    h.Valid() && h.Faithful() && h.cvec.Length == n && h.State() == g
  }

  // ---------- no more growth than needed ----------

  /** The last step of growing was needed: the scale before it does not cover the value. Without need nothing grows. */
  lemma {:induction false} GrownLeast(n: nat, g: Grid, val: real) returns (before: Scale)
    requires g.scale.Ok(n)
    ensures g.scale.Covers(val) ==> Covered(n, g, val) == g
    ensures !g.scale.Covers(val) ==>
              && before.Ok(n) && !before.Covers(val)
              && Covered(n, g, val).scale ==
                 if before.minBucket != 0.0 then before.Out() else if val < 0.0 then before.Convert() else before.Up()
    decreases if g.scale.minBucket == 0.0 && val < 0.0 then 1 else 0, Gap(g.scale, val)
  {
    hide Covered;
    before := g.scale;
    CoveredStep(n, g, val);
    Span(g.scale, n);
    if !g.scale.Covers(val) {
      var next := if g.scale.minBucket != 0.0 then g.Out(n) else if val < 0.0 then g.Convert(n) else g.Up();
      Span(next.scale, n);
      var later := GrownLeast(n, next, val);
      if !next.scale.Covers(val) {
        before := later;
      }
    }
  }

  /** What `n` buckets of size 2^k cover from 0 on. */
  ghost function Reach(n: nat, k: nat): real {
    n as real * Power(k)
  }

  lemma ReachOf(s: Scale, n: nat, k: nat)
    requires s.Ok(n) && s.minBucket == 0.0 && s.bucketSize == Power(k)
    ensures s.maxBucket + s.bucketSize == Reach(n, k)
  {
    Span(s, n);
  }

  lemma ReachGrows(n: nat, k: nat, k': nat)
    requires k <= k'
    ensures Reach(n, k) <= Reach(n, k')
  {
    PowerOrder(k, k');
    PowerOrder(k', k);
    Mono(Power(k), Power(k'), n as real);
  }

  /** Growing upwards for a value from 0 on stops at the first power of two that covers it. */
  lemma {:induction false} GrownUp(n: nat, g: Grid, val: real, k: nat) returns (k': nat)
    requires g.scale.Ok(n) && g.scale.minBucket == 0.0 && g.scale.bucketSize == Power(k) && val >= 0.0
    ensures var c := Covered(n, g, val).scale;
            && k <= k' && c.minBucket == 0.0 && c.bucketSize == Power(k') && val < Reach(n, k')
            && (k' > k ==> val >= Reach(n, k' - 1))
    decreases Gap(g.scale, val)
  {
    hide Covered, Reach, Moved;
    k' := k;
    CoveredStep(n, g, val);
    Span(g.scale, n);
    ReachOf(g.scale, n, k);
    if !g.scale.Covers(val) {
      Span(g.scale.Up(), n);
      hide Scale.Ok;
      k' := GrownUp(n, g.Up(), val, k + 1);
    }
  }

  // ---------- one histogram ----------

  /** The grid after a run of samples. */
  ghost function Reference(n: nat, all: seq<Sample>): (g: Grid)
    requires n >= 2
    ensures Sound(n, g) && g.history == all
    ensures all != [] ==> g.scale.Within(all[|all| - 1].val, g.slots[|all| - 1])
  {
    if all == [] then EmptySound(n); Empty(n)
    else
      var g := Reference(n, all[..|all| - 1]);
      SampledSound(n, g, all[|all| - 1]);
      Sampled(n, g, all[|all| - 1])
  }

  lemma FirstZero(n: nat, x: real)
    requires n >= 3
    ensures Reference(n, [Sample(0.0, 1, x)]) == Grid(Empty(n).scale, [Sample(0.0, 1, x)], [0])
  {
    var one := [Sample(0.0, 1, x)];
    EmptySound(n);
    CoveredStep(n, Empty(n), 0.0);
    hide Covered;
    assert one[..0] == [];
    assert Reference(n, one) == Sampled(n, Empty(n), one[0]);
  }

  /** The conversion for -1 drops a sample in bucket 0. */
  lemma ThenMinusOne(n: nat, g: Grid, x: real, y: real)
    requires n >= 3 && n % 2 == 1 && g == Grid(Empty(n).scale, [Sample(0.0, 1, x)], [0]) && g.scale.Ok(n)
    ensures Sampled(n, g, Sample(-1.0, 1, y)).slots == [LOST, (n - 2) / 2]
  {
    var c := g.Convert(n);
    CoveredStep(n, g, -1.0);
    CoveredStep(n, c, -1.0);
    hide Covered;
    assert c.scale == Scale(-((n - 1) as real), (n - 1) as real, 2.0);
    assert Covered(n, g, -1.0) == c;
    assert c.slots == [LOST];
    var x := (n - 1) as real;
    FloorUnique(-1.0 + x, 2.0, (n - 2) / 2);
  }

  /** With an odd number of buckets, 0 and then -1 lose the 0. */
  lemma LosingRun(n: nat, all: seq<Sample>, x: real, y: real)
    requires n >= 3 && n % 2 == 1 && all == [Sample(0.0, 1, x), Sample(-1.0, 1, y)]
    ensures Reference(n, all).slots[0] == LOST && Held(all, Reference(n, all).slots) == 1 && Numbers(all) == 2
  {
    assert all[..1] == [Sample(0.0, 1, x)];
    FirstZero(n, x);
    EmptySound(n);
    hide Sampled;
    ThenMinusOne(n, Reference(n, all[..1]), x, y);
    OneHeld(all, Reference(n, all).slots);
  }

  lemma OneHeld(all: seq<Sample>, slots: seq<int>)
    requires |all| == |slots| == 2 && slots[0] == LOST && slots[1] != LOST
    ensures Held(all, slots) == all[1].number && Numbers(all) == all[0].number + all[1].number
  {
    assert all[..1][..0] == [] && slots[..1][..0] == [];
    assert Held(all[..1], slots[..1]) == 0 && Numbers(all[..1]) == all[0].number;
  }

  /** The buckets of every run add up to its samples exactly if there is an even number of buckets. */
  lemma ConservesExactly(n: nat)
    requires n >= 2
    ensures (forall all :: Held(all, Reference(n, all).slots) == Numbers(all)) <==> n % 2 == 0
  {
    if n % 2 == 0 {
      forall all
        ensures Held(all, Reference(n, all).slots) == Numbers(all)
      {
        WholeHeld(all, Reference(n, all).slots);
      }
    } else {
      LosingRun(n, [Sample(0.0, 1, 0.0), Sample(-1.0, 1, 0.0)], 0.0, 0.0);
    }
  }

  /** All samples are below n 2^k, and k cannot be smaller. */
  ghost predicate Least(n: nat, all: seq<Sample>, k: nat) {
    && (forall i :: 0 <= i < |all| ==> all[i].val < Reach(n, k))
    && (k > 0 ==> exists i :: 0 <= i < |all| && all[i].val >= Reach(n, k - 1))
  }

  lemma LeastStep(n: nat, all: seq<Sample>, k: nat, last: Sample, k': nat)
    requires Least(n, all, k) && k <= k' && last.val < Reach(n, k') && (k' > k ==> last.val >= Reach(n, k' - 1))
    ensures Least(n, all + [last], k')
  {
    hide Reach;
    ReachGrows(n, k, k');
    var all' := all + [last];
    if k' > k {
      assert all'[|all|].val >= Reach(n, k' - 1);
    } else if k' > 0 {
      var i :| 0 <= i < |all| && all[i].val >= Reach(n, k - 1);
      assert all'[i].val >= Reach(n, k' - 1);
    }
  }

  /** For samples from 0 on, the bucket size is the least power of two with which the buckets cover them all. */
  lemma {:induction false} LeastBuckets(n: nat, all: seq<Sample>) returns (k: nat)
    requires n >= 2 && NonNegative(all)
    ensures Reference(n, all).scale.minBucket == 0.0 && Reference(n, all).scale.bucketSize == Power(k)
    ensures Least(n, all, k)
  {
    if all == [] {
      k := 0;
    } else {
      var m := |all| - 1;
      var g, last := Reference(n, all[..m]), all[m];
      assert Reference(n, all).scale == Covered(n, g, last.val).scale && last.val >= 0.0 && all == all[..m] + [last];
      hide Least, Reach, Reference, Covered, Power, Scale.Ok;
      var before := LeastBuckets(n, all[..m]);
      k := GrownUp(n, g, last.val, before);
      LeastStep(n, all[..m], before, last, k);
    }
  }

  /** What a row of buckets says about the samples. */
  lemma RowRead(n: nat, g: Grid, row: seq<int>)
    requires Sound(n, g) && |row| == n && Filed(g.scale, row, g.history, g.slots)
    ensures Total(row) == Held(g.history, g.slots)
    ensures n % 2 == 0 || NonNegative(g.history) ==> Total(row) == Numbers(g.history)
    ensures NonNegative(g.history) ==> forall j :: 0 <= j < n ==> row[j] == Plain(g.history, g.scale.bucketSize, j)
  {
    TalliesTotal(g.history, g.slots, row);
    if n % 2 == 0 || NonNegative(g.history) {
      WholeHeld(g.history, g.slots);
    }
    if NonNegative(g.history) {
      FiledIsPlain(g.scale, row, g.history, g.slots);
    }
  }

  lemma ReferenceStep(n: nat, all: seq<Sample>, i: nat)
    requires n >= 2 && i < |all|
    ensures Reference(n, all[..i + 1]) == Sampled(n, Reference(n, all[..i]), all[i])
  {
    assert all[..i + 1][..i] == all[..i];
  }

  /** Feed a run of samples to a new histogram. */
  method Feed(buckets: nat, all: seq<Sample>) returns (h: HistStor)
    requires buckets >= 2
    ensures fresh(h) && Shows(h, buckets, Reference(buckets, all))
  {
    h := new HistStor(buckets);
    assert Shows(h, buckets, Reference(buckets, all[..0]));
    hide Sampled, Reference, HistStor.Valid, HistStor.Faithful;
    for i := 0 to |all|
      invariant fresh(h) && fresh(h.cvec) && Shows(h, buckets, Reference(buckets, all[..i]))
    {
      ReferenceStep(buckets, all, i);
      h.Sample(all[i]);
    }
    assert all[..|all|] == all;
  }

  method Collect(buckets: nat, all: seq<Sample>) returns (row: seq<int>, bucketSize: real)
    requires buckets >= 2
    ensures var g := Reference(buckets, all);
            && |row| == buckets && bucketSize == g.scale.bucketSize >= 1.0 && Filed(g.scale, row, all, g.slots)
            && Total(row) == Held(all, g.slots)
    ensures NonNegative(all) ==> forall j :: 0 <= j < buckets ==> row[j] == Plain(all, bucketSize, j)
    ensures buckets % 2 == 0 || NonNegative(all) ==> Total(row) == Numbers(all)
    ensures NonNegative(all) ==> exists k: nat :: bucketSize == Power(k) && Least(buckets, all, k)
  {
    ghost var k: nat;
    if NonNegative(all) {
      k := LeastBuckets(buckets, all);
    }
    var h := Feed(buckets, all);
    row, bucketSize := h.cvec[..], h.bucketSize;
    hide Reference, Filed, Least;
    RowRead(buckets, Reference(buckets, all), row);
  }

  // ---------- several histograms ----------

  datatype Event = Take(at: nat, sample: Sample) | Merge(at: nat, from: nat)

  ghost predicate AllSound(n: nat, grids: seq<Grid>) {
    forall i :: 0 <= i < |grids| ==> Sound(n, grids[i])
  }

  /** Only histograms that start at the same value are added. */
  ghost predicate Legal(grids: seq<Grid>, e: Event) {
    && e.at < |grids|
    && (e.Merge? ==> e.from < |grids| && grids[e.at].scale.minBucket == grids[e.from].scale.minBucket)
  }

  ghost function Step(n: nat, grids: seq<Grid>, e: Event): (r: seq<Grid>)
    requires AllSound(n, grids) && Legal(grids, e)
    ensures AllSound(n, r) && |r| == |grids|
    ensures e.Take? ==> |r[e.at].slots| == |grids[e.at].slots| + 1 &&
                        r[e.at].scale.Within(e.sample.val, r[e.at].slots[|grids[e.at].slots|])
  {
    var g := grids[e.at];
    match e
    case Take(at, sample) =>
      SampledSound(n, g, sample);
      grids[at := Sampled(n, g, sample)]
    case Merge(at, from) =>
      JointSound(n, g, grids[from]);
      grids[from := Raised(grids[from], g.scale.bucketSize)][at := Joint(g, grids[from])]
  }

  ghost predicate LegalRun(n: nat, m: nat, events: seq<Event>)
    requires n >= 2
    decreases |events|, 0
  {
    events == [] ||
    var k := |events| - 1;
    LegalRun(n, m, events[..k]) && Legal(Run(n, m, events[..k]), events[k])
  }

  ghost function Run(n: nat, m: nat, events: seq<Event>): (r: seq<Grid>)
    requires n >= 2 && LegalRun(n, m, events)
    ensures AllSound(n, r) && |r| == m
    decreases |events|, 1
  {
    EmptySound(n);
    if events == [] then Copies(Empty(n), m)
    else
      var k := |events| - 1;
      Step(n, Run(n, m, events[..k]), events[k])
  }

  lemma {:induction false} LegalPrefix(n: nat, m: nat, events: seq<Event>, k: nat)
    requires n >= 2 && LegalRun(n, m, events) && k < |events|
    ensures LegalRun(n, m, events[..k]) && Legal(Run(n, m, events[..k]), events[k])
    ensures LegalRun(n, m, events[..k + 1]) && Run(n, m, events[..k + 1]) == Step(n, Run(n, m, events[..k]), events[k])
  {
    var last := |events| - 1;
    hide Step, Legal, AllSound;
    if k == last {
      assert events[..k + 1] == events;
    } else {
      LegalPrefix(n, m, events[..last], k);
      assert events[..last][..k] == events[..k] && events[..last][..k + 1] == events[..k + 1];
    }
  }

  /** No two histograms share their buckets. */
  ghost predicate Apart(hs: seq<HistStor>)
    reads hs
  {
    forall i, j :: 0 <= i < j < |hs| ==> hs[i] != hs[j] && hs[i].cvec != hs[j].cvec
  }

  ghost predicate AllShow(hs: seq<HistStor>, n: nat, grids: seq<Grid>)
    reads hs, set h | h in hs :: h.cvec
  {
    Apart(hs) && |hs| == |grids| && forall i :: 0 <= i < |hs| ==> Shows(hs[i], n, grids[i])
  }

  method Do(hs: seq<HistStor>, e: Event, ghost n: nat, ghost grids: seq<Grid>)
    requires AllShow(hs, n, grids) && AllSound(n, grids) && Legal(grids, e)
    modifies hs, set h | h in hs :: h.cvec
    ensures AllShow(hs, n, Step(n, grids, e)) && forall i :: 0 <= i < |hs| ==> hs[i].cvec == old(hs[i].cvec)
  {
    hide Sampled, Joint, Raised, Sound, HistStor.Valid, HistStor.Faithful;
    assert Shows(hs[e.at], n, grids[e.at]);
    match e
    case Take(at, sample) =>
      hs[at].Sample(sample);
    case Merge(at, from) =>
      assert Shows(hs[from], n, grids[from]);
      hs[at].Add(hs[from]);
  }

  method Make(buckets: nat, m: nat) returns (hs: seq<HistStor>)
    requires buckets >= 2
    ensures AllShow(hs, buckets, Copies(Empty(buckets), m)) && forall h :: h in hs ==> fresh(h) && fresh(h.cvec)
  {
    hs := [];
    hide HistStor.Valid, HistStor.Faithful;
    for i := 0 to m
      invariant |hs| == i && AllShow(hs, buckets, Copies(Empty(buckets), i))
      invariant forall h :: h in hs ==> fresh(h) && fresh(h.cvec)
    {
      var h := new HistStor(buckets);
      hs := hs + [h];
    }
  }

  /** What can be read off a histogram. */
  datatype Summary = Summary(row: seq<int>, samples: int, sums: Sums)

  /** The buckets tally the samples of the grid, and the sums are theirs. */
  ghost predicate Summarises(s: Summary, n: nat, g: Grid) {
    && |s.row| == n && Filed(g.scale, s.row, g.history, g.slots)
    && s.samples == Numbers(g.history) && s.sums == SumsOf(g.history)
  }

  method Read(h: HistStor, ghost n: nat, ghost g: Grid) returns (s: Summary)
    requires Shows(h, n, g)
    ensures Summarises(s, n, g)
  {
    s := Summary(h.cvec[..], h.samples, Sums(h.sum, h.squares, h.logs));
  }

  method ReadAll(hs: seq<HistStor>, ghost n: nat, ghost grids: seq<Grid>) returns (all: seq<Summary>)
    requires AllShow(hs, n, grids)
    ensures |all| == |hs| && forall k :: 0 <= k < |hs| ==> Summarises(all[k], n, grids[k])
  {
    all := [];
    hide Shows, Summarises;
    for i := 0 to |hs|
      invariant |all| == i && forall k :: 0 <= k < i ==> Summarises(all[k], n, grids[k])
    {
      var s := Read(hs[i], n, grids[i]);
      all := all + [s];
    }
  }

  method DoAll(buckets: nat, m: nat, events: seq<Event>) returns (hs: seq<HistStor>)
    requires buckets >= 2 && LegalRun(buckets, m, events)
    ensures AllShow(hs, buckets, Run(buckets, m, events))
  {
    hs := Make(buckets, m);
    ghost var grids := Run(buckets, m, events[..0]);
    hide AllShow, AllSound, Legal, Step;
    for i := 0 to |events|
      invariant LegalRun(buckets, m, events[..i]) && grids == Run(buckets, m, events[..i]) && AllShow(hs, buckets, grids)
      invariant forall k :: 0 <= k < |hs| ==> fresh(hs[k]) && fresh(hs[k].cvec)
    {
      LegalPrefix(buckets, m, events, i);
      Do(hs, events[i], buckets, grids);
      grids := Step(buckets, grids, events[i]);
    }
    assert events[..|events|] == events;
  }

  /** Any run of samples and additions on any number of histograms. */
  method Simulate(buckets: nat, m: nat, events: seq<Event>) returns (all: seq<Summary>)
    requires buckets >= 2 && LegalRun(buckets, m, events)
    ensures var grids := Run(buckets, m, events);
            && |all| == m
            && forall i :: 0 <= i < m ==>
                 && Summarises(all[i], buckets, grids[i])
                 && Total(all[i].row) == Held(grids[i].history, grids[i].slots)
                 && (buckets % 2 == 0 || NonNegative(grids[i].history) ==> Total(all[i].row) == all[i].samples)
                 && (NonNegative(grids[i].history) ==>
                       forall j :: 0 <= j < buckets ==> all[i].row[j] == Plain(grids[i].history, grids[i].scale.bucketSize, j))
  {
    var hs := DoAll(buckets, m, events);
    ghost var grids := Run(buckets, m, events);
    all := ReadAll(hs, buckets, grids);
    hide Filed, Sound, SumsOf;
    forall i | 0 <= i < m
      ensures Total(all[i].row) == Held(grids[i].history, grids[i].slots)
      ensures buckets % 2 == 0 || NonNegative(grids[i].history) ==> Total(all[i].row) == all[i].samples
      ensures NonNegative(grids[i].history) ==>
                forall j :: 0 <= j < buckets ==> all[i].row[j] == Plain(grids[i].history, grids[i].scale.bucketSize, j)
    {
      RowRead(buckets, grids[i], all[i].row);
    }
  }
}
