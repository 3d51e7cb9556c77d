/** Folding a row of histogram buckets pairwise, and what that does to sums and tallies. */
module Folds {
  import opened Sequences

  /** Fold neighbours together towards bucket 0; the upper half is left empty. */
  function FoldUp(s: seq<int>): seq<int> {
    seq(|s|, i requires 0 <= i < |s| =>
      if i < (|s| + 1) / 2 then s[2 * i] + (if 2 * i + 1 < |s| then s[2 * i + 1] else 0) else 0)
  }

  /** Fold towards the last bucket; the lower half is left empty. */
  function FoldConvert(s: seq<int>): seq<int> {
    seq(|s|, i requires 0 <= i < |s| =>
      if i >= (|s| + 1) / 2 then s[2 * i - |s| + 1] + s[2 * i - |s|] else 0)
  }

  /** Fold each half towards the middle. */
  function FoldOut(s: seq<int>): seq<int> {
    var zero := |s| / 2;
    var topHalf := zero + (|s| - zero + 1) / 2;
    var bottomHalf := (|s| - zero) / 2;
    seq(|s|, i requires 0 <= i < |s| =>
      if bottomHalf <= i < zero then
        s[2 * i - zero + 1] + (if 2 * i - zero >= 0 then s[2 * i - zero] else 0)
      else if zero <= i < topHalf then
        s[2 * i - zero] + (if 2 * i - zero + 1 < |s| then s[2 * i - zero + 1] else 0)
      else 0)
  }

  /** The contents of a bucket, which is nothing outside the row. */
  ghost function At(s: seq<int>, i: int): int {
    if 0 <= i < |s| then s[i] else 0
  }

  /** Bucket i of `f` takes over the buckets 2i + d and 2i + d + 1 of `s`, and those below `lo` are empty. */
  ghost predicate Paired(f: seq<int>, s: seq<int>, d: int, lo: int) {
    && |f| == |s| && 0 <= lo <= |s| && -1 <= 2 * lo + d <= 1 && -|s| <= d
    && forall i :: 0 <= i < |f| ==> f[i] == if i < lo then 0 else At(s, 2 * i + d) + At(s, 2 * i + d + 1)
  }

  lemma UpPaired(s: seq<int>)
    ensures Paired(FoldUp(s), s, 0, 0)
  {
  }

  lemma ConvertPaired(s: seq<int>)
    ensures Paired(FoldConvert(s), s, -|s|, (|s| + 1) / 2)
  {
  }

  lemma OutBottom(n: nat)
    ensures var zero, bottom := n / 2, (n - n / 2) / 2;
            2 * bottom == if n % 4 == 3 then zero + 1 else if n % 4 == 2 then zero - 1 else zero
  {
    var q, m := n / 4, n % 4;
    assert n == 4 * q + m;
    assert n / 2 == 2 * q + m / 2;
    assert n - n / 2 == 2 * q + (m - m / 2);
    assert (n - n / 2) / 2 == q + (m - m / 2) / 2;
    assert m == 0 || m == 1 || m == 2 || m == 3;
  }

  lemma OutPaired(s: seq<int>)
    ensures Paired(FoldOut(s), s, -(|s| / 2), (|s| - |s| / 2) / 2)
  {
    OutBottom(|s|);
    var zero := |s| / 2;
    forall i | (|s| - zero) / 2 <= i < |s|
      ensures FoldOut(s)[i] == At(s, 2 * i - zero) + At(s, 2 * i - zero + 1)
    {
      OutAt(s, zero, i);
    }
  }

  lemma OutAt(s: seq<int>, zero: nat, i: nat)
    requires zero == |s| / 2 && (|s| - zero) / 2 <= i < |s|
    ensures FoldOut(s)[i] == At(s, 2 * i - zero) + At(s, 2 * i - zero + 1)
  {
  }

  // ---------- sums ----------

  /** What is in the buckets from `k` on. */
  ghost function From(s: seq<int>, k: int): int {
    Total(s[if k < 0 then 0 else if k > |s| then |s| else k..])
  }

  lemma FromStep(s: seq<int>, k: int)
    ensures From(s, k) == At(s, k) + From(s, k + 1) && (k >= |s| ==> From(s, k) == 0)
  {
    if 0 <= k < |s| {
      assert s[k..][1..] == s[k + 1..];
    }
  }

  lemma {:induction false} PairedFrom(f: seq<int>, s: seq<int>, d: int, lo: int, i: nat)
    requires Paired(f, s, d, lo) && i <= |f|
    ensures From(f, i) == From(s, 2 * (if i < lo then lo else i) + d)
    decreases |f| - i
  {
    hide From;
    if i == |f| {
      FromStep(f, i);
      FromStep(s, 2 * i + d);
    } else {
      FromStep(f, i);
      PairedFrom(f, s, d, lo, i + 1);
      if i >= lo {
        FromStep(s, 2 * i + d);
        FromStep(s, 2 * i + d + 1);
      }
    }
  }

  /** Folding loses the first bucket if no bucket takes it over, and nothing else. */
  lemma PairedTotal(f: seq<int>, s: seq<int>, d: int, lo: int)
    requires Paired(f, s, d, lo)
    ensures Total(f) == Total(s) - if 2 * lo + d == 1 then At(s, 0) else 0
  {
    PairedFrom(f, s, d, lo, 0);
    FromStep(s, -1);
    FromStep(s, 0);
    assert f[0..] == f && s[0..] == s;
  }

  lemma TotalFoldUp(s: seq<int>)
    ensures Total(FoldUp(s)) == Total(s)
  {
    UpPaired(s);
    PairedTotal(FoldUp(s), s, 0, 0);
  }

  /** The conversion loses the first bucket of an odd number, and nothing else. */
  lemma TotalFoldConvert(s: seq<int>)
    requires s != []
    ensures Total(FoldConvert(s)) == Total(s) - if |s| % 2 == 1 then s[0] else 0
  {
    ConvertPaired(s);
    hide FoldConvert, Total, Paired;
    PairedTotal(FoldConvert(s), s, -|s|, (|s| + 1) / 2);
  }

  /** Folding outwards loses the first bucket when their number is 3 modulo 4, and nothing else. */
  lemma TotalFoldOut(s: seq<int>)
    requires s != []
    ensures Total(FoldOut(s)) == Total(s) - if |s| % 4 == 3 then s[0] else 0
  {
    hide FoldOut, Total, Paired;
    OutPaired(s);
    OutBottom(|s|);
    PairedTotal(FoldOut(s), s, -(|s| / 2), (|s| - |s| / 2) / 2);
  }

  // ---------- tallies ----------

  /** One call of sample; `log` is what the library gives as the logarithm of `val`. */
  datatype Sample = Sample(val: real, number: int, log: real)

  /** How much of the samples is filed under slot `i`. */
  ghost function Tally(history: seq<Sample>, slots: seq<int>, i: int): int
    requires |history| == |slots|
  {
    if history == [] then 0
    else
      var n := |history| - 1;
      Tally(history[..n], slots[..n], i) + if slots[n] == i then history[n].number else 0
  }

  /** The slot of a sample that is in no bucket any more. */
  const LOST := -2

  /** The buckets hold the tallies of the samples that are not lost. */
  ghost predicate Counted(buckets: seq<int>, history: seq<Sample>, slots: seq<int>) {
    && |history| == |slots|
    && (forall k :: 0 <= k < |slots| ==> slots[k] == LOST || 0 <= slots[k] < |buckets|)
    && forall i :: 0 <= i < |buckets| ==> buckets[i] == Tally(history, slots, i)
  }

  lemma {:induction false} TallyNone(history: seq<Sample>, slots: seq<int>, i: int)
    requires |history| == |slots| && forall k :: 0 <= k < |slots| ==> slots[k] != i
    ensures Tally(history, slots, i) == 0
  {
    if history == [] {
    } else {
      TallyNone(history[..|history| - 1], slots[..|history| - 1], i);
    }
  }

  /** A slot that takes over two old ones takes over their tallies. */
  lemma {:induction false} TallyPair(history: seq<Sample>, slots: seq<int>, slots': seq<int>, i: int, a: int, b: int)
    requires |history| == |slots| == |slots'| && a != b
    requires forall k :: 0 <= k < |slots| ==> (slots'[k] == i <==> slots[k] == a || slots[k] == b)
    ensures Tally(history, slots', i) == Tally(history, slots, a) + Tally(history, slots, b)
  {
    if history == [] {
    } else {
      var n := |history| - 1;
      TallyPair(history[..n], slots[..n], slots'[..n], i, a, b);
    }
  }

  /** Where samples go when bucket i takes over the old buckets 2i + d and 2i + d + 1, if it is not below `lo`. */
  ghost function Moved(slots: seq<int>, d: int, lo: int): (m: seq<int>)
    ensures |m| == |slots|
  {
    seq(|slots|, k requires 0 <= k < |slots| =>
      if slots[k] == LOST || (slots[k] - d) / 2 < lo then LOST else (slots[k] - d) / 2)
  }

  lemma MovedAt(slots: seq<int>, d: int, lo: int, k: nat)
    requires k < |slots| && Moved(slots, d, lo)[k] != LOST
    ensures slots[k] != LOST && 2 * Moved(slots, d, lo)[k] + d <= slots[k] <= 2 * Moved(slots, d, lo)[k] + d + 1
  {
  }

  /** If the slots move along with the buckets, the tallies stay right. */
  lemma PairedCounted(buckets: seq<int>, f: seq<int>, history: seq<Sample>, slots: seq<int>, d: int, lo: int)
    requires Counted(buckets, history, slots) && Paired(f, buckets, d, lo) && d <= 0
    ensures Counted(f, history, Moved(slots, d, lo))
    ensures forall k :: 0 <= k < |slots| && slots[k] != LOST ==>
              (Moved(slots, d, lo)[k] == LOST <==> 2 * lo + d == 1 && slots[k] == 0)
  {
    var slots' := Moved(slots, d, lo);
    forall i | 0 <= i < |f|
      ensures f[i] == Tally(history, slots', i)
    {
      if i < lo {
        TallyNone(history, slots', i);
      } else {
        TallyPair(history, slots, slots', i, 2 * i + d, 2 * i + d + 1);
        AtIsTally(buckets, history, slots, 2 * i + d);
        AtIsTally(buckets, history, slots, 2 * i + d + 1);
      }
    }
  }

  lemma AtIsTally(buckets: seq<int>, history: seq<Sample>, slots: seq<int>, i: int)
    requires Counted(buckets, history, slots) && i != LOST
    ensures At(buckets, i) == Tally(history, slots, i)
  {
    if !(0 <= i < |buckets|) {
      TallyNone(history, slots, i);
    }
  }

  lemma FoldUpCounted(buckets: seq<int>, history: seq<Sample>, slots: seq<int>)
    requires Counted(buckets, history, slots)
    ensures Counted(FoldUp(buckets), history, Moved(slots, 0, 0))
  {
    UpPaired(buckets);
    PairedCounted(buckets, FoldUp(buckets), history, slots, 0, 0);
  }

  /** With an odd number of buckets exactly the samples of the first one are lost. */
  lemma FoldConvertCounted(buckets: seq<int>, history: seq<Sample>, slots: seq<int>)
    requires Counted(buckets, history, slots)
    ensures var slots' := Moved(slots, -|buckets|, (|buckets| + 1) / 2);
            && Counted(FoldConvert(buckets), history, slots')
            && forall k :: 0 <= k < |slots| && slots[k] != LOST ==> (slots'[k] == LOST <==> |buckets| % 2 == 1 && slots[k] == 0)
  {
    ConvertPaired(buckets);
    PairedCounted(buckets, FoldConvert(buckets), history, slots, -|buckets|, (|buckets| + 1) / 2);
  }

  /** The same if their number is 3 modulo 4. */
  lemma FoldOutCounted(buckets: seq<int>, history: seq<Sample>, slots: seq<int>)
    requires Counted(buckets, history, slots)
    ensures var slots' := Moved(slots, -(|buckets| / 2), (|buckets| - |buckets| / 2) / 2);
            && Counted(FoldOut(buckets), history, slots')
            && forall k :: 0 <= k < |slots| && slots[k] != LOST ==> (slots'[k] == LOST <==> |buckets| % 4 == 3 && slots[k] == 0)
  {
    OutPaired(buckets);
    OutBottom(|buckets|);
    PairedCounted(buckets, FoldOut(buckets), history, slots, -(|buckets| / 2), (|buckets| - |buckets| / 2) / 2);
  }
}
