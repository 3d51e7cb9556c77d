/** Queues of records that each stand for a number of bytes, as values. */
module ByteQueues {
  import opened Sequences

  ghost predicate NonNegative(a: seq<int>) {
    forall i :: 0 <= i < |a| ==> a[i] >= 0
  }

  ghost predicate AllPositive(a: seq<int>) {
    forall i :: 0 <= i < |a| ==> a[i] > 0
  }

  /** The queue byte by byte, each byte tagged with the record it belongs to. */
  ghost function Spread<T>(tags: seq<T>, a: seq<int>): (s: seq<T>)
    requires |tags| == |a| && NonNegative(a)
    ensures |s| == Total(a)
  {
    if a == [] then [] else Copies(tags[0], a[0]) + Spread(tags[1..], a[1..])
  }

  lemma {:induction false} SpreadConcat<T>(tags: seq<T>, a: seq<int>, tags': seq<T>, b: seq<int>)
    requires |tags| == |a| && |tags'| == |b| && NonNegative(a) && NonNegative(b)
    ensures Spread(tags + tags', a + b) == Spread(tags, a) + Spread(tags', b)
  {
    if a == [] {
      assert a + b == b && tags + tags' == tags';
    } else {
      assert (a + b)[1..] == a[1..] + b && (tags + tags')[1..] == tags[1..] + tags';
      SpreadConcat(tags[1..], a[1..], tags', b);
    }
  }

  // ---------- the front ----------

  lemma TotalHead(a: seq<int>, k: nat)
    requires k < |a|
    ensures Total(a[k..]) == a[k] + Total(a[k + 1..])
    ensures a[k..][1..] == a[k + 1..]
  {
    assert a[k..][1..] == a[k + 1..];
  }

  lemma TotalTrimmed(a: seq<int>, k: nat, n: int)
    requires k < |a|
    ensures Total(a[k..][0 := a[k] - n]) == Total(a[k..]) - n
  {
    assert a[k..][0 := a[k] - n][1..] == a[k..][1..];
  }

  /** Skipping bytes at the front: whole records first, then part of one. */
  lemma SkipHead<T>(tags: seq<T>, a: seq<int>, k: nat, n: nat)
    requires |tags| == |a| && NonNegative(a) && k < |a| && n <= Total(a[k..])
    ensures n >= a[k] ==> n - a[k] <= Total(a[k + 1..]) &&
                          Spread(tags[k..], a[k..])[n..] == Spread(tags[k + 1..], a[k + 1..])[n - a[k]..]
    ensures n < a[k] ==> Spread(tags[k..], a[k..])[n..] == Spread(tags[k..], a[k..][0 := a[k] - n])
  {
    TotalHead(a, k);
    assert tags[k..][1..] == tags[k + 1..];
    if n < a[k] {
      var b := a[k..][0 := a[k] - n];
      assert b[1..] == a[k + 1..];
    }
  }

  // ---------- the back ----------

  lemma TotalLast(a: seq<int>, k: nat)
    requires k < |a|
    ensures Total(a[..k + 1]) == Total(a[..k]) + a[k]
  {
    assert a[..k + 1] == a[..k] + [a[k]];
    TotalConcat(a[..k], [a[k]]);
  }

  lemma TotalCut(a: seq<int>, k: nat, n: int)
    requires k < |a|
    ensures Total(a[..k + 1][k := a[k] - n]) == Total(a[..k + 1]) - n
  {
    assert a[..k + 1][k := a[k] - n] == a[..k] + [a[k] - n];
    TotalConcat(a[..k], [a[k] - n]);
    TotalLast(a, k);
  }

  lemma SpreadLast<T>(tags: seq<T>, a: seq<int>, k: nat, m: nat)
    requires |tags| == |a| && NonNegative(a) && k < |a|
    ensures Spread(tags[..k + 1], a[..k + 1][k := m]) == Spread(tags[..k], a[..k]) + Copies(tags[k], m)
  {
    var b := a[..k] + [m];
    assert a[..k + 1][k := m] == b && tags[..k + 1] == tags[..k] + [tags[k]];
    SpreadConcat(tags[..k], a[..k], [tags[k]], [m]);
    assert Spread([tags[k]], [m]) == Copies(tags[k], m);
  }

  /** Keeping bytes from the front: drop whole records at the back, then part of one. */
  lemma CutLast<T>(tags: seq<T>, a: seq<int>, k: nat, keep: nat)
    requires |tags| == |a| && NonNegative(a) && k < |a| && keep <= Total(a[..k + 1])
    ensures keep <= Total(a[..k]) ==> Spread(tags[..k + 1], a[..k + 1])[..keep] == Spread(tags[..k], a[..k])[..keep]
    ensures keep >= Total(a[..k]) ==>
              Spread(tags[..k + 1], a[..k + 1])[..keep] == Spread(tags[..k + 1], a[..k + 1][k := keep - Total(a[..k])])
  {
    TotalLast(a, k);
    assert a[..k + 1][k := a[k]] == a[..k + 1];
    SpreadLast(tags, a, k, a[k]);
    if keep >= Total(a[..k]) {
      SpreadLast(tags, a, k, keep - Total(a[..k]));
    }
  }

  /** One step at the back of a queue of which `keep` bytes are to stay. */
  lemma BackStep<T>(tags: seq<T>, a: seq<int>, n: nat, keep: nat, need: int)
    requires |tags| == |a| && n < |a| && Total(a[..n + 1]) == keep + need && need > 0
    ensures Total(a[..n]) == keep + need - a[n]
    ensures Total(a[..n + 1][n := a[n] - need]) == keep
    ensures NonNegative(a) && a[n] <= need ==>
              Spread(tags[..n + 1], a[..n + 1])[..keep] == Spread(tags[..n], a[..n])[..keep]
    ensures NonNegative(a) && a[n] >= need ==>
              Spread(tags[..n + 1], a[..n + 1])[..keep] == Spread(tags[..n + 1], a[..n + 1][n := a[n] - need])
  {
    TotalLast(a, n);
    TotalCut(a, n, need);
    if NonNegative(a) {
      CutLast(tags, a, n, keep);
    }
  }
}
